/** A client of the store: two users register, befriend each other and
    exchange one message; the handlers' contracts and the query definitions
    fix every answer. */
module Scenario {
  import opened ListOps
  import opened Entities
  import opened Directory
  import opened FriendGraph
  import opened MessageLog
  import opened ChatSummaries
  import opened Messenger

  /** Alice and Bob register and become friends; a repeated and a
      self-directed friend request are refused. */
  method AliceAndBobBefriend() returns (s: Store)
    ensures fresh(s) && s.Valid()
    ensures s.users == [User("u1", "CA", "Alice", "1", 0), User("u2", "CB", "Bob", "2", 1)]
    ensures s.friendships == [Friendship("f1", "CA", "CB", 2)]
    ensures s.messages == []
  {
    s := new Store();
    var ra := s.Register("u1", "CA", "Alice", "1", 0);
    assert ra == Ok(UserView("CA", "Alice", "1"));
    assert "1" != "2";
    var rb := s.Register("u2", "CB", "Bob", "2", 1);
    assert rb == Ok(UserView("CB", "Bob", "2"));
    assert s.users[0].code == "CA" && s.users[1].code == "CB";
    assert "CA" != "CB";

    var rf := s.AddFriend("f1", "CA", "CB", 2);
    assert rf == Pass;
    var again := s.AddFriend("f2", "CB", "CA", 3);
    assert Links(s.friendships[0], "CB", "CA");
    assert again == Fail(AlreadyFriends);
    var self := s.AddFriend("f3", "CA", "CA", 4);
    assert self == Fail(SelfFriendship);
  }

  /** Alice sends "hi"; the conversation and Alice's chat list follow. */
  method AliceAndBob() {
    var s := AliceAndBobBefriend();
    assert s.users[0].code == "CA" && s.users[1].code == "CB";
    assert Links(s.friendships[0], "CA", "CB");
    var rm := s.SendMessage("m1", "CA", "CB", "hi", 5);
    assert rm == Pass;
    var hi := Message("m1", "CA", "CB", "hi", 5);
    assert s.messages == [hi];

    QueriesAfterHi(s.users, s.friendships, s.messages);
    assert s.Messages("CA", "CB") == [hi];
    assert s.Chats("CA") == [ChatSummary("CB", "Bob", Some("hi"))];
  }

  lemma QueriesAfterHi(users: seq<User>, fs: seq<Friendship>, ms: seq<Message>)
    requires users == [User("u1", "CA", "Alice", "1", 0), User("u2", "CB", "Bob", "2", 1)]
    requires fs == [Friendship("f1", "CA", "CB", 2)]
    requires ms == [Message("m1", "CA", "CB", "hi", 5)]
    ensures History(ms, "CA", "CB") == ms
    ensures ChatsFor(users, fs, ms, "CA") == [ChatSummary("CB", "Bob", Some("hi"))]
  {
    HistoryAfterSend([], ms[0], "CA", "CB");
    LatestAfterSend([], ms[0], "CA", "CB");
    assert [] + [ms[0]] == ms;
    assert LastText(ms, "CA", "CB") == Some("hi");
    assert "CA" != "CB";
    assert Touching(fs, "CA") == fs;
    assert FindUser(users, "CB") == Some(users[1]);
    assert SummaryFor(users, ms, "CA", fs[0]) == Some(ChatSummary("CB", "Bob", Some("hi")));
  }
}
