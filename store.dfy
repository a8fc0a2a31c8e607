/** The store behind the HTTP handlers: three module-level arrays, written by
    register, add-friend and send-message and read by the chats, messages and
    user handlers. Identifiers, codes and timestamps are parameters. */
module Messenger {
  import opened StableSort
  import opened Entities
  import opened Directory
  import opened FriendGraph
  import opened MessageLog
  import opened StoreInvariants
  import opened ChatSummaries

  class Store {
    var users: seq<User>
    var friendships: seq<Friendship>
    var messages: seq<Message>

    ghost predicate Valid()
      reads this
    {
      StoreInvariant(users, friendships, messages)
    }

    constructor ()
      ensures Valid()
      ensures users == [] && friendships == [] && messages == []
    {
      users, friendships, messages := [], [], [];
    }

    /** `POST /api/register`: refused when the phone is taken; otherwise the
        user is appended and its public view returned. */
    method Register(id: string, code: string, name: string, phone: string, createdAt: nat)
      returns (r: Result<UserView>)
      requires Valid()
      modifies this
      ensures Valid()
      ensures friendships == old(friendships) && messages == old(messages)
      ensures FindUserByPhone(old(users), phone).Some? ==> r == Err(DuplicatePhone) && users == old(users)
      ensures FindUserByPhone(old(users), phone).None? ==>
                && r == Ok(UserView(code, name, phone))
                && users == old(users) + [User(id, code, name, phone, createdAt)]
    {
      var existingUser := FindUserByPhone(users, phone);
      if existingUser.Some? {
        return Err(DuplicatePhone);
      }
      var user := User(id, code, name, phone, createdAt);
      RegisterKeepsInvariant(users, friendships, messages, user);
      users := users + [user];
      r := Ok(View(user));
    }

    /** `POST /api/add-friend`: "not found" first, then "self", then
        "already friends" (either orientation); otherwise one edge is appended. */
    method AddFriend(id: string, userCode: string, friendCode: string, createdAt: nat)
      returns (r: Outcome)
      requires Valid()
      modifies this
      ensures Valid()
      ensures users == old(users) && messages == old(messages)
      ensures r == Fail(UserNotFound) <==>
                !Registered(old(users), userCode) || !Registered(old(users), friendCode)
      ensures r == Fail(SelfFriendship) <==>
                Registered(old(users), userCode) && Registered(old(users), friendCode) && userCode == friendCode
      ensures r == Fail(AlreadyFriends) <==>
                && Registered(old(users), userCode) && Registered(old(users), friendCode)
                && userCode != friendCode && Friends(old(friendships), userCode, friendCode)
      ensures r == Pass <==>
                && Registered(old(users), userCode) && Registered(old(users), friendCode)
                && userCode != friendCode && !Friends(old(friendships), userCode, friendCode)
      ensures friendships == if r == Pass then old(friendships) + [Friendship(id, userCode, friendCode, createdAt)]
                             else old(friendships)
    {
      var user := FindUser(users, userCode);
      var friend := FindUser(users, friendCode);
      if user.None? || friend.None? {
        return Fail(UserNotFound);
      }
      if user.value.code == friend.value.code {
        return Fail(SelfFriendship);
      }
      var existingFriendship := FindFriendship(friendships, user.value.code, friend.value.code);
      if existingFriendship.Some? {
        return Fail(AlreadyFriends);
      }
      var f := Friendship(id, user.value.code, friend.value.code, createdAt);
      AddFriendKeepsInvariant(users, friendships, messages, f);
      friendships := friendships + [f];
      r := Pass;
    }

    /** `POST /api/send-message`: "not found" unless both codes resolve, then
        "not friends" unless an edge joins them; otherwise one message is appended. */
    method SendMessage(id: string, fromUser: string, toUser: string, text: string, timestamp: nat)
      returns (r: Outcome)
      requires Valid()
      modifies this
      ensures Valid()
      ensures users == old(users) && friendships == old(friendships)
      ensures r == Fail(UserNotFound) <==>
                !Registered(old(users), fromUser) || !Registered(old(users), toUser)
      ensures r == Fail(NotFriends) <==>
                Registered(old(users), fromUser) && Registered(old(users), toUser) &&
                !Friends(old(friendships), fromUser, toUser)
      ensures r == Pass <==>
                Registered(old(users), fromUser) && Registered(old(users), toUser) &&
                Friends(old(friendships), fromUser, toUser)
      ensures messages == if r == Pass then old(messages) + [Message(id, fromUser, toUser, text, timestamp)]
                          else old(messages)
    {
      var fromUserObj := FindUser(users, fromUser);
      var toUserObj := FindUser(users, toUser);
      if fromUserObj.None? || toUserObj.None? {
        return Fail(UserNotFound);
      }
      var friendship := FindFriendship(friendships, fromUser, toUser);
      if friendship.None? {
        return Fail(NotFriends);
      }
      var message := Message(id, fromUser, toUser, text, timestamp);
      SendKeepsInvariant(users, friendships, messages, message);
      messages := messages + [message];
      r := Pass;
    }

    /** `GET /api/chats/:userCode`: in every state each entry summarises an
        edge touching the user; in a valid state there is exactly one entry
        per such edge, in edge order, and no friend appears twice. */
    function Chats(userCode: string): (r: seq<ChatSummary>)
      reads this
      ensures |r| <= |Touching(friendships, userCode)|
      ensures forall c :: c in r ==>
                exists f :: f in friendships && Touches(f, userCode) && Summarizes(users, messages, userCode, f, c)
      ensures Valid() ==> |r| == |Touching(friendships, userCode)|
      ensures Valid() ==> forall i :: 0 <= i < |r| ==>
                Summarizes(users, messages, userCode, Touching(friendships, userCode)[i], r[i])
      ensures Valid() ==> forall i, j :: 0 <= i < j < |r| ==> r[i].userCode != r[j].userCode
    {
      ChatsForSound(users, friendships, messages, userCode);
      ChatsForUnderInvariant(users, friendships, messages, userCode);
      ChatsFor(users, friendships, messages, userCode)
    }

    /** `GET /api/messages/:userCode/:friendCode`. */
    function Messages(userCode: string, friendCode: string): (r: seq<Message>)
      reads this
      ensures forall m :: multiset(r)[m] == if InPair(m, userCode, friendCode) then multiset(messages)[m] else 0
      ensures forall i, j :: 0 <= i < j < |r| ==> r[i].timestamp <= r[j].timestamp
      ensures forall t :: Keyed(r, Ts, t) == Keyed(PairMessages(messages, userCode, friendCode), Ts, t)
    {
      HistoryContents(messages, userCode, friendCode);
      HistoryOrder(messages, userCode, friendCode);
      History(messages, userCode, friendCode)
    }

    /** `GET /api/user/:userCode`: the public view of the first user with
        that code, or "not found". */
    function UserInfo(userCode: string): (r: Result<UserView>)
      reads this
      ensures r.Err? <==> !Registered(users, userCode)
      ensures r.Err? ==> r.error == UserNotFound
      ensures r.Ok? ==> exists i :: 0 <= i < |users| && users[i].code == userCode && r.value == View(users[i]) &&
                                    forall j :: 0 <= j < i ==> users[j].code != userCode
    {
      match FindUser(users, userCode)
      case None => Err(UserNotFound)
      case Some(u) => Ok(View(u))
    }
  }
}
