/** What the three guarded writes keep true of the store, and what follows. */
module StoreInvariants {
  import opened ListOps
  import opened Entities
  import opened Directory
  import opened FriendGraph

  /** No two users share a phone. */
  ghost predicate PhonesUnique(users: seq<User>) {
    forall i, j :: 0 <= i < j < |users| ==> users[i].phone != users[j].phone
  }

  /** No edge joins a code to itself. */
  ghost predicate NoSelfLoops(fs: seq<Friendship>) {
    forall i :: 0 <= i < |fs| ==> fs[i].user1 != fs[i].user2
  }

  /** No later edge joins the same unordered pair as an earlier one. */
  ghost predicate EdgesUnique(fs: seq<Friendship>) {
    forall i, j :: 0 <= i < j < |fs| ==> !Links(fs[j], fs[i].user1, fs[i].user2)
  }

  /** Both ends of every edge are registered codes. */
  ghost predicate EdgesResolve(users: seq<User>, fs: seq<Friendship>) {
    forall i :: 0 <= i < |fs| ==> Registered(users, fs[i].user1) && Registered(users, fs[i].user2)
  }

  /** Every message was sent along an edge. */
  ghost predicate MessagesOnEdges(fs: seq<Friendship>, ms: seq<Message>) {
    forall i :: 0 <= i < |ms| ==> Friends(fs, ms[i].fromUser, ms[i].toUser)
  }

  ghost predicate StoreInvariant(users: seq<User>, fs: seq<Friendship>, ms: seq<Message>) {
    && PhonesUnique(users)
    && NoSelfLoops(fs)
    && EdgesUnique(fs)
    && EdgesResolve(users, fs)
    && MessagesOnEdges(fs, ms)
  }

  lemma EmptyStoreInvariant()
    ensures StoreInvariant([], [], [])
  {
  }

  lemma RegisteredGrows(users: seq<User>, u: User, code: string)
    requires Registered(users, code)
    ensures Registered(users + [u], code)
  {
    var i :| 0 <= i < |users| && users[i].code == code;
    assert (users + [u])[i] == users[i];
  }

  lemma FriendsGrow(fs: seq<Friendship>, f: Friendship, a: string, b: string)
    requires Friends(fs, a, b)
    ensures Friends(fs + [f], a, b)
  {
    var i :| 0 <= i < |fs| && Links(fs[i], a, b);
    assert (fs + [f])[i] == fs[i];
  }

  /** Registering a user whose phone is new keeps the invariant. */
  lemma RegisterKeepsInvariant(users: seq<User>, fs: seq<Friendship>, ms: seq<Message>, u: User)
    requires StoreInvariant(users, fs, ms)
    requires FindUserByPhone(users, u.phone).None?
    ensures StoreInvariant(users + [u], fs, ms)
  {
    var users' := users + [u];
    forall i, j | 0 <= i < j < |users'| ensures users'[i].phone != users'[j].phone {
      assert users'[i] == users[i];
      if j < |users| {
        assert users'[j] == users[j];
      }
    }
    forall i | 0 <= i < |fs| ensures Registered(users', fs[i].user1) && Registered(users', fs[i].user2) {
      RegisteredGrows(users, u, fs[i].user1);
      RegisteredGrows(users, u, fs[i].user2);
    }
  }

  /** Adding an edge between two distinct registered codes that are not yet
      friends keeps the invariant. */
  lemma AddFriendKeepsInvariant(users: seq<User>, fs: seq<Friendship>, ms: seq<Message>, f: Friendship)
    requires StoreInvariant(users, fs, ms)
    requires Registered(users, f.user1) && Registered(users, f.user2)
    requires f.user1 != f.user2
    requires FindFriendship(fs, f.user1, f.user2).None?
    ensures StoreInvariant(users, fs + [f], ms)
  {
    var fs' := fs + [f];
    forall i, j | 0 <= i < j < |fs'| ensures !Links(fs'[j], fs'[i].user1, fs'[i].user2) {
      assert fs'[i] == fs[i];
      if j < |fs| {
        assert fs'[j] == fs[j];
      } else if Links(f, fs[i].user1, fs[i].user2) {
        assert Links(fs[i], f.user1, f.user2);
        assert false;
      }
    }
    forall i | 0 <= i < |ms| ensures Friends(fs', ms[i].fromUser, ms[i].toUser) {
      FriendsGrow(fs, f, ms[i].fromUser, ms[i].toUser);
    }
  }

  /** Logging a message between two friends keeps the invariant. */
  lemma SendKeepsInvariant(users: seq<User>, fs: seq<Friendship>, ms: seq<Message>, m: Message)
    requires StoreInvariant(users, fs, ms)
    requires FindFriendship(fs, m.fromUser, m.toUser).Some?
    ensures StoreInvariant(users, fs, ms + [m])
  {
  }

  /** No code is its own friend, so a message to oneself is always refused. */
  lemma NoSelfFriendship(users: seq<User>, fs: seq<Friendship>, ms: seq<Message>, a: string)
    requires StoreInvariant(users, fs, ms)
    ensures FindFriendship(fs, a, a).None?
  {
  }

  /** Every logged message joins two distinct registered codes. */
  lemma MessagesJoinRegisteredPairs(users: seq<User>, fs: seq<Friendship>, ms: seq<Message>)
    requires StoreInvariant(users, fs, ms)
    ensures forall i :: 0 <= i < |ms| ==> ms[i].fromUser != ms[i].toUser
    ensures forall i :: 0 <= i < |ms| ==> Registered(users, ms[i].fromUser) && Registered(users, ms[i].toUser)
  {
  }
}
