/** `GET /api/chats/:userCode`: one summary per edge touching the user, in
    edge order, each naming the other end and the newest message between them. */
module ChatSummaries {
  import opened ListOps
  import opened Entities
  import opened Directory
  import opened FriendGraph
  import opened MessageLog
  import opened StoreInvariants

  /** `chatMessages[0] ? chatMessages[0].text : null`. */
  function LastText(ms: seq<Message>, u: string, c: string): (r: Option<string>)
    ensures r.None? <==> PairMessages(ms, u, c) == []
  {
    match Latest(ms, u, c)
    case None => None
    case Some(m) => Some(m.text)
  }

  /** The summary of one edge, or nothing when its other end resolves to no user. */
  function SummaryFor(users: seq<User>, ms: seq<Message>, u: string, f: Friendship): (r: Option<ChatSummary>)
    ensures r.None? <==> !Registered(users, OtherEnd(f, u))
    ensures r.Some? ==> r.value.userCode == OtherEnd(f, u) && r.value.lastMessage == LastText(ms, u, OtherEnd(f, u))
  {
    var friendCode := OtherEnd(f, u);
    match FindUser(users, friendCode)
    case None => None
    case Some(friend) => Some(ChatSummary(friend.code, friend.name, LastText(ms, u, friendCode)))
  }

  /** The chat list: the summaries of the edges touching `u`, in edge order,
      with the edges whose other end resolves to no user dropped. */
  function ChatsFor(users: seq<User>, fs: seq<Friendship>, ms: seq<Message>, u: string): (r: seq<ChatSummary>)
    ensures |r| <= |Touching(fs, u)|
  {
    var t := Touching(fs, u);
    Present(seq(|t|, i requires 0 <= i < |t| => SummaryFor(users, ms, u, t[i])))
  }

  /** `c` summarises edge `f` for `u`: it names the other end, that end's
      first user's name, and the newest message of their conversation. */
  ghost predicate Summarizes(users: seq<User>, ms: seq<Message>, u: string, f: Friendship, c: ChatSummary) {
    && c.userCode == OtherEnd(f, u)
    && Registered(users, c.userCode)
    && c.name == FindUser(users, c.userCode).value.name
    && c.lastMessage == LastText(ms, u, c.userCode)
  }

  /** Every entry summarises some edge touching `u`; there are no more entries than such edges. */
  lemma ChatsForSound(users: seq<User>, fs: seq<Friendship>, ms: seq<Message>, u: string)
    ensures |ChatsFor(users, fs, ms, u)| <= |Touching(fs, u)|
    ensures forall c :: c in ChatsFor(users, fs, ms, u) ==>
              exists f :: f in fs && Touches(f, u) && Summarizes(users, ms, u, f, c)
  {
  }

  /** When every edge's ends resolve, nothing is dropped: entry `i`
      summarises the `i`-th edge touching `u`. */
  lemma ChatsForComplete(users: seq<User>, fs: seq<Friendship>, ms: seq<Message>, u: string)
    requires EdgesResolve(users, fs)
    ensures |ChatsFor(users, fs, ms, u)| == |Touching(fs, u)|
    ensures forall i :: 0 <= i < |Touching(fs, u)| ==>
              Summarizes(users, ms, u, Touching(fs, u)[i], ChatsFor(users, fs, ms, u)[i])
  {
    var t := Touching(fs, u);
    var opts := seq(|t|, i requires 0 <= i < |t| => SummaryFor(users, ms, u, t[i]));
    forall i | 0 <= i < |t| ensures opts[i].Some? && Summarizes(users, ms, u, t[i], opts[i].value) {
      var k :| 0 <= k < |fs| && fs[k] == t[i];
      assert Registered(users, OtherEnd(t[i], u));
    }
    PresentAll(opts);
  }

  /** Each friend appears at most once, because each unordered pair has at most one edge. */
  lemma ChatsForDistinct(users: seq<User>, fs: seq<Friendship>, ms: seq<Message>, u: string)
    requires StoreInvariant(users, fs, ms)
    ensures forall i, j :: 0 <= i < j < |ChatsFor(users, fs, ms, u)| ==>
              ChatsFor(users, fs, ms, u)[i].userCode != ChatsFor(users, fs, ms, u)[j].userCode
  {
    var t := Touching(fs, u);
    var chats := ChatsFor(users, fs, ms, u);
    ChatsForComplete(users, fs, ms, u);
    var apart := (f: Friendship, g: Friendship) => !Links(g, f.user1, f.user2);
    FilterKeepsPairwise(fs, (f: Friendship) => Touches(f, u), apart);
    forall i, j | 0 <= i < j < |chats| ensures chats[i].userCode != chats[j].userCode {
      assert apart(t[i], t[j]);
      assert Touches(t[i], u) && Touches(t[j], u);
    }
  }

  /** `ChatsForComplete` and `ChatsForDistinct` together, for a state that
      may or may not satisfy the invariant. */
  lemma ChatsForUnderInvariant(users: seq<User>, fs: seq<Friendship>, ms: seq<Message>, u: string)
    ensures StoreInvariant(users, fs, ms) ==> |ChatsFor(users, fs, ms, u)| == |Touching(fs, u)|
    ensures StoreInvariant(users, fs, ms) ==> forall i :: 0 <= i < |Touching(fs, u)| ==>
              Summarizes(users, ms, u, Touching(fs, u)[i], ChatsFor(users, fs, ms, u)[i])
    ensures StoreInvariant(users, fs, ms) ==> forall i, j :: 0 <= i < j < |ChatsFor(users, fs, ms, u)| ==>
              ChatsFor(users, fs, ms, u)[i].userCode != ChatsFor(users, fs, ms, u)[j].userCode
  {
    if StoreInvariant(users, fs, ms) {
      ChatsForComplete(users, fs, ms, u);
      ChatsForDistinct(users, fs, ms, u);
    }
  }

  /** A code that resolves to no user has no chats. */
  lemma ChatsForUnknownUser(users: seq<User>, fs: seq<Friendship>, ms: seq<Message>, u: string)
    requires EdgesResolve(users, fs)
    requires !Registered(users, u)
    ensures ChatsFor(users, fs, ms, u) == []
  {
  }
}
