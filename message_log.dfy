/** The message log: the messages of one conversation, sorted oldest first
    (the messages handler) and the newest one (the chat list). */
module MessageLog {
  import opened ListOps
  import opened StableSort
  import opened Entities

  /** The message went from `a` to `b` or from `b` to `a`. */
  predicate InPair(m: Message, a: string, b: string) {
    (m.fromUser == a && m.toUser == b) || (m.fromUser == b && m.toUser == a)
  }

  /** The conversation between `a` and `b`, in log order. */
  function PairMessages(ms: seq<Message>, a: string, b: string): (r: seq<Message>)
    ensures |r| <= |ms|
    ensures forall i :: 0 <= i < |r| ==> InPair(r[i], a, b)
    ensures forall i :: 0 <= i < |ms| && InPair(ms[i], a, b) ==> ms[i] in r
  {
    Filter(ms, (m: Message) => InPair(m, a, b))
  }

  /** Sort key of `(x, y) => x.timestamp - y.timestamp`. */
  function Ts(m: Message): int { m.timestamp }

  /** Sort key of `(x, y) => y.timestamp - x.timestamp`. */
  function NegTs(m: Message): int { -(m.timestamp as int) }

  /** Sorting the conversation, by any key, keeps it inside the conversation. */
  lemma SortedPairMessages(ms: seq<Message>, a: string, b: string, key: Message -> int)
    ensures forall i :: 0 <= i < |SortBy(PairMessages(ms, a, b), key)| ==> InPair(SortBy(PairMessages(ms, a, b), key)[i], a, b)
  {
    var p := PairMessages(ms, a, b);
    var r := SortBy(p, key);
    SortByPermutes(p, key);
    forall i | 0 <= i < |r| ensures InPair(r[i], a, b) {
      assert r[i] in multiset(r);
      assert r[i] in p;
    }
  }

  /** `GET /api/messages/:userCode/:friendCode`. */
  function History(ms: seq<Message>, a: string, b: string): (r: seq<Message>)
    ensures |r| == |PairMessages(ms, a, b)|
    ensures forall i :: 0 <= i < |r| ==> InPair(r[i], a, b)
  {
    SortedPairMessages(ms, a, b, Ts);
    SortBy(PairMessages(ms, a, b), Ts)
  }

  /** The head of the conversation sorted newest first, if there is one. */
  function Latest(ms: seq<Message>, a: string, b: string): (r: Option<Message>)
    ensures r.None? <==> PairMessages(ms, a, b) == []
    ensures r.Some? ==> InPair(r.value, a, b)
  {
    SortedPairMessages(ms, a, b, NegTs);
    var d := SortBy(PairMessages(ms, a, b), NegTs);
    if d == [] then None else Some(d[0])
  }

  /** `ms[i]` is the earliest-logged of the newest messages between `a` and `b`. */
  ghost predicate NewestAt(ms: seq<Message>, a: string, b: string, i: nat) {
    && i < |ms| && InPair(ms[i], a, b)
    && (forall j :: 0 <= j < |ms| && InPair(ms[j], a, b) ==> ms[j].timestamp <= ms[i].timestamp)
    && (forall j :: 0 <= j < i && InPair(ms[j], a, b) ==> ms[j].timestamp < ms[i].timestamp)
  }

  /** The history holds every message of the conversation, as often as the
      log does, and nothing else. */
  lemma HistoryContents(ms: seq<Message>, a: string, b: string)
    ensures forall m :: multiset(History(ms, a, b))[m] == if InPair(m, a, b) then multiset(ms)[m] else 0
  {
    SortByPermutes(PairMessages(ms, a, b), Ts);
    forall m ensures multiset(PairMessages(ms, a, b))[m] == if InPair(m, a, b) then multiset(ms)[m] else 0 {
      FilterCount(ms, (x: Message) => InPair(x, a, b), m);
    }
  }

  /** Oldest first; messages with equal timestamps stay in log order. */
  lemma HistoryOrder(ms: seq<Message>, a: string, b: string)
    ensures forall i, j :: 0 <= i < j < |History(ms, a, b)| ==>
              History(ms, a, b)[i].timestamp <= History(ms, a, b)[j].timestamp
    ensures forall t :: Keyed(History(ms, a, b), Ts, t) == Keyed(PairMessages(ms, a, b), Ts, t)
  {
    SortByAscending(PairMessages(ms, a, b), Ts);
    forall t ensures Keyed(History(ms, a, b), Ts, t) == Keyed(PairMessages(ms, a, b), Ts, t) {
      SortByStable(PairMessages(ms, a, b), Ts, t);
    }
  }

  lemma PairMessagesSymmetric(ms: seq<Message>, a: string, b: string)
    ensures PairMessages(ms, a, b) == PairMessages(ms, b, a)
  {
    FilterCongruent(ms, (m: Message) => InPair(m, a, b), (m: Message) => InPair(m, b, a));
  }

  /** Asking for `(a, b)` or `(b, a)` gives the same conversation. */
  lemma HistorySymmetric(ms: seq<Message>, a: string, b: string)
    ensures History(ms, a, b) == History(ms, b, a)
  {
    PairMessagesSymmetric(ms, a, b);
  }

  lemma LatestSymmetric(ms: seq<Message>, a: string, b: string)
    ensures Latest(ms, a, b) == Latest(ms, b, a)
  {
    PairMessagesSymmetric(ms, a, b);
  }

  lemma PairMessagesAppend(ms: seq<Message>, m: Message, a: string, b: string)
    ensures PairMessages(ms + [m], a, b) ==
            if InPair(m, a, b) then PairMessages(ms, a, b) + [m] else PairMessages(ms, a, b)
  {
    FilterAppend(ms, [m], (x: Message) => InPair(x, a, b));
  }

  /** Logging a message of another conversation leaves the history alone;
      logging one no older than the conversation's messages appends it. */
  lemma HistoryAfterSend(ms: seq<Message>, m: Message, a: string, b: string)
    requires forall i :: 0 <= i < |ms| && InPair(ms[i], a, b) ==> ms[i].timestamp <= m.timestamp
    ensures History(ms + [m], a, b) ==
            if InPair(m, a, b) then History(ms, a, b) + [m] else History(ms, a, b)
  {
    PairMessagesAppend(ms, m, a, b);
    if InPair(m, a, b) {
      var p := PairMessages(ms, a, b);
      var h := History(ms, a, b);
      var r := h + [m];
      SortByAscending(p, Ts);
      SortByPermutes(p, Ts);
      forall i | 0 <= i < |h| ensures h[i].timestamp <= m.timestamp {
        assert h[i] in multiset(h);
        assert h[i] in p;
        var k :| 0 <= k < |p| && p[k] == h[i];
        assert p[k] in ms && InPair(p[k], a, b);
      }
      assert Ascending(r, Ts);
      forall t ensures Keyed(r, Ts, t) == Keyed(p + [m], Ts, t) {
        KeyedAppend(h, [m], Ts, t);
        KeyedAppend(p, [m], Ts, t);
        SortByStable(p, Ts, t);
      }
      SortByCharacterized(p + [m], r, Ts);
    }
  }

  /** The newest message, located in the log: none exactly when the
      conversation is empty, otherwise the earliest-logged message among
      those with the largest timestamp. */
  lemma LatestSpec(ms: seq<Message>, a: string, b: string)
    ensures Latest(ms, a, b).None? <==> forall i :: 0 <= i < |ms| ==> !InPair(ms[i], a, b)
    ensures Latest(ms, a, b).Some? ==> exists i: nat :: NewestAt(ms, a, b, i) && Latest(ms, a, b).value == ms[i]
  {
    var p := PairMessages(ms, a, b);
    if p != [] {
      SortByHead(p, NegTs);
      var i := FilterArgMin(ms, (x: Message) => InPair(x, a, b), NegTs);
      assert NewestAt(ms, a, b, i);
    }
  }

  /** At most one position is the earliest-logged newest one. */
  lemma NewestUnique(ms: seq<Message>, a: string, b: string, i: nat, j: nat)
    requires NewestAt(ms, a, b, i) && NewestAt(ms, a, b, j)
    ensures i == j
  {
  }

  /** How one more logged message changes the newest one: only a message of
      this conversation with a strictly larger timestamp replaces it; on a tie
      the earlier message stays. */
  lemma LatestAfterSend(ms: seq<Message>, m: Message, a: string, b: string)
    ensures Latest(ms + [m], a, b) ==
            if !InPair(m, a, b) then Latest(ms, a, b)
            else if Latest(ms, a, b).None? || Latest(ms, a, b).value.timestamp < m.timestamp then Some(m)
            else Latest(ms, a, b)
  {
    PairMessagesAppend(ms, m, a, b);
    if InPair(m, a, b) {
      var ms' := ms + [m];
      LatestSpec(ms, a, b);
      LatestSpec(ms', a, b);
      assert ms'[|ms|] == m;
      var k: nat :| NewestAt(ms', a, b, k) && Latest(ms', a, b).value == ms'[k];
      if Latest(ms, a, b).None? {
        assert k == |ms|;
      } else {
        var i: nat :| NewestAt(ms, a, b, i) && Latest(ms, a, b).value == ms[i];
        if ms[i].timestamp < m.timestamp {
          assert NewestAt(ms', a, b, |ms|);
          NewestUnique(ms', a, b, k, |ms|);
        } else {
          assert NewestAt(ms', a, b, i);
          NewestUnique(ms', a, b, k, i);
        }
      }
    }
  }
}
