/** The friendship edges: the either-orientation lookup used by add-friend and
    send-message, and the edges touching one user used by the chat list. */
module FriendGraph {
  import opened ListOps
  import opened Entities

  /** The edge joins `a` and `b`, in either orientation. */
  predicate Links(f: Friendship, a: string, b: string) {
    (f.user1 == a && f.user2 == b) || (f.user1 == b && f.user2 == a)
  }

  /** Some edge joins `a` and `b`. */
  ghost predicate Friends(fs: seq<Friendship>, a: string, b: string) {
    exists i :: 0 <= i < |fs| && Links(fs[i], a, b)
  }

  /** `friendships.find(f => (f.user1 === a && f.user2 === b) || (f.user1 === b && f.user2 === a))`. */
  function FindFriendship(fs: seq<Friendship>, a: string, b: string): (r: Option<Friendship>)
    ensures r.None? <==> !Friends(fs, a, b)
    ensures r.Some? ==> r.value in fs && Links(r.value, a, b)
  {
    Find(fs, (f: Friendship) => Links(f, a, b))
  }

  /** The lookup does not depend on the orientation it is asked in. */
  lemma FindFriendshipSymmetric(fs: seq<Friendship>, a: string, b: string)
    ensures FindFriendship(fs, a, b) == FindFriendship(fs, b, a)
  {
  }

  /** One of the edge's endpoints is `u`. */
  predicate Touches(f: Friendship, u: string) {
    f.user1 == u || f.user2 == u
  }

  /** `friendships.filter(f => f.user1 === u || f.user2 === u)`. */
  function Touching(fs: seq<Friendship>, u: string): (r: seq<Friendship>)
    ensures forall i :: 0 <= i < |r| ==> r[i] in fs && Touches(r[i], u)
    ensures forall i :: 0 <= i < |fs| && Touches(fs[i], u) ==> fs[i] in r
  {
    Filter(fs, (f: Friendship) => Touches(f, u))
  }

  /** `f.user1 === u ? f.user2 : f.user1`. */
  function OtherEnd(f: Friendship, u: string): (v: string)
    ensures Touches(f, u) ==> Links(f, u, v)
  {
    if f.user1 == u then f.user2 else f.user1
  }
}
