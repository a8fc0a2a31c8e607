/** `Array.prototype.sort` with a numeric comparator `(a, b) => key(a) - key(b)`:
    a stable sort by ascending `key`. A descending sort `(a, b) => f(b) - f(a)` is
    the same comparator with `key(x) == -f(x)`. */
module StableSort {
  import opened ListOps

  /** Keys never decrease from left to right. */
  predicate Ascending<T>(s: seq<T>, key: T -> int) {
    forall i, j :: 0 <= i < j < |s| ==> key(s[i]) <= key(s[j])
  }

  /** The elements of `s` whose key is `k`, in their order in `s`. */
  function Keyed<T>(s: seq<T>, key: T -> int, k: int): seq<T> {
    Filter(s, x => key(x) == k)
  }

  /** Puts `x` in front of the first element whose key is not smaller. */
  function Insert<T>(x: T, s: seq<T>, key: T -> int): (r: seq<T>)
    ensures |r| == |s| + 1
  {
    if s == [] || key(x) <= key(s[0]) then [x] + s
    else [s[0]] + Insert(x, s[1..], key)
  }

  /** Insertion sort from the back: each element goes in front of every
      later element with an equal key, which makes the sort stable. */
  function SortBy<T>(s: seq<T>, key: T -> int): (r: seq<T>)
    ensures |r| == |s|
  {
    if s == [] then [] else Insert(s[0], SortBy(s[1..], key), key)
  }

  /** The first position holding a smallest key. */
  function ArgMinFirst<T>(s: seq<T>, key: T -> int): (i: nat)
    requires |s| > 0
    ensures i < |s|
    ensures forall j :: 0 <= j < |s| ==> key(s[i]) <= key(s[j])
    ensures forall j :: 0 <= j < i ==> key(s[i]) < key(s[j])
  {
    if |s| == 1 then 0
    else
      var m := ArgMinFirst(s[1..], key);
      if key(s[0]) <= key(s[1 + m]) then 0 else 1 + m
  }

  lemma KeyedCons<T>(x: T, s: seq<T>, key: T -> int, k: int)
    ensures Keyed([x] + s, key, k) == if key(x) == k then [x] + Keyed(s, key, k) else Keyed(s, key, k)
  {
  }

  lemma {:induction false} KeyedAppend<T>(s: seq<T>, t: seq<T>, key: T -> int, k: int)
    ensures Keyed(s + t, key, k) == Keyed(s, key, k) + Keyed(t, key, k)
  {
    if s != [] {
      KeyedAppend(s[1..], t, key, k);
      assert s + t == [s[0]] + (s[1..] + t);
      assert s == [s[0]] + s[1..];
      KeyedCons(s[0], s[1..] + t, key, k);
      KeyedCons(s[0], s[1..], key, k);
    } else {
      assert s + t == t;
    }
  }

  lemma {:induction false} InsertAscending<T>(x: T, s: seq<T>, key: T -> int)
    requires Ascending(s, key)
    ensures Ascending(Insert(x, s, key), key)
    ensures Insert(x, s, key)[0] == x || Insert(x, s, key)[0] == s[0]
  {
    if s != [] && key(s[0]) < key(x) {
      InsertAscending(x, s[1..], key);
      var r := Insert(x, s, key);
      var t := Insert(x, s[1..], key);
      assert r == [s[0]] + t;
      forall j | 0 < j < |r| ensures key(r[0]) <= key(r[j]) {
        if |s| > 1 {
          assert key(s[0]) <= key(t[0]);
          assert Ascending(t, key);
        }
      }
    }
  }

  lemma {:induction false} InsertMultiset<T>(x: T, s: seq<T>, key: T -> int)
    ensures multiset(Insert(x, s, key)) == multiset(s) + multiset{x}
  {
    if s != [] && key(s[0]) < key(x) {
      InsertMultiset(x, s[1..], key);
      assert s == [s[0]] + s[1..];
    }
  }

  lemma {:induction false} InsertKeyed<T>(x: T, s: seq<T>, key: T -> int, k: int)
    ensures Keyed(Insert(x, s, key), key, k) ==
            if key(x) == k then [x] + Keyed(s, key, k) else Keyed(s, key, k)
  {
    if s == [] || key(x) <= key(s[0]) {
      KeyedCons(x, s, key, k);
    } else {
      InsertKeyed(x, s[1..], key, k);
      KeyedCons(s[0], Insert(x, s[1..], key), key, k);
      KeyedCons(s[0], s[1..], key, k);
      assert s == [s[0]] + s[1..];
    }
  }

  /** The result is sorted by key. */
  lemma {:induction false} SortByAscending<T>(s: seq<T>, key: T -> int)
    ensures Ascending(SortBy(s, key), key)
  {
    if s != [] {
      SortByAscending(s[1..], key);
      InsertAscending(s[0], SortBy(s[1..], key), key);
    }
  }

  /** The result is a permutation of the input. */
  lemma {:induction false} SortByPermutes<T>(s: seq<T>, key: T -> int)
    ensures multiset(SortBy(s, key)) == multiset(s)
  {
    if s != [] {
      SortByPermutes(s[1..], key);
      InsertMultiset(s[0], SortBy(s[1..], key), key);
      assert s == [s[0]] + s[1..];
    }
  }

  /** Stability: elements with equal keys keep their relative order. */
  lemma {:induction false} SortByStable<T>(s: seq<T>, key: T -> int, k: int)
    ensures Keyed(SortBy(s, key), key, k) == Keyed(s, key, k)
  {
    if s != [] {
      SortByStable(s[1..], key, k);
      InsertKeyed(s[0], SortBy(s[1..], key), key, k);
      KeyedCons(s[0], s[1..], key, k);
      assert s == [s[0]] + s[1..];
    }
  }

  /** A key that occurs in a sorted sequence is no smaller than its head's. */
  lemma KeyedBound<T>(s: seq<T>, key: T -> int, k: int)
    requires Ascending(s, key)
    requires |Keyed(s, key, k)| > 0
    ensures key(s[0]) <= k
  {
    var x := Keyed(s, key, k)[0];
    assert x in s && key(x) == k;
    var i :| 0 <= i < |s| && s[i] == x;
    if i > 0 {
      assert key(s[0]) <= key(s[i]);
    }
  }

  lemma KeyedHead<T>(s: seq<T>, key: T -> int)
    requires s != []
    ensures Keyed(s, key, key(s[0])) != []
  {
  }

  /** Removing equal heads keeps the per-key subsequences equal. */
  lemma KeyedTails<T>(r1: seq<T>, r2: seq<T>, key: T -> int, k: int)
    requires r1 != [] && r2 != [] && r1[0] == r2[0]
    requires Keyed(r1, key, k) == Keyed(r2, key, k)
    ensures Keyed(r1[1..], key, k) == Keyed(r2[1..], key, k)
  {
    assert r1 == [r1[0]] + r1[1..] && r2 == [r2[0]] + r2[1..];
    KeyedCons(r1[0], r1[1..], key, k);
    KeyedCons(r2[0], r2[1..], key, k);
    if key(r1[0]) == k {
      assert Keyed(r1[1..], key, k) == Keyed(r1, key, k)[1..];
      assert Keyed(r2[1..], key, k) == Keyed(r2, key, k)[1..];
    }
  }

  /** Two sorted sequences with the same per-key subsequences start alike. */
  lemma SameHead<T>(r1: seq<T>, r2: seq<T>, key: T -> int)
    requires r1 != [] && r2 != []
    requires Ascending(r1, key) && Ascending(r2, key)
    requires Keyed(r1, key, key(r1[0])) == Keyed(r2, key, key(r1[0]))
    requires Keyed(r1, key, key(r2[0])) == Keyed(r2, key, key(r2[0]))
    ensures r1[0] == r2[0]
  {
    var k1, k2 := key(r1[0]), key(r2[0]);
    assert r1 == [r1[0]] + r1[1..] && r2 == [r2[0]] + r2[1..];
    KeyedCons(r1[0], r1[1..], key, k1);
    KeyedCons(r2[0], r2[1..], key, k2);
    KeyedBound(r2, key, k1);
    KeyedBound(r1, key, k2);
    assert Keyed(r1, key, k1)[0] == r1[0];
    assert Keyed(r2, key, k1)[0] == r2[0];
  }

  lemma AscendingTail<T>(s: seq<T>, key: T -> int)
    requires s != [] && Ascending(s, key)
    ensures Ascending(s[1..], key)
  {
  }

  /** A sorted sequence is determined by its per-key subsequences: there is
      only one stable sort. */
  lemma {:induction false} StableSortUnique<T>(r1: seq<T>, r2: seq<T>, key: T -> int)
    requires Ascending(r1, key) && Ascending(r2, key)
    requires forall k :: Keyed(r1, key, k) == Keyed(r2, key, k)
    ensures r1 == r2
    decreases |r1|
  {
    if r1 == [] && r2 == [] {
    } else if r1 == [] {
      KeyedHead(r2, key);
      assert false;
    } else if r2 == [] {
      KeyedHead(r1, key);
      assert false;
    } else {
      SameHead(r1, r2, key);
      forall k ensures Keyed(r1[1..], key, k) == Keyed(r2[1..], key, k) {
        KeyedTails(r1, r2, key, k);
      }
      AscendingTail(r1, key);
      AscendingTail(r2, key);
      StableSortUnique(r1[1..], r2[1..], key);
      assert r1 == [r1[0]] + r1[1..] && r2 == [r2[0]] + r2[1..];
    }
  }

  /** Any sorted rearrangement of `s` that is stable is `SortBy(s, key)`. */
  lemma SortByCharacterized<T>(s: seq<T>, r: seq<T>, key: T -> int)
    requires Ascending(r, key)
    requires forall k :: Keyed(r, key, k) == Keyed(s, key, k)
    ensures r == SortBy(s, key)
  {
    SortByAscending(s, key);
    forall k ensures Keyed(r, key, k) == Keyed(SortBy(s, key), key, k) {
      SortByStable(s, key, k);
    }
    StableSortUnique(r, SortBy(s, key), key);
  }

  /** The head of the sorted sequence is the first element of `s` with the
      smallest key. */
  lemma {:induction false} SortByHead<T>(s: seq<T>, key: T -> int)
    requires |s| > 0
    ensures SortBy(s, key)[0] == s[ArgMinFirst(s, key)]
  {
    if |s| > 1 {
      SortByHead(s[1..], key);
    }
  }

  /** `s[i]` satisfies `p`, no element satisfying `p` has a smaller key, and
      every element satisfying `p` before position `i` has a larger key. */
  ghost predicate FirstMinAt<T>(s: seq<T>, p: T -> bool, key: T -> int, i: nat) {
    && i < |s| && p(s[i])
    && (forall j :: 0 <= j < |s| && p(s[j]) ==> key(s[i]) <= key(s[j]))
    && (forall j :: 0 <= j < i && p(s[j]) ==> key(s[i]) < key(s[j]))
  }

  lemma FirstMinShift<T>(s: seq<T>, p: T -> bool, key: T -> int, i: nat)
    requires s != [] && FirstMinAt(s[1..], p, key, i)
    requires p(s[0]) ==> key(s[1 + i]) < key(s[0])
    ensures FirstMinAt(s, p, key, i + 1)
  {
  }

  lemma FirstMinHead<T>(s: seq<T>, p: T -> bool, key: T -> int)
    requires s != [] && p(s[0])
    requires forall j :: 0 <= j < |s[1..]| && p(s[1..][j]) ==> key(s[0]) <= key(s[1..][j])
    ensures FirstMinAt(s, p, key, 0)
  {
    forall j | 0 < j < |s| ensures s[j] == s[1..][j - 1] { }
  }

  /** The first smallest element of a filtering, located in the original
      sequence. */
  lemma {:induction false} FilterArgMin<T>(s: seq<T>, p: T -> bool, key: T -> int) returns (i: nat)
    requires |Filter(s, p)| > 0
    ensures FirstMinAt(s, p, key, i)
    ensures s[i] == Filter(s, p)[ArgMinFirst(Filter(s, p), key)]
  {
    var q := Filter(s, p);
    var q' := Filter(s[1..], p);
    if !p(s[0]) {
      assert q == q';
      var i' := FilterArgMin(s[1..], p, key);
      FirstMinShift(s, p, key, i');
      i := i' + 1;
    } else if q' == [] {
      assert q == [s[0]];
      FirstMinHead(s, p, key);
      i := 0;
    } else {
      assert q == [s[0]] + q';
      assert q[1..] == q';
      var i' := FilterArgMin(s[1..], p, key);
      if key(s[0]) <= key(s[1 + i']) {
        FirstMinHead(s, p, key);
        i := 0;
      } else {
        FirstMinShift(s, p, key, i');
        i := i' + 1;
      }
    }
  }
}
