/** A stable sort of boxes by one coordinate of their centre, standing for
    Python's `list.sort(key=...)` as find_squares uses it, with the facts
    the grid canonicalisation relies on. */
module Sorting {
  import opened Geometry

  /** The centre coordinate a sort is keyed on. */
  datatype Axis = X | Y

  function Key(b: Box, axis: Axis): int {
    match axis
    case X => Center(b).x
    case Y => Center(b).y
  }

  /** Keys never decrease along `s`. */
  predicate Sorted(s: seq<Box>, axis: Axis) {
    forall i, j :: 0 <= i < j < |s| ==> Key(s[i], axis) <= Key(s[j], axis)
  }

  /** Keys strictly increase along `s`. */
  predicate StrictlySorted(s: seq<Box>, axis: Axis) {
    forall i, j :: 0 <= i < j < |s| ==> Key(s[i], axis) < Key(s[j], axis)
  }

  /** Elements of `s` that share a key are the same box. */
  predicate KeyInjective(s: seq<Box>, axis: Axis) {
    forall i, j :: 0 <= i < |s| && 0 <= j < |s| && Key(s[i], axis) == Key(s[j], axis) ==> s[i] == s[j]
  }

  /** Puts `b` in front of the first element whose key is not smaller than
      its own, so that `b` stays ahead of every element with an equal key. */
  function Insert(b: Box, s: seq<Box>, axis: Axis): (r: seq<Box>)
    ensures multiset(r) == multiset(s) + multiset{b}
    ensures |r| == |s| + 1
  {
    if |s| == 0 then [b]
    else if Key(b, axis) <= Key(s[0], axis) then [b] + s
    else
      assert s == [s[0]] + s[1..];
      [s[0]] + Insert(b, s[1..], axis)
  }

  /** A box whose key is at most every key of a sorted sequence can go in
      front of it. */
  lemma ConsSorted(x: Box, t: seq<Box>, axis: Axis)
    requires Sorted(t, axis)
    requires forall k :: 0 <= k < |t| ==> Key(x, axis) <= Key(t[k], axis)
    ensures Sorted([x] + t, axis)
  {
    var r := [x] + t;
    forall i, j | 0 <= i < j < |r| ensures Key(r[i], axis) <= Key(r[j], axis) {
      assert r[j] == t[j - 1];
      if i > 0 {
        assert r[i] == t[i - 1];
      }
    }
  }

  /** Every key of the insertion is a key of `b` or of `s`. */
  lemma InsertKeys(b: Box, s: seq<Box>, axis: Axis, m: int)
    requires m <= Key(b, axis)
    requires forall k :: 0 <= k < |s| ==> m <= Key(s[k], axis)
    ensures forall k :: 0 <= k < |Insert(b, s, axis)| ==> m <= Key(Insert(b, s, axis)[k], axis)
  {
    var r := Insert(b, s, axis);
    forall k | 0 <= k < |r| ensures m <= Key(r[k], axis) {
      assert r[k] in multiset(r);
      if r[k] != b {
        assert r[k] in multiset(s);
        var j :| 0 <= j < |s| && s[j] == r[k];
      }
    }
  }

  lemma {:induction false} InsertSorted(b: Box, s: seq<Box>, axis: Axis)
    requires Sorted(s, axis)
    ensures Sorted(Insert(b, s, axis), axis)
  {
    if |s| == 0 {
    } else if Key(b, axis) <= Key(s[0], axis) {
      ConsSorted(b, s, axis);
    } else {
      SortedTail(s, axis);
      InsertSorted(b, s[1..], axis);
      InsertKeys(b, s[1..], axis, Key(s[0], axis));
      ConsSorted(s[0], Insert(b, s[1..], axis), axis);
    }
  }

  /** Insertion sort; later elements are sorted first, so among equal keys
      the input order is kept (a stable sort). */
  function SortBy(s: seq<Box>, axis: Axis): (r: seq<Box>)
    ensures multiset(r) == multiset(s)
    ensures |r| == |s|
    ensures Sorted(r, axis)
  {
    if |s| == 0 then []
    else
      assert s == [s[0]] + s[1..];
      var t := SortBy(s[1..], axis);
      InsertSorted(s[0], t, axis);
      Insert(s[0], t, axis)
  }

  /** The elements of `s` whose key is `v`, in order. */
  function WithKey(s: seq<Box>, axis: Axis, v: int): seq<Box> {
    if |s| == 0 then []
    else (if Key(s[0], axis) == v then [s[0]] else []) + WithKey(s[1..], axis, v)
  }

  /** The elements of `s` whose key is below `t`, in order. */
  function KeyBelow(s: seq<Box>, axis: Axis, t: int): seq<Box> {
    if |s| == 0 then []
    else (if Key(s[0], axis) < t then [s[0]] else []) + KeyBelow(s[1..], axis, t)
  }

  lemma WithKeyCons(x: Box, t: seq<Box>, axis: Axis, v: int)
    ensures WithKey([x] + t, axis, v) == (if Key(x, axis) == v then [x] else []) + WithKey(t, axis, v)
  {
    assert ([x] + t)[0] == x;
    assert ([x] + t)[1..] == t;
  }

  lemma {:induction false} WithKeyInsert(b: Box, s: seq<Box>, axis: Axis, v: int)
    ensures WithKey(Insert(b, s, axis), axis, v)
         == (if Key(b, axis) == v then [b] else []) + WithKey(s, axis, v)
  {
    var kb := if Key(b, axis) == v then [b] else [];
    if |s| == 0 {
      assert Insert(b, s, axis) == [b] + s;
      WithKeyCons(b, s, axis, v);
    } else if Key(b, axis) <= Key(s[0], axis) {
      assert Insert(b, s, axis) == [b] + s;
      WithKeyCons(b, s, axis, v);
    } else {
      var t := Insert(b, s[1..], axis);
      var rest := WithKey(s[1..], axis, v);
      assert Insert(b, s, axis) == [s[0]] + t;
      WithKeyInsert(b, s[1..], axis, v);
      assert WithKey(t, axis, v) == kb + rest;
      WithKeyCons(s[0], t, axis, v);
      var ks := if Key(s[0], axis) == v then [s[0]] else [];
      assert WithKey(Insert(b, s, axis), axis, v) == ks + (kb + rest);
      assert WithKey(s, axis, v) == ks + rest;
      if ks == [] {
        assert ks + (kb + rest) == kb + rest;
        assert ks + rest == rest;
      } else {
        assert kb == [];
        assert kb + rest == rest;
        assert kb + (ks + rest) == ks + rest;
      }
    }
  }

  /** Stability: for every key, the elements carrying it come out of the
      sort in the order they went in. */
  lemma {:induction false} SortByStable(s: seq<Box>, axis: Axis, v: int)
    ensures WithKey(SortBy(s, axis), axis, v) == WithKey(s, axis, v)
  {
    if |s| > 0 {
      SortByStable(s[1..], axis, v);
      WithKeyInsert(s[0], SortBy(s[1..], axis), axis, v);
    }
  }

  /** Filtering by a key threshold keeps, for every box, all of its
      copies whose key is below the threshold and none of the others. */
  lemma {:induction false} KeyBelowCount(s: seq<Box>, axis: Axis, t: int, x: Box)
    ensures multiset(KeyBelow(s, axis, t))[x] == if Key(x, axis) < t then multiset(s)[x] else 0
  {
    if |s| > 0 {
      KeyBelowCount(s[1..], axis, t, x);
      var head := if Key(s[0], axis) < t then [s[0]] else [];
      assert KeyBelow(s, axis, t) == head + KeyBelow(s[1..], axis, t);
      assert multiset(KeyBelow(s, axis, t)) == multiset(head) + multiset(KeyBelow(s[1..], axis, t));
      assert s == [s[0]] + s[1..];
      assert multiset(s) == multiset{s[0]} + multiset(s[1..]);
    }
  }

  lemma KeyBelowPermutation(a: seq<Box>, b: seq<Box>, axis: Axis, t: int)
    requires multiset(a) == multiset(b)
    ensures multiset(KeyBelow(a, axis, t)) == multiset(KeyBelow(b, axis, t))
  {
    forall x ensures multiset(KeyBelow(a, axis, t))[x] == multiset(KeyBelow(b, axis, t))[x] {
      KeyBelowCount(a, axis, t, x);
      KeyBelowCount(b, axis, t, x);
    }
  }

  /** In a sorted sequence the boxes below a threshold form a prefix. */
  lemma {:induction false} KeyBelowSortedPrefix(s: seq<Box>, axis: Axis, t: int)
    requires Sorted(s, axis)
    ensures |KeyBelow(s, axis, t)| <= |s|
    ensures KeyBelow(s, axis, t) == s[..|KeyBelow(s, axis, t)|]
  {
    if |s| > 0 {
      assert Sorted(s[1..], axis);
      KeyBelowSortedPrefix(s[1..], axis, t);
      if Key(s[0], axis) >= t {
        KeyBelowNone(s[1..], axis, t);
      }
    }
  }

  lemma {:induction false} KeyBelowNone(s: seq<Box>, axis: Axis, t: int)
    requires forall k :: 0 <= k < |s| ==> Key(s[k], axis) >= t
    ensures KeyBelow(s, axis, t) == []
  {
    if |s| > 0 {
      KeyBelowNone(s[1..], axis, t);
    }
  }

  lemma {:induction false} KeyBelowAll(s: seq<Box>, axis: Axis, t: int)
    requires forall k :: 0 <= k < |s| ==> Key(s[k], axis) < t
    ensures KeyBelow(s, axis, t) == s
  {
    if |s| > 0 {
      KeyBelowAll(s[1..], axis, t);
      assert s == [s[0]] + s[1..];
    }
  }

  lemma {:induction false} KeyBelowConcat(a: seq<Box>, b: seq<Box>, axis: Axis, t: int)
    ensures KeyBelow(a + b, axis, t) == KeyBelow(a, axis, t) + KeyBelow(b, axis, t)
  {
    if |a| > 0 {
      assert (a + b)[1..] == a[1..] + b;
      KeyBelowConcat(a[1..], b, axis, t);
    } else {
      assert a + b == b;
    }
  }

  /** The head of a sorted sequence has the least key of its elements. */
  lemma SortedHeadLeast(s: seq<Box>, axis: Axis, x: Box)
    requires Sorted(s, axis) && x in multiset(s)
    ensures Key(s[0], axis) <= Key(x, axis)
  {
    var i :| 0 <= i < |s| && s[i] == x;
  }

  lemma SortedTail(s: seq<Box>, axis: Axis)
    requires Sorted(s, axis) && |s| > 0
    ensures Sorted(s[1..], axis)
    ensures multiset(s[1..]) == multiset(s) - multiset{s[0]}
  {
    assert s == [s[0]] + s[1..];
  }

  /** Two sorted permutations of a key-injective sequence start alike. */
  lemma SortedSameHead(a: seq<Box>, b: seq<Box>, axis: Axis)
    requires Sorted(a, axis) && Sorted(b, axis)
    requires multiset(a) == multiset(b) && KeyInjective(a, axis)
    requires |a| > 0 && |b| > 0
    ensures a[0] == b[0]
  {
    assert b[0] in multiset(a) && a[0] in multiset(b);
    SortedHeadLeast(a, axis, b[0]);
    SortedHeadLeast(b, axis, a[0]);
    var i :| 0 <= i < |a| && a[i] == b[0];
    assert Key(a[0], axis) == Key(a[i], axis);
  }

  lemma KeyInjectiveTail(s: seq<Box>, axis: Axis)
    requires KeyInjective(s, axis) && |s| > 0
    ensures KeyInjective(s[1..], axis)
  {
    forall i, j | 0 <= i < |s| - 1 && 0 <= j < |s| - 1 && Key(s[1..][i], axis) == Key(s[1..][j], axis)
      ensures s[1..][i] == s[1..][j]
    {
      assert s[1..][i] == s[i + 1] && s[1..][j] == s[j + 1];
    }
  }

  /** A sorted sequence is the only sorted arrangement of its elements once
      no two different elements share a key: two sorted permutations of a
      key-injective sequence are equal. */
  lemma {:induction false} SortedUnique(a: seq<Box>, b: seq<Box>, axis: Axis)
    requires Sorted(a, axis) && Sorted(b, axis)
    requires multiset(a) == multiset(b)
    requires KeyInjective(a, axis)
    ensures a == b
  {
    assert |a| == |multiset(a)| == |multiset(b)| == |b|;
    if |a| > 0 {
      SortedSameHead(a, b, axis);
      SortedTail(a, axis);
      SortedTail(b, axis);
      KeyInjectiveTail(a, axis);
      SortedUnique(a[1..], b[1..], axis);
      SameHeadSameTail(a, b);
    }
  }

  lemma SameHeadSameTail(a: seq<Box>, b: seq<Box>)
    requires |a| > 0 && |b| > 0 && a[0] == b[0] && a[1..] == b[1..]
    ensures a == b
  {
    assert a == [a[0]] + a[1..];
    assert b == [b[0]] + b[1..];
  }

  lemma StrictlySortedInjective(s: seq<Box>, axis: Axis)
    requires StrictlySorted(s, axis)
    ensures KeyInjective(s, axis)
  {
    forall i, j | 0 <= i < |s| && 0 <= j < |s| && Key(s[i], axis) == Key(s[j], axis)
      ensures s[i] == s[j]
    {
      assert i == j;
    }
  }

  /** Key injectivity depends only on the elements, not on their order. */
  lemma KeyInjectivePermutation(a: seq<Box>, b: seq<Box>, axis: Axis)
    requires multiset(a) == multiset(b) && KeyInjective(a, axis)
    ensures KeyInjective(b, axis)
  {
    forall i, j | 0 <= i < |b| && 0 <= j < |b| && Key(b[i], axis) == Key(b[j], axis)
      ensures b[i] == b[j]
    {
      assert b[i] in multiset(a) && b[j] in multiset(a);
      var i' :| 0 <= i' < |a| && a[i'] == b[i];
      var j' :| 0 <= j' < |a| && a[j'] == b[j];
    }
  }

  /** The least key in a non-empty sequence. */
  function MinKey(s: seq<Box>, axis: Axis): (m: int)
    requires |s| > 0
    ensures forall k :: 0 <= k < |s| ==> m <= Key(s[k], axis)
    ensures exists k :: 0 <= k < |s| && Key(s[k], axis) == m
  {
    if |s| == 1 then Key(s[0], axis)
    else
      var rest := MinKey(s[1..], axis);
      assert forall k :: 1 <= k < |s| ==> s[k] == s[1..][k - 1];
      if Key(s[0], axis) <= rest then Key(s[0], axis) else rest
  }

  /** Sorting a strictly sorted sequence's permutation gives it back. */
  lemma SortByRecovers(s: seq<Box>, g: seq<Box>, axis: Axis)
    requires StrictlySorted(g, axis) && multiset(s) == multiset(g)
    ensures SortBy(s, axis) == g
  {
    StrictlySortedInjective(g, axis);
    SortedUnique(g, SortBy(s, axis), axis);
  }
}
