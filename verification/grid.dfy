/** Grid canonicalisation (find_squares in tracker.py): exactly 25 detected
    cells are put into row-major order by a stable sort on the centre's Y,
    a cut into five rows of five, and a stable sort of each row on the
    centre's X. */
module Grid {
  import opened Geometry
  import opened Sorting

  /** The boxes of all detector results, result by result and, within a
      result, in the detector's order. */
  function Boxes(results: seq<seq<Box>>): (r: seq<Box>)
    ensures forall k :: 0 <= k < |results| ==> multiset(results[k]) <= multiset(r)
  {
    if |results| == 0 then [] else results[0] + Boxes(results[1..])
  }

  /** A single result contributes its boxes unchanged. */
  lemma BoxesSingle(r: seq<Box>)
    ensures Boxes([r]) == r
  {
    assert [r][1..] == [];
  }

  /** Collecting two runs of results in turn is collecting their
      concatenation: earlier results' boxes come first. */
  lemma {:induction false} BoxesConcat(a: seq<seq<Box>>, b: seq<seq<Box>>)
    ensures Boxes(a + b) == Boxes(a) + Boxes(b)
    decreases |a|
  {
    if |a| == 0 {
      assert a + b == b;
    } else {
      assert (a + b)[1..] == a[1..] + b;
      BoxesConcat(a[1..], b);
      assert Boxes(a + b) == a[0] + (Boxes(a[1..]) + Boxes(b));
    }
  }

  /** Row `r` of a 25-cell sequence. */
  function Row(g: seq<Box>, r: int): seq<Box>
    requires |g| == 25 && 0 <= r < 5
  {
    g[5 * r .. 5 * r + 5]
  }

  /** The order find_squares promises: centre Y never decreases from one
      row to a later one, and centre X never decreases within a row. */
  predicate RowMajorOrdered(g: seq<Box>) {
    && |g| == 25
    && (forall r, r', a, b :: 0 <= r < r' < 5 && a in Row(g, r) && b in Row(g, r')
          ==> Key(a, Y) <= Key(b, Y))
    && (forall r :: 0 <= r < 5 ==> Sorted(Row(g, r), X))
  }

  /** A physical 5x5 grid listed row-major: every cell of a row is strictly
      above every cell of a later row, and strictly left-to-right within
      its row. */
  predicate RowMajorGrid(g: seq<Box>) {
    && |g| == 25
    && (forall r, r', a, b :: 0 <= r < r' < 5 && a in Row(g, r) && b in Row(g, r')
          ==> Key(a, Y) < Key(b, Y))
    && (forall r :: 0 <= r < 5 ==> StrictlySorted(Row(g, r), X))
  }

  /** Sorts rows `row`..4 of the Y-sorted cells on X and concatenates them
      (the loop over `range(5)`). */
  function SortRowsFrom(s: seq<Box>, row: nat): (g: seq<Box>)
    requires |s| == 25 && row <= 5
    ensures |g| == 5 * (5 - row)
    ensures multiset(g) == multiset(s[5 * row ..])
    decreases 5 - row
  {
    if row == 5 then []
    else
      assert s[5 * row ..] == Row(s, row) + s[5 * (row + 1) ..];
      SortBy(Row(s, row), X) + SortRowsFrom(s, row + 1)
  }

  lemma SliceAfter(a: seq<Box>, b: seq<Box>, lo: nat, hi: nat)
    requires lo <= hi <= |b|
    ensures (a + b)[|a| + lo .. |a| + hi] == b[lo..hi]
  {
  }

  lemma {:induction false} RowOfSortRowsFrom(s: seq<Box>, row: nat, k: nat)
    requires |s| == 25 && row <= k < 5
    ensures SortRowsFrom(s, row)[5 * (k - row) .. 5 * (k - row) + 5]
         == SortBy(Row(s, k), X)
    decreases k - row
  {
    var head := SortBy(Row(s, row), X);
    var tail := SortRowsFrom(s, row + 1);
    assert SortRowsFrom(s, row) == head + tail;
    assert |head| == 5;
    if k > row {
      RowOfSortRowsFrom(s, row + 1, k);
      var lo := 5 * (k - row - 1);
      SliceAfter(head, tail, lo, lo + 5);
    } else {
      assert (head + tail)[..5] == head;
    }
  }

  /** The canonical order of a frame's cell boxes, or [] when the frame
      does not show exactly 25 of them. */
  function Canonical(boxes: seq<Box>): (g: seq<Box>)
    ensures |boxes| != 25 ==> g == []
    ensures |boxes| == 25 ==> |g| == 25 && multiset(g) == multiset(boxes)
    ensures |boxes| == 25 ==> RowMajorOrdered(g)
  {
    if |boxes| != 25 then []
    else
      var s := SortBy(boxes, Y);
      var g := SortRowsFrom(s, 0);
      assert s[0..] == s;
      CanonicalOrdered(s, g);
      g
  }

  lemma RowOfCanonical(s: seq<Box>, r: nat)
    requires |s| == 25 && r < 5
    ensures Row(SortRowsFrom(s, 0), r) == SortBy(Row(s, r), X)
  {
    RowOfSortRowsFrom(s, 0, r);
  }

  /** A cell of row r precedes, in the Y-sorted sequence, a cell of a
      later row r'. */
  lemma RowsOrderedPair(s: seq<Box>, r: nat, r': nat, a: Box, b: Box)
    requires |s| == 25 && Sorted(s, Y) && r < r' < 5
    requires a in multiset(Row(s, r)) && b in multiset(Row(s, r'))
    ensures Key(a, Y) <= Key(b, Y)
  {
    var i :| 0 <= i < 5 && Row(s, r)[i] == a;
    var j :| 0 <= j < 5 && Row(s, r')[j] == b;
    assert s[5 * r + i] == a && s[5 * r' + j] == b;
  }

  lemma CanonicalOrdered(s: seq<Box>, g: seq<Box>)
    requires |s| == 25 && Sorted(s, Y) && g == SortRowsFrom(s, 0)
    ensures RowMajorOrdered(g)
  {
    forall r | 0 <= r < 5 ensures Sorted(Row(g, r), X) {
      RowOfCanonical(s, r);
    }
    forall r, r', a, b | 0 <= r < r' < 5 && a in Row(g, r) && b in Row(g, r')
      ensures Key(a, Y) <= Key(b, Y)
    {
      RowOfCanonical(s, r);
      RowOfCanonical(s, r');
      assert a in multiset(Row(g, r)) && b in multiset(Row(g, r'));
      RowsOrderedPair(s, r, r', a, b);
    }
  }

  /** find_squares on one frame's detector results. */
  function FindSquares(results: seq<seq<Box>>): (g: seq<Box>)
    ensures |Boxes(results)| != 25 ==> g == []
    ensures |Boxes(results)| == 25 ==> |g| == 25 && multiset(g) == multiset(Boxes(results))
    ensures |Boxes(results)| == 25 ==> RowMajorOrdered(g)
    ensures g != [] <==> |Boxes(results)| == 25
  {
    Canonical(Boxes(results))
  }

  /** Two orderings of the same boxes canonicalise alike whenever no two
      different boxes have the same centre Y. */
  lemma CanonicalOrderIndependent(b1: seq<Box>, b2: seq<Box>)
    requires multiset(b1) == multiset(b2) && KeyInjective(b1, Y)
    ensures Canonical(b1) == Canonical(b2)
  {
    assert |b1| == |multiset(b1)| == |multiset(b2)| == |b2|;
    if |b1| == 25 {
      KeyInjectivePermutation(b1, SortBy(b1, Y), Y);
      SortedUnique(SortBy(b1, Y), SortBy(b2, Y), Y);
    }
  }

  lemma GridBand(g: seq<Box>, i: nat, j: nat)
    requires RowMajorGrid(g) && i < j < 25 && i / 5 < j / 5
    ensures Key(g[i], Y) < Key(g[j], Y)
  {
    var r, r' := i / 5, j / 5;
    assert g[i] == Row(g, r)[i - 5 * r];
    assert g[j] == Row(g, r')[j - 5 * r'];
  }

  /** Some Y threshold separates the first k rows of a row-major grid from
      the rest. */
  lemma GridSplit(g: seq<Box>, k: nat) returns (t: int)
    requires RowMajorGrid(g) && 0 < k < 5
    ensures KeyBelow(g, Y, t) == g[..5 * k]
  {
    var n := 5 * k;
    t := MinKey(g[n..], Y);
    forall i | 0 <= i < n ensures Key(g[..n][i], Y) < t {
      var m :| 0 <= m < |g[n..]| && Key(g[n..][m], Y) == t;
      GridBand(g, i, n + m);
    }
    KeyBelowAll(g[..n], Y, t);
    KeyBelowNone(g[n..], Y, t);
    KeyBelowConcat(g[..n], g[n..], Y, t);
    assert g == g[..n] + g[n..];
  }

  /** The first k rows of a sorted permutation of a row-major grid hold the
      same cells as the grid's first k rows. */
  lemma PrefixRows(s: seq<Box>, g: seq<Box>, k: nat)
    requires RowMajorGrid(g) && Sorted(s, Y) && multiset(s) == multiset(g)
    requires 0 < k < 5
    ensures |s| == 25
    ensures multiset(s[..5 * k]) == multiset(g[..5 * k])
  {
    assert |s| == |multiset(s)| == |multiset(g)| == |g|;
    var t := GridSplit(g, k);
    KeyBelowPermutation(s, g, Y, t);
    KeyBelowSortedPrefix(s, Y, t);
    assert |KeyBelow(s, Y, t)| == |multiset(KeyBelow(s, Y, t))| == |multiset(g[..5 * k])| == 5 * k;
  }

  lemma SliceMultiset(s: seq<Box>, lo: nat, hi: nat)
    requires lo <= hi <= |s|
    ensures multiset(s[lo..hi]) == multiset(s[..hi]) - multiset(s[..lo])
  {
    assert s[..hi] == s[..lo] + s[lo..hi];
  }

  /** The cells of the first k rows, for k from 0 to 5. */
  lemma PrefixRowsUpTo(s: seq<Box>, g: seq<Box>, k: nat)
    requires RowMajorGrid(g) && Sorted(s, Y) && multiset(s) == multiset(g)
    requires k <= 5
    ensures |s| == 25
    ensures multiset(s[..5 * k]) == multiset(g[..5 * k])
  {
    assert |s| == |multiset(s)| == |multiset(g)| == |g|;
    if k == 0 {
    } else if k == 5 {
      assert s[..25] == s && g[..25] == g;
    } else {
      PrefixRows(s, g, k);
    }
  }

  lemma RowPermutation(s: seq<Box>, g: seq<Box>, r: nat)
    requires RowMajorGrid(g) && Sorted(s, Y) && multiset(s) == multiset(g)
    requires r < 5
    ensures |s| == 25
    ensures multiset(Row(s, r)) == multiset(Row(g, r))
  {
    PrefixRowsUpTo(s, g, r);
    PrefixRowsUpTo(s, g, r + 1);
    SliceMultiset(s, 5 * r, 5 * r + 5);
    SliceMultiset(g, 5 * r, 5 * r + 5);
  }

  lemma RowsDetermine(g1: seq<Box>, g2: seq<Box>)
    requires |g1| == 25 && |g2| == 25
    requires forall r :: 0 <= r < 5 ==> Row(g1, r) == Row(g2, r)
    ensures g1 == g2
  {
    forall i | 0 <= i < 25 ensures g1[i] == g2[i] {
      var r := i / 5;
      assert g1[i] == Row(g1, r)[i - 5 * r];
      assert g2[i] == Row(g2, r)[i - 5 * r];
    }
  }

  /** Canonicalisation recovers a row-major grid from any ordering of its
      cells: cell 0 is the top-left box and cell 24 the bottom-right one,
      whatever order the detector reported them in. */
  lemma CanonicalRecoversGrid(boxes: seq<Box>, g: seq<Box>)
    requires RowMajorGrid(g) && multiset(boxes) == multiset(g)
    ensures Canonical(boxes) == g
  {
    assert |boxes| == |multiset(boxes)| == |multiset(g)| == |g|;
    var s := SortBy(boxes, Y);
    forall r | 0 <= r < 5 ensures Row(Canonical(boxes), r) == Row(g, r) {
      RowOfCanonical(s, r);
      RowPermutation(s, g, r);
      SortByRecovers(Row(s, r), Row(g, r), X);
    }
    RowsDetermine(Canonical(boxes), g);
  }
}
