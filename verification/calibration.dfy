/** Calibration (find_squares_in_video in tracker.py): frames are tried from
    the middle of the video backwards to frame 0 and then from just after
    the middle to the end; the first frame that can be read and shows
    exactly 25 cells gives the grid, and the read position is rewound. */
module Calibration {
  import opened Wrappers
  import opened Geometry
  import opened Grid

  /** `m, m-1, ..., 0`, empty for a negative `m` (Python's
      `range(m, -1, -1)`). */
  function Down(m: int): (r: seq<int>)
    ensures |r| == if m < 0 then 0 else m + 1
    ensures forall k :: 0 <= k < |r| ==> r[k] == m - k
    decreases m + 1
  {
    if m < 0 then [] else [m] + Down(m - 1)
  }

  /** `a, a+1, ..., b-1`, empty when `a >= b` (Python's `range(a, b)`). */
  function Up(a: int, b: int): (r: seq<int>)
    ensures |r| == if a >= b then 0 else b - a
    ensures forall k :: 0 <= k < |r| ==> r[k] == a + k
    decreases b - a
  {
    if a >= b then [] else [a] + Up(a + 1, b)
  }

  /** The order in which frames are tried, for a reported frame count `n`.
      Python's `n // 2` is Dafny's `n / 2` because the divisor is positive. */
  function SearchOrder(n: int): (order: seq<int>)
    ensures n <= 0 ==> order == []
    ensures n > 0 ==> |order| == n
    ensures n > 0 ==> order[0] == n / 2
    ensures n > 0 ==> forall k :: 0 <= k <= n / 2 ==> order[k] == n / 2 - k
    ensures n > 0 ==> forall k :: n / 2 < k < n ==> order[k] == k
  {
    if n == 0 then [] else Down(n / 2) + Up(n / 2 + 1, n)
  }

  /** For a positive frame count the search order visits every frame
      exactly once. */
  lemma SearchOrderPermutation(n: int)
    requires n > 0
    ensures forall k :: 0 <= k < n ==> 0 <= SearchOrder(n)[k] < n
    ensures forall v :: 0 <= v < n ==> v in SearchOrder(n)
    ensures forall i, j :: 0 <= i < j < n ==> SearchOrder(n)[i] != SearchOrder(n)[j]
  {
    var order := SearchOrder(n);
    forall v | 0 <= v < n ensures v in order {
      if v <= n / 2 {
        assert order[n / 2 - v] == v;
      } else {
        assert order[v] == v;
      }
    }
  }

  /** A video capture: the frame count it reports, what a read at each
      position returns (None for a failed read), and the read position. */
  datatype Capture<F> = Capture(frameCount: int, frames: seq<Option<F>>, pos: int)

  /** Reading at the current position; outside the frames a read fails. */
  function Read<F>(cap: Capture<F>): Option<F> {
    if 0 <= cap.pos < |cap.frames| then cap.frames[cap.pos] else None
  }

  /** What a read at position `p` gives. */
  function FrameAt<F>(cap: Capture<F>, p: int): Option<F> {
    Read(cap.(pos := p))
  }

  /** Frame `p` can be read and the grid detector reports exactly 25
      boxes for it, which is when find_squares gives a non-empty grid. */
  predicate Qualifies<F>(cap: Capture<F>, detect: F -> seq<seq<Box>>, p: int) {
    FrameAt(cap, p).Some? && |Boxes(detect(FrameAt(cap, p).value))| == 25
  }

  /** Candidate `k` of the search order is the first that qualifies. */
  predicate FirstQualifying<F>(cap: Capture<F>, detect: F -> seq<seq<Box>>, order: seq<int>, k: int) {
    && 0 <= k < |order|
    && Qualifies(cap, detect, order[k])
    && forall j :: 0 <= j < k ==> !Qualifies(cap, detect, order[j])
  }

  /** One candidate: the frame at the current position is read; an
      unreadable frame or one without a grid gives None. */
  function TryCandidate<F>(cap: Capture<F>, detect: F -> seq<seq<Box>>): (g: Option<seq<Box>>)
    ensures g.Some? <==> Qualifies(cap, detect, cap.pos)
    ensures g.Some? ==> g.value == FindSquares(detect(FrameAt(cap, cap.pos).value))
  {
    var frame := Read(cap);
    assert FrameAt(cap, cap.pos) == frame by {
      assert cap.(pos := cap.pos) == cap;
    }
    if frame.None? then None
    else
      var squares := FindSquares(detect(frame.value));
      if squares != [] then Some(squares) else None
  }

  /** At most one candidate is the first to qualify. */
  lemma FirstQualifyingUnique<F>(cap: Capture<F>, detect: F -> seq<seq<Box>>, order: seq<int>, k1: int, k2: int)
    requires FirstQualifying(cap, detect, order, k1) && FirstQualifying(cap, detect, order, k2)
    ensures k1 == k2
  {
  }

  /** When a single frame of the video qualifies, calibration picks it,
      wherever it lies in the search order. */
  lemma OnlyQualifyingFrameWins<F>(cap: Capture<F>, detect: F -> seq<seq<Box>>, p: int)
    requires 0 <= p < cap.frameCount && Qualifies(cap, detect, p)
    requires forall q :: 0 <= q < cap.frameCount && q != p ==> !Qualifies(cap, detect, q)
    ensures exists k :: FirstQualifying(cap, detect, SearchOrder(cap.frameCount), k)
                        && SearchOrder(cap.frameCount)[k] == p
  {
    var n := cap.frameCount;
    var order := SearchOrder(n);
    SearchOrderPermutation(n);
    assert p in order;
    var k :| 0 <= k < |order| && order[k] == p;
    assert FirstQualifying(cap, detect, order, k);
  }

  /** Candidate `i` does not qualify, and none before it does. */
  lemma NoneQualifyExtend<F>(cap: Capture<F>, detect: F -> seq<seq<Box>>, order: seq<int>, i: nat)
    requires i < |order| && !Qualifies(cap, detect, order[i])
    requires forall j :: 0 <= j < i ==> !Qualifies(cap, detect, order[j])
    ensures forall j :: 0 <= j < i + 1 ==> !Qualifies(cap, detect, order[j])
  {
  }

  /** `g` is the grid of candidate `k`, the first that qualifies. */
  predicate IsFirstGrid<F>(cap: Capture<F>, detect: F -> seq<seq<Box>>, k: int, g: seq<Box>) {
    && FirstQualifying(cap, detect, SearchOrder(cap.frameCount), k)
    && g == FindSquares(detect(FrameAt(cap, SearchOrder(cap.frameCount)[k]).value))
  }

  /** find_squares_in_video. The grid detector is the parameter `detect`.
      On success the grid is that of the first qualifying frame in search
      order and the capture is rewound to frame 0; otherwise the capture is
      left where the last candidate put it. */
  method FindSquaresInVideo<F>(cap: Capture<F>, detect: F -> seq<seq<Box>>)
    returns (squares: Option<seq<Box>>, cap': Capture<F>)
    ensures cap'.frameCount == cap.frameCount && cap'.frames == cap.frames
    ensures squares.None? <==>
      forall k :: 0 <= k < |SearchOrder(cap.frameCount)| ==> !Qualifies(cap, detect, SearchOrder(cap.frameCount)[k])
    ensures squares.Some? ==> cap'.pos == 0
    ensures squares.Some? ==> exists k :: IsFirstGrid(cap, detect, k, squares.value)
    ensures squares.Some? ==> RowMajorOrdered(squares.value)
    ensures squares.None? && |SearchOrder(cap.frameCount)| > 0 ==>
      cap'.pos == SearchOrder(cap.frameCount)[|SearchOrder(cap.frameCount)| - 1]
    ensures squares.None? && |SearchOrder(cap.frameCount)| == 0 ==> cap' == cap
  {
    cap' := cap;
    if cap.frameCount == 0 {
      return None, cap';
    }
    var order := SearchOrder(cap.frameCount);
    var i := 0;
    while i < |order|
      invariant 0 <= i <= |order|
      invariant forall j :: 0 <= j < i ==> !Qualifies(cap, detect, order[j])
      invariant cap' == if i == 0 then cap else cap.(pos := order[i - 1])
    {
      cap' := cap'.(pos := order[i]);
      assert cap' == cap.(pos := order[i]);
      assert Qualifies(cap', detect, cap'.pos) == Qualifies(cap, detect, order[i]) by {
        assert FrameAt(cap', cap'.pos) == FrameAt(cap, order[i]);
      }
      var g := TryCandidate(cap', detect);
      if g.Some? {
        assert RowMajorOrdered(g.value);
        cap' := cap'.(pos := 0);
        assert IsFirstGrid(cap, detect, i, g.value);
        return g, cap';
      }
      NoneQualifyExtend(cap, detect, order, i);
      i := i + 1;
    }
    squares := None;
  }
}
