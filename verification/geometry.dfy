/** Axis-aligned integer boxes, their centres, and the point-in-cell lookup
    of the tracker (get_center and find_square in tracker.py). */
module Geometry {

  /** A detector bounding box in pixel coordinates: (x1, y1) is the top-left
      corner and (x2, y2) the bottom-right one. */
  datatype Box = Box(x1: int, y1: int, x2: int, y2: int)

  datatype Point = Point(x: int, y: int)

  /** The corners are in order. Degenerate boxes are never corrected by the
      tracker; this is only what makes the centre fall inside the box. */
  predicate WellFormed(b: Box) {
    b.x1 <= b.x2 && b.y1 <= b.y2
  }

  /** Containment with inclusive bounds on both axes. */
  predicate Contains(b: Box, p: Point) {
    b.x1 <= p.x <= b.x2 && b.y1 <= p.y <= b.y2
  }

  /** The centre of a box, each coordinate being the floor of the midpoint
      (Python's `//` by 2, which agrees with Dafny's `/` for a positive
      divisor, whatever the sign of the coordinates). */
  function Center(b: Box): (p: Point)
    ensures 2 * p.x <= b.x1 + b.x2 < 2 * p.x + 2
    ensures 2 * p.y <= b.y1 + b.y2 < 2 * p.y + 2
    ensures WellFormed(b) ==> Contains(b, p)
  {
    Point((b.x1 + b.x2) / 2, (b.y1 + b.y2) / 2)
  }

  /** The lookup scans the boxes from index `i` on. */
  function FindSquareFrom(p: Point, squares: seq<Box>, i: nat): (r: int)
    requires i <= |squares|
    ensures r == -1 || i <= r < |squares|
    ensures r == -1 <==> forall k :: i <= k < |squares| ==> !Contains(squares[k], p)
    ensures r != -1 ==> Contains(squares[r], p)
    ensures r != -1 ==> forall k :: i <= k < r ==> !Contains(squares[k], p)
    decreases |squares| - i
  {
    if i == |squares| then -1
    else if Contains(squares[i], p) then i
    else FindSquareFrom(p, squares, i + 1)
  }

  /** The index of the first box containing `p`, or -1 when none does. */
  function FindSquare(p: Point, squares: seq<Box>): (r: int)
    ensures -1 <= r < |squares|
    ensures r == -1 <==> forall k :: 0 <= k < |squares| ==> !Contains(squares[k], p)
    ensures r != -1 ==> Contains(squares[r], p)
    ensures r != -1 ==> forall k :: 0 <= k < r ==> !Contains(squares[k], p)
  {
    FindSquareFrom(p, squares, 0)
  }

  /** The open interiors of two boxes meet. Cells of a drawn grid that
      only share an edge coordinate do not. */
  predicate InteriorsMeet(a: Box, b: Box) {
    a.x1 < b.x2 && b.x1 < a.x2 && a.y1 < b.y2 && b.y1 < a.y2
  }

  /** No two distinct cells of the grid have overlapping interiors. */
  predicate Disjoint(squares: seq<Box>) {
    forall i, j :: 0 <= i < j < |squares| ==> !InteriorsMeet(squares[i], squares[j])
  }

  /** At least two units wide and high, so the centre lies strictly inside. */
  predicate Roomy(b: Box) {
    b.x2 - b.x1 >= 2 && b.y2 - b.y1 >= 2
  }

  /** A box that contains the centre of a roomy box meets its interior. */
  lemma ContainedCenterMeets(a: Box, b: Box)
    requires Roomy(b) && Contains(a, Center(b))
    ensures InteriorsMeet(a, b) && InteriorsMeet(b, a)
  {
  }

  /** The centre of a well-formed cell is found, at that cell or at an
      earlier one that also contains it. */
  lemma CenterLocatesAtOrBefore(squares: seq<Box>, i: nat)
    requires i < |squares| && WellFormed(squares[i])
    ensures 0 <= FindSquare(Center(squares[i]), squares) <= i
  {
    assert Contains(squares[i], Center(squares[i]));
  }

  /** In a grid of cells with disjoint interiors, neighbours possibly
      sharing an edge, the centre of every roomy cell locates to that
      cell's own index. */
  lemma CenterLocatesToOwnCell(squares: seq<Box>, i: nat)
    requires i < |squares| && Roomy(squares[i]) && Disjoint(squares)
    ensures FindSquare(Center(squares[i]), squares) == i
  {
    var p := Center(squares[i]);
    var r := FindSquare(p, squares);
    CenterLocatesAtOrBefore(squares, i);
    if r < i {
      ContainedCenterMeets(squares[r], squares[i]);
    }
  }

  /** Two cells of a drawn grid that share the edge x = 10. */
  lemma SharedEdgeGrid()
    ensures Disjoint([Box(0, 0, 10, 10), Box(10, 0, 20, 10)])
    ensures FindSquare(Center(Box(10, 0, 20, 10)), [Box(0, 0, 10, 10), Box(10, 0, 20, 10)]) == 1
  {
    CenterLocatesToOwnCell([Box(0, 0, 10, 10), Box(10, 0, 20, 10)], 1);
  }
}
