/**
 * Grid geometry of the Battleship game: points, the range test, the
 * point-on-segment test and the segment-crossing walk (main.c:242-281).
 * Points are plain values; the C program's per-cell heap points are an
 * allocation detail and are not modelled.
 */
module Geometry {

  /** Side length of the square grid (BOARD_SIZE). */
  const BoardSize: int := 10

  /** A grid coordinate (point_create builds one). */
  datatype Point = Point(x: int, y: int)

  /** The two endpoints share a column or share a row. */
  predicate AxisAligned(a: Point, b: Point) {
    a.x == b.x || a.y == b.y
  }

  /** The start is not after the end on either axis. */
  predicate Ordered(a: Point, b: Point) {
    a.x <= b.x && a.y <= b.y
  }

  /** The cell `p` lies in the rectangle spanned by `a` and `b`; for an ordered,
      axis-aligned segment these are exactly the segment's cells. */
  predicate InBox(p: Point, a: Point, b: Point) {
    a.x <= p.x <= b.x && a.y <= p.y <= b.y
  }

  /** The cell lies on the board. */
  predicate OnGrid(p: Point) {
    0 <= p.x < BoardSize && 0 <= p.y < BoardSize
  }

  /** Two ordered segments have a cell in common. */
  ghost predicate ShareCell(s1: Point, e1: Point, s2: Point, e2: Point) {
    exists p :: InBox(p, s1, e1) && InBox(p, s2, e2)
  }

  /**
   * utils_isWithin as written. The intended swap of `a` and `b` overwrites
   * only `b` with `a`, so a reversed range admits its first bound alone.
   */
  function IsWithin(n: int, a: int, b: int): (r: bool)
    ensures a <= b ==> (r <==> a <= n <= b)
    ensures a > b ==> (r <==> n == a)
  {
    var (lo, hi) := if a > b then (a, a) else (a, b);
    lo <= n && n <= hi
  }

  /** A reversed range rejects every value from its lower bound up to, but excluding, its first bound. */
  lemma ReversedRangeRejectsInterior(n: int, a: int, b: int)
    requires b <= n < a
    ensures !IsWithin(n, a, b)
  {
  }

  /**
   * utils_pointIntersectsLine: `p` shares the column of both endpoints and its
   * row passes the range test, or it shares the row of both endpoints and its
   * column passes the range test.
   */
  function PointOnSegment(p: Point, a: Point, b: Point): (r: bool)
    ensures r ==> (p.x == a.x && p.x == b.x) || (p.y == a.y && p.y == b.y)
    ensures r ==> AxisAligned(a, b)
  {
    var sameX := a.x == p.x && b.x == p.x;
    var sameY := a.y == p.y && b.y == p.y;
    var vertical := sameX && IsWithin(p.y, a.y, b.y);
    var horizontal := sameY && IsWithin(p.x, a.x, b.x);
    vertical || horizontal
  }

  /** The start endpoint of any axis-aligned segment lies on it, whatever the endpoint order. */
  lemma StartOnSegment(a: Point, b: Point)
    requires AxisAligned(a, b)
    ensures PointOnSegment(a, a, b)
  {
  }

  /** Because of the range test, the end of a reversed segment is not on it, while its start is. */
  lemma ReversedSegmentMissesEnd(a: Point, b: Point)
    requires AxisAligned(a, b) && (a.x > b.x || a.y > b.y)
    ensures PointOnSegment(a, a, b) && !PointOnSegment(b, a, b)
  {
  }

  /** On an ordered, axis-aligned segment the test picks out exactly the segment's cells. */
  lemma OnSegmentIffInBox(p: Point, a: Point, b: Point)
    requires AxisAligned(a, b) && Ordered(a, b)
    ensures PointOnSegment(p, a, b) <==> InBox(p, a, b)
  {
  }

  /**
   * What utils_lineIntersectsLine computes: when the first segment's endpoints
   * share x it walks y from s1.y up to e1.y in column s1.x, otherwise it walks
   * x from s1.x up to e1.x in row s1.y, and it reports whether a visited cell
   * lies on the second segment. A first segment whose start is past its end
   * visits nothing.
   */
  function LinesIntersect(s1: Point, e1: Point, s2: Point, e2: Point): (r: bool)
    ensures s1.x == e1.x && s1.y > e1.y ==> !r
    ensures s1.x != e1.x && s1.x > e1.x ==> !r
    ensures r ==> AxisAligned(s2, e2)
  {
    if s1.x == e1.x then
      exists y | s1.y <= y <= e1.y :: PointOnSegment(Point(s1.x, y), s2, e2)
    else
      exists x | s1.x <= x <= e1.x :: PointOnSegment(Point(x, s1.y), s2, e2)
  }

  /** utils_lineIntersectsLine: the cell walk with early exit. */
  method LineIntersectsLine(s1: Point, e1: Point, s2: Point, e2: Point) returns (r: bool)
    ensures r == LinesIntersect(s1, e1, s2, e2)
  {
    if s1.x == e1.x {
      var y := s1.y;
      while y <= e1.y
        invariant s1.y <= y
        invariant forall y' :: s1.y <= y' < y ==> !PointOnSegment(Point(s1.x, y'), s2, e2)
        decreases e1.y - y
      {
        if PointOnSegment(Point(s1.x, y), s2, e2) {
          return true;
        }
        y := y + 1;
      }
    } else {
      var x := s1.x;
      while x <= e1.x
        invariant s1.x <= x
        invariant forall x' :: s1.x <= x' < x ==> !PointOnSegment(Point(x', s1.y), s2, e2)
        decreases e1.x - x
      {
        if PointOnSegment(Point(x, s1.y), s2, e2) {
          return true;
        }
        x := x + 1;
      }
    }
    return false;
  }

  /** For two ordered, axis-aligned segments, the walk finds a crossing exactly when they share a cell. */
  lemma {:induction false} IntersectIffShareCell(s1: Point, e1: Point, s2: Point, e2: Point)
    requires AxisAligned(s1, e1) && Ordered(s1, e1)
    requires AxisAligned(s2, e2) && Ordered(s2, e2)
    ensures LinesIntersect(s1, e1, s2, e2) <==> ShareCell(s1, e1, s2, e2)
  {
    if LinesIntersect(s1, e1, s2, e2) {
      var p: Point :| if s1.x == e1.x then p.x == s1.x && s1.y <= p.y <= e1.y && PointOnSegment(p, s2, e2)
               else p.y == s1.y && s1.x <= p.x <= e1.x && PointOnSegment(p, s2, e2);
      OnSegmentIffInBox(p, s2, e2);
      assert InBox(p, s1, e1) && InBox(p, s2, e2);
    }
    if ShareCell(s1, e1, s2, e2) {
      var p :| InBox(p, s1, e1) && InBox(p, s2, e2);
      OnSegmentIffInBox(p, s2, e2);
      if s1.x == e1.x {
        assert p == Point(s1.x, p.y);
      } else {
        assert p == Point(p.x, s1.y);
      }
    }
  }

  /** For ordered, axis-aligned segments it does not matter which one is walked. */
  lemma {:induction false} IntersectSymmetric(s1: Point, e1: Point, s2: Point, e2: Point)
    requires AxisAligned(s1, e1) && Ordered(s1, e1)
    requires AxisAligned(s2, e2) && Ordered(s2, e2)
    ensures LinesIntersect(s1, e1, s2, e2) == LinesIntersect(s2, e2, s1, e1)
  {
    IntersectIffShareCell(s1, e1, s2, e2);
    IntersectIffShareCell(s2, e2, s1, e1);
    if ShareCell(s1, e1, s2, e2) {
      var p :| InBox(p, s1, e1) && InBox(p, s2, e2);
      assert InBox(p, s2, e2) && InBox(p, s1, e1);
    }
  }
}
