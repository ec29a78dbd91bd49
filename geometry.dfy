/**
  The geometric predicates of FindIntersections.h: orientation of three points, the
  bounding-box test for collinear points, the segment intersection test and the
  intersection point of two lines by Cramer's rule. Coordinates are exact reals.
*/
module Geometry {
  import Status

  type LineSegment = Status.LineSegment

  datatype Point = Point(x: real, y: real)

  function RMax(a: real, b: real): real
  {
    if a >= b then a else b
  }

  function RMin(a: real, b: real): real
  {
    if a <= b then a else b
  }

  /** `onSegment`: for collinear p, q, r, whether q lies on the segment pr, decided by
      the bounding box of p and r. */
  predicate OnSegment(p: Point, q: Point, r: Point)
  {
    q.x <= RMax(p.x, r.x) && q.x >= RMin(p.x, r.x) && q.y <= RMax(p.y, r.y) && q.y >= RMin(p.y, r.y)
  }

  /** The bounding-box test does not depend on which end of the segment comes first. */
  lemma OnSegmentSymmetric(p: Point, q: Point, r: Point)
    ensures OnSegment(p, q, r) == OnSegment(r, q, p)
  {
  }

  /** Every point p + t (r - p) with 0 <= t <= 1, that is every point of the closed
      segment pr, passes the bounding-box test. */
  lemma PointOfSegmentIsOnSegment(p: Point, r: Point, t: real)
    requires 0.0 <= t <= 1.0
    ensures OnSegment(p, Point(p.x + t * (r.x - p.x), p.y + t * (r.y - p.y)), r)
  {
    BetweenEnds(p.x, r.x, t);
    BetweenEnds(p.y, r.y, t);
  }

  lemma BetweenEnds(a: real, b: real, t: real)
    requires 0.0 <= t <= 1.0
    ensures RMin(a, b) <= a + t * (b - a) <= RMax(a, b)
  {
    if a <= b {
      MulNonneg(t, b - a);
      MulNonneg(1.0 - t, b - a);
    } else {
      MulNonneg(t, a - b);
      MulNonneg(1.0 - t, a - b);
    }
  }

  lemma MulNonneg(u: real, v: real)
    requires u >= 0.0 && v >= 0.0
    ensures u * v >= 0.0
  {
  }

  /** The value `orientation` takes the sign of: the cross product of q - p and r - q,
      with the sign convention of the source (positive for clockwise). */
  function Cross(p: Point, q: Point, r: Point): real
  {
    (q.y - p.y) * (r.x - q.x) - (q.x - p.x) * (r.y - q.y)
  }

  /** `orientation`: 0 for collinear points, 1 for clockwise, 2 for counterclockwise. */
  function Orientation(p: Point, q: Point, r: Point): (o: int)
    ensures 0 <= o <= 2
    ensures o == 0 <==> Cross(p, q, r) == 0.0
    ensures o == 1 <==> Cross(p, q, r) > 0.0
    ensures o == 2 <==> Cross(p, q, r) < 0.0
  {
    var v := Cross(p, q, r);
    if v == 0.0 then 0 else if v > 0.0 then 1 else 2
  }

  /** Turning the same three points around cyclically keeps the orientation. */
  lemma OrientationCyclic(p: Point, q: Point, r: Point)
    ensures Orientation(q, r, p) == Orientation(p, q, r)
  {
    assert Cross(q, r, p) == Cross(p, q, r);
  }

  /** Swapping the last two points reverses the orientation and keeps collinearity. */
  lemma OrientationSwap(p: Point, q: Point, r: Point)
    ensures Orientation(p, r, q) == (if Orientation(p, q, r) == 0 then 0 else 3 - Orientation(p, q, r))
  {
    assert Cross(p, r, q) == -Cross(p, q, r);
  }

  function Start(l: LineSegment): Point
  {
    Point(l.startX, l.startY)
  }

  function End(l: LineSegment): Point
  {
    Point(l.endX, l.endY)
  }

  /** `doIntersect`: the general case (each segment's ends on different sides of the
      other's line), then the four collinear special cases. */
  predicate DoIntersect(l1: LineSegment, l2: LineSegment)
  {
    var p1, q1, p2, q2 := Start(l1), End(l1), Start(l2), End(l2);
    var o1 := Orientation(p1, q1, p2);
    var o2 := Orientation(p1, q1, q2);
    var o3 := Orientation(p2, q2, p1);
    var o4 := Orientation(p2, q2, q1);
    if o1 != o2 && o3 != o4 then true
    else if o1 == 0 && OnSegment(p1, p2, q1) then true
    else if o2 == 0 && OnSegment(p1, q2, q1) then true
    else if o3 == 0 && OnSegment(p2, p1, q2) then true
    else if o4 == 0 && OnSegment(p2, q1, q2) then true
    else false
  }

  /** The test does not depend on the order of the two segments. */
  lemma DoIntersectSymmetric(l1: LineSegment, l2: LineSegment)
    ensures DoIntersect(l1, l2) == DoIntersect(l2, l1)
  {
  }

  /** Two segments whose ends lie strictly on opposite sides of each other's line
      intersect. */
  lemma ProperCrossingIntersects(l1: LineSegment, l2: LineSegment)
    requires Cross(Start(l1), End(l1), Start(l2)) * Cross(Start(l1), End(l1), End(l2)) < 0.0
    requires Cross(Start(l2), End(l2), Start(l1)) * Cross(Start(l2), End(l2), End(l1)) < 0.0
    ensures DoIntersect(l1, l2)
  {
    var a, b := Cross(Start(l1), End(l1), Start(l2)), Cross(Start(l1), End(l1), End(l2));
    var c, d := Cross(Start(l2), End(l2), Start(l1)), Cross(Start(l2), End(l2), End(l1));
    assert (a > 0.0 && b < 0.0) || (a < 0.0 && b > 0.0);
    assert (c > 0.0 && d < 0.0) || (c < 0.0 && d > 0.0);
  }

  /** Two segments that share an end point intersect. */
  lemma SharedEndpointIntersects(l1: LineSegment, l2: LineSegment)
    requires Start(l2) == Start(l1) || Start(l2) == End(l1) || End(l2) == Start(l1) || End(l2) == End(l1)
    ensures DoIntersect(l1, l2)
  {
  }

  /** The determinant of the two lines' equations a x + b y = c, where for a segment
      a = endY - startY and b = startX - endX; zero exactly for parallel lines. */
  function Det(l1: LineSegment, l2: LineSegment): real
  {
    (l1.endY - l1.startY) * (l2.startX - l2.endX) - (l2.endY - l2.startY) * (l1.startX - l1.endX)
  }

  /** The point lies on the line through the segment's two end points. */
  predicate OnLine(l: LineSegment, p: Point)
  {
    (l.endY - l.startY) * (p.x - l.startX) == (l.endX - l.startX) * (p.y - l.startY)
  }

  /** Cramer's rule for the two lines of `intersectionOf` and `lineLineIntersection`. */
  function Cramer(a1: real, b1: real, c1: real, a2: real, b2: real, c2: real): (p: Point)
    requires a1 * b2 - a2 * b1 != 0.0
    ensures a1 * p.x + b1 * p.y == c1 && a2 * p.x + b2 * p.y == c2
  {
    var d := a1 * b2 - a2 * b1;
    var x := (b2 * c1 - b1 * c2) / d;
    var y := (a1 * c2 - a2 * c1) / d;
    assert x * d == b2 * c1 - b1 * c2;
    assert y * d == a1 * c2 - a2 * c1;
    assert (a1 * x + b1 * y - c1) * d == 0.0 by {
      assert (a1 * x + b1 * y) * d == a1 * (x * d) + b1 * (y * d);
    }
    assert (a2 * x + b2 * y - c2) * d == 0.0 by {
      assert (a2 * x + b2 * y) * d == a2 * (x * d) + b2 * (y * d);
    }
    Point(x, y)
  }

  /** A system with a nonzero determinant has no other solution. */
  lemma CramerUnique(a1: real, b1: real, c1: real, a2: real, b2: real, c2: real, q: Point)
    requires a1 * b2 - a2 * b1 != 0.0
    requires a1 * q.x + b1 * q.y == c1 && a2 * q.x + b2 * q.y == c2
    ensures q == Cramer(a1, b1, c1, a2, b2, c2)
  {
    var p := Cramer(a1, b1, c1, a2, b2, c2);
    var d := a1 * b2 - a2 * b1;
    assert (q.x - p.x) * d == 0.0 by {
      assert b2 * (a1 * (q.x - p.x) + b1 * (q.y - p.y)) - b1 * (a2 * (q.x - p.x) + b2 * (q.y - p.y)) == 0.0;
    }
    assert (q.y - p.y) * d == 0.0 by {
      assert a1 * (a2 * (q.x - p.x) + b2 * (q.y - p.y)) - a2 * (a1 * (q.x - p.x) + b1 * (q.y - p.y)) == 0.0;
    }
  }

  /** The coefficients a, b, c of the line a x + b y = c through segment `l`. */
  function LineOf(l: LineSegment): (real, real, real)
  {
    var a := l.endY - l.startY;
    var b := l.startX - l.endX;
    (a, b, a * l.startX + b * l.startY)
  }

  /** The equation of LineOf holds exactly for the points on the segment's line. */
  lemma LineOfMeansOnLine(l: LineSegment, p: Point)
    ensures LineOf(l).0 * p.x + LineOf(l).1 * p.y == LineOf(l).2 <==> OnLine(l, p)
  {
    var (a, b, c) := LineOf(l);
    assert a * p.x + b * p.y - c == (l.endY - l.startY) * (p.x - l.startX) - (l.endX - l.startX) * (p.y - l.startY);
  }

  /** Cramer's rule applied to the equations of the lines through two segments. */
  function CramerOf(l1: LineSegment, l2: LineSegment): Point
    requires Det(l1, l2) != 0.0
  {
    Cramer(LineOf(l1).0, LineOf(l1).1, LineOf(l1).2, LineOf(l2).0, LineOf(l2).1, LineOf(l2).2)
  }

  /** Cramer's point lies on both lines. */
  lemma CramerOfOnLines(l1: LineSegment, l2: LineSegment)
    requires Det(l1, l2) != 0.0
    ensures OnLine(l1, CramerOf(l1, l2)) && OnLine(l2, CramerOf(l1, l2))
  {
    LineOfMeansOnLine(l1, CramerOf(l1, l2));
    LineOfMeansOnLine(l2, CramerOf(l1, l2));
  }

  /** Any point on both lines is Cramer's point. */
  lemma CramerOfUnique(l1: LineSegment, l2: LineSegment, q: Point)
    requires Det(l1, l2) != 0.0
    requires OnLine(l1, q) && OnLine(l2, q)
    ensures q == CramerOf(l1, l2)
  {
    var (a1, b1, c1) := LineOf(l1);
    var (a2, b2, c2) := LineOf(l2);
    LineOfMeansOnLine(l1, q);
    LineOfMeansOnLine(l2, q);
    CramerUnique(a1, b1, c1, a2, b2, c2, q);
  }

  /** The meeting point of the lines through two segments that are not parallel: it
      lies on both lines and is the only such point. */
  function LinesMeet(l1: LineSegment, l2: LineSegment): (p: Point)
    requires Det(l1, l2) != 0.0
    ensures OnLine(l1, p) && OnLine(l2, p)
    ensures forall q :: OnLine(l1, q) && OnLine(l2, q) ==> q == p
  {
    CramerOfOnLines(l1, l2);
    assert forall q :: OnLine(l1, q) && OnLine(l2, q) ==> q == CramerOf(l1, l2) by {
      forall q | OnLine(l1, q) && OnLine(l2, q)
        ensures q == CramerOf(l1, l2)
      {
        CramerOfUnique(l1, l2, q);
      }
    }
    CramerOf(l1, l2)
  }

  /** `intersectionOf`: (-1, -1) for segments that do not intersect, otherwise the
      meeting point of their lines. Collinear segments that touch make the determinant
      zero; the source divides by it, and callers here must exclude that case. */
  function IntersectionOf(l1: LineSegment, l2: LineSegment): (p: Point)
    requires !DoIntersect(l1, l2) || Det(l1, l2) != 0.0
    ensures !DoIntersect(l1, l2) ==> p == Point(-1.0, -1.0)
    ensures DoIntersect(l1, l2) ==> OnLine(l1, p) && OnLine(l2, p)
    ensures DoIntersect(l1, l2) ==> forall q :: OnLine(l1, q) && OnLine(l2, q) ==> q == p
  {
    if !DoIntersect(l1, l2) then Point(-1.0, -1.0) else LinesMeet(l1, l2)
  }

  /** `lineLineIntersection` on points given as (x, y) pairs: (-1, -1) for parallel
      lines AB and CD, otherwise their meeting point. */
  function LineLineIntersection(A: (real, real), B: (real, real), C: (real, real), D: (real, real)): (r: (real, real))
    ensures
      var l1 := Status.LineSegment(A.0, A.1, B.0, B.1);
      var l2 := Status.LineSegment(C.0, C.1, D.0, D.1);
      && (Det(l1, l2) == 0.0 ==> r == (-1.0, -1.0))
      && (Det(l1, l2) != 0.0 ==> OnLine(l1, Point(r.0, r.1)) && OnLine(l2, Point(r.0, r.1)))
  {
    var l1 := Status.LineSegment(A.0, A.1, B.0, B.1);
    var l2 := Status.LineSegment(C.0, C.1, D.0, D.1);
    if Det(l1, l2) == 0.0 then (-1.0, -1.0)
    else
      var p := LinesMeet(l1, l2);
      (p.x, p.y)
  }

  /** Any point on both of two non-parallel lines is their meeting point. */
  lemma CommonPointIsMeet(l1: LineSegment, l2: LineSegment, m: Point)
    requires Det(l1, l2) != 0.0
    requires OnLine(l1, m) && OnLine(l2, m)
    ensures LinesMeet(l1, l2) == m
  {
  }

  /** For lines that are not parallel `lineLineIntersection` yields their meeting point. */
  lemma LineLineIsMeet(A: (real, real), B: (real, real), C: (real, real), D: (real, real))
    requires Det(Status.LineSegment(A.0, A.1, B.0, B.1), Status.LineSegment(C.0, C.1, D.0, D.1)) != 0.0
    ensures var p := LinesMeet(Status.LineSegment(A.0, A.1, B.0, B.1), Status.LineSegment(C.0, C.1, D.0, D.1));
            LineLineIntersection(A, B, C, D) == (p.x, p.y)
  {
  }

  /** The value for parallel lines is also a genuine meeting point: the diagonals of
      the square with corners (-2, -2) and (0, 0) meet at (-1, -1), so the result does
      not tell parallel lines apart from lines meeting there. */
  lemma ParallelValueIsAlsoAMeetingPoint()
    ensures var l1 := Status.LineSegment(-2.0, -2.0, 0.0, 0.0);
            var l2 := Status.LineSegment(-2.0, 0.0, 0.0, -2.0);
            Det(l1, l2) != 0.0
            && LineLineIntersection((-2.0, -2.0), (0.0, 0.0), (-2.0, 0.0), (0.0, -2.0)) == (-1.0, -1.0)
  {
    var l1 := Status.LineSegment(-2.0, -2.0, 0.0, 0.0);
    var l2 := Status.LineSegment(-2.0, 0.0, 0.0, -2.0);
    var m := Point(-1.0, -1.0);
    assert Det(l1, l2) == -8.0;
    assert OnLine(l1, m) && OnLine(l2, m);
    CommonPointIsMeet(l1, l2, m);
    LineLineIsMeet((-2.0, -2.0), (0.0, 0.0), (-2.0, 0.0), (0.0, -2.0));
  }
}
