/**
  The helpers of the sweep driver in FindIntersections.h: the constructor's
  normalisation of a segment, the list operations `contains` and `unionOf`, the
  scan for the leftmost and rightmost segments through an event point, and the
  effect of a whole round of status-structure updates.
*/
module SweepHelpers {
  import Status
  import Geometry

  type LineSegment = Status.LineSegment
  type SweepSegment = Status.SweepSegment

  /** The same segment with its two end points swapped. */
  function Reversed(l: LineSegment): LineSegment
  {
    Status.LineSegment(l.endX, l.endY, l.startX, l.startY)
  }

  /** The constructor's normalisation: the upper end point first; for a horizontal
      segment the left end point first. */
  function Normalize(l: LineSegment): (n: LineSegment)
    ensures n.startY >= n.endY
    ensures n.startY == n.endY ==> n.startX <= n.endX
    ensures n == l || n == Reversed(l)
  {
    if l.startY == l.endY then
      (if l.startX <= l.endX then l else Reversed(l))
    else if l.startY >= l.endY then l
    else Reversed(l)
  }

  /** Both ways of writing a segment normalise to the same segment, and normalising
      twice changes nothing. */
  lemma NormalizeCanonical(l: LineSegment)
    ensures Normalize(Reversed(l)) == Normalize(l)
    ensures Normalize(Normalize(l)) == Normalize(l)
  {
  }

  /** `contains`: 0 when some element equals `l` in all four coordinates, else 1. */
  method Contains(x: seq<LineSegment>, l: LineSegment) returns (r: int)
    ensures r == 0 || r == 1
    ensures r == 0 <==> l in x
  {
    var i := 0;
    while i < |x|
      invariant 0 <= i <= |x|
      invariant l !in x[..i]
    {
      if x[i] == l {
        return 0;
      }
      i := i + 1;
    }
    return 1;
  }

  /** The value `unionOf` builds: `a`, then each element of `b` in turn that is not
      already there. */
  function Union(a: seq<LineSegment>, b: seq<LineSegment>): seq<LineSegment>
    decreases |b|
  {
    if |b| == 0 then a
    else
      var u := Union(a, b[..|b| - 1]);
      if b[|b| - 1] in u then u else u + [b[|b| - 1]]
  }

  /** `unionOf`: copy `a`, then append each element of `b` that `contains` does not
      find in the vector built so far. */
  method UnionOf(a: seq<LineSegment>, b: seq<LineSegment>) returns (u: seq<LineSegment>)
    ensures u == Union(a, b)
  {
    u := [];
    var i := 0;
    while i < |a|
      invariant 0 <= i <= |a| && u == a[..i]
    {
      u := u + [a[i]];
      i := i + 1;
    }
    assert a[..|a|] == a;
    i := 0;
    while i < |b|
      invariant 0 <= i <= |b| && u == Union(a, b[..i])
    {
      var c := Contains(u, b[i]);
      if c == 1 {
        u := u + [b[i]];
      }
      assert b[..i + 1][..i] == b[..i];
      i := i + 1;
    }
    assert b[..|b|] == b;
  }

  /** The union starts with all of `a`, in order. */
  lemma {:induction false} UnionPrefix(a: seq<LineSegment>, b: seq<LineSegment>)
    ensures |a| <= |Union(a, b)| && Union(a, b)[..|a|] == a
    decreases |b|
  {
    if |b| > 0 {
      UnionPrefix(a, b[..|b| - 1]);
      var u := Union(a, b[..|b| - 1]);
      assert (u + [b[|b| - 1]])[..|a|] == u[..|a|];
    }
  }

  /** The union holds exactly the elements of `a` and of `b`. */
  lemma {:induction false} UnionMembers(a: seq<LineSegment>, b: seq<LineSegment>)
    ensures forall s :: s in Union(a, b) <==> s in a || s in b
    decreases |b|
  {
    if |b| > 0 {
      UnionMembers(a, b[..|b| - 1]);
      assert b == b[..|b| - 1] + [b[|b| - 1]];
    }
  }

  /** Appending only absent elements keeps a duplicate-free `a` duplicate-free. */
  lemma {:induction false} UnionDistinct(a: seq<LineSegment>, b: seq<LineSegment>)
    requires Status.Distinct(a)
    ensures Status.Distinct(Union(a, b))
    decreases |b|
  {
    if |b| > 0 {
      UnionDistinct(a, b[..|b| - 1]);
      var u := Union(a, b[..|b| - 1]);
      var x := b[|b| - 1];
      if x !in u {
        Status.AppendKeepsDistinct(u, x);
      }
    }
  }

  /** The elements of a sequence, as a set. */
  function Elements(q: seq<LineSegment>): set<LineSegment>
  {
    set s | s in q
  }

  /** A duplicate-free sequence has as many elements as its set. */
  lemma {:induction false} DistinctCount(q: seq<LineSegment>)
    requires Status.Distinct(q)
    ensures |Elements(q)| == |q|
    decreases |q|
  {
    if |q| > 0 {
      var init := q[..|q| - 1];
      DistinctCount(init);
      assert Elements(q) == Elements(init) + {q[|q| - 1]} by {
        assert q == init + [q[|q| - 1]];
      }
      assert q[|q| - 1] !in init;
    }
  }

  /** When `a` is duplicate-free, the length of the union counts the distinct segments
      of `a` and `b`. */
  lemma UnionCountsDistinct(a: seq<LineSegment>, b: seq<LineSegment>)
    requires Status.Distinct(a)
    ensures |Union(a, b)| == |Elements(a) + Elements(b)|
  {
    UnionDistinct(a, b);
    DistinctCount(Union(a, b));
    UnionMembers(a, b);
    assert Elements(Union(a, b)) == Elements(a) + Elements(b);
  }

  /** The x-coordinate of `l` at height `ycor` lies within the segment's own x-range,
      the test `handleEventPoint` applies before taking a segment as leftmost or
      rightmost. */
  predicate Spans(l: SweepSegment, ycor: real)
  {
    var x := Status.FindX(l, ycor);
    x <= Geometry.RMax(l.startX, l.endX) && x >= Geometry.RMin(l.startX, l.endX)
  }

  /** The scan of `handleEventPoint` over U ∪ C for the leftmost and the rightmost
      segment at height `ycor`, starting from the sentinels 1001 and -1; `sll0` and
      `srr0` are the values the uninitialised C++ locals hold when no segment
      qualifies. */
  method ExtremeSegments(segs: seq<SweepSegment>, ycor: real, sll0: SweepSegment, srr0: SweepSegment)
    returns (leftmostX: real, rightmostX: real, sll: SweepSegment, srr: SweepSegment)
    ensures leftmostX == 1001.0 ==>
              sll == sll0 && forall s :: s in segs && Spans(s, ycor) ==> Status.FindX(s, ycor) >= 1001.0
    ensures leftmostX != 1001.0 ==>
              && sll in segs && Spans(sll, ycor) && Status.FindX(sll, ycor) == leftmostX < 1001.0
              && forall s :: s in segs && Spans(s, ycor) ==> leftmostX <= Status.FindX(s, ycor)
    ensures rightmostX == -1.0 ==>
              srr == srr0 && forall s :: s in segs && Spans(s, ycor) ==> Status.FindX(s, ycor) <= -1.0
    ensures rightmostX != -1.0 ==>
              && srr in segs && Spans(srr, ycor) && Status.FindX(srr, ycor) == rightmostX > -1.0
              && forall s :: s in segs && Spans(s, ycor) ==> Status.FindX(s, ycor) <= rightmostX
  {
    leftmostX, rightmostX := 1001.0, -1.0;
    sll, srr := sll0, srr0;
    var i := 0;
    while i < |segs|
      invariant 0 <= i <= |segs|
      invariant leftmostX <= 1001.0 && rightmostX >= -1.0
      invariant leftmostX == 1001.0 ==> sll == sll0
      invariant leftmostX != 1001.0 ==>
                  sll in segs[..i] && Spans(sll, ycor) && Status.FindX(sll, ycor) == leftmostX
      invariant forall s :: s in segs[..i] && Spans(s, ycor) ==> leftmostX <= Status.FindX(s, ycor)
      invariant rightmostX == -1.0 ==> srr == srr0
      invariant rightmostX != -1.0 ==>
                  srr in segs[..i] && Spans(srr, ycor) && Status.FindX(srr, ycor) == rightmostX
      invariant forall s :: s in segs[..i] && Spans(s, ycor) ==> Status.FindX(s, ycor) <= rightmostX
    {
      var x := Status.FindX(segs[i], ycor);
      var minX := if segs[i].startX < segs[i].endX then segs[i].startX else segs[i].endX;
      var maxX := if segs[i].startX > segs[i].endX then segs[i].startX else segs[i].endX;
      if x < leftmostX && x <= maxX && x >= minX {
        leftmostX := x;
        sll := segs[i];
      }
      if x > rightmostX && x <= maxX && x >= minX {
        rightmostX := x;
        srr := segs[i];
      }
      assert segs[..i + 1] == segs[..i] + [segs[i]];
      i := i + 1;
    }
    assert segs[..|segs|] == segs;
  }

  /** Every segment in the list is non-horizontal, so the status structure can key it. */
  predicate AllSweep(segs: seq<LineSegment>)
  {
    forall s :: s in segs ==> s.startY != s.endY
  }

  /** The status tree after `deleteNode` at height `ycor` for each segment in turn. */
  function DeleteAll(t: Status.StatusTree, segs: seq<LineSegment>, ycor: real): Status.StatusTree
    requires AllSweep(segs)
    decreases |segs|
  {
    if |segs| == 0 then t
    else
      var last: SweepSegment := segs[|segs| - 1];
      Status.DeleteNode(DeleteAll(t, segs[..|segs| - 1], ycor), last, ycor)
  }

  /** The status tree and the `globalinsert` flag after `insert` at height `ycor` for
      each segment in turn, starting with the flag at `flag`. */
  function InsertAll(t: Status.StatusTree, segs: seq<LineSegment>, ycor: real, flag: int): (Status.StatusTree, int)
    requires AllSweep(segs)
    decreases |segs|
  {
    if |segs| == 0 then (t, flag)
    else
      var last: SweepSegment := segs[|segs| - 1];
      var (t1, f1) := InsertAll(t, segs[..|segs| - 1], ycor, flag);
      Status.InsertRec(t1, last, ycor, f1)
  }

  /** A round of deletions never adds a segment and keeps the stored heights right. */
  lemma {:induction false} DeleteAllEffect(t: Status.StatusTree, segs: seq<LineSegment>, ycor: real)
    requires AllSweep(segs)
    ensures forall s :: s in Status.Inorder(DeleteAll(t, segs, ycor)) ==> s in Status.Inorder(t)
    ensures |Status.Inorder(t)| - |segs| <= |Status.Inorder(DeleteAll(t, segs, ycor))| <= |Status.Inorder(t)|
    ensures Status.HeightsOk(t) ==> Status.HeightsOk(DeleteAll(t, segs, ycor))
    decreases |segs|
  {
    if |segs| > 0 {
      var last: SweepSegment := segs[|segs| - 1];
      DeleteAllEffect(t, segs[..|segs| - 1], ycor);
      var t1 := DeleteAll(t, segs[..|segs| - 1], ycor);
      Status.DeleteNodeEffect(t1, last, ycor);
      if Status.HeightsOk(t) {
        Status.DeleteNodeHeights(t1, last, ycor);
      }
    }
  }

  /** A round of insertions stores only segments that were there or were inserted, and
      keeps the stored heights right. */
  lemma {:induction false} InsertAllEffect(t: Status.StatusTree, segs: seq<LineSegment>, ycor: real, flag: int)
    requires AllSweep(segs)
    ensures forall s :: s in Status.Inorder(InsertAll(t, segs, ycor, flag).0) ==> s in Status.Inorder(t) || s in segs
    ensures Status.HeightsOk(t) ==> Status.HeightsOk(InsertAll(t, segs, ycor, flag).0)
    decreases |segs|
  {
    if |segs| > 0 {
      var last: SweepSegment := segs[|segs| - 1];
      InsertAllEffect(t, segs[..|segs| - 1], ycor, flag);
      var (t1, f1) := InsertAll(t, segs[..|segs| - 1], ycor, flag);
      Status.InsertRecSegments(t1, last, ycor, f1);
      if Status.HeightsOk(t) {
        Status.InsertRecHeights(t1, last, ycor, f1);
      }
    }
  }
}
