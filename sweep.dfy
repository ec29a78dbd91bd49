/**
  The sweep driver of FindIntersections.h: the object holding the event queue, the
  status structure and its root, with the constructor, `findNewEvent`,
  `handleEventPoint` and `runAlgorithm`.

  Reporting an intersection (a `printf` in the source) appends the event point to the
  ghost sequence `reported`. The input segments, normalised, are kept as the ghost set
  `input`, so that the invariant can say every stored segment comes from the input.
*/
module Sweep {
  import Status
  import Events
  import EventsProofs
  import Geometry
  import opened SweepHelpers

  /** The input the algorithm is defined on: no horizontal segment (the status
      structure divides by endY - startY) and no two distinct segments that touch on
      a common line (intersectionOf divides by their zero determinant). */
  ghost predicate GeneralPosition(input: set<LineSegment>)
  {
    && (forall a :: a in input ==> a.startY != a.endY)
    && (forall a, b :: a in input && b in input && a != b ==>
          !Geometry.DoIntersect(a, b) || Geometry.Det(a, b) != 0.0)
  }

  /** The role lists hold only segments of `input`. */
  ghost predicate RolesIn(r: Events.Roles, input: set<LineSegment>)
  {
    && (forall s :: s in r.U ==> s in input)
    && (forall s :: s in r.L ==> s in input)
    && (forall s :: s in r.C ==> s in input)
  }

  /** Every point of the event queue holds only segments of `input`. */
  ghost predicate QueueFrom(t: Events.EventTree, input: set<LineSegment>)
  {
    forall p :: Events.Find(t, p).Some? ==> RolesIn(Events.Find(t, p).value, input)
  }

  /** The new queue keeps every point of the old one and adds only points that come
      strictly after `m` in sweep order. */
  ghost predicate GrowsAfter(before: Events.EventTree, after: Events.EventTree, m: Events.Position)
  {
    && Events.Keys(before) <= Events.Keys(after)
    && forall k :: k in Events.Keys(after) && k !in Events.Keys(before) ==> Events.Precedes(m, k)
  }

  /** Every point of `after` that `before` lacks lies on the line of a segment of `from`
      and on the line of a different segment of `others`. */
  ghost predicate NewPointsMeet(before: Events.EventTree, after: Events.EventTree, from: seq<LineSegment>, others: seq<LineSegment>)
  {
    forall k :: k in Events.Keys(after) && k !in Events.Keys(before) ==>
      exists a, b :: && a in from && b in others && a != b
                     && Geometry.OnLine(a, Geometry.Point(k.x, k.y))
                     && Geometry.OnLine(b, Geometry.Point(k.x, k.y))
  }

  /** Two rounds of additions whose new points meet `from` and `others` make one. */
  lemma NewPointsMeetTrans(q0: Events.EventTree, q1: Events.EventTree, q2: Events.EventTree, from: seq<LineSegment>, others: seq<LineSegment>)
    requires Events.Keys(q0) <= Events.Keys(q1)
    requires NewPointsMeet(q0, q1, from, others) && NewPointsMeet(q1, q2, from, others)
    ensures NewPointsMeet(q0, q2, from, others)
  {
  }

  /** At the lower end point of a segment that is alone in the status structure, the
      deletions of `handleEventPoint` leave the structure empty while U ∪ C is empty,
      so the neighbour search of that branch starts from an empty tree. */
  lemma LoneLowerEndEmptiesStatus(a: Status.SweepSegment, ep: Events.EventTree, flag: int)
    requires ep.Node? && ep.L == [a] && ep.U == [] && ep.C == []
    ensures StatusAfter(Status.NewStatus(a), ep, flag) == (Status.Nil, flag)
    ensures |Union(ep.U, ep.C)| == 0
  {
    assert Union(ep.L, ep.C) == [a];
    assert [a][..0] == [];
    assert DeleteAll(Status.NewStatus(a), [a], ep.yc) == Status.DeleteNode(Status.NewStatus(a), a, ep.yc);
  }

  /** `insert` of a segment of `input` keeps the queue made of input segments. */
  lemma InsertKeepsQueueFrom(t: Events.EventTree, xc: real, yc: real, s: LineSegment, eventType: int, input: set<LineSegment>)
    requires Events.Valid(t) && QueueFrom(t, input) && s in input
    ensures QueueFrom(Events.Insert(t, xc, yc, s, eventType), input)
  {
    EventsProofs.InsertValid(t, xc, yc, s, eventType);
  }

  /** `deleteNode` keeps the queue made of input segments. */
  lemma DeleteKeepsQueueFrom(t: Events.EventTree, xc: real, yc: real, input: set<LineSegment>)
    requires Events.Valid(t) && QueueFrom(t, input)
    ensures QueueFrom(Events.DeleteNode(t, xc, yc), input)
  {
    EventsProofs.DeleteValid(t, xc, yc);
  }

  /** The event queue after `findNewEvent(sl, sr, p)`: when the two segments meet at a
      point other than the y = -1 sentinel and strictly after `p` in sweep order, that
      point is inserted as a crossing of `sl` and then of `sr`. */
  function NewEventQueue(q: Events.EventTree, sl: LineSegment, sr: LineSegment, p: Events.EventTree): Events.EventTree
    requires p.Node?
    requires !Geometry.DoIntersect(sl, sr) || Geometry.Det(sl, sr) != 0.0
  {
    var pt := Geometry.IntersectionOf(sl, sr);
    if pt.y != -1.0 && (pt.y < p.yc || (pt.y == p.yc && pt.x > p.xc)) then
      Events.Insert(Events.Insert(q, pt.x, pt.y, sl, 3), pt.x, pt.y, sr, 3)
    else q
  }

  /** `findNewEvent` keeps the queue an AVL search tree of input segments, adds at most
      the one point where the two segments' lines meet, only strictly after `p`, and
      leaves both segments in that point's crossing list. */
  lemma NewEventQueueEffect(q: Events.EventTree, sl: LineSegment, sr: LineSegment, p: Events.EventTree, input: set<LineSegment>)
    requires !Geometry.DoIntersect(sl, sr) || Geometry.Det(sl, sr) != 0.0
    requires p.Node? && Events.Valid(q) && QueueFrom(q, input) && sl in input && sr in input
    ensures var r := NewEventQueue(q, sl, sr, p);
            Events.Valid(r) && QueueFrom(r, input) && GrowsAfter(q, r, Events.KeyOf(p))
    ensures var r := NewEventQueue(q, sl, sr, p);
            forall k :: k in Events.Keys(r) && k !in Events.Keys(q) ==>
              Geometry.OnLine(sl, Geometry.Point(k.x, k.y)) && Geometry.OnLine(sr, Geometry.Point(k.x, k.y))
    ensures var r := NewEventQueue(q, sl, sr, p);
            r != q ==> var pt := Geometry.IntersectionOf(sl, sr);
                       && Events.Find(r, Events.Position(pt.x, pt.y)).Some?
                       && sl in Events.Find(r, Events.Position(pt.x, pt.y)).value.C
                       && sr in Events.Find(r, Events.Position(pt.x, pt.y)).value.C
  {
    var pt := Geometry.IntersectionOf(sl, sr);
    if pt.y != -1.0 && (pt.y < p.yc || (pt.y == p.yc && pt.x > p.xc)) {
      CrossingInserts(q, pt.x, pt.y, sl, sr, input);
      assert Events.Precedes(Events.KeyOf(p), Events.Position(pt.x, pt.y));
      assert Geometry.DoIntersect(sl, sr);
    }
  }

  /** Inserting one point as a crossing of `sl` and then of `sr` adds exactly that point,
      keeps the queue valid and made of input segments, and leaves both segments in
      the point's C list. */
  lemma CrossingInserts(q: Events.EventTree, x: real, y: real, sl: LineSegment, sr: LineSegment, input: set<LineSegment>)
    requires Events.Valid(q) && QueueFrom(q, input) && sl in input && sr in input
    ensures var r := Events.Insert(Events.Insert(q, x, y, sl, 3), x, y, sr, 3);
            && Events.Valid(r) && QueueFrom(r, input)
            && Events.Keys(r) == Events.Keys(q) + {Events.Position(x, y)}
            && Events.Find(r, Events.Position(x, y)).Some?
            && sl in Events.Find(r, Events.Position(x, y)).value.C
            && sr in Events.Find(r, Events.Position(x, y)).value.C
  {
    var k := Events.Position(x, y);
    var q1 := Events.Insert(q, x, y, sl, 3);
    var r := Events.Insert(q1, x, y, sr, 3);
    EventsProofs.InsertValid(q, x, y, sl, 3);
    EventsProofs.InsertValid(q1, x, y, sr, 3);
    InsertKeepsQueueFrom(q, x, y, sl, 3, input);
    InsertKeepsQueueFrom(q1, x, y, sr, 3, input);
    InsertOnlyAdds(q, x, y, sl, 3);
    InsertOnlyAdds(q1, x, y, sr, 3);
    assert RolesGrow(Events.Find(q1, k).value, Events.Find(r, k).value);
  }

  /** `findNewEvent` keeps every role list of the queue free of duplicates. */
  lemma NewEventQueueKeepsRolesDistinct(q: Events.EventTree, sl: LineSegment, sr: LineSegment, p: Events.EventTree)
    requires !Geometry.DoIntersect(sl, sr) || Geometry.Det(sl, sr) != 0.0
    requires p.Node? && Events.Valid(q) && EventsProofs.AllRolesDistinct(q)
    ensures EventsProofs.AllRolesDistinct(NewEventQueue(q, sl, sr, p))
  {
    var pt := Geometry.IntersectionOf(sl, sr);
    if pt.y != -1.0 && (pt.y < p.yc || (pt.y == p.yc && pt.x > p.xc)) {
      var q1 := Events.Insert(q, pt.x, pt.y, sl, 3);
      EventsProofs.InsertValid(q, pt.x, pt.y, sl, 3);
      EventsProofs.InsertKeepsRolesDistinct(q, pt.x, pt.y, sl, 3);
      EventsProofs.InsertKeepsRolesDistinct(q1, pt.x, pt.y, sr, 3);
    }
  }

  /** A crossing on the line y = -1 is taken for the sentinel: when the lines of two
      crossing segments meet at a point `m` with y = -1, `findNewEvent` adds nothing to
      the queue. */
  lemma CrossingAtSentinelIsDropped(q: Events.EventTree, sl: LineSegment, sr: LineSegment, p: Events.EventTree, m: Geometry.Point)
    requires p.Node? && Geometry.DoIntersect(sl, sr) && Geometry.Det(sl, sr) != 0.0
    requires m.y == -1.0 && Geometry.OnLine(sl, m) && Geometry.OnLine(sr, m)
    ensures Geometry.IntersectionOf(sl, sr) == m
    ensures NewEventQueue(q, sl, sr, p) == q
  {
  }

  /** Such crossings exist: the segments from (0, 0) to (-2, -2) and from (-2, 0) to
      (0, -2) cross at (-1, -1). */
  lemma DiagonalsCrossAtSentinel()
    ensures var l1 := Status.LineSegment(0.0, 0.0, -2.0, -2.0);
            var l2 := Status.LineSegment(-2.0, 0.0, 0.0, -2.0);
            && Geometry.DoIntersect(l1, l2) && Geometry.Det(l1, l2) != 0.0
            && Geometry.OnLine(l1, Geometry.Point(-1.0, -1.0)) && Geometry.OnLine(l2, Geometry.Point(-1.0, -1.0))
  {
    var l1 := Status.LineSegment(0.0, 0.0, -2.0, -2.0);
    var l2 := Status.LineSegment(-2.0, 0.0, 0.0, -2.0);
    assert Geometry.Cross(Geometry.Start(l1), Geometry.End(l1), Geometry.Start(l2)) == 4.0;
    assert Geometry.Cross(Geometry.Start(l1), Geometry.End(l1), Geometry.End(l2)) == -4.0;
    assert Geometry.Cross(Geometry.Start(l2), Geometry.End(l2), Geometry.Start(l1)) == -4.0;
    assert Geometry.Cross(Geometry.Start(l2), Geometry.End(l2), Geometry.End(l1)) == 4.0;
    Geometry.ProperCrossingIntersects(l1, l2);
  }

  class FindIntersections {
    var eventQueueRoot: Events.EventTree
    var statusRoot: Status.StatusTree
    const status: Status.StatusQueue
    ghost const input: set<LineSegment>
    ghost var reported: seq<Events.Position>

    /** The object invariant: the event queue is an AVL search tree, and the queue and
        the status structure hold only input segments, which are in general position. */
    ghost predicate Valid()
      reads this
    {
      && Events.Valid(eventQueueRoot)
      && QueueFrom(eventQueueRoot, input)
      && EventsProofs.AllRolesDistinct(eventQueueRoot)
      && Status.HeightsOk(statusRoot)
      && (forall s :: s in Status.Inorder(statusRoot) ==> s in input)
      && GeneralPosition(input)
    }

    /** What the sweep guarantees about its output so far: the reported points are in
        strict sweep order (so none is reported twice), and each comes before every
        point still waiting in the queue. */
    ghost predicate ReportOrder()
      reads this
    {
      && (forall i, j :: 0 <= i < j < |reported| ==> Events.Precedes(reported[i], reported[j]))
      && (forall r, k :: r in reported && k in Events.Keys(eventQueueRoot) ==> Events.Precedes(r, k))
    }

    /** The constructor: normalise each segment, then insert its upper end point as a
        type-1 (U) event and its lower end point as a type-2 (L) event. */
    constructor (segmentVector: seq<LineSegment>)
      requires GeneralPosition(NormalizedSet(segmentVector, |segmentVector|))
      ensures input == NormalizedSet(segmentVector, |segmentVector|)
      ensures Valid() && ReportOrder() && reported == [] && statusRoot.Nil?
      ensures Events.Keys(eventQueueRoot) == EndPoints(input)
      ensures FiledExactly(eventQueueRoot, input, input)
      ensures forall s :: s in input ==> Registered(eventQueueRoot, s)
    {
      var root := InitialQueue(segmentVector);
      eventQueueRoot := root;
      statusRoot := Status.Nil;
      status := new Status.StatusQueue();
      input := NormalizedSet(segmentVector, |segmentVector|);
      reported := [];
    }

    /** `findNewEvent`: insert the point where `sl` and `sr` meet as a crossing of both,
        when it is not the y = -1 sentinel and comes strictly after `p` in sweep order. */
    method FindNewEvent(sl: LineSegment, sr: LineSegment, p: Events.EventTree)
      requires Valid() && p.Node? && sl in input && sr in input && sl != sr
      modifies this
      ensures Valid()
      ensures eventQueueRoot == NewEventQueue(old(eventQueueRoot), sl, sr, p)
      ensures GrowsAfter(old(eventQueueRoot), eventQueueRoot, Events.KeyOf(p))
      ensures forall k :: k in Events.Keys(eventQueueRoot) && k !in Events.Keys(old(eventQueueRoot)) ==>
                Geometry.OnLine(sl, Geometry.Point(k.x, k.y)) && Geometry.OnLine(sr, Geometry.Point(k.x, k.y))
      ensures statusRoot == old(statusRoot) && reported == old(reported)
    {
      var newEventPoint := Geometry.IntersectionOf(sl, sr);
      NewEventQueueEffect(eventQueueRoot, sl, sr, p, input);
      NewEventQueueKeepsRolesDistinct(eventQueueRoot, sl, sr, p);
      if newEventPoint.y != -1.0 {
        if newEventPoint.y < p.yc {
          eventQueueRoot := Events.Insert(eventQueueRoot, newEventPoint.x, newEventPoint.y, sl, 3);
          eventQueueRoot := Events.Insert(eventQueueRoot, newEventPoint.x, newEventPoint.y, sr, 3);
        } else if newEventPoint.y == p.yc && newEventPoint.x > p.xc {
          eventQueueRoot := Events.Insert(eventQueueRoot, newEventPoint.x, newEventPoint.y, sl, 3);
          eventQueueRoot := Events.Insert(eventQueueRoot, newEventPoint.x, newEventPoint.y, sr, 3);
        }
      }
    }

    /** `handleEventPoint`: report the point when more than one segment meets there,
        delete L ∪ C from the status structure at the point's height, insert U ∪ C just
        below it, and look for new events between the outermost inserted segments and
        their neighbours. */
    method HandleEventPoint(ep: Events.EventTree)
      requires Valid() && ep.Node? && RolesIn(Events.RolesOf(ep), input)
      modifies this, status
      ensures Valid()
      ensures reported == old(reported) + (if |Union(ep.L, Union(ep.U, ep.C))| > 1 then [Events.KeyOf(ep)] else [])
      ensures (statusRoot, status.globalinsert) == StatusAfter(old(statusRoot), ep, old(status.globalinsert))
      ensures GrowsAfter(old(eventQueueRoot), eventQueueRoot, Events.KeyOf(ep))
      ensures NewPointsMeet(old(eventQueueRoot), eventQueueRoot, Union(ep.U, ep.C), Status.Inorder(statusRoot))
      ensures |Union(ep.U, ep.C)| == 0 ==> eventQueueRoot == old(eventQueueRoot)
    {
      var uc := UnionOf(ep.U, ep.C);
      var all := UnionOf(ep.L, uc);
      if |all| > 1 {
        reported := reported + [Events.KeyOf(ep)];
      }

      var temp1 := UnionOf(ep.L, ep.C);
      UnionMembers(ep.L, ep.C);
      DeleteFromStatus(temp1, ep.yc);
      var temp2 := UnionOf(ep.U, ep.C);
      UnionMembers(ep.U, ep.C);
      InsertIntoStatus(temp2, ep.yc - 0.1);
      NewEventsAround(ep, temp2);
    }

    /** The first loop of `handleEventPoint`: `deleteNode` at height `ycor` for each
        segment in turn. */
    method DeleteFromStatus(temp1: seq<LineSegment>, ycor: real)
      requires Valid() && forall s :: s in temp1 ==> s in input
      modifies this
      ensures Valid()
      ensures statusRoot == DeleteAll(old(statusRoot), temp1, ycor)
      ensures eventQueueRoot == old(eventQueueRoot) && reported == old(reported)
    {
      var i := 0;
      while i < |temp1|
        invariant 0 <= i <= |temp1|
        invariant statusRoot == DeleteAll(old(statusRoot), temp1[..i], ycor)
        invariant eventQueueRoot == old(eventQueueRoot) && reported == old(reported)
      {
        var seg: SweepSegment := temp1[i];
        statusRoot := Status.DeleteNode(statusRoot, seg, ycor);
        assert temp1[..i + 1][..i] == temp1[..i];
        i := i + 1;
      }
      assert temp1[..|temp1|] == temp1;
      DeleteAllEffect(old(statusRoot), temp1, ycor);
    }

    /** The second loop of `handleEventPoint`: `insert` at height `ycor` for each
        segment in turn. */
    method InsertIntoStatus(temp2: seq<LineSegment>, ycor: real)
      requires Valid() && forall s :: s in temp2 ==> s in input
      modifies this, status
      ensures Valid()
      ensures (statusRoot, status.globalinsert) == InsertAll(old(statusRoot), temp2, ycor, old(status.globalinsert))
      ensures eventQueueRoot == old(eventQueueRoot) && reported == old(reported)
    {
      var i := 0;
      while i < |temp2|
        invariant 0 <= i <= |temp2|
        invariant (statusRoot, status.globalinsert) == InsertAll(old(statusRoot), temp2[..i], ycor, old(status.globalinsert))
        invariant eventQueueRoot == old(eventQueueRoot) && reported == old(reported)
      {
        var seg: SweepSegment := temp2[i];
        statusRoot := status.Insert(statusRoot, seg, ycor);
        assert temp2[..i + 1][..i] == temp2[..i];
        i := i + 1;
      }
      assert temp2[..|temp2|] == temp2;
      InsertAllEffect(old(statusRoot), temp2, ycor, old(status.globalinsert));
    }

    /** The last part of `handleEventPoint`: with U ∪ C empty, look up the neighbours of
        the point (their use is disabled in the source); otherwise find the leftmost and
        rightmost segments of U ∪ C at the point's height and look for a new event
        between each and its outer neighbour in the status structure. */
    method NewEventsAround(ep: Events.EventTree, temp2: seq<LineSegment>)
      requires Valid() && ep.Node? && forall s :: s in temp2 ==> s in input
      modifies this
      ensures Valid()
      ensures GrowsAfter(old(eventQueueRoot), eventQueueRoot, Events.KeyOf(ep))
      ensures NewPointsMeet(old(eventQueueRoot), eventQueueRoot, temp2, Status.Inorder(statusRoot))
      ensures |temp2| == 0 ==> eventQueueRoot == old(eventQueueRoot)
      ensures statusRoot == old(statusRoot) && reported == old(reported)
    {
      if |temp2| == 0 {
        var sl: LineSegment := *;
        var sr: LineSegment := *;
        sl := sl.(startX := -1.0);
        sr := sr.(startX := -1.0);
        // the neighbours found here are not used further
        var leftOut, rightOut := Status.GetNeighbors(statusRoot, ep.xc, ep.yc - 0.1, sl, sr);
      } else {
        var segs: seq<SweepSegment> := temp2;
        var sll0: SweepSegment := *;
        var srr0: SweepSegment := *;
        var leftmostX, rightmostX, sll, srr := ExtremeSegments(segs, ep.yc, sll0, srr0);
        var sl: LineSegment := *;
        var sr: LineSegment := *;
        sl := sl.(startX := -1.0);
        sr := sr.(startX := -1.0);
        sl := Status.GetLeftNeighbor(statusRoot, sll, ep.yc, sl);
        sr := Status.GetRightNeighbor(statusRoot, srr, ep.yc, sr);
        ghost var q0 := eventQueueRoot;
        if sl.startX != -1.0 && leftmostX != 1001.0 {
          FindNewEvent(sl, sll, ep);
          forall k | k in Events.Keys(eventQueueRoot) && k !in Events.Keys(q0)
            ensures exists a, b :: && a in temp2 && b in Status.Inorder(statusRoot) && a != b
                                   && Geometry.OnLine(a, Geometry.Point(k.x, k.y))
                                   && Geometry.OnLine(b, Geometry.Point(k.x, k.y))
          {
            assert sll in temp2 && sl in Status.Inorder(statusRoot);
          }
        }
        ghost var q1 := eventQueueRoot;
        if sr.startX != -1.0 && rightmostX != -1.0 {
          FindNewEvent(srr, sr, ep);
          forall k | k in Events.Keys(eventQueueRoot) && k !in Events.Keys(q1)
            ensures exists a, b :: && a in temp2 && b in Status.Inorder(statusRoot) && a != b
                                   && Geometry.OnLine(a, Geometry.Point(k.x, k.y))
                                   && Geometry.OnLine(b, Geometry.Point(k.x, k.y))
          {
            assert srr in temp2 && sr in Status.Inorder(statusRoot);
          }
        }
        NewPointsMeetTrans(q0, q1, eventQueueRoot, temp2, Status.Inorder(statusRoot));
      }
    }

    /** `runAlgorithm`: pop the first point in sweep order, handle it and delete it,
        until the queue is empty or `fuel` points have been handled. */
    method RunAlgorithm(fuel: nat) returns (handled: nat)
      requires Valid() && ReportOrder()
      modifies this, status
      ensures Valid() && ReportOrder()
      ensures handled <= fuel && (handled < fuel ==> eventQueueRoot.Nil?)
      ensures |old(reported)| <= |reported| && reported[..|old(reported)|] == old(reported)
    {
      handled := 0;
      while eventQueueRoot.Node? && handled < fuel
        invariant Valid() && ReportOrder()
        invariant handled <= fuel
        invariant |old(reported)| <= |reported| && reported[..|old(reported)|] == old(reported)
        decreases fuel - handled
      {
        var pop := Events.MaxValueNode(eventQueueRoot);
        if pop.Node? {
          ghost var q0 := eventQueueRoot;
          ghost var r0 := reported;
          HandleEventPoint(pop);
          ghost var q1 := eventQueueRoot;
          EventsProofs.DeleteValid(q1, pop.xc, pop.yc);
          DeleteKeepsQueueFrom(q1, pop.xc, pop.yc, input);
          EventsProofs.DeleteKeepsRolesDistinct(q1, pop.xc, pop.yc);
          eventQueueRoot := Events.DeleteNode(eventQueueRoot, pop.xc, pop.yc);
          HandledInOrder(r0, reported, q0, q1, eventQueueRoot, Events.KeyOf(pop));
        }
        handled := handled + 1;
      }
    }
  }

  /** The status tree and the `globalinsert` flag after `handleEventPoint` at `ep`:
      first every segment of L ∪ C deleted at the point's height, then every segment of
      U ∪ C inserted 0.1 below it. */
  function StatusAfter(t: Status.StatusTree, ep: Events.EventTree, flag: int): (Status.StatusTree, int)
    requires ep.Node? && AllSweep(ep.U) && AllSweep(ep.L) && AllSweep(ep.C)
  {
    UnionMembers(ep.L, ep.C);
    UnionMembers(ep.U, ep.C);
    InsertAll(DeleteAll(t, Union(ep.L, ep.C), ep.yc), Union(ep.U, ep.C), ep.yc - 0.1, flag)
  }

  /** When the L list holds no segment twice, as every list of the queue does, the
      report test |L ∪ (U ∪ C)| > 1 of `handleEventPoint` holds exactly when more than
      one distinct segment has the point as an end point or crossing. */
  lemma ReportMeansSeveralSegments(r: Events.Roles)
    requires Status.Distinct(r.L)
    ensures |Union(r.L, Union(r.U, r.C))| > 1 <==> |Elements(r.L) + Elements(r.U) + Elements(r.C)| > 1
  {
    var v := Union(r.U, r.C);
    UnionCountsDistinct(r.L, v);
    UnionMembers(r.U, r.C);
    assert Elements(v) == Elements(r.U) + Elements(r.C) by {
      forall x | x in Elements(r.U) + Elements(r.C)
        ensures x in Elements(v)
      {
        assert x in v;
      }
    }
    assert Elements(r.L) + Elements(v) == Elements(r.L) + Elements(r.U) + Elements(r.C);
  }

  /** Handling the first point `k` of the queue and deleting it keeps the reported
      points in strict sweep order, all before every point still queued. */
  lemma HandledInOrder(r0: seq<Events.Position>, r1: seq<Events.Position>,
                       q0: Events.EventTree, q1: Events.EventTree, q2: Events.EventTree, k: Events.Position)
    requires forall i, j :: 0 <= i < j < |r0| ==> Events.Precedes(r0[i], r0[j])
    requires forall r, x :: r in r0 && x in Events.Keys(q0) ==> Events.Precedes(r, x)
    requires k in Events.Keys(q0)
    requires forall x :: x in Events.Keys(q0) && x != k ==> Events.Precedes(k, x)
    requires r1 == r0 || r1 == r0 + [k]
    requires GrowsAfter(q0, q1, k)
    requires Events.Keys(q2) == Events.Keys(q1) - {k}
    ensures forall i, j :: 0 <= i < j < |r1| ==> Events.Precedes(r1[i], r1[j])
    ensures forall r, x :: r in r1 && x in Events.Keys(q2) ==> Events.Precedes(r, x)
  {
    forall i, j | 0 <= i < j < |r1|
      ensures Events.Precedes(r1[i], r1[j])
    {
      if j == |r0| {
        assert r1[i] == r0[i] && r1[j] == k;
      } else {
        assert r1[i] == r0[i] && r1[j] == r0[j];
      }
    }
    forall r, x | r in r1 && x in Events.Keys(q2)
      ensures Events.Precedes(r, x)
    {
      assert x in Events.Keys(q1) && x != k;
      assert Events.Precedes(k, x);
      if r != k {
        assert r in r0;
        EventsProofs.PrecedesTransitive(r, k, x);
      }
    }
  }


  /** The normalised segments among the first `i` input segments. */
  ghost function NormalizedSet(segmentVector: seq<LineSegment>, i: nat): set<LineSegment>
    requires i <= |segmentVector|
  {
    set j | 0 <= j < i :: Normalize(segmentVector[j])
  }

  lemma NormalizedSetStep(segmentVector: seq<LineSegment>, i: nat)
    requires i < |segmentVector|
    ensures NormalizedSet(segmentVector, i + 1) == NormalizedSet(segmentVector, i) + {Normalize(segmentVector[i])}
  {
  }

  function Upper(s: LineSegment): Events.Position
  {
    Events.Position(s.startX, s.startY)
  }

  function Lower(s: LineSegment): Events.Position
  {
    Events.Position(s.endX, s.endY)
  }

  /** The end points of a set of segments. */
  ghost function EndPoints(segs: set<LineSegment>): set<Events.Position>
  {
    (set s | s in segs :: Upper(s)) + (set s | s in segs :: Lower(s))
  }

  /** The loop of the constructor: the event queue holding both end points of every
      normalised segment, with the segment in the U list of its upper end point and
      in the L list of its lower end point, and nothing else. */
  method InitialQueue(segmentVector: seq<LineSegment>) returns (root: Events.EventTree)
    ensures Events.Valid(root) && QueueFrom(root, NormalizedSet(segmentVector, |segmentVector|))
    ensures EventsProofs.AllRolesDistinct(root)
    ensures Events.Keys(root) == EndPoints(NormalizedSet(segmentVector, |segmentVector|))
    ensures FiledExactly(root, NormalizedSet(segmentVector, |segmentVector|), NormalizedSet(segmentVector, |segmentVector|))
    ensures forall s :: s in NormalizedSet(segmentVector, |segmentVector|) ==> Registered(root, s)
  {
    ghost var all := NormalizedSet(segmentVector, |segmentVector|);
    root := Events.Nil;
    var i := 0;
    while i < |segmentVector|
      invariant 0 <= i <= |segmentVector|
      invariant Events.Valid(root) && QueueFrom(root, all) && EventsProofs.AllRolesDistinct(root)
      invariant FiledExactly(root, NormalizedSet(segmentVector, i), NormalizedSet(segmentVector, i))
    {
      var n := Normalize(segmentVector[i]);
      assert n in all;
      ghost var before := root;
      root := Events.Insert(root, n.startX, n.startY, n, 1);
      root := Events.Insert(root, n.endX, n.endY, n, 2);
      RegisterStep(before, n, all, NormalizedSet(segmentVector, i));
      NormalizedSetStep(segmentVector, i);
      i := i + 1;
    }
    FiledMeansRegistered(root, all);
  }

  /** One round of the constructor's loop: inserting both end points of `n` keeps the
      queue valid and files `n`, and nothing else, at its two end points. */
  lemma RegisterStep(t: Events.EventTree, n: LineSegment, all: set<LineSegment>, done: set<LineSegment>)
    requires Events.Valid(t) && QueueFrom(t, all) && EventsProofs.AllRolesDistinct(t) && n in all
    requires FiledExactly(t, done, done)
    ensures var r := Events.Insert(Events.Insert(t, n.startX, n.startY, n, 1), n.endX, n.endY, n, 2);
            && Events.Valid(r) && QueueFrom(r, all) && EventsProofs.AllRolesDistinct(r)
    ensures var r := Events.Insert(Events.Insert(t, n.startX, n.startY, n, 1), n.endX, n.endY, n, 2);
            FiledExactly(r, done + {n}, done + {n})
  {
    var mid := Events.Insert(t, n.startX, n.startY, n, 1);
    EventsProofs.InsertValid(t, n.startX, n.startY, n, 1);
    InsertKeepsQueueFrom(t, n.startX, n.startY, n, 1, all);
    InsertKeepsQueueFrom(mid, n.endX, n.endY, n, 2, all);
    EventsProofs.InsertKeepsRolesDistinct(t, n.startX, n.startY, n, 1);
    EventsProofs.InsertKeepsRolesDistinct(mid, n.endX, n.endY, n, 2);
    FileUpper(t, n, done, done);
    EventsProofs.InsertValid(mid, n.endX, n.endY, n, 2);
    FileLower(mid, n, done + {n}, done);
  }

  /** The role lists `r` of point `p` hold in U exactly the segments of `ups` whose
      upper end point is `p`, in L exactly the segments of `lows` whose lower end point
      is `p`, and no crossing segment. */
  ghost predicate FiledAt(r: Events.Roles, p: Events.Position, ups: set<LineSegment>, lows: set<LineSegment>)
  {
    && (forall s :: s in r.U <==> s in ups && Upper(s) == p)
    && (forall s :: s in r.L <==> s in lows && Lower(s) == p)
    && r.C == []
  }

  /** The queue stores exactly the upper end points of `ups` and the lower end points of
      `lows`, and each point holds exactly the segments that end there. */
  ghost predicate FiledExactly(t: Events.EventTree, ups: set<LineSegment>, lows: set<LineSegment>)
  {
    && Events.Keys(t) == (set s | s in ups :: Upper(s)) + (set s | s in lows :: Lower(s))
    && forall p :: Events.Find(t, p).Some? ==> FiledAt(Events.Find(t, p).value, p, ups, lows)
  }

  /** Inserting the upper end point of `n` as a type-1 event files `n` there and
      changes nothing else. */
  lemma FileUpper(t: Events.EventTree, n: LineSegment, ups: set<LineSegment>, lows: set<LineSegment>)
    requires Events.Valid(t) && FiledExactly(t, ups, lows)
    ensures FiledExactly(Events.Insert(t, n.startX, n.startY, n, 1), ups + {n}, lows)
  {
    var k := Upper(n);
    var r := Events.Insert(t, n.startX, n.startY, n, 1);
    EventsProofs.InsertValid(t, n.startX, n.startY, n, 1);
    EventsProofs.FindIffKeys(t, k);
    assert (set s | s in ups + {n} :: Upper(s)) == (set s | s in ups :: Upper(s)) + {k};
    forall p | Events.Find(r, p).Some?
      ensures FiledAt(Events.Find(r, p).value, p, ups + {n}, lows)
    {
      if p == k && Events.Find(t, k).None? {
        forall s | s in ups
          ensures Upper(s) != k
        {
          assert Upper(s) in Events.Keys(t);
        }
        forall s | s in lows
          ensures Lower(s) != k
        {
          assert Lower(s) in Events.Keys(t);
        }
      }
    }
  }

  /** Inserting the lower end point of `n` as a type-2 event files `n` there and
      changes nothing else. */
  lemma FileLower(t: Events.EventTree, n: LineSegment, ups: set<LineSegment>, lows: set<LineSegment>)
    requires Events.Valid(t) && FiledExactly(t, ups, lows)
    ensures FiledExactly(Events.Insert(t, n.endX, n.endY, n, 2), ups, lows + {n})
  {
    var k := Lower(n);
    var r := Events.Insert(t, n.endX, n.endY, n, 2);
    EventsProofs.InsertValid(t, n.endX, n.endY, n, 2);
    EventsProofs.FindIffKeys(t, k);
    assert (set s | s in lows + {n} :: Lower(s)) == (set s | s in lows :: Lower(s)) + {k};
    forall p | Events.Find(r, p).Some?
      ensures FiledAt(Events.Find(r, p).value, p, ups, lows + {n})
    {
      if p == k && Events.Find(t, k).None? {
        forall s | s in ups
          ensures Upper(s) != k
        {
          assert Upper(s) in Events.Keys(t);
        }
        forall s | s in lows
          ensures Lower(s) != k
        {
          assert Lower(s) in Events.Keys(t);
        }
      }
    }
  }

  /** A queue filed exactly from `segs` has every segment of `segs` registered at both of
      its end points. */
  lemma FiledMeansRegistered(t: Events.EventTree, segs: set<LineSegment>)
    requires Events.Valid(t) && FiledExactly(t, segs, segs)
    ensures forall s :: s in segs ==> Registered(t, s)
  {
    forall s | s in segs
      ensures Registered(t, s)
    {
      assert Upper(s) in Events.Keys(t) && Lower(s) in Events.Keys(t);
      EventsProofs.FindIffKeys(t, Upper(s));
      EventsProofs.FindIffKeys(t, Lower(s));
    }
  }

  /** Segment `n` sits in the U list of its upper end point and in the L list of its
      lower end point. */
  ghost predicate Registered(t: Events.EventTree, n: LineSegment)
  {
    && Events.Find(t, Upper(n)).Some? && n in Events.Find(t, Upper(n)).value.U
    && Events.Find(t, Lower(n)).Some? && n in Events.Find(t, Lower(n)).value.L
  }

  /** Every segment of role lists `a` is still in the same role list in `b`. */
  ghost predicate RolesGrow(a: Events.Roles, b: Events.Roles)
  {
    && (forall s :: s in a.U ==> s in b.U)
    && (forall s :: s in a.L ==> s in b.L)
    && (forall s :: s in a.C ==> s in b.C)
  }

  /** `insert` only ever adds to role lists: every stored point stays, with its lists
      grown at most, and the inserted segment ends up in the role list of its type. */
  lemma InsertOnlyAdds(t: Events.EventTree, xc: real, yc: real, s: LineSegment, eventType: int)
    requires Events.Valid(t)
    ensures var r := Events.Insert(t, xc, yc, s, eventType);
            forall p :: Events.Find(t, p).Some? ==>
              Events.Find(r, p).Some? && RolesGrow(Events.Find(t, p).value, Events.Find(r, p).value)
    ensures var r := Events.Insert(t, xc, yc, s, eventType);
            && Events.Find(r, Events.Position(xc, yc)).Some?
            && (eventType == 1 ==> s in Events.Find(r, Events.Position(xc, yc)).value.U)
            && (eventType == 2 ==> s in Events.Find(r, Events.Position(xc, yc)).value.L)
            && (eventType == 3 ==> s in Events.Find(r, Events.Position(xc, yc)).value.C)
  {
    EventsProofs.InsertValid(t, xc, yc, s, eventType);
  }
}
