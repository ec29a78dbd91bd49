# Bentley–Ottmann sweep line, modelled in Dafny

This project models a C++ implementation of the Bentley–Ottmann sweep-line algorithm. The algorithm reports the points where line segments in the plane meet. It has three parts.

- **Event queue** (`events.dfy`, with its proofs in `events_proofs.dfy`).
  - An AVL tree of event points, ordered so that a larger y comes first and, at equal y, a smaller x.
  - Each point carries three role lists: U (segments whose upper end point is here), L (lower end point here) and C (crossing here).
  - `insert` creates a point or appends to one role list, skipping exact duplicates. `maxValueNode` yields the next event. `deleteNode` removes a handled point.
- **Status structure** (`status.dfy`).
  - A leaf-oriented AVL tree of the segments that cross the sweep line.
  - Its key is recomputed at each call as `findx(l, y)`, the x-coordinate of segment `l` at height `y`.
  - `insert` uses the `globalinsert` flag of the `StatusQueue` object to split a leaf into two leaves.
  - The neighbour searches return the segment they write into their out-slot.
- **Geometry and the sweep driver.**
  - `geometry.dfy`: orientation, `onSegment`, `doIntersect`, `intersectionOf` and `lineLineIntersection`.
  - `sweep_helpers.dfy`: normalisation, `contains`, `unionOf`, the leftmost/rightmost scan, and whole rounds of status updates.
  - `sweep.dfy`: the `FindIntersections` object with its constructor, `findNewEvent`, `handleEventPoint` and `runAlgorithm`.

Coordinates are `real`. Both trees are datatype values. Each recursive C++ function that returns the new subtree root is a function returning the new tree, with one exception: status `insert` is the method `StatusQueue.Insert`, which updates the `globalinsert` field and is proved equal to the recursive function `InsertRec`. The loops of the source are methods with loop invariants:
- `minValueNode` and `maxValueNode`;
- `contains` and `unionOf`;
- the constructor's insertion loop;
- the two status loops and the min/max scan of `handleEventPoint`;
- `runAlgorithm`.

The event queue is read through `Find(t, p)`, the role lists stored at point `p`, and `Keys(t)`, the set of stored points. The two are linked by `FindIffKeys`.

The driver's object invariant `FindIntersections.Valid` says:
- the event queue is an AVL search tree;
- the queue and the status structure hold only (normalised) input segments;
- no role list holds a segment twice;
- every status-tree height is right;
- the input is in general position: no horizontal segment, and no two distinct segments that touch while lying on a common line.

A reported intersection is appended to the ghost sequence `reported`. `runAlgorithm` is proved to keep the reported points in strict sweep order, each before every point still queued.

## Model

| member | source | states |
|---|---|---|
| Events.MyGreater | EventQueue.h:121-135 | 1 exactly when (x1, y1) comes first in sweep order (larger y, or equal y and smaller x), else 0 |
| Events.MyLesser | EventQueue.h:139-153 | 1 exactly when (x1, y1) comes later in sweep order (smaller y, or equal y and larger x), else 0 |
| Events.ComparatorsTrichotomy | EventQueue.h:121-153 | the two comparators are never both 1; both are 0 exactly for equal points; each agrees with the sweep order `Precedes` |
| Events.NewQ | EventQueue.h:61-89 | a valid height-1 leaf with no children, storing exactly the one point, with the segment in U for type 1, L for type 2 and C otherwise |
| Events.Leftmost | EventQueue.h:296-306 | the node reached by following left children has no left child |
| Events.Rightmost | EventQueue.h:308-322 | the node reached by following right children has no right child |
| Events.LeftmostIsLast | EventQueue.h:296-306 | in a search tree the leftmost node holds a stored point with its own role lists, and that point comes last in sweep order |
| Events.RightmostIsFirst | EventQueue.h:308-322 | in a search tree the rightmost node holds a stored point with its own role lists, and that point comes first in sweep order |
| Events.MinValueNode | EventQueue.h:296-306 | the loop returns a node without a left child that is stored in the tree and comes last in sweep order |
| Events.MaxValueNode | EventQueue.h:308-322 | the loop returns Nil exactly on an empty tree; otherwise a node without a right child, stored in the tree, first in sweep order |
| Events.RightRotate | EventQueue.h:92-105 | both rotated nodes get height 1 + the larger child height |
| Events.LeftRotate | EventQueue.h:107-118 | both rotated nodes get height 1 + the larger child height |
| EventsProofs.FindIffKeys | EventQueue.h:179-205 | in a search tree a point is found by the descent exactly when it is stored |
| EventsProofs.RightRotateKeepsOrder | EventQueue.h:92-105 | a right rotation keeps the search order and every point with its role lists |
| EventsProofs.LeftRotateKeepsOrder | EventQueue.h:107-118 | a left rotation keeps the search order and every point with its role lists |
| EventsProofs.RightRotateHeights | EventQueue.h:92-105 | the height after a right rotation, in terms of the balance of the left child |
| EventsProofs.LeftRotateHeights | EventQueue.h:107-118 | the height after a left rotation, in terms of the balance of the right child |
| EventsProofs.LeftRightHeights | EventQueue.h:280-284 | after the left-right double rotation the height is 2 more than the right child's |
| EventsProofs.RightLeftHeights | EventQueue.h:285-289 | after the right-left double rotation the height is 2 more than the left child's |
| EventsProofs.SingleRightValid | EventQueue.h:274-275 | a single right rotation of a left-heavy node gives a valid AVL search tree with the same entries |
| EventsProofs.SingleLeftValid | EventQueue.h:277-278 | a single left rotation of a right-heavy node gives a valid AVL search tree with the same entries |
| EventsProofs.DoubleRightValid | EventQueue.h:280-284 | the left-right double rotation gives a valid AVL search tree with the same entries |
| EventsProofs.DoubleLeftValid | EventQueue.h:285-289 | the right-left double rotation gives a valid AVL search tree with the same entries |
| EventsProofs.InsertRebalanceLeftHeavy | EventQueue.h:269-291 | rebalancing after an insert that made the left side 2 taller restores AVL balance and keeps the entries |
| EventsProofs.InsertRebalanceRightHeavy | EventQueue.h:269-291 | rebalancing after an insert that made the right side 2 taller restores AVL balance and keeps the entries |
| EventsProofs.InsertRebalanceAvl | EventQueue.h:269-291 | insert rebalancing yields a valid AVL search tree with the same entries; it only fixes the height when the node is balanced |
| EventsProofs.InsertIntoLeft | EventQueue.h:185-199 | the step of `insert` that descends left keeps the insert specification |
| EventsProofs.InsertIntoRight | EventQueue.h:190-204 | the step of `insert` that descends right keeps the insert specification |
| EventsProofs.InsertAtRoot | EventQueue.h:206-266 | inserting at the root's own point only appends to its chosen role list |
| EventsProofs.InsertValid | EventQueue.h:179-292 | `insert` keeps the tree an AVL search tree; the stored points grow by exactly (xc, yc); that point's lists get the segment (appended if absent) or a new node; every other point keeps its U/L/C lists; height grows by 0 or 1 |
| EventsProofs.InsertDuplicateUnchanged | EventQueue.h:206-266 | inserting a segment already in the chosen role list returns the tree unchanged |
| EventsProofs.InsertKeepsRolesDistinct | EventQueue.h:206-266 | `insert` never puts the same segment twice in a role list |
| EventsProofs.DeleteRebalanceLeftHeavy | EventQueue.h:383-390 | delete rebalancing of a left-heavy node restores AVL balance and keeps the entries |
| EventsProofs.DeleteRebalanceRightHeavy | EventQueue.h:392-399 | delete rebalancing of a right-heavy node restores AVL balance and keeps the entries |
| EventsProofs.DeleteRebalanceAvl | EventQueue.h:378-401 | delete rebalancing yields a valid AVL search tree with the same entries |
| EventsProofs.DeleteFromLeft | EventQueue.h:332-339 | the step of `deleteNode` that descends left keeps the delete specification |
| EventsProofs.DeleteFromRight | EventQueue.h:335-341 | the step of `deleteNode` that descends right keeps the delete specification |
| EventsProofs.DeleteAtRootSingle | EventQueue.h:345-358 | removing a root with at most one child leaves that child, with the root's point gone and all else kept |
| EventsProofs.DeleteAtRootSuccessor | EventQueue.h:359-372 | copying the in-order successor into the root and deleting it below removes exactly the root's point |
| EventsProofs.DeleteValid | EventQueue.h:326-402 | `deleteNode` keeps an AVL search tree, removes exactly (xc, yc), keeps every other point with its U/L/C lists, and lowers height by at most 1 |
| EventsProofs.DeleteAbsentKeepsEntries | EventQueue.h:326-372 | deleting an absent point leaves every entry as it was |
| EventsProofs.DeleteKeepsRolesDistinct | EventQueue.h:326-402 | `deleteNode` keeps every role list free of duplicates |
| Status.FindX | StatusQueue.h:112-115 | the result lies on the line through the segment at height y |
| Status.FindXAtEndpoints | StatusQueue.h:112-115 | findx at endY is endX and findx at startY is startX |
| Status.NewStatus | StatusQueue.h:67-76 | a height-1 leaf holding just the segment |
| Status.RightRotate | StatusQueue.h:79-93 | keeps the in-order segment sequence and sets the heights to 1 + the larger child height |
| Status.LeftRotate | StatusQueue.h:95-109 | keeps the in-order segment sequence and sets the heights to 1 + the larger child height |
| Status.InsertRebalance | StatusQueue.h:168-189 | keeps the in-order segment sequence and gives the node height 1 + the larger child height |
| Status.StatusQueue.Insert | StatusQueue.h:133-190 | the method's new root and new `globalinsert` are those of the recursive specification `InsertRec` |
| Status.InsertRecFlag | StatusQueue.h:135-162 | the exit value of `globalinsert`: 1 after inserting into an empty tree, the entry value when an equal key stops the descent, 0 otherwise |
| Status.InsertRecSegments | StatusQueue.h:133-190 | insert stores nothing but old segments and the new one, and stores the new one unless an equal key is met |
| Status.InsertRecEqualAddsNothing | StatusQueue.h:143-167 | when the descent meets an equal findx, no node is added and the flag is unchanged; with the flag at 1 on entry this holds when the root itself is equal |
| Status.LeafSplit | StatusQueue.h:143-162 | whatever the flag on entry, a leaf created under a node gives it two leaves in ascending findx order; on the left path the old key moves right and the node takes the new key; on the right path the key is copied left |
| Status.InsertRecHeights | StatusQueue.h:168-169 | insert keeps every height equal to 1 + the larger child height |
| Status.Leftmost | StatusQueue.h:195-203 | the leftmost node has no left child and holds the first segment in order |
| Status.MinValueNode | StatusQueue.h:195-203 | the loop returns the node without a left child that holds the first segment in order |
| Status.DeleteRebalance | StatusQueue.h:253-276 | keeps the in-order segment sequence and gives the node height 1 + the larger child height |
| Status.DeleteNodeEffect | StatusQueue.h:210-248 | deleteNode removes at most one segment and adds none; with no equal key on the descent the stored sequence is unchanged |
| Status.DeleteNodeHeights | StatusQueue.h:253-254 | deleteNode keeps every height equal to 1 + the larger child height |
| Status.GetLeftNeighbor | StatusQueue.h:294-316 | the slot keeps its old content or gets a stored segment whose findx at ycor - 0.1 is strictly less than that of l; at a leaf a slot no longer holding the startX == -1 sentinel is kept |
| Status.GetRightNeighbor | StatusQueue.h:319-341 | the slot keeps its old content or gets a stored segment whose findx at ycor - 0.1 is strictly greater than that of l; at a leaf a slot no longer holding the sentinel is kept |
| Status.GetNeighbors | StatusQueue.h:346-384 | a segment written to the left slot has findx at ycor - 0.1 at most xcor; one written to the right slot has findx greater than xcor; at a leaf a slot no longer holding the sentinel is kept; an empty tree leaves both slots as they were |
| Status.AppendKeepsDistinct | EventQueue.h:206-266 | appending an absent segment keeps a list free of duplicates |
| Geometry.Orientation | FindIntersections.h:83-91 | 0, 1 or 2 exactly as the cross product is zero, positive or negative |
| Geometry.OrientationCyclic | FindIntersections.h:83-91 | orientation is unchanged by a cyclic shift of the three points |
| Geometry.OrientationSwap | FindIntersections.h:83-91 | swapping the last two points swaps 1 and 2 and keeps 0 |
| Geometry.OnSegmentSymmetric | FindIntersections.h:68-75 | the bounding-box test does not depend on which end point comes first |
| Geometry.PointOfSegmentIsOnSegment | FindIntersections.h:68-75 | every point between the two end points passes the bounding-box test |
| Geometry.DoIntersectSymmetric | FindIntersections.h:97-132 | doIntersect(l1, l2) == doIntersect(l2, l1) |
| Geometry.ProperCrossingIntersects | FindIntersections.h:113-115 | segments whose ends lie strictly on opposite sides of each other's line intersect |
| Geometry.SharedEndpointIntersects | FindIntersections.h:117-129 | segments sharing an end point intersect |
| Geometry.Cramer | FindIntersections.h:146-158 | the solution of two linear equations with nonzero determinant satisfies both |
| Geometry.CramerUnique | FindIntersections.h:146-158 | any point satisfying both equations is that solution |
| Geometry.LineOfMeansOnLine | FindIntersections.h:146-153 | the coefficients a, b, c built from a segment describe exactly the points on its line |
| Geometry.CramerOfOnLines | FindIntersections.h:146-158 | Cramer's point for the two segments' line equations lies on both lines |
| Geometry.CramerOfUnique | FindIntersections.h:146-158 | any point on both lines is Cramer's point |
| Geometry.LinesMeet | FindIntersections.h:146-158 | for non-parallel lines, the computed point lies on both lines and is the only such point |
| Geometry.IntersectionOf | FindIntersections.h:135-161 | (-1, -1) when doIntersect is false; otherwise (determinant nonzero) the point satisfies both line equations and is unique |
| Geometry.LineLineIntersection | FindIntersections.h:611-637 | (-1, -1) when the determinant is 0; otherwise a point on both lines |
| Geometry.LineLineIsMeet | FindIntersections.h:611-637 | for non-parallel lines the result is their unique meeting point |
| Geometry.ParallelValueIsAlsoAMeetingPoint | FindIntersections.h:626-631 | (-1, -1) is also returned for non-parallel lines meeting there, so it is not returned only when the determinant is 0 |
| SweepHelpers.Normalize | FindIntersections.h:30-53 | the stored segment has startY >= endY, a horizontal one has startX <= endX, and it is the input or its reverse |
| SweepHelpers.NormalizeCanonical | FindIntersections.h:30-53 | a segment and its reverse normalise to the same segment, and normalising is idempotent |
| SweepHelpers.Contains | FindIntersections.h:185-193 | 0 exactly when some element equals l in all four coordinates, else 1 |
| SweepHelpers.UnionOf | FindIntersections.h:197-210 | the loops build `Union(a, b)`: a, then each element of b not already present |
| SweepHelpers.UnionPrefix | FindIntersections.h:199-202 | a is a prefix of the union |
| SweepHelpers.UnionMembers | FindIntersections.h:197-210 | the union holds exactly the elements of a and of b |
| SweepHelpers.UnionDistinct | FindIntersections.h:203-208 | the union of a duplicate-free a is duplicate-free |
| SweepHelpers.DistinctCount | FindIntersections.h:197-210 | a duplicate-free list is as long as its set of elements |
| SweepHelpers.UnionCountsDistinct | FindIntersections.h:197-210 | for a duplicate-free a, the union is as long as the number of distinct segments of a and b |
| SweepHelpers.ExtremeSegments | FindIntersections.h:264-281 | min stays 1001 (and sll untouched) only if no spanning segment is left of 1001; otherwise sll is a spanning segment of U ∪ C with the least findx; the mirror for max, srr and -1 |
| SweepHelpers.DeleteAllEffect | FindIntersections.h:232-237 | the delete round adds no segment, removes at most one per deletion, and keeps the heights right |
| SweepHelpers.InsertAllEffect | FindIntersections.h:243-247 | the insert round stores only old or inserted segments and keeps the heights right |
| Sweep.InsertKeepsQueueFrom | FindIntersections.h:59-60 | inserting an input segment keeps the queue made of input segments |
| Sweep.DeleteKeepsQueueFrom | FindIntersections.h:306 | deleting a point keeps the queue made of input segments |
| Sweep.NewEventQueueEffect | FindIntersections.h:164-178 | the new queue is a valid AVL search tree of input segments; the only point added comes strictly after p and lies on both segments' lines; when one is added both segments are in its C list |
| Sweep.CrossingInserts | FindIntersections.h:170-175 | the two type-3 inserts add exactly the new point, keep the queue valid and made of input segments, and leave both segments in its C list |
| Sweep.NewEventQueueKeepsRolesDistinct | FindIntersections.h:164-178 | findNewEvent keeps every role list free of duplicates |
| Sweep.CrossingAtSentinelIsDropped | FindIntersections.h:168 | two crossing segments whose lines meet at a point with y = -1 get that point from intersectionOf, and findNewEvent leaves the queue unchanged |
| Sweep.DiagonalsCrossAtSentinel | FindIntersections.h:135-161 | the segments (0, 0)-(-2, -2) and (-2, 0)-(0, -2) intersect with nonzero determinant, and both lines pass through (-1, -1) |
| Sweep.InitialQueue | FindIntersections.h:28-61 | the constructor loop builds a valid AVL queue whose points are exactly the end points of the normalised segments; the U list of each point holds exactly the segments whose upper end point it is, the L list exactly those whose lower end point it is, and the C list is empty |
| Sweep.RegisterStep | FindIntersections.h:59-60 | one round of the constructor loop keeps the queue valid and filed exactly, now including the new segment at both its end points |
| Sweep.FileUpper | FindIntersections.h:59 | inserting a segment's upper end point as type 1 adds that point, puts the segment in its U list and changes no other list |
| Sweep.FileLower | FindIntersections.h:60 | inserting a segment's lower end point as type 2 adds that point, puts the segment in its L list and changes no other list |
| Sweep.FiledMeansRegistered | FindIntersections.h:28-61 | a queue filed exactly from a set of segments has each of them at both its end points |
| Sweep.InsertOnlyAdds | EventQueue.h:179-292 | insert keeps every stored point and only grows its lists, and leaves the segment in the list of its type |
| Sweep.FindIntersections.constructor | FindIntersections.h:28-61 | the object starts valid with an empty status and nothing reported; the queue holds exactly the end points of the normalised input, each point exactly the segments starting (U) or ending (L) there, and no crossings |
| Sweep.FindIntersections.FindNewEvent | FindIntersections.h:164-178 | the new queue is `NewEventQueue` of the old one, the invariant holds, only points after p are added, and the status and report are untouched; every added point lies on the lines of both sl and sr |
| Sweep.FindIntersections.HandleEventPoint | FindIntersections.h:222-298 | reports the point exactly when the union of L, U and C has more than one element; the status becomes: L ∪ C deleted at yc, then U ∪ C inserted at yc - 0.1; the queue only gains points after the event point, each on the line of a segment of U ∪ C and of a different segment now in the status; when U ∪ C is empty the queue is unchanged; the invariant holds |
| Sweep.FindIntersections.DeleteFromStatus | FindIntersections.h:232-237 | the delete loop leaves the status as `DeleteAll` of the list and keeps the invariant |
| Sweep.FindIntersections.InsertIntoStatus | FindIntersections.h:243-247 | the insert loop leaves the status and flag as `InsertAll` of the list and keeps the invariant |
| Sweep.FindIntersections.NewEventsAround | FindIntersections.h:251-295 | the neighbour step keeps the invariant, status and report; it adds no point when U ∪ C is empty, and otherwise only points after the event point, each on the line of an inserted segment and of a different status segment |
| Sweep.NewPointsMeetTrans | FindIntersections.h:289-294 | points added by two successive findNewEvent calls that each meet the inserted and status segments still do so together |
| Sweep.LoneLowerEndEmptiesStatus | FindIntersections.h:229-257 | at the lower end point of a segment alone in the status, the deletions empty the status while U ∪ C is empty, so getNeighbors is called on an empty tree |
| Sweep.ReportMeansSeveralSegments | FindIntersections.h:225-230 | with a duplicate-free L, the report test holds exactly when more than one distinct segment has the point as end point or crossing |
| Sweep.HandledInOrder | FindIntersections.h:301-309 | handling and deleting the first queued point keeps the reported points in strict sweep order, all before every queued point |
| Sweep.FindIntersections.RunAlgorithm | FindIntersections.h:301-309 | keeps the invariant and the report order, only appends to the report, and stops before the fuel runs out only on an empty queue |
| Sweep.NormalizedSetStep | FindIntersections.h:28-61 | the normalised set of the first i + 1 segments adds segment i to that of the first i |

## Left out

- Console I/O in `main.cpp` and plotting in `lines.py` are not part of this model. So are the `printf`/`cout` calls and the `preOrder` dumps. A reported intersection is the ghost append to `reported`.
- `runAlgorithmB` (the brute-force check) is left out, except for `lineLineIntersection` itself.
- Floating point: coordinates are exact reals. The `float` truncations in the constructor, `orientation` and the min/max scan are not modelled, and `0.1` is the exact real 0.1.
- Memory management and in-place relinking: trees are values. `*root = *temp; free(temp)`, leaked allocations and node aliasing are not modelled. A node pointer held by the caller is the subtree value at the time it was fetched.
- Null dereferences: a rotation or neighbour search that would follow a NULL child in the source returns its input unchanged here. This includes `getNeighbors` called on an empty status tree, where the source reads `node->height` of a NULL root and the model keeps both sentinels and the sweep goes on (see Findings).
- Status.StatusQueue.Insert: AVL balance of the status tree is not proved. Only the in-order segments, the flag and the heights are. The tree is keyed by a y-dependent function, so its search order is not an invariant across sweep heights.
- Status.DeleteNodeEffect: speaks of the sequence of stored segments rather than a multiset, and says the size drops by at most one rather than naming the removed node.
- Sweep.FindIntersections.HandleEventPoint: the new event queue is described by its properties (valid, only points after the event point added, each on the lines of an inserted segment and of a different status segment), not by a closed expression. The uninitialised C++ locals `sll`, `srr`, `sl` and `sr` are arbitrary values. Each has a non-horizontal segment where the status tree needs one, so a horizontal garbage segment is not modelled.
- Sweep.FindIntersections.RunAlgorithm: takes a `fuel` bound on the number of handled points. Termination over reals is not proved, nor that all and only the intersections are reported.
- Sweep.FindIntersections.FindNewEvent: requires the two segments to differ and the input to be in general position. With equal or collinear touching segments the source divides by a zero determinant.
- Sweep.FindIntersections.constructor: requires the normalised input to be in general position (no horizontal segments, no collinear touching pairs). The source gives undefined results for those inputs.
- The y = -1 sentinel of `findNewEvent` is mirrored as written. `Sweep.CrossingAtSentinelIsDropped` and `Sweep.DiagonalsCrossAtSentinel` show that it discards genuine crossings on that line. Likewise `Geometry.ParallelValueIsAlsoAMeetingPoint` shows that (-1, -1) from `lineLineIntersection` does not mean the lines are parallel. So only one direction of "(-1, -1) exactly when the determinant is 0" holds.
- The commented-out neighbour use after `getNeighbors` is not modelled. Its results are discarded as in the source.

## Findings

| source | as written | input that shows it | evidently intended | confidence | as-written member | corrected member |
|---|---|---|---|---|---|---|
| FindIntersections.h:251-257, StatusQueue.h:346-348 | when U ∪ C is empty, `getNeighbors` is called with the status root, and it reads `node->height` without checking for NULL | one segment from (0, 1) to (0, 0): at its lower end point (0, 0) the deletion of L ∪ C empties the status tree and U ∪ C is empty, so `getNeighbors` receives a NULL root | an empty status has no neighbours, so both slots keep the startX == -1 sentinel | not executed; high, by reading the two call sites | Sweep.LoneLowerEndEmptiesStatus | Status.GetNeighbors |
