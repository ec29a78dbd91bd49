/**
  The event queue of the sweep (EventQueue.h): an AVL tree of event points.

  The tree is keyed by sweep order. A point with a smaller y, or an equal y and a
  larger x, lies in the left subtree, so the rightmost node is the point the sweep
  handles next. Each node carries three role lists of segments: U (the point is the
  segment's upper endpoint), L (its lower endpoint) and C (an interior crossing).

  The C++ nodes are relinked in place; here a tree is a value and each operation
  returns the new root, as the C++ functions return the new root pointer.
*/
module Events {
  import Status

  type LineSegment = Status.LineSegment

  datatype Position = Position(x: real, y: real)

  /** Sweep order: `p` is handled before `q` (higher first, then further left). */
  predicate Precedes(p: Position, q: Position)
  {
    p.y > q.y || (p.y == q.y && p.x < q.x)
  }

  /** `mygreater`: 1 exactly when (x1, y1) comes first in sweep order. */
  function MyGreater(x1: real, y1: real, x2: real, y2: real): (r: int)
    ensures r == 0 || r == 1
    ensures r == 1 <==> y1 > y2 || (y1 == y2 && x1 < x2)
  {
    if y1 < y2 then 0
    else if y1 > y2 then 1
    else if x1 > x2 then 0
    else if x1 < x2 then 1
    else 0
  }

  /** `mylesser`: 1 exactly when (x1, y1) comes later in sweep order. */
  function MyLesser(x1: real, y1: real, x2: real, y2: real): (r: int)
    ensures r == 0 || r == 1
    ensures r == 1 <==> y1 < y2 || (y1 == y2 && x1 > x2)
  {
    if y1 < y2 then 1
    else if y1 > y2 then 0
    else if x1 > x2 then 1
    else if x1 < x2 then 0
    else 0
  }

  /** The two comparators are never both 1 and are both 0 exactly on equal points;
      together they are the strict sweep order and its converse. */
  lemma ComparatorsTrichotomy(x1: real, y1: real, x2: real, y2: real)
    ensures !(MyGreater(x1, y1, x2, y2) == 1 && MyLesser(x1, y1, x2, y2) == 1)
    ensures MyGreater(x1, y1, x2, y2) == 0 && MyLesser(x1, y1, x2, y2) == 0 <==> x1 == x2 && y1 == y2
    ensures MyGreater(x1, y1, x2, y2) == 1 <==> Precedes(Position(x1, y1), Position(x2, y2))
    ensures MyLesser(x1, y1, x2, y2) == 1 <==> Precedes(Position(x2, y2), Position(x1, y1))
  {
  }

  /** The segments of one event point, by role. */
  datatype Roles = Roles(U: seq<LineSegment>, L: seq<LineSegment>, C: seq<LineSegment>)

  datatype EventTree =
    | Nil
    | Node(left: EventTree, xc: real, yc: real,
           U: seq<LineSegment>, L: seq<LineSegment>, C: seq<LineSegment>,
           right: EventTree, height: nat)

  function KeyOf(t: EventTree): Position
    requires t.Node?
  {
    Position(t.xc, t.yc)
  }

  function RolesOf(t: EventTree): Roles
    requires t.Node?
  {
    Roles(t.U, t.L, t.C)
  }

  datatype Option<T> = None | Some(value: T)

  /** The role lists stored for point `p`, found along the search path every queue
      operation follows: later points to the left, earlier points to the right. */
  function Find(t: EventTree, p: Position): Option<Roles>
  {
    if t.Nil? then None
    else if p == KeyOf(t) then Some(RolesOf(t))
    else if Precedes(KeyOf(t), p) then Find(t.left, p)
    else Find(t.right, p)
  }

  /** The stored points. */
  ghost function Keys(t: EventTree): set<Position>
  {
    if t.Nil? then {} else Keys(t.left) + Keys(t.right) + {KeyOf(t)}
  }

  /** Search-tree order: later points to the left, earlier points to the right. */
  ghost predicate Ordered(t: EventTree)
  {
    t.Node? ==>
      && Ordered(t.left) && Ordered(t.right)
      && (forall k :: k in Keys(t.left) ==> Precedes(KeyOf(t), k))
      && (forall k :: k in Keys(t.right) ==> Precedes(k, KeyOf(t)))
  }

  function Height(n: EventTree): nat
  {
    if n.Nil? then 0 else n.height
  }

  function GetBalance(n: EventTree): int
  {
    if n.Nil? then 0 else Height(n.left) - Height(n.right)
  }

  ghost predicate HeightsOk(t: EventTree)
  {
    t.Node? ==> HeightsOk(t.left) && HeightsOk(t.right)
                && t.height == 1 + Status.Max(Height(t.left), Height(t.right))
  }

  /** The AVL condition at every node. */
  ghost predicate Balanced(t: EventTree)
  {
    t.Node? ==> Balanced(t.left) && Balanced(t.right) && -1 <= GetBalance(t) <= 1
  }

  ghost predicate Valid(t: EventTree)
  {
    Ordered(t) && HeightsOk(t) && Balanced(t)
  }

  /** The role lists of a new point: the segment in U for type 1, in L for type 2,
      in C for any other type. */
  function NewRoles(s: LineSegment, eventType: int): Roles
  {
    if eventType == 1 then Roles([s], [], [])
    else if eventType == 2 then Roles([], [s], [])
    else Roles([], [], [s])
  }

  /** The role lists of an existing point after an insert: the segment is appended to
      the list chosen by the type unless an identical segment is already there. */
  function AddRole(r: Roles, s: LineSegment, eventType: int): Roles
  {
    if eventType == 1 then (if s in r.U then r else r.(U := r.U + [s]))
    else if eventType == 2 then (if s in r.L then r else r.(L := r.L + [s]))
    else if eventType == 3 then (if s in r.C then r else r.(C := r.C + [s]))
    else r
  }

  /** The role lists of a point after `insert` adds `s` to it, from those it had. */
  function Added(o: Option<Roles>, s: LineSegment, eventType: int): Roles
  {
    if o.None? then NewRoles(s, eventType) else AddRole(o.value, s, eventType)
  }

  /** `newq`: a fresh height-1 leaf for point (xc, yc) holding `s` in one role list. */
  function NewQ(xc: real, yc: real, s: LineSegment, eventType: int): (n: EventTree)
    ensures Valid(n) && Height(n) == 1 && n.left.Nil? && n.right.Nil?
    ensures Keys(n) == {Position(xc, yc)}
    ensures forall p :: Find(n, p) == if p == Position(xc, yc) then Some(NewRoles(s, eventType)) else None
  {
    var r := NewRoles(s, eventType);
    Node(Nil, xc, yc, r.U, r.L, r.C, Nil, 1)
  }

  /** Right rotation about `y`; when `y` has no left child (a NULL dereference in the
      source) the subtree is left as it is. */
  function RightRotate(y: EventTree): (r: EventTree)
    ensures y.Node? && y.left.Node? ==> r.Node? && r.height == 1 + Status.Max(Height(r.left), Height(r.right))
    ensures y.Node? && y.left.Node? ==> r.right.Node? && r.right.height == 1 + Status.Max(Height(r.right.left), Height(r.right.right))
  {
    if y.Nil? || y.left.Nil? then y
    else
      var x := y.left;
      var t2 := x.right;
      var y' := y.(left := t2, height := Status.Max(Height(t2), Height(y.right)) + 1);
      x.(right := y', height := Status.Max(Height(x.left), Height(y')) + 1)
  }

  /** Left rotation about `x`; the mirror image of RightRotate. */
  function LeftRotate(x: EventTree): (r: EventTree)
    ensures x.Node? && x.right.Node? ==> r.Node? && r.height == 1 + Status.Max(Height(r.left), Height(r.right))
    ensures x.Node? && x.right.Node? ==> r.left.Node? && r.left.height == 1 + Status.Max(Height(r.left.left), Height(r.left.right))
  {
    if x.Nil? || x.right.Nil? then x
    else
      var y := x.right;
      var t2 := y.left;
      var x' := x.(right := t2, height := Status.Max(Height(x.left), Height(t2)) + 1);
      y.(left := x', height := Status.Max(Height(x'), Height(y.right)) + 1)
  }

  /** The tail of `insert`: recompute the height of `node`, then rotate according to
      where the inserted point (xc, yc) lies relative to the child on the heavy side. */
  function InsertRebalance(node: EventTree, xc: real, yc: real): EventTree
    requires node.Node?
  {
    var n := node.(height := 1 + Status.Max(Height(node.left), Height(node.right)));
    var balance := GetBalance(n);
    if balance > 1 && MyLesser(xc, yc, n.left.xc, n.left.yc) == 1 then RightRotate(n)
    else if balance < -1 && MyGreater(xc, yc, n.right.xc, n.right.yc) == 1 then LeftRotate(n)
    else if balance > 1 && MyGreater(xc, yc, n.left.xc, n.left.yc) == 1 then
      RightRotate(n.(left := LeftRotate(n.left)))
    else if balance < -1 && MyLesser(xc, yc, n.right.xc, n.right.yc) == 1 then
      LeftRotate(n.(right := RightRotate(n.right)))
    else n
  }

  /** `insert`: add segment `s` with role `eventType` at point (xc, yc). */
  function Insert(node: EventTree, xc: real, yc: real, s: LineSegment, eventType: int): EventTree
  {
    if node.Nil? then NewQ(xc, yc, s, eventType)
    else if yc < node.yc then
      InsertRebalance(node.(left := Insert(node.left, xc, yc, s, eventType)), xc, yc)
    else if yc > node.yc then
      InsertRebalance(node.(right := Insert(node.right, xc, yc, s, eventType)), xc, yc)
    else if xc > node.xc then
      InsertRebalance(node.(left := Insert(node.left, xc, yc, s, eventType)), xc, yc)
    else if xc < node.xc then
      InsertRebalance(node.(right := Insert(node.right, xc, yc, s, eventType)), xc, yc)
    // the point is already stored: scan the chosen role list for an identical segment
    else if eventType == 1 then
      if s in node.U then node else InsertRebalance(node.(U := node.U + [s]), xc, yc)
    else if eventType == 2 then
      if s in node.L then node else InsertRebalance(node.(L := node.L + [s]), xc, yc)
    else if eventType == 3 then
      if s in node.C then node else InsertRebalance(node.(C := node.C + [s]), xc, yc)
    else
      InsertRebalance(node, xc, yc)
  }

  /** The node `minValueNode` reaches: the leftmost one, the last point in sweep order. */
  function Leftmost(t: EventTree): (m: EventTree)
    requires t.Node?
    ensures m.Node? && m.left.Nil?
  {
    if t.left.Nil? then t else Leftmost(t.left)
  }

  /** The node `maxValueNode` reaches: the rightmost one, the first point in sweep order. */
  function Rightmost(t: EventTree): (m: EventTree)
    requires t.Node?
    ensures m.Node? && m.right.Nil?
  {
    if t.right.Nil? then t else Rightmost(t.right)
  }

  /** In an ordered tree the leftmost node is stored with its role lists, and every
      other point of the tree comes before it in sweep order. */
  lemma {:induction false} LeftmostIsLast(t: EventTree)
    requires t.Node? && Ordered(t)
    ensures KeyOf(Leftmost(t)) in Keys(t)
    ensures Find(t, KeyOf(Leftmost(t))) == Some(RolesOf(Leftmost(t)))
    ensures forall k :: k in Keys(t) && k != KeyOf(Leftmost(t)) ==> Precedes(k, KeyOf(Leftmost(t)))
  {
    if t.left.Node? {
      LeftmostIsLast(t.left);
      var m := KeyOf(Leftmost(t));
      assert Precedes(KeyOf(t), m);
      forall k | k in Keys(t) && k != m
        ensures Precedes(k, m)
      {
        if k in Keys(t.right) {
          assert Precedes(k, KeyOf(t));
        }
      }
    }
  }

  /** In an ordered tree the rightmost node is stored with its role lists, and it comes
      before every other point of the tree in sweep order. */
  lemma {:induction false} RightmostIsFirst(t: EventTree)
    requires t.Node? && Ordered(t)
    ensures KeyOf(Rightmost(t)) in Keys(t)
    ensures Find(t, KeyOf(Rightmost(t))) == Some(RolesOf(Rightmost(t)))
    ensures forall k :: k in Keys(t) && k != KeyOf(Rightmost(t)) ==> Precedes(KeyOf(Rightmost(t)), k)
  {
    if t.right.Node? {
      RightmostIsFirst(t.right);
      var m := KeyOf(Rightmost(t));
      assert Precedes(m, KeyOf(t));
      forall k | k in Keys(t) && k != m
        ensures Precedes(m, k)
      {
        if k in Keys(t.left) {
          assert Precedes(KeyOf(t), k);
        }
      }
    }
  }

  /** `minValueNode`: walk left while a left child exists. */
  method MinValueNode(node: EventTree) returns (current: EventTree)
    requires node.Node?
    ensures current.Node? && current.left.Nil?
    ensures Ordered(node) ==> KeyOf(current) in Keys(node) && Find(node, KeyOf(current)) == Some(RolesOf(current))
    ensures Ordered(node) ==> forall k :: k in Keys(node) && k != KeyOf(current) ==> Precedes(k, KeyOf(current))
  {
    current := node;
    while current.left.Node?
      invariant current.Node? && Leftmost(current) == Leftmost(node)
      decreases current
    {
      current := current.left;
    }
    if Ordered(node) {
      LeftmostIsLast(node);
    }
  }

  /** `maxValueNode`: NULL for an empty queue, otherwise the rightmost node, which holds
      the point that comes first in sweep order. */
  method MaxValueNode(node: EventTree) returns (current: EventTree)
    ensures current.Nil? <==> node.Nil?
    ensures current.Node? ==> current.right.Nil?
    ensures current.Node? && Ordered(node) ==>
              KeyOf(current) in Keys(node) && Find(node, KeyOf(current)) == Some(RolesOf(current))
    ensures current.Node? && Ordered(node) ==>
              forall k :: k in Keys(node) && k != KeyOf(current) ==> Precedes(KeyOf(current), k)
  {
    current := node;
    if current.Nil? {
      return;
    }
    while current.right.Node?
      invariant current.Node? && Rightmost(current) == Rightmost(node)
      decreases current
    {
      current := current.right;
    }
    if Ordered(node) {
      RightmostIsFirst(node);
    }
  }

  /** The tail of `deleteNode`: recompute the height, then rotate by balance factors. */
  function DeleteRebalance(root: EventTree): EventTree
    requires root.Node?
  {
    var n := root.(height := 1 + Status.Max(Height(root.left), Height(root.right)));
    var balance := GetBalance(n);
    if balance > 1 && GetBalance(n.left) >= 0 then RightRotate(n)
    else if balance > 1 && GetBalance(n.left) < 0 then RightRotate(n.(left := LeftRotate(n.left)))
    else if balance < -1 && GetBalance(n.right) <= 0 then LeftRotate(n)
    else if balance < -1 && GetBalance(n.right) > 0 then LeftRotate(n.(right := RightRotate(n.right)))
    else n
  }

  /** `deleteNode`: remove point (xc, yc). A node with two children takes the point and
      role lists of its in-order successor, which is then deleted from the right subtree. */
  function DeleteNode(root: EventTree, xc: real, yc: real): EventTree
  {
    if root.Nil? then Nil
    else if yc < root.yc then DeleteRebalance(root.(left := DeleteNode(root.left, xc, yc)))
    else if yc > root.yc then DeleteRebalance(root.(right := DeleteNode(root.right, xc, yc)))
    else if xc > root.xc then DeleteRebalance(root.(left := DeleteNode(root.left, xc, yc)))
    else if xc < root.xc then DeleteRebalance(root.(right := DeleteNode(root.right, xc, yc)))
    else if root.left.Nil? || root.right.Nil? then
      var temp := if root.left.Node? then root.left else root.right;
      if temp.Nil? then Nil else DeleteRebalance(temp)
    else
      var temp := Leftmost(root.right);
      DeleteRebalance(root.(xc := temp.xc, yc := temp.yc, U := temp.U, C := temp.C, L := temp.L,
                            right := DeleteNode(root.right, temp.xc, temp.yc)))
  }
}
