/**
  The status structure of the sweep (StatusQueue.h): a leaf-oriented AVL tree of
  the segments that currently cross the sweep line.

  A node's key is not stored as a number: every comparison recomputes
  `FindX(segment, y)`, the x-coordinate of the segment at the sweep height `y`
  the caller passes in. Routing (internal) nodes keep copies of segments, so one
  segment may be stored in several nodes.

  The C++ tree is a linked structure relinked in place; here a tree is a value and
  every operation returns the new root, exactly as the C++ functions return the new
  root pointer. Heights are stored in the nodes, as in the source.
*/
module Status {

  /** A segment as four coordinates; the start point is the upper endpoint once
      the sweep has normalised it. */
  datatype LineSegment = LineSegment(startX: real, startY: real, endX: real, endY: real)

  /** The segments the status structure can order. `findx` divides by
      `endY - startY`, so horizontal segments are not among them. */
  type SweepSegment = l: LineSegment | l.startY != l.endY
    witness LineSegment(0.0, 1.0, 0.0, 0.0)

  /** No segment occurs twice in the list. */
  ghost predicate Distinct(q: seq<LineSegment>)
  {
    forall i, j :: 0 <= i < j < |q| ==> q[i] != q[j]
  }

  /** Appending a segment that is not there keeps a list free of duplicates. */
  lemma AppendKeepsDistinct(q: seq<LineSegment>, s: LineSegment)
    requires Distinct(q) && s !in q
    ensures Distinct(q + [s])
  {
    forall i, j | 0 <= i < j < |q + [s]|
      ensures (q + [s])[i] != (q + [s])[j]
    {
      if j == |q| {
        assert q[i] in q;
      }
    }
  }

  function Max(a: int, b: int): (m: int)
    ensures m >= a && m >= b && (m == a || m == b)
  {
    if a > b then a else b
  }

  /** The x-coordinate of the line through `l` at height `y` (linear interpolation). */
  function FindX(l: SweepSegment, y: real): (x: real)
    ensures (x - l.endX) * (l.endY - l.startY) == (y - l.endY) * (l.endX - l.startX)
  {
    ((y - l.endY) * ((l.endX - l.startX) / (l.endY - l.startY))) + l.endX
  }

  /** The interpolation passes through both endpoints of the segment. */
  lemma FindXAtEndpoints(l: SweepSegment)
    ensures FindX(l, l.endY) == l.endX
    ensures FindX(l, l.startY) == l.startX
  {
    var d := l.endY - l.startY;
    assert (FindX(l, l.startY) - l.endX) * d == (l.startX - l.endX) * d;
  }

  datatype StatusTree =
    | Nil
    | Node(left: StatusTree, l: SweepSegment, right: StatusTree, height: nat)

  /** The segments stored in the tree, in-order (routing copies included). */
  function Inorder(t: StatusTree): seq<SweepSegment>
  {
    if t.Nil? then [] else Inorder(t.left) + [t.l] + Inorder(t.right)
  }

  function Height(n: StatusTree): nat
  {
    if n.Nil? then 0 else n.height
  }

  /** Every stored height is one more than the larger height of the node's children. */
  ghost predicate HeightsOk(t: StatusTree)
  {
    t.Node? ==> HeightsOk(t.left) && HeightsOk(t.right)
                && t.height == 1 + Max(Height(t.left), Height(t.right))
  }

  function GetBalance(n: StatusTree): int
  {
    if n.Nil? then 0 else Height(n.left) - Height(n.right)
  }

  /** A fresh leaf holding `newl`. */
  function NewStatus(newl: SweepSegment): (n: StatusTree)
    ensures n.Node? && n.left.Nil? && n.right.Nil? && n.l == newl
    ensures Inorder(n) == [newl] && HeightsOk(n) && Height(n) == 1
  {
    Node(Nil, newl, Nil, 1)
  }

  /** Right rotation about `y`. The source dereferences `y->left` without a check;
      when that child is missing the model leaves the subtree as it is. */
  function RightRotate(y: StatusTree): (r: StatusTree)
    ensures Inorder(r) == Inorder(y)
    ensures y.Node? && y.left.Node? ==> r.Node? && r.height == 1 + Max(Height(r.left), Height(r.right))
    ensures y.Node? && y.left.Node? && HeightsOk(y.left) && HeightsOk(y.right) ==> HeightsOk(r)
    ensures HeightsOk(y) ==> HeightsOk(r)
  {
    if y.Nil? || y.left.Nil? then y
    else
      var x := y.left;
      var t2 := x.right;
      var y' := Node(t2, y.l, y.right, Max(Height(t2), Height(y.right)) + 1);
      Node(x.left, x.l, y', Max(Height(x.left), Height(y')) + 1)
  }

  /** Left rotation about `x`; the mirror image of RightRotate. */
  function LeftRotate(x: StatusTree): (r: StatusTree)
    ensures Inorder(r) == Inorder(x)
    ensures x.Node? && x.right.Node? ==> r.Node? && r.height == 1 + Max(Height(r.left), Height(r.right))
    ensures x.Node? && x.right.Node? && HeightsOk(x.left) && HeightsOk(x.right) ==> HeightsOk(r)
    ensures HeightsOk(x) ==> HeightsOk(r)
  {
    if x.Nil? || x.right.Nil? then x
    else
      var y := x.right;
      var t2 := y.left;
      var x' := Node(x.left, x.l, t2, Max(Height(x.left), Height(t2)) + 1);
      Node(x', y.l, y.right, Max(Height(x'), Height(y.right)) + 1)
  }

  /** The tail of `insert`: recompute the height of `node`, then rotate according to
      where `newl` lies relative to the child on the heavy side. */
  function InsertRebalance(node: StatusTree, newl: SweepSegment, ycor: real): (r: StatusTree)
    requires node.Node?
    ensures Inorder(r) == Inorder(node)
    ensures r.Node? && r.height == 1 + Max(Height(r.left), Height(r.right))
    ensures HeightsOk(node.left) && HeightsOk(node.right) ==> HeightsOk(r)
  {
    var n := node.(height := 1 + Max(Height(node.left), Height(node.right)));
    var balance := GetBalance(n);
    var key := FindX(newl, ycor);
    if balance > 1 && key < FindX(n.left.l, ycor) then RightRotate(n)
    else if balance < -1 && key > FindX(n.right.l, ycor) then LeftRotate(n)
    else if balance > 1 && key > FindX(n.left.l, ycor) then RightRotate(n.(left := LeftRotate(n.left)))
    else if balance < -1 && key < FindX(n.right.l, ycor) then LeftRotate(n.(right := RightRotate(n.right)))
    else n
  }

  /** True when the descent by FindX at `ycor` from the root of `t` reaches a node whose
      key is equal to that of `newl` (the case in which insert and deleteNode stop). */
  ghost predicate DescentMeetsEqual(t: StatusTree, newl: SweepSegment, ycor: real)
  {
    t.Node? &&
    (if FindX(newl, ycor) < FindX(t.l, ycor) then DescentMeetsEqual(t.left, newl, ycor)
     else if FindX(newl, ycor) > FindX(t.l, ycor) then DescentMeetsEqual(t.right, newl, ycor)
     else true)
  }

  /** `insert` as a function of the tree and of the value of the `globalinsert` flag on
      entry; the result is the new root and the value of the flag on exit. */
  function InsertRec(node: StatusTree, newl: SweepSegment, ycor: real, justInserted: int): (StatusTree, int)
  {
    if node.Nil? then (NewStatus(newl), 1)
    else if FindX(newl, ycor) < FindX(node.l, ycor) then
      var (sub, flag) := InsertRec(node.left, newl, ycor, justInserted);
      if flag == 1 then
        // the new leaf hangs directly under this node: the old key moves to a fresh
        // right leaf and this node routes by the new segment
        (InsertRebalance(Node(sub, newl, NewStatus(node.l), node.height), newl, ycor), 0)
      else
        (InsertRebalance(node.(left := sub), newl, ycor), flag)
    else if FindX(newl, ycor) > FindX(node.l, ycor) then
      var (sub, flag) := InsertRec(node.right, newl, ycor, justInserted);
      if flag == 1 then
        // the new leaf hangs directly under this node: its key is copied to a fresh left leaf
        (InsertRebalance(Node(NewStatus(node.l), node.l, sub, node.height), newl, ycor), 0)
      else
        (InsertRebalance(node.(right := sub), newl, ycor), flag)
    else
      (node, justInserted)
  }

  /** The status structure object. Its one field is the flag that `insert` raises when
      it has just created a leaf, so that the caller one level up adds the sibling copy. */
  class StatusQueue {
    var globalinsert: int

    constructor ()
      ensures globalinsert == 0
    {
      globalinsert := 0;
    }

    method Insert(node: StatusTree, newl: SweepSegment, ycor: real) returns (r: StatusTree)
      modifies this
      ensures (r, globalinsert) == InsertRec(node, newl, ycor, old(globalinsert))
      decreases node
    {
      if node.Nil? {
        globalinsert := 1;
        return NewStatus(newl);
      }
      var n := node;
      if FindX(newl, ycor) < FindX(node.l, ycor) {
        var sub := Insert(node.left, newl, ycor);
        n := n.(left := sub);
        if globalinsert == 1 {
          n := n.(right := NewStatus(node.l));
          n := n.(l := newl);
          globalinsert := 0;
        }
      } else if FindX(newl, ycor) > FindX(node.l, ycor) {
        var sub := Insert(node.right, newl, ycor);
        n := n.(right := sub);
        if globalinsert == 1 {
          n := n.(left := NewStatus(node.l));
          globalinsert := 0;
        }
      } else {
        return node;
      }
      r := InsertRebalance(n, newl, ycor);
    }
  }

  /** The exit value of the flag: 1 after inserting into an empty tree; the entry value
      when the descent stops at an equal key and no caller above consumes a raised flag;
      0 in every other case. */
  lemma {:induction false} InsertRecFlag(node: StatusTree, newl: SweepSegment, ycor: real, justInserted: int)
    ensures InsertRec(node, newl, ycor, justInserted).1 ==
      if node.Nil? then 1
      else if DescentMeetsEqual(node, newl, ycor)
              && (justInserted != 1 || FindX(newl, ycor) == FindX(node.l, ycor)) then justInserted
      else 0
  {
    if node.Node? {
      if FindX(newl, ycor) < FindX(node.l, ycor) {
        InsertRecFlag(node.left, newl, ycor, justInserted);
      } else if FindX(newl, ycor) > FindX(node.l, ycor) {
        InsertRecFlag(node.right, newl, ycor, justInserted);
      }
    }
  }

  /** Insertion never invents a segment, and the new segment is stored unless the
      descent met an equal key. */
  lemma {:induction false} InsertRecSegments(node: StatusTree, newl: SweepSegment, ycor: real, justInserted: int)
    ensures forall s :: s in Inorder(InsertRec(node, newl, ycor, justInserted).0) ==> s in Inorder(node) || s == newl
    ensures !DescentMeetsEqual(node, newl, ycor) ==> newl in Inorder(InsertRec(node, newl, ycor, justInserted).0)
  {
    if node.Node? {
      if FindX(newl, ycor) < FindX(node.l, ycor) {
        InsertRecSegments(node.left, newl, ycor, justInserted);
      } else if FindX(newl, ycor) > FindX(node.l, ycor) {
        InsertRecSegments(node.right, newl, ycor, justInserted);
      }
    }
  }

  /** When the descent meets an equal key (and no stale flag is pending), insert adds no
      node: the in-order sequence of stored segments is unchanged. */
  lemma {:induction false} InsertRecEqualAddsNothing(node: StatusTree, newl: SweepSegment, ycor: real, justInserted: int)
    requires DescentMeetsEqual(node, newl, ycor)
    requires justInserted != 1 || FindX(newl, ycor) == FindX(node.l, ycor)
    ensures Inorder(InsertRec(node, newl, ycor, justInserted).0) == Inorder(node)
    ensures InsertRec(node, newl, ycor, justInserted).1 == justInserted
  {
    if FindX(newl, ycor) < FindX(node.l, ycor) {
      InsertRecEqualAddsNothing(node.left, newl, ycor, justInserted);
    } else if FindX(newl, ycor) > FindX(node.l, ycor) {
      InsertRecEqualAddsNothing(node.right, newl, ycor, justInserted);
    }
  }

  /** Creating a leaf directly under a node gives that node two leaf children, the
      smaller FindX at `ycor` on the left. On the left path the node's old key moves to
      the new right leaf and the node takes the new key; on the right path the node's
      key is copied to the new left leaf. The node's other child is overwritten. */
  lemma LeafSplit(node: StatusTree, newl: SweepSegment, ycor: real, justInserted: int)
    requires node.Node?
    requires FindX(newl, ycor) < FindX(node.l, ycor) ==> node.left.Nil?
    requires FindX(newl, ycor) > FindX(node.l, ycor) ==> node.right.Nil?
    requires FindX(newl, ycor) != FindX(node.l, ycor)
    ensures var (r, flag) := InsertRec(node, newl, ycor, justInserted);
      flag == 0 &&
      r == (if FindX(newl, ycor) < FindX(node.l, ycor)
            then Node(NewStatus(newl), newl, NewStatus(node.l), 2)
            else Node(NewStatus(node.l), node.l, NewStatus(newl), 2)) &&
      FindX(r.left.l, ycor) < FindX(r.right.l, ycor)
  {
  }

  /** Insertion keeps every stored height equal to 1 + the larger child height. */
  lemma {:induction false} InsertRecHeights(node: StatusTree, newl: SweepSegment, ycor: real, justInserted: int)
    requires HeightsOk(node)
    ensures HeightsOk(InsertRec(node, newl, ycor, justInserted).0)
  {
    if node.Node? {
      if FindX(newl, ycor) < FindX(node.l, ycor) {
        InsertRecHeights(node.left, newl, ycor, justInserted);
      } else if FindX(newl, ycor) > FindX(node.l, ycor) {
        InsertRecHeights(node.right, newl, ycor, justInserted);
      }
    }
  }

  /** The leftmost node of a non-empty tree: the node holding the first segment in-order. */
  function Leftmost(t: StatusTree): (m: StatusTree)
    requires t.Node?
    ensures m.Node? && m.left.Nil? && Inorder(t)[0] == m.l
  {
    if t.left.Nil? then t else Leftmost(t.left)
  }

  /** `minValueNode`: walk left from `node` while a left child exists. */
  method MinValueNode(node: StatusTree) returns (current: StatusTree)
    requires node.Node?
    ensures current.Node? && current.left.Nil?
    ensures current.l == Inorder(node)[0]
  {
    current := node;
    while current.left.Node?
      invariant current.Node? && Leftmost(current) == Leftmost(node)
      decreases current
    {
      current := current.left;
    }
  }

  /** The tail of `deleteNode`: recompute the height, then rotate by balance factors only. */
  function DeleteRebalance(root: StatusTree): (r: StatusTree)
    requires root.Node?
    ensures Inorder(r) == Inorder(root)
    ensures r.Node? && r.height == 1 + Max(Height(r.left), Height(r.right))
    ensures HeightsOk(root.left) && HeightsOk(root.right) ==> HeightsOk(r)
  {
    var n := root.(height := 1 + Max(Height(root.left), Height(root.right)));
    var balance := GetBalance(n);
    if balance > 1 && GetBalance(n.left) >= 0 then RightRotate(n)
    else if balance > 1 && GetBalance(n.left) < 0 then RightRotate(n.(left := LeftRotate(n.left)))
    else if balance < -1 && GetBalance(n.right) <= 0 then LeftRotate(n)
    else if balance < -1 && GetBalance(n.right) > 0 then LeftRotate(n.(right := RightRotate(n.right)))
    else n
  }

  /** `deleteNode`: remove the first node met on the FindX descent whose key equals that
      of `newl` at `ycor`; a node with two children takes the segment of its in-order
      successor, which is then deleted from the right subtree. */
  function DeleteNode(root: StatusTree, newl: SweepSegment, ycor: real): StatusTree
  {
    if root.Nil? then Nil
    else if FindX(newl, ycor) < FindX(root.l, ycor) then
      DeleteRebalance(root.(left := DeleteNode(root.left, newl, ycor)))
    else if FindX(newl, ycor) > FindX(root.l, ycor) then
      DeleteRebalance(root.(right := DeleteNode(root.right, newl, ycor)))
    else if root.left.Nil? || root.right.Nil? then
      var temp := if root.left.Node? then root.left else root.right;
      if temp.Nil? then Nil else DeleteRebalance(temp)
    else
      var temp := Leftmost(root.right);
      DeleteRebalance(root.(l := temp.l, right := DeleteNode(root.right, temp.l, ycor)))
  }

  /** deleteNode removes at most one node, never invents a segment, and changes nothing
      when the descent meets no equal key. */
  lemma {:induction false} DeleteNodeEffect(root: StatusTree, newl: SweepSegment, ycor: real)
    ensures |Inorder(root)| - 1 <= |Inorder(DeleteNode(root, newl, ycor))| <= |Inorder(root)|
    ensures forall s :: s in Inorder(DeleteNode(root, newl, ycor)) ==> s in Inorder(root)
    ensures !DescentMeetsEqual(root, newl, ycor) ==> Inorder(DeleteNode(root, newl, ycor)) == Inorder(root)
    decreases root
  {
    if root.Node? {
      if FindX(newl, ycor) < FindX(root.l, ycor) {
        DeleteNodeEffect(root.left, newl, ycor);
      } else if FindX(newl, ycor) > FindX(root.l, ycor) {
        DeleteNodeEffect(root.right, newl, ycor);
      } else if root.left.Node? && root.right.Node? {
        var temp := Leftmost(root.right);
        DeleteNodeEffect(root.right, temp.l, ycor);
        assert temp.l in Inorder(root.right);
      }
    }
  }

  /** Deletion keeps every stored height equal to 1 + the larger child height. */
  lemma {:induction false} DeleteNodeHeights(root: StatusTree, newl: SweepSegment, ycor: real)
    requires HeightsOk(root)
    ensures HeightsOk(DeleteNode(root, newl, ycor))
    decreases root
  {
    if root.Node? {
      if FindX(newl, ycor) < FindX(root.l, ycor) {
        DeleteNodeHeights(root.left, newl, ycor);
      } else if FindX(newl, ycor) > FindX(root.l, ycor) {
        DeleteNodeHeights(root.right, newl, ycor);
      } else if root.left.Node? && root.right.Node? {
        DeleteNodeHeights(root.right, Leftmost(root.right).l, ycor);
      }
    }
  }

  /** `getLeftNeighbor`: descend comparing FindX(l) - 0.1 with the node keys at
      `ycor - 0.1`, recording a node's segment in the slot whenever the descent turns
      right; at a leaf the slot is filled only if it still holds the `startX == -1`
      sentinel. The result is the final content of the slot `*lastRight`. */
  method GetLeftNeighbor(node: StatusTree, l: SweepSegment, ycor: real, lastRight: LineSegment)
    returns (res: LineSegment)
    ensures res == lastRight
            || (res in Inorder(node) && FindX(res, ycor - 0.1) < FindX(l, ycor - 0.1))
    ensures node.Nil? ==> res == lastRight
    ensures node.Node? && node.height == 1 && lastRight.startX != -1.0 ==> res == lastRight
    decreases node
  {
    res := lastRight;
    if node.Nil? {
      // the source dereferences a NULL child here
      return;
    }
    if node.height == 1 {
      if lastRight.startX == -1.0 {
        if FindX(node.l, ycor - 0.1) < FindX(l, ycor - 0.1) {
          res := node.l;
        }
      }
      return;
    }
    if FindX(l, ycor - 0.1) - 0.1 < FindX(node.l, ycor - 0.1) {
      res := GetLeftNeighbor(node.left, l, ycor, lastRight);
    } else if FindX(l, ycor - 0.1) - 0.1 > FindX(node.l, ycor - 0.1) {
      res := GetLeftNeighbor(node.right, l, ycor, node.l);
    }
  }

  /** `getRightNeighbor`: the mirror image of GetLeftNeighbor, with FindX(l) + 0.1 and
      the slot `*lastLeft` recorded whenever the descent turns left. */
  method GetRightNeighbor(node: StatusTree, l: SweepSegment, ycor: real, lastLeft: LineSegment)
    returns (res: LineSegment)
    ensures res == lastLeft
            || (res in Inorder(node) && FindX(res, ycor - 0.1) > FindX(l, ycor - 0.1))
    ensures node.Nil? ==> res == lastLeft
    ensures node.Node? && node.height == 1 && lastLeft.startX != -1.0 ==> res == lastLeft
    decreases node
  {
    res := lastLeft;
    if node.Nil? {
      // the source dereferences a NULL child here
      return;
    }
    if node.height == 1 {
      if lastLeft.startX == -1.0 {
        if FindX(node.l, ycor - 0.1) > FindX(l, ycor - 0.1) {
          res := node.l;
        }
      }
      return;
    }
    if FindX(l, ycor - 0.1) + 0.1 < FindX(node.l, ycor - 0.1) {
      res := GetRightNeighbor(node.left, l, ycor, node.l);
    } else if FindX(l, ycor - 0.1) + 0.1 > FindX(node.l, ycor - 0.1) {
      res := GetRightNeighbor(node.right, l, ycor, lastLeft);
    }
  }

  /** `getNeighbors`: the segments immediately left (`*lastRight`) and right
      (`*lastLeft`) of the point x = `xcor` at height `ycor - 0.1`. */
  method GetNeighbors(node: StatusTree, xcor: real, ycor: real, lastRight: LineSegment, lastLeft: LineSegment)
    returns (leftOut: LineSegment, rightOut: LineSegment)
    ensures leftOut == lastRight || (leftOut in Inorder(node) && FindX(leftOut, ycor - 0.1) <= xcor)
    ensures rightOut == lastLeft || (rightOut in Inorder(node) && FindX(rightOut, ycor - 0.1) > xcor)
    ensures node.Nil? ==> leftOut == lastRight && rightOut == lastLeft
    ensures node.Node? && node.height == 1 && lastRight.startX != -1.0 ==> leftOut == lastRight
    ensures node.Node? && node.height == 1 && lastLeft.startX != -1.0 ==> rightOut == lastLeft
    decreases node
  {
    leftOut, rightOut := lastRight, lastLeft;
    if node.Nil? {
      // the source dereferences a NULL child here
      return;
    }
    if node.height == 1 {
      if lastRight.startX == -1.0 {
        if FindX(node.l, ycor - 0.1) <= xcor {
          leftOut := node.l;
        }
      }
      if lastLeft.startX == -1.0 {
        if FindX(node.l, ycor - 0.1) > xcor {
          rightOut := node.l;
        }
      }
      return;
    }
    if xcor < FindX(node.l, ycor - 0.1) {
      leftOut, rightOut := GetNeighbors(node.left, xcor, ycor, lastRight, node.l);
    } else if xcor > FindX(node.l, ycor - 0.1) {
      if node.right.Nil? {
        leftOut := node.l;
        return;
      }
      leftOut, rightOut := GetNeighbors(node.right, xcor, ycor, node.l, lastLeft);
    }
  }
}
