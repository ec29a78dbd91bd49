/**
  Properties of the event queue operations of EventQueue.h: rotations keep the search
  order and what every point holds, `insert` and `deleteNode` keep the tree an AVL
  search tree and change exactly the one point they are given.
*/
module EventsProofs {
  import Status
  import opened Events

  /** Two trees hold the same points with the same role lists. */
  ghost predicate SameEntries(a: EventTree, b: EventTree)
  {
    Keys(a) == Keys(b) && forall p :: Find(a, p) == Find(b, p)
  }

  lemma PrecedesTransitive(a: Position, b: Position, c: Position)
    requires Precedes(a, b) && Precedes(b, c)
    ensures Precedes(a, c)
  {
  }

  /** In an ordered tree the search finds a point exactly when it is stored. */
  lemma {:induction false} FindIffKeys(t: EventTree, p: Position)
    requires Ordered(t)
    ensures Find(t, p).Some? <==> p in Keys(t)
  {
    if t.Node? && p != KeyOf(t) {
      FindIffKeys(t.left, p);
      FindIffKeys(t.right, p);
      if Precedes(KeyOf(t), p) {
        assert p !in Keys(t.right);
      } else {
        assert p !in Keys(t.left);
      }
    }
  }

  /** Replacing the left child by one with the same entries keeps order and entries;
      the node's height field plays no part in either. */
  lemma ReplaceLeft(n: EventTree, c: EventTree, h: nat)
    requires n.Node? && Ordered(n) && Ordered(c) && SameEntries(c, n.left)
    ensures Ordered(n.(left := c, height := h)) && SameEntries(n.(left := c, height := h), n)
  {
    var m := n.(left := c, height := h);
    forall p
      ensures Find(m, p) == Find(n, p)
    {
      assert Find(c, p) == Find(n.left, p);
    }
  }

  /** The mirror image of ReplaceLeft. */
  lemma ReplaceRight(n: EventTree, c: EventTree, h: nat)
    requires n.Node? && Ordered(n) && Ordered(c) && SameEntries(c, n.right)
    ensures Ordered(n.(right := c, height := h)) && SameEntries(n.(right := c, height := h), n)
  {
    var m := n.(right := c, height := h);
    forall p
      ensures Find(m, p) == Find(n, p)
    {
      assert Find(c, p) == Find(n.right, p);
    }
  }

  /** A right rotation keeps the search order and the entries. */
  lemma RightRotateKeepsOrder(y: EventTree)
    requires Ordered(y)
    ensures Ordered(RightRotate(y)) && SameEntries(RightRotate(y), y)
  {
    if y.Node? && y.left.Node? {
      var x := y.left;
      var r := RightRotate(y);
      var y' := r.right;
      assert y' == y.(left := x.right, height := y'.height);
      assert r == x.(right := y', height := r.height);
      assert KeyOf(x) in Keys(y.left);
      forall k | k in Keys(y.right)
        ensures Precedes(k, KeyOf(x))
      {
        PrecedesTransitive(k, KeyOf(y), KeyOf(x));
      }
      assert Ordered(y');
      assert Ordered(r);
      forall p
        ensures Find(r, p) == Find(y, p)
      {
        if p != KeyOf(x) && p != KeyOf(y) && Precedes(KeyOf(x), p) {
          assert Precedes(KeyOf(y), p);
        }
      }
    }
  }

  /** A left rotation keeps the search order and the entries. */
  lemma LeftRotateKeepsOrder(x: EventTree)
    requires Ordered(x)
    ensures Ordered(LeftRotate(x)) && SameEntries(LeftRotate(x), x)
  {
    if x.Node? && x.right.Node? {
      var y := x.right;
      var r := LeftRotate(x);
      var x' := r.left;
      assert x' == x.(right := y.left, height := x'.height);
      assert r == y.(left := x', height := r.height);
      assert KeyOf(y) in Keys(x.right);
      forall k | k in Keys(x.left)
        ensures Precedes(KeyOf(y), k)
      {
        PrecedesTransitive(KeyOf(y), KeyOf(x), k);
      }
      assert Ordered(x');
      assert Ordered(r);
      forall p
        ensures Find(r, p) == Find(x, p)
      {
        if p != KeyOf(x) && p != KeyOf(y) && Precedes(p, KeyOf(x)) {
          assert !Precedes(KeyOf(y), p) || !Precedes(KeyOf(x), p);
        }
      }
    }
  }

  /** A single right rotation of a node whose left child is two levels taller and not
      right-heavy leaves an AVL tree; its height depends on the child's balance. */
  lemma RightRotateHeights(n: EventTree)
    requires n.Node? && n.left.Node?
    requires HeightsOk(n.left) && HeightsOk(n.right) && Balanced(n.left) && Balanced(n.right)
    requires Height(n.left) == Height(n.right) + 2 && GetBalance(n.left) >= 0
    ensures HeightsOk(RightRotate(n)) && Balanced(RightRotate(n))
    ensures Height(RightRotate(n)) == Height(n.right) + 3 - GetBalance(n.left)
  {
  }

  /** The mirror image of RightRotateHeights. */
  lemma LeftRotateHeights(n: EventTree)
    requires n.Node? && n.right.Node?
    requires HeightsOk(n.left) && HeightsOk(n.right) && Balanced(n.left) && Balanced(n.right)
    requires Height(n.right) == Height(n.left) + 2 && GetBalance(n.right) <= 0
    ensures HeightsOk(LeftRotate(n)) && Balanced(LeftRotate(n))
    ensures Height(LeftRotate(n)) == Height(n.left) + 3 + GetBalance(n.right)
  {
  }

  /** A left-right double rotation of a node whose left child is two levels taller and
      right-heavy leaves an AVL tree of the left child's height. */
  lemma LeftRightHeights(n: EventTree)
    requires n.Node? && n.left.Node?
    requires HeightsOk(n.left) && HeightsOk(n.right) && Balanced(n.left) && Balanced(n.right)
    requires Height(n.left) == Height(n.right) + 2 && GetBalance(n.left) == -1
    ensures HeightsOk(RightRotate(n.(left := LeftRotate(n.left))))
    ensures Balanced(RightRotate(n.(left := LeftRotate(n.left))))
    ensures Height(RightRotate(n.(left := LeftRotate(n.left)))) == Height(n.right) + 2
  {
  }

  /** The mirror image of LeftRightHeights. */
  lemma RightLeftHeights(n: EventTree)
    requires n.Node? && n.right.Node?
    requires HeightsOk(n.left) && HeightsOk(n.right) && Balanced(n.left) && Balanced(n.right)
    requires Height(n.right) == Height(n.left) + 2 && GetBalance(n.right) == 1
    ensures HeightsOk(LeftRotate(n.(right := RightRotate(n.right))))
    ensures Balanced(LeftRotate(n.(right := RightRotate(n.right))))
    ensures Height(LeftRotate(n.(right := RightRotate(n.right)))) == Height(n.left) + 2
  {
  }

  /** A single right rotation where the left child is two levels taller and not
      right-heavy: an AVL search tree with the same entries comes out. */
  lemma SingleRightValid(m: EventTree)
    requires m.Node? && m.left.Node? && Ordered(m) && Valid(m.left) && Valid(m.right)
    requires Height(m.left) - Height(m.right) == 2 && GetBalance(m.left) >= 0
    ensures Valid(RightRotate(m)) && SameEntries(RightRotate(m), m)
    ensures Height(RightRotate(m)) == Height(m.right) + 3 - GetBalance(m.left)
  {
    RightRotateKeepsOrder(m);
    RightRotateHeights(m);
  }

  /** A single left rotation, the mirror image of SingleRightValid. */
  lemma SingleLeftValid(m: EventTree)
    requires m.Node? && m.right.Node? && Ordered(m) && Valid(m.left) && Valid(m.right)
    requires Height(m.right) - Height(m.left) == 2 && GetBalance(m.right) <= 0
    ensures Valid(LeftRotate(m)) && SameEntries(LeftRotate(m), m)
    ensures Height(LeftRotate(m)) == Height(m.left) + 3 + GetBalance(m.right)
  {
    LeftRotateKeepsOrder(m);
    LeftRotateHeights(m);
  }

  /** A left-right double rotation where the left child is two levels taller and
      right-heavy: an AVL search tree with the same entries comes out. */
  lemma DoubleRightValid(m: EventTree)
    requires m.Node? && m.left.Node? && Ordered(m) && Valid(m.left) && Valid(m.right)
    requires Height(m.left) - Height(m.right) == 2 && GetBalance(m.left) == -1
    ensures Valid(RightRotate(m.(left := LeftRotate(m.left))))
    ensures SameEntries(RightRotate(m.(left := LeftRotate(m.left))), m)
    ensures Height(RightRotate(m.(left := LeftRotate(m.left)))) == Height(m.right) + 2
  {
    var c := LeftRotate(m.left);
    LeftRotateKeepsOrder(m.left);
    ReplaceLeft(m, c, m.height);
    RightRotateKeepsOrder(m.(left := c));
    LeftRightHeights(m);
  }

  /** A right-left double rotation, the mirror image of DoubleRightValid. */
  lemma DoubleLeftValid(m: EventTree)
    requires m.Node? && m.right.Node? && Ordered(m) && Valid(m.left) && Valid(m.right)
    requires Height(m.right) - Height(m.left) == 2 && GetBalance(m.right) == 1
    ensures Valid(LeftRotate(m.(right := RightRotate(m.right))))
    ensures SameEntries(LeftRotate(m.(right := RightRotate(m.right))), m)
    ensures Height(LeftRotate(m.(right := RightRotate(m.right)))) == Height(m.left) + 2
  {
    var c := RightRotate(m.right);
    RightRotateKeepsOrder(m.right);
    ReplaceRight(m, c, m.height);
    LeftRotateKeepsOrder(m.(right := c));
    RightLeftHeights(m);
  }

  /** What `insert` leaves behind in a subtree that grew by one level: its balance
      leans towards the side where the new point `k` went. */
  ghost predicate LeansToward(c: EventTree, k: Position)
  {
    && c.Node? && KeyOf(c) != k
    && (Precedes(KeyOf(c), k) ==> GetBalance(c) == 1)
    && (Precedes(k, KeyOf(c)) ==> GetBalance(c) == -1)
  }

  /** The part of InsertRebalanceAvl where the left child is two levels taller. */
  lemma InsertRebalanceLeftHeavy(n: EventTree, xc: real, yc: real)
    requires n.Node? && Ordered(n) && Valid(n.left) && Valid(n.right)
    requires Height(n.left) - Height(n.right) == 2 && LeansToward(n.left, Position(xc, yc))
    ensures Valid(InsertRebalance(n, xc, yc)) && SameEntries(InsertRebalance(n, xc, yc), n)
    ensures Height(InsertRebalance(n, xc, yc)) == Height(n.left)
  {
    var m := n.(height := 1 + Status.Max(Height(n.left), Height(n.right)));
    ReplaceLeft(n, n.left, m.height);
    ComparatorsTrichotomy(xc, yc, n.left.xc, n.left.yc);
    if Precedes(KeyOf(n.left), Position(xc, yc)) {
      assert InsertRebalance(n, xc, yc) == RightRotate(m);
      SingleRightValid(m);
    } else {
      assert InsertRebalance(n, xc, yc) == RightRotate(m.(left := LeftRotate(m.left)));
      DoubleRightValid(m);
    }
  }

  /** The part of InsertRebalanceAvl where the right child is two levels taller. */
  lemma InsertRebalanceRightHeavy(n: EventTree, xc: real, yc: real)
    requires n.Node? && Ordered(n) && Valid(n.left) && Valid(n.right)
    requires Height(n.left) - Height(n.right) == -2 && LeansToward(n.right, Position(xc, yc))
    ensures Valid(InsertRebalance(n, xc, yc)) && SameEntries(InsertRebalance(n, xc, yc), n)
    ensures Height(InsertRebalance(n, xc, yc)) == Height(n.right)
  {
    var m := n.(height := 1 + Status.Max(Height(n.left), Height(n.right)));
    ReplaceLeft(n, n.left, m.height);
    ComparatorsTrichotomy(xc, yc, n.right.xc, n.right.yc);
    if Precedes(Position(xc, yc), KeyOf(n.right)) {
      assert InsertRebalance(n, xc, yc) == LeftRotate(m);
      SingleLeftValid(m);
    } else {
      assert InsertRebalance(n, xc, yc) == LeftRotate(m.(right := RightRotate(m.right)));
      DoubleLeftValid(m);
    }
  }

  /** The tail of `insert` restores the AVL condition at a node whose children are AVL
      trees differing in height by at most two, provided the taller child grew towards
      the inserted point; it changes no entry. */
  lemma InsertRebalanceAvl(n: EventTree, xc: real, yc: real)
    requires n.Node? && Ordered(n) && Valid(n.left) && Valid(n.right)
    requires -2 <= Height(n.left) - Height(n.right) <= 2
    requires Height(n.left) - Height(n.right) == 2 ==> LeansToward(n.left, Position(xc, yc))
    requires Height(n.left) - Height(n.right) == -2 ==> LeansToward(n.right, Position(xc, yc))
    ensures Valid(InsertRebalance(n, xc, yc)) && SameEntries(InsertRebalance(n, xc, yc), n)
    ensures -1 <= Height(n.left) - Height(n.right) <= 1 ==>
              InsertRebalance(n, xc, yc) == n.(height := 1 + Status.Max(Height(n.left), Height(n.right)))
    ensures Height(n.left) - Height(n.right) == 2 || Height(n.left) - Height(n.right) == -2 ==>
              Height(InsertRebalance(n, xc, yc)) == Status.Max(Height(n.left), Height(n.right))
  {
    var b := Height(n.left) - Height(n.right);
    if b == 2 {
      InsertRebalanceLeftHeavy(n, xc, yc);
    } else if b == -2 {
      InsertRebalanceRightHeavy(n, xc, yc);
    } else {
      var m := n.(height := 1 + Status.Max(Height(n.left), Height(n.right)));
      assert InsertRebalance(n, xc, yc) == m;
      ReplaceLeft(n, n.left, m.height);
    }
  }

  /** What `insert` of segment `s` at point (xc, yc) guarantees of its result `r`,
      given the tree `t` it started from: `r` is an AVL search tree; the point is
      stored, holding `s` in the role list chosen by `eventType` (once), and every
      other point is as it was; the height grows by at most one, and only with the
      root kept and the balance leaning to the side where the point went. */
  ghost predicate InsertSpec(t: EventTree, r: EventTree, xc: real, yc: real, s: LineSegment, eventType: int)
  {
    && Valid(r) && r.Node?
    && Keys(r) == Keys(t) + {Position(xc, yc)}
    && (forall p :: Find(r, p) == if p == Position(xc, yc) then Some(Added(Find(t, p), s, eventType)) else Find(t, p))
    && Height(t) <= Height(r) <= Height(t) + 1
    && (t.Node? && Height(r) == Height(t) + 1 ==> KeyOf(r) == KeyOf(t) && LeansToward(r, Position(xc, yc)))
  }

  /** The step of InsertValid where the point goes into the left subtree. */
  lemma InsertIntoLeft(t: EventTree, c: EventTree, xc: real, yc: real, s: LineSegment, eventType: int)
    requires Valid(t) && t.Node? && Precedes(KeyOf(t), Position(xc, yc))
    requires InsertSpec(t.left, c, xc, yc, s, eventType)
    ensures InsertSpec(t, InsertRebalance(t.(left := c), xc, yc), xc, yc, s, eventType)
  {
    var k := Position(xc, yc);
    var n := t.(left := c);
    assert Ordered(n);
    InsertRebalanceAvl(n, xc, yc);
    forall p
      ensures Find(n, p) == if p == k then Some(Added(Find(t, p), s, eventType)) else Find(t, p)
    {
    }
  }

  /** The step of InsertValid where the point goes into the right subtree. */
  lemma InsertIntoRight(t: EventTree, c: EventTree, xc: real, yc: real, s: LineSegment, eventType: int)
    requires Valid(t) && t.Node? && Precedes(Position(xc, yc), KeyOf(t))
    requires InsertSpec(t.right, c, xc, yc, s, eventType)
    ensures InsertSpec(t, InsertRebalance(t.(right := c), xc, yc), xc, yc, s, eventType)
  {
    var k := Position(xc, yc);
    var n := t.(right := c);
    assert Ordered(n);
    InsertRebalanceAvl(n, xc, yc);
    forall p
      ensures Find(n, p) == if p == k then Some(Added(Find(t, p), s, eventType)) else Find(t, p)
    {
    }
  }

  /** The step of InsertValid where the point is already stored at the root. */
  lemma InsertAtRoot(t: EventTree, xc: real, yc: real, s: LineSegment, eventType: int)
    requires Valid(t) && t.Node? && Position(xc, yc) == KeyOf(t)
    ensures InsertSpec(t, Insert(t, xc, yc, s, eventType), xc, yc, s, eventType)
  {
    var r := Insert(t, xc, yc, s, eventType);
    var a := AddRole(RolesOf(t), s, eventType);
    var n := t.(U := a.U, L := a.L, C := a.C);
    if r != t {
      assert r == InsertRebalance(n, xc, yc);
      InsertRebalanceAvl(n, xc, yc);
    }
  }

  /** `insert` keeps the queue an AVL search tree and changes only the entry of the
      point it is given, as InsertSpec says. */
  lemma {:induction false} InsertValid(t: EventTree, xc: real, yc: real, s: LineSegment, eventType: int)
    requires Valid(t)
    ensures InsertSpec(t, Insert(t, xc, yc, s, eventType), xc, yc, s, eventType)
  {
    var k := Position(xc, yc);
    if t.Node? {
      if Precedes(KeyOf(t), k) {
        InsertValid(t.left, xc, yc, s, eventType);
        InsertIntoLeft(t, Insert(t.left, xc, yc, s, eventType), xc, yc, s, eventType);
      } else if Precedes(k, KeyOf(t)) {
        InsertValid(t.right, xc, yc, s, eventType);
        InsertIntoRight(t, Insert(t.right, xc, yc, s, eventType), xc, yc, s, eventType);
      } else {
        InsertAtRoot(t, xc, yc, s, eventType);
      }
    }
  }

  /** The part of DeleteRebalanceAvl where the left child is two levels taller. */
  lemma DeleteRebalanceLeftHeavy(n: EventTree)
    requires n.Node? && Ordered(n) && Valid(n.left) && Valid(n.right)
    requires Height(n.left) - Height(n.right) == 2
    ensures Valid(DeleteRebalance(n)) && SameEntries(DeleteRebalance(n), n)
    ensures Height(n.left) <= Height(DeleteRebalance(n)) <= Height(n.left) + 1
  {
    var m := n.(height := 1 + Status.Max(Height(n.left), Height(n.right)));
    ReplaceLeft(n, n.left, m.height);
    assert m.left == n.left && m.right == n.right && GetBalance(m) == 2;
    assert -1 <= GetBalance(m.left) <= 1;
    if GetBalance(n.left) >= 0 {
      assert DeleteRebalance(n) == RightRotate(m);
      SingleRightValid(m);
      assert Height(RightRotate(m)) == Height(n.left) + 1 - GetBalance(n.left);
    } else {
      assert GetBalance(m.left) == -1;
      assert DeleteRebalance(n) == RightRotate(m.(left := LeftRotate(m.left)));
      DoubleRightValid(m);
    }
  }

  /** The part of DeleteRebalanceAvl where the right child is two levels taller. */
  lemma DeleteRebalanceRightHeavy(n: EventTree)
    requires n.Node? && Ordered(n) && Valid(n.left) && Valid(n.right)
    requires Height(n.left) - Height(n.right) == -2
    ensures Valid(DeleteRebalance(n)) && SameEntries(DeleteRebalance(n), n)
    ensures Height(n.right) <= Height(DeleteRebalance(n)) <= Height(n.right) + 1
  {
    var m := n.(height := 1 + Status.Max(Height(n.left), Height(n.right)));
    ReplaceLeft(n, n.left, m.height);
    assert m.left == n.left && m.right == n.right && GetBalance(m) == -2;
    assert -1 <= GetBalance(m.right) <= 1;
    if GetBalance(n.right) <= 0 {
      assert DeleteRebalance(n) == LeftRotate(m);
      SingleLeftValid(m);
      assert Height(LeftRotate(m)) == Height(n.right) + 1 + GetBalance(n.right);
    } else {
      assert GetBalance(m.right) == 1;
      assert DeleteRebalance(n) == LeftRotate(m.(right := RightRotate(m.right)));
      DoubleLeftValid(m);
    }
  }

  /** The tail of `deleteNode` restores the AVL condition at a node whose children are
      AVL trees differing in height by at most two, choosing the rotation by the
      balance of the taller child; it changes no entry. */
  lemma DeleteRebalanceAvl(n: EventTree)
    requires n.Node? && Ordered(n) && Valid(n.left) && Valid(n.right)
    requires -2 <= Height(n.left) - Height(n.right) <= 2
    ensures Valid(DeleteRebalance(n)) && SameEntries(DeleteRebalance(n), n)
    ensures -1 <= Height(n.left) - Height(n.right) <= 1 ==>
              DeleteRebalance(n) == n.(height := 1 + Status.Max(Height(n.left), Height(n.right)))
    ensures Status.Max(Height(n.left), Height(n.right)) <= Height(DeleteRebalance(n))
              <= Status.Max(Height(n.left), Height(n.right)) + 1
  {
    var b := Height(n.left) - Height(n.right);
    if b == 2 {
      DeleteRebalanceLeftHeavy(n);
    } else if b == -2 {
      DeleteRebalanceRightHeavy(n);
    } else {
      var m := n.(height := 1 + Status.Max(Height(n.left), Height(n.right)));
      assert DeleteRebalance(n) == m;
      ReplaceLeft(n, n.left, m.height);
    }
  }

  /** What `deleteNode` of point `k` guarantees of its result `r`, given the tree `t`
      it started from: `r` is an AVL search tree without `k`, every other point is as
      it was, and the height drops by at most one. */
  ghost predicate DeleteSpec(t: EventTree, r: EventTree, k: Position)
  {
    && Valid(r)
    && Keys(r) == Keys(t) - {k}
    && (forall p :: Find(r, p) == if p == k then None else Find(t, p))
    && Height(t) - 1 <= Height(r) <= Height(t)
  }

  /** The step of DeleteValid where the point lies in the left subtree. */
  lemma DeleteFromLeft(t: EventTree, c: EventTree, k: Position)
    requires Valid(t) && t.Node? && Precedes(KeyOf(t), k)
    requires DeleteSpec(t.left, c, k)
    ensures DeleteSpec(t, DeleteRebalance(t.(left := c)), k)
  {
    var n := t.(left := c);
    assert Ordered(n);
    DeleteRebalanceAvl(n);
    forall p
      ensures Find(n, p) == if p == k then None else Find(t, p)
    {
    }
  }

  /** The step of DeleteValid where the point lies in the right subtree. */
  lemma DeleteFromRight(t: EventTree, c: EventTree, k: Position)
    requires Valid(t) && t.Node? && Precedes(k, KeyOf(t))
    requires DeleteSpec(t.right, c, k)
    ensures DeleteSpec(t, DeleteRebalance(t.(right := c)), k)
  {
    var n := t.(right := c);
    assert Ordered(n);
    DeleteRebalanceAvl(n);
    forall p
      ensures Find(n, p) == if p == k then None else Find(t, p)
    {
    }
  }

  /** The step of DeleteValid where the point is at a root with at most one child:
      the child, rebalanced, takes the root's place. */
  lemma DeleteAtRootSingle(t: EventTree)
    requires Valid(t) && t.Node? && (t.left.Nil? || t.right.Nil?)
    ensures DeleteSpec(t, DeleteNode(t, t.xc, t.yc), KeyOf(t))
  {
    var k := KeyOf(t);
    var temp := if t.left.Node? then t.left else t.right;
    if temp.Node? {
      assert Valid(temp);
      assert Valid(temp.left) && Valid(temp.right);
      DeleteRebalanceAvl(temp);
      ReplaceLeft(temp, temp.left, temp.height);
      forall p
        ensures Find(temp, p) == if p == k then None else Find(t, p)
      {
        FindIffKeys(temp, p);
        FindIffKeys(t, p);
      }
    }
  }

  /** The step of DeleteValid where the point is at a root with two children: the root
      takes the point and role lists of its in-order successor, the leftmost node of
      the right subtree, which is then deleted from that subtree. */
  lemma DeleteAtRootSuccessor(t: EventTree, c: EventTree)
    requires Valid(t) && t.Node? && t.left.Node? && t.right.Node?
    requires DeleteSpec(t.right, c, KeyOf(Leftmost(t.right)))
    ensures var m := Leftmost(t.right);
            DeleteSpec(t, DeleteRebalance(t.(xc := m.xc, yc := m.yc, U := m.U, C := m.C, L := m.L, right := c)), KeyOf(t))
  {
    var k := KeyOf(t);
    var m := Leftmost(t.right);
    var mk := KeyOf(m);
    var n := t.(xc := m.xc, yc := m.yc, U := m.U, C := m.C, L := m.L, right := c);
    LeftmostIsLast(t.right);
    assert Precedes(mk, k);
    forall q | q in Keys(t.left)
      ensures Precedes(mk, q)
    {
      PrecedesTransitive(mk, k, q);
    }
    assert Ordered(n);
    DeleteRebalanceAvl(n);
    forall p
      ensures Find(n, p) == if p == k then None else Find(t, p)
    {
      FindIffKeys(t.left, p);
      FindIffKeys(t.right, p);
      FindIffKeys(c, p);
      if p != mk && p != k && Precedes(mk, p) && !Precedes(k, p) {
        assert p !in Keys(t.left);
        assert p !in Keys(t.right);
      }
    }
  }

  /** `deleteNode` keeps the queue an AVL search tree and removes exactly the point it
      is given, as DeleteSpec says; deleting a point that is not stored changes no
      entry. */
  lemma {:induction false} DeleteValid(t: EventTree, xc: real, yc: real)
    requires Valid(t)
    ensures DeleteSpec(t, DeleteNode(t, xc, yc), Position(xc, yc))
  {
    var k := Position(xc, yc);
    if t.Node? {
      if Precedes(KeyOf(t), k) {
        DeleteValid(t.left, xc, yc);
        DeleteFromLeft(t, DeleteNode(t.left, xc, yc), k);
      } else if Precedes(k, KeyOf(t)) {
        DeleteValid(t.right, xc, yc);
        DeleteFromRight(t, DeleteNode(t.right, xc, yc), k);
      } else if t.left.Nil? || t.right.Nil? {
        DeleteAtRootSingle(t);
      } else {
        var m := Leftmost(t.right);
        DeleteValid(t.right, m.xc, m.yc);
        DeleteAtRootSuccessor(t, DeleteNode(t.right, m.xc, m.yc));
      }
    }
  }

  /** Deleting a point that is not stored changes no entry. */
  lemma DeleteAbsentKeepsEntries(t: EventTree, xc: real, yc: real)
    requires Valid(t) && Position(xc, yc) !in Keys(t)
    ensures SameEntries(DeleteNode(t, xc, yc), t)
  {
    DeleteValid(t, xc, yc);
    FindIffKeys(t, Position(xc, yc));
  }

  /** The role list `insert` appends to for a given event type. */
  function ChosenList(r: Roles, eventType: int): seq<LineSegment>
  {
    if eventType == 1 then r.U else if eventType == 2 then r.L else r.C
  }

  /** Inserting a segment at a stored point whose chosen role list already holds an
      identical segment returns the tree unchanged. */
  lemma {:induction false} InsertDuplicateUnchanged(t: EventTree, xc: real, yc: real, s: LineSegment, eventType: int)
    requires Valid(t) && Find(t, Position(xc, yc)).Some?
    requires s in ChosenList(Find(t, Position(xc, yc)).value, eventType)
    ensures Insert(t, xc, yc, s, eventType) == t
  {
    var k := Position(xc, yc);
    assert t.Node?;
    if Precedes(KeyOf(t), k) {
      InsertDuplicateUnchanged(t.left, xc, yc, s, eventType);
      assert t.(left := t.left) == t;
      InsertRebalanceAvl(t, xc, yc);
    } else if Precedes(k, KeyOf(t)) {
      InsertDuplicateUnchanged(t.right, xc, yc, s, eventType);
      assert t.(right := t.right) == t;
      InsertRebalanceAvl(t, xc, yc);
    } else if !(1 <= eventType <= 3) {
      InsertRebalanceAvl(t, xc, yc);
    }
  }

  /** No role list holds the same segment twice. */
  ghost predicate RolesDistinct(r: Roles)
  {
    Status.Distinct(r.U) && Status.Distinct(r.L) && Status.Distinct(r.C)
  }

  /** Every stored point has duplicate-free role lists. */
  ghost predicate AllRolesDistinct(t: EventTree)
  {
    forall p :: Find(t, p).Some? ==> RolesDistinct(Find(t, p).value)
  }

  /** `insert` keeps every role list free of duplicates. */
  lemma InsertKeepsRolesDistinct(t: EventTree, xc: real, yc: real, s: LineSegment, eventType: int)
    requires Valid(t) && AllRolesDistinct(t)
    ensures AllRolesDistinct(Insert(t, xc, yc, s, eventType))
  {
    InsertValid(t, xc, yc, s, eventType);
    var r := Insert(t, xc, yc, s, eventType);
    var k := Position(xc, yc);
    forall p | Find(r, p).Some?
      ensures RolesDistinct(Find(r, p).value)
    {
      if p == k && Find(t, k).Some? {
        var before := Find(t, k).value;
        if eventType == 1 && s !in before.U {
          Status.AppendKeepsDistinct(before.U, s);
        } else if eventType == 2 && s !in before.L {
          Status.AppendKeepsDistinct(before.L, s);
        } else if eventType == 3 && s !in before.C {
          Status.AppendKeepsDistinct(before.C, s);
        }
      }
    }
  }

  /** `deleteNode` keeps every role list free of duplicates. */
  lemma DeleteKeepsRolesDistinct(t: EventTree, xc: real, yc: real)
    requires Valid(t) && AllRolesDistinct(t)
    ensures AllRolesDistinct(DeleteNode(t, xc, yc))
  {
    DeleteValid(t, xc, yc);
  }
}
