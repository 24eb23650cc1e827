/** The AVL tree over linked nodes, rewritten in place, proved against the values of AvlTree.dfy. */
module AvlNodes {
  import opened Options
  import A = AvlTree

  class AvlNode<T> {
    var data: T
    var height: int
    var left: AvlNode?<T>
    var right: AvlNode?<T>

    constructor (data: T)
      ensures this.data == data && height == 0 && left == null && right == null
    {
      this.data := data;
      height, left, right := 0, null, null;
    }
  }

  /** Which node sits where; the proofs carry it along, the nodes themselves store nothing extra. */
  datatype Shape<!T> = Nil | Bin(l: Shape<T>, node: AvlNode<T>, r: Shape<T>)

  ghost function Nodes<T>(s: Shape<T>): set<AvlNode<T>> {
    match s
    case Nil => {}
    case Bin(l, n, r) => Nodes(l) + {n} + Nodes(r)
  }

  /** No node sits in two places. */
  ghost predicate Distinct<T>(s: Shape<T>) {
    match s
    case Nil => true
    case Bin(l, n, r) => n !in Nodes(l) && n !in Nodes(r) && Nodes(l) !! Nodes(r) && Distinct(l) && Distinct(r)
  }

  ghost predicate Linked<T>(p: AvlNode?<T>, s: Shape<T>)
    reads Nodes(s)
  {
    match s
    case Nil => p == null
    case Bin(l, n, r) => p == n && Linked(n.left, l) && Linked(n.right, r)
  }

  /** p is the root of a tree of nodes of shape s. */
  ghost predicate Holds<T>(p: AvlNode?<T>, s: Shape<T>)
    reads Nodes(s)
  {
    Linked(p, s) && Distinct(s)
  }

  /** The tree the nodes of a shape spell out. */
  ghost function Value<T>(s: Shape<T>): A.Tree<T>
    reads Nodes(s)
  {
    match s
    case Nil => A.Leaf
    case Bin(l, n, r) => A.Node(Value(l), n.data, n.height, Value(r))
  }

  /** The nodes of a shape exist, so a call that changes other nodes leaves what they spell out alone. */
  lemma InHeap<T>(s: Shape<T>)
    ensures forall n :: n in Nodes(s) ==> allocated(n)
  {
  }

  function NodeHeight<T>(p: AvlNode?<T>): int
    reads p
  {
    if p == null then -1 else p.height
  }

  lemma HeightOfValue<T>(p: AvlNode?<T>, s: Shape<T>)
    requires Linked(p, s)
    ensures NodeHeight(p) == A.Height(Value(s)) && (p == null <==> Value(s).Leaf?)
  {
  }

  method UpdateHeight<T>(p: AvlNode<T>, ghost s: Shape<T>)
    requires Holds(p, s)
    modifies p`height
    ensures Holds(p, s) && Value(s) == A.Refresh(old(Value(s)))
  {
    HeightOfValue(p.left, s.l);
    HeightOfValue(p.right, s.r);
    p.height := 1 + A.Max(NodeHeight(p.left), NodeHeight(p.right));
  }

  /** Regrouping three subtrees around two nodes. */
  lemma Regroup<T>(a: Shape<T>, m: AvlNode<T>, b: Shape<T>, n: AvlNode<T>, c: Shape<T>)
    ensures Distinct(Bin(Bin(a, m, b), n, c)) <==> Distinct(Bin(a, m, Bin(b, n, c)))
    ensures Nodes(Bin(Bin(a, m, b), n, c)) == Nodes(Bin(a, m, Bin(b, n, c)))
    ensures Distinct(Bin(Bin(a, m, b), n, c)) ==>
              && Distinct(Bin(a, m, b)) && Distinct(Bin(b, n, c)) && m != n
              && m !in Nodes(a) && m !in Nodes(b) && m !in Nodes(c)
              && n !in Nodes(a) && n !in Nodes(b) && n !in Nodes(c)
  {
    var ab, bc := Bin(a, m, b), Bin(b, n, c);
    assert Nodes(ab) == Nodes(a) + {m} + Nodes(b);
    assert Nodes(bc) == Nodes(b) + {n} + Nodes(c);
    assert Distinct(ab) <==> m !in Nodes(a) && m !in Nodes(b) && Nodes(a) !! Nodes(b) && Distinct(a) && Distinct(b);
    assert Distinct(bc) <==> n !in Nodes(b) && n !in Nodes(c) && Nodes(b) !! Nodes(c) && Distinct(b) && Distinct(c);
  }

  /** A linked tree that is not empty, taken apart. */
  lemma Opened<T>(p: AvlNode?<T>, s: Shape<T>)
    requires Holds(p, s) && s.Bin?
    ensures p == s.node && Holds(s.node.left, s.l) && Holds(s.node.right, s.r)
    ensures s.node !in Nodes(s.l) && s.node !in Nodes(s.r) && Nodes(s.l) !! Nodes(s.r)
    ensures Value(s) == A.Node(Value(s.l), s.node.data, s.node.height, Value(s.r))
  {
  }

  method RotateRight<T>(p: AvlNode?<T>, ghost s: Shape<T>) returns (l: AvlNode?<T>, ghost s': Shape<T>)
    requires Holds(p, s)
    modifies Nodes(s)
    ensures Holds(l, s') && Nodes(s') <= Nodes(s)
    ensures Value(s') == A.RotateRight(old(Value(s)))
  {
    HeightOfValue(p, s);
    if p == null { return null, Nil; }
    HeightOfValue(p.left, s.l);
    if p.left == null { return null, Nil; }
    l := p.left;
    s' := LinkRight(p, l, s);
    UpdateRightChild(l, p, s');
    UpdateHeight(l, s');
  }

  /** The two assignments of a rotation to the right. */
  method LinkRight<T>(p: AvlNode<T>, l: AvlNode<T>, ghost s: Shape<T>) returns (ghost s': Shape<T>)
    requires Holds(p, s) && s.Bin? && s.l.Bin? && p.left == l
    modifies p`left, l`right
    ensures s' == Bin(s.l.l, l, Bin(s.l.r, p, s.r)) && Holds(l, s') && Nodes(s') == Nodes(s)
    ensures Value(s.l.l) == old(Value(s.l.l)) && Value(s.l.r) == old(Value(s.l.r)) && Value(s.r) == old(Value(s.r))
  {
    Opened(p, s);
    Opened(l, s.l);
    Regroup(s.l.l, l, s.l.r, p, s.r);
    InHeap(s);
    p.left := l.right;
    l.right := p;
    s' := Bin(s.l.l, l, Bin(s.l.r, p, s.r));
  }

  method RotateLeft<T>(p: AvlNode?<T>, ghost s: Shape<T>) returns (r: AvlNode?<T>, ghost s': Shape<T>)
    requires Holds(p, s)
    modifies Nodes(s)
    ensures Holds(r, s') && Nodes(s') <= Nodes(s)
    ensures Value(s') == A.RotateLeft(old(Value(s)))
  {
    HeightOfValue(p, s);
    if p == null { return null, Nil; }
    HeightOfValue(p.right, s.r);
    if p.right == null { return null, Nil; }
    r := p.right;
    s' := LinkLeft(p, r, s);
    UpdateLeftChild(r, p, s');
    UpdateHeight(r, s');
  }

  method LinkLeft<T>(p: AvlNode<T>, r: AvlNode<T>, ghost s: Shape<T>) returns (ghost s': Shape<T>)
    requires Holds(p, s) && s.Bin? && s.r.Bin? && p.right == r
    modifies p`right, r`left
    ensures s' == Bin(Bin(s.l, p, s.r.l), r, s.r.r) && Holds(r, s') && Nodes(s') == Nodes(s)
    ensures Value(s.l) == old(Value(s.l)) && Value(s.r.l) == old(Value(s.r.l)) && Value(s.r.r) == old(Value(s.r.r))
  {
    Opened(p, s);
    Opened(r, s.r);
    Regroup(s.l, p, s.r.l, r, s.r.r);
    InHeap(s);
    p.right := r.left;
    r.left := p;
    s' := Bin(Bin(s.l, p, s.r.l), r, s.r.r);
  }

  /** The height of a child, before that of its parent. */
  method UpdateRightChild<T>(q: AvlNode<T>, p: AvlNode<T>, ghost s: Shape<T>)
    requires Holds(q, s) && s.Bin? && s.r.Bin? && s.r.node == p && Value(s).Node? && Value(s).right.Node?
    modifies p`height
    ensures Holds(q, s) && Value(s) == old(Value(s).(right := A.Refresh(Value(s).right)))
  {
    Opened(q, s);
    Opened(p, s.r);
    InHeap(s.l);
    UpdateHeight(p, s.r);
  }

  method UpdateLeftChild<T>(q: AvlNode<T>, p: AvlNode<T>, ghost s: Shape<T>)
    requires Holds(q, s) && s.Bin? && s.l.Bin? && s.l.node == p && Value(s).Node? && Value(s).left.Node?
    modifies p`height
    ensures Holds(q, s) && Value(s) == old(Value(s).(left := A.Refresh(Value(s).left)))
  {
    Opened(q, s);
    Opened(p, s.l);
    InHeap(s.r);
    UpdateHeight(p, s.l);
  }

  /** Pointing a node at another subtree. */
  method SetLeft<T>(p: AvlNode<T>, l: AvlNode?<T>, ghost sl: Shape<T>, ghost sr: Shape<T>) returns (ghost s': Shape<T>)
    requires Holds(l, sl) && Holds(p.right, sr) && p !in Nodes(sl) && p !in Nodes(sr) && Nodes(sl) !! Nodes(sr)
    modifies p`left
    ensures s' == Bin(sl, p, sr) && Holds(p, s')
    ensures Value(s') == old(A.Node(Value(sl), p.data, p.height, Value(sr)))
  {
    InHeap(sl);
    InHeap(sr);
    p.left := l;
    s' := Bin(sl, p, sr);
  }

  method SetRight<T>(p: AvlNode<T>, r: AvlNode?<T>, ghost sl: Shape<T>, ghost sr: Shape<T>) returns (ghost s': Shape<T>)
    requires Holds(p.left, sl) && Holds(r, sr) && p !in Nodes(sl) && p !in Nodes(sr) && Nodes(sl) !! Nodes(sr)
    modifies p`right
    ensures s' == Bin(sl, p, sr) && Holds(p, s')
    ensures Value(s') == old(A.Node(Value(sl), p.data, p.height, Value(sr)))
  {
    InHeap(sl);
    InHeap(sr);
    p.right := r;
    s' := Bin(sl, p, sr);
  }

  method RotateLeftRight<T>(p: AvlNode<T>, ghost s: Shape<T>) returns (r: AvlNode?<T>, ghost s': Shape<T>)
    requires Holds(p, s)
    modifies Nodes(s)
    ensures Holds(r, s') && Nodes(s') <= Nodes(s)
    ensures Value(s') == A.RotateLeftRight(old(Value(s)))
  {
    Opened(p, s);
    InHeap(s.r);
    var l, sl := RotateLeft(p.left, s.l);
    s' := SetLeft(p, l, sl, s.r);
    r, s' := RotateRight(p, s');
  }

  method RotateRightLeft<T>(p: AvlNode<T>, ghost s: Shape<T>) returns (r: AvlNode?<T>, ghost s': Shape<T>)
    requires Holds(p, s)
    modifies Nodes(s)
    ensures Holds(r, s') && Nodes(s') <= Nodes(s)
    ensures Value(s') == A.RotateRightLeft(old(Value(s)))
  {
    Opened(p, s);
    InHeap(s.l);
    var n, sr := RotateRight(p.right, s.r);
    s' := SetRight(p, n, s.l, sr);
    r, s' := RotateLeft(p, s');
  }

  /** The rotation, if any, after the left subtree has taken data in. */
  method AfterLeftInsert<T>(p: AvlNode<T>, data: T, cmp: (T, T) -> int, ghost s: Shape<T>)
    returns (r: AvlNode?<T>, ghost s': Shape<T>)
    requires Holds(p, s) && Value(s).left.Node?
    modifies Nodes(s)
    ensures Holds(r, s') && Nodes(s') <= Nodes(s)
    ensures Value(s') == A.AfterLeftInsert(old(Value(s)), data, cmp)
  {
    HeightOfValue(p.left, s.l);
    HeightOfValue(p.right, s.r);
    r, s' := p, s;
    if NodeHeight(p.left) - NodeHeight(p.right) == 2 {
      if cmp(data, p.left.data) < 0 {
        r, s' := RotateRight(p, s);
      } else {
        r, s' := RotateLeftRight(p, s);
      }
    }
  }

  method AfterRightInsert<T>(p: AvlNode<T>, data: T, cmp: (T, T) -> int, ghost s: Shape<T>)
    returns (r: AvlNode?<T>, ghost s': Shape<T>)
    requires Holds(p, s) && Value(s).right.Node?
    modifies Nodes(s)
    ensures Holds(r, s') && Nodes(s') <= Nodes(s)
    ensures Value(s') == A.AfterRightInsert(old(Value(s)), data, cmp)
  {
    HeightOfValue(p.left, s.l);
    HeightOfValue(p.right, s.r);
    r, s' := p, s;
    if NodeHeight(p.right) - NodeHeight(p.left) == 2 {
      if cmp(data, p.right.data) > 0 {
        r, s' := RotateLeft(p, s);
      } else {
        r, s' := RotateRightLeft(p, s);
      }
    }
  }

  /** Insertion in place. NULL stands for the end of the program on a NULL dereference, which happens exactly when
      the value says so; otherwise the nodes left spell out exactly the value's tree, and a node that was not there
      before is a fresh one. */
  method InsertNode<T>(p: AvlNode?<T>, data: T, cmp: (T, T) -> int, ghost s: Shape<T>)
    returns (r: AvlNode?<T>, ghost s': Shape<T>)
    requires Holds(p, s)
    modifies Nodes(s)
    ensures r != null <==> old(A.InsertNode(Value(s), data, cmp)).Some?
    ensures r != null ==>
              && Holds(r, s') && fresh(Nodes(s') - Nodes(s))
              && Value(s') == old(A.InsertNode(Value(s), data, cmp)).value
    decreases s, 1
  {
    HeightOfValue(p, s);
    if p == null {
      r := new AvlNode(data);
      s' := Bin(Nil, r, Nil);
      return;
    }
    r, s' := p, s;
    var result := cmp(data, p.data);
    if result < 0 {
      r, s' := InsertLeft(p, data, cmp, s);
    } else if result > 0 {
      r, s' := InsertRight(p, data, cmp, s);
    }
    if r == null { return; }
    UpdateHeight(r, s');
  }

  method InsertLeft<T>(p: AvlNode<T>, data: T, cmp: (T, T) -> int, ghost s: Shape<T>)
    returns (q: AvlNode?<T>, ghost s': Shape<T>)
    requires Holds(p, s) && Value(s).Node? && cmp(data, Value(s).data) < 0
    modifies Nodes(s)
    ensures q != null <==> old(A.InsertNode(Value(s), data, cmp)).Some?
    ensures q != null ==>
              && Holds(q, s') && fresh(Nodes(s') - Nodes(s))
              && A.RefreshRoot(Value(s')) == old(A.InsertNode(Value(s), data, cmp))
    decreases s, 0
  {
    Opened(p, s);
    InHeap(s.r);
    var l, sl := InsertNode(p.left, data, cmp, s.l);
    if l == null { return null, Nil; }
    ghost var s1 := SetLeft(p, l, sl, s.r);
    assert Value(s1) == old(Value(s).(left := A.InsertNode(Value(s.l), data, cmp).value));
    q, s' := AfterLeftInsert(p, data, cmp, s1);
    HeightOfValue(q, s');
  }

  method InsertRight<T>(p: AvlNode<T>, data: T, cmp: (T, T) -> int, ghost s: Shape<T>)
    returns (q: AvlNode?<T>, ghost s': Shape<T>)
    requires Holds(p, s) && Value(s).Node? && cmp(data, Value(s).data) > 0
    modifies Nodes(s)
    ensures q != null <==> old(A.InsertNode(Value(s), data, cmp)).Some?
    ensures q != null ==>
              && Holds(q, s') && fresh(Nodes(s') - Nodes(s))
              && A.RefreshRoot(Value(s')) == old(A.InsertNode(Value(s), data, cmp))
    decreases s, 0
  {
    Opened(p, s);
    InHeap(s.l);
    var n, sr := InsertNode(p.right, data, cmp, s.r);
    if n == null { return null, Nil; }
    ghost var s1 := SetRight(p, n, s.l, sr);
    assert Value(s1) == old(Value(s).(right := A.InsertNode(Value(s.r), data, cmp).value));
    q, s' := AfterRightInsert(p, data, cmp, s1);
    HeightOfValue(q, s');
  }

  // ---- Deletion ----

  /** Height update and rotations on the way back up. */
  method Rebalance<T>(p: AvlNode?<T>, ghost s: Shape<T>) returns (r: AvlNode?<T>, ghost s': Shape<T>)
    requires Holds(p, s)
    requires Value(s).Node? ==> A.NonNegative(Value(s).left) && A.NonNegative(Value(s).right)
    modifies Nodes(s)
    ensures Holds(r, s') && Nodes(s') <= Nodes(s)
    ensures Value(s') == old(A.Rebalance(Value(s)))
  {
    HeightOfValue(p, s);
    r, s' := p, s;
    if p == null { return; }
    UpdateHeight(p, s);
    HeightOfValue(p.left, s.l);
    HeightOfValue(p.right, s.r);
    var balance := NodeHeight(p.left) - NodeHeight(p.right);
    if balance > 1 {
      A.NonNegativeHeight(Value(s.r));
      HeightOfValue(p.left.left, s.l.l);
      HeightOfValue(p.left.right, s.l.r);
      if NodeHeight(p.left.left) >= NodeHeight(p.left.right) {
        r, s' := RotateRight(p, s);
      } else {
        r, s' := RotateLeftRight(p, s);
      }
    } else if balance < -1 {
      A.NonNegativeHeight(Value(s.l));
      HeightOfValue(p.right.left, s.r.l);
      HeightOfValue(p.right.right, s.r.r);
      if NodeHeight(p.right.right) >= NodeHeight(p.right.left) {
        r, s' := RotateLeft(p, s);
      } else {
        r, s' := RotateRightLeft(p, s);
      }
    }
  }

  /** The leftmost node with what hangs below it, its parent, and the shape without it. */
  ghost function MinShape<T>(t: Shape<T>): (m: Shape<T>)
    requires t.Bin?
    ensures m.Bin? && m.l.Nil?
  {
    if t.l.Nil? then t else MinShape(t.l)
  }

  ghost function MinParent<T>(t: Shape<T>): AvlNode<T>
    requires t.Bin? && t.l.Bin?
  {
    if t.l.l.Nil? then t.node else MinParent(t.l)
  }

  ghost function WithoutMin<T>(t: Shape<T>): Shape<T>
    requires t.Bin?
  {
    if t.l.Nil? then t.r else t.(l := WithoutMin(t.l))
  }

  lemma {:induction false} MinNodes<T>(t: Shape<T>)
    requires t.Bin? && Distinct(t)
    ensures Distinct(WithoutMin(t)) && Nodes(WithoutMin(t)) <= Nodes(t)
    ensures Distinct(MinShape(t)) && Nodes(MinShape(t)) <= Nodes(t)
    ensures t.l.Bin? ==> MinParent(t) in Nodes(t) && MinParent(t) !in Nodes(t.r) && MinParent(t) !in Nodes(MinShape(t))
  {
    if t.l.Bin? { MinNodes(t.l); }
  }

  /** The part of a linked tree that does not depend on the pointer to its leftmost node. */
  ghost predicate SpineLinked<T>(q: AvlNode?<T>, t: Shape<T>)
    requires t.Bin? && t.l.Bin? && Distinct(t)
    reads Nodes(t) - {MinParent(t)}, MinParent(t)`right
  {
    MinNodes(t);
    q == t.node && Linked(q.right, t.r) &&
    if t.l.l.Bin? then MinNodes(t.l); SpineLinked(q.left, t.l) else true
  }

  /** What the tree spells out once hole takes the place of its leftmost node. */
  ghost function SpineValue<T>(t: Shape<T>, hole: A.Tree<T>): A.Tree<T>
    requires t.Bin? && t.l.Bin? && Distinct(t)
    reads Nodes(t) - {MinParent(t)}, MinParent(t)`data, MinParent(t)`height
  {
    MinNodes(t);
    A.Node(if t.l.l.Bin? then SpineValue(t.l, hole) else hole, t.node.data, t.node.height, Value(t.r))
  }

  lemma {:induction false} OpenSpine<T>(q: AvlNode<T>, t: Shape<T>)
    requires t.Bin? && t.l.Bin? && Distinct(t) && Linked(q, t)
    ensures SpineLinked(q, t)
    ensures SpineValue(t, Value(MinShape(t).r)) == A.RemoveMin(Value(t))
  {
    MinNodes(t);
    HeightOfValue(t.l.node.left, t.l.l);
    if t.l.l.Bin? { OpenSpine(q.left, t.l); } else { assert A.RemoveMin(Value(t.l)) == Value(t.l.r); }
  }

  /** Once the parent of the leftmost node points past it, the whole tree is linked without it. */
  lemma {:induction false} CloseSpine<T>(q: AvlNode<T>, t: Shape<T>)
    requires t.Bin? && t.l.Bin? && Distinct(t) && SpineLinked(q, t)
    requires Linked(MinParent(t).left, MinShape(t).r)
    ensures Linked(q, WithoutMin(t)) && Value(WithoutMin(t)) == SpineValue(t, Value(MinShape(t).r))
  {
    MinNodes(t);
    if t.l.l.Bin? { CloseSpine(q.left, t.l); }
  }

  /** succ is the root of cur, a piece of t that t's leftmost node lies in, and parent is above it. */
  ghost predicate OnSpine<T>(p: AvlNode<T>, t: Shape<T>, parent: AvlNode<T>, succ: AvlNode<T>, cur: Shape<T>)
    requires t.Bin?
    reads Nodes(cur), parent
  {
    && cur.Bin? && Linked(succ, cur) && Distinct(cur) && Nodes(cur) <= Nodes(t)
    && MinShape(cur) == MinShape(t)
    && (if parent == p then cur == t
        else
          && t.l.Bin? && parent.left == succ && parent.right != succ
          && MinParent(t) == if cur.l.Nil? then parent else MinParent(cur))
  }

  lemma SpineStep<T>(p: AvlNode<T>, t: Shape<T>, parent: AvlNode<T>, succ: AvlNode<T>, cur: Shape<T>)
    requires t.Bin? && p !in Nodes(t) && OnSpine(p, t, parent, succ, cur) && succ.left != null
    ensures cur.l.Bin? && OnSpine(p, t, succ, succ.left, cur.l)
  {
    HeightOfValue(succ.left, cur.l);
    HeightOfValue(succ.right, cur.r);
    assert succ == cur.node && succ in Nodes(t);
    assert Linked(succ.left, cur.l) && Linked(succ.right, cur.r);
    assert succ.left in Nodes(cur.l) && succ.left !in Nodes(cur.r);
  }

  lemma {:induction false} MinOfShape<T>(q: AvlNode<T>, t: Shape<T>)
    requires t.Bin? && Linked(q, t)
    ensures MinShape(t).node in Nodes(t) && MinShape(t).node.data == A.MinData(Value(t))
  {
    HeightOfValue(q.left, t.l);
    if t.l.Bin? { MinOfShape(q.left, t.l); }
  }

  /** The successor search: down to the right once, then left as far as it goes. */
  method FindSuccessor<T>(p: AvlNode<T>, ghost s: Shape<T>)
    returns (parent: AvlNode<T>, succ: AvlNode<T>, ghost cur: Shape<T>)
    requires Holds(p, s) && p.right != null
    ensures s.r.Bin? && OnSpine(p, s.r, parent, succ, cur) && cur == MinShape(s.r)
    ensures parent == p || parent in Nodes(s.r)
  {
    parent, succ, cur := p, p.right, s.r;
    HeightOfValue(p.right, s.r);
    while succ.left != null
      invariant s.r.Bin? && OnSpine(p, s.r, parent, succ, cur)
      invariant parent == p || parent in Nodes(s.r)
      decreases cur
    {
      SpineStep(p, s.r, parent, succ, cur);
      parent, succ, cur := succ, succ.left, cur.l;
    }
    HeightOfValue(succ.left, cur.l);
  }

  /** s once the leftmost node of its right subtree is gone. */
  ghost function WithoutSuccessor<T>(s: Shape<T>): (r: Shape<T>)
    requires s.Bin? && s.r.Bin?
    ensures r.Bin?
  {
    s.(r := WithoutMin(s.r))
  }

  lemma SuccessorNodes<T>(s: Shape<T>)
    requires Distinct(s) && s.Bin? && s.r.Bin?
    ensures Distinct(WithoutSuccessor(s)) && Nodes(WithoutSuccessor(s)) <= Nodes(s)
  {
    MinNodes(s.r);
  }

  /** The found node has two children: it takes over its successor's datum and the successor is unlinked. */
  method SpliceSuccessor<T>(p: AvlNode<T>, ghost s: Shape<T>) returns (removed: T, ghost s': Shape<T>)
    requires Holds(p, s) && A.NonNegative(Value(s)) && p.left != null && p.right != null
    modifies Nodes(s)
    ensures Holds(p, s') && Nodes(s') <= Nodes(s)
    ensures removed == old(p.data) && Value(s') == old(A.RemoveRoot(Value(s)))
  {
    InHeap(s);
    var parent, succ, cur := FindSuccessor(p, s);
    HeightOfValue(p.left, s.l);
    MinOfShape(p.right, s.r);
    SuccessorNodes(s);
    s' := WithoutSuccessor(s);
    removed := CopyDatum(p, succ.data, s);
    if parent.right == succ {
      SpliceChild(p, succ, s);
    } else {
      SpliceDeep(p, parent, succ, s);
    }
  }

  method CopyDatum<T>(p: AvlNode<T>, data: T, ghost s: Shape<T>) returns (removed: T)
    requires Holds(p, s) && Value(s).Node?
    modifies p`data
    ensures Holds(p, s) && removed == old(p.data) && Value(s) == old(Value(s)).(data := data)
  {
    removed := p.data;
    p.data := data;
  }

  /** The successor is the right child itself. */
  method SpliceChild<T>(p: AvlNode<T>, succ: AvlNode<T>, ghost s: Shape<T>)
    requires Holds(p, s) && s.Bin? && Value(s).Node? && p.right == succ && s.r.Bin? && s.r.l.Nil?
    modifies p`right
    ensures Holds(p, WithoutSuccessor(s))
    ensures Value(WithoutSuccessor(s)) == old(Value(s).(right := A.RemoveMin(Value(s.r))))
  {
    InHeap(s);
    SuccessorNodes(s);
    assert Linked(p.right, s.r) && succ == s.r.node;
    assert Nodes(s.r) == Nodes(s.r.l) + {succ} + Nodes(s.r.r);
    p.right := succ.right;
  }

  /** The successor is the left child of its parent, somewhere below the right child. */
  method SpliceDeep<T>(p: AvlNode<T>, parent: AvlNode<T>, succ: AvlNode<T>, ghost s: Shape<T>)
    requires Holds(p, s) && s.Bin? && Value(s).Node? && p.right != null && s.r.Bin? && s.r.l.Bin?
    requires parent == MinParent(s.r) && Linked(succ, MinShape(s.r))
    modifies parent`left
    ensures Holds(p, WithoutSuccessor(s))
    ensures Value(WithoutSuccessor(s)) == old(Value(s).(right := A.RemoveMin(Value(s.r))))
  {
    InHeap(s.l);
    SuccessorNodes(s);
    MinNodes(s.r);
    UnlinkMin(p.right, parent, succ, s.r);
  }

  method UnlinkMin<T>(q: AvlNode<T>, parent: AvlNode<T>, succ: AvlNode<T>, ghost t: Shape<T>)
    requires Holds(q, t) && t.Bin? && t.l.Bin? && parent == MinParent(t) && Linked(succ, MinShape(t))
    modifies parent`left
    ensures Value(t).Node? && Holds(q, WithoutMin(t)) && Value(WithoutMin(t)) == old(A.RemoveMin(Value(t)))
  {
    InHeap(t);
    MinNodes(t);
    OpenSpine(q, t);
    parent.left := succ.right;
    CloseSpine(q, t);
  }

  /** Deletion in place: r is what the caller's pointer to p is set to, destroyed the data handed to the
      destroy callback. */
  method DeleteNode<T>(p: AvlNode?<T>, data: T, cmp: (T, T) -> int, ghost s: Shape<T>)
    returns (r: AvlNode?<T>, found: bool, destroyed: seq<T>, ghost s': Shape<T>)
    requires Holds(p, s) && A.NonNegative(Value(s))
    modifies Nodes(s)
    ensures Holds(r, s') && Nodes(s') <= Nodes(s)
    ensures A.Deletion(Value(s'), found, destroyed) == old(A.DeleteNode(Value(s), data, cmp))
    decreases s, 1
  {
    HeightOfValue(p, s);
    r, s' := p, s;
    if p == null { return r, false, [], s'; }
    var result := cmp(data, p.data);
    if result < 0 {
      found, destroyed, s' := DeleteLeft(p, data, cmp, s);
    } else if result > 0 {
      found, destroyed, s' := DeleteRight(p, data, cmp, s);
    } else {
      r, destroyed, s' := RemoveRoot(p, s);
      found := true;
    }
    r, s' := Rebalance(r, s');
  }

  method RemoveRoot<T>(p: AvlNode<T>, ghost s: Shape<T>)
    returns (r: AvlNode?<T>, destroyed: seq<T>, ghost s': Shape<T>)
    requires Holds(p, s) && A.NonNegative(Value(s)) && Value(s).Node?
    modifies Nodes(s)
    ensures Holds(r, s') && Nodes(s') <= Nodes(s)
    ensures Value(s') == old(A.RemoveRoot(Value(s))) && destroyed == [old(p.data)]
  {
    HeightOfValue(p.left, s.l);
    HeightOfValue(p.right, s.r);
    if p.left == null {
      r, s', destroyed := p.right, s.r, [p.data];
    } else if p.right == null {
      r, s', destroyed := p.left, s.l, [p.data];
    } else {
      var removed;
      removed, s' := SpliceSuccessor(p, s);
      r, destroyed := p, [removed];
    }
  }

  method DeleteLeft<T>(p: AvlNode<T>, data: T, cmp: (T, T) -> int, ghost s: Shape<T>)
    returns (found: bool, destroyed: seq<T>, ghost s': Shape<T>)
    requires Holds(p, s) && A.NonNegative(Value(s)) && Value(s).Node?
    modifies Nodes(s)
    ensures Holds(p, s') && Nodes(s') <= Nodes(s)
    ensures var d := old(A.DeleteNode(Value(s).left, data, cmp));
            Value(s') == old(Value(s)).(left := d.tree) && found == d.found && destroyed == d.destroyed
    decreases s, 0
  {
    Opened(p, s);
    InHeap(s.r);
    var l;
    ghost var sl;
    l, found, destroyed, sl := DeleteNode(p.left, data, cmp, s.l);
    s' := SetLeft(p, l, sl, s.r);
  }

  method DeleteRight<T>(p: AvlNode<T>, data: T, cmp: (T, T) -> int, ghost s: Shape<T>)
    returns (found: bool, destroyed: seq<T>, ghost s': Shape<T>)
    requires Holds(p, s) && A.NonNegative(Value(s)) && Value(s).Node?
    modifies Nodes(s)
    ensures Holds(p, s') && Nodes(s') <= Nodes(s)
    ensures var d := old(A.DeleteNode(Value(s).right, data, cmp));
            Value(s') == old(Value(s)).(right := d.tree) && found == d.found && destroyed == d.destroyed
    decreases s, 0
  {
    Opened(p, s);
    InHeap(s.l);
    var n;
    ghost var sr;
    n, found, destroyed, sr := DeleteNode(p.right, data, cmp, s.r);
    s' := SetRight(p, n, s.l, sr);
  }

  // ---- Queries ----

  function Search<T>(p: AvlNode?<T>, data: T, cmp: (T, T) -> int, ghost s: Shape<T>): (r: Option<T>)
    requires Holds(p, s)
    reads Nodes(s)
    ensures r == A.Search(Value(s), data, cmp)
    decreases s
  {
    HeightOfValue(p, s);
    if p == null then None
    else
      var result := cmp(p.data, data);
      if result == 0 then Some(p.data)
      else if result < 0 then Search(p.right, data, cmp, s.r)
      else Search(p.left, data, cmp, s.l)
  }

  function Count<T>(p: AvlNode?<T>, ghost s: Shape<T>): (n: int)
    requires Holds(p, s)
    reads Nodes(s)
    ensures n == A.Count(Value(s))
    decreases s
  {
    HeightOfValue(p, s);
    if p == null then 0 else Count(p.left, s.l) + Count(p.right, s.r) + 1
  }
}
