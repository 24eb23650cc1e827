/** The tree object callers hold, and the level-order walk over its nodes. */
module AvlObject {
  import opened Options
  import opened Ordering
  import opened AvlNodes
  import opened LinkedQueue
  import A = AvlTree
  import I = AvlInsert
  import D = AvlDelete
  import R = AvlRuns
  import B = AvlBounds
  import L = AvlLevelOrder
  import S = AvlReload

  /** Node p is the root of a tree with shape s, inside the nodes of all, and with value t. */
  ghost predicate Subtree<T>(p: AvlNode?<T>, s: Shape<T>, t: A.Tree<T>, all: set<AvlNode<T>>)
    reads Nodes(s)
  {
    Holds(p, s) && Value(s) == t && Nodes(s) <= all
  }

  /** What the queue holds: the roots of the trees with these shapes and values, in order. */
  ghost predicate Queued<T>(items: seq<AvlNode<T>>, shapes: seq<Shape<T>>, trees: seq<A.Tree<T>>, all: set<AvlNode<T>>)
    reads all
  {
    && |items| == |shapes| == |trees|
    && forall i {:trigger shapes[i]} :: 0 <= i < |items| ==>
                     Nodes(shapes[i]) <= all && Subtree(items[i], shapes[i], trees[i], all)
  }

  lemma Subtrees<T>(p: AvlNode<T>, s: Shape<T>, t: A.Tree<T>, all: set<AvlNode<T>>)
    requires Subtree(p, s, t, all)
    ensures s.Bin? && t.Node? && p.data == t.data
    ensures Subtree(p.left, s.l, t.left, all) && Subtree(p.right, s.r, t.right, all)
    ensures p.left != null <==> t.left.Node?
    ensures p.right != null <==> t.right.Node?
  {
    HeightOfValue(p.left, s.l);
    HeightOfValue(p.right, s.r);
  }

  /** The nodes of the tree are none of the queue's own cells. */
  ghost predicate Apart<T>(all: set<AvlNode<T>>, q: Queue<AvlNode<T>>)
    reads q
  {
    forall n :: n in all ==> n as object !in q.Repr
  }

  /** A queue in the middle of the walk: it holds the roots of these trees, apart from all their nodes. */
  ghost predicate Walking<T>(q: Queue<AvlNode<T>>, shapes: seq<Shape<T>>, trees: seq<A.Tree<T>>, all: set<AvlNode<T>>)
    reads q, q.Repr, all
  {
    q.Valid() && Apart(all, q) && Queued(q.Contents(), shapes, trees, all)
  }

  /** Puts a child on the queue unless it is NULL. */
  method EnqueueChild<T>(q: Queue<AvlNode<T>>, p: AvlNode?<T>, ghost s: Shape<T>, ghost t: A.Tree<T>,
                         ghost shapes: seq<Shape<T>>, ghost trees: seq<A.Tree<T>>, ghost all: set<AvlNode<T>>)
    returns (ghost shapes': seq<Shape<T>>)
    requires Walking(q, shapes, trees, all) && Subtree(p, s, t, all)
    modifies q.Repr
    ensures fresh(q.Repr - old(q.Repr))
    ensures Walking(q, shapes', trees + L.Maybe(t), all)
  {
    HeightOfValue(p, s);
    shapes' := shapes;
    if p != null {
      ghost var items := q.Contents();
      q.Enqueue(p);
      shapes' := shapes + [s];
      assert q.Contents() == items + [p];
    }
  }

  method DequeueRoot<T>(q: Queue<AvlNode<T>>, ghost shapes: seq<Shape<T>>, ghost trees: seq<A.Tree<T>>,
                        ghost all: set<AvlNode<T>>)
    returns (p: AvlNode<T>)
    requires Walking(q, shapes, trees, all) && shapes != []
    modifies q.Repr
    ensures q.Repr == old(q.Repr)
    ensures Subtree(p, shapes[0], trees[0], all)
    ensures Walking(q, shapes[1..], trees[1..], all)
  {
    ghost var items := q.Contents();
    assert Subtree(items[0], shapes[0], trees[0], all);
    var r := q.Dequeue();
    p := r.value;
    assert q.Contents() == items[1..];
  }

  /** Puts the left child on the queue; the right one stays the tree it is. */
  method EnqueueLeft<T>(q: Queue<AvlNode<T>>, l: AvlNode?<T>, r: AvlNode?<T>, ghost s: Shape<T>, ghost t: A.Tree<T>,
                        ghost shapes: seq<Shape<T>>, ghost trees: L.Forest<T>, ghost all: set<AvlNode<T>>)
    returns (ghost shapes': seq<Shape<T>>)
    requires Walking(q, shapes, trees, all)
    requires s.Bin? && t.Node? && Subtree(l, s.l, t.left, all) && Subtree(r, s.r, t.right, all)
    modifies q.Repr
    ensures fresh(q.Repr - old(q.Repr))
    ensures Walking(q, shapes', trees + L.Maybe(t.left), all) && Subtree(r, s.r, t.right, all)
  {
    InHeap(s.r);
    shapes' := EnqueueChild(q, l, s.l, t.left, shapes, trees, all);
  }

  method EnqueueChildren<T>(q: Queue<AvlNode<T>>, p: AvlNode<T>, ghost s: Shape<T>, ghost t: A.Tree<T>,
                            ghost shapes: seq<Shape<T>>, ghost trees: L.Forest<T>, ghost all: set<AvlNode<T>>)
    returns (ghost shapes': seq<Shape<T>>)
    requires Walking(q, shapes, trees, all) && Subtree(p, s, t, all)
    requires t.Node?
    modifies q.Repr
    ensures fresh(q.Repr - old(q.Repr))
    ensures Walking(q, shapes', trees + L.Children(t), all)
  {
    Subtrees(p, s, t, all);
    var l, r := p.left, p.right;
    shapes' := EnqueueLeft(q, l, r, s, t, shapes, trees, all);
    shapes' := EnqueueChild(q, r, s.r, t.right, shapes', trees + L.Maybe(t.left), all);
    assert trees + L.Maybe(t.left) + L.Maybe(t.right) == trees + L.Children(t);
  }

  /** One turn of the loop: visit the first node of the queue, then queue its children. */
  method Turn<T>(q: Queue<AvlNode<T>>, ghost shapes: seq<Shape<T>>, ghost trees: L.Forest<T>,
                 ghost all: set<AvlNode<T>>)
    returns (x: T, ghost shapes': seq<Shape<T>>)
    requires Walking(q, shapes, trees, all) && trees != []
    modifies q.Repr
    ensures fresh(q.Repr - old(q.Repr))
    ensures x == trees[0].data
    ensures Walking(q, shapes', L.Next(trees), all)
  {
    var p := DequeueRoot(q, shapes, trees, all);
    Subtrees(p, shapes[0], trees[0], all);
    x := p.data;
    shapes' := EnqueueChildren(q, p, shapes[0], trees[0], shapes[1..], trees[1..], all);
  }

  method StartQueue<T>(root: AvlNode<T>, ghost s: Shape<T>) returns (q: Queue<AvlNode<T>>)
    requires Holds(root, s)
    ensures fresh(q.Repr) && Walking(q, [s], [old(Value(s))], Nodes(s))
  {
    InHeap(s);
    q := new Queue<AvlNode<T>>();
    q.Enqueue(root);
    assert q.Contents() == [root];
  }

  /** The queue runs empty together with the trees it stands for. */
  lemma EmptyWhenDone<T>(q: Queue<AvlNode<T>>, shapes: seq<Shape<T>>, trees: seq<A.Tree<T>>, all: set<AvlNode<T>>)
    requires Walking(q, shapes, trees, all)
    ensures q.Valid() && (q.IsEmpty() <==> trees == [])
  {
  }

  /** One turn, seen from the loop: one datum less to emit, one node less to visit. */
  method VisitNext<T>(q: Queue<AvlNode<T>>, ghost shapes: seq<Shape<T>>, ghost trees: L.Forest<T>,
                      ghost all: set<AvlNode<T>>)
    returns (x: T, ghost shapes': seq<Shape<T>>, ghost trees': L.Forest<T>)
    requires Walking(q, shapes, trees, all) && trees != []
    modifies q.Repr
    ensures fresh(q.Repr - old(q.Repr)) && Walking(q, shapes', trees', all)
    ensures L.Walk(trees) == [x] + L.Walk(trees') && L.TotalSize(trees') < L.TotalSize(trees)
  {
    L.TurnShrinks(trees);
    trees' := L.Next(trees);
    x, shapes' := Turn(q, shapes, trees, all);
  }

  /** The loop, from any queue of subtrees. */
  method WalkQueue<T>(q: Queue<AvlNode<T>>, ghost shapes0: seq<Shape<T>>, ghost trees0: L.Forest<T>,
                      ghost all: set<AvlNode<T>>)
    returns (out: seq<T>)
    requires Walking(q, shapes0, trees0, all)
    modifies q.Repr
    ensures out == L.Walk(trees0)
  {
    ghost var shapes, trees := shapes0, trees0;
    out := [];
    EmptyWhenDone(q, shapes, trees, all);
    while !q.IsEmpty()
      invariant fresh(q.Repr - old(q.Repr)) && Walking(q, shapes, trees, all)
      invariant q.Valid() && (q.IsEmpty() <==> trees == [])
      invariant out + L.Walk(trees) == L.Walk(trees0)
      decreases L.TotalSize(trees)
    {
      var x;
      x, shapes, trees := VisitNext(q, shapes, trees, all);
      out := out + [x];
      EmptyWhenDone(q, shapes, trees, all);
    }
  }

  /** The walk emits exactly what the value of the tree says. */
  method LevelOrder<T>(root: AvlNode?<T>, ghost s: Shape<T>) returns (out: seq<T>)
    requires Holds(root, s)
    ensures out == old(L.LevelOrder(Value(s)))
  {
    HeightOfValue(root, s);
    if root == null { return []; }
    ghost var t := Value(s);
    var q := StartQueue(root, s);
    out := WalkQueue(q, [s], [t], Nodes(s));
  }

  class AvlTree<T(!new)> {
    const cmp: (T, T) -> int
    var root: AvlNode?<T>
    var count: int
    ghost var shape: Shape<T>
    ghost var destroyed: seq<T>

    /** What every operation keeps, also across deletions that leave heights stale. */
    ghost predicate Valid()
      reads this, Nodes(shape)
    {
      && Holds(root, shape)
      && TotalPreorder(cmp)
      && A.NonNegative(Value(shape))
      && Ordered()
    }

    ghost predicate Ordered()
      reads this, Nodes(shape)
    {
      A.Ordered(Value(shape), cmp)
    }

    /** The object as the runs of AvlRuns.dfy see it. */
    ghost function View(): R.Store<T>
      reads this, Nodes(shape)
    {
      R.Store(Value(shape), count, destroyed)
    }

    ghost function Contents(): seq<T>
      reads this, Nodes(shape)
    {
      A.Inorder(Value(shape))
    }

    constructor (cmp: (T, T) -> int)
      requires TotalPreorder(cmp)
      ensures Valid() && View() == R.Empty() && this.cmp == cmp && Nodes(shape) == {}
    {
      this.cmp := cmp;
      root, count, shape, destroyed := null, 0, Nil, [];
    }

    /** The critical sections of insertion and deletion: only nodes change, and count follows. An insertion that
        does not come back has ended the program on a NULL dereference. */
    method InsertData(data: T) returns (back: bool)
      requires Holds(root, shape)
      modifies this`root, this`shape, this`count, Nodes(shape)
      ensures back <==> old(A.InsertNode(Value(shape), data, cmp)).Some?
      ensures back ==>
                && Holds(root, shape) && fresh(Nodes(shape) - old(Nodes(shape)))
                && Value(shape) == old(A.InsertNode(Value(shape), data, cmp)).value && count == old(count) + 1
    {
      var r, s' := InsertNode(root, data, cmp, shape);
      if r == null { return false; }
      root, shape := r, s';
      count := count + 1;
      back := true;
    }

    method DeleteData(data: T) returns (found: bool, gone: seq<T>)
      requires Holds(root, shape) && A.NonNegative(Value(shape))
      modifies this`root, this`shape, this`count, Nodes(shape)
      ensures Holds(root, shape) && Nodes(shape) <= old(Nodes(shape))
      ensures A.Deletion(Value(shape), found, gone) == old(A.DeleteNode(Value(shape), data, cmp))
      ensures count == old(count) - if found then 1 else 0
    {
      root, found, gone, shape := DeleteNode(root, data, cmp, shape);
      if found {
        count := count - 1;
      }
    }

    /** It comes back unless it meets the duplicate hazard. */
    method Insert(data: T) returns (back: bool)
      requires Valid()
      modifies this, Nodes(shape)
      ensures back <==> old(!I.DuplicateHazard(Value(shape), data, cmp))
      ensures back ==>
                && Valid() && fresh(Nodes(shape) - old(Nodes(shape)))
                && R.Apply(old(View()), R.Insert(data), cmp) == Some(View())
                && Contents() == SortedInsert(old(Contents()), data, cmp)
    {
      I.InsertDefined(Value(shape), data, cmp);
      if !I.DuplicateHazard(Value(shape), data, cmp) { R.InsertStep(View(), data, cmp); }
      back := InsertData(data);
    }

    method Delete(data: T) returns (found: bool)
      requires Valid()
      modifies this, Nodes(shape)
      ensures Valid() && Nodes(shape) <= old(Nodes(shape))
      ensures R.Apply(old(View()), R.Delete(data), cmp) == Some(View())
      ensures Contents() == SortedRemove(old(Contents()), data, cmp)
      ensures found <==> Lookup(old(Contents()), data, cmp).Some?
    {
      D.DeleteContents(Value(shape), data, cmp);
      var gone;
      found, gone := DeleteData(data);
      destroyed := destroyed + gone;
    }

    method Find(data: T) returns (r: Option<T>)
      requires Valid()
      ensures r == Lookup(Contents(), data, cmp)
    {
      B.SearchFinds(Value(shape), data, cmp);
      r := Search(root, data, cmp, shape);
    }

    method TotalElements() returns (n: int)
      requires Valid()
      ensures n == |Contents()|
    {
      B.CountIsLength(Value(shape));
      n := Count(root, shape);
    }

    /** What the level-order walk writes out: every datum once, and, for a balanced tree, in an order from
        which insertion rebuilds the identical tree. */
    method Save() returns (out: seq<T>)
      requires Valid()
      ensures out == old(L.LevelOrder(Value(shape)))
      ensures multiset(out) == multiset(old(Contents()))
      ensures A.Balanced(old(Value(shape))) ==> S.InsertAll(A.Leaf, out, cmp) == Some(old(Value(shape)))
    {
      L.LevelOrderVisitsAll(Value(shape));
      if A.Balanced(Value(shape)) { S.ReloadRoundTrip(Value(shape), cmp); }
      out := LevelOrder(root, shape);
    }
  }
}
