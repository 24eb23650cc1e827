/** The breadth-first walk: what the queue-driven loop emits, and that it is the tree level by level. */
module AvlLevelOrder {
  import opened AvlTree

  /** The data at depth k, left to right. */
  function Level<T>(t: Tree<T>, k: nat): seq<T> {
    if t.Leaf? then []
    else if k == 0 then [t.data]
    else Level(t.left, k - 1) + Level(t.right, k - 1)
  }

  /** The levels from depth k on, one after the other. */
  function LevelsFrom<T>(t: Tree<T>, k: nat): seq<T>
    decreases TrueHeight(t) + 1 - k
  {
    if k > TrueHeight(t) then [] else Level(t, k) + LevelsFrom(t, k + 1)
  }

  // ---- The loop over a queue of subtrees ----

  type Forest<!T> = q: seq<Tree<T>> | forall i :: 0 <= i < |q| ==> q[i].Node? witness []

  function Size<T>(t: Tree<T>): (n: nat)
    ensures t.Node? <==> n > 0
  {
    if t.Leaf? then 0 else 1 + Size(t.left) + Size(t.right)
  }

  function TotalSize<T>(q: seq<Tree<T>>): nat {
    if q == [] then 0 else Size(q[0]) + TotalSize(q[1..])
  }

  /** A child goes on the queue only if there is one. */
  function Maybe<T>(t: Tree<T>): Forest<T> {
    if t.Node? then [t] else []
  }

  /** The children a node puts on the queue. */
  function Children<T>(t: Tree<T>): Forest<T>
    requires t.Node?
  {
    Maybe(t.left) + Maybe(t.right)
  }

  lemma {:induction false} TotalSizeAppend<T>(p: seq<Tree<T>>, q: seq<Tree<T>>)
    ensures TotalSize(p + q) == TotalSize(p) + TotalSize(q)
  {
    if p == [] {
      assert p + q == q;
    } else {
      assert (p + q)[1..] == p[1..] + q;
      TotalSizeAppend(p[1..], q);
    }
  }

  lemma ChildrenSize<T>(t: Tree<T>)
    requires t.Node?
    ensures TotalSize(Children(t)) == Size(t) - 1
  {
    var l, r := Maybe(t.left), Maybe(t.right);
    TotalSizeAppend(l, r);
    assert l != [] ==> l[1..] == [];
    assert r != [] ==> r[1..] == [];
  }

  /** The queue after one turn of the loop. */
  function Next<T>(q: Forest<T>): Forest<T>
    requires q != []
  {
    q[1..] + Children(q[0])
  }

  lemma TurnShrinks<T>(q: Forest<T>)
    requires q != []
    ensures TotalSize(Next(q)) == TotalSize(q) - 1
  {
    ChildrenSize(q[0]);
    TotalSizeAppend(q[1..], Children(q[0]));
  }

  /** What the loop emits from a given queue: it ends because each turn removes one node from the total. */
  function Walk<T>(q: Forest<T>): seq<T>
    decreases TotalSize(q)
  {
    if q == [] then []
    else
      TurnShrinks(q);
      [q[0].data] + Walk(Next(q))
  }

  function LevelOrder<T>(t: Tree<T>): seq<T> {
    if t.Leaf? then [] else Walk([t])
  }

  // ---- Level by level ----

  function Roots<T>(q: Forest<T>): seq<T> {
    if q == [] then [] else [q[0].data] + Roots(q[1..])
  }

  function AllChildren<T>(q: Forest<T>): Forest<T> {
    if q == [] then [] else Children(q[0]) + AllChildren(q[1..])
  }

  function ForestLevel<T>(q: seq<Tree<T>>, k: nat): seq<T> {
    if q == [] then [] else Level(q[0], k) + ForestLevel(q[1..], k)
  }

  lemma Requeue<X>(q: seq<X>, next: seq<X>, children: seq<X>, others: seq<X>)
    requires q != []
    ensures (q + next)[0] == q[0]
    ensures (q + next)[1..] + children == q[1..] + (next + children)
    ensures (next + children) + others == next + (children + others)
  {
  }

  /** With the rest of one level and the beginning of the next on the queue, the loop first finishes the
      level, collecting its children behind. */
  lemma {:induction false} WalkFinishesLevel<T>(q: Forest<T>, next: Forest<T>)
    ensures Walk(q + next) == Roots(q) + Walk(next + AllChildren(q))
    decreases |q|
  {
    if q == [] {
      assert q + next == next && next + AllChildren(q) == next;
    } else {
      var rest: Forest<T> := q[1..];
      var behind: Forest<T> := next + Children(q[0]);
      Requeue(q, next, Children(q[0]), AllChildren(rest));
      WalkFinishesLevel(rest, behind);
    }
  }

  lemma {:induction false} ForestLevelAppend<T>(p: seq<Tree<T>>, q: seq<Tree<T>>, k: nat)
    ensures ForestLevel(p + q, k) == ForestLevel(p, k) + ForestLevel(q, k)
  {
    if p == [] {
      assert p + q == q;
    } else {
      assert (p + q)[1..] == p[1..] + q;
      ForestLevelAppend(p[1..], q, k);
    }
  }

  lemma ChildrenLevel<T>(t: Tree<T>, k: nat)
    requires t.Node?
    ensures ForestLevel(Children(t), k) == Level(t, k + 1)
  {
    var l, r := Maybe(t.left), Maybe(t.right);
    ForestLevelAppend(l, r, k);
    assert l != [] ==> l[1..] == [];
    assert r != [] ==> r[1..] == [];
    assert Level(t.left, k) + [] == Level(t.left, k) && Level(t.right, k) + [] == Level(t.right, k);
  }

  lemma {:induction false} NextLevel<T>(q: Forest<T>, k: nat)
    ensures ForestLevel(AllChildren(q), k) == ForestLevel(q, k + 1)
    ensures ForestLevel(q, 0) == Roots(q)
    decreases |q|
  {
    if q != [] {
      var rest: Forest<T> := q[1..];
      NextLevel(rest, k);
      ChildrenLevel(q[0], k);
      ForestLevelAppend(Children(q[0]), AllChildren(rest), k);
    }
  }

  /** q holds exactly the subtrees of t at depth k. */
  ghost predicate HoldsDepth<T>(q: Forest<T>, t: Tree<T>, k: nat) {
    forall j: nat :: ForestLevel(q, j) == Level(t, k + j)
  }

  lemma {:induction false} LevelsEnd<T>(t: Tree<T>, k: nat)
    ensures Level(t, k) == [] <==> k > TrueHeight(t)
  {
    if t.Node? && k > 0 {
      LevelsEnd(t.left, k - 1);
      LevelsEnd(t.right, k - 1);
    } else if t.Node? {
      TrueHeightOfNode(t);
    }
  }

  lemma {:induction false} TrueHeightOfNode<T>(t: Tree<T>)
    ensures TrueHeight(t) >= -1 && (t.Node? ==> TrueHeight(t) >= 0)
  {
    if t.Node? {
      TrueHeightOfNode(t.left);
      TrueHeightOfNode(t.right);
    }
  }

  lemma NextDepth<T>(q: Forest<T>, t: Tree<T>, k: nat)
    requires HoldsDepth(q, t, k)
    ensures HoldsDepth(AllChildren(q), t, k + 1)
  {
    forall j: nat ensures ForestLevel(AllChildren(q), j) == Level(t, k + 1 + j) {
      NextLevel(q, j);
      assert ForestLevel(q, j + 1) == Level(t, k + (j + 1));
    }
  }

  lemma {:induction false} WalkIsLevels<T>(q: Forest<T>, t: Tree<T>, k: nat)
    requires HoldsDepth(q, t, k)
    ensures Walk(q) == LevelsFrom(t, k)
    decreases TrueHeight(t) + 1 - k
  {
    LevelsEnd(t, k);
    assert ForestLevel(q, 0) == Level(t, k);
    NextLevel(q, 0);
    if k <= TrueHeight(t) {
      var next := AllChildren(q);
      NextDepth(q, t, k);
      WalkIsLevels(next, t, k + 1);
      WalkFinishesLevel(q, []);
      assert q + [] == q && [] + next == next;
    }
  }

  /** The walk emits the levels of the tree from the root down, each from left to right. */
  lemma LevelOrderIsLevels<T>(t: Tree<T>)
    ensures LevelOrder(t) == LevelsFrom(t, 0)
  {
    if t.Leaf? {
      assert LevelOrder(t) == [];
    } else {
      forall j: nat ensures ForestLevel([t], j) == Level(t, 0 + j) {
        assert [t][1..] == [];
        assert ForestLevel([t], j) == Level(t, j) + [];
      }
      WalkIsLevels([t], t, 0);
    }
  }

  // ---- Every node exactly once ----

  function ForestData<T>(q: seq<Tree<T>>): multiset<T> {
    if q == [] then multiset{} else multiset(Inorder(q[0])) + ForestData(q[1..])
  }

  lemma {:induction false} ForestDataAppend<T>(p: seq<Tree<T>>, q: seq<Tree<T>>)
    ensures ForestData(p + q) == ForestData(p) + ForestData(q)
  {
    if p == [] {
      assert p + q == q;
    } else {
      assert (p + q)[1..] == p[1..] + q;
      ForestDataAppend(p[1..], q);
    }
  }

  lemma OneTreeData<T>(t: Tree<T>)
    ensures ForestData(Maybe(t)) == multiset(Inorder(t))
  {
    assert [t][1..] == [];
  }

  lemma ChildrenData<T>(t: Tree<T>)
    requires t.Node?
    ensures multiset(Inorder(t)) == multiset{t.data} + ForestData(Children(t))
  {
    var l, r := Maybe(t.left), Maybe(t.right);
    OneTreeData(t.left);
    OneTreeData(t.right);
    ForestDataAppend(l, r);
    MiddleOut(Inorder(t.left), t.data, Inorder(t.right));
  }

  lemma MiddleOut<T>(a: seq<T>, d: T, b: seq<T>)
    ensures multiset(a + [d] + b) == multiset{d} + (multiset(a) + multiset(b))
  {
  }

  lemma {:induction false} WalkVisitsAll<T>(q: Forest<T>)
    ensures multiset(Walk(q)) == ForestData(q)
    decreases TotalSize(q)
  {
    if q != [] {
      TurnShrinks(q);
      WalkVisitsAll(Next(q));
      ChildrenData(q[0]);
      ForestDataAppend(q[1..], Children(q[0]));
    }
  }

  /** The walk emits every datum of the tree exactly once. */
  lemma LevelOrderVisitsAll<T>(t: Tree<T>)
    ensures multiset(LevelOrder(t)) == multiset(Inorder(t))
  {
    if t.Node? {
      WalkVisitsAll([t]);
      assert [t][1..] == [];
    }
  }
}
