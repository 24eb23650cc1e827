/** The shape and the stored heights an insertion or a deletion leaves, on any tree however stale its heights: which
    subtrees end up where, read off the pieces that were there before. */
module AvlShape {
  import opened Options
  import opened AvlTree

  /** A node over two subtrees, with the height their stored heights ask for. */
  ghost predicate Joins<T>(n: Tree<T>, l: Tree<T>, x: T, r: Tree<T>) {
    n.Node? && n.left == l && n.data == x && n.right == r && n.height == 1 + Max(Height(l), Height(r))
  }

  /** The left child took over, and x went down on the right. */
  ghost predicate LeftOnTop<T>(n: Tree<T>, l: Tree<T>, x: T, r: Tree<T>) {
    l.Node? && n.Node? && Joins(n.right, l.right, x, r) && Joins(n, l.left, l.data, n.right)
  }

  /** The left child's right child took over, x went down on the right, and the left child stays on the left. */
  ghost predicate LeftInnerOnTop<T>(n: Tree<T>, l: Tree<T>, x: T, r: Tree<T>) {
    && l.Node? && l.right.Node? && n.Node?
    && Joins(n.left, l.left, l.data, l.right.left) && Joins(n.right, l.right.right, x, r)
    && Joins(n, n.left, l.right.data, n.right)
  }

  ghost predicate RightOnTop<T>(n: Tree<T>, l: Tree<T>, x: T, r: Tree<T>) {
    r.Node? && n.Node? && Joins(n.left, l, x, r.left) && Joins(n, n.left, r.data, r.right)
  }

  ghost predicate RightInnerOnTop<T>(n: Tree<T>, l: Tree<T>, x: T, r: Tree<T>) {
    && r.Node? && r.left.Node? && n.Node?
    && Joins(n.left, l, x, r.left.left) && Joins(n.right, r.left.right, r.data, r.right)
    && Joins(n, n.left, r.left.data, n.right)
  }

  // ---- Deletion ----

  /** What a deletion makes of x over two subtrees. If their stored heights differ by more than one, by however much,
      x goes down on the lower side, below the higher child or below that one's inner child, by which grandchild has
      more stored; otherwise x keeps its place. Either way the heights of the nodes touched are exact. */
  ghost predicate Settled<T>(n: Tree<T>, l: Tree<T>, x: T, r: Tree<T>) {
    if Height(l) > Height(r) + 1 then
      l.Node? && if Height(l.left) >= Height(l.right) then LeftOnTop(n, l, x, r) else LeftInnerOnTop(n, l, x, r)
    else if Height(r) > Height(l) + 1 then
      r.Node? && if Height(r.right) >= Height(r.left) then RightOnTop(n, l, x, r) else RightInnerOnTop(n, l, x, r)
    else
      Joins(n, l, x, r)
  }

  /** Deletion on every tree with non-negative heights: at each node of the search path, at the found one, and at the
      only child that replaces it. */
  lemma DeleteShape<T>(t: Tree<T>, x: T, cmp: (T, T) -> int)
    requires NonNegative(t) && t.Node?
    ensures var n := DeleteNode(t, x, cmp).tree;
            if cmp(x, t.data) < 0 then Settled(n, DeleteNode(t.left, x, cmp).tree, t.data, t.right)
            else if cmp(x, t.data) > 0 then Settled(n, t.left, t.data, DeleteNode(t.right, x, cmp).tree)
            else if t.left.Node? && t.right.Node? then Settled(n, t.left, MinData(t.right), RemoveMin(t.right))
            else if t.right.Node? then Settled(n, t.right.left, t.right.data, t.right.right)
            else if t.left.Node? then Settled(n, t.left.left, t.left.data, t.left.right)
            else n == Leaf
  {
    if cmp(x, t.data) < 0 {
      RebalanceSettles(t.(left := DeleteNode(t.left, x, cmp).tree));
    } else if cmp(x, t.data) > 0 {
      RebalanceSettles(t.(right := DeleteNode(t.right, x, cmp).tree));
    } else if RemoveRoot(t).Node? {
      RebalanceSettles(RemoveRoot(t));
    }
  }

  lemma RebalanceSettles<T>(t: Tree<T>)
    requires t.Node? && NonNegative(t.left) && NonNegative(t.right)
    ensures Settled(Rebalance(t), t.left, t.data, t.right)
  {
    NonNegativeHeight(t.left);
    NonNegativeHeight(t.right);
    if t.left.Node? {
      NonNegativeHeight(t.left.left);
      NonNegativeHeight(t.left.right);
    }
    if t.right.Node? {
      NonNegativeHeight(t.right.left);
      NonNegativeHeight(t.right.right);
    }
  }

  // ---- Splicing out the successor ----

  /** Data and stored heights, node by node from left to right, and root before subtrees. */
  function Inner<T>(t: Tree<T>): seq<(T, int)> {
    if t.Leaf? then [] else Inner(t.left) + [(t.data, t.height)] + Inner(t.right)
  }

  function Outer<T>(t: Tree<T>): seq<(T, int)> {
    if t.Leaf? then [] else [(t.data, t.height)] + Outer(t.left) + Outer(t.right)
  }

  /** The place of the leftmost node when roots come before subtrees: below all of its ancestors. */
  function Leftmost<T>(t: Tree<T>): (k: nat)
    requires t.Node?
    ensures k < |Outer(t)|
  {
    if t.left.Leaf? then 0 else 1 + Leftmost(t.left)
  }

  function Without<X>(s: seq<X>, k: nat): seq<X>
    requires k < |s|
  {
    s[..k] + s[k + 1..]
  }

  lemma WithoutInside<X>(root: X, a: seq<X>, k: nat, b: seq<X>)
    requires k < |a|
    ensures ([root] + a + b)[k + 1] == a[k] && Without([root] + a + b, k + 1) == [root] + Without(a, k) + b
  {
    assert ([root] + a + b)[..k + 1] == [root] + a[..k];
    assert ([root] + a + b)[k + 2..] == a[k + 1..] + b;
  }

  lemma FirstGone<X>(a: seq<X>, b: seq<X>)
    requires a != []
    ensures (a + b)[0] == a[0] && (a + b)[1..] == a[1..] + b
  {
  }

  lemma {:induction false} RemoveMinInner<T>(t: Tree<T>)
    requires t.Node?
    ensures Inner(t) != [] && Inner(t)[0].0 == MinData(t) && Inner(RemoveMin(t)) == Inner(t)[1..]
  {
    if t.left.Node? {
      RemoveMinInner(t.left);
      FirstGone(Inner(t.left), [(t.data, t.height)]);
      FirstGone(Inner(t.left) + [(t.data, t.height)], Inner(t.right));
    }
  }

  lemma {:induction false} RemoveMinOuter<T>(t: Tree<T>)
    requires t.Node?
    ensures Inner(t) != [] && Outer(t)[Leftmost(t)] == Inner(t)[0]
    ensures Outer(RemoveMin(t)) == Without(Outer(t), Leftmost(t))
  {
    if t.left.Node? {
      RemoveMinOuter(t.left);
      WithoutInside((t.data, t.height), Outer(t.left), Leftmost(t.left), Outer(t.right));
      FirstGone(Inner(t.left), [(t.data, t.height)]);
      FirstGone(Inner(t.left) + [(t.data, t.height)], Inner(t.right));
    }
  }

  /** Exactly the leftmost node is gone, in either order of looking; no other datum or stored height has moved. */
  lemma RemoveMinKeeps<T>(t: Tree<T>)
    requires t.Node?
    ensures Inner(t) != [] && Inner(t)[0].0 == MinData(t) && Inner(RemoveMin(t)) == Inner(t)[1..]
    ensures Outer(t)[Leftmost(t)] == Inner(t)[0] && Outer(RemoveMin(t)) == Without(Outer(t), Leftmost(t))
  {
    RemoveMinInner(t);
    RemoveMinOuter(t);
  }

  // ---- Insertion ----

  /** What an insertion of x leaves over the left subtree after it took x in, or that it ends on a NULL. Only a
      difference of exactly two rotates, and comparing x again picks how. */
  ghost predicate LeftGrew<T>(n: Option<Tree<T>>, l: Tree<T>, x: T, t: Tree<T>, cmp: (T, T) -> int)
    requires t.Node? && l.Node?
  {
    if Height(l) != Height(t.right) + 2 then n.Some? && Joins(n.value, l, t.data, t.right)
    else if cmp(x, l.data) < 0 then n.Some? && LeftOnTop(n.value, l, t.data, t.right)
    else if l.right.Node? then n.Some? && LeftInnerOnTop(n.value, l, t.data, t.right)
    else n.None?
  }

  ghost predicate RightGrew<T>(n: Option<Tree<T>>, r: Tree<T>, x: T, t: Tree<T>, cmp: (T, T) -> int)
    requires t.Node? && r.Node?
  {
    if Height(r) != Height(t.left) + 2 then n.Some? && Joins(n.value, t.left, t.data, r)
    else if cmp(x, r.data) > 0 then n.Some? && RightOnTop(n.value, t.left, t.data, r)
    else if r.left.Node? then n.Some? && RightInnerOnTop(n.value, t.left, t.data, r)
    else n.None?
  }

  /** Insertion on every tree: at each node of the search path, at a missing one, and at one that is equal. */
  lemma InsertShape<T>(t: Tree<T>, x: T, cmp: (T, T) -> int)
    ensures var n := InsertNode(t, x, cmp);
            if t.Leaf? then n.Some? && Joins(n.value, Leaf, x, Leaf)
            else if cmp(x, t.data) < 0 then
              var l := InsertNode(t.left, x, cmp);
              if l.Some? then LeftGrew(n, l.value, x, t, cmp) else n.None?
            else if cmp(x, t.data) > 0 then
              var r := InsertNode(t.right, x, cmp);
              if r.Some? then RightGrew(n, r.value, x, t, cmp) else n.None?
            else n.Some? && Joins(n.value, t.left, t.data, t.right)
  {
    if t.Node? && cmp(x, t.data) < 0 {
      if InsertNode(t.left, x, cmp).Some? { LeftSettles(t, InsertNode(t.left, x, cmp).value, x, cmp); }
    } else if t.Node? && cmp(x, t.data) > 0 {
      if InsertNode(t.right, x, cmp).Some? { RightSettles(t, InsertNode(t.right, x, cmp).value, x, cmp); }
    }
  }

  lemma LeftSettles<T>(t: Tree<T>, l: Tree<T>, x: T, cmp: (T, T) -> int)
    requires t.Node? && l.Node?
    ensures LeftGrew(RefreshRoot(AfterLeftInsert(t.(left := l), x, cmp)), l, x, t, cmp)
  {
  }

  lemma RightSettles<T>(t: Tree<T>, r: Tree<T>, x: T, cmp: (T, T) -> int)
    requires t.Node? && r.Node?
    ensures RightGrew(RefreshRoot(AfterRightInsert(t.(right := r), x, cmp)), r, x, t, cmp)
  {
  }
}
