/** The AVL tree as a value: what each C function computes, NULL being Leaf.
    The in-place version over linked nodes is in AvlNodes.dfy. */
module AvlTree {
  import opened Options
  import opened Ordering

  datatype Tree<T> =
    | Leaf
    | Node(left: Tree<T>, data: T, height: int, right: Tree<T>)

  function Max(a: int, b: int): int {
    if a > b then a else b
  }

  /** The height stored in the node. */
  function Height<T>(t: Tree<T>): int {
    if t.Leaf? then -1 else t.height
  }

  /** The node with its stored height recomputed from its children. */
  function Refresh<T>(t: Tree<T>): (r: Tree<T>)
    requires t.Node?
  {
    t.(height := 1 + Max(Height(t.left), Height(t.right)))
  }

  /** Heights start at zero and are only ever set to one more than a maximum. */
  predicate NonNegative<T>(t: Tree<T>) {
    t.Node? ==> t.height >= 0 && NonNegative(t.left) && NonNegative(t.right)
  }

  // ---- Rotations: Leaf stands for the NULL they return when there is nothing to rotate ----

  function RotateRight<T>(t: Tree<T>): (r: Tree<T>)
    ensures t.Node? && NonNegative(t.left) && NonNegative(t.right) ==> NonNegative(r)
  {
    if t.Leaf? || t.left.Leaf? then Leaf
    else Refresh(t.left.(right := Refresh(t.(left := t.left.right))))
  }

  function RotateLeft<T>(t: Tree<T>): (r: Tree<T>)
    ensures t.Node? && NonNegative(t.left) && NonNegative(t.right) ==> NonNegative(r)
  {
    if t.Leaf? || t.right.Leaf? then Leaf
    else Refresh(t.right.(left := Refresh(t.(right := t.right.left))))
  }

  function RotateLeftRight<T>(t: Tree<T>): (r: Tree<T>)
    requires t.Node?
    ensures NonNegative(t.left) && NonNegative(t.right) ==> NonNegative(r)
  {
    RotateRight(t.(left := RotateLeft(t.left)))
  }

  function RotateRightLeft<T>(t: Tree<T>): (r: Tree<T>)
    requires t.Node?
    ensures NonNegative(t.left) && NonNegative(t.right) ==> NonNegative(r)
  {
    RotateLeft(t.(right := RotateRight(t.right)))
  }

  // ---- Insertion ----

  /** The last assignment of an insertion step; None when it would dereference NULL. */
  function RefreshRoot<T>(t: Tree<T>): (r: Option<Tree<T>>)
    ensures r.Some? <==> t.Node?
  {
    if t.Leaf? then None else Some(Refresh(t))
  }

  /** Insertion. None is the run that dereferences a NULL a rotation has returned. */
  function InsertNode<T>(t: Tree<T>, x: T, cmp: (T, T) -> int): (r: Option<Tree<T>>)
    ensures r.Some? ==> r.value.Node?
  {
    if t.Leaf? then
      Some(Node(Leaf, x, 0, Leaf))
    else if cmp(x, t.data) < 0 then
      var l :- InsertNode(t.left, x, cmp);
      RefreshRoot(AfterLeftInsert(t.(left := l), x, cmp))
    else if cmp(x, t.data) > 0 then
      var r :- InsertNode(t.right, x, cmp);
      RefreshRoot(AfterRightInsert(t.(right := r), x, cmp))
    else
      RefreshRoot(t)
  }

  /** The rotation, if any, after x went into the left subtree: picked by comparing x again. */
  function AfterLeftInsert<T>(t: Tree<T>, x: T, cmp: (T, T) -> int): Tree<T>
    requires t.Node? && t.left.Node?
  {
    if Height(t.left) - Height(t.right) == 2 then
      if cmp(x, t.left.data) < 0 then RotateRight(t) else RotateLeftRight(t)
    else t
  }

  function AfterRightInsert<T>(t: Tree<T>, x: T, cmp: (T, T) -> int): Tree<T>
    requires t.Node? && t.right.Node?
  {
    if Height(t.right) - Height(t.left) == 2 then
      if cmp(x, t.right.data) > 0 then RotateLeft(t) else RotateRightLeft(t)
    else t
  }

  // ---- Deletion ----

  /** The tree left behind, what the call returns, and the data handed to the destroy callback, in order. */
  datatype Deletion<T> = Deletion(tree: Tree<T>, found: bool, destroyed: seq<T>)

  function DeleteNode<T>(t: Tree<T>, x: T, cmp: (T, T) -> int): (r: Deletion<T>)
    requires NonNegative(t)
    ensures NonNegative(r.tree)
  {
    if t.Leaf? then
      Deletion(Leaf, false, [])
    else if cmp(x, t.data) < 0 then
      var d := DeleteNode(t.left, x, cmp);
      d.(tree := Rebalance(t.(left := d.tree)))
    else if cmp(x, t.data) > 0 then
      var d := DeleteNode(t.right, x, cmp);
      d.(tree := Rebalance(t.(right := d.tree)))
    else
      Deletion(Rebalance(RemoveRoot(t)), true, [t.data])
  }

  /** Unlinks the found node, or overwrites it by its in-order successor and unlinks that one. */
  function RemoveRoot<T>(t: Tree<T>): (r: Tree<T>)
    requires t.Node? && NonNegative(t)
    ensures NonNegative(r)
  {
    if t.left.Leaf? then t.right
    else if t.right.Leaf? then t.left
    else t.(data := MinData(t.right), right := RemoveMin(t.right))
  }

  function MinData<T>(t: Tree<T>): T
    requires t.Node?
  {
    if t.left.Leaf? then t.data else MinData(t.left)
  }

  /** The successor's parent takes over its right child; no height on the way down is recomputed. */
  function RemoveMin<T>(t: Tree<T>): (r: Tree<T>)
    requires t.Node?
    ensures NonNegative(t) ==> NonNegative(r)
  {
    if t.left.Leaf? then t.right else t.(left := RemoveMin(t.left))
  }

  lemma NonNegativeHeight<T>(t: Tree<T>)
    requires NonNegative(t)
    ensures Height(t) >= -1 && (Height(t) >= 0 <==> t.Node?)
  {
  }

  /** Recomputes the height of the root and rotates by the stored heights of its grandchildren. */
  function Rebalance<T>(t: Tree<T>): (r: Tree<T>)
    requires t.Leaf? || (NonNegative(t.left) && NonNegative(t.right))
    ensures NonNegative(r)
  {
    if t.Leaf? then Leaf
    else
      var n := Refresh(t);
      var balance := Height(n.left) - Height(n.right);
      if balance > 1 then
        if Height(n.left.left) >= Height(n.left.right) then RotateRight(n)
        else RotateLeftRight(n)
      else if balance < -1 then
        if Height(n.right.right) >= Height(n.right.left) then RotateLeft(n)
        else RotateRightLeft(n)
      else n
  }

  // ---- Queries ----

  function Search<T>(t: Tree<T>, x: T, cmp: (T, T) -> int): Option<T> {
    if t.Leaf? then None
    else if cmp(t.data, x) == 0 then Some(t.data)
    else if cmp(t.data, x) < 0 then Search(t.right, x, cmp)
    else Search(t.left, x, cmp)
  }

  function Count<T>(t: Tree<T>): nat {
    if t.Leaf? then 0 else Count(t.left) + Count(t.right) + 1
  }

  function Inorder<T>(t: Tree<T>): seq<T> {
    if t.Leaf? then [] else Inorder(t.left) + [t.data] + Inorder(t.right)
  }

  // ---- Invariants ----

  ghost predicate Ordered<T>(t: Tree<T>, cmp: (T, T) -> int) {
    Ascending(Inorder(t), cmp)
  }

  /** The height by definition, whatever the nodes have stored. */
  function TrueHeight<T>(t: Tree<T>): int {
    if t.Leaf? then -1 else 1 + Max(TrueHeight(t.left), TrueHeight(t.right))
  }

  /** Every stored height is the true height and every balance factor is at most one. */
  predicate Balanced<T>(t: Tree<T>): (b: bool)
    ensures b ==> NonNegative(t)
  {
    t.Node? ==>
      && t.height == 1 + Max(Height(t.left), Height(t.right))
      && -1 <= Height(t.left) - Height(t.right) <= 1
      && Balanced(t.left) && Balanced(t.right)
  }

  lemma {:induction false} BalancedHeights<T>(t: Tree<T>)
    requires Balanced(t)
    ensures Height(t) == TrueHeight(t) >= -1
  {
    if t.Node? {
      BalancedHeights(t.left);
      BalancedHeights(t.right);
    }
  }

  // ---- Rotations keep the in-order sequence ----

  lemma Regroup<T>(a: seq<T>, x: T, b: seq<T>, y: T, c: seq<T>)
    ensures (a + [x] + b) + [y] + c == a + [x] + (b + [y] + c)
  {
  }

  lemma RotateRightKeepsOrder<T>(t: Tree<T>)
    requires t.Node? && t.left.Node?
    ensures RotateRight(t).Node? && Inorder(RotateRight(t)) == Inorder(t)
  {
    var l := t.left;
    var n := Refresh(t.(left := l.right));
    assert RotateRight(t) == Node(l.left, l.data, RotateRight(t).height, n);
    assert Inorder(n) == Inorder(l.right) + [t.data] + Inorder(t.right);
    Regroup(Inorder(l.left), l.data, Inorder(l.right), t.data, Inorder(t.right));
  }

  lemma RotateLeftKeepsOrder<T>(t: Tree<T>)
    requires t.Node? && t.right.Node?
    ensures RotateLeft(t).Node? && Inorder(RotateLeft(t)) == Inorder(t)
  {
    var r := t.right;
    var n := Refresh(t.(right := r.left));
    assert RotateLeft(t) == Node(n, r.data, RotateLeft(t).height, r.right);
    assert Inorder(n) == Inorder(t.left) + [t.data] + Inorder(r.left);
    Regroup(Inorder(t.left), t.data, Inorder(r.left), r.data, Inorder(r.right));
  }

  lemma RotateLeftRightKeepsOrder<T>(t: Tree<T>)
    requires t.Node? && t.left.Node? && t.left.right.Node?
    ensures RotateLeftRight(t).Node? && Inorder(RotateLeftRight(t)) == Inorder(t)
  {
    RotateLeftKeepsOrder(t.left);
    RotateRightKeepsOrder(t.(left := RotateLeft(t.left)));
  }

  lemma RotateRightLeftKeepsOrder<T>(t: Tree<T>)
    requires t.Node? && t.right.Node? && t.right.left.Node?
    ensures RotateRightLeft(t).Node? && Inorder(RotateRightLeft(t)) == Inorder(t)
  {
    RotateRightKeepsOrder(t.right);
    RotateLeftKeepsOrder(t.(right := RotateRight(t.right)));
  }

  /** Whatever the stored heights, the post-deletion rotations never meet a missing child and lose nothing. */
  lemma RebalanceKeepsOrder<T>(t: Tree<T>)
    requires t.Node? && NonNegative(t.left) && NonNegative(t.right)
    ensures Rebalance(t).Node? && Inorder(Rebalance(t)) == Inorder(t)
  {
    var n := Refresh(t);
    assert Inorder(n) == Inorder(t);
    NonNegativeHeight(n.left);
    NonNegativeHeight(n.right);
    var balance := Height(n.left) - Height(n.right);
    if balance > 1 {
      NonNegativeHeight(n.left.left);
      NonNegativeHeight(n.left.right);
      RotateRightKeepsOrder(n);
      if Height(n.left.left) < Height(n.left.right) { RotateLeftRightKeepsOrder(n); }
    } else if balance < -1 {
      NonNegativeHeight(n.right.left);
      NonNegativeHeight(n.right.right);
      RotateLeftKeepsOrder(n);
      if Height(n.right.right) < Height(n.right.left) { RotateRightLeftKeepsOrder(n); }
    }
  }
}
