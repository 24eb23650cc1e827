/** What deletion guarantees: contents on every ordered tree; on balanced trees, exactly when balance
    survives and how far heights can go stale when it does not. */
module AvlDelete {
  import opened Ordering
  import opened AvlTree
  import opened AvlInsert

  // ---- Contents ----

  lemma {:induction false} RemoveMinContents<T>(t: Tree<T>)
    requires t.Node?
    ensures Inorder(t) == [MinData(t)] + Inorder(RemoveMin(t))
  {
    if t.left.Node? {
      RemoveMinContents(t.left);
      assert Inorder(t) == [MinData(t.left)] + (Inorder(RemoveMin(t.left)) + [t.data] + Inorder(t.right));
    }
  }

  lemma RemoveRootContents<T>(t: Tree<T>)
    requires t.Node? && NonNegative(t)
    ensures Inorder(RemoveRoot(t)) == Inorder(t.left) + Inorder(t.right)
  {
    if t.left.Node? && t.right.Node? {
      RemoveMinContents(t.right);
      var r := RemoveRoot(t);
      assert Inorder(r) == Inorder(t.left) + ([MinData(t.right)] + Inorder(RemoveMin(t.right)));
    }
  }

  /** On every ordered tree, however stale its heights: found iff the element is there, exactly that
      datum is destroyed, and the rest stays in order. */
  lemma {:induction false} DeleteContents<T(!new)>(t: Tree<T>, x: T, cmp: (T, T) -> int)
    requires TotalPreorder(cmp) && Ordered(t, cmp) && NonNegative(t)
    ensures var d := DeleteNode(t, x, cmp);
            && Inorder(d.tree) == SortedRemove(Inorder(t), x, cmp)
            && Ordered(d.tree, cmp)
            && d.found == Lookup(Inorder(t), x, cmp).Some?
            && d.destroyed == (match Lookup(Inorder(t), x, cmp) case Some(e) => [e] case None => [])
  {
    if t.Node? {
      OrderedSubtrees(t, cmp);
      RemoveAtSplit(Inorder(t.left), t.data, Inorder(t.right), x, cmp);
      if cmp(x, t.data) < 0 {
        DeleteContents(t.left, x, cmp);
        RebalanceKeepsOrder(t.(left := DeleteNode(t.left, x, cmp).tree));
      } else if cmp(x, t.data) > 0 {
        DeleteContents(t.right, x, cmp);
        RebalanceKeepsOrder(t.(right := DeleteNode(t.right, x, cmp).tree));
      } else {
        RemoveRootContents(t);
        if RemoveRoot(t).Node? { RebalanceKeepsOrder(RemoveRoot(t)); }
      }
    }
    SortedRemoveAscends(Inorder(t), x, cmp);
  }

  /** Nothing is lost and nothing is destroyed twice: the data before are the data after plus the destroyed. */
  lemma DeleteConserves<T(!new)>(t: Tree<T>, x: T, cmp: (T, T) -> int)
    requires TotalPreorder(cmp) && Ordered(t, cmp) && NonNegative(t)
    ensures multiset(Inorder(t)) ==
            multiset(Inorder(DeleteNode(t, x, cmp).tree)) + multiset(DeleteNode(t, x, cmp).destroyed)
  {
    DeleteContents(t, x, cmp);
    SortedRemoveTakes(Inorder(t), x, cmp);
  }

  // ---- Balance ----

  /** The parent of the in-order successor, in a right subtree whose root is not the successor itself,
      has two children of equal height. */
  predicate EvenParent<T>(t: Tree<T>)
    requires t.Node? && t.left.Node?
  {
    if t.left.left.Leaf? then Height(t.left) == Height(t.right) else EvenParent(t.left)
  }

  /** The found node has two children and its successor lies deeper than its right child. */
  predicate DeepSuccessor<T>(t: Tree<T>)
    requires t.Node?
  {
    t.left.Node? && t.right.Node? && t.right.left.Node?
  }

  /** What a caller can check before deleting x: the node found, if its successor lies deep, has an even
      successor's parent. */
  predicate KeepsBalance<T>(t: Tree<T>, x: T, cmp: (T, T) -> int) {
    t.Node? ==>
      if cmp(x, t.data) < 0 then KeepsBalance(t.left, x, cmp)
      else if cmp(x, t.data) > 0 then KeepsBalance(t.right, x, cmp)
      else DeepSuccessor(t) ==> EvenParent(t.right)
  }

  /** x is found at a node whose successor lies deep. */
  predicate FoundDeep<T>(t: Tree<T>, x: T, cmp: (T, T) -> int) {
    t.Node? &&
    if cmp(x, t.data) < 0 then FoundDeep(t.left, x, cmp)
    else if cmp(x, t.data) > 0 then FoundDeep(t.right, x, cmp)
    else DeepSuccessor(t)
  }

  /** Splicing out the minimum below a left child never touches the stored height of the root, and is
      harmless exactly when the minimum's parent is even. */
  lemma {:induction false} RemoveMinBalanced<T>(t: Tree<T>)
    requires Balanced(t) && t.Node? && t.left.Node?
    ensures RemoveMin(t).Node? && RemoveMin(t).left == RemoveMin(t.left)
    ensures Height(RemoveMin(t)) == Height(t)
    ensures Balanced(RemoveMin(t)) <==> EvenParent(t)
  {
    BalancedHeights(t.left);
    BalancedHeights(t.right);
    if t.left.left.Node? {
      RemoveMinBalanced(t.left);
    } else {
      BalancedHeights(t.left.right);
    }
  }

  /** Removing the root of a balanced tree when the successor is not deep: one rebalancing at the root
      suffices, and the height drops by at most one. */
  lemma ShallowRemoveRoot<T>(t: Tree<T>)
    requires Balanced(t) && t.Node? && !DeepSuccessor(t)
    ensures var r := Rebalance(RemoveRoot(t));
            Balanced(r) && Height(t) - 1 <= Height(r) <= Height(t)
  {
    BalancedHeights(t.left);
    BalancedHeights(t.right);
    if t.left.Leaf? {
      RefreshBalanced(t.right);
    } else if t.right.Leaf? {
      RefreshBalanced(t.left);
    } else {
      BalancedHeights(t.right.right);
      RebalanceOneShort(RemoveRoot(t));
    }
  }

  lemma RefreshBalanced<T>(t: Tree<T>)
    requires Balanced(t)
    ensures Rebalance(t) == t
  {
  }

  /** Two balanced subtrees at most two apart are always brought back into balance. */
  lemma RebalanceOneShort<T>(t: Tree<T>)
    requires t.Node? && Balanced(t.left) && Balanced(t.right)
    requires -2 <= Height(t.left) - Height(t.right) <= 2
    ensures Balanced(Rebalance(t))
    ensures var m := Max(Height(t.left), Height(t.right)); m <= Height(Rebalance(t)) <= m + 1
    ensures -1 <= Height(t.left) - Height(t.right) <= 1 ==> Rebalance(t) == Refresh(t)
  {
    BalancedHeights(t.left);
    BalancedHeights(t.right);
    if Height(t.left) - Height(t.right) == 2 {
      LeftHeavy(t);
    } else if Height(t.right) - Height(t.left) == 2 {
      RightHeavy(t);
    }
  }

  lemma LeftHeavy<T>(t: Tree<T>)
    requires t.Node? && Balanced(t.left) && Balanced(t.right)
    requires Height(t.left) - Height(t.right) == 2
    ensures Balanced(Rebalance(t)) && Height(t.left) <= Height(Rebalance(t)) <= Height(t.left) + 1
  {
    BalancedHeights(t.right);
    BalancedHeights(t.left.left);
    BalancedHeights(t.left.right);
    if Height(t.left.left) < Height(t.left.right) {
      BalancedHeights(t.left.right.left);
      BalancedHeights(t.left.right.right);
    }
  }

  lemma RightHeavy<T>(t: Tree<T>)
    requires t.Node? && Balanced(t.left) && Balanced(t.right)
    requires Height(t.right) - Height(t.left) == 2
    ensures Balanced(Rebalance(t)) && Height(t.right) <= Height(Rebalance(t)) <= Height(t.right) + 1
  {
    BalancedHeights(t.left);
    BalancedHeights(t.right.left);
    BalancedHeights(t.right.right);
    if Height(t.right.right) < Height(t.right.left) {
      BalancedHeights(t.right.left.left);
      BalancedHeights(t.right.left.right);
    }
  }

  /** A subtree swapped for one with the same stored height sets off nothing. */
  lemma RebalanceQuiet<T>(t: Tree<T>, n: Tree<T>)
    requires Balanced(t) && t.Node? && n.Node?
    requires n.height == t.height && Height(n.left) == Height(t.left) && Height(n.right) == Height(t.right)
    requires NonNegative(n.left) && NonNegative(n.right)
    ensures Rebalance(n) == n
  {
  }

  /** How a changed subtree shows above it: a spliced one not at all, a balanced one by one rebalancing. */
  lemma LeftDeleteBalanced<T>(t: Tree<T>, l: Tree<T>)
    requires t.Node? && Balanced(t) && NonNegative(l) && Height(t.left) - 1 <= Height(l) <= Height(t.left)
    ensures Height(l) == Height(t.left) ==> Rebalance(t.(left := l)) == t.(left := l)
    ensures Balanced(l) ==>
              var r := Rebalance(t.(left := l)); Balanced(r) && Height(t) - 1 <= Height(r) <= Height(t)
  {
    BalancedHeights(t.right);
    if Height(l) == Height(t.left) { RebalanceQuiet(t, t.(left := l)); }
    if Balanced(l) { RebalanceOneShort(t.(left := l)); }
  }

  lemma RightDeleteBalanced<T>(t: Tree<T>, r: Tree<T>)
    requires t.Node? && Balanced(t) && NonNegative(r) && Height(t.right) - 1 <= Height(r) <= Height(t.right)
    ensures Height(r) == Height(t.right) ==> Rebalance(t.(right := r)) == t.(right := r)
    ensures Balanced(r) ==>
              var n := Rebalance(t.(right := r)); Balanced(n) && Height(t) - 1 <= Height(n) <= Height(t)
  {
    BalancedHeights(t.left);
    if Height(r) == Height(t.right) { RebalanceQuiet(t, t.(right := r)); }
    if Balanced(r) { RebalanceOneShort(t.(right := r)); }
  }

  /** Deletion from a balanced tree leaves a balanced tree if and only if the caller's check holds, and
      the height drops by at most one. When the successor lies deep no rotation fires on the way back up
      and no stored height moves. */
  lemma {:induction false} DeleteBalanced<T>(t: Tree<T>, x: T, cmp: (T, T) -> int)
    requires Balanced(t)
    ensures var r := DeleteNode(t, x, cmp).tree;
            && (Balanced(r) <==> KeepsBalance(t, x, cmp))
            && Height(t) - 1 <= Height(r) <= Height(t)
            && (!KeepsBalance(t, x, cmp) ==> FoundDeep(t, x, cmp))
            && (FoundDeep(t, x, cmp) ==> Height(r) == Height(t) && r == DeleteSpliced(t, x, cmp))
  {
    if t.Node? {
      if cmp(x, t.data) < 0 {
        DeleteBalanced(t.left, x, cmp);
        LeftDeleteBalanced(t, DeleteNode(t.left, x, cmp).tree);
      } else if cmp(x, t.data) > 0 {
        DeleteBalanced(t.right, x, cmp);
        RightDeleteBalanced(t, DeleteNode(t.right, x, cmp).tree);
      } else if DeepSuccessor(t) {
        RemoveMinBalanced(t.right);
        RebalanceQuiet(t, RemoveRoot(t));
      } else {
        ShallowRemoveRoot(t);
      }
    }
  }

  /** Deletion without any rotation or height update. */
  function DeleteSpliced<T>(t: Tree<T>, x: T, cmp: (T, T) -> int): Tree<T>
    requires NonNegative(t)
  {
    if t.Leaf? then Leaf
    else if cmp(x, t.data) < 0 then t.(left := DeleteSpliced(t.left, x, cmp))
    else if cmp(x, t.data) > 0 then t.(right := DeleteSpliced(t.right, x, cmp))
    else RemoveRoot(t)
  }

  // ---- How stale a deep deletion leaves the heights ----

  /** Every stored height is the true height or one more, and no true balance factor exceeds two. */
  predicate NearlyBalanced<T>(t: Tree<T>) {
    t.Node? ==>
      && TrueHeight(t) <= t.height <= TrueHeight(t) + 1
      && -2 <= TrueHeight(t.left) - TrueHeight(t.right) <= 2
      && NearlyBalanced(t.left) && NearlyBalanced(t.right)
  }

  lemma {:induction false} BalancedIsNearlyBalanced<T>(t: Tree<T>)
    requires Balanced(t)
    ensures NearlyBalanced(t)
  {
    if t.Node? {
      BalancedHeights(t);
      BalancedHeights(t.left);
      BalancedHeights(t.right);
      BalancedIsNearlyBalanced(t.left);
      BalancedIsNearlyBalanced(t.right);
    }
  }

  lemma {:induction false} RemoveMinNearlyBalanced<T>(t: Tree<T>)
    requires Balanced(t) && t.Node?
    ensures NearlyBalanced(RemoveMin(t))
    ensures TrueHeight(t) - 1 <= TrueHeight(RemoveMin(t)) <= TrueHeight(t)
  {
    BalancedHeights(t);
    BalancedHeights(t.left);
    BalancedHeights(t.right);
    BalancedIsNearlyBalanced(t.right);
    if t.left.Node? { RemoveMinNearlyBalanced(t.left); }
  }

  lemma {:induction false} DeleteNearlyBalanced<T>(t: Tree<T>, x: T, cmp: (T, T) -> int)
    requires Balanced(t)
    ensures NearlyBalanced(DeleteNode(t, x, cmp).tree)
  {
    DeleteBalanced(t, x, cmp);
    if KeepsBalance(t, x, cmp) {
      BalancedIsNearlyBalanced(DeleteNode(t, x, cmp).tree);
    } else {
      SplicedNearlyBalanced(t, x, cmp);
    }
  }

  lemma {:induction false} SplicedNearlyBalanced<T>(t: Tree<T>, x: T, cmp: (T, T) -> int)
    requires Balanced(t) && FoundDeep(t, x, cmp)
    ensures NearlyBalanced(DeleteSpliced(t, x, cmp))
    ensures TrueHeight(t) - 1 <= TrueHeight(DeleteSpliced(t, x, cmp)) <= TrueHeight(t)
  {
    BalancedHeights(t);
    BalancedHeights(t.left);
    BalancedHeights(t.right);
    BalancedIsNearlyBalanced(t.left);
    BalancedIsNearlyBalanced(t.right);
    if cmp(x, t.data) < 0 {
      SplicedNearlyBalanced(t.left, x, cmp);
    } else if cmp(x, t.data) > 0 {
      SplicedNearlyBalanced(t.right, x, cmp);
    } else {
      RemoveMinNearlyBalanced(t.right);
    }
  }
}
