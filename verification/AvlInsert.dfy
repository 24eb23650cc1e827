/** What insertion guarantees: contents and exact definedness on every ordered tree, however stale its
    heights; balance, growth and the choice of rotation on balanced trees. */
module AvlInsert {
  import opened Options
  import opened Ordering
  import opened AvlTree

  // ---- Contents ----

  /** If the call survives, the in-order sequence becomes what sorted insertion makes of it. */
  lemma {:induction false} InsertContents<T(!new)>(t: Tree<T>, x: T, cmp: (T, T) -> int)
    requires TotalPreorder(cmp) && Ordered(t, cmp)
    requires InsertNode(t, x, cmp).Some?
    ensures Inorder(InsertNode(t, x, cmp).value) == SortedInsert(Inorder(t), x, cmp)
    ensures Ordered(InsertNode(t, x, cmp).value, cmp)
  {
    if t.Node? {
      OrderedSubtrees(t, cmp);
      InsertAtSplit(Inorder(t.left), t.data, Inorder(t.right), x, cmp);
      if cmp(x, t.data) < 0 {
        InsertContents(t.left, x, cmp);
        AfterLeftInsertKeepsOrder(t.(left := InsertNode(t.left, x, cmp).value), x, cmp);
      } else if cmp(x, t.data) > 0 {
        InsertContents(t.right, x, cmp);
        AfterRightInsertKeepsOrder(t.(right := InsertNode(t.right, x, cmp).value), x, cmp);
      }
    }
    SortedInsertAscends(Inorder(t), x, cmp);
  }

  lemma OrderedSubtrees<T(!new)>(t: Tree<T>, cmp: (T, T) -> int)
    requires TotalPreorder(cmp) && t.Node?
    ensures Ordered(t, cmp) <==>
            && Ordered(t.left, cmp) && Below(Inorder(t.left), t.data, cmp)
            && Above(t.data, Inorder(t.right), cmp) && Ordered(t.right, cmp)
  {
    AscendingSplit(Inorder(t.left), t.data, Inorder(t.right), cmp);
  }

  lemma AfterLeftInsertKeepsOrder<T>(t: Tree<T>, x: T, cmp: (T, T) -> int)
    requires t.Node? && t.left.Node? && AfterLeftInsert(t, x, cmp).Node?
    ensures Inorder(Refresh(AfterLeftInsert(t, x, cmp))) == Inorder(t)
  {
    RotateRightKeepsOrder(t);
    if t.left.right.Node? { RotateLeftRightKeepsOrder(t); }
  }

  lemma AfterRightInsertKeepsOrder<T>(t: Tree<T>, x: T, cmp: (T, T) -> int)
    requires t.Node? && t.right.Node? && AfterRightInsert(t, x, cmp).Node?
    ensures Inorder(Refresh(AfterRightInsert(t, x, cmp))) == Inorder(t)
  {
    RotateLeftKeepsOrder(t);
    if t.right.left.Node? { RotateRightLeftKeepsOrder(t); }
  }

  lemma {:induction false} InsertNonNegative<T>(t: Tree<T>, x: T, cmp: (T, T) -> int)
    requires NonNegative(t) && InsertNode(t, x, cmp).Some?
    ensures NonNegative(InsertNode(t, x, cmp).value)
  {
    if t.Node? {
      if cmp(x, t.data) < 0 { InsertNonNegative(t.left, x, cmp); }
      else if cmp(x, t.data) > 0 { InsertNonNegative(t.right, x, cmp); }
    }
  }

  // ---- Exactly when insertion runs into a NULL ----

  /** x is already stored in the child c, c has no subtree on its inner side, and next to a sibling of
      stored height h the height c is about to be given makes the parent rotate through that side. */
  predicate RotatesThroughMissing<T>(c: Tree<T>, inner: Tree<T>, outer: Tree<T>, h: int, x: T, cmp: (T, T) -> int)
    requires c.Node?
  {
    cmp(x, c.data) == 0 && inner.Leaf? && 1 + Height(outer) - h == 2
  }

  /** Some node on the search path is about to rotate through a missing grandchild. */
  predicate DuplicateHazard<T>(t: Tree<T>, x: T, cmp: (T, T) -> int) {
    t.Node? &&
    if cmp(x, t.data) < 0 then
      || DuplicateHazard(t.left, x, cmp)
      || (t.left.Node? && RotatesThroughMissing(t.left, t.left.right, t.left.left, Height(t.right), x, cmp))
    else if cmp(x, t.data) > 0 then
      || DuplicateHazard(t.right, x, cmp)
      || (t.right.Node? && RotatesThroughMissing(t.right, t.right.left, t.right.right, Height(t.left), x, cmp))
    else false
  }

  /** On any ordered tree, however stale its heights, insertion dereferences NULL exactly on a hazard. */
  lemma {:induction false} InsertDefined<T(!new)>(t: Tree<T>, x: T, cmp: (T, T) -> int)
    requires TotalPreorder(cmp) && Ordered(t, cmp) && NonNegative(t)
    ensures InsertNode(t, x, cmp).None? <==> DuplicateHazard(t, x, cmp)
  {
    if t.Node? {
      OrderedSubtrees(t, cmp);
      if cmp(x, t.data) < 0 {
        InsertDefined(t.left, x, cmp);
        if InsertNode(t.left, x, cmp).Some? { LeftInsertDefined(t, x, cmp); }
      } else if cmp(x, t.data) > 0 {
        InsertDefined(t.right, x, cmp);
        if InsertNode(t.right, x, cmp).Some? { RightInsertDefined(t, x, cmp); }
      }
    }
  }

  lemma LeftInsertDefined<T(!new)>(t: Tree<T>, x: T, cmp: (T, T) -> int)
    requires TotalPreorder(cmp) && t.Node? && Ordered(t.left, cmp) && NonNegative(t)
    requires InsertNode(t.left, x, cmp).Some?
    ensures AfterLeftInsert(t.(left := InsertNode(t.left, x, cmp).value), x, cmp).Leaf? <==>
            t.left.Node? && RotatesThroughMissing(t.left, t.left.right, t.left.left, Height(t.right), x, cmp)
  {
    var l := InsertNode(t.left, x, cmp).value;
    NonNegativeHeight(t.right);
    if t.left.Node? {
      NonNegativeHeight(t.left.left);
      if cmp(x, t.left.data) != 0 {
        InnerGrandchildren(t.left, x, cmp);
      }
    }
  }

  lemma RightInsertDefined<T(!new)>(t: Tree<T>, x: T, cmp: (T, T) -> int)
    requires TotalPreorder(cmp) && t.Node? && Ordered(t.right, cmp) && NonNegative(t)
    requires InsertNode(t.right, x, cmp).Some?
    ensures AfterRightInsert(t.(right := InsertNode(t.right, x, cmp).value), x, cmp).Leaf? <==>
            t.right.Node? && RotatesThroughMissing(t.right, t.right.left, t.right.right, Height(t.left), x, cmp)
  {
    var r := InsertNode(t.right, x, cmp).value;
    NonNegativeHeight(t.left);
    if t.right.Node? {
      NonNegativeHeight(t.right.right);
      if cmp(x, t.right.data) != 0 {
        InnerGrandchildren(t.right, x, cmp);
      }
    }
  }

  /** Once x has gone below the root of t, the subtree on x's side of the new root is not empty. */
  lemma InnerGrandchildren<T(!new)>(t: Tree<T>, x: T, cmp: (T, T) -> int)
    requires TotalPreorder(cmp) && t.Node? && Ordered(t, cmp)
    requires cmp(x, t.data) != 0 && InsertNode(t, x, cmp).Some?
    ensures var r := InsertNode(t, x, cmp).value;
            && (cmp(x, r.data) >= 0 ==> r.right.Node?)
            && (cmp(x, r.data) <= 0 ==> r.left.Node?)
  {
    var r := InsertNode(t, x, cmp).value;
    if cmp(x, r.data) == 0 {
      NewRootIsInner(t, x, cmp);
    } else {
      InsertContents(t, x, cmp);
      Present(Inorder(t), x, cmp);
      PresentOnItsSide(r, x, cmp);
    }
  }

  /** Only a double rotation brings x to the root, and it puts the old root and its child below. */
  lemma NewRootIsInner<T>(t: Tree<T>, x: T, cmp: (T, T) -> int)
    requires t.Node? && cmp(x, t.data) != 0 && InsertNode(t, x, cmp).Some?
    requires cmp(x, InsertNode(t, x, cmp).value.data) == 0
    ensures InsertNode(t, x, cmp).value.left.Node? && InsertNode(t, x, cmp).value.right.Node?
  {
  }

  lemma PresentOnItsSide<T(!new)>(r: Tree<T>, x: T, cmp: (T, T) -> int)
    requires TotalPreorder(cmp) && r.Node? && Ordered(r, cmp) && cmp(x, r.data) != 0
    requires exists e :: e in Inorder(r) && cmp(x, e) == 0
    ensures cmp(x, r.data) > 0 ==> r.right.Node?
    ensures cmp(x, r.data) < 0 ==> r.left.Node?
  {
    OrderedSubtrees(r, cmp);
    var e :| e in Inorder(r) && cmp(x, e) == 0;
    assert e in Inorder(r.left) || e == r.data || e in Inorder(r.right);
    LessTransitive(cmp, x, e, r.data);
    LessTransitive(cmp, r.data, e, x);
  }

  lemma {:induction false} Present<T(!new)>(s: seq<T>, x: T, cmp: (T, T) -> int)
    requires TotalPreorder(cmp)
    ensures exists e :: e in SortedInsert(s, x, cmp) && cmp(x, e) == 0
  {
    var r := SortedInsert(s, x, cmp);
    if s == [] || cmp(x, s[0]) <= 0 {
      assert r[0] in r && cmp(x, r[0]) == 0;
    } else {
      Present(s[1..], x, cmp);
      var e :| e in SortedInsert(s[1..], x, cmp) && cmp(x, e) == 0;
      assert e in r;
    }
  }

  // ---- Balance ----

  /** The height added by an insertion and the side of the root that carries it. */
  ghost predicate GrewTowards<T>(t: Tree<T>, r: Tree<T>, x: T, cmp: (T, T) -> int)
    requires t.Node? && r.Node?
  {
    && r.data == t.data && cmp(x, t.data) != 0
    && (cmp(x, t.data) < 0 ==> Height(r.left) == Height(r.right) + 1)
    && (cmp(x, t.data) > 0 ==> Height(r.right) == Height(r.left) + 1)
  }

  /** When the grown child leans towards x, comparing x again finds the heavier grandchild, and the rotation it picks
      restores the height the node had before the insertion. */
  lemma LeaningLeftChild<T>(t: Tree<T>, l: Tree<T>, x: T, cmp: (T, T) -> int)
    requires t.Node? && Balanced(t) && l.Node? && Balanced(l)
    requires t.left.Node? && GrewTowards(t.left, l, x, cmp)
    requires Height(l) == Height(t.left) + 1 && Height(l) - Height(t.right) == 2
    ensures cmp(x, l.data) < 0 <==> Height(l.left) > Height(l.right)
    ensures cmp(x, l.data) > 0 <==> Height(l.right) > Height(l.left)
    ensures var r := AfterLeftInsert(t.(left := l), x, cmp);
            r.Node? && Refresh(r) == r && Balanced(r) && Height(r) == Height(t)
  {
    BalancedHeights(t.right);
    BalancedHeights(l.left);
    BalancedHeights(l.right);
    if cmp(x, l.data) > 0 {
      BalancedHeights(l.right.left);
      BalancedHeights(l.right.right);
    }
  }

  lemma LeaningRightChild<T>(t: Tree<T>, r: Tree<T>, x: T, cmp: (T, T) -> int)
    requires t.Node? && Balanced(t) && r.Node? && Balanced(r)
    requires t.right.Node? && GrewTowards(t.right, r, x, cmp)
    requires Height(r) == Height(t.right) + 1 && Height(r) - Height(t.left) == 2
    ensures cmp(x, r.data) > 0 <==> Height(r.right) > Height(r.left)
    ensures cmp(x, r.data) < 0 <==> Height(r.left) > Height(r.right)
    ensures var n := AfterRightInsert(t.(right := r), x, cmp);
            n.Node? && Refresh(n) == n && Balanced(n) && Height(n) == Height(t)
  {
    BalancedHeights(t.left);
    BalancedHeights(r.left);
    BalancedHeights(r.right);
    if cmp(x, r.data) < 0 {
      BalancedHeights(r.left.left);
      BalancedHeights(r.left.right);
    }
  }

  /** One step of insertion into a balanced tree: r is the balanced subtree of t after the insertion. */
  ghost predicate StepBalanced<T>(t: Tree<T>, r: Tree<T>, x: T, cmp: (T, T) -> int) {
    && r.Node? && Balanced(r)
    && Height(t) <= Height(r) <= Height(t) + 1
    && (t.Node? && Height(r) == Height(t) + 1 ==> GrewTowards(t, r, x, cmp))
  }

  lemma LeftInsertBalanced<T>(t: Tree<T>, l: Tree<T>, x: T, cmp: (T, T) -> int)
    requires t.Node? && Balanced(t) && cmp(x, t.data) < 0 && StepBalanced(t.left, l, x, cmp)
    ensures var r := AfterLeftInsert(t.(left := l), x, cmp); r.Node? && StepBalanced(t, Refresh(r), x, cmp)
  {
    BalancedHeights(t.right);
    if Height(l) - Height(t.right) == 2 { LeaningLeftChild(t, l, x, cmp); }
  }

  lemma RightInsertBalanced<T>(t: Tree<T>, r: Tree<T>, x: T, cmp: (T, T) -> int)
    requires t.Node? && Balanced(t) && cmp(x, t.data) > 0 && StepBalanced(t.right, r, x, cmp)
    ensures var n := AfterRightInsert(t.(right := r), x, cmp); n.Node? && StepBalanced(t, Refresh(n), x, cmp)
  {
    BalancedHeights(t.left);
    if Height(r) - Height(t.left) == 2 { LeaningRightChild(t, r, x, cmp); }
  }

  /** A balanced tree takes x without running into NULL, stays balanced, and grows by at most one;
      where a node grew it kept its datum and leans towards x. */
  lemma {:induction false} InsertBalanced<T>(t: Tree<T>, x: T, cmp: (T, T) -> int)
    requires Balanced(t)
    ensures InsertNode(t, x, cmp).Some? && StepBalanced(t, InsertNode(t, x, cmp).value, x, cmp)
  {
    if t.Node? {
      if cmp(x, t.data) < 0 {
        InsertBalanced(t.left, x, cmp);
        LeftInsertBalanced(t, InsertNode(t.left, x, cmp).value, x, cmp);
      } else if cmp(x, t.data) > 0 {
        InsertBalanced(t.right, x, cmp);
        RightInsertBalanced(t, InsertNode(t.right, x, cmp).value, x, cmp);
      }
    }
  }

  /** A node that grew by an insertion did so on the side of x, by one, and without a rotation of its own. */
  lemma GrownFrom<T>(t: Tree<T>, r: Tree<T>, x: T, cmp: (T, T) -> int)
    requires Balanced(t) && t.Node? && InsertNode(t, x, cmp) == Some(r) && Height(r) == Height(t) + 1
    ensures cmp(x, t.data) != 0 && r.data == t.data
    ensures cmp(x, t.data) < 0 ==> r.right == t.right && Height(r.left) == Height(t.left) + 1 == Height(r.right) + 1
    ensures cmp(x, t.data) > 0 ==> r.left == t.left && Height(r.right) == Height(t.right) + 1 == Height(r.left) + 1
  {
    BalancedHeights(t.left);
    BalancedHeights(t.right);
    if cmp(x, t.data) < 0 {
      InsertBalanced(t.left, x, cmp);
      var l := InsertNode(t.left, x, cmp).value;
      if Height(l) - Height(t.right) == 2 { LeaningLeftChild(t, l, x, cmp); }
    } else if cmp(x, t.data) > 0 {
      InsertBalanced(t.right, x, cmp);
      var n := InsertNode(t.right, x, cmp).value;
      if Height(n) - Height(t.left) == 2 { LeaningRightChild(t, n, x, cmp); }
    }
  }

  /** Whenever an insertion into a balanced tree calls for a rotation, the child kept its datum, comparing x with it
      again names the grandchild that grew, that grandchild is one higher than its sibling and than before, and the
      rotation picked gives back a balanced node of the height before. */
  lemma RecomparisonPicksRotationLeft<T>(t: Tree<T>, x: T, cmp: (T, T) -> int)
    requires Balanced(t) && t.Node? && cmp(x, t.data) < 0
    ensures InsertNode(t.left, x, cmp).Some?
    ensures var l := InsertNode(t.left, x, cmp).value;
            Height(l) - Height(t.right) == 2 ==>
              && t.left.Node? && l.data == t.left.data && Height(l) == Height(t.left) + 1
              && (if cmp(x, l.data) < 0 then Height(l.left) == Height(l.right) + 1 == Height(t.left.left) + 1
                  else cmp(x, l.data) > 0 && Height(l.right) == Height(l.left) + 1 == Height(t.left.right) + 1)
              && var r := AfterLeftInsert(t.(left := l), x, cmp);
                 r.Node? && Balanced(Refresh(r)) && Height(Refresh(r)) == Height(t)
  {
    InsertBalanced(t.left, x, cmp);
    var l := InsertNode(t.left, x, cmp).value;
    BalancedHeights(t.right);
    if Height(l) - Height(t.right) == 2 {
      LeaningLeftChild(t, l, x, cmp);
      GrownFrom(t.left, l, x, cmp);
    }
  }

  lemma RecomparisonPicksRotationRight<T>(t: Tree<T>, x: T, cmp: (T, T) -> int)
    requires Balanced(t) && t.Node? && cmp(x, t.data) > 0
    ensures InsertNode(t.right, x, cmp).Some?
    ensures var r := InsertNode(t.right, x, cmp).value;
            Height(r) - Height(t.left) == 2 ==>
              && t.right.Node? && r.data == t.right.data && Height(r) == Height(t.right) + 1
              && (if cmp(x, r.data) > 0 then Height(r.right) == Height(r.left) + 1 == Height(t.right.right) + 1
                  else cmp(x, r.data) < 0 && Height(r.left) == Height(r.right) + 1 == Height(t.right.left) + 1)
              && var n := AfterRightInsert(t.(right := r), x, cmp);
                 n.Node? && Balanced(Refresh(n)) && Height(Refresh(n)) == Height(t)
  {
    InsertBalanced(t.right, x, cmp);
    var r := InsertNode(t.right, x, cmp).value;
    BalancedHeights(t.left);
    if Height(r) - Height(t.left) == 2 {
      LeaningRightChild(t, r, x, cmp);
      GrownFrom(t.right, r, x, cmp);
    }
  }
}
