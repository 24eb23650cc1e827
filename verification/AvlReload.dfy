/** Saving a balanced tree level by level and inserting the data again rebuilds the identical tree. */
module AvlReload {
  import opened Options
  import opened Ordering
  import opened AvlTree
  import opened AvlInsert
  import opened AvlLevelOrder

  /** Insertion into a search tree that is never rebalanced; only heights are kept up to date. */
  function PlainInsert<T>(t: Tree<T>, x: T, cmp: (T, T) -> int): Tree<T> {
    if t.Leaf? then Node(Leaf, x, 0, Leaf)
    else if cmp(x, t.data) < 0 then Refresh(t.(left := PlainInsert(t.left, x, cmp)))
    else if cmp(x, t.data) > 0 then Refresh(t.(right := PlainInsert(t.right, x, cmp)))
    else Refresh(t)
  }

  function InsertAll<T>(t: Tree<T>, s: seq<T>, cmp: (T, T) -> int): Option<Tree<T>>
    decreases |s|
  {
    if s == [] then Some(t)
    else
      var n :- InsertNode(t, s[0], cmp);
      InsertAll(n, s[1..], cmp)
  }

  function PlainInsertAll<T>(t: Tree<T>, s: seq<T>, cmp: (T, T) -> int): Tree<T>
    decreases |s|
  {
    if s == [] then t else PlainInsertAll(PlainInsert(t, s[0], cmp), s[1..], cmp)
  }

  /** t cut off below depth d, keeping of depth d itself only the first c nodes. */
  function Cut<T>(t: Tree<T>, d: nat, c: nat): Tree<T> {
    if t.Leaf? then Leaf
    else if d == 0 then (if c == 0 then Leaf else Node(Leaf, t.data, 0, Leaf))
    else
      var m := |Level(t.left, d - 1)|;
      Refresh(Node(Cut(t.left, d - 1, if c < m then c else m), t.data, 0,
                   Cut(t.right, d - 1, if c < m then 0 else c - m)))
  }

  /** A cut is as high as the tree or the cut allows, give or take the unfinished level. */
  lemma {:induction false} CutHeight<T>(t: Tree<T>, d: nat, c: nat)
    requires Balanced(t)
    ensures Height(Cut(t, d, c)) <= Height(t) && Height(Cut(t, d, c)) <= d
    ensures Height(t) <= Height(Cut(t, d, c)) || d - 1 <= Height(Cut(t, d, c))
  {
    NonNegativeHeight(t);
    if t.Node? && d > 0 {
      var m := |Level(t.left, d - 1)|;
      CutHeight(t.left, d - 1, if c < m then c else m);
      CutHeight(t.right, d - 1, if c < m then 0 else c - m);
    }
  }

  lemma {:induction false} LevelInTree<T>(t: Tree<T>, d: nat)
    ensures forall x :: x in Level(t, d) ==> x in Inorder(t)
  {
    if t.Node? && d > 0 {
      LevelInTree(t.left, d - 1);
      LevelInTree(t.right, d - 1);
    }
  }

  lemma {:induction false} AscendingJoin<T(!new)>(a: seq<T>, d: T, b: seq<T>, cmp: (T, T) -> int)
    requires TotalPreorder(cmp) && Ascending(a, cmp) && Ascending(b, cmp) && Below(a, d, cmp) && Above(d, b, cmp)
    ensures Ascending(a + b, cmp)
  {
    if a == [] {
      assert a + b == b;
    } else {
      AscendingJoin(a[1..], d, b, cmp);
      assert (a + b)[1..] == a[1..] + b;
      forall e | e in a[1..] + b ensures cmp(a[0], e) < 0 {
        if e in b { LessTransitive(cmp, a[0], d, e); }
      }
    }
  }

  /** In an ordered tree each level ascends: left to right is from small to large. */
  lemma {:induction false} LevelAscends<T(!new)>(t: Tree<T>, d: nat, cmp: (T, T) -> int)
    requires TotalPreorder(cmp) && Ordered(t, cmp)
    ensures Ascending(Level(t, d), cmp)
  {
    if t.Node? && d > 0 {
      OrderedSubtrees(t, cmp);
      LevelAscends(t.left, d - 1, cmp);
      LevelAscends(t.right, d - 1, cmp);
      LevelSides(t, d, cmp);
      AscendingJoin(Level(t.left, d - 1), t.data, Level(t.right, d - 1), cmp);
    }
  }

  /** What of a level lies on either side of the root. */
  lemma LevelSides<T(!new)>(t: Tree<T>, d: nat, cmp: (T, T) -> int)
    requires TotalPreorder(cmp) && Ordered(t, cmp) && t.Node? && d > 0
    ensures Below(Level(t.left, d - 1), t.data, cmp) && Above(t.data, Level(t.right, d - 1), cmp)
  {
    OrderedSubtrees(t, cmp);
    LevelInTree(t.left, d - 1);
    LevelInTree(t.right, d - 1);
  }

  /** x extends t to n, and no rotation fires on the way. */
  ghost predicate Extends<T>(t: Tree<T>, x: T, n: Tree<T>, cmp: (T, T) -> int) {
    InsertNode(t, x, cmp) == Some(n) && PlainInsert(t, x, cmp) == n
  }

  lemma ExtendLeft<T>(t: Tree<T>, x: T, l: Tree<T>, cmp: (T, T) -> int)
    requires t.Node? && cmp(x, t.data) < 0 && Extends(t.left, x, l, cmp) && Height(l) - Height(t.right) < 2
    ensures Extends(t, x, Refresh(t.(left := l)), cmp)
  {
  }

  lemma ExtendRight<T>(t: Tree<T>, x: T, r: Tree<T>, cmp: (T, T) -> int)
    requires t.Node? && cmp(x, t.data) > 0 && Extends(t.right, x, r, cmp) && Height(r) - Height(t.left) < 2
    ensures Extends(t, x, Refresh(t.(right := r)), cmp)
  {
  }

  /** Where the next datum of a level belongs. */
  lemma NextDatum<T(!new)>(t: Tree<T>, d: nat, c: nat, cmp: (T, T) -> int)
    requires TotalPreorder(cmp) && Ordered(t, cmp) && d > 0 && c < |Level(t, d)|
    ensures Ordered(t.left, cmp) && Ordered(t.right, cmp)
    ensures var m := |Level(t.left, d - 1)|; var x := Level(t, d)[c];
            if c < m then x == Level(t.left, d - 1)[c] && cmp(x, t.data) < 0
            else x == Level(t.right, d - 1)[c - m] && cmp(x, t.data) > 0
  {
    var m := |Level(t.left, d - 1)|;
    OrderedSubtrees(t, cmp);
    LevelInTree(t.left, d - 1);
    LevelInTree(t.right, d - 1);
    if c < m { assert Level(t.left, d - 1)[c] in Inorder(t.left); }
    else { assert Level(t.right, d - 1)[c - m] in Inorder(t.right); }
  }

  /** However far the two cuts below a node have come on the unfinished level, no rotation is due. */
  lemma CutSides<T>(t: Tree<T>, d: nat, c: nat, c': nat)
    requires Balanced(t) && t.Node?
    ensures -2 < Height(Cut(t.left, d, c)) - Height(Cut(t.right, d, c')) < 2
  {
    CutHeight(t.left, d, c);
    CutHeight(t.right, d, c');
  }

  /** One node more on a level is one node more in the subtree it lies in. */
  lemma CutGrows<T>(t: Tree<T>, d: nat, c: nat)
    requires t.Node? && d > 0
    ensures var m := |Level(t.left, d - 1)|; var n := Cut(t, d, c);
            && n.Node? && n.data == t.data
            && (c < m ==>
                 && n.left == Cut(t.left, d - 1, c) && n.right == Cut(t.right, d - 1, 0)
                 && Cut(t, d, c + 1) == Refresh(n.(left := Cut(t.left, d - 1, c + 1))))
            && (c >= m ==>
                 && n.left == Cut(t.left, d - 1, m) && n.right == Cut(t.right, d - 1, c - m)
                 && Cut(t, d, c + 1) == Refresh(n.(right := Cut(t.right, d - 1, c - m + 1))))
  {
  }

  /** The two cuts of a node, named. */
  lemma ExtendCutLeft<T>(t: Tree<T>, d: nat, c: nat, x: T, l: Tree<T>, l': Tree<T>, cmp: (T, T) -> int)
    requires Balanced(t) && t.Node? && d > 0 && c < |Level(t.left, d - 1)| && cmp(x, t.data) < 0
    requires l == Cut(t.left, d - 1, c) && l' == Cut(t.left, d - 1, c + 1) && Extends(l, x, l', cmp)
    ensures Extends(Cut(t, d, c), x, Cut(t, d, c + 1), cmp)
  {
    var n, n' := Cut(t, d, c), Cut(t, d, c + 1);
    CutGrows(t, d, c);
    CutSides(t, d - 1, c + 1, 0);
    assert n.Node? && n.data == t.data && n.left == l && n' == Refresh(n.(left := l'));
    ExtendLeft(n, x, l', cmp);
  }

  lemma ExtendCutRight<T>(t: Tree<T>, d: nat, c: nat, x: T, r: Tree<T>, r': Tree<T>, cmp: (T, T) -> int)
    requires Balanced(t) && t.Node? && d > 0 && c >= |Level(t.left, d - 1)| && cmp(x, t.data) > 0
    requires var m := |Level(t.left, d - 1)|;
             r == Cut(t.right, d - 1, c - m) && r' == Cut(t.right, d - 1, c - m + 1) && Extends(r, x, r', cmp)
    ensures Extends(Cut(t, d, c), x, Cut(t, d, c + 1), cmp)
  {
    var m, n, n' := |Level(t.left, d - 1)|, Cut(t, d, c), Cut(t, d, c + 1);
    CutGrows(t, d, c);
    CutSides(t, d - 1, m, c - m + 1);
    assert n.Node? && n.data == t.data && n.right == r && n' == Refresh(n.(right := r'));
    ExtendRight(n, x, r', cmp);
  }

  lemma ExtendCutRoot<T>(t: Tree<T>, c: nat, cmp: (T, T) -> int)
    requires c < |Level(t, 0)|
    ensures Extends(Cut(t, 0, c), Level(t, 0)[c], Cut(t, 0, c + 1), cmp)
  {
  }

  /** The next datum of the unfinished level extends the cut by its node. */
  ghost predicate NextExtends<T>(t: Tree<T>, d: nat, c: nat, cmp: (T, T) -> int) {
    c < |Level(t, d)| && Extends(Cut(t, d, c), Level(t, d)[c], Cut(t, d, c + 1), cmp)
  }

  /** From the subtree the next datum lies in to the whole tree. */
  lemma ExtendCutAboveLeft<T(!new)>(t: Tree<T>, d: nat, c: nat, cmp: (T, T) -> int)
    requires TotalPreorder(cmp) && Ordered(t, cmp) && Balanced(t) && d > 0 && t.Node?
    requires c < |Level(t.left, d - 1)| && NextExtends(t.left, d - 1, c, cmp)
    ensures NextExtends(t, d, c, cmp)
  {
    NextDatum(t, d, c, cmp);
    ExtendCutLeft(t, d, c, Level(t, d)[c], Cut(t.left, d - 1, c), Cut(t.left, d - 1, c + 1), cmp);
  }

  lemma ExtendCutAboveRight<T(!new)>(t: Tree<T>, d: nat, c: nat, m: nat, cmp: (T, T) -> int)
    requires TotalPreorder(cmp) && Ordered(t, cmp) && Balanced(t) && d > 0 && t.Node?
    requires m == |Level(t.left, d - 1)| <= c && NextExtends(t.right, d - 1, c - m, cmp)
    ensures NextExtends(t, d, c, cmp)
  {
    NextDatum(t, d, c, cmp);
    ExtendCutRight(t, d, c, Level(t, d)[c], Cut(t.right, d - 1, c - m), Cut(t.right, d - 1, c - m + 1), cmp);
  }

  /** Inserting the next datum of the unfinished level extends the cut by that node and rotates nothing. */
  lemma {:induction false} ExtendCut<T(!new)>(t: Tree<T>, d: nat, c: nat, cmp: (T, T) -> int)
    requires TotalPreorder(cmp) && Ordered(t, cmp) && Balanced(t) && c < |Level(t, d)|
    ensures NextExtends(t, d, c, cmp)
    decreases t, 1
  {
    if d == 0 {
      ExtendCutRoot(t, c, cmp);
    } else if c < |Level(t.left, d - 1)| {
      ExtendCutInLeft(t, d, c, cmp);
    } else {
      ExtendCutInRight(t, d, c, |Level(t.left, d - 1)|, cmp);
    }
  }

  lemma {:induction false} ExtendCutInLeft<T(!new)>(t: Tree<T>, d: nat, c: nat, cmp: (T, T) -> int)
    requires TotalPreorder(cmp) && Ordered(t, cmp) && Balanced(t) && d > 0 && t.Node? && c < |Level(t.left, d - 1)|
    ensures NextExtends(t, d, c, cmp)
    decreases t, 0
  {
    OrderedSubtrees(t, cmp);
    ExtendCut(t.left, d - 1, c, cmp);
    ExtendCutAboveLeft(t, d, c, cmp);
  }

  lemma {:induction false} ExtendCutInRight<T(!new)>(t: Tree<T>, d: nat, c: nat, m: nat, cmp: (T, T) -> int)
    requires TotalPreorder(cmp) && Ordered(t, cmp) && Balanced(t) && d > 0 && t.Node?
    requires m == |Level(t.left, d - 1)| <= c < |Level(t, d)|
    ensures NextExtends(t, d, c, cmp)
    decreases t, 0
  {
    OrderedSubtrees(t, cmp);
    ExtendCut(t.right, d - 1, c - m, cmp);
    ExtendCutAboveRight(t, d, c, m, cmp);
  }

  lemma {:induction false} FinishedLevel<T>(t: Tree<T>, d: nat)
    ensures Cut(t, d, |Level(t, d)|) == Cut(t, d + 1, 0)
  {
    if t.Node? && d > 0 {
      FinishedLevel(t.left, d - 1);
      FinishedLevel(t.right, d - 1);
    }
  }

  lemma {:induction false} UncutTree<T>(t: Tree<T>, d: nat)
    requires Balanced(t) && d > Height(t)
    ensures Cut(t, d, 0) == t
  {
    if t.Node? {
      NonNegativeHeight(t);
      UncutTree(t.left, d - 1);
      UncutTree(t.right, d - 1);
    }
  }

  /** Inserting the rest of a level, and then everything below it. */
  lemma {:induction false} InsertLevel<T(!new)>(t: Tree<T>, d: nat, c: nat, rest: seq<T>, cmp: (T, T) -> int)
    requires TotalPreorder(cmp) && Ordered(t, cmp) && Balanced(t) && c <= |Level(t, d)|
    ensures InsertAll(Cut(t, d, c), Level(t, d)[c..] + rest, cmp) == InsertAll(Cut(t, d + 1, 0), rest, cmp)
    ensures PlainInsertAll(Cut(t, d, c), Level(t, d)[c..] + rest, cmp) == PlainInsertAll(Cut(t, d + 1, 0), rest, cmp)
    decreases |Level(t, d)| - c
  {
    var s := Level(t, d)[c..] + rest;
    if c == |Level(t, d)| {
      assert s == rest;
      FinishedLevel(t, d);
    } else {
      assert s[0] == Level(t, d)[c] && s[1..] == Level(t, d)[c + 1..] + rest;
      ExtendCut(t, d, c, cmp);
      InsertLevel(t, d, c + 1, rest, cmp);
    }
  }

  lemma {:induction false} InsertLevels<T(!new)>(t: Tree<T>, d: nat, cmp: (T, T) -> int)
    requires TotalPreorder(cmp) && Ordered(t, cmp) && Balanced(t)
    ensures InsertAll(Cut(t, d, 0), LevelsFrom(t, d), cmp) == Some(t)
    ensures PlainInsertAll(Cut(t, d, 0), LevelsFrom(t, d), cmp) == t
    decreases TrueHeight(t) + 1 - d
  {
    BalancedHeights(t);
    if d > TrueHeight(t) {
      UncutTree(t, d);
    } else {
      InsertLevels(t, d + 1, cmp);
      InsertLevel(t, d, 0, LevelsFrom(t, d + 1), cmp);
      assert Level(t, d)[0..] == Level(t, d);
    }
  }

  /** The round trip: inserting what the level-order walk of a balanced tree wrote, in that order, into an
      empty tree gives back the identical tree, just as insertion without any rotation would. */
  lemma ReloadRoundTrip<T(!new)>(t: Tree<T>, cmp: (T, T) -> int)
    requires TotalPreorder(cmp) && Ordered(t, cmp) && Balanced(t)
    ensures InsertAll(Leaf, LevelOrder(t), cmp) == Some(t)
    ensures PlainInsertAll(Leaf, LevelOrder(t), cmp) == t
  {
    LevelOrderIsLevels(t);
    assert Cut(t, 0, 0) == Leaf;
    InsertLevels(t, 0, cmp);
  }
}
