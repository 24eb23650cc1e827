/** Searching: what it finds on any ordered tree, and how few comparisons it makes on a balanced one. */
module AvlBounds {
  import opened Ordering
  import opened AvlTree
  import opened AvlInsert
  import opened Fibonacci
  import opened Powers

  /** Search, which hands its arguments to the comparison the other way round than insertion does,
      finds the stored element equal to x on every ordered tree. */
  lemma {:induction false} SearchFinds<T(!new)>(t: Tree<T>, x: T, cmp: (T, T) -> int)
    requires TotalPreorder(cmp) && Ordered(t, cmp)
    ensures Search(t, x, cmp) == Lookup(Inorder(t), x, cmp)
  {
    if t.Node? {
      OrderedSubtrees(t, cmp);
      RemoveAtSplit(Inorder(t.left), t.data, Inorder(t.right), x, cmp);
      SearchFinds(t.left, x, cmp);
      SearchFinds(t.right, x, cmp);
    }
  }

  lemma {:induction false} CountIsLength<T>(t: Tree<T>)
    ensures Count(t) == |Inorder(t)|
  {
    if t.Node? {
      CountIsLength(t.left);
      CountIsLength(t.right);
    }
  }

  /** The data a search compares x with, in order. */
  function Consulted<T>(t: Tree<T>, x: T, cmp: (T, T) -> int): seq<T> {
    if t.Leaf? then []
    else if cmp(t.data, x) == 0 then [t.data]
    else if cmp(t.data, x) < 0 then [t.data] + Consulted(t.right, x, cmp)
    else [t.data] + Consulted(t.left, x, cmp)
  }

  /** Two comparison functions have the same sign for x at all of these data. */
  ghost predicate Agree<T>(data: seq<T>, x: T, cmp: (T, T) -> int, cmp': (T, T) -> int) {
    forall e :: e in data ==> (cmp(e, x) < 0 <==> cmp'(e, x) < 0) && (cmp(e, x) == 0 <==> cmp'(e, x) == 0)
  }

  /** The result of a search is fixed by the signs of the comparison at the data it consults, which are stored data, no
      more than one on each level. */
  lemma {:induction false} SearchDecided<T>(t: Tree<T>, x: T, cmp: (T, T) -> int, cmp': (T, T) -> int)
    ensures |Consulted(t, x, cmp)| <= TrueHeight(t) + 1
    ensures forall e :: e in Consulted(t, x, cmp) ==> e in Inorder(t)
    ensures Agree(Consulted(t, x, cmp), x, cmp, cmp') ==> Search(t, x, cmp') == Search(t, x, cmp)
  {
    if t.Node? {
      SearchDecided(t.left, x, cmp, cmp');
      SearchDecided(t.right, x, cmp, cmp');
      var data := Consulted(t, x, cmp);
      assert data[0] == t.data && t.data in data;
      assert cmp(t.data, x) < 0 ==> forall e :: e in Consulted(t.right, x, cmp) ==> e in data;
      assert cmp(t.data, x) > 0 ==> forall e :: e in Consulted(t.left, x, cmp) ==> e in data;
    }
  }

  /** A balanced tree of height h (the empty one has -1) holds at least Fib(h + 3) - 1 data. */
  lemma {:induction false} FibonacciBound<T>(t: Tree<T>)
    requires Balanced(t)
    ensures Height(t) >= -1 && Count(t) >= Fib(Height(t) + 3) - 1
  {
    if t.Node? {
      FibonacciBound(t.left);
      FibonacciBound(t.right);
      FibSides(Height(t.left), Height(t.right));
    }
  }

  /** The two sides of a balanced node together. */
  lemma FibSides(left: int, right: int)
    requires left >= -1 && right >= -1 && -1 <= left - right <= 1
    ensures Fib(left + 3) + Fib(right + 3) >= Fib(1 + Max(left, right) + 3)
  {
    var high := Max(left, right);
    FibMonotone(high + 2, left + 3);
    FibMonotone(high + 2, right + 3);
    assert Fib(high + 4) == Fib(high + 3) + Fib(high + 2);
  }

  /** In a balanced tree the result of a search is fixed by comparisons with at most logarithmically many data. */
  lemma SearchLogarithmic<T(!new)>(t: Tree<T>, x: T, cmp: (T, T) -> int)
    requires Balanced(t)
    ensures exists data: seq<T> ::
              && (forall e :: e in data ==> e in Inorder(t))
              && Fib(|data| + 2) <= Count(t) + 1 && Pow2(|data| / 2) <= Count(t) + 1
              && forall cmp': (T, T) -> int :: Agree(data, x, cmp, cmp') ==> Search(t, x, cmp') == Search(t, x, cmp)
  {
    var data := Consulted(t, x, cmp);
    BalancedHeights(t);
    SearchDecided(t, x, cmp, cmp);
    FibonacciBound(t);
    FibMonotone(|data| + 2, Height(t) + 3);
    FibGrowth(|data|);
    forall cmp': (T, T) -> int | Agree(data, x, cmp, cmp') ensures Search(t, x, cmp') == Search(t, x, cmp) {
      SearchDecided(t, x, cmp, cmp');
    }
  }
}
