/** Whole runs of insertions and deletions on one tree, against a sorted sequence as the reference. */
module AvlRuns {
  import opened Options
  import opened Ordering
  import opened AvlTree
  import opened AvlInsert
  import opened AvlDelete

  datatype Op<T> = Insert(x: T) | Delete(x: T)

  /** The tree object: its nodes, its count field, and everything handed to the destroy callback so far. */
  datatype Store<T> = Store(tree: Tree<T>, count: int, destroyed: seq<T>)

  /** The reference: the sorted data, what was destroyed, and the duplicates that were never stored. */
  datatype Reference<T> = Reference(data: seq<T>, destroyed: seq<T>, dropped: seq<T>)

  function Empty<T>(): Store<T> { Store(Leaf, 0, []) }

  /** None when an insertion dereferences NULL. The count goes up even when a duplicate is dropped. */
  function Apply<T>(s: Store<T>, op: Op<T>, cmp: (T, T) -> int): (r: Option<Store<T>>)
    requires NonNegative(s.tree)
    ensures r.Some? ==> NonNegative(r.value.tree)
  {
    match op
    case Insert(x) =>
      var t :- InsertNode(s.tree, x, cmp);
      InsertNonNegative(s.tree, x, cmp);
      Some(s.(tree := t, count := s.count + 1))
    case Delete(x) =>
      var d := DeleteNode(s.tree, x, cmp);
      Some(Store(d.tree, if d.found then s.count - 1 else s.count, s.destroyed + d.destroyed))
  }

  function Run<T>(s: Store<T>, ops: seq<Op<T>>, cmp: (T, T) -> int): (r: Option<Store<T>>)
    requires NonNegative(s.tree)
    ensures r.Some? ==> NonNegative(r.value.tree)
    decreases |ops|
  {
    if ops == [] then Some(s)
    else
      var s' :- Apply(s, ops[0], cmp);
      Run(s', ops[1..], cmp)
  }

  function RefApply<T>(r: Reference<T>, op: Op<T>, cmp: (T, T) -> int): Reference<T> {
    match op
    case Insert(x) =>
      if Lookup(r.data, x, cmp).Some? then r.(dropped := r.dropped + [x])
      else r.(data := SortedInsert(r.data, x, cmp))
    case Delete(x) =>
      match Lookup(r.data, x, cmp)
      case Some(e) => r.(data := SortedRemove(r.data, x, cmp), destroyed := r.destroyed + [e])
      case None => r
  }

  function RefRun<T>(r: Reference<T>, ops: seq<Op<T>>, cmp: (T, T) -> int): Reference<T>
    decreases |ops|
  {
    if ops == [] then r else RefRun(RefApply(r, ops[0], cmp), ops[1..], cmp)
  }

  /** The store shows the reference: same data, same destructions, and a count that is too high by
      exactly the duplicates dropped. */
  ghost predicate Shows<T>(s: Store<T>, r: Reference<T>, cmp: (T, T) -> int) {
    && Ordered(s.tree, cmp)
    && Inorder(s.tree) == r.data
    && s.destroyed == r.destroyed
    && s.count == |r.data| + |r.dropped|
  }

  /** One insertion that meets no hazard. */
  lemma InsertStep<T(!new)>(s: Store<T>, x: T, cmp: (T, T) -> int)
    requires TotalPreorder(cmp) && NonNegative(s.tree) && Ordered(s.tree, cmp) && !DuplicateHazard(s.tree, x, cmp)
    ensures InsertNode(s.tree, x, cmp).Some?
    ensures var t := InsertNode(s.tree, x, cmp).value;
            && Apply(s, Insert(x), cmp) == Some(Store(t, s.count + 1, s.destroyed))
            && NonNegative(t) && Ordered(t, cmp) && Inorder(t) == SortedInsert(Inorder(s.tree), x, cmp)
  {
    InsertDefined(s.tree, x, cmp);
    InsertContents(s.tree, x, cmp);
    InsertNonNegative(s.tree, x, cmp);
  }

  lemma InsertRefines<T(!new)>(s: Store<T>, r: Reference<T>, x: T, cmp: (T, T) -> int)
    requires TotalPreorder(cmp) && NonNegative(s.tree) && Shows(s, r, cmp)
    requires InsertNode(s.tree, x, cmp).Some?
    ensures Shows(Apply(s, Insert(x), cmp).value, RefApply(r, Insert(x), cmp), cmp)
  {
    InsertContents(s.tree, x, cmp);
    InsertLength(r.data, x, cmp);
    if Lookup(r.data, x, cmp).Some? { InsertDuplicate(r.data, x, cmp); }
  }

  lemma DeleteRefines<T(!new)>(s: Store<T>, r: Reference<T>, x: T, cmp: (T, T) -> int)
    requires TotalPreorder(cmp) && NonNegative(s.tree) && Shows(s, r, cmp)
    ensures Shows(Apply(s, Delete(x), cmp).value, RefApply(r, Delete(x), cmp), cmp)
  {
    DeleteContents(s.tree, x, cmp);
    RemoveLength(r.data, x, cmp);
    RemoveAbsent(r.data, x, cmp);
  }

  lemma InsertLength<T(!new)>(s: seq<T>, x: T, cmp: (T, T) -> int)
    requires TotalPreorder(cmp) && Ascending(s, cmp)
    ensures |SortedInsert(s, x, cmp)| == |s| + if Lookup(s, x, cmp).Some? then 0 else 1
  {
    SortedInsertAdds(s, x, cmp);
    assert |multiset(SortedInsert(s, x, cmp))| == |SortedInsert(s, x, cmp)|;
  }

  lemma {:induction false} RemoveLength<T>(s: seq<T>, x: T, cmp: (T, T) -> int)
    ensures |SortedRemove(s, x, cmp)| == |s| - if Lookup(s, x, cmp).Some? then 1 else 0
  {
    if s != [] { RemoveLength(s[1..], x, cmp); }
  }

  lemma {:induction false} InsertDuplicate<T(!new)>(s: seq<T>, x: T, cmp: (T, T) -> int)
    requires TotalPreorder(cmp) && Ascending(s, cmp) && Lookup(s, x, cmp).Some?
    ensures SortedInsert(s, x, cmp) == s
  {
    if cmp(x, s[0]) < 0 {
      var e := Lookup(s, x, cmp).value;
      LookupMeaning(s, x, cmp);
      LessTransitive(cmp, x, s[0], e);
    } else if cmp(x, s[0]) > 0 {
      InsertDuplicate(s[1..], x, cmp);
    }
  }

  lemma {:induction false} RemoveAbsent<T>(s: seq<T>, x: T, cmp: (T, T) -> int)
    ensures Lookup(s, x, cmp).None? ==> SortedRemove(s, x, cmp) == s
  {
    if s != [] { RemoveAbsent(s[1..], x, cmp); }
  }

  /** Every run that survives behaves as the sorted sequence does, from any store that shows one. */
  lemma {:induction false} RunRefines<T(!new)>(s: Store<T>, r: Reference<T>, ops: seq<Op<T>>, cmp: (T, T) -> int)
    requires TotalPreorder(cmp) && NonNegative(s.tree) && Shows(s, r, cmp)
    requires Run(s, ops, cmp).Some?
    ensures Shows(Run(s, ops, cmp).value, RefRun(r, ops, cmp), cmp)
    decreases |ops|
  {
    if ops != [] {
      match ops[0] {
        case Insert(x) => InsertRefines(s, r, x, cmp);
        case Delete(x) => DeleteRefines(s, r, x, cmp);
      }
      RunRefines(Apply(s, ops[0], cmp).value, RefApply(r, ops[0], cmp), ops[1..], cmp);
    }
  }

  // ---- Conservation ----

  function Inserted<T>(ops: seq<Op<T>>): seq<T>
    decreases |ops|
  {
    if ops == [] then []
    else (match ops[0] case Insert(x) => [x] case Delete(_) => []) + Inserted(ops[1..])
  }

  function Held<T>(r: Reference<T>): multiset<T> {
    multiset(r.data) + multiset(r.destroyed) + multiset(r.dropped)
  }

  lemma ApplyConserves<T(!new)>(r: Reference<T>, op: Op<T>, cmp: (T, T) -> int)
    requires TotalPreorder(cmp) && Ascending(r.data, cmp)
    ensures Ascending(RefApply(r, op, cmp).data, cmp)
    ensures Held(RefApply(r, op, cmp)) == Held(r) + multiset(Inserted([op]))
  {
    match op
    case Insert(x) => InsertConserves(r, x, cmp);
    case Delete(x) => DeleteTakes(r, x, cmp);
  }

  lemma InsertConserves<T(!new)>(r: Reference<T>, x: T, cmp: (T, T) -> int)
    requires TotalPreorder(cmp) && Ascending(r.data, cmp)
    ensures Ascending(RefApply(r, Insert(x), cmp).data, cmp)
    ensures Held(RefApply(r, Insert(x), cmp)) == Held(r) + multiset(Inserted([Insert(x)]))
  {
    SortedInsertAdds(r.data, x, cmp);
    SortedInsertAscends(r.data, x, cmp);
    assert Inserted([Insert(x)]) == [x];
  }

  lemma DeleteTakes<T(!new)>(r: Reference<T>, x: T, cmp: (T, T) -> int)
    requires TotalPreorder(cmp) && Ascending(r.data, cmp)
    ensures Ascending(RefApply(r, Delete(x), cmp).data, cmp)
    ensures Held(RefApply(r, Delete(x), cmp)) == Held(r) + multiset(Inserted([Delete(x)]))
  {
    SortedRemoveTakes(r.data, x, cmp);
    SortedRemoveAscends(r.data, x, cmp);
    assert Inserted([Delete(x)]) == [];
  }

  lemma InsertedCons<T>(ops: seq<Op<T>>)
    requires ops != []
    ensures multiset(Inserted(ops)) == multiset(Inserted([ops[0]])) + multiset(Inserted(ops[1..]))
  {
    assert Inserted(ops) == Inserted([ops[0]]) + Inserted(ops[1..]);
  }

  lemma {:induction false} RefRunConserves<T(!new)>(r: Reference<T>, ops: seq<Op<T>>, cmp: (T, T) -> int)
    requires TotalPreorder(cmp) && Ascending(r.data, cmp)
    ensures Held(RefRun(r, ops, cmp)) == Held(r) + multiset(Inserted(ops))
    decreases |ops|
  {
    if ops != [] {
      ApplyConserves(r, ops[0], cmp);
      RefRunConserves(RefApply(r, ops[0], cmp), ops[1..], cmp);
      InsertedCons(ops);
    }
  }

  /** Over any surviving run from the empty tree, every inserted datum ends up stored, destroyed, or
      dropped as a duplicate, and in exactly one of these ways. */
  lemma RunConserves<T(!new)>(ops: seq<Op<T>>, cmp: (T, T) -> int)
    requires TotalPreorder(cmp) && Run(Empty(), ops, cmp).Some?
    ensures var s := Run(Empty(), ops, cmp).value;
            var dropped := RefRun(Reference([], [], []), ops, cmp).dropped;
            && multiset(Inserted(ops)) == multiset(Inorder(s.tree)) + multiset(s.destroyed) + multiset(dropped)
            && s.count == |Inorder(s.tree)| + |dropped|
  {
    RunRefines(Empty(), Reference([], [], []), ops, cmp);
    RefRunConserves(Reference([], [], []), ops, cmp);
  }

  // ---- Which runs survive, and which stay balanced ----

  /** No insertion of the run meets a duplicate hazard. */
  predicate Safe<T>(s: Store<T>, ops: seq<Op<T>>, cmp: (T, T) -> int)
    requires NonNegative(s.tree)
    decreases |ops|
  {
    ops != [] ==>
      && (ops[0].Insert? ==> !DuplicateHazard(s.tree, ops[0].x, cmp))
      && (var s' := Apply(s, ops[0], cmp); s'.Some? ==> Safe(s'.value, ops[1..], cmp))
  }

  /** A run from any ordered tree survives if and only if no insertion in it meets a hazard. */
  lemma {:induction false} RunDefined<T(!new)>(s: Store<T>, ops: seq<Op<T>>, cmp: (T, T) -> int)
    requires TotalPreorder(cmp) && NonNegative(s.tree) && Ordered(s.tree, cmp)
    ensures Run(s, ops, cmp).Some? <==> Safe(s, ops, cmp)
    decreases |ops|
  {
    if ops != [] {
      if ops[0].Insert? { InsertDefined(s.tree, ops[0].x, cmp); }
      var s' := Apply(s, ops[0], cmp);
      if s'.Some? {
        match ops[0] {
          case Insert(x) => InsertContents(s.tree, x, cmp);
          case Delete(x) => DeleteContents(s.tree, x, cmp);
        }
        RunDefined(s'.value, ops[1..], cmp);
      }
    }
  }

  /** Every deletion of the run passes the caller's check for keeping the tree balanced. */
  predicate KeepsBalanced<T>(s: Store<T>, ops: seq<Op<T>>, cmp: (T, T) -> int)
    requires NonNegative(s.tree)
    decreases |ops|
  {
    ops != [] ==>
      && (ops[0].Delete? ==> KeepsBalance(s.tree, ops[0].x, cmp))
      && (var s' := Apply(s, ops[0], cmp); s'.Some? ==> KeepsBalanced(s'.value, ops[1..], cmp))
  }

  /** Such a run, and so every run of insertions alone, survives and ends in a balanced tree. */
  lemma {:induction false} BalancedRun<T>(s: Store<T>, ops: seq<Op<T>>, cmp: (T, T) -> int)
    requires Balanced(s.tree) && KeepsBalanced(s, ops, cmp)
    ensures Run(s, ops, cmp).Some? && Balanced(Run(s, ops, cmp).value.tree)
    decreases |ops|
  {
    if ops != [] {
      match ops[0] {
        case Insert(x) => InsertBalanced(s.tree, x, cmp);
        case Delete(x) => DeleteBalanced(s.tree, x, cmp);
      }
      BalancedRun(Apply(s, ops[0], cmp).value, ops[1..], cmp);
    }
  }

  lemma {:induction false} InsertionsKeepBalanced<T>(s: Store<T>, ops: seq<Op<T>>, cmp: (T, T) -> int)
    requires NonNegative(s.tree) && forall op :: op in ops ==> op.Insert?
    ensures KeepsBalanced(s, ops, cmp)
    decreases |ops|
  {
    if ops != [] && Apply(s, ops[0], cmp).Some? {
      InsertionsKeepBalanced(Apply(s, ops[0], cmp).value, ops[1..], cmp);
    }
  }

  // ---- A run from the empty tree that does not survive ----

  function Difference(a: int, b: int): int { a - b }

  function One(k: int): Tree<int> { Node(Leaf, k, 0, Leaf) }

  /** Seven insertions, one deletion whose successor lies deep, and a second insertion of a stored key:
      the node of e keeps stored height 2 over a single child, and is rotated through the missing one.
      So a run that only uses the tree as documented can dereference NULL. */
  lemma HazardIsReachable(a: int, b: int, c: int, d: int, e: int, f: int, g: int)
    requires a < b < c < d < e < f < g
    ensures TotalPreorder(Difference)
    ensures Run(Empty(), [Insert(c), Insert(b), Insert(e), Insert(a), Insert(d), Insert(f), Insert(g),
                          Delete(c), Insert(f)], Difference) == None
  {
    var ops := [Insert(c), Insert(b), Insert(e), Insert(a), Insert(d), Insert(f), Insert(g), Delete(c), Insert(f)];
    var l, fg := Node(One(a), b, 1, Leaf), Node(Leaf, f, 1, One(g));
    var seven := Node(l, c, 3, Node(One(d), e, 2, fg));
    var six := Node(l, d, 3, Node(Leaf, e, 2, fg));
    FirstFourKeys(a, b, c, e, ops);
    LastThreeKeys(l, c, d, e, f, g, ops[4..]);
    DeleteRoot(l, c, d, e, fg);
    assert Store(seven, 7, []).destroyed + [c] == [c];
    RunStep(Store(seven, 7, []), Store(six, 6, [c]), ops[7..]);
    SecondInsertion(l, d, e, f, g);
  }

  lemma OneBalanced(k: int)
    ensures Balanced(One(k)) && Height(One(k)) == 0
  {
  }

  lemma LeftBalanced(l: Tree<int>, k: int, n: Tree<int>)
    requires Balanced(l) && Height(l) == 0 && n == Node(l, k, 1, Leaf)
    ensures Balanced(n) && Height(n) == 1
  {
  }

  lemma BothBalanced(l: Tree<int>, k: int, r: Tree<int>, n: Tree<int>)
    requires Balanced(l) && Balanced(r) && Height(l) == 1 && Height(r) == 0 && n == Node(l, k, 2, r)
    ensures Balanced(n) && NonNegative(n)
  {
  }

  /** The tree of the first four keys. */
  function FourKeys(a: int, b: int, c: int, e: int): (t: Tree<int>)
    ensures NonNegative(t) && Balanced(t)
  {
    var l := Node(One(a), b, 1, Leaf);
    var t := Node(l, c, 2, One(e));
    OneBalanced(a);
    OneBalanced(e);
    LeftBalanced(One(a), b, l);
    BothBalanced(l, c, One(e), t);
    t
  }

  lemma FirstFourKeys(a: int, b: int, c: int, e: int, ops: seq<Op<int>>)
    requires a < b < c < e
    requires [Insert(c), Insert(b), Insert(e), Insert(a)] <= ops
    ensures Run(Empty(), ops, Difference) == Run(Store(FourKeys(a, b, c, e), 4, []), ops[4..], Difference)
  {
    var t1, t2, t3 := One(c), Node(One(b), c, 1, Leaf), Node(One(b), c, 1, One(e));
    RunStep(Empty(), Store(t1, 1, []), ops);
    Quiet(t1, b, One(b));
    RunStep(Store(t1, 1, []), Store(t2, 2, []), ops[1..]);
    Quiet(t2, e, One(e));
    RunStep(Store(t2, 2, []), Store(t3, 3, []), ops[2..]);
    FourthKey(a, b, c, e);
    RunStep(Store(t3, 3, []), Store(FourKeys(a, b, c, e), 4, []), ops[3..]);
  }

  lemma FourthKey(a: int, b: int, c: int, e: int)
    requires a < b < c < e
    ensures InsertNode(Node(One(b), c, 1, One(e)), a, Difference) == Some(FourKeys(a, b, c, e))
  {
    Quiet(One(b), a, One(a));
    Quiet(Node(One(b), c, 1, One(e)), a, Node(One(a), b, 1, Leaf));
  }

  lemma LastThreeKeys(l: Tree<int>, c: int, d: int, e: int, f: int, g: int, ops: seq<Op<int>>)
    requires c < d < e < f < g && Balanced(l) && Height(l) == 1
    requires [Insert(d), Insert(f), Insert(g)] <= ops
    ensures NonNegative(Node(l, c, 3, Node(One(d), e, 2, Node(Leaf, f, 1, One(g)))))
    ensures Run(Store(Node(l, c, 2, One(e)), 4, []), ops, Difference)
         == Run(Store(Node(l, c, 3, Node(One(d), e, 2, Node(Leaf, f, 1, One(g)))), 7, []), ops[3..], Difference)
  {
    var r1, r2, r3 := Node(One(d), e, 1, Leaf), Node(One(d), e, 1, One(f)), Node(One(d), e, 2, Node(Leaf, f, 1, One(g)));
    Quiet(One(e), d, One(d));
    Quiet(Node(l, c, 2, One(e)), d, r1);
    RunStep(Store(Node(l, c, 2, One(e)), 4, []), Store(Node(l, c, 2, r1), 5, []), ops);
    Quiet(r1, f, One(f));
    Quiet(Node(l, c, 2, r1), f, r2);
    RunStep(Store(Node(l, c, 2, r1), 5, []), Store(Node(l, c, 2, r2), 6, []), ops[1..]);
    Quiet(One(f), g, One(g));
    Quiet(r2, g, Node(Leaf, f, 1, One(g)));
    Quiet(Node(l, c, 2, r2), g, r3);
    RunStep(Store(Node(l, c, 2, r2), 6, []), Store(Node(l, c, 3, r3), 7, []), ops[2..]);
  }

  /** The deletion of the root splices out d below e and recomputes nothing at e. */
  lemma DeleteRoot(l: Tree<int>, c: int, d: int, e: int, fg: Tree<int>)
    requires Balanced(l) && Height(l) == 1 && NonNegative(fg) && Height(fg) == 1
    requires NonNegative(Node(l, c, 3, Node(One(d), e, 2, fg)))
    ensures DeleteNode(Node(l, c, 3, Node(One(d), e, 2, fg)), c, Difference)
         == Deletion(Node(l, d, 3, Node(Leaf, e, 2, fg)), true, [c])
  {
    var r := Node(One(d), e, 2, fg);
    assert MinData(r) == d && RemoveMin(r) == Node(Leaf, e, 2, fg);
    assert RemoveRoot(Node(l, c, 3, r)) == Node(l, d, 3, Node(Leaf, e, 2, fg));
    assert Rebalance(Node(l, d, 3, Node(Leaf, e, 2, fg))) == Node(l, d, 3, Node(Leaf, e, 2, fg));
  }

  lemma SecondInsertion(l: Tree<int>, d: int, e: int, f: int, g: int)
    requires d < e < f < g
    ensures InsertNode(Node(l, d, 3, Node(Leaf, e, 2, Node(Leaf, f, 1, One(g)))), f, Difference).None?
  {
    var fg := Node(Leaf, f, 1, One(g));
    assert InsertNode(fg, f, Difference) == Some(fg);
    assert RotateRightLeft(Node(Leaf, e, 2, fg)).Leaf?;
    assert InsertNode(Node(Leaf, e, 2, fg), f, Difference).None?;
  }

  /** One step of an insertion that rotates nothing. */
  lemma Quiet(t: Tree<int>, k: int, child: Tree<int>)
    requires t.Node? && k != t.data
    requires InsertNode(if k < t.data then t.left else t.right, k, Difference) == Some(child)
    requires Height(child) - Height(if k < t.data then t.right else t.left) != 2
    ensures InsertNode(t, k, Difference) ==
            Some(Refresh(if k < t.data then t.(left := child) else t.(right := child)))
  {
  }

  lemma RunStep(s: Store<int>, s': Store<int>, ops: seq<Op<int>>)
    requires NonNegative(s.tree) && ops != [] && Apply(s, ops[0], Difference) == Some(s')
    ensures Run(s, ops, Difference) == Run(s', ops[1..], Difference)
  {
  }
}
