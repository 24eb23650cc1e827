/** The order a caller's comparison function puts on the data, and the sorted
    sequences that the AVL tree is measured against. */
module Ordering {
  import opened Options

  /** Only names three elements, so that transitivity is applied exactly where a proof asks for it. */
  ghost predicate Chain<T>(a: T, b: T, c: T) { true }

  /** The comparison function is an arbitrary total preorder: only the sign of its result matters. */
  ghost predicate TotalPreorder<T(!new)>(cmp: (T, T) -> int) {
    && (forall a, b :: cmp(a, b) < 0 <==> cmp(b, a) > 0)
    && (forall a, b, c {:trigger Chain(a, b, c)} :: Chain(a, b, c) && cmp(a, b) <= 0 && cmp(b, c) <= 0 ==> cmp(a, c) <= 0)
  }

  lemma LessTransitive<T(!new)>(cmp: (T, T) -> int, a: T, b: T, c: T)
    requires TotalPreorder(cmp)
    ensures cmp(a, b) < 0 && cmp(b, c) <= 0 ==> cmp(a, c) < 0
    ensures cmp(a, b) <= 0 && cmp(b, c) < 0 ==> cmp(a, c) < 0
  {
    assert Chain(b, c, a) && Chain(c, a, b);
  }

  ghost predicate Below<T>(a: seq<T>, d: T, cmp: (T, T) -> int) {
    forall e :: e in a ==> cmp(e, d) < 0
  }

  ghost predicate Above<T>(d: T, b: seq<T>, cmp: (T, T) -> int) {
    forall e :: e in b ==> cmp(d, e) < 0
  }

  /** Strictly ascending, hence without two elements that compare equal. */
  ghost predicate Ascending<T>(s: seq<T>, cmp: (T, T) -> int) {
    s == [] || (Above(s[0], s[1..], cmp) && Ascending(s[1..], cmp))
  }

  // ---- Reference operations on an ascending sequence ----

  /** Adds x at its place; an element that compares equal to x is kept and x is dropped. */
  function SortedInsert<T>(s: seq<T>, x: T, cmp: (T, T) -> int): seq<T> {
    if s == [] then [x]
    else if cmp(x, s[0]) < 0 then [x] + s
    else if cmp(x, s[0]) == 0 then s
    else [s[0]] + SortedInsert(s[1..], x, cmp)
  }

  /** Drops the element that compares equal to x, if there is one. */
  function SortedRemove<T>(s: seq<T>, x: T, cmp: (T, T) -> int): seq<T> {
    if s == [] then []
    else if cmp(x, s[0]) == 0 then s[1..]
    else [s[0]] + SortedRemove(s[1..], x, cmp)
  }

  /** The element that compares equal to x. */
  function Lookup<T>(s: seq<T>, x: T, cmp: (T, T) -> int): Option<T> {
    if s == [] then None
    else if cmp(x, s[0]) == 0 then Some(s[0])
    else Lookup(s[1..], x, cmp)
  }

  // ---- Splitting an ascending sequence ----

  lemma {:induction false} AscendingSplit<T(!new)>(a: seq<T>, d: T, b: seq<T>, cmp: (T, T) -> int)
    requires TotalPreorder(cmp)
    ensures Ascending(a + [d] + b, cmp) <==>
            Ascending(a, cmp) && Below(a, d, cmp) && Above(d, b, cmp) && Ascending(b, cmp)
  {
    var s := a + [d] + b;
    if a == [] {
      assert s == [d] + b && s[1..] == b;
    } else {
      assert s[0] == a[0] && s[1..] == a[1..] + [d] + b;
      AscendingSplit(a[1..], d, b, cmp);
      assert forall e :: e in a <==> e == a[0] || e in a[1..];
      assert forall e :: e in s[1..] <==> e in a[1..] || e == d || e in b;
      forall e | e in b ensures cmp(a[0], d) < 0 && cmp(d, e) < 0 ==> cmp(a[0], e) < 0 {
        LessTransitive(cmp, a[0], d, e);
      }
    }
  }

  /** A prefix with no element at or above x is passed over; a suffix above x is left alone. */
  lemma {:induction false} InsertPast<T>(a: seq<T>, b: seq<T>, x: T, cmp: (T, T) -> int)
    requires forall e :: e in a ==> cmp(x, e) > 0
    ensures SortedInsert(a + b, x, cmp) == a + SortedInsert(b, x, cmp)
  {
    if a == [] {
      assert a + b == b;
    } else {
      assert (a + b)[1..] == a[1..] + b;
      InsertPast(a[1..], b, x, cmp);
      assert a == [a[0]] + a[1..];
    }
  }

  lemma {:induction false} InsertBefore<T>(a: seq<T>, b: seq<T>, x: T, cmp: (T, T) -> int)
    requires b != [] && cmp(x, b[0]) < 0
    ensures SortedInsert(a + b, x, cmp) == SortedInsert(a, x, cmp) + b
  {
    if a == [] {
      assert a + b == b;
    } else {
      assert (a + b)[1..] == a[1..] + b;
      if cmp(x, a[0]) > 0 { InsertBefore(a[1..], b, x, cmp); }
    }
  }

  lemma InsertAtSplit<T(!new)>(a: seq<T>, d: T, b: seq<T>, x: T, cmp: (T, T) -> int)
    requires TotalPreorder(cmp) && Below(a, d, cmp)
    ensures SortedInsert(a + [d] + b, x, cmp) ==
            if cmp(x, d) < 0 then SortedInsert(a, x, cmp) + [d] + b
            else if cmp(x, d) > 0 then a + [d] + SortedInsert(b, x, cmp)
            else a + [d] + b
  {
    assert a + [d] + b == a + ([d] + b);
    if cmp(x, d) < 0 {
      InsertBefore(a, [d] + b, x, cmp);
    } else {
      forall e | e in a ensures cmp(x, e) > 0 { LessTransitive(cmp, e, d, x); }
      InsertPast(a, [d] + b, x, cmp);
    }
  }

  /** Removal and lookup ignore a prefix, or a suffix, in which nothing equals x. */
  lemma {:induction false} RemovePast<T>(a: seq<T>, b: seq<T>, x: T, cmp: (T, T) -> int)
    requires forall e :: e in a ==> cmp(x, e) != 0
    ensures SortedRemove(a + b, x, cmp) == a + SortedRemove(b, x, cmp)
    ensures Lookup(a + b, x, cmp) == Lookup(b, x, cmp)
  {
    if a == [] {
      assert a + b == b;
    } else {
      assert (a + b)[1..] == a[1..] + b;
      RemovePast(a[1..], b, x, cmp);
      assert a == [a[0]] + a[1..];
    }
  }

  lemma {:induction false} RemoveBefore<T>(a: seq<T>, b: seq<T>, x: T, cmp: (T, T) -> int)
    requires forall e :: e in b ==> cmp(x, e) != 0
    ensures SortedRemove(a + b, x, cmp) == SortedRemove(a, x, cmp) + b
    ensures Lookup(a + b, x, cmp) == Lookup(a, x, cmp)
  {
    if a == [] {
      assert a + b == b;
      RemovePast(b, [], x, cmp);
      assert b + [] == b;
    } else {
      assert (a + b)[1..] == a[1..] + b;
      if cmp(x, a[0]) != 0 { RemoveBefore(a[1..], b, x, cmp); }
    }
  }

  lemma RemoveAtSplit<T(!new)>(a: seq<T>, d: T, b: seq<T>, x: T, cmp: (T, T) -> int)
    requires TotalPreorder(cmp) && Below(a, d, cmp) && Above(d, b, cmp)
    ensures SortedRemove(a + [d] + b, x, cmp) ==
            if cmp(x, d) < 0 then SortedRemove(a, x, cmp) + [d] + b
            else if cmp(x, d) > 0 then a + [d] + SortedRemove(b, x, cmp)
            else a + b
    ensures Lookup(a + [d] + b, x, cmp) ==
            if cmp(x, d) < 0 then Lookup(a, x, cmp)
            else if cmp(x, d) > 0 then Lookup(b, x, cmp)
            else Some(d)
  {
    assert a + [d] + b == a + ([d] + b);
    assert ([d] + b)[1..] == b;
    if cmp(x, d) < 0 {
      forall e | e in [d] + b ensures cmp(x, e) < 0 { LessTransitive(cmp, x, d, e); }
      RemoveBefore(a, [d] + b, x, cmp);
    } else {
      forall e | e in a ensures cmp(x, e) > 0 { LessTransitive(cmp, e, d, x); }
      RemovePast(a, [d] + b, x, cmp);
    }
  }

  // ---- What the reference operations mean ----

  /** In an ascending sequence the element Lookup finds is the only one equal to x. */
  lemma {:induction false} LookupMeaning<T(!new)>(s: seq<T>, x: T, cmp: (T, T) -> int)
    requires TotalPreorder(cmp) && Ascending(s, cmp)
    ensures match Lookup(s, x, cmp)
            case Some(e) => e in s && cmp(x, e) == 0 && (forall d :: d in s && cmp(x, d) == 0 ==> d == e)
            case None => forall d :: d in s ==> cmp(x, d) != 0
  {
    if s != [] {
      LookupMeaning(s[1..], x, cmp);
      if cmp(x, s[0]) == 0 {
        forall d | d in s[1..] ensures cmp(x, d) < 0 { LessTransitive(cmp, x, s[0], d); }
      }
    }
  }

  /** SortedInsert adds x and nothing else, unless an equal element is there already. */
  lemma {:induction false} SortedInsertAdds<T(!new)>(s: seq<T>, x: T, cmp: (T, T) -> int)
    requires TotalPreorder(cmp) && Ascending(s, cmp)
    ensures multiset(SortedInsert(s, x, cmp)) ==
            multiset(s) + (if Lookup(s, x, cmp).Some? then multiset{} else multiset{x})
  {
    if s == [] {
    } else if cmp(x, s[0]) < 0 {
      forall e | e in s ensures cmp(x, e) < 0 { LessTransitive(cmp, x, s[0], e); }
      LookupMeaning(s, x, cmp);
    } else if cmp(x, s[0]) > 0 {
      SortedInsertAdds(s[1..], x, cmp);
      MultisetCons(s, SortedInsert(s[1..], x, cmp));
    }
  }

  lemma {:induction false} SortedInsertAscends<T(!new)>(s: seq<T>, x: T, cmp: (T, T) -> int)
    requires TotalPreorder(cmp) && Ascending(s, cmp)
    ensures Ascending(SortedInsert(s, x, cmp), cmp)
    ensures forall e :: e in SortedInsert(s, x, cmp) ==> e in s || e == x
  {
    if s == [] {
    } else if cmp(x, s[0]) < 0 {
      forall e | e in s ensures cmp(x, e) < 0 { LessTransitive(cmp, x, s[0], e); }
      assert ([x] + s)[1..] == s;
    } else if cmp(x, s[0]) > 0 {
      SortedInsertAscends(s[1..], x, cmp);
      AscendingCons(s[0], SortedInsert(s[1..], x, cmp), cmp);
    }
  }

  /** SortedRemove takes out exactly the element Lookup finds. */
  lemma {:induction false} SortedRemoveTakes<T>(s: seq<T>, x: T, cmp: (T, T) -> int)
    ensures multiset(s) == multiset(SortedRemove(s, x, cmp)) +
            (match Lookup(s, x, cmp) case Some(e) => multiset{e} case None => multiset{})
  {
    if s == [] {
    } else if cmp(x, s[0]) == 0 {
      MultisetCons(s, s[1..]);
    } else {
      SortedRemoveTakes(s[1..], x, cmp);
      MultisetCons(s, SortedRemove(s[1..], x, cmp));
    }
  }

  lemma {:induction false} SortedRemoveAscends<T>(s: seq<T>, x: T, cmp: (T, T) -> int)
    requires Ascending(s, cmp)
    ensures Ascending(SortedRemove(s, x, cmp), cmp)
    ensures forall e :: e in SortedRemove(s, x, cmp) ==> e in s
  {
    if s != [] && cmp(x, s[0]) != 0 {
      SortedRemoveAscends(s[1..], x, cmp);
      AscendingCons(s[0], SortedRemove(s[1..], x, cmp), cmp);
    }
  }

  lemma AscendingCons<T>(d: T, s: seq<T>, cmp: (T, T) -> int)
    requires Above(d, s, cmp) && Ascending(s, cmp)
    ensures Ascending([d] + s, cmp)
  {
    assert ([d] + s)[1..] == s;
  }

  lemma MultisetCons<T>(s: seq<T>, rest: seq<T>)
    requires s != []
    ensures multiset(s) == multiset{s[0]} + multiset(s[1..])
    ensures multiset([s[0]] + rest) == multiset{s[0]} + multiset(rest)
  {
    assert s == [s[0]] + s[1..];
  }
}
