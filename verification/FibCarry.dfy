/** The three-limb Fibonacci program: limbs that are only looked at once something has been carried into
    them. */
module FibCarry {
  import opened Options
  import opened Fibonacci
  import opened FibTable
  import opened Words

  /** The memory variables: two one-limb numbers and, for each, two limbs carried into. */
  datatype Memory = Memory(num1: Word, num2: Word, curr: Word, prev: Word, curr2: Word, prev2: Word)

  /** What a pass prints, most significant limb first. */
  datatype Output = One(base: Word) | Two(mid: Word, base: Word) | Three(top: Word, mid: Word, base: Word) | TooLarge

  const INITIALLY := Memory(0, 1, 0, 0, 0, 0)

  function Value(base: Word, mid: Word, top: Word): nat {
    base + mid * 0x1_0000_0000_0000_0000 + top * 0x1_0000_0000_0000_0000_0000_0000_0000_0000
  }

  function Current(m: Memory): nat { Value(m.num1, m.curr, m.curr2) }

  function Previous(m: Memory): nat { Value(m.num2, m.prev, m.prev2) }

  function Printed(o: Output): Option<nat> {
    match o
    case One(base) => Some(Value(base, 0, 0))
    case Two(mid, base) => Some(Value(base, mid, 0))
    case Three(top, mid, base) => Some(Value(base, mid, top))
    case TooLarge => None
  }

  predicate Fits192(x: nat) {
    x < 0x1_0000_0000_0000_0000_0000_0000_0000_0000_0000_0000_0000_0000
  }

  // ---- The jumps ----

  predicate BaseCarry(m: Memory) { Add(m.num1, m.num2, false).1 }

  /** two_registers is reached with a carry, or because the second limb is in use. */
  predicate UsesTwo(m: Memory) { BaseCarry(m) || m.curr != 0 }

  predicate MidCarry(m: Memory) { Add(m.prev, m.curr, BaseCarry(m)).1 }

  predicate UsesThree(m: Memory) { UsesTwo(m) && (MidCarry(m) || m.curr2 != 0) }

  /** The pass stops short of a limb that is not zero everywhere: what a caller must not let happen. */
  predicate Skips(m: Memory) {
    || (!UsesTwo(m) && !(m.prev == 0 && m.curr2 == 0 && m.prev2 == 0))
    || (UsesTwo(m) && !UsesThree(m) && m.prev2 != 0)
  }

  /** What a pass should do: add, keep the old sum, print the new one, or report that it does not fit. */
  ghost predicate Adds(m: Memory, m': Memory, o: Output) {
    if Fits192(Current(m) + Previous(m)) then
      && Current(m') == Current(m) + Previous(m) && Previous(m') == Current(m)
      && Printed(o) == Some(Current(m'))
    else o == TooLarge
  }

  /** The memory and the printout after one pass, jump by jump. */
  function AfterPass(m: Memory): (Memory, Output) {
    var (base, carry) := Add(m.num1, m.num2, false);
    var m1 := m.(num1 := base, num2 := m.num1);
    if !UsesTwo(m) then (m1, One(base))
    else
      var (mid, carry2) := Add(m.prev, m.curr, carry);
      var m2 := m1.(curr := mid, prev := m.curr);
      if !UsesThree(m) then (m2, Two(mid, base))
      else
        var (top, carry3) := Add(m.prev2, m.curr2, carry2);
        if carry3 then (m2, TooLarge)
        else (m2.(curr2 := top, prev2 := m.curr2), Three(top, mid, base))
  }

  lemma OneLimbAdds(m: Memory)
    requires !UsesTwo(m)
    ensures var (m', o) := AfterPass(m); Adds(m, m', o) <==> !Skips(m)
  {
    var base := m.num1 + m.num2;
    assert AfterPass(m) == (m.(num1 := base, num2 := m.num1), One(base));
  }

  lemma TwoLimbsAdd(m: Memory)
    requires UsesTwo(m) && !UsesThree(m)
    ensures var (m', o) := AfterPass(m); Adds(m, m', o) <==> !Skips(m)
  {
    var (base, carry) := Add(m.num1, m.num2, false);
    var (mid, carry2) := Add(m.prev, m.curr, carry);
    assert AfterPass(m) == (m.(num1 := base, num2 := m.num1, curr := mid, prev := m.curr), Two(mid, base));
    assert !carry2 && m.curr2 == 0;
    assert Current(m) + Previous(m) == Value(base, mid, m.prev2);
  }

  lemma ThreeLimbsAdd(m: Memory)
    requires UsesThree(m)
    ensures var (m', o) := AfterPass(m); Adds(m, m', o) && !Skips(m)
  {
    var (base, carry) := Add(m.num1, m.num2, false);
    var (mid, carry2) := Add(m.prev, m.curr, carry);
    var (top, carry3) := Add(m.prev2, m.curr2, carry2);
    assert Current(m) + Previous(m) == Value(base, mid, top) +
      if carry3 then 0x1_0000_0000_0000_0000_0000_0000_0000_0000_0000_0000_0000_0000 else 0;
    assert !carry3 ==>
        AfterPass(m) == (Memory(base, m.num1, mid, m.curr, top, m.curr2), Three(top, mid, base));
  }

  /** A pass adds exactly when it skips no limb in use. */
  lemma PassAdds(m: Memory)
    ensures var (m', o) := AfterPass(m); Adds(m, m', o) <==> !Skips(m)
  {
    if !UsesTwo(m) { OneLimbAdds(m); }
    else if !UsesThree(m) { TwoLimbsAdd(m); }
    else { ThreeLimbsAdd(m); }
  }

  /** What is printed does not lead with a zero limb. */
  ghost predicate Plain(o: Output) {
    (o.Two? ==> o.mid != 0) && (o.Three? ==> o.top != 0)
  }

  /** Whatever the memory, a limb that nothing was carried into is printed only when it already was in use. */
  lemma PrintsPlainly(m: Memory)
    ensures Plain(AfterPass(m).1)
  {
  }

  class LazyFib {
    var num1: Word
    var num2: Word
    var curr: Word
    var prev: Word
    var curr2: Word
    var prev2: Word
    var count: nat

    function State(): Memory
      reads this
    {
      Memory(num1, num2, curr, prev, curr2, prev2)
    }

    constructor ()
      ensures State() == INITIALLY && count == 0
    {
      num1, num2, curr, prev, curr2, prev2, count := 0, 1, 0, 0, 0, 0, 0;
    }

    /** One pass from FIB to DISPLAY_RESULT. */
    method Pass() returns (o: Output)
      modifies this
      ensures (State(), o) == AfterPass(old(State())) && count == old(count) + 1
      ensures Adds(old(State()), State(), o) <==> !Skips(old(State()))
    {
      PassAdds(State());
      count := count + 1;
      var (sum, carry) := Add(num1, num2, false);
      num1, num2 := sum, num1;
      if !carry && curr == 0 {
        return One(num1);
      }
      var (mid, carry2) := Add(prev, curr, carry);
      curr, prev := mid, curr;
      if !carry2 && curr2 == 0 {
        return Two(curr, num1);
      }
      var (top, carry3) := Add(prev2, curr2, carry2);
      if carry3 {
        return TooLarge;
      }
      curr2, prev2 := top, curr2;
      o := Three(curr2, curr, num1);
    }
  }

  // ---- The whole program ----

  /** The memory after n passes. */
  ghost predicate Holds(m: Memory, n: nat) {
    Current(m) == Fib(n) && Previous(m) == FibBefore(n) && Fits192(Fib(n))
  }

  /** The lazy widening is safe on this sequence: no pass ever skips a limb in use. */
  lemma NeverSkips(m: Memory, n: nat)
    ensures Holds(m, n) ==> !Skips(m)
  {
    if n > 0 { FibMonotone(n - 1, n); }
    if n <= 93 {
      OneLimb(n);
      if n > 0 { OneLimb(n - 1); }
    } else if Fits192(Fib(n)) {
      ThreeLimbs(n);
      SecondLimbs(n);
      SecondLimbOf(m);
    }
  }

  lemma SecondLimbOf(m: Memory)
    ensures Current(m) / 0x1_0000_0000_0000_0000 % 0x1_0000_0000_0000_0000 == m.curr
  {
  }

  lemma PassHolds(m: Memory, n: nat)
    ensures var (m', o) := AfterPass(m);
            Holds(m, n) ==>
              if Fits192(Fib(n + 1)) then Holds(m', n + 1) && Printed(o) == Some(Fib(n + 1)) else o == TooLarge
  {
    NeverSkips(m, n);
    PassAdds(m);
    FibNext(n);
  }

  /** What line number k may be. */
  ghost predicate Line(k: nat, o: Output, last: bool) {
    if Fits192(Fib(k)) then Printed(o) == Some(Fib(k)) && Plain(o) else o == TooLarge && last
  }

  /** The k-th line printed is the k-th Fibonacci number, until the first one that needs a fourth limb,
      which is reported instead and ends the run. */
  ghost predicate Lines(out: seq<Output>) {
    forall i :: 0 <= i < |out| ==> Line(i + 1, out[i], i == |out| - 1)
  }

  lemma LinesAppend(out: seq<Output>, k: nat, o: Output)
    requires Lines(out) && (out == [] || out[|out| - 1] != TooLarge)
    requires k == |out| + 1 && Line(k, o, true)
    ensures Lines(out + [o])
  {
    forall i | 0 <= i < |out| ensures Line(i + 1, out[i], false) {
      assert Line(i + 1, out[i], i == |out| - 1);
    }
  }

  /** The state of a run that goes on: so many passes made, so many lines printed, none the report. */
  ghost predicate GoingOn(m: Memory, count: nat, out: seq<Output>) {
    count == |out| && Holds(m, count) && Lines(out) && (out != [] ==> out[|out| - 1] != TooLarge)
  }

  method NextLine(fib: LazyFib) returns (o: Output)
    modifies fib
    ensures fib.count == old(fib.count) + 1
    ensures old(Holds(fib.State(), fib.count)) ==>
              Line(fib.count, o, true) && (o != TooLarge ==> Holds(fib.State(), fib.count))
  {
    PassHolds(fib.State(), fib.count);
    PrintsPlainly(fib.State());
    o := fib.Pass();
  }

  method Print(fib: LazyFib, out: seq<Output>) returns (r: seq<Output>)
    modifies fib
    ensures fib.count == old(fib.count) + 1 && |r| == |out| + 1
    ensures old(GoingOn(fib.State(), fib.count, out)) ==>
              Lines(r) && (r[|r| - 1] != TooLarge ==> GoingOn(fib.State(), fib.count, r))
  {
    ghost var goingOn := GoingOn(fib.State(), fib.count, out);
    var o := NextLine(fib);
    if goingOn { LinesAppend(out, fib.count, o); }
    r := out + [o];
  }

  /** The whole printout for a user who asked for so many lines. */
  ghost predicate Complete(out: seq<Output>, user: nat) {
    && 0 < |out| <= user && Lines(out)
    && (|out| < user ==> out[|out| - 1] == TooLarge)
  }

  method StartRun() returns (fib: LazyFib)
    ensures fresh(fib) && fib.count == 0 && GoingOn(fib.State(), 0, [])
  {
    fib := new LazyFib();
  }

  /** Prints as many lines as the user asked for, or fewer when the last one is the report. */
  method Run(user: nat) returns (out: seq<Output>)
    requires user > 0
    ensures Complete(out, user)
  {
    var fib := StartRun();
    out := [];
    var again := true;
    while again
      invariant if again then GoingOn(fib.State(), fib.count, out) && fib.count < user else Complete(out, user)
      decreases user - |out|, again
    {
      out := Print(fib, out);
      again := out[|out| - 1] != TooLarge && fib.count != user;
    }
  }
}
