/** The four-limb Fibonacci program: the swap-and-add loop, its hexadecimal formats, and two of its octal
    regroupings of 64-bit limbs into 48-bit ones. */
module FibFour {
  import opened Arithmetic
  import opened Bits
  import opened Fibonacci
  import opened FibTable
  import opened Powers
  import opened Words

  /** Four limbs, least significant first. */
  function Value(a: int, b: int, c: int, d: int): int {
    a + b * 0x1_0000_0000_0000_0000
      + c * 0x1_0000_0000_0000_0000_0000_0000_0000_0000
      + d * 0x1_0000_0000_0000_0000_0000_0000_0000_0000_0000_0000_0000_0000
  }

  function Wrap256(x: int): int {
    x % 0x1_0000_0000_0000_0000_0000_0000_0000_0000_0000_0000_0000_0000_0000_0000_0000_0000
  }

  /** The eight registers of the loop, the primary four first. */
  datatype Registers = Registers(r8: Word, rcx: Word, rdx: Word, rsi: Word, r15: Word, r14: Word, r13: Word, r12: Word)

  function Primary(r: Registers): int { Value(r.r8, r.rcx, r.rdx, r.rsi) }

  function Alternate(r: Registers): int { Value(r.r15, r.r14, r.r13, r.r12) }

  /** xchg three times, xadd, adc three times. */
  function Turn(r: Registers): Registers {
    var (base, c0) := Add(r.r8, r.r15, false);
    var (mid, c1) := Add(r.r14, r.rcx, c0);
    var (high, c2) := Add(r.r13, r.rdx, c1);
    var (top, _) := Add(r.r12, r.rsi, c2);
    Registers(base, mid, high, top, r.r8, r.rcx, r.rdx, r.rsi)
  }

  lemma LimbSum(r: Registers, base: Word, mid: Word, high: Word, top: Word, c0: bool, c1: bool, c2: bool, c3: bool)
    requires (base, c0) == Add(r.r8, r.r15, false) && (mid, c1) == Add(r.r14, r.rcx, c0)
    requires (high, c2) == Add(r.r13, r.rdx, c1) && (top, c3) == Add(r.r12, r.rsi, c2)
    ensures Wrap256(Primary(r) + Alternate(r)) == Value(base, mid, high, top)
  {
    assert Primary(r) + Alternate(r) == Value(base, mid, high, top) +
      if c3 then 0x1_0000_0000_0000_0000_0000_0000_0000_0000_0000_0000_0000_0000_0000_0000_0000_0000 else 0;
  }

  /** The alternates keep the old sum; the primaries take the new one, whose last carry is lost. */
  lemma TurnAdds(r: Registers)
    ensures Alternate(Turn(r)) == Primary(r)
    ensures Primary(Turn(r)) == Wrap256(Primary(r) + Alternate(r))
  {
    var (base, c0) := Add(r.r8, r.r15, false);
    var (mid, c1) := Add(r.r14, r.rcx, c0);
    var (high, c2) := Add(r.r13, r.rdx, c1);
    var (top, c3) := Add(r.r12, r.rsi, c2);
    LimbSum(r, base, mid, high, top, c0, c1, c2, c3);
  }

  ghost predicate Pairs(current: int, before: int, n: nat) {
    current == Wrap256(Fib(n)) && before == Wrap256(FibBefore(n))
  }

  lemma PairsNext(current: int, before: int, n: nat)
    requires Pairs(current, before, n)
    ensures Pairs(Wrap256(current + before), current, n + 1)
  {
    ModSum(Fib(n), FibBefore(n), 0x1_0000_0000_0000_0000_0000_0000_0000_0000_0000_0000_0000_0000_0000_0000_0000_0000);
    FibNext(n);
  }

  ghost predicate Holds(r: Registers, n: nat) {
    Pairs(Primary(r), Alternate(r), n)
  }

  /** One turn of the loop, as a pair of numbers. */
  method TakeTurn(r: Registers) returns (r': Registers)
    ensures Alternate(r') == Primary(r) && Primary(r') == Wrap256(Primary(r) + Alternate(r))
  {
    TurnAdds(r);
    r' := Turn(r);
  }

  lemma WrapSmall(x: int)
    requires 0 <= x < 0x1_0000_0000_0000_0000_0000_0000_0000_0000_0000_0000_0000_0000_0000_0000_0000_0000
    ensures Wrap256(x) == x
  {
  }

  lemma StartPairs(n: nat)
    requires n == 0
    ensures Pairs(0, 1, n)
  {
    WrapSmall(0);
    WrapSmall(1);
  }

  /** The registers before the first turn. */
  method Prepare() returns (r: Registers)
    ensures Primary(r) == 0 && Alternate(r) == 1
  {
    r := Registers(0, 0, 0, 0, 1, 0, 0, 0);
  }

  /** For every count the loop leaves Fib(n) modulo 2^256, and the number before it in the alternates. */
  method Loop(stop: nat) returns (r: Registers)
    ensures Holds(r, stop)
  {
    var r10 := 0;
    r := Prepare();
    StartPairs(r10);
    while r10 != stop
      invariant r10 <= stop && Holds(r, r10)
    {
      PairsNext(Primary(r), Alternate(r), r10);
      r := TakeTurn(r);
      r10 := r10 + 1;
    }
  }

  /** Within the range the program accepts nothing is lost at all. */
  lemma NothingLost(n: nat)
    requires n <= 300
    ensures Wrap256(Fib(n)) == Fib(n)
  {
    Below256Bits(n);
    WrapSmall(Fib(n));
  }

  // ---- Hexadecimal ----

  /** What printf shows for limbs handed to it most significant first: all but the first are padded to the
      sixteen digits of a limb. */
  function Hex(limbs: seq<Word>): int {
    if limbs == [] then 0
    else Hex(limbs[..|limbs| - 1]) * 0x1_0000_0000_0000_0000 + limbs[|limbs| - 1]
  }

  lemma HexAppend(front: seq<Word>, x: Word)
    ensures Hex(front + [x]) == Hex(front) * 0x1_0000_0000_0000_0000 + x
  {
    assert (front + [x])[..|front|] == front;
  }

  lemma HexOfOne(a: Word)
    ensures Hex([a]) == a
  {
    HexAppend([], a);
    assert [] + [a] == [a];
  }

  lemma HexOfTwo(b: Word, a: Word)
    ensures Hex([b, a]) == Value(a, b, 0, 0)
  {
    HexOfOne(b);
    HexAppend([b], a);
  }

  lemma HexOfThree(c: Word, b: Word, a: Word)
    ensures Hex([c, b, a]) == Value(a, b, c, 0)
  {
    HexOfTwo(c, b);
    HexAppend([c, b], a);
    assert [c, b] + [a] == [c, b, a];
  }

  lemma HexOfFour(d: Word, c: Word, b: Word, a: Word)
    ensures Hex([d, c, b, a]) == Value(a, b, c, d)
  {
    HexOfThree(d, c, b);
    HexAppend([d, c, b], a);
    assert [d, c, b] + [a] == [d, c, b, a];
  }

  /** The arguments after the format picked by the count: the exchanges move the limbs into rsi, rdx, rcx, r8. */
  method HexArguments(r: Registers, stop: nat) returns (args: seq<Word>)
    ensures args == if stop <= 93 then [r.r8]
                    else if stop <= 186 then [r.rcx, r.r8]
                    else if stop <= 278 then [r.rdx, r.rcx, r.r8]
                    else [r.rsi, r.rdx, r.rcx, r.r8]
  {
    var rsi, rdx, rcx, r8 := r.rsi, r.rdx, r.rcx, r.r8;
    if stop <= 93 {
      rsi, r8 := r8, rsi;
      args := [rsi];
    } else if stop <= 186 {
      rdx, r8 := r8, rdx;
      rsi, rcx := rcx, rsi;
      args := [rsi, rdx];
    } else if stop <= 278 {
      rcx, r8 := r8, rcx;
      rdx, r8 := r8, rdx;
      rsi, r8 := r8, rsi;
      args := [rsi, rdx, rcx];
    } else {
      args := [rsi, rdx, rcx, r8];
    }
  }

  lemma LimbsUnused(r: Registers, stop: nat)
    requires stop <= 300 && Primary(r) == Fib(stop)
    ensures stop <= 93 ==> r.rcx == 0
    ensures stop <= 186 ==> r.rdx == 0
    ensures stop <= 278 ==> r.rsi == 0
  {
    if stop <= 93 { OneLimb(stop); }
    if stop <= 186 { Below128Bits(stop); }
    if stop <= 278 { Below192Bits(stop); }
  }

  lemma LimbsUsed(r: Registers, stop: nat)
    requires stop <= 300 && Primary(r) == Fib(stop)
    ensures 93 < stop <= 186 ==> r.rcx != 0
    ensures 186 < stop <= 278 ==> r.rdx != 0
    ensures 278 < stop ==> r.rsi != 0
  {
    LimbsUnused(r, stop);
    if 93 < stop <= 186 { Reaches64Bits(stop); }
    if 186 < stop <= 278 { Reaches128Bits(stop); }
    if 278 < stop { Reaches192Bits(stop); }
  }

  /** The format is picked by the count: it leaves out exactly the limbs above the first one in use, so that what is
      printed does not lead with a zero limb. */
  method PrintHex(stop: nat) returns (args: seq<Word>)
    requires stop <= 300
    ensures Hex(args) == Fib(stop)
    ensures |args| == if stop <= 93 then 1 else if stop <= 186 then 2 else if stop <= 278 then 3 else 4
    ensures |args| > 1 ==> args[0] != 0
  {
    var r := Loop(stop);
    NothingLost(stop);
    LimbsUnused(r, stop);
    LimbsUsed(r, stop);
    HexOfOne(r.r8);
    HexOfTwo(r.rcx, r.r8);
    HexOfThree(r.rdx, r.rcx, r.r8);
    HexOfFour(r.rsi, r.rdx, r.rcx, r.r8);
    args := HexArguments(r, stop);
  }

  // ---- Octal: groups of sixteen octal digits ----

  /** The mask the program keeps in r10. */
  const MASK48: nat := 0xFFFF_FFFF_FFFF

  function ShiftLeft(x: Word, k: nat): Word { Low(x * Pow2(k)) }

  function ShiftRight(x: Word, k: nat): nat {
    QuotientNatural(x, Pow2(k));
    x / Pow2(k)
  }

  lemma Shifts()
    ensures Pow2(16) == 0x1_0000 && Pow2(32) == 0x1_0000_0000 && Pow2(48) == 0x1_0000_0000_0000
  {
    assert Pow2(8) == 0x100;
    Pow2Add(8, 8);
    assert Pow2(16) == 0x1_0000;
    Pow2Add(16, 16);
    assert Pow2(32) == 0x1_0000_0000;
    Pow2Add(32, 16);
  }

  /** The low 48 bits of x. */
  lemma Masked(x: nat)
    ensures And(x, MASK48) == x % 0x1_0000_0000_0000
  {
    Shifts();
    AndMask(x, 48);
  }

  /** A limb shifted up by sixteen, with the top sixteen bits of the limb below it put in. */
  lemma Joined16(above: nat, below: Word)
    ensures Or(above * 0x1_0000, ShiftRight(below, 48)) == above * 0x1_0000 + below / 0x1_0000_0000_0000
  {
    Shifts();
    OrField(above, 16, below / 0x1_0000_0000_0000);
  }

  lemma Joined32(above: nat, below: Word)
    ensures Or(above * 0x1_0000_0000, ShiftRight(below, 32)) == above * 0x1_0000_0000 + below / 0x1_0000_0000
  {
    Shifts();
    OrField(above, 32, below / 0x1_0000_0000);
  }

  /** What a limb shifted up by sixteen loses. */
  lemma Unmasked16(x: Word)
    ensures ShiftLeft(x, 16) == x % 0x1_0000_0000_0000 * 0x1_0000
  {
    Shifts();
    var q, r := x / 0x1_0000_0000_0000, x % 0x1_0000_0000_0000;
    DivModUnique(x * 0x1_0000, 0x1_0000_0000_0000_0000, q, r * 0x1_0000);
  }

  method TopGroup(r15: Word, r14: Word) returns (rsi: nat)
    ensures rsi == r14 % 0x1_0000_0000_0000 * 0x1_0000 + r15 / 0x1_0000_0000_0000
  {
    rsi := ShiftLeft(r14, 16);
    Unmasked16(r14);
    Joined16(r14 % 0x1_0000_0000_0000, r15);
    rsi := Or(rsi, ShiftRight(r15, 48));
  }

  /** .OLT139: two groups. Nothing is lost if and only if the number has at most 112 bits. */
  method Octal139(r: Registers) returns (rsi: nat, rdx: nat)
    ensures rdx < 0x1_0000_0000_0000
    ensures rsi * 0x1_0000_0000_0000 + rdx == Primary(r) <==> Primary(r) < 0x1_0000_0000_0000_0000_0000_0000_0000
  {
    Masked(r.r8);
    rdx := And(r.r8, MASK48);
    rsi := TopGroup(r.r8, r.rcx);
    TwoGroups(r.r8, r.rcx % 0x1_0000_0000_0000);
    LowLimbs(r);
  }

  /** 48 bits and the remaining ones of a limb and a field of the next. */
  lemma TwoGroups(a: Word, field: nat)
    ensures (field * 0x1_0000 + a / 0x1_0000_0000_0000) * 0x1_0000_0000_0000 + a % 0x1_0000_0000_0000
         == Value(a, field, 0, 0)
  {
    DivModSplit(a, 0x1_0000_0000_0000);
  }

  lemma LowLimbs(r: Registers)
    ensures Value(r.r8, r.rcx % 0x1_0000_0000_0000, 0, 0) == Primary(r) <==>
            Primary(r) < 0x1_0000_0000_0000_0000_0000_0000_0000
  {
    DivModSplit(r.rcx, 0x1_0000_0000_0000);
  }

  /** .OLT209: three groups. Nothing is lost if and only if the number has at most 144 bits. */
  method Octal209(r: Registers) returns (rsi: nat, rdx: nat, rcx: nat)
    ensures rdx < 0x1_0000_0000_0000 && rcx < 0x1_0000_0000_0000
    ensures rsi * 0x1_0000_0000_0000_0000_0000_0000 + rdx * 0x1_0000_0000_0000 + rcx == Primary(r) <==>
            Primary(r) < 0x1_0000_0000_0000_0000_0000_0000_0000_0000_0000
  {
    Masked(r.r8);
    rcx := And(r.r8, MASK48);
    rsi := LeadingGroup(r.rcx, r.rdx);
    rdx := MiddleGroup(r.r8, r.rcx);
    ThreeGroups(r.r8, r.rcx, r.rdx % 0x1_0000);
    TopLimbs(r);
  }

  /** 48, 48 and the remaining bits of two limbs and a field of the third. */
  lemma ThreeGroups(a: Word, b: Word, field: nat)
    ensures (field * 0x1_0000_0000 + b / 0x1_0000_0000) * 0x1_0000_0000_0000_0000_0000_0000
            + (b % 0x1_0000_0000 * 0x1_0000 + a / 0x1_0000_0000_0000) * 0x1_0000_0000_0000
            + a % 0x1_0000_0000_0000
         == Value(a, b, field, 0)
  {
    DivModSplit(a, 0x1_0000_0000_0000);
    DivModSplit(b, 0x1_0000_0000);
  }

  lemma TopLimbs(r: Registers)
    ensures Value(r.r8, r.rcx, r.rdx % 0x1_0000, 0) == Primary(r) <==>
            Primary(r) < 0x1_0000_0000_0000_0000_0000_0000_0000_0000_0000
  {
    DivModSplit(r.rdx, 0x1_0000);
  }

  /** Shifting left by 32, or 16, and masking to 48 bits keeps the low 16, or 32. */
  lemma Shifted32(x: Word)
    ensures ShiftLeft(x, 32) % 0x1_0000_0000_0000 == x % 0x1_0000 * 0x1_0000_0000
  {
    Shifts();
    var q, r := x / 0x1_0000, x % 0x1_0000;
    var a, b := q / 0x1_0000, q % 0x1_0000;
    DivModUnique(x * 0x1_0000_0000, 0x1_0000_0000_0000_0000, a, b * 0x1_0000_0000_0000 + r * 0x1_0000_0000);
    DivModUnique(b * 0x1_0000_0000_0000 + r * 0x1_0000_0000, 0x1_0000_0000_0000, b, r * 0x1_0000_0000);
  }

  lemma Shifted16(x: Word)
    ensures ShiftLeft(x, 16) % 0x1_0000_0000_0000 == x % 0x1_0000_0000 * 0x1_0000
  {
    Shifts();
    var q, r := x / 0x1_0000_0000, x % 0x1_0000_0000;
    var a, b := q / 0x1_0000, q % 0x1_0000;
    DivModUnique(x * 0x1_0000, 0x1_0000_0000_0000_0000, a, b * 0x1_0000_0000_0000 + r * 0x1_0000);
    DivModUnique(b * 0x1_0000_0000_0000 + r * 0x1_0000, 0x1_0000_0000_0000, b, r * 0x1_0000);
  }

  method LeadingGroup(r14: Word, r13: Word) returns (rsi: nat)
    ensures rsi == r13 % 0x1_0000 * 0x1_0000_0000 + r14 / 0x1_0000_0000
  {
    rsi := ShiftLeft(r13, 32);
    Masked(rsi);
    Shifted32(r13);
    rsi := And(rsi, MASK48);
    Joined32(r13 % 0x1_0000, r14);
    rsi := Or(rsi, ShiftRight(r14, 32));
  }

  method MiddleGroup(r15: Word, r14: Word) returns (rdx: nat)
    ensures rdx == r14 % 0x1_0000_0000 * 0x1_0000 + r15 / 0x1_0000_0000_0000
    ensures rdx < 0x1_0000_0000_0000
  {
    rdx := ShiftLeft(r14, 16);
    Masked(rdx);
    Shifted16(r14);
    rdx := And(rdx, MASK48);
    Joined16(r14 % 0x1_0000_0000, r15);
    rdx := Or(rdx, ShiftRight(r15, 48));
  }

  /** What printf shows for groups handed to it most significant first: all but the first are padded to
      sixteen octal digits. */
  function Octal(groups: seq<nat>): nat {
    if groups == [] then 0
    else Octal(groups[..|groups| - 1]) * 0x1_0000_0000_0000 + groups[|groups| - 1]
  }

  lemma OctalAppend(front: seq<nat>, x: nat)
    ensures Octal(front + [x]) == Octal(front) * 0x1_0000_0000_0000 + x
  {
    assert (front + [x])[..|front|] == front;
  }

  lemma OctalOfThree(a: nat, b: nat, c: nat)
    ensures Octal([a]) == a
    ensures Octal([a, b]) == a * 0x1_0000_0000_0000 + b
    ensures Octal([a, b, c]) == a * 0x1_0000_0000_0000_0000_0000_0000 + b * 0x1_0000_0000_0000 + c
  {
    OctalAppend([], a);
    assert [] + [a] == [a];
    OctalAppend([a], b);
    assert [a] + [b] == [a, b];
    OctalAppend([a, b], c);
    assert [a, b] + [c] == [a, b, c];
  }

  /** Every group fits its sixteen octal digits. */
  predicate AllFit(groups: seq<nat>) {
    forall i :: 0 <= i < |groups| ==> groups[i] < 0x1_0000_0000_0000
  }

  method PrintOctal1(r: Registers) returns (args: seq<nat>)
    requires Primary(r) < 0x1_0000_0000_0000
    ensures Octal(args) == Primary(r) && |args| == 1 && AllFit(args)
  {
    OctalOfThree(r.r8, 0, 0);
    args := [r.r8];
  }

  method PrintOctal2(r: Registers) returns (args: seq<nat>)
    requires Primary(r) < 0x1_0000_0000_0000_0000_0000_0000
    ensures Octal(args) == Primary(r) && |args| == 2 && AllFit(args)
    ensures Primary(r) >= 0x1_0000_0000_0000 ==> args[0] != 0
  {
    var rsi, rdx := Octal139(r);
    OctalOfThree(rsi, rdx, 0);
    args := [rsi, rdx];
  }

  method PrintOctal3(r: Registers) returns (args: seq<nat>)
    requires Primary(r) < 0x1_0000_0000_0000_0000_0000_0000_0000_0000_0000
    ensures Octal(args) == Primary(r) && |args| == 3 && AllFit(args)
    ensures Primary(r) >= 0x1_0000_0000_0000_0000_0000_0000 ==> args[0] != 0
  {
    var rsi, rdx, rcx := Octal209(r);
    OctalOfThree(rsi, rdx, rcx);
    args := [rsi, rdx, rcx];
  }

  /** With -o, for every count up to 209 the octal number printed is the Fibonacci number, in as many groups
      of sixteen octal digits as it fits. */
  method PrintOctal(stop: nat) returns (args: seq<nat>)
    requires stop <= 209
    ensures Octal(args) == Fib(stop)
    ensures |args| == (if stop <= 70 then 1 else if stop <= 139 then 2 else 3) && AllFit(args)
    ensures |args| > 1 ==> args[0] != 0
  {
    var r := Loop(stop);
    NothingLost(stop);
    if stop <= 70 {
      Below48Bits(stop);
      args := PrintOctal1(r);
    } else if stop <= 139 {
      Below96Bits(stop);
      Reaches48Bits(stop);
      args := PrintOctal2(r);
    } else {
      Below144Bits(stop);
      Reaches96Bits(stop);
      args := PrintOctal3(r);
    }
  }
}
