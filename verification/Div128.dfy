/** The 128-bit division routine as a machine of 64-bit registers. */
module Div128 {
  import opened Arithmetic
  import opened Options
  import opened Powers
  import opened Words

  /** Which register the second bsr reads. The instruction names the low half of the divisor, the comment
      beside it the high half of the dividend. */
  datatype BsrSource = LowDivisor | HighDividend

  /** rdx:rax and the double word stored through r8. */
  datatype Result = Result(qhi: Word, qlo: Word, rhi: Word, rlo: Word)

  /** What a call comes to: a result, the exception of the hardware division, or a bsr of zero, which the processor
      leaves undefined. */
  datatype Outcome = Done(result: Result) | DivideError | Undefined

  /** The result is quotient and remainder of n by d. */
  ghost predicate Divides(x: Result, n: int, d: int) {
    Pair(x.qhi, x.qlo) * d + Pair(x.rhi, x.rlo) == n && Pair(x.rhi, x.rlo) < d
  }

  /** div: None is the division exception, raised for a zero divisor or a quotient of more than 64 bits. */
  function Div(hi: Word, lo: Word, d: Word): (r: Option<(Word, Word)>)
    ensures r.Some? <==> hi < d
    ensures r.Some? ==> r.value.0 * d + r.value.1 == Pair(hi, lo) && r.value.1 < d
  {
    if hi < d then
      QuotientBelow(Pair(hi, lo), d, 0x1_0000_0000_0000_0000);
      DivModSplit(Pair(hi, lo), d);
      Some((Pair(hi, lo) / d, Pair(hi, lo) % d))
    else None
  }

  // ---- Shifts over two registers ----

  /** shld r11, r10, cl / shl r10, cl for a shift distance below 64. */
  function ShiftLeft(r11: Word, r10: Word, s: nat): (r: (Word, Word))
    requires s < 64
    ensures Pair(r.0, r.1) == Wrap(Pair(r11, r10) * Pow2(s))
  {
    ShiftLeftValue(r11, r10, s);
    (Low(r11 * Pow2(s) + r10 / Pow2(64 - s)), Low(r10 * Pow2(s)))
  }

  lemma ShiftLeftValue(r11: Word, r10: Word, s: nat)
    requires s < 64
    ensures Pair(Low(r11 * Pow2(s) + r10 / Pow2(64 - s)), Low(r10 * Pow2(s))) == Wrap(Pair(r11, r10) * Pow2(s))
  {
    Pow2Word();
    Pow2Add(64 - s, s);
    ShiftBy(r11, r10, Pow2(s), Pow2(64 - s));
  }

  lemma ShiftBy(hi: int, lo: int, p: int, q: int)
    requires p > 0 && q > 0 && q * p == 0x1_0000_0000_0000_0000
    ensures Pair(Low(hi * p + lo / q), Low(lo * p)) == Wrap(Pair(hi, lo) * p)
  {
    DivCancel(lo, q, p);
    assert lo / q == High(lo * p);
    CarryInto(hi * p, lo * p);
    Distribute(hi * 0x1_0000_0000_0000_0000, lo, p);
    Exchange(hi, 0x1_0000_0000_0000_0000, p);
  }

  lemma Distribute(a: int, b: int, c: int)
    ensures (a + b) * c == a * c + b * c
  {
  }

  lemma Exchange(a: int, b: int, c: int)
    ensures a * b * c == a * c * b
  {
  }

  /** shr r11, 1 / rcr r10, 1. */
  function ShiftRight(r11: Word, r10: Word): (r: (Word, Word))
    ensures Pair(r.0, r.1) == Pair(r11, r10) / 2
  {
    (r11 / 2, r10 / 2 + if r11 % 2 == 1 then 0x8000_0000_0000_0000 else 0)
  }

  // ---- Shift and subtract ----

  /** i turns of binary long division on whole numbers: the divisor halves, the quotient doubles. */
  function Peel(rem: int, div: int, q: int, i: nat): (int, int)
    decreases i
  {
    if i == 0 then (q, rem)
    else if rem >= div then Peel(rem - div, div / 2, 2 * q + 1, i - 1)
    else Peel(rem, div / 2, 2 * q, i - 1)
  }

  /** What is still due of a division by d with i bits of quotient to come: the sum of both stays. */
  ghost predicate PeelDone(r: (int, int), rem: int, q: int, d: int, p: int) {
    && r.0 * d + r.1 == rem + q * p * d
    && r.1 >= 0 && q * p <= r.0 < q * p + p
    && (r.1 < d <==> rem < d * p)
  }

  /** Started from d shifted by one less than the number of turns, nothing is lost; and the remainder ends
      below d exactly when the dividend was below d shifted by the number of turns. */
  lemma {:induction false} PeelDivides(rem: int, d: int, q: int, i: nat)
    requires d > 0 && rem >= 0
    ensures PeelDone(Peel(rem, if i == 0 then 0 else d * Pow2(i - 1), q, i), rem, q, d, Pow2(i))
    decreases i
  {
    if i > 0 {
      var p := Pow2(i - 1);
      var div, half := d * p, if i == 1 then 0 else d * Pow2(i - 2);
      assert i > 1 ==> div / 2 == half by {
        if i > 1 { Doubled(d, Pow2(i - 2)); }
      }
      Doubled(d, p);
      var bit := if rem >= div then 1 else 0;
      PeelDivides(rem - bit * div, d, 2 * q + bit, i - 1);
      PeelIgnoresLast(rem - bit * div, div / 2, half, 2 * q + bit, i - 1);
      OneBit(Peel(rem, div, q, i), rem, q, bit, d, p);
    }
  }

  lemma PeelIgnoresLast(rem: int, div: int, div': int, q: int, i: nat)
    requires i > 0 ==> div == div'
    ensures Peel(rem, div, q, i) == Peel(rem, div', q, i)
  {
  }

  lemma Doubled(d: int, p: int)
    ensures d * (2 * p) == 2 * (d * p)
  {
  }

  lemma BitProducts(q: int, bit: int, d: int, p: int)
    ensures (2 * q + bit) * p == q * (2 * p) + bit * p
    ensures (2 * q + bit) * p * d == q * (2 * p) * d + bit * (d * p)
    ensures d * (2 * p) == 2 * (d * p)
  {
    Distribute(2 * q, bit, p);
    Doubled(q, p);
    Doubled(d, p);
    Distribute(q * (2 * p), bit * p, d);
    Rotate(bit, p, d);
  }

  lemma Rotate(a: int, b: int, c: int)
    ensures a * b * c == a * (c * b)
  {
  }

  /** Accounting for one bit of the quotient. */
  lemma OneBit(r: (int, int), rem: int, q: int, bit: int, d: int, p: int)
    requires d > 0 && p > 0 && bit == (if rem >= d * p then 1 else 0)
    requires PeelDone(r, rem - bit * (d * p), 2 * q + bit, d, p)
    ensures PeelDone(r, rem, q, d, 2 * p)
  {
    BitProducts(q, bit, d, p);
    MulMonotone(1, d, p);
    OneBitSums(r, rem, bit, d, p, d * p, (2 * q + bit) * p, q * (2 * p), (2 * q + bit) * p * d, q * (2 * p) * d, r.0 * d);
  }

  /** The same with the products named. */
  lemma OneBitSums(r: (int, int), rem: int, bit: int, d: int, p: int, dp: int, qp': int, qp: int, qpd': int, qpd: int, rd: int)
    requires p > 0 && dp > 0 && bit == (if rem >= dp then 1 else 0)
    requires rd + r.1 == rem - (if bit == 1 then dp else 0) + qpd' && r.1 >= 0 && qp' <= r.0 < qp' + p
    requires r.1 < d <==> rem - (if bit == 1 then dp else 0) < dp
    requires qp' == qp + (if bit == 1 then p else 0) && qpd' == qpd + (if bit == 1 then dp else 0)
    ensures rd + r.1 == rem + qpd && qp <= r.0 < qp + 2 * p && (r.1 < d <==> rem < 2 * dp)
  {
  }

  /** The registers of the loop: dividend, shifted divisor, quotient. */
  datatype Registers = Registers(rsi: Word, rdi: Word, r11: Word, r10: Word, r9: Word)

  /** sub/sbb, cmovb twice, cmc, adc, shr/rcr. */
  function Turn(m: Registers): Registers {
    var (low, borrow) := Subtract(m.rdi, m.r10, false);
    var (high, below) := Subtract(m.rsi, m.r11, borrow);
    var (r11, r10) := ShiftRight(m.r11, m.r10);
    Registers(if below then m.rsi else high, if below then m.rdi else low, r11, r10, Add(m.r9, m.r9, !below).0)
  }

  function PeelFrom(m: Registers, i: nat): (int, int) {
    Peel(Pair(m.rsi, m.rdi), Pair(m.r11, m.r10), m.r9, i)
  }

  /** What one turn does to the three numbers the registers hold. */
  lemma TurnValues(m: Registers, done: nat)
    requires m.r9 < Pow2(done) && done < 64
    ensures var rem, div := Pair(m.rsi, m.rdi), Pair(m.r11, m.r10);
            && Pair(Turn(m).rsi, Turn(m).rdi) == (if rem >= div then rem - div else rem)
            && Turn(m).r9 == (if rem >= div then 2 * m.r9 + 1 else 2 * m.r9)
            && Pair(Turn(m).r11, Turn(m).r10) == div / 2
            && Turn(m).r9 < Pow2(done + 1)
  {
    RoomForBit(m.r9, done);
  }

  lemma TurnPeels(m: Registers, done: nat, left: nat)
    requires m.r9 < Pow2(done) && done < 64 && left > 0
    ensures PeelFrom(m, left) == PeelFrom(Turn(m), left - 1)
    ensures Turn(m).r9 < Pow2(done + 1)
  {
    TurnValues(m, done);
    PeelStep(Pair(m.rsi, m.rdi), Pair(m.r11, m.r10), m.r9, left);
  }

  lemma PeelStep(rem: int, div: int, q: int, i: nat)
    requires i > 0
    ensures rem >= div ==> Peel(rem, div, q, i) == Peel(rem - div, div / 2, 2 * q + 1, i - 1)
    ensures rem < div ==> Peel(rem, div, q, i) == Peel(rem, div / 2, 2 * q, i - 1)
  {
  }

  /** The loop over the registers: ecx counts down past zero. */
  method ShiftAndSubtract(hi: Word, lo: Word, dhi: Word, dlo: Word, distance: int)
    returns (r9: Word, rsi: Word, rdi: Word)
    requires distance < 64
    ensures (r9, Pair(rsi, rdi)) ==
            Peel(Pair(hi, lo), Pair(dhi, dlo), 0, if distance >= 0 then distance + 1 else 1)
  {
    var m, ecx, again := Registers(hi, lo, dhi, dlo, 0), distance, true;
    ghost var start := m;
    ghost var turns: nat := if distance >= 0 then distance + 1 else 1;
    ghost var done: nat, left: nat := 0, turns;
    while again
      invariant done + left == turns <= 64 && (again <==> left > 0)
      invariant ecx == distance - done
      invariant m.r9 < Pow2(done) && PeelFrom(m, left) == PeelFrom(start, turns)
      decreases left
    {
      TurnPeels(m, done, left);
      m := Turn(m);
      ecx := ecx - 1;
      again := ecx >= 0;
      done, left := done + 1, left - 1;
    }
    r9, rsi, rdi := m.r9, m.rsi, m.rdi;
  }

  lemma RoomForBit(r9: Word, done: nat)
    requires r9 < Pow2(done) && done < 64
    ensures 2 * r9 + 1 < Pow2(done + 1) <= 0x1_0000_0000_0000_0000
  {
    Pow2Monotone(done + 1, 64);
    Pow2Word();
  }

  // ---- Which shift distances work ----

  lemma BsrMonotone(a: Word, b: Word)
    requires 0 < a <= b
    ensures Bsr(a) <= Bsr(b)
  {
    if Bsr(b) < Bsr(a) { Pow2Monotone(Bsr(b) + 1, Bsr(a)); }
  }

  lemma TopBit(c: nat)
    requires c < 64
    ensures 0 < 2 * Pow2(c) <= 0x1_0000_0000_0000_0000
  {
    Pow2Monotone(c + 1, 64);
    Pow2Word();
  }

  /** With leading one bits at b in the divisor's high word, shifting by c - b fills up to bit c. */
  lemma ShiftedDivisor(rcx: Word, rdx: Word, b: nat, c: nat)
    requires Pow2(b) <= rcx < Pow2(b + 1) && b <= c < 64
    ensures var x := Pair(rcx, rdx) * Pow2(c - b);
            Pair(Pow2(c), 0) <= x < Pair(2 * Pow2(c), 0) && Wrap(x) == x
  {
    var p, d, low := Pow2(c - b), Pair(rcx, rdx), Pair(Pow2(b), 0);
    assert low <= d < 2 * low;
    Scale(low, d, p);
    Pow2Add(b, c - b);
    Exchange(Pow2(b), 0x1_0000_0000_0000_0000, p);
    TopBit(c);
    WrapBelow(d * p);
  }

  lemma WrapBelow(x: int)
    requires 0 <= x < 0x1_0000_0000_0000_0000_0000_0000_0000_0000
    ensures Wrap(x) == x
  {
  }

  lemma Scale(low: int, d: int, p: int)
    requires low <= d < 2 * low && p > 0
    ensures low * p <= d * p < 2 * (low * p)
  {
    MulMonotone(low, d, p);
    MulMonotone(d + 1, 2 * low, p);
    Distribute(d, 1, p);
    Exchange(2, low, p);
  }

  /** The dividend is below the divisor shifted one bit further than its leading one bit to bit c. */
  ghost predicate Fits(n: int, rcx: Word, rdx: Word, c: nat)
    requires rcx > 0
  {
    Bsr(rcx) <= c && n < Pair(rcx, rdx) * Pow2(c - Bsr(rcx) + 1)
  }

  /** A distance of c - b that is not negative: the division comes out right exactly when the dividend is
      below the divisor shifted by one more. */
  lemma ForwardShift(n: int, rcx: Word, rdx: Word, c: nat)
    requires rcx > 0 && Bsr(rcx) <= c < 64 && n >= 0
    ensures var d := Pair(rcx, rdx); var k := c - Bsr(rcx);
            var (q, r) := Peel(n, Wrap(d * Pow2(k)), 0, k + 1);
            q * d + r == n && (r < d <==> Fits(n, rcx, rdx, c))
  {
    var d, k := Pair(rcx, rdx), c - Bsr(rcx);
    ShiftedDivisor(rcx, rdx, Bsr(rcx), c);
    PeelDivides(n, d, 0, k + 1);
  }

  /** The distance the comment asks for always works. */
  lemma CommentedDistance(rsi: Word, rdi: Word, rcx: Word, rdx: Word)
    requires rcx > 0 && Pair(rcx, rdx) <= Pair(rsi, rdi)
    ensures rsi > 0 && Bsr(rsi) < 64 && Fits(Pair(rsi, rdi), rcx, rdx, Bsr(rsi))
  {
    BsrMonotone(rcx, rsi);
    BsrBelow64(rsi);
    var k, d := Bsr(rsi) - Bsr(rcx), Pair(rcx, rdx);
    ShiftedDivisor(rcx, rdx, Bsr(rcx), Bsr(rsi));
    Doubled(d, Pow2(k));
    assert Pow2(k + 1) == 2 * Pow2(k);
  }

  /** Multiplying by an odd number adds no factor of two. */
  lemma {:induction false} OddFactor(x: int, k: int, m: int, e: nat) returns (y: int)
    requires x * (2 * k + 1) == m * Pow2(e)
    ensures x == y * Pow2(e)
    decreases e
  {
    if e == 0 {
      y := x;
    } else {
      var p, h := Pow2(e - 1), x - (m * Pow2(e - 1) - x * k);
      Doubled(m, p);
      Doubled(x, k);
      Distribute(2 * k, 1, x);
      assert x == 2 * (m * p - x * k);
      var z := m * p - x * k;
      Exchange(2, z, 2 * k + 1);
      y := OddFactor(z, k, m, e - 1);
      Doubled(y, p);
    }
  }

  /** A left shift that wraps around never gives back the number shifted. */
  lemma WrappedShift(d: int, s: nat)
    requires 0 < d < 0x1_0000_0000_0000_0000_0000_0000_0000_0000 && s > 0
    ensures Wrap(d * Pow2(s)) != d
  {
    var p := Pow2(s);
    if Wrap(d * p) == d {
      var k, m := Pow2(s - 1) - 1, d * p / 0x1_0000_0000_0000_0000_0000_0000_0000_0000;
      assert p == 2 * k + 2;
      Distribute(2 * k + 1, 1, d);
      NoFixpoint(d, k, m);
    }
  }

  lemma NoFixpoint(d: int, k: int, m: int)
    requires 0 < d < 0x1_0000_0000_0000_0000_0000_0000_0000_0000
    ensures d * (2 * k + 1) != m * 0x1_0000_0000_0000_0000_0000_0000_0000_0000
  {
    Pow2Word();
    if d * (2 * k + 1) == m * 0x1_0000_0000_0000_0000_0000_0000_0000_0000 {
      var y := OddFactor(d, k, m, 128);
    }
  }

  /** Starting too low fills the quotient with ones. */
  lemma {:induction false} PeelFills(rem: int, d: int, q: int, i: nat)
    requires d > 0 && rem >= d * Pow2(i)
    ensures Peel(rem, if i == 0 then 0 else d * Pow2(i - 1), q, i).0 == q * Pow2(i) + Pow2(i) - 1
    decreases i
  {
    if i > 0 {
      var p := Pow2(i - 1);
      var div, half := d * p, if i == 1 then 0 else d * Pow2(i - 2);
      HalfOf(d, i);
      Doubled(d, p);
      MulMonotone(1, d, p);
      PeelStep(rem, div, q, i);
      PeelFills(rem - div, d, 2 * q + 1, i - 1);
      PeelIgnoresLast(rem - div, div / 2, half, 2 * q + 1, i - 1);
      FilledSum(q, p);
    }
  }

  lemma HalfOf(d: int, i: nat)
    requires i > 0
    ensures i > 1 ==> d * Pow2(i - 1) / 2 == d * Pow2(i - 2)
  {
    if i > 1 { Doubled(d, Pow2(i - 2)); }
  }

  lemma FilledSum(q: int, p: int)
    ensures (2 * q + 1) * p + p - 1 == q * (2 * p) + 2 * p - 1
  {
    Doubled(q, p);
    Distribute(2 * q, 1, p);
  }

  /** As much of a quotient as fits below p. */
  function Capped(x: int, p: int): int {
    if x < p then x else p - 1
  }

  lemma CappedQuotient(n: int, d: int, p: int, q: int, r: int)
    requires d > 0 && p > 0 && q * d + r == n && r >= 0 && q < p && (n < d * p ==> r < d) && (n >= d * p ==> q == p - 1)
    ensures q == Capped(n / d, p)
  {
    if n < d * p {
      DivModUnique(n, d, q, r);
    } else {
      DivModSplit(n, d);
      if n / d < p { MulMonotone(n / d + 1, p, d); }
    }
  }

  lemma PeelExact(n: int, d: int, k: nat)
    requires d > 0 && n >= 0
    ensures var (q, r) := Peel(n, d * Pow2(k), 0, k + 1);
            q * d + r == n && q == Capped(n / d, Pow2(k + 1))
  {
    PeelDivides(n, d, 0, k + 1);
    var (q, r) := Peel(n, d * Pow2(k), 0, k + 1);
    if n >= d * Pow2(k + 1) { PeelFills(n, d, 0, k + 1); }
    CappedQuotient(n, d, Pow2(k + 1), q, r);
  }

  /** What a distance k that is not negative makes of n, exactly: the quotient, or as many ones as there were turns if
      it does not fit them; and the rest of n. */
  lemma ForwardResult(n: int, rcx: Word, rdx: Word, c: nat)
    requires rcx > 0 && Bsr(rcx) <= c < 64 && n >= 0
    ensures var d := Pair(rcx, rdx); var k := c - Bsr(rcx);
            var (q, r) := Peel(n, Wrap(d * Pow2(k)), 0, k + 1);
            q * d + r == n && q == Capped(n / d, Pow2(k + 1))
  {
    ShiftedDivisor(rcx, rdx, Bsr(rcx), c);
    PeelExact(n, Pair(rcx, rdx), c - Bsr(rcx));
  }

  /** What the two-word branch leaves for the scanned bit c: see above for a distance that is not negative; otherwise
      one subtraction of the shift that wrapped around, if it can be made. */
  ghost predicate Leaves(x: Result, n: int, rcx: Word, rdx: Word, c: nat)
    requires rcx > 0
  {
    var d, k, rest := Pair(rcx, rdx), c - Bsr(rcx), Pair(x.rhi, x.rlo);
    && x.qhi == 0
    && if k >= 0 then
         x.qlo * d + rest == n && x.qlo == Capped(n / d, Pow2(k + 1))
       else
         k + 64 >= 0 &&
         var e := Wrap(d * Pow2(k + 64));
         if n >= e then x.qlo == 1 && rest == n - e else x.qlo == 0 && rest == n
  }

  /** A negative distance: the shift wraps, a single turn runs, and the division is always wrong. */
  lemma BackwardShift(n: int, d: int, s: nat)
    requires 0 < d < 0x1_0000_0000_0000_0000_0000_0000_0000_0000 && d <= n && s > 0
    ensures var (q, r) := Peel(n, Wrap(d * Pow2(s)), 0, 1); !(q * d + r == n && r < d)
  {
    var e := Wrap(d * Pow2(s));
    WrappedShift(d, s);
    assert Peel(n, e, 0, 1) == if n >= e then (1, n - e) else (0, n);
  }

  // ---- The routine ----

  /** The condition under which the second bsr scans a zero word. */
  predicate ScansZero(n: int, rcx: Word, rdx: Word, source: BsrSource) {
    source.LowDivisor? && rdx == 0 && rcx != 0 && n >= Pair(rcx, rdx)
  }

  /** The whole routine. With the register the comment names it divides all operands; with the register the
      instruction names, exactly those a caller can tell by Fits. */
  method Udivmodti4(rsi: Word, rdi: Word, rcx: Word, rdx: Word, source: BsrSource) returns (x: Outcome)
    ensures x.DivideError? <==> Pair(rcx, rdx) == 0
    ensures x.Undefined? <==> ScansZero(Pair(rsi, rdi), rcx, rdx, source)
    ensures x.Done? && source.HighDividend? ==> Divides(x.result, Pair(rsi, rdi), Pair(rcx, rdx))
    ensures x.Done? && source.LowDivisor? ==>
              (Divides(x.result, Pair(rsi, rdi), Pair(rcx, rdx)) <==>
               Pair(rsi, rdi) < Pair(rcx, rdx) || rcx == 0 || Fits(Pair(rsi, rdi), rcx, rdx, Bsr(rdx)))
    ensures x.Done? && source.LowDivisor? && rcx != 0 && Pair(rsi, rdi) >= Pair(rcx, rdx) ==>
              Leaves(x.result, Pair(rsi, rdi), rcx, rdx, Bsr(rdx))
  {
    var borrow := Subtract(rdi, rdx, false).1;
    var below := Subtract(rsi, rcx, borrow).1;
    if below {
      return Done(Result(0, 0, rsi, rdi));
    }
    if rcx == 0 {
      var simple := Simple(rsi, rdi, rdx);
      x := if simple.Some? then Done(simple.value) else DivideError;
    } else {
      CommentedDistance(rsi, rdi, rcx, rdx);
      var scanned := if source.LowDivisor? then rdx else rsi;
      if scanned == 0 { return Undefined; }
      BsrBelow64(scanned);
      var r := Large(rsi, rdi, rcx, rdx, Bsr(scanned));
      x := Done(r);
    }
  }

  /** A divisor of one word: one hardware division if the quotient fits, else schoolbook with two. */
  method Simple(rsi: Word, rdi: Word, r9: Word) returns (x: Option<Result>)
    ensures x.Some? <==> r9 != 0
    ensures x.Some? ==> Divides(x.value, Pair(rsi, rdi), r9)
  {
    if rsi >= r9 {
      var first := Div(0, rsi, r9);
      if first.None? { return None; }
      var (r10, rdx) := first.value;
      var second := Div(rdx, rdi, r9);
      var (rax, rest) := second.value;
      x := Some(Result(r10, rax, 0, rest));
      Schoolbook(rsi, rdi, r9, r10, rdx, rax, rest);
    } else {
      var only := Div(rsi, rdi, r9);
      x := Some(Result(0, only.value.0, 0, only.value.1));
    }
  }

  lemma Schoolbook(hi: int, lo: int, d: int, q1: int, r1: int, q0: int, r0: int)
    requires q1 * d + r1 == hi && q0 * d + r0 == Pair(r1, lo)
    ensures Pair(q1, q0) * d + r0 == Pair(hi, lo)
  {
    Distribute(q1 * 0x1_0000_0000_0000_0000, q0, d);
    Exchange(q1, 0x1_0000_0000_0000_0000, d);
  }

  /** A divisor of two words: shift and subtract over the distance of the two leading one bits. */
  method Large(rsi: Word, rdi: Word, rcx: Word, rdx: Word, c: nat) returns (x: Result)
    requires rcx > 0 && Pair(rcx, rdx) <= Pair(rsi, rdi) && c < 64
    ensures Divides(x, Pair(rsi, rdi), Pair(rcx, rdx)) <==> Fits(Pair(rsi, rdi), rcx, rdx, c)
    ensures Leaves(x, Pair(rsi, rdi), rcx, rdx, c)
  {
    BsrBelow64(rcx);
    var distance := c - Bsr(rcx);
    var (r11, r10) := ShiftLeft(rcx, rdx, if distance >= 0 then distance else distance + 64);
    var r9, rhi, rlo := ShiftAndSubtract(rsi, rdi, r11, r10, distance);
    if distance >= 0 {
      ForwardShift(Pair(rsi, rdi), rcx, rdx, c);
      ForwardResult(Pair(rsi, rdi), rcx, rdx, c);
    } else {
      OneTurn(Pair(rsi, rdi), Wrap(Pair(rcx, rdx) * Pow2(distance + 64)));
      BackwardShift(Pair(rsi, rdi), Pair(rcx, rdx), distance + 64);
    }
    x := Result(0, r9, rhi, rlo);
  }

  lemma OneTurn(n: int, e: int)
    ensures Peel(n, e, 0, 1) == if n >= e then (1, n - e) else (0, n)
  {
    PeelStep(n, e, 0, 1);
  }

  /** As the instruction stands the routine is not right for all operands: it divides 2^66 by 2^64 + 1 into 1, where 3 is
      right, with a remainder of almost three times the divisor. */
  method WrongAsWritten() returns (x: Outcome)
    ensures x == Done(Result(0, 1, 2, 0xFFFF_FFFF_FFFF_FFFF))
    ensures Pair(4, 0) / Pair(1, 1) == 3
  {
    var rsi, one := 4, 1;
    x := Udivmodti4(rsi, 0, one, one, LowDivisor);
    WrongResult(x.result, Pair(rsi, 0), one);
  }

  lemma WrongResult(x: Result, n: int, one: Word)
    requires one == 1 && n == Pair(4, 0) && Leaves(x, n, one, one, Bsr(one))
    ensures x == Result(0, 1, 2, 0xFFFF_FFFF_FFFF_FFFF) && n / Pair(1, 1) == 3
  {
    DivModUnique(n, Pair(1, 1), 3, 0xFFFF_FFFF_FFFF_FFFD);
    assert Pow2(0 + 1) == 2;
    assert Capped(3, 2) == 1;
    assert x.qlo == 1 && Pair(x.rhi, x.rlo) == Pair(2, 0xFFFF_FFFF_FFFF_FFFF);
    DivModUnique(Pair(x.rhi, x.rlo), 0x1_0000_0000_0000_0000, x.rhi, x.rlo);
    DivModUnique(Pair(2, 0xFFFF_FFFF_FFFF_FFFF), 0x1_0000_0000_0000_0000, 2, 0xFFFF_FFFF_FFFF_FFFF);
  }
}
