/** 64-bit registers with the carries and borrows the arithmetic instructions leave. */
module Words {
  import opened Powers

  type Word = x: int | 0 <= x < 0x1_0000_0000_0000_0000

  /** A double word, high half first. */
  function Pair(hi: int, lo: int): int {
    hi * 0x1_0000_0000_0000_0000 + lo
  }

  /** What fits a register of x, and what is carried out of it. */
  function Low(x: int): Word {
    x % 0x1_0000_0000_0000_0000
  }

  function High(x: int): int {
    x / 0x1_0000_0000_0000_0000
  }

  /** What fits a double word. */
  function Wrap(x: int): (r: int)
    ensures 0 <= r < 0x1_0000_0000_0000_0000_0000_0000_0000_0000
  {
    x % 0x1_0000_0000_0000_0000_0000_0000_0000_0000
  }

  /** Carrying the part of lo above one word into hi, and dropping what leaves the double word. */
  lemma CarryInto(hi: int, lo: int)
    ensures Pair(Low(hi + High(lo)), Low(lo)) == Wrap(Pair(hi, lo))
  {
  }

  /** sub / sbb: the difference and the borrow. */
  function Subtract(a: Word, b: Word, borrow: bool): (r: (Word, bool))
    ensures a - b - (if borrow then 1 else 0) == r.0 - (if r.1 then 0x1_0000_0000_0000_0000 else 0)
  {
    var x := a - b - if borrow then 1 else 0;
    if x < 0 then (x + 0x1_0000_0000_0000_0000, true) else (x, false)
  }

  /** add / adc / xadd: the sum and the carry. */
  function Add(a: Word, b: Word, carry: bool): (r: (Word, bool))
    ensures a + b + (if carry then 1 else 0) == r.0 + (if r.1 then 0x1_0000_0000_0000_0000 else 0)
  {
    var x := a + b + if carry then 1 else 0;
    if x >= 0x1_0000_0000_0000_0000 then (x - 0x1_0000_0000_0000_0000, true) else (x, false)
  }

  // ---- Scanning ----

  /** bsr: the index of the most significant one bit; its source must not be zero. */
  function Bsr(x: Word): (r: nat)
    requires x > 0
    ensures Pow2(r) <= x < Pow2(r + 1)
  {
    if x == 1 then 0 else 1 + Bsr(x / 2)
  }

  lemma BsrBelow64(x: Word)
    requires x > 0
    ensures Bsr(x) < 64
  {
    if Bsr(x) >= 64 {
      Pow2Monotone(64, Bsr(x));
      Pow2Word();
    }
  }
}
