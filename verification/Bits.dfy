/** The bitwise instructions on whole numbers, and what they do to fields that do not overlap. */
module Bits {
  import opened Arithmetic
  import opened Powers

  function And(a: nat, b: nat): nat
    decreases a
  {
    if a == 0 || b == 0 then 0
    else (if a % 2 == 1 && b % 2 == 1 then 1 else 0) + 2 * And(a / 2, b / 2)
  }

  function Or(a: nat, b: nat): nat
    decreases a + b
  {
    if a == 0 && b == 0 then 0
    else (if a % 2 == 1 || b % 2 == 1 then 1 else 0) + 2 * Or(a / 2, b / 2)
  }

  /** Dividing by twice as much: the last bit is set aside. */
  lemma HalfRemainder(x: nat, p: int)
    requires p > 0
    ensures x % (2 * p) == x % 2 + 2 * (x / 2 % p)
  {
    var q, r := x / 2 / p, x / 2 % p;
    DivModSplit(x / 2, p);
    Twice(q, p);
    DivModUnique(x, 2 * p, q, x % 2 + 2 * r);
  }

  /** Masking with k ones keeps the remainder. */
  lemma {:induction false} AndMask(x: nat, k: nat)
    ensures And(x, Pow2(k) - 1) == x % Pow2(k)
    decreases k
  {
    if k > 0 {
      var p := Pow2(k - 1);
      AndMask(x / 2, k - 1);
      HalfRemainder(x, p);
      AndOdd(x, p - 1);
    } else {
      DivModUnique(x, 1, x, 0);
    }
  }

  lemma AndOdd(x: nat, m: nat)
    ensures And(x, 2 * m + 1) == x % 2 + 2 * And(x / 2, m)
  {
  }

  lemma Twice(q: int, p: int)
    ensures q * (2 * p) == 2 * (q * p)
  {
  }

  lemma {:induction false} OrZero(a: nat)
    ensures Or(a, 0) == a
  {
    if a > 0 { OrZero(a / 2); }
  }

  /** Or of a field shifted above another one is their sum. */
  lemma {:induction false} OrField(a: nat, k: nat, b: nat)
    requires b < Pow2(k)
    ensures a * Pow2(k) >= 0 && Or(a * Pow2(k), b) == a * Pow2(k) + b
    decreases k
  {
    if k == 0 {
      OrZero(a);
    } else {
      var p := Pow2(k - 1);
      Twice(a, p);
      OrField(a, k - 1, b / 2);
      assert a * Pow2(k) / 2 == a * p && a * Pow2(k) % 2 == 0;
    }
  }
}
