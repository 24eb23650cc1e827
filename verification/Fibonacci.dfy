module Fibonacci {
  import opened Powers

  function Fib(n: nat): nat {
    if n < 2 then n else Fib(n - 1) + Fib(n - 2)
  }

  /** The Fibonacci number before Fib(n), counting one before the first. */
  function FibBefore(n: nat): nat {
    if n == 0 then 1 else Fib(n - 1)
  }

  lemma FibNext(n: nat)
    ensures Fib(n + 1) == Fib(n) + FibBefore(n) && FibBefore(n + 1) == Fib(n)
  {
  }

  lemma {:induction false} FibMonotone(m: nat, n: nat)
    requires m <= n
    ensures Fib(m) <= Fib(n)
    decreases n - m
  {
    if m < n {
      FibMonotone(m, n - 1);
    }
  }

  /** Fibonacci numbers at least double every two steps. */
  lemma {:induction false} FibGrowth(n: nat)
    ensures Fib(n + 2) >= Pow2(n / 2)
  {
    if n >= 2 {
      FibGrowth(n - 2);
      FibMonotone(n, n + 1);
      assert n / 2 - 1 == (n - 2) / 2;
      assert Fib(n + 2) == Fib(n + 1) + Fib(n) && Fib(n) == Fib(n - 2 + 2);
    }
  }
}
