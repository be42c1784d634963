/** `util/fibonacci-sequence.h` and the numbers it steps through. */
module Fibonacci {

  function Fib(n: nat): nat {
    if n < 2 then n else Fib(n - 1) + Fib(n - 2)
  }

  class FibonacciSequence {
    var a: int
    var b: int

    /** The sequence is at its `n`-th value. */
    ghost predicate At(n: nat)
      reads this
    {
      a == Fib(n + 1) && b == Fib(n + 2)
    }

    constructor ()
      ensures At(0)
    {
      a, b := 1, 1;
    }

    method Reset()
      modifies this
      ensures At(0)
    {
      a, b := 1, 1;
    }

    method Next()
      modifies this
      ensures a == old(b) && b == old(a + b)
      ensures forall n: nat :: old(At(n)) ==> At(n + 1)
    {
      var a0 := a;
      a := b;
      b := b + a0;
    }
  }

  /** The sum of the first n values is two steps ahead, less one. */
  function FibSum(n: nat): nat {
    if n == 0 then 0 else FibSum(n - 1) + Fib(n)
  }

  lemma {:induction false} FibSumClosed(n: nat)
    ensures FibSum(n) == Fib(n + 2) - 1
  {
    if n > 0 { FibSumClosed(n - 1); }
  }

  lemma {:induction false} FibMonotone(m: nat, n: nat)
    requires m <= n
    ensures Fib(m) <= Fib(n)
    decreases n
  {
    if m < n {
      FibMonotone(m, n - 1);
    }
  }

  lemma {:induction false} FibPositive(n: nat)
    requires n > 0
    ensures Fib(n) >= 1
  {
    FibMonotone(1, n);
  }

  lemma {:induction false} FibLeap(n: nat, x: nat, y: nat)
    requires Fib(n) == x && Fib(n + 1) == y
    ensures Fib(n + 5) == 3 * x + 5 * y && Fib(n + 6) == 5 * x + 8 * y
  {
    assert Fib(n + 2) == x + y;
    assert Fib(n + 3) == x + 2 * y;
    assert Fib(n + 4) == 2 * x + 3 * y;
  }

  /** The last Fibonacci number a signed 32-bit integer can hold, and the next. */
  lemma {:induction false} FibAt46(n: nat)
    requires n == 46
    ensures Fib(n) == 1836311903 && Fib(n + 1) == 2971215073
  {
    FibLeap(n - 46, 0, 1);
    FibLeap(n - 41, 5, 8);
    FibLeap(n - 36, 55, 89);
    FibLeap(n - 31, 610, 987);
    FibLeap(n - 26, 6765, 10946);
    FibLeap(n - 21, 75025, 121393);
    FibLeap(n - 16, 832040, 1346269);
    FibLeap(n - 11, 9227465, 14930352);
    FibLeap(n - 6, 102334155, 165580141);
    assert Fib(n - 1) == 1134903170 && Fib(n) == 1836311903;
  }
}
