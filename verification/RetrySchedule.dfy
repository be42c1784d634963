/** When the RPC client sends again: `Client::Operation::send`, `net/rpc/client.cc`. */
module RetrySchedule {
  import opened Fibonacci

  /** What is left of the timeout, and the state of the Fibonacci sequence. */
  datatype Retry = Retry(timeout: int, a: int, b: int)

  function Wait(r: Retry, initialRetry: int): int {
    if initialRetry * r.a <= r.timeout then initialRetry * r.a else r.timeout
  }

  /** A send arms the timer for the wait and takes it off the timeout. */
  function AfterSend(r: Retry, initialRetry: int): Retry {
    Retry(r.timeout - Wait(r, initialRetry), r.b, r.a + r.b)
  }

  function AfterSends(timeout: int, initialRetry: int, n: nat): Retry {
    if n == 0 then Retry(timeout, 1, 1) else AfterSend(AfterSends(timeout, initialRetry, n - 1), initialRetry)
  }

  function WaitSum(timeout: int, initialRetry: int, n: nat): int {
    if n == 0 then 0
    else WaitSum(timeout, initialRetry, n - 1) + Wait(AfterSends(timeout, initialRetry, n - 1), initialRetry)
  }

  /** Send number `n`, counted from zero, takes place: a send with no timeout left aborts instead. */
  predicate Sends(timeout: int, initialRetry: int, n: nat) {
    AfterSends(timeout, initialRetry, n).timeout > 0
  }

  /** The waits and what is left always add up to the timeout asked for. */
  lemma {:induction false} WaitsAddUp(timeout: int, initialRetry: int, n: nat)
    ensures WaitSum(timeout, initialRetry, n) + AfterSends(timeout, initialRetry, n).timeout == timeout
  {
    if n > 0 { WaitsAddUp(timeout, initialRetry, n - 1); }
  }

  /** What the first `n` waits come to when none is cut short. */
  function Demand(initialRetry: int, n: nat): int {
    initialRetry * (Fib(n + 2) - 1)
  }

  lemma {:induction false} DemandStep(initialRetry: int, n: nat)
    requires initialRetry > 0 && n > 0
    ensures Demand(initialRetry, n) == Demand(initialRetry, n - 1) + initialRetry * Fib(n)
    ensures initialRetry * Fib(n) > 0
  {
    FibPositive(n);
    Distribute(initialRetry, Fib(n + 1) - 1, Fib(n));
  }

  lemma {:induction false} Distribute(r: int, x: int, y: int)
    ensures r * (x + y) == r * x + r * y
    ensures r > 0 && y > 0 ==> r * y > 0
  {
  }

  lemma {:induction false} AfterSendsClosed(timeout: int, initialRetry: int, n: nat)
    requires timeout > 0 && initialRetry > 0
    ensures var r := AfterSends(timeout, initialRetry, n);
            && r.a == Fib(n + 1) && r.b == Fib(n + 2)
            && r.timeout == if Demand(initialRetry, n) <= timeout then timeout - Demand(initialRetry, n) else 0
  {
    if n > 0 {
      AfterSendsClosed(timeout, initialRetry, n - 1);
      DemandStep(initialRetry, n);
    }
  }

  /** The operation times out at send `n`, having sent exactly `n` times. */
  predicate TimesOutAfter(timeout: int, initialRetry: int, n: nat) {
    !Sends(timeout, initialRetry, n) && forall m: nat | m < n :: Sends(timeout, initialRetry, m)
  }

  /** The number of sends is the least n for which the first n Fibonacci numbers use up the timeout. */
  lemma {:induction false} SendCount(timeout: int, initialRetry: int, n: nat)
    requires timeout > 0 && initialRetry > 0
    ensures TimesOutAfter(timeout, initialRetry, n)
       <==> && Demand(initialRetry, n) >= timeout
            && forall m: nat | m < n :: Demand(initialRetry, m) < timeout
  {
    AfterSendsClosed(timeout, initialRetry, n);
    forall m: nat | m < n
      ensures Sends(timeout, initialRetry, m) <==> Demand(initialRetry, m) < timeout
    {
      AfterSendsClosed(timeout, initialRetry, m);
    }
  }

  /** How many sends are still to come from `r` on. */
  function RoundsLeft(r: Retry, initialRetry: int): nat
    requires initialRetry > 0 && r.a > 0 && r.b > 0
    decreases if r.timeout > 0 then r.timeout else 0
  {
    if r.timeout <= 0 then 0
    else
      Distribute(initialRetry, 0, r.a);
      1 + RoundsLeft(AfterSend(r, initialRetry), initialRetry)
  }

  /** The sends to come are counted by `TimesOutAfter`. */
  lemma {:induction false} RoundsAre(timeout: int, initialRetry: int, m: nat, n: nat)
    requires timeout > 0 && initialRetry > 0 && TimesOutAfter(timeout, initialRetry, n) && m <= n
    ensures var r := AfterSends(timeout, initialRetry, m);
            r.a > 0 && r.b > 0 && RoundsLeft(r, initialRetry) == n - m
    decreases n - m
  {
    AfterSendsClosed(timeout, initialRetry, m);
    FibPositive(m + 1);
    FibPositive(m + 2);
    if m < n {
      assert Sends(timeout, initialRetry, m);
      RoundsAre(timeout, initialRetry, m + 1, n);
    }
  }

  lemma {:induction false} DemandGrows(initialRetry: int, n: nat)
    requires initialRetry > 0
    ensures Demand(initialRetry, n) >= n
  {
    if n > 0 {
      DemandGrows(initialRetry, n - 1);
      DemandStep(initialRetry, n);
    } else {
      assert Fib(2) == 1;
    }
  }

  /** Every operation times out after some number of sends. */
  lemma {:induction false} TimesOutEventually(timeout: int, initialRetry: int) returns (n: nat)
    requires timeout > 0 && initialRetry > 0
    ensures TimesOutAfter(timeout, initialRetry, n)
  {
    n := 0;
    while Sends(timeout, initialRetry, n)
      invariant forall m: nat | m < n :: Sends(timeout, initialRetry, m)
      decreases timeout - n
    {
      AfterSendsClosed(timeout, initialRetry, n);
      DemandGrows(initialRetry, n);
      n := n + 1;
    }
  }

  lemma {:induction false} DemandMonotone(initialRetry: int, m: nat, n: nat)
    requires initialRetry > 0 && m <= n
    ensures Demand(initialRetry, m) <= Demand(initialRetry, n)
    decreases n
  {
    if m < n {
      DemandMonotone(initialRetry, m, n - 1);
      DemandStep(initialRetry, n);
    }
  }

  /** The 32-bit sequence stays in range over all sends exactly when the timeout is at most 1836311902
      initial retries. */
  lemma {:induction false} NoOverflowIff(timeout: int, initialRetry: int)
    requires timeout > 0 && initialRetry > 0
    ensures timeout <= 1836311902 * initialRetry
       <==> forall n: nat :: Sends(timeout, initialRetry, n) ==>
              AfterSends(timeout, initialRetry, n + 1).b < 0x8000_0000
  {
    var last: nat :| last == 44;
    FibAt46(last + 2);
    assert Demand(initialRetry, last) == 1836311902 * initialRetry;
    if timeout <= 1836311902 * initialRetry {
      forall n: nat | Sends(timeout, initialRetry, n)
        ensures AfterSends(timeout, initialRetry, n + 1).b < 0x8000_0000
      {
        AfterSendsClosed(timeout, initialRetry, n);
        AfterSendsClosed(timeout, initialRetry, n + 1);
        if n >= last { DemandMonotone(initialRetry, last, n); }
        FibMonotone(n + 3, last + 2);
      }
    } else {
      AfterSendsClosed(timeout, initialRetry, last);
      AfterSendsClosed(timeout, initialRetry, last + 1);
      assert Sends(timeout, initialRetry, last);
    }
  }
}
