/** Where the budget goes: a law for every step of every mixed run, and what it means for the sizes granted. */
module RateBudget {
  import opened Arithmetic
  import opened Options
  import opened RateMachine
  import opened Sequences

  // ----- one step

  /** The moment a step brings the budget up to, if it does. */
  function RefillTime(s: State, step: Step): Option<int> {
    match step
    case Nowait(_) => Some(s.now)
    case Acquire(_, _) => if s.queue == [] then Some(s.now) else None
    case Ring => s.armed
    case Pass(_) => None
    case Grant(_, _) => None
    case Return => None
    case Stall => None
  }

  /** The budget at a moment, before the cap. */
  function Earned(s: State, t: int): int {
    s.duration + (t - s.time)
  }

  /** What does not fit the bucket. */
  function Overflow(s: State, step: Step): int {
    var t := RefillTime(s, step);
    if t.Some? && Earned(s, t.value) > s.capacity then Earned(s, t.value) - s.capacity else 0
  }

  /** What the step lets through: the cost of the front request, or of a call that the budget covers. */
  function Costs(s: State, step: Step): seq<int> {
    if step.Grant? then [step.cost]
    else if step.Nowait? && step.cost <= s.capacity && step.cost <= Earned(s, s.now) then [step.cost]
    else []
  }

  function Sum(xs: seq<int>): int {
    if xs == [] then 0 else xs[0] + Sum(xs[1..])
  }

  /** Nothing but the cap takes budget away: every step keeps spending plus budget minus time, except for what does
      not fit the bucket at a refill. A refused call costs nothing. */
  lemma {:induction false} StepExact(s: State, step: Step)
    requires Inv(s) && Enabled(s, step)
    ensures Potential(Next(s, step)) == Potential(s) - Overflow(s, step)
    ensures Next(s, step).granted == s.granted + Sum(Costs(s, step))
    ensures Next(s, step).time == match RefillTime(s, step) case Some(t) => t case None => s.time
  {
    match step {
      case Pass(_) =>
      case Acquire(id, cost) => AcquireExact(s, id, cost);
      case Nowait(_) =>
      case Ring =>
      case Grant(_, _) =>
      case Return =>
      case Stall =>
        assert Next(s, step).queue[1..] == s.queue[1..];
    }
  }

  lemma {:induction false} AcquireExact(s: State, id: nat, cost: int)
    requires Inv(s) && Enabled(s, Acquire(id, cost))
    ensures Potential(Next(s, Acquire(id, cost))) == Potential(s) - Overflow(s, Acquire(id, cost))
  {
    var e := Entry(id, cost, cost);
    PrepaidAppend(Waiting(s), e);
    assert Waiting(Next(s, Acquire(id, cost))) == Waiting(s) + [e];
  }

  // ----- whole runs

  /** All that was lost to the cap. */
  function Overflows(s: State, steps: seq<Step>): int
    requires IsRun(s, steps)
    decreases |steps|
  {
    if steps == [] then 0 else Overflow(s, steps[0]) + Overflows(Next(s, steps[0]), steps[1..])
  }

  /** The costs of all that was let through, in order. */
  function AllCosts(s: State, steps: seq<Step>): seq<int>
    requires IsRun(s, steps)
    decreases |steps|
  {
    if steps == [] then [] else Costs(s, steps[0]) + AllCosts(Next(s, steps[0]), steps[1..])
  }

  lemma {:induction false} SumAppend(a: seq<int>, b: seq<int>)
    ensures Sum(a + b) == Sum(a) + Sum(b)
  {
    if a == [] {
      assert a + b == b;
    } else {
      SumAppend(a[1..], b);
      assert (a + b)[1..] == a[1..] + b;
    }
  }

  /** The account of every mixed run: the time that passed is what was spent, what is left more than before, and what
      the cap took. */
  lemma {:induction false} RunExact(s: State, steps: seq<Step>)
    requires Inv(s) && IsRun(s, steps)
    ensures var r := Run(s, steps);
            && r.time - s.time == (Spent(r) - Spent(s)) + (r.duration - s.duration) + Overflows(s, steps)
            && r.granted - s.granted == Sum(AllCosts(s, steps))
    decreases |steps|
  {
    if steps != [] {
      var s1 := Next(s, steps[0]);
      StepKeepsInv(s, steps[0]);
      StepExact(s, steps[0]);
      RunExact(s1, steps[1..]);
      SumAppend(Costs(s, steps[0]), AllCosts(s1, steps[1..]));
    }
  }

  // ----- requests

  /** The requests made, with their costs, in order. */
  function Acquired(steps: seq<Step>): seq<(nat, int)> {
    if steps == [] then []
    else (if steps[0].Acquire? then [(steps[0].id, steps[0].cost)] else []) + Acquired(steps[1..])
  }

  /** The callbacks called, with the costs of their requests, in order. */
  function Granted(steps: seq<Step>): seq<(nat, int)> {
    if steps == [] then []
    else (if steps[0].Grant? then [(steps[0].id, steps[0].cost)] else []) + Granted(steps[1..])
  }

  function Requests(q: seq<Entry>): seq<(nat, int)> {
    if q == [] then [] else [(q[0].id, q[0].cost)] + Requests(q[1..])
  }

  lemma {:induction false} RequestsAppend(q: seq<Entry>, e: Entry)
    ensures Requests(q + [e]) == Requests(q) + [(e.id, e.cost)]
  {
    if q == [] {
      assert q + [e] == [e];
    } else {
      RequestsAppend(q[1..], e);
      assert (q + [e])[1..] == q[1..] + [e];
    }
  }

  lemma {:induction false} StepQueues(s: State, step: Step)
    requires Inv(s) && Enabled(s, step)
    ensures Requests(Waiting(s)) + Acquired([step]) == Granted([step]) + Requests(Waiting(Next(s, step)))
  {
    Single(step);
    match step {
      case Pass(_) =>
      case Acquire(id, cost) => AcquireQueues(s, id, cost);
      case Nowait(_) =>
      case Ring =>
      case Grant(_, _) => GrantQueues(s);
      case Return =>
      case Stall =>
        assert Next(s, step).queue[1..] == s.queue[1..];
    }
  }

  lemma {:induction false} Single(step: Step)
    ensures Acquired([step]) == if step.Acquire? then [(step.id, step.cost)] else []
    ensures Granted([step]) == if step.Grant? then [(step.id, step.cost)] else []
  {
    assert [step][1..] == [];
  }

  lemma {:induction false} AcquireQueues(s: State, id: nat, cost: int)
    requires Enabled(s, Acquire(id, cost)) && (s.mode.Calling? ==> s.queue != [])
    ensures Requests(Waiting(Next(s, Acquire(id, cost)))) == Requests(Waiting(s)) + [(id, cost)]
  {
    RequestsAppend(Waiting(s), Entry(id, cost, cost));
    assert Waiting(Next(s, Acquire(id, cost))) == Waiting(s) + [Entry(id, cost, cost)];
  }

  lemma {:induction false} GrantQueues(s: State)
    requires CanGrant(s)
    ensures Requests(Waiting(s)) == [(s.queue[0].id, s.queue[0].cost)] + Requests(Waiting(Next(s, GrantFront(s))))
  {
  }

  lemma {:induction false} RunQueues(s: State, steps: seq<Step>)
    requires Inv(s) && IsRun(s, steps)
    ensures Requests(Waiting(s)) + Acquired(steps) == Granted(steps) + Requests(Waiting(Run(s, steps)))
    decreases |steps|
  {
    if steps != [] {
      var s1 := Next(s, steps[0]);
      StepKeepsInv(s, steps[0]);
      StepQueues(s, steps[0]);
      RunQueues(s1, steps[1..]);
      Chained(Requests(Waiting(s)), Acquired([steps[0]]), Granted([steps[0]]), Requests(Waiting(s1)),
              Acquired(steps[1..]), Granted(steps[1..]), Requests(Waiting(Run(s, steps))));
      Heads(steps);
    }
  }

  lemma {:induction false} Heads(steps: seq<Step>)
    requires steps != []
    ensures Acquired(steps) == Acquired([steps[0]]) + Acquired(steps[1..])
    ensures Granted(steps) == Granted([steps[0]]) + Granted(steps[1..])
  {
    Single(steps[0]);
  }

  lemma {:induction false} Chained<T>(w: seq<T>, a: seq<T>, g: seq<T>, w1: seq<T>, more: seq<T>, gs: seq<T>, w2: seq<T>)
    requires w + a == g + w1 && w1 + more == gs + w2
    ensures w + (a + more) == (g + gs) + w2
  {
    assert w + (a + more) == (w + a) + more;
    assert (g + w1) + more == g + (w1 + more);
  }

  function IdsOf(rs: seq<(nat, int)>): seq<nat> {
    if rs == [] then [] else [rs[0].0] + IdsOf(rs[1..])
  }

  /** The list of grants is that of the callbacks called. */
  lemma {:induction false} GrantsAre(s: State, steps: seq<Step>)
    requires IsRun(s, steps)
    ensures Run(s, steps).grants == s.grants + IdsOf(Granted(steps))
    decreases |steps|
  {
    if steps != [] {
      GrantsAre(Next(s, steps[0]), steps[1..]);
      if steps[0].Grant? {
        GrantHead(steps);
        Associate(s.grants, [steps[0].id], IdsOf(Granted(steps[1..])));
      } else {
        assert Granted(steps) == Granted(steps[1..]);
      }
    }
  }

  lemma {:induction false} GrantHead(steps: seq<Step>)
    requires steps != [] && steps[0].Grant?
    ensures IdsOf(Granted(steps)) == [steps[0].id] + IdsOf(Granted(steps[1..]))
  {
    assert Granted(steps)[1..] == Granted(steps[1..]);
  }

  /** In every mixed run callbacks are called in the order of `acquire`, each request once, at the cost it was made
      with, and none is forgotten; and outside `update` the timer is armed exactly while requests wait. */
  lemma {:induction false} FirstInFirstOut(capacity: int, now: int, steps: seq<Step>)
    requires capacity > 0 && now >= 0 && IsRun(Initial(capacity, now), steps)
    ensures var s := Run(Initial(capacity, now), steps);
            && Acquired(steps) == Granted(steps) + Requests(Waiting(s))
            && (s.mode.Idle? ==> (s.armed.Some? <==> s.queue != []))
  {
    RunKeepsInv(Initial(capacity, now), steps);
    RunQueues(Initial(capacity, now), steps);
  }

  // ----- sizes

  const NANOSECONDS: nat := 1_000_000_000

  /** What a request of `size` costs at `rate` per second, in nanoseconds and rounded down. */
  function CostOf(size: nat, rate: nat): nat
    requires rate > 0
  {
    size * NANOSECONDS / rate
  }

  /** Rounding gives away less than one nanosecond, and nothing if the division is exact. */
  lemma {:induction false} CostBounds(size: nat, rate: nat)
    requires rate > 0
    ensures rate * CostOf(size, rate) <= size * NANOSECONDS <= rate * CostOf(size, rate) + (rate - 1)
    ensures size * NANOSECONDS % rate == 0 ==> rate * CostOf(size, rate) == size * NANOSECONDS
    ensures CostOf(size, rate) == 0 <==> size * NANOSECONDS < rate
  {
    var x := size * NANOSECONDS;
    assert x == rate * (x / rate) + x % rate;
    if CostOf(size, rate) > 0 {
      assert rate * CostOf(size, rate) >= rate by { assert rate * (CostOf(size, rate) - 1) >= 0; }
    }
  }

  function Total(sizes: seq<nat>): nat {
    if sizes == [] then 0 else sizes[0] + Total(sizes[1..])
  }

  ghost predicate AreCosts(costs: seq<int>, sizes: seq<nat>, rate: nat)
    requires rate > 0
  {
    |costs| == |sizes| && forall i | 0 <= i < |sizes| :: costs[i] == CostOf(sizes[i], rate)
  }

  ghost predicate Divide(sizes: seq<nat>, rate: nat)
    requires rate > 0
  {
    forall i | 0 <= i < |sizes| :: sizes[i] * NANOSECONDS % rate == 0
  }

  lemma {:induction false} SumBounds(costs: seq<int>, sizes: seq<nat>, rate: nat)
    requires rate > 0 && AreCosts(costs, sizes, rate)
    ensures rate * Sum(costs) <= NANOSECONDS * Total(sizes) <= rate * Sum(costs) + (rate - 1) * |sizes|
    decreases sizes
  {
    if sizes != [] {
      SumBounds(costs[1..], sizes[1..], rate);
      CostBounds(sizes[0], rate);
      Combine(rate, costs[0], Sum(costs[1..]), sizes[0], Total(sizes[1..]), |sizes[1..]|);
    }
  }

  lemma {:induction false} Combine(rate: nat, c: int, cs: int, z: nat, zs: nat, n: nat)
    requires rate > 0 && rate * c <= z * NANOSECONDS <= rate * c + (rate - 1)
    requires rate * cs <= NANOSECONDS * zs <= rate * cs + (rate - 1) * n
    ensures rate * (c + cs) <= NANOSECONDS * (z + zs) <= rate * (c + cs) + (rate - 1) * (n + 1)
  {
    assert rate * (c + cs) == rate * c + rate * cs;
    assert (rate - 1) * (n + 1) == (rate - 1) * n + (rate - 1);
  }

  lemma {:induction false} SumExact(costs: seq<int>, sizes: seq<nat>, rate: nat)
    requires rate > 0 && AreCosts(costs, sizes, rate) && Divide(sizes, rate)
    ensures NANOSECONDS * Total(sizes) == rate * Sum(costs)
    decreases sizes
  {
    if sizes != [] {
      SumExact(costs[1..], sizes[1..], rate);
      CostBounds(sizes[0], rate);
      Distribute(rate, costs[0], Sum(costs[1..]));
    }
  }

  lemma {:induction false} Distribute(rate: nat, c: int, cs: int)
    ensures rate * (c + cs) == rate * c + rate * cs
  {
  }

  /** The rate limit in sizes, over every mixed run between two moments outside `update`: what was granted is at most
      the rate times the elapsed time plus the capacity and what waiting requests had prepaid, and less than one
      nanosecond's worth more per request. If the rate divides every size, nothing more. */
  lemma {:induction false} SizesBound(capacity: int, now: int, before: seq<Step>, during: seq<Step>, rate: nat,
                                      sizes: seq<nat>)
    requires capacity > 0 && now >= 0 && rate > 0
    requires IsRun(Initial(capacity, now), before) && IsRun(Run(Initial(capacity, now), before), during)
    requires AreCosts(AllCosts(Run(Initial(capacity, now), before), during), sizes, rate)
    requires !Run(Run(Initial(capacity, now), before), during).mode.Updating?
    ensures var a := Run(Initial(capacity, now), before);
            var b := Run(a, during);
            var most := rate * (b.time - a.time + capacity + Prepaid(Waiting(a)) - Prepaid(Waiting(b)));
            && NANOSECONDS * Total(sizes) <= most + (rate - 1) * |sizes|
            && (Divide(sizes, rate) ==> NANOSECONDS * Total(sizes) <= most)
  {
    var a := Run(Initial(capacity, now), before);
    var b := Run(a, during);
    RunKeepsInv(Initial(capacity, now), before);
    RateBound(capacity, now, before, during);
    RunExact(a, during);
    SumBounds(AllCosts(a, during), sizes, rate);
    if Divide(sizes, rate) { SumExact(AllCosts(a, during), sizes, rate); }
    Ordered(rate, Sum(AllCosts(a, during)),
            b.time - a.time + capacity + Prepaid(Waiting(a)) - Prepaid(Waiting(b)));
  }
}
