/** How long requests wait when only `acquire` is used: a law about every run of the rate limiter. */
module RateBacklog {
  import opened RateMachine

  /** How often the timer has to ring for the first `j` requests of `q`. */
  function Need(q: seq<Entry>, j: nat, capacity: int): nat
    requires capacity > 0 && j <= |q|
  {
    if j == 0 then 0 else Need(q, j - 1, capacity) + Buckets(q[j - 1].left, capacity)
  }

  lemma {:induction false} NeedMonotone(q: seq<Entry>, i: nat, j: nat, capacity: int)
    requires capacity > 0 && i <= j <= |q|
    ensures Need(q, i, capacity) <= Need(q, j, capacity)
    decreases j
  {
    if i < j { NeedMonotone(q, i, j - 1, capacity); }
  }

  lemma {:induction false} BucketsMonotone(x: int, y: int, capacity: int)
    requires capacity > 0 && x <= y
    ensures Buckets(x, capacity) <= Buckets(y, capacity)
    decreases if y > 0 then y else 0
  {
    if x > 0 { BucketsMonotone(x - capacity, y - capacity, capacity); }
  }

  /** The requests `w` that wait are the rest of `q` behind its first `g`, the first of them partly paid. */
  ghost predicate RestOf(w: seq<Entry>, q: seq<Entry>, g: nat)
    requires g < |q|
  {
    && |w| >= |q| - g && w[0].id == q[g].id && w[0].left <= q[g].left
    && forall i | 0 < i < |q| - g :: w[i] == q[g + i]
  }

  /** Where a run stands that started with the requests `q` waiting and `grants` granted, after `rings` rings:
      `g` of them have been granted, and the rings still due for the next are those its unpaid rest needs. */
  ghost predicate Stands(s: State, q: seq<Entry>, grants: seq<nat>, rings: nat, g: nat) {
    && Inv(s) && Backlog(s) && g <= |q|
    && grants + Ids(q[..g]) <= s.grants
    && (s.mode.Calling? && g < |q| ==> g > 0 && s.duration == 0)
    && if g == |q| then rings >= Need(q, g, s.capacity)
       else && |s.grants| == |grants| + g && RestOf(Waiting(s), q, g)
            && 0 <= s.duration <= Waiting(s)[0].left
            && rings + Buckets(Waiting(s)[0].left - s.duration, s.capacity) == Need(q, g + 1, s.capacity)
  }

  lemma {:induction false} IdsLength(q: seq<Entry>)
    ensures |Ids(q)| == |q|
  {
    if q != [] { IdsLength(q[1..]); }
  }

  lemma {:induction false} IdsTake(q: seq<Entry>, g: nat)
    requires g < |q|
    ensures Ids(q[..g + 1]) == Ids(q[..g]) + [q[g].id]
  {
    var e := q[g];
    PrepaidAppend(q[..g], e);
    assert q[..g + 1] == q[..g] + [e];
  }

  /** The step from one grant to the next. */
  lemma {:induction false} GrantStands(s: State, q: seq<Entry>, grants: seq<nat>, rings: nat, g: nat)
    requires Stands(s, q, grants, rings, g) && g < |q| && CanGrant(s)
    ensures Stands(Next(s, GrantFront(s)), q, grants, rings, g + 1)
  {
    var s' := Next(s, GrantFront(s));
    StepKeepsInv(s, GrantFront(s));
    BacklogExact(s, GrantFront(s));
    IdsTake(q, g);
    IdsLength(q[..g]);
    assert s.grants == grants + Ids(q[..g]);
    assert s'.grants == grants + Ids(q[..g + 1]);
    if g + 1 < |q| {
      assert Waiting(s')[0] == Waiting(s)[1];
    }
  }

  /** A step that leaves budget, waiting requests and grants alone, but for new requests behind the others. */
  lemma {:induction false} QuietStands(s: State, s': State, q: seq<Entry>, grants: seq<nat>, rings: nat, g: nat)
    requires Stands(s, q, grants, rings, g) && g < |q| && Inv(s') && Backlog(s')
    requires s'.capacity == s.capacity && s'.duration == s.duration && s'.grants == s.grants
    requires Waiting(s) <= Waiting(s') && (s'.mode.Calling? ==> s.mode.Calling?)
    ensures Stands(s', q, grants, rings, g)
  {
  }

  lemma {:induction false} DoneStands(s: State, s': State, q: seq<Entry>, grants: seq<nat>, rings: nat, rings': nat)
    requires Stands(s, q, grants, rings, |q|) && Inv(s') && Backlog(s') && rings <= rings'
    requires s'.capacity == s.capacity && s.grants <= s'.grants
    ensures Stands(s', q, grants, rings', |q|)
  {
  }

  lemma {:induction false} RingStands(s: State, q: seq<Entry>, grants: seq<nat>, rings: nat, g: nat)
    requires Stands(s, q, grants, rings, g) && g < |q| && Enabled(s, Ring)
    ensures Stands(Next(s, Ring), q, grants, rings + 1, g)
  {
    StepKeepsInv(s, Ring);
    BacklogExact(s, Ring);
    var left := s.queue[0].left;
    assert Next(s, Ring).duration == Min(left, s.capacity);
    assert Buckets(left, s.capacity) == 1 + Buckets(left - s.capacity, s.capacity);
  }

  lemma {:induction false} StallStands(s: State, q: seq<Entry>, grants: seq<nat>, rings: nat, g: nat)
    requires Stands(s, q, grants, rings, g) && g < |q| && Enabled(s, Stall)
    ensures Stands(Next(s, Stall), q, grants, rings, g)
  {
    StepKeepsInv(s, Stall);
    BacklogExact(s, Stall);
  }

  lemma {:induction false} StepStands(s: State, step: Step, q: seq<Entry>, grants: seq<nat>, rings: nat, g: nat)
    returns (g': nat)
    requires Stands(s, q, grants, rings, g) && Enabled(s, step) && !step.Nowait?
    ensures Stands(Next(s, step), q, grants, rings + if step.Ring? then 1 else 0, g')
    ensures Next(s, step).capacity == s.capacity
  {
    var s' := Next(s, step);
    StepKeepsInv(s, step);
    BacklogExact(s, step);
    g' := g;
    if g == |q| {
      DoneStands(s, s', q, grants, rings, rings + if step.Ring? then 1 else 0);
    } else {
      match step {
        case Pass(_) => QuietStands(s, s', q, grants, rings, g);
        case Acquire(_, _) => QuietStands(s, s', q, grants, rings, g);
        case Ring => RingStands(s, q, grants, rings, g);
        case Grant(_, _) =>
          GrantStands(s, q, grants, rings, g);
          g' := g + 1;
        case Return => QuietStands(s, s', q, grants, rings, g);
        case Stall => StallStands(s, q, grants, rings, g);
      }
    }
  }

  lemma {:induction false} RunStands(s: State, steps: seq<Step>, q: seq<Entry>, grants: seq<nat>, rings: nat, g: nat)
    returns (g': nat)
    requires Stands(s, q, grants, rings, g) && IsRun(s, steps) && NoNowait(steps)
    ensures Stands(Run(s, steps), q, grants, rings + Rings(steps), g') && Run(s, steps).capacity == s.capacity
    decreases |steps|
  {
    g' := g;
    if steps != [] {
      assert !steps[0].Nowait?;
      g' := StepStands(s, steps[0], q, grants, rings, g);
      g' := RunStands(Next(s, steps[0]), steps[1..], q, grants, rings + (if steps[0].Ring? then 1 else 0), g');
    }
  }

  lemma {:induction false} StandsSince(s: State, q: seq<Entry>, grants: seq<nat>, rings: nat, g: nat)
    requires Stands(s, q, grants, rings, g)
    ensures Need(q, g, s.capacity) <= rings
    ensures s.mode.Idle? && g < |q| ==> rings < Need(q, g + 1, s.capacity)
  {
    if g < |q| {
      var w := Waiting(s)[0];
      BucketsMonotone(w.left - s.duration, q[g].left, s.capacity);
    }
  }

  lemma {:induction false} IdsPrefix(q: seq<Entry>, i: nat, j: nat)
    requires i <= j <= |q|
    ensures Ids(q[..i]) <= Ids(q[..j])
    decreases j
  {
    if i < j {
      IdsPrefix(q, i, j - 1);
      IdsTake(q, j - 1);
    }
  }

  /** Every run from the start without `acquire_nowait` leads to a state these laws speak of. */
  lemma {:induction false} AcquireOnly(s: State, steps: seq<Step>)
    requires Inv(s) && Backlog(s) && IsRun(s, steps) && NoNowait(steps)
    ensures Inv(Run(s, steps)) && Backlog(Run(s, steps))
    decreases |steps|
  {
    if steps != [] {
      assert !steps[0].Nowait?;
      StepKeepsInv(s, steps[0]);
      BacklogExact(s, steps[0]);
      AcquireOnly(Next(s, steps[0]), steps[1..]);
    }
  }

  /** Of the requests that wait at some idle moment, at every later one exactly those have been granted whose
      buckets the timer has rung for, whatever else is acquired meanwhile: one ring for every full or partial
      bucket of the request and of those before it. */
  lemma {:induction false} GrantedExactly(s: State, steps: seq<Step>, j: nat)
    requires Inv(s) && Backlog(s) && s.mode.Idle? && IsRun(s, steps) && NoNowait(steps)
    requires j <= |s.queue| && Run(s, steps).mode.Idle?
    ensures s.grants + Ids(s.queue[..j]) <= Run(s, steps).grants <==> Rings(steps) >= Need(s.queue, j, s.capacity)
  {
    var q, r := s.queue, Run(s, steps);
    var g := RunStands(s, steps, q, s.grants, 0, 0);
    StandsSince(r, q, s.grants, Rings(steps), g);
    IdsLength(q[..j]);
    if j <= g {
      IdsPrefix(q, j, g);
      NeedMonotone(q, j, g, s.capacity);
    } else {
      NeedMonotone(q, g + 1, j, s.capacity);
    }
  }

  /** The front request, however far above the capacity, has been granted at every moment outside the loop of
      `update` at which the timer has rung once per bucket, and at no moment before. */
  lemma {:induction false} FrontIsGranted(s: State, steps: seq<Step>)
    requires Inv(s) && Backlog(s) && s.mode.Idle? && s.queue != [] && IsRun(s, steps) && NoNowait(steps)
    ensures var r, n := Run(s, steps), Buckets(s.queue[0].left, s.capacity);
            && (s.grants + [s.queue[0].id] <= r.grants ==> Rings(steps) >= n)
            && (Rings(steps) >= n && !r.mode.Updating? ==> s.grants + [s.queue[0].id] <= r.grants)
  {
    var q, r := s.queue, Run(s, steps);
    var g := RunStands(s, steps, q, s.grants, 0, 0);
    StandsSince(r, q, s.grants, Rings(steps), g);
    IdsTake(q, 0);
    assert Need(q, 1, s.capacity) == Buckets(q[0].left, s.capacity);
    if g > 0 {
      IdsPrefix(q, 1, g);
      NeedMonotone(q, 1, g, s.capacity);
    }
  }
}
