/** The token bucket of `net/rate-limiter.cc` as a machine of small steps. Costs and times are in nanoseconds. */
module RateMachine {
  import opened Options

  /** A queued request: what it costs and how much of that has not been paid yet. */
  datatype Entry = Entry(id: nat, cost: int, left: int)

  /** Outside `update`; in its loop; or inside the callback of the front request. `start` is the time that
      `update` was called with. */
  datatype Mode = Idle | Updating(start: int) | Calling(start: int)

  /** `duration` is the budget and `time` the moment it was brought up to date, as in the source. `armed` is
      the pending timer. `granted` is the cost of all requests let through; `grants` lists the
      queued requests whose callbacks have been called, in order. */
  datatype State = State(
    capacity: int,
    now: int,
    duration: int,
    time: int,
    queue: seq<Entry>,
    armed: Option<int>,
    mode: Mode,
    granted: int,
    grants: seq<nat>)

  datatype Step =
    | Pass(to: int)
    | Acquire(id: nat, cost: int)
    | Nowait(cost: int)
    | Ring
    | Grant(id: nat, cost: int)
    | Return
    | Stall

  function Min(a: int, b: int): int {
    if a <= b then a else b
  }

  /** Bring the budget up to `t`, which may lie before `time`. */
  function Refilled(s: State, t: int): State {
    s.(duration := Min(s.duration + (t - s.time), s.capacity), time := t)
  }

  /** The budget covers what the front request still has to pay. */
  predicate CanGrant(s: State) {
    s.mode.Updating? && s.queue != [] && s.queue[0].left <= s.duration
  }

  function GrantFront(s: State): Step
    requires s.queue != []
  {
    Grant(s.queue[0].id, s.queue[0].cost)
  }

  predicate Enabled(s: State, step: Step) {
    match step
    case Pass(to) => to >= s.now
    case Acquire(id, cost) => cost >= 0 && !s.mode.Updating?
    case Nowait(cost) => cost >= 0 && !s.mode.Updating?
    case Ring => s.mode.Idle? && s.armed.Some? && s.armed.value <= s.now
    case Grant(id, cost) => CanGrant(s) && s.queue[0].id == id && s.queue[0].cost == cost
    case Return => s.mode.Calling? && s.queue != []
    case Stall => s.mode.Updating? && s.queue != [] && s.queue[0].left > s.duration
  }

  function Next(s: State, step: Step): State
    requires Enabled(s, step)
  {
    match step
    case Pass(to) => s.(now := to)
    case Acquire(id, cost) =>
      var s1 := s.(queue := s.queue + [Entry(id, cost, cost)]);
      if |s1.queue| == 1 then Refilled(s1, s.now).(mode := Updating(s.now)) else s1
    case Nowait(cost) =>
      var s1 := Refilled(s, s.now);
      if s1.duration < cost then s1 else s1.(duration := s1.duration - cost, granted := s1.granted + cost)
    case Ring => Refilled(s.(armed := None), s.armed.value).(mode := Updating(s.armed.value))
    case Grant(_, _) =>
      s.(duration := s.duration - s.queue[0].left, granted := s.granted + s.queue[0].cost,
         grants := s.grants + [s.queue[0].id], mode := Calling(s.mode.start))
    case Return =>
      var s1 := s.(queue := s.queue[1..]);
      s1.(mode := if s1.queue == [] then Idle else Updating(s.mode.start))
    case Stall =>
      var front := s.queue[0].(left := s.queue[0].left - s.duration);
      s.(queue := s.queue[0 := front], duration := 0, mode := Idle,
         armed := Some(s.mode.start + Min(front.left, s.capacity)))
  }

  // ----- accounting

  /** The requests not granted yet. */
  function Waiting(s: State): seq<Entry> {
    if s.mode.Calling? && s.queue != [] then s.queue[1..] else s.queue
  }

  function Prepaid(q: seq<Entry>): int {
    if q == [] then 0 else q[0].cost - q[0].left + Prepaid(q[1..])
  }

  /** Cost granted plus cost prepaid by requests still in the queue. */
  function Spent(s: State): int {
    s.granted + Prepaid(Waiting(s))
  }

  /** The quantity that no step can raise. */
  function Potential(s: State): int {
    Spent(s) + s.duration - s.time
  }

  function Ids(q: seq<Entry>): seq<nat> {
    if q == [] then [] else [q[0].id] + Ids(q[1..])
  }

  ghost predicate Inv(s: State) {
    && s.capacity > 0 && s.duration <= s.capacity && s.time <= s.now
    && (!s.mode.Updating? ==> 0 <= s.duration)
    && (forall e | e in s.queue :: e.left >= 0)
    && (if s.mode.Idle? then s.armed.Some? <==> s.queue != []
        else s.armed.None? && s.queue != [] && s.mode.start <= s.now)
  }

  lemma {:induction false} PrepaidAppend(q: seq<Entry>, e: Entry)
    ensures Prepaid(q + [e]) == Prepaid(q) + e.cost - e.left
    ensures Ids(q + [e]) == Ids(q) + [e.id]
    decreases q
  {
    if q != [] {
      PrepaidAppend(q[1..], e);
      assert (q + [e])[1..] == q[1..] + [e];
    } else {
      assert [e][1..] == [];
    }
  }

  lemma {:induction false} StepKeepsInv(s: State, step: Step)
    requires Inv(s) && Enabled(s, step)
    ensures Inv(Next(s, step))
  {
    match step {
      case Pass(_) =>
      case Acquire(id, cost) =>
      case Nowait(_) =>
      case Ring =>
      case Grant(_, _) =>
      case Return =>
      case Stall =>
        assert Next(s, step).queue[1..] == s.queue[1..];
    }
  }

  /** Time and budget only ever turn into spending: refilling may lose budget to the cap, nothing gains. */
  lemma {:induction false} StepPotential(s: State, step: Step)
    requires Inv(s) && Enabled(s, step)
    ensures Potential(Next(s, step)) <= Potential(s)
  {
    var s' := Next(s, step);
    match step {
      case Pass(_) =>
      case Acquire(id, cost) =>
        var e := Entry(id, cost, cost);
        PrepaidAppend(Waiting(s), e);
        assert Waiting(s') == Waiting(s) + [e];
      case Nowait(_) =>
      case Ring =>
      case Grant(_, _) =>
      case Return =>
      case Stall =>
        assert s'.queue[1..] == s.queue[1..];
    }
  }

  // ----- whole runs

  function Initial(capacity: int, now: int): State {
    State(capacity, now, 0, 0, [], None, Idle, 0, [])
  }

  predicate IsRun(s: State, steps: seq<Step>)
    decreases |steps|
  {
    steps != [] ==> Enabled(s, steps[0]) && IsRun(Next(s, steps[0]), steps[1..])
  }

  function Run(s: State, steps: seq<Step>): State
    requires IsRun(s, steps)
    decreases |steps|
  {
    if steps == [] then s else Run(Next(s, steps[0]), steps[1..])
  }

  lemma {:induction false} RunKeepsInv(s: State, steps: seq<Step>)
    requires Inv(s) && IsRun(s, steps)
    ensures Inv(Run(s, steps)) && Run(s, steps).capacity == s.capacity
    ensures Potential(Run(s, steps)) <= Potential(s)
    decreases |steps|
  {
    if steps != [] {
      StepKeepsInv(s, steps[0]);
      StepPotential(s, steps[0]);
      RunKeepsInv(Next(s, steps[0]), steps[1..]);
    }
  }

  /** Whatever is mixed: outside `update` the budget is between 0 and the capacity, and between any two such
      moments of a run the cost granted plus prepaid grows by at most the change of `time` plus the capacity. */
  lemma {:induction false} RateBound(capacity: int, now: int, before: seq<Step>, during: seq<Step>)
    requires capacity > 0 && now >= 0
    requires IsRun(Initial(capacity, now), before) && IsRun(Run(Initial(capacity, now), before), during)
    requires !Run(Run(Initial(capacity, now), before), during).mode.Updating?
    ensures var a := Run(Initial(capacity, now), before);
            var b := Run(a, during);
            && 0 <= b.duration <= capacity
            && Spent(b) - Spent(a) <= (b.time - a.time) + capacity
  {
    RunKeepsInv(Initial(capacity, now), before);
    RunKeepsInv(Run(Initial(capacity, now), before), during);
  }

  // ----- a backlog, when only `acquire` is used

  /** While requests wait, nothing is left in the bucket and the timer rings when the front request, or a
      full bucket, has been earned. */
  ghost predicate Backlog(s: State) {
    && (s.mode.Idle? && s.queue != [] ==>
          s.duration == 0 && s.queue[0].left > 0 && s.armed == Some(s.time + Min(s.queue[0].left, s.capacity)))
    && (!s.mode.Idle? ==> s.time == s.mode.start)
  }

  /** Nothing is lost: except when a request arrives at an idle bucket, spending and budget change exactly
      with the virtual time. */
  lemma {:induction false} BacklogExact(s: State, step: Step)
    requires Inv(s) && Backlog(s) && Enabled(s, step) && !step.Nowait?
    ensures Backlog(Next(s, step))
    ensures !(step.Acquire? && s.queue == []) ==> Potential(Next(s, step)) == Potential(s)
  {
    var s' := Next(s, step);
    match step {
      case Pass(_) =>
      case Acquire(id, cost) =>
        var e := Entry(id, cost, cost);
        PrepaidAppend(Waiting(s), e);
        assert Waiting(s') == Waiting(s) + [e];
      case Ring =>
      case Grant(_, _) =>
      case Return =>
      case Stall =>
        assert s'.queue[1..] == s.queue[1..];
    }
  }

  predicate NoNowait(steps: seq<Step>) {
    forall step | step in steps :: !step.Nowait?
  }

  /** During a run of `acquire` calls in which the queue never runs empty, cost granted plus prepaid grows
      exactly by the virtual time that passes. */
  lemma {:induction false} BacklogRun(s: State, steps: seq<Step>)
    requires Inv(s) && Backlog(s) && s.queue != [] && IsRun(s, steps) && NoNowait(steps)
    requires forall k | 0 <= k <= |steps| :: IsRun(s, steps[..k]) && Run(s, steps[..k]).queue != []
    ensures Backlog(Run(s, steps)) && Potential(Run(s, steps)) == Potential(s)
    ensures s.mode.Idle? && Run(s, steps).mode.Idle? ==> Spent(Run(s, steps)) - Spent(s) == Run(s, steps).time - s.time
    decreases |steps|
  {
    assert steps[..|steps|] == steps;
    if steps != [] {
      var s1 := Next(s, steps[0]);
      StepKeepsInv(s, steps[0]);
      BacklogExact(s, steps[0]);
      assert steps[..1] == [steps[0]] && [steps[0]][1..] == [];
      assert Run(s, steps[..1]) == s1;
      forall k | 0 <= k <= |steps| - 1 ensures IsRun(s1, steps[1..][..k]) && Run(s1, steps[1..][..k]).queue != [] {
        assert steps[..k + 1][1..] == steps[1..][..k];
        assert IsRun(s, steps[..k + 1]);
      }
      BacklogRun(s1, steps[1..]);
      RunKeepsInv(s1, steps[1..]);
    }
  }

  function Rings(steps: seq<Step>): nat {
    if steps == [] then 0 else (if steps[0].Ring? then 1 else 0) + Rings(steps[1..])
  }

  /** The number of full or partial buckets in `left`. */
  function Buckets(left: int, capacity: int): nat
    requires capacity > 0
    decreases if left > 0 then left else 0
  {
    if left <= 0 then 0 else 1 + Buckets(left - capacity, capacity)
  }

  /** The passing of time alone gets the front request granted, however far above the capacity it is. */
  lemma {:induction false} FrontCanBeGranted(s: State) returns (steps: seq<Step>)
    requires Inv(s) && Backlog(s) && s.mode.Idle? && s.queue != []
    ensures IsRun(s, steps) && NoNowait(steps) && (forall step | step in steps :: !step.Acquire?)
    ensures Rings(steps) == Buckets(s.queue[0].left, s.capacity)
    ensures Run(s, steps).grants == s.grants + [s.queue[0].id]
    decreases s.queue[0].left
  {
    var s2 := Rung(s);
    RingEarns(s);
    if s.queue[0].left <= s.capacity {
      steps := [GrantFront(s2)] + [];
      RunCons(s2, GrantFront(s2), []);
      assert Buckets(s.queue[0].left - s.capacity, s.capacity) == 0;
    } else {
      StepKeepsInv(s2, Stall);
      BacklogExact(s2, Stall);
      steps := FrontCanBeGranted(Next(s2, Stall));
      RunCons(s2, Stall, steps);
      steps := [Stall] + steps;
    }
    steps := RingFirst(s, steps);
  }

  /** The state after the time has come to the pending timer and it has rung. */
  function Rung(s: State): State
    requires s.armed.Some? && s.queue != []
  {
    s.(now := if s.now >= s.armed.value then s.now else s.armed.value, armed := None, time := s.armed.value,
       mode := Updating(s.armed.value), duration := Min(s.queue[0].left, s.capacity))
  }

  /** When the timer rings, the bucket holds what the front request still needs, or is full. */
  lemma {:induction false} RingEarns(s: State)
    requires Inv(s) && Backlog(s) && s.mode.Idle? && s.queue != []
    ensures var s1 := s.(now := Rung(s).now);
            Enabled(s1, Ring) && Next(s1, Ring) == Rung(s) && Inv(Rung(s)) && Backlog(Rung(s))
  {
    var s1 := s.(now := Rung(s).now);
    StepKeepsInv(s, Pass(s1.now));
    BacklogExact(s, Pass(s1.now));
    StepKeepsInv(s1, Ring);
    BacklogExact(s1, Ring);
  }

  /** The ring in front of a run. */
  lemma {:induction false} RingFirst(s: State, rest: seq<Step>) returns (steps: seq<Step>)
    requires Inv(s) && Backlog(s) && s.mode.Idle? && s.queue != [] && IsRun(Rung(s), rest)
    requires NoNowait(rest) && forall step | step in rest :: !step.Acquire?
    ensures IsRun(s, steps) && NoNowait(steps) && forall step | step in steps :: !step.Acquire?
    ensures Rings(steps) == 1 + Rings(rest) && Run(s, steps) == Run(Rung(s), rest)
  {
    var later := Pass(Rung(s).now);
    RingEarns(s);
    RunCons(Next(s, later), Ring, rest);
    RunCons(s, later, [Ring] + rest);
    steps := [later] + ([Ring] + rest);
  }

  lemma {:induction false} RunCons(s: State, step: Step, rest: seq<Step>)
    requires Enabled(s, step) && IsRun(Next(s, step), rest)
    ensures IsRun(s, [step] + rest) && Run(s, [step] + rest) == Run(Next(s, step), rest)
    ensures Rings([step] + rest) == (if step.Ring? then 1 else 0) + Rings(rest)
  {
    assert ([step] + rest)[1..] == rest;
  }

  lemma {:induction false} RunAppend(s: State, a: seq<Step>, step: Step)
    requires IsRun(s, a) && Enabled(Run(s, a), step)
    ensures IsRun(s, a + [step]) && Run(s, a + [step]) == Next(Run(s, a), step)
    decreases |a|
  {
    if a != [] {
      RunAppend(Next(s, a[0]), a[1..], step);
      assert (a + [step])[1..] == a[1..] + [step];
    } else {
      assert [step][1..] == [];
    }
  }

  // ----- `update` from start to end

  /** What a callback may do: ask for more, with or without waiting; the clock may move on as well. */
  datatype Action = DoAcquire(id: nat, cost: nat) | DoNowait(cost: nat) | DoPass(to: int)

  function StepOf(a: Action): Step {
    match a
    case DoAcquire(id, cost) => Acquire(id, cost)
    case DoNowait(cost) => Nowait(cost)
    case DoPass(to) => Pass(to)
  }

  /** An action that is not possible has no effect. */
  function Acted(s: State, a: Action): State {
    if Enabled(s, StepOf(a)) then Next(s, StepOf(a)) else s
  }

  function AllActed(s: State, script: seq<Action>): State {
    if script == [] then s else Acted(AllActed(s, script[..|script| - 1]), script[|script| - 1])
  }

  function Head(scripts: seq<seq<Action>>): seq<Action> {
    if scripts == [] then [] else scripts[0]
  }

  function Tail(scripts: seq<seq<Action>>): seq<seq<Action>> {
    if scripts == [] then [] else scripts[1..]
  }

  /** One grant: the front request is paid, its callback does `script`, and it is popped. */
  function Popped(s: State, script: seq<Action>): State
    requires CanGrant(s)
  {
    var s1 := AllActed(Next(s, GrantFront(s)), script);
    if Enabled(s1, Return) then Next(s1, Return) else s1
  }

  /** The loop of `update` and what follows it; `scripts` is what the callbacks do, in order. */
  function Drained(s: State, scripts: seq<seq<Action>>): State
    decreases |scripts|, |s.queue|
  {
    if CanGrant(s) then Drained(Popped(s, Head(scripts)), Tail(scripts))
    else if Enabled(s, Stall) then Next(s, Stall)
    else s
  }

  lemma {:induction false} ActedIsRun(start: State, before: seq<Step>, s: State, script: seq<Action>)
    returns (steps: seq<Step>)
    requires IsRun(start, before) && Run(start, before) == s && Inv(s) && s.mode.Calling?
    ensures IsRun(start, steps) && Run(start, steps) == AllActed(s, script) && Inv(AllActed(s, script))
    ensures AllActed(s, script).mode == s.mode
    decreases script
  {
    if script == [] {
      steps := before;
    } else {
      var n := |script| - 1;
      steps := ActedIsRun(start, before, s, script[..n]);
      var step := StepOf(script[n]);
      var s1 := AllActed(s, script[..n]);
      if Enabled(s1, step) {
        StepKeepsInv(s1, step);
        RunAppend(start, steps, step);
        steps := steps + [step];
      }
    }
  }

  lemma {:induction false} PoppedIsRun(start: State, before: seq<Step>, s: State, script: seq<Action>)
    returns (steps: seq<Step>)
    requires IsRun(start, before) && Run(start, before) == s && Inv(s) && CanGrant(s)
    ensures IsRun(start, steps) && Run(start, steps) == Popped(s, script) && Inv(Popped(s, script))
    ensures Popped(s, script).mode == if Popped(s, script).queue == [] then Idle else s.mode
    ensures Enabled(AllActed(Next(s, GrantFront(s)), script), Return)
  {
    var grant := GrantFront(s);
    StepKeepsInv(s, grant);
    RunAppend(start, before, grant);
    steps := ActedIsRun(start, before + [grant], Next(s, grant), script);
    var s1 := AllActed(Next(s, grant), script);
    StepKeepsInv(s1, Return);
    RunAppend(start, steps, Return);
    steps := steps + [Return];
  }

  /** Whatever the callbacks do, an update is a run of the machine and ends outside `update`. */
  lemma {:induction false} DrainedIsRun(start: State, before: seq<Step>, s: State, scripts: seq<seq<Action>>)
    returns (steps: seq<Step>)
    requires IsRun(start, before) && Run(start, before) == s && Inv(s) && !s.mode.Calling?
    requires s.mode.Idle? ==> s.queue == []
    ensures IsRun(start, steps) && Run(start, steps) == Drained(s, scripts) && Inv(Drained(s, scripts))
    ensures Drained(s, scripts).mode.Idle?
    decreases |scripts|, |s.queue|
  {
    steps := before;
    if CanGrant(s) {
      steps := PoppedIsRun(start, before, s, Head(scripts));
      steps := DrainedIsRun(start, steps, Popped(s, Head(scripts)), Tail(scripts));
    } else if Enabled(s, Stall) {
      StepKeepsInv(s, Stall);
      RunAppend(start, before, Stall);
      steps := before + [Stall];
    }
  }
}
