/** `RateLimiter` of `net/rate-limiter.cc` as it runs. */
module RateLimiters {
  import opened Options
  import opened RateMachine
  import RateBudget

  class RateLimiter {
    const rate: nat
    const capacity: int
    var now: int               // the clock
    var duration: int
    var time: int
    var queue: seq<Entry>
    var armed: Option<int>
    ghost var mode: Mode
    ghost var granted: int
    ghost var grants: seq<nat>

    ghost function Model(): State
      reads this
    {
      State(capacity, now, duration, time, queue, armed, mode, granted, grants)
    }

    constructor (rate: nat, capacity: int, now: int)
      ensures Model() == Initial(capacity, now) && this.rate == rate && this.capacity == capacity
      ensures duration == 0 && time == 0 && queue == [] && armed == None
    {
      this.rate, this.capacity, this.now := rate, capacity, now;
      duration, time, queue, armed, mode := 0, 0, [], None, Idle;
      granted, grants := 0, [];
    }

    /** `nanoseconds(seconds(size)) / rate_`. */
    function Cost(size: nat): nat
      requires rate > 0
    {
      RateBudget.CostOf(size, rate)
    }

    /** Add to the queue, without the update that an empty queue would start. */
    method Push(id: nat, cost: nat)
      modifies `queue
      ensures queue == old(queue) + [Entry(id, cost, cost)]
    {
      queue := queue + [Entry(id, cost, cost)];
    }

    /** `acquire_nowait`, once the cost is known. */
    method Take(cost: nat) returns (ok: bool)
      requires !mode.Updating?
      modifies `duration, `time, `granted
      ensures Model() == Next(old(Model()), Nowait(cost))
      ensures var budget := Min(old(duration) + (now - old(time)), capacity);
              && ok == (budget >= cost) && time == now
              && duration == (if ok then budget - cost else budget)
              && granted == old(granted) + (if ok then cost else 0)
    {
      duration := Min(duration + (now - time), capacity);
      time := now;
      if duration < cost {
        return false;
      }
      duration := duration - cost;
      granted := granted + cost;
      return true;
    }

    /** It succeeds exactly when the budget brought up to now covers the cost, and takes nothing otherwise. */
    method AcquireNowait(size: nat) returns (ok: bool)
      requires rate > 0 && !mode.Updating?
      modifies `duration, `time, `granted
      ensures Model() == Next(old(Model()), Nowait(Cost(size)))
      ensures var cost := size * 1_000_000_000 / rate;
              var earned := old(duration) + (now - old(time));
              var budget := if earned <= capacity then earned else capacity;
              && ok == (budget >= cost) && time == now
              && duration == (if ok then budget - cost else budget)
              && granted == old(granted) + (if ok then cost else 0)
    {
      ok := Take(Cost(size));
    }

    /** One thing a callback does. The queue is not empty, so no nested update starts. */
    method Do(a: Action)
      requires mode.Calling? && queue != []
      modifies this
      ensures Model() == Acted(old(Model()), a) && mode == old(mode) && queue != []
    {
      match a
      case DoAcquire(id, cost) => Push(id, cost);
      case DoNowait(cost) => var _ := Take(cost);
      case DoPass(to) => if to >= now { now := to; }
    }

    /** A callback: any sequence of actions. */
    method RunCallback(script: seq<Action>)
      requires mode.Calling? && queue != []
      modifies this
      ensures Model() == AllActed(old(Model()), script) && mode == old(mode) && queue != []
    {
      for i := 0 to |script|
        invariant Model() == AllActed(old(Model()), script[..i]) && mode == old(mode) && queue != []
      {
        assert script[..i + 1][..i] == script[..i];
        Do(script[i]);
      }
      assert script[..|script|] == script;
    }

    /** One grant: pay, call back, pop. */
    method GrantFront(script: seq<Action>)
      requires Inv(Model()) && mode.Updating? && queue != [] && queue[0].left <= duration
      modifies this
      ensures Model() == Popped(old(Model()), script) && Inv(Model())
      ensures mode == if queue == [] then Idle else old(mode)
      ensures script == [] ==> |queue| == old(|queue|) - 1
    {
      ghost var steps := PoppedIsRun(Model(), [], Model(), script);
      ghost var start := mode.start;
      duration := duration - queue[0].left;
      granted := granted + queue[0].cost;
      grants := grants + [queue[0].id];
      mode := Calling(start);
      RunCallback(script);
      queue := queue[1..];
      mode := if queue == [] then Idle else Updating(start);
    }

    /** `update`; `scripts` is what the callbacks do, in the order they are called. */
    method Update(t: int, scripts: seq<seq<Action>>)
      requires mode.Idle? && queue != [] && Inv(Refilled(Model(), t).(mode := Updating(t)))
      modifies this
      ensures Model() == Drained(Refilled(old(Model()), t).(mode := Updating(t)), scripts)
      ensures Inv(Model()) && mode.Idle?
    {
      duration := Min(duration + (t - time), capacity);
      time := t;
      mode := Updating(t);
      ghost var goal := Drained(Model(), scripts);
      var rest := scripts;
      while true
        invariant Inv(Model()) && mode == Updating(t) && goal == Drained(Model(), rest)
        decreases |rest|, |queue|
      {
        if queue[0].left > duration {
          Stop(t);
          return;
        }
        GrantFront(Head(rest));
        rest := Tail(rest);
        if queue == [] {
          return;
        }
      }
    }

    /** The end of `update`: the front request takes what there is, and the timer is set for the rest. */
    method Stop(t: int)
      requires Inv(Model()) && mode == Updating(t) && queue[0].left > duration
      modifies this
      ensures Model() == Next(old(Model()), Stall) && Inv(Model())
    {
      StepKeepsInv(Model(), Stall);
      Prepay(t);
      mode := Idle;
    }

    method Prepay(t: int)
      requires queue != []
      modifies `queue, `duration, `armed
      ensures queue == old(queue)[0 := old(queue)[0].(left := old(queue)[0].left - old(duration))] && duration == 0
      ensures armed == Some(t + if queue[0].left <= capacity then queue[0].left else capacity)
    {
      queue := queue[0 := queue[0].(left := queue[0].left - duration)];
      duration := 0;
      armed := Some(t + Min(queue[0].left, capacity));
    }

    /** `acquire`, with the update it starts when the queue was empty. */
    method Acquire(id: nat, size: nat, scripts: seq<seq<Action>>)
      requires rate > 0 && Inv(Model()) && mode.Idle?
      modifies this
      ensures var s := Next(old(Model()), RateMachine.Acquire(id, Cost(size)));
              Model() == if s.mode.Updating? then Drained(s, scripts) else s
      ensures Inv(Model()) && mode.Idle?
    {
      StepKeepsInv(Model(), RateMachine.Acquire(id, Cost(size)));
      Push(id, Cost(size));
      if |queue| == 1 {
        Update(now, scripts);
      }
    }

    /** The timer's handler: `update` with the time it was set for. */
    method Ring(scripts: seq<seq<Action>>)
      requires Inv(Model()) && mode.Idle? && armed.Some? && armed.value <= now
      modifies this
      ensures Model() == Drained(Next(old(Model()), RateMachine.Ring), scripts)
      ensures Inv(Model()) && mode.Idle?
    {
      StepKeepsInv(Model(), RateMachine.Ring);
      var t := armed.value;
      armed := None;
      Update(t, scripts);
    }
  }
}
