/** `BasicTimerList` of `net/timer-list.h` as it runs. */
module TimerLists {
  import opened Options
  import opened TimerMachine

  class TimerList {
    const duration: int
    var now: int                 // the clock
    var list: seq<Entry>
    var live: set<nat>           // the timers whose handle is not end()
    var armed: Option<int>       // the wait on the system timer
    var queued: multiset<int>    // completed waits whose handler has not run
    ghost var mode: Mode
    var due: map<nat, int>
    ghost var fired: seq<Firing>

    ghost function Model(): State
      reads this
    {
      State(duration, now, list, live, armed, queued, mode, due, fired)
    }

    constructor (duration: int, now: int)
      ensures Model() == Initial(duration, now)
    {
      this.duration, this.now := duration, now;
      list, live, armed, queued, mode := [], {}, None, multiset{}, Idle;
      due, fired := map[], [];
    }

    method Wait()
      requires list != []
      modifies `armed
      ensures Model() == TimerMachine.Wait(old(Model())) && armed == Some(list[0].expiry)
    {
      armed := Some(list[0].expiry);
    }

    method Schedule(id: nat)
      requires id !in due
      modifies this
      ensures Model() == Next(old(Model()), TimerMachine.Schedule(id))
      ensures list == old(list) + [Entry(id, now + duration)] && id in live
      ensures armed == if old(list) == [] then Some(now + duration) else old(armed)
    {
      list := list + [Entry(id, now + duration)];
      live := live + {id};
      due := due[id := now + duration];
      if |list| == 1 {
        Wait();
      }
    }

    /** `Timer::update`: nothing happens once the timer has fired. */
    method Update(id: nat)
      requires id in due
      modifies this
      ensures Model() == Next(old(Model()), TimerMachine.Update(id))
      ensures list == if id in live then Without(old(list), id) + [Entry(id, now + duration)] else old(list)
      ensures armed == old(armed) && live == old(live)
    {
      if id !in live {
        return;
      }
      list := Without(list, id) + [Entry(id, now + duration)];
      due := due[id := now + duration];
    }

    /** The destructor of a timer. */
    method Cancel(id: nat)
      requires id in due
      modifies this
      ensures Model() == Next(old(Model()), TimerMachine.Cancel(id))
      ensures list == (if id in old(live) then Without(old(list), id) else old(list)) && live == old(live) - {id}
      ensures armed == if id in old(live) && list == [] then None else old(armed)
    {
      if id !in live {
        return;
      }
      list := Without(list, id);
      live := live - {id};
      if list == [] {
        armed := None;
      }
    }

    /** One thing a callback does, if it can be done. */
    method Do(a: Action)
      modifies this
      ensures Model() == Acted(old(Model()), a)
    {
      match a
      case DoSchedule(id) => if id !in due { Schedule(id); }
      case DoUpdate(id) => if id in due { Update(id); }
      case DoCancel(id) => if id in due { Cancel(id); }
      case DoPass(time) => if time >= now { now := time; }
    }

    /** A callback: any sequence of actions on the list. */
    method RunCallback(script: seq<Action>)
      modifies this
      ensures Model() == AllActed(old(Model()), script)
    {
      for i := 0 to |script|
        invariant Model() == AllActed(old(Model()), script[..i])
      {
        assert script[..i + 1][..i] == script[..i];
        Do(script[i]);
      }
      assert script[..|script|] == script;
    }

    /** One pass of the handler's loop: call the front entry's callback, then pop it. */
    method FireFront(expiry: int, script: seq<Action>)
      requires Inv(Model()) && mode == Looping(expiry) && list != [] && list[0].expiry <= expiry
      modifies this
      ensures Model() == Popped(old(Model()), script) && Inv(Model()) && mode == Looping(expiry)
      ensures script == [] ==> |list| == old(|list|) - 1
    {
      ghost var steps := PoppedIsRun(Model(), [], Model(), script);
      ActedAfterFire(Model(), script);
      ghost var e := list[0];
      live := live - {list[0].id};
      mode := Calling(expiry, e.id);
      fired := fired + [Firing(e.id, now, if e.id in due then due[e.id] else e.expiry)];
      RunCallback(script);
      list := list[1..];
      mode := Looping(expiry);
    }

    /** The handler of a completed wait. */
    method Handle(expiry: int, scripts: seq<seq<Action>>)
      requires Inv(Model()) && mode.Idle? && expiry in queued
      modifies this
      ensures Model() == Handled(Next(old(Model()), Begin(expiry)), scripts)
      ensures Inv(Model()) && mode.Idle?
      ensures forall e | e in list :: e.expiry > expiry
      ensures list != [] ==> armed == Some(list[0].expiry)
    {
      StepKeepsInv(Model(), Begin(expiry));
      HandlesAllDue(Next(Model(), Begin(expiry)), scripts);
      queued := queued - multiset{expiry};
      mode := Looping(expiry);
      FireAll(expiry, scripts);
    }

    /** The body of the handler: fire what is due, then wait for what is left. */
    method FireAll(expiry: int, scripts: seq<seq<Action>>)
      requires Inv(Model()) && mode == Looping(expiry)
      modifies this
      ensures Model() == Handled(old(Model()), scripts) && Inv(Model()) && mode.Idle?
    {
      ghost var goal := Handled(Model(), scripts);
      var rest := scripts;
      while list != [] && list[0].expiry <= expiry
        invariant mode == Looping(expiry) && Inv(Model()) && goal == Handled(Model(), rest)
        decreases |rest|, |list|
      {
        FireFront(expiry, Head(rest));
        rest := Tail(rest);
      }
      EndHandler();
    }

    method EndHandler()
      requires Inv(Model()) && Enabled(Model(), End)
      modifies this
      ensures Model() == Next(old(Model()), End) && Inv(Model())
    {
      StepKeepsInv(Model(), End);
      mode := Idle;
      if list != [] {
        Wait();
      }
    }
  }

  lemma {:induction false} ActedAfterFire(s: State, script: seq<Action>)
    requires Inv(s) && CanFire(s)
    ensures Enabled(AllActed(Next(s, Fire(s.list[0].id)), script), Return)
  {
    var s1 := Next(s, Fire(s.list[0].id));
    StepKeepsInv(s, Fire(s.list[0].id));
    var steps := ActedIsRun(s1, [], s1, script);
  }
}
