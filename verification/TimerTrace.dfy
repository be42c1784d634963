/** What the callers of the timer list see: the calls they make, the clock and the callbacks they get, and nothing of
    the list itself. */
module TimerTrace {
  import opened Options
  import opened Sequences
  import opened TimerMachine

  /** The time after the given steps. */
  function Clock(start: int, steps: seq<Step>): int {
    if steps == [] then start
    else
      var last := steps[|steps| - 1];
      if last.Pass? then last.time else Clock(start, steps[..|steps| - 1])
  }

  /** When a timer was last scheduled or updated, as long as it has been neither cancelled nor fired. */
  function Pending(start: int, steps: seq<Step>, id: nat): Option<int> {
    if steps == [] then None
    else
      var before, last := steps[..|steps| - 1], steps[|steps| - 1];
      var since := Pending(start, before, id);
      if last == Schedule(id) || (last == Update(id) && since.Some?) then Some(Clock(start, before))
      else if last == Cancel(id) || last == Fire(id) then None
      else since
  }

  /** The callbacks: which timer, when, and when it was due. */
  function Firings(duration: int, start: int, steps: seq<Step>): seq<Firing> {
    if steps == [] then []
    else
      var before, last := steps[..|steps| - 1], steps[|steps| - 1];
      var firings := Firings(duration, start, before);
      if !last.Fire? then firings
      else
        var since := Pending(start, before, last.id);
        firings + [Firing(last.id, Clock(start, before), if since.Some? then since.value + duration else 0)]
  }

  // ----- the list agrees with the trace

  /** The last step of a run. */
  lemma {:induction false} RunSnoc(s: State, steps: seq<Step>)
    requires IsRun(s, steps) && steps != []
    ensures var before, last := steps[..|steps| - 1], steps[|steps| - 1];
            IsRun(s, before) && Enabled(Run(s, before), last) && Run(s, steps) == Next(Run(s, before), last)
    decreases |steps|
  {
    var n := |steps| - 1;
    if n > 0 {
      RunSnoc(Next(s, steps[0]), steps[1..]);
      TailOfTake(steps, n);
    }
  }

  ghost predicate Tracks(s: State, id: nat, since: Option<int>) {
    && (id in s.live <==> since.Some?)
    && (since.Some? ==> id in s.due && s.due[id] == since.value + s.duration)
  }

  lemma {:induction false} StepTracks(s: State, step: Step, id: nat, since: Option<int>)
    requires Inv(s) && Enabled(s, step) && Tracks(s, id, since)
    ensures Tracks(Next(s, step), id,
                   if step == Schedule(id) || (step == Update(id) && since.Some?) then Some(s.now)
                   else if step == Cancel(id) || step == Fire(id) then None else since)
  {
    if step.Schedule? { var l := ScheduledList(s, step.id); }
  }

  lemma {:induction false} RunTracks(duration: int, start: int, steps: seq<Step>, id: nat)
    requires duration >= 0 && IsRun(Initial(duration, start), steps)
    ensures var s := Run(Initial(duration, start), steps);
            && Inv(s) && s.duration == duration && s.now == Clock(start, steps)
            && Tracks(s, id, Pending(start, steps, id))
    decreases |steps|
  {
    RunKeepsInv(Initial(duration, start), steps);
    if steps != [] {
      var before := steps[..|steps| - 1];
      RunSnoc(Initial(duration, start), steps);
      RunTracks(duration, start, before, id);
      StepTracks(Run(Initial(duration, start), before), steps[|steps| - 1], id, Pending(start, before, id));
    }
  }

  lemma {:induction false} DueAt(list: seq<Entry>, due: map<nat, int>, latest: int, e: Entry)
    requires DueInv(list, due, latest) && e in list
    ensures e.id in due && due[e.id] == e.expiry
  {
    if e != list[0] { DueAt(list[1..], due, latest, e); }
  }

  lemma {:induction false} IdIn(list: seq<Entry>, e: Entry)
    requires e in list
    ensures e.id in Ids(list)
  {
    if e != list[0] { IdIn(list[1..], e); }
  }

  lemma {:induction false} EntryOf(list: seq<Entry>, id: nat) returns (e: Entry)
    requires id in Ids(list)
    ensures e in list && e.id == id
  {
    if list[0].id == id {
      e := list[0];
    } else {
      e := EntryOf(list[1..], id);
    }
  }

  /** In every run the entries that wait are exactly the timers scheduled and since then neither cancelled nor fired,
      each with the time of its last schedule or update plus the duration. */
  lemma {:induction false} ListIsPending(duration: int, start: int, steps: seq<Step>, id: nat, expiry: int)
    requires duration >= 0 && IsRun(Initial(duration, start), steps)
    ensures var s := Run(Initial(duration, start), steps);
            Entry(id, expiry) in Waiting(s) <==> Pending(start, steps, id) == Some(expiry - duration)
  {
    var s := Run(Initial(duration, start), steps);
    RunTracks(duration, start, steps, id);
    if Entry(id, expiry) in Waiting(s) {
      IdIn(Waiting(s), Entry(id, expiry));
      DueAt(s.list, s.due, s.now + s.duration, Entry(id, expiry));
    }
    if id in s.live {
      var e := EntryOf(Waiting(s), id);
      DueAt(s.list, s.due, s.now + s.duration, e);
    }
  }

  // ----- firings

  /** When a timer fires it is pending, its handler captured the time of its last schedule or update plus the
      duration, and that time has come. */
  lemma {:induction false} FiresPending(duration: int, start: int, before: seq<Step>, id: nat)
    requires duration >= 0 && IsRun(Initial(duration, start), before)
    requires Enabled(Run(Initial(duration, start), before), Fire(id))
    ensures var s, since := Run(Initial(duration, start), before), Pending(start, before, id);
            && since.Some? && s.list[0] == Entry(id, since.value + duration)
            && s.mode.expiry == since.value + duration <= Clock(start, before)
  {
    var s := Run(Initial(duration, start), before);
    RunTracks(duration, start, before, id);
    ListIsPending(duration, start, before, id, s.list[0].expiry);
  }

  /** In every run the callbacks are exactly the firings of the trace: each at or after the last schedule or update
      of its timer plus the duration, and none twice. */
  lemma {:induction false} FiresWhenDueAndOnce(duration: int, start: int, steps: seq<Step>)
    requires duration >= 0 && IsRun(Initial(duration, start), steps)
    ensures Run(Initial(duration, start), steps).fired == Firings(duration, start, steps)
    ensures forall f | f in Firings(duration, start, steps) :: f.due <= f.at
    ensures forall i, j | 0 <= i < j < |Firings(duration, start, steps)| ::
              Firings(duration, start, steps)[i].id != Firings(duration, start, steps)[j].id
  {
    FiredIsTrace(duration, start, steps);
    RunKeepsInv(Initial(duration, start), steps);
  }

  lemma {:induction false} FiredIsTrace(duration: int, start: int, steps: seq<Step>)
    requires duration >= 0 && IsRun(Initial(duration, start), steps)
    ensures Run(Initial(duration, start), steps).fired == Firings(duration, start, steps)
    decreases |steps|
  {
    if steps != [] {
      var before, last := steps[..|steps| - 1], steps[|steps| - 1];
      RunSnoc(Initial(duration, start), steps);
      FiredIsTrace(duration, start, before);
      if last.Fire? {
        RunTracks(duration, start, before, last.id);
        FiresPending(duration, start, before, last.id);
        FireRecords(Run(Initial(duration, start), before), last.id, Pending(start, before, last.id));
      } else {
        OthersRecordNothing(Run(Initial(duration, start), before), last);
      }
    }
  }

  lemma {:induction false} FireRecords(s: State, id: nat, since: Option<int>)
    requires Enabled(s, Fire(id)) && since.Some? && Tracks(s, id, since)
    ensures Next(s, Fire(id)).fired == s.fired + [Firing(id, s.now, since.value + s.duration)]
  {
  }

  lemma {:induction false} OthersRecordNothing(s: State, step: Step)
    requires Enabled(s, step) && !step.Fire?
    ensures Next(s, step).fired == s.fired
  {
  }

  /** A timer that is not live any more never fires again. */
  lemma {:induction false} GoneForGood(s: State, steps: seq<Step>, id: nat)
    requires Inv(s) && IsRun(s, steps) && id in s.due && id !in s.live
    ensures Fire(id) !in steps
    decreases |steps|
  {
    if steps != [] {
      StepKeepsInv(s, steps[0]);
      StepTracks(s, steps[0], id, None);
      GoneForGood(Next(s, steps[0]), steps[1..], id);
    }
  }

  /** No timer fires after it was cancelled, and none after it has fired. */
  lemma {:induction false} NotAfterCancel(s: State, steps: seq<Step>, id: nat)
    requires Inv(s) && IsRun(s, steps) && steps != [] && (steps[0] == Cancel(id) || steps[0] == Fire(id))
    ensures Fire(id) !in steps[1..]
  {
    var s1 := Next(s, steps[0]);
    StepKeepsInv(s, steps[0]);
    if steps[0] == Fire(id) { DueAt(s.list, s.due, s.now + s.duration, s.list[0]); }
    GoneForGood(s1, steps[1..], id);
  }

  /** No timer is late: outside the handler, a timer that is pending past its time has a handler queued or the system
      timer about to go off. */
  lemma {:induction false} NeverLate(duration: int, start: int, steps: seq<Step>, id: nat)
    requires duration >= 0 && IsRun(Initial(duration, start), steps)
    requires var since := Pending(start, steps, id); since.Some? && since.value + duration <= Clock(start, steps)
    requires Run(Initial(duration, start), steps).mode.Idle?
    ensures var s := Run(Initial(duration, start), steps);
            s.queued != multiset{} || (s.armed.Some? && s.armed.value <= s.now)
  {
    var s := Run(Initial(duration, start), steps);
    var e := Entry(id, Pending(start, steps, id).value + duration);
    RunTracks(duration, start, steps, id);
    ListIsPending(duration, start, steps, id, e.expiry);
    if e != s.list[0] { NoneBeforeIn(s.list[1..], s.list[0].expiry, e); }
  }
}
