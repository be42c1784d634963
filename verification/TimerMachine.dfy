/** The timer list of `net/timer-list.h` as a machine of small steps: what its users, the clock, the system
    timer and the callbacks can do, in any order. */
module TimerMachine {
  import opened Options

  /** An entry of the list, named by the timer it belongs to. */
  datatype Entry = Entry(id: nat, expiry: int)

  /** Outside the handler; in its loop; or inside the callback of the front entry. `expiry` is what the
      running handler captured when it was armed. */
  datatype Mode = Idle | Looping(expiry: int) | Calling(expiry: int, id: nat)

  /** A callback that was called: when, and when it was due. */
  datatype Firing = Firing(id: nat, at: int, due: int)

  /** `armed` is the wait on the system timer, `queued` the handlers whose wait has completed but which have
      not run yet. `live` are the timers whose handle is valid. `due` records, for every timer ever scheduled,
      the time of its last schedule or update plus the duration. */
  datatype State = State(
    duration: int,
    now: int,
    list: seq<Entry>,
    live: set<nat>,
    armed: Option<int>,
    queued: multiset<int>,
    mode: Mode,
    due: map<nat, int>,
    fired: seq<Firing>)

  datatype Step =
    | Pass(time: int)
    | Elapse
    | Schedule(id: nat)
    | Update(id: nat)
    | Cancel(id: nat)
    | Begin(expiry: int)
    | Fire(id: nat)
    | Return
    | End

  /** The list with the entry of one timer unlinked. */
  function Without(list: seq<Entry>, id: nat): seq<Entry> {
    if list == [] then [] else if list[0].id == id then list[1..] else [list[0]] + Without(list[1..], id)
  }

  /** `wait`: arming replaces an earlier wait but cannot recall a handler that is already queued. */
  function Wait(s: State): State
    requires s.list != []
  {
    s.(armed := Some(s.list[0].expiry))
  }

  /** The test of the handler's loop. */
  predicate CanFire(s: State) {
    s.mode.Looping? && s.list != [] && s.list[0].expiry <= s.mode.expiry
  }

  predicate Enabled(s: State, step: Step) {
    match step
    case Pass(time) => time >= s.now
    case Elapse => s.armed.Some? && s.armed.value <= s.now
    case Schedule(id) => id !in s.due
    case Update(id) => id in s.due
    case Cancel(id) => id in s.due
    case Begin(expiry) => s.mode.Idle? && expiry in s.queued
    case Fire(id) => CanFire(s) && s.list[0].id == id
    case Return => s.mode.Calling? && s.list != []
    case End => s.mode.Looping? && (s.list == [] || s.list[0].expiry > s.mode.expiry)
  }

  function Next(s: State, step: Step): State
    requires Enabled(s, step)
  {
    match step
    case Pass(time) => s.(now := time)
    case Elapse => s.(armed := None, queued := s.queued + multiset{s.armed.value})
    case Schedule(id) =>
      var s1 := s.(list := s.list + [Entry(id, s.now + s.duration)], live := s.live + {id},
                   due := s.due[id := s.now + s.duration]);
      if |s1.list| == 1 then Wait(s1) else s1
    case Update(id) =>
      if id !in s.live then s
      else s.(list := Without(s.list, id) + [Entry(id, s.now + s.duration)], due := s.due[id := s.now + s.duration])
    case Cancel(id) =>
      if id !in s.live then s
      else
        var s1 := s.(list := Without(s.list, id), live := s.live - {id});
        if s1.list == [] then s1.(armed := None) else s1
    case Begin(expiry) => s.(queued := s.queued - multiset{expiry}, mode := Looping(expiry))
    case Fire(_) =>
      var e := s.list[0];
      s.(live := s.live - {e.id}, mode := Calling(s.mode.expiry, e.id),
         fired := s.fired + [Firing(e.id, s.now, if e.id in s.due then s.due[e.id] else e.expiry)])
    case Return => s.(list := s.list[1..], mode := Looping(s.mode.expiry))
    case End => if s.list == [] then s.(mode := Idle) else Wait(s.(mode := Idle))
  }

  // ----- the invariant

  /** Every entry expires at `time` or later. */
  predicate NoneBefore(list: seq<Entry>, time: int) {
    list != [] ==> time <= list[0].expiry && NoneBefore(list[1..], time)
  }

  predicate Sorted(list: seq<Entry>) {
    list != [] ==> NoneBefore(list[1..], list[0].expiry) && Sorted(list[1..])
  }

  function Ids(list: seq<Entry>): set<nat> {
    if list == [] then {} else {list[0].id} + Ids(list[1..])
  }

  predicate Distinct(list: seq<Entry>) {
    list != [] ==> list[0].id !in Ids(list[1..]) && Distinct(list[1..])
  }

  /** The entries whose handle is valid: all, except the one whose callback is running. */
  function Waiting(s: State): seq<Entry> {
    if s.mode.Calling? && s.list != [] then s.list[1..] else s.list
  }

  /** Every entry expires when its timer is due, which is never after `latest`. */
  predicate DueInv(list: seq<Entry>, due: map<nat, int>, latest: int) {
    list != [] ==>
      && list[0].expiry <= latest && list[0].id in due && due[list[0].id] == list[0].expiry
      && DueInv(list[1..], due, latest)
  }

  predicate Listed(list: seq<Entry>, due: map<nat, int>, latest: int) {
    Sorted(list) && Distinct(list) && DueInv(list, due, latest)
  }

  ghost predicate ListInv(s: State) {
    Listed(s.list, s.due, s.now + s.duration) && s.live == Ids(Waiting(s))
  }

  /** A wait captured at `expiry` will not come after the front entry is due. */
  ghost predicate InTime(s: State, expiry: int) {
    s.list != [] ==> expiry <= s.list[0].expiry
  }

  ghost predicate WaitInv(s: State) {
    && (s.armed.Some? ==> InTime(s, s.armed.value))
    && (forall e | e in s.queued :: e <= s.now && InTime(s, e))
    && (s.mode.Looping? || s.mode.Calling? ==> s.mode.expiry <= s.now && InTime(s, s.mode.expiry))
    && (s.mode.Calling? ==> s.list != [] && s.list[0] == Entry(s.mode.id, s.mode.expiry))
    && (s.mode.Idle? && s.list != [] ==> s.armed.Some? || s.queued != multiset{})
  }

  ghost predicate FiredInv(s: State) {
    && (forall f | f in s.fired :: f.due <= f.at && f.id in s.due && f.id !in s.live)
    && (forall i, j | 0 <= i < j < |s.fired| :: s.fired[i].id != s.fired[j].id)
  }

  ghost predicate Inv(s: State) {
    s.duration >= 0 && ListInv(s) && WaitInv(s) && FiredInv(s)
  }

  lemma {:induction false} NoneBeforeIn(list: seq<Entry>, time: int, e: Entry)
    requires NoneBefore(list, time) && e in list
    ensures time <= e.expiry
  {
    if e != list[0] { NoneBeforeIn(list[1..], time, e); }
  }

  lemma {:induction false} NoneBeforeAppend(list: seq<Entry>, time: int, e: Entry)
    requires NoneBefore(list, time) && time <= e.expiry
    ensures NoneBefore(list + [e], time)
  {
    if list != [] {
      NoneBeforeAppend(list[1..], time, e);
      assert (list + [e])[1..] == list[1..] + [e];
    }
  }

  lemma {:induction false} NoneBeforeWithout(list: seq<Entry>, time: int, id: nat)
    requires NoneBefore(list, time)
    ensures NoneBefore(Without(list, id), time)
  {
    if list != [] && list[0].id != id {
      NoneBeforeWithout(list[1..], time, id);
      Front(list[0], Without(list[1..], id));
    }
  }

  lemma {:induction false} Front(e: Entry, rest: seq<Entry>)
    ensures ([e] + rest)[0] == e && ([e] + rest)[1..] == rest
  {
  }

  lemma {:induction false} DueLater(list: seq<Entry>, due: map<nat, int>, latest: int, later: int)
    requires DueInv(list, due, latest) && latest <= later
    ensures DueInv(list, due, later)
  {
    if list != [] { DueLater(list[1..], due, latest, later); }
  }

  lemma {:induction false} UnusedId(list: seq<Entry>, due: map<nat, int>, latest: int, id: nat)
    requires DueInv(list, due, latest) && id !in due
    ensures id !in Ids(list)
  {
    if list != [] { UnusedId(list[1..], due, latest, id); }
  }

  /** A new entry that expires last goes to the end. */
  lemma {:induction false} AppendEntry(list: seq<Entry>, due: map<nat, int>, e: Entry)
    requires Listed(list, due, e.expiry) && e.id !in Ids(list)
    ensures Listed(list + [e], due[e.id := e.expiry], e.expiry) && Ids(list + [e]) == Ids(list) + {e.id}
    ensures list != [] ==> (list + [e])[1..] == list[1..] + [e] && Ids(list[1..] + [e]) == Ids(list[1..]) + {e.id}
  {
    if list == [] {
      assert [] + [e] == [e];
    } else {
      AppendEntry(list[1..], due, e);
      NoneBeforeAppend(list[1..], list[0].expiry, e);
      assert (list + [e])[1..] == list[1..] + [e];
    }
  }

  /** Unlinking a timer keeps order and the other timers; another front entry stays in front. */
  lemma {:induction false} WithoutEntry(list: seq<Entry>, due: map<nat, int>, latest: int, id: nat)
    requires Listed(list, due, latest)
    ensures var r := Without(list, id);
            && Listed(r, due, latest) && Ids(r) == Ids(list) - {id}
            && (list != [] && list[0].id != id ==> r != [] && r[0] == list[0] && r[1..] == Without(list[1..], id))
  {
    if list != [] && list[0].id != id {
      WithoutEntry(list[1..], due, latest, id);
      NoneBeforeWithout(list[1..], list[0].expiry, id);
      Front(list[0], Without(list[1..], id));
    }
  }

  /** It never brings the front forward. */
  lemma {:induction false} WithoutFront(list: seq<Entry>, id: nat)
    requires Sorted(list) && list != [] && Without(list, id) != []
    ensures list[0].expiry <= Without(list, id)[0].expiry
  {
  }

  // ----- every step keeps it

  lemma {:induction false} QuietKeeps(s: State, step: Step)
    requires Inv(s) && Enabled(s, step) && (step.Pass? || step.Elapse? || step.Begin?)
    ensures Inv(Next(s, step))
  {
    if step.Pass? { DueLater(s.list, s.due, s.now + s.duration, step.time + s.duration); }
  }

  lemma {:induction false} ScheduledList(s: State, id: nat) returns (l: seq<Entry>)
    requires ListInv(s) && id !in s.due
    ensures l == s.list + [Entry(id, s.now + s.duration)]
    ensures Listed(l, s.due[id := s.now + s.duration], s.now + s.duration)
    ensures Ids(if s.mode.Calling? && s.list != [] then l[1..] else l) == s.live + {id}
  {
    var e := Entry(id, s.now + s.duration);
    l := s.list + [e];
    UnusedId(s.list, s.due, e.expiry, id);
    AppendEntry(s.list, s.due, e);
  }

  lemma {:induction false} ScheduleKeepsList(s: State, id: nat)
    requires ListInv(s) && Enabled(s, Schedule(id)) && (s.mode.Calling? ==> s.list != [])
    ensures ListInv(Next(s, Schedule(id)))
  {
    var l := ScheduledList(s, id);
  }

  lemma {:induction false} ScheduleKeeps(s: State, id: nat)
    requires Inv(s) && Enabled(s, Schedule(id))
    ensures Inv(Next(s, Schedule(id)))
  {
    ScheduleKeepsList(s, id);
  }

  lemma {:induction false} FireKeeps(s: State)
    requires Inv(s) && CanFire(s)
    ensures Inv(Next(s, Fire(s.list[0].id)))
  {
  }

  lemma {:induction false} ReturnKeeps(s: State)
    requires Inv(s) && Enabled(s, Return)
    ensures Inv(Next(s, Return))
  {
  }

  lemma {:induction false} EndKeeps(s: State)
    requires Inv(s) && Enabled(s, End)
    ensures Inv(Next(s, End))
  {
  }

  lemma {:induction false} CancelKeeps(s: State, id: nat)
    requires Inv(s) && Enabled(s, Cancel(id))
    ensures Inv(Next(s, Cancel(id)))
  {
    if id in s.live {
      WithoutEntry(s.list, s.due, s.now + s.duration, id);
      if s.mode.Calling? { WithoutEntry(s.list[1..], s.due, s.now + s.duration, id); }
      if Without(s.list, id) != [] { WithoutFront(s.list, id); }
    }
  }

  /** Moving a timer to the end keeps order, the set of timers, and a running front entry. */
  lemma {:induction false} MoveToEnd(list: seq<Entry>, due: map<nat, int>, e: Entry) returns (l: seq<Entry>)
    requires Listed(list, due, e.expiry) && e.id in Ids(list)
    ensures l == Without(list, e.id) + [e]
    ensures Listed(l, due[e.id := e.expiry], e.expiry) && Ids(l) == Ids(list)
    ensures list != [] && l != [] && list[0].expiry <= l[0].expiry
    ensures list[0].id != e.id ==> l[0] == list[0] && l[1..] == Without(list[1..], e.id) + [e]
  {
    var r := Without(list, e.id);
    l := r + [e];
    WithoutEntry(list, due, e.expiry, e.id);
    AppendEntry(r, due, e);
    if r != [] { WithoutFront(list, e.id); }
  }

  lemma {:induction false} UpdatedList(s: State, id: nat) returns (l: seq<Entry>)
    requires ListInv(s) && id in s.live
    ensures l == Without(s.list, id) + [Entry(id, s.now + s.duration)]
    ensures Listed(l, s.due[id := s.now + s.duration], s.now + s.duration)
    ensures s.list != [] && l != [] && s.list[0].expiry <= l[0].expiry
    ensures Ids(if s.mode.Calling? then l[1..] else l) == s.live && (s.mode.Calling? ==> l[0] == s.list[0])
  {
    var e := Entry(id, s.now + s.duration);
    l := MoveToEnd(s.list, s.due, e);
    if s.mode.Calling? { var rest := MoveToEnd(s.list[1..], s.due, e); }
  }

  lemma {:induction false} UpdateKeepsList(s: State, id: nat)
    requires ListInv(s) && Enabled(s, Update(id)) && id in s.live
    ensures ListInv(Next(s, Update(id)))
  {
    var l := UpdatedList(s, id);
  }

  lemma {:induction false} UpdateKeepsFront(s: State, id: nat)
    requires ListInv(s) && Enabled(s, Update(id)) && id in s.live
    ensures s.list != [] && Next(s, Update(id)).list != []
    ensures s.mode.Calling? ==> Next(s, Update(id)).list[0] == s.list[0]
    ensures s.list[0].expiry <= Next(s, Update(id)).list[0].expiry
  {
    var l := UpdatedList(s, id);
  }

  lemma {:induction false} UpdateKeeps(s: State, id: nat)
    requires Inv(s) && Enabled(s, Update(id))
    ensures Inv(Next(s, Update(id)))
  {
    if id in s.live {
      UpdateKeepsList(s, id);
      UpdateKeepsFront(s, id);
    }
  }

  lemma {:induction false} StepKeepsInv(s: State, step: Step)
    requires Inv(s) && Enabled(s, step)
    ensures Inv(Next(s, step))
  {
    match step {
      case Pass(_) => QuietKeeps(s, step);
      case Elapse => QuietKeeps(s, step);
      case Schedule(id) => ScheduleKeeps(s, id);
      case Update(id) => UpdateKeeps(s, id);
      case Cancel(id) => CancelKeeps(s, id);
      case Begin(_) => QuietKeeps(s, step);
      case Fire(_) => FireKeeps(s);
      case Return => ReturnKeeps(s);
      case End => EndKeeps(s);
    }
  }

  // ----- whole runs

  function Initial(duration: int, now: int): State {
    State(duration, now, [], {}, None, multiset{}, Idle, map[], [])
  }

  predicate IsRun(s: State, steps: seq<Step>)
    decreases |steps|
  {
    steps != [] ==> Enabled(s, steps[0]) && IsRun(Next(s, steps[0]), steps[1..])
  }

  function Run(s: State, steps: seq<Step>): State
    requires IsRun(s, steps)
    decreases |steps|
  {
    if steps == [] then s else Run(Next(s, steps[0]), steps[1..])
  }

  lemma {:induction false} RunKeepsInv(s: State, steps: seq<Step>)
    requires Inv(s) && IsRun(s, steps)
    ensures Inv(Run(s, steps))
    decreases |steps|
  {
    if steps != [] {
      StepKeepsInv(s, steps[0]);
      RunKeepsInv(Next(s, steps[0]), steps[1..]);
    }
  }

  /** An entry fires exactly at the expiry its handler captured, which is when its timer is due. */
  lemma {:induction false} FiresExactly(duration: int, now: int, steps: seq<Step>)
    requires duration >= 0 && IsRun(Initial(duration, now), steps)
    requires CanFire(Run(Initial(duration, now), steps))
    ensures var s := Run(Initial(duration, now), steps);
            && s.list[0].id in s.due
            && s.mode.expiry == s.list[0].expiry == s.due[s.list[0].id] <= s.now
  {
    RunKeepsInv(Initial(duration, now), steps);
  }

  /** No wake-up is lost: outside the handler, a list that is not empty has a wait armed or a handler
      queued. No wait, armed or queued, is later than the first entry is due. The list is sorted throughout. */
  lemma {:induction false} NeverStuck(duration: int, now: int, steps: seq<Step>)
    requires duration >= 0 && IsRun(Initial(duration, now), steps)
    ensures var s := Run(Initial(duration, now), steps);
            && Sorted(s.list)
            && (s.armed.Some? ==> InTime(s, s.armed.value))
            && (forall e | e in s.queued :: InTime(s, e))
            && (s.mode.Idle? && s.list != [] ==> s.armed.Some? || s.queued != multiset{})
  {
    RunKeepsInv(Initial(duration, now), steps);
  }

  lemma {:induction false} RunAppend(s: State, a: seq<Step>, step: Step)
    requires IsRun(s, a) && Enabled(Run(s, a), step)
    ensures IsRun(s, a + [step]) && Run(s, a + [step]) == Next(Run(s, a), step)
    decreases |a|
  {
    if a != [] {
      RunAppend(Next(s, a[0]), a[1..], step);
      assert (a + [step])[1..] == a[1..] + [step];
    } else {
      assert [step][1..] == [];
    }
  }

  // ----- the handler from start to end

  /** What a callback may do to the list while it runs; the clock may move on as well. */
  datatype Action = DoSchedule(id: nat) | DoUpdate(id: nat) | DoCancel(id: nat) | DoPass(time: int)

  function StepOf(a: Action): Step {
    match a
    case DoSchedule(id) => Schedule(id)
    case DoUpdate(id) => Update(id)
    case DoCancel(id) => Cancel(id)
    case DoPass(time) => Pass(time)
  }

  /** An action that is not possible has no effect. */
  function Acted(s: State, a: Action): State {
    if Enabled(s, StepOf(a)) then Next(s, StepOf(a)) else s
  }

  function AllActed(s: State, script: seq<Action>): State {
    if script == [] then s else Acted(AllActed(s, script[..|script| - 1]), script[|script| - 1])
  }

  function Head(scripts: seq<seq<Action>>): seq<Action> {
    if scripts == [] then [] else scripts[0]
  }

  function Tail(scripts: seq<seq<Action>>): seq<seq<Action>> {
    if scripts == [] then [] else scripts[1..]
  }

  /** One pass of the handler's loop: the front entry's callback does `script`, then the entry is popped. */
  function Popped(s: State, script: seq<Action>): State
    requires CanFire(s)
  {
    var s1 := AllActed(Next(s, Fire(s.list[0].id)), script);
    if Enabled(s1, Return) then Next(s1, Return) else s1
  }

  /** The rest of the handler; `scripts` is what the callbacks do, in the order they are called. */
  function Handled(s: State, scripts: seq<seq<Action>>): State
    decreases |scripts|, |s.list|
  {
    if CanFire(s) then Handled(Popped(s, Head(scripts)), Tail(scripts))
    else if Enabled(s, End) then Next(s, End)
    else s
  }

  lemma {:induction false} ActedIsRun(start: State, before: seq<Step>, s: State, script: seq<Action>)
    returns (steps: seq<Step>)
    requires IsRun(start, before) && Run(start, before) == s && Inv(s)
    ensures IsRun(start, steps) && Run(start, steps) == AllActed(s, script) && Inv(AllActed(s, script))
    ensures AllActed(s, script).mode == s.mode
    decreases script
  {
    if script == [] {
      steps := before;
    } else {
      var n := |script| - 1;
      steps := ActedIsRun(start, before, s, script[..n]);
      var step := StepOf(script[n]);
      var s1 := AllActed(s, script[..n]);
      if Enabled(s1, step) {
        StepKeepsInv(s1, step);
        RunAppend(start, steps, step);
        steps := steps + [step];
      }
    }
  }

  lemma {:induction false} PoppedIsRun(start: State, before: seq<Step>, s: State, script: seq<Action>)
    returns (steps: seq<Step>)
    requires IsRun(start, before) && Run(start, before) == s && Inv(s) && CanFire(s)
    ensures IsRun(start, steps) && Run(start, steps) == Popped(s, script) && Inv(Popped(s, script))
    ensures Popped(s, script).mode == s.mode
  {
    var fire := Fire(s.list[0].id);
    StepKeepsInv(s, fire);
    RunAppend(start, before, fire);
    steps := ActedIsRun(start, before + [fire], Next(s, fire), script);
    var s1 := AllActed(Next(s, fire), script);
    StepKeepsInv(s1, Return);
    RunAppend(start, steps, Return);
    steps := steps + [Return];
  }

  /** Whatever its callbacks do, a handler's execution is a run of the machine and ends. */
  lemma {:induction false} HandledIsRun(start: State, before: seq<Step>, s: State, scripts: seq<seq<Action>>)
    returns (steps: seq<Step>)
    requires IsRun(start, before) && Run(start, before) == s && Inv(s) && s.mode.Looping?
    ensures IsRun(start, steps) && Run(start, steps) == Handled(s, scripts) && Inv(Handled(s, scripts))
    ensures Handled(s, scripts).mode.Idle?
    decreases |scripts|, |s.list|
  {
    if CanFire(s) {
      steps := PoppedIsRun(start, before, s, Head(scripts));
      steps := HandledIsRun(start, steps, Popped(s, Head(scripts)), Tail(scripts));
    } else {
      StepKeepsInv(s, End);
      RunAppend(start, before, End);
      steps := before + [End];
    }
  }

  /** A handler leaves nothing that was due: every entry left expires after the time it captured, and the system
      timer is set for the first of them. */
  lemma {:induction false} HandlesAllDue(s: State, scripts: seq<seq<Action>>)
    requires Inv(s) && s.mode.Looping?
    ensures var r := Handled(s, scripts);
            && (forall e | e in r.list :: e.expiry > s.mode.expiry)
            && (r.list != [] ==> r.armed == Some(r.list[0].expiry))
    decreases |scripts|, |s.list|
  {
    if CanFire(s) {
      var steps := PoppedIsRun(s, [], s, Head(scripts));
      HandlesAllDue(Popped(s, Head(scripts)), Tail(scripts));
    } else {
      forall e | e in s.list ensures e.expiry > s.mode.expiry {
        if e != s.list[0] { NoneBeforeIn(s.list[1..], s.list[0].expiry, e); }
      }
    }
  }
}
