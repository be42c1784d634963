/** What callers and handlers see of an operation, told by the events of the run alone. */
module RpcOutcomes {
  import opened Options
  import opened Bytes
  import opened Sequences
  import opened RpcWire
  import opened RetrySchedule
  import opened RpcSystem
  import opened RpcLifetime
  import opened RpcSafety
  import C = RpcClientState
  import S = RpcServerState

  // ----- what the events say

  /** Of one operation: the request that started it; how often `send` was called, which is at the request and
      whenever the timer's handler runs; how many sends have completed; how many handlers of the timer have run; the
      errors of the waits that failed; and the answers that handlers have given. */
  datatype History = History(
    asked: Option<Event>,
    calls: nat,
    completions: nat,
    runs: nat,
    codes: set<nat>,
    answers: set<Buffer>)

  function After(h: History, e: Event, k: OperationKey): History {
    match e
    case Request(k', _, _, _, _) => if k' == k then h.(asked := Some(e), calls := h.calls + 1) else h
    case Handler(k', e) =>
      if k' != k then h
      else (
        match e
        case Completes => h.(completions := h.completions + 1)
        case Wakes => h.(calls := h.calls + 1, runs := h.runs + 1)
        case Cancels => h.(runs := h.runs + 1)
        case Breaks(code) => h.(runs := h.runs + 1, codes := h.codes + {code})
        case Rings => h
        case Arrive(_, _) => h)
    case Answer(k', response) => if k' == k then h.(answers := h.answers + {response}) else h
    case ClientGets(_, _) => h
    case ServerGets(_, _) => h
    case Expire(_) => h
    case LoseRequest(_) => h
    case LoseResponse(_) => h
  }

  function HistoryOf(es: seq<Event>, k: OperationKey): History {
    if es == [] then History(None, 0, 0, 0, {}, {}) else After(HistoryOf(es[..|es| - 1], k), es[|es| - 1], k)
  }

  /** How many of the calls of `send` have sent: all until one finds no time left. */
  function Sent(timeout: int, initialRetry: int, calls: nat): nat {
    if calls == 0 then 0
    else
      var n := Sent(timeout, initialRetry, calls - 1);
      if Sends(timeout, initialRetry, n) then n + 1 else n
  }

  /** `n * x`. */
  function Times(n: nat, x: nat): nat {
    if n == 0 then 0 else Times(n - 1, x) + x
  }

  lemma {:induction false} SentAll(timeout: int, initialRetry: int, calls: nat)
    ensures Sent(timeout, initialRetry, calls) <= calls
    ensures forall m: nat | m < Sent(timeout, initialRetry, calls) :: Sends(timeout, initialRetry, m)
  {
    if calls > 0 { SentAll(timeout, initialRetry, calls - 1); }
  }

  // ----- the client operation agrees with them

  /** The operation is that of the request; a send has as many handlers as fragments and one for the timer, of which
      those that have not run are pending; the operation times out in a call of `send` that does not send, and fails
      only with the error of a wait. */
  ghost predicate Told(c: C.ClientOp, timeout: int, calls: nat, completions: nat, runs: nat, codes: set<nat>) {
    var n := Sent(timeout, c.initialRetry, calls);
    && c.retry == AfterSends(timeout, c.initialRetry, n)
    && c.sends + completions == Times(n, |c.fragments|) && C.Waits(c) + runs == n
    && (!c.finished ==> calls == n)
    && (c.result.TimedOut? ==> calls == n + 1 && !Sends(timeout, c.initialRetry, n) && C.Waits(c) == 0)
    && (c.result.Failed? ==> c.result.code in codes)
    && (c.result.Success? ==> c.assembly.size.Some?)
  }

  lemma {:induction false} SendTold(c: C.ClientOp, timeout: int, calls: nat, completions: nat, runs: nat,
                                    codes: set<nat>)
    requires var n := Sent(timeout, c.initialRetry, calls);
             && c.retry == AfterSends(timeout, c.initialRetry, n)
             && c.sends + completions == Times(n, |c.fragments|) && C.Waits(c) + runs == n
             && (!c.finished ==> calls == n && C.Waits(c) == 0)
    requires !c.result.TimedOut? && (c.result.Failed? ==> c.result.code in codes)
    requires c.result.Success? ==> c.assembly.size.Some?
    ensures Told(C.Send(c).0, timeout, calls + 1, completions, runs, codes)
  {
  }

  function Runs(e: C.ClientEvent): nat {
    if e.Wakes? || e.Cancels? || e.Breaks? then 1 else 0
  }

  lemma {:induction false} HandlerTold(c: C.ClientOp, e: C.ClientEvent, timeout: int, calls: nat, completions: nat,
                                       runs: nat, codes: set<nat>)
    requires Lives(c) && C.Possible(c, e) && !e.Arrive? && Told(c, timeout, calls, completions, runs, codes)
    ensures Told(C.React(c, e).0, timeout, if e.Wakes? then calls + 1 else calls,
                 if e.Completes? then completions + 1 else completions, runs + Runs(e),
                 if e.Breaks? then codes + {e.code} else codes)
  {
    if e.Wakes? {
      SendTold(c.(rung := c.rung - 1), timeout, calls, completions, runs + 1, codes);
    }
  }

  lemma {:induction false} ArrivalTold(c: C.ClientOp, d: Datagram, junk: Buffer, timeout: int, calls: nat,
                                       completions: nat, runs: nat, codes: set<nat>)
    requires |junk| == BodySize(d.body) && Told(c, timeout, calls, completions, runs, codes)
    ensures Told(C.Unpack(c, d, junk), timeout, calls, completions, runs, codes)
  {
  }

  /** The operation is the one that the request asked for. */
  predicate IsOf(c: C.ClientOp, e: Event) {
    && e.Request? && c.call == e.call && c.key == e.key && c.requestId == e.k.requestId
    && c.initialRetry == e.initialRetry
  }

  ghost predicate ToldOf(s: System, k: OperationKey, h: History) {
    if k !in s.clients then h.asked.None? && h.calls == 0 && h.completions == 0 && h.runs == 0
    else
      && h.asked.Some? && IsOf(s.clients[k], h.asked.value)
      && Told(s.clients[k], h.asked.value.timeout, h.calls, h.completions, h.runs, h.codes)
  }

  lemma {:induction false} StillOf(c: C.ClientOp, e: C.ClientEvent, request: Event)
    requires C.Possible(c, e) && IsOf(c, request)
    ensures IsOf(C.React(c, e).0, request)
  {
    if !e.Arrive? { C.HandlerFrame(c, e); }
  }

  lemma {:induction false} RequestTold(s: System, e: Event, cfg: Config, h: History, h': History)
    requires ValidConfig(cfg) && e.Request? && Enabled(s, e, cfg) && LifeInv(s, e.k)
    requires ToldOf(s, e.k, h) && h' == After(h, e, e.k)
    ensures ToldOf(Next(s, e, cfg), e.k, h')
  {
    RequestKeepsLife(s, e, cfg);
    var c := StartOf(e, cfg);
    c := FirstSend(c, e, h, h');
  }

  lemma {:induction false} StartOf(e: Event, cfg: Config) returns (c: C.ClientOp)
    requires ValidConfig(cfg) && e.Request?
    ensures c == Started(e, cfg) && IsOf(c, e) && c.retry == Retry(e.timeout, 1, 1)
    ensures C.References(c) == 0 && !c.finished && c.result.Unset?
  {
    c := Started(e, cfg);
  }

  lemma {:induction false} FirstSend(c: C.ClientOp, e: Event, h: History, h': History) returns (c': C.ClientOp)
    requires e.Request? && IsOf(c, e) && c.retry == AfterSends(e.timeout, c.initialRetry, h.calls)
    requires C.References(c) == 0 && !c.finished && c.result.Unset?
    requires h.calls == h.completions == h.runs == 0 && h' == After(h, e, e.k)
    ensures c' == C.Send(c).0 && IsOf(c', e) && h'.asked == Some(e)
    ensures Told(c', e.timeout, h'.calls, h'.completions, h'.runs, h'.codes)
  {
    c' := C.Send(c).0;
    SendTold(c, e.timeout, h.calls, h.completions, h.runs, h'.codes);
  }

  lemma {:induction false} RunsTold(s: System, e: Event, cfg: Config, h: History, h': History)
    requires ValidConfig(cfg) && e.Handler? && Enabled(s, e, cfg) && LifeInv(s, e.k)
    requires ToldOf(s, e.k, h) && h' == After(h, e, e.k)
    ensures ToldOf(Next(s, e, cfg), e.k, h')
  {
    HandlerKeepsLife(s, e, cfg);
    var c := ReactTold(s.clients[e.k], e, h, h');
  }

  lemma {:induction false} ReactTold(c: C.ClientOp, e: Event, h: History, h': History)
    returns (c': C.ClientOp)
    requires e.Handler? && !e.e.Arrive? && Lives(c) && C.Possible(c, e.e) && h.asked.Some?
    requires IsOf(c, h.asked.value) && h' == After(h, e, e.k)
    requires Told(c, h.asked.value.timeout, h.calls, h.completions, h.runs, h.codes)
    ensures c' == C.React(c, e.e).0 && h'.asked == h.asked && IsOf(c', h.asked.value)
    ensures Told(c', h.asked.value.timeout, h'.calls, h'.completions, h'.runs, h'.codes)
  {
    c' := C.React(c, e.e).0;
    StillOf(c, e.e, h.asked.value);
    HandlerTold(c, e.e, h.asked.value.timeout, h.calls, h.completions, h.runs, h.codes);
  }

  lemma {:induction false} GetsTold(s: System, e: Event, cfg: Config, h: History)
    requires ValidConfig(cfg) && e.ClientGets? && Enabled(s, e, cfg) && LifeInv(s, e.d.key)
    requires ToldOf(s, e.d.key, h)
    ensures ToldOf(Next(s, e, cfg), e.d.key, h)
  {
    var k, d := e.d.key, Received(e.d, cfg.receiveSize);
    if k in s.operations {
      StillOf(s.clients[k], C.Arrive(d, e.junk), h.asked.value);
      ArrivalTold(s.clients[k], d, e.junk, h.asked.value.timeout, h.calls, h.completions, h.runs, h.codes);
    }
  }

  lemma {:induction false} SameTold(s: System, s': System, e: Event, k: OperationKey, h: History, h': History)
    requires SameLife(s, s', k) && !Concerns(e, k) && ToldOf(s, k, h) && h' == After(h, e, k)
    ensures ToldOf(s', k, h')
  {
  }

  lemma {:induction false} StepTold(s: System, e: Event, cfg: Config, k: OperationKey, h: History, h': History)
    requires ValidConfig(cfg) && Enabled(s, e, cfg) && LifeInv(s, k)
    requires ToldOf(s, k, h) && h' == After(h, e, k)
    ensures ToldOf(Next(s, e, cfg), k, h')
  {
    if !Concerns(e, k) {
      ElsewhereSame(s, e, cfg, k);
      SameTold(s, Next(s, e, cfg), e, k, h, h');
    } else if e.Request? {
      RequestTold(s, e, cfg, h, h');
    } else if e.Handler? {
      RunsTold(s, e, cfg, h, h');
    } else {
      GetsTold(s, e, cfg, h);
    }
  }

  // ----- so do the answers

  /** What handlers are recorded to have answered was answered. */
  ghost predicate AnswersOf(s: System, k: OperationKey, answers: set<Buffer>) {
    forall i | i in InvocationsOf(s, k) :: i.response.Some? ==> i.response.value in answers
  }

  lemma {:induction false} AnsweredOf(invs: seq<Invocation>, response: Buffer, i: Invocation)
    requires i in Answered(invs, response)
    ensures i in invs || i.response == Some(response)
  {
  }

  lemma {:induction false} RegisteredAnswers(s: System, k': OperationKey, r: (S.ServerOp, S.Effect), k: OperationKey,
                                             answers: set<Buffer>)
    requires AnswersOf(s, k, answers)
    ensures AnswersOf(Registered(s, k', r), k, answers)
  {
  }

  lemma {:induction false} AnswerAnswers(s: System, e: Event, cfg: Config, k: OperationKey, answers: set<Buffer>)
    requires ValidConfig(cfg) && e.Answer? && Enabled(s, e, cfg) && AnswersOf(s, k, answers)
    ensures AnswersOf(Next(s, e, cfg), k, if e.k == k then answers + {e.response} else answers)
  {
    if e.k == k {
      forall i | i in Answered(InvocationsOf(s, k), e.response)
        ensures i.response.Some? ==> i.response.value in answers + {e.response}
      {
        AnsweredOf(InvocationsOf(s, k), e.response, i);
      }
    }
  }

  lemma {:induction false} StepAnswers(s: System, e: Event, cfg: Config, k: OperationKey, h: History, h': History)
    requires ValidConfig(cfg) && Enabled(s, e, cfg) && AnswersOf(s, k, h.answers) && h' == After(h, e, k)
    ensures AnswersOf(Next(s, e, cfg), k, h'.answers)
  {
    if e.Answer? {
      AnswerAnswers(s, e, cfg, k, h.answers);
    } else if e.ServerGets? {
      var d := Received(e.d, cfg.server.receiveSize);
      RegisteredAnswers(s, d.key, S.Unpack(OpOf(s, d.key), d, cfg.server, e.junk), k, h.answers);
    } else {
      OthersInvokeNothing(s, e, cfg, k);
    }
  }

  lemma {:induction false} OthersInvokeNothing(s: System, e: Event, cfg: Config, k: OperationKey)
    requires ValidConfig(cfg) && Enabled(s, e, cfg) && !e.Answer? && !e.ServerGets?
    ensures InvocationsOf(Next(s, e, cfg), k) == InvocationsOf(s, k)
  {
  }

  // ----- runs

  lemma {:induction false} RunSnoc(s: System, es: seq<Event>, cfg: Config)
    requires ValidConfig(cfg) && IsRun(s, es, cfg) && es != []
    ensures var before, last := es[..|es| - 1], es[|es| - 1];
            && IsRun(s, before, cfg) && Enabled(Run(s, before, cfg), last, cfg)
            && Run(s, es, cfg) == Next(Run(s, before, cfg), last, cfg)
    decreases |es|
  {
    var n := |es| - 1;
    if n > 0 {
      RunSnoc(Next(s, es[0], cfg), es[1..], cfg);
      TailOfTake(es, n);
    }
  }

  lemma {:induction false} RunTold(start: System, es: seq<Event>, cfg: Config, k: OperationKey) returns (s: System)
    requires ValidConfig(cfg) && IsRun(start, es, cfg) && LifeInv(start, k)
    requires k !in start.clients && InvocationsOf(start, k) == []
    ensures s == Run(start, es, cfg) && LifeInv(s, k)
    ensures ToldOf(s, k, HistoryOf(es, k)) && AnswersOf(s, k, HistoryOf(es, k).answers)
    decreases |es|
  {
    s := start;
    if es != [] {
      RunSnoc(start, es, cfg);
      var s1 := RunTold(start, es[..|es| - 1], cfg, k);
      var h := HistoryOf(es[..|es| - 1], k);
      StepTold(s1, es[|es| - 1], cfg, k, h, HistoryOf(es, k));
      StepAnswers(s1, es[|es| - 1], cfg, k, h, HistoryOf(es, k));
      StepKeepsLife(s1, es[|es| - 1], cfg, k);
      s := Next(s1, es[|es| - 1], cfg);
    }
  }

  // ----- nonces

  /** `d` is a fragment of the request of `k` or of the answer to it. */
  ghost predicate Belongs(s: System, k: OperationKey, cfg: Config, d: Datagram, m: Message, limit: nat)
    requires ValidConfig(cfg) && k in s.clients
  {
    && 0 < limit && OffsetsFit(m, limit) && d in Fragments(m, limit)
    && (!m.response ==> m == C.RequestMessage(s.clients[k]) && limit == cfg.fragmentSize)
    && (m.response ==> limit == cfg.server.fragmentSize && HeldAnswer(s, k) == Some(m.bytes)
                       && m == Message(m.bytes, s.clients[k].key, s.clients[k].requestId, true))
  }

  lemma {:induction false} WhoseFragment(s: System, k: OperationKey, cfg: Config, d: Datagram)
    returns (m: Message, limit: nat)
    requires ValidConfig(cfg) && KeyInv(s, k, cfg) && k in s.clients && !s.clients[k].finished && d.key == k
    requires d in s.toServer || d in s.toClient
    ensures Belongs(s, k, cfg, d, m, limit)
  {
    if d in s.toServer {
      m, limit := C.RequestMessage(s.clients[k]), cfg.fragmentSize;
    } else {
      m := Message(HeldAnswer(s, k).value, s.clients[k].key, s.clients[k].requestId, true);
      limit := cfg.server.fragmentSize;
    }
  }

  lemma {:induction false} NonceIsFresh(s: System, k: OperationKey, cfg: Config, d: Datagram, f: Datagram)
    requires ValidConfig(cfg) && KeyInv(s, k, cfg) && k in s.clients && !s.clients[k].finished && d.key == f.key == k
    requires (d in s.toServer || d in s.toClient) && (f in s.toServer || f in s.toClient)
    ensures d.body.Sealed? && f.body.Sealed? && (d.body.nonce == f.body.nonce ==> d == f)
  {
    var m, limit := WhoseFragment(s, k, cfg, d);
    var m', limit' := WhoseFragment(s, k, cfg, f);
    NoncesApart(m, limit, d, m', limit', f);
  }

  /** Until a call has finished, no two different datagrams of it, in either direction, are sealed with one nonce. */
  lemma {:induction false} NoncesAreFresh(es: seq<Event>, cfg: Config, k: OperationKey, d: Datagram, f: Datagram)
    requires ValidConfig(cfg) && IsRun(INITIAL, es, cfg) && d.key == f.key == k
    requires var s := Run(INITIAL, es, cfg);
             && k in s.clients && !s.clients[k].finished
             && (d in s.toServer || d in s.toClient) && (f in s.toServer || f in s.toClient)
    ensures d.body.Sealed? && f.body.Sealed? && (d.body.nonce == f.body.nonce ==> d == f)
  {
    Reachable(es, cfg, k);
    NonceIsFresh(Run(INITIAL, es, cfg), k, cfg, d, f);
  }

  // ----- outcomes

  /** What the events say of an outcome: a failure is that of a wait; at a timeout the sends that were made have used up
      the timeout of the request, and one more call of `send` has found it so. */
  ghost predicate Genuine(h: History, o: C.Outcome) {
    match o
    case Reply(_) => true
    case Error(Failed(code)) => code in h.codes
    case Error(TimedOut) =>
      && h.asked.Some? && h.asked.value.Request? && h.calls > 0
      && TimesOutAfter(h.asked.value.timeout, h.asked.value.initialRetry, h.calls - 1)
    case Error(_) => false
  }

  /** Every handler has run: one per fragment of every send, and one of the timer per send. */
  ghost predicate AllDone(h: History, cfg: Config)
    requires ValidConfig(cfg)
  {
    && h.asked.Some? && h.asked.value.Request?
    && var n := Sent(h.asked.value.timeout, h.asked.value.initialRetry, h.calls);
       h.runs == n && h.completions == Times(n, |Fragments(RequestOf(h.asked.value), cfg.fragmentSize)|)
  }

  lemma {:induction false} OutcomeTold(s: System, h: History, cfg: Config, k: OperationKey, o: C.Outcome)
    requires ValidConfig(cfg) && LifeInv(s, k) && KeyInv(s, k, cfg) && ToldOf(s, k, h) && o in CallbacksOf(s, k)
    ensures Genuine(h, o) && AllDone(h, cfg)
  {
    var c := OwnFragments(s, h, cfg, k);
    DoneTold(c, h.asked.value.timeout, h.calls, h.completions, h.runs, h.codes);
  }

  lemma {:induction false} OwnFragments(s: System, h: History, cfg: Config, k: OperationKey) returns (c: C.ClientOp)
    requires ValidConfig(cfg) && LifeInv(s, k) && KeyInv(s, k, cfg) && ToldOf(s, k, h) && CallbacksOf(s, k) != []
    ensures k in s.clients && c == s.clients[k] && Lives(c) && C.References(c) == 0
    ensures CallbacksOf(s, k) == [C.OutcomeOf(c)] && h.asked.Some? && IsOf(c, h.asked.value)
    ensures Told(c, h.asked.value.timeout, h.calls, h.completions, h.runs, h.codes)
    ensures c.fragments == Fragments(RequestOf(h.asked.value), cfg.fragmentSize)
  {
    c := s.clients[k];
    assert C.RequestMessage(c) == RequestOf(h.asked.value);
  }

  lemma {:induction false} DoneTold(c: C.ClientOp, timeout: int, calls: nat, completions: nat, runs: nat,
                                    codes: set<nat>)
    requires Lives(c) && C.References(c) == 0 && Told(c, timeout, calls, completions, runs, codes)
    ensures match C.OutcomeOf(c)
            case Reply(_) => true
            case Error(Failed(code)) => code in codes
            case Error(TimedOut) => calls > 0 && TimesOutAfter(timeout, c.initialRetry, calls - 1)
            case Error(_) => false
    ensures var n := Sent(timeout, c.initialRetry, calls); runs == n && completions == Times(n, |c.fragments|)
  {
    SentAll(timeout, c.initialRetry, calls);
  }

  /** In every run the callback gets a genuine outcome, and only after every handler has run that a send has left. */
  lemma {:induction false} OutcomesAreGenuine(es: seq<Event>, cfg: Config, k: OperationKey, o: C.Outcome)
    requires ValidConfig(cfg) && IsRun(INITIAL, es, cfg) && o in CallbacksOf(Run(INITIAL, es, cfg), k)
    ensures Genuine(HistoryOf(es, k), o) && AllDone(HistoryOf(es, k), cfg)
  {
    var s := RunTold(INITIAL, es, cfg, k);
    Reachable(es, cfg, k);
    OutcomeTold(s, HistoryOf(es, k), cfg, k, o);
  }

  /** An operation that has not finished has called `send` at most as often as it has sends. */
  lemma {:induction false} UnfinishedSends(es: seq<Event>, cfg: Config, k: OperationKey, n: nat)
    requires ValidConfig(cfg) && IsRun(INITIAL, es, cfg)
    requires k in Run(INITIAL, es, cfg).clients && !Run(INITIAL, es, cfg).clients[k].finished
    ensures var h := HistoryOf(es, k);
            && h.asked.Some? && h.asked.value.Request?
            && (TimesOutAfter(h.asked.value.timeout, h.asked.value.initialRetry, n) ==> h.calls <= n)
  {
    var s := RunTold(INITIAL, es, cfg, k);
    var h := HistoryOf(es, k);
    AtMostSends(h.asked.value.timeout, h.asked.value.initialRetry, h.calls, n);
  }

  lemma {:induction false} AtMostSends(timeout: int, initialRetry: int, calls: nat, n: nat)
    requires Sent(timeout, initialRetry, calls) == calls
    ensures TimesOutAfter(timeout, initialRetry, n) ==> calls <= n
  {
    SentAll(timeout, initialRetry, calls);
  }

  /** A failed wait, an answer and a request are events of the run. */
  lemma {:induction false} Happened(es: seq<Event>, k: OperationKey)
    ensures forall code | code in HistoryOf(es, k).codes :: Handler(k, C.Breaks(code)) in es
    ensures forall response | response in HistoryOf(es, k).answers :: Answer(k, response) in es
    ensures HistoryOf(es, k).asked.Some? ==> HistoryOf(es, k).asked.value in es
  {
    if es != [] {
      var before, last := es[..|es| - 1], es[|es| - 1];
      Happened(before, k);
      assert es == before + [last];
    }
  }

  /** A call none of whose waits fails ends in a reply or in a timeout. */
  lemma {:induction false} ReplyOrTimeout(es: seq<Event>, cfg: Config, k: OperationKey, o: C.Outcome)
    requires ValidConfig(cfg) && IsRun(INITIAL, es, cfg) && o in CallbacksOf(Run(INITIAL, es, cfg), k)
    requires forall code: nat :: Handler(k, C.Breaks(code)) !in es
    ensures o.Reply? || o == C.Error(C.TimedOut)
  {
    OutcomesAreGenuine(es, cfg, k, o);
    NoneFailed(es, k);
  }

  lemma {:induction false} NoneFailed(es: seq<Event>, k: OperationKey)
    requires forall code: nat :: Handler(k, C.Breaks(code)) !in es
    ensures HistoryOf(es, k).codes == {}
  {
    Happened(es, k);
  }

  /** End to end, from event to event: a reply that a callback gets was given in an `Answer`, by a handler that was
      called with exactly the call of the `Request`. */
  lemma {:induction false} RepliesWereAnswered(es: seq<Event>, cfg: Config, k: OperationKey, bytes: Buffer)
    requires ValidConfig(cfg) && IsRun(INITIAL, es, cfg)
    requires C.Reply(bytes) in CallbacksOf(Run(INITIAL, es, cfg), k)
    ensures var asked := HistoryOf(es, k).asked;
            && asked.Some? && asked.value.Request? && asked.value in es && Answer(k, bytes) in es
            && Invocation(asked.value.call, Some(bytes)) in InvocationsOf(Run(INITIAL, es, cfg), k)
  {
    var s := RunTold(INITIAL, es, cfg, k);
    RepliesAreAnswers(es, cfg, k, bytes);
    Happened(es, k);
  }

  /** Whenever a handler is called, it is given exactly the call of the `Request`. */
  lemma {:induction false} CallsWereAsked(es: seq<Event>, cfg: Config, k: OperationKey, i: Invocation)
    requires ValidConfig(cfg) && IsRun(INITIAL, es, cfg) && i in InvocationsOf(Run(INITIAL, es, cfg), k)
    ensures var asked := HistoryOf(es, k).asked;
            asked.Some? && asked.value.Request? && asked.value in es && i.call == asked.value.call
  {
    var s := RunTold(INITIAL, es, cfg, k);
    CallsAreGenuine(es, cfg, k);
    Happened(es, k);
  }
}
