/** How long a client operation lives: the references that pending handlers hold, and the one call of the callback
    when the last of them goes. */
module RpcLifetime {
  import opened Bytes
  import opened RpcWire
  import opened RpcCall
  import opened RetrySchedule
  import opened RpcSystem
  import C = RpcClientState

  /** At most one handler of the timer is pending. Until the operation finishes, which it does as soon as the
      response is complete, exactly one is, and it is not cancelled. */
  predicate Lives(c: C.ClientOp) {
    && C.Waits(c) <= 1
    && (if c.finished then c.result != C.Unset
        else c.result == C.Unset && c.armed + c.rung == 1 && !Complete(c.assembly))
    && c.retry.a > 0 && c.retry.b > 0
  }

  lemma {:induction false} StartLives(c: C.ClientOp)
    requires !c.finished && c.result == C.Unset && C.References(c) == 0
    requires c.assembly == NOTHING && c.retry.a > 0 && c.retry.b > 0
    ensures Lives(C.Send(c).0)
  {
  }

  lemma {:induction false} HandlerLives(c: C.ClientOp, e: C.ClientEvent)
    requires Lives(c) && C.Possible(c, e)
    ensures Lives(C.React(c, e).0)
  {
  }

  /** The operation exists as long as something refers to it; its callback is called when nothing does. */
  predicate LifeInv(s: System, k: OperationKey) {
    if k !in s.clients then k !in s.operations && CallbacksOf(s, k) == []
    else
      var c := s.clients[k];
      && Lives(c)
      && (k in s.operations <==> C.References(c) > 0)
      && CallbacksOf(s, k) == if k in s.operations then [] else [C.OutcomeOf(c)]
  }

  lemma {:induction false} ReleasedLives(s: System, k: OperationKey)
    requires k in s.clients && Lives(s.clients[k]) && k in s.operations && CallbacksOf(s, k) == []
    ensures LifeInv(Released(s, k), k)
  {
  }

  /** A datagram releases nothing. */
  lemma {:induction false} ArrivalKeepsReferences(c: C.ClientOp, d: Datagram, junk: Buffer)
    requires |junk| == BodySize(d.body)
    ensures C.References(C.Unpack(c, d, junk)) == C.References(c)
  {
  }

  /** Nothing about the life of `k` differs. */
  predicate SameLife(s: System, s': System, k: OperationKey) {
    && (k in s.clients <==> k in s'.clients) && (k in s.clients ==> s'.clients[k] == s.clients[k])
    && (k in s.operations <==> k in s'.operations) && CallbacksOf(s', k) == CallbacksOf(s, k)
  }

  /** The event belongs to the client operation `k`. */
  predicate Concerns(e: Event, k: OperationKey) {
    (e.Request? || e.Handler? || e.ClientGets?) && KeyOf(e) == k
  }

  lemma {:induction false} ElsewhereSame(s: System, e: Event, cfg: Config, k: OperationKey)
    requires ValidConfig(cfg) && Enabled(s, e, cfg) && !Concerns(e, k)
    ensures SameLife(s, Next(s, e, cfg), k)
  {
    if e.Request? {
      RequestSame(s, e, cfg, k);
    } else if e.Handler? {
      HandlerSame(s, e, cfg, k);
    } else if e.ServerGets? {
      ServerGetsSame(s, e, cfg, k);
    }
  }

  lemma {:induction false} HandlerSame(s: System, e: Event, cfg: Config, k: OperationKey)
    requires ValidConfig(cfg) && e.Handler? && Enabled(s, e, cfg) && e.k != k
    ensures SameLife(s, Next(s, e, cfg), k)
  {
    SentSame(s, e.k, C.React(s.clients[e.k], e.e), k);
  }

  lemma {:induction false} RequestSame(s: System, e: Event, cfg: Config, k: OperationKey)
    requires ValidConfig(cfg) && e.Request? && Enabled(s, e, cfg) && e.k != k
    ensures SameLife(s, Next(s, e, cfg), k)
  {
    var s1 := s.(operations := s.operations + {e.k});
    assert SameLife(s, s1, k);
    SentSame(s1, e.k, C.Send(Started(e, cfg)), k);
  }

  lemma {:induction false} SentSame(s: System, k': OperationKey, r: (C.ClientOp, seq<Datagram>), k: OperationKey)
    requires k' != k
    ensures SameLife(s, Released(Sent(s, k', r), k'), k)
  {
  }

  lemma {:induction false} ServerGetsSame(s: System, e: Event, cfg: Config, k: OperationKey)
    requires ValidConfig(cfg) && e.ServerGets? && Enabled(s, e, cfg)
    ensures SameLife(s, Next(s, e, cfg), k)
  {
    DispatchLeavesClients(s, Received(e.d, cfg.server.receiveSize), e.junk, cfg);
  }

  lemma {:induction false} SentLives(s: System, k: OperationKey, r: (C.ClientOp, seq<Datagram>))
    requires k in s.operations && CallbacksOf(s, k) == [] && Lives(r.0)
    ensures var s' := Released(Sent(s, k, r), k); LifeInv(s', k) && s'.clients[k] == r.0
  {
    ReleasedLives(Sent(s, k, r), k);
  }

  lemma {:induction false} RequestKeepsLife(s: System, e: Event, cfg: Config)
    requires ValidConfig(cfg) && e.Request? && Enabled(s, e, cfg) && LifeInv(s, e.k)
    ensures LifeInv(Next(s, e, cfg), e.k)
    ensures Next(s, e, cfg).clients[e.k] == C.Send(Started(e, cfg)).0
  {
    StartLives(Started(e, cfg));
    SentLives(s.(operations := s.operations + {e.k}), e.k, C.Send(Started(e, cfg)));
  }

  function Started(e: Event, cfg: Config): C.ClientOp
    requires ValidConfig(cfg) && e.Request?
  {
    C.Start(e.call, e.key, e.k.requestId, e.initialRetry, e.timeout, cfg.fragmentSize)
  }

  lemma {:induction false} HandlerKeepsLife(s: System, e: Event, cfg: Config)
    requires ValidConfig(cfg) && e.Handler? && Enabled(s, e, cfg) && LifeInv(s, e.k)
    ensures LifeInv(Next(s, e, cfg), e.k)
    ensures Next(s, e, cfg).clients[e.k] == C.React(s.clients[e.k], e.e).0
    ensures e.k in s.operations
  {
    HandlerLives(s.clients[e.k], e.e);
    SentLives(s, e.k, C.React(s.clients[e.k], e.e));
  }

  lemma {:induction false} ClientGetsKeepsLife(s: System, e: Event, cfg: Config)
    requires ValidConfig(cfg) && e.ClientGets? && Enabled(s, e, cfg) && LifeInv(s, e.d.key)
    ensures LifeInv(Next(s, e, cfg), e.d.key)
  {
    var k, d := e.d.key, Received(e.d, cfg.receiveSize);
    if k in s.operations {
      HandlerLives(s.clients[k], C.Arrive(d, e.junk));
      ArrivalKeepsReferences(s.clients[k], d, e.junk);
    }
  }

  lemma {:induction false} StepKeepsLife(s: System, e: Event, cfg: Config, k: OperationKey)
    requires ValidConfig(cfg) && Enabled(s, e, cfg) && LifeInv(s, k)
    ensures LifeInv(Next(s, e, cfg), k)
  {
    if !Concerns(e, k) {
      ElsewhereSame(s, e, cfg, k);
    } else if e.Request? {
      RequestKeepsLife(s, e, cfg);
    } else if e.Handler? {
      HandlerKeepsLife(s, e, cfg);
    } else {
      ClientGetsKeepsLife(s, e, cfg);
    }
  }

  lemma {:induction false} RunKeepsLife(s: System, es: seq<Event>, cfg: Config, k: OperationKey)
    requires ValidConfig(cfg) && IsRun(s, es, cfg) && LifeInv(s, k)
    ensures LifeInv(Run(s, es, cfg), k)
    decreases |es|
  {
    if es != [] {
      StepKeepsLife(s, es[0], cfg, k);
      RunKeepsLife(Next(s, es[0], cfg), es[1..], cfg, k);
    }
  }

  /** In every run: never more than one handler of the timer is pending; an operation that nothing refers to has
      finished; and its callback has been called exactly once if nothing refers to it, and not at all otherwise. */
  lemma {:induction false} CalledOnce(es: seq<Event>, cfg: Config, k: OperationKey)
    requires ValidConfig(cfg) && IsRun(INITIAL, es, cfg) && k in Run(INITIAL, es, cfg).clients
    ensures var s := Run(INITIAL, es, cfg);
            var c := s.clients[k];
            && C.Waits(c) <= 1
            && (C.References(c) == 0 ==> c.finished && c.result != C.Unset)
            && CallbacksOf(s, k) == if C.References(c) > 0 then [] else [C.OutcomeOf(c)]
  {
    RunKeepsLife(INITIAL, es, cfg, k);
  }

  /** What a callback was called with stays, and it is not called again. */
  lemma {:induction false} StepKeepsCallback(s: System, e: Event, cfg: Config, k: OperationKey)
    requires ValidConfig(cfg) && Enabled(s, e, cfg) && LifeInv(s, k) && CallbacksOf(s, k) != []
    ensures CallbacksOf(Next(s, e, cfg), k) == CallbacksOf(s, k)
  {
    if !Concerns(e, k) {
      ElsewhereSame(s, e, cfg, k);
    } else if e.Handler? {
      HandlerKeepsLife(s, e, cfg);
    }
  }

  lemma {:induction false} CallbacksAreFinal(s: System, es: seq<Event>, cfg: Config, k: OperationKey)
    requires ValidConfig(cfg) && IsRun(s, es, cfg) && LifeInv(s, k) && CallbacksOf(s, k) != []
    ensures CallbacksOf(Run(s, es, cfg), k) == CallbacksOf(s, k)
    decreases |es|
  {
    if es != [] {
      StepKeepsLife(s, es[0], cfg, k);
      StepKeepsCallback(s, es[0], cfg, k);
      CallbacksAreFinal(Next(s, es[0], cfg), es[1..], cfg, k);
    }
  }

  // ----- the callback is reached

  /** How many handlers of the operation can still run: those pending, two steps for a wait that has not rung,
      and all that the sends to come will add. */
  function Work(c: C.ClientOp): nat
    requires c.initialRetry > 0 && c.retry.a > 0 && c.retry.b > 0
  {
    c.sends + 2 * c.armed + c.rung + c.cancelled
    + RoundsLeft(c.retry, c.initialRetry) * (|c.fragments| + 2)
  }

  lemma {:induction false} SendWorks(c: C.ClientOp)
    requires c.initialRetry > 0 && c.retry.a > 0 && c.retry.b > 0
    ensures Work(C.Send(c).0) <= Work(c)
    ensures c.retry.timeout > 0 && c.armed == 0 ==> Work(C.Send(c).0) == Work(c)
  {
    if c.retry.timeout > 0 {
      var c' := C.Send(c).0;
      var n := RoundsLeft(c'.retry, c.initialRetry);
      assert RoundsLeft(c.retry, c.initialRetry) == n + 1;
      OneMore(n, |c.fragments| + 2);
    }
  }

  lemma {:induction false} OneMore(n: nat, x: nat)
    ensures (n + 1) * x == n * x + x
  {
  }

  /** Every handler that runs is one less to come, whatever it does. */
  lemma {:induction false} HandlerWorks(c: C.ClientOp, e: C.ClientEvent)
    requires C.Possible(c, e) && !e.Arrive? && c.initialRetry > 0 && c.retry.a > 0 && c.retry.b > 0
    ensures Work(C.React(c, e).0) < Work(c)
  {
    if e.Wakes? {
      var c1 := c.(rung := c.rung - 1);
      SendWorks(c1);
    }
  }

  lemma {:induction false} ArrivalWorks(c: C.ClientOp, d: Datagram, junk: Buffer)
    requires |junk| == BodySize(d.body) && c.initialRetry > 0 && c.retry.a > 0 && c.retry.b > 0
    ensures Work(C.Unpack(c, d, junk)) <= Work(c)
  {
  }

  /** How many handlers of `k` run. */
  function Handlers(es: seq<Event>, k: OperationKey): nat {
    if es == [] then 0 else (if es[0].Handler? && es[0].k == k then 1 else 0) + Handlers(es[1..], k)
  }

  lemma {:induction false} StepWorks(s: System, e: Event, cfg: Config, k: OperationKey)
    requires ValidConfig(cfg) && Enabled(s, e, cfg) && LifeInv(s, k) && k in s.clients && s.clients[k].initialRetry > 0
    ensures LifeInv(Next(s, e, cfg), k)
    ensures var c' := Next(s, e, cfg).clients;
            && k in c' && c'[k].initialRetry == s.clients[k].initialRetry
            && Work(c'[k]) + (if e.Handler? && e.k == k then 1 else 0) <= Work(s.clients[k])
  {
    StepKeepsLife(s, e, cfg, k);
    if !Concerns(e, k) {
      ElsewhereSame(s, e, cfg, k);
    } else if e.Handler? {
      HandlerKeepsLife(s, e, cfg);
      HandlerWorks(s.clients[k], e.e);
      C.HandlerFrame(s.clients[k], e.e);
    } else {
      ArrivalWorks(s.clients[k], Received(e.d, cfg.receiveSize), e.junk);
    }
  }

  lemma {:induction false} RunWorks(s: System, es: seq<Event>, cfg: Config, k: OperationKey)
    requires ValidConfig(cfg) && IsRun(s, es, cfg) && LifeInv(s, k) && k in s.clients && s.clients[k].initialRetry > 0
    ensures LifeInv(Run(s, es, cfg), k)
    ensures var c' := Run(s, es, cfg).clients;
            && k in c' && c'[k].initialRetry == s.clients[k].initialRetry
            && Work(c'[k]) + Handlers(es, k) <= Work(s.clients[k])
    decreases |es|
  {
    if es != [] {
      StepWorks(s, es[0], cfg, k);
      RunWorks(Next(s, es[0], cfg), es[1..], cfg, k);
    }
  }

  lemma {:induction false} RequestWorks(c: C.ClientOp, timeout: int, n: nat)
    requires c.initialRetry > 0 && c.retry == Retry(timeout, 1, 1) && C.References(c) == 0
    requires TimesOutAfter(timeout, c.initialRetry, n)
    ensures c.retry.a > 0 && c.retry.b > 0 && Work(c) == n * (|c.fragments| + 2)
  {
    if timeout > 0 {
      RoundsAre(timeout, c.initialRetry, 0, n);
    } else {
      assert !Sends(timeout, c.initialRetry, 0);
    }
  }

  /** From any state of an operation, no run has more handlers than `Work` says; as long as the callback has not
      been called, fewer have run and one is pending. */
  lemma {:induction false} CallbackWithin(s: System, es: seq<Event>, cfg: Config, k: OperationKey)
    requires ValidConfig(cfg) && IsRun(s, es, cfg) && LifeInv(s, k) && k in s.clients && s.clients[k].initialRetry > 0
    ensures var s', most := Run(s, es, cfg), Work(s.clients[k]);
            && Handlers(es, k) <= most && k in s'.clients
            && (if CallbacksOf(s', k) == []
                then Handlers(es, k) < most && C.References(s'.clients[k]) > 0
                else CallbacksOf(s', k) == [C.OutcomeOf(s'.clients[k])])
  {
    RunWorks(s, es, cfg, k);
    WorkRemains(Run(s, es, cfg).clients[k]);
  }

  lemma {:induction false} WorkRemains(c: C.ClientOp)
    requires c.initialRetry > 0 && c.retry.a > 0 && c.retry.b > 0
    ensures C.References(c) <= Work(c)
  {
    NotNegative(RoundsLeft(c.retry, c.initialRetry), |c.fragments| + 2);
  }

  lemma {:induction false} NotNegative(n: nat, x: nat)
    ensures n * x >= 0
  {
  }

  /** The callback is reached: of a call that times out after `n` sends, no run has more handlers than one per
      datagram sent and two per wait, and when they have all run the callback has been called, exactly once. */
  lemma {:induction false} CallbackIsReached(s: System, e: Event, es: seq<Event>, cfg: Config, n: nat)
    requires ValidConfig(cfg) && e.Request? && Enabled(s, e, cfg) && LifeInv(s, e.k) && IsRun(Next(s, e, cfg), es, cfg)
    requires e.initialRetry > 0 && TimesOutAfter(e.timeout, e.initialRetry, n)
    ensures var s', most := Run(Next(s, e, cfg), es, cfg), n * (|Fragments(RequestOf(e), cfg.fragmentSize)| + 2);
            && Handlers(es, e.k) <= most && e.k in s'.clients
            && (Handlers(es, e.k) == most ==> CallbacksOf(s', e.k) == [C.OutcomeOf(s'.clients[e.k])])
  {
    RequestKeepsLife(s, e, cfg);
    RequestWorks(Started(e, cfg), e.timeout, n);
    SendWorks(Started(e, cfg));
    CallbackWithin(Next(s, e, cfg), es, cfg, e.k);
  }

  /** As long as something refers to the operation, some handler of it can run. */
  lemma {:induction false} SomePending(c: C.ClientOp)
    requires C.References(c) > 0
    ensures exists h: C.ClientEvent :: !h.Arrive? && C.Possible(c, h)
  {
    if c.sends > 0 {
      assert C.Possible(c, C.Completes);
    } else if c.armed > 0 {
      assert C.Possible(c, C.Rings);
    } else if c.rung > 0 {
      assert C.Possible(c, C.Wakes);
    } else {
      assert C.Possible(c, C.Cancels);
    }
  }

  // ----- after the operation has finished

  /** The event that finishes an operation cancels its wait. A handler that is queued already stays, if it is not the
      one that has just run. */
  lemma {:induction false} FinishCancels(s: System, e: Event, cfg: Config, k: OperationKey)
    requires ValidConfig(cfg) && Enabled(s, e, cfg) && LifeInv(s, k) && k in s.clients && !s.clients[k].finished
    requires k in Next(s, e, cfg).clients && Next(s, e, cfg).clients[k].finished
    ensures var c, c' := s.clients[k], Next(s, e, cfg).clients[k];
            c'.armed == 0 && c'.rung == if e.ClientGets? then c.rung else 0
  {
    if !Concerns(e, k) {
      ElsewhereSame(s, e, cfg, k);
    } else if e.Handler? {
      HandlerKeepsLife(s, e, cfg);
      HandlerFinishes(s.clients[k], e.e);
    } else if k in s.operations {
      ArrivalFinishes(s.clients[k], Received(e.d, cfg.receiveSize), e.junk);
    }
  }

  lemma {:induction false} HandlerFinishes(c: C.ClientOp, e: C.ClientEvent)
    requires Lives(c) && C.Possible(c, e) && !e.Arrive? && !c.finished && C.React(c, e).0.finished
    ensures C.React(c, e).0.armed == C.React(c, e).0.rung == 0
  {
  }

  lemma {:induction false} ArrivalFinishes(c: C.ClientOp, d: Datagram, junk: Buffer)
    requires |junk| == BodySize(d.body) && !c.finished && C.Unpack(c, d, junk).finished
    ensures C.Unpack(c, d, junk).armed == 0 && C.Unpack(c, d, junk).rung == c.rung
  {
  }

  /** Finished, and no handler is left that would send again. */
  predicate Ending(s: System, k: OperationKey) {
    k in s.clients && s.clients[k].finished && s.clients[k].armed == 0 && s.clients[k].rung == 0
  }

  lemma {:induction false} HandlerEnds(c: C.ClientOp, e: C.ClientEvent)
    requires c.finished && c.armed == 0 && c.rung == 0 && C.Possible(c, e) && !e.Arrive?
    ensures (e.Completes? || e.Cancels?) && C.React(c, e).1 == []
    ensures C.React(c, e).0.armed == C.React(c, e).0.rung == 0 && C.React(c, e).0.finished
    ensures C.References(C.React(c, e).0) == C.References(c) - 1
  {
  }

  lemma {:induction false} StepEnds(s: System, e: Event, cfg: Config, k: OperationKey)
    requires ValidConfig(cfg) && Enabled(s, e, cfg) && LifeInv(s, k) && Ending(s, k)
    ensures Ending(Next(s, e, cfg), k)
    ensures var c, c' := s.clients[k], Next(s, e, cfg).clients[k];
            C.References(c') == C.References(c) - if e.Handler? && e.k == k then 1 else 0
    ensures e != Handler(k, C.Wakes)
  {
    if !Concerns(e, k) {
      ElsewhereSame(s, e, cfg, k);
    } else if e.Handler? {
      HandlerKeepsLife(s, e, cfg);
      HandlerEnds(s.clients[k], e.e);
    }
  }

  /** Then `send` is not called again, and the callback is called by the last of the handlers that are left: as many
      as there are references. */
  lemma {:induction false} EndsPromptly(s: System, es: seq<Event>, cfg: Config, k: OperationKey)
    requires ValidConfig(cfg) && IsRun(s, es, cfg) && LifeInv(s, k) && Ending(s, k)
    ensures Handler(k, C.Wakes) !in es && Handlers(es, k) <= C.References(s.clients[k])
    ensures CallbacksOf(Run(s, es, cfg), k) != [] <==> Handlers(es, k) == C.References(s.clients[k])
    decreases |es|
  {
    if es != [] {
      StepKeepsLife(s, es[0], cfg, k);
      StepEnds(s, es[0], cfg, k);
      EndsPromptly(Next(s, es[0], cfg), es[1..], cfg, k);
    }
  }
}
