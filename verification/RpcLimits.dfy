/** When a call cannot succeed any more, and so exactly when it still can. */
module RpcLimits {
  import opened Options
  import opened Bytes
  import opened RpcWire
  import opened RpcCall
  import opened RpcSystem
  import opened RpcLifetime
  import opened RpcSafety
  import opened RpcProgress
  import C = RpcClientState
  import S = RpcServerState

  /** What a caller could look at: the server knows key and method, and there is time for another send, or enough
      has been sent. */
  ghost predicate Hopeful(s: System, k: OperationKey, cfg: Config)
    requires k in s.clients
  {
    Known(s.clients[k], cfg) && (s.clients[k].retry.timeout > 0 || Enough(s, k))
  }

  /** The operation has finished without a reply, or goes on without hope. */
  ghost predicate Stuck(s: System, k: OperationKey, cfg: Config) {
    k in s.clients && if s.clients[k].finished then !C.OutcomeOf(s.clients[k]).Reply? else !Hopeful(s, k, cfg)
  }

  /** Of the datagrams under way only those of `k` matter to `k`. */
  lemma {:induction false} OwnDatagrams(s: System, k: OperationKey, cfg: Config)
    requires ValidConfig(cfg) && KeyInv(s, k, cfg) && k in s.clients
    ensures forall d | d in s.clients[k].fragments :: d.key == k
    ensures forall d | d in OpOf(s, k).buffers :: d.key == k
  {
    var c, op := s.clients[k], OpOf(s, k);
    AllCarryKey(C.RequestMessage(c), cfg.fragmentSize);
    if op.response.Some? { AllCarryKey(Message(op.response.value, c.key, c.requestId, true), cfg.server.fragmentSize); }
  }

  lemma {:induction false} SameStuck(s: System, s': System, k: OperationKey, cfg: Config)
    requires ValidConfig(cfg) && KeyInv(s, k, cfg) && Stuck(s, k, cfg) && SameFor(s, s', k)
    ensures Stuck(s', k, cfg)
  {
    OwnDatagrams(s, k, cfg);
    if !s.clients[k].finished && Enough(s', k) {
      assert Enough(s, k) by {
        if CanAskAgain(s', s'.clients[k]) {
          var d :| d in s'.clients[k].fragments && !d.partial && d in s'.toServer;
          assert d in s.toServer;
        }
      }
    }
  }

  lemma {:induction false} HandlerStuck(s: System, e: Event, cfg: Config)
    requires ValidConfig(cfg) && e.Handler? && Enabled(s, e, cfg) && Stuck(s, e.k, cfg)
    ensures Stuck(Next(s, e, cfg), e.k, cfg)
  {
    C.HandlerFrame(s.clients[e.k], e.e);
    HandlerMoves(s, e, cfg);
  }

  // ----- a fragment that is missing and not under way stays missing

  lemma {:induction false} ReplyStaysIncomplete(c: C.ClientOp, response: Buffer, limit: nat, d: Datagram, f: Datagram,
                                                junk: Buffer)
    requires !c.finished && Agrees(c.assembly, response) && !HasSeen(c.assembly, {f}) && |junk| == BodySize(d.body)
    requires var m := Message(response, c.key, c.requestId, true);
             0 < limit && OffsetsFit(m, limit) && d in Fragments(m, limit) && f in Fragments(m, limit) && d != f
    ensures var c' := C.Unpack(c, d, junk); c' == c.(assembly := c'.assembly) && !HasSeen(c'.assembly, {f})
  {
    var m := Message(response, c.key, c.requestId, true);
    var a := c.assembly.(buffer := Grown(c.assembly.buffer, d.offset, BodySize(d.body)));
    FragmentsArePieces(m, limit, d);
    GrownAgrees(c.assembly, response, d.offset, BodySize(d.body));
    AcceptLeavesMissing(a, m, limit, d, f);
  }

  lemma {:induction false} ClientGetsStuck(s: System, e: Event, cfg: Config)
    requires ValidConfig(cfg) && e.ClientGets? && Enabled(s, e, cfg)
    requires UnderWay(s, e.d.key, cfg) && Stuck(s, e.d.key, cfg)
    ensures Stuck(Next(s, e, cfg), e.d.key, cfg)
  {
    var k := e.d.key;
    var c, op := s.clients[k], OpOf(s, k);
    assert KeyInv(s, k, cfg);
    AnswerOnItsWay(s, k, cfg);
    var f :| f in op.buffers && f !in s.toClient && !HasSeen(c.assembly, {f});
    ReplyStaysIncomplete(c, op.response.value, cfg.server.fragmentSize, e.d, f, e.junk);
    var c' := C.Unpack(c, e.d, e.junk);
    assert Next(s, e, cfg) == s.(clients := s.clients[k := c']);
    assert !Coverable(c'.assembly, s.toClient, op.buffers);
  }

  lemma {:induction false} RequestStaysIncomplete(op: S.ServerOp, m: Message, limit: nat, d: Datagram, f: Datagram,
                                                  cfg: S.ServerConfig, junk: Buffer)
    requires S.Sound(op) && op.call.None? && !Complete(op.assembly) && Agrees(op.assembly, m.bytes) && !m.response
    requires !HasSeen(op.assembly, {f}) && |junk| == BodySize(d.body) && (op.key == Some(m.key) || op == S.FRESH)
    requires 0 < limit && OffsetsFit(m, limit) && d in Fragments(m, limit) && f in Fragments(m, limit) && d != f
    ensures var (op', effect) := S.Unpack(op, d, cfg, junk);
            op'.call.None? && op'.response == op.response && effect.Quiet? && !HasSeen(op'.assembly, {f})
  {
    var keys := S.Candidates(op, d, cfg);
    var i := S.FirstOpening(keys, S.RequestNonce(d), d.body);
    if i < |keys| {
      var a := S.Tried(op.assembly, d, i, junk);
      FragmentsArePieces(m, limit, d);
      GrownAgrees(op.assembly, m.bytes, d.offset, BodySize(d.body));
      assert Agrees(a, m.bytes);
      AcceptLeavesMissing(a, m, limit, d, f);
    }
  }

  lemma {:induction false} AcceptLeavesMissing(a: Assembly, m: Message, limit: nat, d: Datagram, f: Datagram)
    requires Agrees(a, m.bytes) && !HasSeen(a, {f}) && IsPiece(d, m) && d.offset + |d.body.plain| <= |a.buffer|
    requires 0 < limit && OffsetsFit(m, limit) && d in Fragments(m, limit) && f in Fragments(m, limit) && d != f
    ensures var a' := Accept(a, d.offset, d.body.plain, d.partial); !Complete(a') && !HasSeen(a', {f})
  {
    FragmentsArePieces(m, limit, f);
    AcceptAgrees(a, d, m);
    StillMissing(a, m, limit, d, f);
    var a' := Accept(a, d.offset, d.body.plain, d.partial);
    if Complete(a') { CompleteHasSeen(a', m, f); }
  }

  /** The server operation after a fragment of a stuck call. */
  lemma {:induction false} FragmentStuck(s: System, k: OperationKey, d: Datagram, junk: Buffer, cfg: Config)
    requires ValidConfig(cfg) && UnderWay(s, k, cfg) && Stuck(s, k, cfg) && Known(s.clients[k], cfg)
    requires d in s.toServer && d.key == k && |junk| == BodySize(d.body) && S.Sound(OpOf(s, k))
    ensures var (op, effect) := S.Unpack(OpOf(s, k), d, cfg.server, junk);
            && effect.Quiet?
            && !Enough(s.(server := s.server[k := op]), k)
  {
    assert KeyInv(s, k, cfg);
    var c, op := s.clients[k], OpOf(s, k);
    var m := C.RequestMessage(c);
    if op.call.None? {
      var f :| f in c.fragments && f !in s.toServer && !HasSeen(op.assembly, {f});
      RequestStaysIncomplete(op, m, cfg.fragmentSize, d, f, cfg.server, junk);
      assert !Coverable(S.Unpack(op, d, cfg.server, junk).0.assembly, s.toServer, c.fragments);
    } else {
      OnItsWay(s, k, d, cfg);
      S.AnswersAgain(op, d, m, cfg.server, junk);
      S.InvokesOnce(op, d, cfg.server, junk);
    }
  }

  lemma {:induction false} ServerGetsStuck(s: System, e: Event, cfg: Config)
    requires ValidConfig(cfg) && e.ServerGets? && Enabled(s, e, cfg)
    requires UnderWay(s, e.d.key, cfg) && Stuck(s, e.d.key, cfg)
    ensures Stuck(Next(s, e, cfg), e.d.key, cfg)
  {
    var k := e.d.key;
    assert KeyInv(s, k, cfg);
    WirePiece(C.RequestMessage(s.clients[k]), cfg.fragmentSize, cfg.server.receiveSize, e.d);
    var r := S.Unpack(OpOf(s, k), e.d, cfg.server, e.junk);
    RegisteredFrame(s, k, r);
    if Known(s.clients[k], cfg) { FragmentStuck(s, k, e.d, e.junk, cfg); }
  }

  lemma {:induction false} StepKeepsStuck(s: System, e: Event, cfg: Config, k: OperationKey)
    requires ValidConfig(cfg) && Enabled(s, e, cfg) && Inv(s, cfg) && LifeInv(s, k) && Stuck(s, k, cfg)
    ensures Stuck(Next(s, e, cfg), k, cfg)
  {
    assert KeyInv(s, k, cfg);
    if s.clients[k].finished {
      StepKeepsFinished(s, e, cfg, k);
    } else if KeyOf(e) != k {
      StepKeeps(s, e, cfg);
      SameStuck(s, Next(s, e, cfg), k, cfg);
    } else {
      OwnStepStuck(s, e, cfg);
    }
  }

  lemma {:induction false} OwnStepStuck(s: System, e: Event, cfg: Config)
    requires ValidConfig(cfg) && Enabled(s, e, cfg) && UnderWay(s, KeyOf(e), cfg) && Stuck(s, KeyOf(e), cfg)
    ensures Stuck(Next(s, e, cfg), KeyOf(e), cfg)
  {
    assert KeyInv(s, KeyOf(e), cfg);
    match e {
      case Request(_, _, _, _, _) =>
      case Handler(_, _) => HandlerStuck(s, e, cfg);
      case ClientGets(_, _) => ClientGetsStuck(s, e, cfg);
      case ServerGets(_, _) => ServerGetsStuck(s, e, cfg);
      case Answer(_, _) =>
      case Expire(_) =>
      case LoseRequest(_) => LossKeeps(s, e, cfg); SameStuck(s, Next(s, e, cfg), e.d.key, cfg);
      case LoseResponse(_) => LossKeeps(s, e, cfg); SameStuck(s, Next(s, e, cfg), e.d.key, cfg);
    }
  }

  lemma {:induction false} RunKeepsStuck(s: System, es: seq<Event>, cfg: Config, k: OperationKey)
    requires ValidConfig(cfg) && IsRun(s, es, cfg) && Inv(s, cfg) && LifeInv(s, k) && Stuck(s, k, cfg)
    ensures Stuck(Run(s, es, cfg), k, cfg)
    decreases |es|
  {
    if es != [] {
      StepKeepsInv(s, es[0], cfg);
      StepKeepsLife(s, es[0], cfg, k);
      StepKeepsStuck(s, es[0], cfg, k);
      RunKeepsStuck(Next(s, es[0], cfg), es[1..], cfg, k);
    }
  }

  // ----- exactly when a call can still succeed

  ghost predicate Succeeds(s: System, es: seq<Event>, cfg: Config, k: OperationKey)
    requires ValidConfig(cfg)
  {
    IsRun(s, es, cfg) && Replied(Run(s, es, cfg), k)
  }

  lemma {:induction false} StuckFails(s: System, es: seq<Event>, cfg: Config, k: OperationKey)
    requires ValidConfig(cfg) && UnderWay(s, k, cfg) && !Hopeful(s, k, cfg)
    ensures !Succeeds(s, es, cfg, k)
  {
    if IsRun(s, es, cfg) { RunKeepsStuck(s, es, cfg, k); }
  }

  lemma {:induction false} HopefulSucceeds(s: System, k: OperationKey, cfg: Config) returns (es: seq<Event>)
    requires ValidConfig(cfg) && UnderWay(s, k, cfg) && Hopeful(s, k, cfg)
    ensures Succeeds(s, es, cfg, k)
  {
    if Enough(s, k) {
      es := EnoughSucceeds(s, k, cfg);
    } else {
      var send, rest := ResendSucceeds(s, k, cfg);
      es := send + rest;
    }
  }

  /** In every reachable state an unfinished call can still get a reply if and only if the server knows its key and
      method and there is time left for another send, or what has been sent and not been lost is enough. */
  lemma {:induction false} CanSucceedIff(before: seq<Event>, cfg: Config, k: OperationKey)
    requires ValidConfig(cfg) && IsRun(INITIAL, before, cfg)
    requires k in Run(INITIAL, before, cfg).clients && !Run(INITIAL, before, cfg).clients[k].finished
    ensures var s := Run(INITIAL, before, cfg);
            (exists es :: Succeeds(s, es, cfg, k)) <==> Hopeful(s, k, cfg)
  {
    var s := Run(INITIAL, before, cfg);
    Reachable(before, cfg, k);
    if Hopeful(s, k, cfg) {
      var es := HopefulSucceeds(s, k, cfg);
    } else {
      forall es ensures !Succeeds(s, es, cfg, k) { StuckFails(s, es, cfg, k); }
    }
  }

  // ----- after any loss

  /** Everything under way is lost. */
  function AllLost(s: System): System {
    s.(toServer := {}, toClient := {})
  }

  lemma {:induction false} LossIsRun(s: System, cfg: Config) returns (es: seq<Event>)
    requires ValidConfig(cfg)
    ensures IsRun(s, es, cfg) && Run(s, es, cfg) == AllLost(s)
    ensures forall e | e in es :: e.LoseRequest? || e.LoseResponse?
    decreases |s.toServer| + |s.toClient|
  {
    if s.toServer != {} {
      var d :| d in s.toServer;
      var rest := LossIsRun(Next(s, LoseRequest(d), cfg), cfg);
      RunCons(s, LoseRequest(d), rest, cfg);
      es := [LoseRequest(d)] + rest;
    } else if s.toClient != {} {
      var d :| d in s.toClient;
      var rest := LossIsRun(Next(s, LoseResponse(d), cfg), cfg);
      RunCons(s, LoseResponse(d), rest, cfg);
      es := [LoseResponse(d)] + rest;
    } else {
      es := [];
    }
  }

  /** As long as there is time left no loss matters: from every reachable state, even when all that is under way is
      lost, one more send, deliveries of what it sends and an answer make the call succeed. */
  lemma {:induction false} SucceedsAfterLoss(before: seq<Event>, cfg: Config, k: OperationKey)
    returns (loss: seq<Event>, send: seq<Event>, es: seq<Event>)
    requires ValidConfig(cfg) && IsRun(INITIAL, before, cfg)
    requires var s := Run(INITIAL, before, cfg);
             k in s.clients && !s.clients[k].finished && s.clients[k].retry.timeout > 0 && Known(s.clients[k], cfg)
    ensures IsRun(INITIAL, before + loss, cfg)
    ensures Run(INITIAL, before + loss, cfg) == AllLost(Run(INITIAL, before, cfg))
    ensures OneSend(send, k) && Passive(es)
    ensures IsRun(AllLost(Run(INITIAL, before, cfg)), send + es, cfg)
    ensures Replied(Run(AllLost(Run(INITIAL, before, cfg)), send + es, cfg), k)
  {
    var s := Run(INITIAL, before, cfg);
    loss := LossIsRun(s, cfg);
    RunAppend(INITIAL, before, loss, cfg);
    Reachable(before + loss, cfg, k);
    send, es := ResendSucceeds(AllLost(s), k, cfg);
  }
}
