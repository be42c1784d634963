/** When a call can still succeed over a network that has lost what it has lost: exactly as long as there is time
    for another send, or what is under way and what has arrived suffices. */
module RpcProgress {
  import opened Options
  import opened Bytes
  import opened RpcWire
  import opened RpcCall
  import opened RpcSystem
  import opened RpcLifetime
  import opened RpcSafety
  import C = RpcClientState
  import S = RpcServerState

  /** The operation `k` is under way in a state that a run can reach. */
  ghost predicate UnderWay(s: System, k: OperationKey, cfg: Config)
    requires ValidConfig(cfg)
  {
    Inv(s, cfg) && LifeInv(s, k) && k in s.clients && !s.clients[k].finished
  }

  /** The server has the client's key and a handler for the method. */
  predicate Known(c: C.ClientOp, cfg: Config) {
    c.call.name in cfg.server.handlers && c.key in S.KeysFor(cfg.server, c.key.fingerprint)
  }

  /** Every fragment has arrived or is under way. */
  ghost predicate Coverable(a: Assembly, flying: set<Datagram>, ds: seq<Datagram>) {
    forall d | d in ds :: d in flying || HasSeen(a, {d})
  }

  /** The last fragment of the request is under way: it makes the server answer again. */
  predicate CanAskAgain(s: System, c: C.ClientOp) {
    exists d | d in c.fragments :: !d.partial && d in s.toServer
  }

  /** What has been sent suffices: the handler is at work; or the request can become complete; or the answer can
      be asked for again, or can become complete. */
  ghost predicate Enough(s: System, k: OperationKey)
    requires k in s.clients
  {
    var c, op := s.clients[k], OpOf(s, k);
    || (op.call.Some? && op.response.None?)
    || (op.call.None? && Coverable(op.assembly, s.toServer, c.fragments))
    || (op.response.Some? && (CanAskAgain(s, c) || Coverable(c.assembly, s.toClient, op.buffers)))
  }

  /** The operation has finished with a reply, which its callback is going to get or has got. */
  predicate Replied(s: System, k: OperationKey) {
    k in s.clients && s.clients[k].finished && C.OutcomeOf(s.clients[k]).Reply?
  }

  /** Deliveries and answers, but no further send, loss or failure. */
  predicate Passive(es: seq<Event>) {
    forall e | e in es :: e.ServerGets? || e.ClientGets? || e.Answer?
  }

  // ----- some datagrams arrive

  function Those(ds: seq<Datagram>, flying: set<Datagram>): (r: seq<Datagram>)
    ensures forall d :: d in r <==> d in ds && d in flying
  {
    if ds == [] then []
    else (if ds[0] in flying then [ds[0]] else []) + Those(ds[1..], flying)
  }

  /** Those of `ds` that the assembly has taken in. */
  ghost function Seen(a: Assembly, ds: seq<Datagram>): (r: set<Datagram>)
    ensures HasSeen(a, r) && forall d | d in ds && HasSeen(a, {d}) :: d in r
  {
    var r := set d | d in ds && HasSeen(a, {d});
    assert forall d | d in r :: d in {d};
    r
  }

  function ServerArrivals(ds: seq<Datagram>): (es: seq<S.ServerEvent>)
    ensures |es| == |ds| && forall i | 0 <= i < |ds| :: es[i] == S.Arrive(ds[i], Zeros(BodySize(ds[i].body)))
  {
    if ds == [] then [] else [S.Arrive(ds[0], Zeros(BodySize(ds[0].body)))] + ServerArrivals(ds[1..])
  }

  function ClientArrivals(ds: seq<Datagram>): (es: seq<C.ClientEvent>)
    ensures |es| == |ds| && forall i | 0 <= i < |ds| :: es[i] == C.Arrive(ds[i], Zeros(BodySize(ds[i].body)))
  {
    if ds == [] then [] else [C.Arrive(ds[0], Zeros(BodySize(ds[0].body)))] + ClientArrivals(ds[1..])
  }

  lemma {:induction false} ServerArrivalsCover(ds: seq<Datagram>, m: Message)
    requires forall d | d in ds :: IsPiece(d, m)
    ensures S.AllArrivals(ServerArrivals(ds), m)
    ensures forall d | d in ds :: exists e | e in ServerArrivals(ds) :: e.Arrive? && e.d == d
  {
    var es := ServerArrivals(ds);
    forall d | d in ds ensures exists e | e in es :: e.Arrive? && e.d == d {
      var i :| 0 <= i < |ds| && ds[i] == d;
      assert es[i] in es && es[i].d == d;
    }
  }

  lemma {:induction false} ClientArrivalsCover(ds: seq<Datagram>, m: Message)
    requires forall d | d in ds :: IsPiece(d, m)
    ensures C.AllArrivals(ClientArrivals(ds), m)
    ensures forall d | d in ds :: exists e | e in ClientArrivals(ds) :: e.Arrive? && e.d == d
  {
    var es := ClientArrivals(ds);
    forall d | d in ds ensures exists e | e in es :: e.Arrive? && e.d == d {
      var i :| 0 <= i < |ds| && ds[i] == d;
      assert es[i] in es && es[i].d == d;
    }
  }

  /** A fragment on its way, and the server operation it will meet. */
  lemma {:induction false} OnItsWay(s: System, k: OperationKey, d: Datagram, cfg: Config)
    requires ValidConfig(cfg) && UnderWay(s, k, cfg) && Known(s.clients[k], cfg) && d in s.clients[k].fragments
    ensures d.key == k && Received(d, cfg.server.receiveSize) == d && IsPiece(d, C.RequestMessage(s.clients[k]))
    ensures d.body.Sealed? && d.body.nonce == S.RequestNonce(d) && d.body.key == s.clients[k].key
    ensures S.Sound(OpOf(s, k)) && d.body.key in S.Candidates(OpOf(s, k), d, cfg.server)
  {
    assert KeyInv(s, k, cfg);
    WirePiece(C.RequestMessage(s.clients[k]), cfg.fragmentSize, cfg.server.receiveSize, d);
  }

  lemma {:induction false} OpensKeyed(op: S.ServerOp, d: Datagram, cfg: S.ServerConfig, junk: Buffer)
    requires S.Sound(op) && |junk| == BodySize(d.body)
    requires S.FirstOpening(S.Candidates(op, d, cfg), S.RequestNonce(d), d.body) < |S.Candidates(op, d, cfg)|
    ensures S.Unpack(op, d, cfg, junk).0.key.Some?
  {
  }

  /** One fragment is opened and moves the server operation and nothing of the client. */
  lemma {:induction false} DeliverOne(s: System, k: OperationKey, d: Datagram, cfg: Config) returns (e: Event)
    requires ValidConfig(cfg) && UnderWay(s, k, cfg) && Known(s.clients[k], cfg)
    requires d in s.clients[k].fragments && d in s.toServer
    ensures Enabled(s, e, cfg) && e.ServerGets? && UnderWay(Next(s, e, cfg), k, cfg)
    ensures var s' := Next(s, e, cfg);
            && s'.clients == s.clients && s'.toServer == s.toServer && k in s'.server && S.Sound(OpOf(s, k))
            && var r := S.Unpack(OpOf(s, k), d, cfg.server, Zeros(BodySize(d.body)));
            && OpOf(s', k) == r.0 && r.0.response == OpOf(s, k).response
            && s'.toClient == s.toClient + if r.1.Respond? then SetOf(r.1.buffers) else {}
  {
    var op, junk := OpOf(s, k), Zeros(BodySize(d.body));
    OnItsWay(s, k, d, cfg);
    e := ServerGets(d, junk);
    S.FindsKey(S.Candidates(op, d, cfg.server), S.RequestNonce(d), d.body);
    OpensKeyed(op, d, cfg.server, junk);
    RegisteredFrame(s, k, S.Unpack(op, d, cfg.server, junk));
    S.InvokesOnce(op, d, cfg.server, junk);
    StepKeepsInv(s, e, cfg);
    StepKeepsLife(s, e, cfg, k);
  }

  lemma {:induction false} DeliverAll(s: System, k: OperationKey, ds: seq<Datagram>, cfg: Config)
    returns (es: seq<Event>)
    requires ValidConfig(cfg) && UnderWay(s, k, cfg) && Known(s.clients[k], cfg)
    requires forall d | d in ds :: d in s.clients[k].fragments && d in s.toServer
    ensures IsRun(s, es, cfg) && Passive(es) && UnderWay(Run(s, es, cfg), k, cfg)
    ensures var s' := Run(s, es, cfg);
            && s'.clients == s.clients && OpOf(s', k).response == OpOf(s, k).response
            && S.AllPossible(OpOf(s, k), ServerArrivals(ds), cfg.server, k.requestId)
            && OpOf(s', k) == S.ReactAll(OpOf(s, k), ServerArrivals(ds), cfg.server, k.requestId)
    decreases |ds|
  {
    if ds == [] {
      es := [];
    } else {
      assert ds[0] in ds;
      var e := DeliverOne(s, k, ds[0], cfg);
      var rest := DeliverAll(Next(s, e, cfg), k, ds[1..], cfg);
      RunCons(s, e, rest, cfg);
      es := [e] + rest;
      var arrivals := ServerArrivals(ds);
      assert arrivals[1..] == ServerArrivals(ds[1..]);
    }
  }

  // ----- how success comes about

  /** A request that can become complete reaches the handler. */
  lemma {:induction false} HandlerCanBeReached(s: System, k: OperationKey, cfg: Config) returns (es: seq<Event>)
    requires ValidConfig(cfg) && UnderWay(s, k, cfg) && Known(s.clients[k], cfg) && OpOf(s, k).call.None?
    requires Coverable(OpOf(s, k).assembly, s.toServer, s.clients[k].fragments)
    ensures IsRun(s, es, cfg) && Passive(es) && UnderWay(Run(s, es, cfg), k, cfg)
    ensures var s' := Run(s, es, cfg); s'.clients == s.clients && OpOf(s', k).call.Some? && OpOf(s', k).response.None?
  {
    assert KeyInv(s, k, cfg);
    var c, op := s.clients[k], OpOf(s, k);
    var m, ds := C.RequestMessage(c), Those(c.fragments, s.toServer);
    es := DeliverAll(s, k, ds, cfg);
    forall d | d in ds ensures IsPiece(d, m) { OnItsWay(s, k, d, cfg); }
    ServerArrivalsCover(ds, m);
    S.AllArrivedInvokes(op, Seen(op.assembly, c.fragments), ServerArrivals(ds), m, c.call, cfg.fragmentSize,
                        cfg.server);
  }

  /** A handler that was called can answer, and then all of the answer is under way. */
  lemma {:induction false} HandlerCanAnswer(s: System, k: OperationKey, cfg: Config) returns (es: seq<Event>)
    requires ValidConfig(cfg) && UnderWay(s, k, cfg) && OpOf(s, k).call.Some? && OpOf(s, k).response.None?
    ensures IsRun(s, es, cfg) && Passive(es) && UnderWay(Run(s, es, cfg), k, cfg)
    ensures var s' := Run(s, es, cfg);
            && s'.clients == s.clients && OpOf(s', k).response.Some?
            && forall d | d in OpOf(s', k).buffers :: d in s'.toClient
  {
    assert KeyInv(s, k, cfg);
    var e := Answer(k, []);
    StepKeepsInv(s, e, cfg);
    StepKeepsLife(s, e, cfg, k);
    RunCons(s, e, [], cfg);
    es := [e] + [];
  }

  /** A copy of the last fragment makes the server send all of its answer again. */
  lemma {:induction false} AnswerCanBeRepeated(s: System, k: OperationKey, cfg: Config) returns (es: seq<Event>)
    requires ValidConfig(cfg) && UnderWay(s, k, cfg) && Known(s.clients[k], cfg)
    requires OpOf(s, k).response.Some? && CanAskAgain(s, s.clients[k])
    ensures IsRun(s, es, cfg) && Passive(es) && UnderWay(Run(s, es, cfg), k, cfg)
    ensures var s' := Run(s, es, cfg);
            && s'.clients == s.clients && OpOf(s', k).response.Some?
            && forall d | d in OpOf(s', k).buffers :: d in s'.toClient
  {
    assert KeyInv(s, k, cfg);
    var c, op := s.clients[k], OpOf(s, k);
    var d :| d in c.fragments && !d.partial && d in s.toServer;
    OnItsWay(s, k, d, cfg);
    var e := DeliverOne(s, k, d, cfg);
    S.AnswersAgain(op, d, C.RequestMessage(c), cfg.server, Zeros(BodySize(d.body)));
    S.InvokesOnce(op, d, cfg.server, Zeros(BodySize(d.body)));
    RunCons(s, e, [], cfg);
    es := [e] + [];
  }

  lemma {:induction false} ReturnAll(s: System, k: OperationKey, ds: seq<Datagram>, m: Message, cfg: Config)
    returns (es: seq<Event>)
    requires ValidConfig(cfg) && k in s.clients && k in s.operations
    requires forall d | d in ds :: d in s.toClient && d.key == k && Received(d, cfg.receiveSize) == d && IsPiece(d, m)
    ensures IsRun(s, es, cfg) && Passive(es)
    ensures C.AllPossible(s.clients[k], ClientArrivals(ds))
    ensures k in Run(s, es, cfg).clients
    ensures Run(s, es, cfg).clients[k] == C.ReactAll(s.clients[k], ClientArrivals(ds))
    decreases |ds|
  {
    if ds == [] {
      es := [];
    } else {
      assert ds[0] in ds;
      var e := ClientGets(ds[0], Zeros(BodySize(ds[0].body)));
      var rest := ReturnAll(Next(s, e, cfg), k, ds[1..], m, cfg);
      RunCons(s, e, rest, cfg);
      es := [e] + rest;
      var arrivals := ClientArrivals(ds);
      assert arrivals[1..] == ClientArrivals(ds[1..]);
    }
  }

  /** What an answer and the client that waits for it look like. */
  lemma {:induction false} AnswerOnItsWay(s: System, k: OperationKey, cfg: Config)
    requires ValidConfig(cfg) && UnderWay(s, k, cfg) && OpOf(s, k).response.Some?
    ensures k in s.operations
    ensures var c, op := s.clients[k], OpOf(s, k);
            var m := Message(op.response.value, c.key, c.requestId, true);
            && OffsetsFit(m, cfg.server.fragmentSize) && op.buffers == Fragments(m, cfg.server.fragmentSize)
            && Agrees(c.assembly, op.response.value)
            && forall d | d in op.buffers :: d.key == k && Received(d, cfg.receiveSize) == d && IsPiece(d, m)
  {
    assert KeyInv(s, k, cfg);
    var c, op := s.clients[k], OpOf(s, k);
    var m := Message(op.response.value, c.key, c.requestId, true);
    AllCarryKey(m, cfg.server.fragmentSize);
    forall d | d in op.buffers ensures Received(d, cfg.receiveSize) == d && IsPiece(d, m) {
      WirePiece(m, cfg.server.fragmentSize, cfg.receiveSize, d);
    }
  }

  /** An answer that can become complete becomes the reply. */
  lemma {:induction false} AnswerCanReturn(s: System, k: OperationKey, cfg: Config) returns (es: seq<Event>)
    requires ValidConfig(cfg) && UnderWay(s, k, cfg) && OpOf(s, k).response.Some?
    requires Coverable(s.clients[k].assembly, s.toClient, OpOf(s, k).buffers)
    ensures IsRun(s, es, cfg) && Passive(es) && Replied(Run(s, es, cfg), k)
  {
    var c, op := s.clients[k], OpOf(s, k);
    var m, ds := Message(op.response.value, c.key, c.requestId, true), Those(op.buffers, s.toClient);
    AnswerOnItsWay(s, k, cfg);
    es := ReturnAll(s, k, ds, m, cfg);
    ClientArrivalsCover(ds, m);
    C.AllArrivedReplies(c, Seen(c.assembly, op.buffers), ClientArrivals(ds), op.response.value,
                        cfg.server.fragmentSize);
  }

  lemma {:induction false} HeldAnswerSucceeds(s: System, k: OperationKey, cfg: Config) returns (es: seq<Event>)
    requires ValidConfig(cfg) && UnderWay(s, k, cfg) && Known(s.clients[k], cfg) && OpOf(s, k).response.Some?
    requires CanAskAgain(s, s.clients[k]) || Coverable(s.clients[k].assembly, s.toClient, OpOf(s, k).buffers)
    ensures IsRun(s, es, cfg) && Passive(es) && Replied(Run(s, es, cfg), k)
  {
    if Coverable(s.clients[k].assembly, s.toClient, OpOf(s, k).buffers) {
      es := AnswerCanReturn(s, k, cfg);
    } else {
      es := AnswerCanBeRepeated(s, k, cfg);
      var rest := AnswerCanReturn(Run(s, es, cfg), k, cfg);
      RunAppend(s, es, rest, cfg);
      es := es + rest;
    }
  }

  lemma {:induction false} HandlerSucceeds(s: System, k: OperationKey, cfg: Config) returns (es: seq<Event>)
    requires ValidConfig(cfg) && UnderWay(s, k, cfg) && OpOf(s, k).call.Some? && OpOf(s, k).response.None?
    ensures IsRun(s, es, cfg) && Passive(es) && Replied(Run(s, es, cfg), k)
  {
    es := HandlerCanAnswer(s, k, cfg);
    var rest := AnswerCanReturn(Run(s, es, cfg), k, cfg);
    RunAppend(s, es, rest, cfg);
    es := es + rest;
  }

  lemma {:induction false} RequestSucceeds(s: System, k: OperationKey, cfg: Config) returns (es: seq<Event>)
    requires ValidConfig(cfg) && UnderWay(s, k, cfg) && Known(s.clients[k], cfg) && OpOf(s, k).call.None?
    requires Coverable(OpOf(s, k).assembly, s.toServer, s.clients[k].fragments)
    ensures IsRun(s, es, cfg) && Passive(es) && Replied(Run(s, es, cfg), k)
  {
    es := HandlerCanBeReached(s, k, cfg);
    var rest := HandlerSucceeds(Run(s, es, cfg), k, cfg);
    RunAppend(s, es, rest, cfg);
    es := es + rest;
  }

  /** Without another send: deliveries and an answer do the rest. */
  lemma {:induction false} EnoughSucceeds(s: System, k: OperationKey, cfg: Config) returns (es: seq<Event>)
    requires ValidConfig(cfg) && UnderWay(s, k, cfg) && Known(s.clients[k], cfg) && Enough(s, k)
    ensures IsRun(s, es, cfg) && Passive(es) && Replied(Run(s, es, cfg), k)
  {
    if OpOf(s, k).response.Some? {
      assert KeyInv(s, k, cfg);
      es := HeldAnswerSucceeds(s, k, cfg);
    } else if OpOf(s, k).call.Some? {
      es := HandlerSucceeds(s, k, cfg);
    } else {
      es := RequestSucceeds(s, k, cfg);
    }
  }

  /** The timer's handler sends all fragments again. */
  lemma {:induction false} CanWake(s: System, k: OperationKey, cfg: Config)
    requires ValidConfig(cfg) && UnderWay(s, k, cfg) && s.clients[k].retry.timeout > 0 && s.clients[k].rung > 0
    ensures var e := Handler(k, C.Wakes);
            Enabled(s, e, cfg) && UnderWay(Next(s, e, cfg), k, cfg) && Resent(s, Next(s, e, cfg), k)
  {
    var e := Handler(k, C.Wakes);
    StepKeepsInv(s, e, cfg);
    StepKeepsLife(s, e, cfg, k);
  }

  /** The same call, with all its fragments under way. */
  predicate Resent(s: System, s': System, k: OperationKey) {
    && k in s.clients && k in s'.clients
    && s'.clients[k].call == s.clients[k].call && s'.clients[k].key == s.clients[k].key
    && forall d | d in s'.clients[k].fragments :: d in s'.toServer
  }

  lemma {:induction false} CanRing(s: System, k: OperationKey, cfg: Config)
    requires ValidConfig(cfg) && UnderWay(s, k, cfg) && s.clients[k].rung == 0
    ensures var e := Handler(k, C.Rings);
            && Enabled(s, e, cfg) && UnderWay(Next(s, e, cfg), k, cfg)
            && var c, c' := s.clients[k], Next(s, e, cfg).clients[k];
               c'.call == c.call && c'.key == c.key && c'.retry == c.retry && c'.rung > 0
  {
    var e := Handler(k, C.Rings);
    StepKeepsInv(s, e, cfg);
    StepKeepsLife(s, e, cfg, k);
  }

  /** One more send: at once, or after the timer has rung. */
  predicate OneSend(es: seq<Event>, k: OperationKey) {
    es == [Handler(k, C.Wakes)] || es == [Handler(k, C.Rings), Handler(k, C.Wakes)]
  }

  lemma {:induction false} CanSendAgain(s: System, k: OperationKey, cfg: Config) returns (es: seq<Event>)
    requires ValidConfig(cfg) && UnderWay(s, k, cfg) && s.clients[k].retry.timeout > 0
    ensures OneSend(es, k) && IsRun(s, es, cfg) && UnderWay(Run(s, es, cfg), k, cfg) && Resent(s, Run(s, es, cfg), k)
  {
    if s.clients[k].rung > 0 {
      CanWake(s, k, cfg);
      RunCons(s, Handler(k, C.Wakes), [], cfg);
      es := [Handler(k, C.Wakes)] + [];
    } else {
      var s1 := Next(s, Handler(k, C.Rings), cfg);
      CanRing(s, k, cfg);
      CanWake(s1, k, cfg);
      RunCons(s1, Handler(k, C.Wakes), [], cfg);
      RunCons(s, Handler(k, C.Rings), [Handler(k, C.Wakes)] + [], cfg);
      es := [Handler(k, C.Rings)] + ([Handler(k, C.Wakes)] + []);
    }
  }

  lemma {:induction false} ResentEnough(s: System, k: OperationKey, cfg: Config)
    requires ValidConfig(cfg) && UnderWay(s, k, cfg) && forall d | d in s.clients[k].fragments :: d in s.toServer
    ensures Enough(s, k)
  {
    assert KeyInv(s, k, cfg);
    var m := C.RequestMessage(s.clients[k]);
    var last := FragmentFor(m, cfg.fragmentSize, |m.bytes|);
    assert last in s.clients[k].fragments && !last.partial;
  }

  /** As long as there is time left, one more send, deliveries of what it sends and an answer make the call succeed,
      whatever has been lost. */
  lemma {:induction false} ResendSucceeds(s: System, k: OperationKey, cfg: Config)
    returns (send: seq<Event>, es: seq<Event>)
    requires ValidConfig(cfg) && UnderWay(s, k, cfg) && Known(s.clients[k], cfg) && s.clients[k].retry.timeout > 0
    ensures OneSend(send, k) && Passive(es) && IsRun(s, send + es, cfg) && Replied(Run(s, send + es, cfg), k)
  {
    send := CanSendAgain(s, k, cfg);
    var s1 := Run(s, send, cfg);
    ResentEnough(s1, k, cfg);
    es := EnoughSucceeds(s1, k, cfg);
    RunAppend(s, send, es, cfg);
  }
}
