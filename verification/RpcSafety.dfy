/** What the RPC protocol guarantees in every run: replies are answers to exactly the calls that were made. */
module RpcSafety {
  import opened Options
  import opened Bytes
  import opened RpcWire
  import opened RpcCall
  import opened RpcSystem
  import opened RpcLifetime
  import C = RpcClientState
  import S = RpcServerState

  // ----- the invariant, one operation key at a time

  /** The server operation works for the client operation `c`. */
  ghost predicate Serves(op: S.ServerOp, c: C.ClientOp, cfg: Config)
    requires ValidConfig(cfg)
  {
    && op.key == Some(c.key) && c.key in S.KeysFor(cfg.server, c.key.fingerprint) && S.Sound(op)
    && (!Complete(op.assembly) ==> Agrees(op.assembly, EncodeCall(c.call)) && op.call.None?)
    && (op.call.Some? ==> op.call.value == c.call && c.call.name in cfg.server.handlers)
    && (Complete(op.assembly) && c.call.name in cfg.server.handlers ==> op.call.Some?)
    && (op.response.Some? ==> op.call.Some?)
    && match op.response
       case None => op.buffers == []
       case Some(response) =>
         var m := Message(response, c.key, c.requestId, true);
         OffsetsFit(m, cfg.server.fragmentSize) && op.buffers == Fragments(m, cfg.server.fragmentSize)
  }

  /** The answer that the server operation for `k` holds, if any. */
  function HeldAnswer(s: System, k: OperationKey): Option<Buffer> {
    if k in s.server then s.server[k].response else None
  }

  /** What the handler calls for `k` are while its client operation is unfinished: at most one. */
  function ExpectedInvocations(s: System, k: OperationKey): seq<Invocation> {
    if k in s.server && s.server[k].call.Some? then [Invocation(s.server[k].call.value, s.server[k].response)] else []
  }

  ghost predicate UnfinishedInv(s: System, k: OperationKey, cfg: Config)
    requires ValidConfig(cfg) && k in s.clients
  {
    var c := s.clients[k];
    && InvocationsOf(s, k) == ExpectedInvocations(s, k)
    && match HeldAnswer(s, k)
       case None => c.assembly.covered == {} && c.assembly.size == None && forall d | d in s.toClient :: d.key != k
       case Some(response) =>
         && Agrees(c.assembly, response)
         && forall d | d in s.toClient && d.key == k ::
              d in Fragments(Message(response, c.key, c.requestId, true), cfg.server.fragmentSize)
  }

  /** A reply is the answer of a handler that was given exactly this call. */
  ghost predicate Explained(c: C.ClientOp, invs: seq<Invocation>) {
    C.OutcomeOf(c).Reply? ==> Invocation(c.call, Some(C.OutcomeOf(c).bytes)) in invs
  }

  /** The latest handler call is the one the server operation knows of. */
  ghost predicate Current(op: S.ServerOp, invs: seq<Invocation>) {
    op.call.Some? ==> invs != [] && invs[|invs| - 1] == Invocation(op.call.value, op.response)
  }

  ghost predicate KeyInv(s: System, k: OperationKey, cfg: Config)
    requires ValidConfig(cfg)
  {
    if k !in s.clients then
      && k !in s.server && k !in s.invocations
      && (forall d | d in s.toServer :: d.key != k) && (forall d | d in s.toClient :: d.key != k)
    else
      var c := s.clients[k];
      && OpKeyOf(C.RequestMessage(c)) == k && 0 !in c.call.name
      && OffsetsFit(C.RequestMessage(c), cfg.fragmentSize)
      && c.fragments == Fragments(C.RequestMessage(c), cfg.fragmentSize)
      && (forall d | d in s.toServer && d.key == k :: d in c.fragments)
      && (k in s.server ==> Serves(s.server[k], c, cfg))
      && (k in s.server ==> Current(s.server[k], InvocationsOf(s, k)))
      && (forall i | i in InvocationsOf(s, k) :: i.call == c.call)
      && (!c.finished ==> c.result == C.Unset && UnfinishedInv(s, k, cfg))
      && Explained(c, InvocationsOf(s, k))
  }

  ghost predicate Inv(s: System, cfg: Config)
    requires ValidConfig(cfg)
  {
    forall k :: KeyInv(s, k, cfg)
  }

  /** Nothing about `k` differs. */
  ghost predicate SameFor(s: System, s': System, k: OperationKey) {
    && (k in s.clients <==> k in s'.clients) && (k in s.clients ==> s'.clients[k] == s.clients[k])
    && (k in s.server <==> k in s'.server) && (k in s.server ==> s'.server[k] == s.server[k])
    && (k in s.invocations <==> k in s'.invocations) && InvocationsOf(s', k) == InvocationsOf(s, k)
    && (forall d | d in s'.toServer && d.key == k :: d in s.toServer)
    && (forall d | d in s'.toClient && d.key == k :: d in s.toClient)
  }

  lemma {:induction false} SameForKeeps(s: System, s': System, k: OperationKey, cfg: Config)
    requires ValidConfig(cfg) && KeyInv(s, k, cfg) && SameFor(s, s', k)
    ensures KeyInv(s', k, cfg)
  {
  }

  // ----- every step keeps it

  /** A fragment on the wire is a piece of its message and fits the receiver. */
  lemma {:induction false} WirePiece(m: Message, limit: nat, receiveSize: nat, d: Datagram)
    requires 0 < limit && limit + ENCRYPT_OVERHEAD + HEADER_SIZE <= receiveSize
    requires OffsetsFit(m, limit) && d in Fragments(m, limit)
    ensures IsPiece(d, m) && Received(d, receiveSize) == d
  {
    FragmentsArePieces(m, limit, d);
  }

  /** What an opened fragment does to an operation that serves `c`. */
  lemma {:induction false} OpenedServes(op: S.ServerOp, c: C.ClientOp, d: Datagram, cfg: Config)
    requires ValidConfig(cfg) && Serves(op, c, cfg)
    requires IsPiece(d, C.RequestMessage(c)) && 0 !in c.call.name
    requires d.offset + |d.body.plain| <= |op.assembly.buffer|
    ensures var (op', effect) := S.Opened(op, d, d.body.plain, cfg.server);
            && Serves(op', c, cfg)
            && op'.response == op.response
            && (effect.Invoke? ==> op.call.None? && op'.call == Some(effect.call))
            && (!effect.Invoke? ==> op'.call == op.call)
            && (effect.Respond? ==> effect.buffers == op.buffers)
  {
    if !Complete(op.assembly) {
      AcceptAgrees(op.assembly, d, C.RequestMessage(c));
      var a := Accept(op.assembly, d.offset, d.body.plain, d.partial);
      if Complete(a) {
        CompleteIsWhole(a, EncodeCall(c.call));
        SplitEncodeIff(c.call);
      }
    }
  }

  /** The server operation goes on serving its client whatever genuine fragment arrives. */
  lemma {:induction false} ArrivalServes(op: S.ServerOp, c: C.ClientOp, d: Datagram, junk: Buffer, cfg: Config)
    requires ValidConfig(cfg) && |junk| == BodySize(d.body)
    requires op == S.FRESH || Serves(op, c, cfg)
    requires IsPiece(d, C.RequestMessage(c)) && 0 !in c.call.name
    ensures S.Sound(op)
    ensures var (op', effect) := S.Unpack(op, d, cfg.server, junk);
            op'.key.Some? ==>
              && Serves(op', c, cfg)
              && op'.response == op.response
              && (effect.Invoke? ==> op.call.None? && op'.call == Some(effect.call))
              && (!effect.Invoke? ==> op'.call == op.call)
              && (effect.Respond? ==> effect.buffers == op.buffers)
  {
    var keys := S.Candidates(op, d, cfg.server);
    var i := S.FirstOpening(keys, S.RequestNonce(d), d.body);
    var tried := S.Tried(op.assembly, d, i, junk);
    if !Complete(op.assembly) {
      GrownAgrees(op.assembly, EncodeCall(c.call), d.offset, BodySize(d.body));
      assert Agrees(tried, EncodeCall(c.call));
    }
    if i < |keys| {
      assert keys[i] == c.key;
      OpenedServes(op.(key := Some(c.key), assembly := tried), c, d, cfg);
    }
  }

  lemma {:induction false} AmongCarryKey(m: Message, offset: nat, limit: nat, d: Datagram)
    requires 0 < limit && offset <= |m.bytes| && Among(m, offset, limit, d)
    ensures d.key == OpKeyOf(m)
    decreases |m.bytes| - offset
  {
    if d != Fragment(m, offset, limit) { AmongCarryKey(m, offset + limit, limit, d); }
  }

  /** All datagrams of a message carry its operation key. */
  lemma {:induction false} AllCarryKey(m: Message, limit: nat)
    requires 0 < limit
    ensures forall d | d in Fragments(m, limit) :: d.key == OpKeyOf(m)
  {
    forall d | d in Fragments(m, limit) ensures d.key == OpKeyOf(m) {
      InFragments(m, 0, limit, d);
      AmongCarryKey(m, 0, limit, d);
    }
  }

  /** The client operation `k` becomes `c` and sends some of its fragments. */
  ghost predicate ClientMoved(s: System, s': System, k: OperationKey, c: C.ClientOp) {
    && s' == s.(clients := s.clients[k := c], operations := s'.operations, toServer := s'.toServer,
                callbacks := s'.callbacks)
    && s.toServer <= s'.toServer && forall d | d in s'.toServer :: d in s.toServer || d in c.fragments
  }

  lemma {:induction false} SentMoves(s: System, k: OperationKey, r: (C.ClientOp, seq<Datagram>))
    requires r.1 == [] || r.1 == r.0.fragments
    ensures ClientMoved(s, Released(Sent(s, k, r), k), k, r.0)
  {
  }

  lemma {:induction false} ClientMovedSame(s: System, s': System, k: OperationKey, c: C.ClientOp, limit: nat)
    requires ClientMoved(s, s', k, c) && 0 < limit
    requires c.fragments == Fragments(C.RequestMessage(c), limit) && OpKeyOf(C.RequestMessage(c)) == k
    ensures forall k' | k' != k :: SameFor(s, s', k')
  {
    AllCarryKey(C.RequestMessage(c), limit);
  }

  lemma {:induction false} RequestMoves(s: System, e: Event, cfg: Config)
    requires ValidConfig(cfg) && e.Request? && Enabled(s, e, cfg)
    ensures ClientMoved(s, Next(s, e, cfg), e.k, C.Send(Started(e, cfg)).0)
  {
    SentMoves(s.(operations := s.operations + {e.k}), e.k, C.Send(Started(e, cfg)));
  }

  lemma {:induction false} HandlerMoves(s: System, e: Event, cfg: Config)
    requires ValidConfig(cfg) && e.Handler? && Enabled(s, e, cfg)
    ensures ClientMoved(s, Next(s, e, cfg), e.k, C.React(s.clients[e.k], e.e).0)
  {
    C.HandlerFrame(s.clients[e.k], e.e);
    SentMoves(s, e.k, C.React(s.clients[e.k], e.e));
  }

  lemma {:induction false} StartedKeeps(s: System, s': System, k: OperationKey, c: C.ClientOp, cfg: Config)
    requires ValidConfig(cfg) && KeyInv(s, k, cfg) && k !in s.clients && ClientMoved(s, s', k, c)
    requires OpKeyOf(C.RequestMessage(c)) == k && 0 !in c.call.name && OffsetsFit(C.RequestMessage(c), cfg.fragmentSize)
    requires c.fragments == Fragments(C.RequestMessage(c), cfg.fragmentSize)
    requires c.assembly == NOTHING && (!c.finished ==> c.result == C.Unset)
    ensures KeyInv(s', k, cfg)
  {
  }

  lemma {:induction false} StartedFrame(e: Event, cfg: Config)
    requires ValidConfig(cfg) && e.Request? && OpKeyOf(RequestOf(e)) == e.k
    ensures var c := C.Send(Started(e, cfg)).0;
            && C.RequestMessage(c) == RequestOf(e) && c.call == e.call
            && c.fragments == Fragments(RequestOf(e), cfg.fragmentSize)
            && c.assembly == NOTHING && (!c.finished ==> c.result == C.Unset)
  {
  }

  lemma {:induction false} RequestKeeps(s: System, e: Event, cfg: Config)
    requires ValidConfig(cfg) && Inv(s, cfg) && e.Request? && Enabled(s, e, cfg)
    ensures KeyInv(Next(s, e, cfg), e.k, cfg)
    ensures forall k | k != e.k :: SameFor(s, Next(s, e, cfg), k)
  {
    var c := C.Send(Started(e, cfg)).0;
    RequestMoves(s, e, cfg);
    StartedFrame(e, cfg);
    assert KeyInv(s, e.k, cfg);
    StartedKeeps(s, Next(s, e, cfg), e.k, c, cfg);
    ClientMovedSame(s, Next(s, e, cfg), e.k, c, cfg.fragmentSize);
  }

  lemma {:induction false} ReactedKeeps(s: System, s': System, k: OperationKey, h: C.ClientEvent, cfg: Config)
    requires ValidConfig(cfg) && KeyInv(s, k, cfg) && k in s.clients && !h.Arrive? && C.Possible(s.clients[k], h)
    requires ClientMoved(s, s', k, C.React(s.clients[k], h).0)
    ensures KeyInv(s', k, cfg)
  {
    C.HandlerFrame(s.clients[k], h);
  }

  lemma {:induction false} HandlerKeeps(s: System, e: Event, cfg: Config)
    requires ValidConfig(cfg) && Inv(s, cfg) && e.Handler? && Enabled(s, e, cfg)
    ensures KeyInv(Next(s, e, cfg), e.k, cfg)
    ensures forall k | k != e.k :: SameFor(s, Next(s, e, cfg), k)
  {
    var c := C.React(s.clients[e.k], e.e).0;
    HandlerMoves(s, e, cfg);
    assert KeyInv(s, e.k, cfg);
    C.HandlerFrame(s.clients[e.k], e.e);
    ReactedKeeps(s, Next(s, e, cfg), e.k, e.e, cfg);
    ClientMovedSame(s, Next(s, e, cfg), e.k, c, cfg.fragmentSize);
  }

  /** A lost datagram is only missing. */
  lemma {:induction false} LossKeeps(s: System, e: Event, cfg: Config)
    requires ValidConfig(cfg) && (e.LoseRequest? || e.LoseResponse?) && Enabled(s, e, cfg)
    ensures forall k :: SameFor(s, Next(s, e, cfg), k)
  {
  }

  lemma {:induction false} ExpireKeeps(s: System, e: Event, cfg: Config)
    requires ValidConfig(cfg) && Inv(s, cfg) && e.Expire? && Enabled(s, e, cfg)
    ensures KeyInv(Next(s, e, cfg), e.k, cfg)
    ensures forall k | k != e.k :: SameFor(s, Next(s, e, cfg), k)
  {
    assert KeyInv(s, e.k, cfg);
  }

  /** A response fragment adds what the server answered; completing it means holding all of it. */
  lemma {:induction false} ReplyKeeps(c: C.ClientOp, response: Buffer, d: Datagram, junk: Buffer)
    requires |junk| == BodySize(d.body) && !c.finished && Agrees(c.assembly, response)
    requires IsPiece(d, Message(response, c.key, c.requestId, true))
    ensures var c' := C.Unpack(c, d, junk);
            && (!c'.finished ==> c'.result == c.result && Agrees(c'.assembly, response))
            && (c'.finished ==> C.OutcomeOf(c') == C.Reply(response))
            && c' == c.(assembly := c'.assembly, finished := c'.finished, result := c'.result, sends := c'.sends,
                        armed := c'.armed, rung := c'.rung, cancelled := c'.cancelled)
  {
    GrownAgrees(c.assembly, response, d.offset, BodySize(d.body));
    var a := c.assembly.(buffer := Grown(c.assembly.buffer, d.offset, BodySize(d.body)));
    AcceptAgrees(a, d, Message(response, c.key, c.requestId, true));
    var a' := Accept(a, d.offset, d.body.plain, d.partial);
    if Complete(a') { CompleteIsWhole(a', response); }
  }

  /** A response fragment changes nothing but the unfinished operation it is for. */
  lemma {:induction false} ClientGetsMoves(s: System, e: Event, cfg: Config)
    requires ValidConfig(cfg) && e.ClientGets? && Enabled(s, e, cfg)
    ensures var s', k := Next(s, e, cfg), e.d.key;
            || s' == s
            || (&& k in s.clients && !s.clients[k].finished
                && s' == s.(clients := s.clients[k := C.Unpack(s.clients[k], Received(e.d, cfg.receiveSize), e.junk)]))
  {
    var k := e.d.key;
    if k in s.operations && k in s.clients && s.clients[k].finished {
      assert s.clients[k := s.clients[k]] == s.clients;
    }
  }

  lemma {:induction false} ClientGetsKeeps(s: System, e: Event, cfg: Config)
    requires ValidConfig(cfg) && Inv(s, cfg) && e.ClientGets? && Enabled(s, e, cfg)
    ensures KeyInv(Next(s, e, cfg), e.d.key, cfg)
    ensures forall k | k != e.d.key :: SameFor(s, Next(s, e, cfg), k)
  {
    var k := e.d.key;
    ClientGetsMoves(s, e, cfg);
    assert KeyInv(s, k, cfg);
    if Next(s, e, cfg) != s { UnpackedKeeps(s, e.d, e.junk, cfg); }
  }

  lemma {:induction false} UnpackedKeeps(s: System, d: Datagram, junk: Buffer, cfg: Config)
    requires ValidConfig(cfg) && KeyInv(s, d.key, cfg) && d in s.toClient
    requires |junk| == BodySize(Received(d, cfg.receiveSize).body) && d.key in s.clients && !s.clients[d.key].finished
    ensures var c' := C.Unpack(s.clients[d.key], Received(d, cfg.receiveSize), junk);
            KeyInv(s.(clients := s.clients[d.key := c']), d.key, cfg)
  {
    var c, response := s.clients[d.key], HeldAnswer(s, d.key).value;
    WirePiece(Message(response, c.key, c.requestId, true), cfg.server.fragmentSize, cfg.receiveSize, d);
    ReplyKeeps(c, response, d, junk);
    RepliedKeeps(s, d.key, C.Unpack(c, d, junk), response, cfg);
  }

  lemma {:induction false} RepliedKeeps(s: System, k: OperationKey, c': C.ClientOp, response: Buffer, cfg: Config)
    requires ValidConfig(cfg) && KeyInv(s, k, cfg) && k in s.clients && !s.clients[k].finished
    requires HeldAnswer(s, k) == Some(response)
    requires c' == s.clients[k].(assembly := c'.assembly, finished := c'.finished, result := c'.result,
                                 sends := c'.sends, armed := c'.armed, rung := c'.rung,
                                 cancelled := c'.cancelled)
    requires if c'.finished then C.OutcomeOf(c') == C.Reply(response)
             else c'.result == s.clients[k].result && Agrees(c'.assembly, response)
    ensures KeyInv(s.(clients := s.clients[k := c']), k, cfg)
  {
  }

  /** What a fragment may do to the server operation it belongs to. */
  ghost predicate ServerMoved(s: System, s': System, k: OperationKey, cfg: Config)
    requires ValidConfig(cfg)
  {
    && k in s.clients && (k in s.server ==> k in s'.server)
    && s' == s.(server := s'.server, invocations := s'.invocations, toClient := s'.toClient)
    && (s'.server == s.server || (k in s'.server && s'.server == s.server[k := s'.server[k]]))
    && (k in s'.server ==> Serves(s'.server[k], s.clients[k], cfg) && s'.server[k].response == HeldAnswer(s, k))
    && (s'.toClient == s.toClient || (HeldAnswer(s, k).Some? && s'.toClient == s.toClient + SetOf(s.server[k].buffers)))
    && if s'.invocations == s.invocations
       then k in s'.server ==> s'.server[k].call == if k in s.server then s.server[k].call else None
       else && k in s'.server && s'.server[k].call.Some? && (k in s.server ==> s.server[k].call.None?)
            && s'.invocations == s.invocations[k := InvocationsOf(s, k) + [Invocation(s'.server[k].call.value, None)]]
  }

  lemma {:induction false} DispatchMoves(s: System, d: Datagram, junk: Buffer, cfg: Config)
    requires ValidConfig(cfg) && d.key in s.clients && |junk| == BodySize(d.body)
    requires d.key in s.server ==> Serves(s.server[d.key], s.clients[d.key], cfg)
    requires IsPiece(d, C.RequestMessage(s.clients[d.key])) && 0 !in s.clients[d.key].call.name
    ensures ServerMoved(s, Dispatched(s, d, junk, cfg), d.key, cfg)
  {
    var op := if d.key in s.server then s.server[d.key] else S.FRESH;
    ArrivalServes(op, s.clients[d.key], d, junk, cfg);
    S.InvokesOnce(op, d, cfg.server, junk);
    var (op', effect) := S.Unpack(op, d, cfg.server, junk);
    match effect {
      case Quiet =>
      case Invoke(call) =>
        var invs := InvocationsOf(s, d.key) + [Invocation(call, None)];
        assert s.invocations[d.key := invs][d.key] == invs;
      case Respond(buffers) =>
    }
  }

  lemma {:induction false} ServerGetsMoves(s: System, e: Event, cfg: Config)
    requires ValidConfig(cfg) && Inv(s, cfg) && e.ServerGets? && Enabled(s, e, cfg)
    ensures ServerMoved(s, Next(s, e, cfg), e.d.key, cfg)
  {
    assert KeyInv(s, e.d.key, cfg);
    WirePiece(C.RequestMessage(s.clients[e.d.key]), cfg.fragmentSize, cfg.server.receiveSize, e.d);
    DispatchMoves(s, e.d, e.junk, cfg);
  }

  lemma {:induction false} MovedKeeps(s: System, s': System, k: OperationKey, cfg: Config)
    requires ValidConfig(cfg) && KeyInv(s, k, cfg) && ServerMoved(s, s', k, cfg)
    ensures KeyInv(s', k, cfg)
  {
  }

  lemma {:induction false} MovedSame(s: System, s': System, k: OperationKey, k': OperationKey, cfg: Config)
    requires ValidConfig(cfg) && KeyInv(s, k, cfg) && ServerMoved(s, s', k, cfg) && k' != k
    ensures SameFor(s, s', k')
  {
    if HeldAnswer(s, k).Some? {
      var c := s.clients[k];
      AllCarryKey(Message(s.server[k].response.value, c.key, c.requestId, true), cfg.server.fragmentSize);
    }
  }

  lemma {:induction false} ServerGetsKeeps(s: System, e: Event, cfg: Config)
    requires ValidConfig(cfg) && Inv(s, cfg) && e.ServerGets? && Enabled(s, e, cfg)
    ensures KeyInv(Next(s, e, cfg), e.d.key, cfg)
    ensures forall k | k != e.d.key :: SameFor(s, Next(s, e, cfg), k)
  {
    var s' := Next(s, e, cfg);
    assert KeyInv(s, e.d.key, cfg);
    ServerGetsMoves(s, e, cfg);
    MovedKeeps(s, s', e.d.key, cfg);
    forall k | k != e.d.key ensures SameFor(s, s', k) { MovedSame(s, s', e.d.key, k, cfg); }
  }

  lemma {:induction false} AnsweredKeeps(invs: seq<Invocation>, response: Buffer)
    requires invs != [] && invs[|invs| - 1].response.None?
    ensures forall i | i in invs && i.response.Some? :: i in Answered(invs, response)
    ensures forall i | i in Answered(invs, response) :: exists j | j in invs :: j.call == i.call
  {
    var r := Answered(invs, response);
    forall i | i in invs && i.response.Some? ensures i in r {
      var n :| 0 <= n < |invs| && invs[n] == i;
      assert r[n] == i;
    }
    forall i | i in r ensures exists j | j in invs :: j.call == i.call {
      var n :| 0 <= n < |r| && r[n] == i;
      assert invs[n] in invs;
    }
  }

  lemma {:induction false} AnswerKeeps(s: System, e: Event, cfg: Config)
    requires ValidConfig(cfg) && Inv(s, cfg) && e.Answer? && Enabled(s, e, cfg)
    ensures KeyInv(Next(s, e, cfg), e.k, cfg)
  {
    assert KeyInv(s, e.k, cfg);
    AnsweredKeeps(InvocationsOf(s, e.k), e.response);
  }

  lemma {:induction false} AnswerLeavesOthers(s: System, e: Event, cfg: Config)
    requires ValidConfig(cfg) && Inv(s, cfg) && e.Answer? && Enabled(s, e, cfg)
    ensures forall k | k != e.k :: SameFor(s, Next(s, e, cfg), k)
  {
    assert KeyInv(s, e.k, cfg);
    AllCarryKey(ResponseOf(s.server[e.k], e.k, e.response), cfg.server.fragmentSize);
  }

  // ----- whole runs

  /** Every event keeps the invariant of the operation it is about and touches no other. */
  lemma {:induction false} StepKeeps(s: System, e: Event, cfg: Config)
    requires ValidConfig(cfg) && Inv(s, cfg) && Enabled(s, e, cfg)
    ensures KeyInv(Next(s, e, cfg), KeyOf(e), cfg)
    ensures forall k | k != KeyOf(e) :: SameFor(s, Next(s, e, cfg), k)
  {
    match e {
      case Request(_, _, _, _, _) => RequestKeeps(s, e, cfg);
      case Handler(_, _) => HandlerKeeps(s, e, cfg);
      case ClientGets(_, _) => ClientGetsKeeps(s, e, cfg);
      case ServerGets(_, _) => ServerGetsKeeps(s, e, cfg);
      case Answer(_, _) => AnswerKeeps(s, e, cfg); AnswerLeavesOthers(s, e, cfg);
      case Expire(_) => ExpireKeeps(s, e, cfg);
      case LoseRequest(_) => LossKeeps(s, e, cfg); SameForKeeps(s, Next(s, e, cfg), e.d.key, cfg);
      case LoseResponse(_) => LossKeeps(s, e, cfg); SameForKeeps(s, Next(s, e, cfg), e.d.key, cfg);
    }
  }

  lemma {:induction false} StepKeepsInv(s: System, e: Event, cfg: Config)
    requires ValidConfig(cfg) && Inv(s, cfg) && Enabled(s, e, cfg)
    ensures Inv(Next(s, e, cfg), cfg)
  {
    StepKeeps(s, e, cfg);
    OthersKeep(s, Next(s, e, cfg), KeyOf(e), cfg);
  }

  lemma {:induction false} OthersKeep(s: System, s': System, k0: OperationKey, cfg: Config)
    requires ValidConfig(cfg) && Inv(s, cfg) && KeyInv(s', k0, cfg)
    requires forall k | k != k0 :: SameFor(s, s', k)
    ensures Inv(s', cfg)
  {
    forall k ensures KeyInv(s', k, cfg) {
      if k != k0 { SameForKeeps(s, s', k, cfg); }
    }
  }

  lemma {:induction false} RunKeepsInv(s: System, es: seq<Event>, cfg: Config)
    requires ValidConfig(cfg) && IsRun(s, es, cfg) && Inv(s, cfg)
    ensures Inv(Run(s, es, cfg), cfg)
    decreases |es|
  {
    if es != [] {
      StepKeepsInv(s, es[0], cfg);
      RunKeepsInv(Next(s, es[0], cfg), es[1..], cfg);
    }
  }

  lemma {:induction false} InitiallyInv(cfg: Config)
    requires ValidConfig(cfg)
    ensures Inv(INITIAL, cfg)
  {
  }

  /** Every reachable state satisfies both invariants. */
  lemma {:induction false} Reachable(es: seq<Event>, cfg: Config, k: OperationKey)
    requires ValidConfig(cfg) && IsRun(INITIAL, es, cfg)
    ensures Inv(Run(INITIAL, es, cfg), cfg) && LifeInv(Run(INITIAL, es, cfg), k)
  {
    InitiallyInv(cfg);
    RunKeepsInv(INITIAL, es, cfg);
    RunKeepsLife(INITIAL, es, cfg, k);
  }

  lemma {:induction false} ReplyIsAnswer(s: System, cfg: Config, k: OperationKey, bytes: Buffer)
    requires ValidConfig(cfg) && KeyInv(s, k, cfg) && LifeInv(s, k) && C.Reply(bytes) in CallbacksOf(s, k)
    ensures k in s.clients && Invocation(s.clients[k].call, Some(bytes)) in InvocationsOf(s, k)
  {
  }

  /** End to end: in every run, a reply handed to a callback is the answer of a handler that was given
      exactly the client's request under exactly the client's method. */
  lemma {:induction false} RepliesAreAnswers(es: seq<Event>, cfg: Config, k: OperationKey, bytes: Buffer)
    requires ValidConfig(cfg) && IsRun(INITIAL, es, cfg)
    requires C.Reply(bytes) in CallbacksOf(Run(INITIAL, es, cfg), k)
    ensures var s := Run(INITIAL, es, cfg);
            k in s.clients && Invocation(s.clients[k].call, Some(bytes)) in InvocationsOf(s, k)
  {
    Reachable(es, cfg, k);
    ReplyIsAnswer(Run(INITIAL, es, cfg), cfg, k, bytes);
  }

  lemma {:induction false} CallIsGenuine(s: System, cfg: Config, k: OperationKey)
    requires ValidConfig(cfg) && KeyInv(s, k, cfg)
    ensures InvocationsOf(s, k) != [] ==> k in s.clients
    ensures k in s.clients ==> forall i | i in InvocationsOf(s, k) :: i.call == s.clients[k].call
    ensures k in s.clients && !s.clients[k].finished ==> |InvocationsOf(s, k)| <= 1
  {
  }

  /** At most once: until its client operation has finished, a call reaches a handler at most once, and
      whenever a handler is called it is given exactly the client's call. */
  lemma {:induction false} CallsAreGenuine(es: seq<Event>, cfg: Config, k: OperationKey)
    requires ValidConfig(cfg) && IsRun(INITIAL, es, cfg)
    ensures var s := Run(INITIAL, es, cfg);
            && (InvocationsOf(s, k) != [] ==> k in s.clients)
            && (k in s.clients ==> forall i | i in InvocationsOf(s, k) :: i.call == s.clients[k].call)
            && (k in s.clients && !s.clients[k].finished ==> |InvocationsOf(s, k)| <= 1)
  {
    Reachable(es, cfg, k);
    CallIsGenuine(Run(INITIAL, es, cfg), cfg, k);
  }

  /** Every server operation is ready for the next fragment in every reachable state: while its request is
      incomplete, a size it knows lies within its buffer. */
  lemma {:induction false} ServerAlwaysSound(es: seq<Event>, cfg: Config, k: OperationKey)
    requires ValidConfig(cfg) && IsRun(INITIAL, es, cfg)
    ensures S.Sound(OpOf(Run(INITIAL, es, cfg), k))
  {
    Reachable(es, cfg, k);
    assert KeyInv(Run(INITIAL, es, cfg), k, cfg);
  }

  lemma {:induction false} StepKeepsFinished(s: System, e: Event, cfg: Config, k: OperationKey)
    requires ValidConfig(cfg) && Enabled(s, e, cfg) && LifeInv(s, k) && k in s.clients && s.clients[k].finished
    ensures var c := Next(s, e, cfg).clients;
            k in c && c[k].finished && C.OutcomeOf(c[k]) == C.OutcomeOf(s.clients[k])
  {
    if !Concerns(e, k) {
      ElsewhereSame(s, e, cfg, k);
    } else if e.Handler? {
      HandlerKeepsLife(s, e, cfg);
      C.HandlerFrame(s.clients[k], e.e);
    }
  }

  /** A finished operation keeps its outcome until the callback gets it. */
  lemma {:induction false} FinishedIsFinal(s: System, es: seq<Event>, cfg: Config, k: OperationKey)
    requires ValidConfig(cfg) && IsRun(s, es, cfg) && LifeInv(s, k) && k in s.clients && s.clients[k].finished
    ensures var s' := Run(s, es, cfg);
            k in s'.clients && s'.clients[k].finished && C.OutcomeOf(s'.clients[k]) == C.OutcomeOf(s.clients[k])
    decreases |es|
  {
    if es != [] {
      StepKeepsLife(s, es[0], cfg, k);
      StepKeepsFinished(s, es[0], cfg, k);
      FinishedIsFinal(Next(s, es[0], cfg), es[1..], cfg, k);
    }
  }
}
