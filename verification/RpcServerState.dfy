/** One operation of the RPC server as a value, `net/rpc/server.cc`. */
module RpcServerState {
  import opened Options
  import opened Bytes
  import opened RpcWire
  import opened RpcCall

  datatype ServerConfig = ServerConfig(
    keystore: map<nat, seq<Key>>,
    handlers: set<Buffer>,
    fragmentSize: nat,
    receiveSize: nat)

  /** `key` is known once a fragment has been opened; `call` is what the handler was given, `response` what
      it answered. */
  datatype ServerOp = ServerOp(
    key: Option<Key>,
    assembly: Assembly,
    call: Option<Call>,
    response: Option<Buffer>,
    buffers: seq<Datagram>)

  const FRESH := ServerOp(None, NOTHING, None, None, [])

  /** What an event makes the server do. */
  datatype Effect = Quiet | Invoke(call: Call) | Respond(buffers: seq<Datagram>)

  function KeysFor(cfg: ServerConfig, fingerprint: nat): seq<Key> {
    if fingerprint in cfg.keystore then cfg.keystore[fingerprint] else []
  }

  /** The keys a fragment is tried with: the operation's own once known, else all with the fingerprint. */
  function Candidates(op: ServerOp, d: Datagram, cfg: ServerConfig): seq<Key> {
    if op.key.Some? then [op.key.value] else KeysFor(cfg, d.key.fingerprint)
  }

  function RequestNonce(d: Datagram): Nonce {
    Nonce(d.key.requestId, d.offset, false)
  }

  /** The first key that opens the body, as an index; the length if none does. */
  function FirstOpening(keys: seq<Key>, nonce: Nonce, b: Body): (i: nat)
    ensures i <= |keys| && forall j | 0 <= j < i :: Open(keys[j], nonce, b).None?
    ensures i < |keys| ==> Open(keys[i], nonce, b).Some?
  {
    if keys == [] then 0
    else if Open(keys[0], nonce, b).Some? then 0
    else 1 + FirstOpening(keys[1..], nonce, b)
  }

  /** The handler reads the request up to its known size. */
  predicate Sound(op: ServerOp) {
    !Complete(op.assembly) && op.assembly.size.Some? ==> op.assembly.size.value <= |op.assembly.buffer|
  }

  /** The buffer after the attempts to open a body: a failed attempt may leave anything where the body went. */
  function Tried(a: Assembly, d: Datagram, failures: nat, junk: Buffer): (r: Assembly)
    requires |junk| == BodySize(d.body)
    ensures |r.buffer| >= d.offset + BodySize(d.body) && |r.buffer| >= |a.buffer|
    ensures r.covered == a.covered && r.size == a.size
  {
    var grown := Grown(a.buffer, d.offset, BodySize(d.body));
    a.(buffer := if failures == 0 then grown else Pasted(grown, d.offset, junk))
  }

  /** `Operation::unpack`. */
  function Unpack(op: ServerOp, d: Datagram, cfg: ServerConfig, junk: Buffer): (r: (ServerOp, Effect))
    requires Sound(op) && |junk| == BodySize(d.body)
    ensures Sound(r.0)
  {
    var keys := Candidates(op, d, cfg);
    var i := FirstOpening(keys, RequestNonce(d), d.body);
    var tried := Tried(op.assembly, d, i, junk);
    if i == |keys| then (op.(assembly := tried), Quiet)
    else Opened(op.(key := Some(keys[i]), assembly := tried), d, Open(keys[i], RequestNonce(d), d.body).value, cfg)
  }

  /** The part of `unpack` after the body has been opened: answer again, collect, or call the handler. */
  function Opened(op: ServerOp, d: Datagram, plain: Buffer, cfg: ServerConfig): (r: (ServerOp, Effect))
    requires Sound(op) && d.offset + |plain| <= |op.assembly.buffer|
    ensures Sound(r.0)
  {
    if Complete(op.assembly) then
      (op.(assembly := op.assembly.(buffer := Pasted(op.assembly.buffer, d.offset, plain))),
       if d.partial then Quiet else Respond(op.buffers))
    else
      var a := Accept(op.assembly, d.offset, plain, d.partial);
      if Complete(a) then Handle(op.(assembly := a), cfg) else (op.(assembly := a), Quiet)
  }

  /** `Operation::handle`: the request is moved out of the operation into the handler. */
  function Handle(op: ServerOp, cfg: ServerConfig): (r: (ServerOp, Effect))
    requires Complete(op.assembly) && op.assembly.size.value <= |op.assembly.buffer|
    ensures Complete(r.0.assembly)
  {
    var call := SplitCall(op.assembly.buffer[..op.assembly.size.value]);
    if call.name !in cfg.handlers then (op, Quiet)
    else (op.(assembly := op.assembly.(buffer := []), call := Some(call)), Invoke(call))
  }

  /** `Operation::pack`, run when the handler calls back. */
  function Pack(op: ServerOp, requestId: nat, response: Buffer, cfg: ServerConfig): (ServerOp, Effect)
    requires op.key.Some? && 0 < cfg.fragmentSize
  {
    var buffers := op.buffers + Fragments(Message(response, op.key.value, requestId, true), cfg.fragmentSize);
    (op.(response := Some(response), buffers := buffers), Respond(buffers))
  }

  /** The handler is given a call at most once: only an event that completes the request invokes it, and a
      completed request stays complete. */
  lemma {:induction false} InvokesOnce(op: ServerOp, d: Datagram, cfg: ServerConfig, junk: Buffer)
    requires Sound(op) && |junk| == BodySize(d.body)
    ensures var (op', e) := Unpack(op, d, cfg, junk);
            && (e.Invoke? ==> !Complete(op.assembly) && Complete(op'.assembly) && op'.call == Some(e.call))
            && (Complete(op.assembly) ==> Complete(op'.assembly))
            && (!e.Invoke? ==> op'.call == op.call)
            && op'.buffers == op.buffers && op'.response == op.response
            && (op.key.Some? ==> op'.key == op.key)
  {
  }

  /** A copy of the last fragment that arrives after the request is complete is answered with the very
      fragments of the answer; other copies are taken in silently. */
  lemma {:induction false} AnswersAgain(op: ServerOp, d: Datagram, m: Message, cfg: ServerConfig, junk: Buffer)
    requires Sound(op) && |junk| == BodySize(d.body) && Complete(op.assembly)
    requires op.key == Some(m.key) && !m.response && IsPiece(d, m)
    ensures Unpack(op, d, cfg, junk).1 == if d.partial then Quiet else Respond(op.buffers)
  {
    assert [m.key][0] == m.key;
    FindsKey([m.key], RequestNonce(d), d.body);
  }

  // ----- the life of one server operation

  datatype ServerEvent = Arrive(d: Datagram, junk: Buffer) | Answer(response: Buffer)

  /** The handler answers once, after it was called. */
  predicate Possible(op: ServerOp, e: ServerEvent, cfg: ServerConfig) {
    match e
    case Arrive(d, junk) => Sound(op) && |junk| == BodySize(d.body)
    case Answer(response) => Sound(op) && op.key.Some? && op.call.Some? && op.response.None? && 0 < cfg.fragmentSize
  }

  function React(op: ServerOp, e: ServerEvent, cfg: ServerConfig, requestId: nat): (r: (ServerOp, Effect))
    requires Possible(op, e, cfg)
    ensures Sound(r.0)
  {
    match e
    case Arrive(d, junk) => Unpack(op, d, cfg, junk)
    case Answer(response) => Pack(op, requestId, response, cfg)
  }

  ghost predicate AllPossible(op: ServerOp, es: seq<ServerEvent>, cfg: ServerConfig, requestId: nat)
    decreases |es|
  {
    es != [] ==> Possible(op, es[0], cfg) && AllPossible(React(op, es[0], cfg, requestId).0, es[1..], cfg, requestId)
  }

  ghost function ReactAll(op: ServerOp, es: seq<ServerEvent>, cfg: ServerConfig, requestId: nat): ServerOp
    requires AllPossible(op, es, cfg, requestId)
    decreases |es|
  {
    if es == [] then op else ReactAll(React(op, es[0], cfg, requestId).0, es[1..], cfg, requestId)
  }

  /** How often the handler is called during a run. */
  ghost function Invocations(op: ServerOp, es: seq<ServerEvent>, cfg: ServerConfig, requestId: nat): nat
    requires AllPossible(op, es, cfg, requestId)
    decreases |es|
  {
    if es == [] then 0
    else
      var (op', e) := React(op, es[0], cfg, requestId);
      (if e.Invoke? then 1 else 0) + Invocations(op', es[1..], cfg, requestId)
  }

  /** Over its whole life a server operation calls the handler at most once. */
  lemma {:induction false} AtMostOneInvocation(op: ServerOp, es: seq<ServerEvent>, cfg: ServerConfig, requestId: nat)
    requires AllPossible(op, es, cfg, requestId)
    ensures Invocations(op, es, cfg, requestId) <= if Complete(op.assembly) then 0 else 1
    decreases |es|
  {
    if es != [] {
      if es[0].Arrive? { InvokesOnce(op, es[0].d, cfg, es[0].junk); }
      AtMostOneInvocation(React(op, es[0], cfg, requestId).0, es[1..], cfg, requestId);
    }
  }

  /** Once the handler has answered, no later datagram changes the answer, its fragments, the key or the call. */
  lemma {:induction false} AnswerIsFinal(op: ServerOp, es: seq<ServerEvent>, cfg: ServerConfig, requestId: nat)
    requires AllPossible(op, es, cfg, requestId) && Complete(op.assembly) && op.key.Some? && op.response.Some?
    ensures var r := ReactAll(op, es, cfg, requestId);
            r.response == op.response && r.buffers == op.buffers && r.call == op.call && r.key == op.key
    decreases |es|
  {
    if es != [] {
      InvokesOnce(op, es[0].d, cfg, es[0].junk);
      AnswerIsFinal(React(op, es[0], cfg, requestId).0, es[1..], cfg, requestId);
    }
  }

  lemma {:induction false} FindsKey(keys: seq<Key>, nonce: Nonce, b: Body)
    requires b.Sealed? && b.nonce == nonce && b.key in keys
    ensures var i := FirstOpening(keys, nonce, b); i < |keys| && keys[i] == b.key
  {
    var j :| 0 <= j < |keys| && keys[j] == b.key;
    assert Open(keys[j], nonce, b).Some?;
  }

  /** A fragment of the request is taken in, or completes the request and calls the handler with it. */
  lemma {:induction false} PieceArrives(op: ServerOp, seen: set<Datagram>, d: Datagram, junk: Buffer, m: Message,
                                        call: Call, cfg: ServerConfig)
    requires m == Message(EncodeCall(call), m.key, m.requestId, false) && 0 !in call.name && call.name in cfg.handlers
    requires Sound(op) && !Complete(op.assembly) && Agrees(op.assembly, m.bytes) && HasSeen(op.assembly, seen)
    requires op.key == Some(m.key) || (op == FRESH && m.key in KeysFor(cfg, m.key.fingerprint))
    requires IsPiece(d, m) && |junk| == BodySize(d.body)
    ensures var op' := Unpack(op, d, cfg, junk).0;
            && op'.key == Some(m.key)
            && (Complete(op'.assembly) ==> op'.call == Some(call))
            && (!Complete(op'.assembly) ==> Agrees(op'.assembly, m.bytes) && HasSeen(op'.assembly, seen + {d}))
  {
    var keys := Candidates(op, d, cfg);
    FindsKey(keys, RequestNonce(d), d.body);
    var i := FirstOpening(keys, RequestNonce(d), d.body);
    var a := Tried(op.assembly, d, i, junk);
    GrownAgrees(op.assembly, m.bytes, d.offset, BodySize(d.body));
    assert Agrees(a, m.bytes);
    AcceptAgrees(a, d, m);
    AcceptSees(a, seen, d);
    var a' := Accept(a, d.offset, d.body.plain, d.partial);
    if Complete(a') {
      CompleteIsWhole(a', m.bytes);
      SplitEncodeIff(call);
    }
  }

  ghost predicate AllArrivals(es: seq<ServerEvent>, m: Message) {
    forall e | e in es :: e.Arrive? && |e.junk| == BodySize(e.d.body) && IsPiece(e.d, m)
  }

  lemma {:induction false} CallStays(op: ServerOp, es: seq<ServerEvent>, m: Message, cfg: ServerConfig)
    requires Sound(op) && Complete(op.assembly) && AllArrivals(es, m)
    ensures AllPossible(op, es, cfg, m.requestId) && ReactAll(op, es, cfg, m.requestId).call == op.call
    decreases |es|
  {
    if es != [] {
      assert es[0] in es;
      InvokesOnce(op, es[0].d, cfg, es[0].junk);
      CallStays(React(op, es[0], cfg, m.requestId).0, es[1..], m, cfg);
    }
  }

  /** If all fragments of a request arrive, in any order and any number of times, the handler gets the call. */
  lemma {:induction false} AllArrivedInvokes(op: ServerOp, seen: set<Datagram>, es: seq<ServerEvent>, m: Message,
                                             call: Call, limit: nat, cfg: ServerConfig)
    requires m == Message(EncodeCall(call), m.key, m.requestId, false) && 0 !in call.name && call.name in cfg.handlers
    requires Sound(op) && !Complete(op.assembly) && Agrees(op.assembly, m.bytes) && HasSeen(op.assembly, seen)
    requires op.key == Some(m.key) || (op == FRESH && m.key in KeysFor(cfg, m.key.fingerprint))
    requires 0 < limit && OffsetsFit(m, limit) && AllArrivals(es, m)
    requires forall d | d in Fragments(m, limit) :: d in seen || exists e | e in es :: e.Arrive? && e.d == d
    ensures AllPossible(op, es, cfg, m.requestId) && ReactAll(op, es, cfg, m.requestId).call == Some(call)
    decreases |es|
  {
    if es == [] {
      SeenAllCompletes(op.assembly, m, limit, seen);
    } else {
      var e := es[0];
      assert e in es;
      PieceArrives(op, seen, e.d, e.junk, m, call, cfg);
      var op' := React(op, e, cfg, m.requestId).0;
      if Complete(op'.assembly) {
        CallStays(op', es[1..], m, cfg);
      } else {
        assert forall x | x in Fragments(m, limit) ::
            x in seen + {e.d} || exists e | e in es[1..] :: e.Arrive? && e.d == x;
        AllArrivedInvokes(op', seen + {e.d}, es[1..], m, call, limit, cfg);
      }
    }
  }
}
