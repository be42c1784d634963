/** Clients and a server over a network that loses, duplicates, delays and reorders datagrams. */
module RpcSystem {
  import opened Options
  import opened Bytes
  import opened RpcWire
  import opened RpcCall
  import opened RetrySchedule
  import C = RpcClientState
  import S = RpcServerState

  datatype Config = Config(fragmentSize: nat, receiveSize: nat, server: S.ServerConfig)

  /** Fragments are not empty and fit the receive buffer of the other side. */
  predicate ValidConfig(cfg: Config) {
    && 0 < cfg.fragmentSize && cfg.fragmentSize + ENCRYPT_OVERHEAD + HEADER_SIZE <= cfg.server.receiveSize
    && 0 < cfg.server.fragmentSize && cfg.server.fragmentSize + ENCRYPT_OVERHEAD + HEADER_SIZE <= cfg.receiveSize
  }

  /** A call of a handler and, once it has called back, its answer. */
  datatype Invocation = Invocation(call: Call, response: Option<Buffer>)

  /** `clients` holds every operation ever started, `operations` the keys of those that exist, and `callbacks`
      what each callback was called with, call by call. A datagram that was sent is in `toServer` or `toClient`
      until the last copy of it is lost: it may arrive any number of times, in any order, or never. */
  datatype System = System(
    clients: map<OperationKey, C.ClientOp>,
    operations: set<OperationKey>,
    server: map<OperationKey, S.ServerOp>,
    toServer: set<Datagram>,
    toClient: set<Datagram>,
    invocations: map<OperationKey, seq<Invocation>>,
    callbacks: map<OperationKey, seq<C.Outcome>>)

  const INITIAL := System(map[], {}, map[], {}, {}, map[], map[])

  datatype Event =
    | Request(k: OperationKey, call: Call, key: Key, initialRetry: int, timeout: int)
    | Handler(k: OperationKey, e: C.ClientEvent)
    | ClientGets(d: Datagram, junk: Buffer)
    | ServerGets(d: Datagram, junk: Buffer)
    | Answer(k: OperationKey, response: Buffer)
    | Expire(k: OperationKey)
    | LoseRequest(d: Datagram)
    | LoseResponse(d: Datagram)

  function KeyOf(e: Event): OperationKey {
    if e.Request? || e.Handler? || e.Answer? || e.Expire? then e.k else e.d.key
  }

  function CallbacksOf(s: System, k: OperationKey): seq<C.Outcome> {
    if k in s.callbacks then s.callbacks[k] else []
  }

  function InvocationsOf(s: System, k: OperationKey): seq<Invocation> {
    if k in s.invocations then s.invocations[k] else []
  }

  function RequestOf(e: Event): Message
    requires e.Request?
  {
    Message(EncodeCall(e.call), e.key, e.k.requestId, false)
  }

  function ResponseOf(op: S.ServerOp, k: OperationKey, response: Buffer): Message
    requires op.key.Some?
  {
    Message(response, op.key.value, k.requestId, true)
  }

  /** When an event can happen. A server operation outlives the client operation it serves. */
  ghost predicate Enabled(s: System, e: Event, cfg: Config)
    requires ValidConfig(cfg)
  {
    match e
    case Request(k, call, key, _, _) =>
      k !in s.clients && OpKeyOf(RequestOf(e)) == k && 0 !in call.name && OffsetsFit(RequestOf(e), cfg.fragmentSize)
    case Handler(k, e) => k in s.clients && !e.Arrive? && C.Possible(s.clients[k], e)
    case ClientGets(d, junk) => d in s.toClient && |junk| == BodySize(Received(d, cfg.receiveSize).body)
    case ServerGets(d, junk) =>
      && d in s.toServer && |junk| == BodySize(Received(d, cfg.server.receiveSize).body)
      && S.Sound(OpOf(s, d.key))
    case Answer(k, response) =>
      && k in s.server && s.server[k].key.Some? && s.server[k].call.Some? && s.server[k].response.None?
      && OffsetsFit(ResponseOf(s.server[k], k, response), cfg.server.fragmentSize)
    case Expire(k) =>
      && k in s.server && !(s.server[k].call.Some? && s.server[k].response.None?)
      && (k in s.clients ==> s.clients[k].finished)
    case LoseRequest(d) => d in s.toServer
    case LoseResponse(d) => d in s.toClient
  }

  function SetOf(ds: seq<Datagram>): set<Datagram> {
    set d | d in ds
  }

  function Sent(s: System, k: OperationKey, r: (C.ClientOp, seq<Datagram>)): System {
    s.(clients := s.clients[k := r.0], toServer := s.toServer + SetOf(r.1))
  }

  /** A reference to the operation goes. With the last one the destructor forgets the operation and calls back. */
  function Released(s: System, k: OperationKey): System
    requires k in s.clients
  {
    if C.References(s.clients[k]) > 0 then s
    else s.(operations := s.operations - {k},
            callbacks := s.callbacks[k := CallbacksOf(s, k) + [C.OutcomeOf(s.clients[k])]])
  }

  function Answered(invs: seq<Invocation>, response: Buffer): seq<Invocation> {
    if invs == [] then [] else invs[..|invs| - 1] + [invs[|invs| - 1].(response := Some(response))]
  }

  /** The server operation for `k`, or the one that a fragment would create. */
  function OpOf(s: System, k: OperationKey): S.ServerOp {
    if k in s.server then s.server[k] else S.FRESH
  }

  /** The operation and its effect after a fragment; an operation that has opened nothing is dropped again. */
  function Registered(s: System, k: OperationKey, r: (S.ServerOp, S.Effect)): System {
    if r.0.key.None? then s
    else
      var s1 := s.(server := s.server[k := r.0]);
      match r.1
      case Quiet => s1
      case Invoke(call) => s1.(invocations := s.invocations[k := InvocationsOf(s, k) + [Invocation(call, None)]])
      case Respond(buffers) => s1.(toClient := s.toClient + SetOf(buffers))
  }

  /** `Server::dispatch`: find or create the operation and let it unpack the fragment. */
  function Dispatched(s: System, d: Datagram, junk: Buffer, cfg: Config): System
    requires |junk| == BodySize(d.body) && S.Sound(OpOf(s, d.key))
  {
    Registered(s, d.key, S.Unpack(OpOf(s, d.key), d, cfg.server, junk))
  }

  ghost function Next(s: System, e: Event, cfg: Config): System
    requires ValidConfig(cfg) && Enabled(s, e, cfg)
  {
    match e
    case Request(k, call, key, initialRetry, timeout) =>
      var c := C.Start(call, key, k.requestId, initialRetry, timeout, cfg.fragmentSize);
      Released(Sent(s.(operations := s.operations + {k}), k, C.Send(c)), k)
    case Handler(k, e) => Released(Sent(s, k, C.React(s.clients[k], e)), k)
    case ClientGets(d, junk) =>
      if d.key in s.operations && d.key in s.clients
      then s.(clients := s.clients[d.key := C.Unpack(s.clients[d.key], Received(d, cfg.receiveSize), junk)])
      else s
    case ServerGets(d, junk) => Dispatched(s, Received(d, cfg.server.receiveSize), junk, cfg)
    case Answer(k, response) =>
      var (op, effect) := S.Pack(s.server[k], k.requestId, response, cfg.server);
      s.(server := s.server[k := op], toClient := s.toClient + SetOf(op.buffers),
         invocations := s.invocations[k := Answered(InvocationsOf(s, k), response)])
    case Expire(k) => s.(server := s.server - {k})
    case LoseRequest(d) => s.(toServer := s.toServer - {d})
    case LoseResponse(d) => s.(toClient := s.toClient - {d})
  }

  /** A datagram for the server leaves the clients alone. */
  lemma {:induction false} RegisteredFrame(s: System, k: OperationKey, r: (S.ServerOp, S.Effect))
    ensures var s' := Registered(s, k, r);
            && s' == s.(server := s'.server, toClient := s'.toClient, invocations := s'.invocations)
            && (r.0.key.Some? ==>
                  && s'.server == s.server[k := r.0]
                  && s'.toClient == s.toClient + (if r.1.Respond? then SetOf(r.1.buffers) else {}))
  {
  }

  lemma {:induction false} DispatchLeavesClients(s: System, d: Datagram, junk: Buffer, cfg: Config)
    requires |junk| == BodySize(d.body) && S.Sound(OpOf(s, d.key))
    ensures var s' := Dispatched(s, d, junk, cfg);
            s' == s.(server := s'.server, toClient := s'.toClient, invocations := s'.invocations)
  {
    RegisteredFrame(s, d.key, S.Unpack(OpOf(s, d.key), d, cfg.server, junk));
  }

  // ----- runs

  ghost predicate IsRun(s: System, es: seq<Event>, cfg: Config)
    requires ValidConfig(cfg)
    decreases |es|
  {
    es != [] ==> Enabled(s, es[0], cfg) && IsRun(Next(s, es[0], cfg), es[1..], cfg)
  }

  ghost function Run(s: System, es: seq<Event>, cfg: Config): System
    requires ValidConfig(cfg) && IsRun(s, es, cfg)
    decreases |es|
  {
    if es == [] then s else Run(Next(s, es[0], cfg), es[1..], cfg)
  }

  lemma {:induction false} RunCons(s: System, e: Event, rest: seq<Event>, cfg: Config)
    requires ValidConfig(cfg) && Enabled(s, e, cfg) && IsRun(Next(s, e, cfg), rest, cfg)
    ensures IsRun(s, [e] + rest, cfg) && Run(s, [e] + rest, cfg) == Run(Next(s, e, cfg), rest, cfg)
  {
    assert ([e] + rest)[1..] == rest;
  }

  lemma {:induction false} RunAppend(s: System, a: seq<Event>, b: seq<Event>, cfg: Config)
    requires ValidConfig(cfg) && IsRun(s, a, cfg) && IsRun(Run(s, a, cfg), b, cfg)
    ensures IsRun(s, a + b, cfg) && Run(s, a + b, cfg) == Run(Run(s, a, cfg), b, cfg)
    decreases |a|
  {
    if a == [] {
      assert a + b == b;
    } else {
      TailOfAppend(a, b);
      RunAppend(Next(s, a[0], cfg), a[1..], b, cfg);
    }
  }

  lemma {:induction false} TailOfAppend(a: seq<Event>, b: seq<Event>)
    requires a != []
    ensures (a + b)[0] == a[0] && (a + b)[1..] == a[1..] + b
  {
  }
}
