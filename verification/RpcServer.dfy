/** `net/rpc/server.cc` as it runs: operations found or created per datagram, changed in place. */
module RpcServer {
  import opened Options
  import opened Bytes
  import opened RpcWire
  import opened RpcCall
  import opened RpcServerState

  class Operation {
    const opKey: OperationKey
    var key: Option<Key>
    var request: Buffer
    var requestIntervals: set<nat>
    var requestSize: Option<nat>
    var responseBuffers: seq<Datagram>
    ghost var call: Option<Call>
    ghost var response: Option<Buffer>

    ghost function State(): ServerOp
      reads this
    {
      ServerOp(key, Assembly(request, requestIntervals, requestSize), call, response, responseBuffers)
    }

    constructor (opKey: OperationKey)
      ensures this.opKey == opKey && State() == FRESH
    {
      this.opKey := opKey;
      key, request, requestIntervals, requestSize := None, [], {}, None;
      responseBuffers, call, response := [], None, None;
    }

    /** Try to open a body with each key in turn, into the request buffer. */
    method TryKeys(keys: seq<Key>, nonce: Nonce, d: Datagram, junk: Buffer) returns (plain: Option<Buffer>)
      requires |junk| == BodySize(d.body) && d.offset + BodySize(d.body) <= |request|
      modifies `key, `request
      ensures |request| == old(|request|)
      ensures var i := FirstOpening(keys, nonce, d.body);
              && request == (if i == 0 then old(request) else Pasted(old(request), d.offset, junk))
              && if i == |keys| then plain == None && key == old(key)
                 else plain == Open(keys[i], nonce, d.body) && plain.Some? && key == Some(keys[i])
    {
      plain := None;
      for j := 0 to |keys|
        invariant forall i | 0 <= i < j :: Open(keys[i], nonce, d.body).None?
        invariant plain == None && key == old(key) && |request| == old(|request|)
        invariant request == if j == 0 then old(request) else Pasted(old(request), d.offset, junk)
      {
        plain := Open(keys[j], nonce, d.body);
        if plain.Some? {
          key := Some(keys[j]);
          OpensFirst(keys, nonce, d.body, j);
          return;
        }
        PasteAgain(old(request), d.offset, junk);
        request := Pasted(request, d.offset, junk);
      }
      OpensFirst(keys, nonce, d.body, |keys|);
    }

    method Unpack(d: Datagram, cfg: ServerConfig, junk: Buffer) returns (effect: Effect)
      requires Sound(State()) && |junk| == BodySize(d.body)
      modifies this
      ensures (State(), effect) == RpcServerState.Unpack(old(State()), d, cfg, junk)
    {
      var bodySize := BodySize(d.body);
      if |request| < d.offset + bodySize {
        request := Resized(request, d.offset + bodySize);
      }
      var nonce := Nonce(d.key.requestId, d.offset, false);
      var keys := if key.Some? then [key.value] else KeysFor(cfg, d.key.fingerprint);
      var plain := TryKeys(keys, nonce, d, junk);
      if plain.None? {
        return Quiet;
      }
      effect := Take(d, plain.value, cfg);
    }

    /** The part of `unpack` after the body has been opened. */
    method Take(d: Datagram, plain: Buffer, cfg: ServerConfig) returns (effect: Effect)
      requires Sound(State()) && d.offset + |plain| <= |request|
      modifies this
      ensures (State(), effect) == Opened(old(State()), d, plain, cfg)
    {
      request := Pasted(request, d.offset, plain);
      if requestSize.Some? && forall i | 0 <= i < requestSize.value :: i in requestIntervals {
        return if d.partial then Quiet else Respond(responseBuffers);
      }
      requestIntervals := requestIntervals + Interval(d.offset, d.offset + |plain|);
      if !d.partial {
        requestSize := Some(d.offset + |plain|);
      }
      if requestSize.Some? && forall i | 0 <= i < requestSize.value :: i in requestIntervals {
        effect := Handle(cfg);
        return;
      }
      return Quiet;
    }

    /** Split method and request and hand the request over. */
    method Handle(cfg: ServerConfig) returns (effect: Effect)
      requires Complete(State().assembly) && requestSize.value <= |request|
      modifies `request, `call
      ensures (State(), effect) == RpcServerState.Handle(old(State()), cfg)
    {
      var size := requestSize.value;
      var start := FindMethod(request, size);
      var name := request[start..size];
      var requestEnd := if start == 0 then 0 else start - 1;
      assert request[..size][start..] == name && request[..size][..requestEnd] == request[..requestEnd];
      if name !in cfg.handlers {
        return Quiet;
      }
      effect := Invoke(Call(name, request[..requestEnd]));
      call := Some(effect.call);
      request := [];
    }

    /** The handler's callback: fragment the answer and send it. */
    method Pack(answer: Buffer, cfg: ServerConfig) returns (effect: Effect)
      requires key.Some? && 0 < cfg.fragmentSize
      modifies `responseBuffers, `response
      ensures (State(), effect) == RpcServerState.Pack(old(State()), opKey.requestId, answer, cfg)
    {
      var ds := Split(Message(answer, key.value, opKey.requestId, true), cfg.fragmentSize);
      responseBuffers := responseBuffers + ds;
      response := Some(answer);
      effect := Respond(responseBuffers);
    }
  }

  lemma {:induction false} OpensFirst(keys: seq<Key>, nonce: Nonce, b: Body, j: nat)
    requires j <= |keys| && (forall i | 0 <= i < j :: Open(keys[i], nonce, b).None?)
    requires j < |keys| ==> Open(keys[j], nonce, b).Some?
    ensures FirstOpening(keys, nonce, b) == j
  {
  }

  lemma {:induction false} PasteAgain(b: Buffer, offset: nat, bytes: Buffer)
    requires offset + |bytes| <= |b|
    ensures Pasted(Pasted(b, offset, bytes), offset, bytes) == Pasted(b, offset, bytes)
  {
  }

  class Server {
    const cfg: ServerConfig
    var operations: map<OperationKey, Operation>

    /** Every operation is filed under its own key, so no two keys share one. */
    ghost predicate Good()
      reads this, operations.Values
    {
      forall k | k in operations :: operations[k].opKey == k && Sound(operations[k].State())
    }

    /** The operations as values. */
    ghost function View(): map<OperationKey, ServerOp>
      reads this, operations.Values
    {
      map k | k in operations :: operations[k].State()
    }

    constructor (cfg: ServerConfig)
      ensures Good() && View() == map[] && this.cfg == cfg
    {
      this.cfg := cfg;
      operations := map[];
    }

    /** `Server::dispatch`. An operation that could not open its first fragment has no owner and goes away. */
    method Dispatch(d: Datagram, junk: Buffer) returns (effect: Effect)
      requires Good() && |junk| == BodySize(d.body)
      modifies this, operations.Values
      ensures Good()
      ensures var op := if d.key in old(View()) then old(View())[d.key] else FRESH;
              var (op', e) := RpcServerState.Unpack(op, d, cfg, junk);
              && effect == e
              && View() == if op'.key.None? && d.key !in old(View()) then old(View()) else old(View())[d.key := op']
    {
      if d.key in operations {
        effect := DispatchKnown(d, junk);
      } else {
        effect := DispatchNew(d, junk);
      }
    }

    method DispatchKnown(d: Datagram, junk: Buffer) returns (effect: Effect)
      requires Good() && |junk| == BodySize(d.body) && d.key in operations
      modifies operations.Values
      ensures Good()
      ensures var (op', e) := RpcServerState.Unpack(old(View())[d.key], d, cfg, junk);
              effect == e && View() == old(View())[d.key := op']
    {
      var op := operations[d.key];
      effect := op.Unpack(d, cfg, junk);
      assert forall k | k in operations && k != d.key :: operations[k] != op;
    }

    method DispatchNew(d: Datagram, junk: Buffer) returns (effect: Effect)
      requires Good() && |junk| == BodySize(d.body) && d.key !in operations
      modifies this
      ensures Good()
      ensures var (op', e) := RpcServerState.Unpack(FRESH, d, cfg, junk);
              effect == e && View() == if op'.key.None? then old(View()) else old(View())[d.key := op']
    {
      var op;
      op, effect := Probe(d, junk);
      if op.key.Some? {
        Register(op);
      }
    }

    /** Create an operation and give it its first fragment. */
    method Probe(d: Datagram, junk: Buffer) returns (op: Operation, effect: Effect)
      requires |junk| == BodySize(d.body)
      ensures fresh(op) && op.opKey == d.key && Sound(op.State())
      ensures (op.State(), effect) == RpcServerState.Unpack(FRESH, d, cfg, junk)
    {
      op := new Operation(d.key);
      effect := op.Unpack(d, cfg, junk);
    }

    method Register(op: Operation)
      requires Good() && op.opKey !in operations && Sound(op.State())
      modifies this
      ensures Good() && View() == old(View())[op.opKey := op.State()]
    {
      operations := operations[op.opKey := op];
    }
  }
}
