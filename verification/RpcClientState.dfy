/** One operation of the RPC client as a value, `net/rpc/client.cc`. */
module RpcClientState {
  import opened Options
  import opened Bytes
  import opened RpcWire
  import opened RpcCall
  import opened RetrySchedule

  /** `Unset` is the error an operation holds until it finishes. */
  datatype Result = Unset | TimedOut | Failed(code: nat) | Success

  /** The last four count what keeps the operation alive, one reference each: the handlers of its sends, and the
      handlers of its timer that wait, that are queued because the timer rang, and that are queued because it was
      cancelled. */
  datatype ClientOp = ClientOp(
    call: Call,
    key: Key,
    requestId: nat,
    fragments: seq<Datagram>,
    initialRetry: int,
    retry: Retry,
    assembly: Assembly,
    finished: bool,
    result: Result,
    sends: nat,
    armed: nat,
    rung: nat,
    cancelled: nat)

  function Waits(c: ClientOp): nat {
    c.armed + c.rung + c.cancelled
  }

  function References(c: ClientOp): nat {
    c.sends + Waits(c)
  }

  /** `cancel` of the timer, which `expires_after` does as well: only handlers that still wait are affected. */
  function Cancelled(c: ClientOp): ClientOp {
    c.(armed := 0, cancelled := c.cancelled + c.armed)
  }

  function RequestMessage(c: ClientOp): Message {
    Message(EncodeCall(c.call), c.key, c.requestId, false)
  }

  /** The constructor of the operation. */
  function Start(call: Call, key: Key, requestId: nat, initialRetry: int, timeout: int, fragmentSize: nat): ClientOp
    requires 0 < fragmentSize
  {
    ClientOp(call, key, requestId, Fragments(Message(EncodeCall(call), key, requestId, false), fragmentSize),
             initialRetry, Retry(timeout, 1, 1), NOTHING, false, Unset, 0, 0, 0, 0)
  }

  /** `abort`. */
  function Abort(c: ClientOp, result: Result): ClientOp {
    if c.finished then c else Cancelled(c).(finished := true, result := result)
  }

  /** `send`: the datagrams that go out, unless the timeout has been used up. It does not ask whether the
      operation has finished. */
  function Send(c: ClientOp): (ClientOp, seq<Datagram>) {
    if c.retry.timeout <= 0 then (Abort(c, TimedOut), [])
    else
      (Cancelled(c).(retry := AfterSend(c.retry, c.initialRetry), sends := c.sends + |c.fragments|, armed := 1),
       c.fragments)
  }

  function ResponseNonce(d: Datagram): Nonce {
    Nonce(d.key.requestId, d.offset, true)
  }

  /** `unpack`. A failed decryption may leave anything where the body went. */
  function Unpack(c: ClientOp, d: Datagram, junk: Buffer): ClientOp
    requires |junk| == BodySize(d.body)
  {
    if c.finished then c
    else
      var grown := c.assembly.(buffer := Grown(c.assembly.buffer, d.offset, BodySize(d.body)));
      match Open(c.key, ResponseNonce(d), d.body)
      case None => c.(assembly := grown.(buffer := Pasted(grown.buffer, d.offset, junk)))
      case Some(plain) =>
        var a := Accept(grown, d.offset, plain, d.partial);
        if Complete(a) then Cancelled(c).(assembly := a, finished := true, result := Success)
        else c.(assembly := a)
  }

  /** What the destructor passes to the callback. */
  datatype Outcome = Error(result: Result) | Reply(bytes: Buffer)

  function OutcomeOf(c: ClientOp): Outcome {
    if c.result == Success && c.assembly.size.Some? then Reply(Resized(c.assembly.buffer, c.assembly.size.value))
    else Error(c.result)
  }

  // ----- the life of one client operation

  /** The handler of a send completes; the timer rings and its handler is queued; that handler runs; a handler
      runs after its wait was cancelled; a wait fails; a datagram arrives. */
  datatype ClientEvent = Completes | Rings | Wakes | Cancels | Breaks(code: nat) | Arrive(d: Datagram, junk: Buffer)

  predicate Possible(c: ClientOp, e: ClientEvent) {
    match e
    case Completes => c.sends > 0
    case Rings => c.armed > 0
    case Wakes => c.rung > 0
    case Cancels => c.cancelled > 0
    case Breaks(_) => c.armed > 0
    case Arrive(d, junk) => |junk| == BodySize(d.body)
  }

  /** The operation after an event, and what it sends. A handler's own reference goes when it returns. */
  function React(c: ClientOp, e: ClientEvent): (ClientOp, seq<Datagram>)
    requires Possible(c, e)
  {
    match e
    case Completes => (c.(sends := c.sends - 1), [])
    case Rings => (c.(armed := c.armed - 1, rung := c.rung + 1), [])
    case Wakes => Send(c.(rung := c.rung - 1))
    case Cancels => (c.(cancelled := c.cancelled - 1), [])
    case Breaks(code) => (Abort(c.(armed := c.armed - 1), Failed(code)), [])
    case Arrive(d, junk) => (Unpack(c, d, junk), [])
  }

  predicate AllPossible(c: ClientOp, es: seq<ClientEvent>)
    decreases |es|
  {
    es != [] ==> Possible(c, es[0]) && AllPossible(React(c, es[0]).0, es[1..])
  }

  function ReactAll(c: ClientOp, es: seq<ClientEvent>): ClientOp
    requires AllPossible(c, es)
    decreases |es|
  {
    if es == [] then c else ReactAll(React(c, es[0]).0, es[1..])
  }

  /** Handlers leave the response alone; what they send are the request's fragments. */
  lemma {:induction false} HandlerFrame(c: ClientOp, e: ClientEvent)
    requires Possible(c, e) && !e.Arrive?
    ensures var (c', ds) := React(c, e);
            && c' == c.(retry := c'.retry, finished := c'.finished, result := c'.result, sends := c'.sends,
                        armed := c'.armed, rung := c'.rung, cancelled := c'.cancelled)
            && (ds == [] || ds == c.fragments)
            && (c.finished ==> c'.finished && c'.result == c.result)
            && (!c.finished ==> if c'.finished then c'.result.TimedOut? || c'.result.Failed? else c'.result == c.result)
  {
  }

  /** Once finished, nothing that still happens, not even more sends, changes what the callback will get. */
  lemma {:induction false} OutcomeIsFinal(c: ClientOp, es: seq<ClientEvent>)
    requires AllPossible(c, es) && c.finished
    ensures ReactAll(c, es).finished && OutcomeOf(ReactAll(c, es)) == OutcomeOf(c)
    decreases |es|
  {
    if es != [] {
      OutcomeIsFinal(React(c, es[0]).0, es[1..]);
    }
  }

  /** All events are arrivals of pieces of `m`. */
  ghost predicate AllArrivals(es: seq<ClientEvent>, m: Message) {
    forall e | e in es :: e.Arrive? && |e.junk| == BodySize(e.d.body) && IsPiece(e.d, m)
  }

  lemma {:induction false} ArrivalsPossible(c: ClientOp, es: seq<ClientEvent>, m: Message)
    requires AllArrivals(es, m)
    ensures AllPossible(c, es)
    decreases |es|
  {
    if es != [] {
      assert es[0] in es;
      ArrivalsPossible(React(c, es[0]).0, es[1..], m);
    }
  }

  /** If all fragments of a response arrive, in any order and any number of times, the callback gets it. */
  lemma {:induction false} AllArrivedReplies(c: ClientOp, seen: set<Datagram>, es: seq<ClientEvent>, response: Buffer,
                                             limit: nat)
    requires 0 < limit && !c.finished && !Complete(c.assembly)
    requires var m := Message(response, c.key, c.requestId, true);
             && OffsetsFit(m, limit) && Agrees(c.assembly, response) && HasSeen(c.assembly, seen) && AllArrivals(es, m)
             && (forall d | d in Fragments(m, limit) :: d in seen || exists e | e in es :: e.Arrive? && e.d == d)
    ensures AllPossible(c, es)
    ensures ReactAll(c, es).finished && OutcomeOf(ReactAll(c, es)) == Reply(response)
    decreases |es|
  {
    var m := Message(response, c.key, c.requestId, true);
    ArrivalsPossible(c, es, m);
    if es == [] {
      SeenAllCompletes(c.assembly, m, limit, seen);
    } else {
      var e := es[0];
      assert e in es;
      var d := e.d;
      var a := c.assembly.(buffer := Grown(c.assembly.buffer, d.offset, BodySize(d.body)));
      GrownAgrees(c.assembly, response, d.offset, BodySize(d.body));
      AcceptAgrees(a, d, m);
      AcceptSees(a, seen, d);
      var a' := Accept(a, d.offset, d.body.plain, d.partial);
      if Complete(a') {
        CompleteIsWhole(a', response);
        OutcomeIsFinal(React(c, e).0, es[1..]);
      } else {
        assert forall x | x in Fragments(m, limit) ::
            x in seen + {d} || exists e | e in es[1..] :: e.Arrive? && e.d == x;
        AllArrivedReplies(React(c, e).0, seen + {d}, es[1..], response, limit);
      }
    }
  }
}
