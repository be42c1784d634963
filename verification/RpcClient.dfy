/** `Client::Operation` of `net/rpc/client.cc` as it runs. */
module RpcClient {
  import opened Options
  import opened Bytes
  import opened RpcWire
  import opened RpcCall
  import opened Fibonacci
  import opened RetrySchedule
  import opened RpcClientState

  class Operation {
    const call: Call
    const key: Key
    const requestId: nat
    const initialRetry: int
    const waitSequence: FibonacciSequence
    const requestBuffers: seq<Datagram>
    var timeout: int
    var response: Buffer
    var responseIntervals: set<nat>
    var responseSize: Option<nat>
    var finished: bool
    var result: Result

    // References, each held by a handler that has not run yet.
    var sends: nat
    var armed: nat
    var rung: nat
    var cancelled: nat

    ghost function State(): ClientOp
      reads this, waitSequence
    {
      ClientOp(call, key, requestId, requestBuffers, initialRetry, Retry(timeout, waitSequence.a, waitSequence.b),
               Assembly(response, responseIntervals, responseSize), finished, result, sends, armed, rung, cancelled)
    }

    /** `Client::request` up to the first send: encode the call and cut it into fragments. */
    constructor (call: Call, key: Key, requestId: nat, initialRetry: int, timeout: int, fragmentSize: nat)
      requires 0 < fragmentSize
      ensures fresh(waitSequence) && State() == Start(call, key, requestId, initialRetry, timeout, fragmentSize)
    {
      var bytes := call.request;
      if bytes != [] {
        bytes := bytes + [0];
      }
      bytes := bytes + call.name;
      var buffers := Split(Message(bytes, key, requestId, false), fragmentSize);
      var sequence := new FibonacciSequence();
      this.call, this.key, this.requestId, this.initialRetry := call, key, requestId, initialRetry;
      waitSequence, requestBuffers := sequence, buffers;
      this.timeout := timeout;
      response, responseIntervals, responseSize := [], {}, None;
      finished, result := false, Unset;
      sends, armed, rung, cancelled := 0, 0, 0, 0;
    }

    /** `wait_timer_.cancel()`: handlers that wait are queued as cancelled. */
    method CancelTimer()
      modifies `armed, `cancelled
      ensures State() == RpcClientState.Cancelled(old(State()))
    {
      cancelled := cancelled + armed;
      armed := 0;
    }

    method Abort(ec: Result)
      modifies this
      ensures State() == RpcClientState.Abort(old(State()), ec)
      ensures finished && result == if old(finished) then old(result) else ec
    {
      if finished {
        return;
      }
      finished := true;
      result := ec;
      CancelTimer();
    }

    /** What goes out, and how long until the next try. */
    method Send() returns (ds: seq<Datagram>, wait: int)
      modifies this, waitSequence
      ensures (State(), ds) == RpcClientState.Send(old(State()))
      ensures old(timeout) > 0 ==> ds == requestBuffers && wait == Wait(old(State()).retry, initialRetry)
      ensures old(timeout) <= 0 ==> ds == [] && finished && result == if old(finished) then old(result) else TimedOut
    {
      if timeout <= 0 {
        Abort(TimedOut);
        return [], 0;
      }
      sends := sends + |requestBuffers|;
      wait := if initialRetry * waitSequence.a <= timeout then initialRetry * waitSequence.a else timeout;
      waitSequence.Next();
      timeout := timeout - wait;
      CancelTimer();
      armed := armed + 1;
      ds := requestBuffers;
    }

    /** A handler runs, or the timer rings. The reference it holds is released last; with the last one gone the
        destructor calls back. */
    method Run(e: ClientEvent) returns (ds: seq<Datagram>, released: bool)
      requires !e.Arrive? && Possible(State(), e)
      modifies this, waitSequence
      ensures (State(), ds) == React(old(State()), e)
      ensures released == (References(State()) == 0)
    {
      ds := [];
      match e {
        case Completes => sends := sends - 1;
        case Rings => armed, rung := armed - 1, rung + 1;
        case Wakes =>
          rung := rung - 1;
          var wait;
          ds, wait := Send();
        case Cancels => cancelled := cancelled - 1;
        case Breaks(code) =>
          armed := armed - 1;
          Abort(Failed(code));
      }
      released := sends + armed + rung + cancelled == 0;
    }

    method Unpack(d: Datagram, junk: Buffer)
      requires |junk| == BodySize(d.body)
      modifies this
      ensures State() == RpcClientState.Unpack(old(State()), d, junk)
    {
      if finished {
        return;
      }
      var bodySize := BodySize(d.body);
      if |response| < d.offset + bodySize {
        response := Resized(response, d.offset + bodySize);
      }
      var plain := Open(key, Nonce(d.key.requestId, d.offset, true), d.body);
      if plain.None? {
        response := Pasted(response, d.offset, junk);
        return;
      }
      Take(d, plain.value);
    }

    /** The part of `unpack` after the body has been opened. */
    method Take(d: Datagram, plain: Buffer)
      requires !finished && d.offset + |plain| <= |response|
      modifies this
      ensures var a := Accept(old(State()).assembly, d.offset, plain, d.partial);
              State() == if Complete(a)
                         then RpcClientState.Cancelled(old(State())).(assembly := a, finished := true,
                                                                      result := Success)
                         else old(State()).(assembly := a)
    {
      response := Pasted(response, d.offset, plain);
      responseIntervals := responseIntervals + Interval(d.offset, d.offset + |plain|);
      if !d.partial {
        responseSize := Some(d.offset + |plain|);
      }
      if responseSize.Some? && forall i | 0 <= i < responseSize.value :: i in responseIntervals {
        finished := true;
        result := Success;
        CancelTimer();
      }
    }

    /** The destructor's call of the callback. */
    method Finish() returns (outcome: Outcome)
      modifies this
      ensures outcome == OutcomeOf(old(State()))
    {
      if result != Success || responseSize.None? {
        return Error(result);
      }
      response := Resized(response, responseSize.value);
      outcome := Reply(response);
    }
  }
}
