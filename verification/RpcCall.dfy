/** How a call travels as one byte string: the request, a zero byte, the method name. */
module RpcCall {
  import opened Bytes
  import opened Sequences

  datatype Call = Call(name: Buffer, request: Buffer)

  /** `Client::request`: no separator for an empty request. */
  function EncodeCall(c: Call): Buffer {
    (if c.request != [] then c.request + [0] else []) + c.name
  }

  /** The backward scan of the server: stop behind the last zero byte before `n`, or at the start. */
  function ScanBack(bytes: Buffer, n: nat): (start: nat)
    requires n <= |bytes|
    ensures start <= n && forall i | start <= i < n :: bytes[i] != 0
    ensures start > 0 ==> bytes[start - 1] == 0
  {
    if n > 0 && bytes[n - 1] != 0 then ScanBack(bytes, n - 1) else n
  }

  /** `Server::Operation::handle` splits method and request. */
  function SplitCall(bytes: Buffer): Call {
    var start := ScanBack(bytes, |bytes|);
    Call(bytes[start..], bytes[..if start == 0 then 0 else start - 1])
  }

  /** The server recovers the call exactly when the method name contains no zero byte. */
  lemma {:induction false} SplitEncodeIff(c: Call)
    ensures SplitCall(EncodeCall(c)) == c <==> 0 !in c.name
  {
    if 0 !in c.name {
      if c.request == [] {
        assert EncodeCall(c) == c.name;
        SplitAfter([], c.name);
      } else {
        SplitAfter(c.request + [0], c.name);
        assert (c.request + [0])[..|c.request|] == c.request;
      }
    } else {
      SplitHasNoZero(EncodeCall(c));
    }
  }

  /** The bytes of a call: request, zero byte, name; and for an empty request the name alone. */
  lemma {:induction false} CallBytes(c: Call)
    ensures var s, n := EncodeCall(c), |c.request|;
            if n == 0 then s == c.name
            else |s| == n + 1 + |c.name| && s[..n] == c.request && s[n] == 0 && s[n + 1..] == c.name
  {
    var s, n := EncodeCall(c), |c.request|;
    if n > 0 {
      TakeOfAppend(c.request + [0], c.name, n);
      TakeOfAppend(c.request, [0], n);
      assert s[n] == (c.request + [0])[n];
      assert s[n + 1..] == c.name;
    } else {
      assert [] + c.name == c.name;
    }
  }

  /** The split finds a name without zero bytes behind a zero byte, or at the start. */
  lemma {:induction false} SplitAfter(front: Buffer, name: Buffer)
    requires 0 !in name && (front != [] ==> front[|front| - 1] == 0)
    ensures SplitCall(front + name) == Call(name, front[..if front == [] then 0 else |front| - 1])
  {
    var bytes := front + name;
    var start := ScanBack(bytes, |bytes|);
    assert front != [] ==> bytes[|front| - 1] == 0;
    assert forall i | |front| <= i < |bytes| :: bytes[i] in name;
    assert bytes[|front|..] == name;
    TakeOfAppend(front, name, if front == [] then 0 else |front| - 1);
  }

  lemma {:induction false} SplitHasNoZero(bytes: Buffer)
    ensures 0 !in SplitCall(bytes).name
  {
    var start := ScanBack(bytes, |bytes|);
    forall b | b in bytes[start..] ensures b != 0 {
      var i :| 0 <= i < |bytes| - start && bytes[start..][i] == b;
      assert bytes[start + i] == b;
    }
  }

  /** The scan as the loop it is. */
  method FindMethod(bytes: Buffer, size: nat) returns (start: nat)
    requires size <= |bytes|
    ensures start == ScanBack(bytes[..size], size)
  {
    start := size;
    while start != 0 && bytes[start - 1] != 0
      invariant start <= size
      invariant ScanBack(bytes[..size], size) == ScanBack(bytes[..size], start)
    {
      start := start - 1;
    }
  }
}
