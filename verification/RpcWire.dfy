/** Datagrams of the RPC protocol, fragmenting and reassembly: the parts that `net/rpc/client.cc` and
    `net/rpc/server.cc` share. */
module RpcWire {
  import opened Options
  import opened Bytes
  import opened Sequences

  const HEADER_SIZE: nat := 24
  const ENCRYPT_OVERHEAD: nat := 16
  const OFFSET_LIMIT: nat := 0x1_0000

  datatype Key = Key(id: nat, fingerprint: nat)

  datatype OperationKey = OperationKey(fingerprint: nat, requestId: nat)

  /** The AEAD nonce: request id, 16-bit offset, and a byte that tells responses from requests. */
  datatype Nonce = Nonce(requestId: nat, offset: nat, response: bool)

  /** An encrypted body. `Cut` is one that the receive buffer truncated. */
  datatype Body = Sealed(key: Key, nonce: Nonce, plain: Buffer) | Cut(size: nat)

  function BodySize(b: Body): nat {
    if b.Sealed? then |b.plain| + ENCRYPT_OVERHEAD else b.size
  }

  /** `Key::decrypt`: succeeds only with the key and the nonce that the body was sealed with. */
  function Open(key: Key, nonce: Nonce, b: Body): Option<Buffer> {
    if b.Sealed? && b.key == key && b.nonce == nonce then Some(b.plain) else None
  }

  datatype Datagram = Datagram(key: OperationKey, offset: nat, partial: bool, body: Body)

  /** What arrives of a datagram in a receive buffer of `size` bytes. */
  function Received(d: Datagram, size: nat): Datagram
    requires HEADER_SIZE <= size
  {
    if HEADER_SIZE + BodySize(d.body) <= size then d else d.(body := Cut(size - HEADER_SIZE))
  }

  // ----- fragmenting

  /** One message under way: its bytes and what its fragments are sealed with. */
  datatype Message = Message(bytes: Buffer, key: Key, requestId: nat, response: bool)

  function OpKeyOf(m: Message): OperationKey {
    OperationKey(m.key.fingerprint, m.requestId)
  }

  function FragmentSize(m: Message, offset: nat, limit: nat): nat
    requires offset <= |m.bytes|
  {
    if |m.bytes| - offset <= limit then |m.bytes| - offset else limit
  }

  /** The fragment that starts at `offset`. The header has 16 bits for the offset. */
  function Fragment(m: Message, offset: nat, limit: nat): Datagram
    requires offset <= |m.bytes|
  {
    var n := FragmentSize(m, offset, limit);
    Datagram(OpKeyOf(m), offset % OFFSET_LIMIT, offset + n < |m.bytes|,
             Sealed(m.key, Nonce(m.requestId, offset % OFFSET_LIMIT, m.response), Slice(m.bytes, offset, n)))
  }

  /** All fragments from `offset` on; an empty message still has one. */
  function FragmentsFrom(m: Message, offset: nat, limit: nat): seq<Datagram>
    requires 0 < limit && offset <= |m.bytes|
    decreases |m.bytes| - offset
  {
    var n := FragmentSize(m, offset, limit);
    [Fragment(m, offset, limit)] + if offset + n < |m.bytes| then FragmentsFrom(m, offset + n, limit) else []
  }

  function Fragments(m: Message, limit: nat): seq<Datagram>
    requires 0 < limit
  {
    FragmentsFrom(m, 0, limit)
  }

  /** The fragmenting loop of `Client::Operation` and `Server::Operation::pack`. */
  method Split(m: Message, limit: nat) returns (ds: seq<Datagram>)
    requires 0 < limit
    ensures ds == Fragments(m, limit)
  {
    ds := [];
    var offset, more := 0, true;
    while more
      invariant offset <= |m.bytes|
      invariant if more then ds + FragmentsFrom(m, offset, limit) == Fragments(m, limit) else ds == Fragments(m, limit)
      decreases more, |m.bytes| - offset
    {
      var d, size := Piece(m, offset, limit);
      SplitStep(m, offset, limit, ds, Fragments(m, limit));
      ds := ds + [d];
      offset := offset + size;
      more := offset < |m.bytes|;
    }
  }

  /** One pass of that loop. */
  method Piece(m: Message, offset: nat, limit: nat) returns (d: Datagram, size: nat)
    requires 0 < limit && offset <= |m.bytes|
    ensures d == Fragment(m, offset, limit) && size == FragmentSize(m, offset, limit)
  {
    size := if |m.bytes| - offset <= limit then |m.bytes| - offset else limit;
    var nonce := Nonce(m.requestId, offset % OFFSET_LIMIT, m.response);
    SliceIs(m.bytes, offset, size);
    d := Datagram(OpKeyOf(m), offset % OFFSET_LIMIT, offset + size < |m.bytes|,
                  Sealed(m.key, nonce, m.bytes[offset..offset + size]));
  }

  lemma {:induction false} SplitStep(m: Message, offset: nat, limit: nat, ds: seq<Datagram>, all: seq<Datagram>)
    requires 0 < limit && offset <= |m.bytes| && ds + FragmentsFrom(m, offset, limit) == all
    ensures var n, d := FragmentSize(m, offset, limit), Fragment(m, offset, limit);
            if offset + n < |m.bytes| then (ds + [d]) + FragmentsFrom(m, offset + n, limit) == all else ds + [d] == all
  {
    var n, d := FragmentSize(m, offset, limit), Fragment(m, offset, limit);
    if offset + n < |m.bytes| { Associate(ds, [d], FragmentsFrom(m, offset + n, limit)); }
  }

  /** The offset of the last fragment of a message of `size` bytes. */
  function LastOffset(size: nat, limit: nat): nat
    requires 0 < limit
  {
    if size <= limit then 0 else limit + LastOffset(size - limit, limit)
  }

  /** Fragments can be told apart by their 16-bit offsets. */
  predicate OffsetsFit(m: Message, limit: nat)
    requires 0 < limit
  {
    LastOffset(|m.bytes|, limit) < OFFSET_LIMIT
  }

  /** `d` is the piece of `m` at the offset it carries. */
  ghost predicate IsPiece(d: Datagram, m: Message) {
    && d.key == OpKeyOf(m) && d.body.Sealed?
    && d.body.key == m.key && d.body.nonce == Nonce(m.requestId, d.offset, m.response)
    && d.offset + |d.body.plain| <= |m.bytes|
    && d.body.plain == m.bytes[d.offset..d.offset + |d.body.plain|]
    && (!d.partial ==> d.offset + |d.body.plain| == |m.bytes|)
  }

  lemma {:induction false} FragmentIsPiece(m: Message, offset: nat, limit: nat)
    requires offset <= |m.bytes| && offset < OFFSET_LIMIT
    ensures IsPiece(Fragment(m, offset, limit), m)
    ensures BodySize(Fragment(m, offset, limit).body) <= limit + ENCRYPT_OVERHEAD
  {
    assert offset % OFFSET_LIMIT == offset;
    SliceIs(m.bytes, offset, FragmentSize(m, offset, limit));
  }

  /** `d` is the fragment at `offset` or a later one. */
  predicate Among(m: Message, offset: nat, limit: nat, d: Datagram)
    requires 0 < limit && offset <= |m.bytes|
    decreases |m.bytes| - offset
  {
    d == Fragment(m, offset, limit) || (offset + limit < |m.bytes| && Among(m, offset + limit, limit, d))
  }

  lemma {:induction false} InFragments(m: Message, offset: nat, limit: nat, d: Datagram)
    requires 0 < limit && offset <= |m.bytes|
    ensures d in FragmentsFrom(m, offset, limit) <==> Among(m, offset, limit, d)
    decreases |m.bytes| - offset
  {
    var rest := FirstAndRest(m, offset, limit);
    InTail(Fragment(m, offset, limit), rest, d);
    if offset + limit < |m.bytes| { InFragments(m, offset + limit, limit, d); }
  }

  lemma {:induction false} FirstAndRest(m: Message, offset: nat, limit: nat) returns (rest: seq<Datagram>)
    requires 0 < limit && offset <= |m.bytes|
    ensures FragmentsFrom(m, offset, limit) == [Fragment(m, offset, limit)] + rest
    ensures rest == if offset + limit < |m.bytes| then FragmentsFrom(m, offset + limit, limit) else []
  {
    rest := if offset + limit < |m.bytes| then FragmentsFrom(m, offset + limit, limit) else [];
  }

  lemma {:induction false} InTail<T>(head: T, tail: seq<T>, x: T)
    ensures x in [head] + tail <==> x == head || x in tail
  {
  }

  lemma {:induction false} AmongArePieces(m: Message, offset: nat, limit: nat, d: Datagram)
    requires 0 < limit && offset <= |m.bytes| && Among(m, offset, limit, d)
    requires offset + LastOffset(|m.bytes| - offset, limit) < OFFSET_LIMIT
    ensures IsPiece(d, m) && BodySize(d.body) <= limit + ENCRYPT_OVERHEAD
    decreases |m.bytes| - offset
  {
    if d == Fragment(m, offset, limit) {
      FragmentIsPiece(m, offset, limit);
    } else {
      AmongArePieces(m, offset + limit, limit, d);
    }
  }

  /** Every fragment is a piece of its message. */
  lemma {:induction false} FragmentsArePieces(m: Message, limit: nat, d: Datagram)
    requires 0 < limit && OffsetsFit(m, limit) && d in Fragments(m, limit)
    ensures IsPiece(d, m) && BodySize(d.body) <= limit + ENCRYPT_OVERHEAD
  {
    InFragments(m, 0, limit, d);
    AmongArePieces(m, 0, limit, d);
  }

  lemma {:induction false} AmongIs(m: Message, offset: nat, limit: nat, d: Datagram)
    requires 0 < limit && offset <= |m.bytes| && Among(m, offset, limit, d)
    requires offset + LastOffset(|m.bytes| - offset, limit) < OFFSET_LIMIT
    ensures d.offset <= |m.bytes| && d == Fragment(m, d.offset, limit)
    decreases |m.bytes| - offset
  {
    if d == Fragment(m, offset, limit) {
      FirstFragment(m, offset, limit);
    } else {
      AmongIs(m, offset + limit, limit, d);
    }
  }

  /** A fragment is sealed with a nonce of its own, and those of requests and responses differ. */
  lemma {:induction false} NoncesApart(m: Message, limit: nat, d: Datagram, m': Message, limit': nat, f: Datagram)
    requires 0 < limit && OffsetsFit(m, limit) && d in Fragments(m, limit)
    requires 0 < limit' && OffsetsFit(m', limit') && f in Fragments(m', limit')
    requires m.response == m'.response ==> m == m' && limit == limit'
    ensures d.body.Sealed? && f.body.Sealed? && (d.body.nonce == f.body.nonce ==> d == f)
  {
    InFragments(m, 0, limit, d);
    InFragments(m', 0, limit', f);
    AmongArePieces(m, 0, limit, d);
    AmongArePieces(m', 0, limit', f);
    AmongIs(m, 0, limit, d);
    AmongIs(m', 0, limit', f);
  }

  // ----- reassembly

  /** What a receiver has so far: its buffer, the byte offsets covered, and the total size once known. */
  datatype Assembly = Assembly(buffer: Buffer, covered: set<nat>, size: Option<nat>)

  const NOTHING := Assembly([], {}, None)

  function Resized(b: Buffer, n: nat): (r: Buffer)
    ensures |r| == n
  {
    if n <= |b| then b[..n] else b + Zeros(n - |b|)
  }

  /** Room for a body at `offset`; the buffer never shrinks. */
  function Grown(b: Buffer, offset: nat, size: nat): (r: Buffer)
    ensures |r| >= offset + size && |r| >= |b|
  {
    if |b| < offset + size then Resized(b, offset + size) else b
  }

  function Pasted(b: Buffer, offset: nat, bytes: Buffer): (r: Buffer)
    requires offset + |bytes| <= |b|
    ensures |r| == |b|
    ensures forall i | 0 <= i < |b| :: r[i] == if offset <= i < offset + |bytes| then bytes[i - offset] else b[i]
  {
    b[..offset] + bytes + b[offset + |bytes|..]
  }

  function Interval(lo: nat, hi: nat): (r: set<nat>)
    ensures forall i :: i in r <==> lo <= i < hi
    decreases hi - lo
  {
    if lo >= hi then {} else {lo} + Interval(lo + 1, hi)
  }

  /** `contains(intervals, [0, size))`; before the size is known it stands for the largest size_t. */
  predicate Complete(a: Assembly) {
    a.size.Some? && forall i | 0 <= i < a.size.value :: i in a.covered
  }

  /** An opened fragment is written, its interval added and, if it is the last, the size set. */
  function Accept(a: Assembly, offset: nat, plain: Buffer, partial: bool): Assembly
    requires offset + |plain| <= |a.buffer|
  {
    Assembly(Pasted(a.buffer, offset, plain),
             a.covered + Interval(offset, offset + |plain|),
             if partial then a.size else Some(offset + |plain|))
  }

  /** Everything received so far agrees with the message. */
  ghost predicate Agrees(a: Assembly, bytes: Buffer) {
    && (forall i | i in a.covered :: i < |bytes| && i < |a.buffer| && a.buffer[i] == bytes[i])
    && (a.size.Some? ==> a.size.value == |bytes|)
  }

  lemma {:induction false} GrownAgrees(a: Assembly, bytes: Buffer, offset: nat, size: nat)
    requires Agrees(a, bytes)
    ensures Agrees(a.(buffer := Grown(a.buffer, offset, size)), bytes)
  {
  }

  lemma {:induction false} AcceptAgrees(a: Assembly, d: Datagram, m: Message)
    requires Agrees(a, m.bytes) && IsPiece(d, m) && d.offset + |d.body.plain| <= |a.buffer|
    ensures Agrees(Accept(a, d.offset, d.body.plain, d.partial), m.bytes)
  {
  }

  /** A complete assembly that agrees with a message holds exactly the message. */
  lemma {:induction false} CompleteIsWhole(a: Assembly, bytes: Buffer)
    requires Agrees(a, bytes) && Complete(a)
    ensures a.size.value == |bytes| <= |a.buffer| && a.buffer[..a.size.value] == bytes
  {
    if |bytes| > 0 { assert |bytes| - 1 in a.covered; }
  }

  // ----- any order, any number of copies

  /** The assembly has taken in all of these fragments. */
  ghost predicate HasSeen(a: Assembly, ds: set<Datagram>) {
    forall d | d in ds ::
      d.body.Sealed? && Interval(d.offset, d.offset + |d.body.plain|) <= a.covered && (!d.partial ==> a.size.Some?)
  }

  lemma {:induction false} AcceptSees(a: Assembly, ds: set<Datagram>, d: Datagram)
    requires HasSeen(a, ds) && d.body.Sealed? && d.offset + |d.body.plain| <= |a.buffer|
    ensures HasSeen(Accept(a, d.offset, d.body.plain, d.partial), ds + {d})
  {
  }

  /** A complete assembly has taken in every piece of its message. */
  lemma {:induction false} CompleteHasSeen(a: Assembly, m: Message, d: Datagram)
    requires Agrees(a, m.bytes) && Complete(a) && IsPiece(d, m)
    ensures HasSeen(a, {d})
  {
  }

  lemma {:induction false} FirstFragment(m: Message, offset: nat, limit: nat)
    requires offset <= |m.bytes| && offset < OFFSET_LIMIT
    ensures var d := Fragment(m, offset, limit);
            && d.body.Sealed? && d.offset == offset && |d.body.plain| <= limit
            && (offset + limit < |m.bytes| ==> d.partial)
  {
    assert offset % OFFSET_LIMIT == offset;
  }

  lemma {:induction false} AmongBehind(m: Message, offset: nat, limit: nat, d: Datagram)
    requires 0 < limit && offset <= |m.bytes| && Among(m, offset, limit, d)
    requires offset + LastOffset(|m.bytes| - offset, limit) < OFFSET_LIMIT
    ensures d.body.Sealed? && offset <= d.offset
    decreases |m.bytes| - offset
  {
    if d == Fragment(m, offset, limit) {
      FirstFragment(m, offset, limit);
    } else {
      AmongBehind(m, offset + limit, limit, d);
    }
  }

  lemma {:induction false} FirstApart(m: Message, offset: nat, limit: nat, f: Datagram)
    requires 0 < limit && offset <= |m.bytes| && offset + LastOffset(|m.bytes| - offset, limit) < OFFSET_LIMIT
    requires Among(m, offset, limit, f) && f != Fragment(m, offset, limit)
    ensures var d := Fragment(m, offset, limit);
            d.body.Sealed? && f.body.Sealed? && d.partial && d.offset + |d.body.plain| <= f.offset
  {
    FirstFragment(m, offset, limit);
    AmongBehind(m, offset + limit, limit, f);
  }

  lemma {:induction false} AmongApart(m: Message, offset: nat, limit: nat, d: Datagram, f: Datagram)
    requires 0 < limit && offset <= |m.bytes| && offset + LastOffset(|m.bytes| - offset, limit) < OFFSET_LIMIT
    requires Among(m, offset, limit, d) && Among(m, offset, limit, f) && d != f
    ensures d.body.Sealed? && f.body.Sealed? && (d.partial || f.partial)
    ensures d.offset + |d.body.plain| <= f.offset || f.offset + |f.body.plain| <= d.offset
    decreases |m.bytes| - offset
  {
    var first := Fragment(m, offset, limit);
    if d == first {
      FirstApart(m, offset, limit, f);
    } else if f == first {
      FirstApart(m, offset, limit, d);
    } else {
      AmongApart(m, offset + limit, limit, d, f);
    }
  }

  /** Two fragments share no byte, and only one is the last. */
  lemma {:induction false} FragmentsApart(m: Message, limit: nat, d: Datagram, f: Datagram)
    requires 0 < limit && OffsetsFit(m, limit) && d in Fragments(m, limit) && f in Fragments(m, limit) && d != f
    ensures d.body.Sealed? && f.body.Sealed? && (d.partial || f.partial)
    ensures d.offset + |d.body.plain| <= f.offset || f.offset + |f.body.plain| <= d.offset
  {
    InFragments(m, 0, limit, d);
    InFragments(m, 0, limit, f);
    AmongApart(m, 0, limit, d, f);
  }

  /** A missing fragment is supplied by no other. */
  lemma {:induction false} StillMissing(a: Assembly, m: Message, limit: nat, d: Datagram, f: Datagram)
    requires 0 < limit && OffsetsFit(m, limit) && d in Fragments(m, limit) && f in Fragments(m, limit) && d != f
    requires d.body.Sealed? && d.offset + |d.body.plain| <= |a.buffer| && !HasSeen(a, {f})
    ensures !HasSeen(Accept(a, d.offset, d.body.plain, d.partial), {f})
  {
    FragmentsApart(m, limit, d, f);
  }

  lemma {:induction false} AmongFor(m: Message, offset: nat, limit: nat, i: nat) returns (d: Datagram)
    requires 0 < limit && offset <= i <= |m.bytes|
    requires offset + LastOffset(|m.bytes| - offset, limit) < OFFSET_LIMIT
    ensures Among(m, offset, limit, d) && d.body.Sealed?
    ensures i < |m.bytes| ==> d.offset <= i < d.offset + |d.body.plain|
    ensures i == |m.bytes| ==> !d.partial
    decreases |m.bytes| - offset
  {
    if offset + limit <= i && offset + limit < |m.bytes| {
      d := AmongFor(m, offset + limit, limit, i);
    } else {
      d := Fragment(m, offset, limit);
    }
  }

  /** Some fragment carries byte `i`, and the last fragment is marked as such. */
  lemma {:induction false} FragmentFor(m: Message, limit: nat, i: nat) returns (d: Datagram)
    requires 0 < limit && i <= |m.bytes| && OffsetsFit(m, limit)
    ensures d in Fragments(m, limit) && d.body.Sealed?
    ensures i < |m.bytes| ==> d.offset <= i < d.offset + |d.body.plain|
    ensures i == |m.bytes| ==> !d.partial
  {
    d := AmongFor(m, 0, limit, i);
    InFragments(m, 0, limit, d);
  }

  /** Whatever the order and however many copies: once every fragment has arrived, the message is complete. */
  lemma {:induction false} SeenAllCompletes(a: Assembly, m: Message, limit: nat, ds: set<Datagram>)
    requires 0 < limit && OffsetsFit(m, limit) && Agrees(a, m.bytes) && HasSeen(a, ds)
    requires forall d | d in Fragments(m, limit) :: d in ds
    ensures Complete(a)
  {
    var last := FragmentFor(m, limit, |m.bytes|);
    forall i | 0 <= i < |m.bytes| ensures i in a.covered {
      var d := FragmentFor(m, limit, i);
      assert i in Interval(d.offset, d.offset + |d.body.plain|);
    }
  }

  /** The 16-bit offset field is enough exactly when the last fragment starts below 65536: past that, the
      last fragment claims a place it does not belong to. */
  lemma {:induction false} PiecesIffOffsetsFit(m: Message, limit: nat)
    requires 0 < limit
    ensures OffsetsFit(m, limit) <==> forall d | d in Fragments(m, limit) :: IsPiece(d, m)
  {
    if OffsetsFit(m, limit) {
      forall d | d in Fragments(m, limit) ensures IsPiece(d, m) { FragmentsArePieces(m, limit, d); }
    } else {
      var last := LastOffset(|m.bytes|, limit);
      LastFragment(m, 0, limit, last);
      var d := Fragment(m, last, limit);
      InFragments(m, 0, limit, d);
      assert d.offset < last && |d.body.plain| <= |m.bytes| - last;
      assert d in Fragments(m, limit) && !IsPiece(d, m);
    }
  }

  lemma {:induction false} LastFragment(m: Message, offset: nat, limit: nat, last: nat)
    requires 0 < limit && offset <= |m.bytes| && last == offset + LastOffset(|m.bytes| - offset, limit)
    ensures last <= |m.bytes| <= last + limit && Among(m, offset, limit, Fragment(m, last, limit))
    decreases |m.bytes| - offset
  {
    if offset + limit < |m.bytes| { LastFragment(m, offset + limit, limit, last); }
  }
}
