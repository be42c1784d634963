/** The ICMP checksum of `net/icmp-client.cc`, against the one's complement sum of section 1 of RFC 1071. */
module IcmpChecksum {
  import opened Bytes

  const UINT32: nat := 0x1_0000_0000
  const WORD: nat := 0x1_0000

  /** What is left for the payload of an ICMP message in an IPv4 packet. */
  const MAX_PAYLOAD: nat := 65535 - 20 - 8

  /** The header of an Echo message, RFC 792, with its 16-bit fields as numbers. */
  datatype Header = Header(kind: byte, code: byte, checksum: nat, identifier: nat, sequence: nat)

  predicate ValidHeader(h: Header) {
    h.checksum < WORD && h.identifier < WORD && h.sequence < WORD
  }

  /** Two bytes as a big-endian number. */
  function Word(high: byte, low: byte): (w: nat)
    ensures w < WORD
  {
    var h: int, l: int := high, low;
    h * 256 + l
  }

  /** A payload as big-endian 16-bit words; an odd last byte is padded with zero. */
  function Words(b: Buffer): seq<nat> {
    if b == [] then []
    else if |b| == 1 then [Word(b[0], 0)]
    else [Word(b[0], b[1])] + Words(b[2..])
  }

  function HeaderWords(h: Header): seq<nat> {
    [Word(h.kind, h.code), h.checksum, h.identifier, h.sequence]
  }

  function Total(ws: seq<nat>): nat {
    if ws == [] then 0 else ws[0] + Total(ws[1..])
  }

  /** 16-bit addition with the carry added back in. */
  function OnesAdd(a: nat, b: nat): nat {
    if a + b >= WORD then a + b - WORD + 1 else a + b
  }

  /** The one's complement sum of 16-bit words. */
  function OnesSum(ws: seq<nat>): nat {
    if ws == [] then 0 else OnesAdd(ws[0], OnesSum(ws[1..]))
  }

  /** The two folds of the source. */
  function Folded(sum: nat): nat {
    var once := sum / WORD + sum % WORD;
    (once + once / WORD) % WORD
  }

  /** The representative of a sum that end-around carry arrives at. */
  function Wrapped(total: nat): nat {
    if total == 0 then 0 else (total - 1) % 0xffff + 1
  }

  ghost predicate AreWords(ws: seq<nat>) {
    forall w | w in ws :: w < WORD
  }

  lemma {:induction false} OnesAddWraps(a: nat, t: nat)
    requires a < WORD
    ensures OnesAdd(a, Wrapped(t)) == Wrapped(a + t)
  {
    if t > 0 {
      var k, r := (t - 1) / 0xffff, (t - 1) % 0xffff;
      assert t - 1 == 0xffff * k + r;
      assert a + t - 1 == 0xffff * k + (a + r);
      ModSplit(k, a + r);
    }
  }

  lemma {:induction false} ModSplit(k: nat, r: nat)
    ensures (0xffff * k + r) % 0xffff == r % 0xffff
  {
  }

  /** End-around carry computes the sum modulo 65535, with 65535 instead of 0 for a sum that is not 0. */
  lemma {:induction false} OnesSumWraps(ws: seq<nat>)
    requires AreWords(ws)
    ensures OnesSum(ws) == Wrapped(Total(ws))
  {
    if ws != [] {
      assert ws[0] in ws && forall w | w in ws[1..] :: w in ws;
      OnesSumWraps(ws[1..]);
      OnesAddWraps(ws[0], Total(ws[1..]));
    }
  }

  /** For every 32-bit sum, two folds are enough. */
  lemma {:induction false} TwoFoldsSuffice(sum: nat)
    requires sum < UINT32
    ensures Folded(sum) == Wrapped(sum)
  {
    var hi, lo := sum / WORD, sum % WORD;
    assert sum == 0xffff * hi + (hi + lo);
    if sum > 0 {
      assert sum - 1 == 0xffff * hi + (hi + lo - 1);
      ModSplit(hi, hi + lo - 1);
    }
  }

  lemma {:induction false} WordsBounded(b: Buffer)
    ensures AreWords(Words(b)) && Total(Words(b)) <= (|b| + 1) / 2 * 0xffff
    decreases |b|
  {
    if |b| >= 2 {
      WordsBounded(b[2..]);
      assert (|b| + 1) / 2 == (|b[2..]| + 1) / 2 + 1;
    }
  }

  lemma {:induction false} TotalAppend(a: seq<nat>, b: seq<nat>)
    ensures Total(a + b) == Total(a) + Total(b)
    decreases a
  {
    if a == [] {
      assert a + b == b;
    } else {
      TotalAppend(a[1..], b);
      assert (a + b)[1..] == a[1..] + b;
    }
  }

  /** The sum that the checksum is computed from: the header without its checksum, and the payload. */
  function PlainSum(h: Header, b: Buffer): nat {
    Word(h.kind, h.code) + h.identifier + h.sequence + Total(Words(b))
  }

  // ----- the bytes that are sent

  /** Header and payload as they are sent, 16-bit fields with the high byte first. */
  function Packet(h: Header, b: Buffer): Buffer
    requires ValidHeader(h)
  {
    [h.kind, h.code, h.checksum / 256, h.checksum % 256, h.identifier / 256, h.identifier % 256,
     h.sequence / 256, h.sequence % 256] + b
  }

  /** 256 times the bytes at even places plus the bytes at odd places. */
  function Weighed(b: Buffer, n: nat): nat
    requires n <= |b|
  {
    if n == 0 then 0
    else
      var x: int := b[n - 1];
      Weighed(b, n - 1) + if n % 2 == 1 then 256 * x else x
  }

  lemma {:induction false} WeighedAppend(a: Buffer, b: Buffer, n: nat)
    requires |a| % 2 == 0 && n <= |b|
    ensures Weighed(a + b, |a| + n) == Weighed(a, |a|) + Weighed(b, n)
  {
    if n > 0 {
      WeighedAppend(a, b, n - 1);
      assert (a + b)[|a| + n - 1] == b[n - 1];
    } else {
      WeighedPrefix(a, b, |a|);
    }
  }

  lemma {:induction false} WeighedPrefix(a: Buffer, b: Buffer, n: nat)
    requires n <= |a|
    ensures Weighed(a + b, n) == Weighed(a, n)
  {
    if n > 0 {
      WeighedPrefix(a, b, n - 1);
      assert (a + b)[n - 1] == a[n - 1];
    }
  }

  /** The words add up to the weighed bytes. */
  lemma {:induction false} WordsWeighed(b: Buffer)
    ensures Total(Words(b)) == Weighed(b, |b|)
    decreases |b|
  {
    if |b| == 1 {
      assert Total([Word(b[0], 0)]) == Word(b[0], 0);
      assert Weighed(b, 0) == 0;
    } else if |b| >= 2 {
      WordsWeighed(b[2..]);
      assert b == b[..2] + b[2..];
      WeighedAppend(b[..2], b[2..], |b| - 2);
      assert Weighed(b[..2], 0) == 0 && Weighed(b[..2], 2) == Weighed(b[..2], 1) + b[1];
    }
  }

  lemma {:induction false} HeaderWeighed(h: Header)
    requires ValidHeader(h)
    ensures Weighed(Packet(h, []), 8) == Word(h.kind, h.code) + h.checksum + h.identifier + h.sequence
  {
    var p := Packet(h, []);
    assert Weighed(p, 0) == 0;
    Pair(p, 0);
    Pair(p, 2);
    Pair(p, 4);
    Pair(p, 6);
  }

  lemma {:induction false} Pair(p: Buffer, n: nat)
    requires n + 2 <= |p| && n % 2 == 0
    ensures Weighed(p, n + 2) == Weighed(p, n) + Word(p[n], p[n + 1])
  {
    assert Weighed(p, n + 2) == Weighed(p, n + 1) + p[n + 1];
  }

  lemma {:induction false} PacketWeighed(h: Header, b: Buffer)
    requires ValidHeader(h)
    ensures Weighed(Packet(h, b), |Packet(h, b)|) == PlainSum(h, b) + h.checksum
  {
    HeaderWeighed(h);
    WordsWeighed(b);
    WeighedAppend(Packet(h, []), b, |b|);
    assert Packet(h, []) + b == Packet(h, b);
  }

  /** The checksum makes the weighed bytes of the message a multiple of 0xffff, and is 0xffff only if all other bytes
      are 0; no other 16-bit number does that. */
  lemma {:induction false} ChecksumOfBytes(h: Header, b: Buffer)
    requires ValidHeader(h)
    ensures var other := Weighed(Packet(h.(checksum := 0), b), |Packet(h, b)|);
            h.checksum == 0xffff - Wrapped(PlainSum(h, b)) <==>
              && Weighed(Packet(h, b), |Packet(h, b)|) % 0xffff == 0
              && (h.checksum == 0xffff <==> other == 0)
  {
    var s := PlainSum(h, b);
    PacketWeighed(h, b);
    PacketWeighed(h.(checksum := 0), b);
    assert PlainSum(h.(checksum := 0), b) == s;
    WrapIff(s, h.checksum);
  }

  lemma {:induction false} WrapIff(s: nat, c: nat)
    requires c < WORD
    ensures c == 0xffff - Wrapped(s) <==> (s + c) % 0xffff == 0 && (c == 0xffff <==> s == 0)
  {
    if s > 0 {
      var k, r := (s - 1) / 0xffff, (s - 1) % 0xffff;
      assert s == 0xffff * k + (r + 1);
      ModSplit(k, r + 1 + c);
    }
  }

  /** `compute_checksum`. Additions wrap at 32 bits as in the source. */
  method ComputeChecksum(b: Buffer, h: Header) returns (h': Header)
    requires ValidHeader(h) && |b| <= MAX_PAYLOAD
    ensures ValidHeader(h') && h' == h.(checksum := h'.checksum)
    ensures OnesSum(HeaderWords(h') + Words(b)) == 0xffff
    ensures Weighed(Packet(h', b), |Packet(h', b)|) % 0xffff == 0
    ensures h'.checksum == 0xffff <==> Weighed(Packet(h'.(checksum := 0), b), |Packet(h', b)|) == 0
  {
    var sum := AddWords(b, h);
    var folded := Fold(sum);
    h' := h.(checksum := 0xffff - folded);
    assert PlainSum(h', b) == PlainSum(h, b);
    ChecksumVerifies(h', b);
    ChecksumOfBytes(h', b);
  }

  /** The two folds; no addition overflows. */
  method Fold(sum: nat) returns (folded: nat)
    requires sum < UINT32
    ensures folded == Wrapped(sum) <= 0xffff
  {
    TwoFoldsSuffice(sum);
    FoldsFit(sum);
    var s := (sum / WORD + sum % WORD) % UINT32;
    s := (s + s / WORD) % UINT32;
    folded := s % WORD;
  }

  lemma {:induction false} FoldsFit(sum: nat)
    requires sum < UINT32
    ensures var once := sum / WORD + sum % WORD;
            once % UINT32 == once && (once + once / WORD) % UINT32 == once + once / WORD
  {
    var once := sum / WORD + sum % WORD;
    assert once < 2 * WORD;
    assert once / WORD <= once;
  }

  /** The accumulating loop: no addition overflows. */
  method AddWords(b: Buffer, h: Header) returns (sum: nat)
    requires ValidHeader(h) && |b| <= MAX_PAYLOAD
    ensures sum == PlainSum(h, b) < UINT32
  {
    WordsBounded(b);
    sum := Word(h.kind, h.code);
    sum := (sum + h.identifier) % UINT32;
    sum := (sum + h.sequence) % UINT32;
    var rest := b;
    while |rest| >= 2
      invariant sum + Total(Words(rest)) == PlainSum(h, b) < UINT32
      decreases |rest|
    {
      sum := (sum + Word(rest[0], rest[1])) % UINT32;
      rest := rest[2..];
    }
    if rest != [] {
      assert Total([Word(rest[0], 0)]) == Word(rest[0], 0);
      sum := (sum + Word(rest[0], 0)) % UINT32;
    }
  }

  /** A header whose checksum is the complement of the folded sum passes the receiver's test. */
  lemma {:induction false} ChecksumVerifies(h: Header, b: Buffer)
    requires ValidHeader(h) && h.checksum == 0xffff - Wrapped(PlainSum(h, b))
    ensures OnesSum(HeaderWords(h) + Words(b)) == 0xffff
  {
    var s, ws := PlainSum(h, b), HeaderWords(h) + Words(b);
    WordsBounded(b);
    TotalAppend(HeaderWords(h), Words(b));
    HeaderTotal(h);
    OnesSumWraps(ws);
    ComplementWraps(s);
  }

  lemma {:induction false} HeaderTotal(h: Header)
    ensures Total(HeaderWords(h)) == Word(h.kind, h.code) + h.checksum + h.identifier + h.sequence
  {
    var ws := HeaderWords(h);
    assert ws[1..] == [h.checksum, h.identifier, h.sequence];
    assert ws[1..][1..] == [h.identifier, h.sequence];
    assert ws[1..][1..][1..] == [h.sequence];
    assert Total([h.sequence]) == h.sequence;
    assert Total(ws[1..][1..]) == h.identifier + h.sequence;
  }

  lemma {:induction false} ComplementWraps(s: nat)
    ensures Wrapped(s + (0xffff - Wrapped(s))) == 0xffff
  {
    if s > 0 {
      var k, r := (s - 1) / 0xffff, (s - 1) % 0xffff;
      assert s - 1 == 0xffff * k + r && Wrapped(s) == r + 1;
      assert s + (0xffff - Wrapped(s)) - 1 == 0xffff * k + 0xfffe;
      ModSplit(k, 0xfffe);
    }
  }
}
