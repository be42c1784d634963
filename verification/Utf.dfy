/** The converters of `util/utf.cc`. Every 16-bit unit is coded on its own, surrogates included, with the
    one-, two- and three-byte patterns of section 3 of RFC 3629. */
module Utf {
  import opened Bytes
  import opened Sequences

  type unit = x: int | 0 <= x < 0x1_0000

  // ----- UTF-16 to UTF-8

  function UnitSize(c: unit): nat {
    if c <= 0x7f then 1 else if c <= 0x7ff then 2 else 3
  }

  function EncodeUnit(c: unit): (s: Buffer)
    ensures |s| == UnitSize(c)
  {
    var n: int := c;
    if c <= 0x7f then [n]
    else if c <= 0x7ff then [n / 64 + 0xc0, n % 64 + 0x80]
    else [n / 4096 + 0xe0, n / 64 % 64 + 0x80, n % 64 + 0x80]
  }

  function Encode(s: seq<unit>): Buffer {
    if s == [] then [] else EncodeUnit(s[0]) + Encode(s[1..])
  }

  function EncodedSize(s: seq<unit>): nat {
    if s == [] then 0 else UnitSize(s[0]) + EncodedSize(s[1..])
  }

  // ----- UTF-8 to UTF-16

  /** How many bytes a first byte announces. Stray continuation bytes count as one. */
  function LeadSize(c: byte): (n: nat)
    ensures 1 <= n <= 4
  {
    if c < 0xc0 then 1 else if c < 0xe0 then 2 else if c < 0xf0 then 3 else 4
  }

  /** The unit for one sequence; four-byte sequences become the replacement character. */
  function DecodeOne(b: Buffer): unit
    requires b != [] && |b| == LeadSize(b[0])
  {
    var c: int := b[0];
    if c < 0xc0 then c % 128
    else if c < 0xe0 then (var d: int := b[1]; c % 64 * 64 + d % 64)
    else if c < 0xf0 then (var d: int, e: int := b[1], b[2]; c % 32 * 4096 + d % 64 * 64 + e % 64)
    else 0xfffd
  }

  /** A sequence that is cut off ends the output. */
  function Decode(b: Buffer): seq<unit> {
    if b == [] || |b| < LeadSize(b[0]) then []
    else [DecodeOne(b[..LeadSize(b[0])])] + Decode(b[LeadSize(b[0])..])
  }

  lemma {:induction false} EncodeLength(s: seq<unit>)
    ensures |Encode(s)| == EncodedSize(s)
  {
    if s != [] { EncodeLength(s[1..]); }
  }

  lemma {:induction false} DecodeUnit(c: unit)
    ensures LeadSize(EncodeUnit(c)[0]) == UnitSize(c) && DecodeOne(EncodeUnit(c)) == c
  {
    var n: int := c;
    if 0x7f < n <= 0x7ff {
      assert (n / 64 + 0xc0) % 64 == n / 64 && (n % 64 + 0x80) % 64 == n % 64;
    } else if 0x7ff < n {
      assert (n / 4096 + 0xe0) % 32 == n / 4096 && (n % 64 + 0x80) % 64 == n % 64;
      assert (n / 64 % 64 + 0x80) % 64 == n / 64 % 64 && n / 64 / 64 == n / 4096;
    }
  }

  /** Decoding what was encoded gives back every sequence of units. */
  lemma {:induction false} RoundTrip(s: seq<unit>)
    ensures Decode(Encode(s)) == s
  {
    if s != [] {
      var head, tail := EncodeUnit(s[0]), Encode(s[1..]);
      DecodeUnit(s[0]);
      RoundTrip(s[1..]);
      Front(head, tail);
      assert s == [s[0]] + s[1..];
    }
  }

  lemma {:induction false} Front(a: Buffer, b: Buffer)
    ensures (a + b)[..|a|] == a && (a + b)[|a|..] == b
  {
  }

  // ----- the loops

  method Utf16ToUtf8Size(input: seq<unit>) returns (size: nat)
    ensures size == |Encode(input)|
  {
    EncodeLength(input);
    size := 0;
    var rest := input;
    while rest != []
      invariant size + EncodedSize(rest) == EncodedSize(input)
      decreases |rest|
    {
      var c := rest[0];
      if c <= 0x7f {
        size := size + 1;
      } else if c <= 0x7ff {
        size := size + 2;
      } else {
        size := size + 3;
      }
      rest := rest[1..];
    }
  }

  /** Writes exactly the predicted number of bytes and touches nothing behind them. */
  method Utf16ToUtf8(input: seq<unit>, output: array<byte>)
    requires |Encode(input)| <= output.Length
    modifies output
    ensures output[..] == Encode(input) + old(output[|Encode(input)|..])
  {
    var at := 0;
    var rest := input;
    assert [] + Encode(rest) == Encode(input);
    while rest != []
      invariant 0 <= at <= output.Length && at + |Encode(rest)| == |Encode(input)|
      invariant output[..at] + Encode(rest) == Encode(input)
      invariant output[at..] == old(output[at..])
      decreases |rest|
    {
      ghost var done, tail := output[..at], Encode(rest[1..]);
      var n := PutUnit(rest[0], output, at);
      assert output[..at + n] == done + EncodeUnit(rest[0]);
      Associate(done, EncodeUnit(rest[0]), tail);
      at := at + n;
      rest := rest[1..];
    }
    assert output[..] == output[..at] + output[at..];
  }

  /** One pass of the loop: the branches and shifts of the source. */
  method PutUnit(c: unit, output: array<byte>, at: nat) returns (n: nat)
    requires at + UnitSize(c) <= output.Length
    modifies output
    ensures n == UnitSize(c) && output[..] == old(output[..at]) + EncodeUnit(c) + old(output[at + n..])
  {
    var x: int := c;
    if c <= 0x7f {
      output[at] := x;
      n := 1;
    } else if c <= 0x7ff {
      output[at], output[at + 1] := x / 64 + 0xc0, x % 64 + 0x80;
      n := 2;
    } else {
      output[at], output[at + 1], output[at + 2] := x / 4096 + 0xe0, x / 64 % 64 + 0x80, x % 64 + 0x80;
      n := 3;
    }
  }

  /** The number of units the decoder writes, for every byte string, valid or not. */
  method Utf8Length(input: Buffer) returns (size: nat)
    ensures size == |Decode(input)|
  {
    size := 0;
    var rest := input;
    while rest != []
      invariant size + |Decode(rest)| == |Decode(input)|
      decreases |rest|
    {
      var c := rest[0];
      if c < 0xc0 {
        rest := rest[1..];
      } else if c < 0xe0 {
        if |rest| < 2 { break; }
        rest := rest[2..];
      } else if c < 0xf0 {
        if |rest| < 3 { break; }
        rest := rest[3..];
      } else {
        if |rest| < 4 { break; }
        rest := rest[4..];
      }
      size := size + 1;
    }
  }

  method Utf8ToUtf16(input: Buffer, output: array<unit>)
    requires |Decode(input)| <= output.Length
    modifies output
    ensures output[..] == Decode(input) + old(output[|Decode(input)|..])
  {
    var at := 0;
    var rest := input;
    while rest != []
      invariant 0 <= at <= output.Length && at + |Decode(rest)| == |Decode(input)|
      invariant output[..at] + Decode(rest) == Decode(input)
      invariant output[at..] == old(output[at..])
      decreases |rest|
    {
      ghost var done := output[..at];
      var n, u := TakeUnit(rest);
      if n == 0 { break; }
      Put(u, output, at);
      DecodeNext(rest, n, u);
      Associate(done, [u], Decode(rest[n..]));
      at := at + 1;
      rest := rest[n..];
    }
    SplitAt(output[..], at);
  }

  lemma {:induction false} DecodeNext(b: Buffer, n: nat, u: unit)
    requires b != [] && n == LeadSize(b[0]) <= |b| && u == DecodeOne(b[..n])
    ensures Decode(b) == [u] + Decode(b[n..])
  {
  }

  method Put(u: unit, output: array<unit>, at: nat)
    requires at < output.Length
    modifies output
    ensures output[..at + 1] == old(output[..at]) + [u] && output[at + 1..] == old(output[at + 1..])
  {
    output[at] := u;
  }

  /** One pass of the loop: the unit that the input begins with and its length, or 0 if it is cut off. */
  method TakeUnit(input: Buffer) returns (n: nat, u: unit)
    requires input != []
    ensures n == if |input| < LeadSize(input[0]) then 0 else LeadSize(input[0])
    ensures n > 0 ==> u == DecodeOne(input[..n])
  {
    var c: int := input[0];
    n, u := 0, 0;
    if c < 0xc0 {
      n, u := 1, c % 128;
    } else if c < 0xe0 {
      if |input| < 2 { return; }
      var d: int := input[1];
      n, u := 2, c % 64 * 64 + d % 64;
    } else if c < 0xf0 {
      if |input| < 3 { return; }
      var d: int, e: int := input[1], input[2];
      n, u := 3, c % 32 * 4096 + d % 64 * 64 + e % 64;
    } else {
      if |input| < 4 { return; }
      n, u := 4, 0xfffd;
    }
  }
}
