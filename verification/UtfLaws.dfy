/** Laws of the converters that do not come from undoing one with the other: the order of encoded text, and what each
    bit of a decoded unit is. */
module UtfLaws {
  import opened Bits
  import opened Bytes
  import opened Sequences
  import opened Utf

  // ----- order

  predicate LessUnits(s: seq<unit>, t: seq<unit>) {
    t != [] && (s == [] || s[0] < t[0] || (s[0] == t[0] && LessUnits(s[1..], t[1..])))
  }

  lemma {:induction false} LessBehind(a: Buffer, x: Buffer, y: Buffer)
    ensures Less(a + x, a + y) <==> Less(x, y)
  {
    if a == [] {
      assert a + x == x && a + y == y;
    } else {
      LessBehind(a[1..], x, y);
      assert (a + x)[1..] == a[1..] + x && (a + y)[1..] == a[1..] + y;
    }
  }

  /** Byte strings that first differ at `n`. */
  lemma {:induction false} LessFrom(a: Buffer, b: Buffer, n: nat)
    requires n < |a| && n < |b| && a[n] < b[n] && forall i | 0 <= i < n :: a[i] == b[i]
    ensures Less(a, b) && !Less(b, a)
  {
    if n > 0 { LessFrom(a[1..], b[1..], n - 1); }
  }

  /** Where the encodings of two units first differ. */
  lemma {:induction false} UnitsDiffer(c: unit, d: unit) returns (n: nat)
    requires c < d
    ensures n < |EncodeUnit(c)| && n < |EncodeUnit(d)| && EncodeUnit(c)[n] < EncodeUnit(d)[n]
    ensures forall i | 0 <= i < n :: EncodeUnit(c)[i] == EncodeUnit(d)[i]
  {
    var x: int, y: int := c, d;
    if c <= 0x7f || (c <= 0x7ff < d) {
      n := 0;
    } else if d <= 0x7ff {
      n := if x / 64 < y / 64 then 0 else 1;
    } else {
      assert x / 64 / 64 == x / 4096 && y / 64 / 64 == y / 4096;
      n := if x / 4096 < y / 4096 then 0 else if x / 64 < y / 64 then 1 else 2;
    }
  }

  lemma {:induction false} UnitOrder(c: unit, d: unit, x: Buffer, y: Buffer)
    requires c < d
    ensures Less(EncodeUnit(c) + x, EncodeUnit(d) + y) && !Less(EncodeUnit(d) + y, EncodeUnit(c) + x)
  {
    var n := UnitsDiffer(c, d);
    LessFrom(EncodeUnit(c) + x, EncodeUnit(d) + y, n);
  }

  /** Encoded text compares byte by byte as the units do. */
  lemma {:induction false} EncodeKeepsOrder(s: seq<unit>, t: seq<unit>)
    ensures Less(Encode(s), Encode(t)) <==> LessUnits(s, t)
    decreases |s|
  {
    if s != [] && t != [] {
      var x, y := Encode(s[1..]), Encode(t[1..]);
      if s[0] < t[0] {
        UnitOrder(s[0], t[0], x, y);
      } else if t[0] < s[0] {
        UnitOrder(t[0], s[0], y, x);
      } else {
        EncodeKeepsOrder(s[1..], t[1..]);
        LessBehind(EncodeUnit(s[0]), x, y);
      }
    }
  }

  // ----- what follows an encoding

  /** Decoding goes on behind encoded text as if that were not there. */
  lemma {:induction false} DecodeBehind(s: seq<unit>, b: Buffer)
    ensures Decode(Encode(s) + b) == s + Decode(b)
  {
    if s == [] {
      assert Encode(s) + b == b && s + Decode(b) == Decode(b);
    } else {
      var head, tail := EncodeUnit(s[0]), Encode(s[1..]);
      DecodeBehind(s[1..], b);
      Associate(head, tail, b);
      UnitBehind(s[0], tail + b);
      Associate([s[0]], s[1..], Decode(b));
      assert s == [s[0]] + s[1..];
    }
  }

  lemma {:induction false} UnitBehind(c: unit, b: Buffer)
    ensures Decode(EncodeUnit(c) + b) == [c] + Decode(b)
  {
    DecodeUnit(c);
    Front(EncodeUnit(c), b);
  }

  /** A unit that is cut off at the end is dropped and nothing else. */
  lemma {:induction false} DecodeDropsCut(s: seq<unit>, c: unit, n: nat)
    requires n < |EncodeUnit(c)|
    ensures Decode(Encode(s) + EncodeUnit(c)[..n]) == s
  {
    DecodeBehind(s, EncodeUnit(c)[..n]);
    DecodeUnit(c);
    assert Decode(EncodeUnit(c)[..n]) == [];
  }

  // ----- bits

  lemma {:induction false} Powers()
    ensures Pow2(4) == 16 && Pow2(5) == 32 && Pow2(6) == 64 && Pow2(7) == 128 && Pow2(12) == 4096
  {
    assert Pow2(3) == 8;
    assert Pow2(7) == 128;
    assert Pow2(10) == 1024;
  }

  /** A single byte gives its low seven bits. */
  lemma {:induction false} OneByte(b: Buffer, i: nat)
    requires |b| == 1 && b[0] < 0xc0
    ensures Bit(DecodeOne(b), i) == if i < 7 then Bit(b[0], i) else 0
  {
    Powers();
    BitOfRest(b[0], 7, i);
  }

  /** Two bytes give six bits of the second and five of the first. */
  lemma {:induction false} TwoBytes(b: Buffer, i: nat)
    requires |b| == 2 && 0xc0 <= b[0] < 0xe0
    ensures Bit(DecodeOne(b), i) == if i < 6 then Bit(b[1], i) else if i < 11 then Bit(b[0], i - 6) else 0
  {
    Powers();
    var c: nat, d: nat := b[0], b[1];
    assert c % 64 == c % 32;
    BitOfJoin(c % 32, d % 64, 6, i);
    if i < 6 { BitOfRest(d, 6, i); } else { BitOfRest(c, 5, i - 6); }
  }

  /** Three bytes give six bits of each of the last two and four of the first. */
  lemma {:induction false} ThreeBytes(b: Buffer, i: nat)
    requires |b| == 3 && 0xe0 <= b[0] < 0xf0
    ensures Bit(DecodeOne(b), i)
         == if i < 6 then Bit(b[2], i) else if i < 12 then Bit(b[1], i - 6)
            else if i < 16 then Bit(b[0], i - 12) else 0
  {
    Powers();
    var c: nat, d: nat, e: nat := b[0], b[1], b[2];
    assert c % 32 == c % 16;
    var high := c % 16 * 64 + d % 64;
    assert c % 16 * 4096 + d % 64 * 64 + e % 64 == high * 64 + e % 64;
    BitOfJoin(high, e % 64, 6, i);
    if i < 6 {
      BitOfRest(e, 6, i);
    } else {
      BitOfJoin(c % 16, d % 64, 6, i - 6);
      if i < 12 { BitOfRest(d, 6, i - 6); } else { BitOfRest(c, 4, i - 12); }
    }
  }

  /** Four bytes give the replacement character. */
  lemma {:induction false} FourBytes(b: Buffer)
    requires |b| == 4 && 0xf0 <= b[0]
    ensures DecodeOne(b) == 0xfffd
  {
  }

  /** The bytes of an encoded unit: the mark of a first byte of one, two or three, the mark of every further byte, and
      the bits of the unit from the highest on. */
  lemma {:induction false} UnitBits(c: unit, i: nat)
    ensures var s := EncodeUnit(c);
            && |s| == (if c < 0x80 then 1 else if c < 0x800 then 2 else 3)
            && (|s| == 1 ==> s[0] < 0x80)
            && (|s| == 2 ==> 0xc0 <= s[0] < 0xe0 && 0x80 <= s[1] < 0xc0)
            && (|s| == 3 ==> 0xe0 <= s[0] < 0xf0 && 0x80 <= s[1] < 0xc0 && 0x80 <= s[2] < 0xc0)
            && Bit(c, i) == (if |s| == 1 then (if i < 7 then Bit(s[0], i) else 0)
                             else if |s| == 2
                             then (if i < 6 then Bit(s[1], i) else if i < 11 then Bit(s[0], i - 6) else 0)
                             else (if i < 6 then Bit(s[2], i) else if i < 12 then Bit(s[1], i - 6)
                                   else if i < 16 then Bit(s[0], i - 12) else 0))
  {
    var s := EncodeUnit(c);
    DecodeUnit(c);
    if |s| == 1 {
      OneByte(s, i);
    } else if |s| == 2 {
      TwoBytes(s, i);
    } else {
      ThreeBytes(s, i);
    }
  }
}
