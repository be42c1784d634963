/** Byte strings: little-endian numbers and the byte-wise order of `std::string_view`. */
module Bytes {
  import opened Arithmetic

  type byte = x: int | 0 <= x < 256

  type Buffer = seq<byte>

  function Zeros(n: nat): Buffer {
    seq(n, _ => 0)
  }

  // ----- little-endian numbers

  function Pow256(width: nat): (r: nat)
    ensures r > 0
  {
    if width == 0 then 1 else 256 * Pow256(width - 1)
  }

  /** `store_little` of a number in `width` bytes. */
  function Little(n: nat, width: nat): (s: Buffer)
    ensures |s| == width
    decreases width, n
  {
    if width == 0 then [] else [n % 256] + Little(n / 256, width - 1)
  }

  /** `load_little`, unsigned. */
  function Load(s: Buffer): nat {
    if s == [] then 0 else s[0] + 256 * Load(s[1..])
  }

  /** `load_little_s32`. */
  function LoadSigned32(s: Buffer): int
    requires |s| == 4
  {
    var n := Load(s);
    if n < 0x8000_0000 then n else n - 0x1_0000_0000
  }

  /** `load_little_s64`. */
  function LoadSigned64(s: Buffer): int
    requires |s| == 8
  {
    var n := Load(s);
    if n < 0x8000_0000_0000_0000 then n else n - 0x1_0000_0000_0000_0000
  }

  /** The byte of a number with the weight `Pow256(i)`. */
  function Digit(n: nat, i: nat): byte {
    n / Pow256(i) % 256
  }

  /** The least significant byte comes first. */
  lemma {:induction false} LittleAt(n: nat, width: nat, i: nat)
    requires i < width
    ensures Little(n, width)[i] == Digit(n, i)
    decreases width
  {
    if i > 0 {
      LittleAt(n / 256, width - 1, i - 1);
      DivideTwice(n, 256, Pow256(i - 1));
    }
  }

  /** The sum of the first `n` bytes with their weights. */
  function Weighted(s: Buffer, n: nat): nat
    requires n <= |s|
  {
    if n == 0 then 0 else Weighted(s, n - 1) + s[n - 1] * Pow256(n - 1)
  }

  lemma {:induction false} WeightedShift(s: Buffer, n: nat)
    requires n < |s|
    ensures Weighted(s, n + 1) == s[0] + 256 * Weighted(s[1..], n)
  {
    if n > 0 {
      WeightedShift(s, n - 1);
      Shift(s[n], Pow256(n - 1), Weighted(s[1..], n - 1));
      assert s[1..][n - 1] == s[n];
    }
  }

  lemma {:induction false} Shift(b: byte, p: nat, w: nat)
    ensures 256 * (w + b * p) == 256 * w + b * (256 * p)
  {
  }

  /** A load adds up the bytes with their weights. */
  lemma {:induction false} LoadIs(s: Buffer)
    ensures Load(s) == Weighted(s, |s|)
  {
    if s != [] {
      LoadIs(s[1..]);
      WeightedShift(s, |s| - 1);
    }
  }

  lemma {:induction false} LoadLittle(n: nat, width: nat)
    requires n < Pow256(width)
    ensures Load(Little(n, width)) == n
    decreases width
  {
    if width > 0 {
      LoadLittle(n / 256, width - 1);
      assert Little(n, width)[1..] == Little(n / 256, width - 1);
    }
  }

  lemma {:induction false} Load32(n: nat)
    requires n < 0x8000_0000
    ensures LoadSigned32(Little(n, 4)) == n
  {
    assert Pow256(4) == 0x1_0000_0000;
    LoadLittle(n, 4);
  }

  lemma {:induction false} Load64(n: nat)
    requires n < 0x8000_0000_0000_0000
    ensures LoadSigned64(Little(n, 8)) == n
  {
    assert Pow256(8) == 0x1_0000_0000_0000_0000;
    LoadLittle(n, 8);
  }

  // ----- the order on keys

  predicate Less(a: Buffer, b: Buffer) {
    b != [] && (a == [] || a[0] < b[0] || (a[0] == b[0] && Less(a[1..], b[1..])))
  }

  /** The two first differ at `n`, or one of them ends there. */
  predicate FirstDiffer(a: Buffer, b: Buffer, n: nat) {
    && n <= |a| && n <= |b| && (forall i | 0 <= i < n :: a[i] == b[i])
    && (n < |a| && n < |b| ==> a[n] != b[n])
  }

  /** The order is that of the first bytes that differ, and a proper prefix comes first. */
  lemma {:induction false} LessAt(a: Buffer, b: Buffer, n: nat)
    requires FirstDiffer(a, b, n)
    ensures Less(a, b) <==> n < |b| && (n == |a| || a[n] < b[n])
  {
    if n > 0 { LessAt(a[1..], b[1..], n - 1); }
  }

  predicate AtMost(a: Buffer, b: Buffer) {
    !Less(b, a)
  }

  lemma {:induction false} AtMostTransitive(a: Buffer, b: Buffer, c: Buffer)
    requires AtMost(a, b) && AtMost(b, c)
    ensures AtMost(a, c)
  {
    if Less(c, a) && b != [] && c != [] && c[0] == a[0] {
      AtMostTransitive(a[1..], b[1..], c[1..]);
    }
  }

  lemma {:induction false} AtMostAntisymmetric(a: Buffer, b: Buffer)
    requires AtMost(a, b) && AtMost(b, a)
    ensures a == b
  {
    if a != [] && b != [] {
      AtMostAntisymmetric(a[1..], b[1..]);
      assert a == [a[0]] + a[1..] && b == [b[0]] + b[1..];
    }
  }

  lemma {:induction false} AtMostTotal(a: Buffer, b: Buffer)
    ensures AtMost(a, b) || AtMost(b, a)
    ensures AtMost(a, a)
    ensures Less(a, b) ==> AtMost(a, b)
  {
    if a != [] { AtMostTotal(a[1..], if b == [] then b else b[1..]); }
  }
}
