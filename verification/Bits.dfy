/** The bit operations the filter uses, on natural numbers. */
module Bits {
  import opened Arithmetic

  function Xor(a: nat, b: nat): nat
    decreases a + b
  {
    if a == 0 && b == 0 then 0
    else 2 * Xor(a / 2, b / 2) + (if a % 2 == b % 2 then 0 else 1)
  }

  function And(a: nat, b: nat): nat
    decreases a + b
  {
    if a == 0 && b == 0 then 0
    else 2 * And(a / 2, b / 2) + (if a % 2 == 1 && b % 2 == 1 then 1 else 0)
  }

  /** `x | 1`. */
  function SetLowBit(x: nat): nat {
    if x % 2 == 1 then x else x + 1
  }

  predicate PowerOfTwo(n: nat) {
    n == 1 || (n > 1 && n % 2 == 0 && PowerOfTwo(n / 2))
  }

  function Pow2(i: nat): (r: nat)
    ensures r > 0
  {
    if i == 0 then 1 else 2 * Pow2(i - 1)
  }

  /** Bit `i` of a number. */
  function Bit(x: nat, i: nat): nat {
    if i == 0 then x % 2 else Bit(x / 2, i - 1)
  }

  /** The bits of a number put together from two parts. */
  lemma {:induction false} BitOfJoin(high: nat, low: nat, k: nat, i: nat)
    requires low < Pow2(k)
    ensures Bit(high * Pow2(k) + low, i) == if i < k then Bit(low, i) else Bit(high, i - k)
    decreases k
  {
    if k > 0 {
      var x := high * Pow2(k) + low;
      var h := high * Pow2(k - 1);
      assert x == 2 * h + low by { Twice(high, Pow2(k - 1)); }
      assert x / 2 == h + low / 2 && x % 2 == low % 2;
      if i > 0 { BitOfJoin(high, low / 2, k - 1, i - 1); }
    }
  }

  lemma {:induction false} Twice(a: nat, p: nat)
    ensures a * (2 * p) == 2 * (a * p)
  {
  }

  /** The bits of a number cut off at bit `k`. */
  lemma {:induction false} BitOfRest(x: nat, k: nat, i: nat)
    ensures Bit(x % Pow2(k), i) == if i < k then Bit(x, i) else 0
    decreases k
  {
    var q, r := Parts(x, Pow2(k));
    BitOfJoin(q, r, k, i);
    if i >= k { BitsEnd(r, k, i); }
  }

  lemma {:induction false} BitsEnd(x: nat, k: nat, i: nat)
    requires x < Pow2(k) && k <= i
    ensures Bit(x, i) == 0
    decreases i
  {
    if i > 0 { BitsEnd(x / 2, if k == 0 then 0 else k - 1, i - 1); }
  }

  /** Both operations work bit by bit. */
  lemma {:induction false} BitwiseAt(a: nat, b: nat, i: nat)
    ensures Bit(Xor(a, b), i) == (if Bit(a, i) == Bit(b, i) then 0 else 1)
    ensures Bit(And(a, b), i) == (if Bit(a, i) == Bit(b, i) == 1 then 1 else 0)
    decreases i
  {
    assert Xor(a, b) / 2 == Xor(a / 2, b / 2) && And(a, b) / 2 == And(a / 2, b / 2);
    if i > 0 { BitwiseAt(a / 2, b / 2, i - 1); }
  }

  /** Masking with a power of two less one is the remainder. */
  lemma {:induction false} MaskIsRemainder(x: nat, n: nat)
    requires PowerOfTwo(n)
    ensures And(x, n - 1) == x % n
    decreases n
  {
    if n == 1 {
      AndAtMost(x, 0);
    } else {
      MaskIsRemainder(x / 2, n / 2);
      HalfMask(n);
      RemainderOfHalf(x, n / 2);
    }
  }

  lemma {:induction false} HalfMask(n: nat)
    requires PowerOfTwo(n) && n > 1
    ensures (n - 1) / 2 == n / 2 - 1 && (n - 1) % 2 == 1
  {
  }

  lemma {:induction false} RemainderOfHalf(x: nat, h: nat)
    requires h > 0
    ensures x % (2 * h) == 2 * (x / 2 % h) + x % 2
  {
    var q, r := x / 2 / h, x / 2 % h;
    assert x / 2 == h * q + r;
    assert x == (2 * h) * q + (2 * r + x % 2);
    Divides(2 * h, q, 2 * r + x % 2);
  }

  lemma {:induction false} XorCancels(a: nat, b: nat)
    ensures Xor(Xor(a, b), b) == a
    decreases a + b
  {
    if a != 0 || b != 0 {
      XorCancels(a / 2, b / 2);
      var x := Xor(a, b);
      assert x / 2 == Xor(a / 2, b / 2);
      assert x % 2 == if a % 2 == b % 2 then 0 else 1;
    }
  }

  lemma {:induction false} XorBelow(a: nat, b: nat, n: nat)
    requires PowerOfTwo(n) && a < n && b < n
    ensures Xor(a, b) < n
    decreases a + b
  {
    if a != 0 || b != 0 {
      XorBelow(a / 2, b / 2, n / 2);
    }
  }

  lemma {:induction false} AndAtMost(a: nat, b: nat)
    ensures And(a, b) <= b
    decreases a + b
  {
    if a != 0 || b != 0 { AndAtMost(a / 2, b / 2); }
  }
}
