/** Facts about products and quotients. */
module Arithmetic {

  lemma {:induction false} Ordered(a: nat, x: int, y: int)
    requires x <= y
    ensures a * x <= a * y
  {
    assert a * y == a * x + a * (y - x);
  }

  lemma {:induction false} Parts(x: nat, m: nat) returns (q: nat, r: nat)
    requires m > 0
    ensures q == x / m && r == x % m < m && x == q * m + r
  {
    q, r := x / m, x % m;
  }

  /** The quotient and the remainder are unique. */
  lemma {:induction false} Divides(m: nat, q: nat, r: nat)
    requires r < m
    ensures (m * q + r) % m == r && (m * q + r) / m == q
  {
    var x := m * q + r;
    var d := q - x / m;
    assert m * d == x % m - r by { assert m * (x / m) + x % m == x; assert m * d == m * q - m * (x / m); }
    assert m * -d == -(m * d);
    if d > 0 { Ordered(m, 1, d); } else if d < 0 { Ordered(m, 1, -d); }
  }

  lemma {:induction false} DivideTwice(x: nat, a: nat, b: nat)
    requires a > 0 && b > 0
    ensures x / a / b == x / (b * a)
  {
    var q, r := x / a / b, x / a % b;
    Recompose(x, a, b, q, r);
    Below(a, r, b, x % a);
    Divides(b * a, q, a * r + x % a);
  }

  lemma {:induction false} Recompose(x: nat, a: nat, b: nat, q: nat, r: nat)
    requires a > 0 && x / a == b * q + r
    ensures x == (b * a) * q + (a * r + x % a)
  {
    assert x == a * (x / a) + x % a;
    assert a * (b * q + r) == (b * a) * q + a * r;
  }

  lemma {:induction false} Below(a: nat, r: nat, b: nat, s: nat)
    requires r < b && s < a
    ensures a * r + s < b * a
  {
    Ordered(a, r + 1, b);
    assert a * (r + 1) == a * r + a && a * b == b * a;
  }
}
