/** Facts about multiplication and division that several components need. */
module Arithmetic {

  lemma Quotient(x: nat, p: nat, q: nat, r: nat)
    requires x == p * q + r && r < p
    ensures x / p == q && x % p == r
  {
    var d := x / p - q;
    assert x == p * (x / p) + x % p;
    assert p * d == r - x % p by { assert p * (x / p) - p * q == p * d; }
    assert d >= 1 ==> p * d >= p;
    assert d <= -1 ==> p * d + p <= 0;
  }

  lemma Multiple(d: nat, q: nat)
    requires d > 0
    ensures (q * d) % d == 0
  {
    Quotient(q * d, d, q, 0);
  }

  lemma MulMonotone(a: nat, b: nat, c: nat)
    requires a <= b
    ensures a * c <= b * c && c * a <= c * b
  {
  }

  lemma MulAssoc(a: nat, b: nat, c: nat)
    ensures a * (b * c) == (a * b) * c
  {
  }

  lemma MultipleOfMultiple(d: nat, f: nat, n: nat)
    requires d > 0 && f % d == 0
    ensures n * f % d == 0
  {
    var q := f / d;
    assert f == q * d;
    MulAssoc(n, q, d);
    Multiple(d, n * q);
  }

  function Div(x: nat, p: nat): nat
    requires p > 0
  {
    x / p
  }

  lemma DivDiv(x: nat, p: nat)
    requires p > 0
    ensures x / 2 / p == x / (2 * p)
  {
    var q, r := x / (2 * p), x % (2 * p);
    assert x == 2 * (p * q) + r;
    assert x / 2 == p * q + r / 2;
    Quotient(x / 2, p, q, r / 2);
  }

  lemma ModHalf(x: nat, p: nat)
    requires p > 0
    ensures x % (2 * p) / 2 == x / 2 % p && x % (2 * p) % 2 == x % 2
  {
    var q, r := x / (2 * p), x % (2 * p);
    assert x == 2 * (p * q) + r;
    assert x / 2 == p * q + r / 2;
    Quotient(x / 2, p, q, r / 2);
  }

  lemma DivHalf(x: nat, p: nat)
    requires p > 0
    ensures x / p / 2 == x / (2 * p)
  {
    var q, r := x / p, x % p;
    var h, e := q / 2, q % 2;
    Doubled(p, h, e);
    Quotient(x, 2 * p, h, p * e + r);
  }

  lemma Doubled(p: nat, h: nat, e: nat)
    requires e < 2
    ensures p * (2 * h + e) == 2 * p * h + p * e && p * e == (if e == 0 then 0 else p)
  {
  }
}
