/** Facts about products, quotients and remainders. */
module Arithmetic {

  lemma TimesMonotone(d: nat, a: nat, b: nat)
    requires a <= b
    ensures d * a <= d * b
  {
  }

  /** A quotient and its remainder are the only ones. */
  lemma QuotientIs(d: nat, q: nat, r: nat)
    requires r < d
    ensures (d * q + r) / d == q && (d * q + r) % d == r
  {
    var x := d * q + r;
    var q', r' := x / d, x % d;
    assert x == d * q' + r';
    if q' < q { TimesMonotone(d, q' + 1, q); } else if q < q' { TimesMonotone(d, q + 1, q'); }
  }

  lemma QuotientMonotone(x: nat, y: nat, d: nat)
    requires x <= y && d > 0
    ensures x / d <= y / d
  {
    var p, q := x / d, y / d;
    assert x == d * p + x % d && y == d * q + y % d;
    if q < p { TimesMonotone(d, q + 1, p); }
  }

  lemma QuotientBound(x: nat, d: nat, q: nat)
    requires d > 0 && x < q * d
    ensures 0 <= x / d < q
  {
    assert x == (x / d) * d + x % d;
  }

  lemma Split(x: nat, d: nat, n: nat) returns (q: nat, r: nat)
    requires d > 0 && x < n * d
    ensures q < n && r < d && x == q * d + r
  {
    q, r := x / d, x % d;
    QuotientBound(x, d, n);
  }

  lemma Divided(x: nat, d: nat)
    requires d > 0
    ensures 0 <= x / d && 0 <= x % d < d && x == d * (x / d) + x % d
  {
  }

  /** The remainder by a product: the digit above the remainder by one factor, and that. */
  lemma ModDigit(x: nat, p: nat, b: nat)
    requires p > 0 && b > 0
    ensures b * p > 0 && x % (b * p) == x % p + p * (x / p % b)
  {
    Divided(x, p);
    Divided(x / p, b);
    Digits(x, p, b, x / p / b, x / p % b, x % p);
  }

  lemma Digits(x: nat, p: nat, b: nat, c: nat, d: nat, r: nat)
    requires r < p && d < b && x == p * (b * c + d) + r
    ensures b * p > 0 && x % (b * p) == r + p * d
  {
    Regroup(p, b, c, d);
    TimesMonotone(p, d + 1, b);
    QuotientIs(b * p, c, p * d + r);
  }

  lemma Regroup(p: nat, b: nat, c: nat, d: nat)
    ensures p * (b * c + d) == (b * p) * c + p * d
  {
  }

  /** A remainder can be taken before a product and a sum. */
  lemma ModStep(x: nat, k: nat, d: nat, m: nat)
    requires m > 0
    ensures (x % m * k + d) % m == (k * x + d) % m
  {
    var y := x % m * k + d;
    Divided(x, m);
    Divided(y, m);
    Carried(x, k, d, m, x / m, x % m, y / m, y % m);
  }

  lemma Carried(x: nat, k: nat, d: nat, m: nat, q: nat, r: nat, q': nat, r': nat)
    requires x == m * q + r && r * k + d == m * q' + r' && r' < m
    ensures (k * x + d) % m == r'
  {
    Collect(m, q, r, k, q');
    QuotientIs(m, k * q + q', r');
  }

  lemma Collect(m: nat, q: nat, r: nat, k: nat, q': nat)
    ensures k * (m * q + r) == m * (k * q + q') - m * q' + r * k
  {
  }

  /** Sixteen numbers as bytes. */
  lemma ByteOfRow(x: nat, h: nat)
    requires h < 16 && 16 * h <= x < 16 * h + 16
    ensures (x as bv8) as nat == x
  {
    var l := x - 16 * h;
    assert || l == 0 || l == 1 || l == 2 || l == 3 || l == 4 || l == 5 || l == 6 || l == 7
           || l == 8 || l == 9 || l == 10 || l == 11 || l == 12 || l == 13 || l == 14 || l == 15;
  }

  lemma ByteOf(x: nat)
    requires x < 256
    ensures (x as bv8) as nat == x
  {
    ByteOfRow(x, x / 16);
  }
}
