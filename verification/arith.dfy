/** Arithmetic facts that the solver does not find on its own. */
module Arith {

  lemma LessFactor(a: int, b: int, c: int)
    requires c > 0 && a * c < b * c
    ensures a < b
  {
    if a >= b { LeFactor(b, a, c); }
  }

  lemma LeFactor(a: int, b: int, c: int)
    requires c >= 0 && a <= b
    ensures a * c <= b * c
  {
    assert (b - a) * c >= 0;
  }

  lemma MulAtLeast(a: int, b: int)
    requires a >= 0 && b >= 1
    ensures a * b >= a
  {}

  /** Products of bounded numbers are bounded. */
  lemma MulBound(a: int, b: int, m: int, n: int)
    requires 0 <= a <= m && 0 <= b <= n
    ensures 0 <= a * b <= m * n
  {
    assert a * b <= m * b by { assert (m - a) * b >= 0; }
    assert m * b <= m * n by { assert m * (n - b) >= 0; }
  }

  lemma Redistribute(p: int, b: int, c: int, d: int, c': int, e: int)
    requires d + b * c' == e + c
    ensures p * d + (b * p) * c' == p * c + p * e
  {
    assert (b * p) * c' == p * (b * c');
    assert p * (e + c) == p * e + p * c;
    assert p * (d + b * c') == p * d + p * (b * c');
  }

  lemma MulGap(p: int, a: int, b: int)
    requires p >= 0 && a < b
    ensures p * a + p <= p * b
  {
    var d := b - a - 1;
    assert p * d >= 0;
    assert p * b == p * (a + 1 + d) == p * a + p + p * d;
  }

  lemma MulAssoc(a: int, b: int, c: int)
    ensures (a * b) * c == a * (b * c)
  {}

  lemma MulNegate(a: int, b: int)
    ensures a * -b == -(a * b) && -a * b == -(a * b) && -a * -b == a * b
  {}

  lemma MulDist(a: int, b: int, c: int)
    ensures a * (b + c) == a * b + a * c
  {}

  /** Quotient and remainder are determined by the division equation. */
  lemma DivIs(x: int, d: int, q: int, r: int)
    requires d > 0 && x == d * q + r && 0 <= r < d
    ensures x / d == q && x % d == r
  {
    var q', r' := x / d, x % d;
    assert x == d * q' + r';
    if q < q' { MulGap(d, q, q'); }
    if q' < q { MulGap(d, q', q); }
  }

  lemma DivMod(x: int, d: int)
    requires d > 0
    ensures x == d * (x / d) + x % d && 0 <= x % d < d
  {}

  lemma DivDiv(x: int, a: int, b: int)
    requires a > 0 && b > 0
    ensures a * b > 0 && x / (a * b) == (x / a) / b
    ensures x % (a * b) == a * ((x / a) % b) + x % a
  {
    DivMod(x, a);
    DivMod(x / a, b);
    var q, r := x / a / b, x / a % b;
    MulDist(a, b * q, r);
    MulAssoc(a, b, q);
    MulGap(a, r, b);
    assert a * r >= 0 && a * b > 0;
    DivIs(x, a * b, q, a * r + x % a);
  }

  /** Dividing by more than one makes a positive number smaller. */
  lemma DivShrinks(m: int, f: int)
    requires m > 0 && f > 1
    ensures 0 <= m / f < m
  {
    DivMod(m, f);
    var q := m / f;
    if q < 0 { MulGap(f, q, 0); }
    if q >= m { MulGap(q, 1, f); }
  }

  lemma QuotientBetween(x: int, p: int, a: int, b: int)
    requires p > 0 && a * p <= x < b * p
    ensures a <= x / p < b
  {
    DivMod(x, p);
    var q := x / p;
    if q < a { MulGap(p, q, a); }
    if q >= b { LeFactor(b, q, p); }
  }
}
