/** Quotient digit estimation (Knuth, TAOCP volume 2, section 4.3.1), for any base b. */
module Knuth {
  import opened Arith

  /** A division U / V with quotient q < b, where V has the leading digits v1, v2 and U has the
      leading digits u0, u1, u2, with u01 = u0 * b + u1; w is the weight of the digits v2 and u2. */
  datatype Division = Division(b: int, w: int, u01: int, u2: int, v1: int, v2: int, U: int, V: int, q: int)

  ghost predicate Window(d: Division) {
    && 1 < d.b && 1 <= d.w
    && 1 <= d.v1 && 0 <= d.v2 < d.b && 0 <= d.u01 && 0 <= d.u2 < d.b
    && 0 <= d.V - (d.v1 * d.b + d.v2) * d.w < d.w
    && 0 <= d.U - (d.u01 * d.b + d.u2) * d.w < d.w
    && d.U < d.b * d.V
    && 0 <= d.q && d.q * d.V <= d.U < (d.q + 1) * d.V
  }

  /** The guess g is not too small; ch is the high part of the comparand. */
  ghost predicate Guessed(d: Division, g: int, ch: int) {
    d.q <= g < d.b && ch == d.u01 - g * d.v1
  }

  lemma LeadingDigits(b: int, w: int, v1: int, v2: int, V: int)
    requires 1 < b && 1 <= w && 1 <= v1 && 0 <= v2 && V >= (v1 * b + v2) * w
    ensures V >= v1 * (b * w) >= b * w > 0
  {
    assert (v1 * b + v2) * w == v1 * (b * w) + v2 * w;
    assert v2 * w >= 0 && b * w > 0;
    LeFactor(1, v1, b * w);
  }

  /** U in units of its second digit. */
  lemma NumeratorBelow(b: int, w: int, u01: int, u2: int, U: int)
    requires 0 <= u2 < b && 1 <= w && U - (u01 * b + u2) * w < w
    ensures U < (u01 + 1) * (b * w)
  {
    LeFactor(u2 + 1, b, w);
    assert (u01 * b + u2) * w == u01 * (b * w) + u2 * w;
    assert (u01 + 1) * (b * w) == u01 * (b * w) + b * w;
  }

  lemma QuotientOfLeading(q: int, v1: int, x: int, u01: int, U: int, V: int)
    requires 0 <= q && 0 < x && v1 * x <= V && q * V <= U < (u01 + 1) * x
    ensures q * v1 < u01 + 1
  {
    LeFactor(v1 * x, V, q);
    assert q * (v1 * x) == (q * v1) * x;
    LessFactor(q * v1, u01 + 1, x);
  }

  /** The first guess is never too small. */
  lemma FirstGuess(d: Division, g: int)
    requires Window(d) && (g == d.b - 1 || (g < d.b && d.u01 < (g + 1) * d.v1))
    ensures Guessed(d, g, d.u01 - g * d.v1)
  {
    LeadingDigits(d.b, d.w, d.v1, d.v2, d.V);
    if g == d.b - 1 {
      LessFactor(d.q, d.b, d.V);
    } else {
      NumeratorBelow(d.b, d.w, d.u01, d.u2, d.U);
      QuotientOfLeading(d.q, d.v1, d.b * d.w, d.u01, d.U, d.V);
      LessFactor(d.q, g + 1, d.v1);
    }
  }

  lemma ProductAbove(g: int, d: int, n: int, w: int, U: int, V: int)
    requires 0 <= g && 0 <= w && g * d >= n + 1 && d * w <= V && U < n * w + w
    ensures U < g * V
  {
    LeFactor(d * w, V, g);
    assert g * (d * w) == (g * d) * w;
    LeFactor(n + 1, g * d, w);
    assert (n + 1) * w == n * w + w;
  }

  lemma Comparison(b: int, u01: int, u2: int, v1: int, v2: int, g: int, ch: int)
    requires ch == u01 - g * v1
    ensures g * v2 > ch * b + u2 <==> g * (v1 * b + v2) > u01 * b + u2
  {
    assert g * (v1 * b + v2) == (g * v1) * b + g * v2;
    assert ch * b == u01 * b - (g * v1) * b;
  }

  /** A guess that fails the comparison is too large; the next one is not too small. */
  lemma NextGuess(d: Division, g: int, ch: int)
    requires Window(d) && Guessed(d, g, ch) && g * d.v2 > ch * d.b + d.u2
    ensures Guessed(d, g - 1, ch + d.v1) && g > 0
  {
    Comparison(d.b, d.u01, d.u2, d.v1, d.v2, g, ch);
    ProductAbove(g, d.v1 * d.b + d.v2, d.u01 * d.b + d.u2, d.w, d.U, d.V);
    LeadingDigits(d.b, d.w, d.v1, d.v2, d.V);
    LessFactor(d.q, g, d.V);
    assert (g - 1) * d.v1 == g * d.v1 - d.v1;
  }

  lemma ProductBelow(g: int, d: int, n: int, w: int, U: int, V: int)
    requires 0 <= g && 0 <= w && g * d <= n && n * w <= U
    ensures g * V <= U + g * (V - d * w)
  {
    LeFactor(g * d, n, w);
    assert g * (d * w) == (g * d) * w;
    assert g * (V - d * w) == g * V - g * (d * w);
  }

  lemma RestBound(g: int, rest: int, b: int, w: int)
    requires 0 <= g < b && 0 <= rest < w
    ensures 0 <= g * rest < b * w
  {
    LeFactor(rest, w, g);
    LeFactor(g + 1, b, w);
    assert g * rest == rest * g;
  }

  lemma AtMostOneMore(g: int, q: int, U: int, V: int, e: int)
    requires g * V <= U + e && 0 <= e < V && U < (q + 1) * V
    ensures g <= q + 1
    ensures e == 0 ==> g <= q
  {
    assert (q + 2) * V == (q + 1) * V + V;
    LessFactor(g, q + 2, V);
    if e == 0 { LessFactor(g, q + 1, V); }
  }

  /** A guess that passes the comparison is at most one too large, and exact if the divisor has
      just two digits. */
  lemma LastGuess(d: Division, g: int, ch: int)
    requires Window(d) && Guessed(d, g, ch) && g * d.v2 <= ch * d.b + d.u2
    ensures d.q <= g <= d.q + 1
    ensures d.w == 1 ==> g == d.q
  {
    var vv := d.v1 * d.b + d.v2;
    Comparison(d.b, d.u01, d.u2, d.v1, d.v2, g, ch);
    LeadingDigits(d.b, d.w, d.v1, d.v2, d.V);
    ProductBelow(g, vv, d.u01 * d.b + d.u2, d.w, d.U, d.V);
    RestBound(g, d.V - vv * d.w, d.b, d.w);
    AtMostOneMore(g, d.q, d.U, d.V, g * (d.V - vv * d.w));
    if d.w == 1 { assert g * 0 == 0; }
  }

  /** A number in units of the digit above the one with weight w. */
  lemma InUnits(b: int, w: int, a: int, c: int, n: int)
    requires 1 <= w && 0 <= c < b && 0 <= n - (a * b + c) * w < w
    ensures 0 <= n - a * (b * w) < b * w
  {
    NumeratorBelow(b, w, a, c, n);
    assert (a * b + c) * w == a * (b * w) + c * w;
    assert c * w >= 0;
    assert (a + 1) * (b * w) == a * (b * w) + b * w;
  }

  /** With a normalized divisor, no guess is more than two too large: at most two corrections. */
  lemma NormalizedGuess(d: Division, g: int, ch: int)
    requires Window(d) && Guessed(d, g, ch) && 2 * d.v1 >= d.b && ch >= 0
    ensures g <= d.q + 2
  {
    InUnits(d.b, d.w, d.v1, d.v2, d.V);
    InUnits(d.b, d.w, d.u01, d.u2, d.U);
    ProductBelow(g, d.v1, d.u01, d.b * d.w, d.U, d.V);
    TwoMore(g, d.q, d.b, d.v1, d.b * d.w, d.V - d.v1 * (d.b * d.w), d.U, d.V);
  }

  lemma TwoMore(g: int, q: int, b: int, v1: int, x: int, rest: int, U: int, V: int)
    requires g * V <= U + g * rest && 0 <= g < b && 0 <= rest < x && V == v1 * x + rest && 2 * v1 >= b && v1 > 0
    requires U < (q + 1) * V
    ensures g <= q + 2
  {
    LeFactor(rest, x, g);
    LeFactor(g, 2 * v1, x);
    assert g * rest <= g * x <= (2 * v1) * x == 2 * (v1 * x) <= 2 * V;
    assert (q + 3) * V == (q + 1) * V + 2 * V;
    LessFactor(g, q + 3, V);
  }
}
