/** Rounding an integer to a significand of 53 bits, to nearest with ties to even (IEEE 754-2008,
    section 4.3.1). */
module Rounding {
  import opened Arith
  import opened Bits

  const MANTISSA: nat := 53

  /** m has a significand of at most 53 bits. */
  ghost predicate Representable(m: int) {
    exists h: nat, k: nat :: IsFloat(m, h, k)
  }

  ghost predicate IsFloat(m: int, h: nat, k: nat) {
    m == h * Pow2(k) && h < Pow2(53)
  }

  /** The number of low bits of n that do not fit. */
  function Excess(n: nat): nat {
    if BitLength(n) <= MANTISSA then 0 else BitLength(n) - MANTISSA
  }

  /** n without the bits that do not fit. */
  ghost function Truncated(n: nat): int {
    n / Pow2(Excess(n)) * Pow2(Excess(n))
  }

  /** The bits that do not fit are more than half a unit, or just half and the unit is odd. */
  ghost predicate RoundsUp(n: nat) {
    var s := Excess(n);
    s > 0 && (n % Pow2(s) > Pow2(s - 1) || (n % Pow2(s) == Pow2(s - 1) && n / Pow2(s) % 2 == 1))
  }

  ghost function RoundToEven(n: nat): int {
    Truncated(n) + if RoundsUp(n) then Pow2(Excess(n)) else 0
  }

  function Distance(a: int, b: int): nat {
    if a < b then b - a else a - b
  }

  lemma ExcessBounds(n: nat)
    requires Excess(n) > 0
    ensures var s := Excess(n); Pow2(52) <= n / Pow2(s) < Pow2(53)
  {
    hide Pow2;
    var s := Excess(n);
    BitLengthBounds(n);
    Pow2Add(52, s);
    Pow2Add(53, s);
    QuotientBetween(n, Pow2(s), Pow2(52), Pow2(53));
  }

  lemma OneMore(q: int, p: int)
    ensures (q + 1) * p == q * p + p && q * p == p * q
  {}

  /** The rounded number is representable. */
  lemma RoundedIsRepresentable(n: nat)
    ensures Representable(RoundToEven(n))
  {
    var s := Excess(n);
    if s == 0 {
      BitLengthBounds(n);
      Pow2Monotone(BitLength(n), MANTISSA);
      WholeQuotient(n);
      assert IsFloat(RoundToEven(n), n, 0) by { assert Pow2(0) == 1; }
    } else {
      ExcessBounds(n);
      hide Pow2, Excess;
      var q := n / Pow2(s);
      OneMore(q, Pow2(s));
      if !RoundsUp(n) {
        assert IsFloat(RoundToEven(n), q, s);
      } else if q + 1 < Pow2(53) {
        assert IsFloat(RoundToEven(n), q + 1, s);
      } else {
        Pow2Add(52, s + 1);
        Pow2Add(53, s);
        Pow2Halves(53);
        assert IsFloat(RoundToEven(n), Pow2(52), s + 1);
      }
    }
  }

  lemma Pow2Halves(k: nat)
    requires k > 0
    ensures Pow2(k) == 2 * Pow2(k - 1) > Pow2(k - 1)
  {}

  lemma WholeQuotient(n: int)
    ensures n / Pow2(0) * Pow2(0) == n && n % Pow2(0) == 0
  {
    assert n / 1 == n;
  }

  lemma TruncatedGap(n: nat)
    ensures Truncated(n) <= n < Truncated(n) + Pow2(Excess(n)) && n - Truncated(n) == n % Pow2(Excess(n))
  {
    DivMod(n, Pow2(Excess(n)));
  }

  /** A float with at least the unit 2^s is a multiple of it. */
  lemma MultipleOfUnit(q: int, h: nat, k: nat, s: nat)
    requires k >= s
    ensures h * Pow2(k) <= q * Pow2(s) || h * Pow2(k) >= q * Pow2(s) + Pow2(s)
  {
    Pow2Add(k - s, s);
    hide Pow2;
    var j := h * Pow2(k - s);
    MulAssoc(h, Pow2(k - s), Pow2(s));
    OneMore(q, Pow2(s));
    if j <= q { LeFactor(j, q, Pow2(s)); } else { LeFactor(q + 1, j, Pow2(s)); }
  }

  /** A float with a smaller unit is below 2^(52 + s). */
  lemma SmallerUnit(q: int, h: nat, k: nat, s: nat)
    requires k < s && h < Pow2(53) && Pow2(52) <= q
    ensures h * Pow2(k) <= q * Pow2(s)
  {
    Pow2Monotone(k, s - 1);
    Pow2Add(53, s - 1);
    Pow2Add(52, s);
    hide Pow2;
    MulBound(h, Pow2(k), Pow2(53), Pow2(s - 1));
    LeFactor(Pow2(52), q, Pow2(s));
  }

  /** No representable number lies strictly between the two neighbours. */
  lemma Neighbours(n: nat, m: int)
    requires Representable(m) && Excess(n) > 0
    ensures m <= Truncated(n) || m >= Truncated(n) + Pow2(Excess(n))
  {
    hide Pow2, Excess;
    var h: nat, k: nat :| IsFloat(m, h, k);
    var s := Excess(n);
    ExcessBounds(n);
    if k >= s { MultipleOfUnit(n / Pow2(s), h, k, s); } else { SmallerUnit(n / Pow2(s), h, k, s); }
  }

  /** The rounded number is a nearest representable number; of two equally near ones it is the one
      with the even significand. */
  lemma RoundedIsNearest(n: nat, m: int)
    requires Representable(m)
    ensures Distance(n, RoundToEven(n)) <= Distance(n, m)
    ensures Excess(n) > 0 && n % Pow2(Excess(n)) == Pow2(Excess(n) - 1) ==> RoundToEven(n) / Pow2(Excess(n)) % 2 == 0
  {
    var s := Excess(n);
    if s == 0 {
      WholeQuotient(n);
    } else {
      Neighbours(n, m);
      TruncatedGap(n);
      Pow2Halves(s);
      RoundedQuotient(n);
      hide Excess, Pow2, Truncated;
    }
  }

  lemma RoundedQuotient(n: nat)
    ensures RoundToEven(n) / Pow2(Excess(n)) == n / Pow2(Excess(n)) + if RoundsUp(n) then 1 else 0
  {
    hide Pow2, Excess;
    var q, p := n / Pow2(Excess(n)), Pow2(Excess(n));
    OneMore(q, p);
    DivIs(q * p, p, q, 0);
    OneMore(q + 1, p);
    DivIs((q + 1) * p, p, q + 1, 0);
  }

  /** The powers of two around the largest double, (2^53 - 1) 2^971. */
  lemma AroundLargest()
    ensures Pow2(1024) == Pow2(53) * Pow2(971) == 2 * Pow2(1023) && Pow2(971) == 2 * Pow2(970) && Pow2(970) > 0
    ensures Pow2(971) <= Pow2(1023) && (Pow2(53) - 1) * Pow2(971) == Pow2(1024) - Pow2(971)
    ensures Pow2(53) - 1 >= 0 && Pow2(53) % 2 == 0
  {
    hide Pow2;
    Pow2Add(53, 971);
    Pow2Halves(1024);
    Pow2Halves(971);
    Pow2Halves(53);
    Pow2Monotone(971, 1023);
    OneMore(Pow2(53) - 1, Pow2(971));
  }

  /** What lies in the unit below 2^1024. */
  lemma LastUnit(n: nat, r: int)
    requires n == Pow2(1024) - Pow2(971) + r && 0 <= r < Pow2(971)
    ensures Excess(n) == 971 && n / Pow2(971) == Pow2(53) - 1 && n % Pow2(971) == r
    ensures Truncated(n) == Pow2(1024) - Pow2(971)
  {
    hide Pow2, BitLength;
    AroundLargest();
    BitLengthIs(n, 1024);
    var q := Pow2(53) - 1;
    assert n == Pow2(971) * q + r by { assert Pow2(971) * q == q * Pow2(971); }
    DivIs(n, Pow2(971), q, r);
    assert n % Pow2(971) == r by { DivMod(n, Pow2(971)); }
  }

  /** The rounded number leaves the range of the doubles from half a unit below 2^1024 on. */
  lemma OverflowThreshold(n: nat)
    ensures RoundToEven(n) >= Pow2(1024) <==> n >= Pow2(1024) - Pow2(970)
  {
    hide Pow2, Excess, Truncated, RoundsUp, RoundToEven;
    AroundLargest();
    var t, p := Pow2(1024), Pow2(1024) - Pow2(971);
    Pow2Halves(53);
    Pow2Monotone(0, 52);
    assert IsFloat(t, 1, 1024);
    assert IsFloat(p, Pow2(53) - 1, 971);
    RoundedIsNearest(n, t);
    RoundedIsNearest(n, p);
    RoundedIsRepresentable(n);
    LastUnit(t - 1, Pow2(971) - 1);
    Neighbours(t - 1, RoundToEven(n));
    if n == t - Pow2(970) { HalfWay(n); }
  }

  /** Half a unit below 2^1024 the even significand is above. */
  lemma HalfWay(n: nat)
    requires n == Pow2(1024) - Pow2(970)
    ensures RoundToEven(n) == Pow2(1024)
  {
    hide Pow2, Excess, Truncated;
    AroundLargest();
    LastUnit(n, Pow2(970));
  }
}
