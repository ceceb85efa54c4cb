/** Integer division: quotient and remainder, truncated toward zero. */
module BignumDivision {
  import opened Arith
  import opened Bits
  import opened BignumDigits
  import opened BignumRepr
  import opened BignumAdd
  import opened BignumMultiply
  import opened BignumDigitDivide
  import opened BignumLongDivision
  import opened BignumScaling

  function Abs(n: int): int {
    if n < 0 then -n else n
  }

  function Signed(negative: bool, m: int): int {
    if negative then -m else m
  }

  /** Truncating division. */
  ghost function Quot(n: int, d: int): int
    requires d != 0
  {
    Signed((n < 0) != (d < 0), Abs(n) / Abs(d))
  }

  ghost function Rem(n: int, d: int): int
    requires d != 0
  {
    Signed(n < 0, Abs(n) % Abs(d))
  }

  /** q and r are the quotient and remainder of n by d: the remainder is smaller than the divisor,
      and zero or of the sign of n. */
  ghost predicate DividesTo(n: int, d: int, q: int, r: int) {
    n == q * d + r && Abs(r) < Abs(d) && (r == 0 || (r < 0) == (n < 0))
  }

  lemma QuotRem(n: int, d: int)
    requires d != 0
    ensures DividesTo(n, d, Quot(n, d), Rem(n, d))
  {
    var a, b := Abs(n), Abs(d);
    DivMod(a, b);
    MulNegate(a / b, b);
  }

  lemma {:induction false} DivisionUnique(n: int, d: int, q: int, r: int)
    requires d != 0 && DividesTo(n, d, q, r)
    ensures q == Quot(n, d) && r == Rem(n, d)
  {
    QuotRem(n, d);
    var q', r' := Quot(n, d), Rem(n, d);
    MulDist(d, q, -q');
    MulNegate(d, q');
    assert d * (q - q') == r' - r;
    var k := Abs(q - q');
    if q != q' {
      MulNegate(d, q - q');
      MulGap(Abs(d), 0, k);
    }
  }

  /** The results for magnitudes. */
  ghost predicate Results(n: int, d: int, quotient: array?<Word>, remainder: array?<Word>, qNegative: bool,
                          rNegative: bool)
    requires d > 0
    reads if quotient == null then {} else {quotient}, if remainder == null then {} else {remainder}
  {
    && (quotient != null ==> Valid(quotient) && Value(quotient) == Signed(qNegative, n / d))
    && (remainder != null ==> Valid(remainder) && Value(remainder) == Signed(rNegative, n % d))
  }

  /** The shift that normalizes the top digit v1. */
  method NormalizingShift(v1: Word) returns (shift: nat, normalized: Word)
    requires 0 < v1 < RADIX
    ensures shift < 62 && RADIX / 2 <= normalized < RADIX && normalized == Pow2(shift) * v1
  {
    normalized, shift := v1, 0;
    while normalized < RADIX / 2
      invariant shift < 62 && 0 < normalized < RADIX && normalized == Pow2(shift) * v1
      decreases RADIX - normalized
    {
      MulAssoc(2, Pow2(shift), v1);
      assert Pow2(shift + 1) == 2 * Pow2(shift);
      normalized := 2 * normalized;
      shift := shift + 1;
      ShiftLimit(shift, v1, normalized);
    }
  }

  lemma ShiftLimit(shift: nat, v1: int, n: int)
    requires v1 > 0 && n == Pow2(shift) * v1 && n < RADIX
    ensures shift < 62
  {
    if shift >= 62 {
      Pow2Monotone(62, shift);
      Pow2Word();
      MulAtLeast(Pow2(shift), v1);
    }
  }

  /** Scaling numerator and denominator by f scales the remainder and keeps the quotient. */
  lemma ScaledDivision(n: int, d: int, f: int)
    requires n >= 0 && d > 0 && f > 0
    ensures f * d > 0 && (f * n) / (f * d) == n / d && (f * n) % (f * d) == f * (n % d)
    ensures f * (n % d) / f == n % d
  {
    DivMod(n, d);
    MulDist(f, d * (n / d), n % d);
    MulAssoc(f, d, n / d);
    MulGap(f, n % d, d);
    assert f * (n % d) >= 0 && f * d > 0;
    DivIs(f * n, f * d, n / d, f * (n % d));
    DivIs(f * (n % d), f, n % d, 0);
  }

  /** Divide by a denominator of one digit below the half radix. */
  method DivideUnsignedSmallDenominator(numerator: Bignum, denominator: Word, wantRemainder: bool, qNegative: bool,
                                        rNegative: bool)
    returns (quotient: array?<Word>, remainder: array?<Word>)
    requires Valid(numerator) && !IsZero(numerator) && 1 < denominator < R
    ensures quotient != null && (remainder != null <==> wantRemainder)
    ensures Results(Magnitude(numerator), denominator, quotient, remainder, qNegative, rNegative)
  {
    hide Val, Pow;
    var q := NewSign(numerator, qNegative);
    var r := DestructiveScaleDown(q, denominator);
    q := Trim(q);
    quotient, remainder := q, null;
    if wantRemainder {
      remainder := DigitToBignum(r, rNegative);
    }
  }

  /** Divide the digits of q in place by a normalized digit. */
  method DivideDigits(q: Bignum, v: Word) returns (r: Word)
    requires Shaped(q) && Digits(DigitsOf(q)) && RADIX / 2 <= v < RADIX
    modifies q
    ensures q[0] == old(q[0]) && Shaped(q) && Len(q) == old(Len(q)) && Digits(DigitsOf(q))
    ensures Magnitude(q) == old(Magnitude(q)) / v && r == old(Magnitude(q)) % v
  {
    hide Val, Pow, Divided;
    ghost var ds := DigitsOf(q);
    r := 0;
    var scan := 1 + Len(q);
    DividedStart(v);
    assert q[scan..scan] == [] && ds[scan - 1..] == [];
    while 1 < scan
      invariant 1 <= scan <= 1 + |ds| && q[0] == old(q[0]) && 0 <= r < v
      invariant forall i :: 1 <= i < scan ==> q[i] == ds[i - 1]
      invariant Divided(ds[scan - 1..], v, q[scan..1 + |ds|], r)
    {
      ghost var qs, r0 := q[scan..1 + |ds|], r;
      scan := scan - 1;
      var qj;
      r, qj := DigitDivide(r, q[scan], v);
      q[scan] := qj;
      assert q[scan..1 + |ds|] == [qj] + qs && ds[scan - 1..] == [ds[scan - 1]] + ds[scan..];
      DividedStep(ds[scan..], v, qs, r0, ds[scan - 1], qj, r);
    }
    assert ds[0..] == ds && q[1..1 + |ds|] == DigitsOf(q);
    DividedIs(ds, v, DigitsOf(q), r);
  }

  /** The same, when only the remainder is wanted. */
  method RemainderDigits(q: Bignum, v: Word) returns (r: Word)
    requires Shaped(q) && Digits(DigitsOf(q)) && RADIX / 2 <= v < RADIX
    ensures r == Magnitude(q) % v
  {
    hide Val, Pow, Divided;
    ghost var ds, qs: seq<int> := DigitsOf(q), [];
    r := 0;
    var scan := 1 + Len(q);
    DividedStart(v);
    assert ds[scan - 1..] == [];
    while 1 < scan
      invariant 1 <= scan <= 1 + |ds| && 0 <= r < v
      invariant Divided(ds[scan - 1..], v, qs, r)
    {
      ghost var r0 := r;
      scan := scan - 1;
      assert q[scan] == ds[scan - 1];
      var qj;
      r, qj := DigitDivide(r, q[scan], v);
      assert ds[scan - 1..] == [ds[scan - 1]] + ds[scan..];
      DividedStep(ds[scan..], v, qs, r0, ds[scan - 1], qj, r);
      qs := [qj] + qs;
    }
    assert ds[0..] == ds;
    DividedIs(ds, v, qs, r);
  }

  /** A copy of b shifted left, one digit longer unless nothing is shifted. */
  method ShiftedCopy(b: Bignum, shift: nat, negative: bool) returns (c: Bignum)
    requires Valid(b) && !IsZero(b) && Len(b) < LENGTH_MAX && shift < 62
    ensures fresh(c) && Shaped(c) && Digits(DigitsOf(c)) && Negative(c) == negative && Len(c) == if shift == 0
      then Len(b) else Len(b) + 1
    ensures Magnitude(c) == Pow2(shift) * Magnitude(b)
  {
    hide Val, Pow, Pow2;
    if shift == 0 {
      c := Allocate(Len(b), negative);
      DestructiveCopy(b, c);
      assert DigitsOf(c)[..Len(b)] == DigitsOf(c);
      ShiftNone(Magnitude(b));
    } else {
      c := Allocate(Len(b) + 1, negative);
      MagnitudeBounds(b);
      ShiftBelowRadix(shift);
      FitsAbove(Pow2(shift), Magnitude(b), Len(b));
      DestructiveNormalization(b, c, shift);
    }
  }

  lemma ShiftNone(m: int)
    ensures Pow2(0) * m == m
  {}

  lemma ShiftBelowRadix(k: nat)
    requires k < 62
    ensures 0 < Pow2(k) < RADIX
  {
    Pow2Monotone(k + 1, 62);
    Pow2Word();
  }

  /** The remainder of the normalized division, shifted back. */
  method ShiftedRemainder(r0: Word, shift: nat, negative: bool, ghost n: int, ghost d: int) returns (remainder: Bignum)
    requires n >= 0 && 0 < d < RADIX && r0 == Pow2(shift) * (n % d) && 0 <= r0
    ensures fresh(remainder) && Valid(remainder) && Value(remainder) == Signed(negative, n % d)
  {
    hide Val, Pow;
    var r := r0;
    if shift != 0 {
      r := r / Pow2(shift);
    }
    DivIs(r0, Pow2(shift), n % d, 0);
    assert Pow2(0) == 1;
    remainder := DigitToBignum(r, negative);
  }

  /** Divide by a denominator of one digit. */
  method DivideUnsignedMediumDenominator(numerator: Bignum, denominator: Word, wantQuotient: bool, wantRemainder: bool,
                                         qNegative: bool, rNegative: bool)
    returns (quotient: array?<Word>, remainder: array?<Word>)
    requires Valid(numerator) && !IsZero(numerator) && 0 < denominator < RADIX && Len(numerator) < LENGTH_MAX
    ensures (quotient != null <==> wantQuotient) && (remainder != null <==> wantRemainder)
    ensures Results(Magnitude(numerator), denominator, quotient, remainder, qNegative, rNegative)
  {
    hide Val, Pow, Pow2;
    quotient, remainder := null, null;
    var shift, v := NormalizingShift(denominator);
    var q := ShiftedCopy(numerator, shift, qNegative);
    ghost var n := Magnitude(numerator);
    MagnitudeBounds(numerator);
    ScaledDivision(n, denominator, Pow2(shift));
    ghost var nq, nr := n / denominator, Magnitude(q) % v;
    assert nq == Magnitude(q) / v && nr == Pow2(shift) * (n % denominator);
    var r;
    if wantQuotient {
      r := DivideDigits(q, v);
      quotient := Trim(q);
      assert Value(quotient) == Signed(qNegative, nq);
    } else {
      r := RemainderDigits(q, v);
    }
    assert r == nr;
    if wantRemainder {
      remainder := ShiftedRemainder(r, shift, rNegative, n, denominator);
    }
  }

  /** The leading digit of a number of n digits that is at least k times RADIX^(n-1). */
  lemma LeadingDigit(s: seq<int>, k: int)
    requires Digits(s) && s != [] && Val(s) >= k * Pow(|s| - 1)
    ensures s[|s| - 1] >= k
  {
    hide Val, Pow;
    var n := |s| - 1;
    Prefix(s, n);
    assert s[..n + 1] == s;
    ValBound(s[..n]);
    assert Pow(n) * k == k * Pow(n);
    if s[n] < k { MulGap(Pow(n), s[n], k); }
  }

  /** Shifting by f puts the leading digit into the upper half and still fits. */
  lemma NormalizedFits(s: seq<int>, f: int, g: int)
    requires Digits(s) && s != [] && f * g == RADIX && f > 0 && RADIX / 2 <= f * s[|s| - 1] < RADIX
    ensures RADIX / 2 * Pow(|s| - 1) <= f * Val(s) < Pow(|s|)
  {
    var n, v1 := |s| - 1, s[|s| - 1];
    PowUp(n);
    hide Val, Pow;
    Prefix(s, n);
    assert s[..n + 1] == s;
    ValBound(s[..n]);
    FitsArithmetic(f, g, v1, Pow(n), Val(s));
  }

  lemma FitsArithmetic(f: int, g: int, v1: int, p: int, x: int)
    requires f * g == RADIX && f > 0 && p > 0 && RADIX / 2 <= f * v1 < RADIX && p * v1 <= x < p * v1 + p
    ensures RADIX / 2 * p <= f * x < RADIX * p
  {
    if v1 >= g { MulGap(f, g - 1, v1); }
    LeFactor(v1 + 1, g, p * f);
    LeFactor(RADIX / 2, f * v1, p);
    LeFactor(p * v1, x, f);
    LeFactor(x + 1, p * (v1 + 1), f);
    assert (p * v1) * f == (f * v1) * p && (p * (v1 + 1)) * f == (v1 + 1) * (p * f) && g * (p * f) == (f * g) * p;
    assert p * (v1 + 1) == p * v1 + p;
  }

  /** The upper digits of the shifted numerator are less than the shifted denominator. */
  lemma UpperDigits(us: seq<int>, f: int, N: int, D: int, n: nat)
    requires Digits(us) && 0 < n <= |us| && Val(us) == f * N && f > 0
    requires N < Pow(|us| - 1) && D >= Pow(n - 1)
    ensures Val(us[|us| - n..]) < f * D
  {
    hide Val, Pow;
    var k := |us| - n;
    ValSplit(us, k);
    ValBound(us[..k]);
    PowAdd(k, n - 1);
    if Val(us[k..]) >= f * D {
      LeFactor(f * D, Val(us[k..]), Pow(k));
      LeFactor(Pow(n - 1), D, f * Pow(k));
      assert Pow(n - 1) * (f * Pow(k)) == f * Pow(|us| - 1) && (f * D) * Pow(k) == D * (f * Pow(k));
      MulGap(f, N, Pow(|us| - 1));
      assert false;
    }
  }

  /** The denominator shifted so that its leading digit is in the upper half. */
  method NormalizedDenominator(b: Bignum, shift: nat) returns (v: Bignum)
    requires Valid(b) && !IsZero(b) && shift < 62 && RADIX / 2 <= Pow2(shift) * b[Len(b)] < RADIX
    ensures Valid(v) && Len(v) == Len(b) && Magnitude(v) == Pow2(shift) * Magnitude(b) && v[Len(v)] >= RADIX / 2
    ensures v == b || fresh(v)
  {
    hide Val, Pow, Pow2;
    ghost var ds := DigitsOf(b);
    assert ds[|ds| - 1] == b[Len(b)];
    if shift == 0 {
      ShiftNone(Magnitude(b));
      ShiftNone(b[Len(b)]);
      return b;
    }
    v := Allocate(Len(b), false);
    ShiftFactors(shift);
    NormalizedFits(ds, Pow2(shift), Pow2(62 - shift));
    DestructiveNormalization(b, v, shift);
    LeadingDigit(DigitsOf(v), RADIX / 2);
    assert DigitsOf(v)[Len(v) - 1] == v[Len(v)];
  }

  /** The numerator shifted, with one more digit. */
  method NormalizedNumerator(b: Bignum, shift: nat, negative: bool) returns (u: Bignum)
    requires Valid(b) && !IsZero(b) && shift < 62 && Len(b) < LENGTH_MAX
    ensures fresh(u) && Shaped(u) && Digits(DigitsOf(u)) && Len(u) == Len(b) + 1 && Negative(u) == negative
    ensures Magnitude(u) == Pow2(shift) * Magnitude(b)
  {
    hide Val, Pow, Pow2;
    if shift == 0 {
      u := CopyExtended(b, negative);
      ShiftNone(Magnitude(b));
    } else {
      u := ShiftedCopy(b, shift, negative);
    }
  }

  /** Divide the shifted numerator u by the shifted denominator v. */
  method DivideShifted(u: Bignum, v: Bignum, q: array?<Word>, shift: nat, ghost N: int, ghost D: int)
    returns (ghost qs: seq<int>)
    requires Shaped(u) && Digits(DigitsOf(u)) && Valid(v) && u != v && 2 <= Len(v) < Len(u) && v[Len(v)] >= RADIX / 2
    requires Magnitude(u) == Pow2(shift) * N && Magnitude(v) == Pow2(shift) * D
    requires 0 <= N < Pow(Len(u) - 1) && D >= Pow(Len(v) - 1)
    requires q != null ==> q != u && q != v && Shaped(q) && Len(q) == Len(u) - Len(v)
    modifies u, q
    ensures u[0] == old(u[0]) && Shaped(u) && Len(u) == old(Len(u)) && Digits(DigitsOf(u))
    ensures D > 0 && Magnitude(u) == Pow2(shift) * (N % D)
    ensures Digits(qs) && Val(qs) == N / D
    ensures q != null ==> q[0] == old(q[0]) && Shaped(q) && Len(q) == old(Len(q)) && DigitsOf(q) == qs
  {
    hide Val, Pow, Pow2;
    UpperDigits(DigitsOf(u), Pow2(shift), N, D, Len(v));
    qs := DivideUnsignedNormalized(u, v, q);
    ValBound(DigitsOf(u));
    LargeResult(N, D, Pow2(shift), Val(qs), Magnitude(u));
  }

  lemma LargeReady(x: Bignum, y: Bignum)
    requires Valid(x) && Valid(y) && Len(y) > 1 && Magnitude(x) >= Magnitude(y)
    ensures Len(x) >= Len(y) && 0 <= Magnitude(x) < Pow(Len(x)) && Magnitude(y) >= Pow(Len(y) - 1) > 0
    ensures 0 < y[Len(y)] < RADIX
  {
    hide Val, Pow;
    MagnitudeBounds(x);
    MagnitudeBounds(y);
    if Len(x) < Len(y) { CompareLengths(x, y); }
    assert DigitsOf(y)[Len(y) - 1] == y[Len(y)];
  }

  /** Divide by a denominator of several digits. */
  method DivideUnsignedLargeDenominator(numerator: Bignum, denominator: Bignum, wantQuotient: bool, wantRemainder: bool,
                                        qNegative: bool, rNegative: bool)
    returns (quotient: array?<Word>, remainder: array?<Word>)
    requires Valid(numerator) && Valid(denominator) && Len(denominator) > 1
    requires Magnitude(numerator) >= Magnitude(denominator) && Len(numerator) < LENGTH_MAX
    ensures (quotient != null <==> wantQuotient) && (remainder != null <==> wantRemainder)
    ensures Magnitude(denominator) > 0
    ensures Results(Magnitude(numerator), Magnitude(denominator), quotient, remainder, qNegative, rNegative)
  {
    hide Val, Pow, Pow2;
    hide Digits;
    ghost var N, D := Magnitude(numerator), Magnitude(denominator);
    LargeReady(numerator, denominator);
    var shift, _ := NormalizingShift(denominator[Len(denominator)]);
    var q: array?<Word> := null;
    if wantQuotient {
      q := Allocate(Len(numerator) + 1 - Len(denominator), qNegative);
    }
    var u := NormalizedNumerator(numerator, shift, rNegative);
    var v := NormalizedDenominator(denominator, shift);
    ghost var qs := DivideShifted(u, v, q, shift, N, D);
    quotient, remainder := FinishLarge(u, q, shift, wantRemainder, qNegative, rNegative, N, D);
  }

  /** Trim the quotient and shift the remainder back. */
  method FinishLarge(u: Bignum, q: array?<Word>, shift: nat, wantRemainder: bool, qNegative: bool, rNegative: bool,
                     ghost N: int, ghost D: int)
    returns (quotient: array?<Word>, remainder: array?<Word>)
    requires Shaped(u) && Digits(DigitsOf(u)) && Len(u) > 0 && Negative(u) == rNegative && shift < 62 && u != q
    requires D > 0 && Magnitude(u) == Pow2(shift) * (N % D)
    requires q != null ==>
      Shaped(q) && Digits(DigitsOf(q)) && Len(q) > 0 && Negative(q) == qNegative && Magnitude(q) == N / D
    modifies u, q
    ensures quotient == q && (remainder != null <==> wantRemainder)
    ensures Results(N, D, quotient, remainder, qNegative, rNegative)
  {
    hide Val, Pow, Pow2, Digits;
    ghost var nq, nr := N / D, N % D;
    quotient, remainder := null, null;
    if q != null {
      quotient := Trim(q);
      assert Value(quotient) == Signed(qNegative, nq);
    }
    if wantRemainder {
      remainder := Unnormalized(u, shift, nr);
    }
  }

  /** The remainder shifted back. */
  method Unnormalized(u: Bignum, shift: nat, ghost m: int) returns (r: Bignum)
    requires Shaped(u) && Digits(DigitsOf(u)) && Len(u) > 0 && shift < 62 && Magnitude(u) == Pow2(shift) * m
    modifies u
    ensures r == u && Valid(r) && Value(r) == Signed(old(Negative(u)), m)
  {
    hide Val, Pow, Pow2;
    if shift != 0 {
      DestructiveUnnormalization(u, shift, m);
    } else {
      ShiftNone(m);
    }
    r := Trim(u);
  }

  lemma LargeResult(N: int, D: int, f: int, q: int, u: int)
    requires N >= 0 && D > 0 && f > 0 && q * (f * D) + u == f * N && 0 <= u < f * D
    ensures q == N / D && u == f * (N % D)
  {
    ScaledDivision(N, D, f);
    DivIs(f * N, f * D, q, u);
  }

  /** What the three exported operations do when the magnitude of n exceeds that of d. */
  method DivideGreater(n: Bignum, d: Bignum, wantQuotient: bool, wantRemainder: bool, qNegative: bool, rNegative: bool)
    returns (quotient: array?<Word>, remainder: array?<Word>)
    requires Valid(n) && Valid(d) && !IsZero(n) && !IsZero(d) && Magnitude(n) > Magnitude(d) && Len(n) < LENGTH_MAX
    requires Len(d) == 1 && d[1] < R ==> d[1] > 1 && wantQuotient
    ensures (quotient != null <==> wantQuotient) && (remainder != null <==> wantRemainder)
    ensures Magnitude(d) > 0 && Results(Magnitude(n), Magnitude(d), quotient, remainder, qNegative, rNegative)
  {
    hide Val, Pow;
    MagnitudeBounds(d);
    if Len(d) == 1 {
      OneDigit(d);
      assert d[1] == DigitsOf(d)[0];
      if d[1] < R {
        quotient, remainder := DivideUnsignedSmallDenominator(n, d[1], wantRemainder, qNegative, rNegative);
      } else {
        quotient,
          remainder := DivideUnsignedMediumDenominator(n, d[1], wantQuotient, wantRemainder, qNegative, rNegative);
      }
    } else {
      quotient, remainder := DivideUnsignedLargeDenominator(n, d, wantQuotient, wantRemainder, qNegative, rNegative);
    }
  }

  lemma SmallCases(n: Bignum, d: Bignum)
    requires Valid(n) && Valid(d) && !IsZero(d)
    ensures Value(d) != 0 && Abs(Value(n)) == Magnitude(n) >= 0 && Abs(Value(d)) == Magnitude(d) > 0
    ensures (Value(d) < 0) == Negative(d) && (!IsZero(n) ==> (Value(n) < 0) == Negative(n))
    ensures IsZero(n) ==> Quot(Value(n), Value(d)) == Rem(Value(n), Value(d)) == 0 == Value(n)
    ensures Magnitude(n) < Magnitude(d) ==> Quot(Value(n), Value(d)) == 0 && Rem(Value(n), Value(d)) == Value(n)
    ensures Magnitude(n) == Magnitude(d) ==>
      Quot(Value(n), Value(d)) == Signed(Negative(n) != Negative(d), 1) && Rem(Value(n), Value(d)) == 0
    ensures Len(d) == 1 ==> Magnitude(d) == d[1]
  {
    hide Val, Pow;
    MagnitudeBounds(n);
    MagnitudeBounds(d);
    if Len(d) == 1 { OneDigit(d); }
    var a, b := Magnitude(n), Magnitude(d);
    if a < b { DivIs(a, b, 0, a); }
    if a == b { DivIs(a, b, 1, 0); }
  }

  lemma DivideByOne(n: int)
    ensures n / 1 == n && n % 1 == 0
  {}

  /** bignum_divide: both results.  It fails just when the denominator is zero. */
  method Divide(numerator: Bignum, denominator: Bignum)
    returns (failed: bool, quotient: array?<Word>, remainder: array?<Word>)
    requires Valid(numerator) && Valid(denominator) && Len(numerator) < LENGTH_MAX
    ensures failed == (Value(denominator) == 0)
    ensures !failed ==> quotient != null && remainder != null && Valid(quotient) && Valid(remainder)
    ensures !failed ==> Value(quotient) == Quot(Value(numerator), Value(denominator))
    ensures !failed ==> Value(remainder) == Rem(Value(numerator), Value(denominator))
  {
    hide Val, Pow;
    MagnitudeBounds(denominator);
    if IsZero(denominator) {
      return true, null, null;
    }
    failed := false;
    SmallCases(numerator, denominator);
    if IsZero(numerator) {
      return false, numerator, numerator;
    }
    var rNegative := Negative(numerator);
    var qNegative := if Negative(denominator) then !rNegative else rNegative;
    var c := CompareUnsigned(numerator, denominator);
    match c {
      case Equal =>
        quotient := MakeOne(qNegative);
        remainder := MakeZero();
      case Less =>
        quotient := MakeZero();
        remainder := numerator;
      case Greater =>
        if Len(denominator) == 1 && denominator[1] == 1 {
          DivideByOne(Magnitude(numerator));
          quotient := MaybeNewSign(numerator, qNegative);
          remainder := MakeZero();
        } else {
          quotient, remainder := DivideGreater(numerator, denominator, true, true, qNegative, rNegative);
        }
    }
  }

  /** bignum_quotient; out of band (null) for a zero denominator. */
  method Quotient(numerator: Bignum, denominator: Bignum) returns (quotient: array?<Word>)
    requires Valid(numerator) && Valid(denominator) && Len(numerator) < LENGTH_MAX
    ensures (quotient == null) == (Value(denominator) == 0)
    ensures quotient != null ==> Valid(quotient) && Value(quotient) == Quot(Value(numerator), Value(denominator))
  {
    hide Val, Pow;
    MagnitudeBounds(denominator);
    if IsZero(denominator) {
      return null;
    }
    SmallCases(numerator, denominator);
    if IsZero(numerator) {
      return numerator;
    }
    var qNegative := if Negative(denominator) then !Negative(numerator) else Negative(numerator);
    var c := CompareUnsigned(numerator, denominator);
    match c {
      case Equal =>
        quotient := MakeOne(qNegative);
      case Less =>
        quotient := MakeZero();
      case Greater =>
        if Len(denominator) == 1 && denominator[1] == 1 {
          DivideByOne(Magnitude(numerator));
          quotient := MaybeNewSign(numerator, qNegative);
        } else {
          var none;
          quotient, none := DivideGreater(numerator, denominator, true, false, qNegative, false);
        }
    }
  }

  /** The remainder of the digits of n by a half digit, without writing a quotient. */
  method RemainderUnsignedSmallDenominator(n: Bignum, d: Word, negative: bool) returns (remainder: Bignum)
    requires Valid(n) && 1 < d < R
    ensures Valid(remainder) && Value(remainder) == Signed(negative, Magnitude(n) % d)
  {
    hide Val, Pow, Divided;
    ghost var ds, qs: seq<int> := DigitsOf(n), [];
    var r: Word := 0;
    var scan := 1 + Len(n);
    DividedStart(d);
    assert ds[scan - 1..] == [];
    while 1 < scan
      invariant 1 <= scan <= 1 + |ds| && 0 <= r < d
      invariant Divided(ds[scan - 1..], d, qs, r)
    {
      ghost var r0 := r;
      scan := scan - 1;
      assert n[scan] == ds[scan - 1];
      var q;
      q, r := ScaleDownDigit(n[scan], d, r);
      assert ds[scan - 1..] == [ds[scan - 1]] + ds[scan..];
      DividedStep(ds[scan..], d, qs, r0, ds[scan - 1], q, r);
      qs := [q] + qs;
    }
    assert ds[0..] == ds;
    DividedIs(ds, d, qs, r);
    remainder := DigitToBignum(r, negative);
  }

  /** The low digit decides the remainder by a power of two. */
  lemma PowerRemainder(s: seq<int>, k: nat, d: int)
    requires Digits(s) && s != [] && d == Pow2(k) && d < RADIX
    ensures Val(s) % d == s[0] % d
  {
    if k >= 62 { Pow2Monotone(62, k); Pow2Word(); }
    ShiftFactors(k);
    var g, t := Pow2(62 - k), Val(s[1..]);
    assert Val(s) == s[0] + RADIX * t;
    hide Val, Pow, Pow2;
    MulAssoc(d, g, t);
    DivMod(s[0], d);
    MulDist(d, s[0] / d, g * t);
    DivIs(Val(s), d, s[0] / d + g * t, s[0] % d);
  }

  lemma MaskedRemainder(s: seq<int>, d: nat)
    requires Digits(s) && s != [] && 0 < d < RADIX && Combine(And, d, d - 1) == 0
    ensures Combine(And, d - 1, s[0]) == Val(s) % d < RADIX
  {
    var k := PowerTest(d);
    hide Val, Pow, Combine;
    AndMask(s[0], k);
    PowerRemainder(s, k, d);
    DivMod(Val(s), d);
  }

  /** The path for denominators that are a power of two. */
  method RemainderPowerOfTwo(numerator: Bignum, digit: Word) returns (remainder: Bignum)
    requires Valid(numerator) && !IsZero(numerator) && 0 < digit < RADIX && Combine(And, digit, digit - 1) == 0
    ensures Valid(remainder) && Value(remainder) == Signed(Negative(numerator), Magnitude(numerator) % digit)
  {
    hide Val, Pow;
    hide Combine;
    assert numerator[1] == DigitsOf(numerator)[0];
    MaskedRemainder(DigitsOf(numerator), digit);
    ghost var rem := Magnitude(numerator) % digit;
    var unsignedRemainder := Combine(And, digit - 1, numerator[1]);
    if unsignedRemainder == 0 {
      remainder := MakeZero();
    } else {
      remainder := DigitToBignum(unsignedRemainder, Negative(numerator));
    }
  }

  /** bignum_remainder; out of band (null) for a zero denominator. */
  method Remainder(numerator: Bignum, denominator: Bignum) returns (remainder: array?<Word>)
    requires Valid(numerator) && Valid(denominator) && Len(numerator) < LENGTH_MAX
    ensures (remainder == null) == (Value(denominator) == 0)
    ensures remainder != null ==> Valid(remainder) && Value(remainder) == Rem(Value(numerator), Value(denominator))
  {
    hide Val, Pow, Combine;
    MagnitudeBounds(denominator);
    if IsZero(denominator) {
      return null;
    }
    SmallCases(numerator, denominator);
    if IsZero(numerator) {
      return numerator;
    }
    var c := CompareUnsigned(numerator, denominator);
    match c {
      case Equal =>
        remainder := MakeZero();
      case Less =>
        remainder := numerator;
      case Greater =>
        if Len(denominator) == 1 && Combine(And, denominator[1], denominator[1] - 1) == 0 {
          remainder := RemainderPowerOfTwo(numerator, denominator[1]);
        } else if Len(denominator) == 1 && denominator[1] < R {
          OneIsPower();
          remainder := RemainderUnsignedSmallDenominator(numerator, denominator[1], Negative(numerator));
        } else {
          var none;
          none, remainder := DivideGreater(numerator, denominator, false, true, false, Negative(numerator));
        }
    }
  }
}
