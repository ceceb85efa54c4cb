/** Dividing and shifting whole digit strings by one factor. */
module BignumScaling {
  import opened Arith
  import opened Bits
  import opened BignumDigits
  import opened BignumRepr
  import opened BignumAdd
  import opened BignumMultiply
  import opened BignumDigitDivide

  /** The digits qs and the remainder stand for the number ds divided by f. */
  ghost predicate Divided(ds: seq<int>, f: int, qs: seq<int>, rem: int) {
    |qs| == |ds| && Digits(qs) && 0 <= rem < f && Val(ds) == f * Val(qs) + rem
  }

  lemma DividedStart(f: int)
    requires f > 0
    ensures Divided([], f, [], 0)
  {
    assert f * 0 == 0;
  }

  /** One step from the most significant side. */
  lemma DividedStep(ds: seq<int>, f: int, qs: seq<int>, rem: int, d: int, q: int, rem': int)
    requires Divided(ds, f, qs, rem) && IsDigit(q) && 0 <= rem' < f && d + RADIX * rem == f * q + rem'
    ensures Divided([d] + ds, f, [q] + qs, rem')
  {
    hide Val, Pow;
    ValCons(d, ds);
    ValCons(q, qs);
    MulDist(f, q, RADIX * Val(qs));
    MulAssoc(f, RADIX, Val(qs));
    MulAssoc(RADIX, f, Val(qs));
    MulDist(RADIX, f * Val(qs), rem);
  }

  /** The result of a whole division. */
  lemma DividedIs(ds: seq<int>, f: int, qs: seq<int>, rem: int)
    requires Divided(ds, f, qs, rem)
    ensures Digits(qs) && Val(qs) == Val(ds) / f && rem == Val(ds) % f
  {
    DivIs(Val(ds), f, Val(qs), rem);
  }

  /** Divide the digit d, with a remainder from the digit above, by a half digit. */
  method ScaleDownDigit(d: Word, denominator: Word, remIn: Word) returns (q: Word, rem: Word)
    requires IsDigit(d) && 1 < denominator < R && 0 <= remIn < denominator
    ensures IsDigit(q) && 0 <= rem < denominator && d + RADIX * remIn == denominator * q + rem
  {
    Halves(d);
    var numerator: Word := HdCons(remIn, HdHigh(d));
    ghost var n1 := numerator;
    var quotientHigh := numerator / denominator;
    HalfQuotient(remIn, HdHigh(d), denominator);
    numerator := HdCons(numerator % denominator, HdLow(d));
    HalfQuotient(n1 % denominator, HdLow(d), denominator);
    q := HdCons(quotientHigh, numerator / denominator);
    rem := numerator % denominator;
    ghost var q2 := numerator / denominator;
    MulDist(denominator, quotientHigh * R, q2);
    MulAssoc(denominator, quotientHigh, R);
  }

  lemma HalfQuotient(rem: int, h: int, f: int)
    requires 0 <= rem < f && 0 <= h < R
    ensures var n := HdCons(rem, h); 0 <= n / f < R && n == f * (n / f) + n % f && 0 <= n % f < f
  {
    var n := HdCons(rem, h);
    DivMod(n, f);
    assert n < f * R;
    if n / f >= R { LeFactor(R, n / f, f); }
  }

  /** Divide in place by a half digit; return the remainder. */
  method DestructiveScaleDown(b: Bignum, denominator: Word) returns (rem: Word)
    requires Shaped(b) && Digits(DigitsOf(b)) && 1 < denominator < R
    modifies b
    ensures b[0] == old(b[0]) && Shaped(b) && Len(b) == old(Len(b)) && Digits(DigitsOf(b))
    ensures Magnitude(b) == old(Magnitude(b)) / denominator && rem == old(Magnitude(b)) % denominator
  {
    hide Val, Pow, Divided;
    ghost var ds := DigitsOf(b);
    rem := 0;
    var scan := 1 + Len(b);
    DividedStart(denominator);
    assert b[scan..scan] == [] && ds[scan - 1..] == [];
    while 1 < scan
      invariant 1 <= scan <= 1 + |ds| && b[0] == old(b[0]) && 0 <= rem < denominator
      invariant forall i :: 1 <= i < scan ==> b[i] == ds[i - 1]
      invariant Divided(ds[scan - 1..], denominator, b[scan..1 + |ds|], rem)
    {
      ghost var qs, r := b[scan..1 + |ds|], rem;
      scan := scan - 1;
      var q;
      q, rem := ScaleDownDigit(b[scan], denominator, rem);
      b[scan] := q;
      assert b[scan + 1..1 + |ds|] == qs;
      assert b[scan..1 + |ds|] == [q] + qs;
      assert ds[scan - 1..] == [ds[scan - 1]] + ds[scan..];
      DividedStep(ds[scan..], denominator, qs, r, ds[scan - 1], q, rem);
    }
    assert ds[0..] == ds && b[1..1 + |ds|] == DigitsOf(b);
    DividedIs(ds, denominator, DigitsOf(b), rem);
  }

  /** The low bits of d stay, the high bits are carried out; f << k is a whole digit. */
  lemma ShiftDigit(d: int, f: int, g: int, carry: int)
    requires IsDigit(d) && 0 < f && 0 < g && f * g == RADIX && 0 <= carry < f
    ensures IsDigit(d % g * f + carry) && 0 <= d / g < f
    ensures (d % g * f + carry) + RADIX * (d / g) == f * d + carry
  {
    DivMod(d, g);
    MulGap(f, d % g, g);
    MulDist(f, g * (d / g), d % g);
    MulAssoc(f, g, d / g);
    if d / g >= f { LeFactor(f, d / g, g); }
  }

  lemma ShiftFactors(k: nat)
    requires k <= 62
    ensures Pow2(k) * Pow2(62 - k) == RADIX
  {
    Pow2Add(k, 62 - k);
    Pow2Word();
  }

  /** target := source << shift; the target has as many digits as the source or one more. */
  method DestructiveNormalization(source: Bignum, target: Bignum, shift: nat)
    requires Shaped(source) && Digits(DigitsOf(source)) && Shaped(target) && source != target && 0 < shift < 62
    requires Len(source) <= Len(target) <= Len(source) + 1 && Pow2(shift) * Magnitude(source) < Pow(Len(target))
    modifies target
    ensures target[0] == old(target[0]) && Shaped(target) && Len(target) == old(Len(target)) && Digits(DigitsOf(target))
    ensures Magnitude(target) == Pow2(shift) * Magnitude(source)
  {
    hide Val, Pow, Scaled, Pow2;
    ghost var ds := DigitsOf(source);
    ghost var f := Pow2(shift);
    var shiftRight := 62 - shift;
    var carry: Word := 0;
    var scan := 1;
    ScaledStart(ds, f);
    ShiftFactors(shift);
    assert target[1..1] == [];
    while scan < 1 + Len(source)
      invariant 1 <= scan <= 1 + Len(source) && 0 <= carry < f && target[0] == old(target[0])
      invariant Scaled(ds, f, target[1..scan], carry)
    {
      ghost var rs, c := target[1..scan], carry;
      var digit := source[scan];
      assert digit == ds[scan - 1];
      ShiftDigit(digit, f, Pow2(shiftRight), carry);
      target[scan] := digit % Pow2(shiftRight) * Pow2(shift) + carry;
      carry := digit / Pow2(shiftRight);
      assert target[1..scan + 1] == rs + [target[scan]];
      ScaledStep(ds, f, rs, c, target[scan], carry);
      scan := scan + 1;
    }
    ghost var rs := target[1..scan];
    ScaledAll(ds, f, rs, carry);
    if scan < 1 + Len(target) {
      target[scan] := carry;
      assert DigitsOf(target) == rs + [carry];
      ShiftCarry(f, shift);
      ValSnoc(rs, carry);
    } else {
      assert DigitsOf(target) == rs;
      NoCarry(rs, carry);
    }
  }

  lemma ShiftCarry(f: int, k: nat)
    requires f == Pow2(k) && k < 62
    ensures f <= RADIX
  {
    Pow2Monotone(k, 62);
    Pow2Word();
  }

  /** The carry of a right shift is the remainder moved to the top of the next digit. */
  lemma UnshiftDigit(d: int, f: int, g: int, rem: int)
    requires IsDigit(d) && 0 < f && 0 < g && f * g == RADIX && 0 <= rem < f
    ensures IsDigit(d / f + rem * g) && 0 <= d % f < f
    ensures d + RADIX * rem == f * (d / f + rem * g) + d % f
  {
    DivMod(d, f);
    MulDist(f, d / f, rem * g);
    MulAssoc(f, g, rem);
    MulGap(g, rem, f);
    assert rem * g >= 0 && f * (rem * g) == (f * g) * rem;
    if d / f >= g { LeFactor(g, d / f, f); }
  }

  /** One digit shifted right, with the bits that are shifted in from above and those that go on below. */
  method UnshiftOne(digit: Word, shift: nat, carryIn: Word, ghost remIn: int)
    returns (q: Word, carry: Word, ghost rem: int)
    requires IsDigit(digit) && 0 < shift < 62 && 0 <= remIn < Pow2(shift) && carryIn == remIn * Pow2(62 - shift)
    ensures IsDigit(q) && 0 <= rem < Pow2(shift) && carry == rem * Pow2(62 - shift)
    ensures digit + RADIX * remIn == Pow2(shift) * q + rem
  {
    hide Pow2;
    ghost var f, g := Pow2(shift), Pow2(62 - shift);
    ShiftFactors(shift);
    UnshiftDigit(digit, f, g, remIn);
    q := digit / Pow2(shift) + carryIn;
    rem := digit % f;
    UnshiftDigit(0, f, g, rem);
    carry := digit % Pow2(shift) * Pow2(62 - shift);
  }

  /** b := b >> shift; nothing is shifted out. */
  method DestructiveUnnormalization(b: Bignum, shift: nat, ghost m: int)
    requires Shaped(b) && Digits(DigitsOf(b)) && 0 < shift < 62 && Magnitude(b) == Pow2(shift) * m
    modifies b
    ensures b[0] == old(b[0]) && Shaped(b) && Len(b) == old(Len(b)) && Digits(DigitsOf(b)) && Magnitude(b) == m
  {
    hide Val, Pow, Divided, Pow2;
    ghost var ds, f := DigitsOf(b), Pow2(shift);
    var scan := 1 + Len(b);
    var carry: Word := 0;
    ghost var rem := 0;
    DividedStart(f);
    NoRemainder(shift);
    assert b[scan..scan] == [] && ds[scan - 1..] == [];
    while 1 < scan
      invariant 1 <= scan <= 1 + |ds| && b[0] == old(b[0]) && 0 <= rem < f && carry == rem * Pow2(62 - shift)
      invariant forall i :: 1 <= i < scan ==> b[i] == ds[i - 1]
      invariant Divided(ds[scan - 1..], f, b[scan..1 + |ds|], rem)
    {
      ghost var qs, r := b[scan..1 + |ds|], rem;
      scan := scan - 1;
      var q;
      q, carry, rem := UnshiftOne(b[scan], shift, carry, rem);
      b[scan] := q;
      assert b[scan + 1..1 + |ds|] == qs;
      assert b[scan..1 + |ds|] == [q] + qs;
      assert ds[scan - 1..] == [ds[scan - 1]] + ds[scan..];
      DividedStep(ds[scan..], f, qs, r, ds[scan - 1], q, rem);
    }
    assert ds[0..] == ds && b[1..1 + |ds|] == DigitsOf(b);
    DividedIs(ds, f, DigitsOf(b), rem);
    ExactQuotient(f, m);
  }

  lemma NoRemainder(shift: nat)
    requires shift < 62
    ensures 0 == 0 * Pow2(62 - shift) && 0 < Pow2(shift)
  {}

  lemma ExactQuotient(f: int, m: int)
    requires f > 0
    ensures f * m / f == m && f * m % f == 0
  {
    DivIs(f * m, f, m, 0);
  }
}
