/** Multiplication by half digits. */
module BignumMultiply {
  import opened Arith
  import opened BignumDigits
  import opened BignumRepr
  import opened BignumAdd

  /** The product of two digits from the products of their halves. */
  lemma ProductOfHalves(b: int, xh: int, xl: int, yh: int, yl: int)
    ensures (xh * b + xl) * (yh * b + yl) == (b * b) * (xh * yh) + b * (xh * yl + xl * yh) + xl * yl
  {
    assert (xh * b + xl) * (yh * b + yl) == (xh * b) * (yh * b) + (xh * b) * yl + xl * (yh * b) + xl * yl;
    assert (xh * b) * (yh * b) == (b * b) * (xh * yh);
    assert (xh * b) * yl == b * (xh * yl);
    assert xl * (yh * b) == b * (xl * yh);
    assert b * (xh * yl + xl * yh) == b * (xh * yl) + b * (xl * yh);
  }

  lemma HalfProducts(xh: int, xl: int, yh: int, yl: int)
    requires 0 <= xh < R && 0 <= xl < R && 0 <= yh < R && 0 <= yl < R
    ensures 0 <= xh * yh <= (R - 1) * (R - 1) && 0 <= xh * yl <= (R - 1) * (R - 1)
    ensures 0 <= xl * yh <= (R - 1) * (R - 1) && 0 <= xl * yl <= (R - 1) * (R - 1)
    ensures HdCons(xh, xl) * HdCons(yh, yl) == RADIX * (xh * yh) + R * (xh * yl + xl * yh) + xl * yl
  {
    MulBound(xh, yh, R - 1, R - 1);
    MulBound(xh, yl, R - 1, R - 1);
    MulBound(xl, yh, R - 1, R - 1);
    MulBound(xl, yl, R - 1, R - 1);
    ProductOfHalves(R, xh, xl, yh, yl);
  }

  /** The largest value that product_low and product_high may take. */
  const PRODUCT_MAX: int := R * R + R * (R - 2) + (R - 1)
  /** The largest value that the carry may take. */
  const CARRY_MAX: int := R * (R - 1) + (R - 1)

  lemma CarryIsDigit()
    ensures CARRY_MAX == RADIX - 1 && PRODUCT_MAX == 2 * RADIX - R - 1
  {}

  /** Add the product of the digits x and y and the carry to the digit r. */
  method MultiplyAdd(r: Word, x: Word, y: Word, carryIn: Word) returns (digit: Word, carry: Word)
    requires IsDigit(r) && IsDigit(x) && IsDigit(y) && 0 <= carryIn <= CARRY_MAX
    ensures IsDigit(digit) && 0 <= carry <= CARRY_MAX
    ensures digit + RADIX * carry == r + x * y + carryIn
  {
    var xLow, xHigh := HdLow(x), HdHigh(x);
    var yLow, yHigh := HdLow(y), HdHigh(y);
    HalfProducts(xHigh, xLow, yHigh, yLow);
    Halves(carryIn);
    var productLow: Word := r + xLow * yLow + HdLow(carryIn);
    assert productLow <= PRODUCT_MAX;
    Halves(productLow);
    var productHigh: Word := xHigh * yLow + xLow * yHigh + HdHigh(productLow) + HdHigh(carryIn);
    assert productHigh <= PRODUCT_MAX;
    Halves(productHigh);
    digit := HdCons(HdLow(productHigh), HdLow(productLow));
    carry := xHigh * yHigh + HdHigh(productHigh);
  }

  /** The digits rs and the carry c are what adding x times the low digits of ys to `row` has given. */
  ghost predicate RowSum(row: seq<int>, x: int, ys: seq<int>, rs: seq<int>, c: int) {
    |rs| <= |row| == |ys| && Running(row, rs, c, x * Val(ys[..|rs|]))
  }

  lemma RowStart(row: seq<int>, x: int, ys: seq<int>)
    requires |row| == |ys|
    ensures RowSum(row, x, ys, [], 0)
  {
    RunningStart(row);
    assert x * Val(ys[..0]) == 0;
  }

  lemma RowStep(row: seq<int>, x: int, ys: seq<int>, rs: seq<int>, c: int, d: int, c': int)
    requires RowSum(row, x, ys, rs, c) && |rs| < |row| && IsDigit(d)
    requires d + RADIX * c' == row[|rs|] + x * ys[|rs|] + c
    ensures RowSum(row, x, ys, rs + [d], c')
  {
    hide Val, Pow, Running;
    RunningStep(row, rs, c, x * Val(ys[..|rs|]), d, c', x * ys[|rs|]);
    Prefix(ys, |rs|);
    RowTerm(x, Val(ys[..|rs|]), Pow(|rs|), ys[|rs|]);
  }

  lemma RowEnd(row: seq<int>, x: int, ys: seq<int>, rs: seq<int>, c: int)
    requires RowSum(row, x, ys, rs, c) && |rs| == |row| && 0 <= c <= CARRY_MAX
    ensures Digits(rs + [c]) && Val(rs + [c]) == Val(row) + x * Val(ys)
  {
    assert ys[..|ys|] == ys;
    RunningEnd(row, rs, c, x * Val(ys));
    CarryIsDigit();
    ValSnoc(rs, c);
  }

  /** Add x times y into r from digit `at` on; the digit above the row is still zero. */
  method AddRow(x: Word, y: Bignum, r: Bignum, at: nat)
    requires IsDigit(x) && Valid(y) && r != y && 1 + at + Len(y) < r.Length
    requires r[1 + at + Len(y)] == 0 && Digits(r[1 + at..1 + at + Len(y)])
    modifies r
    ensures forall i :: 0 <= i < r.Length && !(1 + at <= i <= 1 + at + Len(y)) ==> r[i] == old(r[i])
    ensures Digits(r[1 + at..2 + at + Len(y)])
    ensures Val(r[1 + at..2 + at + Len(y)]) == old(Val(r[1 + at..1 + at + Len(y)])) + x * Magnitude(y)
  {
    hide Val, Pow, RowSum;
    ghost var ys := DigitsOf(y);
    ghost var row := r[1 + at..1 + at + Len(y)];
    var carry: Word := 0;
    var scanY, scanR := 1, 1 + at;
    RowStart(row, x, ys);
    assert r[1 + at..1 + at] == [];
    while scanY < 1 + Len(y)
      invariant 1 <= scanY <= 1 + Len(y) && scanR == scanY + at
      invariant 0 <= carry <= CARRY_MAX
      invariant forall i :: 0 <= i < r.Length && !(1 + at <= i < scanR) ==> r[i] == old(r[i])
      invariant RowSum(row, x, ys, r[1 + at..scanR], carry)
    {
      ghost var rs, c := r[1 + at..scanR], carry;
      assert y[scanY] == ys[scanY - 1] && r[scanR] == row[scanY - 1];
      var digit;
      digit, carry := MultiplyAdd(r[scanR], x, y[scanY], carry);
      r[scanR] := digit;
      assert r[1 + at..scanR + 1] == rs + [digit];
      RowStep(row, x, ys, rs, c, digit, carry);
      scanY, scanR := scanY + 1, scanR + 1;
    }
    ghost var rs := r[1 + at..scanR];
    RowEnd(row, x, ys, rs, carry);
    r[scanR] := r[scanR] + carry;
    assert r[1 + at..2 + at + Len(y)] == rs + [carry];
  }

  lemma RowTerm(x: int, v: int, p: int, d: int)
    ensures x * (v + p * d) == x * v + p * (x * d)
  {
    assert x * (v + p * d) == x * v + x * (p * d);
    assert x * (p * d) == p * (x * d);
  }

  /** The digits rs stand for the product of the first i digits of xs by m. */
  ghost predicate Rows(xs: seq<int>, i: nat, m: int, rs: seq<int>) {
    i <= |xs| && Digits(rs) && Val(rs) == Val(xs[..i]) * m
  }

  /** Adding the row of digit number i. */
  lemma RowsStep(xs: seq<int>, i: nat, m: int, rs: seq<int>, rs': seq<int>, n: nat)
    requires i < |xs| && |rs| == i + n && |rs'| == i + n + 1 && rs'[..i] == rs[..i] && Digits(rs'[i..])
    requires Rows(xs, i, m, rs) && Val(rs'[i..]) == Val(rs[i..]) + xs[i] * m
    ensures Rows(xs, i + 1, m, rs')
  {
    hide Val, Pow;
    ValSplit(rs, i);
    ValSplit(rs', i);
    Prefix(xs, i);
    RowTerm(Pow(i), Val(rs[i..]), xs[i], m);
    assert Pow(i) * (Val(rs[i..]) + xs[i] * m) == Pow(i) * Val(rs[i..]) + xs[i] * (Pow(i) * m);
    assert (Val(xs[..i]) + Pow(i) * xs[i]) * m == Val(xs[..i]) * m + (Pow(i) * xs[i]) * m;
    assert (Pow(i) * xs[i]) * m == xs[i] * (Pow(i) * m);
    assert forall k :: 0 <= k < |rs'| ==> rs'[k] == if k < i then rs[k] else rs'[i..][k - i];
  }

  method MultiplyUnsigned(x0: Bignum, y0: Bignum, negative: bool) returns (r: Bignum)
    requires Valid(x0) && Valid(y0) && !IsZero(x0) && !IsZero(y0) && Len(x0) + Len(y0) <= LENGTH_MAX
    ensures fresh(r) && Valid(r)
    ensures Value(r) == if negative then -(Magnitude(x0) * Magnitude(y0)) else Magnitude(x0) * Magnitude(y0)
  {
    hide Val, Pow;
    var x, y := x0, y0;
    if Len(y) > Len(x) {
      x, y := y, x;
    }
    assert Magnitude(x) * Magnitude(y) == Magnitude(x0) * Magnitude(y0);
    r := MultiplyRows(x, y, negative);
    r := Trim(r);
  }

  lemma RowsStart(xs: seq<int>, m: int, rs: seq<int>)
    requires forall i :: 0 <= i < |rs| ==> rs[i] == 0
    ensures Rows(xs, 0, m, rs)
  {
    ValZeroes(rs);
    ValZeroes(xs[..0]);
  }

  lemma RowsEnd(xs: seq<int>, m: int, rs: seq<int>)
    requires Rows(xs, |xs|, m, rs)
    ensures Digits(rs) && Val(rs) == Val(xs) * m
  {
    assert xs[..|xs|] == xs;
  }

  method MultiplyRows(x: Bignum, y: Bignum, negative: bool) returns (r: Bignum)
    requires Valid(x) && Valid(y) && !IsZero(x) && !IsZero(y) && Len(x) + Len(y) <= LENGTH_MAX
    ensures fresh(r) && Shaped(r) && Digits(DigitsOf(r)) && Negative(r) == negative && Len(r) == Len(x) + Len(y)
    ensures Magnitude(r) == Magnitude(x) * Magnitude(y)
  {
    hide Val, Pow, Rows;
    r := AllocateZeroed(Len(x) + Len(y), negative);
    AddRows(x, y, r);
    assert DigitsOf(r) == r[1..1 + Len(x) + Len(y)];
    RowsEnd(DigitsOf(x), Magnitude(y), DigitsOf(r));
  }

  /** All rows. */
  method AddRows(x: Bignum, y: Bignum, r: Bignum)
    requires Valid(x) && Valid(y) && r != x && r != y && r.Length == 1 + Len(x) + Len(y)
    requires forall i :: 1 <= i < r.Length ==> r[i] == 0
    modifies r
    ensures r[0] == old(r[0]) && Rows(DigitsOf(x), Len(x), Magnitude(y), r[1..1 + Len(x) + Len(y)])
  {
    hide Val, Pow, Rows;
    var scan := 1;
    RowsStart(DigitsOf(x), Magnitude(y), r[1..1 + Len(y)]);
    while scan < 1 + Len(x)
      invariant 1 <= scan <= 1 + Len(x) && r[0] == old(r[0])
      invariant forall i :: scan + Len(y) <= i < r.Length ==> r[i] == 0
      invariant Rows(DigitsOf(x), scan - 1, Magnitude(y), r[1..scan + Len(y)])
    {
      AddRowFor(x, y, r, scan);
      scan := scan + 1;
    }
  }

  /** The row of the digit at `scan`. */
  method AddRowFor(x: Bignum, y: Bignum, r: Bignum, scan: nat)
    requires Valid(x) && Valid(y) && r != x && r != y && 1 <= scan <= Len(x) && scan + Len(y) < r.Length
    requires Rows(DigitsOf(x), scan - 1, Magnitude(y), r[1..scan + Len(y)]) && r[scan + Len(y)] == 0
    modifies r
    ensures Rows(DigitsOf(x), scan, Magnitude(y), r[1..scan + Len(y) + 1])
    ensures r[0] == old(r[0]) && forall i :: scan + Len(y) < i < r.Length ==> r[i] == old(r[i])
  {
    hide Val, Pow;
    ghost var rs := r[1..scan + Len(y)];
    assert r[scan..scan + Len(y)] == rs[scan - 1..] && x[scan] == DigitsOf(x)[scan - 1];
    AddRow(x[scan], y, r, scan - 1);
    ghost var rs' := r[1..scan + Len(y) + 1];
    assert rs'[..scan - 1] == rs[..scan - 1] && rs'[scan - 1..] == r[scan..scan + Len(y) + 1];
    RowsStep(DigitsOf(x), scan - 1, Magnitude(y), rs, rs', Len(y));
  }

  /** A copy of x with a zero digit on top. */
  method CopyExtended(x: Bignum, negative: bool) returns (p: Bignum)
    requires Valid(x) && Len(x) < LENGTH_MAX
    ensures fresh(p) && Shaped(p) && Digits(DigitsOf(p)) && Len(p) == Len(x) + 1 && Negative(p) == negative
    ensures Magnitude(p) == Magnitude(x)
  {
    hide Val, Pow;
    p := Allocate(Len(x) + 1, negative);
    DestructiveCopy(x, p);
    p[1 + Len(x)] := 0;
    assert DigitsOf(p) == DigitsOf(x) + [0];
    ValSnoc(DigitsOf(x), 0);
    assert Pow(Len(x)) * 0 == 0;
  }

  method MultiplyUnsignedSmallFactor(x: Bignum, y: Word, negative: bool) returns (p: Bignum)
    requires Valid(x) && !IsZero(x) && 1 < y < R && Len(x) < LENGTH_MAX
    ensures fresh(p) && Valid(p) && Value(p) == if negative then -(y * Magnitude(x)) else y * Magnitude(x)
  {
    hide Val, Pow;
    p := CopyExtended(x, negative);
    MagnitudeBounds(x);
    FitsAbove(y, Magnitude(x), Len(x));
    DestructiveScaleUp(p, y);
    p := Trim(p);
  }

  lemma FitsAbove(f: int, m: int, n: nat)
    requires 0 <= f < RADIX && 0 <= m < Pow(n)
    ensures f * m < Pow(n + 1)
  {
    MulBound(f, m, RADIX - 1, Pow(n));
  }

  /** The digits rs and the carry c stand for f times the low digits of ds. */
  ghost predicate Scaled(ds: seq<int>, f: int, rs: seq<int>, c: int) {
    |rs| <= |ds| && Digits(rs) && Val(rs) + Pow(|rs|) * c == f * Val(ds[..|rs|])
  }

  lemma ScaledStart(ds: seq<int>, f: int)
    ensures Scaled(ds, f, [], 0)
  {}

  lemma ScaledStep(ds: seq<int>, f: int, rs: seq<int>, c: int, d: int, c': int)
    requires Scaled(ds, f, rs, c) && |rs| < |ds| && IsDigit(d) && d + RADIX * c' == f * ds[|rs|] + c
    ensures Scaled(ds, f, rs + [d], c')
  {
    hide Val, Pow;
    Ripple(rs, c, d, c', f * ds[|rs|]);
    Prefix(ds, |rs|);
    RowTerm(f, Val(ds[..|rs|]), Pow(|rs|), ds[|rs|]);
  }

  lemma ScaledAll(ds: seq<int>, f: int, rs: seq<int>, c: int)
    requires Scaled(ds, f, rs, c) && |rs| == |ds|
    ensures Digits(rs) && Val(rs) + Pow(|rs|) * c == f * Val(ds)
  {
    assert ds[..|ds|] == ds;
  }

  /** A product that fits leaves no carry. */
  lemma NoCarry(rs: seq<int>, c: int)
    requires Digits(rs) && c >= 0 && Val(rs) + Pow(|rs|) * c < Pow(|rs|)
    ensures c == 0
  {
    hide Val, Pow;
    ValBound(rs);
    if c > 0 { MulGap(Pow(|rs|), 0, c); }
  }

  /** Multiply the digit d by the factor and add the carry. */
  method ScaleDigit(factor: Word, d: Word, carryIn: Word) returns (digit: Word, carry: Word)
    requires 1 < factor < R && IsDigit(d) && 0 <= carryIn < R
    ensures IsDigit(digit) && 0 <= carry < R && digit + RADIX * carry == factor * d + carryIn
  {
    HalfProducts(0, factor, HdHigh(d), HdLow(d));
    Halves(d);
    Halves(carryIn);
    var productLow: Word := factor * HdLow(d) + HdLow(carryIn);
    Halves(productLow);
    var productHigh: Word := factor * HdHigh(d) + HdHigh(productLow) + HdHigh(carryIn);
    Halves(productHigh);
    digit := HdCons(HdLow(productHigh), HdLow(productLow));
    carry := HdHigh(productHigh);
  }

  /** Multiply in place by a factor below the half radix; the product fits. */
  method DestructiveScaleUp(b: Bignum, factor: Word)
    requires Shaped(b) && Digits(DigitsOf(b)) && 1 < factor < R && factor * Magnitude(b) < Pow(Len(b))
    modifies b
    ensures b[0] == old(b[0]) && Shaped(b) && Digits(DigitsOf(b)) && Len(b) == old(Len(b)) &&
      Negative(b) == old(Negative(b))
    ensures Magnitude(b) == factor * old(Magnitude(b))
  {
    hide Val, Pow, Scaled;
    ghost var ds := DigitsOf(b);
    var carry: Word := 0;
    var scan := 1;
    var end := 1 + Len(b);
    ScaledStart(ds, factor);
    assert b[1..1] == [];
    while scan < end
      invariant 1 <= scan <= end && 0 <= carry < R && b[0] == old(b[0])
      invariant forall i :: scan <= i < end ==> b[i] == ds[i - 1]
      invariant Scaled(ds, factor, b[1..scan], carry)
    {
      ghost var rs, c := b[1..scan], carry;
      var digit;
      digit, carry := ScaleDigit(factor, b[scan], carry);
      b[scan] := digit;
      assert b[1..scan + 1] == rs + [digit];
      ScaledStep(ds, factor, rs, c, digit, carry);
      scan := scan + 1;
    }
    ScaledAll(ds, factor, b[1..end], carry);
    NoCarry(b[1..end], carry);
    // A carry here would be an overflow.
    assert carry == 0 && b[1..end] == DigitsOf(b);
  }

  /** The paths for a factor of one digit below the half radix. */
  method MultiplyByDigit(x: Bignum, digit: Word, negative: bool) returns (r: Bignum)
    requires Valid(x) && !IsZero(x) && 1 <= digit < R && Len(x) < LENGTH_MAX
    ensures Valid(r) && Value(r) == if negative then -(digit * Magnitude(x)) else digit * Magnitude(x)
  {
    if digit == 1 {
      r := MaybeNewSign(x, negative);
    } else {
      r := MultiplyUnsignedSmallFactor(x, digit, negative);
    }
  }

  method Multiply(x: Bignum, y: Bignum) returns (r: Bignum)
    requires Valid(x) && Valid(y) && Len(x) + Len(y) <= LENGTH_MAX
    ensures Valid(r) && Value(r) == Value(x) * Value(y)
  {
    hide Val, Pow;
    SignedProduct(x, y);
    var negative := if Negative(x) then !Negative(y) else Negative(y);
    if IsZero(x) { return x; }
    if IsZero(y) { return y; }
    if Len(x) == 1 && x[1] < R {
      r := MultiplyByDigit(y, x[1], negative);
    } else if Len(y) == 1 && y[1] < R {
      r := MultiplyByDigit(x, y[1], negative);
    } else {
      r := MultiplyUnsigned(x, y, negative);
    }
  }

  /** The product in terms of the magnitudes. */
  lemma SignedProduct(x: Bignum, y: Bignum)
    requires Valid(x) && Valid(y)
    ensures Value(x) * Value(y) ==
      if Negative(x) == Negative(y) then Magnitude(x) * Magnitude(y) else -(Magnitude(x) * Magnitude(y))
    ensures IsZero(x) ==> Value(x) == 0 && Value(x) * Value(y) == 0
    ensures IsZero(y) ==> Value(y) == 0 && Value(x) * Value(y) == 0
    ensures Len(x) == 1 ==> Magnitude(x) == x[1]
    ensures Len(y) == 1 ==> Magnitude(y) == y[1] && Magnitude(x) * Magnitude(y) == y[1] * Magnitude(x)
  {
    hide Val, Pow;
    MagnitudeBounds(x);
    MagnitudeBounds(y);
    if Len(x) == 1 { OneDigit(x); }
    if Len(y) == 1 { OneDigit(y); }
    MulNegate(Magnitude(x), Magnitude(y));
  }
}
