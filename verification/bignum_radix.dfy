/** Radix conversion: digit streams. */
module BignumRadix {
  import opened Arith
  import opened Bits
  import opened BignumDigits
  import opened BignumRepr
  import opened BignumAdd
  import opened BignumMultiply
  import opened BignumScaling
  import opened BignumDivision
  import opened BignumLongDivision
  import opened BignumBitwise

  /** The base-b digits of m, least significant first, without leading zeros. */
  function DigitsIn(b: nat, m: nat): seq<int>
    requires b > 1
  {
    if m == 0 then []
    else
      DivShrinks(m, b);
      [m % b] + DigitsIn(b, m / b)
  }

  /** The number with the base-b digits s, most significant first. */
  function FromDigits(b: nat, s: seq<int>): int {
    if s == [] then 0 else FromDigits(b, s[..|s| - 1]) * b + s[|s| - 1]
  }

  function Reverse(s: seq<int>): (r: seq<int>)
    ensures |r| == |s|
  {
    if s == [] then [] else Reverse(s[1..]) + [s[0]]
  }

  ghost predicate InBase(b: nat, s: seq<int>) {
    forall i :: 0 <= i < |s| ==> 0 <= s[i] < b
  }

  lemma FromSnoc(b: nat, s: seq<int>, d: int)
    ensures FromDigits(b, s + [d]) == FromDigits(b, s) * b + d
  {
    assert (s + [d])[..|s|] == s;
  }

  lemma ReverseCons(d: int, s: seq<int>)
    ensures Reverse([d] + s) == Reverse(s) + [d]
  {
    assert ([d] + s)[1..] == s;
  }

  lemma DigitsStep(b: nat, m: nat) returns (q: nat, r: nat)
    requires b > 1 && m > 0
    ensures q < m && r < b && m == q * b + r && DigitsIn(b, m) == [r] + DigitsIn(b, q)
  {
    DivMod(m, b);
    DivShrinks(m, b);
    q, r := m / b, m % b;
    assert q * b == b * q;
  }

  /** Printing and reading back gives the same number. */
  lemma {:induction false} RoundTrip(b: nat, m: nat)
    requires b > 1
    ensures FromDigits(b, Reverse(DigitsIn(b, m))) == m
    ensures InBase(b, DigitsIn(b, m))
    decreases m
  {
    if m > 0 {
      var q, r := DigitsStep(b, m);
      RoundTrip(b, q);
      hide FromDigits, Reverse, DigitsIn;
      ReverseCons(r, DigitsIn(b, q));
      FromSnoc(b, Reverse(DigitsIn(b, q)), r);
    }
  }

  lemma {:induction false} ReverseSnoc(s: seq<int>, d: int)
    ensures Reverse(s + [d]) == [d] + Reverse(s)
  {
    if s != [] {
      assert (s + [d])[1..] == s[1..] + [d];
      ReverseSnoc(s[1..], d);
    } else {
      assert [] + [d] == [d];
    }
  }

  lemma {:induction false} FromDigitsBounds(b: nat, s: seq<int>)
    requires b > 1 && InBase(b, s)
    ensures FromDigits(b, s) >= 0
    ensures s != [] && s[0] > 0 ==> FromDigits(b, s) > 0
    decreases |s|
  {
    if s != [] {
      var t := s[..|s| - 1];
      FromDigitsBounds(b, t);
      assert FromDigits(b, t) * b >= FromDigits(b, t);
    }
  }

  /** Reading digits without a leading zero and printing gives the same digits. */
  lemma {:induction false} RoundTripDigits(b: nat, s: seq<int>)
    requires b > 1 && InBase(b, s) && (s != [] ==> s[0] > 0)
    ensures FromDigits(b, s) >= 0 && DigitsIn(b, FromDigits(b, s)) == Reverse(s)
    decreases |s|
  {
    FromDigitsBounds(b, s);
    if s != [] {
      var t, d := s[..|s| - 1], s[|s| - 1];
      assert s == t + [d];
      RoundTripDigits(b, t);
      ReverseSnoc(t, d);
      assert FromDigits(b, t) * b == b * FromDigits(b, t);
      DivIs(FromDigits(b, s), b, FromDigits(b, t), d);
    }
  }

  /** bignum_to_digit_stream: what the consumer is given. */
  method ToDigitStream(b: Bignum, radix: Word) returns (stream: seq<int>)
    requires Valid(b) && 1 < radix < R
    ensures Magnitude(b) >= 0 && stream == DigitsIn(radix, Magnitude(b))
  {
    hide Val, Pow;
    MagnitudeBounds(b);
    stream := [];
    if IsZero(b) {
      return;
    }
    var copy := NewSign(b, Negative(b));
    var scan := 1 + Len(copy);
    while 1 < scan
      invariant fresh(copy) && Shaped(copy) && Digits(DigitsOf(copy)) && 1 <= scan <= 1 + Len(copy)
      invariant forall i :: scan <= i < 1 + Len(copy) ==> copy[i] == 0
      invariant Magnitude(copy) >= 0 && DigitsIn(radix, Magnitude(b)) == stream + DigitsIn(radix, Magnitude(copy))
      decreases Magnitude(copy), scan
    {
      if copy[scan - 1] == 0 {
        scan := scan - 1;
      } else {
        ghost var m := Magnitude(copy);
        TopNotZero(copy, scan);
        var r := DestructiveScaleDown(copy, radix);
        DivShrinks(m, radix);
        ZeroesStay(copy, scan, m);
        stream := stream + [r];
      }
    }
    AllZero(copy);
  }

  lemma TopNotZero(b: Bignum, scan: nat)
    requires Shaped(b) && Digits(DigitsOf(b)) && 1 < scan <= 1 + Len(b) && b[scan - 1] != 0
    requires forall i :: scan <= i < 1 + Len(b) ==> b[i] == 0
    ensures 0 < Magnitude(b) < Pow(scan - 1)
  {
    var s := DigitsOf(b);
    assert s[scan - 2] == b[scan - 1];
    forall i | scan - 1 <= i < |s| ensures s[i] == 0 { assert s[i] == b[i + 1]; }
    TrimmedValue(s, scan - 1);
    hide Val, Pow;
    var t := s[..scan - 1];
    ValBound(t);
    ValTop(t);
  }

  /** A smaller number still has zeros above. */
  lemma ZeroesStay(b: Bignum, scan: nat, m: int)
    requires Shaped(b) && Digits(DigitsOf(b)) && 1 < scan <= 1 + Len(b) && Magnitude(b) < m < Pow(scan - 1)
    ensures forall i :: scan <= i < 1 + Len(b) ==> b[i] == 0
  {
    hide Val, Pow;
    var s, k := DigitsOf(b), scan - 1;
    ValSplit(s, k);
    ValBound(s[..k]);
    ValBound(s[k..]);
    if Val(s[k..]) > 0 { MulGap(Pow(k), 0, Val(s[k..])); }
    ZeroDigits(s[k..]);
    forall i | scan <= i < 1 + Len(b) ensures b[i] == 0 { assert b[i] == s[k..][i - scan]; }
  }

  lemma AllZero(b: Bignum)
    requires Shaped(b) && forall i :: 1 <= i < 1 + Len(b) ==> b[i] == 0
    ensures Magnitude(b) == 0
  {
    ValZeroes(DigitsOf(b));
  }

  /** bignum_destructive_add: add a digit; the sum fits, so the carry stops before the end. */
  method DestructiveAdd(b: Bignum, n: Word)
    requires Shaped(b) && Digits(DigitsOf(b)) && IsDigit(n) && Len(b) > 0 && Magnitude(b) + n < Pow(Len(b))
    modifies b
    ensures b[0] == old(b[0]) && Shaped(b) && Len(b) == old(Len(b)) && Digits(DigitsOf(b))
    ensures Magnitude(b) == old(Magnitude(b)) + n
  {
    hide Val, Pow, Running;
    ghost var ds := DigitsOf(b);
    var digit: Word := b[1] + n;
    RunningStart(ds);
    assert b[1] == ds[0] && b[1..1] == [];
    if digit < RADIX {
      FirstStep(ds, digit, 0, n);
      b[1] := digit;
      assert b[1..2] == [digit];
      Finished(ds, b, 2, n);
      return;
    }
    FirstStep(ds, digit - RADIX, 1, n);
    b[1] := digit - RADIX;
    assert b[1..2] == [b[1]];
    var scan := 2;
    CarryStops(ds, b[1..scan], n);
    while true
      invariant 2 <= scan <= |ds| && b[0] == old(b[0])
      invariant forall i :: scan <= i < 1 + |ds| ==> b[i] == ds[i - 1]
      invariant Running(ds, b[1..scan], 1, n)
      decreases |ds| - scan
    {
      ghost var rs := b[1..scan];
      digit := b[scan] + 1;
      if digit < RADIX {
        b[scan] := digit;
        assert b[1..scan + 1] == rs + [digit];
        RunningStep(ds, rs, 1, n, digit, 0, 0);
        Finished(ds, b, scan + 1, n);
        return;
      }
      b[scan] := digit - RADIX;
      assert b[1..scan + 1] == rs + [b[scan]];
      RunningStep(ds, rs, 1, n, digit - RADIX, 1, 0);
      scan := scan + 1;
      CarryStops(ds, b[1..scan], n);
    }
  }

  lemma FirstStep(ds: seq<int>, d: int, c: int, n: int)
    requires ds != [] && IsDigit(d) && d + RADIX * c == ds[0] + n
    ensures Running(ds, [d], c, n)
  {
    RunningStart(ds);
    RunningStep(ds, [], 0, 0, d, c, n);
    assert [] + [d] == [d] && Pow(0) == 1;
  }

  /** A carry out of the top would not fit. */
  lemma CarryStops(ds: seq<int>, rs: seq<int>, n: int)
    requires Running(ds, rs, 1, n) && Val(ds) + n < Pow(|ds|)
    ensures |rs| < |ds|
  {
    if |rs| == |ds| {
      RunningEnd(ds, rs, 1, n);
      ValBound(rs);
    }
  }

  /** The digits from `scan` on are the old ones. */
  lemma Finished(ds: seq<int>, b: Bignum, scan: nat, n: int)
    requires Shaped(b) && Len(b) == |ds| && Digits(ds) && 1 <= scan <= 1 + |ds|
    requires Running(ds, b[1..scan], 0, n) && forall i :: scan <= i < 1 + |ds| ==> b[i] == ds[i - 1]
    ensures Digits(DigitsOf(b)) && Magnitude(b) == Val(ds) + n
  {
    var k := scan - 1;
    var s := DigitsOf(b);
    hide Val, Pow;
    DigitSlice(b, 0, k);
    DigitSlice(b, k, |s|);
    assert s[0..k] == s[..k] && s[k..|s|] == s[k..];
    assert forall i :: 0 <= i < |ds| - k ==> s[k..][i] == ds[k..][i];
    assert s[k..] == ds[k..];
    forall i | 0 <= i < |s| ensures IsDigit(s[i]) { assert s[i] == if i < k then b[1..scan][i] else ds[i]; }
    ValSplit(s, k);
    ValSplit(ds, k);
    assert Pow(k) * 0 == 0;
  }

  /** long_to_bignum. */
  method LongToBignum(n: Word) returns (b: Bignum)
    ensures Valid(b) && Value(b) == n
  {
    hide Val, Pow;
    if n == 0 {
      b := MakeZero();
    } else if n == 1 || n == -1 {
      b := MakeOne(n == -1);
    } else {
      var negative := n < 0;
      // The accumulator is an unsigned word.
      var value: int := n;
      var accumulator := if negative then -value else value;
      var digits: seq<Word> := [accumulator % RADIX];
      var high := accumulator / RADIX;
      if high != 0 {
        digits := digits + [high];
      }
      LongDigits(accumulator, digits);
      b := FromDigitBuffer(digits, negative);
    }
  }

  lemma LongDigits(m: int, ds: seq<int>)
    requires 0 < m <= 0x8000_0000_0000_0000
    requires ds == if m / RADIX != 0 then [m % RADIX, m / RADIX] else [m % RADIX]
    ensures Digits(ds) && Val(ds) == m && ds[|ds| - 1] > 0
  {
    if m / RADIX != 0 {
      assert ds == [m % RADIX] + [m / RADIX];
      ValSnoc([m % RADIX], m / RADIX);
    }
    ValSnoc([], m % RADIX);
    assert [] + [m % RADIX] == [m % RADIX];
    assert Pow(0) == 1 && Pow(1) == RADIX;
  }

  /** bignum_from_digits. */
  method FromDigitBuffer(digits: seq<Word>, negative: bool) returns (b: Bignum)
    requires Digits(digits) && digits != [] && digits[|digits| - 1] > 0 && |digits| <= LENGTH_MAX
    ensures Valid(b) && Value(b) == if negative then -Val(digits) else Val(digits)
  {
    b := Allocate(|digits|, negative);
    var scan := 0;
    while scan < |digits|
      invariant 0 <= scan <= |digits| && b[0] == Header(|digits|, negative)
      invariant forall i :: 0 <= i < scan ==> b[1 + i] == digits[i]
    {
      b[1 + scan] := digits[scan];
      scan := scan + 1;
    }
    HeaderParts(|digits|, negative);
    assert DigitsOf(b) == digits;
  }

  /** b to the power n. */
  ghost function Power(b: nat, n: nat): int {
    if n == 0 then 1 else b * Power(b, n - 1)
  }

  /** The number of digits that digit_stream_to_bignum allocates for n digits in a radix of k bits.
      The product is computed in an unsigned int. */
  function EstimatedLength(n: nat, k: nat): nat {
    (n * k % 0x1_0000_0000 + (DIGIT_LENGTH - 1)) / DIGIT_LENGTH
  }

  lemma {:induction false} PowerBits(b: nat, k: nat, n: nat)
    requires b <= Pow2(k)
    ensures n * k >= 0 && 0 <= Power(b, n) <= Pow2(n * k)
  {
    if n > 0 {
      PowerBits(b, k, n - 1);
      assert n * k == k + (n - 1) * k;
      Pow2Add(k, (n - 1) * k);
      MulBound(b, Power(b, n - 1), Pow2(k), Pow2((n - 1) * k));
    }
  }

  /** The estimate is always enough as long as the product does not wrap around. */
  lemma EstimateEnough(b: nat, n: nat)
    requires b > 1 && n * BitLength(b) < 0x1_0000_0000
    ensures Power(b, n) <= Pow(EstimatedLength(n, BitLength(b)))
  {
    var k := BitLength(b);
    BitLengthBounds(b);
    PowerBits(b, k, n);
    EstimatedBits(n, k);
    hide Pow, Pow2, Power, BitLength, EstimatedLength;
    var length := EstimatedLength(n, k);
    Pow2Monotone(n * k, 62 * length);
    PowIsPow2(length);
  }

  lemma EstimatedBits(n: nat, k: nat)
    requires 0 <= n * k < 0x1_0000_0000
    ensures 62 * EstimatedLength(n, k) >= n * k
  {
    var bits := n * k;
    assert bits % 0x1_0000_0000 == bits;
  }

  lemma {:induction false} PowerOfTwoPower(k: nat, n: nat)
    ensures n * k >= 0 && Power(Pow2(k), n) == Pow2(n * k)
  {
    if n > 0 {
      PowerOfTwoPower(k, n - 1);
      assert n * k == k + (n - 1) * k;
      Pow2Add(k, (n - 1) * k);
    }
  }

  lemma Pow2Strict(m: nat, n: nat)
    requires m < n
    ensures Pow2(m) < Pow2(n)
  {
    Pow2Monotone(m + 1, n);
  }

  /** Past the wrap-around it is not: 2^30 hexadecimal digits get room for fewer than 2^31 bits. */
  lemma EstimateWraps()
    ensures var n := 0x4000_0000; Power(16, n - 1) > Pow(EstimatedLength(n, BitLength(16)))
  {
    var n := 0x4000_0000;
    BitLengthIs(16, 5) by { assert Pow2(4) == 16 && Pow2(5) == 32; }
    var length := EstimatedLength(n, 5);
    assert 62 * length < 0x4000_0100;
    PowIsPow2(length);
    assert Pow2(4) == 16;
    PowerOfTwoPower(4, n - 1);
    Pow2Strict(62 * length, (n - 1) * 4);
  }

  /** When every stream of n digits in base b fits into the length that is estimated.  Apart from some
      lengths just below 2^32 in base 2, it is when the product does not wrap around. */
  predicate EstimateFits(b: nat, n: nat)
    requires b > 1
  {
    || n * BitLength(b) < 0x1_0000_0000
    || (b == 2 && (n == 0xFFFF_FFFF || 0xFFFF_FFE0 <= n <= 0xFFFF_FFFC))
  }

  lemma {:induction false} PowerAtLeast(b: nat, k: nat, n: nat)
    requires Pow2(k) <= b
    ensures n * k >= 0 && Pow2(n * k) <= Power(b, n)
  {
    if n > 0 {
      PowerAtLeast(b, k, n - 1);
      assert n * k == k + (n - 1) * k;
      Pow2Add(k, (n - 1) * k);
      MulBound(Pow2(k), Pow2((n - 1) * k), b, Power(b, n - 1));
    }
  }

  lemma {:induction false} PowerOfThree(n: nat)
    ensures Power(3, n) >= Pow2(n + n / 2)
    decreases n
  {
    if n >= 2 {
      PowerOfThree(n - 2);
      assert Power(3, n) == 3 * (3 * Power(3, n - 2));
      assert n + n / 2 == n - 2 + (n - 2) / 2 + 3;
      Pow2Add(3, n - 2 + (n - 2) / 2);
      assert Pow2(3) == 8;
    } else {
      assert n == 1 ==> Power(3, 1) == 3 * Power(3, 0) && Pow2(1) == 2;
    }
  }

  /** The estimate is less than what wraps around and a digit. */
  lemma EstimateBelow(n: nat, k: nat)
    requires n * k >= 0
    ensures var r := n * k % 0x1_0000_0000; r <= 62 * EstimatedLength(n, k) <= r + 61
  {}

  /** Where the product wraps around, it leaves too little unless it wraps around once and n is large. */
  lemma WrappedBits(n: nat, k: nat)
    requires 0 < n < 0x1_0000_0000 && k > 1 && n * k >= 0x1_0000_0000
    ensures n * (k - 1) >= n * k % 0x1_0000_0000 + 62 || (k == 2 && n > 0xFFFF_FFC2)
  {
    var q, r := n * k / 0x1_0000_0000, n * k % 0x1_0000_0000;
    assert n * k == 0x1_0000_0000 * q + r && q >= 1;
    assert n * (k - 1) == n * k - n;
    if n > 0xFFFF_FFC2 && k > 2 {
      LeFactor(3, k, n);
      assert k * n == n * k;
    }
  }

  /** Two bits for each of the digits 0 and 1. */
  lemma BinaryEstimate(n: nat)
    requires 0xFFFF_FFC2 < n < 0x1_0000_0000
    ensures n <= 62 * EstimatedLength(n, 2) <==> n == 0xFFFF_FFFF || 0xFFFF_FFE0 <= n <= 0xFFFF_FFFC
  {}

  lemma SmallBases(b: nat)
    requires b > 1
    ensures BitLength(b) > 1 && (BitLength(b) == 2 ==> b == 2 || b == 3) && BitLength(2) == 2
  {
    BitLengthBounds(b);
    BitLengthIs(2, 2) by { assert Pow2(1) == 2 && Pow2(2) == 4; }
    assert Pow2(0) == 1 && Pow2(1) == 2 && Pow2(2) == 4;
    if BitLength(b) <= 1 { Pow2Monotone(BitLength(b), 1); }
  }

  /** What the estimate leaves when the product wraps around. */
  lemma WrappedEstimate(b: nat, n: nat)
    requires b > 1 && 0 < n < 0x1_0000_0000 && n * BitLength(b) >= 0x1_0000_0000
    ensures Power(b, n) <= Pow2(62 * EstimatedLength(n, BitLength(b))) <==>
      b == 2 && (n == 0xFFFF_FFFF || 0xFFFF_FFE0 <= n <= 0xFFFF_FFFC)
  {
    hide Pow2, Power, EstimatedLength, BitLength;
    var k := BitLength(b);
    var length := EstimatedLength(n, k);
    SmallBases(b);
    BitLengthBounds(b);
    EstimateBelow(n, k);
    WrappedBits(n, k);
    if n > 0xFFFF_FFC2 && k == 2 {
      BinaryEstimate(n);
      if b == 2 {
        BaseTwo(n, length);
      } else {
        PowerOfThree(n);
        Pow2Strict(62 * length, n + n / 2);
      }
    } else {
      PowerAtLeast(b, k - 1, n);
      Pow2Strict(62 * length, n * (k - 1));
      SmallBinary(n, k);
    }
  }

  lemma SmallBinary(n: nat, k: nat)
    requires !(n > 0xFFFF_FFC2 && k == 2)
    ensures k == 2 ==> n < 0xFFFF_FFE0 && n != 0xFFFF_FFFF
  {}

  /** The estimate is enough just when EstimateFits says so. */
  lemma EstimateEnoughIff(b: nat, n: nat)
    requires b > 1 && 0 < n < 0x1_0000_0000
    ensures Power(b, n) <= Pow(EstimatedLength(n, BitLength(b))) <==> EstimateFits(b, n)
  {
    hide Pow2, Power, EstimatedLength, BitLength, Pow;
    if n * BitLength(b) < 0x1_0000_0000 {
      EstimateEnough(b, n);
    } else {
      PowIsPow2(EstimatedLength(n, BitLength(b)));
      WrappedEstimate(b, n);
    }
  }

  lemma BaseTwo(n: nat, length: nat)
    ensures Power(2, n) <= Pow2(62 * length) <==> n <= 62 * length
  {
    PowerOfTwoPower(1, n);
    assert Pow2(1) == 2 && n * 1 == n;
    if n <= 62 * length { Pow2Monotone(n, 62 * length); } else { Pow2Strict(62 * length, n); }
  }

  lemma {:induction false} FromDigitsBelow(b: nat, s: seq<int>)
    requires b > 1 && InBase(b, s)
    ensures 0 <= FromDigits(b, s) < Power(b, |s|)
    decreases |s|
  {
    if s != [] {
      var t := s[..|s| - 1];
      assert FromDigits(b, s) == FromDigits(b, t) * b + s[|s| - 1];
      FromDigitsBelow(b, t);
      hide FromDigits;
      MulGap(b, FromDigits(b, t), Power(b, |t|));
      assert FromDigits(b, t) * b == b * FromDigits(b, t);
    }
  }

  /** The largest number of n digits. */
  lemma {:induction false} AllLargest(b: nat, n: nat)
    requires b > 1
    ensures var s := seq(n, _ => b - 1); InBase(b, s) && FromDigits(b, s) == Power(b, n) - 1
    decreases n
  {
    if n > 0 {
      var s := seq(n, _ => b - 1);
      AllLargest(b, n - 1);
      assert s[..n - 1] == seq(n - 1, _ => b - 1);
      assert FromDigits(b, s) == FromDigits(b, s[..n - 1]) * b + (b - 1);
      assert (Power(b, n - 1) - 1) * b == b * Power(b, n - 1) - b;
    }
  }

  /** Exactly when no stream of n digits overflows the number that is allocated for it. */
  lemma StreamsFitIff(b: nat, n: nat)
    requires b > 1 && 0 < n < 0x1_0000_0000
    ensures (forall s {:trigger FromDigits(b, s)} :: InBase(b, s) && |s| == n ==>
      FromDigits(b, s) < Pow(EstimatedLength(n, BitLength(b)))) <==> EstimateFits(b, n)
  {
    EstimateEnoughIff(b, n);
    hide EstimateFits, Pow, Power, FromDigits, BitLength, EstimatedLength;
    if EstimateFits(b, n) {
      forall s | InBase(b, s) && |s| == n ensures FromDigits(b, s) < Pow(EstimatedLength(n, BitLength(b))) {
        FromDigitsBelow(b, s);
      }
    } else {
      AllLargest(b, n);
    }
  }

  lemma {:induction false} PowerMonotone(b: nat, m: nat, n: nat)
    requires b > 1 && m <= n
    ensures 0 < Power(b, m) <= Power(b, n)
    decreases n
  {
    if m < n {
      PowerMonotone(b, m, n - 1);
      MulAtLeast(Power(b, n - 1), b);
    } else if n > 0 {
      PowerMonotone(b, n - 1, n - 1);
      MulAtLeast(b, Power(b, n - 1));
    }
  }

  /** Every intermediate result of reading a stream fits into the estimated length. */
  lemma StreamFits(b: nat, s: seq<int>, k: nat, length: nat)
    requires b > 1 && InBase(b, s) && k < |s| && Power(b, |s|) <= Pow(length)
    ensures var m := FromDigits(b, s[..k]); m >= 0 && b * m < Pow(length) && b * m + s[k] < Pow(length)
    ensures FromDigits(b, s[..k + 1]) == b * FromDigits(b, s[..k]) + s[k]
  {
    hide Pow;
    FromDigitsBelow(b, s[..k + 1]);
    FromDigitsBelow(b, s[..k]);
    PowerMonotone(b, k + 1, |s|);
    assert s[..k + 1][..k] == s[..k];
    assert b * FromDigits(b, s[..k]) == FromDigits(b, s[..k]) * b;
  }

  /** digit_stream_to_bignum, given what the producer delivers. */
  method DigitStreamToBignum(stream: seq<Word>, radix: Word, negative: bool) returns (b: Bignum)
    requires 1 < radix < R && InBase(radix, stream) && |stream| < 0x1_0000_0000 && EstimateFits(radix, |stream|)
    ensures Valid(b) && Value(b) == if negative then -FromDigits(radix, stream) else FromDigits(radix, stream)
  {
    hide Val, Pow;
    if |stream| == 0 {
      b := MakeZero();
      return;
    }
    if |stream| == 1 {
      var digit := stream[0];
      assert stream[..0] == [];
      b := LongToBignum(if negative then -digit else digit);
      return;
    }
    var length := EstimatedLength(|stream|, BitLength(radix));
    EstimateEnoughIff(radix, |stream|);
    b := ReadStream(stream, radix, negative, length);
    b := Trim(b);
  }

  /** The loop: scale up and add the next digit. */
  method ReadStream(stream: seq<Word>, radix: Word, negative: bool, length: nat) returns (b: Bignum)
    requires 1 < radix < R && InBase(radix, stream) && |stream| > 1 && length <= LENGTH_MAX &&
      Power(radix, |stream|) <= Pow(length)
    ensures fresh(b) && Shaped(b) && Digits(DigitsOf(b)) && Len(b) == length > 0 && Negative(b) == negative
    ensures Magnitude(b) == FromDigits(radix, stream)
  {
    RoomForOne(radix, |stream|, length);
    hide Val, Pow, Power, FromDigits;
    b := AllocateZeroed(length, negative);
    AllZero(b);
    var k := 0;
    EmptyStream(radix, stream);
    while k < |stream|
      invariant 0 <= k <= |stream| && fresh(b) && b[0] == Header(length, negative) && Shaped(b) && Len(b) == length
      invariant Digits(DigitsOf(b)) && Magnitude(b) == FromDigits(radix, stream[..k])
    {
      StreamFits(radix, stream, k, length);
      DestructiveScaleUp(b, radix);
      DestructiveAdd(b, stream[k]);
      k := k + 1;
    }
    HeaderParts(length, negative);
    assert stream[..|stream|] == stream;
  }

  lemma EmptyStream(b: nat, s: seq<int>)
    ensures FromDigits(b, s[..0]) == 0
  {}

  lemma RoomForOne(b: nat, n: nat, length: nat)
    requires b > 1 && n > 0 && Power(b, n) <= Pow(length)
    ensures length > 0
  {
    PowerMonotone(b, 1, n);
    assert Power(b, 1) == b * Power(b, 0);
    assert Pow(0) == 1;
  }
}
