/** Whether a bignum fits in a machine word, and its conversion to one. */
module BignumFits {
  import opened Arith
  import opened Bits
  import opened BignumDigits
  import opened BignumRepr
  import opened BignumBitwise
  import opened BignumRadix

  /** The range of unsigned int. */
  const UNSIGNED_INT: int := 0x1_0000_0000

  /** (unsigned int) n. */
  function UnsignedInt(n: nat): (r: nat)
    ensures r < 0x1_0000_0000 && (n < 0x1_0000_0000 ==> r == n) && (n - r) % 0x1_0000_0000 == 0
  {
    n % UNSIGNED_INT
  }

  /** v is in the range of n bits, or of n bits and a sign bit. */
  ghost predicate InWord(v: int, n: nat, signed: bool) {
    if signed then -Pow2(n) <= v < Pow2(n) else 0 <= v < Pow2(n)
  }

  /** The magnitudes below this are those that have room in n bits. */
  ghost function Limit(n: nat, negative: bool): int {
    if negative then Pow2(n) + 1 else Pow2(n)
  }

  /** The magnitudes below this have at most the length and the top digit of one that has room. */
  ghost function CoarseLimit(n: nat, negative: bool): int {
    if negative && n % 62 != 0 then Pow2(n) + Pow2(62 * (n / 62)) else Pow2(n)
  }

  /** BIGNUM_BITS_TO_DIGITS. */
  function BitsToDigits(n: nat): nat {
    (n + (DIGIT_LENGTH - 1)) / DIGIT_LENGTH
  }

  /** Undefined: the assertion at bignum.c:755 fails, or a word is shifted by 64 bits or more. */
  datatype Judgement = Fits | DoesNotFit | Undefined

  function Right(fits: bool): Judgement {
    if fits then Fits else DoesNotFit
  }

  /** How a magnitude m of `length` digits is judged, for n bits.  The number of bits and the length are
      compared as 32-bit numbers. */
  ghost function Judged(m: int, length: nat, n: nat, negative: bool, signed: bool): Judgement {
    var bits, digits := UnsignedInt(n), BitsToDigits(UnsignedInt(n));
    if negative && !signed then DoesNotFit
    else if bits == 0 then Undefined
    else if length < UNSIGNED_INT then Right(m < CoarseLimit(bits, negative))
    else if UnsignedInt(length) == digits then Undefined
    else Right(UnsignedInt(length) < digits)
  }

  /** The magnitudes for which the answer is wrong. */
  ghost predicate Misjudged(m: int, length: nat, n: nat, negative: bool, signed: bool) {
    var bits, digits := UnsignedInt(n), BitsToDigits(UnsignedInt(n));
    && (signed || !negative)
    && (bits == 0
        || if length < UNSIGNED_INT
           then CoarseLimit(bits, negative) <= m < Limit(n, negative) ||
             Limit(n, negative) <= m < CoarseLimit(bits, negative)
           else UnsignedInt(length) == digits || (UnsignedInt(length) < digits <==> m >= Limit(n, negative)))
  }

  /** For words and bignums of ordinary size only some negative numbers are judged wrongly. */
  lemma OrdinaryMisjudged(m: int, length: nat, n: nat, negative: bool)
    requires 0 < n < UNSIGNED_INT && length < UNSIGNED_INT
    ensures Misjudged(m, length, n, negative, true) <==>
      negative && if n % 62 == 0 then m == Pow2(n) else Pow2(n) < m < Pow2(n) + Pow2(62 * (n / 62))
    ensures !Misjudged(m, length, n, negative, false)
  {}

  lemma DigitsFor(n: nat)
    requires n > 0
    ensures var d := BitsToDigits(n); d > 0 && 62 * (d - 1) < n <= 62 * d && d < n + 1
    ensures n % 62 == 0 ==> n == 62 * BitsToDigits(n)
    ensures n % 62 != 0 ==> n / 62 == BitsToDigits(n) - 1
  {}

  /** Fewer digits than the word needs. */
  lemma FewDigits(m: int, length: nat, n: nat, negative: bool)
    requires n > 0 && length < BitsToDigits(n) && 0 <= m < Pow(length)
    ensures m < CoarseLimit(n, negative)
  {
    DigitsFor(n);
    hide Pow2, Pow;
    PowIsPow2(length);
    Pow2Monotone(62 * length, n);
  }

  /** More digits than the word needs. */
  lemma ManyDigits(m: int, length: nat, n: nat, negative: bool)
    requires n > 0 && length > BitsToDigits(n) && m >= Pow(length - 1)
    ensures m >= CoarseLimit(n, negative)
  {
    DigitsFor(n);
    var d := BitsToDigits(n);
    hide Pow;
    PowIsPow2(length - 1);
    Pow2Monotone(62 * d, 62 * (length - 1));
    Pow2Monotone(n, 62 * d);
    if n % 62 != 0 {
      Pow2Monotone(n + 1, 62 * d);
      Pow2Monotone(62 * (n / 62), n);
      assert Pow2(n + 1) == 2 * Pow2(n);
    }
  }

  /** With as many digits as the word needs, the top digit decides, but for the digits below it. */
  lemma SameDigits(m: int, top: int, low: int, n: nat, negative: bool)
    requires n > 0 && var k := BitsToDigits(n) - 1;
      k >= 0 && IsDigit(top) && 0 <= low < Pow(k) && m == low + Pow(k) * top
    ensures var e := n - 62 * (BitsToDigits(n) - 1);
      e > 0 && (m < CoarseLimit(n, negative) <==> top < Pow2(e) || (top == Pow2(e) && negative))
  {
    DigitsFor(n);
    var k := BitsToDigits(n) - 1;
    var e := n - 62 * k;
    PowIsPow2(k);
    Pow2Add(62 * k, e);
    Pow2Word();
    hide Pow2, Pow;
    var p, q := Pow(k), Pow2(e);
    assert Pow2(n) == p * q;
    if top < q { MulGap(p, top, q); } else { MulMore(p, q, top); }
    if n % 62 == 0 { assert e == 62 && q == RADIX; }
  }

  lemma MulMore(p: int, q: int, t: int)
    requires 0 < p && q <= t
    ensures p * t >= p * q && (t > q ==> p * t >= p * q + p) && (t == q ==> p * t == p * q)
  {
    if t > q { MulGap(p, q, t); }
  }

  /** bignum_fits_in_word_p.  The answer is right exactly for the numbers that are not Misjudged. */
  method FitsInWord(b: Bignum, wordLength: nat, signed: bool) returns (fits: Judgement)
    requires Valid(b) && wordLength > if signed then 1 else 0
    ensures var n := if signed then wordLength - 1 else wordLength;
      fits == Judged(Magnitude(b), Len(b), n, Negative(b), signed)
    ensures var n := if signed then wordLength - 1 else wordLength;
      fits == Right(InWord(Value(b), n, signed)) <==> !Misjudged(Magnitude(b), Len(b), n, Negative(b), signed)
  {
    hide Val, Pow, Pow2, BitsToDigits, CoarseLimit;
    MagnitudeBounds(b);
    ghost var m := Magnitude(b);
    JudgedRight(b, if signed then wordLength - 1 else wordLength, signed);
    var nBits: nat;
    if signed {
      nBits := UnsignedInt(wordLength - 1);
    } else {
      if Negative(b) {
        return DoesNotFit;
      }
      nBits := UnsignedInt(wordLength);
    }
    if nBits == 0 {
      return Undefined;
    }
    var length := Len(b);
    var maxDigits := BitsToDigits(nBits);
    if UnsignedInt(length) < maxDigits {
      if length < UNSIGNED_INT { FewDigits(m, length, nBits, Negative(b)); }
      return Fits;
    }
    if UnsignedInt(length) > maxDigits {
      if length < UNSIGNED_INT { ManyDigits(m, length, nBits, Negative(b)); }
      return DoesNotFit;
    }
    var msd := b[length];
    ShiftAmount(nBits, length);
    if nBits < (length - 1) * DIGIT_LENGTH {
      // The difference of unsigned words is 64 or more.
      return Undefined;
    }
    var max := Pow2(nBits - (length - 1) * DIGIT_LENGTH);
    ghost var low := TopSplit(b);
    SameDigits(m, msd, low, nBits, Negative(b));
    fits := Right(msd < max || (signed && msd == max && Negative(b)));
  }

  /** The shift is defined unless the length has been truncated. */
  lemma ShiftAmount(n: nat, length: nat)
    requires 0 < n < UNSIGNED_INT && UnsignedInt(length) == BitsToDigits(n)
    ensures length > 0
    ensures length < UNSIGNED_INT ==> 0 < n - (length - 1) * DIGIT_LENGTH <= 62
    ensures length >= UNSIGNED_INT ==> n < (length - 1) * DIGIT_LENGTH
  {
    DigitsFor(n);
  }

  /** The judgement says whether the number has room, unless it is misjudged. */
  lemma JudgedRight(b: Bignum, n: nat, signed: bool)
    requires Valid(b)
    ensures Judged(Magnitude(b), Len(b), n, Negative(b), signed) == Right(InWord(Value(b), n, signed)) <==>
      !Misjudged(Magnitude(b), Len(b), n, Negative(b), signed)
  {
    hide Val, Pow, Pow2, BitsToDigits, CoarseLimit;
    MagnitudeBounds(b);
    assert Negative(b) ==> Magnitude(b) > 0;
    RoomIff(Magnitude(b), n, Negative(b), signed);
  }

  lemma RoomIff(m: int, n: nat, negative: bool, signed: bool)
    requires m >= 0 && (negative ==> m > 0)
    ensures InWord(if negative then -m else m, n, signed) <==> (signed || !negative) && m < Limit(n, negative)
  {}

  lemma TopSplit(b: Bignum) returns (low: int)
    requires Valid(b) && Len(b) > 0
    ensures 0 <= low < Pow(Len(b) - 1) && Magnitude(b) == low + Pow(Len(b) - 1) * b[Len(b)] && IsDigit(b[Len(b)])
  {
    var s, k := DigitsOf(b), Len(b) - 1;
    low := Val(s[..k]);
    assert s == s[..k] + [s[k]];
    ValSnoc(s[..k], s[k]);
    ValBound(s[..k]);
  }

  // ---------------------------------------------------------------- fixnums

  /** The number of digits of a magnitude. */
  ghost function DigitCount(m: nat): nat {
    if m == 0 then 0 else 1 + DigitCount(m / RADIX)
  }

  lemma {:induction false} DigitCountIs(m: nat, k: nat)
    requires m < Pow(k) && (k > 0 ==> m >= Pow(k - 1))
    ensures DigitCount(m) == k
    decreases k
  {
    if k == 1 {
      assert Pow(1) == RADIX * Pow(0) && Pow(0) == 1;
      assert m / RADIX == 0;
    } else if k > 1 {
      DigitCountIs(m / RADIX, k - 1);
    }
  }

  lemma LenIsCount(b: Bignum)
    requires Valid(b)
    ensures Magnitude(b) >= 0 && DigitCount(Magnitude(b)) == Len(b)
  {
    MagnitudeBounds(b);
    DigitCountIs(Magnitude(b), Len(b));
  }

  /** The lengths that are not mistaken for one of 0 or 1 digits. */
  predicate Countable(length: nat) {
    length < UNSIGNED_INT || UnsignedInt(length) > 1
  }

  /** The lengths that are mistaken for 0. */
  predicate TakenForZero(length: nat) {
    length >= UNSIGNED_INT && UnsignedInt(length) == 0
  }

  /** Whether a bignum fits in a fixnum, of 57 bits and a sign, is judged rightly exactly when its
      length is not mistaken. */
  lemma FixnumJudged(b: Bignum)
    requires Valid(b)
    ensures var fits := Judged(Magnitude(b), Len(b), 57, Negative(b), true);
      && (fits == Right(InWord(Value(b), 57, true)) <==> Countable(Len(b)))
      && (!Countable(Len(b)) ==> fits == if TakenForZero(Len(b)) then Fits else Undefined)
      && (!Countable(Len(b)) ==> !InWord(Value(b), 57, true))
  {
    hide Val, Pow, InWord;
    assert Pow2(0) == 1;
    assert BitsToDigits(57) == 1;
    JudgedRight(b, 57, true);
    MagnitudeBounds(b);
    RoomIff(Magnitude(b), 57, Negative(b), true);
    if Len(b) >= UNSIGNED_INT {
      ManyDigits(Magnitude(b), Len(b), 57, true);
    }
    assert 57 % 62 != 0 && 57 / 62 == 0;
  }

  // ---------------------------------------------------------------- to a long

  const UNSIGNED: int := 0x1_0000_0000_0000_0000

  /** v modulo 2^64 as a signed word. */
  function Wrapped(v: int): (w: Word)
    ensures -0x8000_0000_0000_0000 <= v < 0x8000_0000_0000_0000 ==> w == v
    ensures (v - w) % 0x1_0000_0000_0000_0000 == 0
  {
    (v + 0x8000_0000_0000_0000) % UNSIGNED - 0x8000_0000_0000_0000
  }

  lemma Accumulate(acc: int, v: int, d: int)
    requires acc == v % UNSIGNED
    ensures (RADIX * acc + d) % UNSIGNED == (d + RADIX * v) % UNSIGNED
  {
    var q := v / UNSIGNED;
    DivMod(v, UNSIGNED);
    assert d + RADIX * v == RADIX * acc + d + UNSIGNED * (RADIX * q);
    SameModulo(RADIX * acc + d, RADIX * q);
  }

  lemma SameModulo(x: int, k: int)
    ensures (x + UNSIGNED * k) % UNSIGNED == x % UNSIGNED
  {
    DivMod(x, UNSIGNED);
    DivIs(x + UNSIGNED * k, UNSIGNED, x / UNSIGNED + k, x % UNSIGNED);
  }

  lemma WrappedAccumulator(m: int, acc: int)
    requires acc == m % UNSIGNED
    ensures Wrapped(acc) == Wrapped(m) && Wrapped(-acc) == Wrapped(-m)
  {
    var q := m / UNSIGNED;
    DivMod(m, UNSIGNED);
    SameModulo(acc + 0x8000_0000_0000_0000, q);
    SameModulo(-acc + 0x8000_0000_0000_0000, -q);
  }

  /** bignum_to_long: the number modulo 2^64, so the number itself if it is in the range of a long. */
  method ToLong(b: Bignum) returns (n: Word)
    requires Valid(b)
    ensures n == Wrapped(Value(b))
    ensures -0x8000_0000_0000_0000 <= Value(b) < 0x8000_0000_0000_0000 ==> n == Value(b)
  {
    hide Val, Pow, Wrapped;
    MagnitudeBounds(b);
    if IsZero(b) {
      WrappedZero();
      return 0;
    }
    ghost var ds := DigitsOf(b);
    // The accumulator is an unsigned word.
    var accumulator := 0;
    var scan := 1 + Len(b);
    NoDigits(ds[scan - 1..]);
    while 1 < scan
      invariant 1 <= scan <= 1 + |ds| && accumulator == Val(ds[scan - 1..]) % UNSIGNED
    {
      scan := scan - 1;
      ghost var v := Val(ds[scan..]);
      Accumulate(accumulator, v, ds[scan - 1]);
      ValCons(ds[scan - 1], ds[scan..]);
      assert ds[scan - 1..] == [ds[scan - 1]] + ds[scan..];
      accumulator := (RADIX * accumulator + b[scan]) % UNSIGNED;
    }
    assert ds[0..] == ds;
    WrappedAccumulator(Magnitude(b), accumulator);
    n := if Negative(b) then Wrapped(-accumulator) else Wrapped(accumulator);
  }

  lemma WrappedZero()
    ensures Wrapped(0) == 0
  {}

  lemma NoDigits(s: seq<int>)
    requires s == []
    ensures Val(s) == 0 && Val(s) % UNSIGNED == 0
  {}

  // ---------------------------------------------------------------- numbers that are misjudged

  /** -(2^63 + 1) is taken to fit in a long, but the conversion gives another number. */
  lemma LongMisjudged(b: Bignum)
    requires Valid(b) && Negative(b) && DigitsOf(b) == [1, 2]
    ensures Value(b) == -0x8000_0000_0000_0001 && !InWord(Value(b), 63, true) && Wrapped(Value(b)) != Value(b)
    ensures Judged(Magnitude(b), Len(b), 63, true, true) == Fits
  {
    ValSnoc([1], 2);
    ValSnoc([], 1);
    assert [] + [1] == [1] && [1] + [2] == [1, 2] && Pow(0) == 1 && Pow(1) == RADIX;
    Pow2Word();
    assert Pow2(63) == 2 * Pow2(62);
  }

  /** 2^58 is taken not to fit in a word of 2^32 + 8 bits. */
  lemma WordLengthWraps(b: Bignum)
    requires Valid(b) && !Negative(b) && DigitsOf(b) == [0x0400_0000_0000_0000]
    ensures InWord(Value(b), 0x1_0000_0008, false) &&
      Judged(Magnitude(b), Len(b), 0x1_0000_0008, false, false) == DoesNotFit
  {
    var d := 0x0400_0000_0000_0000;
    ValSnoc([], d);
    assert [] + [d] == [d] && Pow(0) == 1 && Magnitude(b) == d;
    Pow2Word();
    Pow2Monotone(62, 0x1_0000_0008);
    assert Pow2(8) == 256;
  }

  /** A bignum of 2^32 digits is taken to fit in a fixnum. */
  lemma LengthWraps(b: Bignum)
    requires Valid(b) && Len(b) == UNSIGNED_INT
    ensures !InWord(Value(b), 57, true) && Judged(Magnitude(b), Len(b), 57, Negative(b), true) == Fits
  {
    FixnumJudged(b);
    assert BitsToDigits(57) == 1;
  }
}
