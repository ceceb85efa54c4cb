/** Conversion to double: an exact integer significand, and where the code rounds it correctly. */
module BignumDouble {
  import opened Arith
  import opened Bits
  import opened Rounding
  import opened BignumDigits
  import opened BignumRepr
  import opened BignumAdd
  import opened BignumLongDivision
  import opened BignumDivision
  import opened BignumBitwise

  /** The digits below `index` and the digit at `index`, seen as a fraction of the kept part: the
      kept part is H, its lowest bit has the weight 2^(62 index + k). */
  ghost predicate Kept(n: int, index: nat, k: nat, H: int, d: int, low: int) {
    && 0 < k <= 62 && IsDigit(d) && 0 <= low < Pow(index)
    && n == H * Pow2(62 * index + k) + (d % Pow2(k) * Pow(index) + low)
  }

  lemma RestBelowUnit(x: int, u: int, p: int, low: int)
    requires 0 <= x < u && 0 <= low < p
    ensures 0 <= x * p + low < u * p
  {
    LeFactor(x + 1, u, p);
    OneMore(x, p);
    assert x * p >= 0;
  }

  lemma LengthOfKept(n: int, H: int, s: nat)
    requires Pow2(52) <= H < Pow2(53) && H * Pow2(s) <= n < (H + 1) * Pow2(s)
    ensures n >= 0 && BitLength(n) == 53 + s
  {
    hide Pow2, BitLength;
    Pow2Add(52, s);
    Pow2Add(53, s);
    LeFactor(Pow2(52), H, Pow2(s));
    LeFactor(H + 1, Pow2(53), Pow2(s));
    BitLengthIs(n, 53 + s);
  }

  lemma KeptParts(n: int, index: nat, k: nat, H: int, d: int, low: int)
    requires Kept(n, index, k, H, d, low) && Pow2(52) <= H < Pow2(53)
    ensures n >= 0 && Excess(n) == 62 * index + k
    ensures n / Pow2(Excess(n)) == H && n % Pow2(Excess(n)) == d % Pow2(k) * Pow(index) + low
  {
    hide Pow, Pow2, BitLength;
    var s := 62 * index + k;
    PowIsPow2(index);
    Pow2Add(k, 62 * index);
    DivMod(d, Pow2(k));
    RestBelowUnit(d % Pow2(k), Pow2(k), Pow(index), low);
    OneMore(H, Pow2(s));
    LengthOfKept(n, H, s);
    DivIs(n, Pow2(s), H, d % Pow2(k) * Pow(index) + low);
  }

  /** The half of a unit, seen from the digit that is cut. */
  lemma HalfUnit(index: nat, k: nat)
    requires 0 < k
    ensures Pow2(62 * index + k - 1) == Pow2(k - 1) * Pow(index) && Pow2(k) == 2 * Pow2(k - 1)
  {
    PowIsPow2(index);
    Pow2Add(k - 1, 62 * index);
  }

  /** The guard bit is the highest bit that is cut. */
  lemma GuardBit(d: int, k: nat)
    requires d >= 0 && k > 0
    ensures Bit(d, k - 1) == (d % Pow2(k) >= Pow2(k - 1))
    ensures Bit(d, k - 1) ==> d % Pow2(k) == Pow2(k - 1) + d % Pow2(k - 1)
    ensures Bit(d, k) == (d / Pow2(k) % 2 == 1)
  {
    var p := Pow2(k - 1);
    assert Pow2(k) == p * 2;
    DivDiv(d, p, 2);
    var q := d / p;
    DivMod(d, p);
    assert d % Pow2(k) == p * (q % 2) + d % p;
    assert q % 2 == 0 || q % 2 == 1;
  }

  /** The bits below the guard bit decide against a half. */
  lemma CompareHalf(n: int, index: nat, k: nat, H: int, d: int, low: int)
    requires Kept(n, index, k, H, d, low) && Pow2(52) <= H < Pow2(53)
    ensures n >= 0 && Excess(n) == 62 * index + k
    ensures var half := Pow2(Excess(n) - 1); var rest := n % Pow2(Excess(n));
      && (!Bit(d, k - 1) ==> rest < half)
      && (Bit(d, k - 1) ==> (rest > half <==> d % Pow2(k - 1) != 0 || low != 0) && rest >= half)
  {
    hide Pow, Pow2, BitLength, Excess, Bit;
    KeptParts(n, index, k, H, d, low);
    HalfUnit(index, k);
    GuardBit(d, k);
    DivMod(d, Pow2(k - 1));
    DivMod(d, Pow2(k));
    CompareRest(d % Pow2(k), Pow2(k - 1), Pow(index), low);
  }

  lemma CompareRest(x: int, h: int, p: int, low: int)
    requires 0 <= x && 0 <= h && 0 <= low < p
    ensures x < h ==> x * p + low < h * p
    ensures x > h ==> x * p + low > h * p
  {
    if x < h { MulGap(p, x, h); }
    if x > h { MulGap(p, h, x); }
    assert x * p == p * x && h * p == p * h;
  }

  /** Rounding up is decided by the guard bit, the bits below it and the lowest kept bit. */
  lemma RoundsUpIs(n: int, index: nat, k: nat, H: int, d: int, low: int)
    requires Kept(n, index, k, H, d, low) && Pow2(52) <= H < Pow2(53)
    ensures n >= 0 && Excess(n) == 62 * index + k && Truncated(n) == H * Pow2(62 * index + k)
    ensures RoundsUp(n) == (Bit(d, k - 1) && (d % Pow2(k - 1) != 0 || H % 2 == 1 || low != 0))
  {
    hide Pow, Pow2, BitLength, Excess, Bit;
    KeptParts(n, index, k, H, d, low);
    CompareHalf(n, index, k, H, d, low);
  }

  // ---------------------------------------------------------------- the conversion

  /** Double arithmetic is exact when the result is representable. */
  method FlonumAdd(a: int, b: int) returns (c: int)
    requires Representable(a + b)
    ensures c == a + b
  {
    c := a + b;
  }

  method FlonumScale(a: int, k: nat) returns (c: int)
    requires Representable(a * Pow2(k))
    ensures c == a * Pow2(k)
  {
    c := a * Pow2(k);
  }

  lemma FloatIs(h: nat, k: nat)
    requires h <= Pow2(53)
    ensures Representable(h * Pow2(k))
  {
    hide Pow2;
    if h < Pow2(53) {
      assert IsFloat(h * Pow2(k), h, k);
    } else {
      Pow2Add(52, k + 1);
      Pow2Add(53, k);
      Pow2Halves(53);
      assert IsFloat(h * Pow2(k), Pow2(52), k + 1);
    }
  }

  /** The number in terms of its top digit. */
  lemma TopSplit(s: seq<int>, n: nat)
    requires Digits(s) && |s| == n + 1
    ensures Val(s) == s[n] * Pow(n) + Val(s[..n]) && 0 <= Val(s[..n]) < Pow(n)
  {
    hide Val, Pow;
    Prefix(s, n);
    assert s[..n + 1] == s && Pow(n) * s[n] == s[n] * Pow(n);
    ValBound(s[..n]);
  }

  /** Cutting the low k bits of the top digit. */
  lemma CutTop(s: seq<int>, n: nat, k: nat)
    requires Digits(s) && |s| == n + 1 && 0 < k && BitLength(s[n]) == 53 + k
    ensures Kept(Val(s), n, k, s[n] / Pow2(k), s[n], Val(s[..n])) && Pow2(52) <= s[n] / Pow2(k) < Pow2(53)
  {
    hide Val, Pow, Pow2, BitLength;
    TopSplit(s, n);
    TopBits(s[n]);
    CutDigit(s[n], k);
    PowIsPow2(n);
    Pow2Add(k, 62 * n);
    Recombine(s[n] / Pow2(k), Pow2(k), s[n] % Pow2(k), Pow(n));
  }

  lemma CutDigit(d: nat, k: nat)
    requires 0 < k && BitLength(d) == 53 + k
    ensures Pow2(52) <= d / Pow2(k) < Pow2(53) && d == Pow2(k) * (d / Pow2(k)) + d % Pow2(k)
  {
    BitLengthBounds(d);
    assert d > 0;
    hide Pow2, BitLength;
    DivMod(d, Pow2(k));
    Pow2Add(52, k);
    Pow2Add(53, k);
    QuotientBetween(d, Pow2(k), Pow2(52), Pow2(53));
  }

  lemma TopBits(d: int)
    requires IsDigit(d)
    ensures BitLength(d) <= 62
  {
    hide Pow2;
    BitLengthBounds(d);
    Pow2Word();
    if BitLength(d) > 62 { Pow2Monotone(62, BitLength(d) - 1); }
  }

  lemma Recombine(q: int, p: int, r: int, w: int)
    ensures (p * q + r) * w == q * (p * w) + r * w
  {
    assert (p * q) * w == q * (p * w);
  }

  /** The kept part of a short top digit t and the next digit d. */
  ghost function KeptTwo(t: int, d: int, c: nat): int
    requires c <= 53
  {
    t * Pow2(53 - c) + d / Pow2(9 + c)
  }

  lemma KeptTwoBounds(t: nat, d: int, c: nat)
    requires 0 < c < 53 && BitLength(t) == c && IsDigit(d)
    ensures Pow2(52) <= KeptTwo(t, d, c) < Pow2(53)
  {
    BitLengthBounds(t);
    assert t > 0;
    hide Pow2, BitLength;
    var b := 53 - c;
    ShiftFactorsOf(9 + c);
    QuotientBetween(d, Pow2(9 + c), 0, Pow2(b));
    Pow2Add(c - 1, b);
    Pow2Add(c, b);
    LeFactor(Pow2(c - 1), t, Pow2(b));
    LeFactor(t + 1, Pow2(c), Pow2(b));
    OneMore(t, Pow2(b));
  }

  lemma KeptTwoParts(t: int, d: int, c: nat)
    requires 0 < c < 53
    ensures KeptTwo(t, d, c) % 2 == d / Pow2(9 + c) % 2
    ensures t * RADIX + (d - d % Pow2(9 + c)) == KeptTwo(t, d, c) * Pow2(9 + c)
  {
    Pow2Halves(53 - c);
    hide Pow2;
    ShiftFactorsOf(9 + c);
    DivMod(d, Pow2(9 + c));
    SecondArithmetic(t, Pow2(53 - c), Pow2(9 + c), d / Pow2(9 + c));
    EvenProduct(t, Pow2(52 - c), d / Pow2(9 + c));
  }

  /** Cutting the low bits of the second digit, when the top digit is too short. */
  lemma CutSecond(s: seq<int>, n: nat, c: nat)
    requires Digits(s) && |s| == n + 2 && 0 < c < 53 && BitLength(s[n + 1]) == c
    ensures var H := KeptTwo(s[n + 1], s[n], c);
      Kept(Val(s), n, 9 + c, H, s[n], Val(s[..n])) && Pow2(52) <= H < Pow2(53)
  {
    var t, d, k := s[n + 1], s[n], 9 + c;
    PowUp(n);
    hide Val, Pow, Pow2, BitLength, KeptTwo;
    TopSplit(s, n + 1);
    TopSplit(s[..n + 1], n);
    assert s[..n + 1][..n] == s[..n];
    KeptTwoBounds(t, d, c);
    KeptTwoParts(t, d, c);
    PowIsPow2(n);
    Pow2Add(k, 62 * n);
    JoinTwo(t, d, Pow(n), KeptTwo(t, d, c), Pow2(k), d % Pow2(k));
  }

  lemma JoinTwo(t: int, d: int, w: int, H: int, p: int, r: int)
    requires t * RADIX + (d - r) == H * p
    ensures t * (RADIX * w) + d * w == H * (p * w) + r * w
  {
    Recombine(H, p, r, w);
    assert p * H == H * p;
    assert (t * RADIX + d) * w == (t * RADIX) * w + d * w;
    MulAssoc(t, RADIX, w);
  }

  lemma ShiftFactorsOf(k: nat)
    requires k <= 62
    ensures Pow2(62 - k) * Pow2(k) == RADIX
  {
    Pow2Add(62 - k, k);
    Pow2Word();
  }

  lemma SecondArithmetic(t: int, b: int, p: int, q: int)
    requires b * p == RADIX
    ensures (t * b + q) * p == t * RADIX + p * q
  {
    assert (t * b) * p == t * (b * p);
  }

  lemma EvenProduct(t: int, h: int, q: int)
    ensures (t * (2 * h) + q) % 2 == q % 2
  {
    assert t * (2 * h) == 2 * (t * h);
  }

  /** What the digit loop leaves: the top digit alone with a guard bit above it, or the 53 leading
      bits H with the guard bit below them. */
  ghost predicate Leading(b: Bignum, value: int, index: int, guard: int, correction: int, H: int)
    requires Valid(b)
    reads b
  {
    && 0 <= index < Len(b)
    && if BitLength(b[Len(b)]) == 53
       then index == Len(b) - 1 && guard == 61 && value == b[Len(b)] == H
       else
         && 0 <= guard < 61 && value == H * Pow2(guard + 1) && correction == Pow2(guard + 1)
         && Kept(Magnitude(b), index, guard + 1, H, b[1 + index], Val(DigitsOf(b)[..index]))
         && Pow2(52) <= H < Pow2(53) && H % 2 == b[1 + index] / Pow2(guard + 1) % 2
  }

  /** The bits of the digit d that go into the significand. */
  ghost function Part(d: int, cut: nat): int {
    d - d % Pow2(cut)
  }

  lemma ShortPart(d: nat, c: nat)
    requires c == BitLength(d) <= 53
    ensures Part(d, 0) == d < Pow2(53) && Representable(d)
  {
    BitLengthBounds(d);
    Pow2Monotone(c, 53);
    WholeQuotient(d);
    assert d * Pow2(0) == d;
    FloatIs(d, 0);
  }

  lemma LongPart(d: nat, cut: nat)
    requires cut > 0 && BitLength(d) == 53 + cut
    ensures Part(d, cut) == d / Pow2(cut) * Pow2(cut) && Representable(Part(d, cut))
  {
    hide Pow2, BitLength, Representable;
    CutDigit(d, cut);
    OneMore(d / Pow2(cut), Pow2(cut));
    FloatIs(d / Pow2(cut), cut);
  }

  /** The value after the digit loop has looked at the top digit. */
  lemma FirstDigit(b: Bignum, c: nat, cut: nat)
    requires Valid(b) && !IsZero(b) && c == BitLength(b[Len(b)]) && cut == if c > 53 then c - 53 else 0
    ensures 0 < c <= 62 && Representable(0 * Pow2(62)) && 0 * Pow2(62) == 0
    ensures Representable(Part(b[Len(b)], cut))
    ensures c <= 53 ==> Part(b[Len(b)], cut) == b[Len(b)]
    ensures c == 53 ==> Leading(b, b[Len(b)], Len(b) - 1, 61, Pow2(62), b[Len(b)])
    ensures c > 53 ==> Leading(b, Part(b[Len(b)], cut), Len(b) - 1, cut - 1, Pow2(cut), b[Len(b)] / Pow2(cut))
  {
    hide Val, Pow, Pow2, BitLength, Part, Kept, Representable;
    var s, n, d := DigitsOf(b), Len(b) - 1, b[Len(b)];
    assert d == s[n];
    BitLengthBounds(d);
    TopBits(d);
    ZeroTimes(62);
    FloatIs(0, 62);
    if c > 53 {
      CutTop(s, n, cut);
      LongPart(d, cut);
    } else {
      ShortPart(d, c);
    }
  }

  lemma ZeroTimes(k: nat)
    ensures 0 * Pow2(k) == 0
  {}

  lemma SecondDigit(b: Bignum, c: nat, cut: nat)
    requires Valid(b) && Len(b) >= 2 && c == BitLength(b[Len(b)]) && 0 < c < 53 && cut == 9 + c
    ensures var t, d := b[Len(b)], b[Len(b) - 1];
      && Representable(t * Pow2(62)) && Representable(t * Pow2(62) + Part(d, cut))
      && Leading(b, t * Pow2(62) + Part(d, cut), Len(b) - 2, cut - 1, Pow2(cut), KeptTwo(t, d, c))
  {
    var s, n := DigitsOf(b), Len(b) - 2;
    var t, d := b[Len(b)], b[Len(b) - 1];
    assert t == s[n + 1] && d == s[n];
    BitLengthBounds(t);
    hide Val, Pow, Pow2, BitLength, KeptTwo;
    Pow2Monotone(c, 53);
    Pow2Word();
    CutSecond(s, n, c);
    KeptTwoParts(t, d, c);
    FloatIs(t, 62);
    FloatIs(KeptTwo(t, d, c), cut);
  }

  /** A number of one digit with fewer than 53 bits. */
  lemma OneShortDigit(b: Bignum)
    requires Valid(b) && Len(b) == 1
    ensures Magnitude(b) == b[1]
  {
    OneDigit(b);
  }

  /** The number of digits below those that have a part in the significand. */
  function ScaleWords(b: Bignum): nat
    requires Valid(b) && !IsZero(b)
    reads b
  {
    if Len(b) == 1 || BitLength(b[Len(b)]) >= 53 then Len(b) - 1 else Len(b) - 2
  }

  /** The digit loop: collect 53 bits from the top.  `guard` is the position of the guard bit in the
      digit at `index`, `finished` says that there is nothing to round. */
  method LeadingBits(b: Bignum)
    returns (value: int, index: int, scaleWords: int, guard: int, correction: int, finished: bool, ghost H: int)
    requires Valid(b) && !IsZero(b)
    ensures Representable(value)
    ensures finished ==> Len(b) == 1 && BitLength(b[1]) < 53 && value == Magnitude(b) && scaleWords == 0
    ensures !finished ==> Leading(b, value, index, guard, correction, H) && scaleWords == index
    ensures scaleWords == ScaleWords(b)
  {
    hide Val, Pow, Pow2, BitLength, Representable, Part, Leading;
    ghost var c := BitLength(b[Len(b)]);
    H := 0;
    index := Len(b) - 1;
    var bitsToGet := 53;
    // BIGNUM_RADIX >> 1
    guard := 61;
    value, correction, scaleWords, finished := 0, 0, 0, false;
    var count := BitLength(b[1 + index]);
    // The mask keeps all bits of a digit but the low `cut` ones.
    var cut: nat := 0;
    FirstDigit(b, c, if c > 53 then c - 53 else 0);
    while true
      invariant guard == 61 && cut == 0 && !finished && scaleWords == 0 && correction == 0
      invariant (index == Len(b) - 1 && value == 0 && bitsToGet == 53 && count == c)
                || (index == Len(b) - 2 && index >= 0 && value == b[Len(b)] && c < 53 && bitsToGet == 53 - c &&
                  count == 62)
      decreases index
    {
      if count > bitsToGet {
        guard := count - bitsToGet - 1;
        cut := count - bitsToGet;
        count := bitsToGet;
        bitsToGet := 0;
      } else {
        bitsToGet := bitsToGet - count;
      }
      if index == Len(b) - 2 { SecondDigit(b, c, cut); }
      value := FlonumScale(value, 62);
      value := FlonumAdd(value, MaskedDigit(b[1 + index], cut));
      if bitsToGet == 0 {
        scaleWords := index;
        if count == DIGIT_LENGTH {
          if index == 0 {
            finished := true;
          } else {
            guard, correction, index := DIGIT_LENGTH - 1, 1, index - 1;
          }
        } else {
          correction := Pow2(guard + 1);
        }
        H := if c == 53 then b[Len(b)] else if c > 53 then b[Len(b)] / Pow2(cut)
          else KeptTwo(b[Len(b)], b[Len(b) - 1], c);
        break;
      }
      if index == 0 {
        OneShortDigit(b);
        finished := true;
        break;
      }
      index := index - 1;
      count := DIGIT_LENGTH;
    }
  }

  function MaskedDigit(d: int, cut: nat): (r: int)
    ensures r == Part(d, cut)
  {
    d - d % Pow2(cut)
  }

  /** Some digit below `index` is not zero. */
  method SomeLowDigit(b: Bignum, index: nat) returns (some: bool)
    requires Valid(b) && index < Len(b)
    ensures some == (Val(DigitsOf(b)[..index]) != 0)
  {
    hide Val, Pow;
    ghost var s := DigitsOf(b)[..index];
    ValBound(s);
    var index2 := index - 1;
    while index2 >= 0
      invariant -1 <= index2 < index
      invariant forall i :: 1 + index2 < i < 1 + index ==> b[i] == 0
    {
      if b[1 + index2] != 0 {
        assert s[index2] != 0;
        if Val(s) == 0 { ZeroDigits(s); }
        return true;
      }
      index2 := index2 - 1;
    }
    forall i | 0 <= i < index ensures s[i] == 0 { assert s[i] == b[1 + i]; }
    ValZeroes(s);
    some := false;
  }

  /** The lowest kept bit: above the guard bit, in the next digit if the guard bit is on top. */
  predicate LowestKept(b: Bignum, index: nat, guard: nat)
    requires Shaped(b) && index < Len(b)
    reads b
  {
    if guard == 61 then index + 2 < b.Length && b[2 + index] % 2 == 1 else Bit(b[1 + index], guard + 1)
  }

  /** The rounding decision by the bits lgfffff: lowest kept, guard, and following bits. */
  method Decide(b: Bignum, index: nat, guard: nat) returns (up: bool)
    requires Valid(b) && index < Len(b) && guard < 62
    requires guard == 61 && index == Len(b) - 1 ==> !Bit(b[1 + index], 61)
    ensures var d := b[1 + index];
      up == (Bit(d, guard) && (d % Pow2(guard) != 0 || LowestKept(b, index, guard) || Val(DigitsOf(b)[..index]) != 0))
  {
    hide Val, Pow, Pow2, Bit;
    var d := b[1 + index];
    if !Bit(d, guard) {
      return false;
    }
    if d % Pow2(guard) != 0 {
      return true;
    }
    if guard == 61 {
      if b[2 + index] % 2 == 1 {
        return true;
      }
    } else {
      if Bit(d, guard + 1) {
        return true;
      }
    }
    if index == 0 {
      assert DigitsOf(b)[..0] == [];
      ValZeroes([]);
      return false;
    }
    up := SomeLowDigit(b, index);
  }

  /** The top digit has exactly 53 bits and there are digits below it. */
  predicate TopFills(b: Bignum)
    requires Valid(b)
    reads b
  {
    Len(b) > 1 && BitLength(b[Len(b)]) == 53
  }

  lemma LeadingKept(b: Bignum, value: int, index: int, guard: int, correction: int, H: int)
    requires Valid(b) && !IsZero(b) && BitLength(b[Len(b)]) != 53 && Leading(b, value, index, guard, correction, H)
    ensures 0 <= guard < 61 && 0 <= index < Len(b) && Pow2(52) <= H < Pow2(53)
    ensures Kept(Magnitude(b), index, guard + 1, H, b[1 + index], Val(DigitsOf(b)[..index]))
    ensures (H % 2 == 1) == Bit(b[1 + index], guard + 1) && IsDigit(b[1 + index])
    ensures value == H * Pow2(guard + 1) && correction == Pow2(guard + 1)
  {
    assert DigitsOf(b)[index] == b[1 + index];
    GuardBit(b[1 + index], guard + 1);
  }

  /** In the regular case the decision is the right one. */
  lemma RegularDecision(b: Bignum, value: int, index: int, guard: int, correction: int, H: int)
    requires Valid(b) && !IsZero(b) && BitLength(b[Len(b)]) != 53 && Leading(b, value, index, guard, correction, H)
    ensures Magnitude(b) >= 0 && index >= 0 && 0 <= guard < 61
    ensures var d := b[1 + index];
      RoundsUp(Magnitude(b)) ==
        (Bit(d, guard) && (d % Pow2(guard) != 0 || LowestKept(b, index, guard) || Val(DigitsOf(b)[..index]) != 0))
  {
    hide Val, Pow, Pow2, BitLength, Bit, Kept, RoundsUp, Truncated, Excess, Leading;
    LeadingKept(b, value, index, guard, correction, H);
    RoundsUpIs(Magnitude(b), index, guard + 1, H, b[1 + index], Val(DigitsOf(b)[..index]));
  }

  lemma RegularScale(b: Bignum, value: int, index: int, guard: int, correction: int, H: int)
    requires Valid(b) && !IsZero(b) && BitLength(b[Len(b)]) != 53 && Leading(b, value, index, guard, correction, H)
    ensures Magnitude(b) >= 0 && index >= 0 && value * Pow2(62 * index) == Truncated(Magnitude(b))
    ensures correction * Pow2(62 * index) == Pow2(Excess(Magnitude(b))) && Representable(value + correction)
  {
    hide Val, Pow, Pow2, BitLength, Bit, Kept, Representable, RoundsUp, Truncated, Excess, Leading;
    LeadingKept(b, value, index, guard, correction, H);
    RoundsUpIs(Magnitude(b), index, guard + 1, H, b[1 + index], Val(DigitsOf(b)[..index]));
    ScaledUnits(H, guard + 1, 62 * index);
    OneMore(H, Pow2(guard + 1));
    FloatIs(H + 1, guard + 1);
  }

  lemma ScaledUnits(H: int, k: nat, m: nat)
    ensures Pow2(k) * Pow2(m) == Pow2(m + k) && H * Pow2(k) * Pow2(m) == H * Pow2(m + k)
  {
    Pow2Add(k, m);
    MulAssoc(H, Pow2(k), Pow2(m));
  }

  lemma EdgeDigit(d: nat)
    requires BitLength(d) == 53
    ensures Pow2(52) <= d < Pow2(53) && !Bit(d, 61)
  {
    BitLengthBounds(d);
    assert 0 < d by { assert BitLength(0) == 0; }
    hide Pow2, BitLength;
    Pow2Monotone(53, 61);
    DivIs(d, Pow2(61), 0, d);
  }

  /** In the edge case nothing is ever rounded up. */
  lemma EdgeCase(b: Bignum)
    requires Valid(b) && !IsZero(b) && BitLength(b[Len(b)]) == 53
    ensures !Bit(b[Len(b)], 61)
    ensures Magnitude(b) >= 0 && b[Len(b)] * Pow2(62 * (Len(b) - 1)) == Truncated(Magnitude(b))
    ensures Len(b) == 1 ==> !RoundsUp(Magnitude(b))
  {
    hide Val, Pow, Pow2, BitLength, Bit;
    var s, n, d := DigitsOf(b), Len(b) - 1, b[Len(b)];
    assert d == s[n];
    EdgeDigit(d);
    TopSplit(s, n);
    PowIsPow2(n);
    OneMore(d, Pow(n));
    LengthOfKept(Val(s), d, 62 * n);
    DivIs(Val(s), Pow(n), d, Val(s[..n]));
  }

  // ---------------------------------------------------------------- scaling

  /** A double: an integer below 2^1024, an infinity, or a significand that is scaled down. */
  datatype Double = Finite(value: int) | Infinite(negative: bool) | Scaled(significand: int, exponent: int)

  const DBL_MAX_EXP: nat := 1024

  /** (int) n. */
  function IntOf(n: nat): (r: int)
    ensures n < 0x8000_0000 ==> r == n
    ensures -0x8000_0000 <= r < 0x8000_0000 && (n - r) % 0x1_0000_0000 == 0
  {
    (n + 0x8000_0000) % 0x1_0000_0000 - 0x8000_0000
  }

  /** ldexp of a value that is not negative. */
  function Ldexp(value: nat, e: int): Double {
    if e < 0 then Scaled(value, e) else if value * Pow2(e) >= Pow2(DBL_MAX_EXP) then Infinite(false)
      else Finite(value * Pow2(e))
  }

  function Negated(d: Double, negative: bool): Double {
    if !negative then d
    else
      match d
      case Finite(v) => Finite(-v)
      case Infinite(n) => Infinite(!n)
      case Scaled(v, e) => Scaled(-v, e)
  }

  /** The value in units of 2^e. */
  function Rescaled(value: nat, e: nat): Double {
    if e == 0 then Finite(value) else Ldexp(value, IntOf(e))
  }

  /** The double for a rounded magnitude. */
  function InRange(r: nat): Double {
    if r >= Pow2(DBL_MAX_EXP) then Infinite(false) else Finite(r)
  }

  /** The magnitude after rounding; if the top digit of several fills the significand it is truncated. */
  ghost function RoundedMagnitude(b: Bignum): nat
    requires Valid(b)
    reads b
  {
    MagnitudeBounds(b);
    TruncatedBounds(Magnitude(b));
    if TopFills(b) then Truncated(Magnitude(b)) else RoundToEven(Magnitude(b))
  }

  /** r in units of 2^e. */
  ghost function Significand(r: nat, e: nat): nat {
    QuotientPositive(r, Pow2(e));
    r / Pow2(e)
  }

  lemma QuotientPositive(x: nat, d: int)
    requires d > 0
    ensures x / d >= 0
  {
    DivMod(x, d);
  }

  /** The result of bignum_to_double: the exponent for ldexp is an int. */
  ghost function DoubleOf(b: Bignum): Double
    requires Valid(b)
    reads b
  {
    if IsZero(b) then Finite(0)
    else
      var e := 62 * ScaleWords(b);
      Negated(Rescaled(Significand(RoundedMagnitude(b), e), e), Negative(b))
  }

  /** The nearest double, ties to even; it is infinite when the rounded number is too large. */
  ghost function Nearest(b: Bignum): Double
    requires Valid(b)
    reads b
  {
    MagnitudeBounds(b);
    TruncatedBounds(Magnitude(b));
    Negated(InRange(RoundToEven(Magnitude(b))), Negative(b))
  }

  /** The nearest double is infinite from half a unit above the largest double on.  Below that it is a
      number with a significand of 53 bits, none of these is nearer, and it has the sign of the number. */
  lemma NearestLaw(b: Bignum, m: int)
    requires Valid(b)
    ensures var v, top := Value(b), Pow2(1024) - Pow2(970);
      if v >= top then Nearest(b) == Infinite(false)
      else if v <= -top then Nearest(b) == Infinite(true)
      else
        && Nearest(b).Finite? && var d := Nearest(b).value;
        && (Representable(d) || Representable(-d))
        && (Representable(m) || Representable(-m) ==> Distance(v, d) <= Distance(v, m))
        && (v > 0 ==> d >= 0) && (v < 0 ==> d <= 0)
  {
    hide Pow2, Representable, RoundToEven, Val, Pow, Distance;
    MagnitudeBounds(b);
    TruncatedBounds(Magnitude(b));
    MagnitudeLaw(Magnitude(b), m);
  }

  /** The rounded magnitude, with either sign. */
  lemma MagnitudeLaw(n: nat, m: int)
    ensures var r := RoundToEven(n);
      && (r >= Pow2(1024) <==> n >= Pow2(1024) - Pow2(970)) && Pow2(1024) > Pow2(970) && r >= 0 && Representable(r)
      && (Representable(m) || Representable(-m) ==>
            Distance(n, r) <= Distance(n, m) && Distance(0 - n, 0 - r) <= Distance(0 - n, m))
  {
    AroundLargest();
    hide Pow2, Representable, RoundToEven;
    TruncatedBounds(n);
    OverflowThreshold(n);
    RoundedIsRepresentable(n);
    RepresentablePositive(m);
    RepresentablePositive(-m);
    NotNegative(n);
    if Representable(m) { RoundedIsNearest(n, m); }
    if Representable(-m) { RoundedIsNearest(n, -m); }
  }

  lemma RepresentablePositive(m: int)
    ensures Representable(m) ==> m >= 0
  {
    if Representable(m) {
      var h: nat, k: nat :| IsFloat(m, h, k);
      assert h * Pow2(k) >= 0;
    }
  }

  /** Zero is nearer to a magnitude than any negative number. */
  lemma NotNegative(n: nat)
    ensures Distance(n, RoundToEven(n)) <= n
  {
    hide RoundToEven;
    assert IsFloat(0, 0, 0) by { assert Pow2(53) > 0; }
    RoundedIsNearest(n, 0);
  }

  /** Where the result is not the nearest double: a number that should be rounded up is truncated, or the
      exponent for ldexp is not an int and what it is taken for leaves the number below 2^1024. */
  ghost predicate Inexact(b: Bignum)
    requires Valid(b)
    reads b
  {
    MagnitudeBounds(b);
    !IsZero(b) &&
    var e := 62 * ScaleWords(b);
    if e < 0x8000_0000 then TopFills(b) && RoundsUp(Magnitude(b)) && Truncated(Magnitude(b)) < Pow2(DBL_MAX_EXP)
    else IntOf(e) < 0 || RoundedMagnitude(b) / Pow2(e) * Pow2(IntOf(e)) < Pow2(DBL_MAX_EXP)
  }

  lemma TruncatedBounds(n: nat)
    ensures n > 0 ==> Truncated(n) > 0
    ensures 0 <= Truncated(n) <= n && RoundToEven(n) <= 2 * n && RoundToEven(n) >= Truncated(n)
    ensures RoundToEven(n) == Truncated(n) <==> !RoundsUp(n)
  {
    hide Pow2, BitLength;
    var s := Excess(n);
    DivMod(n, Pow2(s));
    assert n / Pow2(s) * Pow2(s) == Pow2(s) * (n / Pow2(s));
    if s > 0 {
      ExcessBounds(n);
      Pow2Monotone(0, 52);
      MulAtLeast(Pow2(s), n / Pow2(s));
    } else {
      WholeQuotient(n);
    }
  }

  /** A number without digits to scale is far below the limit. */
  lemma Unscaled(b: Bignum)
    requires Valid(b) && !IsZero(b) && ScaleWords(b) == 0
    ensures 2 * Magnitude(b) < Pow2(DBL_MAX_EXP)
  {
    MagnitudeBounds(b);
    hide Val, Pow, Pow2, BitLength;
    PowIsPow2(Len(b));
    Pow2Monotone(62 * Len(b), 1023);
    Pow2Halves(1024);
  }

  lemma NegatedOnce(d: Double, d': Double, negative: bool)
    ensures Negated(d, negative) == Negated(d', negative) <==> d == d'
  {}

  /** r is what the significand stands for, n what it should stand for. */
  lemma RescaledIff(v: nat, e: nat, r: nat, n: nat)
    requires v > 0 && v * Pow2(e) == r && n >= r && (e == 0 ==> r == v && n < Pow2(DBL_MAX_EXP))
    ensures e < 0x8000_0000 ==> (Rescaled(v, e) == InRange(n) <==> r == n || r >= Pow2(DBL_MAX_EXP))
    ensures e >= 0x8000_0000 ==>
      (Rescaled(v, e) == InRange(n) <==> IntOf(e) >= 0 && v * Pow2(IntOf(e)) >= Pow2(DBL_MAX_EXP))
  {
    hide Pow2;
    if e >= 0x8000_0000 {
      Pow2Monotone(DBL_MAX_EXP, e);
      MulAtLeast(Pow2(e), v);
      assert v * Pow2(e) == Pow2(e) * v;
    }
  }

  /** The result is the nearest double exactly if it is not one of the inexact cases. */
  lemma NearestIff(b: Bignum, v: int)
    requires Valid(b) && !IsZero(b) && v * Pow2(62 * ScaleWords(b)) == RoundedMagnitude(b)
    ensures DoubleOf(b) == Nearest(b) <==> !Inexact(b)
  {
    MagnitudeBounds(b);
    hide Val, Pow, Pow2, BitLength, Truncated, RoundToEven, RoundsUp, Rescaled, InRange, Negated;
    var e, n := 62 * ScaleWords(b), RoundToEven(Magnitude(b));
    TruncatedBounds(Magnitude(b));
    RoundedPositive(b);
    ScaledBack(v, Pow2(e), RoundedMagnitude(b));
    if e == 0 {
      Unscaled(b);
      NoScale(v);
    }
    RescaledIff(v, e, RoundedMagnitude(b), n);
    NegatedOnce(Rescaled(v, e), InRange(n), Negative(b));
  }

  /** A number of fewer than 2^31 bits whose double is not the nearest one is truncated to 53 bits. */
  lemma InexactLaw(b: Bignum)
    requires Valid(b) && Inexact(b) && Len(b) <= 0x200_0000
    ensures Magnitude(b) >= 0 && var t := Truncated(Magnitude(b));
      DoubleOf(b) == Finite(if Value(b) < 0 then -t else t) && DoubleOf(b) != Nearest(b)
  {
    MagnitudeBounds(b);
    hide Val, Pow, Pow2, BitLength, Truncated, RoundToEven, RoundsUp;
    var e := 62 * ScaleWords(b);
    TruncatedBounds(Magnitude(b));
    EdgeCase(b);
    var d := b[Len(b)];
    ScaledBack(d, Pow2(e), RoundedMagnitude(b));
    NearestIff(b, d);
    SmallScale(d, e);
  }

  /** A value that is scaled up below the limit. */
  lemma SmallScale(value: nat, e: nat)
    requires e < 0x8000_0000 && value * Pow2(e) < Pow2(1024)
    ensures Rescaled(value, e) == Finite(value * Pow2(e))
  {
    if e == 0 { NoScale(value); }
  }

  /** bignum_to_double. */
  method ToDouble(b: Bignum) returns (d: Double)
    requires Valid(b)
    ensures d == DoubleOf(b)
    ensures d == Nearest(b) <==> !Inexact(b)
  {
    MagnitudeBounds(b);
    hide Val, Pow, Pow2, BitLength, Bit, Leading, Representable, RoundToEven, Truncated, RoundsUp, Ldexp, Inexact,
      Nearest;
    if IsZero(b) {
      ZeroDouble(b);
      return Finite(0);
    }
    var value, index, scaleWords, guard, correction, finished;
    ghost var H;
    value, index, scaleWords, guard, correction, finished, H := LeadingBits(b);
    if finished {
      ShortNumber(b);
      NoScale(value);
    } else {
      value := Rounded(b, value, index, guard, correction, H);
    }
    RoundedPositive(b);
    ScaledBack(value, Pow2(62 * scaleWords), RoundedMagnitude(b));
    d := if scaleWords > 0 then Ldexp(value, IntOf(62 * scaleWords)) else Finite(value);
    NearestIff(b, value);
    if Negative(b) {
      d := Negated(d, true);
    }
  }

  lemma ScaledBack(v: int, p: int, r: int)
    requires p > 0 && v * p == r && r > 0
    ensures v > 0 && r / p == v
  {
    if v <= 0 { LeFactor(v, 0, p); }
    assert v * p == p * v;
    DivIs(r, p, v, 0);
  }

  lemma RoundedPositive(b: Bignum)
    requires Valid(b) && !IsZero(b)
    ensures RoundedMagnitude(b) > 0
  {
    MagnitudeBounds(b);
    TruncatedBounds(Magnitude(b));
  }

  lemma ZeroDouble(b: Bignum)
    requires Valid(b) && IsZero(b)
    ensures Nearest(b) == Finite(0)
  {
    MagnitudeBounds(b);
    WholeQuotient(0);
    assert BitLength(0) == 0 && Excess(0) == 0;
    assert RoundToEven(0) == 0;
  }

  lemma NoScale(value: int)
    ensures value * Pow2(0) == value
  {}

  lemma ShortNumber(b: Bignum)
    requires Valid(b) && Len(b) == 1 && BitLength(b[1]) < 53
    ensures Magnitude(b) >= 0 && RoundToEven(Magnitude(b)) == Magnitude(b) && !TopFills(b)
  {
    OneDigit(b);
    assert DigitsOf(b)[0] == b[1];
    WholeQuotient(b[1]);
  }

  /** Round the collected bits. */
  method Rounded(b: Bignum, value: int, index: int, guard: int, correction: int, ghost H: int) returns (v: int)
    requires Valid(b) && !IsZero(b) && Leading(b, value, index, guard, correction, H) && Representable(value)
    ensures Magnitude(b) >= 0 && index >= 0
    ensures v * Pow2(62 * index) == if TopFills(b) then Truncated(Magnitude(b)) else RoundToEven(Magnitude(b))
  {
    hide Val, Pow, Pow2, BitLength, Bit, Representable, Kept;
    ghost var edge := BitLength(b[Len(b)]) == 53;
    if edge {
      EdgeCase(b);
    } else {
      RegularDecision(b, value, index, guard, correction, H);
      RegularScale(b, value, index, guard, correction, H);
    }
    var up := Decide(b, index, guard);
    v := value;
    if up {
      v := FlonumAdd(v, correction);
      OneMoreTimes(value, correction, Pow2(62 * index));
    }
  }

  lemma OneMoreTimes(v: int, c: int, p: int)
    ensures (v + c) * p == v * p + c * p
  {}

  /** A number for which it matters: 2^52 RADIX + RADIX - 1 is cut down to 2^52 RADIX. */
  lemma TruncationExample(b: Bignum)
    requires Valid(b) && DigitsOf(b) == [RADIX - 1, 0x10_0000_0000_0000]
    ensures Magnitude(b) >= 0 && TopFills(b) && RoundsUp(Magnitude(b))
  {
    var s := DigitsOf(b);
    var t := 0x10_0000_0000_0000;
    assert Pow2(20) == 0x10_0000 by { Pow2Add(10, 10); assert Pow2(10) == 1024; }
    Pow2Word();
    Pow2Add(31, 21);
    assert Pow2(52) == t && Pow2(53) == 2 * t;
    assert s[1] == t && s[0] == RADIX - 1 && b[2] == t;
    BitLengthIs(t, 53);
    TopSplit(s, 1);
    assert s[..1] == [RADIX - 1];
    ValSnoc([], RADIX - 1);
    assert [] + [RADIX - 1] == [RADIX - 1];
    assert Pow(1) == RADIX && Pow(0) == 1;
    var n := t * RADIX + (RADIX - 1);
    LengthOfKept(n, t, 62);
    DivIs(n, RADIX, t, RADIX - 1);
    assert Pow2(61) * 2 == Pow2(62);
  }

  /** That number is below 2^1024, so the truncation shows. */
  lemma TruncationInexact(b: Bignum)
    requires Valid(b) && DigitsOf(b) == [RADIX - 1, 0x10_0000_0000_0000]
    ensures Inexact(b) && DoubleOf(b) != Nearest(b)
  {
    hide Val, Pow, Pow2, BitLength, RoundsUp;
    MagnitudeBounds(b);
    TruncationExample(b);
    assert BitLength(b[Len(b)]) == 53 && ScaleWords(b) == 1;
    TruncatedBounds(Magnitude(b));
    PowIsPow2(2);
    Pow2Monotone(124, DBL_MAX_EXP);
    EdgeCase(b);
    NearestIff(b, b[Len(b)]);
  }

  /** 2^53 RADIX^(2^31) is far beyond the doubles, but the exponent 62 * 2^31 is taken for 0. */
  lemma ScaleWraps(b: Bignum)
    requires Valid(b) && !Negative(b) && Len(b) == 0x8000_0001 && b[Len(b)] == 0x20_0000_0000_0000
    requires forall i :: 0 <= i < Len(b) - 1 ==> DigitsOf(b)[i] == 0
    ensures DoubleOf(b) == Finite(0x20_0000_0000_0000) && Nearest(b) == Infinite(false)
  {
    hide Val, Pow, Pow2, BitLength, RoundToEven, Truncated;
    MagnitudeBounds(b);
    var e: nat, t := 62 * 0x8000_0000, 0x20_0000_0000_0000;
    BigTop(b, 0x8000_0000);
    assert ScaleWords(b) == 0x8000_0000 && !TopFills(b);
    RoundedTop(Magnitude(b), e);
    BigDouble(t, Pow2(e), e);
    ScaledBack(t, Pow2(e), RoundedMagnitude(b));
    LdexpOfZero(t);
  }

  lemma LdexpOfZero(t: nat)
    requires t == 0x20_0000_0000_0000
    ensures IntOf(62 * 0x8000_0000) == 0 && Ldexp(t, 0) == Finite(t)
  {
    TopDigitLength();
    Pow2Monotone(54, DBL_MAX_EXP);
    assert Pow2(0) == 1;
  }

  /** The number and the length of its top digit. */
  lemma BigTop(b: Bignum, k: nat)
    requires Valid(b) && Len(b) == k + 1 && b[Len(b)] == 0x20_0000_0000_0000 && forall i :: 0 <= i < Len(b) - 1 ==>
      DigitsOf(b)[i] == 0
    ensures Magnitude(b) == 0x20_0000_0000_0000 * Pow2(62 * k) && BitLength(b[Len(b)]) == 54
  {
    hide Val, Pow, Pow2, BitLength;
    var s := DigitsOf(b);
    assert s[k] == b[Len(b)];
    TopSplit(s, k);
    ValZeroes(s[..k]);
    PowIsPow2(k);
    TopDigitLength();
  }

  lemma TopDigitLength()
    ensures Pow2(52) == 0x10_0000_0000_0000 && Pow2(53) == 0x20_0000_0000_0000 && Pow2(54) == 0x40_0000_0000_0000
    ensures BitLength(0x20_0000_0000_0000) == 54
  {
    assert Pow2(21) == 0x20_0000 by { Pow2Add(10, 11); assert Pow2(10) == 1024 && Pow2(11) == 2048; }
    Pow2Word();
    Pow2Add(31, 21);
    Pow2Halves(53);
    Pow2Halves(54);
    BitLengthIs(0x20_0000_0000_0000, 54);
  }

  /** 2^53 * 2^e has a short significand. */
  lemma RoundedTop(n: nat, e: nat)
    requires n == 0x20_0000_0000_0000 * Pow2(e)
    ensures RoundToEven(n) == n
  {
    hide BitLength;
    TopDigitLength();
    var q := Pow2(e + 1);
    hide Pow2;
    Pow2Halves(e + 1);
    var h := 0x10_0000_0000_0000;
    assert n == h * q;
    LengthOfKept(n, h, e + 1);
    DivIs(n, q, h, 0) by { assert h * q == q * h; }
  }

  lemma BigDouble(t: int, p: int, e: nat)
    requires t >= 1 && p == Pow2(e) && e >= DBL_MAX_EXP
    ensures t * p >= Pow2(DBL_MAX_EXP)
  {
    hide Pow2;
    Pow2Monotone(DBL_MAX_EXP, e);
    MulAtLeast(p, t);
  }
}
