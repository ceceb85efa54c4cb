/** The generic integers of the microcode: a fixnum when the number fits in one, otherwise a bignum. */
module Integers {
  import opened Arith
  import opened Bits
  import opened BignumDigits
  import opened BignumRepr
  import opened BignumAdd
  import opened BignumMultiply
  import opened BignumDivision
  import opened BignumBitwise
  import opened BignumScaling
  import opened BignumShift
  import opened BignumRadix
  import opened BignumFits

  const FIXNUM_LENGTH: nat := 57
  const SMALLEST_FIXNUM: int := -0x0200_0000_0000_0000
  const BIGGEST_FIXNUM: int := 0x01FF_FFFF_FFFF_FFFF

  datatype Integer = Fixnum(n: Word) | Big(b: Bignum)

  predicate IsFixnum(v: int) {
    SMALLEST_FIXNUM <= v <= BIGGEST_FIXNUM
  }

  ghost function Memory(i: Integer): set<object> {
    if i.Big? then {i.b} else {}
  }

  /** An integer has one representation: a bignum never holds what fits in a fixnum. */
  ghost predicate Ok(i: Integer)
    reads Memory(i)
  {
    match i
    case Fixnum(n) => IsFixnum(n)
    case Big(b) => Valid(b) && !IsFixnum(Value(b))
  }

  ghost function IntValue(i: Integer): int
    requires Ok(i)
    reads Memory(i)
  {
    match i
    case Fixnum(n) => n
    case Big(b) => Value(b)
  }

  /** The number of digits of a bignum. */
  ghost function Size(i: Integer): nat
    requires Ok(i)
    reads Memory(i)
  {
    match i
    case Fixnum(_) => 1
    case Big(b) => Len(b)
  }

  /** Equal integers are the same fixnum, or bignums with the same header and digits. */
  lemma OneRepresentation(i: Integer, j: Integer)
    requires Ok(i) && Ok(j) && IntValue(i) == IntValue(j)
    ensures i.Fixnum? ==> i == j
    ensures i.Big? ==> j.Big? && i.b[0] == j.b[0] && DigitsOf(i.b) == DigitsOf(j.b)
  {
    if i.Big? && j.Big? { Canonical(i.b, j.b); }
  }

  /** The values that survive the test for a fixnum, whatever their representation. */
  ghost predicate Held(v: int) {
    Countable(DigitCount(Abs(v)))
  }

  /** The values that are lost. */
  ghost predicate Lost(v: int) {
    TakenForZero(DigitCount(Abs(v)))
  }

  /** r is an integer for the result v: with the value v if v is held, and with another if it is lost.  For
      the numbers of k * 2^32 + 1 digits that are neither, C leaves open what happens. */
  ghost predicate Means(r: Integer, v: int)
    reads Memory(r)
  {
    Ok(r) && (Held(v) ==> IntValue(r) == v) && (Lost(v) ==> IntValue(r) != v)
  }

  /** A word has two digits at most. */
  lemma WordHeld(v: int)
    requires -RADIX * RADIX < v < RADIX * RADIX
    ensures Held(v)
  {
    var m := Abs(v);
    assert m / RADIX < RADIX;
    assert DigitCount(m / RADIX / RADIX) == 0;
  }

  /** The first number that is lost has 2^32 digits. */
  lemma FirstLost(v: int)
    ensures 0 <= v < Pow(UNSIGNED_INT - 1) ==> Held(v)
    ensures Lost(Pow(UNSIGNED_INT - 1)) && Lost(-Pow(UNSIGNED_INT - 1))
    ensures Lost(v) ==> !Held(v)
  {
    hide Pow, DigitCount;
    PowLess(UNSIGNED_INT - 1);
    DigitCountIs(Pow(UNSIGNED_INT - 1), UNSIGNED_INT);
    if 0 <= v < Pow(UNSIGNED_INT - 1) { DigitCountBelow(v, UNSIGNED_INT - 1); }
  }

  lemma PowLess(n: nat)
    ensures Pow(n) < Pow(n + 1)
  {}

  lemma {:induction false} DigitCountBelow(m: nat, k: nat)
    requires m < Pow(k)
    ensures DigitCount(m) <= k
    decreases k
  {
    if k > 0 && m > 0 { DigitCountBelow(m / RADIX, k - 1); }
  }

  /** LONG_TO_FIXNUM: the 58 low bits. */
  function FixnumOf(n: Word): (f: Word)
    ensures IsFixnum(f) && (IsFixnum(n) ==> f == n) && (n - f) % 0x0400_0000_0000_0000 == 0
  {
    (n - SMALLEST_FIXNUM) % 0x0400_0000_0000_0000 + SMALLEST_FIXNUM
  }

  lemma FixnumRange()
    ensures Pow2(57) == 0x0200_0000_0000_0000
  {
    Pow2Word();
    Pow2Add(31, 26);
    assert Pow2(26) == 0x0400_0000 by { Pow2Add(13, 13); assert Pow2(13) == 8192; }
  }

  lemma FixnumMeans(v: Word)
    requires IsFixnum(v)
    ensures Means(Fixnum(v), v)
  {
    WordHeld(v);
  }

  // ---------------------------------------------------------------- conversions

  /** long_to_integer. */
  method LongToInteger(n: Word) returns (i: Integer)
    ensures Ok(i) && IntValue(i) == n && Means(i, n)
  {
    WordHeld(n);
    if IsFixnum(n) {
      i := Fixnum(n);
    } else {
      var b := LongToBignum(n);
      i := Big(b);
    }
  }

  /** bignum_to_integer: the value is kept unless its number of digits is mistaken. */
  method BignumToInteger(b: Bignum) returns (i: Integer)
    requires Valid(b)
    ensures Ok(i) && Means(i, Value(b))
  {
    hide Judged, DigitCount, Val, Pow;
    FixnumRange();
    FixnumJudged(b);
    LenIsCount(b);
    var fits := FitsInWord(b, FIXNUM_LENGTH + 1, true);
    if fits == Undefined {
      // Either answer is possible.
      fits := *;
    }
    if fits == Fits {
      var n := ToLong(b);
      i := Fixnum(FixnumOf(n));
    } else {
      i := Big(b);
    }
  }

  /** FIXNUM_TO_BIGNUM, or the bignum itself. */
  method AsBignum(i: Integer) returns (b: Bignum)
    requires Ok(i)
    ensures Valid(b) && Value(b) == IntValue(i) && Len(b) <= Size(i)
  {
    match i {
      case Fixnum(n) =>
        b := LongToBignum(n);
        SmallLength(b);
      case Big(b') => b := b';
    }
  }

  /** A fixnum has one digit at most. */
  lemma SmallLength(b: Bignum)
    requires Valid(b) && IsFixnum(Value(b))
    ensures Len(b) <= 1
  {
    MagnitudeBounds(b);
    assert Pow(1) == RADIX * Pow(0) && Pow(0) == 1;
  }

  // ---------------------------------------------------------------- arithmetic

  method EqualInteger(n: Integer, m: Integer) returns (equal: bool)
    requires Ok(n) && Ok(m)
    ensures equal == (IntValue(n) == IntValue(m))
  {
    if n.Fixnum? && m.Fixnum? {
      return n.n == m.n;
    }
    var x := AsBignum(n);
    var y := AsBignum(m);
    equal := EqualP(x, y);
  }

  method LessInteger(n: Integer, m: Integer) returns (less: bool)
    requires Ok(n) && Ok(m)
    ensures less == (IntValue(n) < IntValue(m))
  {
    if n.Fixnum? && m.Fixnum? {
      return n.n < m.n;
    }
    var x := AsBignum(n);
    var y := AsBignum(m);
    var c := Compare(x, y);
    less := c == Less;
  }

  method NegateInteger(n: Integer) returns (r: Integer)
    requires Ok(n)
    ensures Means(r, -IntValue(n))
  {
    hide Means, Val, Pow, Held, Digits, Countable;
    if n.Fixnum? {
      r := LongToInteger(-n.n);
    } else {
      var b := Negate(n.b);
      r := BignumToInteger(b);
    }
  }

  method AddIntegers(n: Integer, m: Integer) returns (r: Integer)
    requires Ok(n) && Ok(m) && Size(n) < LENGTH_MAX && Size(m) < LENGTH_MAX
    ensures Means(r, IntValue(n) + IntValue(m))
  {
    hide Means, Val, Pow, Held, Digits, Countable;
    if n.Fixnum? && m.Fixnum? {
      r := LongToInteger(n.n + m.n);
      return;
    }
    var x := AsBignum(n);
    var y := AsBignum(m);
    var b := Add(x, y);
    r := BignumToInteger(b);
  }

  method SubtractIntegers(n: Integer, m: Integer) returns (r: Integer)
    requires Ok(n) && Ok(m) && Size(n) < LENGTH_MAX && Size(m) < LENGTH_MAX
    ensures Means(r, IntValue(n) - IntValue(m))
  {
    hide Means, Val, Pow, Held, Digits, Countable;
    if n.Fixnum? && m.Fixnum? {
      r := LongToInteger(n.n - m.n);
      return;
    }
    var x := AsBignum(n);
    var y := AsBignum(m);
    var b := Subtract(x, y);
    r := BignumToInteger(b);
  }

  const HALF_WORD: int := 0x1_0000_0000
  const FIXNUM_SIGN_BIT: int := 0x0200_0000_0000_0000
  const MAX_MIDDLE: int := 0x0200_0000
  const MAX_FIXNUM: int := 0x0400_0000_0000_0000

  /** The product of two numbers with their high and low halves. */
  lemma HalvesProduct(a: int, b: int)
    requires a >= 0 && b >= 0
    ensures var ha, la, hb, lb := a / HALF_WORD, a % HALF_WORD, b / HALF_WORD, b % HALF_WORD;
      a * b == la * lb + HALF_WORD * (la * hb + ha * lb) + HALF_WORD * HALF_WORD * (ha * hb)
  {
    var ha, la, hb, lb := a / HALF_WORD, a % HALF_WORD, b / HALF_WORD, b % HALF_WORD;
    ProductOfHalves(HALF_WORD, ha, la, hb, lb);
  }

  lemma HalfBounds(a: int)
    requires 0 <= a <= FIXNUM_SIGN_BIT
    ensures 0 <= a / HALF_WORD <= MAX_MIDDLE && 0 <= a % HALF_WORD < HALF_WORD
  {}

  /** One of the high halves is zero: nothing overflows an unsigned word. */
  lemma MiddleBounds(ha: int, la: int, hb: int, lb: int)
    requires 0 <= ha <= MAX_MIDDLE && 0 <= hb <= MAX_MIDDLE && 0 <= la < HALF_WORD && 0 <= lb < HALF_WORD
    ensures 0 <= la * lb < HALF_WORD * HALF_WORD && 0 <= la * hb + ha * lb < HALF_WORD * HALF_WORD
    ensures ha > 0 && hb > 0 ==> ha * hb >= 1
    ensures ha == 0 || hb == 0 ==> ha * hb == 0
  {
    MulBound(la, lb, HALF_WORD - 1, HALF_WORD - 1);
    MulBound(la, hb, HALF_WORD, MAX_MIDDLE);
    MulBound(ha, lb, MAX_MIDDLE, HALF_WORD);
    if ha > 0 && hb > 0 { MulAtLeast(ha, hb); }
  }

  lemma SignedProductIs(x: int, y: int)
    ensures x * y == if (x < 0) == (y < 0) then Abs(x) * Abs(y) else -(Abs(x) * Abs(y))
  {
    MulNegate(x, y);
  }

  /** The product from the halves of its factors, and what its size says about them. */
  lemma HalvesDecide(a: int, b: int)
    requires 0 <= a <= FIXNUM_SIGN_BIT && 0 <= b <= FIXNUM_SIGN_BIT
    ensures var ha, la, hb, lb := a / HALF_WORD, a % HALF_WORD, b / HALF_WORD, b % HALF_WORD;
      && 0 <= la * lb < HALF_WORD * HALF_WORD && 0 <= la * hb + ha * lb < HALF_WORD * HALF_WORD
      && (ha > 0 && hb > 0 ==> a * b >= FIXNUM_SIGN_BIT)
      && (ha == 0 || hb == 0 ==> a * b == la * lb + HALF_WORD * (la * hb + ha * lb))
  {
    HalvesProduct(a, b);
    HalfBounds(a);
    HalfBounds(b);
    MiddleBounds(a / HALF_WORD, a % HALF_WORD, b / HALF_WORD, b % HALF_WORD);
  }

  lemma FixnumNegated(c: int)
    requires 0 < c < FIXNUM_SIGN_BIT
    ensures FixnumOf(MAX_FIXNUM - c) == -c && FixnumOf(c) == c && IsFixnum(c)
  {}

  /** Mul: the product of two fixnums, unless its magnitude has more than 57 bits.  So it is not given for the
      smallest fixnum. */
  method Mul(x: Word, y: Word) returns (given: bool, product: Word)
    requires IsFixnum(x) && IsFixnum(y)
    ensures given <==> -FIXNUM_SIGN_BIT < x * y < FIXNUM_SIGN_BIT
    ensures given ==> product == x * y
  {
    hide FixnumOf;
    SignedProductIs(x, y);
    var sign := (x < 0) == (y < 0);
    var a: Word, b: Word := if x < 0 then -x else x, if y < 0 then -y else y;
    HalvesDecide(a, b);
    ghost var p := a * b;
    var hiA, hiB := a / HALF_WORD, b / HALF_WORD;
    var loA, loB := a % HALF_WORD, b % HALF_WORD;
    if hiA > 0 && hiB > 0 {
      return false, 0;
    }
    var loC := loA * loB;
    if loC >= FIXNUM_SIGN_BIT {
      return false, 0;
    }
    var middleC := loA * hiB + hiA * loB;
    if middleC >= MAX_MIDDLE {
      return false, 0;
    }
    var c: Word := loC + middleC * HALF_WORD;
    assert c == p;
    if IsFixnum(c) {
      if c > 0 { FixnumNegated(c); }
      return true, FixnumOf(if sign || c == 0 then c else MAX_FIXNUM - c);
    }
    given, product := false, 0;
  }

  /** integer_multiply: the product of two fixnums is tried with Mul first. */
  method MultiplyIntegers(n: Integer, m: Integer) returns (r: Integer)
    requires Ok(n) && Ok(m) && Size(n) + Size(m) <= LENGTH_MAX
    ensures Means(r, IntValue(n) * IntValue(m))
  {
    hide Means, Val, Pow, Held, Digits, Countable;
    if n.Fixnum? && m.Fixnum? {
      var given, product := Mul(n.n, m.n);
      if given {
        FixnumMeans(product);
        return Fixnum(product);
      }
    }
    var x := AsBignum(n);
    var y := AsBignum(m);
    var b := Multiply(x, y);
    r := BignumToInteger(b);
  }

  /** The C operators on words that are not negative give quotient and remainder with the signs of
      bignum_divide. */
  lemma SignsOfDivision(x: int, y: int)
    requires y != 0
    ensures Quot(x, y) == if x < 0 then (if y < 0 then (-x) / (-y) else -((-x) / y)) else if y < 0 then -(x / (-y))
      else x / y
    ensures Rem(x, y) == if x < 0 then -((-x) % (if y < 0 then -y else y)) else x % (if y < 0 then -y else y)
  {
    QuotRem(x, y);
  }

  lemma QuotientRange(a: int, d: int)
    requires a >= 0 && d > 0
    ensures 0 <= a / d <= a && 0 <= a % d < d
  {
    DivMod(a, d);
    MulAtLeast(a / d, d);
    assert d * (a / d) == a / d * d;
  }

  lemma DivisionRange(x: int, y: int)
    requires y != 0 && IsFixnum(x) && IsFixnum(y)
    ensures IsFixnum(Rem(x, y)) && -BIGGEST_FIXNUM - 1 <= Quot(x, y) <= BIGGEST_FIXNUM + 1
  {
    QuotientRange(Abs(x), Abs(y));
  }

  /** The case of two fixnums. */
  method DivideFixnums(n: Word, d: Word) returns (quotient: Word, remainder: Word)
    requires IsFixnum(n) && IsFixnum(d) && d != 0
    ensures quotient == Quot(n, d) && remainder == Rem(n, d) && IsFixnum(remainder)
  {
    hide Quot, Rem;
    SignsOfDivision(n, d);
    DivisionRange(n, d);
    var lx: Word, ly: Word := n, d;
    if lx < 0 {
      lx := -lx;
      if ly < 0 {
        ly := -ly;
        quotient := lx / ly;
      } else {
        quotient := -(lx / ly);
      }
      remainder := -(lx % ly);
    } else {
      if ly < 0 {
        ly := -ly;
        quotient := -(lx / ly);
      } else {
        quotient := lx / ly;
      }
      remainder := lx % ly;
    }
  }

  /** integer_divide. */
  method DivideIntegers(n: Integer, d: Integer) returns (failed: bool, q: Integer, r: Integer)
    requires Ok(n) && Ok(d) && Size(n) < LENGTH_MAX
    ensures failed == (IntValue(d) == 0)
    ensures !failed ==> Means(q, Quot(IntValue(n), IntValue(d))) && Means(r, Rem(IntValue(n), IntValue(d)))
  {
    hide Quot, Rem, Means;
    q, r := Fixnum(0), Fixnum(0);
    if n.Fixnum? && d.Fixnum? {
      if d.n == 0 {
        return true, q, r;
      }
      var quotient, remainder := DivideFixnums(n.n, d.n);
      q := LongToInteger(quotient);
      FixnumMeans(remainder);
      return false, q, Fixnum(remainder);
    }
    var x := AsBignum(n);
    var y := AsBignum(d);
    failed, q, r := DivideBignums(x, y);
  }

  method DivideBignums(n: Bignum, d: Bignum) returns (failed: bool, q: Integer, r: Integer)
    requires Valid(n) && Valid(d) && Len(n) < LENGTH_MAX
    ensures failed == (Value(d) == 0)
    ensures !failed ==> Means(q, Quot(Value(n), Value(d))) && Means(r, Rem(Value(n), Value(d)))
  {
    hide Quot, Rem, Val, Pow, Held;
    q, r := Fixnum(0), Fixnum(0);
    var quotient, remainder;
    failed, quotient, remainder := Divide(n, d);
    if !failed {
      q := BignumToInteger(quotient);
      r := BignumToInteger(remainder);
    }
  }

  datatype Option = None | Some(value: Integer)

  /** integer_quotient; None is #F. */
  method QuotientIntegers(n: Integer, d: Integer) returns (q: Option)
    requires Ok(n) && Ok(d) && Size(n) < LENGTH_MAX
    ensures q.None? <==> IntValue(d) == 0
    ensures q.Some? ==> Means(q.value, Quot(IntValue(n), IntValue(d)))
  {
    hide Quot, Rem, Means;
    if n.Fixnum? && d.Fixnum? {
      var lx: int, ly: int := n.n, d.n;
      if ly == 0 {
        return None;
      }
      SignsOfDivision(lx, ly);
      DivisionRange(lx, ly);
      var i := LongToInteger(if lx < 0 then (if ly < 0 then (-lx) / (-ly) else -((-lx) / ly)) else if ly < 0
        then -(lx / (-ly)) else lx / ly);
      return Some(i);
    }
    var x := AsBignum(n);
    var y := AsBignum(d);
    var result := Quotient(x, y);
    if result == null {
      return None;
    }
    var i := BignumToInteger(result);
    q := Some(i);
  }

  /** integer_remainder; None is #F. */
  method RemainderIntegers(n: Integer, d: Integer) returns (r: Option)
    requires Ok(n) && Ok(d) && Size(n) < LENGTH_MAX
    ensures r.None? <==> IntValue(d) == 0
    ensures r.Some? ==> Means(r.value, Rem(IntValue(n), IntValue(d)))
  {
    hide Quot, Rem, Means;
    if n.Fixnum? && d.Fixnum? {
      var lx: int, ly: int := n.n, d.n;
      if ly == 0 {
        return None;
      }
      SignsOfDivision(lx, ly);
      DivisionRange(lx, ly);
      var i := LongToInteger(if lx < 0 then -((-lx) % (if ly < 0 then -ly else ly))
        else lx % (if ly < 0 then -ly else ly));
      return Some(i);
    }
    var x := AsBignum(n);
    var y := AsBignum(d);
    var result := Remainder(x, y);
    if result == null {
      return None;
    }
    var i := BignumToInteger(result);
    r := Some(i);
  }

  // ---------------------------------------------------------------- bitwise operators

  /** The machine's operator on words of k bits and a sign. */
  function WordOperator(op: Operator, x: int, y: int, k: nat): int
    decreases k
  {
    if k == 0 then (if Truth(op, x < 0, y < 0) then -1 else 0)
    else 2 * WordOperator(op, x / 2, y / 2, k - 1) + if Truth(op, x % 2 == 1, y % 2 == 1) then 1 else 0
  }

  lemma {:induction false} WordOperatorRange(op: Operator, x: int, y: int, k: nat)
    ensures -Pow2(k) <= WordOperator(op, x, y, k) < Pow2(k)
    decreases k
  {
    if k > 0 { WordOperatorRange(op, x / 2, y / 2, k - 1); }
  }

  lemma SignBit(x: int, i: nat)
    requires -1 <= x < 1
    ensures Bit(x, i) == (x < 0)
  {
    if x == 0 { DivIs(0, Pow2(i), 0, 0); } else { DivIs(-1, Pow2(i), -1, Pow2(i) - 1); }
  }

  lemma WordOperatorParts(op: Operator, x: int, y: int, k: nat)
    ensures var z := WordOperator(op, x, y, k);
      if k == 0 then z == if Truth(op, x < 0, y < 0) then -1 else 0
      else z / 2 == WordOperator(op, x / 2, y / 2, k - 1) && (z % 2 == 1) == Truth(op, x % 2 == 1, y % 2 == 1)
    ensures Pow2(0) == 1 && (k > 0 ==> Pow2(k) == 2 * Pow2(k - 1))
  {}

  /** It works bit by bit. */
  lemma {:induction false} WordOperatorBit(op: Operator, x: int, y: int, k: nat, i: nat)
    requires -Pow2(k) <= x < Pow2(k) && -Pow2(k) <= y < Pow2(k)
    ensures Bit(WordOperator(op, x, y, k), i) == Truth(op, Bit(x, i), Bit(y, i))
    decreases k
  {
    hide WordOperator, Pow2;
    var z := WordOperator(op, x, y, k);
    WordOperatorParts(op, x, y, k);
    if k == 0 {
      SignBit(x, i);
      SignBit(y, i);
      SignBit(z, i);
    } else if i == 0 {
      LowBit(x);
      LowBit(y);
      LowBit(z);
    } else {
      WordOperatorBit(op, x / 2, y / 2, k - 1, i - 1);
      HalfBit(x, i);
      HalfBit(y, i);
      HalfBit(z, i);
    }
  }

  /** integer_bitwise_not. */
  method NotInteger(n: Integer) returns (r: Integer)
    requires Ok(n) && Size(n) < LENGTH_MAX
    ensures Ok(r) && IntValue(r) == -1 - IntValue(n)
  {
    if n.Fixnum? {
      return Fixnum(-1 - n.n);
    }
    var b := Not(n.b);
    r := Big(b);
  }

  /** The ten operators on integers. */
  method BitwiseIntegers(op: Operator, n: Integer, m: Integer) returns (r: Integer)
    requires Ok(n) && Ok(m) && Size(n) + 1 < LENGTH_MAX && Size(m) + 1 < LENGTH_MAX
    ensures exists v :: Means(r, v) && IsBitwise(op, IntValue(n), IntValue(m), v)
  {
    if n.Fixnum? && m.Fixnum? {
      FixnumRange();
      WordOperatorRange(op, n.n, m.n, FIXNUM_LENGTH);
      var z := WordOperator(op, n.n, m.n, FIXNUM_LENGTH);
      forall i: nat ensures Bit(z, i) == Truth(op, Bit(n.n, i), Bit(m.n, i)) {
        WordOperatorBit(op, n.n, m.n, FIXNUM_LENGTH, i);
      }
      FixnumMeans(z);
      return Fixnum(z);
    }
    var x := AsBignum(n);
    var y := AsBignum(m);
    var b := Bitwise(op, x, y);
    r := BignumToInteger(b);
  }

  // ---------------------------------------------------------------- shifts

  lemma ShortParts(n: int, shift: nat)
    requires 0 < n < RADIX && shift < 62
    ensures var low, high := n * Pow2(shift) % RADIX, n / Pow2(62 - shift);
      && IsDigit(low) && IsDigit(high) && low + RADIX * high == Pow2(shift) * n
      && (high == 0 <==> BitLength(n) + shift <= 62) && (high == 0 ==> low > 0) && 1 <= BitLength(n) <= 62
  {
    hide Pow2, BitLength;
    var f, g := Pow2(shift), Pow2(62 - shift);
    ShiftWord(n, shift);
    ShiftFactors(shift);
    ShiftDigit(n, f, g, 0);
    TopCarry(n, shift);
    MulAtLeast(n, f);
    QuotientRange(n, g);
    assert n * f == f * n;
  }

  lemma ShortDigits(low: int, high: int, x: int)
    requires IsDigit(low) && IsDigit(high) && low + RADIX * high == x && (high == 0 ==> low > 0)
    ensures StandsFor(if high > 0 then [low] + [high] else [low], x)
  {
    ValSnoc([low], high);
    ValSnoc([], low);
    assert [] + [low] == [low] && Pow(0) == 1 && Pow(1) == RADIX;
  }

  /** Write the digits of a number of at most one digit, from `at` on; they fill r. */
  method WriteDigits(r: Bignum, at: nat, high: Word)
    requires 0 <= high < RADIX && 1 <= at && r.Length == at + if high > 0 then 1 else 0
    modifies r
    ensures forall i :: 0 <= i < at ==> r[i] == old(r[i])
    ensures high > 0 ==> r[at] == high
  {
    var n, scan := high, at;
    while n > 0
      invariant 0 <= n <= high && (n == high || n == 0) && scan == at + if n < high then 1 else 0
      invariant (forall i :: 0 <= i < at ==> r[i] == old(r[i])) && (n < high ==> r[at] == high)
    {
      r[scan] := n % RADIX;
      n := n / RADIX;
      scan := scan + 1;
    }
  }

  /** Zeros and one or two digits. */
  method WriteShifted(r: Bignum, zeroes: nat, low: Word, high: Word) returns (ghost zs: seq<Word>, ghost ds: seq<Word>)
    requires 0 <= high < RADIX && r.Length == 2 + zeroes + if high > 0 then 1 else 0
    modifies r
    ensures r[0] == old(r[0]) && r[1..] == zs + ds
    ensures |zs| == zeroes && (forall i :: 0 <= i < zeroes ==> zs[i] == 0) && ds == if high > 0 then [low] + [high]
      else [low]
  {
    WriteZeroes(r, zeroes);
    r[1 + zeroes] := low;
    WriteDigits(r, 2 + zeroes, high);
    zs := r[1..1 + zeroes];
    ds := if high > 0 then [low] + [high] else [low];
  }

  /** unsigned_long_to_shifted_bignum, for a number of at most 62 bits. */
  method ShiftedBignum(n0: Word, m: nat, negative: bool) returns (r: Bignum)
    requires 0 <= n0 < RADIX && m / 62 + 2 < LENGTH_MAX
    ensures Valid(r) && Value(r) == if negative then -(n0 * Pow2(m)) else n0 * Pow2(m)
  {
    hide Val, Pow, Pow2, BitLength, StandsFor;
    if n0 == 0 {
      r := MakeZero();
      return;
    }
    var delta := BitLength(n0);
    var zeroes, shift := m / 62, m % 62;
    ShortParts(n0, shift);
    ShiftedLengthIs(1, delta, m);
    var length := (delta + m) / DIGIT_LENGTH + if (delta + m) % DIGIT_LENGTH != 0 then 1 else 0;
    r := Allocate(length, negative);
    var low, high := n0 * Pow2(shift) % RADIX, n0 / Pow2(62 - shift);
    ghost var zs, ds := WriteShifted(r, zeroes, low, high);
    ShortDigits(low, high, Pow2(shift) * n0);
    HeaderParts(length, negative);
    assert DigitsOf(r) == r[1..] == zs + ds;
    LeftResult(zs, ds, n0, m);
    StandsIs(DigitsOf(r), n0 * Pow2(m));
  }

  lemma StandsIs(ds: seq<int>, x: int)
    requires StandsFor(ds, x)
    ensures ds != [] && Digits(ds) && Val(ds) == x && ds[|ds| - 1] > 0
  {}

  lemma ProductBelow(x: int, k: int, p: int, limit: int)
    requires x < k && p > 0 && k * p <= limit
    ensures x * p < limit
  {
    MulGap(p, x, k);
    assert p * k == k * p && p * x == x * p;
  }

  /** The shifted number is a fixnum just when its bits and the shift fit. */
  lemma ShiftFits(n: nat, m: nat)
    requires n > 0
    ensures n * Pow2(m) < 0x0200_0000_0000_0000 <==> m + BitLength(n) <= 57
  {
    hide Pow2, BitLength;
    FixnumRange();
    BitLengthBounds(n);
    var k := BitLength(n);
    if m + k <= 57 {
      Pow2Add(k, m);
      Pow2Monotone(k + m, 57);
      ProductBelow(n, Pow2(k), Pow2(m), Pow2(57));
    } else {
      Pow2Add(k - 1, m);
      Pow2Monotone(57, k - 1 + m);
      LeFactor(Pow2(k - 1), n, Pow2(m));
    }
  }

  lemma ProductWithin(x: int, k: int, p: int, limit: int)
    requires x <= k && p > 0 && k * p <= limit
    ensures x * p <= limit
  {
    LeFactor(x, k, p);
  }

  lemma ProductBeyond(x: int, k: int, p: int, limit: int)
    requires x > k && p > 0 && k * p >= limit
    ensures x * p > limit
  {
    MulGap(p, k, x);
    assert p * k == k * p && p * x == x * p;
  }

  /** The same for a negative number, by the bits of its complement. */
  lemma NegativeShiftFits(n: int, m: nat)
    requires n < 0
    ensures -n * Pow2(m) <= 0x0200_0000_0000_0000 <==> m + BitLength(-n - 1) <= 57
  {
    hide Pow2, BitLength;
    FixnumRange();
    BitLengthBounds(-n - 1);
    var k := BitLength(-n - 1);
    if m + k <= 57 {
      Pow2Add(k, m);
      Pow2Monotone(k + m, 57);
      ProductWithin(-n, Pow2(k), Pow2(m), Pow2(57));
    } else if n == -1 {
      NoBits();
      Pow2Monotone(58, m);
      Pow2Twice();
    } else {
      Pow2Add(k - 1, m);
      Pow2Monotone(57, k - 1 + m);
      ProductBeyond(-n, Pow2(k - 1), Pow2(m), Pow2(57));
    }
  }

  lemma NoBits()
    ensures BitLength(0) == 0
  {}

  lemma Pow2Twice()
    ensures Pow2(58) == 2 * Pow2(57)
  {}

  /** integer_shift_left. */
  method ShiftIntegerLeft(n: Integer, m: nat) returns (r: Integer)
    requires Ok(n) && (n == Fixnum(0) || Size(n) + m / 62 + 2 < LENGTH_MAX)
    ensures Ok(r) && IntValue(r) == IntValue(n) * Pow2(m)
  {
    hide Val, Pow, Pow2, BitLength;
    if m == 0 {
      NoShift(IntValue(n));
      return n;
    }
    if n.Big? {
      var b := ShiftLeft(n.b, m);
      ShiftGrows(Value(n.b), Pow2(m));
      return Big(b);
    }
    var n1 := n.n;
    if n1 < 0 {
      NegativeShiftFits(n1, m);
      MulNegate(n1, Pow2(m));
      if m + BitLength(-1 - n1) <= FIXNUM_LENGTH {
        ShiftSign(n1, Pow2(m));
        return Fixnum(-(-n1 * Pow2(m)));
      }
      var b := ShiftedBignum(-n1, m, false);
      b := Negate(b);
      r := Big(b);
    } else if 0 < n1 {
      ShiftFits(n1, m);
      ShiftSign(n1, Pow2(m));
      if m + BitLength(n1) <= FIXNUM_LENGTH {
        return Fixnum(n1 * Pow2(m));
      }
      var b := ShiftedBignum(n1, m, false);
      r := Big(b);
    } else {
      r := Fixnum(0);
    }
  }

  lemma NoShift(v: int)
    ensures v * Pow2(0) == v && v / Pow2(0) == v
  {
    assert Pow2(0) == 1;
  }

  lemma ShiftSign(v: int, p: int)
    requires p > 0
    ensures v > 0 ==> v * p > 0
    ensures v < 0 ==> v * p < 0 && -v * p > 0 && -(-v * p) == v * p
  {
    if v < 0 { MulNegate(v, p); MulAtLeast(-v, p); }
  }

  lemma ShiftGrows(v: int, p: int)
    requires p > 0 && !IsFixnum(v)
    ensures !IsFixnum(v * p)
  {
    if v < 0 {
      MulAtLeast(-v, p);
      MulNegate(v, p);
    } else {
      MulAtLeast(v, p);
    }
  }

  lemma HalvesStay(v: int, p: int)
    requires p > 0 && IsFixnum(v)
    ensures IsFixnum(v / p) && (v < 0 ==> v / p == -1 - (-1 - v) / p)
  {
    if v < 0 {
      var q, r := (-1 - v) / p, (-1 - v) % p;
      DivMod(-1 - v, p);
      QuotientRange(-1 - v, p);
      assert p * (-1 - q) == -p - p * q;
      DivIs(v, p, -1 - q, p - 1 - r);
    } else {
      QuotientRange(v, p);
    }
  }

  /** integer_shift_right.  C leaves open what a fixnum shifted by a word or more is. */
  method ShiftIntegerRight(n: Integer, m: nat) returns (r: Integer)
    requires Ok(n) && Size(n) < LENGTH_MAX
    ensures Ok(r) && (m > 0 && (n.Fixnum? ==> m < 64) ==> Means(r, IntValue(n) / Pow2(m)))
    ensures m == 0 ==> r == n && IntValue(n) / Pow2(m) == IntValue(n)
  {
    hide Val, Pow, Pow2, Means;
    if m == 0 {
      NoShift(IntValue(n));
      return n;
    }
    if n.Fixnum? {
      var n1 := n.n;
      if m >= 64 {
        var shifted: Word := *;
        return Fixnum(FixnumOf(shifted));
      }
      HalvesStay(n1, Pow2(m));
      FixnumMeans(n1 / Pow2(m));
      return Fixnum(if n1 < 0 then -1 - (-1 - n1) / Pow2(m) else n1 / Pow2(m));
    }
    var b := ShiftRight(n.b, m);
    r := BignumToInteger(b);
  }
}
