/** Bignums as the microcode stores them: an array of words with a header in front. */
module BignumRepr {
  import opened Arith
  import opened BignumDigits

  /** A bignum.  Word 0 is the header, the length plus RADIX if the number is negative; the digits
      follow, least significant first.  The array may be longer than the header says. */
  type Bignum = array<Word>

  const TC_MANIFEST_NM_VECTOR: nat := 0x27
  const SHARP_F: Word := 0

  /** MAKE_OBJECT (TC_MANIFEST_NM_VECTOR, n) as a signed word. */
  function ManifestWord(n: int): int {
    TC_MANIFEST_NM_VECTOR * 0x0400_0000_0000_0000 + n - 0x1_0000_0000_0000_0000
  }

  datatype Comparison = Less | Equal | Greater

  /** BIGNUM_LENGTH. */
  function Len(b: Bignum): (n: nat)
    requires b.Length > 0
    reads b
  {
    b[0] % RADIX
  }

  /** BIGNUM_NEGATIVE_P. */
  predicate Negative(b: Bignum)
    requires b.Length > 0
    reads b
  {
    b[0] / RADIX % 2 != 0
  }

  /** BIGNUM_ZERO_P. */
  predicate IsZero(b: Bignum)
    requires b.Length > 0
    reads b
  {
    Len(b) == 0
  }

  /** The header is sound and the digits are there. */
  ghost predicate Shaped(b: Bignum)
    reads b
  {
    && b.Length > 0
    && 0 <= b[0] < 2 * RADIX
    && Len(b) <= LENGTH_MAX
    && Len(b) < b.Length
  }

  ghost function DigitsOf(b: Bignum): (s: seq<Word>)
    requires Shaped(b)
    reads b
  {
    b[1..1 + Len(b)]
  }

  /** Every bignum that an operation returns or is given: no leading zero, no negative zero. */
  ghost predicate Valid(b: Bignum)
    reads b
  {
    && Shaped(b)
    && Digits(DigitsOf(b))
    && (Len(b) > 0 ==> b[Len(b)] > 0)
    && (Len(b) == 0 ==> !Negative(b))
  }

  ghost function Magnitude(b: Bignum): int
    requires Shaped(b)
    reads b
  {
    Val(DigitsOf(b))
  }

  /** The integer that b stands for. */
  ghost function Value(b: Bignum): int
    requires Shaped(b)
    reads b
  {
    if Negative(b) then -Magnitude(b) else Magnitude(b)
  }

  lemma MagnitudeBounds(b: Bignum)
    requires Valid(b)
    ensures 0 <= Magnitude(b) < Pow(Len(b))
    ensures Len(b) > 0 ==> Magnitude(b) >= Pow(Len(b) - 1)
    ensures Magnitude(b) == 0 <==> Len(b) == 0
  {
    ValBound(DigitsOf(b));
    if Len(b) > 0 { ValTop(DigitsOf(b)); }
  }

  /** The representation of an integer is unique. */
  lemma Canonical(x: Bignum, y: Bignum)
    requires Valid(x) && Valid(y) && Value(x) == Value(y)
    ensures x[0] == y[0] && DigitsOf(x) == DigitsOf(y)
  {
    MagnitudeBounds(x);
    MagnitudeBounds(y);
    assert Len(x) > 0 ==> DigitsOf(x)[Len(x) - 1] == x[Len(x)];
    assert Len(y) > 0 ==> DigitsOf(y)[Len(y) - 1] == y[Len(y)];
    CanonicalUnique(DigitsOf(x), DigitsOf(y));
  }

  function Header(length: int, negative: bool): int {
    if negative then length + RADIX else length
  }

  lemma HeaderParts(length: int, negative: bool)
    requires 0 <= length < RADIX
    ensures Header(length, negative) % RADIX == length
    ensures (Header(length, negative) / RADIX % 2 != 0) == negative
  {}

  method Allocate(length: int, negative: bool) returns (b: Bignum)
    requires 0 <= length <= LENGTH_MAX
    ensures fresh(b) && b.Length == length + 1 && b[0] == Header(length, negative)
    ensures Shaped(b) && Len(b) == length && Negative(b) == negative
  {
    HeaderParts(length, negative);
    b := new Word[length + 1];
    b[0] := Header(length, negative);
  }

  method AllocateZeroed(length: int, negative: bool) returns (b: Bignum)
    requires 0 <= length <= LENGTH_MAX
    ensures fresh(b) && b.Length == length + 1 && b[0] == Header(length, negative)
    ensures Shaped(b) && Len(b) == length && Negative(b) == negative
    ensures forall i :: 1 <= i <= length ==> b[i] == 0
  {
    b := Allocate(length, negative);
    var scan := 1;
    while scan < length + 1
      invariant 1 <= scan <= length + 1
      invariant b[0] == Header(length, negative)
      invariant forall i :: 1 <= i < scan ==> b[i] == 0
    {
      b[scan] := 0;
      scan := scan + 1;
    }
  }

  method MakeZero() returns (b: Bignum)
    ensures fresh(b) && Valid(b) && Value(b) == 0
  {
    b := Allocate(0, false);
  }

  method MakeOne(negative: bool) returns (b: Bignum)
    ensures fresh(b) && Valid(b) && Len(b) == 1 && Value(b) == if negative then -1 else 1
  {
    b := Allocate(1, negative);
    b[1] := 1;
    OneDigit(b);
  }

  lemma OneDigit(b: Bignum)
    requires Shaped(b) && Len(b) == 1
    ensures Magnitude(b) == b[1]
  {
    assert DigitsOf(b) == [b[1]];
    ValSnoc([], b[1]);
    assert [] + [b[1]] == DigitsOf(b);
  }

  method DigitToBignum(digit: Word, negative: bool) returns (b: Bignum)
    requires IsDigit(digit)
    ensures fresh(b) && Valid(b) && Value(b) == if negative then -digit else digit
  {
    if digit == 0 {
      b := MakeZero();
    } else {
      b := Allocate(1, negative);
      b[1] := digit;
      OneDigit(b);
    }
  }

  /** BIGNUM_REDUCE_LENGTH: fill the freed words with an object that a memory scan can step over. */
  method ReduceLength(b: Bignum, oldLength: int, length: int)
    requires 0 <= length <= oldLength < b.Length && oldLength <= LENGTH_MAX
    modifies b
    ensures forall i :: 0 <= i < b.Length && i != length + 1 ==> b[i] == old(b[i])
    ensures length + 1 == oldLength ==> b[length + 1] == SHARP_F
    ensures length + 1 < oldLength ==> b[length + 1] == ManifestWord(oldLength - length - 1)
  {
    var delta := oldLength - length;
    if delta == 1 {
      b[length + 1] := SHARP_F;
    } else if delta > 1 {
      b[length + 1] := ManifestWord(delta - 1);
    }
  }

  /** Give b a shorter length. */
  method SetLength(b: Bignum, length: int)
    requires Shaped(b) && 0 <= length <= Len(b)
    modifies b
    ensures Shaped(b) && Len(b) == length && Negative(b) == (length != 0 && old(Negative(b)))
    ensures DigitsOf(b) == old(DigitsOf(b))[..length]
    ensures length + 1 == old(Len(b)) ==> b[length + 1] == SHARP_F
  {
    var oldLength, negative := Len(b), length != 0 && Negative(b);
    HeaderParts(length, negative);
    b[0] := Header(length, negative);
    ReduceLength(b, oldLength, length);
    assert Len(b) == length;
    assert forall i :: 0 <= i < length ==> DigitsOf(b)[i] == old(DigitsOf(b))[i];
  }

  method ShortenLength(b: Bignum, length: int) returns (r: Bignum)
    requires Shaped(b) && 0 < length <= Len(b)
    modifies b
    ensures r == b && Shaped(b) && Len(b) == length && Negative(b) == old(Negative(b))
    ensures DigitsOf(b) == old(DigitsOf(b))[..length]
    ensures length + 1 == old(Len(b)) ==> b[length + 1] == SHARP_F
  {
    if length < Len(b) {
      SetLength(b, length);
    }
    r := b;
  }

  lemma TrimmedValue(s: seq<int>, n: nat)
    requires n <= |s| && forall i :: n <= i < |s| ==> s[i] == 0
    ensures Val(s[..n]) == Val(s)
  {
    ValSplit(s, n);
    ValZeroes(s[n..]);
  }

  /** If b has been shortened by just one digit, from n, the word after it is the filler #F. */
  ghost predicate Padded(b: Bignum, n: int)
    requires Shaped(b)
    reads b
  {
    b.Length == n + 1 && (Len(b) + 1 == n ==> b[Len(b) + 1] == SHARP_F)
  }

  /** Drop leading zeros.  The header is not zero unless the length is, so it stops the scan. */
  method Trim(b: Bignum) returns (r: Bignum)
    requires Shaped(b) && Digits(DigitsOf(b)) && (Len(b) == 0 ==> !Negative(b))
    modifies b
    ensures r == b && Valid(b) && Len(b) <= old(Len(b)) && Magnitude(b) == old(Magnitude(b))
    ensures Value(b) == old(Value(b))
    ensures old(b.Length == Len(b) + 1) ==> Padded(b, old(Len(b)))
  {
    var start := 1;
    var end := start + Len(b);
    var scan := end;
    ghost var ds := DigitsOf(b);
    while start <= scan
      invariant 0 <= scan <= end && (scan == 0 ==> end == start)
      invariant forall i :: scan <= i < end && start <= i ==> b[i] == 0
      invariant b[0] == old(b[0]) && DigitsOf(b) == ds
      decreases scan
    {
      scan := scan - 1;
      if b[scan] != 0 {
        break;
      }
    }
    scan := scan + 1;
    assert forall i :: scan - start <= i < |ds| ==> ds[i] == b[1 + i];
    TrimmedValue(ds, scan - start);
    if scan < end {
      SetLength(b, scan - start);
    }
    r := b;
    assert Len(b) > 0 ==> DigitsOf(b)[Len(b) - 1] == ds[Len(b) - 1];
  }
}
