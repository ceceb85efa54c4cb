/** Digits of the bignum package and the numbers that digit strings stand for. */
module BignumDigits {
  import opened Arith

  /** A signed machine word (long). */
  type Word = x: int | -0x8000_0000_0000_0000 <= x < 0x8000_0000_0000_0000

  /** BIGNUM_RADIX_ROOT and BIGNUM_RADIX for 62-bit digits. */
  const R: int := 0x8000_0000
  const RADIX: int := 0x4000_0000_0000_0000

  const DIGIT_LENGTH: nat := 62
  const LENGTH_MAX: int := RADIX / DIGIT_LENGTH - DIGIT_LENGTH

  predicate IsDigit(d: int) {
    0 <= d < RADIX
  }

  ghost predicate Digits(s: seq<int>) {
    forall i :: 0 <= i < |s| ==> 0 <= s[i] < RADIX
  }

  /** RADIX to the power n. */
  ghost function Pow(n: nat): (p: int)
    ensures p > 0
  {
    if n == 0 then 1 else RADIX * Pow(n - 1)
  }

  /** The number that the digits s stand for, least significant digit first. */
  ghost function Val(s: seq<int>): int {
    if s == [] then 0 else s[0] + RADIX * Val(s[1..])
  }

  lemma {:induction false} PowAdd(m: nat, n: nat)
    ensures Pow(m + n) == Pow(m) * Pow(n)
  {
    if m > 0 {
      PowAdd(m - 1, n);
      MulAssoc(RADIX, Pow(m - 1), Pow(n));
    }
  }

  lemma PowMonotone(m: nat, n: nat)
    requires m <= n
    ensures Pow(m) <= Pow(n)
  {
    PowAdd(m, n - m);
    MulAtLeast(Pow(m), Pow(n - m));
  }

  /** Appending on the most significant side. */
  lemma {:induction false} ValAppend(s: seq<int>, t: seq<int>)
    ensures Val(s + t) == Val(s) + Pow(|s|) * Val(t)
  {
    if s == [] {
      assert s + t == t;
    } else {
      assert (s + t)[1..] == s[1..] + t;
      ValAppend(s[1..], t);
      MulAssoc(RADIX, Pow(|s| - 1), Val(t));
    }
  }

  lemma ValCons(d: int, s: seq<int>)
    ensures Val([d] + s) == d + RADIX * Val(s)
  {
    assert ([d] + s)[1..] == s;
  }

  lemma ValSnoc(s: seq<int>, d: int)
    ensures Val(s + [d]) == Val(s) + Pow(|s|) * d
  {
    ValAppend(s, [d]);
    assert [d][1..] == [];
    assert Val([d]) == d;
  }

  /** Splitting at k. */
  lemma ValSplit(s: seq<int>, k: nat)
    requires k <= |s|
    ensures Val(s) == Val(s[..k]) + Pow(k) * Val(s[k..])
  {
    assert s == s[..k] + s[k..];
    ValAppend(s[..k], s[k..]);
  }

  lemma {:induction false} ValBound(s: seq<int>)
    requires Digits(s)
    ensures 0 <= Val(s) < Pow(|s|)
  {
    if s != [] { ValBound(s[1..]); }
  }

  lemma {:induction false} ValZeroes(s: seq<int>)
    requires forall i :: 0 <= i < |s| ==> s[i] == 0
    ensures Val(s) == 0
  {
    if s != [] { ValZeroes(s[1..]); }
  }

  /** Only zeros stand for zero. */
  lemma {:induction false} ZeroDigits(s: seq<int>)
    requires Digits(s) && Val(s) == 0
    ensures forall i :: 0 <= i < |s| ==> s[i] == 0
  {
    if s != [] {
      ValBound(s[1..]);
      ZeroDigits(s[1..]);
      assert forall i :: 0 < i < |s| ==> s[i] == s[1..][i - 1];
    }
  }

  /** A number whose top digit is not zero. */
  lemma ValTop(s: seq<int>)
    requires Digits(s) && s != [] && s[|s| - 1] > 0
    ensures Val(s) >= Pow(|s| - 1)
  {
    var n := |s| - 1;
    ValSplit(s, n);
    ValBound(s[..n]);
    assert s[n..] == [s[n]] && [s[n]][1..] == [];
    assert Val(s[n..]) == s[n];
    MulAtLeast(Pow(n), s[n]);
  }

  /** Digit strings of one length that stand for the same number are equal. */
  lemma {:induction false} ValInjective(s: seq<int>, t: seq<int>)
    requires Digits(s) && Digits(t) && |s| == |t| && Val(s) == Val(t)
    ensures s == t
  {
    if s != [] {
      assert (s[0] - t[0]) == RADIX * (Val(t[1..]) - Val(s[1..]));
      ValInjective(s[1..], t[1..]);
    }
  }

  /** A digit string without leading zeros is determined by its number. */
  lemma CanonicalUnique(s: seq<int>, t: seq<int>)
    requires Digits(s) && Digits(t) && Val(s) == Val(t)
    requires s != [] ==> s[|s| - 1] > 0
    requires t != [] ==> t[|t| - 1] > 0
    ensures s == t
  {
    ValBound(s);
    ValBound(t);
    if |s| < |t| { ValTop(t); PowMonotone(|s|, |t| - 1); }
    if |t| < |s| { ValTop(s); PowMonotone(|t|, |s| - 1); }
    ValInjective(s, t);
  }

  /** HD_LOW, HD_HIGH and HD_CONS. */
  function HdLow(d: int): int { d % R }
  function HdHigh(d: int): int { d / R }
  function HdCons(high: int, low: int): int { high * R + low }

  lemma Halves(d: int)
    ensures d == HdCons(HdHigh(d), HdLow(d)) && 0 <= HdLow(d) < R
    ensures 0 <= d < RADIX ==> 0 <= HdHigh(d) < R
    ensures 0 <= d < 2 * RADIX ==> 0 <= HdHigh(d) < 2 * R
  {}

}
