/** Arithmetic shifts. */
module BignumShift {
  import opened Arith
  import opened Bits
  import opened BignumDigits
  import opened BignumRepr
  import opened BignumAdd
  import opened BignumMultiply
  import opened BignumScaling
  import opened BignumBitwise
  import opened BignumDivision
  import opened BignumLongDivision

  // ---------------------------------------------------------------- left

  /** The length of n << m: its top digit has `delta` bits. */
  function ShiftedLength(length: nat, delta: nat, m: nat): int {
    length - 1 + (delta + m) / DIGIT_LENGTH + if (delta + m) % DIGIT_LENGTH != 0 then 1 else 0
  }

  /** One more digit is needed just when the bits of the top digit overflow it. */
  lemma ShiftedLengthIs(length: nat, delta: nat, m: nat)
    requires 1 <= delta <= 62
    ensures var extra := if delta + m % 62 > 62 then 1 else 0;
      ShiftedLength(length, delta, m) == length + m / 62 + extra
  {
    var z, s := m / 62, m % 62;
    assert delta + m == 62 * z + (delta + s);
    if delta + s < 62 { DivIs(delta + m, 62, z, delta + s); }
    else if delta + s < 124 { DivIs(delta + m, 62, z + 1, delta + s - 62); }
  }

  /** What is shifted out of the top digit is zero just when its bits fit. */
  lemma TopCarry(d: nat, s: nat)
    requires 0 < d < RADIX && s < 62
    ensures 1 <= BitLength(d) <= 62
    ensures d / Pow2(62 - s) == 0 <==> BitLength(d) + s <= 62
  {
    hide Pow2, BitLength;
    BitLengthBounds(d);
    Pow2Word();
    var k, p := BitLength(d), Pow2(62 - s);
    if k > 62 { Pow2Monotone(62, k - 1); }
    DivMod(d, p);
    if k + s <= 62 {
      Pow2Monotone(k, 62 - s);
      DivIs(d, p, 0, d);
    } else {
      Pow2Monotone(62 - s, k - 1);
      assert p * 0 == 0;
    }
  }

  /** Writing the low `zeroes` digits. */
  method WriteZeroes(r: Bignum, zeroes: nat)
    requires zeroes < r.Length
    modifies r
    ensures r[0] == old(r[0]) && forall i :: 1 <= i <= zeroes ==> r[i] == 0
  {
    var scan := 1;
    while scan < 1 + zeroes
      invariant 1 <= scan <= 1 + zeroes && r[0] == old(r[0]) && forall i :: 1 <= i < scan ==> r[i] == 0
    {
      r[scan] := 0;
      scan := scan + 1;
    }
  }

  lemma ShiftWord(d: int, s: nat)
    requires IsDigit(d) && s < 62
    ensures d * Pow2(s) % RADIX == d % Pow2(62 - s) * Pow2(s)
  {
    hide Pow2;
    var f, g := Pow2(s), Pow2(62 - s);
    ShiftFactors(s);
    ShiftDigit(d, f, g, 0);
    assert d * f == f * d;
    DivIs(d * f, RADIX, d / g, d % g * f);
  }

  /** Write n << shift from digit `at` on; return what is shifted out of the top. */
  method ShiftDigits(n: Bignum, r: Bignum, at: nat, shift: nat) returns (temp: Word)
    requires Valid(n) && shift < 62 && r != n && 1 <= at && at + Len(n) <= r.Length
    modifies r
    ensures forall i :: 0 <= i < at ==> r[i] == old(r[i])
    ensures Scaled(DigitsOf(n), Pow2(shift), r[at..at + Len(n)], temp)
    ensures Len(n) > 0 ==> temp == n[Len(n)] / Pow2(62 - shift)
  {
    hide Val, Pow, Scaled, Pow2;
    ghost var ds, f := DigitsOf(n), Pow2(shift);
    temp := 0;
    var scan, scanR := 1, at;
    ScaledStart(ds, f);
    ShiftFactors(shift);
    assert r[at..at] == [];
    while scan < 1 + Len(n)
      invariant 1 <= scan <= 1 + Len(n) && scanR == at + scan - 1 && 0 <= temp < f
      invariant forall i :: 0 <= i < at ==> r[i] == old(r[i])
      invariant Scaled(ds, f, r[at..scanR], temp)
      invariant scan > 1 ==> temp == n[scan - 1] / Pow2(62 - shift)
    {
      ghost var rs, c := r[at..scanR], temp;
      var digit := n[scan];
      assert digit == ds[scan - 1];
      ShiftDigit(digit, f, Pow2(62 - shift), temp);
      ShiftWord(digit, shift);
      r[scanR] := digit * Pow2(shift) % RADIX + temp;
      temp := digit / Pow2(62 - shift);
      assert r[at..scanR + 1] == rs + [r[scanR]];
      ScaledStep(ds, f, rs, c, r[scanR], temp);
      scan, scanR := scan + 1, scanR + 1;
    }
  }

  /** n zeroes below the digits s. */
  lemma {:induction false} ValShifted(zs: seq<int>, s: seq<int>)
    requires forall i :: 0 <= i < |zs| ==> zs[i] == 0
    ensures Val(zs + s) == Pow2(62 * |zs|) * Val(s)
  {
    ValAppend(zs, s);
    ValZeroes(zs);
    PowIsPow2(|zs|);
  }

  /** Shifting by whole digits and then by bits. */
  lemma ShiftParts(m: nat, x: int)
    ensures Pow2(m) * x == Pow2(62 * (m / 62)) * (Pow2(m % 62) * x)
  {
    Pow2Add(62 * (m / 62), m % 62);
    MulAssoc(Pow2(62 * (m / 62)), Pow2(m % 62), x);
  }

  /** The shifted digits, with the carry on top if there is one. */
  lemma ScaledTotal(ds: seq<int>, f: int, rs: seq<int>, c: int)
    requires Scaled(ds, f, rs, c) && |rs| == |ds| && IsDigit(c)
    ensures Digits(rs) && Digits(rs + [c]) && Val(rs + [c]) == f * Val(ds)
    ensures c == 0 ==> Val(rs) == f * Val(ds)
  {
    ScaledAll(ds, f, rs, c);
    ValSnoc(rs, c);
    assert Pow(|rs|) * 0 == 0;
  }

  /** The digits ds stand for x and have no leading zero. */
  ghost predicate StandsFor(ds: seq<int>, x: int) {
    ds != [] && Digits(ds) && Val(ds) == x && ds[|ds| - 1] > 0
  }

  /** Write the digits of n << shift into r from `at` on; they fill it. */
  method ShiftAbove(n: Bignum, shift: nat, r: Bignum, at: nat) returns (ghost all: seq<int>)
    requires Valid(n) && !IsZero(n) && r != n && shift < 62 && 1 <= at && 0 < n[Len(n)] < RADIX
    requires r.Length == at + Len(n) + if n[Len(n)] / Pow2(62 - shift) == 0 then 0 else 1
    modifies r
    ensures forall i :: 0 <= i < at ==> r[i] == old(r[i])
    ensures r[at..] == all && StandsFor(all, Pow2(shift) * Magnitude(n))
  {
    hide Val, Pow, Scaled, Pow2, StandsFor;
    var temp := ShiftDigits(n, r, at, shift);
    ghost var rs := r[at..at + Len(n)];
    all := TopDigit(n, shift, rs, temp);
    if temp != 0 {
      r[at + Len(n)] := temp;
    }
    assert r[at..] == all;
  }

  /** Write the digits of n << m into r, which has room for exactly these. */
  method ShiftInto(n: Bignum, m: nat, r: Bignum)
    requires Valid(n) && !IsZero(n) && r != n && 0 < n[Len(n)] < RADIX
    requires r.Length == 1 + ShiftedLength(Len(n), BitLength(n[Len(n)]), m)
    modifies r
    ensures r[0] == old(r[0]) && StandsFor(r[1..], Magnitude(n) * Pow2(m))
  {
    hide Val, Pow, Pow2, ShiftedLength, BitLength, StandsFor;
    var zeroes, shift := m / 62, m % 62;
    TopCarry(n[Len(n)], shift);
    ShiftedLengthIs(Len(n), BitLength(n[Len(n)]), m);
    WriteZeroes(r, zeroes);
    ghost var zs := r[1..1 + zeroes];
    ghost var all := ShiftAbove(n, shift, r, 1 + zeroes);
    assert r[1..] == zs + all;
    LeftResult(zs, all, Magnitude(n), m);
  }

  /** bignum_shift_left. */
  method ShiftLeft(n: Bignum, m: nat) returns (r: Bignum)
    requires Valid(n) && Len(n) + m / 62 < LENGTH_MAX
    ensures Valid(r) && Value(r) == Value(n) * Pow2(m)
  {
    hide Val, Pow, Pow2, BitLength;
    if m == 0 || IsZero(n) {
      ShiftTrivial(n, m);
      return n;
    }
    assert DigitsOf(n)[Len(n) - 1] == n[Len(n)];
    var delta := BitLength(n[Len(n)]);
    TopCarry(n[Len(n)], m % 62);
    ShiftedLengthIs(Len(n), delta, m);
    var length := ShiftedLength(Len(n), delta, m);
    r := Allocate(length, Negative(n));
    ShiftInto(n, m, r);
    assert DigitsOf(r) == r[1..];
    MulNegate(Magnitude(n), Pow2(m));
  }

  lemma ShiftTrivial(n: Bignum, m: nat)
    requires Valid(n) && (m == 0 || IsZero(n))
    ensures Value(n) * Pow2(m) == Value(n)
  {
    MagnitudeBounds(n);
    if m == 0 { assert Pow2(0) == 1; }
  }

  /** The digits written by ShiftDigits, with what is shifted out on top. */
  lemma TopDigit(n: Bignum, shift: nat, rs: seq<int>, temp: int) returns (all: seq<int>)
    requires Valid(n) && !IsZero(n) && shift < 62 && |rs| == Len(n)
    requires Scaled(DigitsOf(n), Pow2(shift), rs, temp) && temp == n[Len(n)] / Pow2(62 - shift)
    ensures IsDigit(temp) && all == (if temp != 0 then rs + [temp] else rs) &&
      StandsFor(all, Pow2(shift) * Magnitude(n))
  {
    hide Val, Pow, Scaled, Pow2;
    var k := |rs| - 1;
    assert DigitsOf(n)[k] == n[Len(n)];
    ShiftFactors(shift);
    ShiftDigit(n[Len(n)], Pow2(shift), Pow2(62 - shift), 0);
    ShiftBelowRadix(shift);
    ScaledTotal(DigitsOf(n), Pow2(shift), rs, temp);
    if temp == 0 {
      MagnitudeBounds(n);
      MulAtLeast(Magnitude(n), Pow2(shift));
      LeadingDigit(rs, 1);
    }
    all := if temp != 0 then rs + [temp] else rs;
  }

  lemma LeftResult(zs: seq<int>, s: seq<int>, x: int, m: nat)
    requires (forall i :: 0 <= i < |zs| ==> zs[i] == 0) && |zs| == m / 62 && StandsFor(s, Pow2(m % 62) * x)
    ensures StandsFor(zs + s, x * Pow2(m))
  {
    hide Val, Pow2;
    ValShifted(zs, s);
    ShiftParts(m, x);
    assert Pow2(m) * x == x * Pow2(m);
  }

  // ---------------------------------------------------------------- right

  /** The digits rs and the bits `extra` are the digits ds shifted right by f, with the low bits c lost. */
  ghost predicate ShiftedDown(ds: seq<int>, f: int, rs: seq<int>, extra: int, c: int) {
    |rs| < |ds| && Digits(rs) && 0 <= c < f && Val(ds[..|rs| + 1]) == f * (Val(rs) + Pow(|rs|) * extra) + c
  }

  lemma DownStart(ds: seq<int>, f: int)
    requires ds != [] && f > 0
    ensures ShiftedDown(ds, f, [], ds[0] / f, ds[0] % f)
  {
    assert ds[..1] == [] + [ds[0]];
    ValSnoc([], ds[0]);
    DivMod(ds[0], f);
    assert Pow(0) * (ds[0] / f) == ds[0] / f;
  }

  lemma DownStep(ds: seq<int>, f: int, g: int, rs: seq<int>, extra: int, c: int, r: int)
    requires ShiftedDown(ds, f, rs, extra, c) && |rs| + 1 < |ds| && f * g == RADIX && f > 0
    requires IsDigit(r) && r == ds[|rs| + 1] % f * g + extra
    ensures ShiftedDown(ds, f, rs + [r], ds[|rs| + 1] / f, c)
  {
    var d, p := ds[|rs| + 1], Pow(|rs|);
    assert Pow(|rs| + 1) == RADIX * p;
    hide Val, Pow;
    Prefix(ds, |rs| + 1);
    ValSnoc(rs, r);
    DivMod(d, f);
    DownArithmetic(f, g, p, d / f, d % f, extra, Val(rs));
  }

  lemma DownArithmetic(f: int, g: int, p: int, q: int, rem: int, extra: int, v: int)
    requires f * g == RADIX
    ensures f * (v + p * extra) + (RADIX * p) * (f * q + rem) == f * (v + p * (rem * g + extra) + (RADIX * p) * q)
  {
    MulDist(RADIX * p, f * q, rem);
    MulDist(p, rem * g, extra);
    MulDist(f, v + p * extra, p * (rem * g) + (RADIX * p) * q);
    MulDist(f, p * (rem * g), (RADIX * p) * q);
    assert f * (p * (rem * g)) == (f * g) * (p * rem) == (RADIX * p) * rem;
    assert f * ((RADIX * p) * q) == (RADIX * p) * (f * q);
  }

  /** At the top digit, the bits that are left go on top unless they are zero. */
  lemma DownEnd(ds: seq<int>, f: int, rs: seq<int>, extra: int, c: int) returns (all: seq<int>)
    requires ShiftedDown(ds, f, rs, extra, c) && |rs| + 1 == |ds| && IsDigit(extra)
    ensures all == (if extra != 0 then rs + [extra] else rs) && Digits(all) && Val(all) == Val(ds) / f
  {
    hide Val, Pow;
    assert ds[..|rs| + 1] == ds;
    ValSnoc(rs, extra);
    assert Pow(|rs|) * 0 == 0;
    DivIs(Val(ds), f, Val(rs) + Pow(|rs|) * extra, c);
    all := if extra != 0 then rs + [extra] else rs;
  }

  lemma DownDigit(d: int, f: int, g: int, extra: int)
    requires IsDigit(d) && 0 < f && 0 < g && f * g == RADIX && 0 <= extra < g
    ensures IsDigit(d % f * g + extra) && 0 <= d / f < g && 0 <= d % f < f
  {
    UnshiftDigit(d, f, g, 0);
    DivMod(d, f);
    MulGap(g, d % f, f);
    assert d % f * g == g * (d % f);
    if d / f >= g { LeFactor(g, d / f, f); }
  }

  /** n can be shifted right by `digits` and `bits`: it has more than `digits` digits, or it is
      RADIX^digits - 1, with the filler #F after its digits if there are bits to shift as well. */
  ghost predicate CanShift(n: Bignum, digits: nat, bits: nat)
    reads n
  {
    && Valid(n) && !Negative(n) && digits <= Len(n) && bits < 62
    && (digits == Len(n) ==> Magnitude(n) == Pow(Len(n)) - 1 && (bits > 0 ==> Padded(n, Len(n) + 1)))
  }

  /** Shift the digits of n from `digits` on right by `bits`, writing to r; `first` is what is left
      of the first digit.  Return what is left of the last digit. */
  method ShiftDigitsDown(n: Bignum, digits: nat, bits: nat, r: Bignum, first: Word) returns (extra: Word, ghost c: int)
    requires Shaped(n) && Digits(DigitsOf(n)) && 0 < bits < 62 && digits < Len(n) && r != n &&
      Len(n) - digits <= r.Length
    requires first == n[1 + digits] / Pow2(bits)
    modifies r
    ensures r[0] == old(r[0]) && IsDigit(extra) && extra == n[Len(n)] / Pow2(bits)
    ensures ShiftedDown(DigitsOf(n)[digits..], Pow2(bits), r[1..Len(n) - digits], extra, c)
  {
    hide Val, Pow, Pow2, ShiftedDown;
    ghost var ds, f, g := DigitsOf(n)[digits..], Pow2(bits), Pow2(62 - bits);
    var shift := 62 - bits;
    var scan, scanR := 2 + digits, 1;
    assert n[1 + digits] == ds[0];
    ShiftFactors(bits);
    DownDigit(n[1 + digits], f, g, 0);
    DownStart(ds, f);
    extra := first;
    c := ds[0] % f;
    assert r[1..1] == [];
    while scan < 1 + Len(n)
      invariant 2 + digits <= scan <= 1 + Len(n) && scanR == scan - 1 - digits
      invariant r[0] == old(r[0]) && 0 <= extra < g && extra == n[scan - 1] / Pow2(bits)
      invariant ShiftedDown(ds, f, r[1..scanR], extra, c)
    {
      ghost var rs := r[1..scanR];
      var digit := n[scan];
      assert digit == ds[|rs| + 1];
      DownDigit(digit, f, g, extra);
      r[scanR] := digit % Pow2(bits) * Pow2(shift) + extra;
      assert r[1..scanR + 1] == rs + [r[scanR]];
      DownStep(ds, f, g, rs, extra, c, r[scanR]);
      extra := digit / Pow2(bits);
      scan, scanR := scan + 1, scanR + 1;
    }
    ShiftBelowRadix(shift);
  }

  /** Dropping whole digits. */
  lemma DropDigits(s: seq<int>, k: nat, f: int)
    requires Digits(s) && k <= |s| && f > 0
    ensures Val(s) / (Pow(k) * f) == Val(s[k..]) / f
  {
    hide Val, Pow;
    ValSplit(s, k);
    ValBound(s[..k]);
    DivIs(Val(s), Pow(k), Val(s[k..]), Val(s[..k]));
    DivDiv(Val(s), Pow(k), f);
  }

  lemma PowTimesPow2(digits: nat, bits: nat)
    ensures Pow(digits) * Pow2(bits) == Pow2(62 * digits + bits)
  {
    PowIsPow2(digits);
    Pow2Add(62 * digits, bits);
  }

  /** When the top digit is shifted out, the one below it is not zero. */
  lemma DownTop(ds: seq<int>, f: int, g: int, all: seq<int>)
    requires Digits(ds) && |ds| >= 2 && ds[|ds| - 1] > 0 && f * g == RADIX && f > 0 && g > 0
    requires Digits(all) && Val(all) == Val(ds) / f && |all| == |ds| - 1
    ensures all[|all| - 1] > 0
  {
    var n := |all|;
    ValTop(ds);
    PowUp(n - 1);
    hide Val, Pow;
    MulAssoc(f, g, Pow(n - 1));
    AtLeastQuotient(Val(ds), f, g * Pow(n - 1));
    MulAtLeast(Pow(n - 1), g);
    assert Pow(n - 1) * g == g * Pow(n - 1);
    LeadingDigit(all, 1);
  }

  lemma AtLeastQuotient(x: int, f: int, y: int)
    requires f > 0 && x >= f * y
    ensures x / f >= y
  {
    DivMod(x, f);
    if x / f < y { MulGap(f, x / f, y); }
  }

  /** What the shift of the digits of n gives. */
  ghost predicate IsDown(n: Bignum, digits: nat, bits: nat, ds: seq<int>)
    reads n
  {
    Valid(n) && Digits(ds) && (ds != [] ==> ds[|ds| - 1] > 0) && Val(ds) == Magnitude(n) / Pow2(62 * digits + bits)
  }

  lemma CopiedDown(n: Bignum, digits: nat)
    requires Valid(n) && digits <= Len(n)
    ensures IsDown(n, digits, 0, DigitsOf(n)[digits..])
  {
    var s := DigitsOf(n);
    assert Pow2(0) == 1;
    hide Val, Pow, Pow2;
    DropDigits(s, digits, 1);
    PowTimesPow2(digits, 0);
    assert Val(s[digits..]) / 1 == Val(s[digits..]);
    assert s[digits..] != [] ==> s[digits..][|s| - digits - 1] == n[Len(n)];
  }

  lemma ShiftedDownResult(n: Bignum, digits: nat, bits: nat, rs: seq<int>, extra: int, c: int) returns (all: seq<int>)
    requires CanShift(n, digits, bits) && digits < Len(n) && IsDigit(extra) && extra == n[Len(n)] / Pow2(bits)
    requires |rs| == Len(n) - digits - 1 && ShiftedDown(DigitsOf(n)[digits..], Pow2(bits), rs, extra, c)
    ensures all == (if extra != 0 then rs + [extra] else rs) && IsDown(n, digits, bits, all)
  {
    hide Val, Pow, Pow2, ShiftedDown;
    var ds := DigitsOf(n)[digits..];
    assert ds[|ds| - 1] == n[Len(n)];
    all := DownEnd(ds, Pow2(bits), rs, extra, c);
    ShiftFactors(bits);
    if extra == 0 && |ds| > 1 { DownTop(ds, Pow2(bits), Pow2(62 - bits), all); }
    DropDigits(DigitsOf(n), digits, Pow2(bits));
    PowTimesPow2(digits, bits);
  }

  /** RADIX^k - 1 has only ones. */
  lemma AllOnes(n: Bignum, bits: nat)
    requires Valid(n) && Magnitude(n) == Pow(Len(n)) - 1 && Len(n) > 0 && bits < 62
    ensures n[Len(n)] / Pow2(bits) != 0
  {
    var k := Len(n) - 1;
    var s := DigitsOf(n);
    assert Pow(k + 1) == RADIX * Pow(k);
    hide Val, Pow, Pow2;
    MulAtLeast(RADIX - 1, Pow(k));
    LeadingDigit(s, RADIX - 1);
    assert s[k] == n[Len(n)];
    ShiftBelowRadix(bits);
    AtLeastQuotient(n[Len(n)], Pow2(bits), 1);
  }

  lemma NothingLeft(n: Bignum, bits: nat)
    requires Valid(n)
    ensures IsDown(n, Len(n), bits, [])
  {
    var s := DigitsOf(n);
    hide Val, Pow, Pow2;
    DropDigits(s, Len(n), Pow2(bits));
    PowTimesPow2(Len(n), bits);
    assert s[Len(n)..] == [];
    ValZeroes([]);
    assert 0 / Pow2(bits) == 0;
  }

  /** The length of the result: one digit less if the top digit is shifted out. */
  function LengthDown(n: Bignum, digits: nat, bits: nat): int
    requires Shaped(n)
    reads n
  {
    Len(n) - digits - if 0 < Len(n) && n[Len(n)] / Pow2(bits) == 0 then 1 else 0
  }

  /** The case with bits to shift.  Without digits to shift, the filler #F after n's digits is read. */
  method ShiftBitsDown(n: Bignum, digits: nat, bits: nat, r: Bignum) returns (ghost all: seq<int>)
    requires CanShift(n, digits, bits) && bits > 0 && r != n && r.Length == 1 + LengthDown(n, digits, bits) > 0
    modifies r
    ensures r[0] == old(r[0]) && r[1..] == all && IsDown(n, digits, bits, all)
  {
    hide Val, Pow, Pow2, IsDown, ShiftedDown;
    TopStays(n, digits, bits);
    NothingLeft(n, bits);
    var extra := n[1 + digits] / Pow2(bits);
    if digits == Len(n) {
      assert 0 / Pow2(bits) == 0;
      all := [];
    } else {
      ghost var c;
      extra, c := ShiftDigitsDown(n, digits, bits, r, extra);
      all := ShiftedDownResult(n, digits, bits, r[1..Len(n) - digits], extra, c);
    }
    if extra != 0 {
      r[Len(n) - digits] := extra;
    }
    assert r[1..] == all;
  }

  /** bignum_shift_right_unsigned. */
  method ShiftRightUnsigned(n: Bignum, digits: nat, bits: nat) returns (r: Bignum)
    requires CanShift(n, digits, bits)
    ensures fresh(r) && Valid(r) && !Negative(r) && Len(r) <= Len(n) &&
      Value(r) == Magnitude(n) / Pow2(62 * digits + bits)
  {
    hide Val, Pow, Pow2, IsDown;
    TopStays(n, digits, bits);
    r := Allocate(LengthDown(n, digits, bits), false);
    ghost var all: seq<int>;
    if bits == 0 {
      CopyDigits(n, digits, r);
      CopiedDown(n, digits);
      all := DigitsOf(n)[digits..];
    } else {
      all := ShiftBitsDown(n, digits, bits, r);
    }
    assert DigitsOf(r) == all;
    DownValid(n, digits, bits, r, all);
  }

  lemma TopStays(n: Bignum, digits: nat, bits: nat)
    requires CanShift(n, digits, bits)
    ensures 0 <= LengthDown(n, digits, bits) <= Len(n)
    ensures bits == 0 || digits == Len(n) ==> LengthDown(n, digits, bits) == Len(n) - digits
  {
    assert Pow2(0) == 1;
    assert Len(n) > 0 ==> DigitsOf(n)[Len(n) - 1] == n[Len(n)];
    if digits == Len(n) && Len(n) > 0 { AllOnes(n, bits); }
  }

  lemma DownValid(n: Bignum, digits: nat, bits: nat, r: Bignum, ds: seq<int>)
    requires IsDown(n, digits, bits, ds) && Shaped(r) && !Negative(r) && DigitsOf(r) == ds
    ensures Valid(r) && Value(r) == Magnitude(n) / Pow2(62 * digits + bits)
  {
    assert ds != [] ==> ds[|ds| - 1] == r[Len(r)];
  }

  /** Copy the digits of n from `digits` on. */
  method CopyDigits(n: Bignum, digits: nat, r: Bignum)
    requires Shaped(n) && digits <= Len(n) && r != n && 1 + Len(n) - digits <= r.Length
    modifies r
    ensures r[0] == old(r[0]) && r[1..1 + Len(n) - digits] == DigitsOf(n)[digits..]
  {
    var scan, scanR := 1 + digits, 1;
    while scan < 1 + Len(n)
      invariant 1 + digits <= scan <= 1 + Len(n) && scanR == scan - digits && r[0] == old(r[0])
      invariant forall i :: 1 <= i < scanR ==> r[i] == n[i + digits]
    {
      r[scanR] := n[scan];
      scan, scanR := scan + 1, scanR + 1;
    }
  }

  /** Shifting the complement and complementing the result rounds toward minus infinity. */
  lemma FloorOfNegative(x: int, p: int)
    requires p > 0
    ensures -1 - (-1 - x) / p == x / p
  {
    DivMod(x, p);
    MulNegate(p, x / p);
    MulDist(p, -1, -(x / p));
    DivIs(-1 - x, p, -1 - x / p, p - 1 - x % p);
  }

  /** When all digits are shifted out, the sign is left. */
  lemma AllShiftedOut(n: Bignum, m: nat)
    requires Valid(n) && m / 62 >= Len(n)
    ensures Value(n) / Pow2(m) == if Negative(n) then -1 else 0
  {
    hide Val, Pow, Pow2;
    MagnitudeBounds(n);
    PowIsPow2(Len(n));
    Pow2Monotone(62 * Len(n), m);
    if Negative(n) {
      DivIs(Value(n), Pow2(m), -1, Pow2(m) + Value(n));
    } else {
      DivIs(Value(n), Pow2(m), 0, Value(n));
    }
  }

  /** The complement of a negative number of more than `digits` digits can be shifted. */
  lemma ComplementCanShift(n: Bignum, n': Bignum, digits: nat, bits: nat)
    requires Valid(n) && Negative(n) && Valid(n') && Value(n') == -1 - Value(n) && Len(n') <= Len(n)
    requires digits < Len(n) && bits < 62 && (Value(n) < -1 ==> Padded(n', Len(n))) && (Value(n) == -1 ==> bits == 0)
    ensures CanShift(n', digits, bits)
  {
    MagnitudeBounds(n);
    MagnitudeBounds(n');
    hide Val, Pow;
    if Len(n') < Len(n) {
      if Len(n') < Len(n) - 1 { PowMonotone(Len(n') + 1, Len(n) - 1); PowStep(Len(n')); }
      assert Len(n') == Len(n) - 1;
    }
    if Value(n) == -1 { ZeroLength(n'); OneLength(n); }
  }

  lemma ZeroLength(b: Bignum)
    requires Valid(b) && Value(b) == 0
    ensures Len(b) == 0
  {
    MagnitudeBounds(b);
  }

  lemma OneLength(b: Bignum)
    requires Valid(b) && Magnitude(b) == 1
    ensures Len(b) == 1
  {
    assert Pow(0) == 1;
    hide Val, Pow;
    MagnitudeBounds(b);
    LengthBound(b, 0);
  }

  /** The case of a negative number: shift the complement. */
  method ShiftRightNegative(n: Bignum, digits: nat, bits: nat) returns (r: Bignum)
    requires Valid(n) && Negative(n) && digits < Len(n) < LENGTH_MAX && bits < 62 && (Value(n) == -1 ==> bits == 0)
    ensures Valid(r) && Value(r) == Value(n) / Pow2(62 * digits + bits)
  {
    hide Val, Pow, Pow2;
    var n' := Not(n);
    ComplementCanShift(n, n', digits, bits);
    FloorOfNegative(Value(n), Pow2(62 * digits + bits));
    ghost var q := Value(n) / Pow2(62 * digits + bits);
    r := ShiftRightUnsigned(n', digits, bits);
    assert Value(r) == -1 - q;
    r := Not(r);
  }

  /** bignum_shift_right: the floor of n / 2^m.  The bignum -1, which is never made because it is a
      fixnum, may not be shifted by less than a digit. */
  method ShiftRight(n: Bignum, m: nat) returns (r: Bignum)
    requires Valid(n) && Len(n) < LENGTH_MAX && (Value(n) == -1 ==> m % 62 == 0 || m >= 62)
    ensures Valid(r) && Value(r) == Value(n) / Pow2(m)
  {
    hide Val, Pow, Pow2;
    var digits, bits := m / 62, m % 62;
    assert 62 * digits + bits == m;
    MagnitudeBounds(n);
    if digits >= Len(n) {
      AllShiftedOut(n, m);
      if Negative(n) { r := MakeOne(true); } else { r := MakeZero(); }
      return;
    }
    if Negative(n) {
      if Value(n) == -1 { OneLength(n); }
      r := ShiftRightNegative(n, digits, bits);
    } else {
      r := ShiftRightUnsigned(n, digits, bits);
    }
  }
}
