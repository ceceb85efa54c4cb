/** Comparison, addition, subtraction and negation. */
module BignumAdd {
  import opened Arith
  import opened BignumDigits
  import opened BignumRepr

  /** One step of a digit loop with carry c: the digit d and the next carry c' stand for e + c. */
  lemma Ripple(rs: seq<int>, c: int, d: int, c': int, e: int)
    requires d + RADIX * c' == e + c
    ensures Val(rs + [d]) + Pow(|rs| + 1) * c' == Val(rs) + Pow(|rs|) * c + Pow(|rs|) * e
  {
    ValSnoc(rs, d);
    Redistribute(Pow(|rs|), RADIX, c, d, c', e);
  }

  lemma ValAt(s: seq<int>, k: nat)
    requires Digits(s) && k < |s|
    ensures Val(s) == Val(s[..k]) + Pow(k) * s[k] + Pow(k + 1) * Val(s[k + 1..])
    ensures 0 <= Val(s[..k]) < Pow(k)
  {
    hide Val, Pow;
    ValSplit(s, k + 1);
    assert s[..k + 1] == s[..k] + [s[k]];
    ValSnoc(s[..k], s[k]);
    ValBound(s[..k]);
  }

  /** The highest digit where two numbers differ decides. */
  lemma CompareAt(s: seq<int>, t: seq<int>, k: nat)
    requires Digits(s) && Digits(t) && |s| == |t| && k < |s| && s[k] < t[k]
    requires s[k + 1..] == t[k + 1..]
    ensures Val(s) < Val(t)
  {
    hide Val, Pow;
    ValAt(s, k);
    ValAt(t, k);
    MulGap(Pow(k), s[k], t[k]);
  }

  /** A shorter number is smaller. */
  lemma CompareLengths(x: Bignum, y: Bignum)
    requires Valid(x) && Valid(y) && Len(x) < Len(y)
    ensures Magnitude(x) < Magnitude(y)
  {
    MagnitudeBounds(x);
    MagnitudeBounds(y);
    PowMonotone(Len(x), Len(y) - 1);
  }

  /** Compare the magnitudes. */
  method CompareUnsigned(x: Bignum, y: Bignum) returns (c: Comparison)
    requires Valid(x) && Valid(y)
    ensures c == Compared(Magnitude(x), Magnitude(y))
  {
    if Len(x) < Len(y) {
      CompareLengths(x, y);
      return Less;
    }
    if Len(x) > Len(y) {
      CompareLengths(y, x);
      return Greater;
    }
    ghost var xs, ys := DigitsOf(x), DigitsOf(y);
    var scan := Len(x);
    while 0 < scan
      invariant 0 <= scan <= Len(x)
      invariant xs[scan..] == ys[scan..]
    {
      scan := scan - 1;
      var digitX, digitY := x[1 + scan], y[1 + scan];
      assert digitX == xs[scan] && digitY == ys[scan];
      if digitX < digitY {
        CompareAt(xs, ys, scan);
        return Less;
      }
      if digitX > digitY {
        CompareAt(ys, xs, scan);
        return Greater;
      }
      assert xs[scan..] == [digitX] + xs[scan + 1..] && ys[scan..] == [digitY] + ys[scan + 1..];
    }
    assert xs[0..] == xs && ys[0..] == ys;
    c := Equal;
  }

  function Compared(m: int, n: int): Comparison {
    if m < n then Less else if m == n then Equal else Greater
  }

  /** Compare two integers. */
  method Compare(x: Bignum, y: Bignum) returns (c: Comparison)
    requires Valid(x) && Valid(y)
    ensures c == Compared(Value(x), Value(y))
    ensures (c == Less <==> Value(x) < Value(y)) && (c == Greater <==> Value(x) > Value(y))
  {
    MagnitudeBounds(x);
    MagnitudeBounds(y);
    if IsZero(x) {
      c := if IsZero(y) then Equal else if Negative(y) then Greater else Less;
    } else if IsZero(y) {
      c := if Negative(x) then Less else Greater;
    } else if Negative(x) {
      if Negative(y) { c := CompareUnsigned(y, x); } else { c := Less; }
    } else {
      if Negative(y) { c := Greater; } else { c := CompareUnsigned(x, y); }
    }
  }

  method EqualUnsigned(x: Bignum, y: Bignum) returns (same: bool)
    requires Valid(x) && Valid(y)
    ensures same == (Magnitude(x) == Magnitude(y))
  {
    if Len(x) != Len(y) {
      if Len(x) < Len(y) { CompareLengths(x, y); } else { CompareLengths(y, x); }
      return false;
    }
    var scan := 1;
    ghost var xs, ys := DigitsOf(x), DigitsOf(y);
    while scan < 1 + Len(x)
      invariant 1 <= scan <= 1 + Len(x)
      invariant xs[..scan - 1] == ys[..scan - 1]
    {
      assert x[scan] == xs[scan - 1] && y[scan] == ys[scan - 1];
      if x[scan] != y[scan] {
        if Magnitude(x) == Magnitude(y) { ValInjective(xs, ys); }
        return false;
      }
      assert xs[..scan] == xs[..scan - 1] + [x[scan]] && ys[..scan] == ys[..scan - 1] + [y[scan]];
      scan := scan + 1;
    }
    assert xs[..Len(x)] == xs && ys[..Len(x)] == ys;
    same := true;
  }

  method EqualP(x: Bignum, y: Bignum) returns (same: bool)
    requires Valid(x) && Valid(y)
    ensures same == (Value(x) == Value(y))
  {
    MagnitudeBounds(x);
    MagnitudeBounds(y);
    if IsZero(x) {
      same := IsZero(y);
    } else if IsZero(y) || Negative(x) != Negative(y) {
      same := false;
    } else {
      same := EqualUnsigned(x, y);
    }
  }

  /** Copy the digits of source to the low end of target. */
  method DestructiveCopy(source: Bignum, target: Bignum)
    requires Shaped(source) && Shaped(target) && source != target && Len(source) <= Len(target)
    modifies target
    ensures target[0] == old(target[0]) && Shaped(target) && Len(target) == old(Len(target)) &&
      Negative(target) == old(Negative(target))
    ensures DigitsOf(target)[..Len(source)] == DigitsOf(source)
    ensures DigitsOf(target)[Len(source)..] == old(DigitsOf(target)[Len(source)..])
  {
    var scan := 1;
    while scan < 1 + Len(source)
      invariant 1 <= scan <= 1 + Len(source)
      invariant forall i :: 1 <= i < scan ==> target[i] == source[i]
      invariant forall i :: 0 <= i < target.Length && !(1 <= i < scan) ==> target[i] == old(target[i])
    {
      target[scan] := source[scan];
      scan := scan + 1;
    }
    assert forall i :: 0 <= i < Len(source) ==> DigitsOf(target)[..Len(source)][i] == DigitsOf(source)[i];
  }

  method NewSign(b: Bignum, negative: bool) returns (r: Bignum)
    requires Valid(b) && (negative ==> Len(b) > 0)
    ensures fresh(r) && Valid(r) && Len(r) == Len(b) && Negative(r) == negative && Magnitude(r) == Magnitude(b)
    ensures Value(r) == if negative then -Magnitude(b) else Magnitude(b)
  {
    r := Allocate(Len(b), negative);
    DestructiveCopy(b, r);
    assert DigitsOf(r)[..Len(b)] == DigitsOf(r);
    assert Len(b) > 0 ==> DigitsOf(r)[Len(b) - 1] == DigitsOf(b)[Len(b) - 1];
  }

  method MaybeNewSign(b: Bignum, negative: bool) returns (r: Bignum)
    requires Valid(b) && (negative ==> Len(b) > 0)
    ensures Valid(r) && Value(r) == if negative then -Magnitude(b) else Magnitude(b)
    ensures r == b || fresh(r)
  {
    if Negative(b) == negative {
      r := b;
    } else {
      r := NewSign(b, negative);
    }
  }

  lemma Prefix(s: seq<int>, i: nat)
    requires i < |s|
    ensures Val(s[..i + 1]) == Val(s[..i]) + Pow(i) * s[i]
  {
    hide Val, Pow;
    assert s[..i + 1] == s[..i] + [s[i]];
    ValSnoc(s[..i], s[i]);
  }

  /** The digits rs and the carry c are what adding t to the low digits of xs has given so far. */
  ghost predicate Running(xs: seq<int>, rs: seq<int>, c: int, t: int) {
    |rs| <= |xs| && Digits(rs) && Val(rs) + Pow(|rs|) * c == Val(xs[..|rs|]) + t
  }

  lemma RunningStart(xs: seq<int>)
    ensures Running(xs, [], 0, 0)
  {}

  /** One step of adding e, the next digit of some number, to the digits xs. */
  lemma RunningStep(xs: seq<int>, rs: seq<int>, c: int, t: int, d: int, c': int, e: int)
    requires Running(xs, rs, c, t) && |rs| < |xs| && IsDigit(d)
    requires d + RADIX * c' == xs[|rs|] + e + c
    ensures Running(xs, rs + [d], c', t + Pow(|rs|) * e)
  {
    hide Val, Pow;
    Ripple(rs, c, d, c', xs[|rs|] + e);
    Prefix(xs, |rs|);
    assert Pow(|rs|) * (xs[|rs|] + e) == Pow(|rs|) * xs[|rs|] + Pow(|rs|) * e;
  }

  lemma AddStep(xs: seq<int>, ys: seq<int>, rs: seq<int>, c: int, d: int, c': int)
    requires |rs| < |ys| <= |xs| && Running(xs, rs, c, Val(ys[..|rs|])) && IsDigit(d)
    requires d + RADIX * c' == xs[|rs|] + ys[|rs|] + c
    ensures Running(xs, rs + [d], c', Val(ys[..|rs| + 1]))
  {
    hide Val, Pow, Running;
    RunningStep(xs, rs, c, Val(ys[..|rs|]), d, c', ys[|rs|]);
    Prefix(ys, |rs|);
  }

  lemma SubtractStep(xs: seq<int>, ys: seq<int>, rs: seq<int>, c: int, d: int, c': int)
    requires |rs| < |ys| <= |xs| && Running(xs, rs, c, -Val(ys[..|rs|])) && IsDigit(d)
    requires d + RADIX * c' == xs[|rs|] - ys[|rs|] + c
    ensures Running(xs, rs + [d], c', -Val(ys[..|rs| + 1]))
  {
    hide Val, Pow, Running;
    RunningStep(xs, rs, c, -Val(ys[..|rs|]), d, c', -ys[|rs|]);
    Prefix(ys, |rs|);
    MulNegate(Pow(|rs|), ys[|rs|]);
  }

  /** Add the digits of y to the low digits of x. */
  method AddCommon(x: Bignum, y: Bignum, r: Bignum) returns (carry: int)
    requires Valid(x) && Valid(y) && Len(y) <= Len(x) && Len(x) + 1 < r.Length && r != x && r != y
    modifies r
    ensures r[0] == old(r[0]) && 0 <= carry <= 1
    ensures Running(DigitsOf(x), r[1..1 + Len(y)], carry, Magnitude(y))
  {
    hide Val, Pow, Running;
    ghost var xs, ys := DigitsOf(x), DigitsOf(y);
    carry := 0;
    var scan := 1;
    RunningStart(xs);
    assert r[1..1] == [] && Val(ys[..0]) == 0 by { ValZeroes(ys[..0]); }
    while scan < 1 + Len(y)
      invariant 1 <= scan <= 1 + Len(y) && 0 <= carry <= 1 && r[0] == old(r[0])
      invariant Running(xs, r[1..scan], carry, Val(ys[..scan - 1]))
    {
      ghost var rs, c := r[1..scan], carry;
      var sum: Word := x[scan] + y[scan] + carry;
      assert x[scan] == xs[scan - 1] && y[scan] == ys[scan - 1];
      if sum < RADIX {
        r[scan] := sum;
        carry := 0;
      } else {
        r[scan] := sum - RADIX;
        carry := 1;
      }
      assert r[1..scan + 1] == rs + [r[scan]];
      AddStep(xs, ys, rs, c, r[scan], carry);
      scan := scan + 1;
    }
    assert ys[..Len(y)] == ys;
  }

  /** Carry into the remaining digits of x from position `from` on. */
  method AddCarry(x: Bignum, r: Bignum, from: nat, carryIn: int, ghost t: int) returns (scan: nat, carry: int)
    requires Valid(x) && 1 <= from <= Len(x) + 1 < r.Length && r != x && 0 <= carryIn <= 1
    requires Running(DigitsOf(x), r[1..from], carryIn, t)
    modifies r
    ensures r[0] == old(r[0]) && 0 <= carry <= 1 && from <= scan <= Len(x) + 1
    ensures Running(DigitsOf(x), r[1..scan], carry, t) && (scan < Len(x) + 1 ==> carry == 0)
  {
    hide Val, Pow, Running;
    ghost var xs := DigitsOf(x);
    scan, carry := from, carryIn;
    if carry != 0 {
      while scan < 1 + Len(x)
        invariant from <= scan <= 1 + Len(x) && carry == 1 && r[0] == old(r[0])
        invariant Running(xs, r[1..scan], carry, t)
      {
        ghost var rs := r[1..scan];
        var sum: Word := x[scan] + 1;
        assert x[scan] == xs[scan - 1];
        if sum < RADIX {
          r[scan] := sum;
          assert r[1..scan + 1] == rs + [r[scan]];
          RunningStep(xs, rs, 1, t, r[scan], 0, 0);
          scan, carry := scan + 1, 0;
          break;
        } else {
          r[scan] := sum - RADIX;
        }
        assert r[1..scan + 1] == rs + [r[scan]];
        RunningStep(xs, rs, 1, t, r[scan], 1, 0);
        scan := scan + 1;
      }
    }
  }

  /** Copy the remaining digits of x. */
  method CopyRest(x: Bignum, r: Bignum, from: nat, ghost c: int, ghost t: int)
    requires Valid(x) && 1 <= from <= Len(x) + 1 <= r.Length && r != x
    requires Running(DigitsOf(x), r[1..from], c, t) && (from < Len(x) + 1 ==> c == 0)
    modifies r
    ensures r[0] == old(r[0]) && Running(DigitsOf(x), r[1..1 + Len(x)], c, t)
  {
    hide Val, Pow, Running;
    ghost var xs := DigitsOf(x);
    var scan := from;
    while scan < 1 + Len(x)
      invariant from <= scan <= 1 + Len(x) && r[0] == old(r[0])
      invariant Running(xs, r[1..scan], c, t)
    {
      ghost var rs := r[1..scan];
      r[scan] := x[scan];
      assert x[scan] == xs[scan - 1];
      assert r[1..scan + 1] == rs + [r[scan]];
      RunningStep(xs, rs, 0, t, r[scan], 0, 0);
      scan := scan + 1;
    }
  }

  /** The end of a loop over all digits of xs. */
  lemma RunningEnd(xs: seq<int>, rs: seq<int>, c: int, t: int)
    requires Running(xs, rs, c, t) && |rs| == |xs|
    ensures Digits(rs) && Val(rs) + Pow(|rs|) * c == Val(xs) + t
  {
    assert xs[..|xs|] == xs;
  }

  /** A sum is not shorter than its terms. */
  lemma SumTop(xs: seq<int>, t: int, rs: seq<int>)
    requires Digits(xs) && Digits(rs) && |rs| == |xs| > 0 && xs[|xs| - 1] > 0 && t >= 0
    requires Val(rs) == Val(xs) + t
    ensures rs[|rs| - 1] > 0
  {
    hide Val, Pow;
    var n := |rs| - 1;
    ValTop(xs);
    Prefix(rs, n);
    assert rs[..n + 1] == rs;
    ValBound(rs[..n]);
  }

  /** The result has one digit more than x if the sum carries out of it. */
  method FinishSum(x: Bignum, s: Bignum, carry: int, ghost t: int) returns (r: Bignum)
    requires Valid(x) && !IsZero(x) && Shaped(s) && Len(s) == Len(x) + 1 && s != x && 0 <= carry <= 1 && t >= 0
    requires Running(DigitsOf(x), s[1..1 + Len(x)], carry, t)
    modifies s
    ensures r == s && Valid(r) && Negative(r) == old(Negative(s)) && Magnitude(r) == Magnitude(x) + t
  {
    hide Val, Pow, Running;
    ghost var rs := s[1..1 + Len(x)];
    RunningEnd(DigitsOf(x), rs, carry, t);
    if carry != 0 {
      s[1 + Len(x)] := 1;
      assert DigitsOf(s) == rs + [1];
      ValSnoc(rs, 1);
      return s;
    }
    SumTop(DigitsOf(x), t, rs);
    assert DigitsOf(s)[..Len(x)] == rs;
    r := ShortenLength(s, Len(x));
    assert DigitsOf(r)[Len(x) - 1] == r[Len(x)];
  }

  method AddUnsigned(x0: Bignum, y0: Bignum, negative: bool) returns (r: Bignum)
    requires Valid(x0) && Valid(y0) && !IsZero(x0) && !IsZero(y0)
    requires Len(x0) < LENGTH_MAX && Len(y0) < LENGTH_MAX
    ensures fresh(r) && Valid(r) && Negative(r) == negative
    ensures Magnitude(r) == Magnitude(x0) + Magnitude(y0)
  {
    var x, y := x0, y0;
    if Len(y) > Len(x) {
      x, y := y, x;
    }
    r := Allocate(Len(x) + 1, negative);
    MagnitudeBounds(y);
    var carry := AddCommon(x, y, r);
    var scan;
    scan, carry := AddCarry(x, r, 1 + Len(y), carry, Magnitude(y));
    CopyRest(x, r, scan, carry, Magnitude(y));
    r := FinishSum(x, r, carry, Magnitude(y));
  }

  /** Subtract the digits of y from the low digits of x. */
  method SubtractCommon(x: Bignum, y: Bignum, r: Bignum) returns (borrow: int)
    requires Valid(x) && Valid(y) && Len(y) <= Len(x) < r.Length && r != x && r != y
    modifies r
    ensures r[0] == old(r[0]) && 0 <= borrow <= 1
    ensures Running(DigitsOf(x), r[1..1 + Len(y)], -borrow, -Magnitude(y))
  {
    hide Val, Pow, Running;
    ghost var xs, ys := DigitsOf(x), DigitsOf(y);
    borrow := 0;
    var scan := 1;
    RunningStart(xs);
    assert r[1..1] == [] && Val(ys[..0]) == 0 by { ValZeroes(ys[..0]); }
    while scan < 1 + Len(y)
      invariant 1 <= scan <= 1 + Len(y) && 0 <= borrow <= 1 && r[0] == old(r[0])
      invariant Running(xs, r[1..scan], -borrow, -Val(ys[..scan - 1]))
    {
      ghost var rs, c := r[1..scan], -borrow;
      var difference: Word := x[scan] - y[scan] - borrow;
      assert x[scan] == xs[scan - 1] && y[scan] == ys[scan - 1];
      if difference < 0 {
        r[scan] := difference + RADIX;
        borrow := 1;
      } else {
        r[scan] := difference;
        borrow := 0;
      }
      assert r[1..scan + 1] == rs + [r[scan]];
      SubtractStep(xs, ys, rs, c, r[scan], -borrow);
      scan := scan + 1;
    }
    assert ys[..Len(y)] == ys;
  }

  /** Borrow from the remaining digits of x. */
  method SubtractBorrow(x: Bignum, r: Bignum, from: nat, borrowIn: int, ghost t: int) returns (scan: nat, borrow: int)
    requires Valid(x) && 1 <= from <= Len(x) + 1 <= r.Length && r != x && 0 <= borrowIn <= 1
    requires Running(DigitsOf(x), r[1..from], -borrowIn, t)
    modifies r
    ensures r[0] == old(r[0]) && 0 <= borrow <= 1 && from <= scan <= Len(x) + 1
    ensures Running(DigitsOf(x), r[1..scan], -borrow, t) && (scan < Len(x) + 1 ==> borrow == 0)
  {
    hide Val, Pow, Running;
    ghost var xs := DigitsOf(x);
    scan, borrow := from, borrowIn;
    if borrow != 0 {
      while scan < 1 + Len(x)
        invariant from <= scan <= 1 + Len(x) && borrow == 1 && r[0] == old(r[0])
        invariant Running(xs, r[1..scan], -borrow, t)
      {
        ghost var rs := r[1..scan];
        var difference: Word := x[scan] - borrow;
        assert x[scan] == xs[scan - 1];
        if difference < 0 {
          r[scan] := difference + RADIX;
        } else {
          r[scan] := difference;
          assert r[1..scan + 1] == rs + [r[scan]];
          RunningStep(xs, rs, -1, t, r[scan], 0, 0);
          scan, borrow := scan + 1, 0;
          break;
        }
        assert r[1..scan + 1] == rs + [r[scan]];
        RunningStep(xs, rs, -1, t, r[scan], -1, 0);
        scan := scan + 1;
      }
    }
  }

  /** Subtracting a smaller number leaves no borrow. */
  lemma NoBorrow(xs: seq<int>, rs: seq<int>, borrow: int, t: int)
    requires Running(xs, rs, -borrow, -t) && t < Val(xs) && 0 <= borrow <= 1
    requires |rs| < |xs| ==> borrow == 0
    ensures borrow == 0
  {
    hide Val, Pow;
    if |rs| == |xs| {
      assert xs[..|xs|] == xs;
      ValBound(rs);
    }
  }

  /** The digits of the difference; the last borrow is zero. */
  method SubtractDigits(x: Bignum, y: Bignum, r: Bignum)
    requires Valid(x) && Valid(y) && Magnitude(x) > Magnitude(y) && Len(x) < r.Length && r != x && r != y
    modifies r
    ensures r[0] == old(r[0]) && Running(DigitsOf(x), r[1..1 + Len(x)], 0, -Magnitude(y))
  {
    hide Val, Pow, Running;
    if Len(x) < Len(y) { CompareLengths(x, y); }
    var borrow := SubtractCommon(x, y, r);
    var scan;
    scan, borrow := SubtractBorrow(x, r, 1 + Len(y), borrow, -Magnitude(y));
    NoBorrow(DigitsOf(x), r[1..scan], borrow, Magnitude(y));
    CopyRest(x, r, scan, borrow, -Magnitude(y));
  }

  /** Subtract the smaller magnitude from the larger one. */
  method SubtractLarger(x: Bignum, y: Bignum, negative: bool) returns (r: Bignum)
    requires Valid(x) && Valid(y) && Magnitude(x) > Magnitude(y)
    ensures fresh(r) && Valid(r) && Value(r) == if negative then Magnitude(y) - Magnitude(x)
      else Magnitude(x) - Magnitude(y)
    ensures Padded(r, Len(x))
  {
    hide Val, Pow, Running;
    MagnitudeBounds(x);
    MagnitudeBounds(y);
    r := Allocate(Len(x), negative);
    SubtractDigits(x, y, r);
    assert DigitsOf(r) == r[1..1 + Len(x)];
    RunningEnd(DigitsOf(x), DigitsOf(r), 0, -Magnitude(y));
    assert Pow(Len(r)) * 0 == 0;
    r := Trim(r);
  }

  method SubtractUnsigned(x: Bignum, y: Bignum) returns (r: Bignum)
    requires Valid(x) && Valid(y)
    ensures fresh(r) && Valid(r) && Value(r) == Magnitude(x) - Magnitude(y)
    ensures Magnitude(x) > Magnitude(y) ==> Padded(r, Len(x))
  {
    var c := CompareUnsigned(x, y);
    match c {
      case Equal => r := MakeZero();
      case Less => r := SubtractLarger(y, x, true);
      case Greater => r := SubtractLarger(x, y, false);
    }
  }

  method Add(x: Bignum, y: Bignum) returns (r: Bignum)
    requires Valid(x) && Valid(y) && Len(x) < LENGTH_MAX && Len(y) < LENGTH_MAX
    ensures Valid(r) && Value(r) == Value(x) + Value(y)
  {
    MagnitudeBounds(x);
    MagnitudeBounds(y);
    if IsZero(x) {
      r := y;
    } else if IsZero(y) {
      r := x;
    } else if Negative(x) {
      if Negative(y) { r := AddUnsigned(x, y, true); } else { r := SubtractUnsigned(y, x); }
    } else {
      if Negative(y) { r := SubtractUnsigned(x, y); } else { r := AddUnsigned(x, y, false); }
    }
  }

  method Subtract(x: Bignum, y: Bignum) returns (r: Bignum)
    requires Valid(x) && Valid(y) && Len(x) < LENGTH_MAX && Len(y) < LENGTH_MAX
    ensures Valid(r) && Value(r) == Value(x) - Value(y)
    ensures Value(y) < Value(x) < 0 ==> Padded(r, Len(y))
  {
    MagnitudeBounds(x);
    MagnitudeBounds(y);
    if IsZero(x) {
      if IsZero(y) { r := y; } else { r := NewSign(y, !Negative(y)); }
    } else if IsZero(y) {
      r := x;
    } else if Negative(x) {
      if Negative(y) { r := SubtractUnsigned(y, x); } else { r := AddUnsigned(x, y, true); }
    } else {
      if Negative(y) { r := AddUnsigned(x, y, false); } else { r := SubtractUnsigned(x, y); }
    }
  }

  method Negate(x: Bignum) returns (r: Bignum)
    requires Valid(x)
    ensures Valid(r) && Value(r) == -Value(x)
  {
    MagnitudeBounds(x);
    if IsZero(x) { r := x; } else { r := NewSign(x, !Negative(x)); }
  }
}
