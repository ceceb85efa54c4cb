/** The bitwise operators: infinite two's complement over sign and magnitude. */
module BignumBitwise {
  import opened Arith
  import opened Bits
  import opened BignumDigits
  import opened BignumRepr
  import opened BignumAdd
  import opened BignumScaling

  datatype Operator = BAnd | BAndC2 | BAndC1 | BXor | BIor | BNor | BEqv | BOrC2 | BOrC1 | BNand

  /** The truth tables of the ten operators. */
  predicate Truth(op: Operator, a: bool, b: bool) {
    match op
    case BAnd => a && b
    case BAndC2 => a && !b
    case BAndC1 => !a && b
    case BXor => a != b
    case BIor => a || b
    case BNor => !(a || b)
    case BEqv => a == b
    case BOrC2 => a || !b
    case BOrC1 => !a || b
    case BNand => !(a && b)
  }

  /** z is the result of the operator on the two's-complement bits of x and y. */
  ghost predicate IsBitwise(op: Operator, x: int, y: int, z: int) {
    forall i: nat :: Bit(z, i) == Truth(op, Bit(x, i), Bit(y, i))
  }

  /** An integer is determined by its bits, so IsBitwise determines the result. */
  lemma {:induction false} BitsDetermine(x: int, y: int)
    requires forall i: nat :: Bit(x, i) == Bit(y, i)
    ensures x == y
    decreases if x < 0 then -1 - x else x, if y < 0 then -1 - y else y
  {
    LowBit(x);
    LowBit(y);
    assert Bit(x, 0) == Bit(y, 0);
    if -1 <= x <= 0 && -1 <= y <= 0 {
    } else {
      forall i: nat ensures Bit(x / 2, i) == Bit(y / 2, i) {
        HalfBit(x, i + 1);
        HalfBit(y, i + 1);
        assert Bit(x, i + 1) == Bit(y, i + 1);
      }
      BitsDetermine(x / 2, y / 2);
    }
  }

  /** The operators on numbers, in terms of the bitwise conjunction a of x and y. */
  function NumberOf(op: Operator, x: int, y: int, a: int): int {
    match op
    case BAnd => a
    case BAndC2 => x - a
    case BAndC1 => y - a
    case BXor => x + y - 2 * a
    case BIor => x + y - a
    case BNor => -1 - (x + y - a)
    case BEqv => -1 - (x + y - 2 * a)
    case BOrC2 => -1 - (y - a)
    case BOrC1 => -1 - (x - a)
    case BNand => -1 - a
  }

  lemma NumberStep(op: Operator, x: int, y: int, a: int, z: int)
    requires (a % 2 == 1) == (x % 2 == 1 && y % 2 == 1) && (z % 2 == 1) == Truth(op, x % 2 == 1, y % 2 == 1)
    requires z / 2 == NumberOf(op, x / 2, y / 2, a / 2)
    ensures z == NumberOf(op, x, y, a)
  {}

  lemma {:induction false} BitwiseNumber(op: Operator, x: int, y: int, a: int, z: int)
    requires IsBitwise(BAnd, x, y, a) && IsBitwise(op, x, y, z)
    ensures z == NumberOf(op, x, y, a)
    decreases if x < 0 then -1 - x else x, if y < 0 then -1 - y else y
  {
    hide IsBitwise, NumberOf;
    if -1 <= x <= 0 && -1 <= y <= 0 {
      SignNumber(op, x, y, a, z);
    } else {
      LowBits(BAnd, x, y, a);
      LowBits(op, x, y, z);
      BitwiseNumber(op, x / 2, y / 2, a / 2, z / 2);
      NumberStep(op, x, y, a, z);
    }
  }

  lemma SignNumber(op: Operator, x: int, y: int, a: int, z: int)
    requires IsBitwise(BAnd, x, y, a) && IsBitwise(op, x, y, z) && -1 <= x <= 0 && -1 <= y <= 0
    ensures z == NumberOf(op, x, y, a)
  {
    hide IsBitwise;
    SignBits(BAnd, x, y, a);
    SignBits(op, x, y, z);
  }

  /** What the operators mean for numbers: the disjunction is the sum without the conjunction a, the exclusive
      one the sum without twice a, and a complement is -1 less the number. */
  lemma OperatorLaw(op: Operator, x: int, y: int, a: int, z: int)
    requires IsBitwise(BAnd, x, y, a) && IsBitwise(op, x, y, z)
    ensures z ==
      match op
      case BAnd => a
      case BAndC2 => x - a
      case BAndC1 => y - a
      case BXor => x + y - 2 * a
      case BIor => x + y - a
      case BNor => -1 - (x + y - a)
      case BEqv => -1 - (x + y - 2 * a)
      case BOrC2 => -1 - (y - a)
      case BOrC1 => -1 - (x - a)
      case BNand => -1 - a
  {
    hide IsBitwise;
    BitwiseNumber(op, x, y, a, z);
  }

  /** The lowest bit of a bitwise result, and the others. */
  lemma LowBits(op: Operator, x: int, y: int, z: int)
    requires IsBitwise(op, x, y, z)
    ensures (z % 2 == 1) == Truth(op, x % 2 == 1, y % 2 == 1)
    ensures IsBitwise(op, x / 2, y / 2, z / 2)
  {
    hide Truth;
    LowBit(x);
    LowBit(y);
    LowBit(z);
    assert Bit(z, 0) == Truth(op, Bit(x, 0), Bit(y, 0));
    hide Bit;
    forall i: nat ensures Bit(z / 2, i) == Truth(op, Bit(x / 2, i), Bit(y / 2, i)) {
      HalfBit(x, i + 1);
      HalfBit(y, i + 1);
      HalfBit(z, i + 1);
      assert Bit(z, i + 1) == Truth(op, Bit(x, i + 1), Bit(y, i + 1));
    }
  }

  /** All bits of 0 are clear, and all bits of -1 are set. */
  lemma SignBits(op: Operator, x: int, y: int, z: int)
    requires IsBitwise(op, x, y, z) && -1 <= x <= 0 && -1 <= y <= 0
    ensures z == if Truth(op, x == -1, y == -1) then -1 else 0
  {
    hide Truth;
    var w := if Truth(op, x == -1, y == -1) then -1 else 0;
    ConstantBits();
    hide Bit;
    forall i: nat ensures Bit(z, i) == Bit(w, i) { assert Bit(z, i) == Truth(op, Bit(x, i), Bit(y, i)); }
    BitsDetermine(z, w);
  }

  /** The conjunction with a mask of k ones leaves the remainder by 2^k, also of a negative number. */
  lemma {:induction false} MaskLaw(x: int, k: nat, a: int)
    requires IsBitwise(BAnd, x, Pow2(k) - 1, a)
    ensures a == x % Pow2(k)
    decreases k
  {
    if k == 0 {
      forall i: nat ensures Bit(a, i) == Bit(0, i) {
        ConstantBits();
        assert Bit(a, i) == Truth(BAnd, Bit(x, i), Bit(0, i));
      }
      BitsDetermine(a, 0);
    } else {
      var m := Pow2(k - 1);
      LowBits(BAnd, x, Pow2(k) - 1, a);
      assert (Pow2(k) - 1) / 2 == m - 1 && (Pow2(k) - 1) % 2 == 1;
      MaskLaw(x / 2, k - 1, a / 2);
      DivDiv(x, 2, m);
    }
  }

  /** Complementing every bit. */
  lemma NotBit(x: int, i: nat)
    ensures Bit(-1 - x, i) == !Bit(x, i)
  {
    var p := Pow2(i);
    DivMod(x, p);
    MulDist(p, -1, -(x / p));
    MulNegate(p, x / p);
    DivIs(-1 - x, p, -1 - x / p, p - 1 - x % p);
  }

  /** The operator on the low k bits and on the rest. */
  lemma {:induction false} CombineSplit(op: Op, x: nat, y: nat, xh: nat, yh: nat, k: nat)
    requires x < Pow2(k) && y < Pow2(k)
    ensures x + Pow2(k) * xh >= 0 && y + Pow2(k) * yh >= 0
    ensures Combine(op, x + Pow2(k) * xh, y + Pow2(k) * yh) == Combine(op, x, y) + Pow2(k) * Combine(op, xh, yh)
    decreases k
  {
    if k == 0 {
      assert Combine(op, 0, 0) == 0;
    } else {
      ShiftedHalf(x, xh, k);
      ShiftedHalf(y, yh, k);
      var a, b, p := x + Pow2(k) * xh, y + Pow2(k) * yh, Pow2(k - 1);
      CombineSplit(op, x / 2, y / 2, xh, yh, k - 1);
      MulAssoc(2, p, Combine(op, xh, yh));
      hide Combine, Apply;
      CombineHalvesOf(op, a, b);
      CombineHalvesOf(op, x, y);
    }
  }

  lemma ShiftedHalf(x: nat, xh: nat, k: nat)
    requires k > 0
    ensures var a := x + Pow2(k) * xh; a >= 0 && a / 2 == x / 2 + Pow2(k - 1) * xh && a % 2 == x % 2
  {
    MulAssoc(2, Pow2(k - 1), xh);
    assert Pow2(k - 1) * xh >= 0;
  }

  lemma CombineHalvesOf(op: Op, x: nat, y: nat)
    ensures Combine(op, x, y) == 2 * Combine(op, x / 2, y / 2) + if Apply(op, x % 2 == 1, y % 2 == 1) then 1 else 0
  {
    assert Combine(op, 0, 0) == 0;
  }

  /** The digit of s at i, or zero above the top. */
  function DigitAt(s: seq<int>, i: nat): (d: nat) {
    if i < |s| && s[i] >= 0 then s[i] else 0
  }

  /** The low digits rs of the result are the operator applied to the digits of xs and ys. */
  ghost predicate Combined(op: Op, xs: seq<int>, ys: seq<int>, rs: seq<int>) {
    |rs| <= |xs| && forall i {:trigger rs[i]} :: 0 <= i < |rs| ==> rs[i] == Combine(op, DigitAt(xs, i), DigitAt(ys, i))
  }

  lemma CombinedStep(op: Op, xs: seq<int>, ys: seq<int>, rs: seq<int>)
    requires Digits(xs) && Digits(ys) && Combined(op, xs, ys, rs) && |rs| < |xs|
    ensures var d := Combine(op, xs[|rs|], DigitAt(ys, |rs|)); IsDigit(d) && Combined(op, xs, ys, rs + [d])
  {
    hide Combine;
    Pow2Word();
    CombineBound(op, xs[|rs|], DigitAt(ys, |rs|), 62);
  }

  /** Working digit by digit is working bit by bit. */
  lemma {:induction false} CombineDigits(op: Op, xs: seq<int>, ys: seq<int>, rs: seq<int>)
    requires Digits(xs) && Digits(ys) && Combined(op, xs, ys, rs) && |ys| <= |xs| == |rs|
    ensures Val(xs) >= 0 && Val(ys) >= 0 && Digits(rs) && Val(rs) == Combine(op, Val(xs), Val(ys))
    decreases |xs|
  {
    ValBound(xs);
    ValBound(ys);
    if xs == [] {
      assert Combine(op, 0, 0) == 0;
    } else {
      var yt := if ys == [] then [] else ys[1..];
      assert Combined(op, xs[1..], yt, rs[1..]) by {
        forall i | 0 <= i < |rs| - 1 ensures rs[1..][i] == Combine(op, DigitAt(xs[1..], i), DigitAt(yt, i)) {
          assert rs[i + 1] == Combine(op, DigitAt(xs, i + 1), DigitAt(ys, i + 1));
        }
      }
      CombineDigits(op, xs[1..], yt, rs[1..]);
      ValParts(xs);
      ValParts(rs);
      if ys != [] { ValParts(ys); }
      DigitsStep(op, xs[0], DigitAt(ys, 0), Val(xs[1..]), Val(yt));
    }
  }

  lemma ValParts(s: seq<int>)
    requires s != []
    ensures Val(s) == s[0] + RADIX * Val(s[1..])
    ensures IsDigit(s[0]) && Digits(s[1..]) ==> Digits(s)
  {
    assert forall i :: 0 <= i < |s| ==> s[i] == if i == 0 then s[0] else s[1..][i - 1];
  }

  lemma DigitsStep(op: Op, x: nat, y: nat, xh: nat, yh: nat)
    requires IsDigit(x) && IsDigit(y)
    ensures Combine(op, x + RADIX * xh, y + RADIX * yh) == Combine(op, x, y) + RADIX * Combine(op, xh, yh)
    ensures IsDigit(Combine(op, x, y))
  {
    hide Combine, Pow2;
    Pow2Word();
    CombineBound(op, x, y, 62);
    CombineSplit(op, x, y, xh, yh, 62);
  }

  function Commuted(op: Op): Op {
    match op
    case AndC2 => AndC1
    case AndC1 => AndC2
    case _ => op
  }

  lemma {:induction false} CommutedCombine(op: Op, x: nat, y: nat)
    ensures Combine(Commuted(op), y, x) == Combine(op, x, y)
    decreases x + y
  {
    if x != 0 || y != 0 { CommutedCombine(op, x / 2, y / 2); }
  }

  /** The two loops of DEFINE_BITWISE_UNSIGNED. */
  method CombineLoops(op: Op, x: Bignum, y: Bignum, r: Bignum)
    requires Valid(x) && Valid(y) && Len(y) <= Len(x) && Shaped(r) && Len(r) == Len(x) && r != x && r != y
    modifies r
    ensures r[0] == old(r[0]) && Shaped(r) && Len(r) == Len(x)
    ensures Combined(op, DigitsOf(x), DigitsOf(y), DigitsOf(r))
  {
    hide Val, Pow, Combine, Combined;
    ghost var xs, ys := DigitsOf(x), DigitsOf(y);
    var scan := 1;
    assert Combined(op, xs, ys, r[1..scan]) by { CombinedStart(op, xs, ys); assert r[1..scan] == []; }
    while scan < 1 + Len(y)
      invariant 1 <= scan <= 1 + Len(y) && r[0] == old(r[0]) && Combined(op, xs, ys, r[1..scan])
    {
      assert x[scan] == xs[scan - 1] && y[scan] == ys[scan - 1];
      CombineNext(op, x[scan], y[scan], xs, ys, r, scan);
      scan := scan + 1;
    }
    while scan < 1 + Len(x)
      invariant 1 + Len(y) <= scan <= 1 + Len(x) && r[0] == old(r[0]) && Combined(op, xs, ys, r[1..scan])
    {
      assert x[scan] == xs[scan - 1];
      CombineNext(op, x[scan], 0, xs, ys, r, scan);
      scan := scan + 1;
    }
    assert DigitsOf(r) == r[1..scan];
  }

  lemma CombinedStart(op: Op, xs: seq<int>, ys: seq<int>)
    ensures Combined(op, xs, ys, [])
  {}

  /** Write one digit. */
  method CombineNext(op: Op, x: Word, y: Word, ghost xs: seq<int>, ghost ys: seq<int>, r: Bignum, scan: nat)
    requires Digits(xs) && Digits(ys) && 1 <= scan <= |xs| && scan < r.Length
    requires x == xs[scan - 1] && y == DigitAt(ys, scan - 1) && Combined(op, xs, ys, r[1..scan])
    modifies r
    ensures r[0] == old(r[0]) && Combined(op, xs, ys, r[1..scan + 1])
  {
    hide Val, Pow, Combine, Combined;
    ghost var rs := r[1..scan];
    CombinedStep(op, xs, ys, rs);
    r[scan] := Combine(op, x, y);
    assert r[1..scan + 1] == rs + [r[scan]];
  }

  /** DEFINE_BITWISE_UNSIGNED without the final complement. */
  method CombineUnsigned(op: Op, x: Bignum, y: Bignum) returns (r: Bignum)
    requires Valid(x) && Valid(y)
    ensures Magnitude(x) >= 0 && Magnitude(y) >= 0
    ensures fresh(r) && Valid(r) && Value(r) == Combine(op, Magnitude(x), Magnitude(y))
    ensures Len(r) <= Len(x) || Len(r) <= Len(y)
    decreases if Len(x) < Len(y) then 1 else 0
  {
    hide Val, Pow, Combine, Combined;
    if Len(x) < Len(y) {
      r := CombineUnsigned(Commuted(op), y, x);
      CommutedCombine(op, Magnitude(x), Magnitude(y));
      return;
    }
    r := Allocate(Len(x), false);
    CombineLoops(op, x, y, r);
    CombineDigits(op, DigitsOf(x), DigitsOf(y), DigitsOf(r));
    r := Trim(r);
  }

  /** How the macro DEFINE_BITWISE finishes when one argument is zero. */
  datatype Shortcut = Zero | MinusOne | Argument | NotArgument

  /** The arguments of DEFINE_BITWISE: the results for a zero argument, and the unsigned operators
      for each combination of signs, applied to complemented negative arguments. */
  datatype Row = Row(x0: Shortcut, y0: Shortcut, pp: Operator, pn: Operator, np: Operator, nn: Operator)

  function RowOf(op: Operator): Row {
    match op
    case BAnd => Row(Zero, Zero, BAnd, BAndC2, BAndC1, BNor)
    case BAndC2 => Row(Argument, Zero, BAndC2, BAnd, BNor, BAndC1)
    case BAndC1 => Row(Zero, Argument, BAndC1, BNor, BAnd, BAndC2)
    case BXor => Row(Argument, Argument, BXor, BEqv, BEqv, BXor)
    case BIor => Row(Argument, Argument, BIor, BOrC2, BOrC1, BNand)
    case BNor => Row(NotArgument, NotArgument, BNor, BAndC1, BAndC2, BAnd)
    case BEqv => Row(NotArgument, NotArgument, BEqv, BXor, BXor, BEqv)
    case BOrC2 => Row(MinusOne, NotArgument, BOrC2, BIor, BNand, BOrC1)
    case BOrC1 => Row(NotArgument, MinusOne, BOrC1, BNand, BIor, BOrC2)
    case BNand => Row(MinusOne, MinusOne, BNand, BOrC1, BOrC2, BIor)
  }

  function ShortcutBit(s: Shortcut, a: bool): bool {
    match s
    case Zero => false
    case MinusOne => true
    case Argument => a
    case NotArgument => !a
  }

  /** Every row of the table agrees with its operator's truth table. */
  lemma RowCorrect(op: Operator, a: bool, b: bool)
    ensures var row := RowOf(op);
      && Truth(op, a, b) == Truth(row.pp, a, b) == Truth(row.pn, a, !b) == Truth(row.np, !a, b) == Truth(row.nn, !a, !b)
      && Truth(op, a, false) == ShortcutBit(row.x0, a)
      && Truth(op, false, b) == ShortcutBit(row.y0, b)
  {
    match op { case _ => }
  }

  /** The machine operator and whether the result is complemented, for the unsigned operators. */
  function Kernel(op: Operator): (Op, bool) {
    match op
    case BAnd => (And, false)
    case BAndC2 => (AndC2, false)
    case BAndC1 => (AndC1, false)
    case BXor => (Xor, false)
    case BIor => (Ior, false)
    case BNor => (Ior, true)
    case BEqv => (Xor, true)
    case BOrC2 => (AndC1, true)
    case BOrC1 => (AndC2, true)
    case BNand => (And, true)
  }

  lemma KernelCorrect(op: Operator, x: nat, y: nat)
    ensures var z := Combine(Kernel(op).0, x, y);
      IsBitwise(op, x, y, if Kernel(op).1 then -1 - z else z)
  {
    var z: int := Combine(Kernel(op).0, x, y);
    hide Combine, Bit;
    forall i: nat ensures Bit(if Kernel(op).1 then -1 - z else z, i) == Truth(op, Bit(x, i), Bit(y, i)) {
      CombineBit(Kernel(op).0, x, y, i);
      NotBit(z, i);
    }
  }

  /** A number below RADIX^n has at most n digits. */
  lemma LengthBound(b: Bignum, n: nat)
    requires Valid(b) && Magnitude(b) <= Pow(n)
    ensures Len(b) <= n + 1
    ensures Magnitude(b) < Pow(n) ==> Len(b) <= n
  {
    hide Val, Pow;
    MagnitudeBounds(b);
    if Len(b) > n + 1 {
      PowMonotone(n + 1, Len(b) - 1);
      PowStep(n);
    }
    if Len(b) > n { PowMonotone(n, Len(b) - 1); }
  }

  lemma PowStep(n: nat)
    ensures Pow(n) < Pow(n + 1)
  {}

  /** bignum_bitwise_not. */
  method Not(x: Bignum) returns (r: Bignum)
    requires Valid(x) && Len(x) < LENGTH_MAX
    ensures Valid(r) && Value(r) == -1 - Value(x) && Len(r) <= Len(x) + 1
    ensures Negative(x) ==> Len(r) <= Len(x)
    ensures Value(x) < -1 ==> Padded(r, Len(x))
  {
    hide Val, Pow;
    var minusOne := MakeOne(true);
    r := Subtract(minusOne, x);
    MagnitudeBounds(x);
    MagnitudeBounds(r);
    LengthBound(r, Len(x));
  }

  /** The unsigned operators. */
  method BitwiseUnsigned(op: Operator, x: Bignum, y: Bignum) returns (r: Bignum)
    requires Valid(x) && Valid(y) && !Negative(x) && !Negative(y) && Len(x) + 1 < LENGTH_MAX && Len(y) + 1 < LENGTH_MAX
    ensures Valid(r) && IsBitwise(op, Value(x), Value(y), Value(r))
    decreases if op == BOrC2 || op == BOrC1 then 2 else 0
  {
    hide Val, Pow, Combine, IsBitwise;
    if op == BOrC2 {
      r := Bitwise(BAndC1, x, y);
      r := ComplementOf(BAndC1, op, x, y, r);
    } else if op == BOrC1 {
      r := Bitwise(BAndC2, x, y);
      r := ComplementOf(BAndC2, op, x, y, r);
    } else {
      r := KernelUnsigned(op, x, y);
    }
  }

  /** The unsigned operators that the macro DEFINE_BITWISE_UNSIGNED defines. */
  method KernelUnsigned(op: Operator, x: Bignum, y: Bignum) returns (r: Bignum)
    requires Valid(x) && Valid(y) && !Negative(x) && !Negative(y) && Len(x) + 1 < LENGTH_MAX && Len(y) + 1 < LENGTH_MAX
    ensures Valid(r) && IsBitwise(op, Value(x), Value(y), Value(r))
  {
    hide Val, Pow, Combine, IsBitwise;
    r := CombineUnsigned(Kernel(op).0, x, y);
    MagnitudeBounds(x);
    MagnitudeBounds(y);
    KernelCorrect(op, Magnitude(x), Magnitude(y));
    if Kernel(op).1 {
      r := Not(r);
    }
  }

  /** The complement of the result of an operator without a final complement. */
  method ComplementOf(op: Operator, op': Operator, x: Bignum, y: Bignum, z: Bignum) returns (r: Bignum)
    requires Valid(x) && Valid(y) && Valid(z) && !Negative(x) && !Negative(y) && Len(x) < LENGTH_MAX &&
      Len(y) < LENGTH_MAX
    requires IsBitwise(op, Value(x), Value(y), Value(z)) && !Kernel(op).1
    requires forall a, b :: Truth(op', a, b) == !Truth(op, a, b)
    ensures Valid(r) && IsBitwise(op', Value(x), Value(y), Value(r))
  {
    hide Val, Pow, Combine, IsBitwise;
    OrComplement(op, op', Value(x), Value(y), Value(z));
    BitwiseLength(z, op, x, y);
    r := Not(z);
  }

  lemma OrComplement(op: Operator, op': Operator, x: int, y: int, z: int)
    requires IsBitwise(op, x, y, z) && forall a, b :: Truth(op', a, b) == !Truth(op, a, b)
    ensures IsBitwise(op', x, y, -1 - z)
  {
    forall i: nat ensures Bit(-1 - z, i) == Truth(op', Bit(x, i), Bit(y, i)) {
      NotBit(z, i);
      assert Bit(z, i) == Truth(op, Bit(x, i), Bit(y, i));
    }
  }

  /** The unsigned result is not longer than its arguments. */
  lemma BitwiseLength(r: Bignum, op: Operator, x: Bignum, y: Bignum)
    requires Valid(r) && Valid(x) && Valid(y) && !Negative(x) && !Negative(y) && !Kernel(op).1
    requires IsBitwise(op, Value(x), Value(y), Value(r))
    ensures Len(r) <= Len(x) || Len(r) <= Len(y)
  {
    hide Val, Pow, Combine, Bit, Truth, Kernel;
    MagnitudeBounds(x);
    MagnitudeBounds(y);
    var m, n := Magnitude(x), Magnitude(y);
    KernelCorrect(op, m, n);
    var z := Combine(Kernel(op).0, m, n);
    forall i: nat ensures Bit(z, i) == Bit(Value(r), i) {
      assert Bit(z, i) == Truth(op, Bit(m, i), Bit(n, i));
      assert Bit(Value(r), i) == Truth(op, Bit(Value(x), i), Bit(Value(y), i));
    }
    BitsDetermine(z, Value(r));
    var k := if Len(x) < Len(y) then Len(y) else Len(x);
    PowMonotone(Len(x), k);
    PowMonotone(Len(y), k);
    PowIsPow2(k);
    CombineBound(Kernel(op).0, m, n, 62 * k);
    LengthBound(r, k);
  }

  lemma {:induction false} PowIsPow2(n: nat)
    ensures Pow(n) == Pow2(62 * n)
  {
    if n > 0 {
      PowIsPow2(n - 1);
      Pow2Add(62, 62 * (n - 1));
      Pow2Word();
    }
  }

  method ShortcutResult(s: Shortcut, x: Bignum) returns (r: Bignum)
    requires Valid(x) && Len(x) < LENGTH_MAX
    ensures Valid(r) && IsShortcut(s, Value(x), Value(r))
  {
    hide Val, Pow, Bit;
    match s {
      case Zero =>
        r := MakeZero();
        ConstantBits();
      case MinusOne =>
        r := MakeOne(true);
        ConstantBits();
      case Argument =>
        r := x;
      case NotArgument =>
        r := Not(x);
        forall i: nat ensures Bit(Value(r), i) == !Bit(Value(x), i) { NotBit(Value(x), i); }
    }
  }

  lemma ConstantBits()
    ensures forall i: nat :: !Bit(0, i) && Bit(-1, i)
  {
    forall i: nat ensures !Bit(0, i) && Bit(-1, i) {
      assert 0 / Pow2(i) == 0;
      NotBit(0, i);
    }
  }

  /** The number itself, or its complement if it is negative. */
  method Unsigned(x: Bignum) returns (r: Bignum)
    requires Valid(x) && Len(x) < LENGTH_MAX
    ensures Valid(r) && !Negative(r) && Len(r) <= Len(x) && Value(r) == Complemented(Negative(x), Value(x))
  {
    hide Val, Pow;
    MagnitudeBounds(x);
    if Negative(x) {
      r := Not(x);
      MagnitudeBounds(r);
    } else {
      r := x;
    }
  }

  /** The unsigned operator for the signs of the arguments. */
  function SignedKernel(op: Operator, xNegative: bool, yNegative: bool): Operator {
    var row := RowOf(op);
    if !xNegative then (if !yNegative then row.pp else row.pn) else if !yNegative then row.np else row.nn
  }

  function Complemented(negative: bool, x: int): int {
    if negative then -1 - x else x
  }

  /** Complementing the negative arguments is what the choice of the unsigned operator makes up for. */
  lemma SignedKernelCorrect(op: Operator, xNegative: bool, yNegative: bool, x: int, y: int, z: int)
    requires IsBitwise(SignedKernel(op, xNegative, yNegative), Complemented(xNegative, x), Complemented(yNegative, y),
                       z)
    ensures IsBitwise(op, x, y, z)
  {
    hide Bit, Truth;
    forall i: nat ensures Bit(z, i) == Truth(op, Bit(x, i), Bit(y, i)) {
      RowCorrect(op, Bit(x, i), Bit(y, i));
      NotBit(x, i);
      NotBit(y, i);
    }
  }

  /** s gives the result when the other argument is zero. */
  ghost predicate IsShortcut(s: Shortcut, x: int, z: int) {
    forall i: nat :: Bit(z, i) == ShortcutBit(s, Bit(x, i))
  }

  lemma ShortcutCorrect(op: Operator, x: int, z: int)
    ensures IsShortcut(RowOf(op).y0, x, z) ==> IsBitwise(op, 0, x, z)
    ensures IsShortcut(RowOf(op).x0, x, z) ==> IsBitwise(op, x, 0, z)
  {
    hide Bit, Truth, ShortcutBit;
    ConstantBits();
    forall i: nat
      ensures Truth(op, false, Bit(x, i)) == ShortcutBit(RowOf(op).y0, Bit(x, i))
      ensures Truth(op, Bit(x, i), false) == ShortcutBit(RowOf(op).x0, Bit(x, i))
    {
      RowCorrect(op, false, Bit(x, i));
      RowCorrect(op, Bit(x, i), false);
    }
  }

  /** The ten exported operators: the bit-by-bit operation on the infinite two's complement. */
  method Bitwise(op: Operator, x: Bignum, y: Bignum) returns (r: Bignum)
    requires Valid(x) && Valid(y) && Len(x) + 1 < LENGTH_MAX && Len(y) + 1 < LENGTH_MAX
    ensures Valid(r) && IsBitwise(op, Value(x), Value(y), Value(r))
    decreases if op == BIor || op == BOrC2 || op == BOrC1 || op == BNand then 3 else 1
  {
    hide Val, Pow, IsBitwise, IsShortcut;
    MagnitudeBounds(x);
    MagnitudeBounds(y);
    if IsZero(x) {
      r := ShortcutResult(RowOf(op).y0, y);
      ShortcutCorrect(op, Value(y), Value(r));
      return;
    }
    if IsZero(y) {
      r := ShortcutResult(RowOf(op).x0, x);
      ShortcutCorrect(op, Value(x), Value(r));
      return;
    }
    var x' := Unsigned(x);
    var y' := Unsigned(y);
    r := BitwiseUnsigned(SignedKernel(op, Negative(x), Negative(y)), x', y');
    SignedKernelCorrect(op, Negative(x), Negative(y), Value(x), Value(y), Value(r));
  }

  /** The result is the only integer with these bits. */
  lemma BitwiseUnique(op: Operator, x: int, y: int, z: int, z': int)
    requires IsBitwise(op, x, y, z) && IsBitwise(op, x, y, z')
    ensures z == z'
  {
    hide Bit, Truth;
    forall i: nat ensures Bit(z, i) == Bit(z', i) { assert Bit(z, i) == Truth(op, Bit(x, i), Bit(y, i)); }
    BitsDetermine(z, z');
  }
}
