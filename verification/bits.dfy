/** Bits of integers in infinite two's complement, and the machine's bitwise operators. */
module Bits {
  import opened Arith

  /** 1 << n. */
  function Pow2(n: nat): (p: int)
    ensures p > 0
  {
    if n == 0 then 1 else 2 * Pow2(n - 1)
  }

  lemma {:induction false} Pow2Add(m: nat, n: nat)
    ensures Pow2(m + n) == Pow2(m) * Pow2(n)
  {
    if m > 0 {
      Pow2Add(m - 1, n);
      MulAssoc(2, Pow2(m - 1), Pow2(n));
    }
  }

  lemma {:induction false} Pow2Monotone(m: nat, n: nat)
    requires m <= n
    ensures Pow2(m) <= Pow2(n)
    decreases n
  {
    if m < n { Pow2Monotone(m, n - 1); }
  }

  lemma Pow2Word()
    ensures Pow2(31) == 0x8000_0000 && Pow2(62) == 0x4000_0000_0000_0000
  {
    Pow2Add(8, 8);
    Pow2Add(16, 15);
    assert Pow2(8) == 256 && Pow2(15) == 32768;
    Pow2Add(31, 31);
  }

  /** Bit i of x. */
  predicate Bit(x: int, i: nat) {
    x / Pow2(i) % 2 == 1
  }

  datatype Op = And | AndC2 | AndC1 | Xor | Ior

  /** The truth tables of &, & ~, ~ &, ^ and |. */
  predicate Apply(op: Op, a: bool, b: bool) {
    match op
    case And => a && b
    case AndC2 => a && !b
    case AndC1 => !a && b
    case Xor => a != b
    case Ior => a || b
  }

  /** The operator on machine words that are not negative. */
  function Combine(op: Op, x: nat, y: nat): nat {
    if x == 0 && y == 0 then 0
    else 2 * Combine(op, x / 2, y / 2) + if Apply(op, x % 2 == 1, y % 2 == 1) then 1 else 0
  }

  lemma HalfBit(x: int, i: nat)
    requires i > 0
    ensures Bit(x, i) == Bit(x / 2, i - 1)
  {
    DivDiv(x, 2, Pow2(i - 1));
  }

  /** The operator works bit by bit. */
  lemma {:induction false} CombineBit(op: Op, x: nat, y: nat, i: nat)
    ensures Bit(Combine(op, x, y), i) == Apply(op, Bit(x, i), Bit(y, i))
    decreases i
  {
    CombineHalves(op, x, y);
    hide Combine, Pow2, Apply;
    var c := Combine(op, x, y);
    if i == 0 {
      LowBit(x);
      LowBit(y);
      LowBit(c);
    } else {
      HalfBit(x, i);
      HalfBit(y, i);
      HalfBit(c, i);
      CombineBit(op, x / 2, y / 2, i - 1);
    }
  }

  lemma CombineHalves(op: Op, x: nat, y: nat)
    ensures Combine(op, x, y) / 2 == Combine(op, x / 2, y / 2)
    ensures (Combine(op, x, y) % 2 == 1) == Apply(op, x % 2 == 1, y % 2 == 1)
  {
    assert Combine(op, 0, 0) == 0;
  }

  lemma LowBit(x: int)
    ensures Bit(x, 0) == (x % 2 == 1)
  {
    assert x / 1 == x;
  }

  lemma {:induction false} CombineBound(op: Op, x: nat, y: nat, n: nat)
    requires x < Pow2(n) && y < Pow2(n)
    ensures Combine(op, x, y) < Pow2(n)
    decreases n
  {
    if n > 0 { CombineBound(op, x / 2, y / 2, n - 1); }
  }

  lemma {:induction false} AndSelf(x: nat)
    ensures Combine(And, x, x) == x
  {
    if x > 0 { AndSelf(x / 2); }
  }

  /** x & ((1 << k) - 1) keeps the low k bits. */
  lemma {:induction false} AndMask(x: nat, k: nat)
    ensures Combine(And, Pow2(k) - 1, x) == x % Pow2(k)
    decreases k
  {
    if k == 0 {
      AndZero(x);
    } else {
      AndMask(x / 2, k - 1);
      var m := Pow2(k - 1);
      assert (Pow2(k) - 1) / 2 == m - 1;
      DivDiv(x, 2, m);
    }
  }

  lemma {:induction false} AndZero(x: nat)
    ensures Combine(And, 0, x) == 0
  {
    if x > 0 { AndZero(x / 2); }
  }

  lemma OneIsPower()
    ensures Combine(And, 1, 0) == 0
  {
    AndZero(0);
  }

  /** (high << k) | low is a sum when low is below 1 << k. */
  lemma {:induction false} OrDisjoint(high: nat, low: nat, k: nat, n: nat)
    requires low < Pow2(k) && n == high * Pow2(k)
    ensures Combine(Ior, n, low) == n + low
    decreases k
  {
    if k == 0 {
      OrZero(high);
    } else {
      var m := high * Pow2(k - 1);
      assert n == 2 * m;
      assert m >= 0;
      OrDisjoint(high, low / 2, k - 1, m);
    }
  }

  lemma {:induction false} OrZero(x: nat)
    ensures Combine(Ior, x, 0) == x
  {
    if x > 0 { OrZero(x / 2); }
  }

  /** d & (d - 1) is zero just for powers of two. */
  lemma {:induction false} PowerTest(d: nat) returns (k: nat)
    requires d > 0
    ensures Combine(And, d, d - 1) == 0 ==> d == Pow2(k)
    ensures Combine(And, d, d - 1) != 0 ==> forall j: nat :: d != Pow2(j)
  {
    k := 0;
    if d > 1 {
      if d % 2 == 0 {
        k := PowerTest(d / 2);
        assert (d - 1) / 2 == d / 2 - 1;
        if Combine(And, d / 2, d / 2 - 1) != 0 {
          forall j: nat ensures d != Pow2(j) { if j > 0 { assert d / 2 != Pow2(j - 1); } }
        }
        k := k + 1;
      } else {
        AndSelf(d / 2);
        assert (d - 1) / 2 == d / 2;
        forall j: nat ensures d != Pow2(j) { if j > 0 { assert Pow2(j) % 2 == 0; } }
      }
    } else {
      AndZero(1);
      assert Combine(And, 1, 0) == 0;
    }
  }

  /** The number of bits of x up to its most significant one: ulong_length_in_bits. */
  function BitLength(x: nat): nat {
    if x == 0 then 0 else 1 + BitLength(x / 2)
  }

  lemma {:induction false} BitLengthBounds(x: nat)
    ensures x < Pow2(BitLength(x))
    ensures x > 0 ==> BitLength(x) > 0 && Pow2(BitLength(x) - 1) <= x
  {
    if x > 0 { BitLengthBounds(x / 2); }
  }

  lemma BitLengthIs(x: nat, n: nat)
    requires n > 0 && Pow2(n - 1) <= x < Pow2(n)
    ensures BitLength(x) == n
  {
    BitLengthBounds(x);
    var k := BitLength(x);
    if k < n { Pow2Monotone(k, n - 1); }
    if n < k { Pow2Monotone(n, k - 1); }
  }
}
