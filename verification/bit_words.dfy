/** The machine's operators on unsigned words of 64 bits, bit by bit. */
module BitWords {
  import opened Arith
  import opened Bits

  const OBJECT_LENGTH: nat := 64

  type ULong = x: int | 0 <= x < 0x1_0000_0000_0000_0000

  lemma Pow2Long()
    ensures Pow2(64) == 0x1_0000_0000_0000_0000
  {
    Pow2Word();
    assert Pow2(64) == 2 * (2 * Pow2(62));
  }

  function And64(x: ULong, y: ULong): (r: ULong)
    ensures forall i: nat {:trigger Bit(r, i)} :: Bit(r, i) == (Bit(x, i) && Bit(y, i))
  {
    Combined(And, x, y);
    Combine(And, x, y)
  }

  /** x &~ y. */
  function AndNot64(x: ULong, y: ULong): (r: ULong)
    ensures forall i: nat {:trigger Bit(r, i)} :: Bit(r, i) == (Bit(x, i) && !Bit(y, i))
  {
    Combined(AndC2, x, y);
    Combine(AndC2, x, y)
  }

  function Or64(x: ULong, y: ULong): (r: ULong)
    ensures forall i: nat {:trigger Bit(r, i)} :: Bit(r, i) == (Bit(x, i) || Bit(y, i))
  {
    Combined(Ior, x, y);
    Combine(Ior, x, y)
  }

  lemma Combined(op: Op, x: ULong, y: ULong)
    ensures 0 <= Combine(op, x, y) < 0x1_0000_0000_0000_0000
    ensures forall i: nat {:trigger Bit(Combine(op, x, y), i)} ::
      Bit(Combine(op, x, y), i) == Apply(op, Bit(x, i), Bit(y, i))
  {
    Pow2Long();
    hide Pow2;
    CombineBound(op, x, y, 64);
    forall i: nat ensures Bit(Combine(op, x, y), i) == Apply(op, Bit(x, i), Bit(y, i)) { CombineBit(op, x, y, i); }
  }

  function ShiftR64(x: ULong, k: nat): (r: ULong)
    ensures forall i: nat {:trigger Bit(r, i)} :: Bit(r, i) == Bit(x, i + k)
  {
    ShiftedRight(x, k);
    x / Pow2(k)
  }

  lemma ShiftedRight(x: ULong, k: nat)
    ensures 0 <= x / Pow2(k) <= x
    ensures forall i: nat {:trigger Bit(x / Pow2(k), i)} :: Bit(x / Pow2(k), i) == Bit(x, i + k)
  {
    hide Pow2;
    DivMod(x, Pow2(k));
    MulAtLeast(x / Pow2(k), Pow2(k));
    assert Pow2(k) * (x / Pow2(k)) == x / Pow2(k) * Pow2(k);
    forall i: nat ensures Bit(x / Pow2(k), i) == Bit(x, i + k) {
      Pow2Add(k, i);
      DivDiv(x, Pow2(k), Pow2(i));
    }
  }

  function ShiftL64(x: ULong, k: nat): (r: ULong)
    requires k < 64
    ensures forall i: nat {:trigger Bit(r, i)} :: i < 64 ==> Bit(r, i) == (i >= k && Bit(x, i - k))
  {
    ShiftedLeft(x, k);
    x * Pow2(k) % 0x1_0000_0000_0000_0000
  }

  lemma ShiftedLeft(x: ULong, k: nat)
    requires k < 64
    ensures forall i: nat {:trigger Bit(x * Pow2(k) % 0x1_0000_0000_0000_0000, i)} ::
      i < 64 ==> Bit(x * Pow2(k) % 0x1_0000_0000_0000_0000, i) == (i >= k && Bit(x, i - k))
  {
    Pow2Long();
    forall i: nat | i < 64 ensures Bit(x * Pow2(k) % 0x1_0000_0000_0000_0000, i) == (i >= k && Bit(x, i - k)) {
      LowBits(x * Pow2(k), 64, i);
      if i >= k { ShiftedBit(x, k, i - k); } else { ShiftedZero(x, k, i); }
    }
  }

  /** Bit i of a number does not depend on the bits from n on. */
  lemma LowBits(x: nat, n: nat, i: nat)
    requires i < n
    ensures 0 <= x % Pow2(n) && Bit(x % Pow2(n), i) == Bit(x, i)
  {
    var p, q := Pow2(i), Pow2(n - 1 - i);
    Pow2Add(i, n - i);
    assert Pow2(n - i) == 2 * q;
    hide Pow2;
    DivMod(x, Pow2(n));
    var h, l := x / Pow2(n), x % Pow2(n);
    assert x == p * (2 * q * h) + l by { MulAssoc(p, 2 * q, h); }
    AddMultiple(l, p, 2 * q * h);
    assert 2 * q * h == 2 * (q * h);
    EvenStays(l / p, q * h);
  }

  lemma AddMultiple(l: int, p: int, k: int)
    requires p > 0
    ensures (p * k + l) / p == k + l / p
  {
    DivMod(l, p);
    MulDist(p, k, l / p);
    DivIs(p * k + l, p, k + l / p, l % p);
  }

  lemma EvenStays(a: int, b: int)
    ensures (2 * b + a) % 2 == a % 2
  {}

  lemma ShiftedBit(x: nat, k: nat, i: nat)
    ensures Bit(x * Pow2(k), i + k) == Bit(x, i)
  {
    hide Pow2;
    Pow2Add(k, i);
    assert x * Pow2(k) == Pow2(k) * x + 0;
    DivDiv(Pow2(k) * x, Pow2(k), Pow2(i));
    DivIs(Pow2(k) * x, Pow2(k), x, 0);
  }

  lemma ShiftedZero(x: nat, k: nat, i: nat)
    requires i < k
    ensures !Bit(x * Pow2(k), i)
  {
    var p, q := Pow2(i), Pow2(k - 1 - i);
    Pow2Add(i, k - i);
    assert Pow2(k - i) == 2 * q;
    hide Pow2;
    assert x * Pow2(k) == p * (2 * q * x) by { MulAssoc(p, 2 * q, x); }
    DivIs(x * Pow2(k), p, 2 * q * x, 0);
    assert 2 * q * x == 2 * (q * x);
    EvenStays(0, q * x);
  }

  /** LOW_MASK. */
  function LowMask(n: nat): (r: ULong)
    requires n <= 64
    ensures forall i: nat {:trigger Bit(r, i)} :: Bit(r, i) == (i < n)
  {
    OnesMask(n, Pow2(n) - 1);
    Pow2(n) - 1
  }

  lemma OnesMask(n: nat, mask: int)
    requires n <= 64 && mask == Pow2(n) - 1
    ensures 0 <= mask < 0x1_0000_0000_0000_0000
    ensures forall i: nat {:trigger Bit(mask, i)} :: Bit(mask, i) == (i < n)
  {
    Pow2Long();
    Pow2Monotone(n, 64);
    forall i: nat ensures Bit(mask, i) == (i < n) { OnesBit(n, i); }
  }

  lemma OnesBit(n: nat, i: nat)
    ensures Bit(Pow2(n) - 1, i) == (i < n)
  {
    if i < n {
      var p, q := Pow2(i), Pow2(n - 1 - i);
      Pow2Add(i, n - i);
      assert Pow2(n - i) == 2 * q;
      hide Pow2;
      assert Pow2(n) - 1 == p * (2 * q - 1) + (p - 1) by { MulDist(p, 2 * q - 1, 1); }
      DivIs(Pow2(n) - 1, p, 2 * q - 1, p - 1);
    } else {
      Pow2Monotone(n, i);
      DivIs(Pow2(n) - 1, Pow2(i), 0, Pow2(n) - 1);
    }
  }

  /** ANY_MASK: n ones from bit k on. */
  function AnyMask(n: nat, k: nat): (r: ULong)
    requires n <= 64 && k < 64
    ensures forall i: nat {:trigger Bit(r, i)} :: i < 64 ==> Bit(r, i) == (k <= i < k + n)
  {
    ShiftL64(LowMask(n), k)
  }
}
