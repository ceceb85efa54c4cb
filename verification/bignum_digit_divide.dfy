/** Dividing two digits by one, on half digits. */
module BignumDigitDivide {
  import opened Arith
  import opened BignumDigits
  import opened Knuth

  /** The number that three half digits stand for. */
  function Three(a: int, b: int, c: int): int {
    HdCons(HdCons(a, b), c)
  }

  /** The division of three half digits by the digit v, whose quotient is q. */
  ghost function HalfDivision(u0: int, u1: int, u2: int, v: int, q: int): Division {
    Division(R, 1, HdCons(u0, u1), u2, HdHigh(v), HdLow(v), Three(u0, u1, u2), v, q)
  }

  ghost predicate HalfOk(u0: int, u1: int, u2: int, v: int, q: int) {
    && 0 <= u0 < R && 0 <= u1 < R && 0 <= u2 < R && R <= v < RADIX && HdCons(u0, u1) < v
    && 0 <= q && q * v <= Three(u0, u1, u2) < (q + 1) * v
  }

  ghost function Rest(n: int, q: int, v: int): int {
    n - q * v
  }

  lemma HalfWindow(u0: int, u1: int, u2: int, v: int, q: int)
    requires HalfOk(u0, u1, u2, v, q)
    ensures Window(HalfDivision(u0, u1, u2, v, q)) && u0 <= HdHigh(v)
  {}

  lemma HalfRanges(u0: int, u1: int, u2: int, v: int, q: int)
    requires HalfOk(u0, u1, u2, v, q)
    ensures 0 <= u0 < R && 0 <= u1 < R && 0 <= u2 < R && v < RADIX && 1 <= HdHigh(v) < R && 0 <= HdLow(v) < R
  {}

  lemma HalfQuotientFits(n: int, v1: int, u0: int)
    requires 0 <= u0 < v1 && 0 <= n < HdCons(u0 + 1, 0)
    ensures 0 <= n / v1 < R && 0 <= n % v1 < v1 && n % v1 == n - n / v1 * v1 && n < (n / v1 + 1) * v1
  {
    DivMod(n, v1);
    LeFactor(u0 + 1, v1, R);
    QuotientBelow(n, v1, n / v1, n % v1, R);
  }

  lemma QuotientBelow(n: int, v: int, q: int, r: int, k: int)
    requires n == v * q + r && 0 <= r < v && n < v * k
    ensures q < k && n < (q + 1) * v
    ensures n >= 0 ==> q >= 0
  {
    SmallRemainder(q, v);
    if q >= k { LeFactor(k, q, v); }
    if q < 0 { MulGap(v, q, 0); }
  }

  /** Divide two half digits by one. */
  method DivideHalves(n: Word, v1: Word, ghost u0: int) returns (q: Word, r: Word)
    requires 0 <= u0 < v1 < R && 0 <= n < HdCons(u0 + 1, 0)
    ensures 0 <= q < R && 0 <= r < v1 && r == n - q * v1 && n < (q + 1) * v1
  {
    q, r := n / v1, n % v1;
    HalfQuotientFits(n, v1, u0);
  }

  /** The first guess and the remainder that goes into the comparand. */
  method FirstHalfGuess(u0: Word, u1: Word, u2: Word, v: Word, ghost q: int) returns (guess: Word, comparand: Word)
    requires HalfOk(u0, u1, u2, v, q)
    ensures comparand == HdCons(HdCons(u0, u1) - guess * HdHigh(v), u2)
    ensures Guessed(HalfDivision(u0, u1, u2, v, q), guess, HdCons(u0, u1) - guess * HdHigh(v))
  {
    hide Window, Three, HalfOk;
    HalfWindow(u0, u1, u2, v, q);
    HalfRanges(u0, u1, u2, v, q);
    var v1 := HdHigh(v);
    if u0 != v1 {
      var uj: Word := HdCons(u0, u1);
      var rem;
      guess, rem := DivideHalves(uj, v1, u0);
      comparand := HdCons(rem, u2);
    } else {
      guess := R - 1;
      comparand := HdCons(u1 + v1, u2);
    }
    FirstGuess(HalfDivision(u0, u1, u2, v, q), guess);
  }

  /** The quotient estimate of BDD_STEP.  It is exact: the divisor has just two half digits. */
  method EstimateHalf(u0: Word, u1: Word, u2: Word, v: Word, ghost q: int) returns (guess: Word)
    requires HalfOk(u0, u1, u2, v, q)
    ensures 0 <= guess < R && guess == q
  {
    hide Window, Guessed, Three;
    ghost var d := HalfDivision(u0, u1, u2, v, q);
    var v1, v2 := HdHigh(v), HdLow(v);
    HalfWindow(u0, u1, u2, v, q);
    ghost var ch := HdCons(u0, u1) - HdHigh(v) * 0;
    var comparand;
    guess, comparand := FirstHalfGuess(u0, u1, u2, v, q);
    ch := HdCons(u0, u1) - guess * HdHigh(v);
    GuessedRange(d, guess, ch);
    MulBound(guess, v2, R - 1, R - 1);
    while guess * v2 > comparand
      invariant 0 <= guess < R && 0 <= guess * v2 <= (R - 1) * (R - 1)
      invariant comparand == HdCons(ch, u2) && Guessed(d, guess, ch)
      decreases guess
    {
      NextGuess(d, guess, ch);
      guess := guess - 1;
      comparand := comparand + v1 * R;
      ch := ch + v1;
      GuessedRange(d, guess, ch);
      MulBound(guess, v2, R - 1, R - 1);
      if comparand >= RADIX {
        break;
      }
    }
    LastGuess(d, guess, ch);
  }

  lemma GuessedRange(d: Division, g: int, ch: int)
    requires Window(d) && Guessed(d, g, ch)
    ensures 0 <= d.q <= g < d.b
  {}

  /** BDDS_MULSUB: subtract v times the guess and the carry from the half digit un. */
  method MulSub(v: Word, un: Word, guess: Word, carryIn: Word) returns (half: Word, carry: Word)
    requires 0 <= v < R && 0 <= un < R && 0 <= guess < R && 0 <= carryIn <= R
    ensures 0 <= half < R && 0 <= carry <= R && half - R * carry == un - v * guess - carryIn
  {
    MulBound(v, guess, R - 1, R - 1);
    var product: Word := v * guess + carryIn;
    Halves(product);
    var diff: Word := un - HdLow(product);
    if diff < 0 {
      half := diff + R;
      carry := HdHigh(product) + 1;
    } else {
      half := diff;
      carry := HdHigh(product);
    }
  }

  /** BDDS_ADD: add the half digits v and un and the carry. */
  method HalfAdd(v: Word, un: Word, carryIn: Word) returns (half: Word, carry: Word)
    requires 0 <= v < R && 0 <= un < R && 0 <= carryIn <= 1
    ensures 0 <= half < R && 0 <= carry <= 1 && half + R * carry == v + un + carryIn
  {
    var sum: Word := v + un + carryIn;
    if sum < R {
      half := sum;
      carry := 0;
    } else {
      half := sum - R;
      carry := 1;
    }
  }

  /** The three half digits of u from j on. */
  function ThreeAt(u: array<Word>, j: nat): int
    requires j + 2 < u.Length
    reads u
  {
    Three(u[j], u[j + 1], u[j + 2])
  }

  /** The half digits after the subtraction, with a carry out of the top. */
  lemma SubtractedHalves(u0: int, u1: int, u2: int, v: int, guess: int, h: int, l: int, c: int, carry: int)
    requires l - R * c == u2 - HdLow(v) * guess && h - R * carry == u1 - HdHigh(v) * guess - c
    ensures Three(u0, u1, u2) - guess * v == (u0 - carry) * RADIX + HdCons(h, l)
  {
    Halves(v);
    MulDist(guess, HdHigh(v) * R, HdLow(v));
    MulAssoc(guess, HdHigh(v), R);
    assert guess * HdHigh(v) == HdHigh(v) * guess && guess * HdLow(v) == HdLow(v) * guess;
  }

  /** After the subtraction, the carry out of the top tells whether the guess was too large. */
  lemma Subtracted(u0: int, u1: int, u2: int, v: int, guess: int, q: int, h: int, l: int, c: int, carry: int)
    requires HalfOk(u0, u1, u2, v, q) && 0 <= h < R && 0 <= l < R && (guess == q || guess == q + 1)
    requires l - R * c == u2 - HdLow(v) * guess && h - R * carry == u1 - HdHigh(v) * guess - c
    ensures var rest := Rest(Three(u0, u1, u2), q, v);
      0 <= rest < v && if guess == q then carry == u0 && HdCons(h, l) == rest
      else carry == u0 + 1 && HdCons(h, l) + v == rest + RADIX
  {
    SmallRemainder(q, v);
    SubtractedHalves(u0, u1, u2, v, guess, h, l, c, carry);
    hide Three;
  }

  lemma AddedBack(v: int, h: int, l: int, h': int, l': int, c: int, carry: int, rest: int)
    requires 0 <= h' < R && 0 <= l' < R && 0 <= carry <= 1 && 0 <= rest < v < RADIX
    requires l' + R * c == HdLow(v) + l && h' + R * carry == HdHigh(v) + h + c
    requires HdCons(h, l) + v == rest + RADIX
    ensures carry == 1 && HdCons(h', l') == rest
  {
    Halves(v);
  }

  /** Subtract guess times v from three half digits; a guess that is one too large is corrected.
      The top half digit is not meaningful afterwards. */
  method DigitDivideSubtract(v: Word, guess: Word, u: array<Word>, j: nat, ghost q: int) returns (qn: Word)
    requires j + 2 < u.Length && HalfOk(u[j], u[j + 1], u[j + 2], v, q) && q <= guess <= q + 1 && 0 <= guess < R
    modifies u
    ensures qn == q && 0 <= u[j + 1] < R && 0 <= u[j + 2] < R
    ensures HdCons(u[j + 1], u[j + 2]) == old(Rest(ThreeAt(u, j), q, v))
    ensures forall i :: 0 <= i < u.Length && !(j <= i <= j + 2) ==> u[i] == old(u[i])
  {
    hide Three, HalfOk, Rest;
    ghost var u0, u1, u2, rest := u[j], u[j + 1], u[j + 2], Rest(ThreeAt(u, j), q, v);
    HalfRanges(u0, u1, u2, v, q);
    var v1, v2 := HdHigh(v), HdLow(v);
    var carry, c, half;
    half, c := MulSub(v2, u[j + 2], guess, 0);
    u[j + 2] := half;
    half, carry := MulSub(v1, u[j + 1], guess, c);
    u[j + 1] := half;
    Subtracted(u0, u1, u2, v, guess, q, u[j + 1], u[j + 2], c, carry);
    if carry == 0 {
      return guess;
    }
    var diff: Word := u[j] - carry;
    if diff < 0 {
      u[j] := diff + RADIX;
    } else {
      u[j] := diff;
      return guess;
    }
    ghost var h, l := u[j + 1], u[j + 2];
    half, c := HalfAdd(v2, u[j + 2], 0);
    u[j + 2] := half;
    half, carry := HalfAdd(v1, u[j + 1], c);
    u[j + 1] := half;
    if carry == 1 {
      u[j] := u[j] + 1;
    }
    AddedBack(v, h, l, u[j + 1], u[j + 2], c, carry, rest);
    qn := guess - 1;
  }

  /** BDD_STEP. */
  method DivideStep(u: array<Word>, j: nat, v: Word, ghost q: int) returns (qn: Word)
    requires j + 2 < u.Length && HalfOk(u[j], u[j + 1], u[j + 2], v, q)
    modifies u
    ensures qn == q && 0 <= q < R && 0 <= u[j + 1] < R && 0 <= u[j + 2] < R
    ensures HdCons(u[j + 1], u[j + 2]) == old(ThreeAt(u, j)) - q * v
    ensures forall i :: 0 <= i < u.Length && !(j <= i <= j + 2) ==> u[i] == old(u[i])
  {
    var guess := EstimateHalf(u[j], u[j + 1], u[j + 2], v, q);
    qn := DigitDivideSubtract(v, guess, u, j, q);
  }

  lemma EuclidQuotient(n: int, v: int) returns (q: int)
    requires 0 <= n && 0 < v
    ensures 0 <= q && q * v <= n < (q + 1) * v
  {
    q := n / v;
    assert n == q * v + n % v;
    assert (q + 1) * v == q * v + v;
  }

  lemma TwoSteps(uh: int, ul: int, v: int, q1: int, r1: int, q2: int, r: int)
    requires r1 == Three(HdHigh(uh), HdLow(uh), HdHigh(ul)) - q1 * v
    requires r == HdCons(r1, HdLow(ul)) - q2 * v
    ensures HdCons(q1, q2) * v + r == uh * RADIX + ul
  {
    assert HdCons(q1, q2) * v == (q1 * v) * R + q2 * v;
  }

  /** Divide the two digits uh, ul by the normalized digit v. */
  method DigitDivide(uh: Word, ul: Word, v: Word) returns (r: Word, q: Word)
    requires IsDigit(uh) && IsDigit(ul) && RADIX / 2 <= v < RADIX && uh < v
    ensures IsDigit(q) && 0 <= r < v && q * v + r == uh * RADIX + ul
  {
    if uh == 0 {
      if ul < v {
        return ul, 0;
      } else if ul == v {
        return 0, 1;
      }
    }
    var u := new Word[4];
    u[0], u[1], u[2], u[3] := HdHigh(uh), HdLow(uh), HdHigh(ul), HdLow(ul);
    Halves(uh);
    Halves(ul);
    ghost var g1 := EuclidQuotient(ThreeAt(u, 0), v);
    var q1 := DivideStep(u, 0, v, g1);
    ghost var r1 := HdCons(u[1], u[2]);
    SmallRemainder(g1, v);
    ghost var g2 := EuclidQuotient(ThreeAt(u, 1), v);
    var q2 := DivideStep(u, 1, v, g2);
    SmallRemainder(g2, v);
    q, r := HdCons(q1, q2), HdCons(u[2], u[3]);
    TwoSteps(uh, ul, v, q1, r1, q2, r);
  }

  lemma SmallRemainder(q: int, v: int)
    ensures (q + 1) * v == q * v + v
  {}
}
