/** Long division on digits (Knuth, TAOCP volume 2, section 4.3.1, algorithm D). */
module BignumLongDivision {
  import opened Arith
  import opened BignumDigits
  import opened BignumRepr
  import opened BignumAdd
  import opened BignumMultiply
  import opened BignumDigitDivide
  import opened Knuth

  /** The product of two digits as two digits. */
  method DoubleProduct(guess: Word, v2: Word) returns (ph: Word, pl: Word)
    requires IsDigit(guess) && IsDigit(v2)
    ensures IsDigit(ph) && IsDigit(pl) && ph * RADIX + pl == guess * v2
  {
    var gl, gh := HdLow(guess), HdHigh(guess);
    var v2l, v2h := HdLow(v2), HdHigh(v2);
    Halves(guess);
    Halves(v2);
    HalfProducts(gh, gl, v2h, v2l);
    pl := v2l * gl;
    Halves(pl);
    ph := v2l * gh + v2h * gl + HdHigh(pl);
    Halves(ph);
    pl := HdCons(HdLow(ph), HdLow(pl));
    ph := v2h * gh + HdHigh(ph);
  }

  lemma Lexicographic(ch: int, cl: int, ph: int, pl: int)
    requires IsDigit(cl) && IsDigit(pl)
    ensures (ch > ph || (ch == ph && cl >= pl)) <==> ch * RADIX + cl >= ph * RADIX + pl
  {}

  /** The guess before it is corrected, and the high digit of the comparand. */
  method FirstDigitGuess(uj: Word, uj1: Word, v1: Word, ghost d: Division) returns (guess: Word, ch: Word)
    requires Window(d) && d.b == RADIX && d.u01 == uj * RADIX + uj1 && d.v1 == v1
    requires IsDigit(uj) && IsDigit(uj1) && RADIX / 2 <= v1 < RADIX && uj <= v1
    ensures IsDigit(guess) && 0 <= ch < RADIX + v1 && Guessed(d, guess, ch)
  {
    hide Window, Guessed;
    if uj != v1 {
      ch, guess := DigitDivide(uj, uj1, v1);
      SmallRemainder(guess, v1);
    } else {
      ch := uj1 + v1;
      guess := RADIX - 1;
    }
    FirstGuess(d, guess);
  }

  /** The guess for one quotient digit: never too small, and at most one too large; it takes at most
      two corrections. */
  method GuessDigit(uj: Word, uj1: Word, uj2: Word, v1: Word, v2: Word, ghost d: Division)
    returns (guess: Word, ghost corrections: nat)
    requires Window(d) && d.b == RADIX && d.u01 == uj * RADIX + uj1 && d.u2 == uj2 && d.v1 == v1 && d.v2 == v2
    requires IsDigit(uj) && IsDigit(uj1) && IsDigit(uj2) && IsDigit(v2) && RADIX / 2 <= v1 < RADIX && uj <= v1
    ensures IsDigit(guess) && d.q <= guess <= d.q + 1
    ensures corrections <= 2
  {
    hide Window, Guessed;
    var cl := uj2;
    var ch;
    guess, ch := FirstDigitGuess(uj, uj1, v1, d);
    GuessedRange(d, guess, ch);
    ghost var first := guess;
    NormalizedGuess(d, guess, ch);
    corrections := 0;
    while true
      invariant IsDigit(guess) && 0 <= ch < RADIX + v1 && Guessed(d, guess, ch)
      invariant corrections == first - guess
      decreases guess
    {
      var ph, pl := DoubleProduct(guess, v2);
      Lexicographic(ch, cl, ph, pl);
      if ch > ph || (ch == ph && cl >= pl) {
        break;
      }
      NextGuess(d, guess, ch);
      guess := guess - 1;
      corrections := corrections + 1;
      ch := ch + v1;
      GuessedRange(d, guess, ch);
      if ch >= RADIX {
        HighComparand(guess, v2, ch, cl);
        break;
      }
    }
    LastGuess(d, guess, ch);
  }

  lemma HighComparand(guess: int, v2: int, ch: int, cl: int)
    requires IsDigit(guess) && IsDigit(v2) && ch >= RADIX && cl >= 0
    ensures guess * v2 <= ch * RADIX + cl
  {
    MulBound(guess, v2, RADIX, RADIX);
  }

  /** Subtract guess times the digit v and the carry from the digit u. */
  method SubtractProduct(u: Word, v: Word, guess: Word, carryIn: Word) returns (digit: Word, carry: Word)
    requires IsDigit(u) && IsDigit(v) && IsDigit(guess) && IsDigit(carryIn)
    ensures IsDigit(digit) && IsDigit(carry) && digit - RADIX * carry == u - guess * v - carryIn
  {
    var gl, gh := HdLow(guess), HdHigh(guess);
    var vl, vh := HdLow(v), HdHigh(v);
    Halves(guess);
    Halves(v);
    Halves(carryIn);
    HalfProducts(gh, gl, vh, vl);
    var pl: Word := vl * gl + HdLow(carryIn);
    Halves(pl);
    var ph: Word := vl * gh + vh * gl + HdHigh(pl) + HdHigh(carryIn);
    Halves(ph);
    var diff: Word := u - HdCons(HdLow(ph), HdLow(pl));
    var high: Word := vh * gh + HdHigh(ph);
    if diff < 0 {
      digit := diff + RADIX;
      carry := high + 1;
    } else {
      digit := diff;
      carry := high;
    }
  }

  /** Subtract guess times v from the digits of u from `at` on. */
  method SubtractRow(v: Bignum, guess: Word, u: Bignum, at: nat) returns (carry: Word)
    requires Valid(v) && IsDigit(guess) && u != v && 1 <= at && at + Len(v) < u.Length && Digits(u[at..at + Len(v)])
    modifies u
    ensures forall i :: 0 <= i < u.Length && !(at <= i < at + Len(v)) ==> u[i] == old(u[i])
    ensures IsDigit(carry) && RowSum(old(u[at..at + Len(v)]), -guess, DigitsOf(v), u[at..at + Len(v)], -carry)
  {
    hide Val, Pow, RowSum;
    ghost var vs, row := DigitsOf(v), u[at..at + Len(v)];
    carry := 0;
    var scanV, scanU := 1, at;
    RowStart(row, -guess, vs);
    assert u[at..at] == [];
    while scanV < 1 + Len(v)
      invariant 1 <= scanV <= 1 + Len(v) && scanU == at + scanV - 1 && IsDigit(carry)
      invariant forall i :: 0 <= i < u.Length && !(at <= i < scanU) ==> u[i] == old(u[i])
      invariant RowSum(row, -guess, vs, u[at..scanU], -carry)
    {
      ghost var rs, c := u[at..scanU], carry;
      assert v[scanV] == vs[scanV - 1] && u[scanU] == row[scanV - 1];
      var digit;
      digit, carry := SubtractProduct(u[scanU], v[scanV], guess, carry);
      u[scanU] := digit;
      assert u[at..scanU + 1] == rs + [digit];
      MulNegate(guess, vs[scanV - 1]);
      RowStep(row, -guess, vs, rs, -c, digit, -carry);
      scanV, scanU := scanV + 1, scanU + 1;
    }
  }

  /** Add v to the digits of u from `at` on. */
  method AddBackRow(v: Bignum, u: Bignum, at: nat) returns (carry: Word)
    requires Valid(v) && u != v && 1 <= at && at + Len(v) < u.Length && Digits(u[at..at + Len(v)])
    modifies u
    ensures forall i :: 0 <= i < u.Length && !(at <= i < at + Len(v)) ==> u[i] == old(u[i])
    ensures 0 <= carry <= 1 && RowSum(old(u[at..at + Len(v)]), 1, DigitsOf(v), u[at..at + Len(v)], carry)
  {
    hide Val, Pow, RowSum;
    ghost var vs, row := DigitsOf(v), u[at..at + Len(v)];
    carry := 0;
    var scanV, scanU := 1, at;
    RowStart(row, 1, vs);
    assert u[at..at] == [];
    while scanV < 1 + Len(v)
      invariant 1 <= scanV <= 1 + Len(v) && scanU == at + scanV - 1 && 0 <= carry <= 1
      invariant forall i :: 0 <= i < u.Length && !(at <= i < scanU) ==> u[i] == old(u[i])
      invariant RowSum(row, 1, vs, u[at..scanU], carry)
    {
      ghost var rs, c := u[at..scanU], carry;
      assert v[scanV] == vs[scanV - 1] && u[scanU] == row[scanV - 1];
      var sum: Word := v[scanV] + u[scanU] + carry;
      if sum < RADIX {
        u[scanU] := sum;
        carry := 0;
      } else {
        u[scanU] := sum - RADIX;
        carry := 1;
      }
      assert u[at..scanU + 1] == rs + [u[scanU]];
      RowStep(row, 1, vs, rs, c, u[scanU], carry);
      scanV, scanU := scanV + 1, scanU + 1;
    }
  }

  /** The end of a row: rs and the carry stand for row + x * vs. */
  lemma RowTotal(row: seq<int>, x: int, vs: seq<int>, rs: seq<int>, c: int)
    requires RowSum(row, x, vs, rs, c) && |rs| == |row|
    ensures Digits(rs) && Val(rs) + Pow(|rs|) * c == Val(row) + x * Val(vs)
  {
    assert vs[..|vs|] == vs;
    RunningEnd(row, rs, c, x * Val(vs));
  }

  /** What is left of a window of n + 1 digits: its low n digits, with a zero on top. */
  ghost predicate Reduced(window: seq<int>, window': seq<int>, V: int, q: int) {
    && |window| == |window'| > 0 && Digits(window') && window'[|window'| - 1] == 0
    && Val(window') == Val(window) - q * V
  }

  /** The facts about a window and the guess for its quotient digit. */
  ghost predicate Guessable(window: seq<int>, vs: seq<int>, q: int, guess: int) {
    && |window| == |vs| + 1 && Digits(window) && Digits(vs)
    && IsQuotient(q, Val(window), Val(vs))
    && (guess == q || guess == q + 1)
  }

  /** Multiples of p between -p and p. */
  lemma OnlyZero(p: int, k: int, a: int, r: int)
    requires 0 <= a < p && 0 <= r < p && r == a + p * k
    ensures k == 0
  {
    if k > 0 { MulGap(p, 0, k); }
    if k < 0 { MulGap(p, k, 0); }
  }

  /** After the row has been subtracted, the carry out of the top tells whether the guess was too
      large; if so, the remainder needs v added back, and that carries out again. */
  lemma SubtractedRow(window: seq<int>, vs: seq<int>, q: int, guess: int, rs: seq<int>, carry: int)
    requires Guessable(window, vs, q, guess) && IsDigit(carry)
    requires RowSum(window[..|vs|], -guess, vs, rs, -carry) && |rs| == |vs|
    ensures Digits(rs) && 0 <= Val(window) - q * Val(vs) < Val(vs) < Pow(|vs|)
    ensures guess == q ==> carry == window[|vs|] && Val(rs) == Val(window) - q * Val(vs)
    ensures guess == q + 1 ==> carry == window[|vs|] + 1 && Val(rs) + Val(vs) == Val(window) - q * Val(vs) + Pow(|vs|)
  {
    hide Val, Pow, RowSum;
    var n := |vs|;
    var p, V, top := Pow(n), Val(vs), window[n];
    assert n < |window|;
    RowTotal(window[..n], -guess, vs, rs, -carry);
    Prefix(window, n);
    assert window[..n + 1] == window;
    ValBound(vs);
    ValBound(rs);
    SmallRemainder(q, V);
    RowBalance(p, carry, top, guess, V, q, Val(rs), Val(window[..n]), Val(window) - q * V);
  }

  /** The arithmetic of SubtractedRow: the digits a and the carry, from the low part l. */
  lemma RowBalance(p: int, carry: int, top: int, guess: int, V: int, q: int, a: int, l: int, rest: int)
    requires a + p * -carry == l + -guess * V && rest == l + p * top - q * V
    requires 0 <= a < p && 0 <= rest < V < p && (guess == q || guess == q + 1)
    ensures guess == q ==> carry == top && a == rest
    ensures guess == q + 1 ==> carry == top + 1 && a + V == rest + p
  {
    SmallRemainder(q, V);
    assert p * -carry == -(p * carry) && -guess * V == -(guess * V);
    assert p * (top - carry) == p * top - p * carry;
    if guess == q {
      OnlyZero(p, top - carry, a, rest);
    } else {
      SubtractedTooMuch(p, top - carry, a, V, rest);
    }
  }

  lemma SubtractedTooMuch(p: int, k: int, a: int, V: int, r: int)
    requires 0 <= a < p && 0 <= r < V < p && r - V == a + p * k
    ensures k == -1
  {
    if k >= 0 { MulGap(p, -1, k); }
    if k < -1 { MulGap(p, k, -1); }
  }

  /** Adding v back carries out of the row and cancels the borrow. */
  lemma AddedBackRow(rs: seq<int>, vs: seq<int>, rs': seq<int>, carry: int, rest: int)
    requires |rs| == |vs| == |rs'| && RowSum(rs, 1, vs, rs', carry) && 0 <= carry <= 1
    requires Val(rs) + Val(vs) == rest + Pow(|vs|) && 0 <= rest < Pow(|vs|)
    ensures Digits(rs') && carry == 1 && Val(rs') == rest
  {
    hide Val, Pow, RowSum;
    RowTotal(rs, 1, vs, rs', carry);
    ValBound(rs');
    assert Pow(|vs|) * 1 == Pow(|vs|) && Pow(|vs|) * 0 == 0;
  }

  lemma ZeroOnTop(rs: seq<int>)
    requires Digits(rs)
    ensures Val(rs + [0]) == Val(rs) && Digits(rs + [0])
  {
    ValSnoc(rs, 0);
  }

  method CarryOut(d: Word) returns (r: Word)
    requires IsDigit(d)
    ensures r == (d + 1) % RADIX
  {
    var sum: Word := d + 1;
    r := if sum < RADIX then sum else sum - RADIX;
  }

  /** Subtract guess times v from the window of u at `at`; correct a guess that is one too large. */
  method DivideSubtract(v: Bignum, guess: Word, u: Bignum, at: nat, ghost q: int) returns (qj: Word)
    requires Valid(v) && !IsZero(v) && u != v && 1 <= at && at + Len(v) < u.Length && IsDigit(guess)
    requires Guessable(u[at..at + Len(v) + 1], DigitsOf(v), q, guess)
    modifies u
    ensures qj == q && IsDigit(qj)
    ensures Reduced(old(u[at..at + Len(v) + 1]), u[at..at + Len(v) + 1], Magnitude(v), q)
    ensures forall i :: 0 <= i < u.Length && !(at <= i <= at + Len(v)) ==> u[i] == old(u[i])
  {
    hide Val, Pow, RowSum;
    ghost var vs, window, end := DigitsOf(v), u[at..at + Len(v) + 1], at + Len(v);
    if guess == 0 {
      GuessZero(window, vs, q);
      return 0;
    }
    assert window[..Len(v)] == u[at..end];
    var carry := SubtractRow(v, guess, u, at);
    ghost var rs := u[at..end];
    SubtractedRow(window, vs, q, guess, rs, carry);
    if carry == 0 {
      ZeroOnTop(rs);
      assert u[at..end + 1] == rs + [0];
      return guess;
    }
    var diff: Word := u[at + Len(v)] - carry;
    if diff < 0 {
      u[at + Len(v)] := diff + RADIX;
    } else {
      u[at + Len(v)] := diff;
      ZeroOnTop(rs);
      assert u[at..end + 1] == rs + [0];
      return guess;
    }
    assert u[at..end] == rs;
    carry := AddBackRow(v, u, at);
    AddedBackRow(rs, vs, u[at..end], carry, Val(window) - q * Val(vs));
    if carry == 1 {
      var top := CarryOut(u[at + Len(v)]);
      u[at + Len(v)] := top;
    }
    ZeroOnTop(u[at..end]);
    assert u[at..end + 1] == u[at..end] + [0];
    qj := guess - 1;
  }

  lemma GuessZero(window: seq<int>, vs: seq<int>, q: int)
    requires Guessable(window, vs, q, 0)
    ensures q == 0 && Reduced(window, window, Val(vs), 0)
  {
    hide Val, Pow;
    var n := |vs|;
    ValBound(vs);
    Prefix(window, n);
    assert window[..n + 1] == window;
    ValBound(window[..n]);
    if window[n] > 0 { MulGap(Pow(n), 0, window[n]); }
  }

  /** The two leading digits of a number. */
  lemma TopTwo(s: seq<int>)
    requires Digits(s) && |s| >= 2
    ensures var n := |s|; 0 <= Val(s) - (s[n - 1] * RADIX + s[n - 2]) * Pow(n - 2) < Pow(n - 2)
  {
    hide Val;
    var n := |s|;
    assert s[..n] == s;
    Prefix(s, n - 1);
    Prefix(s, n - 2);
    ValBound(s[..n - 2]);
    Regroup(Pow(n - 2), s[n - 1], s[n - 2], RADIX);
  }

  lemma Regroup(p: int, a: int, b: int, r: int)
    ensures (r * p) * a + p * b == (a * r + b) * p
  {
    assert (r * p) * a == (a * r) * p;
  }

  /** The three leading digits of a number. */
  lemma TopThree(s: seq<int>)
    requires Digits(s) && |s| >= 3
    ensures var n := |s|;
      0 <= Val(s) - ((s[n - 1] * RADIX + s[n - 2]) * RADIX + s[n - 3]) * Pow(n - 3) < Pow(n - 3)
  {
    hide Val, Pow;
    var n := |s|;
    var a := s[n - 1] * RADIX + s[n - 2];
    assert s[..n] == s;
    Prefix(s, n - 1);
    Prefix(s, n - 2);
    Prefix(s, n - 3);
    ValBound(s[..n - 3]);
    PowUp(n - 2);
    PowUp(n - 3);
    Regroup(Pow(n - 2), s[n - 1], s[n - 2], RADIX);
    Regroup(Pow(n - 3), a, s[n - 3], RADIX);
    assert Pow(n - 2) * a == a * Pow(n - 2);
  }

  lemma PowUp(n: nat)
    ensures Pow(n + 1) == RADIX * Pow(n)
  {}

  ghost predicate IsQuotient(q: int, U: int, V: int) {
    0 <= q && q * V <= U < (q + 1) * V
  }

  ghost function WindowDivision(ws: seq<int>, vs: seq<int>, q: int): Division
    requires |ws| == |vs| + 1 && |vs| >= 2
  {
    var n := |vs|;
    Division(RADIX, Pow(n - 2), ws[n] * RADIX + ws[n - 1], ws[n - 2], vs[n - 1], vs[n - 2], Val(ws), Val(vs), q)
  }

  /** A window whose upper digits are less than v has a one-digit quotient that can be guessed. */
  lemma WindowReady(ws: seq<int>, vs: seq<int>) returns (q: int)
    requires Digits(ws) && Digits(vs) && |ws| == |vs| + 1 && |vs| >= 2
    requires vs[|vs| - 1] > 0 && Val(ws[1..]) < Val(vs)
    ensures Window(WindowDivision(ws, vs, q)) && ws[|vs|] <= vs[|vs| - 1]
    ensures 0 <= q < RADIX && IsQuotient(q, Val(ws), Val(vs))
  {
    var n := |vs|;
    assert Val(ws) == ws[0] + RADIX * Val(ws[1..]);
    hide Val, Pow;
    TopTwo(vs);
    TopThree(ws);
    ValBound(ws);
    ValBound(ws[1..]);
    q := EuclidQuotient(Val(ws), Val(vs));
    assert Val(ws) < RADIX * Val(vs);
    LessFactor(q, RADIX, Val(vs));
    TopDigits(ws[1..], vs);
  }

  lemma TopDigits(s: seq<int>, t: seq<int>)
    requires Digits(s) && Digits(t) && |s| == |t| > 0 && Val(s) < Val(t)
    ensures s[|s| - 1] <= t[|t| - 1]
  {
    hide Val, Pow;
    var n := |s| - 1;
    Prefix(s, n);
    Prefix(t, n);
    assert s[..n + 1] == s && t[..n + 1] == t;
    ValBound(s[..n]);
    ValBound(t[..n]);
    if s[n] > t[n] { MulGap(Pow(n), t[n], s[n]); }
  }

  /** Part of the way through a long division of the number N by V of n digits: the low s digits of
      us are what is left, qs are the quotient digits so far. */
  ghost predicate Progress(us: seq<int>, s: nat, n: nat, V: int, qs: seq<int>, N: int) {
    && n <= s <= |us| && Digits(us) && Digits(qs)
    && (forall i :: s <= i < |us| ==> us[i] == 0)
    && Val(us[s - n..s]) < V
    && Val(us[..s]) + Pow(s - n) * (V * Val(qs)) == N
  }

  lemma ProgressStart(us: seq<int>, n: nat, V: int)
    requires n <= |us| && Digits(us) && Val(us[|us| - n..]) < V
    ensures Progress(us, |us|, n, V, [], Val(us))
  {
    assert us[..|us|] == us && us[|us| - n..|us|] == us[|us| - n..];
    assert V * 0 == 0 && Pow(|us| - n) * 0 == 0;
  }

  lemma ProgressEnd(us: seq<int>, n: nat, V: int, qs: seq<int>, N: int)
    requires Progress(us, n, n, V, qs, N)
    ensures Val(us) < V && Val(qs) * V + Val(us) == N && Digits(us) && Digits(qs)
  {
    assert Pow(0) == 1;
    hide Val, Pow;
    TrimmedValue(us, n);
    assert us[n - n..n] == us[..n];
    assert 1 * (V * Val(qs)) == Val(qs) * V;
  }

  /** One quotient digit. */
  lemma ProgressStep(us: seq<int>, us': seq<int>, s: nat, n: nat, V: int, q: int, qs: seq<int>, N: int)
    requires Progress(us, s, n, V, qs, N) && n < s && IsDigit(q)
    requires |us'| == |us| && us'[..s - 1 - n] == us[..s - 1 - n] && us'[s..] == us[s..]
    requires Reduced(us[s - 1 - n..s], us'[s - 1 - n..s], V, q) && Val(us'[s - 1 - n..s]) < V
    ensures Progress(us', s - 1, n, V, [q] + qs, N)
  {
    hide Val, Pow;
    var k := s - 1 - n;
    var low, w, w' := us[..k], us[k..s], us'[k..s];
    DigitsJoin(us', k, s);
    assert us[..s] == low + w && us'[..s - 1] == low + w'[..n];
    assert w'[..n] == us'[k..s - 1];
    ValAppend(low, w);
    ValAppend(low, w'[..n]);
    Prefix(w', n);
    assert w'[..n + 1] == w';
    assert Pow(n) * 0 == 0;
    ValCons(q, qs);
    PowUp(k);
    assert us'[s - 1] == w'[n] == 0;
    assert forall i :: s <= i < |us'| ==> us'[i] == us'[s..][i - s] == us[s..][i - s];
    StepBalance(Pow(k), RADIX, V, Val(qs), q, Val(w));
  }

  lemma DigitsJoin(us: seq<int>, k: nat, s: nat)
    requires k <= s <= |us| && Digits(us[..k]) && Digits(us[k..s]) && Digits(us[s..])
    ensures Digits(us)
  {
    forall i | 0 <= i < |us| ensures 0 <= us[i] < RADIX {
      assert us[i] == if i < k then us[..k][i] else if i < s then us[k..s][i - k] else us[s..][i - s];
    }
  }

  lemma StepBalance(p: int, b: int, V: int, x: int, q: int, w: int)
    ensures p * w + (b * p) * (V * x) == p * (w - q * V) + p * (V * (q + b * x))
  {
    assert V * (q + b * x) == q * V + b * (V * x);
    assert p * (q * V + b * (V * x)) == p * (q * V) + p * (b * (V * x));
    assert p * (b * (V * x)) == (b * p) * (V * x);
    assert p * (w - q * V) == p * w - p * (q * V);
  }

  /** Divide u by v, which is normalized; the remainder is left in u, the quotient goes into q
      unless that is out of band (null). */
  method DivideUnsignedNormalized(u: Bignum, v: Bignum, q: array?<Word>) returns (ghost qs: seq<int>)
    requires Shaped(u) && Digits(DigitsOf(u)) && Valid(v) && u != v
    requires 2 <= Len(v) <= Len(u) && v[Len(v)] >= RADIX / 2
    requires Val(DigitsOf(u)[Len(u) - Len(v)..]) < Magnitude(v)
    requires q != null ==> q != u && q != v && Shaped(q) && Len(q) == Len(u) - Len(v)
    modifies u, q
    ensures u[0] == old(u[0]) && Shaped(u) && Len(u) == old(Len(u)) && Digits(DigitsOf(u)) &&
      Magnitude(u) < Magnitude(v)
    ensures Digits(qs) && |qs| == Len(u) - Len(v)
    ensures Val(qs) * Magnitude(v) + Magnitude(u) == old(Magnitude(u))
    ensures q != null ==> q[0] == old(q[0]) && Shaped(q) && DigitsOf(q) == qs
  {
    hide Val, Pow, Progress;
    ghost var vs, N := DigitsOf(v), Magnitude(u);
    var n, length := Len(v), Len(u);
    var scan, qScan := length, length - n;
    qs := [];
    ProgressStart(DigitsOf(u), n, Magnitude(v));
    while n < scan
      invariant n <= scan <= length && qScan == scan - n && |qs| == length - scan
      invariant u[0] == old(u[0]) && Shaped(u) && Len(u) == length
      invariant Progress(DigitsOf(u), scan, n, Magnitude(v), qs, N)
      invariant q != null ==> q[0] == old(q[0]) && q[1 + qScan..1 + (length - n)] == qs
    {
      var qj := DivideOneDigit(u, v, scan, qs, N);
      scan := scan - 1;
      qScan := qScan - 1;
      if q != null {
        q[1 + qScan] := qj;
      }
      qs := [qj] + qs;
    }
    ProgressEnd(DigitsOf(u), n, Magnitude(v), qs, N);
  }

  lemma ProgressFacts(us: seq<int>, s: nat, n: nat, V: int, qs: seq<int>, N: int)
    requires Progress(us, s, n, V, qs, N)
    ensures n <= s <= |us| && Digits(us) && Val(us[s - n..s]) < V
  {}

  /** The guess for the window ws of u that ends at `scan`. */
  method GuessAt(u: Bignum, v: Bignum, scan: nat, ghost ws: seq<int>) returns (guess: Word, ghost q: int)
    requires Shaped(u) && Valid(v) && 2 <= Len(v) < scan <= Len(u) && v[Len(v)] >= RADIX / 2
    requires ws == u[scan - Len(v)..scan + 1] && Digits(ws) && Val(ws[1..]) < Magnitude(v)
    ensures IsDigit(guess) && Guessable(ws, DigitsOf(v), q, guess)
  {
    hide Val, Pow, Window, IsQuotient;
    var n := Len(v);
    ghost var vs := DigitsOf(v);
    assert vs[n - 1] == v[n] && vs[n - 2] == v[n - 1];
    q := WindowReady(ws, vs);
    assert ws[n] == u[scan] && ws[n - 1] == u[scan - 1] && ws[n - 2] == u[scan - 2];
    ghost var corrections;
    guess, corrections := GuessDigit(u[scan], u[scan - 1], u[scan - 2], v[n], v[n - 1], WindowDivision(ws, vs, q));
  }

  lemma DigitSlice(b: Bignum, lo: nat, hi: nat)
    requires Shaped(b) && lo <= hi <= Len(b)
    ensures DigitsOf(b)[lo..hi] == b[1 + lo..1 + hi]
  {
    assert forall i :: 0 <= i < hi - lo ==> DigitsOf(b)[lo..hi][i] == b[1 + lo..1 + hi][i];
  }

  lemma TailOfSlice(s: seq<int>, lo: nat, hi: nat)
    requires lo < hi <= |s|
    ensures s[lo..hi][1..] == s[lo + 1..hi]
  {}

  /** The quotient digit for the top n + 1 of the low `scan` digits of u. */
  method DivideOneDigit(u: Bignum, v: Bignum, scan: nat, ghost qs: seq<int>, ghost N: int) returns (qj: Word)
    requires Shaped(u) && Valid(v) && u != v && 2 <= Len(v) < scan <= Len(u) && v[Len(v)] >= RADIX / 2
    requires Progress(DigitsOf(u), scan, Len(v), Magnitude(v), qs, N)
    modifies u
    ensures u[0] == old(u[0]) && Shaped(u) && Len(u) == old(Len(u)) && IsDigit(qj)
    ensures Progress(DigitsOf(u), scan - 1, Len(v), Magnitude(v), [qj] + qs, N)
  {
    hide Val, Pow, Reduced, Guessable, Progress;
    var at := scan - Len(v);
    ghost var us, vs := DigitsOf(u), DigitsOf(v);
    ghost var ws := u[at..scan + 1];
    ProgressFacts(us, scan, |vs|, Val(vs), qs, N);
    DigitSlice(u, at - 1, scan);
    TailOfSlice(us, at - 1, scan);
    var guess;
    ghost var q;
    guess, q := GuessAt(u, v, scan, ws);
    qj := DivideSubtract(v, guess, u, at, q);
    ghost var us' := DigitsOf(u);
    DigitSlice(u, at - 1, scan);
    assert forall i :: 0 <= i < |us| && !(at - 1 <= i < scan) ==> us'[i] == us[i];
    assert us'[..at - 1] == us[..at - 1] && us'[scan..] == us[scan..];
    RestBelow(ws, u[at..scan + 1], vs, q, guess);
    ProgressStep(us, us', scan, |vs|, Val(vs), q, qs, N);
  }

  lemma RestBelow(ws: seq<int>, ws': seq<int>, vs: seq<int>, q: int, guess: int)
    requires Reduced(ws, ws', Val(vs), q) && Guessable(ws, vs, q, guess)
    ensures Val(ws') < Val(vs)
  {
    SmallRemainder(q, Val(vs));
  }
}
