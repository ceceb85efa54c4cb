/** Trees of names: the case-insensitive order, balance, and insertion on values. */
module AvlTree {
  import opened Bits

  /** The bytes of a C string before the terminating zero. */
  type Name = seq<nat>

  const LOWER_A: nat := 97
  const LOWER_Z: nat := 122

  /** toupper. */
  function ToUpper(c: nat): nat {
    if LOWER_A <= c <= LOWER_Z then c - 32 else c
  }

  datatype Order = Less | Same | Greater

  /** strcmp_ci. */
  function Compared(a: Name, b: Name): Order {
    if a == [] then (if b == [] then Same else Less)
    else if b == [] then Greater
    else if ToUpper(a[0]) < ToUpper(b[0]) then Less
    else if ToUpper(a[0]) > ToUpper(b[0]) then Greater
    else Compared(a[1..], b[1..])
  }

  /** One character, or one ASCII letter in two cases. */
  predicate SameLetter(c: nat, d: nat) {
    c == d || (65 <= c <= 90 && d == c + 32) || (97 <= c <= 122 && d == c - 32)
  }

  /** u is c, or the capital letter of which c is the small one. */
  predicate Capital(c: nat, u: nat) {
    if 97 <= c <= 122 then u == c - 32 else u == c
  }

  /** The comparison ignores the case of letters.  The first k characters agree, and there it is decided:
      a name that ends before the other is less, and otherwise the capitals are compared. */
  lemma {:induction false} ComparedLaw(a: Name, b: Name, k: nat)
    requires k <= |a| && k <= |b| && forall i :: 0 <= i < k ==> SameLetter(a[i], b[i])
    requires k == |a| || k == |b| || !SameLetter(a[k], b[k])
    ensures k == |a| ==> Compared(a, b) == if k == |b| then Same else Less
    ensures k == |b| && k < |a| ==> Compared(a, b) == Greater
    ensures k < |a| && k < |b| ==> forall u, w :: Capital(a[k], u) && Capital(b[k], w) ==>
      u != w && Compared(a, b) == if u < w then Less else Greater
  {
    if k > 0 {
      assert SameLetter(a[0], b[0]);
      forall i | 0 <= i < k - 1 ensures SameLetter(a[1..][i], b[1..][i]) { assert SameLetter(a[i + 1], b[i + 1]); }
      ComparedLaw(a[1..], b[1..], k - 1);
    }
  }

  predicate Before(a: Name, b: Name) {
    Compared(a, b) == Less
  }

  lemma {:induction false} ComparedTwice(a: Name, b: Name)
    ensures Compared(a, b) == Less <==> Compared(b, a) == Greater
    ensures Compared(a, b) == Same <==> Compared(b, a) == Same
    decreases |a|
  {
    if a != [] && b != [] { ComparedTwice(a[1..], b[1..]); }
  }

  /** The order is transitive, also through names that differ only in case. */
  lemma {:induction false} BeforeTrans(a: Name, b: Name, c: Name)
    requires Compared(a, b) != Greater && Compared(b, c) != Greater
    ensures Compared(a, c) != Greater
    ensures Before(a, b) || Before(b, c) ==> Before(a, c)
    ensures Compared(a, b) == Same && Compared(b, c) == Same ==> Compared(a, c) == Same
    decreases |a|
  {
    if a != [] && b != [] && c != [] && ToUpper(a[0]) == ToUpper(b[0]) == ToUpper(c[0]) {
      BeforeTrans(a[1..], b[1..], c[1..]);
    }
  }

  datatype Entry = Entry(name: Name, value: nat)

  datatype Tree = Empty | Node(left: Tree, entry: Entry, height: int, rite: Tree)

  /** BRANCH_HEIGHT. */
  function Height(t: Tree): int {
    if t.Empty? then 0 else t.height
  }

  function Max(a: int, b: int): int {
    if a >= b then a else b
  }

  /** A node with the height that update_height gives it. */
  function Updated(left: Tree, e: Entry, rite: Tree): Tree {
    Node(left, e, 1 + Max(Height(left), Height(rite)), rite)
  }

  function RotateLeft(t: Tree): Tree
    requires t.Node? && t.rite.Node?
  {
    Updated(Updated(t.left, t.entry, t.rite.left), t.rite.entry, t.rite.rite)
  }

  function RotateRite(t: Tree): Tree
    requires t.Node? && t.left.Node?
  {
    Updated(t.left.left, t.left.entry, Updated(t.left.rite, t.entry, t.rite))
  }

  function RebalanceLeft(t: Tree): Tree
    requires t.Node?
  {
    if 1 + Height(t.rite) >= Height(t.left) then Updated(t.left, t.entry, t.rite)
    else if t.left.Node? && Height(t.left.rite) > Height(t.left.left) && t.left.rite.Node?
      then RotateRite(t.(left := RotateLeft(t.left)))
    else if t.left.Node? then RotateRite(t)
    else t
  }

  function RebalanceRite(t: Tree): Tree
    requires t.Node?
  {
    if 1 + Height(t.left) >= Height(t.rite) then Updated(t.left, t.entry, t.rite)
    else if t.rite.Node? && Height(t.rite.left) > Height(t.rite.rite) && t.rite.left.Node?
      then RotateLeft(t.(rite := RotateRite(t.rite)))
    else if t.rite.Node? then RotateLeft(t)
    else t
  }

  /** tree_insert. */
  function Insert(t: Tree, e: Entry): Tree {
    if t.Empty? then Node(Empty, e, 1, Empty)
    else match Compared(e.name, t.entry.name)
      case Same => t
      case Less => RebalanceLeft(t.(left := Insert(t.left, e)))
      case Greater => RebalanceRite(t.(rite := Insert(t.rite, e)))
  }

  // ---------------------------------------------------------------- balance

  /** Every height is right, and the branches of every node differ by one at most. */
  predicate Balanced(t: Tree) {
    t.Node? ==>
      && Balanced(t.left) && Balanced(t.rite)
      && t.height == 1 + Max(Height(t.left), Height(t.rite))
      && -1 <= Height(t.left) - Height(t.rite) <= 1
  }

  lemma {:induction false} HeightPositive(t: Tree)
    requires Balanced(t)
    ensures Height(t) >= 0 && (t.Node? ==> Height(t) > 0)
  {
    if t.Node? {
      HeightPositive(t.left);
      HeightPositive(t.rite);
    }
  }

  /** A left branch that is too high by one is brought into balance. */
  lemma RebalancedLeft(t: Tree)
    requires t.Node? && Balanced(t.left) && Balanced(t.rite) && -1 <= Height(t.left) - Height(t.rite) <= 2
    ensures Balanced(RebalanceLeft(t))
    ensures var h := Max(Height(t.left), Height(t.rite)); h <= Height(RebalanceLeft(t)) <= h + 1
    ensures Height(t.left) - Height(t.rite) <= 1 ==> Height(RebalanceLeft(t)) == 1 + Max(Height(t.left), Height(t.rite))
  {
    HeightPositive(t.left);
    HeightPositive(t.rite);
    if Height(t.left) - Height(t.rite) == 2 {
      HeightPositive(t.left.left);
      HeightPositive(t.left.rite);
      if t.left.rite.Node? {
        HeightPositive(t.left.rite.left);
        HeightPositive(t.left.rite.rite);
      }
    }
  }

  lemma RebalancedRite(t: Tree)
    requires t.Node? && Balanced(t.left) && Balanced(t.rite) && -1 <= Height(t.rite) - Height(t.left) <= 2
    ensures Balanced(RebalanceRite(t))
    ensures var h := Max(Height(t.left), Height(t.rite)); h <= Height(RebalanceRite(t)) <= h + 1
    ensures Height(t.rite) - Height(t.left) <= 1 ==> Height(RebalanceRite(t)) == 1 + Max(Height(t.left), Height(t.rite))
  {
    HeightPositive(t.left);
    HeightPositive(t.rite);
    if Height(t.rite) - Height(t.left) == 2 {
      HeightPositive(t.rite.left);
      HeightPositive(t.rite.rite);
      if t.rite.left.Node? {
        HeightPositive(t.rite.left.left);
        HeightPositive(t.rite.left.rite);
      }
    }
  }

  /** Insertion keeps the tree balanced, and lets it grow by one at most. */
  lemma {:induction false} InsertBalanced(t: Tree, e: Entry)
    requires Balanced(t)
    ensures Balanced(Insert(t, e)) && Height(t) <= Height(Insert(t, e)) <= Height(t) + 1
  {
    if t.Node? {
      match Compared(e.name, t.entry.name) {
        case Less =>
          InsertBalanced(t.left, e);
          RebalancedLeft(t.(left := Insert(t.left, e)));
        case Greater =>
          InsertBalanced(t.rite, e);
          RebalancedRite(t.(rite := Insert(t.rite, e)));
        case Same =>
      }
    }
  }

  // ---------------------------------------------------------------- contents

  /** The entries from left to right. */
  function Entries(t: Tree): seq<Entry> {
    if t.Empty? then [] else Entries(t.left) + [t.entry] + Entries(t.rite)
  }

  predicate Sorted(es: seq<Entry>) {
    forall i, j :: 0 <= i < j < |es| ==> Before(es[i].name, es[j].name)
  }

  predicate Has(es: seq<Entry>, name: Name) {
    exists i :: 0 <= i < |es| && Compared(name, es[i].name) == Same
  }

  /** es with e in its place. */
  function Inserted(es: seq<Entry>, e: Entry): seq<Entry> {
    if es == [] || Before(e.name, es[0].name) then [e] + es else [es[0]] + Inserted(es[1..], e)
  }

  lemma RotationsKeep(t: Tree)
    requires t.Node?
    ensures t.rite.Node? ==> Entries(RotateLeft(t)) == Entries(t)
    ensures t.left.Node? ==> Entries(RotateRite(t)) == Entries(t)
  {
    if t.rite.Node? { Reassociate(Entries(t.left), t.entry, Entries(t.rite.left), t.rite.entry, Entries(t.rite.rite)); }
    if t.left.Node? { Reassociate(Entries(t.left.left), t.left.entry, Entries(t.left.rite), t.entry, Entries(t.rite)); }
  }

  lemma Reassociate(a: seq<Entry>, x: Entry, b: seq<Entry>, y: Entry, c: seq<Entry>)
    ensures (a + [x] + b) + [y] + c == a + [x] + (b + [y] + c)
  {}

  lemma RebalancingKeeps(t: Tree)
    requires t.Node?
    ensures Entries(RebalanceLeft(t)) == Entries(t) && Entries(RebalanceRite(t)) == Entries(t)
  {
    RotationsKeep(t);
    if t.left.Node? && t.left.rite.Node? {
      RotationsKeep(t.left);
      RotationsKeep(t.(left := RotateLeft(t.left)));
    }
    if t.rite.Node? && t.rite.left.Node? {
      RotationsKeep(t.rite);
      RotationsKeep(t.(rite := RotateRite(t.rite)));
    }
  }

  lemma {:induction false} InsertedLeft(l: seq<Entry>, m: Entry, r: seq<Entry>, e: Entry)
    requires Before(e.name, m.name)
    ensures Inserted(l + [m] + r, e) == Inserted(l, e) + [m] + r
  {
    hide Before;
    var es := l + [m] + r;
    if l != [] && !Before(e.name, l[0].name) {
      assert es[1..] == l[1..] + [m] + r;
      InsertedLeft(l[1..], m, r, e);
    }
  }

  lemma {:induction false} InsertedRite(l: seq<Entry>, m: Entry, r: seq<Entry>, e: Entry)
    requires !Before(e.name, m.name) && forall i :: 0 <= i < |l| ==> !Before(e.name, l[i].name)
    ensures Inserted(l + [m] + r, e) == l + [m] + Inserted(r, e)
  {
    hide Before;
    var es := l + [m] + r;
    if l == [] {
      assert es[1..] == r;
    } else {
      assert es[1..] == l[1..] + [m] + r;
      InsertedRite(l[1..], m, r, e);
    }
  }

  lemma SortedParts(l: seq<Entry>, m: Entry, r: seq<Entry>)
    requires Sorted(l + [m] + r)
    ensures Sorted(l) && Sorted(r)
    ensures forall i :: 0 <= i < |l| ==> Before(l[i].name, m.name)
    ensures forall i :: 0 <= i < |r| ==> Before(m.name, r[i].name)
  {
    var es := l + [m] + r;
    assert forall i :: 0 <= i < |l| ==> es[i] == l[i];
    assert es[|l|] == m;
    assert forall i :: 0 <= i < |r| ==> es[|l| + 1 + i] == r[i];
  }

  lemma HasParts(l: seq<Entry>, m: Entry, r: seq<Entry>, name: Name)
    ensures Has(l + [m] + r, name) <==> Has(l, name) || Compared(name, m.name) == Same || Has(r, name)
  {
    var es := l + [m] + r;
    if Has(l, name) {
      var i :| 0 <= i < |l| && Compared(name, l[i].name) == Same;
      assert es[i] == l[i];
    }
    if Compared(name, m.name) == Same { assert es[|l|] == m; }
    if Has(r, name) {
      var i :| 0 <= i < |r| && Compared(name, r[i].name) == Same;
      assert es[|l| + 1 + i] == r[i];
    }
    if Has(es, name) {
      var i :| 0 <= i < |es| && Compared(name, es[i].name) == Same;
      assert es[i] == if i < |l| then l[i] else if i == |l| then m else r[i - |l| - 1];
    }
  }

  /** In a sorted tree, the branch not taken does not hold the name. */
  lemma OneSide(l: seq<Entry>, m: Entry, r: seq<Entry>, name: Name)
    requires Sorted(l + [m] + r)
    ensures Before(name, m.name) ==> !Has(r, name)
    ensures Compared(name, m.name) == Greater ==> !Has(l, name) && forall i :: 0 <= i < |l| ==> !Before(name, l[i].name)
    ensures Compared(name, m.name) == Same ==> !Has(l, name) && !Has(r, name)
  {
    SortedParts(l, m, r);
    forall i | 0 <= i < |r| && Compared(name, m.name) != Greater ensures Compared(name, r[i].name) == Less {
      BeforeTrans(name, m.name, r[i].name);
    }
    forall i | 0 <= i < |l| && Compared(name, m.name) != Less ensures Compared(name, l[i].name) == Greater {
      ComparedTwice(name, m.name);
      ComparedTwice(name, l[i].name);
      BeforeTrans(l[i].name, m.name, name);
    }
  }

  /** Insertion adds exactly the new entry, in its place; a name that is there already changes nothing. */
  lemma {:induction false} InsertEntries(t: Tree, e: Entry)
    requires Sorted(Entries(t))
    ensures if Has(Entries(t), e.name) then Entries(Insert(t, e)) == Entries(t)
      else Entries(Insert(t, e)) == Inserted(Entries(t), e)
  {
    if t.Empty? {
      assert Entries(Insert(t, e)) == [e];
    } else {
      var l, m, r := Entries(t.left), t.entry, Entries(t.rite);
      SortedParts(l, m, r);
      HasParts(l, m, r, e.name);
      OneSide(l, m, r, e.name);
      match Compared(e.name, m.name) {
        case Same =>
        case Less =>
          InsertEntries(t.left, e);
          RebalancingKeeps(t.(left := Insert(t.left, e)));
          InsertedLeft(l, m, r, e);
        case Greater =>
          InsertEntries(t.rite, e);
          RebalancingKeeps(t.(rite := Insert(t.rite, e)));
          InsertedRite(l, m, r, e);
      }
    }
  }

  lemma {:induction false} InsertedOne(es: seq<Entry>, e: Entry)
    ensures multiset(Inserted(es, e)) == multiset(es) + multiset{e}
    decreases |es|
  {
    if es != [] && !Before(e.name, es[0].name) {
      assert es == [es[0]] + es[1..];
      InsertedOne(es[1..], e);
    }
  }

  /** The entries stay sorted. */
  lemma {:induction false} InsertedSorted(es: seq<Entry>, e: Entry)
    requires Sorted(es) && !Has(es, e.name)
    ensures Sorted(Inserted(es, e))
    decreases |es|
  {
    if es != [] {
      assert Compared(e.name, es[0].name) != Same;
      var rest := es[1..];
      assert forall i :: 0 <= i < |rest| ==> rest[i] == es[i + 1];
      if Before(e.name, es[0].name) {
        forall i | 0 < i < |es| ensures Before(e.name, es[i].name) { BeforeTrans(e.name, es[0].name, es[i].name); }
      } else {
        InsertedSorted(rest, e);
        ComparedTwice(e.name, es[0].name);
        AllAfter(es[0], rest, e);
      }
    }
  }

  lemma AllAfter(first: Entry, rest: seq<Entry>, e: Entry)
    requires Before(first.name, e.name) && forall i :: 0 <= i < |rest| ==> Before(first.name, rest[i].name)
    ensures forall i :: 0 <= i < |Inserted(rest, e)| ==> Before(first.name, Inserted(rest, e)[i].name)
  {
    hide Before, Inserted;
    InsertedOne(rest, e);
    var later := Inserted(rest, e);
    forall i | 0 <= i < |later| ensures Before(first.name, later[i].name) {
      assert later[i] in multiset(later);
      assert later[i] != e ==> later[i] in rest;
    }
  }

  lemma InsertSorted(t: Tree, e: Entry)
    requires Sorted(Entries(t))
    ensures Sorted(Entries(Insert(t, e)))
  {
    InsertEntries(t, e);
    if !Has(Entries(t), e.name) { InsertedSorted(Entries(t), e); }
  }

  // ---------------------------------------------------------------- size

  function Size(t: Tree): nat {
    if t.Empty? then 0 else 1 + Size(t.left) + Size(t.rite)
  }

  function Fib(n: nat): nat {
    if n < 2 then n else Fib(n - 1) + Fib(n - 2)
  }

  lemma {:induction false} FibMonotone(n: nat)
    ensures Fib(n) <= Fib(n + 1)
  {
    if n >= 2 { FibMonotone(n - 1); FibMonotone(n - 2); }
  }

  /** A balanced tree of height h has at least Fib(h + 2) - 1 nodes. */
  lemma {:induction false} AtLeastFibonacci(t: Tree)
    requires Balanced(t)
    ensures Height(t) >= 0 && Size(t) >= Fib(Height(t) + 2) - 1
  {
    HeightPositive(t);
    if t.Node? {
      AtLeastFibonacci(t.left);
      AtLeastFibonacci(t.rite);
      var h := Height(t);
      FibMonotone(h);
      assert Fib(h + 2) == Fib(h + 1) + Fib(h);
    }
  }

  // ---------------------------------------------------------------- building

  function Middle(high: nat, bias: nat): (middle: nat)
    requires high > 1 && bias <= 1
    ensures middle < high && (middle == high / 2 || middle == (high - 1) / 2) && high - middle - 1 + middle == high - 1
  {
    if high % 2 == 0 then high / 2 - bias else high / 2
  }

  /** The static bias alternates at every even size. */
  function Biased(high: nat, bias: nat): (b: nat)
    ensures bias <= 1 ==> b <= 1
  {
    if high % 2 == 0 && bias <= 1 then 1 - bias else bias
  }

  /** The bias after a tree of `high` names has been built. */
  function NextBias(high: nat, bias: nat): (b: nat)
    requires bias <= 1
    ensures b <= 1
    decreases high
  {
    if high > 1
    then NextBias(high - Middle(high, bias) - 1, NextBias(Middle(high, bias), Biased(high, bias)))
    else bias
  }

  /** tree_build. */
  function Built(high: nat, names: seq<Name>, value: nat, bias: nat): Tree
    requires high <= |names| && bias <= 1
    decreases high
  {
    if high > 1 then
      var middle := Middle(high, bias);
      var bias1 := Biased(high, bias);
      Updated(Built(middle, names, value, bias1), Entry(names[middle], value + middle),
              Built(high - middle - 1, names[middle + 1..], value + middle + 1, NextBias(middle, bias1)))
    else if high == 1 then Node(Empty, Entry(names[0], value), 1, Empty)
    else Empty
  }

  /** The static variable as it is passed on by one level of the recursion. */
  lemma BiasStep(high: nat, bias: nat)
    requires bias <= 1
    ensures high > 1 ==>
      var middle, bias1 := Middle(high, bias), Biased(high, bias);
      NextBias(high, bias) == NextBias(high - middle - 1, NextBias(middle, bias1))
    ensures high <= 1 ==> NextBias(high, bias) == bias
  {}

  /** A tree of an odd number of names leaves the bias as it is. */
  lemma {:induction false} BiasOdd(high: nat, bias: nat)
    requires bias <= 1 && high % 2 == 1
    ensures NextBias(high, bias) == bias
    decreases high, 0
  {
    BiasStep(high, bias);
    hide NextBias;
    if high > 1 { BiasTwice(high / 2, bias); }
  }

  /** Two trees of one size leave it as it is. */
  lemma {:induction false} BiasTwice(high: nat, bias: nat)
    requires bias <= 1
    ensures NextBias(high, NextBias(high, bias)) == bias
    decreases high, 1
  {
    if high % 2 == 1 {
      BiasOdd(high, bias);
    } else if high > 1 {
      var half := if high / 2 % 2 == 0 then high / 2 else high / 2 - 1;
      BiasEven(high, bias);
      BiasEven(high, NextBias(high, bias));
      BiasFlips(half, bias);
      BiasTwice(half, bias);
    }
  }

  /** The bias only matters for which of its two values it ends with. */
  lemma {:induction false} BiasFlips(high: nat, bias: nat)
    requires bias <= 1
    ensures NextBias(high, 1 - bias) == 1 - NextBias(high, bias)
    decreases high, 1
  {
    if high % 2 == 1 {
      BiasOdd(high, bias);
      BiasOdd(high, 1 - bias);
    } else if high > 1 {
      BiasEven(high, bias);
      BiasEven(high, 1 - bias);
      BiasFlips(if high / 2 % 2 == 0 then high / 2 else high / 2 - 1, bias);
    }
  }

  /** A tree of an even number of names turns the bias once more than its branch of even size does. */
  lemma {:induction false} BiasEven(high: nat, bias: nat)
    requires bias <= 1 && high % 2 == 0 && high > 0
    ensures var half := if high / 2 % 2 == 0 then high / 2 else high / 2 - 1;
      NextBias(high, bias) == 1 - NextBias(half, bias)
    decreases high, 0
  {
    hide NextBias;
    BiasStep(high, bias);
    var m := high / 2;
    var middle := m - bias;
    var half, other := if m % 2 == 0 then m else m - 1, if m % 2 == 0 then m - 1 else m;
    BiasOdd(other, 1 - bias);
    BiasFlips(half, bias);
    if middle == half { BiasOdd(other, NextBias(half, 1 - bias)); }
  }

  /** The case of two names or more. */
  function BuiltTwo(high: nat, names: seq<Name>, value: nat, bias: nat): Tree
    requires 1 < high <= |names| && bias <= 1
  {
    var middle := Middle(high, bias);
    var bias1 := Biased(high, bias);
    Updated(Built(middle, names, value, bias1), Entry(names[middle], value + middle),
            Built(high - middle - 1, names[middle + 1..], value + middle + 1, NextBias(middle, bias1)))
  }

  /** Two trees of about the same size under one node. */
  lemma BuiltNode(l: Tree, e: Entry, r: Tree, high: nat, middle: nat)
    requires 1 < high && (middle == high / 2 || middle == (high - 1) / 2) && middle < high
    requires Balanced(l) && Height(l) == BitLength(middle) && Size(l) == middle
    requires Balanced(r) && Height(r) == BitLength(high - middle - 1) && Size(r) == high - middle - 1
    ensures var t := Updated(l, e, r); Balanced(t) && Height(t) == BitLength(high) && Size(t) == high
  {
    hide BitLength;
    HalvesLength(high);
    assert high - middle - 1 == high / 2 || high - middle - 1 == (high - 1) / 2;
    assert middle == high / 2 || high - middle - 1 == high / 2;
  }

  /** One level of the recursion. */
  lemma BuiltIs(high: nat, names: seq<Name>, value: nat, bias: nat)
    requires high <= |names| && bias <= 1
    ensures high > 1 ==> Built(high, names, value, bias) == BuiltTwo(high, names, value, bias)
    ensures high == 1 ==> Built(high, names, value, bias) == Node(Empty, Entry(names[0], value), 1, Empty)
    ensures high == 0 ==> Built(high, names, value, bias) == Empty
  {
    hide NextBias, Biased, Middle;
  }

  /** The tree that is built has the least height there is for its size, and it is balanced. */
  lemma {:induction false} BuiltBalanced(high: nat, names: seq<Name>, value: nat, bias: nat)
    requires high <= |names| && bias <= 1
    ensures var t := Built(high, names, value, bias); Balanced(t) && Height(t) == BitLength(high) && Size(t) == high
    decreases high
  {
    hide Built, NextBias, Biased, Middle;
    BuiltIs(high, names, value, bias);
    if high > 1 {
      var middle, bias1 := Middle(high, bias), Biased(high, bias);
      BuiltBalanced(middle, names, value, bias1);
      BuiltBalanced(high - middle - 1, names[middle + 1..], value + middle + 1, NextBias(middle, bias1));
      hide Balanced, Updated, Height, Size;
      BuiltNode(Built(middle, names, value, bias1), Entry(names[middle], value + middle),
                Built(high - middle - 1, names[middle + 1..], value + middle + 1, NextBias(middle, bias1)), high,
                  middle);
    }
  }

  /** The halves of n - 1 have one bit less than n, or the smaller one two less. */
  lemma {:induction false} HalvesLength(n: nat)
    requires n > 1
    ensures BitLength(n) == 1 + BitLength(n / 2)
    ensures BitLength(n / 2) - 1 <= BitLength((n - 1) / 2) <= BitLength(n / 2)
    decreases n
  {
    if n > 3 {
      HalvesLength(n / 2);
      if n % 2 == 0 {
        assert (n - 1) / 2 == n / 2 - 1;
        OneLess(n / 2);
      } else {
        assert (n - 1) / 2 == n / 2;
      }
    }
  }

  lemma {:induction false} OneLess(n: nat)
    requires n > 0
    ensures BitLength(n) - 1 <= BitLength(n - 1) <= BitLength(n)
    decreases n
  {
    if n > 1 && n % 2 == 0 {
      OneLess(n / 2);
      assert (n - 1) / 2 == n / 2 - 1;
    }
  }

  /** It holds the names in their order, each with its index. */
  lemma {:induction false} BuiltEntries(high: nat, names: seq<Name>, value: nat, bias: nat)
    requires high <= |names| && bias <= 1
    ensures var es := Entries(Built(high, names, value, bias));
      |es| == high && forall i :: 0 <= i < high ==> es[i] == Entry(names[i], value + i)
    decreases high
  {
    hide Built, NextBias, Biased, Middle;
    BuiltIs(high, names, value, bias);
    if high > 1 {
      var middle, bias1 := Middle(high, bias), Biased(high, bias);
      var next := middle + 1;
      BuiltEntries(middle, names, value, bias1);
      BuiltEntries(high - next, names[next..], value + next, NextBias(middle, bias1));
      JoinedEntries(high, names, value, middle, Entries(Built(middle, names, value, bias1)),
                    Entries(Built(high - next, names[next..], value + next, NextBias(middle, bias1))));
    } else if high == 1 {
      assert Entries(Built(high, names, value, bias)) == [Entry(names[0], value)];
    }
  }

  lemma JoinedEntries(high: nat, names: seq<Name>, value: nat, middle: nat, l: seq<Entry>, r: seq<Entry>)
    requires middle < high <= |names| && |l| == middle && |r| == high - middle - 1
    requires forall i :: 0 <= i < middle ==> l[i] == Entry(names[i], value + i)
    requires forall i :: 0 <= i < |r| ==> r[i] == Entry(names[middle + 1..][i], value + middle + 1 + i)
    ensures var es := l + [Entry(names[middle], value + middle)] + r;
      |es| == high && forall i :: 0 <= i < high ==> es[i] == Entry(names[i], value + i)
  {
    var es := l + [Entry(names[middle], value + middle)] + r;
    forall i | 0 <= i < high ensures es[i] == Entry(names[i], value + i) {
      if i > middle { assert es[i] == r[i - middle - 1]; }
    }
  }

  // ---------------------------------------------------------------- looking up

  datatype Found = NotFound | Found(entry: Entry)

  /** tree_lookup. */
  function Lookup(t: Tree, name: Name): Found {
    if t.Empty? then NotFound
    else match Compared(name, t.entry.name)
      case Same => Found(t.entry)
      case Less => Lookup(t.left, name)
      case Greater => Lookup(t.rite, name)
  }

  /** It finds the entry with the name just when there is one. */
  lemma {:induction false} LookupFinds(t: Tree, name: Name)
    requires Sorted(Entries(t))
    ensures Lookup(t, name).Found? <==> Has(Entries(t), name)
    ensures Lookup(t, name).Found? ==>
      Lookup(t, name).entry in Entries(t) && Compared(name, Lookup(t, name).entry.name) == Same
  {
    if t.Node? {
      var l, m, r := Entries(t.left), t.entry, Entries(t.rite);
      SortedParts(l, m, r);
      HasParts(l, m, r, name);
      OneSide(l, m, r, name);
      LookupFinds(t.left, name);
      LookupFinds(t.rite, name);
    }
  }

  /** In the tree built from sorted names, each name is found with its index. */
  lemma BuiltLookup(names: seq<Name>, value: nat, bias: nat, i: nat)
    requires bias <= 1 && i < |names| && forall j, k :: 0 <= j < k < |names| ==> Before(names[j], names[k])
    ensures Lookup(Built(|names|, names, value, bias), names[i]) == Found(Entry(names[i], value + i))
  {
    var t := Built(|names|, names, value, bias);
    BuiltEntries(|names|, names, value, bias);
    var es := Entries(t);
    LookupFinds(t, names[i]);
    SameAsItself(names[i]);
    assert Compared(names[i], es[i].name) == Same;
    var found := Lookup(t, names[i]).entry;
    var k :| 0 <= k < |es| && es[k] == found;
    ComparedTwice(names[i], names[k]);
  }

  lemma {:induction false} SameAsItself(a: Name)
    ensures Compared(a, a) == Same
    decreases |a|
  {
    if a != [] { SameAsItself(a[1..]); }
  }

  /** After an insertion the new name is found, with its value unless it was there already; any other name
      is found with the value it had, or not at all. */
  lemma InsertThenLookup(t: Tree, e: Entry, name: Name)
    requires Sorted(Entries(t))
    ensures Lookup(t, e.name).NotFound? ==> Lookup(Insert(t, e), e.name) == Found(e)
    ensures Lookup(t, e.name).Found? || Compared(name, e.name) != Same ==>
      Lookup(Insert(t, e), name) == Lookup(t, name)
  {
    hide Lookup, Insert, Entries, Sorted, Has, Compared;
    InsertEntries(t, e);
    InsertSorted(t, e);
    LookupFinds(t, e.name);
    LookupFinds(Insert(t, e), e.name);
    LookupFinds(t, name);
    LookupFinds(Insert(t, e), name);
    if !Has(Entries(t), e.name) {
      InsertedOne(Entries(t), e);
      NewName(Entries(t), Entries(Insert(t, e)), e, Lookup(Insert(t, e), e.name));
      if Compared(name, e.name) != Same { SameNames(Entries(t), Entries(Insert(t, e)), e, name); }
    }
    if Lookup(t, name).Found? && Lookup(Insert(t, e), name).Found? {
      assert Lookup(t, name).entry in multiset(Entries(Insert(t, e)));
      OneEntry(Entries(Insert(t, e)), Lookup(t, name).entry, Lookup(Insert(t, e), name).entry, name);
    }
  }

  /** A sorted sequence has one entry for a name. */
  lemma OneEntry(es: seq<Entry>, a: Entry, b: Entry, name: Name)
    requires Sorted(es) && a in es && b in es && Compared(name, a.name) == Same && Compared(name, b.name) == Same
    ensures a == b
  {
    var i :| 0 <= i < |es| && es[i] == a;
    var j :| 0 <= j < |es| && es[j] == b;
    ComparedTwice(name, a.name);
    ComparedTwice(name, b.name);
    BeforeTrans(a.name, name, b.name);
    BeforeTrans(b.name, name, a.name);
  }

  lemma NewName(es: seq<Entry>, es': seq<Entry>, e: Entry, found: Found)
    requires multiset(es') == multiset(es) + multiset{e} && !Has(es, e.name)
    requires found.Found? <==> Has(es', e.name)
    requires found.Found? ==> found.entry in es' && Compared(e.name, found.entry.name) == Same
    ensures found == Found(e)
  {
    hide Compared;
    SameAsItself(e.name);
    assert e in multiset(es');
    var i :| 0 <= i < |es'| && es'[i] == e;
    assert Has(es', e.name);
    assert found.entry in multiset(es');
  }

  lemma SameNames(es: seq<Entry>, es': seq<Entry>, e: Entry, name: Name)
    requires multiset(es') == multiset(es) + multiset{e} && Compared(name, e.name) != Same
    ensures Has(es', name) <==> Has(es, name)
  {
    if Has(es, name) {
      var i :| 0 <= i < |es| && Compared(name, es[i].name) == Same;
      assert es[i] in multiset(es');
      var j :| 0 <= j < |es'| && es'[j] == es[i];
    }
    if Has(es', name) {
      var i :| 0 <= i < |es'| && Compared(name, es'[i].name) == Same;
      assert es'[i] in multiset(es') && es'[i] != e;
      assert es'[i] in multiset(es);
      var j :| 0 <= j < |es| && es[j] == es'[i];
    }
  }
}
