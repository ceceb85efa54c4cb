/** The heap that is dumped, the fixups that restore it, and the copies in tospace. */
module FasdumpHeap {

  /** How the traversal treats what a pointer points to, with the type code where several are treated alike. */
  datatype Kind = Cell(code: nat) | List | OtherPair(code: nat) | Triple(code: nat) | Quadruple(code: nat) |
    Vector(code: nat) | Interned | Uninterned | VariableObject | Environment | Ephemeron

  datatype Word =
    | Object(code: nat, datum: nat)
    | Ptr(kind: Kind, addr: int)
    | BrokenHeart(heart: int)
    | NmHeader(count: nat)

  const SHARP_F := Object(0, 0)
  const UNBOUND_OBJECT := Object(0x32, 2)
  const UNCOMPILED_VARIABLE := Object(0x08, 0)
  const BROKEN_HEART_ZERO := BrokenHeart(0)

  datatype Fixup = Fixup(addr: int, content: Word)

  /** Why a dump is given up. */
  datatype Status = Fine | ObjectTooLarge | EnvironmentFound

  datatype EnvMode = ModeError | ModeDump

  datatype Obj = Obj(size: nat, ephemeron: bool)

  /** The heap and constant space are the words below `limit`; objs gives their objects. */
  datatype Heap = Heap(orig: seq<Word>, limit: nat, objs: map<int, Obj>)

  function Datum(w: Word): nat {
    match w
    case Object(_, d) => d
    case NmHeader(n) => n
    case _ => 0
  }

  /** A pointer of the kind may point to the object at a. */
  ghost predicate Fits(h: Heap, kind: Kind, a: int) {
    && a in h.objs && 0 <= a < h.limit <= |h.orig| && (h.objs[a].ephemeron <==> kind == Ephemeron)
    && match kind
       case Cell(_) => h.objs[a].size == 1
       case List => h.objs[a].size == 2
       case OtherPair(_) => h.objs[a].size == 2
       case Triple(_) => h.objs[a].size == 3
       case Quadruple(_) => h.objs[a].size == 4
       case Interned => h.objs[a].size == 2
       case Uninterned => h.objs[a].size == 2
       case VariableObject => h.objs[a].size == 3
       case _ => h.objs[a].size == 1 + Datum(h.orig[a])
  }

  ghost predicate OkWord(h: Heap, w: Word) {
    (w.Ptr? ==> Fits(h, w.kind, w.addr)) && (w.BrokenHeart? ==> w == BROKEN_HEART_ZERO)
  }

  ghost predicate ObjOk(h: Heap, a: int) {
    a in h.objs && 0 < a && 0 < h.objs[a].size && a + h.objs[a].size <= h.limit
  }

  ghost predicate Apart(h: Heap, a: int, b: int) {
    a in h.objs && b in h.objs && a < b ==> a + h.objs[a].size <= b
  }

  /** How far the scan goes for a word: behind a manifest header it skips the data. */
  function Width(w: Word): (n: nat)
    ensures n > 0
  {
    if w.NmHeader? then 1 + w.count else 1
  }

  /** The scan of the words ws comes from i to k. */
  ghost predicate Comes(ws: seq<Word>, i: int, k: int)
    decreases k - i
  {
    i == k || (0 <= i < k && i < |ws| && Comes(ws, i + 1 + (if ws[i].NmHeader? then ws[i].count else 0), k))
  }

  /** The words of an object. */
  ghost function Words(h: Heap, a: int): seq<Word> {
    if ObjOk(h, a) && h.limit <= |h.orig| then h.orig[a..a + h.objs[a].size] else []
  }

  /** Data without pointers ends where the object ends. */
  ghost predicate Walks(h: Heap, a: int) {
    a in h.objs ==> Comes(Words(h, a), 0, h.objs[a].size)
  }

  ghost predicate WellFormed(h: Heap) {
    && h.limit <= |h.orig|
    && (forall a {:trigger Walks(h, a)} :: Walks(h, a))
    && (forall p {:trigger h.orig[p]} :: 0 <= p < h.limit ==> OkWord(h, h.orig[p]) && !h.orig[p].BrokenHeart?)
    && (forall a {:trigger ObjOk(h, a)} :: a in h.objs ==> ObjOk(h, a))
    && (forall a, b {:trigger Apart(h, a, b)} :: Apart(h, a, b))
  }

  ghost predicate IsEphemeron(h: Heap, a: int) {
    a in h.objs && h.objs[a].ephemeron
  }

  /** The ephemerons among the saved objects. */
  ghost function Ephemerons(h: Heap, saved: set<int>): set<int> {
    set a | a in saved && IsEphemeron(h, a)
  }

  /** The addresses of the words that have been changed. */
  ghost function Addresses(fs: seq<Fixup>): set<int> {
    set i | 0 <= i < |fs| :: fs[i].addr
  }

  /** Every fixup has the original word, and no address is recorded twice. */
  ghost predicate FixupsOk(h: Heap, fs: seq<Fixup>) {
    && (forall i {:trigger fs[i]} :: 0 <= i < |fs| ==>
       ObjOk(h, fs[i].addr) && h.limit <= |h.orig| && fs[i].content == h.orig[fs[i].addr])
    && (forall i, j :: 0 <= i < j < |fs| ==> fs[i].addr != fs[j].addr)
  }

  /** The word at p is a broken heart just when it has been saved, and otherwise the original. */
  ghost predicate SourceWord(h: Heap, m: seq<Word>, saved: set<int>, p: int) {
    0 <= p < |h.orig| == |m| && if p in saved then m[p].BrokenHeart? && m[p].heart > 0 else m[p] == h.orig[p]
  }

  ghost predicate SourceOk(h: Heap, m: seq<Word>, saved: set<int>) {
    forall p {:trigger SourceWord(h, m, saved, p)} :: 0 <= p < h.limit ==> SourceWord(h, m, saved, p)
  }

  lemma FixupAdded(h: Heap, fs: seq<Fixup>, a: int)
    requires WellFormed(h) && FixupsOk(h, fs) && a in h.objs && a !in Addresses(fs)
    ensures ObjOk(h, a)
    ensures var fs' := fs + [Fixup(a, h.orig[a])]; FixupsOk(h, fs') && Addresses(fs') == Addresses(fs) + {a}
  {
    assert ObjOk(h, a);
    var fs' := fs + [Fixup(a, h.orig[a])];
    forall i | 0 <= i < |fs'| ensures ObjOk(h, fs'[i].addr) && fs'[i].content == h.orig[fs'[i].addr] {
      if i < |fs| { assert fs'[i] == fs[i]; }
    }
    forall i, j | 0 <= i < j < |fs'| ensures fs'[i].addr != fs'[j].addr {
      assert fs'[i] == fs[i] && fs[i].addr in Addresses(fs);
      if j < |fs| { assert fs'[j] == fs[j]; }
    }
    forall x ensures x in Addresses(fs') <==> x in Addresses(fs) || x == a {
      if x in Addresses(fs) {
        var i :| 0 <= i < |fs| && fs[i].addr == x;
        assert fs'[i].addr == x;
      }
      assert fs'[|fs|].addr == a;
    }
  }

  /** The words of an object that has not been copied are the original ones. */
  lemma WholeObject(h: Heap, m: seq<Word>, fs: seq<Fixup>, a: int)
    requires WellFormed(h) && SourceOk(h, m, Addresses(fs)) && FixupsOk(h, fs) && a in h.objs && a !in Addresses(fs)
    ensures ObjOk(h, a) && |m| == |h.orig| && forall p :: a <= p < a + h.objs[a].size ==> m[p] == h.orig[p]
  {
    assert ObjOk(h, a) && SourceWord(h, m, Addresses(fs), a);
    forall p | a <= p < a + h.objs[a].size ensures m[p] == h.orig[p] {
      assert SourceWord(h, m, Addresses(fs), p);
      assert Apart(h, a, p);
    }
  }

  /** The original word at p. */
  ghost function Original(h: Heap, p: int): Word {
    if 0 <= p < |h.orig| then h.orig[p] else SHARP_F
  }

  /** The word at a becomes a broken heart. */
  lemma HeartWritten(h: Heap, m: seq<Word>, m': seq<Word>, saved: set<int>, a: int)
    requires SourceOk(h, m, saved) && |m'| == |m| && 0 <= a < |m| && m'[a].BrokenHeart? && m'[a].heart > 0
    requires forall p :: 0 <= p < h.limit && p != a && p < |m| ==> m'[p] == m[p]
    ensures SourceOk(h, m', saved + {a})
  {
    forall p | 0 <= p < h.limit ensures SourceWord(h, m', saved + {a}, p) { assert SourceWord(h, m, saved, p); }
  }

  lemma EphemeronCounted(h: Heap, saved: set<int>, a: int)
    requires a !in saved
    ensures |Ephemerons(h, saved + {a})| == |Ephemerons(h, saved)| + if IsEphemeron(h, a) then 1 else 0
  {
    assert Ephemerons(h, saved + {a}) == Ephemerons(h, saved) + if IsEphemeron(h, a) then {a} else {};
  }

  /** A write to tospace does not concern the source. */
  lemma SourceKept(h: Heap, m: seq<Word>, saved: set<int>, p: nat, w: Word)
    requires SourceOk(h, m, saved) && h.limit <= p < |m|
    ensures SourceOk(h, m[p := w], saved)
  {
    var m' := m[p := w];
    forall q | 0 <= q < h.limit ensures SourceWord(h, m', saved, q) { assert SourceWord(h, m, saved, q); }
  }

  lemma OriginalNotBroken(h: Heap, p: int)
    requires WellFormed(h) && 0 <= p < h.limit
    ensures !h.orig[p].BrokenHeart?
  {}

  /** The words of a copy are words of the heap. */
  lemma CopiedOk(h: Heap, a: int, m: seq<Word>, at: nat)
    requires WellFormed(h) && ObjOk(h, a) && at + h.objs[a].size <= |m|
    requires forall p {:trigger m[p]} :: at <= p < at + h.objs[a].size ==> m[p] == Original(h, a + (p - at))
    ensures forall p {:trigger m[p]} :: at <= p < at + h.objs[a].size ==> OkWord(h, m[p])
  {
    forall p | at <= p < at + h.objs[a].size ensures OkWord(h, m[p]) {
      assert m[p] == h.orig[a + (p - at)];
    }
  }
}
