/** The heap as the collector sees it before a collection: tagged words, the objects of
    fromspace, the pinned regions that are scanned in place, and reachability. */
module GcHeap {

  /** How a pointer's type code makes the collector treat its target (gc_type_map). */
  datatype PtrClass = Cell | Pair | Triple | Quadruple | Vector | WeakPair | Ephemeron

  /** A word.  An immediate reference trap is an Imm, any other reference trap a Pair pointer. */
  datatype Word =
    | Imm(code: nat, datum: int)
    | Ptr(cls: PtrClass, code: nat, addr: int)
    | BrokenHeart(heart: int)
    | NmHeader(count: nat)

  const TC_FALSE: nat := 0x00
  const TC_LIST: nat := 0x01
  const TC_EPHEMERON: nat := 0x2B
  const SHARP_F := Imm(TC_FALSE, 0)

  const EPHEMERON_KEY: nat := 1
  const EPHEMERON_DATUM: nat := 2
  const EPHEMERON_LIST: nat := 3
  const EPHEMERON_NEXT: nat := 4
  const EPHEMERON_SIZE: nat := 5
  const MARKED_MANIFEST := Imm(TC_FALSE, 4)
  const UNMARKED_MANIFEST := NmHeader(4)

  /** OBJECT_DATUM. */
  function Datum(w: Word): int {
    match w
    case Imm(_, d) => d
    case Ptr(_, _, a) => a
    case BrokenHeart(a) => a
    case NmHeader(n) => n
  }

  datatype Kind = Strong | Weak | Eph
  datatype Obj = Obj(size: nat, kind: Kind)

  /** The memory when the collection starts.  Addresses index `orig`.  Fromspace is [fs, fe),
      the control stack [s0, s1), constant space [c0, c1); the root words already added to
      tospace occupy [ts, t0), the rest of tospace is [t0, te).  Copies will finally live
      ns - ts words above their tospace position.  The ephemeron hash table has hn buckets
      starting at ht.  `objs` maps the address of every fromspace object to its size and kind,
      `base` maps every word of an object to the object, and `live` holds the addresses of the
      words that a linear scan visits (the others are covered by a non-marked header). */
  datatype Heap = Heap(
    orig: seq<Word>,
    fs: int, fe: int,
    s0: int, s1: int, c0: int, c1: int,
    ts: int, t0: int, te: int, ns: int,
    ht: int, hn: nat,
    objs: map<int, Obj>,
    base: map<int, int>,
    live: set<int>)

  function At(m: seq<Word>, p: int): Word {
    if 0 <= p < |m| then m[p] else SHARP_F
  }

  ghost function Size(h: Heap, a: int): nat {
    if a in h.objs then h.objs[a].size else 0
  }

  ghost predicate IsEphemeron(h: Heap, e: int) {
    e in h.objs && h.objs[e].kind == Eph
  }

  ghost predicate IsWeak(h: Heap, a: int) {
    a in h.objs && h.objs[a].kind == Weak
  }

  ghost predicate Pinned(h: Heap, p: int) {
    h.s0 <= p < h.s1 || h.c0 <= p < h.c1 || h.ts <= p < h.t0
  }

  ghost predicate InFrom(h: Heap, w: Word) {
    w.Ptr? && h.fs <= w.addr < h.fe
  }

  /** The scan visits the word at p. */
  ghost predicate Visits(h: Heap, p: int) {
    p in h.live
  }

  /** The n words at a are all scanned one by one. */
  ghost predicate Plain(h: Heap, a: int, n: nat) {
    forall p {:trigger Visits(h, p)} :: a <= p < a + n ==> Visits(h, p) && !At(h.orig, p).NmHeader?
  }

  /** A pointer of class `cls` may point to the object at a. */
  ghost predicate Fits(h: Heap, cls: PtrClass, a: int) {
    && a in h.objs
    && match cls
       case Cell => h.objs[a] == Obj(1, Strong) && Plain(h, a, 1)
       case Pair => h.objs[a] == Obj(2, Strong) && Plain(h, a, 2)
       case Triple => h.objs[a] == Obj(3, Strong) && Plain(h, a, 3)
       case Quadruple => h.objs[a] == Obj(4, Strong) && Plain(h, a, 4)
       case Vector => h.objs[a].kind == Strong && Datum(At(h.orig, a)) == h.objs[a].size - 1
       case WeakPair => h.objs[a].kind == Weak
       case Ephemeron => h.objs[a].kind == Eph
  }

  ghost predicate OkWord(h: Heap, w: Word) {
    && !w.BrokenHeart?
    && (w.Ptr? ==> w.addr > 0)
    && (w.Ptr? && w.code == TC_LIST ==> w.cls == Pair)
    && (w.Ptr? ==> (w.cls == Ephemeron <==> w.code == TC_EPHEMERON))
    && (InFrom(h, w) ==> Fits(h, w.cls, w.addr))
  }

  /** Where a linear scan goes after the word w at address p. */
  function NextScan(w: Word, p: int): int {
    if w.NmHeader? then p + 1 + w.count else p + 1
  }

  ghost predicate VisitOk(h: Heap, p: int, hi: int) {
    var w := At(h.orig, p);
    var n := p + 1 + if w.NmHeader? then w.count else 0;
    && OkWord(h, w)
    && n <= hi
    && (n < hi ==> n in h.live)
    && (forall q :: p < q < n ==> q !in h.live)
  }

  /** [lo, hi) is tiled by visited words and the data that non-marked headers cover. */
  ghost predicate Segment(h: Heap, lo: int, hi: int) {
    && lo <= hi
    && (lo < hi ==> lo in h.live)
    && (forall p {:trigger Visits(h, p)} :: lo <= p < hi && Visits(h, p) ==> VisitOk(h, p, hi))
  }

  ghost predicate Regions(h: Heap) {
    && 0 < h.fs <= h.fe <= |h.orig|
    && 0 <= h.s0 <= h.s1 <= |h.orig|
    && 0 <= h.c0 <= h.c1 <= |h.orig|
    && 0 <= h.ts <= h.t0 <= h.te <= |h.orig|
    && 0 < h.ns
    && 0 < h.hn
    && h.fs <= h.ht && h.ht + h.hn <= h.fe
    && (h.s1 <= h.fs || h.fe <= h.s0)
    && (h.c1 <= h.fs || h.fe <= h.c0)
    && (h.te <= h.fs || h.fe <= h.ts)
    && (h.s1 <= h.c0 || h.c1 <= h.s0)
    && (h.s1 <= h.ts || h.te <= h.s0)
    && (h.c1 <= h.ts || h.te <= h.c0)
    // Tospace is allocated as large as the heap.
    && h.fe - h.fs <= h.te - h.t0
  }

  ghost predicate ObjOk(h: Heap, a: int) {
    && a in h.objs
    && 0 < h.objs[a].size
    && h.fs <= a && a + h.objs[a].size <= h.fe
    && (a + h.objs[a].size <= h.ht || h.ht + h.hn <= a)
    && !At(h.orig, a).BrokenHeart?
    && Segment(h, a, a + h.objs[a].size)
    && (h.objs[a].kind == Weak ==> h.objs[a].size == 2 && Plain(h, a, 2))
    && (h.objs[a].kind == Eph ==>
      && h.objs[a].size == EPHEMERON_SIZE
      && Plain(h, a, EPHEMERON_SIZE)
      && At(h.orig, a) == MARKED_MANIFEST
      && At(h.orig, a + EPHEMERON_LIST) == SHARP_F
      && At(h.orig, a + EPHEMERON_NEXT) == SHARP_F)
  }

  ghost predicate Within(h: Heap, a: int, p: int) {
    a in h.objs && a <= p < a + h.objs[a].size
  }

  ghost predicate Owned(h: Heap, p: int) {
    p in h.base && Within(h, h.base[p], p)
  }

  ghost predicate WellFormed(h: Heap) {
    && Regions(h)
    && Segment(h, h.s0, h.s1)
    && Segment(h, h.c0, h.c1)
    && Segment(h, h.ts, h.t0)
    && (forall a {:trigger ObjOk(h, a)} :: a in h.objs ==> ObjOk(h, a))
    && (forall p {:trigger Owned(h, p)} :: p in h.base ==> Owned(h, p))
    && (forall a, p {:trigger Within(h, a, p)} :: Within(h, a, p) ==> p in h.base && h.base[p] == a)
    && (forall i {:trigger h.orig[i]} :: h.ht <= i < h.ht + h.hn ==> h.orig[i] == SHARP_F)
  }

  ghost function Key(h: Heap, e: int): Word {
    At(h.orig, e + EPHEMERON_KEY)
  }

  /** If w refers to fromspace, it refers to a member of S. */
  ghost predicate Holds(h: Heap, S: set<int>, w: Word) {
    InFrom(h, w) ==> w.addr in S
  }

  /** S contains what the object a keeps alive, given that S is alive. */
  ghost predicate Keeps(h: Heap, S: set<int>, a: int) {
    a in h.objs ==>
      match h.objs[a].kind
      case Strong =>
        forall p {:trigger Visits(h, p)} ::
          Within(h, a, p) && Visits(h, p) ==> Holds(h, S, At(h.orig, p))
      case Weak => Holds(h, S, At(h.orig, a + 1))
      case Eph => Holds(h, S, Key(h, a)) ==> Holds(h, S, At(h.orig, a + EPHEMERON_DATUM))
  }

  ghost predicate HasRoots(h: Heap, S: set<int>) {
    forall p {:trigger Visits(h, p)} :: Pinned(h, p) && Visits(h, p) ==> Holds(h, S, At(h.orig, p))
  }

  /** S is closed under reachability: strong references from roots and members, and the data of
      member ephemerons whose key is a member or needs no collection. */
  ghost predicate Closed(h: Heap, S: set<int>) {
    && HasRoots(h, S)
    && forall a {:trigger Keeps(h, S, a)} :: a in S ==> Keeps(h, S, a)
  }

  /** S is the set of live objects: the least closed set. */
  ghost predicate IsLiveSet(h: Heap, S: set<int>) {
    Closed(h, S) && forall T :: Closed(h, T) ==> S <= T
  }

  /** a is in every closed set. */
  ghost predicate IsLive(h: Heap, a: int) {
    forall S {:trigger Closed(h, S)} :: Closed(h, S) ==> a in S
  }

  /** Live ephemerons whose keys are live objects of fromspace have different keys. */
  ghost predicate UniqueKeys(h: Heap) {
    forall e, f {:trigger IsEphemeron(h, e), IsEphemeron(h, f)} ::
      IsEphemeron(h, e) && IsEphemeron(h, f) && IsLive(h, e) && IsLive(h, f)
      && InFrom(h, Key(h, e)) && InFrom(h, Key(h, f)) && Key(h, e).addr == Key(h, f).addr && IsLive(h, Key(h, e).addr)
      ==> e == f
  }
}
