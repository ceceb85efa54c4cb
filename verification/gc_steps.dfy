/** What the collector's steps achieve, as lemmas over states and memories. */
module GcSteps {
  import opened GcHeap
  import opened GcState
  import opened GcMove
  import opened GcScan
  import opened GcRegister
  import opened GcFrontier

  /** Transporting objects extends the state and scans nothing. */
  ghost predicate Grew(g: G, g': G) {
    && g.done == g'.done
    && g.served == g'.served
    && g.next <= g'.next
    && (forall a {:trigger a in g'.fwd} {:trigger a in g.fwd} :: a in g.fwd ==> a in g'.fwd && g'.fwd[a] == g.fwd[a])
    && (forall q {:trigger q in g'.own} {:trigger q in g.own} :: q in g.own ==> q in g'.own && g'.own[q] == g.own[q])
    && (forall q {:trigger q in g'.own} :: q in g'.own && q !in g.own ==> g.next <= q < g'.next)
    && (forall a {:trigger a in g'.elist} {:trigger a in g.elist} :: a in g.fwd ==> (a in g'.elist <==> a in g.elist))
    && (forall a {:trigger a in g'.wk} {:trigger a in g.wk} :: a in g.fwd ==> (a in g'.wk <==> a in g.wk))
  }

  /** The scan is at the start of a word it visits, or at the end. */
  ghost predicate Boundary(h: Heap, g: G, scan: int, limit: int) {
    scan <= limit && (scan < limit ==> Visited(h, g, scan))
  }

  /** What a scan may cover: the stack, constant space, or tospace. */
  ghost predicate ScanArea(h: Heap, lo: int, end: int, follow: bool) {
    if follow then h.ts <= lo else (lo == h.s0 && end == h.s1) || (lo == h.c0 && end == h.c1)
  }

  ghost function AreaEnd(h: Heap, end: int, follow: bool): int {
    if follow then h.te else end
  }

  /** Just the visited words of [lo, hi) have been added to what was done. */
  ghost predicate ScannedArea(h: Heap, done0: set<int>, g: G, lo: int, hi: int) {
    && (forall q {:trigger q in g.done} :: q in g.done && q !in done0 ==> lo <= q < hi && Visited(h, g, q))
    && (forall q {:trigger Visited(h, g, q)} :: lo <= q < hi && Visited(h, g, q) ==> q in g.done)
  }

  /** Growth does not change which old words are visited. */
  lemma GrewVisited(h: Heap, g: G, g': G, q: int)
    requires WellFormed(h) && Layout(h, g) && Layout(h, g') && Grew(g, g')
    requires q < g.next || Pinned(h, q)
    ensures Visited(h, g', q) <==> Visited(h, g, q)
  {
    if q in g.own { CopyPosition(h, g, q); }
    if q in g'.own { CopyPosition(h, g', q); }
  }

  /** Where the scan of an area goes from `scan`. */
  ghost predicate Advances(h: Heap, g: G, w: Word, scan: int, limit: int, next: int) {
    && next == NextScan(w, scan)
    && scan < next
    && Boundary(h, g, next, limit)
    && forall r {:trigger Visited(h, g, r)} :: scan < r < next ==> !Visited(h, g, r)
  }

  lemma LoopReady(h: Heap, g: G, m: seq<Word>, heads: Heads, x: set<int>, lo: int, end: int, follow: bool, scan: int,
                  done0: set<int>)
    requires Inv(h, g, m, heads, x) && forall e :: e in x ==> e in g.elist
    requires ScanArea(h, lo, end, follow) && lo <= scan < (if follow then g.next else end) && Visited(h, g, scan)
    requires forall q :: q in done0 ==> !(lo <= q < AreaEnd(h, end, follow))
    requires ScannedArea(h, done0, g, lo, scan)
    ensures 0 <= scan < |m| && scan < AreaEnd(h, end, follow) && ScanReady(h, g, m, scan, x) && scan !in g.done
    ensures Advances(h, g, At(m, scan), scan, if follow then g.next else end, NextScan(At(m, scan), scan))
  {
    assert scan !in g.done;
    VisitedWord(h, g, m, scan);
    if follow {
      NextVisited(h, g, m, scan);
    } else {
      NextPinned(h, lo, end, scan);
      forall r | lo <= r < end ensures r !in g.own { if r in g.own { CopyPosition(h, g, r); } }
    }
    VisitedReady(h, g, m, heads, x, scan);
  }

  /** A visited word that has not been scanned may be dispatched on. */
  lemma VisitedReady(h: Heap, g: G, m: seq<Word>, heads: Heads, x: set<int>, q: int)
    requires Inv(h, g, m, heads, x) && forall e :: e in x ==> e in g.elist
    requires Visited(h, g, q) && q !in g.done
    ensures ScanReady(h, g, m, q, x)
  {
    VisitedWord(h, g, m, q);
    var p := Origin(h, g, q);
    if q in g.own {
      CopyPosition(h, g, q);
      Places(h, g, Own(g, q));
    }
    if Scans(h, g, q) {
      if q in g.own {
        NextPinned(h, Own(g, q), Own(g, q) + Size(h, Own(g, q)), p);
      } else if h.s0 <= q < h.s1 {
        NextPinned(h, h.s0, h.s1, q);
      } else if h.c0 <= q < h.c1 {
        NextPinned(h, h.c0, h.c1, q);
      } else {
        NextPinned(h, h.ts, h.t0, q);
      }
      if InFrom(h, At(h.orig, p)) {
        TargetLive(h, g, q, x);
      }
    }
  }

  /** One iteration of the scan extends what has been scanned. */
  lemma LoopStep(h: Heap, g: G, g': G, done0: set<int>, lo: int, end: int, follow: bool, scan: int, w: Word, next: int)
    requires WellFormed(h) && Layout(h, g) && Layout(h, g') && ScanArea(h, lo, end, follow)
    requires Grew(g, g'.(done := g.done)) && g'.done == g.done + {scan}
    requires lo <= scan < (if follow then g.next else end) && Visited(h, g, scan)
    requires ScannedArea(h, done0, g, lo, scan)
    requires Advances(h, g, w, scan, if follow then g.next else end, next)
    ensures ScannedArea(h, done0, g', lo, next) && lo <= next
    ensures Boundary(h, g', next, if follow then g'.next else end)
  {
    var g1 := g'.(done := g.done);
    SameLayout(h, g', g1);
    forall q | lo <= q < (if follow then g.next else end)
      ensures Visited(h, g', q) <==> Visited(h, g, q)
    {
      GrewVisited(h, g, g1, q);
    }
    if follow && next == g.next < g'.next {
      LastCopy(h, g, g1, next);
    }
  }

  /** When the scan reaches the end of what was copied, a new copy starts there. */
  lemma LastCopy(h: Heap, g: G, g': G, n: int)
    requires WellFormed(h) && Layout(h, g) && Layout(h, g') && Grew(g, g') && n == g.next < g'.next
    ensures Visited(h, g', n)
  {
    if n - 1 in g.own {
      CopyPosition(h, g, n - 1);
      CopyPosition(h, g', n - 1);
      Places(h, g, Own(g, n - 1));
    }
    NextCopy(h, g', n);
  }

  /** Listed ephemerons stay listed. */
  lemma GrewListed(h: Heap, g: G, g': G)
    requires Rosters(h, g) && Grew(g, g'.(done := g.done))
    ensures forall e :: e in g.elist ==> e in g'.elist
  {
    forall e | e in g.elist ensures e in g'.elist { assert Listed(h, g, e); }
  }

  /** The word at q may be dispatched on: it is an original word whose target is live, or a word
      that the scan leaves alone. */
  ghost predicate ScanReady(h: Heap, g: G, m: seq<Word>, q: int, x: set<int>) {
    && Scannable(h, g, q, x)
    && (Scans(h, g, q) ==>
      && At(m, q) == At(h.orig, Origin(h, g, q))
      && OkWord(h, At(m, q))
      && (InFrom(h, At(m, q)) ==> IsLive(h, At(m, q).addr)))
    && (!Scans(h, g, q) ==> At(m, q).Imm? || At(m, q).NmHeader?)
  }

  /** Growth does not change how a word is scanned. */
  lemma StillReady(h: Heap, g: G, g': G, q: int, x: set<int>)
    requires WellFormed(h) && Layout(h, g) && Layout(h, g') && Grew(g, g') && Scannable(h, g, q, x)
    ensures Scannable(h, g', q, x) && (Scans(h, g, q) <==> Scans(h, g', q)) && Origin(h, g', q) == Origin(h, g, q)
  {
    if q in g.own { CopyPosition(h, g, q); }
    assert q in g'.own && q !in g.own ==> h.t0 <= q;
    if q in g'.own { CopyPosition(h, g', q); }
  }

  lemma MarkDisciplined(h: Heap, g: G, q: int, scanning: bool)
    requires scanning ==> QueuedKeys(h, g, {}) && TableKeys(h, g, {})
    ensures scanning ==> QueuedKeys(h, Mark(g, q), {}) && TableKeys(h, Mark(g, q), {})
  {
    var g' := Mark(g, q);
    if scanning {
      forall f | f in g'.queue || f in g'.served ensures KeyMoved(h, g', f) { assert KeyMoved(h, g, f); }
      forall f | Waiting(g', f) ensures !KeyMoved(h, g', f) { assert Waiting(g, f) && !KeyMoved(h, g, f); }
    }
  }

  /** An address holds a broken heart just when its object has been transported. */
  lemma ForwardFacts(h: Heap, g: G, m: seq<Word>, heads: Heads, x: set<int>, a: int)
    requires Inv(h, g, m, heads, x) && a in h.objs
    ensures 0 <= a < |m|
    ensures if a in g.fwd then m[a] == BrokenHeart(NewAddr(h, To(g, a))) else !m[a].BrokenHeart?
  {
    assert ObjOk(h, a) && Within(h, a, a);
    assert At(m, a) == m[a];
    assert a in g.fwd ==> At(m, a) == BrokenHeart(NewAddr(h, To(g, a)));
  }

  /** What transporting an ephemeron relies on. */
  lemma EphemeronFacts(h: Heap, g: G, m: seq<Word>, heads: Heads, x: set<int>, e: int)
    requires Inv(h, g, m, heads, x) && IsEphemeron(h, e) && e !in g.fwd
    ensures Size(h, e) == EPHEMERON_SIZE && h.t0 <= g.next && g.next + EPHEMERON_SIZE <= h.te <= |m|
    ensures At(h.orig, e) == MARKED_MANIFEST && OkWord(h, Key(h, e))
    ensures e !in g.elist && e !in g.done
  {
    assert ObjOk(h, e) && Visits(h, e + EPHEMERON_KEY) && VisitOk(h, e + EPHEMERON_KEY, e + EPHEMERON_SIZE);
    TransportBounds(h, g, e);
    assert e in g.elist ==> Listed(h, g, e);
    assert e in g.done ==> DoneWord(h, g, e);
  }

  lemma FreshNotDone(h: Heap, g0: G, g: G, a: int)
    requires WellFormed(h) && Layout(h, g0) && DoneOk(h, g0) && a in h.objs && a !in g0.fwd && g == Move(h, g0, a)
    ensures forall q :: q in g.done ==> !(To(g, a) <= q < To(g, a) + Size(h, a))
    ensures g.elist == g0.elist && g.wk == g0.wk
  {
    TransportBounds(h, g0, a);
    forall q | q in g.done
      ensures !(To(g, a) <= q < To(g, a) + Size(h, a))
    {
      assert DoneWord(h, g0, q);
    }
  }

  lemma RegisterMarked(h: Heap, g: G, m: seq<Word>, heads: Heads, x: set<int>, e: int)
    requires Inv(h, g, m, heads, x + {e}) && IsEphemeron(h, e) && e in g.fwd && e !in g.elist &&
      Holds(h, g.fwd.Keys, Key(h, e))
    ensures Inv(h, g, m, heads, x)
  {
    Register(h, g, m, heads, x, e);
  }

  /** Everything entering an ephemeron in the table achieves. */
  lemma TableOne(h: Heap, g0: G, g: G, m: seq<Word>, m': seq<Word>, heads: Heads, x: set<int>, e: int, slot: int,
                 scanning: bool)
    requires Inv(h, g, m, heads, x + {e}) && IsEphemeron(h, e) && e in g.fwd && e !in g0.fwd && e !in g.elist &&
      Grew(g0, g) && g.elist == g0.elist
    requires InFrom(h, Key(h, e)) && Key(h, e).addr !in g.fwd
    requires scanning ==> QueuedKeys(h, g, {}) && TableKeys(h, g, {})
    requires 0 <= To(g, e) && To(g, e) + EPHEMERON_SIZE <= |m| && slot == h.ht + Key(h, e).addr % h.hn &&
      0 <= slot < |m|
    requires slot < To(g, e) || To(g, e) + EPHEMERON_SIZE <= slot
    requires forall q :: q in g.done ==> !(To(g, e) <= q < To(g, e) + EPHEMERON_SIZE)
    requires var d := To(g, e);
      m' ==
        m[d := UNMARKED_MANIFEST][d + EPHEMERON_NEXT := m[slot]]
         [slot := Ptr(Ephemeron, TC_EPHEMERON, NewAddr(h, d))][d + EPHEMERON_LIST := heads.ephemeronList]
    ensures 0 <= BucketOf(h, e) < |g.tb|
    ensures var g' := Tabled(h, g, e);
      && Inv(h, g', m', heads.(ephemeronList := Ptr(Ephemeron, TC_EPHEMERON, NewAddr(h, To(g, e)))), x) && Grew(g0, g')
      && (if scanning then QueuedKeys(h, g', {}) && TableKeys(h, g', {})
          else g'.queue == g.queue && g'.served == g.served)
  {
    assert Unmarks(h, g, m, m', heads, e);
    UnmarkInv(h, g, m, m', heads, x, e);
    var g' := Tabled(h, g, e);
    assert Link(h, g, [e], 0) == Ptr(Ephemeron, TC_EPHEMERON, NewAddr(h, To(g, e)));
    if scanning {
      forall f | f in g'.queue || f in g'.served ensures KeyMoved(h, g', f) { assert KeyMoved(h, g, f); }
      forall f | Waiting(g', f) ensures !KeyMoved(h, g', f) {
        if f != e { assert Waiting(g, f) && !KeyMoved(h, g, f); }
      }
    }
  }

  /** What transporting a weak pair relies on. */
  lemma WeakFacts(h: Heap, g: G, m: seq<Word>, heads: Heads, x: set<int>, a: int)
    requires Inv(h, g, m, heads, x) && IsWeak(h, a) && a !in g.fwd
    ensures Size(h, a) == 2 && 0 <= a && a + 2 <= |m| && h.t0 <= g.next && g.next + 2 <= h.te <= |m|
    ensures a + 2 <= g.next || g.next + 2 <= a
    ensures OkWord(h, At(h.orig, a))
    ensures a !in g.wk
  {
    assert ObjOk(h, a) && Visits(h, a) && VisitOk(h, a, a + 2);
    TransportBounds(h, g, a);
    assert a in g.wk ==> WeakEntry(h, g, a);
  }

  /** Everything chaining a weak pair achieves. */
  lemma ChainWeak(h: Heap, g0: G, g: G, m: seq<Word>, m': seq<Word>, heads: Heads, x: set<int>, a: int, scanning: bool)
    requires Inv(h, g, m, heads, x + {a}) && IsWeak(h, a) && a !in g0.fwd && a in g.fwd && a !in g0.wk && Grew(g0, g) &&
      g.wk == g0.wk
    requires scanning ==> QueuedKeys(h, g, {}) && TableKeys(h, g, {})
    requires InFrom(h, At(h.orig, a))
    requires 0 <= To(g, a) < |m| && 0 <= a < |m| - 1 && To(g, a) != a + 1
    requires var car := At(h.orig, a);
      m' == m[To(g, a) := Imm(TC_FALSE, Datum(car))][a + 1 := Ptr(car.cls, car.code, heads.weakChain)]
    ensures Inv(h, Chained(g, a), m', heads.(weakChain := a), x) && Grew(g0, Chained(g, a))
    ensures scanning ==> QueuedKeys(h, Chained(g, a), {}) && TableKeys(h, Chained(g, a), {})
  {
    assert Masks(h, g, m, m', a);
    MaskInv(h, g, m, m', heads, x, a);
    var g' := Chained(g, a);
    if scanning {
      forall e | e in g'.queue || e in g'.served ensures KeyMoved(h, g', e) { assert KeyMoved(h, g, e); }
      forall e | Waiting(g', e) ensures !KeyMoved(h, g', e) { assert Waiting(g, e) && !KeyMoved(h, g, e); }
    }
  }

  lemma RegisterWeak(h: Heap, g: G, m: seq<Word>, heads: Heads, x: set<int>, a: int)
    requires Inv(h, g, m, heads, x + {a}) && IsWeak(h, a) && !InFrom(h, At(h.orig, a)) && a in g.fwd
    ensures Inv(h, g, m, heads, x)
  {
    assert a in g.elist ==> Listed(h, g, a);
    Register(h, g, m, heads, x, a);
  }

  /** The number of words of a tuple. */
  function TupleSize(cls: PtrClass): nat {
    match cls
    case Cell => 1
    case Pair => 2
    case Triple => 3
    case Quadruple => 4
    case _ => 0
  }

  lemma RegisterStrong(h: Heap, g: G, m: seq<Word>, heads: Heads, x: set<int>, a: int)
    requires Inv(h, g, m, heads, x + {a}) && a in h.objs && h.objs[a].kind == Strong && a in g.fwd
    ensures Inv(h, g, m, heads, x)
    ensures h.t0 <= To(g, a) && To(g, a) + Size(h, a) <= g.next <= h.te <= |m| && 0 < Size(h, a)
  {
    assert a in g.elist ==> Listed(h, g, a);
    Register(h, g, m, heads, x, a);
    Places(h, g, a);
  }

  ghost predicate FreshPair(h: Heap, a: int) {
    a in h.objs && h.objs[a] == Obj(2, Strong) && Plain(h, a, 2) && IsLive(h, a)
  }

  ghost predicate CopiedPair(h: Heap, g: G, m: seq<Word>, a: int) {
    && h.t0 <= To(g, a) && To(g, a) + 2 <= g.next <= h.te <= |m|
    && At(m, To(g, a) + 1) == At(h.orig, a + 1)
  }

  /** The cdr of a live pair may be followed. */
  lemma CdrOk(h: Heap, a: int)
    requires WellFormed(h) && FreshPair(h, a)
    ensures OkWord(h, At(h.orig, a + 1)) && (InFrom(h, At(h.orig, a + 1)) ==> IsLive(h, At(h.orig, a + 1).addr))
  {
    assert ObjOk(h, a);
    assert Visits(h, a + 1);
    assert VisitOk(h, a + 1, a + 2);
    assert Within(h, a, a + 1);
    forall S | Closed(h, S)
      ensures Holds(h, S, At(h.orig, a + 1))
    {
      LiveIn(h, a, S);
    }
  }

  /** The first word of an object that has not been transported. */
  lemma Untouched(h: Heap, g: G, m: seq<Word>, heads: Heads, x: set<int>, a: int)
    requires Inv(h, g, m, heads, x) && a in h.objs && a !in g.fwd
    ensures 0 <= a < |m| && m[a] == At(h.orig, a)
  {
    assert ObjOk(h, a) && Within(h, a, a);
    assert At(m, a) == At(h.orig, a);
  }

  ghost predicate CopiedWords(m: seq<Word>, m': seq<Word>, from: int, to: int, n: int) {
    && |m'| == |m| && 0 <= from && from + n <= |m| && 0 <= to && to + n <= |m|
    && forall p {:trigger m'[p]} :: 0 <= p < |m| ==> m'[p] == if to <= p < to + n then m[from + (p - to)] else m[p]
  }

  lemma CopiedMoved(h: Heap, g: G, m: seq<Word>, m1: seq<Word>, m': seq<Word>, a: int)
    requires a in h.objs && 0 <= a < |m| && CopiedWords(m, m1, a, g.next, Size(h, a))
    requires a < g.next || g.next + Size(h, a) <= a
    requires m' == m1[a := BrokenHeart(NewAddr(h, g.next))]
    ensures Moved(h, g, m, m', a)
  {
  }

  lemma MovedWords(h: Heap, g: G, m: seq<Word>, m': seq<Word>, a: int)
    requires CanMove(h, g, a) && Hearts(h, g, m) && Moved(h, g, m, m', a)
    ensures forall q {:trigger At(m', q)} :: g.next <= q < g.next + Size(h, a) ==>
      At(m', q) == At(h.orig, a + (q - g.next))
  {
    assert ObjOk(h, a);
    forall q | g.next <= q < g.next + Size(h, a)
      ensures At(m', q) == At(h.orig, a + (q - g.next))
    {
      assert Within(h, a, a + (q - g.next));
      MoveSource(h, g, m, a, a + (q - g.next));
    }
  }

  lemma TransportBounds(h: Heap, g: G, a: int)
    requires WellFormed(h) && Layout(h, g) && a in h.objs && a !in g.fwd
    ensures 0 < a && a + Size(h, a) <= |h.orig| && 0 < Size(h, a)
    ensures 0 <= g.next && g.next + Size(h, a) <= h.te <= |h.orig|
    ensures a + Size(h, a) <= g.next || g.next + Size(h, a) <= a
    ensures NewAddr(h, g.next) > 0
  {
    assert ObjOk(h, a);
    Room(h, g, a);
  }

  /** Everything transporting the object a achieves. */
  lemma Transport(h: Heap, g: G, m: seq<Word>, m1: seq<Word>, m': seq<Word>, heads: Heads, x: set<int>, a: int,
                  scanning: bool)
    requires Inv(h, g, m, heads, x) && a in h.objs && a !in g.fwd && IsLive(h, a)
    requires CopiedWords(m, m1, a, g.next, Size(h, a)) && 0 <= a < |m1| &&
      m' == m1[a := BrokenHeart(NewAddr(h, g.next))]
    requires if scanning then QueuedKeys(h, g, {a}) && TableKeys(h, g, {}) && TableFree(h, g, a)
      else g.queue == [] && g.served == {}
    ensures var g' := Move(h, g, a);
      && Inv(h, g', m', heads, x + {a}) && Grew(g, g') && To(g', a) == g.next
      && (if scanning then QueuedKeys(h, g', {}) && TableKeys(h, g', {}) else g'.queue == [] && g'.served == {})
      && forall q {:trigger At(m', q)} :: g.next <= q < g.next + Size(h, a) ==>
         At(m', q) == At(h.orig, a + (q - g.next))
  {
    TransportBounds(h, g, a);
    CopiedMoved(h, g, m, m1, m', a);
    MoveInv(h, g, m, m', heads, x, a);
    MovedWords(h, g, m, m', a);
    MoveGrew(h, g, a);
    MoveDisciplined(h, g, a, scanning);
  }

  lemma MoveGrew(h: Heap, g: G, a: int)
    requires CanMove(h, g, a) && Rosters(h, g)
    requires forall b {:trigger WeakEntry(h, g, b)} :: b in g.wk ==> WeakEntry(h, g, b)
    ensures Grew(g, Move(h, g, a))
  {
    assert ObjOk(h, a);
    forall b | b in g.wk ensures b in g.fwd { assert WeakEntry(h, g, b); }
    forall b | b in g.elist ensures b in g.fwd { assert Listed(h, g, b); }
  }

  lemma MoveDisciplined(h: Heap, g: G, a: int, scanning: bool)
    requires scanning ==> QueuedKeys(h, g, {a}) && TableKeys(h, g, {}) && TableFree(h, g, a)
    ensures scanning ==> QueuedKeys(h, Move(h, g, a), {}) && TableKeys(h, Move(h, g, a), {})
  {
    var g' := Move(h, g, a);
    if scanning {
      forall e | e in g'.queue || e in g'.served ensures KeyMoved(h, g', e) {
        assert KeyMoved(h, g, e) || Datum(Key(h, e)) in {a};
      }
      forall e | Waiting(g', e) ensures !KeyMoved(h, g', e) { assert Waiting(g, e) && !KeyMoved(h, g, e); }
    }
  }

  /** Where queue_ephemerons_for_key is: at the j-th entry of the bucket, or, after a match, at
      the i-th entry of the queue. */
  datatype Walk = InTableWalk(j: int) | InQueueWalk(i: int)

  ghost predicate WalkOk(h: Heap, g0: G, g: G, index: int, addr: int, w: Walk) {
    && 0 <= index < |g.tb|
    && g == g0.(tb := g.tb, queue := g.queue)
    && match w
       case InTableWalk(j) =>
         && g == g0 && 0 <= j <= |g.tb[index]|
         && forall k :: 0 <= k < j ==> Datum(Key(h, g.tb[index][k])) != addr
       case InQueueWalk(i) =>
         && 1 <= i <= |g.queue|
         && g.queue[1..] == g0.queue && Datum(Key(h, g.queue[0])) == addr
         && forall e {:trigger Waiting(g, e)} :: Waiting(g, e) <==> Waiting(g0, e) && Datum(Key(h, e)) != addr
  }

  /** What is left of the walk. */
  ghost function WalkLeft(g: G, index: int, w: Walk): int {
    match w
    case InTableWalk(j) => if 0 <= index < |g.tb| then |g.tb[index]| - j + |g.queue| + 1 else 0
    case InQueueWalk(i) => |g.queue| - i
  }

  ghost function WalkLoc(h: Heap, g: G, index: int, w: Walk): int {
    match w
    case InTableWalk(j) => if 0 <= index < |g.tb| && 0 <= j <= |g.tb[index]| then EntryLoc(h, g, index, j) else 0
    case InQueueWalk(i) => if 0 < i <= |g.queue| then To(g, g.queue[i - 1]) + EPHEMERON_NEXT else 0
  }

  ghost function WalkEntry(h: Heap, g: G, index: int, w: Walk): Word {
    match w
    case InTableWalk(j) => if 0 <= index < |g.tb| then Link(h, g, g.tb[index], j) else SHARP_F
    case InQueueWalk(i) => Link(h, g, g.queue, i)
  }

  /** The entry of a walk that has not ended is a listed ephemeron. */
  lemma WalkListed(h: Heap, g: G, m: seq<Word>, heads: Heads, x: set<int>, index: int, w: Walk)
    requires Inv(h, g, m, heads, x) && 0 <= index < |g.tb| && WalkEntry(h, g, index, w).Ptr?
    ensures w.InTableWalk? ==> 0 <= w.j < |g.tb[index]|
    ensures w.InQueueWalk? ==> 0 <= w.i < |g.queue|
    ensures var e := if w.InTableWalk? then g.tb[index][w.j] else g.queue[w.i];
      && e in g.elist && h.t0 <= To(g, e) && To(g, e) + EPHEMERON_SIZE <= |m|
      && WalkEntry(h, g, index, w) == Ptr(Ephemeron, TC_EPHEMERON, NewAddr(h, To(g, e)))
      && At(m, To(g, e) + EPHEMERON_KEY) == Key(h, e) && Key(h, e).Ptr?
      && (w.InTableWalk? ==> Waiting(g, e))
  {
    var e := if w.InTableWalk? then g.tb[index][w.j] else g.queue[w.i];
    if w.InTableWalk? { assert BucketOk(h, g, index) && e in g.tb[index] && Waiting(g, e); }
    ListedWords(h, g, m, heads, x, e);
  }

  /** Following the link field leads to the next entry. */
  lemma WalkNext(h: Heap, g: G, m: seq<Word>, heads: Heads, x: set<int>, index: int, w: Walk)
    requires Inv(h, g, m, heads, x) && 0 <= index < |g.tb|
    requires match w case InTableWalk(j) => 1 <= j <= |g.tb[index]| case InQueueWalk(i) => 1 <= i <= |g.queue|
    ensures At(m, WalkLoc(h, g, index, w)) == WalkEntry(h, g, index, w)
  {
    match w
    case InTableWalk(j) =>
      assert BucketChain(h, g, m, index);
      assert ChainStep(h, g, m, g.tb[index], EPHEMERON_NEXT, j - 1);
    case InQueueWalk(i) =>
      assert ChainStep(h, g, m, g.queue, EPHEMERON_NEXT, i - 1);
  }

  /** weak_referent_address: the address a weak reference refers to, or 0. */
  function WeakReferentAddress(w: Word): int {
    if w.Ptr? then w.addr else 0
  }

  /** Where the fields of a listed ephemeron are and what they hold. */
  lemma ListedWords(h: Heap, g: G, m: seq<Word>, heads: Heads, x: set<int>, e: int)
    requires Inv(h, g, m, heads, x) && e in g.elist
    ensures Listed(h, g, e) && h.t0 <= To(g, e) && To(g, e) + EPHEMERON_SIZE <= g.next
    ensures At(m, To(g, e) + EPHEMERON_KEY) == Key(h, e) && Key(h, e).Ptr?
  {
    assert Listed(h, g, e);
    Places(h, g, e);
    var q := To(g, e) + EPHEMERON_KEY;
    assert CopyOf(h, g, e, q) && CopyWord(h, g, m, q);
    assert e in g.wk ==> WeakEntry(h, g, e);
  }

  /** The entry location of a waiting ephemeron is a bucket or a link field. */
  lemma EntryPlace(h: Heap, g: G, m: seq<Word>, heads: Heads, x: set<int>, i: int, j: int)
    requires Inv(h, g, m, heads, x) && 0 <= i < |g.tb| && 0 <= j < |g.tb[i]|
    ensures 0 <= EntryLoc(h, g, i, j) < |m| && EntryLoc(h, g, i, j) != To(g, g.tb[i][j]) + EPHEMERON_NEXT
  {
    assert BucketOk(h, g, i) && g.tb[i][j] in g.tb[i] && Waiting(g, g.tb[i][j]);
    ListedWords(h, g, m, heads, x, g.tb[i][j]);
    if j > 0 {
      assert g.tb[i][j - 1] in g.tb[i] && Waiting(g, g.tb[i][j - 1]);
      ListedWords(h, g, m, heads, x, g.tb[i][j - 1]);
      Apart(h, g, g.tb[i][j - 1], g.tb[i][j]);
      Places(h, g, g.tb[i][j]);
      Places(h, g, g.tb[i][j - 1]);
    }
  }

  lemma QueuesWrites(h: Heap, g: G, m: seq<Word>, m': seq<Word>, heads: Heads, i: int, j: int)
    requires WellFormed(h) && Layout(h, g) && Rosters(h, g) && 0 <= i < |g.tb| && 0 <= j < |g.tb[i]|
    requires 0 <= EntryLoc(h, g, i, j) < |m| && 0 <= To(g, g.tb[i][j]) + EPHEMERON_NEXT < |m|
    requires EntryLoc(h, g, i, j) != To(g, g.tb[i][j]) + EPHEMERON_NEXT
    requires var n := To(g, g.tb[i][j]) + EPHEMERON_NEXT;
      m' == m[EntryLoc(h, g, i, j) := m[n]][n := heads.ephemeronQueue]
    ensures Queues(h, g, m, m', heads, i, j)
  {
  }

  /** With unique keys, no other ephemeron has e's key if that is live. */
  lemma NoOther(h: Heap, g: G, e: int, addr: int)
    requires UniqueKeys(h) && Rosters(h, g) && OnlyLive(h, g) && e in g.elist && Datum(Key(h, e)) == addr &&
      IsLive(h, addr)
    ensures forall f :: f in g.elist && f != e ==> Datum(Key(h, f)) != addr
  {
    assert Listed(h, g, e);
    forall f | f in g.elist && f != e
      ensures Datum(Key(h, f)) != addr
    {
      assert Listed(h, g, f);
      assert IsLive(h, e) && IsLive(h, f);
    }
  }

  /** So the only match is found in the bucket, and none after it. */
  lemma MatchInTable(h: Heap, g0: G, g: G, index: int, addr: int, w: Walk, e: int)
    requires Rosters(h, g) && WalkOk(h, g0, g, index, addr, w)
    requires forall f :: f in g.elist && f != e ==> Datum(Key(h, f)) != addr
    requires w.InQueueWalk? ==> w.i < |g.queue| && e == g.queue[w.i]
    ensures w.InTableWalk?
  {
    if w.InQueueWalk? { assert false; }
  }

  // ---------------------------------------------------------------- the ephemeron pass

  /** The first i listed ephemerons have been looked at: they wait only if their key is not
      transported.  The others all wait. */
  ghost predicate EarlyKeys(h: Heap, g: G, i: int) {
    forall k {:trigger g.elist[k]} :: 0 <= k < |g.elist| ==>
      if k < i then Waiting(g, g.elist[k]) ==> !KeyMoved(h, g, g.elist[k]) else Waiting(g, g.elist[k])
  }

  /** The key of a listed ephemeron is an object, marked by a broken heart if it is transported. */
  lemma ListedKey(h: Heap, g: G, m: seq<Word>, heads: Heads, x: set<int>, e: int)
    requires Inv(h, g, m, heads, x) && e in g.elist
    ensures Listed(h, g, e) && Key(h, e).addr in h.objs && 0 <= Key(h, e).addr < |m|
    ensures if Key(h, e).addr in g.fwd then m[Key(h, e).addr] == BrokenHeart(NewAddr(h, To(g, Key(h, e).addr)))
      else !m[Key(h, e).addr].BrokenHeart?
  {
    assert Listed(h, g, e) && ObjOk(h, e) && Visits(h, e + EPHEMERON_KEY);
    NextPinned(h, e, e + EPHEMERON_SIZE, e + EPHEMERON_KEY);
    ForwardFacts(h, g, m, heads, x, Key(h, e).addr);
  }

  /** Looking at the i-th listed ephemeron. */
  lemma EarlyStep(h: Heap, g: G, g': G, i: int, queued: bool)
    requires UniqueKeys(h) && Rosters(h, g) && OnlyLive(h, g) && QueuedKeys(h, g, {}) && EarlyKeys(h, g, i) &&
      0 <= i < |g.elist|
    requires g' == g.(tb := g'.tb, queue := g'.queue)
    requires queued <==> KeyMoved(h, g, g.elist[i])
    requires queued ==> forall e {:trigger Waiting(g', e)} :: Waiting(g', e) <==>
      Waiting(g, e) && Datum(Key(h, e)) != Datum(Key(h, g.elist[i]))
    requires queued ==> forall e :: e in g'.queue ==> e in g.queue || Datum(Key(h, e)) == Datum(Key(h, g.elist[i]))
    requires !queued ==> g' == g
    ensures QueuedKeys(h, g', {}) && EarlyKeys(h, g', i + 1)
  {
    var e := g.elist[i];
    assert Listed(h, g, e);
    if queued {
      assert IsLive(h, Datum(Key(h, e)));
      NoOther(h, g, e, Datum(Key(h, e)));
    }
    forall f | f in g'.queue || f in g'.served
      ensures KeyMoved(h, g', f) || Datum(Key(h, f)) in {}
    {
      assert f in g.queue || f in g.served ==> KeyMoved(h, g, f) || Datum(Key(h, f)) in {};
    }
    forall k | 0 <= k < |g'.elist|
      ensures if k < i + 1 then Waiting(g', g'.elist[k]) ==> !KeyMoved(h, g', g'.elist[k]) else Waiting(g', g'.elist[k])
    {
      assert g.elist[k] in g.elist;
    }
  }
}
