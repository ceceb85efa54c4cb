/** The end of a collection: what the ephemeron and weak passes leave behind. */
module GcFinal {
  import opened GcHeap
  import opened GcState
  import opened GcScan
  import opened GcRegister
  import opened GcFrontier
  import opened GcSteps

  /** Every word that a scan visits has been scanned. */
  ghost predicate AllDone(h: Heap, g: G) {
    forall q {:trigger Visited(h, g, q)} :: Visited(h, g, q) ==> q in g.done
  }

  /** The state when the ephemeron queue has run empty. */
  ghost predicate Drained(h: Heap, g: G) {
    AllDone(h, g) && g.queue == [] && QueuedKeys(h, g, {}) && TableKeys(h, g, {})
  }

  // ---------------------------------------------------------------- serving one ephemeron

  ghost function Popped(g: G): G
    requires |g.queue| > 0
  {
    g.(queue := g.queue[1..], served := g.served + {g.queue[0]})
  }

  lemma PopRosters(h: Heap, g: G)
    requires Rosters(h, g) && |g.queue| > 0
    ensures Rosters(h, Popped(g))
    ensures forall e :: Waiting(Popped(g), e) <==> Waiting(g, e)
  {
    var g' := Popped(g);
    forall e | e in g'.elist ensures Listed(h, g', e) { assert Listed(h, g, e); }
    forall i | 0 <= i < h.hn
      ensures BucketOk(h, g', i)
    {
      assert BucketOk(h, g, i);
      forall e | e in g'.tb[i] ensures Waiting(g', e) && BucketOf(h, e) == i { assert Waiting(g, e); }
    }
    forall e | Waiting(g', e) ensures InTable(h, g', e) { assert Waiting(g, e) && InTable(h, g, e); }
  }

  lemma PopThreads(h: Heap, g: G, m: seq<Word>, heads: Heads)
    requires Threads(h, g, m, heads) && |g.queue| > 0
    ensures Threads(h, Popped(g), m, heads.(ephemeronQueue := At(m, To(g, g.queue[0]) + EPHEMERON_NEXT)))
  {
    var g' := Popped(g);
    KeepChain(h, g, g', m, m, heads.ephemeronList, g.elist, EPHEMERON_LIST);
    assert ChainStep(h, g, m, g.queue, EPHEMERON_NEXT, 0);
    forall i | 0 <= i < |g'.queue|
      ensures ChainStep(h, g', m, g'.queue, EPHEMERON_NEXT, i)
    {
      assert ChainStep(h, g, m, g.queue, EPHEMERON_NEXT, i + 1);
    }
    forall i | 0 <= i < h.hn
      ensures BucketChain(h, g', m, i)
    {
      assert BucketChain(h, g, m, i);
      KeepChain(h, g, g', m, m, At(m, h.ht + i), g.tb[i], EPHEMERON_NEXT);
    }
  }

  /** Taking an ephemeron off the queue. */
  lemma PopInv(h: Heap, g: G, m: seq<Word>, heads: Heads)
    requires Inv(h, g, m, heads, {}) && |g.queue| > 0
    ensures Inv(h, Popped(g), m, heads.(ephemeronQueue := At(m, To(g, g.queue[0]) + EPHEMERON_NEXT)), {g.queue[0]})
    ensures forall e :: Waiting(Popped(g), e) <==> Waiting(g, e)
  {
    hide UniqueKeys, IsLive, Closed, WellFormed;
    var g' := Popped(g);
    var e := g.queue[0];
    PopRosters(h, g);
    PopThreads(h, g, m, heads);
    SameLayout(h, g, g');
    forall q | q in g'.own ensures CopyWord(h, g', m, q) { assert CopyWord(h, g, m, q); }
    forall q | q in g'.done ensures DoneWord(h, g', q) { assert DoneWord(h, g, q); }
    forall b | b in g'.wk ensures WeakEntry(h, g', b) { assert WeakEntry(h, g, b); }
    forall b | b in g'.fwd && b !in {e} ensures RegisteredObj(h, g', b) { assert RegisteredObj(h, g, b); }
    forall f | f in g'.elist && f !in {e}
      ensures f in g'.served <==> To(g', f) + EPHEMERON_DATUM in g'.done
    {
      assert f in g.served <==> To(g, f) + EPHEMERON_DATUM in g.done;
    }
    forall b | b in g'.fwd ensures IsLive(h, b) { assert b in g.fwd; }
    forall b | b in g'.fwd ensures At(m, b) == BrokenHeart(NewAddr(h, To(g', b))) {
      assert At(m, b) == BrokenHeart(NewAddr(h, To(g, b)));
    }
    forall q | Pinned(h, q) ensures At(m, q) == Normal(h, g', q, q) { assert At(m, q) == Normal(h, g, q, q); }
    forall i | 0 <= i < |g'.wk| ensures WeakStep(h, m, g'.wk, i) { assert WeakStep(h, m, g.wk, i); }
  }

  lemma PopKeys(h: Heap, g: G)
    requires |g.queue| > 0 && QueuedKeys(h, g, {}) && TableKeys(h, g, {}) && AllDone(h, g) && Rosters(h, g) &&
      DataPending(g, {})
    requires forall e :: Waiting(Popped(g), e) <==> Waiting(g, e)
    ensures QueuedKeys(h, Popped(g), {}) && TableKeys(h, Popped(g), {}) && AllDone(h, Popped(g))
    ensures KeyMoved(h, Popped(g), g.queue[0]) && g.queue[0] !in g.served &&
      To(g, g.queue[0]) + EPHEMERON_DATUM !in g.done
    ensures g.queue[0] in h.objs
  {
    var g' := Popped(g);
    var e := g.queue[0];
    assert KeyMoved(h, g, e) || Datum(Key(h, e)) in {};
    assert Listed(h, g, e);
    assert e in g.served <==> To(g, e) + EPHEMERON_DATUM in g.done;
    forall f | f in g'.queue || f in g'.served
      ensures KeyMoved(h, g', f) || Datum(Key(h, f)) in {}
    {
      assert KeyMoved(h, g, f) || Datum(Key(h, f)) in {};
    }
    forall f | Waiting(g', f) && f !in {}
      ensures !KeyMoved(h, g', f)
    {
      assert Waiting(g, f) && f !in {} ==> !KeyMoved(h, g, f);
    }
    forall q | Visited(h, g', q) ensures q in g'.done { assert Visited(h, g, q); }
  }

  /** The served ephemeron is regular again once its datum has been dispatched on. */
  lemma ServedKeeps(h: Heap, g: G, g': G, m: seq<Word>, heads: Heads, e: int, q: int)
    requires Inv(h, g', m, heads, {e}) && Layout(h, g) && e in g.served && e in g.fwd && q == To(g, e) + EPHEMERON_DATUM
    requires Grew(g, g'.(done := g.done)) && g'.done == g.done + {q}
    ensures Inv(h, g', m, heads, {})
  {
    Served(h, g', m, heads, e);
  }

  /** After the copies that serving an ephemeron brought have been scanned, everything is done. */
  lemma AllDoneAgain(h: Heap, g: G, g1: G, g': G)
    requires WellFormed(h) && Layout(h, g1) && Layout(h, g')
    requires forall r {:trigger Visited(h, g1, r)} :: Visited(h, g1, r) && !(g.next <= r < g1.next) ==> r in g1.done
    requires Grew(g1, g'.(done := g1.done)) && g1.done <= g'.done && g.next <= g1.next
    requires ScannedArea(h, g1.done, g', g.next, g'.next)
    ensures AllDone(h, g')
  {
    var g2 := g'.(done := g1.done);
    SameLayout(h, g', g2);
    forall r | Visited(h, g', r)
      ensures r in g'.done
    {
      if !(g.next <= r < g'.next) {
        if r in g'.own { CopyPosition(h, g', r); }
        GrewVisited(h, g1, g2, r);
      }
    }
  }

  /** Moving ephemerons from the table to the queue does not change what is visited. */
  lemma SameDone(h: Heap, g: G, g': G)
    requires AllDone(h, g) && g' == g.(tb := g'.tb, queue := g'.queue)
    ensures AllDone(h, g')
  {
    forall q | Visited(h, g', q) ensures q in g'.done { assert Visited(h, g, q); }
  }

  /** The datum of the ephemeron just taken off the queue may be dispatched on. */
  lemma DatumReady(h: Heap, g: G, m: seq<Word>, heads: Heads, e: int)
    requires Inv(h, g, m, heads, {e}) && e in g.served && KeyMoved(h, g, e)
    requires To(g, e) + EPHEMERON_DATUM !in g.done
    ensures e in g.elist && ScanReady(h, g, m, To(g, e) + EPHEMERON_DATUM, {e})
    ensures 0 <= To(g, e) + EPHEMERON_DATUM < |m| && To(g, e) + EPHEMERON_DATUM < g.next &&
      To(g, e) + EPHEMERON_DATUM >= h.t0
    ensures !At(m, To(g, e) + EPHEMERON_DATUM).NmHeader?
  {
    assert Listed(h, g, e);
    Places(h, g, e);
    var q := To(g, e) + EPHEMERON_DATUM;
    assert CopyOf(h, g, e, q);
    CopyPosition(h, g, q);
    assert CopyWord(h, g, m, q);
    assert e in g.wk ==> WeakEntry(h, g, e);
    assert Visits(h, e + EPHEMERON_DATUM);
    NextPinned(h, e, e + EPHEMERON_SIZE, e + EPHEMERON_DATUM);
    if InFrom(h, At(h.orig, e + EPHEMERON_DATUM)) { TargetLive(h, g, q, {e}); }
  }

  /** Once its datum has been scanned, a served ephemeron is regular. */
  lemma Served(h: Heap, g: G, m: seq<Word>, heads: Heads, e: int)
    requires Inv(h, g, m, heads, {e}) && e in g.served && To(g, e) + EPHEMERON_DATUM in g.done
    ensures Inv(h, g, m, heads, {})
  {
    assert Listed(h, g, e);
    forall b | b in g.fwd && b !in {}
      ensures RegisteredObj(h, g, b)
    {
      if b != e { assert b !in {e}; }
    }
    forall f | f in g.elist && f !in {}
      ensures f in g.served <==> To(g, f) + EPHEMERON_DATUM in g.done
    {
      if f != e { assert f !in {e}; }
    }
  }

  /** After the datum at q has been dispatched on, only the new copies wait to be scanned. */
  lemma RestDone(h: Heap, g: G, g': G, q: int)
    requires WellFormed(h) && Layout(h, g) && Layout(h, g') && DoneOk(h, g) && AllDone(h, g)
    requires Grew(g, g'.(done := g.done)) && g'.done == g.done + {q} && h.t0 <= q < g.next
    ensures Boundary(h, g', g.next, g'.next)
    ensures forall r :: r in g'.done ==> !(g.next <= r < h.te)
    ensures forall r {:trigger Visited(h, g', r)} :: Visited(h, g', r) && !(g.next <= r < g'.next) ==> r in g'.done
  {
    var g1 := g'.(done := g.done);
    SameLayout(h, g', g1);
    if g.next < g'.next { LastCopy(h, g, g1, g.next); }
    forall r | r in g'.done
      ensures !(g.next <= r < h.te)
    {
      if r != q { assert DoneWord(h, g, r); }
    }
    forall r | Visited(h, g', r) && !(g.next <= r < g'.next)
      ensures r in g'.done
    {
      if r in g'.own { CopyPosition(h, g', r); }
      GrewVisited(h, g, g1, r);
    }
  }

  // ---------------------------------------------------------------- the live set

  /** A copied word that a scan visits has its target transported. */
  lemma TrackedTarget(h: Heap, g: G, a: int, p: int)
    requires WellFormed(h) && Layout(h, g) && DoneOk(h, g) && a in g.fwd && Within(h, a, p) && p in h.live
    requires var q := To(g, a) + (p - a); q in g.done && Tracks(g, q)
    ensures Holds(h, g.fwd.Keys, At(h.orig, p))
  {
    var q := To(g, a) + (p - a);
    Places(h, g, a);
    assert CopyOf(h, g, a, q);
    assert DoneWord(h, g, q);
  }

  lemma StrongKept(h: Heap, g: G, m: seq<Word>, heads: Heads, a: int)
    requires Inv(h, g, m, heads, {}) && Drained(h, g) && a in g.fwd && a in h.objs && h.objs[a].kind != Eph
    ensures Keeps(h, g.fwd.Keys, a)
  {
    Places(h, g, a);
    assert a in g.elist ==> Listed(h, g, a);
    assert a in g.wk ==> WeakEntry(h, g, a);
    forall p | Within(h, a, p) && Visits(h, p) && (IsWeak(h, a) ==> p != a)
      ensures Holds(h, g.fwd.Keys, At(h.orig, p))
    {
      var q := To(g, a) + (p - a);
      assert CopyOf(h, g, a, q);
      assert Visited(h, g, q);
      TrackedTarget(h, g, a, p);
    }
    if IsWeak(h, a) { assert Visits(h, a + 1) && Within(h, a, a + 1); }
  }

  lemma EphemeronKept(h: Heap, g: G, m: seq<Word>, heads: Heads, e: int)
    requires Inv(h, g, m, heads, {}) && Drained(h, g) && e in g.fwd && IsEphemeron(h, e)
    ensures Keeps(h, g.fwd.Keys, e)
    ensures e in g.elist && KeyMoved(h, g, e) ==> To(g, e) + EPHEMERON_DATUM in g.done
  {
    Places(h, g, e);
    assert e in g.elist ==> Listed(h, g, e);
    assert e in g.wk ==> WeakEntry(h, g, e);
    var p := e + EPHEMERON_DATUM;
    var q := To(g, e) + EPHEMERON_DATUM;
    assert Visits(h, p) && Within(h, e, p);
    assert CopyOf(h, g, e, q);
    if e in g.elist {
      assert e in g.served <==> q in g.done;
      if KeyMoved(h, g, e) {
        assert !Waiting(g, e);
        TrackedTarget(h, g, e, p);
      }
    } else {
      assert Visited(h, g, q);
      TrackedTarget(h, g, e, p);
    }
  }

  /** The transported objects are the live objects. */
  lemma LiveSet(h: Heap, g: G, m: seq<Word>, heads: Heads)
    requires Inv(h, g, m, heads, {}) && Drained(h, g)
    ensures IsLiveSet(h, g.fwd.Keys)
  {
    var S := g.fwd.Keys;
    forall p | Pinned(h, p) && Visits(h, p)
      ensures Holds(h, S, At(h.orig, p))
    {
      assert Visited(h, g, p);
      assert DoneWord(h, g, p);
    }
    forall a | a in S
      ensures Keeps(h, S, a)
    {
      assert Placed(h, g, a);
      if h.objs[a].kind == Eph { EphemeronKept(h, g, m, heads, a); } else { StrongKept(h, g, m, heads, a); }
    }
    forall T | Closed(h, T)
      ensures S <= T
    {
      forall a | a in S ensures a in T { assert IsLive(h, a); }
    }
  }

  // ---------------------------------------------------------------- the final words

  /** A weak reference: forwarded if its target is kept, #F if it is a dead fromspace object. */
  ghost function WeakImage(h: Heap, g: G, w: Word): Word {
    if InFrom(h, w) && w.addr !in g.fwd then SHARP_F else Forward(h, g, w)
  }

  /** An ephemeron is broken if its key is a fromspace object that is not kept. */
  ghost predicate Broken(h: Heap, g: G, e: int) {
    IsEphemeron(h, e) && InFrom(h, Key(h, e)) && Key(h, e).addr !in g.fwd
  }

  /** The word at offset k of the final copy of a. */
  ghost function FinalWord(h: Heap, g: G, a: int, k: int): Word {
    var w := At(h.orig, a + k);
    if IsWeak(h, a) && k == 0 then WeakImage(h, g, w)
    else if Broken(h, g, a) && (k == EPHEMERON_KEY || k == EPHEMERON_DATUM) then SHARP_F
    else if a + k in h.live then Forward(h, g, w)
    else w
  }

  /** The copy at q of the word at offset k of a is final. */
  ghost predicate FinalAt(h: Heap, g: G, m: seq<Word>, q: int) {
    At(m, q) == FinalWord(h, g, Own(g, q), q - To(g, Own(g, q)))
  }

  /** The collection is complete: the live objects have been copied, one disjoint block each; every
      copied and pinned word has its final value. */
  ghost predicate Collected(h: Heap, g: G, m: seq<Word>) {
    && |m| == |h.orig|
    && IsLiveSet(h, g.fwd.Keys)
    && Layout(h, g)
    && (forall q {:trigger FinalAt(h, g, m, q)} :: q in g.own ==> FinalAt(h, g, m, q))
    && (forall q {:trigger At(m, q)} :: Pinned(h, q) ==>
       At(m, q) == if q in h.live then Forward(h, g, At(h.orig, q)) else At(h.orig, q))
  }

  /** Before the last two passes, words outside listed ephemerons and chained cars are final. */
  lemma MostlyFinal(h: Heap, g: G, m: seq<Word>, heads: Heads, q: int)
    requires Inv(h, g, m, heads, {}) && Drained(h, g) && q in g.own && Own(g, q) !in g.elist
    requires !(Own(g, q) in g.wk && q == To(g, Own(g, q)))
    ensures FinalAt(h, g, m, q)
  {
    CopyPosition(h, g, q);
    var a := Own(g, q);
    Places(h, g, a);
    assert CopyWord(h, g, m, q);
    assert a in g.wk ==> WeakEntry(h, g, a);
    assert RegisteredObj(h, g, a);
    if Src(g, q) in h.live { assert Visited(h, g, q); }
  }

  lemma PinnedFinal(h: Heap, g: G, m: seq<Word>, heads: Heads, q: int)
    requires Inv(h, g, m, heads, {}) && Drained(h, g) && Pinned(h, q)
    ensures At(m, q) == if q in h.live then Forward(h, g, At(h.orig, q)) else At(h.orig, q)
  {
    if q in h.live { assert Visited(h, g, q); }
    assert At(m, q) == Normal(h, g, q, q);
  }

  // ---------------------------------------------------------------- the last two passes

  /** The memory m0 with the first n listed ephemerons in their final form. */
  ghost predicate Patched(h: Heap, g: G, m0: seq<Word>, m: seq<Word>, n: int) {
    && |m| == |m0|
    && 0 <= n <= |g.elist|
    && forall q {:trigger At(m, q)} ::
         At(m, q) == if q in g.own && Own(g, q) in g.elist[..n]
                     then FinalWord(h, g, Own(g, q), q - To(g, Own(g, q)))
                     else At(m0, q)
  }

  /** The fields of the n-th listed ephemeron before it is updated. */
  lemma PatchFields(h: Heap, g: G, m0: seq<Word>, m: seq<Word>, heads: Heads, n: int)
    requires Inv(h, g, m0, heads, {}) && Drained(h, g) && Patched(h, g, m0, m, n) && n < |g.elist|
    ensures var e := g.elist[n]; var d := To(g, e);
      && Listed(h, g, e) && h.t0 <= d && d + EPHEMERON_SIZE <= h.te <= |m|
      && At(m, d + EPHEMERON_KEY) == Key(h, e)
      && At(m, d + EPHEMERON_LIST) == Link(h, g, g.elist, n + 1)
      && At(m, d + EPHEMERON_DATUM) == Normal(h, g, e + EPHEMERON_DATUM, d + EPHEMERON_DATUM)
      && 0 <= Key(h, e).addr < |m|
      && (if KeyMoved(h, g, e) then At(m, Key(h, e).addr) == BrokenHeart(NewAddr(h, To(g, Key(h, e).addr)))
         else !At(m, Key(h, e).addr).BrokenHeart?)
  {
    var e := g.elist[n];
    var d := To(g, e);
    ListedFields(h, g, m0, heads, n);
    ListedKey(h, g, m0, heads, {}, e);
    KeyOutside(h, g, e);
    assert e !in g.elist[..n];
  }

  lemma ListedFields(h: Heap, g: G, m: seq<Word>, heads: Heads, n: int)
    requires Inv(h, g, m, heads, {}) && 0 <= n < |g.elist|
    ensures var e := g.elist[n]; var d := To(g, e);
      && Listed(h, g, e) && h.t0 <= d && d + EPHEMERON_SIZE <= h.te <= |m|
      && At(m, d + EPHEMERON_KEY) == Key(h, e)
      && At(m, d + EPHEMERON_LIST) == Link(h, g, g.elist, n + 1)
      && At(m, d + EPHEMERON_DATUM) == Normal(h, g, e + EPHEMERON_DATUM, d + EPHEMERON_DATUM)
      && Own(g, d + EPHEMERON_KEY) == Own(g, d + EPHEMERON_LIST) == Own(g, d + EPHEMERON_DATUM) == e
  {
    var e := g.elist[n];
    var d := To(g, e);
    ListedWords(h, g, m, heads, {}, e);
    Places(h, g, e);
    assert CopyOf(h, g, e, d + EPHEMERON_KEY) && CopyOf(h, g, e, d + EPHEMERON_LIST) &&
      CopyOf(h, g, e, d + EPHEMERON_DATUM);
    assert CopyWord(h, g, m, d + EPHEMERON_DATUM);
    assert e in g.wk ==> WeakEntry(h, g, e);
    assert ChainStep(h, g, m, g.elist, EPHEMERON_LIST, n);
  }

  lemma KeyOutside(h: Heap, g: G, e: int)
    requires WellFormed(h) && Layout(h, g) && InFrom(h, Key(h, e))
    ensures Key(h, e).addr !in g.own
  {
    if Key(h, e).addr in g.own { CopyPosition(h, g, Key(h, e).addr); }
  }

  /** The five words of the copy of e are written. */
  ghost predicate Rewritten(h: Heap, g: G, m: seq<Word>, m': seq<Word>, e: int) {
    var d := To(g, e);
    |m'| == |m| && forall q {:trigger At(m', q)} ::
      At(m', q) ==
      if q == d then MARKED_MANIFEST
      else if q == d + EPHEMERON_KEY then WeakImage(h, g, Key(h, e))
      else if q == d + EPHEMERON_LIST || q == d + EPHEMERON_NEXT then SHARP_F
      else if q == d + EPHEMERON_DATUM && WeakImage(h, g, Key(h, e)) == SHARP_F then SHARP_F
      else At(m, q)
  }

  /** Updating the n-th listed ephemeron. */
  lemma PatchStep(h: Heap, g: G, m0: seq<Word>, m: seq<Word>, m': seq<Word>, heads: Heads, n: int)
    requires Inv(h, g, m0, heads, {}) && Drained(h, g) && Patched(h, g, m0, m, n) && n < |g.elist|
    requires Rewritten(h, g, m, m', g.elist[n])
    ensures Patched(h, g, m0, m', n + 1)
  {
    hide WellFormed, UniqueKeys, Hearts, DoneOk, Threads, WeakChain, Registered, PinnedWords, OnlyLive, DataPending,
      Layout, Drained;
    var e := g.elist[n];
    PatchFields(h, g, m0, m, heads, n);
    EphemeronKept(h, g, m0, heads, e);
    Places(h, g, e);
    assert g.elist[..n + 1] == g.elist[..n] + [e];
    forall q
      ensures At(m', q) == if q in g.own && Own(g, q) in g.elist[..n + 1]
                           then FinalWord(h, g, Own(g, q), q - To(g, Own(g, q)))
                           else At(m0, q)
    {
      EphemeronWords(h, g, e, q);
      if q in g.own && Own(g, q) == e { PatchWord(h, g, e, q - To(g, e)); }
    }
  }

  /** The words of the copy of e are the five at its place. */
  lemma EphemeronWords(h: Heap, g: G, e: int, q: int)
    requires WellFormed(h) && Layout(h, g) && e in g.fwd && IsEphemeron(h, e)
    ensures q in g.own && Own(g, q) == e <==> To(g, e) <= q < To(g, e) + EPHEMERON_SIZE
  {
    assert ObjOk(h, e);
    assert CopyOf(h, g, e, q) ==> q in g.own && Own(g, q) == e;
    if q in g.own { assert CopyOf(h, g, Own(g, q), q); }
  }

  lemma PatchWord(h: Heap, g: G, e: int, k: int)
    requires WellFormed(h) && Listed(h, g, e) && 0 <= k < EPHEMERON_SIZE
    ensures FinalWord(h, g, e, k) ==
      if k == 0 then MARKED_MANIFEST
      else if k == EPHEMERON_KEY then WeakImage(h, g, Key(h, e))
      else if k == EPHEMERON_DATUM then
        if KeyMoved(h, g, e) then Forward(h, g, At(h.orig, e + EPHEMERON_DATUM)) else SHARP_F
      else SHARP_F
  {
    assert ObjOk(h, e) && Visits(h, e + k);
  }

  /** The memory m1 with the first n cars on the weak chain in their final form. */
  ghost predicate Mended(h: Heap, g: G, m1: seq<Word>, m: seq<Word>, n: int) {
    && |m| == |m1|
    && 0 <= n <= |g.wk|
    && forall q {:trigger At(m, q)} ::
         At(m, q) == if q in g.own && Own(g, q) in g.wk[..n] && q == To(g, Own(g, q))
                     then WeakImage(h, g, At(h.orig, Own(g, q)))
                     else At(m1, q)
  }

  /** What update_weak_pairs reads for the n-th pair of the chain. */
  lemma MendFields(h: Heap, g: G, m0: seq<Word>, m1: seq<Word>, m: seq<Word>, heads: Heads, n: int)
    requires Inv(h, g, m0, heads, {}) && Patched(h, g, m0, m1, |g.elist|) && Mended(h, g, m1, m, n) && n < |g.wk|
    ensures var a := g.wk[n]; var car := At(h.orig, a);
      && WeakEntry(h, g, a) && h.t0 <= To(g, a) < |m| && 0 < a < |m| - 1
      && At(m, a) == BrokenHeart(NewAddr(h, To(g, a)))
      && At(m, a + 1) == Ptr(car.cls, car.code, WeakLink(g.wk, n + 1))
      && At(m, To(g, a)) == Imm(TC_FALSE, car.addr)
      && car.addr in h.objs && 0 <= car.addr < |m|
      && (if car.addr in g.fwd then At(m, car.addr) == BrokenHeart(NewAddr(h, To(g, car.addr)))
         else !At(m, car.addr).BrokenHeart?)
  {
    var a := g.wk[n];
    var car := At(h.orig, a);
    assert WeakEntry(h, g, a) && WeakStep(h, m0, g.wk, n);
    Places(h, g, a);
    assert Visits(h, a);
    NextPinned(h, a, a + 2, a);
    ForwardFacts(h, g, m0, heads, {}, a);
    ForwardFacts(h, g, m0, heads, {}, car.addr);
    assert CopyWord(h, g, m0, To(g, a));
    assert a in g.elist ==> Listed(h, g, a);
    assert a !in g.wk[..n];
    forall p | p == a || p == a + 1 || p == car.addr
      ensures p !in g.own
    {
      if p in g.own { CopyPosition(h, g, p); }
    }
  }

  lemma MendStep(h: Heap, g: G, m0: seq<Word>, m1: seq<Word>, m: seq<Word>, m': seq<Word>, heads: Heads, n: int)
    requires Inv(h, g, m0, heads, {}) && Patched(h, g, m0, m1, |g.elist|) && Mended(h, g, m1, m, n) && n < |g.wk|
    requires Wrote(m, m', To(g, g.wk[n]), WeakImage(h, g, At(h.orig, g.wk[n])))
    ensures Mended(h, g, m1, m', n + 1)
  {
    var a := g.wk[n];
    assert WeakEntry(h, g, a);
    Places(h, g, a);
    assert g.wk[..n + 1] == g.wk[..n] + [a];
  }

  lemma WeakChainEnd(h: Heap, g: G, m: seq<Word>, heads: Heads, n: int)
    requires Inv(h, g, m, heads, {}) && 0 <= n <= |g.wk| && WeakLink(g.wk, n) == 0
    ensures n == |g.wk|
  {
    assert n < |g.wk| ==> WeakEntry(h, g, g.wk[n]) && ObjOk(h, g.wk[n]);
  }

  /** When both passes are over, the collection is complete. */
  lemma AllFinal(h: Heap, g: G, m0: seq<Word>, m1: seq<Word>, m: seq<Word>, heads: Heads)
    requires Inv(h, g, m0, heads, {}) && Drained(h, g)
    requires Patched(h, g, m0, m1, |g.elist|) && Mended(h, g, m1, m, |g.wk|)
    ensures Collected(h, g, m)
  {
    LiveSet(h, g, m0, heads);
    assert g.elist[..|g.elist|] == g.elist && g.wk[..|g.wk|] == g.wk;
    forall q | q in g.own
      ensures FinalAt(h, g, m, q)
    {
      var a := Own(g, q);
      assert a in g.elist ==> Listed(h, g, a);
      assert a in g.wk ==> WeakEntry(h, g, a);
      if a !in g.elist && !(a in g.wk && q == To(g, a)) {
        MostlyFinal(h, g, m0, heads, q);
      }
    }
    forall q | Pinned(h, q)
      ensures At(m, q) == if q in h.live then Forward(h, g, At(h.orig, q)) else At(h.orig, q)
    {
      PinnedFinal(h, g, m0, heads, q);
      if q in g.own { CopyPosition(h, g, q); }
    }
  }

  // ---------------------------------------------------------------- the root scan

  lemma AreaStart(h: Heap, g: G, lo: int, hi: int)
    requires WellFormed(h) && ((lo == h.s0 && hi == h.s1) || (lo == h.c0 && hi == h.c1))
    ensures Boundary(h, g, lo, hi)
  {
  }

  /** Before tospace is scanned, nothing in it has been scanned. */
  lemma TospaceArea(h: Heap, g: G)
    requires WellFormed(h) && Layout(h, g)
    ensures Boundary(h, g, h.ts, g.next)
  {
    if h.ts == h.t0 && h.ts < g.next { NextCopy(h, g, h.ts); }
  }

  /** After the stack, constant space and tospace have been scanned, everything has been. */
  lemma RootsDone(h: Heap, g1: G, g2: G, g: G)
    requires WellFormed(h) && Layout(h, g)
    requires ScannedArea(h, {}, g1, h.s0, h.s1) && g1.done <= g2.done <= g.done
    requires ScannedArea(h, g1.done, g2, h.c0, h.c1) && ScannedArea(h, g2.done, g, h.ts, g.next)
    ensures AllDone(h, g)
  {
    forall q | Visited(h, g, q)
      ensures q in g.done
    {
      if q in g.own { CopyPosition(h, g, q); }
      assert Pinned(h, q) && q in h.live ==> Visited(h, g1, q) && Visited(h, g2, q);
    }
  }

  // ---------------------------------------------------------------- the start and the end

  /** Nothing has been transported. */
  ghost function Start(h: Heap): G {
    G(map[], map[], {}, h.t0, [], [], seq(h.hn, _ => []), [], {})
  }

  lemma StartInv(h: Heap)
    requires WellFormed(h) && UniqueKeys(h)
    ensures Inv(h, Start(h), h.orig, Heads(0, SHARP_F, SHARP_F), {})
  {
    var g, m := Start(h), h.orig;
    forall i | 0 <= i < h.hn
      ensures BucketOk(h, g, i) && BucketChain(h, g, m, i)
    {
      assert h.orig[h.ht + i] == SHARP_F;
    }
  }

  /** Newspace lies in memory, away from tospace, the stack and constant space. */
  ghost predicate NewspaceOk(h: Heap) {
    var end := h.ns + (h.te - h.ts);
    && end <= |h.orig|
    && (end <= h.ts || h.te <= h.ns)
    && (end <= h.s0 || h.s1 <= h.ns)
    && (end <= h.c0 || h.c1 <= h.ns)
  }

  /** Tospace has been copied to newspace, and nothing else has changed. */
  ghost predicate Saved(h: Heap, g: G, m: seq<Word>, m': seq<Word>) {
    && |m'| == |m|
    && (forall q {:trigger At(m', q)} :: !(h.ns <= q < h.ns + (g.next - h.ts)) ==> At(m', q) == At(m, q))
    && forall q {:trigger At(m, q)} :: h.ts <= q < g.next ==> At(m', NewAddr(h, q)) == At(m, q)
  }

  lemma SavedAll(h: Heap, g: G, m: seq<Word>, m': seq<Word>)
    requires Regions(h) && NewspaceOk(h) && h.t0 <= g.next <= h.te && |m| == |m'| == |h.orig|
    requires forall k {:trigger m'[k]} :: 0 <= k < |m'| ==>
      m'[k] == m[if h.ns <= k < h.ns + (g.next - h.ts) then k - h.ns + h.ts else k]
    ensures Saved(h, g, m, m')
  {
    forall q | h.ts <= q < g.next ensures At(m', NewAddr(h, q)) == At(m, q) {
      assert m'[NewAddr(h, q)] == m[q];
    }
  }

  /** Where the word at q is after a collection: the root words of tospace move to newspace. */
  function RootAddr(h: Heap, q: int): int {
    if h.ts <= q < h.t0 then q - h.ts + h.ns else q
  }

  /** The pinned word at q is renewed; data that is not scanned is unchanged. */
  ghost predicate Rooted(h: Heap, g: G, m': seq<Word>, q: int) {
    if q in h.live then Renewed(h, g, At(h.orig, q), At(m', RootAddr(h, q)))
    else At(m', RootAddr(h, q)) == At(h.orig, q)
  }

  /** What is left of the word at offset k of the live object a: #F for the car of a weak pair whose
      target is dead and for the key and the datum of an ephemeron whose key is dead; any other word
      that is scanned is renewed, and data that is not scanned is unchanged. */
  ghost predicate FieldRenewed(h: Heap, g: G, m': seq<Word>, a: int, k: int)
    requires a in g.fwd
  {
    var w, w', key := At(h.orig, a + k), At(m', h.ns + (g.fwd[a] - h.ts) + k), At(h.orig, a + 1);
    if a + k !in h.live then w' == w
    else if IsWeak(h, a) && k == 0 && InFrom(h, w) && w.addr !in g.fwd then w' == Imm(0x00, 0)
    else if IsEphemeron(h, a) && 1 <= k <= 2 && InFrom(h, key) && key.addr !in g.fwd then w' == Imm(0x00, 0)
    else Renewed(h, g, w, w')
  }

  ghost predicate Separate(h: Heap, g: G, a: int, b: int)
    requires a in g.fwd && b in g.fwd
  {
    a != b ==> g.fwd[a] + Size(h, a) <= g.fwd[b] || g.fwd[b] + Size(h, b) <= g.fwd[a]
  }

  /** The result of a collection: the live objects, each with a copy of its own in newspace, all their
      fields, and all the root words. */
  ghost predicate Survives(h: Heap, g: G, m': seq<Word>) {
    && IsLiveSet(h, g.fwd.Keys)
    && (forall a {:trigger g.fwd[a]} :: a in g.fwd ==> h.t0 <= g.fwd[a] && g.fwd[a] + Size(h, a) <= g.next <= h.te)
    && (forall a, b {:trigger Separate(h, g, a, b)} :: a in g.fwd && b in g.fwd ==> Separate(h, g, a, b))
    && (forall a, k {:trigger FieldRenewed(h, g, m', a, k)} ::
          a in g.fwd && 0 <= k < Size(h, a) ==> FieldRenewed(h, g, m', a, k))
    && (forall q {:trigger Rooted(h, g, m', q)} :: Pinned(h, q) ==> Rooted(h, g, m', q))
  }

  /** The whole stack and constant space, and the root words, in the final memory. */
  lemma RootsSaved(h: Heap, g: G, m: seq<Word>, m': seq<Word>)
    requires WellFormed(h) && NewspaceOk(h) && Collected(h, g, m) && Saved(h, g, m, m')
    ensures forall q {:trigger Rooted(h, g, m', q)} :: Pinned(h, q) ==> Rooted(h, g, m', q)
  {
    forall q | Pinned(h, q) ensures Rooted(h, g, m', q) {
      assert At(m, q) == if q in h.live then Forward(h, g, At(h.orig, q)) else At(h.orig, q);
      assert At(m', RootAddr(h, q)) == At(m, q);
      assert q in h.live ==> Visits(h, q);
    }
  }

  lemma FieldSaved(h: Heap, g: G, m: seq<Word>, m': seq<Word>, a: int, k: int)
    requires WellFormed(h) && Collected(h, g, m) && Saved(h, g, m, m') && a in g.fwd && 0 <= k < Size(h, a)
    ensures FieldRenewed(h, g, m', a, k)
  {
    Places(h, g, a);
    var q := To(g, a) + k;
    assert CopyOf(h, g, a, q) && FinalAt(h, g, m, q);
    assert At(m', NewAddr(h, q)) == At(m, q);
    assert Keeps(h, g.fwd.Keys, a);
    hide Layout, Closed, HasRoots;
    assert IsWeak(h, a) || IsEphemeron(h, a) || a + k in h.live ==> Visits(h, a + k);
  }

  /** A complete collection, moved to newspace, has this result. */
  lemma Survival(h: Heap, g: G, m: seq<Word>, m': seq<Word>)
    requires WellFormed(h) && NewspaceOk(h) && Collected(h, g, m) && Saved(h, g, m, m')
    ensures Survives(h, g, m')
  {
    RootsSaved(h, g, m, m');
    forall a, k | a in g.fwd && 0 <= k < Size(h, a) ensures FieldRenewed(h, g, m', a, k) {
      FieldSaved(h, g, m, m', a, k);
    }
    forall a | a in g.fwd ensures h.t0 <= g.fwd[a] && g.fwd[a] + Size(h, a) <= g.next <= h.te { Places(h, g, a); }
    forall a, b | a in g.fwd && b in g.fwd ensures Separate(h, g, a, b) {
      if a != b { Apart(h, g, a, b); }
    }
  }
}
