/** Scanning one word keeps the collection invariant. */
module GcScan {
  import opened GcHeap
  import opened GcState

  ghost predicate Wrote(m: seq<Word>, m': seq<Word>, p: int, w: Word) {
    && |m'| == |m|
    && forall i {:trigger At(m', i)} :: At(m', i) == if i == p then w else At(m, i)
  }

  /** The source address of the word at q. */
  ghost function Origin(h: Heap, g: G, q: int): int {
    if Pinned(h, q) then q else Src(g, q)
  }

  /** The scan replaces the word at q by the forwarded original. */
  ghost predicate Scans(h: Heap, g: G, q: int) {
    Pinned(h, q) || (q in g.own && Tracks(g, q))
  }

  ghost predicate Scannable(h: Heap, g: G, q: int, x: set<int>) {
    && (Pinned(h, q) || q in g.own)
    && (Scans(h, g, q) ==> Origin(h, g, q) in h.live)
    && (q in g.own && Own(g, q) in g.elist && q == To(g, Own(g, q)) + EPHEMERON_DATUM ==> Own(g, q) in x)
  }

  /** What the scan leaves at q. */
  ghost function Scanned(h: Heap, g: G, m: seq<Word>, q: int): Word {
    if Scans(h, g, q) then Forward(h, g, At(h.orig, Origin(h, g, q))) else At(m, q)
  }

  ghost predicate CanScan(h: Heap, g: G, m: seq<Word>, m': seq<Word>, q: int, x: set<int>) {
    && WellFormed(h)
    && Layout(h, g)
    && Scannable(h, g, q, x)
    && (Scans(h, g, q) ==> Holds(h, g.fwd.Keys, At(h.orig, Origin(h, g, q))))
    && Wrote(m, m', q, Scanned(h, g, m, q))
  }

  ghost function Mark(g: G, q: int): G {
    g.(done := g.done + {q})
  }

  /** Copied positions lie in tospace, away from the pinned words, fromspace and the table. */
  lemma CopyPosition(h: Heap, g: G, q: int)
    requires WellFormed(h) && Layout(h, g) && q in g.own
    ensures h.t0 <= q < g.next <= h.te && !Pinned(h, q) && CopyOf(h, g, Own(g, q), q)
    ensures Within(h, Own(g, q), Src(g, q)) && Src(g, q) in h.base && h.base[Src(g, q)] == Own(g, q)
    ensures ObjOk(h, Own(g, q))
  {
    assert CopyOf(h, g, Own(g, q), q);
    assert ObjOk(h, Own(g, q));
    assert Within(h, Own(g, q), Src(g, q));
  }

  lemma ScanCopies(h: Heap, g: G, m: seq<Word>, m': seq<Word>, q: int, x: set<int>)
    requires CanScan(h, g, m, m', q, x) && Copies(h, g, m)
    ensures Copies(h, Mark(g, q), m')
  {
    forall r | r in g.own
      ensures CopyWord(h, Mark(g, q), m', r)
    {
      CopyPosition(h, g, r);
      assert CopyWord(h, g, m, r);
      if r != q { assert At(m', r) == At(m, r); }
    }
  }

  lemma ScanPinned(h: Heap, g: G, m: seq<Word>, m': seq<Word>, q: int, x: set<int>)
    requires CanScan(h, g, m, m', q, x) && PinnedWords(h, g, m)
    ensures PinnedWords(h, Mark(g, q), m')
  {
    forall r | Pinned(h, r)
      ensures At(m', r) == Normal(h, Mark(g, q), r, r)
    {
      assert At(m, r) == Normal(h, g, r, r);
    }
  }

  lemma ScanDone(h: Heap, g: G, m: seq<Word>, m': seq<Word>, q: int, x: set<int>)
    requires CanScan(h, g, m, m', q, x) && DoneOk(h, g)
    ensures DoneOk(h, Mark(g, q))
  {
    forall r | r in Mark(g, q).done
      ensures DoneWord(h, Mark(g, q), r)
    {
      if r != q { assert DoneWord(h, g, r); }
      if r in g.own { CopyPosition(h, g, r); }
    }
  }

  /** A write to a scanned position leaves fromspace alone. */
  lemma ScanHearts(h: Heap, g: G, m: seq<Word>, m': seq<Word>, q: int, x: set<int>)
    requires CanScan(h, g, m, m', q, x) && Hearts(h, g, m)
    ensures Hearts(h, Mark(g, q), m')
  {
    if q in g.own { CopyPosition(h, g, q); }
    forall a | a in g.fwd
      ensures At(m', a) == BrokenHeart(NewAddr(h, To(g, a)))
    {
      assert Placed(h, g, a) && ObjOk(h, a);
      assert At(m, a) == BrokenHeart(NewAddr(h, To(g, a)));
    }
    forall p | p in h.base && h.base[p] !in g.fwd
      ensures At(m', p) == At(h.orig, p)
    {
      assert Owned(h, p) && ObjOk(h, h.base[p]);
    }
  }

  /** A write that misses the link fields keeps a chain. */
  lemma KeepChain(h: Heap, g: G, g': G, m: seq<Word>, m': seq<Word>, head: Word, s: seq<int>, off: int)
    requires g'.fwd == g.fwd
    requires forall e :: e in s ==> At(m', To(g, e) + off) == At(m, To(g, e) + off)
    requires Chain(h, g, m, head, s, off)
    ensures Chain(h, g', m', head, s, off)
  {
    forall i | 0 <= i < |s|
      ensures ChainStep(h, g', m', s, off, i)
    {
      assert s[i] in s;
      assert ChainStep(h, g, m, s, off, i);
    }
  }

  /** A scan does not write the link fields of a listed ephemeron. */
  lemma LinksMissed(h: Heap, g: G, m: seq<Word>, m': seq<Word>, q: int, x: set<int>, e: int)
    requires CanScan(h, g, m, m', q, x) && Rosters(h, g) && e in g.elist
    ensures At(m', To(g, e) + EPHEMERON_LIST) == At(m, To(g, e) + EPHEMERON_LIST)
    ensures At(m', To(g, e) + EPHEMERON_NEXT) == At(m, To(g, e) + EPHEMERON_NEXT)
  {
    assert Listed(h, g, e) && ObjOk(h, e);
    assert CopyOf(h, g, e, To(g, e) + EPHEMERON_LIST) && CopyOf(h, g, e, To(g, e) + EPHEMERON_NEXT);
    CopyPosition(h, g, To(g, e) + EPHEMERON_LIST);
    CopyPosition(h, g, To(g, e) + EPHEMERON_NEXT);
  }

  lemma ScanThreads(h: Heap, g: G, m: seq<Word>, m': seq<Word>, heads: Heads, q: int, x: set<int>)
    requires CanScan(h, g, m, m', q, x) && Rosters(h, g) && Threads(h, g, m, heads)
    ensures Threads(h, Mark(g, q), m', heads)
  {
    var g' := Mark(g, q);
    forall e | e in g.elist
      ensures At(m', To(g, e) + EPHEMERON_LIST) == At(m, To(g, e) + EPHEMERON_LIST)
      ensures At(m', To(g, e) + EPHEMERON_NEXT) == At(m, To(g, e) + EPHEMERON_NEXT)
    {
      LinksMissed(h, g, m, m', q, x, e);
    }
    KeepChain(h, g, g', m, m', heads.ephemeronList, g.elist, EPHEMERON_LIST);
    KeepChain(h, g, g', m, m', heads.ephemeronQueue, g.queue, EPHEMERON_NEXT);
    if q in g.own { CopyPosition(h, g, q); }
    forall i | 0 <= i < h.hn
      ensures BucketChain(h, g', m', i)
    {
      assert BucketChain(h, g, m, i) && BucketOk(h, g, i);
      forall e | e in g.tb[i] ensures e in g.elist { assert Waiting(g, e); }
      KeepChain(h, g, g', m, m', At(m, h.ht + i), g.tb[i], EPHEMERON_NEXT);
    }
  }

  lemma ScanWeakChain(h: Heap, g: G, m: seq<Word>, m': seq<Word>, head: int, q: int, x: set<int>)
    requires CanScan(h, g, m, m', q, x) && WeakChain(h, g, m, head)
    ensures WeakChain(h, Mark(g, q), m', head)
  {
    if q in g.own { CopyPosition(h, g, q); }
    forall a | a in g.wk
      ensures WeakEntry(h, Mark(g, q), a)
    {
      assert WeakEntry(h, g, a);
    }
    forall i | 0 <= i < |g.wk|
      ensures WeakStep(h, m', g.wk, i)
    {
      assert WeakStep(h, m, g.wk, i) && WeakEntry(h, g, g.wk[i]) && ObjOk(h, g.wk[i]);
    }
  }

  lemma ScanRosters(h: Heap, g: G, q: int)
    requires Rosters(h, g)
    ensures Rosters(h, Mark(g, q))
  {
    var g' := Mark(g, q);
    forall e | e in g'.elist ensures Listed(h, g', e) { assert Listed(h, g, e); }
    forall i | 0 <= i < h.hn
      ensures BucketOk(h, g', i)
    {
      assert BucketOk(h, g, i);
      forall e | e in g'.tb[i] ensures Waiting(g', e) && BucketOf(h, e) == i { assert Waiting(g, e); }
    }
    forall e | Waiting(g', e) ensures InTable(h, g', e) { assert Waiting(g, e) && InTable(h, g, e); }
  }

  lemma ScanInv(h: Heap, g: G, m: seq<Word>, m': seq<Word>, heads: Heads, q: int, x: set<int>)
    requires Inv(h, g, m, heads, x) && CanScan(h, g, m, m', q, x)
    ensures Inv(h, Mark(g, q), m', heads, x)
  {
    var g' := Mark(g, q);
    assert Layout(h, g') by {
      forall a | a in g'.fwd ensures Placed(h, g', a) { assert Placed(h, g, a); }
      forall r | r in g'.own ensures CopyOf(h, g', Own(g', r), r) { assert CopyOf(h, g, Own(g, r), r); }
      forall a, r | CopyOf(h, g', a, r) ensures r in g'.own && g'.own[r] == a { assert CopyOf(h, g, a, r); }
    }
    ScanHearts(h, g, m, m', q, x);
    ScanCopies(h, g, m, m', q, x);
    ScanPinned(h, g, m, m', q, x);
    ScanDone(h, g, m, m', q, x);
    ScanRosters(h, g, q);
    ScanThreads(h, g, m, m', heads, q, x);
    ScanWeakChain(h, g, m, m', heads.weakChain, q, x);
    forall b | b in g'.fwd && b !in x ensures RegisteredObj(h, g', b) { assert RegisteredObj(h, g, b); }
    forall e | e in g'.elist && e !in x
      ensures e in g'.served <==> To(g', e) + EPHEMERON_DATUM in g'.done
    {
      assert e in g.served <==> To(g, e) + EPHEMERON_DATUM in g.done;
      assert Listed(h, g, e) && ObjOk(h, e);
      assert CopyOf(h, g, e, To(g, e) + EPHEMERON_DATUM);
      CopyPosition(h, g, To(g, e) + EPHEMERON_DATUM);
    }
    forall b | b in g'.fwd ensures IsLive(h, b) { assert b in g.fwd; }
  }
}
