/** How a linear scan advances, why what it transports is live, and why tospace is large enough. */
module GcFrontier {
  import opened GcHeap
  import opened GcState
  import opened GcMove
  import opened GcScan
  import opened GcRegister
  import opened Counting

  /** A linear scan stops at q: unmarked ephemerons are skipped after their manifest. */
  ghost predicate Visited(h: Heap, g: G, q: int) {
    || (Pinned(h, q) && q in h.live)
    || (q in g.own && if Own(g, q) in g.elist then q == To(g, Own(g, q)) else Src(g, q) in h.live)
  }

  /** The word at a visited position that has not been scanned. */
  lemma VisitedWord(h: Heap, g: G, m: seq<Word>, q: int)
    requires WellFormed(h) && Layout(h, g) && Copies(h, g, m) && PinnedWords(h, g, m) && Rosters(h, g)
    requires forall a :: a in g.wk ==> WeakEntry(h, g, a)
    requires Visited(h, g, q) && q !in g.done
    ensures Scans(h, g, q) ==> At(m, q) == At(h.orig, Origin(h, g, q))
    ensures q in g.own && Own(g, q) in g.elist ==> At(m, q) == UNMARKED_MANIFEST
    ensures !Scans(h, g, q) && Own(g, q) !in g.elist ==>
      At(m, q).Imm? && Own(g, q) in g.wk && q == To(g, Own(g, q)) && At(h.orig, Own(g, q)).Ptr?
  {
    if q in g.own {
      CopyPosition(h, g, q);
      assert CopyWord(h, g, m, q);
      assert Own(g, q) in g.elist ==> Listed(h, g, Own(g, q));
      assert Own(g, q) in g.wk ==> WeakEntry(h, g, Own(g, q));
    }
  }

  /** The scan of a pinned segment goes from one live word to the next. */
  lemma NextPinned(h: Heap, lo: int, hi: int, q: int)
    requires Segment(h, lo, hi) && lo <= q < hi && q in h.live
    ensures var n := NextScan(At(h.orig, q), q);
      && q < n <= hi && (n < hi ==> n in h.live)
      && (forall r :: q < r < n ==> r !in h.live)
    ensures OkWord(h, At(h.orig, q))
  {
    assert Visits(h, q);
  }

  /** The position behind a copy starts the next copy. */
  lemma NextCopy(h: Heap, g: G, n: int)
    requires WellFormed(h) && Layout(h, g) && h.t0 <= n < g.next
    requires n == h.t0 || (n - 1 in g.own && n >= To(g, Own(g, n - 1)) + Size(h, Own(g, n - 1)))
    ensures n in g.own && n == To(g, Own(g, n)) && Visited(h, g, n)
  {
    CopyPosition(h, g, n);
    var b := Own(g, n);
    Places(h, g, b);
    if n > To(g, b) {
      assert CopyOf(h, g, b, n - 1);
    }
    assert Visits(h, b);
  }

  /** The scan of tospace goes from one visited position to the next. */
  lemma NextVisited(h: Heap, g: G, m: seq<Word>, q: int)
    requires WellFormed(h) && Layout(h, g) && Copies(h, g, m) && PinnedWords(h, g, m) && Rosters(h, g)
    requires forall a :: a in g.wk ==> WeakEntry(h, g, a)
    requires Visited(h, g, q) && q !in g.done && h.ts <= q < g.next
    ensures var n := NextScan(At(m, q), q);
      && q < n <= g.next && (n < g.next ==> Visited(h, g, n))
      && (forall r {:trigger Visited(h, g, r)} :: q < r < n ==> !Visited(h, g, r))
  {
    VisitedWord(h, g, m, q);
    var n := NextScan(At(m, q), q);
    if Pinned(h, q) {
      if q in g.own { CopyPosition(h, g, q); assert false; }
      NextPinned(h, h.ts, h.t0, q);
      if n == h.t0 && n < g.next { NextCopy(h, g, n); }
      forall r | q < r < n ensures !Visited(h, g, r) { if r in g.own { CopyPosition(h, g, r); } }
    } else {
      NextInCopy(h, g, m, q);
    }
  }

  lemma NextInCopy(h: Heap, g: G, m: seq<Word>, q: int)
    requires WellFormed(h) && Layout(h, g) && Rosters(h, g)
    requires forall a :: a in g.wk ==> WeakEntry(h, g, a)
    requires q in g.own && Visited(h, g, q)
    requires Scans(h, g, q) ==> At(m, q) == At(h.orig, Origin(h, g, q))
    requires Own(g, q) in g.elist ==> At(m, q) == UNMARKED_MANIFEST
    requires !Scans(h, g, q) && Own(g, q) !in g.elist ==>
      At(m, q).Imm? && At(h.orig, Own(g, q)).Ptr? && q == To(g, Own(g, q))
    ensures var n := NextScan(At(m, q), q);
      && q < n <= g.next && (n < g.next ==> Visited(h, g, n))
      && (forall r {:trigger Visited(h, g, r)} :: q < r < n ==> !Visited(h, g, r))
  {
    CopyPosition(h, g, q);
    var a := Own(g, q);
    var n := NextScan(At(m, q), q);
    Places(h, g, a);
    if a in g.elist {
      assert Listed(h, g, a);
    } else {
      NextPinned(h, a, a + Size(h, a), Src(g, q));
      assert n - q == NextScan(At(h.orig, Src(g, q)), Src(g, q)) - Src(g, q);
    }
    var end := To(g, a) + Size(h, a);
    assert n <= end;
    forall r | q < r < n
      ensures !Visited(h, g, r)
    {
      assert CopyOf(h, g, a, r);
      CopyPosition(h, g, r);
    }
    if n < end {
      assert CopyOf(h, g, a, n);
    } else if n < g.next {
      assert CopyOf(h, g, a, n - 1);
      NextCopy(h, g, n);
    }
  }

  // ---------------------------------------------------------------- liveness

  lemma LiveIn(h: Heap, a: int, S: set<int>)
    requires IsLive(h, a) && Closed(h, S)
    ensures a in S && Keeps(h, S, a)
  {
  }

  /** The target of a word that is scanned is live. */
  lemma TargetLive(h: Heap, g: G, q: int, x: set<int>)
    requires WellFormed(h) && Layout(h, g) && OnlyLive(h, g) && Registered(h, g, x)
    requires Scans(h, g, q) && Origin(h, g, q) in h.live && InFrom(h, At(h.orig, Origin(h, g, q)))
    requires q in g.own ==> Own(g, q) !in x || (Own(g, q) in g.elist && KeyMoved(h, g, Own(g, q)))
    requires q in g.own && Own(g, q) in g.elist ==> KeyMoved(h, g, Own(g, q))
    ensures IsLive(h, At(h.orig, Origin(h, g, q)).addr)
  {
    var t := At(h.orig, Origin(h, g, q)).addr;
    forall S | Closed(h, S)
      ensures t in S
    {
      assert Visits(h, Origin(h, g, q));
      if q in g.own && !Pinned(h, q) {
        CopyPosition(h, g, q);
        var a := Own(g, q);
        assert IsLive(h, a);
        LiveIn(h, a, S);
        assert a !in x ==> RegisteredObj(h, g, a);
        if IsEphemeron(h, a) && InFrom(h, Key(h, a)) {
          assert Key(h, a).addr in g.fwd && IsLive(h, Key(h, a).addr);
          LiveIn(h, Key(h, a).addr, S);
        }
      }
    }
  }

  // ---------------------------------------------------------------- room in tospace

  /** The addresses whose contents have been copied to the first n positions of tospace. */
  ghost function Sources(h: Heap, g: G, n: nat): set<int> {
    if n == 0 then {} else Sources(h, g, n - 1) + {Src(g, h.t0 + n - 1)}
  }

  lemma {:induction false} SourcesSize(h: Heap, g: G, n: nat)
    requires WellFormed(h) && Layout(h, g) && h.t0 + n <= g.next
    ensures |Sources(h, g, n)| == n
    ensures forall p :: p in Sources(h, g, n) ==> exists q :: h.t0 <= q < h.t0 + n && p == Src(g, q)
  {
    if n > 0 {
      SourcesSize(h, g, n - 1);
      var q := h.t0 + n - 1;
      forall r | h.t0 <= r < q
        ensures Src(g, r) != Src(g, q)
      {
        CopyPosition(h, g, q);
        CopyPosition(h, g, r);
      }
    }
  }

  lemma SourcePlace(h: Heap, g: G, q: int, a: int)
    requires WellFormed(h) && Layout(h, g) && q in g.own && a in h.objs && a !in g.fwd
    ensures h.fs <= Src(g, q) < h.fe && !(a <= Src(g, q) < a + Size(h, a))
  {
    CopyPosition(h, g, q);
    assert a <= Src(g, q) < a + Size(h, a) ==> Within(h, a, Src(g, q));
  }

  /** There is room for every object that has not been transported. */
  lemma Room(h: Heap, g: G, a: int)
    requires WellFormed(h) && Layout(h, g) && a in h.objs && a !in g.fwd
    ensures g.next + Size(h, a) <= h.te
  {
    assert ObjOk(h, a);
    SourcesSize(h, g, g.next - h.t0);
    var P := Sources(h, g, g.next - h.t0);
    forall p | p in P
      ensures h.fs <= p < h.fe && !(a <= p < a + Size(h, a))
    {
      var q :| h.t0 <= q < g.next && p == Src(g, q);
      SourcePlace(h, g, q, a);
    }
    Pack(P, a, Size(h, a), h.fs, h.fe);
  }
}
