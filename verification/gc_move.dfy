/** Transporting an object keeps the collection invariant. */
module GcMove {
  import opened GcHeap
  import opened GcState
  import opened Counting

  /** The state after the object a has been copied to tospace_next. */
  ghost function Move(h: Heap, g: G, a: int): G {
    g.(fwd := g.fwd[a := g.next],
       own := map q | q in g.own.Keys + Block(g.next, Size(h, a)) :: if q in g.own then g.own[q] else a,
       next := g.next + Size(h, a))
  }

  /** The memory after the copy. */
  ghost predicate Moved(h: Heap, g: G, m: seq<Word>, m': seq<Word>, a: int) {
    && |m'| == |m|
    && forall p {:trigger At(m', p)} ::
         At(m', p) ==
         if p == a then BrokenHeart(NewAddr(h, g.next))
         else if g.next <= p < g.next + Size(h, a) then At(m, a + (p - g.next))
         else At(m, p)
  }

  ghost predicate CanMove(h: Heap, g: G, a: int) {
    && WellFormed(h)
    && Layout(h, g)
    && a in h.objs
    && a !in g.fwd
    && g.next + Size(h, a) <= h.te
  }

  lemma MoveLayout(h: Heap, g: G, a: int)
    requires CanMove(h, g, a)
    ensures Layout(h, Move(h, g, a))
  {
    var g' := Move(h, g, a);
    assert ObjOk(h, a);
    forall b | b in g'.fwd
      ensures Placed(h, g', b)
    {
      if b != a { assert Placed(h, g, b); }
    }
    forall q | q in g'.own
      ensures CopyOf(h, g', Own(g', q), q)
    {
      if q in g.own { assert CopyOf(h, g, Own(g, q), q); }
    }
    forall b, q | CopyOf(h, g', b, q)
      ensures q in g'.own && g'.own[q] == b
    {
      if b != a { assert CopyOf(h, g, b, q); assert Placed(h, g, b); }
    }
  }

  /** Old copies keep their place. */
  lemma MoveKeeps(h: Heap, g: G, a: int, q: int)
    requires CanMove(h, g, a)
    ensures q in g.own ==>
      && CopyOf(h, g, Own(g, q), q) && Own(Move(h, g, a), q) == Own(g, q)
      && Src(Move(h, g, a), q) == Src(g, q) && q < g.next
    ensures g.next <= q < g.next + Size(h, a) ==>
      Own(Move(h, g, a), q) == a && Src(Move(h, g, a), q) == a + (q - g.next)
  {
    if q in g.own { assert CopyOf(h, g, Own(g, q), q); }
  }

  lemma MoveHearts(h: Heap, g: G, m: seq<Word>, m': seq<Word>, a: int)
    requires CanMove(h, g, a) && Hearts(h, g, m) && Moved(h, g, m, m', a)
    ensures Hearts(h, Move(h, g, a), m')
  {
    var g' := Move(h, g, a);
    assert ObjOk(h, a) && Within(h, a, a);
    forall b | b in g'.fwd
      ensures At(m', b) == BrokenHeart(NewAddr(h, To(g', b)))
    {
      if b != a {
        assert Placed(h, g, b) && ObjOk(h, b);
        assert At(m, b) == BrokenHeart(NewAddr(h, To(g, b)));
      }
    }
    forall p | p in h.base && h.base[p] !in g'.fwd
      ensures At(m', p) == At(h.orig, p)
    {
      assert Owned(h, p) && ObjOk(h, h.base[p]);
    }
  }

  /** What has been copied was the original word. */
  lemma MoveSource(h: Heap, g: G, m: seq<Word>, a: int, p: int)
    requires WellFormed(h) && Hearts(h, g, m) && a !in g.fwd && Within(h, a, p)
    ensures At(m, p) == At(h.orig, p)
  {
  }

  lemma MoveNormal(h: Heap, g: G, a: int, p: int, q: int)
    requires CanMove(h, g, a)
    requires q in g.done && p in h.live ==> Holds(h, g.fwd.Keys, At(h.orig, p))
    ensures Normal(h, Move(h, g, a), p, q) == Normal(h, g, p, q)
  {
  }

  lemma MoveCopies(h: Heap, g: G, m: seq<Word>, m': seq<Word>, a: int)
    requires CanMove(h, g, a) && Hearts(h, g, m) && Copies(h, g, m) && DoneOk(h, g) && Rosters(h, g)
    requires forall b :: b in g.wk ==> b in g.fwd
    requires Moved(h, g, m, m', a)
    ensures Copies(h, Move(h, g, a), m')
  {
    var g' := Move(h, g, a);
    assert ObjOk(h, a);
    assert a in g.elist ==> Listed(h, g, a);
    forall q | q in g'.own
      ensures CopyWord(h, g', m', q)
    {
      MoveKeeps(h, g, a, q);
      if q in g.own {
        assert CopyWord(h, g, m, q);
        if q in g.done { assert DoneWord(h, g, q); }
        if Tracks(g, q) { MoveNormal(h, g, a, Src(g, q), q); }
        assert At(m', q) == At(m, q);
      } else {
        var p := a + (q - g.next);
        assert Within(h, a, p);
        MoveSource(h, g, m, a, p);
        assert At(m', q) == At(m, p);
        assert q in g.done ==> DoneWord(h, g, q);
      }
    }
  }

  lemma MovePinned(h: Heap, g: G, m: seq<Word>, m': seq<Word>, a: int)
    requires CanMove(h, g, a) && PinnedWords(h, g, m) && DoneOk(h, g)
    requires Moved(h, g, m, m', a)
    ensures PinnedWords(h, Move(h, g, a), m')
  {
    var g' := Move(h, g, a);
    assert ObjOk(h, a);
    forall q | Pinned(h, q)
      ensures At(m', q) == Normal(h, g', q, q)
    {
      assert At(m, q) == Normal(h, g, q, q);
      if q in g.done { assert DoneWord(h, g, q); }
      MoveNormal(h, g, a, q, q);
    }
  }

  lemma MoveDone(h: Heap, g: G, a: int)
    requires CanMove(h, g, a) && DoneOk(h, g)
    ensures DoneOk(h, Move(h, g, a))
  {
    var g' := Move(h, g, a);
    forall q | q in g'.done
      ensures DoneWord(h, g', q)
    {
      assert DoneWord(h, g, q);
      MoveKeeps(h, g, a, q);
    }
  }

  lemma MoveRosters(h: Heap, g: G, a: int)
    requires CanMove(h, g, a) && Rosters(h, g)
    ensures Rosters(h, Move(h, g, a))
  {
    var g' := Move(h, g, a);
    forall e | e in g'.elist
      ensures Listed(h, g', e)
    {
      assert Listed(h, g, e);
    }
    forall i | 0 <= i < h.hn
      ensures BucketOk(h, g', i)
    {
      assert BucketOk(h, g, i);
      forall e | e in g'.tb[i] ensures Waiting(g', e) && BucketOf(h, e) == i {
        assert Waiting(g, e);
      }
    }
    forall e | Waiting(g', e)
      ensures InTable(h, g', e)
    {
      assert Waiting(g, e);
      assert InTable(h, g, e);
    }
  }

  lemma MoveChain(h: Heap, g: G, m: seq<Word>, m': seq<Word>, a: int, head: Word, s: seq<int>, off: nat)
    requires CanMove(h, g, a) && Moved(h, g, m, m', a) && off < EPHEMERON_SIZE
    requires forall e :: e in s ==> e in g.fwd && IsEphemeron(h, e)
    requires Chain(h, g, m, head, s, off)
    ensures Chain(h, Move(h, g, a), m', head, s, off)
  {
    var g' := Move(h, g, a);
    assert ObjOk(h, a);
    if s != [] { assert s[0] in s; }
    forall i | 0 <= i < |s|
      ensures ChainStep(h, g', m', s, off, i)
    {
      assert s[i] in s;
      assert Placed(h, g, s[i]) && ObjOk(h, s[i]);
      assert ChainStep(h, g, m, s, off, i);
      if i + 1 < |s| { assert s[i + 1] in s; }
    }
  }

  lemma MoveThreads(h: Heap, g: G, m: seq<Word>, m': seq<Word>, heads: Heads, a: int)
    requires CanMove(h, g, a) && Moved(h, g, m, m', a) && Rosters(h, g)
    requires Threads(h, g, m, heads)
    ensures Threads(h, Move(h, g, a), m', heads)
  {
    var g' := Move(h, g, a);
    forall e | e in g.elist ensures e in g.fwd && IsEphemeron(h, e) { assert Listed(h, g, e); }
    MoveChain(h, g, m, m', a, heads.ephemeronList, g.elist, EPHEMERON_LIST);
    MoveChain(h, g, m, m', a, heads.ephemeronQueue, g.queue, EPHEMERON_NEXT);
    assert ObjOk(h, a);
    forall i | 0 <= i < h.hn
      ensures BucketChain(h, g', m', i)
    {
      assert BucketChain(h, g, m, i) && BucketOk(h, g, i);
      assert forall e :: e in g.tb[i] ==> Waiting(g, e);
      MoveChain(h, g, m, m', a, At(m, h.ht + i), g.tb[i], EPHEMERON_NEXT);
      assert At(m', h.ht + i) == At(m, h.ht + i);
    }
  }

  lemma MoveWeakChain(h: Heap, g: G, m: seq<Word>, m': seq<Word>, head: int, a: int)
    requires CanMove(h, g, a) && Moved(h, g, m, m', a)
    requires WeakChain(h, g, m, head)
    ensures WeakChain(h, Move(h, g, a), m', head)
  {
    var g' := Move(h, g, a);
    assert ObjOk(h, a) && Within(h, a, a);
    forall b | b in g'.wk
      ensures WeakEntry(h, g', b)
    {
      assert WeakEntry(h, g, b);
    }
    forall i | 0 <= i < |g.wk|
      ensures WeakStep(h, m', g.wk, i)
    {
      assert WeakEntry(h, g, g.wk[i]) && ObjOk(h, g.wk[i]);
      assert Within(h, g.wk[i], g.wk[i] + 1);
      assert WeakStep(h, m, g.wk, i);
    }
  }

  /** Transporting a live object keeps the invariant, except that a weak pair or an ephemeron
      still has to be registered. */
  lemma MoveInv(h: Heap, g: G, m: seq<Word>, m': seq<Word>, heads: Heads, x: set<int>, a: int)
    requires Inv(h, g, m, heads, x) && CanMove(h, g, a) && Moved(h, g, m, m', a) && IsLive(h, a)
    ensures Inv(h, Move(h, g, a), m', heads, x + {a})
  {
    var g' := Move(h, g, a);
    MoveLayout(h, g, a);
    MoveHearts(h, g, m, m', a);
    assert forall b :: b in g.wk ==> b in g.fwd by {
      forall b | b in g.wk ensures b in g.fwd { assert WeakEntry(h, g, b); }
    }
    MoveCopies(h, g, m, m', a);
    MovePinned(h, g, m, m', a);
    MoveDone(h, g, a);
    MoveRosters(h, g, a);
    MoveThreads(h, g, m, m', heads, a);
    MoveWeakChain(h, g, m, m', heads.weakChain, a);
    forall b | b in g'.fwd && b !in x + {a}
      ensures RegisteredObj(h, g', b)
    {
      assert RegisteredObj(h, g, b);
    }
    forall e | e in g'.elist && e !in x + {a}
      ensures e in g'.served <==> To(g', e) + EPHEMERON_DATUM in g'.done
    {
      assert Listed(h, g, e);
      if e !in x { assert e in g.served <==> To(g, e) + EPHEMERON_DATUM in g.done; }
    }
    forall b | b in g'.fwd
      ensures IsLive(h, b)
    {
      if b != a { assert b in g.fwd; }
    }
  }

  /** Objects other than weak pairs and ephemerons need no registration. */
  lemma Register(h: Heap, g: G, m: seq<Word>, heads: Heads, x: set<int>, a: int)
    requires Inv(h, g, m, heads, x + {a}) && RegisteredObj(h, g, a) && a !in g.elist
    ensures Inv(h, g, m, heads, x)
  {
    forall b | b in g.fwd && b !in x
      ensures RegisteredObj(h, g, b)
    {
      if b != a { assert b !in x + {a}; }
    }
  }
}
