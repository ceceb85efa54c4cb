/** Putting weak pairs on the weak chain, ephemerons in the table, and moving ephemerons from the
    table to the queue keep the collection invariant. */
module GcRegister {
  import opened GcHeap
  import opened GcState
  import opened GcScan

  /** Layout depends on the copies only. */
  lemma SameLayout(h: Heap, g: G, g': G)
    requires Layout(h, g) && g'.fwd == g.fwd && g'.own == g.own && g'.next == g.next
    ensures Layout(h, g')
  {
    forall a | a in g'.fwd ensures Placed(h, g', a) { assert Placed(h, g, a); }
    forall r | r in g'.own ensures CopyOf(h, g', Own(g', r), r) { assert CopyOf(h, g, Own(g, r), r); }
    forall a, r | CopyOf(h, g', a, r) ensures r in g'.own && g'.own[r] == a { assert CopyOf(h, g, a, r); }
  }

  /** p is a broken heart, part of an object that has not been transported, or pinned. */
  ghost predicate Stable(h: Heap, g: G, p: int) {
    p in g.fwd || (p in h.base && h.base[p] !in g.fwd) || Pinned(h, p)
  }

  /** Changes elsewhere keep the old objects and the pinned words. */
  lemma KeepStable(h: Heap, g: G, g': G, m: seq<Word>, m': seq<Word>)
    requires Hearts(h, g, m) && PinnedWords(h, g, m) && g'.fwd == g.fwd && g'.done == g.done
    requires forall p {:trigger At(m', p)} :: Stable(h, g, p) ==> At(m', p) == At(m, p)
    ensures Hearts(h, g', m') && PinnedWords(h, g', m')
  {
    forall b | b in g'.fwd
      ensures At(m', b) == BrokenHeart(NewAddr(h, To(g', b)))
    {
      assert Stable(h, g, b) && At(m, b) == BrokenHeart(NewAddr(h, To(g, b)));
    }
    forall p | p in h.base && h.base[p] !in g'.fwd
      ensures At(m', p) == At(h.orig, p)
    {
      assert Stable(h, g, p);
    }
    forall q | Pinned(h, q)
      ensures At(m', q) == Normal(h, g', q, q)
    {
      assert Stable(h, g, q) && At(m, q) == Normal(h, g, q, q);
    }
  }

  /** Where stable words are. */
  lemma StablePlace(h: Heap, g: G, p: int)
    requires WellFormed(h) && Layout(h, g) && Stable(h, g, p)
    ensures p < h.t0 || h.te <= p
    ensures p < h.ht || h.ht + h.hn <= p
    ensures p in g.fwd ==> Within(h, p, p)
  {
    if p in g.fwd {
      Places(h, g, p);
    } else if p in h.base {
      assert Owned(h, p) && ObjOk(h, h.base[p]);
    }
  }

  // ---------------------------------------------------------------- weak pairs

  ghost function Chained(g: G, a: int): G {
    g.(wk := [a] + g.wk)
  }

  ghost predicate Masks(h: Heap, g: G, m: seq<Word>, m': seq<Word>, a: int) {
    && WellFormed(h) && Layout(h, g)
    && IsWeak(h, a) && a in g.fwd && a !in g.wk && InFrom(h, At(h.orig, a))
    && |m'| == |m|
    && forall p {:trigger At(m', p)} ::
         At(m', p) ==
         if p == To(g, a) then Imm(TC_FALSE, Datum(At(h.orig, a)))
         else if p == a + 1 then ChainWord(h, [a] + g.wk, 0)
         else At(m, p)
  }

  /** The places of a transported object. */
  lemma Places(h: Heap, g: G, a: int)
    requires WellFormed(h) && Layout(h, g) && a in g.fwd
    ensures Placed(h, g, a) && ObjOk(h, a) && To(g, a) == g.fwd[a] && Size(h, a) == h.objs[a].size
    ensures CopyOf(h, g, a, To(g, a)) && Own(g, To(g, a)) == a && To(g, a) in g.own
    ensures Within(h, a, a)
  {
    assert Placed(h, g, a) && ObjOk(h, a);
    assert CopyOf(h, g, a, To(g, a));
  }

  /** Distinct objects have disjoint copies. */
  lemma Apart(h: Heap, g: G, a: int, b: int)
    requires WellFormed(h) && Layout(h, g) && a in g.fwd && b in g.fwd && a != b
    ensures To(g, a) + Size(h, a) <= To(g, b) || To(g, b) + Size(h, b) <= To(g, a)
  {
    Places(h, g, a);
    Places(h, g, b);
    assert !CopyOf(h, g, b, To(g, a));
    assert !CopyOf(h, g, a, To(g, b));
  }

  /** A copied position that belongs to b is outside the copy of a. */
  lemma Outside(h: Heap, g: G, a: int, q: int)
    requires WellFormed(h) && Layout(h, g) && a in g.fwd && q in g.own
    ensures CopyOf(h, g, Own(g, q), q) && Own(g, q) in g.fwd && h.t0 <= q < g.next
    ensures To(g, a) <= q < To(g, a) + Size(h, a) <==> Own(g, q) == a
  {
    CopyPosition(h, g, q);
    Places(h, g, a);
    if Own(g, q) != a { Apart(h, g, a, Own(g, q)); }
  }

  lemma MaskCopies(h: Heap, g: G, m: seq<Word>, m': seq<Word>, a: int)
    requires Masks(h, g, m, m', a) && Copies(h, g, m) && Rosters(h, g)
    ensures Copies(h, Chained(g, a), m')
  {
    var g' := Chained(g, a);
    Places(h, g, a);
    assert a in g.elist ==> Listed(h, g, a);
    forall q | q in g'.own
      ensures CopyWord(h, g', m', q)
    {
      Outside(h, g, a, q);
      assert CopyWord(h, g, m, q);
    }
  }

  lemma MaskWeakChain(h: Heap, g: G, m: seq<Word>, m': seq<Word>, a: int, head: int)
    requires Masks(h, g, m, m', a) && WeakChain(h, g, m, head)
    ensures WeakChain(h, Chained(g, a), m', a)
  {
    var g' := Chained(g, a);
    Places(h, g, a);
    forall b | b in g'.wk ensures WeakEntry(h, g', b) { assert b != a ==> WeakEntry(h, g, b); }
    forall i | 0 <= i < |g'.wk|
      ensures WeakStep(h, m', g'.wk, i)
    {
      if i > 0 {
        assert g'.wk[i] == g.wk[i - 1];
        assert WeakStep(h, m, g.wk, i - 1) && WeakEntry(h, g, g.wk[i - 1]);
        Places(h, g, g.wk[i - 1]);
      }
    }
  }

  lemma MaskThreads(h: Heap, g: G, m: seq<Word>, m': seq<Word>, a: int, heads: Heads)
    requires Masks(h, g, m, m', a) && Rosters(h, g) && Threads(h, g, m, heads)
    ensures Threads(h, Chained(g, a), m', heads.(weakChain := a))
  {
    var g' := Chained(g, a);
    Places(h, g, a);
    forall e | e in g.elist
      ensures At(m', To(g, e) + EPHEMERON_LIST) == At(m, To(g, e) + EPHEMERON_LIST)
      ensures At(m', To(g, e) + EPHEMERON_NEXT) == At(m, To(g, e) + EPHEMERON_NEXT)
    {
      assert Listed(h, g, e);
      Places(h, g, e);
      Apart(h, g, a, e);
    }
    KeepChain(h, g, g', m, m', heads.ephemeronList, g.elist, EPHEMERON_LIST);
    KeepChain(h, g, g', m, m', heads.ephemeronQueue, g.queue, EPHEMERON_NEXT);
    forall i | 0 <= i < h.hn
      ensures BucketChain(h, g', m', i)
    {
      assert BucketChain(h, g, m, i) && BucketOk(h, g, i);
      forall e | e in g.tb[i] ensures e in g.elist { assert Waiting(g, e); }
      KeepChain(h, g, g', m, m', At(m, h.ht + i), g.tb[i], EPHEMERON_NEXT);
    }
  }

  /** Membership facts carry over when the ephemeron structures do not change. */
  lemma SameRosters(h: Heap, g: G, g': G)
    requires Rosters(h, g)
    requires g'.fwd == g.fwd && g'.elist == g.elist && g'.tb == g.tb && g'.queue == g.queue && g'.served == g.served
    ensures Rosters(h, g')
  {
    forall e | e in g'.elist ensures Listed(h, g', e) { assert Listed(h, g, e); }
    forall i | 0 <= i < h.hn
      ensures BucketOk(h, g', i)
    {
      assert BucketOk(h, g, i);
      forall e | e in g'.tb[i] ensures Waiting(g', e) && BucketOf(h, e) == i { assert Waiting(g, e); }
    }
    forall e | Waiting(g', e) ensures InTable(h, g', e) { assert Waiting(g, e) && InTable(h, g, e); }
  }

  lemma MaskStable(h: Heap, g: G, m: seq<Word>, m': seq<Word>, a: int, p: int)
    requires Masks(h, g, m, m', a) && Stable(h, g, p)
    ensures At(m', p) == At(m, p)
  {
    Places(h, g, a);
    StablePlace(h, g, p);
    assert Within(h, a, a + 1);
  }

  lemma MaskInv(h: Heap, g: G, m: seq<Word>, m': seq<Word>, heads: Heads, x: set<int>, a: int)
    requires Inv(h, g, m, heads, x + {a}) && Masks(h, g, m, m', a)
    ensures Inv(h, Chained(g, a), m', heads.(weakChain := a), x)
  {
    hide UniqueKeys, IsLive, Closed, WellFormed;
    var g' := Chained(g, a);
    SameLayout(h, g, g');
    SameRosters(h, g, g');
    Places(h, g, a);
    MaskCopies(h, g, m, m', a);
    MaskWeakChain(h, g, m, m', a, heads.weakChain);
    MaskThreads(h, g, m, m', a, heads);
    forall p | Stable(h, g, p)
      ensures At(m', p) == At(m, p)
    {
      MaskStable(h, g, m, m', a, p);
    }
    KeepStable(h, g, g', m, m');
    forall q | q in g'.done
      ensures DoneWord(h, g', q)
    {
      assert DoneWord(h, g, q);
    }
    assert a in g.elist ==> Listed(h, g, a);
    forall b | b in g'.fwd && b !in x
      ensures RegisteredObj(h, g', b)
    {
      if b != a { assert RegisteredObj(h, g, b); }
    }
    forall e | e in g'.elist && e !in x
      ensures e in g'.served <==> To(g', e) + EPHEMERON_DATUM in g'.done
    {
      assert e in g.served <==> To(g, e) + EPHEMERON_DATUM in g.done;
    }
    forall b | b in g'.fwd ensures IsLive(h, b) { assert b in g.fwd; }
  }

  // ---------------------------------------------------------------- ephemerons enter the table

  ghost function Tabled(h: Heap, g: G, e: int): G
    requires 0 <= BucketOf(h, e) < |g.tb|
  {
    g.(elist := [e] + g.elist, tb := g.tb[BucketOf(h, e) := [e] + g.tb[BucketOf(h, e)]])
  }

  ghost predicate Unmarks(h: Heap, g: G, m: seq<Word>, m': seq<Word>, heads: Heads, e: int) {
    && WellFormed(h) && Layout(h, g) && Rosters(h, g)
    && IsEphemeron(h, e) && e in g.fwd && e !in g.elist && InFrom(h, Key(h, e))
    && |m'| == |m|
    && forall p {:trigger At(m', p)} ::
         At(m', p) ==
         if p == To(g, e) then UNMARKED_MANIFEST
         else if p == To(g, e) + EPHEMERON_NEXT then At(m, h.ht + BucketOf(h, e))
         else if p == h.ht + BucketOf(h, e) then Link(h, g, [e], 0)
         else if p == To(g, e) + EPHEMERON_LIST then heads.ephemeronList
         else At(m, p)
  }

  lemma BucketRange(h: Heap, k: int)
    requires 0 < h.hn
    ensures 0 <= Bucket(h, k) < h.hn
  {
  }

  lemma TabledRosters(h: Heap, g: G, m: seq<Word>, m': seq<Word>, heads: Heads, e: int)
    requires Unmarks(h, g, m, m', heads, e)
    ensures 0 <= BucketOf(h, e) < |g.tb| && Rosters(h, Tabled(h, g, e))
  {
    BucketRange(h, Datum(Key(h, e)));
    var b := BucketOf(h, e);
    var g' := Tabled(h, g, e);
    forall f | f in g'.elist ensures Listed(h, g', f) { assert f != e ==> Listed(h, g, f); }
    forall i | 0 <= i < h.hn
      ensures BucketOk(h, g', i)
    {
      assert BucketOk(h, g, i);
      assert e in g.tb[i] ==> Waiting(g, e);
      forall f | f in g'.tb[i] ensures Waiting(g', f) && BucketOf(h, f) == i {
        if f in g.tb[i] { assert Waiting(g, f); }
      }
    }
    forall f | Waiting(g', f)
      ensures InTable(h, g', f)
    {
      if f != e { assert Waiting(g, f) && InTable(h, g, f); }
    }
  }

  /** Prepending to a chain. */
  lemma GrowChain(h: Heap, g: G, g': G, m: seq<Word>, m': seq<Word>, head: Word, s: seq<int>, off: int, e: int)
    requires g'.fwd == g.fwd
    requires Chain(h, g, m, head, s, off)
    requires forall f :: f in s ==> At(m', To(g, f) + off) == At(m, To(g, f) + off)
    requires At(m', To(g, e) + off) == head
    ensures Chain(h, g', m', Link(h, g, [e], 0), [e] + s, off)
  {
    var t := [e] + s;
    forall i | 0 <= i < |t|
      ensures ChainStep(h, g', m', t, off, i)
    {
      if i > 0 {
        assert t[i] == s[i - 1] && t[i] in s;
        assert ChainStep(h, g, m, s, off, i - 1);
      }
    }
  }

  /** What registering e writes misses the other listed ephemerons. */
  lemma UnmarkMisses(h: Heap, g: G, m: seq<Word>, m': seq<Word>, heads: Heads, e: int, f: int)
    requires Unmarks(h, g, m, m', heads, e) && f in g.elist
    ensures At(m', To(g, f) + EPHEMERON_LIST) == At(m, To(g, f) + EPHEMERON_LIST)
    ensures At(m', To(g, f) + EPHEMERON_NEXT) == At(m, To(g, f) + EPHEMERON_NEXT)
  {
    assert Listed(h, g, f);
    Places(h, g, f);
    Places(h, g, e);
    Apart(h, g, e, f);
    BucketRange(h, Datum(Key(h, e)));
  }

  lemma UnmarkThreads(h: Heap, g: G, m: seq<Word>, m': seq<Word>, heads: Heads, e: int)
    requires Unmarks(h, g, m, m', heads, e) && Threads(h, g, m, heads)
    requires 0 <= BucketOf(h, e) < |g.tb|
    ensures Threads(h, Tabled(h, g, e), m', heads.(ephemeronList := Link(h, g, [e], 0)))
  {
    var g' := Tabled(h, g, e);
    Places(h, g, e);
    forall f | f in g.elist
      ensures At(m', To(g, f) + EPHEMERON_LIST) == At(m, To(g, f) + EPHEMERON_LIST)
      ensures At(m', To(g, f) + EPHEMERON_NEXT) == At(m, To(g, f) + EPHEMERON_NEXT)
    {
      UnmarkMisses(h, g, m, m', heads, e, f);
    }
    GrowChain(h, g, g', m, m', heads.ephemeronList, g.elist, EPHEMERON_LIST, e);
    KeepChain(h, g, g', m, m', heads.ephemeronQueue, g.queue, EPHEMERON_NEXT);
    forall i | 0 <= i < h.hn
      ensures BucketChain(h, g', m', i)
    {
      assert BucketChain(h, g, m, i) && BucketOk(h, g, i);
      forall f | f in g.tb[i] ensures f in g.elist { assert Waiting(g, f); }
      if i == BucketOf(h, e) {
        GrowChain(h, g, g', m, m', At(m, h.ht + i), g.tb[i], EPHEMERON_NEXT, e);
      } else {
        KeepChain(h, g, g', m, m', At(m, h.ht + i), g.tb[i], EPHEMERON_NEXT);
      }
    }
  }

  lemma UnmarkCopies(h: Heap, g: G, m: seq<Word>, m': seq<Word>, heads: Heads, e: int)
    requires Unmarks(h, g, m, m', heads, e) && Copies(h, g, m)
    requires 0 <= BucketOf(h, e) < |g.tb|
    requires forall a :: a in g.wk ==> IsWeak(h, a)
    requires forall q :: q in g.done ==> !(To(g, e) <= q < To(g, e) + EPHEMERON_SIZE)
    ensures Copies(h, Tabled(h, g, e), m')
  {
    var g' := Tabled(h, g, e);
    Places(h, g, e);
    forall q | q in g'.own
      ensures CopyWord(h, g', m', q)
    {
      Outside(h, g, e, q);
      assert CopyWord(h, g, m, q);
    }
  }

  lemma UnmarkWeakChain(h: Heap, g: G, m: seq<Word>, m': seq<Word>, heads: Heads, e: int)
    requires Unmarks(h, g, m, m', heads, e) && WeakChain(h, g, m, heads.weakChain)
    requires 0 <= BucketOf(h, e) < |g.tb|
    ensures WeakChain(h, Tabled(h, g, e), m', heads.weakChain)
  {
    var g' := Tabled(h, g, e);
    Places(h, g, e);
    forall b | b in g'.wk ensures WeakEntry(h, g', b) { assert WeakEntry(h, g, b); }
    forall i | 0 <= i < |g'.wk|
      ensures WeakStep(h, m', g'.wk, i)
    {
      assert WeakStep(h, m, g.wk, i) && WeakEntry(h, g, g.wk[i]);
      Places(h, g, g.wk[i]);
    }
  }

  lemma UnmarkStable(h: Heap, g: G, m: seq<Word>, m': seq<Word>, heads: Heads, e: int)
    requires Unmarks(h, g, m, m', heads, e) && Hearts(h, g, m) && PinnedWords(h, g, m) && DoneOk(h, g)
    requires 0 <= BucketOf(h, e) < |g.tb|
    ensures Hearts(h, Tabled(h, g, e), m') && PinnedWords(h, Tabled(h, g, e), m') && DoneOk(h, Tabled(h, g, e))
  {
    var g' := Tabled(h, g, e);
    Places(h, g, e);
    forall p | Stable(h, g, p)
      ensures At(m', p) == At(m, p)
    {
      StablePlace(h, g, p);
    }
    KeepStable(h, g, g', m, m');
    forall q | q in g'.done
      ensures DoneWord(h, g', q)
    {
      assert DoneWord(h, g, q);
    }
  }

  lemma UnmarkInv(h: Heap, g: G, m: seq<Word>, m': seq<Word>, heads: Heads, x: set<int>, e: int)
    requires Inv(h, g, m, heads, x + {e}) && Unmarks(h, g, m, m', heads, e)
    requires forall q :: q in g.done ==> !(To(g, e) <= q < To(g, e) + EPHEMERON_SIZE)
    ensures 0 <= BucketOf(h, e) < |g.tb|
    ensures Inv(h, Tabled(h, g, e), m', heads.(ephemeronList := Link(h, g, [e], 0)), x)
  {
    TabledRosters(h, g, m, m', heads, e);
    var g' := Tabled(h, g, e);
    SameLayout(h, g, g');
    Places(h, g, e);
    UnmarkThreads(h, g, m, m', heads, e);
    forall a | a in g.wk ensures IsWeak(h, a) { assert WeakEntry(h, g, a); }
    UnmarkCopies(h, g, m, m', heads, e);
    UnmarkStable(h, g, m, m', heads, e);
    UnmarkWeakChain(h, g, m, m', heads, e);
    forall b | b in g'.fwd && b !in x
      ensures RegisteredObj(h, g', b)
    {
      if b != e { assert RegisteredObj(h, g, b); }
    }
    forall f | f in g'.elist && f !in x
      ensures f in g'.served <==> To(g', f) + EPHEMERON_DATUM in g'.done
    {
      if f != e { assert f in g.served <==> To(g, f) + EPHEMERON_DATUM in g.done; }
    }
    forall b | b in g'.fwd ensures IsLive(h, b) { assert b in g.fwd; }
  }

  // ---------------------------------------------------------------- table to queue

  ghost function Drop(s: seq<int>, j: int): seq<int>
    requires 0 <= j < |s|
  {
    s[..j] + s[j + 1..]
  }

  /** The j-th ephemeron of bucket i moves to the front of the queue. */
  ghost function Queued(g: G, i: int, j: int): G
    requires 0 <= i < |g.tb| && 0 <= j < |g.tb[i]|
  {
    g.(tb := g.tb[i := Drop(g.tb[i], j)], queue := [g.tb[i][j]] + g.queue)
  }

  /** Where the link to the j-th ephemeron of bucket i is stored. */
  ghost function EntryLoc(h: Heap, g: G, i: int, j: int): int
    requires 0 <= i < |g.tb| && 0 <= j <= |g.tb[i]|
  {
    if j == 0 then h.ht + i else To(g, g.tb[i][j - 1]) + EPHEMERON_NEXT
  }

  ghost predicate Queues(h: Heap, g: G, m: seq<Word>, m': seq<Word>, heads: Heads, i: int, j: int) {
    && WellFormed(h) && Layout(h, g) && Rosters(h, g)
    && 0 <= i < |g.tb| && 0 <= j < |g.tb[i]|
    && |m'| == |m|
    && forall p {:trigger At(m', p)} ::
         At(m', p) ==
         if p == To(g, g.tb[i][j]) + EPHEMERON_NEXT then heads.ephemeronQueue
         else if p == EntryLoc(h, g, i, j) then At(m, To(g, g.tb[i][j]) + EPHEMERON_NEXT)
         else At(m, p)
  }

  lemma DropMembers(s: seq<int>, j: int)
    requires 0 <= j < |s| && Distinct(s)
    ensures Distinct(Drop(s, j))
    ensures forall e :: e in Drop(s, j) <==> e in s && e != s[j]
  {
    var t := Drop(s, j);
    forall e | e in s && e != s[j]
      ensures e in t
    {
      var k :| 0 <= k < |s| && s[k] == e;
      assert t[if k < j then k else k - 1] == e;
    }
  }

  lemma QueuedRosters(h: Heap, g: G, m: seq<Word>, m': seq<Word>, heads: Heads, i: int, j: int)
    requires Queues(h, g, m, m', heads, i, j)
    ensures Rosters(h, Queued(g, i, j))
    ensures forall e :: Waiting(Queued(g, i, j), e) <==> Waiting(g, e) && e != g.tb[i][j]
  {
    var e := g.tb[i][j];
    var g' := Queued(g, i, j);
    assert BucketOk(h, g, i) && e in g.tb[i] && Waiting(g, e);
    DropMembers(g.tb[i], j);
    forall f | f in g'.elist ensures Listed(h, g', f) { assert Listed(h, g, f); }
    forall k | 0 <= k < h.hn
      ensures BucketOk(h, g', k)
    {
      assert BucketOk(h, g, k);
      forall f | f in g'.tb[k] ensures Waiting(g', f) && BucketOf(h, f) == k { assert f in g.tb[k] && Waiting(g, f); }
    }
    forall f | Waiting(g', f)
      ensures InTable(h, g', f)
    {
      assert Waiting(g, f) && InTable(h, g, f);
    }
  }

  /** Unlinking the j-th element of a chain. */
  lemma UnlinkChain(h: Heap, g: G, g': G, m: seq<Word>, m': seq<Word>, head: Word, head': Word, s: seq<int>, j: int)
    requires g'.fwd == g.fwd && 0 <= j < |s| && Distinct(s)
    requires Chain(h, g, m, head, s, EPHEMERON_NEXT)
    requires forall f :: f in s && f != s[j] && (j > 0 ==> f != s[j - 1]) ==>
      At(m', To(g, f) + EPHEMERON_NEXT) == At(m, To(g, f) + EPHEMERON_NEXT)
    requires if j == 0 then head' == At(m, To(g, s[0]) + EPHEMERON_NEXT)
             else head' == head && At(m', To(g, s[j - 1]) + EPHEMERON_NEXT) == At(m, To(g, s[j]) + EPHEMERON_NEXT)
    ensures Chain(h, g', m', head', Drop(s, j), EPHEMERON_NEXT)
  {
    var t := Drop(s, j);
    assert ChainStep(h, g, m, s, EPHEMERON_NEXT, j);
    forall i | 0 <= i < |t|
      ensures ChainStep(h, g', m', t, EPHEMERON_NEXT, i)
    {
      var k := if i < j then i else i + 1;
      assert t[i] == s[k] && s[k] in s;
      assert ChainStep(h, g, m, s, EPHEMERON_NEXT, k);
      if i + 1 < |t| { assert t[i + 1] == s[if i + 1 < j then i + 1 else i + 2]; }
    }
  }

  /** What queueing writes misses the other listed ephemerons. */
  lemma QueueMisses(h: Heap, g: G, m: seq<Word>, m': seq<Word>, heads: Heads, i: int, j: int, e: int, d: int, f: int)
    requires Queues(h, g, m, m', heads, i, j) && f in g.elist && e in g.elist && d in g.elist
    requires e == g.tb[i][j] && d == if j > 0 then g.tb[i][j - 1] else e
    ensures At(m', To(g, f) + EPHEMERON_LIST) == At(m, To(g, f) + EPHEMERON_LIST)
    ensures f != e && (j > 0 ==> f != d) ==> At(m', To(g, f) + EPHEMERON_NEXT) == At(m, To(g, f) + EPHEMERON_NEXT)
  {
    assert Listed(h, g, f) && Listed(h, g, e) && Listed(h, g, d);
    Places(h, g, f);
    Places(h, g, e);
    Places(h, g, d);
    if f != e { Apart(h, g, e, f); }
    if f != d { Apart(h, g, d, f); }
  }

  lemma QueueWrites(h: Heap, g: G, m: seq<Word>, m': seq<Word>, heads: Heads, i: int, j: int, e: int, d: int)
    requires Queues(h, g, m, m', heads, i, j) && e in g.elist && d in g.elist && i < h.hn
    requires e == g.tb[i][j] && d == (if j > 0 then g.tb[i][j - 1] else e) && (j > 0 ==> e != d)
    ensures At(m', To(g, e) + EPHEMERON_NEXT) == heads.ephemeronQueue
    ensures j > 0 ==> At(m', To(g, d) + EPHEMERON_NEXT) == At(m, To(g, e) + EPHEMERON_NEXT)
    ensures forall p {:trigger At(m', p)} :: h.ht <= p < h.ht + h.hn ==>
      At(m', p) == if j == 0 && p == h.ht + i then At(m, To(g, e) + EPHEMERON_NEXT) else At(m, p)
  {
    assert Listed(h, g, e) && Listed(h, g, d);
    Places(h, g, e);
    Places(h, g, d);
    if e != d { Apart(h, g, e, d); }
  }

  lemma QueuedBucket(h: Heap, g: G, m: seq<Word>, m': seq<Word>, heads: Heads, i: int, j: int, e: int, d: int, k: int)
    requires Queues(h, g, m, m', heads, i, j) && Threads(h, g, m, heads) && 0 <= k < h.hn
    requires e == g.tb[i][j] && d == (if j > 0 then g.tb[i][j - 1] else e) && (j > 0 ==> e != d)
    requires forall f :: f in g.elist && f != e && (j > 0 ==> f != d) ==>
      At(m', To(g, f) + EPHEMERON_NEXT) == At(m, To(g, f) + EPHEMERON_NEXT)
    requires j > 0 ==> At(m', To(g, d) + EPHEMERON_NEXT) == At(m, To(g, e) + EPHEMERON_NEXT)
    requires At(m', h.ht + k) == if j == 0 && k == i then At(m, To(g, e) + EPHEMERON_NEXT) else At(m, h.ht + k)
    ensures BucketChain(h, Queued(g, i, j), m', k)
  {
    var g' := Queued(g, i, j);
    assert BucketChain(h, g, m, k) && BucketOk(h, g, k) && BucketOk(h, g, i);
    forall f | f in g.tb[k] ensures f in g.elist && BucketOf(h, f) == k { assert Waiting(g, f); }
    assert e in g.tb[i] && d in g.tb[i];
    if k == i {
      UnlinkChain(h, g, g', m, m', At(m, h.ht + i), At(m', h.ht + i), g.tb[i], j);
    } else {
      KeepChain(h, g, g', m, m', At(m, h.ht + k), g.tb[k], EPHEMERON_NEXT);
    }
  }

  lemma QueuedThreads(h: Heap, g: G, m: seq<Word>, m': seq<Word>, heads: Heads, i: int, j: int)
    requires Queues(h, g, m, m', heads, i, j) && Threads(h, g, m, heads)
    ensures Threads(h, Queued(g, i, j), m', heads.(ephemeronQueue := Link(h, g, g.tb[i], j)))
  {
    var e := g.tb[i][j];
    var g' := Queued(g, i, j);
    assert BucketOk(h, g, i) && e in g.tb[i] && Waiting(g, e);
    var d := if j > 0 then g.tb[i][j - 1] else e;
    assert d in g.tb[i] && Waiting(g, d);
    forall f | f in g.elist
      ensures At(m', To(g, f) + EPHEMERON_LIST) == At(m, To(g, f) + EPHEMERON_LIST)
      ensures f != e && (j > 0 ==> f != d) ==> At(m', To(g, f) + EPHEMERON_NEXT) == At(m, To(g, f) + EPHEMERON_NEXT)
    {
      QueueMisses(h, g, m, m', heads, i, j, e, d, f);
    }
    assert j > 0 ==> e != d;
    QueueWrites(h, g, m, m', heads, i, j, e, d);
    KeepChain(h, g, g', m, m', heads.ephemeronList, g.elist, EPHEMERON_LIST);
    assert forall f :: f in g.queue ==> f != e && f != d;
    GrowChain(h, g, g', m, m', heads.ephemeronQueue, g.queue, EPHEMERON_NEXT, e);
    assert Link(h, g, g.tb[i], j) == Link(h, g, [e], 0);
    forall k | 0 <= k < h.hn
      ensures BucketChain(h, g', m', k)
    {
      QueuedBucket(h, g, m, m', heads, i, j, e, d, k);
    }
  }

  lemma QueuedInv(h: Heap, g: G, m: seq<Word>, m': seq<Word>, heads: Heads, x: set<int>, i: int, j: int)
    requires Inv(h, g, m, heads, x) && Queues(h, g, m, m', heads, i, j)
    ensures Inv(h, Queued(g, i, j), m', heads.(ephemeronQueue := Link(h, g, g.tb[i], j)), x)
    ensures forall e :: Waiting(Queued(g, i, j), e) <==> Waiting(g, e) && e != g.tb[i][j]
  {
    var e := g.tb[i][j];
    var g' := Queued(g, i, j);
    QueuedRosters(h, g, m, m', heads, i, j);
    SameLayout(h, g, g');
    QueuedThreads(h, g, m, m', heads, i, j);
    assert BucketOk(h, g, i) && e in g.tb[i] && Waiting(g, e);
    if j > 0 { assert g.tb[i][j - 1] in g.tb[i] && Waiting(g, g.tb[i][j - 1]); }
    var d := if j > 0 then g.tb[i][j - 1] else e;
    QueuedStable(h, g, m, m', heads, i, j, e, d);
    forall a | a in g.wk ensures IsWeak(h, a) { assert WeakEntry(h, g, a); }
    QueuedCopies(h, g, m, m', heads, i, j, e, d);
    QueuedWeakChain(h, g, m, m', heads, i, j);
    forall b | b in g'.fwd && b !in x ensures RegisteredObj(h, g', b) { assert RegisteredObj(h, g, b); }
    forall f | f in g'.elist && f !in x
      ensures f in g'.served <==> To(g', f) + EPHEMERON_DATUM in g'.done
    {
      assert f in g.served <==> To(g, f) + EPHEMERON_DATUM in g.done;
    }
    forall b | b in g'.fwd ensures IsLive(h, b) { assert b in g.fwd; }
  }

  lemma QueuedStable(h: Heap, g: G, m: seq<Word>, m': seq<Word>, heads: Heads, i: int, j: int, e: int, d: int)
    requires Queues(h, g, m, m', heads, i, j) && e in g.elist && d in g.elist
    requires e == g.tb[i][j] && d == if j > 0 then g.tb[i][j - 1] else e
    requires Hearts(h, g, m) && PinnedWords(h, g, m) && DoneOk(h, g)
    ensures Hearts(h, Queued(g, i, j), m') && PinnedWords(h, Queued(g, i, j), m') && DoneOk(h, Queued(g, i, j))
  {
    var g' := Queued(g, i, j);
    assert Listed(h, g, e) && Listed(h, g, d);
    Places(h, g, e);
    Places(h, g, d);
    forall p | Stable(h, g, p)
      ensures At(m', p) == At(m, p)
    {
      StablePlace(h, g, p);
    }
    KeepStable(h, g, g', m, m');
    forall q | q in g'.done ensures DoneWord(h, g', q) { assert DoneWord(h, g, q); }
  }

  lemma QueuedCopies(h: Heap, g: G, m: seq<Word>, m': seq<Word>, heads: Heads, i: int, j: int, e: int, d: int)
    requires Queues(h, g, m, m', heads, i, j) && e in g.elist && d in g.elist
    requires e == g.tb[i][j] && d == if j > 0 then g.tb[i][j - 1] else e
    requires Copies(h, g, m) && forall a :: a in g.wk ==> IsWeak(h, a)
    ensures Copies(h, Queued(g, i, j), m')
  {
    var g' := Queued(g, i, j);
    assert Listed(h, g, e) && Listed(h, g, d);
    Places(h, g, e);
    Places(h, g, d);
    forall q | q in g'.own
      ensures CopyWord(h, g', m', q)
    {
      Outside(h, g, e, q);
      Outside(h, g, d, q);
      assert CopyWord(h, g, m, q);
    }
  }

  lemma QueuedWeakChain(h: Heap, g: G, m: seq<Word>, m': seq<Word>, heads: Heads, i: int, j: int)
    requires Queues(h, g, m, m', heads, i, j) && WeakChain(h, g, m, heads.weakChain)
    requires g.tb[i][j] in g.elist && (j > 0 ==> g.tb[i][j - 1] in g.elist)
    ensures WeakChain(h, Queued(g, i, j), m', heads.weakChain)
  {
    var g' := Queued(g, i, j);
    var e := g.tb[i][j];
    var d := if j > 0 then g.tb[i][j - 1] else e;
    assert Listed(h, g, e) && Listed(h, g, d);
    Places(h, g, e);
    Places(h, g, d);
    forall b | b in g'.wk ensures WeakEntry(h, g', b) { assert WeakEntry(h, g, b); }
    forall k | 0 <= k < |g'.wk|
      ensures WeakStep(h, m', g'.wk, k)
    {
      assert WeakStep(h, m, g.wk, k) && WeakEntry(h, g, g.wk[k]);
      Places(h, g, g.wk[k]);
    }
  }
}
