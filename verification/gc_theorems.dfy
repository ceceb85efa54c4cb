/** What a collection means to the program that runs on. */
module GcTheorems {
  import opened GcHeap
  import opened GcState
  import opened GcScan
  import opened GcRegister
  import opened GcFrontier
  import opened GcFinal

  /** Distinct live objects have distinct, disjoint copies inside newspace. */
  lemma CopiesAreDisjoint(h: Heap, g: G, m: seq<Word>, a: int, b: int)
    requires WellFormed(h) && Collected(h, g, m) && a in g.fwd && b in g.fwd
    ensures h.t0 <= To(g, a) && To(g, a) + Size(h, a) <= g.next <= h.te
    ensures a != b ==> To(g, a) + Size(h, a) <= To(g, b) || To(g, b) + Size(h, b) <= To(g, a)
    ensures NewAddr(h, To(g, a)) == NewAddr(h, To(g, b)) <==> a == b
  {
    Places(h, g, a);
    Places(h, g, b);
    if a != b { Apart(h, g, a, b); }
  }

  /** The word at offset k of the object at address a is a strong reference or plain data: it is
      scanned, and neither a weak car nor a broken ephemeron's key or datum. */
  ghost predicate StrongField(h: Heap, g: G, a: int, k: int) {
    && Within(h, a, a + k)
    && a + k in h.live
    && !(IsWeak(h, a) && k == 0)
    && !(Broken(h, g, a) && (k == EPHEMERON_KEY || k == EPHEMERON_DATUM))
  }

  /** A strong field of a copy is the renewed original. */
  lemma StrongFieldCopied(h: Heap, g: G, m: seq<Word>, m': seq<Word>, a: int, k: int)
    requires WellFormed(h) && Collected(h, g, m) && Saved(h, g, m, m') && a in g.fwd && StrongField(h, g, a, k)
    ensures Renewed(h, g, At(h.orig, a + k), At(m', h.ns + (g.fwd[a] - h.ts) + k))
  {
    FieldSaved(h, g, m, m', a, k);
  }

  /** A path of field offsets that starts at the word w and follows strong fields. */
  ghost predicate IsPath(h: Heap, g: G, w: Word, path: seq<int>)
    decreases |path|
  {
    path == [] ||
    (InFrom(h, w) && StrongField(h, g, w.addr, path[0]) && IsPath(h, g, At(h.orig, w.addr + path[0]), path[1..]))
  }

  /** The word that a path leads to. */
  ghost function Follow(m: seq<Word>, w: Word, path: seq<int>): Word
    decreases |path|
  {
    if path == [] then w
    else Follow(m, At(m, Datum(w) + path[0]), path[1..])
  }

  /** The collection preserves the object graph: from corresponding words, the same path leads to
      corresponding words in the old and the new memory. */
  lemma {:induction false} GraphPreserved(h: Heap, g: G, m: seq<Word>, m': seq<Word>, w: Word, w': Word,
                                        path: seq<int>)
    requires WellFormed(h) && Collected(h, g, m) && Saved(h, g, m, m')
    requires Renewed(h, g, w, w') && IsPath(h, g, w, path)
    ensures Renewed(h, g, Follow(h.orig, w, path), Follow(m', w', path))
    decreases |path|
  {
    if path != [] {
      StrongFieldCopied(h, g, m, m', w.addr, path[0]);
      GraphPreserved(h, g, m, m', At(h.orig, w.addr + path[0]), At(m', w'.addr + path[0]), path[1..]);
    }
  }

  /** From every word of the stack, constant space and the root words that the program can see, the
      same path leads to corresponding words in the old and the final memory. */
  lemma RootsPreserved(h: Heap, g: G, m: seq<Word>, m': seq<Word>, q: int, path: seq<int>)
    requires WellFormed(h) && NewspaceOk(h) && Collected(h, g, m) && Saved(h, g, m, m')
    requires Pinned(h, q) && q in h.live && IsPath(h, g, At(h.orig, q), path)
    ensures Renewed(h, g, Follow(h.orig, At(h.orig, q), path), Follow(m', At(m', RootAddr(h, q)), path))
  {
    RootsSaved(h, g, m, m');
    assert Rooted(h, g, m', q);
    GraphPreserved(h, g, m, m', At(h.orig, q), At(m', RootAddr(h, q)), path);
  }

  /** Sharing is preserved: two references are to the same object before just when they are after. */
  lemma SharingPreserved(h: Heap, g: G, m: seq<Word>, v: Word, w: Word, v': Word, w': Word)
    requires WellFormed(h) && Collected(h, g, m)
    requires InFrom(h, v) && InFrom(h, w) && Renewed(h, g, v, v') && Renewed(h, g, w, w')
    ensures v'.addr == w'.addr <==> v.addr == w.addr
  {
    CopiesAreDisjoint(h, g, m, v.addr, w.addr);
  }

  /** An ephemeron keeps its key and datum just when the key is live or needs no collection;
      otherwise both are #F. */
  lemma EphemeronOutcome(h: Heap, g: G, m: seq<Word>, m': seq<Word>, e: int, live: set<int>)
    requires WellFormed(h) && Collected(h, g, m) && Saved(h, g, m, m')
    requires IsLiveSet(h, live) && e in live && IsEphemeron(h, e)
    ensures e in g.fwd
    ensures var d := h.ns + (g.fwd[e] - h.ts);
      && At(m', d) == Imm(0x00, 4)
      && At(m', d + 3) == At(m', d + 4) == Imm(0x00, 0)
      && if Holds(h, live, At(h.orig, e + 1))
         then Renewed(h, g, At(h.orig, e + 1), At(m', d + 1)) && Renewed(h, g, At(h.orig, e + 2), At(m', d + 2))
         else At(m', d + 1) == At(m', d + 2) == Imm(0x00, 0)
  {
    assert live == g.fwd.Keys;
    Places(h, g, e);
    FieldSaved(h, g, m, m', e, 0);
    FieldSaved(h, g, m, m', e, 1);
    FieldSaved(h, g, m, m', e, 2);
    FieldSaved(h, g, m, m', e, 3);
    FieldSaved(h, g, m, m', e, 4);
    assert Keeps(h, live, e) && ObjOk(h, e);
    assert Visits(h, e) && Visits(h, e + 1) && Visits(h, e + 2) && Visits(h, e + 3) && Visits(h, e + 4);
  }

  /** A weak pair's car is renewed if its target is live or it refers elsewhere, and #F if it was a dead
      fromspace object; its cdr is renewed. */
  lemma WeakPairOutcome(h: Heap, g: G, m: seq<Word>, m': seq<Word>, a: int, live: set<int>)
    requires WellFormed(h) && Collected(h, g, m) && Saved(h, g, m, m')
    requires IsLiveSet(h, live) && a in live && IsWeak(h, a)
    ensures a in g.fwd
    ensures var d := h.ns + (g.fwd[a] - h.ts); var car := At(h.orig, a);
      && (if Holds(h, live, car) then Renewed(h, g, car, At(m', d)) else At(m', d) == Imm(0x00, 0))
      && Renewed(h, g, At(h.orig, a + 1), At(m', d + 1))
  {
    assert live == g.fwd.Keys;
    Places(h, g, a);
    FieldSaved(h, g, m, m', a, 0);
    FieldSaved(h, g, m, m', a, 1);
    assert Keeps(h, live, a) && ObjOk(h, a);
    assert Visits(h, a) && Visits(h, a + 1);
  }
}
