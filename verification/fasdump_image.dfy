/** What the copies in tospace look like while they are scanned, and the graph that they form. */
module FasdumpImage {
  import opened FasdumpHeap

  /** A copied object: its address, the kind of the pointer by which it was reached first, and where the
      copy begins in tospace. */
  datatype Copy = Copy(addr: int, kind: Kind, at: int)

  /** The words of a copy before they are scanned.  Symbols lose their value, and variables what they had
      cached. */
  ghost function Content(h: Heap, c: Copy): seq<Word> {
    var ws := Words(h, c.addr);
    if c.kind == Interned && |ws| == 2 then [ws[0], BROKEN_HEART_ZERO]
    else if c.kind == Uninterned && |ws| == 2 then [ws[0], UNBOUND_OBJECT]
    else if c.kind == VariableObject && |ws| == 3 then [ws[0], UNCOMPILED_VARIABLE, SHARP_F]
    else ws
  }

  /** Where tospace begins, and the address that its first word gets in the file. */
  datatype Base = Base(ts: int, ns: int)

  function NewAddr(b: Base, c: Copy): int {
    b.ns + (c.at - b.ts)
  }

  ghost predicate CopyOf(cs: seq<Copy>, a: int, j: int) {
    0 <= j < |cs| && cs[j].addr == a
  }

  /** w' is the forwarded form of w: the same, or a pointer to the copy of what w points to. */
  ghost predicate IsForward(cs: seq<Copy>, b: Base, w: Word, w': Word) {
    if w.Ptr? then exists j {:trigger CopyOf(cs, w.addr, j)} ::
      CopyOf(cs, w.addr, j) && w' == Ptr(w.kind, NewAddr(b, cs[j]))
    else w' == w
  }

  /** The copies follow each other in tospace behind the root, in the order of the fixups. */
  ghost predicate CopyOk(h: Heap, fs: seq<Fixup>, cs: seq<Copy>, b: Base, i: int) {
    && 0 <= i < |cs| == |fs| && cs[i].addr == fs[i].addr && ObjOk(h, cs[i].addr) && Fits(h, cs[i].kind, cs[i].addr)
    && cs[i].at == if i == 0 then b.ts + 1 else EndOf(h, cs[i - 1])
  }

  ghost function EndOf(h: Heap, c: Copy): int {
    c.at + |Words(h, c.addr)|
  }

  ghost function LastEnd(h: Heap, cs: seq<Copy>, b: Base): int {
    if cs == [] then b.ts + 1 else EndOf(h, cs[|cs| - 1])
  }

  ghost predicate CopiesOk(h: Heap, fs: seq<Fixup>, cs: seq<Copy>, b: Base, next: int) {
    |cs| == |fs| && next == LastEnd(h, cs, b) && forall i {:trigger CopyOk(h, fs, cs, b, i)} :: 0 <= i < |cs| ==>
      CopyOk(h, fs, cs, b, i)
  }

  ghost predicate HeartOk(cs: seq<Copy>, b: Base, m: seq<Word>, i: int) {
    0 <= i < |cs| && 0 <= cs[i].addr < |m| && m[cs[i].addr] == BrokenHeart(NewAddr(b, cs[i]))
  }

  /** Word k of copy i: forwarded once the scan has come to it, and otherwise as it was copied. */
  ghost predicate Image(h: Heap, cs: seq<Copy>, b: Base, m: seq<Word>, scan: int, i: int, k: int) {
    && 0 <= i < |cs| && 0 <= k < |Content(h, cs[i])| && 0 <= cs[i].at + k < |m|
    && var w := Content(h, cs[i])[k];
       if cs[i].at + k < scan && Comes(Content(h, cs[i]), 0, k)
       then IsForward(cs, b, w, m[cs[i].at + k])
       else m[cs[i].at + k] == w
  }

  ghost predicate Images(h: Heap, cs: seq<Copy>, b: Base, m: seq<Word>, scan: int) {
    && (forall i {:trigger HeartOk(cs, b, m, i)} :: 0 <= i < |cs| ==> HeartOk(cs, b, m, i))
    && forall i, k {:trigger Image(h, cs, b, m, scan, i, k)} ::
         0 <= i < |cs| && 0 <= k < |Content(h, cs[i])| ==> Image(h, cs, b, m, scan, i, k)
  }

  /** The scan has come to word k of copy i. */
  ghost predicate At(h: Heap, cs: seq<Copy>, scan: int, i: int, k: int) {
    0 <= i < |cs| && 0 <= k < |Content(h, cs[i])| && scan == cs[i].at + k && Comes(Content(h, cs[i]), 0, k)
  }

  ghost predicate ScanOk(h: Heap, cs: seq<Copy>, b: Base, scan: int, next: int) {
    scan == b.ts || scan == next || exists i, k :: At(h, cs, scan, i, k)
  }

  /** The invariant about the copies. */
  ghost predicate Shown(h: Heap, fs: seq<Fixup>, cs: seq<Copy>, b: Base, m: seq<Word>, scan: int, next: int) {
    CopiesOk(h, fs, cs, b, next) && Images(h, cs, b, m, scan) && ScanOk(h, cs, b, scan, next) && b.ts <= scan <= next &&
      h.limit <= b.ts
  }

  /** The scan, or the transport of list tails, meets word k of the copy c. */
  ghost predicate Met(h: Heap, c: Copy, k: int) {
    0 <= k < |Content(h, c)| && (Comes(Content(h, c), 0, k) || (k == 1 && |Content(h, c)| == 2))
  }

  ghost predicate MetAt(h: Heap, cs: seq<Copy>, w: Word, j: int, k: int) {
    0 <= j < |cs| && Met(h, cs[j], k) && Content(h, cs[j])[k] == w
  }

  /** w is the root, or a word that is met in one of the copies. */
  ghost predicate Occurs(h: Heap, cs: seq<Copy>, root: Word, w: Word) {
    w == root || exists j, k :: MetAt(h, cs, w, j, k)
  }

  /** The pointer by which copy i was reached first is the root, or is met in an earlier copy. */
  ghost predicate Found(h: Heap, cs: seq<Copy>, root: Word, i: int) {
    0 <= i < |cs| && Occurs(h, cs[..i], root, Ptr(cs[i].kind, cs[i].addr))
  }

  ghost predicate AllFound(h: Heap, cs: seq<Copy>, root: Word) {
    forall i {:trigger Found(h, cs, root, i)} :: 0 <= i < |cs| ==> Found(h, cs, root, i)
  }

  // ---------------------------------------------------------------- the walk over the words

  lemma ContentSize(h: Heap, c: Copy)
    ensures |Content(h, c)| == |Words(h, c.addr)|
    ensures c.addr in h.objs && ObjOk(h, c.addr) && h.limit <= |h.orig| ==> |Words(h, c.addr)| == h.objs[c.addr].size
  {}

  /** The walk passes every place that it comes to. */
  lemma {:induction false} ComesThrough(ws: seq<Word>, i: int, k: int, l: int)
    requires Comes(ws, i, k) && Comes(ws, i, l) && k <= l
    ensures Comes(ws, k, l)
    decreases k - i
  {
    if i < k { ComesThrough(ws, i + Width(ws[i]), k, l); }
  }

  lemma {:induction false} ComesNext(ws: seq<Word>, i: int, k: int)
    requires Comes(ws, i, k) && 0 <= k < |ws|
    ensures Comes(ws, i, k + Width(ws[k]))
    decreases k - i
  {
    if i < k { ComesNext(ws, i + Width(ws[i]), k); }
  }

  /** The data behind a manifest header is passed over. */
  lemma Skipped(ws: seq<Word>, k: int, l: int)
    requires Comes(ws, 0, k) && 0 <= k < |ws| && k < l < k + Width(ws[k])
    ensures !Comes(ws, 0, l)
  {
    if Comes(ws, 0, l) { ComesThrough(ws, 0, k, l); }
  }

  /** The walk over a copy ends at its end. */
  lemma ContentWalks(h: Heap, c: Copy)
    requires WellFormed(h) && c.addr in h.objs
    ensures Comes(Content(h, c), 0, |Content(h, c)|)
  {
    assert ObjOk(h, c.addr) && Walks(h, c.addr);
    var ws, cs := Words(h, c.addr), Content(h, c);
    if ws != cs {
      assert Comes(cs, |cs|, |cs|) && Comes(cs, |cs| - 1, |cs|);
      if |cs| == 3 { assert Comes(cs, 1, 3) && Comes(ws, 0, 3); }
    }
  }

  // ---------------------------------------------------------------- the layout

  /** Copies do not overlap. */
  lemma {:induction false} InOrder(h: Heap, fs: seq<Fixup>, cs: seq<Copy>, b: Base, next: int, i: int, j: int)
    requires CopiesOk(h, fs, cs, b, next) && 0 <= i < j <= |cs|
    ensures EndOf(h, cs[i]) <= if j < |cs| then cs[j].at else next
    decreases j
  {
    hide Words, Fits, ObjOk;
    assert CopyOk(h, fs, cs, b, i);
    if j < |cs| { assert CopyOk(h, fs, cs, b, j); }
    if j - 1 > i {
      InOrder(h, fs, cs, b, next, i, j - 1);
      assert CopyOk(h, fs, cs, b, j - 1);
    }
  }

  lemma {:induction false} BehindRoot(h: Heap, fs: seq<Fixup>, cs: seq<Copy>, b: Base, next: int, i: int)
    requires CopiesOk(h, fs, cs, b, next) && 0 <= i < |cs|
    ensures b.ts < cs[i].at && EndOf(h, cs[i]) <= next
    decreases i
  {
    assert CopyOk(h, fs, cs, b, i);
    InOrder(h, fs, cs, b, next, i, |cs|);
    if i > 0 { InOrder(h, fs, cs, b, next, 0, i); BehindRoot(h, fs, cs, b, next, 0); }
  }

  lemma ForwardGrows(cs: seq<Copy>, cs': seq<Copy>, b: Base, w: Word, w': Word)
    requires IsForward(cs, b, w, w') && |cs| <= |cs'|
    requires forall j :: 0 <= j < |cs| ==> cs'[j].addr == cs[j].addr && cs'[j].at == cs[j].at
    ensures IsForward(cs', b, w, w')
  {
    if w.Ptr? {
      var j :| CopyOf(cs, w.addr, j) && w' == Ptr(w.kind, NewAddr(b, cs[j]));
      assert CopyOf(cs', w.addr, j);
    }
  }

  // ---------------------------------------------------------------- the steps

  /** An object is copied. */
  lemma CopyAdded(h: Heap, fs: seq<Fixup>, f: Fixup, cs: seq<Copy>, b: Base, m: seq<Word>, m': seq<Word>, scan: int,
                  next: int, kind: Kind)
    requires WellFormed(h) && Shown(h, fs, cs, b, m, scan, next) && f.addr in h.objs && Fits(h, kind, f.addr)
    requires kind != Interned && kind != Uninterned && kind != VariableObject
    requires forall i {:trigger cs[i]} :: 0 <= i < |cs| ==> cs[i].addr != f.addr
    requires |m'| == |m| && h.limit <= |m| && 0 <= f.addr < h.limit && next + |Words(h, f.addr)| <= |m|
    requires forall p {:trigger m'[p]} :: 0 <= p < next && p != f.addr ==> m'[p] == m[p]
    requires m'[f.addr] == BrokenHeart(b.ns + (next - b.ts))
    requires forall k {:trigger Words(h, f.addr)[k]} :: 0 <= k < |Words(h, f.addr)| ==>
      m'[next + k] == Words(h, f.addr)[k]
    ensures Shown(h, fs + [f], cs + [Copy(f.addr, kind, next)], b, m', scan, next + |Words(h, f.addr)|)
  {
    hide WellFormed, Words, Content, Comes;
    var c := Copy(f.addr, kind, next);
    var cs', fs' := cs + [c], fs + [f];
    NewContent(h, c);
    forall i | 0 <= i < |cs'| ensures CopyOk(h, fs', cs', b, i) && HeartOk(cs', b, m', i) {
      if i < |cs| {
        assert CopyOk(h, fs, cs, b, i) && HeartOk(cs, b, m, i) && cs[i].addr != f.addr;
      }
    }
    forall i, k | 0 <= i < |cs'| && 0 <= k < |Content(h, cs'[i])| ensures Image(h, cs', b, m', scan, i, k) {
      if i < |cs| {
        assert Image(h, cs, b, m, scan, i, k);
        BehindRoot(h, fs, cs, b, next, i);
        ContentSize(h, cs[i]);
        if IsForward(cs, b, Content(h, cs[i])[k], m[cs[i].at + k]) {
          ForwardGrows(cs, cs', b, Content(h, cs[i])[k], m[cs[i].at + k]);
        }
      }
    }
    if exists i, k :: At(h, cs, scan, i, k) {
      var i, k :| At(h, cs, scan, i, k);
      assert At(h, cs', scan, i, k);
    } else if scan == next {
      assert At(h, cs', scan, |cs|, 0);
    }
  }

  lemma NewContent(h: Heap, c: Copy)
    requires WellFormed(h) && c.addr in h.objs && c.kind != Interned && c.kind != Uninterned && c.kind != VariableObject
    ensures ObjOk(h, c.addr) && Content(h, c) == Words(h, c.addr) && |Words(h, c.addr)| == h.objs[c.addr].size > 0 &&
      Comes(Content(h, c), 0, 0)
  {
    assert ObjOk(h, c.addr);
  }

  /** The copy that was made last turns out to be a symbol or a variable. */
  lemma Relabelled(h: Heap, fs: seq<Fixup>, cs: seq<Copy>, b: Base, m: seq<Word>, m': seq<Word>, scan: int, next: int,
                   kind: Kind)
    requires WellFormed(h) && Shown(h, fs, cs, b, m, scan, next) && cs != [] && Fits(h, kind, cs[|cs| - 1].addr)
    requires |m'| == |m| && scan <= cs[|cs| - 1].at && next <= |m|
    requires forall p {:trigger m'[p]} :: 0 <= p < cs[|cs| - 1].at ==> m'[p] == m[p]
    requires var c := cs[|cs| - 1].(kind := kind);
      forall k {:trigger Content(h, c)[k]} :: 0 <= k < |Content(h, c)| && 0 <= c.at + k < |m| ==>
        m'[c.at + k] == Content(h, c)[k]
    ensures Shown(h, fs, cs[|cs| - 1 := cs[|cs| - 1].(kind := kind)], b, m', scan, next)
  {
    hide WellFormed, Words, Content, Comes;
    var n := |cs| - 1;
    var c := cs[n].(kind := kind);
    var cs' := cs[n := c];
    ContentSize(h, c);
    ContentSize(h, cs[n]);
    BehindRoot(h, fs, cs, b, next, n);
    forall i | 0 <= i < |cs'| ensures CopyOk(h, fs, cs', b, i) && HeartOk(cs', b, m', i) {
      assert CopyOk(h, fs, cs, b, i) && HeartOk(cs, b, m, i);
    }
    forall i, k | 0 <= i < |cs'| && 0 <= k < |Content(h, cs'[i])| ensures Image(h, cs', b, m', scan, i, k) {
      if i < n {
        assert Image(h, cs, b, m, scan, i, k);
        InOrder(h, fs, cs, b, next, i, n);
        ContentSize(h, cs[i]);
        if IsForward(cs, b, Content(h, cs[i])[k], m[cs[i].at + k]) {
          ForwardGrows(cs, cs', b, Content(h, cs[i])[k], m[cs[i].at + k]);
        }
      }
    }
    if exists i, k :: At(h, cs, scan, i, k) {
      var i, k :| At(h, cs, scan, i, k);
      if i == n { FromStart(Content(h, c)); }
      assert At(h, cs', scan, i, k);
    }
  }

  lemma FromStart(ws: seq<Word>)
    ensures Comes(ws, 0, 0)
  {}

  /** The scan goes on behind the root. */
  lemma RootStep(h: Heap, fs: seq<Fixup>, cs: seq<Copy>, b: Base, m: seq<Word>, w': Word, next: int)
    requires Shown(h, fs, cs, b, m, b.ts, next) && b.ts < next <= |m|
    ensures Shown(h, fs, cs, b, m[b.ts := w'], b.ts + 1, next)
  {
    hide Words, Content, Comes;
    var m', onward := m[b.ts := w'], b.ts + 1;
    forall i | 0 <= i < |cs| ensures HeartOk(cs, b, m', i) { assert CopyOk(h, fs, cs, b, i) && HeartOk(cs, b, m, i); }
    forall i, k | 0 <= i < |cs| && 0 <= k < |Content(h, cs[i])| ensures Image(h, cs, b, m', onward, i, k) {
      assert Image(h, cs, b, m, b.ts, i, k);
      BehindRoot(h, fs, cs, b, next, i);
    }
    if cs != [] {
      assert CopyOk(h, fs, cs, b, 0);
      ContentSize(h, cs[0]);
      FromStart(Content(h, cs[0]));
      assert At(h, cs, onward, 0, 0);
    }
  }

  /** The word at scan is forwarded, and the data behind it is passed over. */
  lemma WordStep(h: Heap, fs: seq<Fixup>, cs: seq<Copy>, b: Base, m: seq<Word>, w': Word, scan: int, next: int, i: int,
                 k: int)
    requires WellFormed(h) && Shown(h, fs, cs, b, m, scan, next) && b.ts < scan < next <= |m| && At(h, cs, scan, i, k)
    requires IsForward(cs, b, m[scan], w')
    ensures m[scan] == Content(h, cs[i])[k]
    ensures Shown(h, fs, cs, b, m[scan := w'], scan + Width(m[scan]), next)
  {
    hide WellFormed, Words, Content, Comes, Width;
    assert Image(h, cs, b, m, scan, i, k) && CopyOk(h, fs, cs, b, i);
    var w, m', ws := m[scan], m[scan := w'], Content(h, cs[i]);
    var onward := scan + Width(w);
    ContentSize(h, cs[i]);
    BehindRoot(h, fs, cs, b, next, i);
    forall j | 0 <= j < |cs| ensures HeartOk(cs, b, m', j) { assert CopyOk(h, fs, cs, b, j) && HeartOk(cs, b, m, j); }
    ComesNext(ws, 0, k);
    ContentWalks(h, cs[i]);
    ComesThrough(ws, 0, k + Width(w), |ws|) by { WithinWalk(ws, k); }
    WithinWalk(ws, k);
    forall j, l | 0 <= j < |cs| && 0 <= l < |Content(h, cs[j])| ensures Image(h, cs, b, m', onward, j, l) {
      assert Image(h, cs, b, m, scan, j, l);
      ContentSize(h, cs[j]);
      if j < i { InOrder(h, fs, cs, b, next, j, i); }
      if j > i { InOrder(h, fs, cs, b, next, i, j); }
      if j == i && k < l < k + Width(w) { Skipped(ws, k, l); }
    }
    NextPlace(h, fs, cs, b, onward, next, i, k + Width(w));
  }

  /** The walk does not leave the words. */
  lemma WithinWalk(ws: seq<Word>, k: int)
    requires Comes(ws, 0, k) && 0 <= k < |ws| && Comes(ws, 0, |ws|)
    ensures k + Width(ws[k]) <= |ws|
  {
    ComesThrough(ws, 0, k, |ws|);
  }

  lemma NextPlace(h: Heap, fs: seq<Fixup>, cs: seq<Copy>, b: Base, onward: int, next: int, i: int, k: int)
    requires CopiesOk(h, fs, cs, b, next) && 0 <= i < |cs| && onward == cs[i].at + k && 0 <= k <= |Content(h, cs[i])| &&
      Comes(Content(h, cs[i]), 0, k)
    ensures ScanOk(h, cs, b, onward, next) && onward <= next
  {
    hide Words, Content, Comes;
    ContentSize(h, cs[i]);
    BehindRoot(h, fs, cs, b, next, i);
    if k < |Content(h, cs[i])| {
      assert At(h, cs, onward, i, k);
    } else if i < |cs| - 1 {
      assert CopyOk(h, fs, cs, b, i + 1);
      ContentSize(h, cs[i + 1]);
      FromStart(Content(h, cs[i + 1]));
      assert At(h, cs, onward, i + 1, 0);
    }
  }

  // ---------------------------------------------------------------- environments

  predicate IsEnvironment(w: Word) {
    w.Ptr? && w.kind == Environment
  }

  /** Word k of copy i is not an environment, if the scan has passed it. */
  ghost predicate Clear(h: Heap, cs: seq<Copy>, scan: int, i: int, k: int) {
    0 <= i < |cs| && 0 <= k < |Content(h, cs[i])| && cs[i].at + k < scan && Comes(Content(h, cs[i]), 0, k) ==>
      !IsEnvironment(Content(h, cs[i])[k])
  }

  ghost predicate AllClear(h: Heap, cs: seq<Copy>, scan: int) {
    forall i, k {:trigger Clear(h, cs, scan, i, k)} :: Clear(h, cs, scan, i, k)
  }

  /** Copies that are added lie behind the scan. */
  lemma ClearLater(h: Heap, fs: seq<Fixup>, cs: seq<Copy>, next: int, fs': seq<Fixup>, cs': seq<Copy>, next': int,
                   b: Base,
                   scan: int)
    requires AllClear(h, cs, scan) && cs <= cs' && scan <= next
    requires CopiesOk(h, fs, cs, b, next) && CopiesOk(h, fs', cs', b, next')
    ensures AllClear(h, cs', scan)
  {
    hide Content, Comes, Words;
    forall i, k ensures Clear(h, cs', scan, i, k) {
      if 0 <= i < |cs| {
        assert Clear(h, cs, scan, i, k);
      } else if |cs| <= i < |cs'| {
        if cs == [] {
          BehindRoot(h, fs', cs', b, next', i);
        } else {
          InOrder(h, fs', cs', b, next', |cs| - 1, i);
        }
      }
    }
  }

  lemma ClearRoot(h: Heap, fs: seq<Fixup>, cs: seq<Copy>, b: Base, next: int)
    requires CopiesOk(h, fs, cs, b, next)
    ensures AllClear(h, cs, b.ts + 1)
  {
    hide Content, Comes, Words;
    var onward := b.ts + 1;
    forall i, k ensures Clear(h, cs, onward, i, k) {
      if 0 <= i < |cs| { BehindRoot(h, fs, cs, b, next, i); }
    }
  }

  lemma ClearStep(h: Heap, fs: seq<Fixup>, cs: seq<Copy>, b: Base, next: int, scan: int, i: int, k: int)
    requires CopiesOk(h, fs, cs, b, next) && AllClear(h, cs, scan) && At(h, cs, scan, i, k) && WellFormed(h)
    requires !IsEnvironment(Content(h, cs[i])[k])
    ensures AllClear(h, cs, scan + Width(Content(h, cs[i])[k]))
  {
    hide WellFormed, Words, Content, Comes, Width;
    var ws := Content(h, cs[i]);
    var onward := scan + Width(ws[k]);
    assert CopyOk(h, fs, cs, b, i);
    ContentSize(h, cs[i]);
    ContentWalks(h, cs[i]);
    WithinWalk(ws, k);
    forall j, l ensures Clear(h, cs, onward, j, l) {
      assert Clear(h, cs, scan, j, l);
      if 0 <= j < |cs| && 0 <= l < |Content(h, cs[j])| {
        ContentSize(h, cs[j]);
        if j < i { InOrder(h, fs, cs, b, next, j, i); }
        if j > i { InOrder(h, fs, cs, b, next, i, j); }
        if j == i && k < l < k + Width(ws[k]) { Skipped(ws, k, l); }
      }
    }
  }

  // ---------------------------------------------------------------- how objects are reached

  lemma FoundAdded(h: Heap, cs: seq<Copy>, root: Word, c: Copy)
    requires AllFound(h, cs, root) && Occurs(h, cs, root, Ptr(c.kind, c.addr))
    ensures AllFound(h, cs + [c], root)
  {
    hide Occurs;
    var cs' := cs + [c];
    forall i | 0 <= i < |cs'| ensures Found(h, cs', root, i) {
      assert cs'[..i] == cs[..i] && cs[..|cs|] == cs;
      assert i < |cs| ==> Found(h, cs, root, i);
    }
  }

  lemma OccursLater(h: Heap, cs: seq<Copy>, cs': seq<Copy>, root: Word, w: Word)
    requires Occurs(h, cs, root, w) && cs <= cs'
    ensures Occurs(h, cs', root, w)
  {
    hide Content, Comes;
    if w != root {
      var j, k :| MetAt(h, cs, w, j, k);
      assert MetAt(h, cs', w, j, k);
    }
  }

  /** The kinds of pointers whose objects lose words. */
  predicate Resets(kind: Kind) {
    kind == Interned || kind == Uninterned || kind == VariableObject
  }

  /** Field k of the object that u points to is w.  From symbols and variables only the first field counts. */
  ghost predicate FieldAt(h: Heap, u: Word, k: int, w: Word) {
    && u.Ptr? && var ws := Words(h, u.addr);
    && 0 <= k < |ws| && (Comes(ws, 0, k) || (k == 1 && |ws| == 2)) && (k == 0 || !Resets(u.kind)) && ws[k] == w
  }

  ghost predicate Field(h: Heap, u: Word, w: Word) {
    exists k :: FieldAt(h, u, k, w)
  }

  /** w is reached from the root by n fields. */
  ghost predicate ReachedBy(h: Heap, root: Word, n: nat, w: Word) {
    if n == 0 then w == root else exists u {:trigger Field(h, u, w)} :: ReachedBy(h, root, n - 1, u) && Field(h, u, w)
  }

  ghost predicate Reached(h: Heap, root: Word, w: Word) {
    exists n: nat :: ReachedBy(h, root, n, w)
  }

  /** Nothing but what can be reached from the root is dumped. */
  lemma {:induction false} OnlyReached(h: Heap, fs: seq<Fixup>, cs: seq<Copy>, b: Base, next: int, root: Word, i: int)
    requires CopiesOk(h, fs, cs, b, next) && AllFound(h, cs, root) && 0 <= i < |cs|
    ensures Reached(h, root, Ptr(cs[i].kind, cs[i].addr))
    decreases i
  {
    hide Comes, Words;
    var w := Ptr(cs[i].kind, cs[i].addr);
    assert Found(h, cs, root, i);
    if w == root {
      assert ReachedBy(h, root, 0, w);
    } else {
      var j, k :| MetAt(h, cs[..i], w, j, k);
      assert cs[..i][j] == cs[j];
      OnlyReached(h, fs, cs, b, next, root, j);
      assert CopyOk(h, fs, cs, b, j);
      var u := Ptr(cs[j].kind, cs[j].addr);
      var n: nat :| ReachedBy(h, root, n, u);
      MetIsField(h, cs[j], k, w);
      assert Field(h, u, w);
      assert ReachedBy(h, root, n + 1, w);
    }
  }

  /** What is met in the copies is reached from the root. */
  lemma MetIsReached(h: Heap, fs: seq<Fixup>, cs: seq<Copy>, b: Base, next: int, root: Word, w: Word)
    requires CopiesOk(h, fs, cs, b, next) && AllFound(h, cs, root) && Occurs(h, cs, root, w) && w.Ptr?
    ensures Reached(h, root, w)
  {
    hide Comes, Words;
    if w == root {
      assert ReachedBy(h, root, 0, w);
    } else {
      var j, k :| MetAt(h, cs, w, j, k);
      OnlyReached(h, fs, cs, b, next, root, j);
      assert CopyOk(h, fs, cs, b, j);
      var u := Ptr(cs[j].kind, cs[j].addr);
      var n: nat :| ReachedBy(h, root, n, u);
      MetIsField(h, cs[j], k, w);
      assert Field(h, u, w);
      assert ReachedBy(h, root, n + 1, w);
    }
  }

  lemma MetIsField(h: Heap, c: Copy, k: int, w: Word)
    requires Met(h, c, k) && Content(h, c)[k] == w && w.Ptr? && ObjOk(h, c.addr) && Fits(h, c.kind, c.addr)
    ensures FieldAt(h, Ptr(c.kind, c.addr), k, w)
  {
    ContentSize(h, c);
    if Resets(c.kind) { assert k == 0; }
  }

  // ---------------------------------------------------------------- the graph

  /** The object at a is reached by a pointer that lets it lose all words but the first. */
  ghost predicate IsReset(h: Heap, root: Word, a: int) {
    exists kind :: Resets(kind) && Reached(h, root, Ptr(kind, a))
  }

  /** From w in the heap the path of fields leads to v. */
  ghost predicate Leads(h: Heap, root: Word, w: Word, path: seq<int>, v: Word)
    decreases |path|
  {
    if path == [] then v == w
    else
      && w.Ptr? && var ws, k := Words(h, w.addr), path[0];
      && 0 <= k < |ws| && Comes(ws, 0, k) && (k == 0 || !IsReset(h, root, w.addr)) &&
         Leads(h, root, ws[k], path[1..], v)
  }

  /** From w in the dump the path leads to v; the dump begins at the address b.ns. */
  ghost predicate DumpLeads(m: seq<Word>, b: Base, w: Word, path: seq<int>, v: Word)
    decreases |path|
  {
    if path == [] then v == w
    else
      w.Ptr? && var p := w.addr - b.ns + b.ts + path[0];
      0 <= p < |m| && DumpLeads(m, b, m[p], path[1..], v)
  }

  /** d holds a dump of what root refers to; the scan ended in the memory m. */
  ghost predicate DumpedFrom(h: Heap, fs: seq<Fixup>, cs: seq<Copy>, b: Base, d: seq<Word>, next: int, root: Word,
                             m: seq<Word>) {
    && 0 <= b.ts < |m| == |d| && (forall p {:trigger d[p]} {:trigger m[p]} :: b.ts <= p < |d| ==> d[p] == m[p])
    && Shown(h, fs, cs, b, m, next, next) && IsForward(cs, b, root, d[b.ts]) && AllFound(h, cs, root)
  }

  ghost predicate Dumped(h: Heap, fs: seq<Fixup>, cs: seq<Copy>, b: Base, d: seq<Word>, next: int, root: Word) {
    exists m :: DumpedFrom(h, fs, cs, b, d, next, root, m)
  }

  /** The dump is a copy of the graph: every path in the heap leads to a word whose forwarded form the same
      path leads to in the dump.  If it is a pointer, its object is among the copies. */
  lemma GraphDumped(h: Heap, fs: seq<Fixup>, cs: seq<Copy>, b: Base, d: seq<Word>, next: int, root: Word,
                    path: seq<int>, v: Word)
    returns (v': Word)
    requires Dumped(h, fs, cs, b, d, next, root) && Leads(h, root, root, path, v)
    ensures 0 <= b.ts < |d| && DumpLeads(d, b, d[b.ts], path, v') && IsForward(cs, b, v, v')
    ensures if v.Ptr? then v'.Ptr? && v'.kind == v.kind &&
                           exists j {:trigger cs[j]} :: 0 <= j < |cs| && cs[j].addr == v.addr &&
                             v'.addr == b.ns + (cs[j].at - b.ts)
            else v' == v
  {
    hide Shown, Leads, DumpLeads, AllFound;
    var m :| DumpedFrom(h, fs, cs, b, d, next, root, m);
    v' := PathDumped(h, fs, cs, b, m, d, next, root, root, d[b.ts], path, v);
  }

  lemma {:induction false} PathDumped(h: Heap, fs: seq<Fixup>, cs: seq<Copy>, b: Base, m: seq<Word>, d: seq<Word>,
                                      next: int, root: Word, w: Word, w': Word, path: seq<int>, v: Word)
    returns (v': Word)
    requires DumpedFrom(h, fs, cs, b, d, next, root, m) && IsForward(cs, b, w, w') && Leads(h, root, w, path, v)
    ensures DumpLeads(d, b, w', path, v') && IsForward(cs, b, v, v')
    decreases |path|
  {
    hide Shown, Words, Content, Comes, IsReset, AllFound;
    if path == [] {
      v' := w';
    } else {
      var j :| CopyOf(cs, w.addr, j) && w' == Ptr(w.kind, NewAddr(b, cs[j]));
      var k := path[0];
      WordDumped(h, fs, cs, b, d, next, root, j, k);
      assert d[cs[j].at + k] == d[w'.addr - b.ns + b.ts + k];
      v' := PathDumped(h, fs, cs, b, m, d, next, root, Words(h, w.addr)[k], d[cs[j].at + k], path[1..], v);
    }
  }

  /** Word k of a copy, unless it is reset: forwarded if the walk comes to it, and otherwise the same. */
  lemma WordDumped(h: Heap, fs: seq<Fixup>, cs: seq<Copy>, b: Base, d: seq<Word>, next: int, root: Word, j: int, k: int)
    requires Dumped(h, fs, cs, b, d, next, root) && 0 <= j < |cs| && 0 <= k < |Words(h, cs[j].addr)|
    requires k == 0 || !IsReset(h, root, cs[j].addr)
    ensures b.ts <= cs[j].at + k < |d| && 0 <= cs[j].at + k
    ensures var w, w' := Words(h, cs[j].addr)[k], d[cs[j].at + k];
      if Comes(Words(h, cs[j].addr), 0, k) then IsForward(cs, b, w, w') else w' == w
  {
    var m :| DumpedFrom(h, fs, cs, b, d, next, root, m);
    KeptWord(h, fs, cs, b, next, root, j, k);
    ContentSize(h, cs[j]);
    hide Words, Content, Comes;
    assert Image(h, cs, b, m, next, j, k);
    BehindRoot(h, fs, cs, b, next, j);
  }

  lemma KeptWord(h: Heap, fs: seq<Fixup>, cs: seq<Copy>, b: Base, next: int, root: Word, j: int, k: int)
    requires CopiesOk(h, fs, cs, b, next) && AllFound(h, cs, root) && 0 <= j < |cs| && 0 <= k < |Words(h, cs[j].addr)|
    requires k == 0 || !IsReset(h, root, cs[j].addr)
    ensures k < |Content(h, cs[j])| && Content(h, cs[j])[k] == Words(h, cs[j].addr)[k]
    ensures Comes(Content(h, cs[j]), 0, k) <==> Comes(Words(h, cs[j].addr), 0, k)
  {
    hide Reached;
    ContentSize(h, cs[j]);
    OnlyReached(h, fs, cs, b, next, root, j);
  }

  /** In a dump without environments no path in the heap leads to one. */
  lemma {:induction false} NoEnvironment(h: Heap, fs: seq<Fixup>, cs: seq<Copy>, b: Base, d: seq<Word>, next: int,
                                         root: Word, w: Word, w': Word, path: seq<int>, v: Word)
    requires Dumped(h, fs, cs, b, d, next, root) && IsForward(cs, b, w, w') && !IsEnvironment(w)
    requires AllClear(h, cs, next) && Leads(h, root, w, path, v)
    ensures !IsEnvironment(v)
    decreases |path|
  {
    hide Shown, Words, Content, Comes, IsReset, AllFound;
    if path != [] {
      var j :| CopyOf(cs, w.addr, j) && w' == Ptr(w.kind, NewAddr(b, cs[j]));
      var k := path[0];
      WordDumped(h, fs, cs, b, d, next, root, j, k);
      WordClear(h, fs, cs, b, d, next, root, j, k);
      NoEnvironment(h, fs, cs, b, d, next, root, Words(h, w.addr)[k], d[cs[j].at + k], path[1..], v);
    }
  }

  lemma WordClear(h: Heap, fs: seq<Fixup>, cs: seq<Copy>, b: Base, d: seq<Word>, next: int, root: Word, j: int, k: int)
    requires Dumped(h, fs, cs, b, d, next, root) && 0 <= j < |cs| && 0 <= k < |Words(h, cs[j].addr)|
    requires AllClear(h, cs, next) && Comes(Words(h, cs[j].addr), 0, k) && (k == 0 || !IsReset(h, root, cs[j].addr))
    ensures !IsEnvironment(Words(h, cs[j].addr)[k])
  {
    var m :| DumpedFrom(h, fs, cs, b, d, next, root, m);
    KeptWord(h, fs, cs, b, next, root, j, k);
    ContentSize(h, cs[j]);
    hide Words, Content, Comes;
    BehindRoot(h, fs, cs, b, next, j);
    assert Clear(h, cs, next, j, k);
  }

  /** A copied object that is only reached as a symbol or a variable has lost its words. */
  lemma WordsReset(h: Heap, fs: seq<Fixup>, cs: seq<Copy>, b: Base, d: seq<Word>, next: int, root: Word, j: int,
                   kind: Kind)
    requires WellFormed(h) && Dumped(h, fs, cs, b, d, next, root) && 0 <= j < |cs|
    requires forall other {:trigger Reached(h, root, Ptr(other, cs[j].addr))} ::
      Reached(h, root, Ptr(other, cs[j].addr)) ==> other == kind
    ensures 0 <= cs[j].at && EndOf(h, cs[j]) <= |d|
    ensures kind == Interned ==> |Words(h, cs[j].addr)| == 2 && d[cs[j].at + 1] == BrokenHeart(0)
    ensures kind == Uninterned ==> |Words(h, cs[j].addr)| == 2 && d[cs[j].at + 1] == Object(0x32, 2)
    ensures kind == VariableObject ==>
      |Words(h, cs[j].addr)| == 3 && d[cs[j].at + 1] == Object(0x08, 0) && d[cs[j].at + 2] == Object(0x00, 0)
  {
    hide Reached, Comes;
    var m :| DumpedFrom(h, fs, cs, b, d, next, root, m);
    assert CopyOk(h, fs, cs, b, j);
    OnlyReached(h, fs, cs, b, next, root, j);
    ContentSize(h, cs[j]);
    BehindRoot(h, fs, cs, b, next, j);
    assert Image(h, cs, b, m, next, j, 0);
    assert |Words(h, cs[j].addr)| >= 2 ==> Image(h, cs, b, m, next, j, 1);
    assert |Words(h, cs[j].addr)| >= 3 ==> Image(h, cs, b, m, next, j, 2);
    EndInside(h, cs, b, m, next, j);
  }

  lemma EndInside(h: Heap, cs: seq<Copy>, b: Base, m: seq<Word>, next: int, j: int)
    requires Images(h, cs, b, m, next) && 0 <= j < |cs| && |Words(h, cs[j].addr)| > 0
    ensures 0 <= cs[j].at && EndOf(h, cs[j]) <= |m|
  {
    ContentSize(h, cs[j]);
    hide Words, Content, Comes;
    assert Image(h, cs, b, m, next, j, 0) && Image(h, cs, b, m, next, j, |Words(h, cs[j].addr)| - 1);
  }

  /** An object is copied once. */
  lemma OneCopy(h: Heap, fs: seq<Fixup>, cs: seq<Copy>, b: Base, m: seq<Word>, next: int, i: int, j: int)
    requires Shown(h, fs, cs, b, m, next, next) && 0 <= i < |cs| && 0 <= j < |cs|
    ensures cs[i].addr == cs[j].addr <==> i == j
    ensures cs[i].at == cs[j].at <==> i == j
  {
    assert HeartOk(cs, b, m, i) && HeartOk(cs, b, m, j) && CopyOk(h, fs, cs, b, i) && CopyOk(h, fs, cs, b, j);
    if i < j { InOrder(h, fs, cs, b, next, i, j); }
    if j < i { InOrder(h, fs, cs, b, next, j, i); }
  }

  /** Sharing is kept: two pointers lead to one object in the dump just when they did in the heap. */
  lemma SharingDumped(h: Heap, fs: seq<Fixup>, cs: seq<Copy>, b: Base, d: seq<Word>, next: int, root: Word, w: Word,
                      w': Word, v: Word, v': Word)
    requires Dumped(h, fs, cs, b, d, next, root) && w.Ptr? && v.Ptr? && IsForward(cs, b, w, w') &&
      IsForward(cs, b, v, v')
    ensures w.addr == v.addr <==> w'.addr == v'.addr
  {
    var m :| DumpedFrom(h, fs, cs, b, d, next, root, m);
    var i :| CopyOf(cs, w.addr, i) && w' == Ptr(w.kind, NewAddr(b, cs[i]));
    var j :| CopyOf(cs, v.addr, j) && v' == Ptr(v.kind, NewAddr(b, cs[j]));
    OneCopy(h, fs, cs, b, m, next, i, j);
  }
}
