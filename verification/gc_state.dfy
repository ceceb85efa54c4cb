/** The state of a collection and its invariant. */
module GcState {
  import opened GcHeap

  /** What a collection has done so far.  `fwd` maps a transported object to the tospace position
      of its copy, `own` maps every copied word to the object it belongs to, `done` holds the
      words that have been scanned, `next` is tospace_next.  `elist` lists the ephemerons on the
      ephemeron list, `wk` the old weak pairs on the weak chain, `tb` the buckets of the ephemeron
      table, `queue` the ephemeron queue, and `served` the ephemerons taken from the queue. */
  datatype G = G(
    fwd: map<int, int>,
    own: map<int, int>,
    done: set<int>,
    next: int,
    elist: seq<int>,
    wk: seq<int>,
    tb: seq<seq<int>>,
    queue: seq<int>,
    served: set<int>)

  /** TOSPACE_TO_NEWSPACE. */
  function NewAddr(h: Heap, d: int): int {
    d - h.ts + h.ns
  }

  /** The tospace position of the copy of a. */
  ghost function To(g: G, a: int): int {
    if a in g.fwd then g.fwd[a] else 0
  }

  /** The object that the copied word at q belongs to. */
  ghost function Own(g: G, q: int): int {
    if q in g.own then g.own[q] else 0
  }

  /** The fromspace address that the copied word at q comes from. */
  ghost function Src(g: G, q: int): int {
    Own(g, q) + (q - To(g, Own(g, q)))
  }

  /** The word w with its address updated if its target has been transported. */
  ghost function Forward(h: Heap, g: G, w: Word): Word {
    if InFrom(h, w) && w.addr in g.fwd then Ptr(w.cls, w.code, NewAddr(h, To(g, w.addr))) else w
  }

  /** w' is what a collection makes of the reference w: a pointer of the same type to the copy of its
      target, h.ns - h.ts above the tospace position; a word that is no fromspace pointer is as it was. */
  ghost predicate Renewed(h: Heap, g: G, w: Word, w': Word) {
    if w.Ptr? && h.fs <= w.addr < h.fe then
      w.addr in g.fwd && w' == Ptr(w.cls, w.code, h.ns + (g.fwd[w.addr] - h.ts))
    else w' == w
  }

  ghost predicate Placed(h: Heap, g: G, a: int) {
    a in g.fwd && a in h.objs && h.t0 <= g.fwd[a] && g.fwd[a] + h.objs[a].size <= g.next
  }

  ghost predicate CopyOf(h: Heap, g: G, a: int, q: int) {
    a in g.fwd && a in h.objs && g.fwd[a] <= q < g.fwd[a] + h.objs[a].size
  }

  /** Every transported object has one contiguous copy; the copies tile [t0, next). */
  ghost predicate Layout(h: Heap, g: G) {
    && h.t0 <= g.next <= h.te
    && (forall a {:trigger Placed(h, g, a)} :: a in g.fwd ==> Placed(h, g, a))
    && (forall q :: q in g.own <==> h.t0 <= q < g.next)
    && (forall q {:trigger CopyOf(h, g, Own(g, q), q)} :: q in g.own ==> CopyOf(h, g, Own(g, q), q))
    && (forall a, q {:trigger CopyOf(h, g, a, q)} :: CopyOf(h, g, a, q) ==> q in g.own && g.own[q] == a)
  }

  /** Transported objects hold a broken heart, the others are untouched. */
  ghost predicate Hearts(h: Heap, g: G, m: seq<Word>) {
    && (forall a {:trigger To(g, a)} :: a in g.fwd ==> At(m, a) == BrokenHeart(NewAddr(h, To(g, a))))
    && (forall p {:trigger At(m, p)} :: p in h.base && h.base[p] !in g.fwd ==> At(m, p) == At(h.orig, p))
  }

  /** What a word that was at p before the collection looks like at q. */
  ghost function Normal(h: Heap, g: G, p: int, q: int): Word {
    if p in h.live && q in g.done then Forward(h, g, At(h.orig, p)) else At(h.orig, p)
  }

  /** The word at q is the ordinary image of its source. */
  ghost predicate Tracks(g: G, q: int) {
    && (Own(g, q) in g.elist ==> q == To(g, Own(g, q)) + EPHEMERON_DATUM)
    && (Own(g, q) in g.wk ==> q != To(g, Own(g, q)))
  }

  ghost predicate CopyWord(h: Heap, g: G, m: seq<Word>, q: int) {
    var a := Own(g, q);
    if Tracks(g, q) then At(m, q) == Normal(h, g, Src(g, q), q)
    else if a in g.wk then At(m, q) == Imm(TC_FALSE, Datum(At(h.orig, a)))
    else if q == To(g, a) then At(m, q) == UNMARKED_MANIFEST
    else if q == To(g, a) + EPHEMERON_KEY then At(m, q) == Key(h, a)
    else true
  }

  ghost predicate Copies(h: Heap, g: G, m: seq<Word>) {
    forall q {:trigger CopyWord(h, g, m, q)} :: q in g.own ==> CopyWord(h, g, m, q)
  }

  ghost predicate PinnedWords(h: Heap, g: G, m: seq<Word>) {
    forall q {:trigger At(m, q)} :: Pinned(h, q) ==> At(m, q) == Normal(h, g, q, q)
  }

  ghost predicate TargetDone(h: Heap, g: G, p: int) {
    p in h.live ==> Holds(h, g.fwd.Keys, At(h.orig, p))
  }

  /** Scanned words have their targets transported. */
  ghost predicate DoneWord(h: Heap, g: G, q: int) {
    && (Pinned(h, q) || q in g.own)
    && (Pinned(h, q) ==> TargetDone(h, g, q))
    && (q in g.own && Tracks(g, q) ==> TargetDone(h, g, Src(g, q)))
  }

  ghost predicate DoneOk(h: Heap, g: G) {
    forall q {:trigger DoneWord(h, g, q)} :: q in g.done ==> DoneWord(h, g, q)
  }

  /** The word that refers to the copy of the i-th ephemeron of s, or #F at the end. */
  ghost function Link(h: Heap, g: G, s: seq<int>, i: int): Word {
    if 0 <= i < |s| then Ptr(Ephemeron, TC_EPHEMERON, NewAddr(h, To(g, s[i]))) else SHARP_F
  }

  ghost predicate ChainStep(h: Heap, g: G, m: seq<Word>, s: seq<int>, off: int, i: int) {
    0 <= i < |s| && At(m, To(g, s[i]) + off) == Link(h, g, s, i + 1)
  }

  /** `head` starts a list threaded through field `off` of the copies of s. */
  ghost predicate Chain(h: Heap, g: G, m: seq<Word>, head: Word, s: seq<int>, off: int) {
    && head == Link(h, g, s, 0)
    && forall i {:trigger ChainStep(h, g, m, s, off, i)} :: 0 <= i < |s| ==> ChainStep(h, g, m, s, off, i)
  }

  ghost predicate Distinct(s: seq<int>) {
    forall i, j :: 0 <= i < j < |s| ==> s[i] != s[j]
  }

  /** The bucket for a key at address k. */
  function Bucket(h: Heap, k: int): int {
    if h.hn == 0 then 0 else k % h.hn
  }

  ghost function BucketOf(h: Heap, e: int): int {
    Bucket(h, Datum(Key(h, e)))
  }

  ghost predicate KeyMoved(h: Heap, g: G, e: int) {
    Datum(Key(h, e)) in g.fwd
  }

  /** e is on the ephemeron list: a transported ephemeron with a fromspace key. */
  ghost predicate Listed(h: Heap, g: G, e: int) {
    e in g.elist && IsEphemeron(h, e) && e in g.fwd && InFrom(h, Key(h, e))
  }

  /** e waits in the table. */
  ghost predicate Waiting(g: G, e: int) {
    e in g.elist && e !in g.queue && e !in g.served
  }

  ghost predicate BucketOk(h: Heap, g: G, i: int) {
    && 0 <= i < |g.tb|
    && Distinct(g.tb[i])
    && forall e {:trigger e in g.tb[i]} :: e in g.tb[i] ==> Waiting(g, e) && BucketOf(h, e) == i
  }

  ghost predicate InTable(h: Heap, g: G, e: int) {
    0 <= BucketOf(h, e) < |g.tb| && e in g.tb[BucketOf(h, e)]
  }

  /** The membership facts of the ephemeron structures. */
  ghost predicate Rosters(h: Heap, g: G) {
    && Distinct(g.elist)
    && (forall e {:trigger Listed(h, g, e)} :: e in g.elist ==> Listed(h, g, e))
    && |g.tb| == h.hn
    && Distinct(g.queue)
    && (forall e :: e in g.queue ==> e in g.elist && e !in g.served)
    && (forall e :: e in g.served ==> e in g.elist)
    && (forall i {:trigger BucketOk(h, g, i)} :: 0 <= i < h.hn ==> BucketOk(h, g, i))
    && (forall e {:trigger InTable(h, g, e)} :: Waiting(g, e) ==> InTable(h, g, e))
  }

  /** The collector's three list heads. */
  datatype Heads = Heads(weakChain: int, ephemeronList: Word, ephemeronQueue: Word)

  ghost predicate BucketChain(h: Heap, g: G, m: seq<Word>, i: int) {
    0 <= i < |g.tb| && Chain(h, g, m, At(m, h.ht + i), g.tb[i], EPHEMERON_NEXT)
  }

  ghost predicate Threads(h: Heap, g: G, m: seq<Word>, heads: Heads) {
    && Chain(h, g, m, heads.ephemeronList, g.elist, EPHEMERON_LIST)
    && Chain(h, g, m, heads.ephemeronQueue, g.queue, EPHEMERON_NEXT)
    && forall i {:trigger BucketChain(h, g, m, i)} :: 0 <= i < h.hn ==> BucketChain(h, g, m, i)
  }

  ghost function WeakLink(s: seq<int>, i: int): int {
    if 0 <= i < |s| then s[i] else 0
  }

  ghost predicate WeakEntry(h: Heap, g: G, a: int) {
    IsWeak(h, a) && a in g.fwd && InFrom(h, At(h.orig, a))
  }

  /** What the old cdr word of a weak pair on the chain holds: the type of the old car and the
      next link. */
  ghost function ChainWord(h: Heap, s: seq<int>, i: int): Word
    requires 0 <= i < |s|
  {
    var car := At(h.orig, s[i]);
    if car.Ptr? then Ptr(car.cls, car.code, WeakLink(s, i + 1)) else SHARP_F
  }

  ghost predicate WeakStep(h: Heap, m: seq<Word>, s: seq<int>, i: int) {
    0 <= i < |s| && At(m, s[i] + 1) == ChainWord(h, s, i)
  }

  ghost predicate WeakChain(h: Heap, g: G, m: seq<Word>, head: int) {
    && Distinct(g.wk)
    && head == WeakLink(g.wk, 0)
    && (forall a {:trigger WeakEntry(h, g, a)} :: a in g.wk ==> WeakEntry(h, g, a))
    && (forall i {:trigger WeakStep(h, m, g.wk, i)} :: 0 <= i < |g.wk| ==> WeakStep(h, m, g.wk, i))
  }

  /** Every transported weak pair with a fromspace car is on the chain; every transported
      ephemeron is listed unless its key is live. */
  ghost predicate RegisteredObj(h: Heap, g: G, a: int) {
    && (IsWeak(h, a) && InFrom(h, At(h.orig, a)) ==> a in g.wk)
    && (IsEphemeron(h, a) && a !in g.elist ==> Holds(h, g.fwd.Keys, Key(h, a)))
  }

  ghost predicate Registered(h: Heap, g: G, x: set<int>) {
    forall a {:trigger RegisteredObj(h, g, a)} :: a in g.fwd && a !in x ==> RegisteredObj(h, g, a)
  }

  /** Nothing but live objects is transported. */
  ghost predicate OnlyLive(h: Heap, g: G) {
    forall a {:trigger IsLive(h, a)} :: a in g.fwd ==> IsLive(h, a)
  }

  /** The datum of a listed ephemeron is scanned just when it is served. */
  ghost predicate DataPending(g: G, x: set<int>) {
    forall e {:trigger To(g, e)} :: e in g.elist && e !in x ==>
      (e in g.served <==> To(g, e) + EPHEMERON_DATUM in g.done)
  }

  /** Keys of queued and served ephemerons are transported. */
  ghost predicate QueuedKeys(h: Heap, g: G, x: set<int>) {
    forall e {:trigger KeyMoved(h, g, e)} ::
      e in g.queue || e in g.served ==> KeyMoved(h, g, e) || Datum(Key(h, e)) in x
  }

  /** A waiting ephemeron's key is not transported, except for the ephemerons in `late`. */
  ghost predicate TableKeys(h: Heap, g: G, late: set<int>) {
    forall e {:trigger KeyMoved(h, g, e)} :: Waiting(g, e) && e !in late ==> !KeyMoved(h, g, e)
  }

  /** No waiting ephemeron has its key at k. */
  ghost predicate TableFree(h: Heap, g: G, k: int) {
    forall e {:trigger Waiting(g, e)} :: Waiting(g, e) ==> Datum(Key(h, e)) != k
  }

  /** The collection invariant.  Objects in x are exempt from being registered, and from having
      their datum scanned when they are served. */
  ghost predicate Inv(h: Heap, g: G, m: seq<Word>, heads: Heads, x: set<int>) {
    && WellFormed(h)
    && UniqueKeys(h)
    && |m| == |h.orig|
    && Layout(h, g)
    && Hearts(h, g, m)
    && (forall q {:trigger CopyWord(h, g, m, q)} :: q in g.own ==> CopyWord(h, g, m, q))
    && PinnedWords(h, g, m)
    && DoneOk(h, g)
    && Rosters(h, g)
    && Threads(h, g, m, heads)
    && WeakChain(h, g, m, heads.weakChain)
    && Registered(h, g, x)
    && DataPending(g, x)
    && OnlyLive(h, g)
  }
}
