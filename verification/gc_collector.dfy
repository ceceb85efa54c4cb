/** The copying collector. */
module GcCollector {
  import opened GcHeap
  import opened GcState
  import opened GcMove
  import opened GcScan
  import opened GcRegister
  import opened GcFrontier
  import opened GcSteps
  import opened GcFinal
  import GcQueueWalk

  class Collector {
    const memory: array<Word>
    const fromspaceStart: int
    const fromspaceEnd: int
    const tospaceStart: int
    const newspaceStart: int
    const ephemeronArray: int
    const ephemeronArrayLength: nat
    var tospaceNext: int
    var newspaceNext: int
    var weakChain: int
    var ephemeronList: Word
    var ephemeronQueue: Word
    var scanningEphemerons: bool
    ghost const h: Heap
    ghost var g: G

    ghost function Lists(): Heads
      reads this
    {
      Heads(weakChain, ephemeronList, ephemeronQueue)
    }

    ghost predicate Fields()
      reads this
    {
      && fromspaceStart == h.fs && fromspaceEnd == h.fe
      && tospaceStart == h.ts && newspaceStart == h.ns
      && ephemeronArray == h.ht && ephemeronArrayLength == h.hn
      && tospaceNext == g.next
      && newspaceNext == NewAddr(h, g.next)
    }

    ghost predicate Valid(x: set<int>)
      reads this, memory
    {
      Fields() && Inv(h, g, memory[..], Lists(), x)
    }

    /** The queue discipline; `pending` holds the key that is about to be transported. */
    ghost predicate Disciplined(pending: set<int>)
      reads this
    {
      if scanningEphemerons
      then QueuedKeys(h, g, pending) && TableKeys(h, g, {})
      else g.queue == [] && g.served == {}
    }

    /** open_tospace and initialize_weak_chain, with the root words already in tospace. */
    constructor (memory: array<Word>, ghost h: Heap, fs: int, fe: int, ts: int, t0: int, ns: int, ht: int, hn: nat)
      requires memory[..] == h.orig && WellFormed(h) && UniqueKeys(h)
      requires fs == h.fs && fe == h.fe && ts == h.ts && t0 == h.t0 && ns == h.ns && ht == h.ht && hn == h.hn
      ensures this.memory == memory && this.h == h
      ensures Valid({}) && !scanningEphemerons && Disciplined({}) && g == Start(h)
    {
      this.memory := memory;
      this.h := h;
      fromspaceStart, fromspaceEnd, tospaceStart, newspaceStart := fs, fe, ts, ns;
      ephemeronArray, ephemeronArrayLength := ht, hn;
      tospaceNext, newspaceNext := t0, t0 - ts + ns;
      weakChain, ephemeronList, ephemeronQueue, scanningEphemerons := 0, SHARP_F, SHARP_F, false;
      g := Start(h);
      StartInv(h);
    }

    method PrecheckFrom(from: int, ghost x: set<int>) returns (newAddress: int)
      requires Valid(x) && Disciplined({})
      requires from > 0 && (h.fs <= from < h.fe ==> from in h.objs && IsLive(h, from))
      modifies this, memory
      ensures Valid(x) && Grew(old(g), g) && g.fwd == old(g).fwd && g.next == old(g).next
      ensures scanningEphemerons == old(scanningEphemerons)
      ensures !(h.fs <= from < h.fe) ==> newAddress == from && Disciplined({})
      ensures h.fs <= from < h.fe && from in g.fwd ==>
        newAddress == NewAddr(h, To(g, from)) && newAddress > 0 && Disciplined({})
      ensures h.fs <= from < h.fe && from !in g.fwd ==> newAddress == 0 && Disciplined({from})
      ensures h.fs <= from < h.fe && from !in g.fwd && scanningEphemerons ==> TableFree(h, g, from)
    {
      if !(fromspaceStart <= from < fromspaceEnd) {
        return from;
      }
      assert ObjOk(h, from) && Within(h, from, from);
      var word := memory[from];
      assert word == At(memory[..], from);
      if word.BrokenHeart? {
        assert At(memory[..], from) == At(h.orig, from) || from in g.fwd;
        assert Placed(h, g, from);
        return word.heart;
      }
      assert from in g.fwd ==> At(memory[..], from) == BrokenHeart(NewAddr(h, To(g, from)));
      if scanningEphemerons {
        assert forall e :: e in g.queue ==> KeyMoved(h, g, e);
        ghost var g0 := g;
        QueueEphemeronsForKey(from, x);
        forall e | e in g.queue || e in g.served
          ensures KeyMoved(h, g, e) || Datum(Key(h, e)) in {from}
        {
          assert e in g0.queue || e in g0.served ==> KeyMoved(h, g0, e);
        }
        forall e | Waiting(g, e)
          ensures !KeyMoved(h, g, e)
        {
          assert Waiting(g0, e) ==> !KeyMoved(h, g0, e);
        }
      }
      return 0;
    }

    method QueueEphemeronsForKey(addr: int, ghost x: set<int>)
      requires Valid(x) && IsLive(h, addr)
      modifies this, memory
      ensures Valid(x) && g == old(g).(tb := g.tb, queue := g.queue)
      ensures scanningEphemerons == old(scanningEphemerons)
      ensures forall e {:trigger Waiting(g, e)} :: Waiting(g, e) <==> Waiting(old(g), e) && Datum(Key(h, e)) != addr
      ensures forall e :: e in g.queue ==> e in old(g).queue || Datum(Key(h, e)) == addr
    {
      var index := addr % ephemeronArrayLength;
      var entryLoc := ephemeronArray + index;
      var entry := memory[entryLoc];
      ghost var walk := InTableWalk(0);
      assert BucketOk(h, g, index) && BucketChain(h, g, memory[..], index);
      while entry.Ptr? && entry.code == TC_EPHEMERON
        invariant Valid(x) && scanningEphemerons == old(scanningEphemerons)
        invariant WalkOk(h, old(g), g, index, addr, walk)
        invariant entryLoc == WalkLoc(h, g, index, walk) && entry == WalkEntry(h, g, index, walk)
        invariant 0 <= entryLoc < memory.Length && memory[entryLoc] == entry
        decreases WalkLeft(g, index, walk)
      {
        entryLoc, walk := FollowEntry(addr, entryLoc, entry, x, index, walk, old(g));
        entry := memory[entryLoc];
      }
      if walk.InTableWalk? {
        forall e | Waiting(g, e)
          ensures Datum(Key(h, e)) != addr
        {
          assert InTable(h, g, e);
        }
      }
    }

    /** One step of the walk: queue the entry if its key is at addr, and go on to its successor. */
    method FollowEntry(addr: int, entryLoc: int, entry: Word, ghost x: set<int>, ghost index: int, ghost walk: Walk,
                       ghost g0: G)
      returns (nextLoc: int, ghost next: Walk)
      requires Valid(x) && WalkOk(h, g0, g, index, addr, walk) && IsLive(h, addr)
      requires entryLoc == WalkLoc(h, g, index, walk) && entry == WalkEntry(h, g, index, walk) && entry.Ptr?
      requires 0 <= entryLoc < memory.Length && memory[entryLoc] == entry
      modifies this, memory
      ensures GcQueueWalk.Links(h, memory[..], ephemeronQueue, nextLoc) ==
        GcQueueWalk.Step(old(GcQueueWalk.Links(h, memory[..], ephemeronQueue, entryLoc)),
                         GcQueueWalk.KeyedAt(old(memory[..]), addr))
      ensures Valid(x) && scanningEphemerons == old(scanningEphemerons)
      ensures WalkOk(h, g0, g, index, addr, next)
      ensures 0 <= nextLoc < memory.Length && nextLoc == WalkLoc(h, g, index, next) &&
        memory[nextLoc] == WalkEntry(h, g, index, next)
      ensures WalkLeft(g, index, next) < old(WalkLeft(g, index, walk))
    {
      hide WellFormed, Layout, Hearts, DoneOk, Rosters, Threads, WeakChain, Registered, PinnedWords, OnlyLive;
      ghost var e := if walk.InTableWalk? then g.tb[index][walk.j] else g.queue[walk.i];
      WalkListed(h, g, memory[..], Lists(), x, index, walk);
      nextLoc := entry.addr + EPHEMERON_NEXT - newspaceStart + tospaceStart;
      var key := memory[entry.addr + EPHEMERON_KEY - newspaceStart + tospaceStart];
      assert key == At(memory[..], To(g, e) + EPHEMERON_KEY);
      GcQueueWalk.WalkStep(h, memory[..], ephemeronQueue, entryLoc, addr);
      assert walk.InQueueWalk? ==> g.queue[walk.i] == g.queue[1..][walk.i - 1];
      if addr == WeakReferentAddress(key) {
        NoOther(h, g, e, addr);
        MatchInTable(h, g0, g, index, addr, walk, e);
        MoveToQueue(entryLoc, nextLoc, entry, x, index, walk.j);
        next := InQueueWalk(1);
      } else {
        next := if walk.InTableWalk? then InTableWalk(walk.j + 1) else InQueueWalk(walk.i + 1);
      }
      WalkNext(h, g, memory[..], Lists(), x, index, next);
    }

    /** Unlink the ephemeron at entryLoc from the table and put it on the queue. */
    method MoveToQueue(entryLoc: int, nextLoc: int, entry: Word, ghost x: set<int>, ghost i: int, ghost j: int)
      requires Valid(x) && 0 <= i < |g.tb| && 0 <= j < |g.tb[i]|
      requires entryLoc == EntryLoc(h, g, i, j) && nextLoc == To(g, g.tb[i][j]) + EPHEMERON_NEXT &&
        entry == Link(h, g, g.tb[i], j)
      modifies this, memory
      ensures Valid(x) && scanningEphemerons == old(scanningEphemerons)
      ensures 0 <= i < |old(g).tb| && 0 <= j < |old(g).tb[i]| && g == Queued(old(g), i, j)
      ensures forall e {:trigger Waiting(g, e)} :: Waiting(g, e) <==> Waiting(old(g), e) && e != old(g).tb[i][j]
      ensures 0 <= entryLoc < memory.Length && 0 <= nextLoc < memory.Length && ephemeronQueue == entry
      ensures memory[..] == old(memory[..])[entryLoc := old(memory[..])[nextLoc]][nextLoc := old(ephemeronQueue)]
    {
      EntryPlace(h, g, memory[..], Lists(), x, i, j);
      WalkListed(h, g, memory[..], Lists(), x, i, InTableWalk(j));
      ghost var m := memory[..];
      memory[entryLoc] := memory[nextLoc];
      memory[nextLoc] := ephemeronQueue;
      assert memory[..] == m[entryLoc := m[nextLoc]][nextLoc := ephemeronQueue];
      QueuesWrites(h, g, m, memory[..], Lists(), i, j);
      QueuedInv(h, g, m, memory[..], Lists(), x, i, j);
      ephemeronQueue := entry;
      g := Queued(g, i, j);
    }

    /** Copy n words to the end of tospace. */
    method CopyWords(from: int, n: nat)
      requires 0 <= from && from + n <= memory.Length && 0 <= tospaceNext && tospaceNext + n <= memory.Length
      requires from + n <= tospaceNext || tospaceNext + n <= from
      modifies memory, `tospaceNext, `newspaceNext
      ensures tospaceNext == old(tospaceNext) + n && newspaceNext == old(newspaceNext) + n
      ensures CopiedWords(old(memory[..]), memory[..], from, old(tospaceNext), n)
    {
      var i := 0;
      while i < n
        invariant 0 <= i <= n
        invariant tospaceNext == old(tospaceNext) + i && newspaceNext == old(newspaceNext) + i
        invariant CopiedWords(old(memory[..]), memory[..], from, old(tospaceNext), i)
      {
        memory[tospaceNext] := memory[from + i];
        tospaceNext := tospaceNext + 1;
        newspaceNext := newspaceNext + 1;
        i := i + 1;
      }
    }

    /** Copy n words to tospace and leave a broken heart. */
    method TransportWords(from: int, n: nat, ghost x: set<int>) returns (newAddress: int)
      requires Valid(x) && Disciplined({from})
      requires from in h.objs && from !in g.fwd && n == Size(h, from) && IsLive(h, from)
      requires scanningEphemerons ==> TableFree(h, g, from)
      modifies this, memory
      ensures Valid(x + {from}) && Disciplined({}) && scanningEphemerons == old(scanningEphemerons)
      ensures g == Move(h, old(g), from) && Grew(old(g), g)
      ensures newAddress == NewAddr(h, To(g, from)) && newAddress > 0
      ensures forall q {:trigger At(memory[..], q)} :: To(g, from) <= q < To(g, from) + n ==>
        At(memory[..], q) == At(h.orig, from + (q - To(g, from)))
    {
      hide WellFormed, Layout, Hearts, DoneOk, Rosters, Threads, WeakChain, Registered, PinnedWords, OnlyLive;
      TransportBounds(h, g, from);
      newAddress := newspaceNext;
      ghost var m := memory[..];
      CopyWords(from, n);
      ghost var m1 := memory[..];
      memory[from] := BrokenHeart(newAddress);
      Transport(h, g, m, m1, memory[..], Lists(), x, from, scanningEphemerons);
      g := Move(h, g, from);
    }

    /** A strong object needs no registration. */
    method TransportStrong(from: int, n: nat, ghost x: set<int>) returns (newAddress: int)
      requires Valid(x) && Disciplined({from})
      requires from in h.objs && from !in g.fwd && h.objs[from] == Obj(n, Strong) && IsLive(h, from)
      requires scanningEphemerons ==> TableFree(h, g, from)
      modifies this, memory
      ensures Valid(x) && Disciplined({}) && scanningEphemerons == old(scanningEphemerons)
      ensures Grew(old(g), g) && from in g.fwd && newAddress == NewAddr(h, To(g, from)) && newAddress > 0
      ensures h.t0 <= To(g, from) && To(g, from) + n <= g.next <= h.te <= memory.Length && g.next > old(g.next)
      ensures forall q {:trigger At(memory[..], q)} :: To(g, from) <= q < To(g, from) + n ==>
        At(memory[..], q) == At(h.orig, from + (q - To(g, from)))
    {
      hide WellFormed, Layout, Hearts, DoneOk, Rosters, Threads, WeakChain, Registered, PinnedWords, OnlyLive;
      newAddress := TransportWords(from, n, x);
      RegisterStrong(h, g, memory[..], Lists(), x, from);
    }

    /** Precheck, and transport a strong object of n words if that is needed. */
    method Relocate(from: int, n: nat, ghost x: set<int>) returns (newAddress: int, moved: bool)
      requires Valid(x) && Disciplined({}) && from > 0
      requires h.fs <= from < h.fe ==> from in h.objs && h.objs[from] == Obj(n, Strong) && IsLive(h, from)
      modifies this, memory
      ensures Valid(x) && Disciplined({}) && scanningEphemerons == old(scanningEphemerons)
      ensures Grew(old(g), g)
      ensures if h.fs <= from < h.fe then from in g.fwd && newAddress == NewAddr(h, To(g, from))
        else newAddress == from && !moved
      ensures moved ==>
        g.next > old(g.next) && h.t0 <= To(g, from) && To(g, from) + n <= g.next <= h.te <= memory.Length
      ensures moved ==> forall q {:trigger At(memory[..], q)} ::
        To(g, from) <= q < To(g, from) + n ==> At(memory[..], q) == At(h.orig, from + (q - To(g, from)))
    {
      hide WellFormed, Layout, Hearts, DoneOk, Rosters, Threads, WeakChain, Registered, PinnedWords, OnlyLive;
      newAddress := PrecheckFrom(from, x);
      moved := newAddress == 0;
      if moved {
        newAddress := TransportStrong(from, n, x);
      }
    }

    method GcTuple(tuple: Word, n: nat, ghost x: set<int>) returns (w: Word)
      requires Valid(x) && Disciplined({})
      requires tuple.Ptr? && OkWord(h, tuple) && TupleSize(tuple.cls) == n > 0
      requires InFrom(h, tuple) ==> IsLive(h, tuple.addr)
      modifies this, memory
      ensures Valid(x) && Disciplined({}) && scanningEphemerons == old(scanningEphemerons)
      ensures Grew(old(g), g) && Renewed(h, g, tuple, w) && w == Forward(h, g, tuple)
    {
      var from := tuple.addr;
      var newAddress, moved := Relocate(from, n, x);
      // Localize lists: transport cdrs eagerly.
      if moved && n == 2 {
        TransportCdrs(from, newAddress, x);
      }
      w := Ptr(tuple.cls, tuple.code, newAddress);
    }

    /** Transport the list in the cdr of the pair just copied from `pair` to newAddress, up to the
        first pair that needs no transport. */
    method TransportCdrs(ghost pair: int, newAddress: int, ghost x: set<int>)
      requires Valid(x) && Disciplined({})
      requires pair in g.fwd && FreshPair(h, pair) && newAddress == NewAddr(h, To(g, pair))
      requires CopiedPair(h, g, memory[..], pair)
      modifies this, memory
      ensures Valid(x) && Disciplined({}) && scanningEphemerons == old(scanningEphemerons) && Grew(old(g), g)
    {
      CdrOk(h, pair);
      var cdr := memory[newAddress + 1 - newspaceStart + tospaceStart];
      var moved := true;
      while moved && cdr.Ptr? && cdr.code == TC_LIST
        invariant Valid(x) && Disciplined({}) && scanningEphemerons == old(scanningEphemerons) && Grew(old(g), g)
        invariant moved ==> OkWord(h, cdr) && (InFrom(h, cdr) ==> IsLive(h, cdr.addr))
        invariant g.next <= h.te
        decreases moved, h.te - g.next
      {
        cdr, moved := TransportCdr(cdr, x);
      }
    }

    method TransportCdr(cdr: Word, ghost x: set<int>) returns (next: Word, moved: bool)
      requires Valid(x) && Disciplined({})
      requires cdr.Ptr? && cdr.code == TC_LIST && OkWord(h, cdr) && (InFrom(h, cdr) ==> IsLive(h, cdr.addr))
      modifies this, memory
      ensures Valid(x) && Disciplined({}) && scanningEphemerons == old(scanningEphemerons) && Grew(old(g), g)
      ensures moved ==> g.next > old(g.next) && OkWord(h, next) && (InFrom(h, next) ==> IsLive(h, next.addr))
      ensures g.next <= h.te
    {
      var newAddress;
      newAddress, moved := Relocate(cdr.addr, 2, x);
      next := SHARP_F;
      if moved {
        CdrOk(h, cdr.addr);
        next := memory[newAddress + 1 - newspaceStart + tospaceStart];
        assert next == At(memory[..], To(g, cdr.addr) + 1);
      }
    }

    method GcVector(vector: Word, ghost x: set<int>) returns (w: Word)
      requires Valid(x) && Disciplined({})
      requires vector.Ptr? && vector.cls == Vector && OkWord(h, vector)
      requires InFrom(h, vector) ==> IsLive(h, vector.addr)
      modifies this, memory
      ensures Valid(x) && Disciplined({}) && scanningEphemerons == old(scanningEphemerons)
      ensures Grew(old(g), g) && Renewed(h, g, vector, w) && w == Forward(h, g, vector)
    {
      var from := vector.addr;
      var newAddress := PrecheckFrom(from, x);
      if newAddress == 0 {
        Untouched(h, g, memory[..], Lists(), x, from);
        newAddress := TransportStrong(from, 1 + Datum(memory[from]), x);
      }
      w := Ptr(vector.cls, vector.code, newAddress);
    }

    method HandleWeakPair(obj: Word, ghost x: set<int>) returns (w: Word)
      requires Valid(x) && Disciplined({})
      requires obj.Ptr? && obj.cls == WeakPair && OkWord(h, obj)
      requires InFrom(h, obj) ==> IsLive(h, obj.addr)
      modifies this, memory
      ensures Valid(x) && Disciplined({}) && scanningEphemerons == old(scanningEphemerons)
      ensures Grew(old(g), g) && Renewed(h, g, obj, w) && w == Forward(h, g, obj)
    {
      var newAddress := PrecheckFrom(obj.addr, x);
      if newAddress == 0 {
        newAddress := TransportWeakPair(obj.addr, x);
      }
      w := Ptr(obj.cls, obj.code, newAddress);
    }

    method TransportWeakPair(oldAddr: int, ghost x: set<int>) returns (newAddr: int)
      requires Valid(x) && Disciplined({oldAddr})
      requires IsWeak(h, oldAddr) && oldAddr !in g.fwd && IsLive(h, oldAddr)
      requires scanningEphemerons ==> TableFree(h, g, oldAddr)
      modifies this, memory
      ensures Valid(x) && Disciplined({}) && scanningEphemerons == old(scanningEphemerons)
      ensures Grew(old(g), g) && oldAddr in g.fwd && newAddr == NewAddr(h, To(g, oldAddr))
    {
      WeakFacts(h, g, memory[..], Lists(), x, oldAddr);
      newAddr := TransportWords(oldAddr, 2, x);
      var d := newAddr - newspaceStart + tospaceStart;
      var oldCar := memory[d];
      assert oldCar == At(memory[..], d) == At(h.orig, oldAddr);
      var caddr := WeakReferentAddress(oldCar);
      if caddr != 0 && fromspaceStart <= caddr < fromspaceEnd {
        ChainWeakPair(oldAddr, d, oldCar, x, old(g));
      } else {
        RegisterWeak(h, g, memory[..], Lists(), x, oldAddr);
      }
    }

    /** Hide the car of the copy at d and put the old weak pair on the chain. */
    method ChainWeakPair(oldAddr: int, d: int, oldCar: Word, ghost x: set<int>, ghost g0: G)
      requires Valid(x + {oldAddr}) && Disciplined({})
      requires IsWeak(h, oldAddr) && oldAddr !in g0.fwd && oldAddr !in g0.wk && Grew(g0, g) && g.wk == g0.wk
      requires oldAddr in g.fwd && d == To(g, oldAddr) && oldCar == At(h.orig, oldAddr) && InFrom(h, oldCar)
      requires 0 <= d < memory.Length && 0 <= oldAddr < memory.Length - 1 && d != oldAddr + 1
      modifies this, memory
      ensures Valid(x) && Disciplined({}) && scanningEphemerons == old(scanningEphemerons)
      ensures Grew(g0, g) && g.fwd == old(g).fwd
    {
      ghost var m := memory[..];
      memory[d] := Imm(TC_FALSE, Datum(oldCar));
      memory[oldAddr + 1] := Ptr(oldCar.cls, oldCar.code, weakChain);
      assert memory[..] == m[d := Imm(TC_FALSE, Datum(oldCar))][oldAddr + 1 := Ptr(oldCar.cls, oldCar.code, weakChain)];
      ChainWeak(h, g0, g, m, memory[..], Lists(), x, oldAddr, scanningEphemerons);
      weakChain := oldAddr;
      g := Chained(g, oldAddr);
    }

    method HandleEphemeron(obj: Word, ghost x: set<int>) returns (w: Word)
      requires Valid(x) && Disciplined({})
      requires obj.Ptr? && obj.cls == Ephemeron && OkWord(h, obj)
      requires InFrom(h, obj) ==> IsLive(h, obj.addr)
      modifies this, memory
      ensures Valid(x) && Disciplined({}) && scanningEphemerons == old(scanningEphemerons)
      ensures Grew(old(g), g) && Renewed(h, g, obj, w) && w == Forward(h, g, obj)
    {
      var newAddress := PrecheckFrom(obj.addr, x);
      if newAddress == 0 {
        newAddress := TransportEphemeron(obj, x);
      }
      w := Ptr(obj.cls, obj.code, newAddress);
    }

    method TransportEphemeron(oldEphemeron: Word, ghost x: set<int>) returns (newAddr: int)
      requires oldEphemeron.Ptr? && oldEphemeron.cls == Ephemeron && oldEphemeron.code == TC_EPHEMERON
      requires Valid(x) && Disciplined({oldEphemeron.addr})
      requires IsEphemeron(h, oldEphemeron.addr) && oldEphemeron.addr !in g.fwd && IsLive(h, oldEphemeron.addr)
      requires scanningEphemerons ==> TableFree(h, g, oldEphemeron.addr)
      modifies this, memory
      ensures Valid(x) && Disciplined({}) && scanningEphemerons == old(scanningEphemerons)
      ensures Grew(old(g), g) && oldEphemeron.addr in g.fwd && newAddr == NewAddr(h, To(g, oldEphemeron.addr))
    {
      var oldAddr := oldEphemeron.addr;
      EphemeronFacts(h, g, memory[..], Lists(), x, oldAddr);
      newAddr := TransportWords(oldAddr, EPHEMERON_SIZE, x);
      FreshNotDone(h, old(g), g, oldAddr);
      RegisterEphemeron(oldAddr, newAddr - newspaceStart + tospaceStart, x, old(g));
    }

    /** An ephemeron whose key needs no collection or is live is scanned like a vector; any other
        is skipped and registered. */
    method RegisterEphemeron(ghost e: int, d: int, ghost x: set<int>, ghost g0: G)
      requires Valid(x + {e}) && Disciplined({})
      requires IsEphemeron(h, e) && OkWord(h, Key(h, e)) && e !in g0.fwd && e in g.fwd && e !in g0.elist &&
        Grew(g0, g) && g.elist == g0.elist
      requires d == To(g, e) && h.t0 <= d && d + EPHEMERON_SIZE <= h.te <= memory.Length
      requires At(memory[..], d) == MARKED_MANIFEST && At(memory[..], d + EPHEMERON_KEY) == Key(h, e)
      requires forall q :: q in g.done ==> !(d <= q < d + EPHEMERON_SIZE)
      modifies this, memory
      ensures Valid(x) && Disciplined({}) && scanningEphemerons == old(scanningEphemerons)
      ensures Grew(g0, g) && g.fwd == old(g).fwd
    {
      var oldKey := memory[d + EPHEMERON_KEY];
      var oldKeyAddr := WeakReferentAddress(oldKey);
      var marked := oldKeyAddr == 0 || !(fromspaceStart <= oldKeyAddr < fromspaceEnd);
      if !marked {
        ForwardFacts(h, g, memory[..], Lists(), x + {e}, oldKeyAddr);
        var newKey := WeakReferentForward(oldKey);
        marked := newKey != SHARP_F;
      }
      if marked {
        memory[d] := MARKED_MANIFEST;
        assert memory[..] == old(memory[..]);
        RegisterMarked(h, g, memory[..], Lists(), x, e);
      } else {
        TableEphemeron(e, d, oldKeyAddr, Ptr(Ephemeron, TC_EPHEMERON, d - tospaceStart + newspaceStart), x, g0);
      }
    }

    /** Skip the ephemeron copied to d, and enter it in the table and on the list. */
    method TableEphemeron(ghost e: int, d: int, oldKeyAddr: int, newEphemeron: Word, ghost x: set<int>, ghost g0: G)
      requires Valid(x + {e}) && Disciplined({})
      requires IsEphemeron(h, e) && e !in g0.fwd && e in g.fwd && e !in g0.elist && Grew(g0, g) && g.elist == g0.elist
      requires InFrom(h, Key(h, e)) && oldKeyAddr == Key(h, e).addr && oldKeyAddr !in g.fwd
      requires d == To(g, e) && newEphemeron == Ptr(Ephemeron, TC_EPHEMERON, NewAddr(h, d))
      requires h.t0 <= d && d + EPHEMERON_SIZE <= h.te <= memory.Length
      requires forall q :: q in g.done ==> !(d <= q < d + EPHEMERON_SIZE)
      modifies this, memory
      ensures Valid(x) && Disciplined({}) && scanningEphemerons == old(scanningEphemerons)
      ensures Grew(g0, g) && g.fwd == old(g).fwd
    {
      hide Hearts, DoneOk, Threads, WeakChain, Registered, PinnedWords, OnlyLive;
      ghost var m := memory[..];
      memory[d] := UNMARKED_MANIFEST;
      var slot := ephemeronArray + oldKeyAddr % ephemeronArrayLength;
      memory[d + EPHEMERON_NEXT] := memory[slot];
      memory[slot] := newEphemeron;
      memory[d + EPHEMERON_LIST] := ephemeronList;
      assert memory[..] ==
        m[d := UNMARKED_MANIFEST][d + EPHEMERON_NEXT := m[slot]]
           [slot := newEphemeron][d + EPHEMERON_LIST := ephemeronList];
      TableOne(h, g0, g, m, memory[..], Lists(), x, e, slot, scanningEphemerons);
      ephemeronList := newEphemeron;
      g := Tabled(h, g, e);
    }

    /** The forwarded reference if its target has been transported, else #F. */
    method WeakReferentForward(obj: Word) returns (w: Word)
      requires InFrom(h, obj) && 0 <= obj.addr < memory.Length
      requires if obj.addr in g.fwd then memory[obj.addr] == BrokenHeart(NewAddr(h, To(g, obj.addr)))
        else !memory[obj.addr].BrokenHeart?
      ensures w == WeakImage(h, g, obj)
      ensures if obj.addr in g.fwd then Renewed(h, g, obj, w) else w == Imm(0x00, 0)
    {
      var word := memory[obj.addr];
      if word.BrokenHeart? {
        return Ptr(obj.cls, obj.code, word.heart);
      }
      return SHARP_F;
    }

    /** The handlers of pointer objects. */
    method HandlePointer(obj: Word, ghost x: set<int>) returns (w: Word)
      requires Valid(x) && Disciplined({})
      requires obj.Ptr? && OkWord(h, obj) && (InFrom(h, obj) ==> IsLive(h, obj.addr))
      modifies this, memory
      ensures Valid(x) && Disciplined({}) && scanningEphemerons == old(scanningEphemerons)
      ensures Grew(old(g), g) && Renewed(h, g, obj, w) && w == Forward(h, g, obj)
    {
      match obj.cls
      case Cell => w := GcTuple(obj, 1, x);
      case Pair => w := GcTuple(obj, 2, x);
      case Triple => w := GcTuple(obj, 3, x);
      case Quadruple => w := GcTuple(obj, 4, x);
      case Vector => w := GcVector(obj, x);
      case WeakPair => w := HandleWeakPair(obj, x);
      case Ephemeron => w := HandleEphemeron(obj, x);
    }

    /** Handle the word at scan and return where the scan goes on. */
    method Dispatch(scan: int, ghost x: set<int>) returns (next: int)
      requires Valid(x) && Disciplined({})
      requires 0 <= scan < memory.Length && ScanReady(h, g, memory[..], scan, x)
      modifies this, memory
      ensures Valid(x) && Disciplined({}) && scanningEphemerons == old(scanningEphemerons)
      ensures next == old(NextScan(memory[scan], scan))
      ensures Grew(old(g), g.(done := old(g).done)) && g.done == old(g).done + {scan}
    {
      hide WellFormed, Layout, Hearts, DoneOk, Rosters, Threads, WeakChain, Registered, PinnedWords, OnlyLive;
      var obj := memory[scan];
      assert obj == At(memory[..], scan);
      match obj {
        case Imm(_, _) =>
          next := scan + 1;
        case NmHeader(n) =>
          next := scan + 1 + n;
        case Ptr(_, _, _) =>
          var w := HandlePointer(obj, x);
          StillReady(h, old(g), g, scan, x);
          ghost var m := memory[..];
          memory[scan] := w;
          assert memory[..] == m[scan := w];
          ScanInv(h, g, m, memory[..], Lists(), scan, x);
          MarkDisciplined(h, g, scan, scanningEphemerons);
          g := Mark(g, scan);
          return scan + 1;
        case BrokenHeart(_) =>
          assert false;
      }
      ScanInv(h, g, memory[..], memory[..], Lists(), scan, x);
      MarkDisciplined(h, g, scan, scanningEphemerons);
      g := Mark(g, scan);
    }

    ghost function Limit(end: int, follow: bool): int
      reads this
    {
      if follow then g.next else end
    }

    /** What the scan loop keeps: [lo, scan) has been scanned since the state g0. */
    ghost predicate Scanned(g0: G, x: set<int>, lo: int, end: int, follow: bool, scan: int)
      reads this, memory
    {
      && Valid(x) && Disciplined({})
      && Grew(g0, g.(done := g0.done)) && g0.done <= g.done
      && (forall e :: e in x ==> e in g.elist)
      && ScannedArea(h, g0.done, g, lo, scan) && lo <= scan
      && Boundary(h, g, scan, Limit(end, follow))
    }

    /** Scan from lo up to `end`, or up to the moving end of tospace if `follow`. */
    method RunGcLoop(lo: int, end: int, follow: bool, ghost x: set<int>)
      requires Valid(x) && Disciplined({}) && forall e :: e in x ==> e in g.elist
      requires ScanArea(h, lo, end, follow) && Boundary(h, g, lo, Limit(end, follow))
      requires forall q :: q in g.done ==> !(lo <= q < AreaEnd(h, end, follow))
      modifies this, memory
      ensures Valid(x) && Disciplined({}) && scanningEphemerons == old(scanningEphemerons)
      ensures Grew(old(g), g.(done := old(g).done)) && old(g).done <= g.done
      ensures ScannedArea(h, old(g).done, g, lo, Limit(end, follow))
      ensures lo <= Limit(end, follow)
    {
      var scan := lo;
      while scan < (if follow then tospaceNext else end)
        invariant Scanned(old(g), x, lo, end, follow, scan) && scanningEphemerons == old(scanningEphemerons)
        decreases AreaEnd(h, end, follow) - scan
      {
        scan := ScanOne(scan, lo, end, follow, old(g), x);
      }
    }

    /** One iteration of the scan loop. */
    method ScanOne(scan: int, lo: int, end: int, follow: bool, ghost g0: G, ghost x: set<int>) returns (next: int)
      requires Scanned(g0, x, lo, end, follow, scan) && scan < Limit(end, follow)
      requires ScanArea(h, lo, end, follow)
      requires forall q :: q in g0.done ==> !(lo <= q < AreaEnd(h, end, follow))
      modifies this, memory
      ensures Scanned(g0, x, lo, end, follow, next) && scanningEphemerons == old(scanningEphemerons)
      ensures scan < next && scan < AreaEnd(h, end, follow)
    {
      hide WellFormed, Layout, Hearts, DoneOk, Rosters, Threads, WeakChain, Registered, PinnedWords, OnlyLive;
      ghost var g1, word := g, At(memory[..], scan);
      LoopReady(h, g, memory[..], Lists(), x, lo, end, follow, scan, g0.done);
      next := Dispatch(scan, x);
      GrewListed(h, g1, g);
      LoopStep(h, g1, g, g0.done, lo, end, follow, scan, word, next);
    }

    /** Queue the listed ephemerons whose keys are live, and scan the data of queued ephemerons
        until no key becomes live any more. */
    method ScanEphemerons()
      requires Valid({}) && !scanningEphemerons && Disciplined({}) && AllDone(h, g)
      modifies this, memory
      ensures Valid({}) && Drained(h, g)
    {
      QueueLiveKeys();
      while ephemeronQueue.Ptr? && ephemeronQueue.code == TC_EPHEMERON
        invariant Valid({}) && scanningEphemerons && Disciplined({}) && AllDone(h, g)
        decreases h.objs.Keys - g.served
      {
        ServeEphemeron();
      }
      scanningEphemerons := false;
    }

    method QueueLiveKeys()
      requires Valid({}) && !scanningEphemerons && Disciplined({}) && AllDone(h, g)
      modifies this, memory
      ensures Valid({}) && scanningEphemerons && Disciplined({}) && AllDone(h, g)
    {
      var ephemeron := ephemeronList;
      scanningEphemerons := true;
      ghost var i := 0;
      assert forall e :: e in g.elist ==> Waiting(g, e);
      while ephemeron.Ptr? && ephemeron.code == TC_EPHEMERON
        invariant Valid({}) && scanningEphemerons
        invariant g == old(g).(tb := g.tb, queue := g.queue)
        invariant 0 <= i <= |g.elist| && ephemeron == Link(h, g, g.elist, i)
        invariant QueuedKeys(h, g, {}) && EarlyKeys(h, g, i)
        decreases |g.elist| - i
      {
        ephemeron := QueueIfLive(ephemeron, i);
        i := i + 1;
      }
      SameDone(h, old(g), g);
    }

    /** Queue the i-th listed ephemeron if its key is live; return the next one. */
    method QueueIfLive(ephemeron: Word, ghost i: int) returns (next: Word)
      requires Valid({}) && scanningEphemerons && QueuedKeys(h, g, {}) && EarlyKeys(h, g, i)
      requires 0 <= i < |g.elist| && ephemeron == Link(h, g, g.elist, i)
      modifies this, memory
      ensures Valid({}) && scanningEphemerons && QueuedKeys(h, g, {}) && EarlyKeys(h, g, i + 1)
      ensures g == old(g).(tb := g.tb, queue := g.queue) && next == Link(h, g, g.elist, i + 1)
    {
      ghost var e := g.elist[i];
      ListedWords(h, g, memory[..], Lists(), {}, e);
      ListedKey(h, g, memory[..], Lists(), {}, e);
      assert ChainStep(h, g, memory[..], g.elist, EPHEMERON_LIST, i);
      var d := ephemeron.addr - newspaceStart + tospaceStart;
      var oldKey := memory[d + EPHEMERON_KEY];
      assert oldKey == At(memory[..], d + EPHEMERON_KEY);
      next := memory[d + EPHEMERON_LIST];
      assert next == At(memory[..], d + EPHEMERON_LIST);
      var newKey := WeakReferentForward(oldKey);
      if newKey != SHARP_F {
        assert IsLive(h, oldKey.addr);
        QueueEphemeronsForKey(WeakReferentAddress(oldKey), {});
      }
      EarlyStep(h, old(g), g, i, newKey != SHARP_F);
    }

    /** Take an ephemeron off the queue and scan its datum and whatever that brings to tospace. */
    method ServeEphemeron()
      requires Valid({}) && scanningEphemerons && Disciplined({}) && AllDone(h, g)
      requires ephemeronQueue.Ptr?
      modifies this, memory
      ensures Valid({}) && scanningEphemerons && Disciplined({}) && AllDone(h, g)
      ensures h.objs.Keys - g.served < h.objs.Keys - old(g).served
    {
      ghost var e, g0 := g.queue[0], g;
      PopInv(h, g, memory[..], Lists());
      WalkListed(h, g, memory[..], Lists(), {}, 0, InQueueWalk(0));
      PopKeys(h, g);
      var d := ephemeronQueue.addr - newspaceStart + tospaceStart;
      ephemeronQueue := memory[d + EPHEMERON_NEXT];
      g := Popped(g);
      DatumReady(h, g, memory[..], Lists(), e);
      ScanFrom(e, d + EPHEMERON_DATUM, newspaceNext);
    }

    /** Scan the datum at q of the ephemeron e, then the copies from newspace address `saved` on. */
    method ScanFrom(ghost e: int, q: int, saved: int)
      requires Valid({e}) && scanningEphemerons && Disciplined({}) && AllDone(h, g)
      requires 0 <= q < memory.Length && ScanReady(h, g, memory[..], q, {e}) && q == To(g, e) + EPHEMERON_DATUM &&
        h.t0 <= q < g.next
      requires e in g.served && saved == newspaceNext
      modifies this, memory
      ensures Valid({}) && scanningEphemerons && Disciplined({}) && AllDone(h, g)
      ensures g.served == old(g).served
    {
      hide Layout, Hearts, DoneOk, Threads, WeakChain, Registered, PinnedWords, OnlyLive;
      assert Listed(h, g, e);
      var next := Dispatch(q, {e});
      ServedKeeps(h, old(g), g, memory[..], Lists(), e, q);
      RestDone(h, old(g), g, q);
      ghost var g1 := g;
      RunGcLoop(saved - newspaceStart + tospaceStart, 0, true, {});
      AllDoneAgain(h, old(g), g1, g);
    }

    /** Give the listed ephemerons their final form: forwarded, or broken. */
    method UpdateEphemerons()
      requires Valid({}) && Drained(h, g)
      modifies memory, `ephemeronList
      ensures Patched(h, g, old(memory[..]), memory[..], |g.elist|)
    {
      ghost var m0, heads := memory[..], Lists();
      var ephemeron := ephemeronList;
      ghost var n := 0;
      while ephemeron.Ptr? && ephemeron.code == TC_EPHEMERON
        invariant Patched(h, g, m0, memory[..], n) && ephemeron == Link(h, g, g.elist, n)
        invariant Fields() && Inv(h, g, m0, heads, {})
        decreases |g.elist| - n
      {
        ephemeron := UpdateEphemeron(ephemeron, m0, heads, n);
        n := n + 1;
      }
      ephemeronList := SHARP_F;
    }

    /** Update the n-th listed ephemeron and return the next one. */
    method UpdateEphemeron(ephemeron: Word, ghost m0: seq<Word>, ghost heads: Heads, ghost n: int) returns (next: Word)
      requires Fields() && Inv(h, g, m0, heads, {}) && Drained(h, g)
      requires Patched(h, g, m0, memory[..], n) && n < |g.elist| && ephemeron == Link(h, g, g.elist, n)
      modifies memory
      ensures Patched(h, g, m0, memory[..], n + 1) && next == Link(h, g, g.elist, n + 1)
    {
      hide Hearts, DoneOk, Threads, WeakChain, Registered, PinnedWords, OnlyLive;
      ghost var m := memory[..];
      PatchFields(h, g, m0, m, heads, n);
      var d := ephemeron.addr - newspaceStart + tospaceStart;
      var oldKey := memory[d + EPHEMERON_KEY];
      assert oldKey == At(m, d + EPHEMERON_KEY);
      assert memory[oldKey.addr] == At(m, oldKey.addr);
      var newKey := WeakReferentForward(oldKey);
      memory[d] := MARKED_MANIFEST;
      memory[d + EPHEMERON_KEY] := newKey;
      next := memory[d + EPHEMERON_LIST];
      assert next == At(m, d + EPHEMERON_LIST);
      memory[d + EPHEMERON_LIST] := SHARP_F;
      memory[d + EPHEMERON_NEXT] := SHARP_F;
      if newKey == SHARP_F {
        memory[d + EPHEMERON_DATUM] := SHARP_F;
      }
      PatchStep(h, g, m0, m, memory[..], heads, n);
    }

    /** Restore the cars of the chained weak pairs: forwarded, or #F. */
    method UpdateWeakPairs(ghost m0: seq<Word>, ghost heads: Heads)
      requires Fields() && Inv(h, g, m0, heads, {}) && Drained(h, g)
      requires Patched(h, g, m0, memory[..], |g.elist|) && weakChain == heads.weakChain
      modifies memory, `weakChain
      ensures Mended(h, g, old(memory[..]), memory[..], |g.wk|) && weakChain == 0
    {
      ghost var m1 := memory[..];
      ghost var n := 0;
      assert g.wk != [] ==> WeakEntry(h, g, g.wk[0]) && ObjOk(h, g.wk[0]);
      while weakChain != 0
        invariant Mended(h, g, m1, memory[..], n) && weakChain == WeakLink(g.wk, n)
        invariant Fields()
        decreases |g.wk| - n
      {
        weakChain := UpdateWeakPair(m0, m1, heads, n);
        n := n + 1;
      }
      WeakChainEnd(h, g, m0, heads, n);
    }

    method UpdateWeakPair(ghost m0: seq<Word>, ghost m1: seq<Word>, ghost heads: Heads, ghost n: int)
      returns (next: int)
      requires Fields() && Inv(h, g, m0, heads, {}) && Patched(h, g, m0, m1, |g.elist|)
      requires Mended(h, g, m1, memory[..], n) && n < |g.wk| && weakChain == g.wk[n]
      modifies memory
      ensures Mended(h, g, m1, memory[..], n + 1) && next == WeakLink(g.wk, n + 1)
    {
      ghost var m := memory[..];
      MendFields(h, g, m0, m1, m, heads, n);
      assert memory[weakChain] == At(m, weakChain) && memory[weakChain + 1] == At(m, weakChain + 1);
      var d := Datum(memory[weakChain]) - newspaceStart + tospaceStart;
      var chainWord := memory[weakChain + 1];
      assert memory[d] == At(m, d);
      var oldCar := Ptr(chainWord.cls, chainWord.code, Datum(memory[d]));
      assert memory[oldCar.addr] == At(m, oldCar.addr);
      var newCar := WeakReferentForward(oldCar);
      memory[d] := newCar;
      assert memory[..] == m[d := newCar];
      MendStep(h, g, m0, m1, m, memory[..], heads, n);
      next := Datum(chainWord);
    }

    /** The extra passes for ephemerons and weak pairs. */
    method UpdateWeakPointers()
      requires Valid({}) && !scanningEphemerons && Disciplined({}) && AllDone(h, g)
      modifies this, memory
      ensures Collected(h, g, memory[..]) && Fields()
    {
      ScanEphemerons();
      ghost var m0, heads := memory[..], Lists();
      UpdateEphemerons();
      ghost var m1 := memory[..];
      UpdateWeakPairs(m0, heads);
      AllFinal(h, g, m0, m1, memory[..], heads);
    }

    /** A collection: scan the pinned areas and tospace, then run the extra passes. */
    method StdGcPt1(stackStart: int, stackEnd: int, constantStart: int, constantNext: int)
      requires Valid({}) && !scanningEphemerons && Disciplined({}) && g.fwd == map[] && g.done == {}
      requires stackStart == h.s0 && stackEnd == h.s1 && constantStart == h.c0 && constantNext == h.c1
      modifies this, memory
      ensures Collected(h, g, memory[..]) && Fields()
    {
      ScanRoots(stackStart, stackEnd, constantStart, constantNext);
      UpdateWeakPointers();
    }

    method ScanRoots(stackStart: int, stackEnd: int, constantStart: int, constantNext: int)
      requires Valid({}) && !scanningEphemerons && Disciplined({}) && g.fwd == map[] && g.done == {}
      requires stackStart == h.s0 && stackEnd == h.s1 && constantStart == h.c0 && constantNext == h.c1
      modifies this, memory
      ensures Valid({}) && !scanningEphemerons && Disciplined({}) && AllDone(h, g)
    {
      hide Layout, Hearts, DoneOk, Rosters, Threads, WeakChain, Registered, PinnedWords, OnlyLive;
      AreaStart(h, g, h.s0, h.s1);
      RunGcLoop(stackStart, stackEnd, false, {});
      ghost var g1 := g;
      AreaStart(h, g, h.c0, h.c1);
      RunGcLoop(constantStart, constantNext, false, {});
      ghost var g2 := g;
      TospaceArea(h, g2);
      RunGcLoop(tospaceStart, 0, true, {});
      RootsDone(h, g1, g2, g);
    }

    /** Copy n words; the two blocks are apart. */
    static method CopyBlock(memory: array<Word>, to: int, from: int, n: int)
      requires 0 <= n && 0 <= to && to + n <= memory.Length && 0 <= from && from + n <= memory.Length
      requires to + n <= from || from + n <= to
      modifies memory
      ensures forall k {:trigger memory[k]} :: 0 <= k < memory.Length ==>
        memory[k] == old(memory[if to <= k < to + n then k - to + from else k])
    {
      var i := 0;
      while i < n
        invariant 0 <= i <= n
        invariant forall k {:trigger memory[k]} :: 0 <= k < memory.Length ==>
          memory[k] == old(memory[if to <= k < to + i then k - to + from else k])
      {
        memory[to + i] := memory[from + i];
        i := i + 1;
      }
    }

    /** save_tospace_copy: move tospace to newspace. */
    method SaveTospace()
      requires Fields() && Collected(h, g, memory[..]) && WellFormed(h) && NewspaceOk(h)
      modifies memory
      ensures Saved(h, g, old(memory[..]), memory[..])
    {
      ghost var m := memory[..];
      CopyBlock(memory, newspaceStart, tospaceStart, tospaceNext - tospaceStart);
      SavedAll(h, g, m, memory[..]);
    }

    /** A whole collection: the copies end up in newspace. */
    method Collect(stackStart: int, stackEnd: int, constantStart: int, constantNext: int)
      requires Valid({}) && !scanningEphemerons && Disciplined({}) && g == Start(h) && NewspaceOk(h)
      requires stackStart == h.s0 && stackEnd == h.s1 && constantStart == h.c0 && constantNext == h.c1
      modifies this, memory
      ensures exists m: seq<Word> :: Collected(h, g, m) && Saved(h, g, m, memory[..])
      ensures Survives(h, g, memory[..])
    {
      StdGcPt1(stackStart, stackEnd, constantStart, constantNext);
      ghost var m := memory[..];
      SaveTospace();
      Survival(h, g, m, memory[..]);
    }
  }
}
