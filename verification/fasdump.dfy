/** Dumping an object: a copying traversal that afterwards restores every word of the heap it changed. */
module Fasdump {
  import opened FasdumpHeap
  import opened FasdumpImage

  class Dumper {
    const memory: array<Word>
    const tospaceStart: nat
    const newspaceStart: nat
    const mode: EnvMode
    var tospaceNext: nat
    var fixups: array<Fixup>
    var fixupsNext: nat
    var ephemeronCount: nat
    ghost const h: Heap
    ghost var copies: seq<Copy>
    ghost var root: Word

    ghost function Fixups(): seq<Fixup>
      requires fixupsNext <= fixups.Length
      reads this, fixups
    {
      fixups[..fixupsNext]
    }

    ghost predicate Valid()
      reads this, fixups, memory
    {
      && (fixups as object) != (memory as object)
      && WellFormed(h) && memory.Length == |h.orig| && fixupsNext <= fixups.Length && 0 < fixups.Length
      && 0 < newspaceStart && h.limit <= tospaceStart <= tospaceNext <= memory.Length
      && FixupsOk(h, Fixups()) && SourceOk(h, memory[..], Addresses(Fixups()))
    }

    /** How many ephemerons have been copied. */
    ghost function Copies(): nat
      requires fixupsNext <= fixups.Length
      reads this, fixups
    {
      |Ephemerons(h, Addresses(Fixups()))|
    }

    /** The ephemerons that have been copied have been counted, each once. */
    ghost predicate Counted()
      requires fixupsNext <= fixups.Length
      reads this, fixups
    {
      ephemeronCount == Copies()
    }

    /** The words of tospace from scan on have not been scanned. */
    ghost predicate Unscanned(scan: int)
      reads this, memory
    {
      tospaceStart <= scan && tospaceNext <= memory.Length && forall p {:trigger memory[p]} ::
        scan <= p < tospaceNext ==> OkWord(h, memory[p])
    }

    ghost function Origin(): Base {
      Base(tospaceStart, newspaceStart)
    }

    /** The copies are as they are to be when the scan has come to the place scan. */
    ghost predicate ShownTo(scan: int)
      requires fixupsNext <= fixups.Length
      reads this, fixups, memory
    {
      Shown(h, Fixups(), copies, Origin(), memory[..], scan, tospaceNext)
    }

    /** r is the forwarded form of w. */
    ghost predicate Forwards(w: Word, r: Word)
      reads this
    {
      IsForward(copies, Origin(), w, r)
    }

    /** Every copy was reached by a pointer that is met in the dump. */
    ghost predicate Traced()
      reads this
    {
      AllFound(h, copies, root)
    }

    /** w is met in the dump. */
    ghost predicate Meets(w: Word)
      reads this
    {
      Occurs(h, copies, root, w)
    }

    /** An object that is met has not been copied, and there is no room for it. */
    ghost predicate NoRoom()
      requires fixupsNext <= fixups.Length
      reads this, fixups
    {
      exists w {:trigger Meets(w)} :: Meets(w) && NoRoomFor(w)
    }

    ghost predicate NoRoomFor(w: Word)
      requires fixupsNext <= fixups.Length
      reads this, fixups
    {
      && w.Ptr? && w.addr in h.objs && w.addr !in Addresses(Fixups())
      && tospaceNext + h.objs[w.addr].size > memory.Length
    }

    /** Why the dump is given up. */
    ghost predicate Explains(status: Status)
      requires fixupsNext <= fixups.Length
      reads this, fixups
    {
      && (status == ObjectTooLarge ==> NoRoom())
      && (status == EnvironmentFound ==> mode == ModeError && exists a :: Meets(Ptr(Environment, a)))
    }

    /** Why the dump is given up, in terms of the heap. */
    ghost predicate Justified(status: Status)
      requires fixupsNext <= fixups.Length
      reads this, fixups
    {
      && (status == ObjectTooLarge ==> exists w {:trigger Reached(h, root, w)} :: Reached(h, root, w) && NoRoomFor(w))
      && (status == EnvironmentFound ==> mode == ModeError && exists a :: Reached(h, root, Ptr(Environment, a)))
    }

    lemma Justify(status: Status, scan: int)
      requires fixupsNext <= fixups.Length && Explains(status) && Traced() && ShownTo(scan)
      ensures Justified(status)
    {
      hide Reached, Occurs, AllFound, Images, ScanOk;
      if status == ObjectTooLarge {
        var w :| Meets(w) && NoRoomFor(w);
        MetIsReached(h, Fixups(), copies, Origin(), tospaceNext, root, w);
      } else if status == EnvironmentFound {
        var a :| Meets(Ptr(Environment, a));
        MetIsReached(h, Fixups(), copies, Origin(), tospaceNext, root, Ptr(Environment, a));
      }
    }

    /** The scan has passed no environment, if they are forbidden. */
    ghost predicate ClearTo(scan: int)
      reads this
    {
      mode == ModeError ==> AllClear(h, copies, scan)
    }

    /** initialize_fixups and open_tospace. */
    constructor (memory: array<Word>, tospaceStart: nat, newspaceStart: nat, mode: EnvMode, ghost h: Heap)
      requires WellFormed(h) && h.limit <= tospaceStart <= memory.Length && memory[..] == h.orig && 0 < newspaceStart
      ensures Valid() && fresh(fixups) && this.memory == memory && this.tospaceStart == tospaceStart == tospaceNext &&
        this.h == h && this.mode == mode
      ensures Fixups() == [] && copies == [] && ephemeronCount == 0 && Counted()
    {
      this.memory, this.tospaceStart, this.newspaceStart, this.mode, this.h := memory, tospaceStart, newspaceStart,
        mode, h;
      tospaceNext, fixupsNext, ephemeronCount, copies, root := tospaceStart, 0, 0, [], SHARP_F;
      fixups := new Fixup[64](_ => Fixup(0, SHARP_F));
      new;
      assert Ephemerons(h, Addresses([])) == {};
      assert forall p :: 0 <= p < h.limit ==> SourceWord(h, memory[..], {}, p);
    }

    /** add_fixup: remember the word at addr, in a larger buffer if this one is full. */
    method AddFixup(addr: int)
      requires fixupsNext <= fixups.Length && 0 < fixups.Length && 0 <= addr < memory.Length &&
        (fixups as object) != (memory as object)
      modifies this`fixups, this`fixupsNext, fixups
      ensures fixups == old(fixups) || fresh(fixups)
      ensures (fixups as object) != (memory as object) && 0 < fixups.Length && fixupsNext <= fixups.Length
      ensures Fixups() == old(Fixups()) + [Fixup(addr, memory[addr])]
    {
      if fixupsNext >= fixups.Length {
        var n := fixups.Length * 2;
        var data := new Fixup[n](_ => Fixup(0, SHARP_F));
        var i := 0;
        while i < fixupsNext
          invariant 0 <= i <= fixupsNext && fixups == old(fixups) && fixupsNext == old(fixupsNext) && fresh(data)
          invariant fixups[..] == old(fixups[..]) && forall j :: 0 <= j < i ==> data[j] == fixups[j]
        {
          data[i] := fixups[i];
          i := i + 1;
        }
        assert data[..fixupsNext] == fixups[..fixupsNext];
        fixups := data;
      }
      fixups[fixupsNext] := Fixup(addr, memory[addr]);
      fixupsNext := fixupsNext + 1;
    }

    /** fasdump_precheck_from. */
    method PrecheckFrom(from: int) returns (newAddress: int)
      requires Valid() && from in h.objs
      ensures newAddress == 0 <==> from !in Addresses(Fixups())
      ensures newAddress >= 0 && 0 <= from < memory.Length && (newAddress == 0 ==> memory[from] == h.orig[from])
      ensures newAddress != 0 ==> memory[from] == BrokenHeart(newAddress)
    {
      assert ObjOk(h, from) && SourceWord(h, memory[..], Addresses(Fixups()), from);
      OriginalNotBroken(h, from);
      newAddress := if memory[from].BrokenHeart? then memory[from].heart else 0;
    }

    /** run_fixups: every changed word gets its object back. */
    method RunFixups()
      requires Valid()
      modifies memory
      ensures memory[..h.limit] == h.orig[..h.limit]
      ensures memory[h.limit..] == old(memory[h.limit..])
    {
      var scan := 0;
      forall p | 0 <= p < h.limit && memory[p] != h.orig[p]
        ensures exists i :: 0 <= i < fixupsNext && fixups[i].addr == p
      {
        assert SourceWord(h, memory[..], Addresses(Fixups()), p);
        assert p in Addresses(Fixups());
        var i :| 0 <= i < |Fixups()| && Fixups()[i].addr == p;
        assert fixups[i].addr == p;
      }
      ghost var m := memory[..];
      while scan < fixupsNext
        invariant 0 <= scan <= fixupsNext
        invariant forall p :: h.limit <= p < memory.Length ==> memory[p] == m[p]
        invariant forall p :: 0 <= p < h.limit && memory[p] != h.orig[p] ==>
          exists i :: scan <= i < fixupsNext && fixups[i].addr == p
      {
        assert Fixups()[scan] == fixups[scan] && ObjOk(h, fixups[scan].addr);
        memory[fixups[scan].addr] := fixups[scan].content;
        scan := scan + 1;
      }
    }

    /** Copy n words to the end of tospace. */
    method CopyWords(from: int, n: nat)
      requires 0 <= from && from + n <= tospaceNext && tospaceNext + n <= memory.Length
      modifies memory, this`tospaceNext
      ensures tospaceNext == old(tospaceNext) + n
      ensures forall p :: 0 <= p < memory.Length ==>
        memory[p] == old(memory[if tospaceNext <= p < tospaceNext + n then p - tospaceNext + from else p])
    {
      var i := 0;
      while i < n
        invariant 0 <= i <= n && tospaceNext == old(tospaceNext) + i
        invariant forall p :: 0 <= p < memory.Length ==>
          memory[p] == old(memory[if tospaceNext <= p < tospaceNext + i then p - tospaceNext + from else p])
      {
        memory[tospaceNext] := memory[from + i];
        tospaceNext := tospaceNext + 1;
        i := i + 1;
      }
    }

    /** fasdump_transport_words: the copy, with the source word saved first; an object that does not
        fit in tospace is an error that leaves everything as it was. */
    method TransportWords(from: int, n: nat, ghost kind: Kind, ghost scan: int)
      returns (status: Status, newAddress: int)
      requires Valid() && from in h.objs && from !in Addresses(Fixups()) && h.objs[from].size == n
      requires ShownTo(scan) && Fits(h, kind, from) && kind != Interned && kind != Uninterned && kind != VariableObject
      modifies this`fixups, this`fixupsNext, this`tospaceNext, this`copies, fixups, memory
      ensures fixupsNext <= fixups.Length && ShownTo(scan)
      ensures copies == if status == Fine then old(copies) + [Copy(from, kind, old(tospaceNext))] else old(copies)
      ensures fixups == old(fixups) || fresh(fixups)
      ensures Valid() && (status == Fine || status == ObjectTooLarge) &&
        (status != Fine ==> tospaceNext == old(tospaceNext) && Fixups() == old(Fixups()))
      ensures status == ObjectTooLarge <==> old(tospaceNext) + n > memory.Length
      ensures status == Fine ==> Copies() == old(Copies()) + if IsEphemeron(h, from) then 1 else 0
      ensures status == Fine ==> Fixups() == old(Fixups()) + [Fixup(from, Original(h, from))]
      ensures status == Fine ==> newAddress == newspaceStart + (old(tospaceNext) - tospaceStart)
      ensures status == Fine ==> tospaceNext == old(tospaceNext) + n
      ensures forall p :: h.limit <= p < old(tospaceNext) ==> memory[p] == old(memory[p])
      ensures Unscanned(old(tospaceNext))
      ensures status == Fine ==> forall p {:trigger memory[p]} :: old(tospaceNext) <= p < tospaceNext ==>
        memory[p] == Original(h, from + (p - old(tospaceNext)))
    {
      hide FixupsOk, SourceOk, WellFormed, Ephemerons, Addresses, Shown, Fits, OkWord;
      if tospaceNext + n > memory.Length {
        return ObjectTooLarge, 0;
      }
      ghost var was, saved, next, fs := memory[..], Addresses(Fixups()), tospaceNext, Fixups();
      WholeObject(h, was, Fixups(), from);
      FixupAdded(h, Fixups(), from);
      EphemeronCounted(h, saved, from);
      AddFixup(from);
      newAddress := newspaceStart + (tospaceNext - tospaceStart);
      CopyWords(from, n);
      memory[from] := BrokenHeart(newAddress);
      status := Fine;
      HeartWritten(h, was, memory[..], saved, from);
      forall p | next <= p < next + n ensures memory[p] == Original(h, from + (p - next)) {
        assert memory[p] == was[from + (p - next)];
      }
      CopiedOk(h, from, memory[..], next);
      CopyShown(fs, was, from, kind, scan, next);
      copies := copies + [Copy(from, kind, next)];
    }

    // -------------------------------------------------------------- the handlers

    /** What every handler leaves: the words between the source and the old end of tospace are the same,
        and what has been added is to be scanned. */
    ghost predicate Kept(next0: nat, was: seq<Word>)
      reads this, memory
    {
      && next0 <= tospaceNext <= memory.Length == |was| && tospaceStart <= next0
      && Unscanned(next0) && forall p {:trigger memory[p]} :: h.limit <= p < next0 ==> memory[p] == was[p]
    }

    /** Write a word of tospace. */
    method WriteTospace(p: nat, w: Word)
      requires Valid() && tospaceStart <= p < tospaceNext && OkWord(h, w)
      modifies memory
      ensures Valid() && memory[..] == old(memory[..])[p := w]
    {
      ghost var m := memory[..];
      SourceKept(h, m, Addresses(Fixups()), p, w);
      memory[p] := w;
      assert memory[..] == m[p := w];
    }

    /** The new address of an object of n words, which is copied if that has not been done. */
    method Forwarded(w: Word, n: nat, ghost kind: Kind, ghost scan: int)
      returns (status: Status, newAddress: int, copied: bool)
      requires Valid() && w.Ptr? && OkWord(h, w) && h.objs[w.addr].size == n
      requires ShownTo(scan) && Fits(h, kind, w.addr) && kind != Interned && kind != Uninterned &&
        kind != VariableObject
      modifies this`fixups, this`fixupsNext, this`tospaceNext, this`copies, fixups, memory
      ensures fixupsNext <= fixups.Length && ShownTo(scan) && (status == Fine ==> Forwards(w, Ptr(w.kind, newAddress)))
      ensures copies == if copied then old(copies) + [Copy(w.addr, kind, old(tospaceNext))] else old(copies)
      ensures fixups == old(fixups) || fresh(fixups)
      ensures Valid() && Kept(old(tospaceNext), old(memory[..]))
      ensures tospaceNext <= memory.Length
      ensures copied ==> forall p {:trigger memory[p]} :: old(tospaceNext) <= p < tospaceNext ==>
        memory[p] == Original(h, w.addr + (p - old(tospaceNext)))
      ensures copied ==> status == Fine && tospaceNext == old(tospaceNext) + n
      ensures copied ==> newAddress == newspaceStart + (old(tospaceNext) - tospaceStart)
      ensures !copied ==> tospaceNext == old(tospaceNext) && Copies() == old(Copies())
      ensures copied ==> Copies() == old(Copies()) + if IsEphemeron(h, w.addr) then 1 else 0
      ensures status == Fine ==> (copied <==> w.addr !in old(Addresses(Fixups())))
      ensures status == Fine || (status == ObjectTooLarge && NoRoomFor(w))
    {
      hide Shown, SourceOk, FixupsOk, WellFormed, Ephemerons;
      copied := false;
      newAddress := PrecheckFrom(w.addr);
      if newAddress == 0 {
        status, newAddress := TransportWords(w.addr, n, kind, scan);
        copied := status == Fine;
        if copied { assert CopyOf(copies, w.addr, |copies| - 1); }
      } else {
        status := Fine;
        Known(w, newAddress, scan);
      }
    }

    /** The eager loop of gc_tuple on the tails of a list. */
    method TransportCdrs(first: int, ghost scan: int) returns (status: Status)
      requires Valid() && newspaceStart <= first && tospaceStart + (first - newspaceStart) + 2 == tospaceNext &&
        Unscanned(tospaceNext - 2) && ShownTo(scan)
      requires Traced() && copies != [] && |Words(h, copies[|copies| - 1].addr)| == 2 &&
        !Resets(copies[|copies| - 1].kind)
      requires memory[tospaceNext - 1] == Words(h, copies[|copies| - 1].addr)[1]
      modifies this`fixups, this`fixupsNext, this`tospaceNext, this`copies, fixups, memory
      ensures fixups == old(fixups) || fresh(fixups)
      ensures Valid() && Kept(old(tospaceNext), old(memory[..])) && Copies() == old(Copies())
      ensures ShownTo(scan) && old(copies) <= copies && Traced() && Explains(status)
    {
      hide Shown, Occurs, AllFound, Words, SourceOk, FixupsOk, WellFormed, Ephemerons, IsForward, NoRoomFor, Addresses;
      var cdr := memory[tospaceStart + (first - newspaceStart) + 1];
      TailMet(cdr);
      status := Fine;
      while cdr.Ptr? && cdr.kind == List
        invariant fixups == old(fixups) || fresh(fixups)
        invariant Valid() && Kept(old(tospaceNext), old(memory[..])) && Copies() == old(Copies()) && OkWord(h, cdr)
        invariant ShownTo(scan) && old(copies) <= copies && Traced() && Meets(cdr) && status == Fine
        decreases memory.Length - tospaceNext
      {
        ghost var was, next, cs := memory[..], tospaceNext, copies;
        var newAddress, copied;
        status, newAddress, copied := Forwarded(cdr, 2, List, scan);
        KeptOn(old(tospaceNext), old(memory[..]), next, was);
        if !copied {
          assert Meets(cdr);
          return;
        }
        FoundAdded(h, cs, root, Copy(cdr.addr, List, next));
        TailWord(cdr.addr);
        cdr := memory[tospaceStart + (newAddress - newspaceStart) + 1];
        TailMet(cdr);
      }
    }

    /** The tail of the pair that was copied last is met. */
    lemma TailMet(cdr: Word)
      requires copies != [] && |Words(h, copies[|copies| - 1].addr)| == 2 && !Resets(copies[|copies| - 1].kind)
      requires cdr == Words(h, copies[|copies| - 1].addr)[1]
      ensures Meets(cdr)
    {
      assert MetAt(h, copies, cdr, |copies| - 1, 1);
    }

    lemma TailWord(a: int)
      requires WellFormed(h) && a in h.objs && h.objs[a].size == 2
      ensures |Words(h, a)| == 2 && Words(h, a)[1] == Original(h, a + 1)
    {
      assert ObjOk(h, a);
    }

    lemma KeptOn(next0: nat, was0: seq<Word>, next: nat, was: seq<Word>)
      requires next0 <= next <= |was| == |was0| == memory.Length && tospaceStart <= next0 && Kept(next, was)
      requires forall p {:trigger was[p]} :: next0 <= p < next ==> OkWord(h, was[p])
      requires forall p {:trigger was[p]} :: h.limit <= p < next0 ==> was[p] == was0[p]
      requires h.limit <= tospaceStart
      ensures Kept(next0, was0)
    {
      forall p | next0 <= p < tospaceNext ensures OkWord(h, memory[p]) { if p < next { assert memory[p] == was[p]; } }
      forall p | h.limit <= p < next0 ensures memory[p] == was0[p] { assert memory[p] == was[p]; }
    }

    /** gc_tuple. */
    method HandleTuple(w: Word, n: nat, ghost scan: int) returns (status: Status, r: Word)
      requires Traced() && Meets(w)
      requires Valid() && ShownTo(scan) && w.Ptr? && OkWord(h, w) && h.objs[w.addr].size == n
      requires w.kind != Ephemeron && w.kind != Interned && w.kind != Uninterned && w.kind != VariableObject
      modifies this`fixups, this`fixupsNext, this`tospaceNext, this`copies, fixups, memory
      ensures fixups == old(fixups) || fresh(fixups)
      ensures Valid() && Kept(old(tospaceNext), old(memory[..])) && Copies() == old(Copies())
      ensures fixupsNext <= fixups.Length && ShownTo(scan) && old(copies) <= copies &&
        (status == Fine ==> Forwards(w, r))
      ensures Traced() && Explains(status)
    {
      hide Shown;
      ghost var next0, was0 := tospaceNext, memory[..];
      var newAddress, copied;
      ghost var cs0 := copies;
      status, newAddress, copied := Forwarded(w, n, w.kind, scan);
      if status != Fine { assert Meets(w); }
      if copied { FoundAdded(h, cs0, root, Copy(w.addr, w.kind, next0)); }
      if copied && n == 2 {
        TailWord(w.addr);
        ghost var next, was, cs := tospaceNext, memory[..], copies;
        status := TransportCdrs(newAddress, scan);
        KeptOn(next0, was0, next, was);
        ForwardGrows(cs, copies, Origin(), w, Ptr(w.kind, newAddress));
      }
      r := Ptr(w.kind, newAddress);
    }

    /** gc_vector: the length is read from the object, when it has not been copied yet. */
    method HandleVector(w: Word, ghost scan: int) returns (status: Status, r: Word)
      requires Traced() && Meets(w)
      requires Valid() && ShownTo(scan) && w.Ptr? && OkWord(h, w) &&
        (w.kind.Vector? || w.kind == Environment || w.kind == Ephemeron)
      modifies this`fixups, this`fixupsNext, this`tospaceNext, this`copies, fixups, memory
      ensures fixups == old(fixups) || fresh(fixups)
      ensures Valid() && Kept(old(tospaceNext), old(memory[..]))
      ensures status == Fine ==> Copies() == old(Copies()) + if w.kind == Ephemeron &&
        w.addr !in old(Addresses(Fixups())) then 1 else 0
      ensures fixupsNext <= fixups.Length && ShownTo(scan) && old(copies) <= copies &&
        (status == Fine ==> Forwards(w, r))
      ensures Traced() && Explains(status)
    {
      hide Shown;
      var newAddress := PrecheckFrom(w.addr);
      status := Fine;
      if newAddress == 0 {
        ghost var cs, next := copies, tospaceNext;
        status, newAddress := TransportWords(w.addr, 1 + Datum(memory[w.addr]), w.kind, scan);
        if status == Fine {
          assert CopyOf(copies, w.addr, |copies| - 1);
          FoundAdded(h, cs, root, Copy(w.addr, w.kind, next));
        } else {
          assert Meets(w) && NoRoomFor(w);
        }
      } else {
        Known(w, newAddress, scan);
      }
      r := Ptr(w.kind, newAddress);
    }

    /** handle_ephemeron: an ephemeron is counted when it is first met. */
    method HandleEphemeron(w: Word, ghost scan: int) returns (status: Status, r: Word)
      requires Traced() && Meets(w)
      requires Valid() && ShownTo(scan) && w.Ptr? && OkWord(h, w) && w.kind == Ephemeron
      modifies this`fixups, this`fixupsNext, this`tospaceNext, this`copies, this`ephemeronCount, fixups, memory
      ensures fixups == old(fixups) || fresh(fixups)
      ensures Valid() && Kept(old(tospaceNext), old(memory[..]))
      ensures status == Fine && old(Counted()) ==> Counted()
      ensures fixupsNext <= fixups.Length && ShownTo(scan) && old(copies) <= copies &&
        (status == Fine ==> Forwards(w, r))
      ensures Traced() && Explains(status)
    {
      hide Shown;
      var newAddress := PrecheckFrom(w.addr);
      if newAddress == 0 {
        ephemeronCount := ephemeronCount + 1;
      }
      status, r := HandleVector(w, scan);
    }

    /** The global value of a copied symbol. */
    method ResetSymbol(at: nat, w: Word, ghost scan: int)
      requires Valid() && ShownTo(scan) && scan <= at && w.Ptr? && OkWord(h, w) &&
        (w.kind == Interned || w.kind == Uninterned)
      requires copies != [] && copies[|copies| - 1] == Copy(w.addr, OtherPair(0), at) && tospaceStart <= at &&
        tospaceNext == at + 2
      requires Unscanned(at) && forall p {:trigger memory[p]} :: at <= p < tospaceNext ==>
        memory[p] == Original(h, w.addr + (p - at))
      modifies memory, this`copies
      ensures Valid() && ShownTo(scan) && copies == old(copies)[|old(copies)| - 1 := Copy(w.addr, w.kind, at)]
      ensures memory[at] == old(memory[at])
      ensures memory[at + 1] == if w.kind == Interned then BrokenHeart(0) else Object(0x32, 2)
      ensures Unscanned(at) && forall p {:trigger memory[p]} :: h.limit <= p < at ==> memory[p] == old(memory[p])
    {
      hide Shown, SourceOk, FixupsOk, Addresses;
      ghost var was := memory[..];
      WriteTospace(at + 1, if w.kind == Interned then BROKEN_HEART_ZERO else UNBOUND_OBJECT);
      Relabel(was, w.addr, w.kind, scan);
      copies := copies[|copies| - 1 := copies[|copies| - 1].(kind := w.kind)];
    }

    /** handle_symbol: the copy loses its global value. */
    method HandleSymbol(w: Word, ghost scan: int) returns (status: Status, r: Word)
      requires Traced() && Meets(w)
      requires Valid() && ShownTo(scan) && w.Ptr? && OkWord(h, w) && (w.kind == Interned || w.kind == Uninterned)
      modifies this`fixups, this`fixupsNext, this`tospaceNext, this`copies, fixups, memory
      ensures fixups == old(fixups) || fresh(fixups)
      ensures Valid() && Kept(old(tospaceNext), old(memory[..])) && Copies() == old(Copies())
      ensures fixupsNext <= fixups.Length && ShownTo(scan) && old(copies) <= copies &&
        (status == Fine ==> Forwards(w, r))
      ensures status == Fine && w.addr !in old(Addresses(Fixups())) ==>
        && tospaceNext == old(tospaceNext) + 2 <= memory.Length && memory[old(tospaceNext)] == Original(h, w.addr)
        && memory[old(tospaceNext) + 1] == if w.kind == Interned then BrokenHeart(0) else Object(0x32, 2)
      ensures Traced() && Explains(status)
    {
      hide Shown, SourceOk, FixupsOk, WellFormed, Ephemerons, Addresses, Occurs, AllFound;
      ScanBounds(scan);
      var newAddress, copied;
      ghost var cs, next := copies, tospaceNext;
      status, newAddress, copied := Forwarded(w, 2, OtherPair(0), scan);
      if status != Fine { assert Meets(w); }
      if copied {
        ResetSymbol(tospaceStart + (newAddress - newspaceStart), w, scan);
        assert copies == cs + [Copy(w.addr, w.kind, next)];
        FoundAdded(h, cs, root, Copy(w.addr, w.kind, next));
        assert CopyOf(copies, w.addr, |copies| - 1);
      }
      r := Ptr(w.kind, newAddress);
    }

    /** What a copied variable had cached. */
    method ResetVariable(at: nat, w: Word, ghost scan: int)
      requires Valid() && ShownTo(scan) && scan <= at && w.Ptr? && OkWord(h, w) && w.kind == VariableObject
      requires copies != [] && copies[|copies| - 1] == Copy(w.addr, Triple(0), at) && tospaceStart <= at &&
        tospaceNext == at + 3
      requires Unscanned(at) && forall p {:trigger memory[p]} :: at <= p < tospaceNext ==>
        memory[p] == Original(h, w.addr + (p - at))
      modifies memory, this`copies
      ensures Valid() && ShownTo(scan) && copies == old(copies)[|old(copies)| - 1 := Copy(w.addr, w.kind, at)]
      ensures memory[at] == old(memory[at]) && memory[at + 1] == Object(0x08, 0) && memory[at + 2] == Object(0x00, 0)
      ensures Unscanned(at) && forall p {:trigger memory[p]} :: h.limit <= p < at ==> memory[p] == old(memory[p])
    {
      hide Shown, SourceOk, FixupsOk, Addresses;
      ghost var was := memory[..];
      WriteTospace(at + 1, UNCOMPILED_VARIABLE);
      WriteTospace(at + 2, SHARP_F);
      Relabel(was, w.addr, w.kind, scan);
      copies := copies[|copies| - 1 := copies[|copies| - 1].(kind := w.kind)];
    }

    /** handle_variable: the copy loses what it had cached. */
    method HandleVariable(w: Word, ghost scan: int) returns (status: Status, r: Word)
      requires Traced() && Meets(w)
      requires Valid() && ShownTo(scan) && w.Ptr? && OkWord(h, w) && w.kind == VariableObject
      modifies this`fixups, this`fixupsNext, this`tospaceNext, this`copies, fixups, memory
      ensures fixups == old(fixups) || fresh(fixups)
      ensures Valid() && Kept(old(tospaceNext), old(memory[..])) && Copies() == old(Copies())
      ensures fixupsNext <= fixups.Length && ShownTo(scan) && old(copies) <= copies &&
        (status == Fine ==> Forwards(w, r))
      ensures status == Fine && w.addr !in old(Addresses(Fixups())) ==>
        && tospaceNext == old(tospaceNext) + 3 <= memory.Length && memory[old(tospaceNext)] == Original(h, w.addr)
        && memory[old(tospaceNext) + 1] == Object(0x08, 0) && memory[old(tospaceNext) + 2] == Object(0x00, 0)
      ensures Traced() && Explains(status)
    {
      hide Shown, SourceOk, FixupsOk, WellFormed, Ephemerons, Addresses, Occurs, AllFound;
      ScanBounds(scan);
      var newAddress, copied;
      ghost var cs, next := copies, tospaceNext;
      status, newAddress, copied := Forwarded(w, 3, Triple(0), scan);
      if status != Fine { assert Meets(w); }
      if copied {
        ResetVariable(tospaceStart + (newAddress - newspaceStart), w, scan);
        assert copies == cs + [Copy(w.addr, w.kind, next)];
        FoundAdded(h, cs, root, Copy(w.addr, w.kind, next));
        assert CopyOf(copies, w.addr, |copies| - 1);
      }
      r := Ptr(w.kind, newAddress);
    }

    /** The handler for a pointer. */
    method HandlePointer(w: Word, ghost scan: int) returns (status: Status, r: Word)
      requires Traced() && Meets(w)
      requires Valid() && ShownTo(scan) && w.Ptr? && OkWord(h, w)
      modifies this`fixups, this`fixupsNext, this`tospaceNext, this`copies, this`ephemeronCount, fixups, memory
      ensures fixups == old(fixups) || fresh(fixups)
      ensures Valid() && Kept(old(tospaceNext), old(memory[..]))
      ensures status == Fine && old(Counted()) ==> Counted()
      ensures fixupsNext <= fixups.Length && ShownTo(scan) && old(copies) <= copies &&
        (status == Fine ==> Forwards(w, r))
      ensures status == Fine && mode == ModeError ==> !IsEnvironment(w)
      ensures Traced() && Explains(status)
    {
      hide Shown;
      match w.kind {
        case Cell(_) => status, r := HandleTuple(w, 1, scan);
        case List => status, r := HandleTuple(w, 2, scan);
        case OtherPair(_) => status, r := HandleTuple(w, 2, scan);
        case Triple(_) => status, r := HandleTuple(w, 3, scan);
        case Quadruple(_) => status, r := HandleTuple(w, 4, scan);
        case Vector(_) => status, r := HandleVector(w, scan);
        case Interned => status, r := HandleSymbol(w, scan);
        case Uninterned => status, r := HandleSymbol(w, scan);
        case VariableObject => status, r := HandleVariable(w, scan);
        case Ephemeron => status, r := HandleEphemeron(w, scan);
        case Environment =>
          if mode == ModeError {
            status, r := EnvironmentFound, w;
            assert Meets(Ptr(Environment, w.addr));
          } else {
            status, r := HandleVector(w, scan);
          }
      }
    }

    /** The scan has come to the place scan. */
    ghost predicate Scanning(scan: int)
      reads this, fixups, memory
    {
      && Valid() && Unscanned(scan) && Counted() && ShownTo(scan) && tospaceStart <= scan <= tospaceNext
      && tospaceStart < tospaceNext && Traced() && ClearTo(scan) && !root.NmHeader?
      && (if scan == tospaceStart then memory[tospaceStart] == root else Forwards(root, memory[tospaceStart]))
      && (mode == ModeError && scan > tospaceStart ==> !IsEnvironment(root))
    }

    /** The pointer at scan is forwarded. */
    method ScanPointer(scan: nat) returns (status: Status)
      requires Scanning(scan) && scan < tospaceNext && memory[scan].Ptr?
      modifies this`fixups, this`fixupsNext, this`tospaceNext, this`copies, this`ephemeronCount, fixups, memory
      ensures fixups == old(fixups) || fresh(fixups)
      ensures Valid() && Justified(status) && tospaceStart < tospaceNext && (status == Fine ==> Scanning(scan + 1))
    {
      hide Shown, SourceOk, FixupsOk, WellFormed, AllFound, Occurs, Ephemerons, Addresses, AllClear, Reached, NoRoomFor;
      ghost var next, was, cs, fs := tospaceNext, memory[..], copies, Fixups();
      ScanLayout(scan);
      WordMet(scan);
      var r;
      status, r := HandlePointer(memory[scan], scan);
      Justify(status, scan);
      if status != Fine {
        return;
      }
      StillClear(fs, cs, next, scan);
      PassedClear(scan);
      StillUnscanned(scan, next, was);
      if scan > tospaceStart { ForwardGrows(cs, copies, Origin(), root, memory[tospaceStart]); }
      StepShown(scan, r);
      OverwriteScanned(scan, r);
      ScanBounds(scan + 1);
    }

    /** The scan passes a word that is no pointer. */
    lemma WordPassed(scan: int)
      requires Scanning(scan) && scan < tospaceNext && !memory[scan].Ptr?
      ensures Scanning(scan + Width(memory[scan]))
    {
      hide Shown, SourceOk, FixupsOk, WellFormed, AllFound, Occurs, Ephemerons, Addresses, AllClear;
      PassedClear(scan);
      StepShown(scan, memory[scan]);
      assert memory[..] == memory[..][scan := memory[scan]];
      ScanBounds(scan + Width(memory[scan]));
    }

    /** gc_scan_tospace. */
    method ScanTospace() returns (status: Status)
      requires Scanning(tospaceStart)
      modifies this`fixups, this`fixupsNext, this`tospaceNext, this`copies, this`ephemeronCount, fixups, memory
      ensures fixups == old(fixups) || fresh(fixups)
      ensures Valid() && Justified(status) && tospaceStart < tospaceNext && (status == Fine ==> Scanning(tospaceNext))
    {
      hide Scanning, WellFormed, FixupsOk, SourceOk;
      ScanningFacts(tospaceStart);
      var scan := tospaceStart;
      while scan < tospaceNext
        invariant fixups == old(fixups) || fresh(fixups)
        invariant Scanning(scan) && Valid() && tospaceStart <= scan <= tospaceNext <= memory.Length &&
          tospaceStart < tospaceNext
        decreases memory.Length - scan
      {
        var w := memory[scan];
        if w.Ptr? {
          status := ScanPointer(scan);
          if status != Fine {
            return;
          }
          scan := scan + 1;
        } else {
          WordPassed(scan);
          scan := if w.NmHeader? then scan + 1 + w.count else scan + 1;
        }
        ScanningFacts(scan);
      }
      status := Fine;
    }

    lemma ScanningFacts(scan: int)
      requires Scanning(scan)
      ensures Valid() && tospaceStart <= scan <= tospaceNext <= memory.Length && tospaceStart < tospaceNext
    {}

    lemma StillUnscanned(scan: nat, next: nat, was: seq<Word>)
      requires Kept(next, was) && tospaceStart <= scan < next && h.limit <= tospaceStart
      requires forall p {:trigger was[p]} :: scan <= p < next ==> OkWord(h, was[p])
      ensures Unscanned(scan)
    {
      forall p | scan <= p < tospaceNext ensures OkWord(h, memory[p]) { if p < next { assert memory[p] == was[p]; } }
    }

    lemma ScanLayout(scan: int)
      requires fixupsNext <= fixups.Length && ShownTo(scan)
      ensures CopiesOk(h, Fixups(), copies, Origin(), tospaceNext)
    {}

    lemma StillClear(fs: seq<Fixup>, cs: seq<Copy>, next: int, scan: int)
      requires fixupsNext <= fixups.Length && ShownTo(scan) && CopiesOk(h, fs, cs, Origin(), next) && cs <= copies
      requires scan <= next && (mode == ModeError ==> AllClear(h, cs, scan))
      ensures ClearTo(scan)
    {
      if mode == ModeError { ClearLater(h, fs, cs, next, Fixups(), copies, tospaceNext, Origin(), scan); }
    }

    /** The word at scan is no environment: the scan may pass it. */
    lemma PassedClear(scan: int)
      requires Valid() && ShownTo(scan) && ClearTo(scan) && tospaceStart <= scan < tospaceNext
      requires mode == ModeError ==> !IsEnvironment(memory[scan])
      requires scan == tospaceStart ==> !memory[scan].NmHeader?
      ensures ClearTo(scan + Width(memory[scan]))
    {
      hide Words, Content, Comes, WellFormed, SourceOk, FixupsOk;
      if mode == ModeError {
        if scan == tospaceStart {
          ClearRoot(h, Fixups(), copies, Origin(), tospaceNext);
        } else {
          var i, k :| At(h, copies, scan, i, k);
          assert Image(h, copies, Origin(), memory[..], scan, i, k);
          ClearStep(h, Fixups(), copies, Origin(), tospaceNext, scan, i, k);
        }
      }
    }

    /** The word at scan is met. */
    lemma WordMet(scan: int)
      requires Valid() && ShownTo(scan) && tospaceStart <= scan < tospaceNext
      requires scan == tospaceStart ==> memory[scan] == root
      ensures Meets(memory[scan])
    {
      hide Words, Content, Comes, CopiesOk, WellFormed, SourceOk, FixupsOk;
      if scan > tospaceStart {
        var i, k :| At(h, copies, scan, i, k);
        assert Image(h, copies, Origin(), memory[..], scan, i, k);
        assert MetAt(h, copies, memory[scan], i, k);
      }
    }

    /** The word at scan is replaced by its forwarded form. */
    method OverwriteScanned(scan: nat, r: Word)
      requires Valid() && tospaceStart <= scan < tospaceNext && Unscanned(scan)
      modifies memory
      ensures Valid() && Unscanned(scan + 1) && memory[..] == old(memory[..])[scan := r] && Copies() == old(Copies())
    {
      ghost var m := memory[..];
      SourceKept(h, m, Addresses(Fixups()), scan, r);
      memory[scan] := r;
      assert memory[..] == m[scan := r];
    }

    /** The whole dump: whether it succeeds or is given up, the heap is afterwards what it was.  On
        success tospace holds a copy of the graph, and every ephemeron in it has been counted once. */
    method Dump(top: Word) returns (status: Status)
      requires Valid() && Counted() && Fixups() == [] && copies == [] && tospaceNext == tospaceStart &&
        memory[..h.limit] == h.orig[..h.limit]
      requires OkWord(h, top) && !top.NmHeader?
      modifies this`fixups, this`fixupsNext, this`tospaceNext, this`copies, this`root, this`ephemeronCount, fixups,
        memory
      ensures memory[..h.limit] == old(memory[..h.limit])
      ensures fixupsNext <= fixups.Length && FixupsOk(h, Fixups()) && (status == Fine ==> Counted())
      ensures status == Fine ==> Dumped(h, Fixups(), copies, Origin(), memory[..], tospaceNext, top)
      ensures status == Fine && mode == ModeError ==> !IsEnvironment(top) && AllClear(h, copies, tospaceNext)
      ensures tospaceStart < memory.Length ==> root == top && Justified(status)
      ensures tospaceStart == memory.Length ==> status == ObjectTooLarge
    {
      hide Shown;
      if tospaceNext == memory.Length {
        status := ObjectTooLarge;
      } else {
        ghost var m := memory[..];
        SourceKept(h, m, Addresses(Fixups()), tospaceNext, top);
        root := top;
        memory[tospaceNext] := top;
        assert memory[..] == m[tospaceNext := top];
        tospaceNext := tospaceNext + 1;
        NothingShown(m[tospaceStart := top]);
        status := ScanTospace();
      }
      ghost var scanned := memory[..];
      RunFixups();
      if status == Fine {
        assert memory[h.limit..] == scanned[h.limit..];
        forall p | tospaceStart <= p < memory.Length ensures memory[p] == scanned[p] {
          assert memory[h.limit..][p - h.limit] == scanned[h.limit..][p - h.limit];
        }
        assert DumpedFrom(h, Fixups(), copies, Origin(), memory[..], tospaceNext, top, scanned);
      }
    }

    /** Behind the root there is no copy yet. */
    lemma NothingShown(m: seq<Word>)
      requires fixupsNext <= fixups.Length && Fixups() == [] && copies == [] && tospaceNext == tospaceStart + 1 &&
        h.limit <= tospaceStart && memory[..] == m
      ensures ShownTo(tospaceStart) && Traced() && ClearTo(tospaceStart)
    {}

    /** The word at scan is forwarded to r: the scan goes on. */
    lemma StepShown(scan: int, r: Word)
      requires Valid() && ShownTo(scan) && tospaceStart <= scan < tospaceNext && Forwards(memory[scan], r)
      requires scan == tospaceStart ==> !memory[scan].NmHeader?
      ensures Shown(h, Fixups(), copies, Origin(), memory[..][scan := r], scan + Width(memory[scan]), tospaceNext)
    {
      hide Words, Content, Comes, Images, CopiesOk, WellFormed, SourceOk, FixupsOk;
      if scan == tospaceStart {
        RootStep(h, Fixups(), copies, Origin(), memory[..], r, tospaceNext);
      } else {
        var i, k :| At(h, copies, scan, i, k);
        WordStep(h, Fixups(), copies, Origin(), memory[..], r, scan, tospaceNext, i, k);
      }
    }

    lemma ScanBounds(scan: int)
      requires fixupsNext <= fixups.Length && ShownTo(scan)
      ensures tospaceStart <= scan <= tospaceNext
    {}

    /** A broken heart leads to the copy. */
    lemma Known(w: Word, newAddress: int, scan: int)
      requires Valid() && ShownTo(scan) && w.Ptr? && 0 <= w.addr < memory.Length && w.addr in Addresses(Fixups()) &&
        memory[w.addr] == BrokenHeart(newAddress)
      ensures Forwards(w, Ptr(w.kind, newAddress))
    {
      var i :| 0 <= i < |Fixups()| && Fixups()[i].addr == w.addr;
      assert CopyOk(h, Fixups(), copies, Origin(), i) && HeartOk(copies, Origin(), memory[..], i);
      assert CopyOf(copies, w.addr, i);
    }

    /** The new copy belongs to the others. */
    lemma CopyShown(fs: seq<Fixup>, was: seq<Word>, from: int, kind: Kind, scan: int, next: nat)
      requires WellFormed(h) && fixupsNext <= fixups.Length && Shown(h, fs, copies, Origin(), was, scan, next) &&
        from in h.objs && Fits(h, kind, from)
      requires kind != Interned && kind != Uninterned && kind != VariableObject && from !in Addresses(fs)
      requires Fixups() == fs + [Fixup(from, Original(h, from))] && memory.Length == |was| == |h.orig|
      requires next <= tospaceNext == next + h.objs[from].size <= memory.Length
      requires 0 <= from < memory.Length && memory[from] == BrokenHeart(newspaceStart + (next - tospaceStart))
      requires forall p {:trigger memory[p]} :: 0 <= p < next && p != from ==> memory[p] == was[p]
      requires forall p {:trigger memory[p]} :: next <= p < tospaceNext ==> memory[p] == Original(h, from + (p - next))
      ensures Shown(h, Fixups(), copies + [Copy(from, kind, next)], Origin(), memory[..], scan, tospaceNext)
    {
      assert ObjOk(h, from);
      forall i | 0 <= i < |copies| ensures copies[i].addr != from {
        assert CopyOk(h, fs, copies, Origin(), i) && fs[i].addr in Addresses(fs);
      }
      hide Shown;
      CopyAdded(h, fs, Fixup(from, Original(h, from)), copies, Origin(), was, memory[..], scan, next, kind);
    }

    /** The last copy is that of a symbol or a variable, and its words have been reset. */
    lemma Relabel(was: seq<Word>, a: int, kind: Kind, scan: int)
      requires Valid() && Shown(h, Fixups(), copies, Origin(), was, scan, tospaceNext) && copies != [] &&
        Fits(h, kind, a)
      requires var c := copies[|copies| - 1];
        c.addr == a && scan <= c.at && 0 <= c.at && c.at + h.objs[a].size <= memory.Length == |was|
      requires forall p {:trigger memory[p]} :: 0 <= p < copies[|copies| - 1].at ==> memory[p] == was[p]
      requires forall k {:trigger Content(h, Copy(a, kind, 0))[k]} ::
        0 <= k < |Content(h, Copy(a, kind, 0))| && 0 <= copies[|copies| - 1].at + k < memory.Length ==>
        memory[copies[|copies| - 1].at + k] == Content(h, Copy(a, kind, 0))[k]
      ensures Shown(h, Fixups(), copies[|copies| - 1 := copies[|copies| - 1].(kind := kind)], Origin(), memory[..],
                    scan, tospaceNext)
    {
      var c := copies[|copies| - 1].(kind := kind);
      assert Content(h, c) == Content(h, Copy(a, kind, 0));
      ContentSize(h, c);
      assert tospaceNext <= |was|;
      hide Shown;
      Relabelled(h, Fixups(), copies, Origin(), was, memory[..], scan, tospaceNext, kind);
    }
  }
}
