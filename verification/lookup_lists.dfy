/** Facts about reference lists and about finding a binding. */
module LookupLists {
  import opened LookupState

  lemma {:induction false} NoEntry(al: seq<Entry>, sym: Symbol)
    requires !HasEntry(al, sym)
    ensures RefsOf(al, sym) == []
    ensures forall i :: 0 <= i < |al| ==> al[i].sym != sym
  {
    if al != [] {
      NoEntry(al[1..], sym);
      assert forall i :: 0 < i < |al| ==> al[i] == al[1..][i - 1];
    }
  }

  lemma {:induction false} EntryAt(al: seq<Entry>, i: nat)
    requires UniqueSyms(al) && i < |al|
    ensures RefsOf(al, al[i].sym) == al[i].refs && HasEntry(al, al[i].sym)
  {
    if i > 0 {
      assert al[0].sym != al[i].sym;
      UniqueTail(al);
      EntryAt(al[1..], i - 1);
    }
  }

  lemma UniqueTail(al: seq<Entry>)
    requires UniqueSyms(al) && al != []
    ensures UniqueSyms(al[1..])
  {
    forall i, j | 0 <= i < j < |al| - 1 ensures al[1..][i].sym != al[1..][j].sym {
      assert al[i + 1].sym != al[j + 1].sym;
    }
  }

  lemma {:induction false} Replaced(al: seq<Entry>, sym: Symbol, refs: seq<Ref>)
    requires HasEntry(al, sym)
    ensures var al' := ReplaceRefs(al, sym, refs);
      |al'| == |al| && (forall i :: 0 <= i < |al| ==> al'[i].sym == al[i].sym)
      && forall sym' :: RefsOf(al', sym') == if sym' == sym then refs else RefsOf(al, sym')
  {
    var al' := ReplaceRefs(al, sym, refs);
    if al[0].sym == sym {
      assert al'[1..] == al[1..];
    } else {
      Replaced(al[1..], sym, refs);
      assert al'[1..] == ReplaceRefs(al[1..], sym, refs);
      assert forall i :: 0 < i < |al| ==> al'[i] == al'[1..][i - 1] && al[i] == al[1..][i - 1];
    }
  }

  /** Replacing the references of one symbol. */
  lemma SetRefsIs(al: seq<Entry>, sym: Symbol, refs: seq<Ref>)
    requires UniqueSyms(al)
    ensures UniqueSyms(SetRefs(al, sym, refs)) && SetRefs(al, sym, refs) != []
    ensures forall sym' :: RefsOf(SetRefs(al, sym, refs), sym') == if sym' == sym then refs else RefsOf(al, sym')
  {
    var al' := SetRefs(al, sym, refs);
    if HasEntry(al, sym) {
      Replaced(al, sym, refs);
      forall i, j | 0 <= i < j < |al'| ensures al'[i].sym != al'[j].sym { assert al[i].sym != al[j].sym; }
    } else {
      NoEntry(al, sym);
      assert al'[1..] == al;
      forall i, j | 0 <= i < j < |al'| ensures al'[i].sym != al'[j].sym {
        assert al'[j] == al[j - 1];
        if i > 0 { assert al[i - 1].sym != al[j - 1].sym; }
      }
    }
  }

  lemma {:induction false} PrunedSyms(al: seq<Entry>, i: nat) returns (j: nat)
    requires i < |Pruned(al)|
    ensures j < |al| && Pruned(al)[i] == al[j] && i <= j
  {
    if al[0].refs != [] && i == 0 {
      j := 0;
    } else {
      j := PrunedSyms(al[1..], if al[0].refs != [] then i - 1 else i);
      j := j + 1;
    }
  }

  /** Dropping empty entries changes no reference. */
  lemma {:induction false} PrunedIs(al: seq<Entry>)
    requires UniqueSyms(al)
    ensures UniqueSyms(Pruned(al))
    ensures forall sym :: RefsOf(Pruned(al), sym) == RefsOf(al, sym)
    ensures al == [] ==> Pruned(al) == []
  {
    if al != [] {
      UniqueTail(al);
      PrunedIs(al[1..]);
      var t, p := Pruned(al[1..]), Pruned(al);
      forall sym ensures RefsOf(p, sym) == RefsOf(al, sym) {
        if al[0].refs != [] {
          assert p[1..] == t;
        } else if sym == al[0].sym {
          if HasEntry(al[1..], sym) {
            NotInTail(al);
          }
          NoEntry(al[1..], sym);
        }
      }
      if al[0].refs != [] {
        forall i, j | 0 <= i < j < |p| ensures p[i].sym != p[j].sym {
          assert p[j] == t[j - 1];
          if i == 0 {
            var k := PrunedSyms(al[1..], j - 1);
            assert al[0].sym != al[k + 1].sym;
          } else {
            assert t[i - 1].sym != t[j - 1].sym;
          }
        }
      }
    }
  }

  lemma {:induction false} HasIndex(al: seq<Entry>, sym: Symbol) returns (i: nat)
    requires HasEntry(al, sym)
    ensures i < |al| && al[i].sym == sym
  {
    if al[0].sym == sym {
      i := 0;
    } else {
      i := HasIndex(al[1..], sym);
      i := i + 1;
    }
  }

  lemma NotInTail(al: seq<Entry>)
    requires UniqueSyms(al) && al != []
    ensures !HasEntry(al[1..], al[0].sym)
  {
    assert forall j {:trigger al[1..][j]} :: 0 <= j < |al| - 1 ==>
      al[1..][j] == al[j + 1] && al[0].sym != al[j + 1].sym;
    if HasEntry(al[1..], al[0].sym) { var i := HasIndex(al[1..], al[0].sym); }
  }

  /** The references of a list are those of its symbols. */
  lemma {:induction false} AllRefsIn(al: seq<Entry>, r: Ref) returns (sym: Symbol)
    requires UniqueSyms(al) && r in AllRefs(al)
    ensures r in RefsOf(al, sym)
  {
    if r in al[0].refs {
      sym := al[0].sym;
    } else {
      UniqueTail(al);
      sym := AllRefsIn(al[1..], r);
      if sym == al[0].sym { NotInTail(al); NoEntry(al[1..], sym); }
    }
  }

  lemma {:induction false} RefsOfIn(al: seq<Entry>, sym: Symbol, r: Ref)
    requires r in RefsOf(al, sym)
    ensures r in AllRefs(al) && al != []
  {
    if al[0].sym != sym { RefsOfIn(al[1..], sym, r); }
  }

  // ---------------------------------------------------------------- finding

  /** The same parameters are unbound. */
  ghost predicate SameUnbound(s: State, s': State) {
    forall f, i {:trigger Get(s, ArgCell(f, i))} {:trigger Get(s', ArgCell(f, i))} ::
      (Get(s, ArgCell(f, i)) == Unbound) == (Get(s', ArgCell(f, i)) == Unbound)
  }

  lemma {:induction false} ScanSame(s: State, s': State, f: nat, params: seq<Symbol>, i: nat, sym: Symbol,
                                    findUnbound: bool)
    requires SameUnbound(s, s')
    ensures ScanParameters(s, f, params, i, sym, findUnbound) == ScanParameters(s', f, params, i, sym, findUnbound)
    decreases |params| - i
  {
    if i < |params| {
      ScanSame(s, s', f, params, i + 1, sym, findUnbound);
      assert (Get(s, ArgCell(f, i)) == Unbound) == (Get(s', ArgCell(f, i)) == Unbound);
    }
  }

  /** Finding a binding depends on the frames and on which parameters are unbound. */
  lemma {:induction false} FindSame(s: State, s': State, f: nat, sym: Symbol)
    requires s.frames == s'.frames && SameUnbound(s, s')
    ensures FindCell(s, f, sym) == FindCell(s', f, sym)
    decreases f
  {
    if IsFrame(s, f) {
      ScanSame(s, s', f, s.frames[f].params, 0, sym, false);
      FindSame(s, s', s.frames[f].parent, sym);
    }
  }

  lemma FindAllSame(s: State, s': State)
    requires s.frames == s'.frames && SameUnbound(s, s')
    ensures forall f, sym :: FindCell(s, f, sym) == FindCell(s', f, sym)
  {
    forall f, sym ensures FindCell(s, f, sym) == FindCell(s', f, sym) { FindSame(s, s', f, sym); }
  }

  lemma {:induction false} UnderSame(s: State, s': State, f: nat, a: nat)
    requires s.frames == s'.frames
    ensures Under(s, f, a) == Under(s', f, a)
    decreases f
  {
    if IsFrame(s, f) && f != a { UnderSame(s, s', s.frames[f].parent, a); }
  }

  /** Which frame a cell belongs to. */
  function FrameOf(cell: Cell): nat {
    match cell
    case GlobalCell(_) => 0
    case ArgCell(f, _) => f
    case ExtCell(f, _) => f
  }

  lemma {:induction false} ScanExtensionIn(f: nat, ext: seq<Binding>, sym: Symbol)
    ensures ScanExtension(f, ext, sym).None? <==> forall i :: 0 <= i < |ext| ==> ext[i].sym != sym
    ensures ScanExtension(f, ext, sym).Some? ==>
      ScanExtension(f, ext, sym).cell.ExtCell? && ScanExtension(f, ext, sym).cell.frame == f
      && exists i :: 0 <= i < |ext| && ext[i].sym == sym && ext[i].id == ScanExtension(f, ext, sym).cell.id
  {
    if ext != [] {
      ScanExtensionIn(f, ext[1..], sym);
      assert forall i :: 0 < i < |ext| ==> ext[i] == ext[1..][i - 1];
      if ext[0].sym != sym && ScanExtension(f, ext, sym).Some? {
        var i :| 0 <= i < |ext[1..]| && ext[1..][i].sym == sym && ext[1..][i].id == ScanExtension(f, ext, sym).cell.id;
        assert ext[i + 1].sym == sym;
      }
    }
  }

  lemma {:induction false} ScanParametersIn(s: State, f: nat, params: seq<Symbol>, i: nat, sym: Symbol,
                                            findUnbound: bool)
    ensures var found := ScanParameters(s, f, params, i, sym, findUnbound);
      if found.Some?
      then found.cell.ArgCell? && found.cell.frame == f && i <= found.cell.index < |params| &&
        params[found.cell.index] == sym
           && (findUnbound || Get(s, found.cell) != Unbound)
      else forall j :: i <= j < |params| && params[j] == sym ==> !findUnbound && Get(s, ArgCell(f, j)) == Unbound
    decreases |params| - i
  {
    if i < |params| { ScanParametersIn(s, f, params, i + 1, sym, findUnbound); }
  }

  /** The frame of the cell that is found encloses f. */
  lemma {:induction false} FoundFrame(s: State, f: nat, sym: Symbol)
    requires Sound(s) && f < |s.frames|
    ensures var cell := FindCell(s, f, sym);
      Under(s, f, FrameOf(cell)) && FrameOf(cell) < |s.frames|
      && (cell.GlobalCell? ==> cell.sym == sym)
      && (!cell.GlobalCell? ==> IsFrame(s, FrameOf(cell)) && ScanFrame(s, FrameOf(cell), sym, false) == Some(cell))
      && (cell.ArgCell? ==> Get(s, cell) != Unbound)
    decreases f
  {
    if IsFrame(s, f) {
      ScanExtensionIn(f, s.frames[f].ext, sym);
      ScanParametersIn(s, f, s.frames[f].params, 0, sym, false);
      if ScanFrame(s, f, sym, false).None? { FoundFrame(s, s.frames[f].parent, sym); }
    } else {
      assert f == 0;
    }
  }
}
