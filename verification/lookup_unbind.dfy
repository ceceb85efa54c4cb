/** Removing bindings. */
module LookupUnbind {
  import opened LookupState
  import opened LookupLists
  import opened LookupCaches
  import opened LookupMoves
  import opened LookupOperations
  import opened LookupBindings

  function IndexOf(ext: seq<Binding>, sym: Symbol): nat {
    if ext == [] || ext[0].sym == sym then 0 else 1 + IndexOf(ext[1..], sym)
  }

  /** Remove the binding of sym; the last binding takes its place. */
  function RemoveBinding(ext: seq<Binding>, sym: Symbol): seq<Binding> {
    var i := IndexOf(ext, sym);
    if i < |ext| then ext[i := ext[|ext| - 1]][..|ext| - 1] else ext
  }

  /** unbind_variable_1 for the cell that a variable was found in. */
  function Unbind1(s: State, cell: Cell, sym: Symbol): State {
    match cell
    case ExtCell(f, _) =>
      if f < |s.frames| && s.frames[f].Procedure?
      then s.(frames := s.frames[f := s.frames[f].(ext := RemoveBinding(s.frames[f].ext, sym))])
      else s
    case _ => Put(s, cell, Unbound)
  }

  /** unbind_variable.  The result says whether there was a binding. */
  function UnbindVariable(s: State, env: nat, sym: Symbol): (State, bool) {
    var cell := FindCell(s, env, sym);
    var v := Get(s, cell);
    if v.Cached? then
      if ValueOf(s, v.cache) == Unbound then (s, false)
      else if IsFrame(s, FrameOf(cell)) then (UnbindCached(s, cell, v.cache, sym), true)
      else (WithValue(s, v.cache, Unbound), true)
    else if v == Unbound then (s, false)
    else (Unbind1(s, cell, sym), true)
  }

  /** unbind_cached_variable: the references go to the binding that was shadowed. */
  function UnbindCached(s: State, cell: Cell, c: nat, sym: Symbol): State {
    var frame := FrameOf(cell);
    if IsFrame(s, frame)
    then UpdateCacheReferences(Unbind1(s, cell, sym), c, FindCell(s, s.frames[frame].parent, sym), frame, sym)
    else s
  }

  lemma {:induction false} IndexOfIs(ext: seq<Binding>, sym: Symbol)
    ensures IndexOf(ext, sym) <= |ext|
    ensures IndexOf(ext, sym) < |ext| ==> ext[IndexOf(ext, sym)].sym == sym
    ensures IndexOf(ext, sym) == |ext| ==> forall i :: 0 <= i < |ext| ==> ext[i].sym != sym
  {
    if ext != [] && ext[0].sym != sym {
      IndexOfIs(ext[1..], sym);
      assert forall i :: 0 < i < |ext| ==> ext[i] == ext[1..][i - 1];
    }
  }

  ghost predicate DistinctSyms(ext: seq<Binding>) {
    forall i, j :: 0 <= i < j < |ext| ==> ext[i].sym != ext[j].sym
  }

  lemma {:induction false} ScanUnique(f: nat, ext: seq<Binding>, i: nat)
    requires DistinctSyms(ext) && i < |ext|
    ensures ScanExtension(f, ext, ext[i].sym) == Some(ExtCell(f, ext[i].id))
  {
    if i > 0 {
      assert ext[0].sym != ext[i].sym;
      assert DistinctSyms(ext[1..]) by {
        forall a, b | 0 <= a < b < |ext| - 1 ensures ext[1..][a].sym != ext[1..][b].sym {
          assert ext[a + 1].sym != ext[b + 1].sym;
        }
      }
      ScanUnique(f, ext[1..], i - 1);
    }
  }

  /** Removing a binding does not change where the others are found. */
  lemma ScanRemoved(f: nat, ext: seq<Binding>, sym: Symbol, sy: Symbol)
    requires DistinctSyms(ext)
    ensures DistinctSyms(RemoveBinding(ext, sym))
    ensures ScanExtension(f, RemoveBinding(ext, sym), sy) == if sy == sym then None else ScanExtension(f, ext, sy)
  {
    var k := IndexOf(ext, sym);
    IndexOfIs(ext, sym);
    var ext' := RemoveBinding(ext, sym);
    ScanExtensionIn(f, ext, sy);
    ScanExtensionIn(f, ext', sy);
    if k < |ext| {
      assert forall i :: 0 <= i < |ext'| ==> ext'[i] == if i == k then ext[|ext| - 1] else ext[i];
      assert DistinctSyms(ext');
      if ScanExtension(f, ext, sy).Some? && sy != sym {
        var i :| 0 <= i < |ext| && ext[i].sym == sy;
        var j := if i == |ext| - 1 then k else i;
        assert ext'[j] == ext[i];
        ScanUnique(f, ext, i);
        ScanUnique(f, ext', j);
      }
    }
  }

  /** A cell belongs to one symbol. */
  lemma CellSymbol(s: State, f: nat, sym: Symbol, g: nat, sy: Symbol)
    requires Sound(s) && f < |s.frames| && g < |s.frames| && FindCell(s, f, sym) == FindCell(s, g, sy)
    ensures sym == sy
  {
    FoundFrame(s, f, sym);
    FoundFrame(s, g, sy);
    var cell := FindCell(s, f, sym);
    if !cell.GlobalCell? {
      var h := FrameOf(cell);
      assert FrameOk(s, h);
      ScanExtensionIn(h, s.frames[h].ext, sym);
      ScanExtensionIn(h, s.frames[h].ext, sy);
      ScanParametersIn(s, h, s.frames[h].params, 0, sym, false);
      ScanParametersIn(s, h, s.frames[h].params, 0, sy, false);
    }
  }

  /** The frame that holds the binding does not have it any more. */
  lemma ScanAfterUnbind(s: State, cell: Cell, sym: Symbol, sy: Symbol)
    requires Sound(s) && !cell.GlobalCell? && IsFrame(s, FrameOf(cell)) &&
      ScanFrame(s, FrameOf(cell), sym, false) == Some(cell)
    ensures ScanFrame(Unbind1(s, cell, sym), FrameOf(cell), sy, false) == if sy == sym then None
      else ScanFrame(s, FrameOf(cell), sy, false)
  {
    var f := FrameOf(cell);
    var s1 := Unbind1(s, cell, sym);
    var ext, params := s.frames[f].ext, s.frames[f].params;
    assert FrameOk(s, f);
    assert DistinctSyms(ext);
    ScanExtensionIn(f, ext, sym);
    ScanParametersIn(s, f, params, 0, sym, false);
    if cell.ExtCell? {
      ScanRemoved(f, ext, sym, sy);
      assert SameUnbound(s, s1);
      ScanSame(s, s1, f, params, 0, sy, false);
    } else {
      if sy != sym { UnboundParameter(s, s1, f, params, 0, sy, cell.index); }
      ScanParametersIn(s1, f, params, 0, sym, false);
    }
  }

  /** Unbinding parameter number k hides just that one. */
  lemma {:induction false} UnboundParameter(s: State, s1: State, f: nat, params: seq<Symbol>, i: nat, sy: Symbol,
                                            k: nat)
    requires s1 == Put(s, ArgCell(f, k), Unbound) && k < |params| && params[k] != sy
    ensures ScanParameters(s1, f, params, i, sy, false) == ScanParameters(s, f, params, i, sy, false)
    decreases |params| - i
  {
    if i < |params| { UnboundParameter(s, s1, f, params, i + 1, sy, k); }
  }

  /** Frames other than the one that held the binding. */
  lemma ScanElsewhere(s: State, cell: Cell, sym: Symbol, f: nat, sy: Symbol)
    requires f != FrameOf(cell)
    ensures ScanFrame(Unbind1(s, cell, sym), f, sy, false) == ScanFrame(s, f, sy, false)
  {
    var s1 := Unbind1(s, cell, sym);
    if IsFrame(s, f) { OtherParameters(s, s1, cell, f, s.frames[f].params, 0, sy, sym); }
  }

  lemma {:induction false} OtherParameters(s: State, s1: State, cell: Cell, f: nat, params: seq<Symbol>, i: nat,
                                           sy: Symbol, sym: Symbol)
    requires f != FrameOf(cell) && s1 == Unbind1(s, cell, sym)
    ensures ScanParameters(s1, f, params, i, sy, false) == ScanParameters(s, f, params, i, sy, false)
    decreases |params| - i
  {
    if i < |params| { OtherParameters(s, s1, cell, f, params, i + 1, sy, sym); }
  }

  /** Where variables are found after a binding has been removed. */
  lemma {:induction false} FindAfterUnbind(s: State, cell: Cell, sym: Symbol, f: nat, sy: Symbol)
    requires Sound(s) && f < |s.frames| && !cell.GlobalCell? && IsFrame(s, FrameOf(cell))
    requires ScanFrame(s, FrameOf(cell), sym, false) == Some(cell)
    ensures FindCell(Unbind1(s, cell, sym), f, sy) ==
      if FindCell(s, f, sy) == cell then FindCell(s, s.frames[FrameOf(cell)].parent, sym) else FindCell(s, f, sy)
    decreases f
  {
    if IsFrame(s, f) {
      var h := FrameOf(cell);
      FoundFrame(s, f, sy);
      var p := s.frames[f].parent;
      if f == h {
        ScanAfterUnbind(s, cell, sym, sy);
        FindAfterUnbind(s, cell, sym, p, sy);
        FoundFrame(s, p, sy);
        UnderIsAbove(s, p, FrameOf(FindCell(s, p, sy)));
        if ScanFrame(s, h, sy, false) == Some(cell) { HolderSymbol(s, cell, sym, sy); }
      } else {
        ScanElsewhere(s, cell, sym, f, sy);
        FindAfterUnbind(s, cell, sym, p, sy);
        ScanExtensionIn(f, s.frames[f].ext, sy);
        ScanParametersIn(s, f, s.frames[f].params, 0, sy, false);
      }
    }
  }

  lemma HolderSymbol(s: State, cell: Cell, sym: Symbol, sy: Symbol)
    requires Sound(s) && !cell.GlobalCell? && IsFrame(s, FrameOf(cell))
    requires ScanFrame(s, FrameOf(cell), sym, false) == Some(cell) &&
      ScanFrame(s, FrameOf(cell), sy, false) == Some(cell)
    ensures sym == sy
  {
    assert FindCell(s, FrameOf(cell), sym) == cell == FindCell(s, FrameOf(cell), sy);
    CellSymbol(s, FrameOf(cell), sym, FrameOf(cell), sy);
  }

  lemma UnbindSound(s: State, cell: Cell, sym: Symbol)
    requires Sound(s) && (!cell.GlobalCell? ==> IsFrame(s, FrameOf(cell)))
    ensures var s1 := Unbind1(s, cell, sym); Sound(s1) && |s1.frames| == |s.frames|
  {
    var s1 := Unbind1(s, cell, sym);
    forall f | 0 <= f < |s1.frames| ensures FrameOk(s1, f) {
      assert FrameOk(s, f);
      if cell.ExtCell? && f == cell.frame {
        var ext, ext' := s.frames[f].ext, s1.frames[f].ext;
        IndexOfIs(ext, sym);
        var k := IndexOf(ext, sym);
        assert k < |ext| ==> forall i :: 0 <= i < |ext'| ==> ext'[i] == if i == k then ext[|ext| - 1] else ext[i];
      }
    }
    forall f | 0 < f < |s1.frames| ensures IsFrame(s1, f) { assert IsFrame(s, f); }
    forall c | c in s1.refs ensures CacheOk(s1, c) { assert CacheOk(s, c); }
    forall cell' ensures CellOk(s1, cell') {
      assert CellOk(s, cell');
      assert Get(s1, cell').Cached? ==> CacheOk(s, Get(s1, cell').cache);
    }
    forall a, b, c | Attached(s1, a, c) && Attached(s1, b, c) ensures a == b {
      assert Attached(s, a, c) && Attached(s, b, c);
    }
  }

  lemma UnbindKeepsLists(s: State, cell: Cell, sym: Symbol)
    requires OneOwner(s) && AllLinked(s, {}) && Cloned(s, {})
    ensures var s1 := Unbind1(s, cell, sym); OneOwner(s1) && AllLinked(s1, {}) && Cloned(s1, {})
  {
    var s1 := Unbind1(s, cell, sym);
    assert forall c, k, sy, r :: Listed(s1, c, k, sy, r) == Listed(s, c, k, sy, r);
    forall c, k, sy, r | Listed(s1, c, k, sy, r) ensures SlotOk(s1, c, k, r) {
      assert Listed(s, c, k, sy, r) && SlotOk(s, c, k, r);
    }
    forall c ensures CloneOk(s1, c) { assert CloneOk(s, c); }
    forall a, k, sy, b, k', sy', r | Listed(s1, a, k, sy, r) && Listed(s1, b, k', sy', r)
      ensures a == b && k == k' && sy == sy'
    {
      assert Listed(s, a, k, sy, r) && Listed(s, b, k', sy', r);
    }
  }

  /** After unbinding, just the references to the variable are misplaced. */
  lemma UnbindAgrees(s: State, env: nat, sym: Symbol, c: nat)
    requires Inv(s) && env < |s.frames|
    requires var cell := FindCell(s, env, sym); IsFrame(s, FrameOf(cell)) && !cell.GlobalCell?
    requires var v := Get(s, FindCell(s, env, sym)); v.Cached? ==> v == Cached(c)
    ensures var cell := FindCell(s, env, sym); var s1 := Unbind1(s, cell, sym); var h := FrameOf(cell);
      if Get(s, cell).Cached? then AgreeBut(s1, c, FindCell(s, s.frames[h].parent, sym), h, sym) else Agree(s1)
  {
    var cell := FindCell(s, env, sym);
    var s1 := Unbind1(s, cell, sym);
    var h := FrameOf(cell);
    FoundFrame(s, env, sym);
    forall d, k, sy, r | Listed(s1, d, k, sy, r)
      ensures var e := RefEnv(s1, r);
        if d == c && sy == sym && Under(s1, e, h) && Get(s, cell).Cached?
          then FindCell(s1, e, sym) == FindCell(s, s.frames[h].parent, sym)
        else Attached(s1, FindCell(s1, e, sy), d)
    {
      assert Listed(s, d, k, sy, r);
      var e := RefEnv(s, r);
      assert Attached(s, FindCell(s, e, sy), d);
      assert r.block in s.blockEnv ==> e < |s.frames|;
      FindAfterUnbind(s, cell, sym, e, sy);
      FoundFrame(s, e, sy);
      UnderFrames(s, s1, e, h);
      if FindCell(s, e, sy) == cell { CellSymbol(s, env, sym, e, sy); }
      assert d == c && Get(s, cell).Cached? ==> Attached(s, cell, d);
    }
  }

  /** The binding that is shadowed is another one. */
  lemma ShadowedIsOther(s: State, env: nat, sym: Symbol)
    requires Sound(s) && env < |s.frames| && var cell := FindCell(s, env, sym);
      IsFrame(s, FrameOf(cell)) && !cell.GlobalCell?
    ensures var cell := FindCell(s, env, sym); var shadowed := FindCell(s, s.frames[FrameOf(cell)].parent, sym);
      && shadowed != cell && Get(Unbind1(s, cell, sym), shadowed) == Get(s, shadowed)
      && (shadowed.ArgCell? ==> Get(s, shadowed) != Unbound)
  {
    var cell := FindCell(s, env, sym);
    var p := s.frames[FrameOf(cell)].parent;
    FoundFrame(s, p, sym);
    UnderIsAbove(s, p, FrameOf(FindCell(s, p, sym)));
  }

  /** unbind_variable on a variable of a procedure frame. */
  lemma UnbindFrameKeeps(s: State, env: nat, sym: Symbol)
    requires Inv(s) && env < |s.frames| && var cell := FindCell(s, env, sym);
      IsFrame(s, FrameOf(cell)) && !cell.GlobalCell?
    ensures Inv(UnbindVariable(s, env, sym).0)
  {
    var cell := FindCell(s, env, sym);
    var v := Get(s, cell);
    FoundFrame(s, env, sym);
    var s1 := Unbind1(s, cell, sym);
    UnbindSound(s, cell, sym);
    UnbindKeepsLists(s, cell, sym);
    UnbindAgrees(s, env, sym, if v.Cached? then v.cache else 0);
    ShadowedIsOther(s, env, sym);
    assert CellOk(s, cell);
    var shadowed := FindCell(s, s.frames[FrameOf(cell)].parent, sym);
    assert v.Cached? ==> Attached(s, cell, v.cache) && (Attached(s, shadowed, v.cache) ==> shadowed == cell);
    hide Listed, Under, Linked, AgreeBut, Agree, OneOwner, Sound;
    if v.Cached? && ValueOf(s, v.cache) != Unbound {
      UpdatedReferences(s1, v.cache, shadowed, FrameOf(cell), sym);
    }
  }

  /** unbind_variable on a global variable keeps everything consistent just when no operator
      reference exists or nothing is unbound. */
  lemma UnbindGlobalKeeps(s: State, env: nat, sym: Symbol)
    requires Inv(s) && env < |s.frames| && FindCell(s, env, sym).GlobalCell?
    ensures var v := Get(s, FindCell(s, env, sym));
      Inv(UnbindVariable(s, env, sym).0) <==>
      (v.Cached? && ValueOf(s, v.cache) != Unbound ==>
        forall sy, r {:trigger Listed(s, v.cache, Operators, sy, r)} :: !Listed(s, v.cache, Operators, sy, r))
  {
    var cell := FindCell(s, env, sym);
    var v := Get(s, cell);
    assert CellOk(s, cell);
    FoundFrame(s, env, sym);
    assert !IsFrame(s, 0);
    if v.Cached? {
      if ValueOf(s, v.cache) != Unbound {
        var s1 := WithValue(s, v.cache, Unbound);
        if forall sy, r {:trigger Listed(s, v.cache, Operators, sy, r)} :: !Listed(s, v.cache, Operators, sy, r) {
          CacheValueSet(s, v.cache, Unbound);
        } else {
          var sy, r :| Listed(s, v.cache, Operators, sy, r);
          StaleLink(s, v.cache, sy, r);
        }
      }
    } else if v != Unbound {
      PutKeeps(s, cell, Unbound);
    }
  }

  /** An operator link still holds the old value. */
  lemma StaleLink(s: State, c: nat, sy: Symbol, r: Ref)
    requires Inv(s) && Listed(s, c, Operators, sy, r) && ValueOf(s, c) != Unbound
    ensures !Inv(WithValue(s, c, Unbound))
  {
    var s1 := WithValue(s, c, Unbound);
    assert SlotOk(s, c, Operators, r) && CacheOk(s, c);
    assert Listed(s1, c, Operators, sy, r);
    assert !SlotOk(s1, c, Operators, r);
  }
}
