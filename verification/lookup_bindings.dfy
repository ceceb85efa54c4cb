/** Creating and removing bindings and references, and compiled code's view of a variable. */
module LookupBindings {
  import opened LookupState
  import opened LookupLists
  import opened LookupCaches
  import opened LookupMoves
  import opened LookupOperations

  /** A change of cells that leaves caches attached where they were. */
  lemma CellsChanged(s: State, s': State)
    requires Inv(s) && s' == s.(cells := s'.cells) && SameUnbound(s, s')
    requires forall cell, c {:trigger Attached(s, cell, c)} :: Attached(s, cell, c) <==> Attached(s', cell, c)
    requires forall cell {:trigger CellOk(s', cell)} :: !Get(s', cell).Expensive?
    ensures Inv(s')
  {
    FindAllSame(s, s');
    forall c | c in s.refs ensures CacheOk(s', c) { assert CacheOk(s, c); }
    forall f | 0 <= f < |s'.frames| ensures FrameOk(s', f) { assert FrameOk(s, f); }
    forall f | 0 < f < |s'.frames| ensures IsFrame(s', f) { assert IsFrame(s, f); }
    forall cell ensures CellOk(s', cell) {
      assert CellOk(s, cell);
      if Get(s', cell).Cached? {
        assert Attached(s', cell, Get(s', cell).cache) && Attached(s, cell, Get(s', cell).cache);
      }
    }
    forall a, b, d | Attached(s', a, d) && Attached(s', b, d) ensures a == b {
      assert Attached(s, a, d) && Attached(s, b, d);
    }
    forall c, k, sy, r | Listed(s', c, k, sy, r)
      ensures Attached(s', FindCell(s', RefEnv(s', r), sy), c) && SlotOk(s', c, k, r)
    {
      assert Listed(s, c, k, sy, r) && SlotOk(s, c, k, r);
      assert Attached(s, FindCell(s, RefEnv(s, r), sy), c);
    }
    forall c, k, sy, c', k', sy', r | Listed(s', c, k, sy, r) && Listed(s', c', k', sy', r)
      ensures c == c' && k == k' && sy == sy'
    {
      assert Listed(s, c, k, sy, r) && Listed(s, c', k', sy', r);
    }
    forall c ensures CloneOk(s', c) { assert CloneOk(s, c); }
  }

  /** A plain value written to a cell without a cache. */
  lemma PutKeeps(s: State, cell: Cell, v: Object)
    requires Inv(s) && !Get(s, cell).Cached? && !v.Cached? && !v.Expensive?
    requires cell.ArgCell? ==> Get(s, cell) != Unbound && v != Unbound
    ensures Inv(Put(s, cell, v))
  {
    var s' := Put(s, cell, v);
    forall f, i ensures (Get(s, ArgCell(f, i)) == Unbound) == (Get(s', ArgCell(f, i)) == Unbound) {}
    forall cell' ensures !Get(s', cell').Expensive? { assert CellOk(s, cell'); }
    CellsChanged(s, s');
  }

  lemma CacheValueSet(s: State, c: nat, v: Object)
    requires Inv(s) && c in s.refs && !v.Expensive? && !v.Cached?
    requires forall sym, r {:trigger Listed(s, c, Operators, sym, r)} :: !Listed(s, c, Operators, sym, r)
    ensures Inv(WithValue(s, c, v))
  {
    ValueChanged(s, c, v, {});
    SameListsAgree(s, WithValue(s, c, v));
  }

  lemma NoOperators(s: State, c: nat)
    requires ListOf(s, c, Operators) == []
    ensures forall sym, r {:trigger Listed(s, c, Operators, sym, r)} :: !Listed(s, c, Operators, sym, r)
  {}

  /** Assigning through a cache. */
  lemma AssignCacheKeeps(s: State, c: nat, v: Object, force: bool)
    requires Inv(s) && c in s.refs && Storable(v)
    ensures Inv(AssignCache(s, c, v, force).0)
  {
    if Assignable(ValueOf(s, c), force) {
      if ListOf(s, c, Operators) != [] {
        UuoLinksUpdated(s, c, v);
      } else {
        NoOperators(s, c);
        CacheValueSet(s, c, v);
      }
    }
  }

  /** assign_variable keeps compiled references consistent. */
  lemma AssignKeeps(s: State, cell: Cell, v: Object, force: bool)
    requires Inv(s) && Storable(v) && (cell.ArgCell? ==> Get(s, cell) != Unbound)
    ensures Inv(AssignEnd(s, cell, v, force).0)
  {
    assert CellOk(s, cell);
    if Get(s, cell).Cached? {
      AssignCacheKeeps(s, Get(s, cell).cache, v, force);
    } else if Assignable(Get(s, cell), force) {
      PutKeeps(s, cell, v);
    }
  }

  // ---------------------------------------------------------------- compiled references

  function AddToList(s: State, c: nat, kind: Kind, sym: Symbol, r: Ref): State {
    var al := ListOf(s, c, kind);
    WithList(s, c, kind, SetRefs(al, sym, RefsOf(al, sym) + [r]))
  }

  /** add_cache_reference: cache the variable for the place r of a block. */
  function AddCacheReference(s: State, env: nat, sym: Symbol, r: Ref, kind: Kind): State {
    var cell := FindCell(s, env, sym);
    var s1 := GuaranteeCache(s, cell);
    var c := AttachedTo(s1, cell);
    var s2 := UpdateClone(AddToList(s1, c, kind, sym, r), c);
    Write(s2, [r], Installed(s2, c, kind))
  }

  ghost predicate NotListed(s: State, r: Ref) {
    forall c, kind, sym {:trigger Listed(s, c, kind, sym, r)} :: !Listed(s, c, kind, sym, r)
  }

  lemma ReferenceAdded(s: State, c: nat, kind: Kind, sym: Symbol, r: Ref)
    requires Inv(s) && c in s.refs && NotListed(s, r) && Attached(s, FindCell(s, RefEnv(s, r), sym), c)
    ensures var s' := AddToList(s, c, kind, sym, r);
      && Sound(s') && OneOwner(s') && Agree(s') && AllLinked(s', {r}) && Cloned(s', {c}) && s'.refs.Keys == s.refs.Keys
      && s' == s.(refs := s'.refs) && Listed(s', c, kind, sym, r)
  {
    var al := ListOf(s, c, kind);
    var s' := AddToList(s, c, kind, sym, r);
    assert CacheOk(s, c);
    assert UniqueSyms(Alist(s.refs[c], kind));
    SetRefsIs(al, sym, RefsOf(al, sym) + [r]);
    WithListIs(s, c, kind, SetRefs(al, sym, RefsOf(al, sym) + [r]));
    AddedListed(s, s', c, kind, sym, r);
    FindAllSame(s, s');
    forall c' | c' in s.refs ensures CacheOk(s', c') {
      assert CacheOk(s, c');
      forall k ensures UniqueSyms(Alist(s'.refs[c'], k)) { assert UniqueSyms(Alist(s.refs[c'], k)); }
    }
    SoundCaches(s, s');
    forall c', k, sy, r' | Listed(s', c', k, sy, r') && r' !in {r} ensures SlotOk(s', c', k, r') {
      assert Listed(s, c', k, sy, r') && SlotOk(s, c', k, r');
    }
    forall c', k, sy, r' | Listed(s', c', k, sy, r') ensures Attached(s', FindCell(s', RefEnv(s', r'), sy), c') {
      assert Listed(s, c', k, sy, r') || r' == r;
      assert r' != r ==> Attached(s, FindCell(s, RefEnv(s, r'), sy), c');
    }
    forall a, k, sy, b, k', sy', r' | Listed(s', a, k, sy, r') && Listed(s', b, k', sy', r')
      ensures a == b && k == k' && sy == sy'
    {
      assert r' != r ==> Listed(s, a, k, sy, r') && Listed(s, b, k', sy', r');
    }
    forall c' | c' !in {c} ensures CloneOk(s', c') { assert CloneOk(s, c'); }
  }

  lemma AddedListed(s: State, s': State, c: nat, kind: Kind, sym: Symbol, r: Ref)
    requires c in s.refs && s' == AddToList(s, c, kind, sym, r) && NotListed(s, r) && UniqueSyms(ListOf(s, c, kind))
    ensures forall c', k, sy, r' {:trigger Listed(s', c', k, sy, r')} ::
      Listed(s', c', k, sy, r') <==> if r' == r then c' == c && k == kind && sy == sym else Listed(s, c', k, sy, r')
  {
    var al := ListOf(s, c, kind);
    SetRefsIs(al, sym, RefsOf(al, sym) + [r]);
    WithListIs(s, c, kind, SetRefs(al, sym, RefsOf(al, sym) + [r]));
    forall c', k, sy, r'
      ensures Listed(s', c', k, sy, r') <==>
        if r' == r then c' == c && k == kind && sy == sym else Listed(s, c', k, sy, r')
    {
      assert !Listed(s, c', k, sy, r);
      assert !Listed(s, c, kind, sy, r);
    }
  }

  lemma SlotInstalled(s: State, c: nat, kind: Kind, sym: Symbol, r: Ref)
    requires Sound(s) && OneOwner(s) && Agree(s) && AllLinked(s, {r}) && Cloned(s, {}) && Listed(s, c, kind, sym, r)
    ensures Inv(Write(s, [r], Installed(s, c, kind)))
  {
    var s' := Write(s, [r], Installed(s, c, kind));
    WriteIs(s, [r], Installed(s, c, kind));
    assert SameLists(s, s') by { assert forall c', k, sy, q :: Listed(s', c', k, sy, q) == Listed(s, c', k, sy, q); }
    SameListsAgree(s, s');
    SlotsSound(s, s');
    forall c', k, sy, q | Listed(s', c', k, sy, q) ensures SlotOk(s', c', k, q) {
      assert Listed(s, c', k, sy, q);
      assert q != r ==> SlotOk(s, c', k, q);
    }
  }

  /** There is a cache for the variable, and r is not in use. */
  lemma ReferenceReady(s: State, env: nat, sym: Symbol, r: Ref)
    requires Inv(s) && env < |s.frames| && RefEnv(s, r) == env && NotListed(s, r)
    ensures var cell := FindCell(s, env, sym); var s1 := GuaranteeCache(s, cell); var c := AttachedTo(s1, cell);
      Inv(s1) && c in s1.refs && NotListed(s1, r) && Attached(s1, FindCell(s1, RefEnv(s1, r), sym), c)
  {
    var cell := FindCell(s, env, sym);
    FoundFrame(s, env, sym);
    GuaranteedCache(s, cell);
    var s1 := GuaranteeCache(s, cell);
    FindAllSame(s, s1);
    ExtendsKeeps(s, s1);
    ExtendsAgrees(s, s1);
    hide Sound, OneOwner, Agree, Linked, Cloned;
    forall c, k, sy ensures !Listed(s1, c, k, sy, r) { assert !Listed(s, c, k, sy, r); }
  }

  /** Caching a variable for compiled code. */
  lemma AddReferenceKeeps(s: State, env: nat, sym: Symbol, r: Ref, kind: Kind)
    requires Inv(s) && env < |s.frames| && RefEnv(s, r) == env && NotListed(s, r)
    ensures Inv(AddCacheReference(s, env, sym, r, kind))
    ensures Listed(AddCacheReference(s, env, sym, r, kind),
                   AttachedTo(GuaranteeCache(s, FindCell(s, env, sym)), FindCell(s, env, sym)), kind, sym, r)
  {
    hide Sound, OneOwner, Agree, Linked, UpdateClone, Write, AddToList, Listed, GuaranteeCache, FindCell, NotListed;
    var cell := FindCell(s, env, sym);
    var s1 := GuaranteeCache(s, cell);
    var c := AttachedTo(s1, cell);
    ReferenceReady(s, env, sym, r);
    ReferenceAdded(s1, c, kind, sym, r);
    var s2 := AddToList(s1, c, kind, sym, r);
    UpdatedClone(s2, c, {r});
    var s3 := UpdateClone(s2, c);
    SameListsAgree(s2, s3);
    assert {} + {c} == {c};
    ClonedStays(s2, s3, c, {});
    assert Listed(s3, c, kind, sym, r);
    SlotInstalled(s3, c, kind, sym, r);
    ListedAfterWrite(s3, c, kind, sym, r);
  }

  lemma ListedAfterWrite(s: State, c: nat, kind: Kind, sym: Symbol, r: Ref)
    requires Listed(s, c, kind, sym, r)
    ensures Listed(Write(s, [r], Installed(s, c, kind)), c, kind, sym, r)
  {}

  lemma ExtendsAgrees(s: State, s1: State)
    requires Agree(s) && Extends(s, s1)
    ensures Agree(s1)
  {
    FindAllSame(s, s1);
    forall c, k, sy, r | Listed(s1, c, k, sy, r) ensures Attached(s1, FindCell(s1, RefEnv(s1, r), sy), c) {
      assert Listed(s, c, k, sy, r) && Attached(s, FindCell(s, RefEnv(s, r), sy), c);
    }
  }

  // ---------------------------------------------------------------- new bindings

  /** Add a binding to the extension of the frame env. */
  function Bind(s: State, env: nat, sym: Symbol, v: Object): State {
    if env < |s.frames| && s.frames[env].Procedure?
    then s.(frames := s.frames[env := s.frames[env].(ext := s.frames[env].ext + [Binding(sym, s.next)])],
            cells := s.cells[ExtCell(env, s.next) := v],
            next := s.next + 1)
    else s
  }

  /** Define a variable that the frame does not have yet, and move the references it captures. */
  function DefineNew(s: State, env: nat, sym: Symbol, v: Object): State {
    if IsFrame(s, env) then
      var shadowed := Get(s, FindCell(s, s.frames[env].parent, sym));
      var s1 := Bind(s, env, sym, v);
      if shadowed.Cached? then UpdateCacheReferences(s1, shadowed.cache, ExtCell(env, s.next), env, sym) else s1
    else s
  }

  /** define_variable. */
  function DefineVariable(s: State, env: nat, sym: Symbol, v: Object): (State, Status) {
    var found := ScanFrame(s, env, sym, true);
    if found.Some? then AssignEnd(s, found.cell, v, true) else (DefineNew(s, env, sym, v), Done)
  }

  lemma {:induction false} ScanAppended(f: nat, ext: seq<Binding>, b: Binding, sym: Symbol)
    ensures ScanExtension(f, ext + [b], sym) ==
      if ScanExtension(f, ext, sym).Some? then ScanExtension(f, ext, sym) else if b.sym == sym
        then Some(ExtCell(f, b.id)) else None
  {
    if ext != [] {
      assert (ext + [b])[1..] == ext[1..] + [b];
      ScanAppended(f, ext[1..], b, sym);
    } else {
      assert (ext + [b])[1..] == [];
    }
  }

  lemma {:induction false} UnderIsAbove(s: State, f: nat, a: nat)
    requires Under(s, f, a)
    ensures a <= f
    decreases f
  {
    if f != a { UnderIsAbove(s, s.frames[f].parent, a); }
  }

  /** Where variables are found after a new binding. */
  lemma {:induction false} FindAfterBind(s: State, env: nat, sym: Symbol, v: Object, f: nat, sy: Symbol)
    requires Sound(s) && IsFrame(s, env) && ScanFrame(s, env, sym, true).None? && f < |s.frames|
    ensures FindCell(Bind(s, env, sym, v), f, sy) ==
      if sy == sym && Under(s, f, env) && FindCell(s, f, sym) == FindCell(s, s.frames[env].parent, sym)
      then ExtCell(env, s.next) else FindCell(s, f, sy)
    decreases f
  {
    var s1 := Bind(s, env, sym, v);
    if IsFrame(s, f) {
      var p := s.frames[env].parent;
      FoundFrame(s, p, sym);
      FoundFrame(s, f, sym);
      UnderIsAbove(s, p, FrameOf(FindCell(s, p, sym)));
      assert SameUnbound(s, s1);
      ScanSame(s, s1, f, s.frames[f].params, 0, sy, false);
      if f == env {
        ScanAppended(f, s.frames[f].ext, Binding(sym, s.next), sy);
        ScanParametersIn(s, f, s.frames[f].params, 0, sym, true);
        ScanParametersIn(s, f, s.frames[f].params, 0, sym, false);
        if sy != sym { FindParent(s, env, sym, v, p, sy); }
      } else {
        FindAfterBind(s, env, sym, v, s.frames[f].parent, sy);
        if Under(s, f, env) { UnderIsAbove(s, s.frames[f].parent, env); }
        ScanExtensionIn(f, s.frames[f].ext, sym);
        ScanParametersIn(s, f, s.frames[f].params, 0, sym, false);
      }
    }
  }

  /** Frames outside env are not concerned. */
  lemma {:induction false} FindParent(s: State, env: nat, sym: Symbol, v: Object, f: nat, sy: Symbol)
    requires IsFrame(s, env) && f < env
    ensures FindCell(Bind(s, env, sym, v), f, sy) == FindCell(s, f, sy)
    decreases f
  {
    var s1 := Bind(s, env, sym, v);
    if IsFrame(s, f) {
      assert SameUnbound(s, s1);
      ScanSame(s, s1, f, s.frames[f].params, 0, sy, false);
      FindParent(s, env, sym, v, s.frames[f].parent, sy);
    }
  }

  lemma {:induction false} UnderFrames(s: State, s1: State, f: nat, a: nat)
    requires |s1.frames| == |s.frames|
    requires forall g :: 0 <= g < |s.frames| ==> s.frames[g].Procedure? == s1.frames[g].Procedure?
    requires forall g :: 0 <= g < |s.frames| && s.frames[g].Procedure? ==> s.frames[g].parent == s1.frames[g].parent
    ensures Under(s1, f, a) == Under(s, f, a)
    decreases f
  {
    if IsFrame(s, f) && f != a { UnderFrames(s, s1, s.frames[f].parent, a); }
  }

  lemma NoBinding(s: State, env: nat, sym: Symbol)
    requires IsFrame(s, env) && ScanFrame(s, env, sym, true).None?
    ensures forall i :: 0 <= i < |s.frames[env].ext| ==> s.frames[env].ext[i].sym != sym
    ensures forall i :: 0 <= i < |s.frames[env].params| ==> s.frames[env].params[i] != sym
  {
    ScanExtensionIn(env, s.frames[env].ext, sym);
    ScanParametersIn(s, env, s.frames[env].params, 0, sym, true);
  }

  /** The new binding leaves the data structures sound. */
  lemma BindSound(s: State, env: nat, sym: Symbol, v: Object)
    requires Sound(s) && IsFrame(s, env) && ScanFrame(s, env, sym, true).None? && Storable(v)
    ensures Sound(Bind(s, env, sym, v))
  {
    var s1 := Bind(s, env, sym, v);
    NoBinding(s, env, sym);
    assert FrameOk(s, env);
    forall f | 0 <= f < |s1.frames| ensures FrameOk(s1, f) {
      assert FrameOk(s, f);
      if f == env {
        var ext, ext' := s.frames[env].ext, s1.frames[env].ext;
        assert forall i :: 0 <= i < |ext'| ==> ext'[i] == if i < |ext| then ext[i] else Binding(sym, s.next);
      }
    }
    forall f | 0 < f < |s1.frames| ensures IsFrame(s1, f) { assert IsFrame(s, f); }
    forall c | c in s1.refs ensures CacheOk(s1, c) { assert CacheOk(s, c); }
    forall cell ensures CellOk(s1, cell) {
      assert CellOk(s, cell);
      assert Get(s1, cell).Cached? ==> CacheOk(s, Get(s1, cell).cache);
    }
    forall a, b, c | Attached(s1, a, c) && Attached(s1, b, c) ensures a == b {
      assert Attached(s, a, c) && Attached(s, b, c);
    }
  }

  /** What Bind does not touch. */
  lemma BindKeeps(s: State, env: nat, sym: Symbol, v: Object)
    requires OneOwner(s) && AllLinked(s, {}) && Cloned(s, {})
    ensures var s1 := Bind(s, env, sym, v); OneOwner(s1) && AllLinked(s1, {}) && Cloned(s1, {})
  {
    var s1 := Bind(s, env, sym, v);
    assert forall c, k, sy, r :: Listed(s1, c, k, sy, r) == Listed(s, c, k, sy, r);
    forall c, k, sy, r | Listed(s1, c, k, sy, r) ensures SlotOk(s1, c, k, r) {
      assert Listed(s, c, k, sy, r) && SlotOk(s, c, k, r);
    }
    forall c ensures CloneOk(s1, c) { assert CloneOk(s, c); }
    forall a, k, sy, b, k', sy', r | Listed(s1, a, k, sy, r) && Listed(s1, b, k', sy', r)
      ensures a == b && k == k' && sy == sy'
    {
      assert Listed(s, a, k, sy, r) && Listed(s, b, k', sy', r);
    }
  }

  /** After the new binding, just the references to the shadowed variable inside env are misplaced. */
  lemma BindAgrees(s: State, env: nat, sym: Symbol, v: Object, oldCache: nat)
    requires Inv(s) && IsFrame(s, env) && ScanFrame(s, env, sym, true).None? && Storable(v)
    requires var w := Get(s, FindCell(s, s.frames[env].parent, sym)); w.Cached? ==> w.cache == oldCache
    ensures var w := Get(s, FindCell(s, s.frames[env].parent, sym));
      if w.Cached? then AgreeBut(Bind(s, env, sym, v), oldCache, ExtCell(env, s.next), env, sym)
        else Agree(Bind(s, env, sym, v))
  {
    var s1 := Bind(s, env, sym, v);
    var shadowed := FindCell(s, s.frames[env].parent, sym);
    forall c, k, sy, r | Listed(s1, c, k, sy, r)
      ensures var e := RefEnv(s1, r);
        if c == oldCache && sy == sym && Under(s1, e, env) && Get(s, shadowed).Cached?
          then FindCell(s1, e, sym) == ExtCell(env, s.next)
        else Attached(s1, FindCell(s1, e, sy), c)
    {
      assert Listed(s, c, k, sy, r);
      var e := RefEnv(s, r);
      assert Attached(s, FindCell(s, e, sy), c);
      assert r.block in s.blockEnv ==> e < |s.frames|;
      FindAfterBind(s, env, sym, v, e, sy);
      UnderFrames(s, s1, e, env);
      assert Attached(s, shadowed, oldCache) || !Get(s, shadowed).Cached?;
      FreshCell(s, env, e, sy);
    }
  }

  /** A cell that is found is not the new one. */
  lemma FreshCell(s: State, env: nat, f: nat, sy: Symbol)
    requires Sound(s) && f < |s.frames|
    ensures FindCell(s, f, sy) != ExtCell(env, s.next)
  {
    FoundFrame(s, f, sy);
    var cell := FindCell(s, f, sy);
    if cell.ExtCell? {
      ScanExtensionIn(cell.frame, s.frames[cell.frame].ext, sy);
      ScanParametersIn(s, cell.frame, s.frames[cell.frame].params, 0, sy, false);
      assert FrameOk(s, cell.frame);
    }
  }

  /** Defining a new variable keeps compiled references where they belong. */
  lemma DefineNewKeeps(s: State, env: nat, sym: Symbol, v: Object)
    requires Inv(s) && IsFrame(s, env) && ScanFrame(s, env, sym, true).None? && Storable(v)
    ensures Inv(DefineNew(s, env, sym, v))
  {
    var shadowed := FindCell(s, s.frames[env].parent, sym);
    var w := Get(s, shadowed);
    var s1 := Bind(s, env, sym, v);
    BindSound(s, env, sym, v);
    BindKeeps(s, env, sym, v);
    BindAgrees(s, env, sym, v, if w.Cached? then w.cache else 0);
    assert CellOk(s, shadowed);
    hide Listed, Under, Linked, AgreeBut, Agree, OneOwner, Sound;
    if w.Cached? {
      UpdatedReferences(s1, w.cache, ExtCell(env, s.next), env, sym);
    }
  }

  /** define_variable; a parameter that has been unbound may not be defined again. */
  lemma DefineKeeps(s: State, env: nat, sym: Symbol, v: Object)
    requires Inv(s) && env < |s.frames| && Storable(v)
    requires var found := ScanFrame(s, env, sym, true);
      found.Some? && found.cell.ArgCell? ==> Get(s, found.cell) != Unbound
    ensures Inv(DefineVariable(s, env, sym, v).0)
  {
    var found := ScanFrame(s, env, sym, true);
    if found.Some? { AssignKeeps(s, found.cell, v, true); } else { DefineNewKeeps(s, env, sym, v); }
  }
}
