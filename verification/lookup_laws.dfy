/** What the operations mean to a program: which binding a variable is, and what it holds afterwards. */
module LookupLaws {
  import opened LookupState
  import opened LookupLists
  import opened LookupCaches
  import opened LookupMoves
  import opened LookupOperations
  import opened LookupBindings
  import opened LookupUnbind
  import opened LookupRuns

  // ---------------------------------------------------------------- lookup

  /** A variable is bound in the extension of a frame, by a parameter that has not been unbound, or where
      the enclosing frame has it; what no frame binds is global. */
  lemma ScopeRule(s: State, f: nat, sym: Symbol)
    requires Sound(s) && f < |s.frames|
    ensures s.frames[f].Global? ==> FindCell(s, f, sym) == GlobalCell(sym)
    ensures s.frames[f].Procedure? ==> forall i ::
      0 <= i < |s.frames[f].ext| && s.frames[f].ext[i].sym == sym ==>
        FindCell(s, f, sym) == ExtCell(f, s.frames[f].ext[i].id)
    ensures s.frames[f].Procedure? ==> forall i ::
      0 <= i < |s.frames[f].params| && s.frames[f].params[i] == sym && Get(s, ArgCell(f, i)) != Unbound ==>
        FindCell(s, f, sym) == ArgCell(f, i)
    ensures s.frames[f].Procedure?
      && (forall i :: 0 <= i < |s.frames[f].ext| ==> s.frames[f].ext[i].sym != sym)
      && (forall i :: 0 <= i < |s.frames[f].params| && s.frames[f].params[i] == sym ==>
            Get(s, ArgCell(f, i)) == Unbound)
      ==> FindCell(s, f, sym) == FindCell(s, s.frames[f].parent, sym)
  {
    assert FrameOk(s, f) && (f > 0 ==> IsFrame(s, f));
    if f > 0 {
      ScanExtensionIn(f, s.frames[f].ext, sym);
      ScanParametersIn(s, f, s.frames[f].params, 0, sym, false);
    }
  }

  /** What lookup_variable answers: the content of the cell, or of the cache attached to it, and the error
      that it stands for. */
  lemma LookupRule(s: State, env: nat, sym: Symbol)
    requires Sound(s)
    ensures var (status, v) := LookupVariable(s, env, sym);
      && (FindCell(s, env, sym) !in s.cells ==> v == Unbound)
      && (FindCell(s, env, sym) in s.cells ==>
            var w := s.cells[FindCell(s, env, sym)];
            if w.Cached? then w.cache in s.caches && v == s.caches[w.cache].value else v == w)
      && (v.Plain? <==> status == Done) && (v.Unassigned? <==> status == ErrUnassigned)
      && (v.Unbound? <==> status == ErrUnbound) && (v.Macro? <==> status == ErrMacro) && status != ErrIllegalTrap
  {
    assert CellOk(s, FindCell(s, env, sym));
  }

  // ---------------------------------------------------------------- contents

  ghost predicate SameContents(s: State, s': State) {
    forall cell {:trigger Content(s', cell)} :: Content(s', cell) == Content(s, cell)
  }

  /** The caches that are attached have been allocated. */
  ghost predicate CachesBelow(s: State) {
    forall cell {:trigger Get(s, cell)} :: Get(s, cell).Cached? ==> Get(s, cell).cache < s.next
  }

  lemma SoundBelow(s: State)
    requires Sound(s)
    ensures CachesBelow(s)
  {
    forall cell ensures Get(s, cell).Cached? ==> Get(s, cell).cache < s.next { assert CellOk(s, cell); }
  }

  lemma ClonedContents(s: State, c: nat)
    requires CachesBelow(s)
    ensures var s' := UpdateClone(s, c);
      SameContents(s, s') && CachesBelow(s') && s'.frames == s.frames && s'.cells == s.cells
  {
    hide Alist;
    var s' := UpdateClone(s, c);
    CloneStays(s, c);
    ClonedValues(s, c);
    hide UpdateClone;
    forall cell
      ensures Content(s', cell) == Content(s, cell)
      ensures Get(s', cell).Cached? ==> Get(s', cell).cache < s'.next
    {
      assert Get(s', cell) == Get(s, cell);
    }
  }

  /** The values of the caches there are. */
  lemma ClonedValues(s: State, c: nat)
    ensures var s' := UpdateClone(s, c);
      s.next <= s'.next && forall k: nat :: k < s.next ==> ValueOf(s', k) == ValueOf(s, k)
  {
    hide UpdateAssignmentReferences, Alist;
    AssignmentsKeepNext(Recloned(s, c), c);
    AssignmentsKeepNext(WithClone(s, c, 0), c);
  }

  lemma AssignmentsKeepNext(s: State, c: nat)
    ensures var s' := UpdateAssignmentReferences(s, c); s'.caches == s.caches && s'.next == s.next
  {
    hide Pruned, AllRefs, Alist, WithAlist;
  }

  lemma GuaranteedContents(s: State, cell: Cell)
    requires CachesBelow(s)
    ensures var s' := GuaranteeCache(s, cell); SameContents(s, s') && CachesBelow(s') && s'.frames == s.frames
  {
    var s' := GuaranteeCache(s, cell);
    forall other
      ensures Content(s', other) == Content(s, other)
      ensures Get(s', other).Cached? ==> Get(s', other).cache < s'.next
    {
      assert Get(s', other) == if other == cell && !Get(s, cell).Cached? then Cached(s.next) else Get(s, other);
    }
  }

  lemma MovedContents(s: State, from: nat, to: nat, kind: Kind, env: nat, sym: Symbol)
    ensures var s' := MoveRefPairs(s, from, to, kind, env, sym); s' == s.(refs := s'.refs, slots := s'.slots)
  {
    hide Inside, Outside, SetRefs, RefsOf, HasEntry, Alist, WithAlist, Reversed, Installed, Write, Under, RefEnv;
    var moved := Inside(s, env, RefsOf(ListOf(s, from, kind), sym));
    WriteIs(Relisted(Unlisted(s, from, kind, env, sym), to, kind, moved, sym), moved, Installed(s, to, kind));
  }

  /** Moving references changes no value. */
  lemma UpdatedContents(s: State, from: nat, toCell: Cell, env: nat, sym: Symbol)
    requires CachesBelow(s)
    ensures var s' := UpdateCacheReferences(s, from, toCell, env, sym);
      && SameContents(s, s') && s'.frames == s.frames
      && (forall cell {:trigger Get(s', cell)} :: cell != toCell ==> Get(s', cell) == Get(s, cell))
      && (Get(s', toCell) == Unbound ==> Get(s, toCell) == Unbound)
  {
    hide MoveRefPairs, UpdateClone, CachesBelow, SameContents;
    var s1 := GuaranteeCache(s, toCell);
    var to := AttachedTo(s1, toCell);
    GuaranteedContents(s, toCell);
    MovedContents(s1, from, to, Lookups, env, sym);
    var s2 := MoveRefPairs(s1, from, to, Lookups, env, sym);
    MovedContents(s2, from, to, Assignments, env, sym);
    var s3 := MoveRefPairs(s2, from, to, Assignments, env, sym);
    MovedContents(s3, from, to, Operators, env, sym);
    var s4 := MoveRefPairs(s3, from, to, Operators, env, sym);
    SameCells(s1, s4);
    ClonedContents(s4, to);
    ClonedContents(UpdateClone(s4, to), from);
    ContentsTrans(s, s1, s4);
    ContentsTrans(s, s4, UpdateClone(s4, to));
    ContentsTrans(s, UpdateClone(s4, to), UpdateClone(UpdateClone(s4, to), from));
  }

  lemma SameCells(s: State, s': State)
    requires s' == s.(refs := s'.refs, slots := s'.slots) && CachesBelow(s)
    ensures SameContents(s, s') && CachesBelow(s')
  {
    assert forall cell :: Get(s', cell) == Get(s, cell);
  }

  lemma ContentsTrans(s: State, s1: State, s': State)
    requires SameContents(s, s1) && SameContents(s1, s')
    ensures SameContents(s, s')
  {
    forall cell ensures Content(s', cell) == Content(s, cell) { assert Content(s1, cell) == Content(s, cell); }
  }

  // ---------------------------------------------------------------- assignment

  /** s' is s with the cell holding v. */
  ghost predicate Stored(s: State, s': State, cell: Cell, v: Object) {
    && s'.frames == s.frames && s'.blockEnv == s.blockEnv
    && forall other {:trigger Content(s', other)} ::
       Content(s', other) == if other == cell then v else Content(s, other)
  }

  /** A new value for the cache of a cell changes the content of that cell only. */
  lemma ValueStored(s: State, cell: Cell, v: Object)
    requires Sound(s) && Get(s, cell).Cached?
    ensures Stored(s, WithValue(s, Get(s, cell).cache, v), cell, v)
  {
    var c := Get(s, cell).cache;
    var s' := WithValue(s, c, v);
    assert CellOk(s, cell);
    forall other ensures Content(s', other) == if other == cell then v else Content(s, other) {
      assert Get(s', other) == Get(s, other);
      assert Attached(s, cell, c) && (Attached(s, other, c) ==> other == cell);
    }
  }

  lemma LinksStored(s: State, cell: Cell, v: Object)
    requires Sound(s) && Get(s, cell).Cached?
    ensures Stored(s, UpdateUuoLinks(s, Get(s, cell).cache, v), cell, v)
  {
    hide Alist, WithAlist, Pruned, AllRefs, UpdateClone, Sound;
    var c := Get(s, cell).cache;
    var s0 := WithList(s, c, Operators, Pruned(ListOf(s, c, Operators)));
    var sv := WithValue(s, c, v);
    ValueStored(s, cell, v);
    SoundBelow(s);
    var s1 := WithValue(s0, c, v);
    assert s1 == sv.(refs := s1.refs);
    assert forall other :: Get(sv, other) == Get(s, other);
    SameCells(sv, s1);
    ClonedContents(s1, c);
    CloneStays(s1, c);
    var s2 := UpdateClone(s1, c);
    var s' := UpdateUuoLinks(s, c, v);
    assert s' == s2.(refs := s'.refs, slots := s'.slots);
    SameCells(s2, s');
    forall other ensures Content(s', other) == if other == cell then v else Content(s, other) {
      assert Content(s', other) == Content(s2, other) == Content(s1, other) == Content(sv, other);
    }
  }

  /** assign_variable_end stores exactly if the content can be replaced; otherwise nothing happens. */
  lemma EndStores(s: State, cell: Cell, v: Object, force: bool)
    requires Sound(s) && !v.Cached?
    ensures var ((s', status), w) := (AssignEnd(s, cell, v, force), Content(s, cell));
      && (status == Done <==> w.Plain? || w.Unassigned? || force)
      && (status == ErrUnbound <==> w.Unbound? && !force) && (status == ErrMacro <==> w.Macro? && !force)
      && if status == Done then Stored(s, s', cell, v) else s' == s
    ensures var s' := AssignEnd(s, cell, v, force).0;
      forall other {:trigger Get(s', other)} :: other != cell ==> Get(s', other) == Get(s, other)
    ensures var s' := AssignEnd(s, cell, v, force).0;
      Get(s', cell) == Unbound ==> Get(s, cell) == Unbound || v == Unbound
  {
    hide AssignCache, Sound, Stored, Content, Put, Get, Assignable, Reference;
    if Get(s, cell).Cached? {
      CacheStores(s, cell, v, force);
      GetSame(s, AssignEnd(s, cell, v, force).0);
    } else {
      CellStores(s, cell, v, force);
    }
  }

  lemma GetSame(s: State, s': State)
    requires s'.cells == s.cells
    ensures forall cell {:trigger Get(s', cell)} :: Get(s', cell) == Get(s, cell)
  {}

  /** A cell without a cache. */
  lemma CellStores(s: State, cell: Cell, v: Object, force: bool)
    requires Sound(s) && !v.Cached? && !Get(s, cell).Cached?
    ensures var ((s', status), w) := (AssignEnd(s, cell, v, force), Content(s, cell));
      && (status == Done <==> w.Plain? || w.Unassigned? || force)
      && (status == ErrUnbound <==> w.Unbound? && !force) && (status == ErrMacro <==> w.Macro? && !force)
      && if status == Done then Stored(s, s', cell, v) else s' == s
    ensures var s' := AssignEnd(s, cell, v, force).0;
      && (forall other {:trigger Get(s', other)} :: other != cell ==> Get(s', other) == Get(s, other))
      && (Get(s', cell) == Unbound ==> Get(s, cell) == Unbound || v == Unbound)
  {
    hide AssignCache, Sound;
    CellIsOk(s, cell);
  }

  lemma CellIsOk(s: State, cell: Cell)
    requires Sound(s)
    ensures CellOk(s, cell)
  {}

  /** assign_variable_cache. */
  lemma CacheStores(s: State, cell: Cell, v: Object, force: bool)
    requires Sound(s) && !v.Cached? && Get(s, cell).Cached?
    ensures var ((s', status), w) := (AssignCache(s, Get(s, cell).cache, v, force), Content(s, cell));
      && (status == Done <==> w.Plain? || w.Unassigned? || force)
      && (status == ErrUnbound <==> w.Unbound? && !force) && (status == ErrMacro <==> w.Macro? && !force)
      && (if status == Done then Stored(s, s', cell, v) else s' == s) && s'.cells == s.cells
  {
    CellIsOk(s, cell);
    hide Sound, UpdateUuoLinks, Alist, Stored;
    ValueStored(s, cell, v);
    LinksStored(s, cell, v);
    LinksKeepCells(s, Get(s, cell).cache, v);
  }

  lemma LinksKeepCells(s: State, c: nat, v: Object)
    ensures UpdateUuoLinks(s, c, v).cells == s.cells
  {
    hide Alist, WithAlist, Pruned, AllRefs, UpdateClone;
    CloneStays(WithValue(WithList(s, c, Operators, Pruned(ListOf(s, c, Operators))), c, v), c);
  }

  /** The value of a variable. */
  function ValueIn(s: State, f: nat, sym: Symbol): Object {
    LookupVariable(s, f, sym).1
  }

  /** In s' every variable is the binding it was in s, and holds v if that is the binding that sym is in
      env, and otherwise what it held. */
  ghost predicate Updated(s: State, s': State, env: nat, sym: Symbol, v: Object) {
    && s'.frames == s.frames && s'.blockEnv == s.blockEnv
    && (forall f, sy {:trigger FindCell(s', f, sy)} :: FindCell(s', f, sy) == FindCell(s, f, sy))
    && (forall f, sy {:trigger ValueIn(s', f, sy)} ::
          ValueIn(s', f, sy) == if FindCell(s, f, sy) == FindCell(s, env, sym) then v else ValueIn(s, f, sy))
  }

  /** A variable that has a value or is unassigned gets the value; an unbound variable and a macro are errors
      that leave everything as it was. */
  ghost predicate Assigns(s: State, s': State, status: Status, env: nat, sym: Symbol, v: Object) {
    var w := ValueIn(s, env, sym);
    && (status == Done <==> w.Plain? || w.Unassigned?)
    && (status == ErrUnbound <==> w.Unbound?) && (status == ErrMacro <==> w.Macro?)
    && (status == Done ==> ValueIn(s', env, sym) == v)
    && if status == Done then Updated(s, s', env, sym, v) else s' == s
  }

  /** assign_variable. */
  lemma AssignLaw(s: State, env: nat, sym: Symbol, v: Object)
    requires Sound(s) && env < |s.frames| && Storable(v)
    ensures var (s', status) := AssignVariable(s, env, sym, v); Assigns(s, s', status, env, sym, v)
  {
    var cell := FindCell(s, env, sym);
    FoundFrame(s, env, sym);
    EndStores(s, cell, v, false);
    var (s', status) := AssignVariable(s, env, sym, v);
    hide Sound, AssignEnd;
    forall f, i ensures (Get(s, ArgCell(f, i)) == Unbound) == (Get(s', ArgCell(f, i)) == Unbound) {
      assert ArgCell(f, i) != cell ==> Get(s', ArgCell(f, i)) == Get(s, ArgCell(f, i));
    }
    if status == Done {
      FindAllSame(s, s');
      forall f, sy
        ensures ValueIn(s', f, sy) == if FindCell(s, f, sy) == cell then v else ValueIn(s, f, sy)
      {
        assert FindCell(s', f, sy) == FindCell(s, f, sy);
      }
    }
  }

  // ---------------------------------------------------------------- definition

  /** The frames are the same but for the bindings in their extensions. */
  ghost predicate SameTree(s: State, s': State) {
    && s'.blockEnv == s.blockEnv && |s'.frames| == |s.frames|
    && forall f {:trigger s'.frames[f]} :: 0 <= f < |s.frames| ==>
         if s.frames[f].Procedure? then s'.frames[f].Procedure? && s'.frames[f].parent == s.frames[f].parent
         else s'.frames[f] == s.frames[f]
  }

  /** In the frame f the symbol sy is sym, and f is env or inside it, with no other binding in between. */
  ghost predicate Sees(s: State, env: nat, sym: Symbol, f: nat, sy: Symbol) {
    sy == sym && Under(s, f, env) && FindCell(s, f, sym) == FindCell(s, env, sym)
  }

  /** In s' the variable sy of f is the one that env binds, and holds v, if f sees the definition; otherwise
      it is another one, the same as in s, and holds what it held. */
  ghost predicate DefinedFor(s: State, s': State, env: nat, sym: Symbol, v: Object, f: nat, sy: Symbol) {
    if Sees(s, env, sym, f, sy)
    then FindCell(s', f, sy) == FindCell(s', env, sym) && ValueIn(s', f, sy) == v
    else FindCell(s', env, sym) != FindCell(s', f, sy) == FindCell(s, f, sy) && ValueIn(s', f, sy) == ValueIn(s, f, sy)
  }

  /** In s' the frame env itself binds sym. */
  ghost predicate DefinedIn(s: State, s': State, env: nat, sym: Symbol, v: Object) {
    && SameTree(s, s') && FrameOf(FindCell(s', env, sym)) == env
    && forall f, sy {:trigger DefinedFor(s, s', env, sym, v, f, sy)} :: 0 <= f < |s.frames| ==>
         DefinedFor(s, s', env, sym, v, f, sy)
  }

  /** The variable is one that env binds already. */
  lemma DefineBound(s: State, env: nat, sym: Symbol, v: Object)
    requires Sound(s) && env < |s.frames| && Storable(v) && ScanFrame(s, env, sym, false).Some?
    ensures var (s', status) := DefineVariable(s, env, sym, v); status == Done && DefinedIn(s, s', env, sym, v)
  {
    var cell := FindCell(s, env, sym);
    FoundFrame(s, env, sym);
    FoundInFrame(s, env, sym);
    EndStores(s, cell, v, true);
    var (s', status) := AssignEnd(s, cell, v, true);
    forall f, i ensures (Get(s, ArgCell(f, i)) == Unbound) == (Get(s', ArgCell(f, i)) == Unbound) {
      assert ArgCell(f, i) != cell ==> Get(s', ArgCell(f, i)) == Get(s, ArgCell(f, i));
    }
    FindAllSame(s, s');
    forall f, sy | 0 <= f < |s.frames| ensures DefinedFor(s, s', env, sym, v, f, sy) {
      FoundFrame(s, f, sy);
      if FindCell(s, f, sy) == cell { CellSymbol(s, f, sy, env, sym); }
    }
  }

  /** A frame that binds the symbol holds the cell that is found, whether or not unbound parameters count. */
  lemma FoundInFrame(s: State, env: nat, sym: Symbol)
    requires Sound(s) && env < |s.frames| && ScanFrame(s, env, sym, false).Some?
    ensures ScanFrame(s, env, sym, true) == Some(FindCell(s, env, sym)) && FrameOf(FindCell(s, env, sym)) == env
  {
    assert FrameOk(s, env) && (env > 0 ==> IsFrame(s, env));
    if env > 0 {
      ScanExtensionIn(env, s.frames[env].ext, sym);
      ScanParametersIn(s, env, s.frames[env].params, 0, sym, false);
      ScanParametersIn(s, env, s.frames[env].params, 0, sym, true);
    }
  }

  /** The variable is a parameter that has been unbound. */
  lemma DefineRebound(s: State, env: nat, sym: Symbol, v: Object)
    requires Sound(s) && env < |s.frames| && Storable(v)
    requires ScanFrame(s, env, sym, false).None? && ScanFrame(s, env, sym, true).Some?
    ensures var (s', status) := DefineVariable(s, env, sym, v); status == Done && DefinedIn(s, s', env, sym, v)
  {
    assert IsFrame(s, env);
    ScanExtensionIn(env, s.frames[env].ext, sym);
    ScanParametersIn(s, env, s.frames[env].params, 0, sym, false);
    ScanParametersIn(s, env, s.frames[env].params, 0, sym, true);
    var cell := ScanFrame(s, env, sym, true).cell;
    var s' := Put(s, cell, v);
    assert DefineVariable(s, env, sym, v) == (s', Done);
    assert FindCell(s, env, sym) == FindCell(s, s.frames[env].parent, sym);
    FindAfterRebind(s, env, cell.index, v, env, sym);
    forall f, sy | 0 <= f < |s.frames| ensures DefinedFor(s, s', env, sym, v, f, sy) {
      FindAfterRebind(s, env, cell.index, v, f, sy);
      FoundFrame(s, f, sy);
    }
  }

  /** The variable is new in env. */
  lemma DefineFresh(s: State, env: nat, sym: Symbol, v: Object)
    requires Sound(s) && env < |s.frames| && Storable(v) && ScanFrame(s, env, sym, true).None?
    ensures var (s', status) := DefineVariable(s, env, sym, v); status == Done && DefinedIn(s, s', env, sym, v)
  {
    assert IsFrame(s, env);
    NoBinding(s, env, sym);
    ScanExtensionIn(env, s.frames[env].ext, sym);
    ScanParametersIn(s, env, s.frames[env].params, 0, sym, false);
    assert FindCell(s, env, sym) == FindCell(s, s.frames[env].parent, sym);
    FreshContents(s, env, sym, v);
    var s', s1 := DefineNew(s, env, sym, v), Bind(s, env, sym, v);
    hide DefineNew, Sound, ScanFrame, FindCell, Content, Get, Bind;
    FindAllSame(s1, s');
    FindAfterBind(s, env, sym, v, env, sym);
    forall f, sy | 0 <= f < |s.frames| ensures DefinedFor(s, s', env, sym, v, f, sy) {
      FindAfterBind(s, env, sym, v, f, sy);
      FreshCell(s, env, f, sy);
    }
  }

  /** What the cells hold after a new binding, with or without moved references. */
  lemma FreshContents(s: State, env: nat, sym: Symbol, v: Object)
    requires Sound(s) && IsFrame(s, env) && ScanFrame(s, env, sym, true).None? && Storable(v)
    ensures var (s', s1) := (DefineNew(s, env, sym, v), Bind(s, env, sym, v));
      && s'.frames == s1.frames && SameTree(s, s') && SameUnbound(s1, s')
      && forall other {:trigger Content(s', other)} ::
           Content(s', other) == if other == ExtCell(env, s.next) then v else Content(s, other)
  {
    var cell, s1 := ExtCell(env, s.next), Bind(s, env, sym, v);
    var shadowed := Get(s, FindCell(s, s.frames[env].parent, sym));
    BindSound(s, env, sym, v);
    SoundBelow(s1);
    UpdatedBlocks(s1, shadowed, cell, env, sym);
    hide UpdateCacheReferences, Sound, ScanFrame, FindCell;
    if shadowed.Cached? { UpdatedContents(s1, shadowed.cache, cell, env, sym); }
    var s' := DefineNew(s, env, sym, v);
    forall f, i ensures (Get(s1, ArgCell(f, i)) == Unbound) == (Get(s', ArgCell(f, i)) == Unbound) {
      assert Get(s', ArgCell(f, i)) == Get(s1, ArgCell(f, i));
    }
    forall other ensures Content(s', other) == if other == cell then v else Content(s, other) {
      assert Content(s', other) == Content(s1, other);
      assert Get(s1, other) == if other == cell then v else Get(s, other);
    }
  }

  lemma UpdatedBlocks(s: State, shadowed: Object, toCell: Cell, env: nat, sym: Symbol)
    ensures shadowed.Cached? ==> UpdateCacheReferences(s, shadowed.cache, toCell, env, sym).blockEnv == s.blockEnv
  {
    hide MoveRefPairs, UpdateClone;
    if shadowed.Cached? {
      var from := shadowed.cache;
      var s1 := GuaranteeCache(s, toCell);
      var to := AttachedTo(s1, toCell);
      MovedContents(s1, from, to, Lookups, env, sym);
      var s2 := MoveRefPairs(s1, from, to, Lookups, env, sym);
      MovedContents(s2, from, to, Assignments, env, sym);
      var s3 := MoveRefPairs(s2, from, to, Assignments, env, sym);
      MovedContents(s3, from, to, Operators, env, sym);
      var s4 := MoveRefPairs(s3, from, to, Operators, env, sym);
      CloneStays(s4, to);
      CloneStays(UpdateClone(s4, to), from);
    }
  }

  /** A definition always succeeds: afterwards the frame itself binds the variable, with the value; the frames
      inside that had the same variable see it, and no other variable changes. */
  ghost predicate Defines(s: State, s': State, status: Status, env: nat, sym: Symbol, v: Object) {
    status == Done && DefinedIn(s, s', env, sym, v) && ValueIn(s', env, sym) == v
  }

  /** define_variable. */
  lemma DefineLaw(s: State, env: nat, sym: Symbol, v: Object)
    requires Sound(s) && env < |s.frames| && Storable(v)
    ensures var (s', status) := DefineVariable(s, env, sym, v); Defines(s, s', status, env, sym, v)
  {
    var s' := DefineVariable(s, env, sym, v).0;
    if ScanFrame(s, env, sym, false).Some? { DefineBound(s, env, sym, v); }
    else if ScanFrame(s, env, sym, true).Some? { DefineRebound(s, env, sym, v); }
    else { DefineFresh(s, env, sym, v); }
    assert DefinedFor(s, s', env, sym, v, env, sym);
  }

  // ---------------------------------------------------------------- removal

  /** In s' the variable sy of f is what the binding had shadowed if it was that binding, or unbound if it
      was global; any other variable is the same and holds what it held. */
  ghost predicate RemovedFor(s: State, s': State, env: nat, sym: Symbol, f: nat, sy: Symbol)
    requires env < |s.frames|
  {
    var cell := FindCell(s, env, sym);
    if FindCell(s, f, sy) != cell then FindCell(s', f, sy) == FindCell(s, f, sy) &&
      ValueIn(s', f, sy) == ValueIn(s, f, sy)
    else if cell.GlobalCell? then FindCell(s', f, sy) == cell && ValueIn(s', f, sy) == Unbound
    else
      && IsFrame(s, cell.frame)
      && FindCell(s', f, sy) == FindCell(s, s.frames[cell.frame].parent, sym)
      && ValueIn(s', f, sy) == ValueIn(s, s.frames[cell.frame].parent, sym)
  }

  ghost predicate RemovedIn(s: State, s': State, env: nat, sym: Symbol)
    requires env < |s.frames|
  {
    && SameTree(s, s')
    && forall f, sy {:trigger RemovedFor(s, s', env, sym, f, sy)} :: 0 <= f < |s.frames| ==>
         RemovedFor(s, s', env, sym, f, sy)
  }

  lemma RemoveGlobal(s: State, env: nat, sym: Symbol)
    requires Sound(s) && env < |s.frames| && FindCell(s, env, sym).GlobalCell? && ValueIn(s, env, sym) != Unbound
    ensures UnbindVariable(s, env, sym).1 && RemovedIn(s, UnbindVariable(s, env, sym).0, env, sym)
  {
    var cell := FindCell(s, env, sym);
    var s' := UnbindVariable(s, env, sym).0;
    FoundFrame(s, env, sym);
    if Get(s, cell).Cached? { ValueStored(s, cell, Unbound); }
    assert SameUnbound(s, s');
    FindAllSame(s, s');
    forall f, sy | 0 <= f < |s.frames| ensures RemovedFor(s, s', env, sym, f, sy) {
      assert Content(s', FindCell(s', f, sy)) == if FindCell(s, f, sy) == cell then Unbound else ValueIn(s, f, sy);
    }
  }

  lemma RemoveLocal(s: State, env: nat, sym: Symbol)
    requires Sound(s) && env < |s.frames| && !FindCell(s, env, sym).GlobalCell? && ValueIn(s, env, sym) != Unbound
    ensures UnbindVariable(s, env, sym).1 && RemovedIn(s, UnbindVariable(s, env, sym).0, env, sym)
  {
    var cell := FindCell(s, env, sym);
    FoundFrame(s, env, sym);
    var h := FrameOf(cell);
    var s1 := Unbind1(s, cell, sym);
    var shadowed := FindCell(s, s.frames[h].parent, sym);
    ShadowedIsOther(s, env, sym);
    UnbindSound(s, cell, sym);
    SoundBelow(s1);
    var w := Get(s, cell);
    if w.Cached? {
      UpdatedContents(s1, w.cache, shadowed, h, sym);
      UpdatedBlocks(s1, w, shadowed, h, sym);
    }
    var s' := UnbindVariable(s, env, sym).0;
    hide UpdateCacheReferences, Sound, Unbind1;
    forall f, i ensures (Get(s1, ArgCell(f, i)) == Unbound) == (Get(s', ArgCell(f, i)) == Unbound) {
      assert ArgCell(f, i) != shadowed ==> Get(s', ArgCell(f, i)) == Get(s1, ArgCell(f, i));
    }
    FindAllSame(s1, s');
    UnboundContents(s, cell, sym);
    forall f, sy | 0 <= f < |s.frames| ensures RemovedFor(s, s', env, sym, f, sy) {
      FindAfterUnbind(s, cell, sym, f, sy);
      assert Content(s', FindCell(s', f, sy)) == Content(s1, FindCell(s1, f, sy));
    }
  }

  /** Removing a binding leaves the other cells alone. */
  lemma UnboundContents(s: State, cell: Cell, sym: Symbol)
    ensures SameTree(s, Unbind1(s, cell, sym))
    ensures var s1 := Unbind1(s, cell, sym);
      forall other {:trigger Content(s1, other)} :: other != cell ==> Content(s1, other) == Content(s, other)
  {
    var s1 := Unbind1(s, cell, sym);
    forall other | other != cell ensures Content(s1, other) == Content(s, other) {
      assert Get(s1, other) == Get(s, other);
    }
  }

  /** A variable that is bound becomes the one that it shadowed, or unbound if it is global; nothing else
      changes. */
  ghost predicate Unbinds(s: State, s': State, bound: bool, env: nat, sym: Symbol)
    requires env < |s.frames|
  {
    && (bound <==> !ValueIn(s, env, sym).Unbound?)
    && if bound then RemovedIn(s, s', env, sym) else s' == s
  }

  /** unbind_variable. */
  lemma UnbindLaw(s: State, env: nat, sym: Symbol)
    requires Sound(s) && env < |s.frames|
    ensures var (s', bound) := UnbindVariable(s, env, sym); Unbinds(s, s', bound, env, sym)
  {
    if ValueIn(s, env, sym) != Unbound {
      if FindCell(s, env, sym).GlobalCell? { RemoveGlobal(s, env, sym); } else { RemoveLocal(s, env, sym); }
    }
  }

  // ---------------------------------------------------------------- frames

  /** The last frame of s' is new: it gives every parameter its argument and sees what its parent sees; the
      others see what they saw. */
  ghost predicate Entered(s: State, s': State, parent: nat, params: seq<Symbol>, args: seq<Object>)
    requires |params| <= |args|
  {
    var n := |s.frames|;
    && |s'.frames| == n + 1 && s'.blockEnv == s.blockEnv
    && s'.frames[n].Procedure? && s'.frames[n].parent == parent && s'.frames[..n] == s.frames
    && (forall i :: 0 <= i < |params| ==>
          FindCell(s', n, params[i]) == ArgCell(n, i) && ValueIn(s', n, params[i]) == args[i])
    && (forall sy {:trigger ValueIn(s', n, sy)} :: sy !in params ==>
          FindCell(s', n, sy) == FindCell(s, parent, sy) && ValueIn(s', n, sy) == ValueIn(s, parent, sy))
    && (forall f, sy {:trigger ValueIn(s', f, sy)} :: 0 <= f < n ==>
          FindCell(s', f, sy) == FindCell(s, f, sy) && ValueIn(s', f, sy) == ValueIn(s, f, sy))
  }

  lemma FrameLaw(s: State, parent: nat, params: seq<Symbol>, args: seq<Object>)
    requires Sound(s) && FrameAllowed(s, parent, params, args)
    ensures Entered(s, MakeFrame(s, parent, params, args), parent, params, args)
  {
    var s', n := MakeFrame(s, parent, params, args), |s.frames|;
    forall f, sy | 0 <= f < n
      ensures FindCell(s', f, sy) == FindCell(s, f, sy) && ValueIn(s', f, sy) == ValueIn(s, f, sy)
    {
      FindInOldFrame(s, parent, params, args, f, sy);
      FoundFrame(s, f, sy);
    }
    assert IsFrame(s', n);
    forall i | 0 <= i < |params|
      ensures FindCell(s', n, params[i]) == ArgCell(n, i) && ValueIn(s', n, params[i]) == args[i]
    {
      ScanParametersIn(s', n, params, 0, params[i], false);
      assert Get(s', ArgCell(n, i)) == args[i];
    }
    forall sy | sy !in params
      ensures FindCell(s', n, sy) == FindCell(s, parent, sy) && ValueIn(s', n, sy) == ValueIn(s, parent, sy)
    {
      ScanParametersIn(s', n, params, 0, sy, false);
    }
  }

  // ---------------------------------------------------------------- compiled code

  /** Every variable is the binding it was, and holds what it held. */
  ghost predicate SameValues(s: State, s': State) {
    && s'.frames == s.frames
    && forall f, sy {:trigger ValueIn(s', f, sy)} :: 0 <= f < |s.frames| ==>
         FindCell(s', f, sy) == FindCell(s, f, sy) && ValueIn(s', f, sy) == ValueIn(s, f, sy)
  }

  /** Caching a variable for compiled code changes no variable. */
  lemma CacheLaw(s: State, env: nat, sym: Symbol, r: Ref, kind: Kind)
    requires Sound(s) && env < |s.frames|
    ensures var s' := AddCacheReference(s, env, sym, r, kind); SameValues(s, s') && s'.blockEnv == s.blockEnv
  {
    var cell := FindCell(s, env, sym);
    FoundFrame(s, env, sym);
    SoundBelow(s);
    GuaranteedExtends(s, cell);
    GuaranteedContents(s, cell);
    hide Sound, UpdateClone, SetRefs, RefsOf, Alist, WithAlist, Installed, GuaranteeCache;
    var s1 := GuaranteeCache(s, cell);
    var c := AttachedTo(s1, cell);
    var s2 := AddToList(s1, c, kind, sym, r);
    SameCells(s1, s2);
    ClonedContents(s2, c);
    CloneStays(s2, c);
    var s3 := UpdateClone(s2, c);
    var s' := AddCacheReference(s, env, sym, r, kind);
    assert s' == s3.(slots := s'.slots);
    SameCells(s3, s');
    assert SameUnbound(s, s');
    FindAllSame(s, s');
    forall f, sy ensures ValueIn(s', f, sy) == ValueIn(s, f, sy) {
      var found := FindCell(s, f, sy);
      assert Content(s', found) == Content(s3, found) == Content(s2, found) == Content(s1, found);
    }
  }

  /** A compiled assignment is the assignment to the variable for which the place was cached. */
  lemma CompiledLaw(s: State, c: nat, sym: Symbol, r: Ref, v: Object)
    requires Inv(s) && Listed(s, c, Assignments, sym, r) && Storable(v)
    ensures var (s', status) := CompiledAssign(s, r, v); Assigns(s, s', status, RefEnv(s, r), sym, v)
  {
    CompiledAssignment(s, c, sym, r, v);
    BlockEnvInRange(s, r);
    AssignLaw(s, RefEnv(s, r), sym, v);
  }
}
