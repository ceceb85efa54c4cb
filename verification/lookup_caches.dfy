/** What the operations on caches do, and that they keep the data structures consistent. */
module LookupCaches {
  import opened LookupState
  import opened LookupLists

  function Put(s: State, cell: Cell, v: Object): State {
    s.(cells := s.cells[cell := v])
  }

  function WithValue(s: State, c: nat, v: Object): State {
    if c in s.caches then s.(caches := s.caches[c := s.caches[c].(value := v)]) else s
  }

  function WithClone(s: State, c: nat, k: nat): State {
    if c in s.caches then s.(caches := s.caches[c := s.caches[c].(clone := k)]) else s
  }

  function ListOf(s: State, c: nat, kind: Kind): seq<Entry> {
    if c in s.refs then Alist(s.refs[c], kind) else []
  }

  function WithList(s: State, c: nat, kind: Kind, al: seq<Entry>): State {
    if c in s.refs then s.(refs := s.refs[c := WithAlist(s.refs[c], kind, al)]) else s
  }

  /** Write the same slot to every reference of a sequence. */
  function Write(s: State, rs: seq<Ref>, slot: Slot): State {
    s.(slots := map r | r in s.slots.Keys + (set q | q in rs) :: if r in rs then slot else s.slots[r])
  }

  /** guarantee_cache. */
  function GuaranteeCache(s: State, cell: Cell): State {
    if Get(s, cell).Cached? then s
    else
      var c := s.next;
      s.(caches := s.caches[c := Cache(Get(s, cell), 0)],
         refs := s.refs[c := Refs([], [], [])],
         cells := s.cells[cell := Cached(c)],
         next := c + 1)
  }

  /** update_assignment_references. */
  function UpdateAssignmentReferences(s: State, c: nat): State {
    var al := ListOf(s, c, Assignments);
    Write(WithList(s, c, Assignments, Pruned(al)), AllRefs(al), VariableSlot(AssignmentTarget(s, c)))
  }

  /** update_clone. */
  function UpdateClone(s: State, c: nat): State {
    if ListOf(s, c, Assignments) != [] && ListOf(s, c, Operators) != [] then
      if CloneOf(s, c) == 0 then
        UpdateAssignmentReferences(Recloned(s, c), c)
      else s
    else if CloneOf(s, c) != 0 then UpdateAssignmentReferences(WithClone(s, c, 0), c)
    else s
  }

  /** The states differ in nothing that finding a binding or a list depends on. */
  ghost predicate SameLists(s: State, s': State) {
    && s.frames == s'.frames && s.blockEnv == s'.blockEnv && s.cells == s'.cells
    && (forall c, kind, sym, r {:trigger Listed(s, c, kind, sym, r)} {:trigger Listed(s', c, kind, sym, r)} ::
          Listed(s, c, kind, sym, r) <==> Listed(s', c, kind, sym, r))
  }

  lemma SameListsAgree(s: State, s': State)
    requires SameLists(s, s')
    ensures Agree(s) <==> Agree(s')
    ensures OneOwner(s) <==> OneOwner(s')
  {
    FindAllSame(s, s');
    assert forall r :: RefEnv(s, r) == RefEnv(s', r);
    assert forall cell, c :: Attached(s, cell, c) <==> Attached(s', cell, c);
    if Agree(s) {
      forall c, kind, sym, r | Listed(s', c, kind, sym, r) ensures Attached(s', FindCell(s', RefEnv(s', r), sym), c) {
        assert Listed(s, c, kind, sym, r);
      }
    }
    if Agree(s') {
      forall c, kind, sym, r | Listed(s, c, kind, sym, r) ensures Attached(s, FindCell(s, RefEnv(s, r), sym), c) {
        assert Listed(s', c, kind, sym, r);
      }
    }
  }

  /** Replacing one list by another with the same references under every symbol. */
  lemma WithListIs(s: State, c: nat, kind: Kind, al: seq<Entry>)
    requires c in s.refs
    ensures var s' := WithList(s, c, kind, al);
      forall c', kind', sym, r {:trigger Listed(s', c', kind', sym, r)} ::
        Listed(s', c', kind', sym, r) <==>
          if c' == c && kind' == kind then r in RefsOf(al, sym) else Listed(s, c', kind', sym, r)
  {
    var s' := WithList(s, c, kind, al);
    forall c', kind', sym, r
      ensures Listed(s', c', kind', sym, r) <==>
        if c' == c && kind' == kind then r in RefsOf(al, sym) else Listed(s, c', kind', sym, r)
    {
      assert Alist(WithAlist(s.refs[c], kind, al), kind') == if kind' == kind then al else Alist(s.refs[c], kind');
    }
  }

  lemma WriteIs(s: State, rs: seq<Ref>, slot: Slot)
    ensures var s' := Write(s, rs, slot);
      && (forall r {:trigger r in s'.slots} :: r in s'.slots <==> r in s.slots || r in rs)
      && (forall r {:trigger s'.slots[r]} :: r in s'.slots ==> s'.slots[r] == if r in rs then slot else s.slots[r])
      && s' == s.(slots := s'.slots)
  {}

  /** Rewriting the assignment slots of a cache for its present clone. */
  lemma UpdatedAssignments(s: State, c: nat, x: set<Ref>)
    requires c in s.refs && UniqueSyms(ListOf(s, c, Assignments)) && OneOwner(s)
    requires Linked(s, Lookups, x) && Linked(s, Operators, x)
    requires forall c', sym, r {:trigger Listed(s, c', Assignments, sym, r)} ::
      Listed(s, c', Assignments, sym, r) && r !in x && c' != c ==> SlotOk(s, c', Assignments, r)
    ensures var s' := UpdateAssignmentReferences(s, c);
      && SameLists(s, s') && AllLinked(s', x) && s'.caches == s.caches && s'.next == s.next
      && s'.refs == s.refs[c := s.refs[c].(assignments := Pruned(s.refs[c].assignments))]
  {
    var al := ListOf(s, c, Assignments);
    var s1 := WithList(s, c, Assignments, Pruned(al));
    var s' := UpdateAssignmentReferences(s, c);
    WithListIs(s, c, Assignments, Pruned(al));
    PrunedIs(al);
    WriteIs(s1, AllRefs(al), VariableSlot(AssignmentTarget(s, c)));
    assert forall c', kind, sym, r :: Listed(s', c', kind, sym, r) <==> Listed(s1, c', kind, sym, r);
    assert SameLists(s, s');
    forall c', kind, sym, r | Listed(s', c', kind, sym, r) && r !in x
      ensures SlotOk(s', c', kind, r)
    {
      assert Listed(s, c', kind, sym, r);
      if r in AllRefs(al) {
        var sym' := AllRefsIn(al, r);
        assert Listed(s, c, Assignments, sym', r);
      } else if c' == c && kind == Assignments {
        RefsOfIn(al, sym, r);
      } else {
        assert SlotOk(s, c', kind, r);
      }
    }
  }

  /** Changing only caches and lists keeps the rest sound. */
  lemma SoundCaches(s: State, s': State)
    requires Sound(s) && s.frames == s'.frames && s.cells == s'.cells && s.next <= s'.next &&
      s.refs.Keys == s'.refs.Keys
    requires s.blockEnv == s'.blockEnv
    requires forall c {:trigger CacheOk(s', c)} :: c in s.refs ==> CacheOk(s', c)
    requires forall k {:trigger k in s'.caches} :: k in s'.caches ==> k < s'.next
    ensures Sound(s')
  {
    forall f | 0 <= f < |s'.frames| ensures FrameOk(s', f) { assert FrameOk(s, f); }
    forall cell ensures CellOk(s', cell) {
      assert CellOk(s, cell);
      if Get(s, cell).Cached? { assert CacheOk(s', Get(s, cell).cache); }
    }
    forall f | 0 < f < |s'.frames| ensures IsFrame(s', f) { assert IsFrame(s, f); }
    forall cell, cell', c | Attached(s', cell, c) && Attached(s', cell', c) ensures cell == cell' {
      assert Attached(s, cell, c) && Attached(s, cell', c);
    }
  }

  /** update_clone leaves other caches alone and c with a clone just when both lists need it. */
  ghost predicate CloneUpdated(s: State, s': State, c: nat) {
    && SameLists(s, s') && s.next <= s'.next && s'.refs.Keys == s.refs.Keys
    && (forall c' {:trigger ValueOf(s', c')} :: c' in s.refs ==> ValueOf(s', c') == ValueOf(s, c'))
    && (forall c' {:trigger CloneOf(s', c')} :: c' in s.refs && c' != c ==> CloneOf(s', c') == CloneOf(s, c'))
    && (forall c' {:trigger s'.refs[c']} :: c' in s.refs && c' != c ==> s'.refs[c'] == s.refs[c'])
    && CloneOk(s', c)
  }

  /** The state with a new clone for c, before the assignment references have been updated. */
  function Recloned(s: State, c: nat): State {
    WithClone(s.(caches := s.caches[s.next := Cache(Expensive, c)], next := s.next + 1), c, s.next)
  }

  /** The state s1 differs from s in the clone of c, and the caches are proper. */
  ghost predicate CloneSet(s: State, s1: State, c: nat) {
    && s1.frames == s.frames && s1.blockEnv == s.blockEnv && s1.cells == s.cells && s1.refs == s.refs &&
       s1.slots == s.slots
    && s.next <= s1.next && c in s.refs
    && (forall c' {:trigger ValueOf(s1, c')} :: c' in s.refs ==> ValueOf(s1, c') == ValueOf(s, c'))
    && (forall c' {:trigger CloneOf(s1, c')} :: c' in s.refs && c' != c ==> CloneOf(s1, c') == CloneOf(s, c'))
    && (forall c' {:trigger CacheOk(s1, c')} :: c' in s.refs ==> CacheOk(s1, c'))
    && (forall k {:trigger k in s1.caches} :: k in s1.caches ==> k < s1.next)
  }

  lemma CloneMade(s: State, c: nat)
    requires Sound(s) && c in s.refs
    ensures CloneSet(s, Recloned(s, c), c) && CloneOf(Recloned(s, c), c) != 0
  {
    var s1 := Recloned(s, c);
    assert CacheOk(s, c);
    forall c' | c' in s.refs
      ensures CacheOk(s1, c') && ValueOf(s1, c') == ValueOf(s, c') && (c' != c ==> CloneOf(s1, c') == CloneOf(s, c'))
    {
      assert CacheOk(s, c');
      assert s.next in s.refs ==> CacheOk(s, s.next);
    }
  }

  lemma CloneUnset(s: State, c: nat)
    requires Sound(s) && c in s.refs
    ensures CloneSet(s, WithClone(s, c, 0), c)
  {
    var s1 := WithClone(s, c, 0);
    assert CacheOk(s, c);
    forall c' | c' in s.refs ensures CacheOk(s1, c') { assert CacheOk(s, c'); }
  }

  lemma SameListsTrans(s: State, s1: State, s': State)
    requires SameLists(s, s1) && SameLists(s1, s')
    ensures SameLists(s, s')
  {
    assert forall c, kind, sym, r :: Listed(s, c, kind, sym, r) == Listed(s1, c, kind, sym, r);
  }

  /** Setting the clone of c and updating the assignment references. */
  lemma CloneSetAndUpdated(s: State, s1: State, c: nat, x: set<Ref>)
    requires Sound(s) && OneOwner(s) && AllLinked(s, x) && CloneSet(s, s1, c)
    requires s.refs[c].assignments != [] && s.refs[c].operators != [] ==> CloneOf(s1, c) != 0
    ensures var s' := UpdateAssignmentReferences(s1, c); Sound(s') && AllLinked(s', x) && CloneUpdated(s, s', c)
  {
    assert CacheOk(s, c);
    assert UniqueSyms(Alist(s.refs[c], Assignments));
    PrunedIs(s.refs[c].assignments);
    assert SameLists(s, s1) by {
      assert forall c', kind, sym, r :: Listed(s1, c', kind, sym, r) <==> Listed(s, c', kind, sym, r);
    }
    SameListsAgree(s, s1);
    CloneChanged(s, s1, c, x);
    UpdatedAssignments(s1, c, x);
    var s' := UpdateAssignmentReferences(s1, c);
    SameListsTrans(s, s1, s');
    CachesStayOk(s, s1, s', c);
  }

  lemma CachesStayOk(s: State, s1: State, s': State, c: nat)
    requires Sound(s) && CloneSet(s, s1, c) && s'.caches == s1.caches && s'.next == s1.next
    requires s'.frames == s.frames && s'.cells == s.cells && s'.blockEnv == s.blockEnv
    requires s'.refs == s1.refs[c := s1.refs[c].(assignments := Pruned(s1.refs[c].assignments))]
    ensures Sound(s')
  {
    forall c' | c' in s'.refs ensures CacheOk(s', c') { assert CacheOk(s1, c'); PrunedKinds(s1, s', c, c'); }
    SoundCaches(s, s');
  }

  lemma PrunedKinds(s: State, s': State, c: nat, c': nat)
    requires c in s.refs && c' in s.refs &&
      s'.refs == s.refs[c := s.refs[c].(assignments := Pruned(s.refs[c].assignments))]
    requires forall kind :: UniqueSyms(Alist(s.refs[c'], kind))
    ensures forall kind :: UniqueSyms(Alist(s'.refs[c'], kind))
  {
    assert UniqueSyms(Alist(s.refs[c'], Assignments));
    PrunedIs(s.refs[c'].assignments);
    forall kind ensures UniqueSyms(Alist(s'.refs[c'], kind)) { assert UniqueSyms(Alist(s.refs[c'], kind)); }
  }

  /** A change of c's clone does not concern the slots of other caches and kinds. */
  lemma CloneChanged(s: State, s1: State, c: nat, x: set<Ref>)
    requires AllLinked(s, x) && SameLists(s, s1) && s1.slots == s.slots && c in s.refs
    requires forall c' :: c' in s.refs ==> ValueOf(s1, c') == ValueOf(s, c')
    requires forall c' :: c' in s.refs && c' != c ==> CloneOf(s1, c') == CloneOf(s, c')
    ensures Linked(s1, Lookups, x) && Linked(s1, Operators, x)
    ensures forall c', sym, r {:trigger Listed(s1, c', Assignments, sym, r)} ::
      Listed(s1, c', Assignments, sym, r) && r !in x && c' != c ==> SlotOk(s1, c', Assignments, r)
  {
    forall c', kind, sym, r | Listed(s1, c', kind, sym, r) && r !in x && (kind != Assignments || c' != c)
      ensures SlotOk(s1, c', kind, r)
    {
      assert Listed(s, c', kind, sym, r) && SlotOk(s, c', kind, r);
    }
  }

  /** update_clone. */
  lemma UpdatedClone(s: State, c: nat, x: set<Ref>)
    requires Sound(s) && OneOwner(s) && AllLinked(s, x) && c in s.refs
    ensures var s' := UpdateClone(s, c); Sound(s') && OneOwner(s') && AllLinked(s', x) && CloneUpdated(s, s', c)
  {
    hide Sound, OneOwner, Linked, Agree;
    var s' := UpdateClone(s, c);
    if s.refs[c].assignments != [] && s.refs[c].operators != [] {
      if CloneOf(s, c) == 0 {
        CloneMade(s, c);
        CloneSetAndUpdated(s, Recloned(s, c), c, x);
      }
    } else if CloneOf(s, c) != 0 {
      CloneUnset(s, c);
      CloneSetAndUpdated(s, WithClone(s, c, 0), c, x);
    }
    SameListsAgree(s, s');
  }

  /** update_clone concerns neither cells nor frames, nor the value of c. */
  lemma CloneStays(s: State, c: nat)
    ensures var s' := UpdateClone(s, c); s'.frames == s.frames && s'.cells == s.cells && s'.blockEnv == s.blockEnv
    ensures c != s.next ==> ValueOf(UpdateClone(s, c), c) == ValueOf(s, c)
  {
    hide UpdateAssignmentReferences, Alist;
    var s1 := Recloned(s, c);
    AssignmentsStay(s1, c);
    AssignmentsStay(WithClone(s, c, 0), c);
  }

  lemma AssignmentsStay(s: State, c: nat)
    ensures var s' := UpdateAssignmentReferences(s, c);
      s'.frames == s.frames && s'.cells == s.cells && s'.blockEnv == s.blockEnv && s'.caches == s.caches
  {
    hide Pruned, AllRefs, Alist, WithAlist;
  }

  lemma ClonedStays(s: State, s': State, c: nat, y: set<nat>)
    requires CloneUpdated(s, s', c) && Cloned(s, y + {c})
    ensures Cloned(s', y)
  {
    forall c' | c' !in y ensures CloneOk(s', c') {
      if c' != c { assert CloneOk(s, c'); }
    }
  }

  /** guarantee_cache keeps everything that was there. */
  ghost predicate Extends(s: State, s': State) {
    && s.next <= s'.next && SameUnbound(s, s') && s'.frames == s.frames && s'.blockEnv == s.blockEnv &&
       s'.slots == s.slots
    && s.refs.Keys <= s'.refs.Keys
    && (forall c, kind, sym, r {:trigger Listed(s, c, kind, sym, r)} {:trigger Listed(s', c, kind, sym, r)} ::
          Listed(s', c, kind, sym, r) <==> Listed(s, c, kind, sym, r))
    && (forall cell', c {:trigger Attached(s, cell', c)} :: Attached(s, cell', c) ==> Attached(s', cell', c))
    && (forall c {:trigger c in s.caches} :: c in s.caches ==> c in s'.caches && s'.caches[c] == s.caches[c])
    && (forall c {:trigger s'.refs[c]} :: c in s.refs ==> s'.refs[c] == s.refs[c])
    && (forall c {:trigger s'.refs[c]} :: c in s'.refs && c !in s.refs ==> s'.refs[c] == Refs([], [], []))
  }

  lemma NextIsFresh(s: State)
    requires Sound(s)
    ensures s.next !in s.refs && s.next !in s.caches
  {
    assert s.next in s.refs ==> CacheOk(s, s.next);
  }

  lemma GuaranteedExtends(s: State, cell: Cell)
    requires Sound(s) && (cell.ArgCell? ==> Get(s, cell) != Unbound)
    ensures Extends(s, GuaranteeCache(s, cell))
  {
    NextIsFresh(s);
    var s' := GuaranteeCache(s, cell);
    var c := s.next;
    if !Get(s, cell).Cached? {
      forall c', kind, sym, r ensures Listed(s', c', kind, sym, r) <==> Listed(s, c', kind, sym, r) {
        assert Alist(s'.refs[c], kind) == [];
      }
      forall cell', d | Attached(s, cell', d) ensures Attached(s', cell', d) {}
      forall f, i ensures (Get(s, ArgCell(f, i)) == Unbound) == (Get(s', ArgCell(f, i)) == Unbound) {}
    }
  }

  lemma GuaranteedCaches(s: State, cell: Cell)
    requires Sound(s)
    ensures var s' := GuaranteeCache(s, cell); Get(s', cell).Cached? && Get(s', cell).cache in s'.refs
    ensures var s' := GuaranteeCache(s, cell); forall c {:trigger CacheOk(s', c)} :: c in s'.refs ==> CacheOk(s', c)
  {
    assert CellOk(s, cell);
    NextIsFresh(s);
    var s' := GuaranteeCache(s, cell);
    forall c | c in s'.refs ensures CacheOk(s', c) {
      assert c in s.refs ==> CacheOk(s, c);
      assert forall kind :: Alist(s'.refs[c], kind) == if c in s.refs then Alist(s.refs[c], kind) else [];
    }
  }

  /** guarantee_cache on a cell that is in use. */
  lemma GuaranteedCache(s: State, cell: Cell)
    requires Sound(s) && (cell.ArgCell? ==> Get(s, cell) != Unbound)
    ensures var s' := GuaranteeCache(s, cell);
      Sound(s') && Extends(s, s') && Get(s', cell).Cached? && Get(s', cell).cache in s'.refs
  {
    GuaranteedExtends(s, cell);
    GuaranteedCaches(s, cell);
    if !Get(s, cell).Cached? {
      NextIsFresh(s);
      var s' := GuaranteeCache(s, cell);
      hide Extends;
      forall f | 0 <= f < |s'.frames| ensures FrameOk(s', f) { assert FrameOk(s, f); }
      forall cell' ensures CellOk(s', cell') {
        assert CellOk(s, cell');
        assert Get(s', cell').Cached? ==> Get(s', cell').cache in s'.refs;
      }
      forall f | 0 < f < |s'.frames| ensures IsFrame(s', f) { assert IsFrame(s, f); }
      forall a, b, d | Attached(s', a, d) && Attached(s', b, d) ensures a == b {
        assert CellOk(s, a) && CellOk(s, b);
        assert d != s.next ==> Attached(s, a, d) && Attached(s, b, d);
      }
    }
  }
}
