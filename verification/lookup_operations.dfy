/** The operations on variables as functions of the state, and their effect on the invariant. */
module LookupOperations {
  import opened LookupState
  import opened LookupLists
  import opened LookupCaches
  import opened LookupMoves

  datatype Status = Done | ErrUnbound | ErrUnassigned | ErrMacro | ErrIllegalTrap

  /** What a reference to something that holds v returns. */
  function Reference(v: Object): Status {
    match v
    case Plain(_) => Done
    case Unassigned => ErrUnassigned
    case Unbound => ErrUnbound
    case Macro(_) => ErrMacro
    case _ => ErrIllegalTrap
  }

  /** The value of a variable: the content of its cell, or of the cache attached to it. */
  function Content(s: State, cell: Cell): Object {
    var v := Get(s, cell);
    if v.Cached? then ValueOf(s, v.cache) else v
  }

  /** lookup_variable. */
  function LookupVariable(s: State, env: nat, sym: Symbol): (Status, Object) {
    var v := Content(s, FindCell(s, env, sym));
    (Reference(v), v)
  }

  /** An assignment replaces values, and with `force` also what is unbound or a macro. */
  predicate Assignable(v: Object, force: bool) {
    v.Plain? || v.Unassigned? || (force && (v.Unbound? || v.Macro?))
  }

  /** update_uuo_links; counting the references drops empty entries. */
  function UpdateUuoLinks(s: State, c: nat, v: Object): State {
    var s0 := WithList(s, c, Operators, Pruned(ListOf(s, c, Operators)));
    var s1 := UpdateClone(WithValue(s0, c, v), c);
    var al := ListOf(s1, c, Operators);
    Write(WithList(s1, c, Operators, Pruned(al)), AllRefs(al), UuoLink(v, c))
  }

  /** assign_variable_cache. */
  function AssignCache(s: State, c: nat, v: Object, force: bool): (State, Status) {
    if !Assignable(ValueOf(s, c), force) then (s, Reference(ValueOf(s, c)))
    else if ListOf(s, c, Operators) != [] then (UpdateUuoLinks(s, c, v), Done)
    else (WithValue(s, c, v), Done)
  }

  /** assign_variable_end. */
  function AssignEnd(s: State, cell: Cell, v: Object, force: bool): (State, Status) {
    var oldValue := Get(s, cell);
    if oldValue.Cached? then AssignCache(s, oldValue.cache, v, force)
    else if Assignable(oldValue, force) then (Put(s, cell, v), Done)
    else (s, Reference(oldValue))
  }

  /** assign_variable. */
  function AssignVariable(s: State, env: nat, sym: Symbol, v: Object): (State, Status) {
    AssignEnd(s, FindCell(s, env, sym), v, false)
  }

  /** A value that a program can store. */
  predicate Storable(v: Object) {
    v.Plain? || v.Unassigned? || v.Macro?
  }

  /** The value of c changes, so its operator links are stale. */
  lemma ValueChanged(s: State, c: nat, v: Object, x: set<Ref>)
    requires Sound(s) && OneOwner(s) && AllLinked(s, {}) && Agree(s) && Cloned(s, {}) && c in s.refs && !v.Expensive? &&
      !v.Cached?
    requires forall sym, r {:trigger Listed(s, c, Operators, sym, r)} :: Listed(s, c, Operators, sym, r) ==> r in x
    ensures var s' := WithValue(s, c, v);
      Sound(s') && SameLists(s, s') && AllLinked(s', x) && Cloned(s', {}) && s'.refs == s.refs
    ensures ValueOf(WithValue(s, c, v), c) == v
  {
    var s' := WithValue(s, c, v);
    assert CacheOk(s, c);
    assert SameLists(s, s') by { assert forall c', k, sy, r :: Listed(s', c', k, sy, r) == Listed(s, c', k, sy, r); }
    forall c' | c' in s.refs ensures CacheOk(s', c') { assert CacheOk(s, c'); }
    SoundCaches(s, s');
    forall c', k, sy, r | Listed(s', c', k, sy, r) && r !in x ensures SlotOk(s', c', k, r) {
      assert Listed(s, c', k, sy, r) && SlotOk(s, c', k, r) && CacheOk(s, c');
    }
    forall c' ensures CloneOk(s', c') { assert CloneOk(s, c'); }
  }

  /** Dropping empty entries from a list. */
  lemma ListPruned(s: State, c: nat, kind: Kind, x: set<Ref>)
    requires Sound(s) && OneOwner(s) && AllLinked(s, x) && Cloned(s, {}) && c in s.refs
    ensures var s' := WithList(s, c, kind, Pruned(ListOf(s, c, kind)));
      Sound(s') && SameLists(s, s') && AllLinked(s', x) && Cloned(s', {}) && s'.refs.Keys == s.refs.Keys
  {
    var al := ListOf(s, c, kind);
    var s' := WithList(s, c, kind, Pruned(al));
    assert CacheOk(s, c);
    assert UniqueSyms(Alist(s.refs[c], kind));
    PrunedIs(al);
    WithListIs(s, c, kind, Pruned(al));
    forall c', k, sy, r ensures Listed(s, c', k, sy, r) == Listed(s', c', k, sy, r) {}
    forall c' | c' in s.refs ensures CacheOk(s', c') {
      assert CacheOk(s, c');
      forall k ensures UniqueSyms(Alist(s'.refs[c'], k)) { assert UniqueSyms(Alist(s.refs[c'], k)); }
    }
    SoundCaches(s, s');
    forall c', k, sy, r | Listed(s', c', k, sy, r) && r !in x ensures SlotOk(s', c', k, r) {
      assert Listed(s, c', k, sy, r) && SlotOk(s, c', k, r);
    }
    forall c' ensures CloneOk(s', c') { assert CloneOk(s, c'); }
  }

  /** Writing the links of all operator references of c. */
  lemma LinksWritten(s: State, c: nat, x: set<Ref>)
    requires Sound(s) && OneOwner(s) && AllLinked(s, x) && c in s.refs
    requires forall r :: r in x ==> exists sym :: Listed(s, c, Operators, sym, r)
    ensures var s' := Write(s, AllRefs(ListOf(s, c, Operators)), UuoLink(ValueOf(s, c), c));
      SameLists(s, s') && AllLinked(s', {}) && s' == s.(slots := s'.slots)
  {
    var al := ListOf(s, c, Operators);
    var s' := Write(s, AllRefs(al), UuoLink(ValueOf(s, c), c));
    assert CacheOk(s, c);
    assert UniqueSyms(Alist(s.refs[c], Operators));
    WriteIs(s, AllRefs(al), UuoLink(ValueOf(s, c), c));
    assert SameLists(s, s') by { assert forall c', k, sy, r :: Listed(s', c', k, sy, r) == Listed(s, c', k, sy, r); }
    forall c', k, sy, r | Listed(s', c', k, sy, r) ensures SlotOk(s', c', k, r) {
      assert Listed(s, c', k, sy, r);
      if r in AllRefs(al) {
        var sym' := AllRefsIn(al, r);
        assert Listed(s, c, Operators, sym', r);
      } else {
        if r in x {
          var sym :| Listed(s, c, Operators, sym, r);
          RefsOfIn(al, sym, r);
        }
        assert SlotOk(s, c', k, r);
      }
    }
  }

  /** The operator references of c. */
  ghost function OperatorRefs(s: State, c: nat): set<Ref> {
    set r | r in AllRefs(ListOf(s, c, Operators))
  }

  lemma OperatorRefsAre(s: State, c: nat)
    requires CacheOk(s, c)
    ensures forall r :: r in OperatorRefs(s, c) <==> exists sym :: Listed(s, c, Operators, sym, r)
  {
    var al := ListOf(s, c, Operators);
    assert UniqueSyms(Alist(s.refs[c], Operators));
    forall r ensures r in OperatorRefs(s, c) <==> exists sym :: Listed(s, c, Operators, sym, r) {
      if r in AllRefs(al) { var sym := AllRefsIn(al, r); assert Listed(s, c, Operators, sym, r); }
      if sym :| Listed(s, c, Operators, sym, r) { RefsOfIn(al, sym, r); }
    }
  }

  /** update_uuo_links leaves no stale link behind. */
  lemma UuoLinksUpdated(s: State, c: nat, v: Object)
    requires Inv(s) && c in s.refs && !v.Expensive? && !v.Cached?
    ensures Inv(UpdateUuoLinks(s, c, v))
    ensures s.frames == UpdateUuoLinks(s, c, v).frames && s.blockEnv == UpdateUuoLinks(s, c, v).blockEnv
  {
    var s0 := WithList(s, c, Operators, Pruned(ListOf(s, c, Operators)));
    ListPruned(s, c, Operators, {});
    SameListsAgree(s, s0);
    var x := OperatorRefs(s0, c);
    assert CacheOk(s0, c);
    OperatorRefsAre(s0, c);
    ValueChanged(s0, c, v, x);
    var sv := WithValue(s0, c, v);
    SameListsAgree(s0, sv);
    hide Sound, OneOwner, Agree, Linked, UpdateClone, Write, WithValue;
    UpdatedClone(sv, c, x);
    var s1 := UpdateClone(sv, c);
    SameListsAgree(sv, s1);
    ClonedStays(sv, s1, c, {});
    LinksFinished(s0, sv, s1, c, v, x);
  }

  lemma LinksFinished(s0: State, sv: State, s1: State, c: nat, v: Object, x: set<Ref>)
    requires Sound(s1) && OneOwner(s1) && Agree(s1) && AllLinked(s1, x) && Cloned(s1, {}) && c in s1.refs &&
      ValueOf(s1, c) == v
    requires SameLists(s0, sv) && SameLists(sv, s1) && forall r :: r in x <==>
      exists sym :: Listed(s0, c, Operators, sym, r)
    ensures var al := ListOf(s1, c, Operators);
      var s' := Write(WithList(s1, c, Operators, Pruned(al)), AllRefs(al), UuoLink(v, c));
      Inv(s') && s'.frames == s1.frames && s'.blockEnv == s1.blockEnv
  {
    forall r | r in x ensures exists sym :: Listed(s1, c, Operators, sym, r) {
      var sym :| Listed(s0, c, Operators, sym, r);
      assert Listed(sv, c, Operators, sym, r) && Listed(s1, c, Operators, sym, r);
    }
    LinksWritten(s1, c, x);
    var al := ListOf(s1, c, Operators);
    var s2 := Write(s1, AllRefs(al), UuoLink(v, c));
    SameListsAgree(s1, s2);
    SlotsSound(s1, s2);
    ListPruned(s2, c, Operators, {});
    var s3 := WithList(s2, c, Operators, Pruned(al));
    SameListsAgree(s2, s3);
    assert s3 == Write(WithList(s1, c, Operators, Pruned(al)), AllRefs(al), UuoLink(v, c));
  }

  /** Soundness and clones do not depend on the slots. */
  lemma SlotsSound(s: State, s': State)
    requires s' == s.(slots := s'.slots)
    ensures Sound(s) ==> Sound(s')
    ensures forall y :: Cloned(s, y) ==> Cloned(s', y)
  {
    if Sound(s) {
      forall c | c in s.refs ensures CacheOk(s', c) { assert CacheOk(s, c); }
      SoundCaches(s, s');
    }
    forall y | Cloned(s, y) ensures Cloned(s', y) {
      forall c | c !in y ensures CloneOk(s', c) { assert CloneOk(s, c); }
    }
  }
}
