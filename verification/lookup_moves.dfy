/** Moving references from one cache to another when a binding appears or disappears. */
module LookupMoves {
  import opened LookupState
  import opened LookupLists
  import opened LookupCaches

  /** The references whose block's environment is env or inside it, and the others. */
  function Inside(s: State, env: nat, rs: seq<Ref>): seq<Ref> {
    if rs == [] then [] else if Under(s, RefEnv(s, rs[0]), env) then [rs[0]] + Inside(s, env, rs[1..])
      else Inside(s, env, rs[1..])
  }

  function Outside(s: State, env: nat, rs: seq<Ref>): seq<Ref> {
    if rs == [] then [] else if Under(s, RefEnv(s, rs[0]), env) then Outside(s, env, rs[1..])
      else [rs[0]] + Outside(s, env, rs[1..])
  }

  function Reversed(rs: seq<Ref>): seq<Ref> {
    if rs == [] then [] else Reversed(rs[1..]) + [rs[0]]
  }

  /** The state without the references to be moved. */
  function Unlisted(s: State, from: nat, kind: Kind, env: nat, sym: Symbol): State {
    var al := ListOf(s, from, kind);
    WithList(s, from, kind, SetRefs(al, sym, Outside(s, env, RefsOf(al, sym))))
  }

  /** The moved references in front of those that are there. */
  function Relisted(s: State, to: nat, kind: Kind, moved: seq<Ref>, sym: Symbol): State {
    var al := ListOf(s, to, kind);
    WithList(s, to, kind, SetRefs(al, sym, Reversed(moved) + RefsOf(al, sym)))
  }

  /** move_ref_pairs. */
  function MoveRefPairs(s: State, from: nat, to: nat, kind: Kind, env: nat, sym: Symbol): State {
    if !HasEntry(ListOf(s, from, kind), sym) then s
    else
      var moved := Inside(s, env, RefsOf(ListOf(s, from, kind), sym));
      var s1 := Unlisted(s, from, kind, env, sym);
      if moved == [] then s1 else Write(Relisted(s1, to, kind, moved, sym), moved, Installed(s, to, kind))
  }

  /** update_cache_references. */
  function UpdateCacheReferences(s: State, from: nat, toCell: Cell, env: nat, sym: Symbol): State {
    var s1 := GuaranteeCache(s, toCell);
    var to := AttachedTo(s1, toCell);
    var s2 := MoveRefPairs(s1, from, to, Lookups, env, sym);
    var s3 := MoveRefPairs(s2, from, to, Assignments, env, sym);
    var s4 := MoveRefPairs(s3, from, to, Operators, env, sym);
    UpdateClone(UpdateClone(s4, to), from)
  }

  function AttachedTo(s: State, cell: Cell): nat {
    var v := Get(s, cell);
    if v.Cached? then v.cache else 0
  }

  lemma {:induction false} Parts(s: State, env: nat, rs: seq<Ref>)
    ensures forall r :: r in Inside(s, env, rs) <==> r in rs && Under(s, RefEnv(s, r), env)
    ensures forall r :: r in Outside(s, env, rs) <==> r in rs && !Under(s, RefEnv(s, r), env)
  {
    if rs != [] {
      Parts(s, env, rs[1..]);
      assert rs == [rs[0]] + rs[1..];
    }
  }

  lemma {:induction false} ReversedIn(rs: seq<Ref>)
    ensures forall r :: r in Reversed(rs) <==> r in rs
  {
    if rs != [] {
      ReversedIn(rs[1..]);
      assert rs == [rs[0]] + rs[1..];
    }
  }

  lemma {:induction false} ReversedAt(rs: seq<Ref>, i: nat)
    requires i < |rs|
    ensures |Reversed(rs)| == |rs| && Reversed(rs)[|rs| - 1 - i] == rs[i]
  {
    if |rs| > 1 { ReversedAt(rs[1..], if i > 0 then i - 1 else 0); }
  }

  /** r is one of the references to be moved. */
  ghost predicate ToMove(s: State, from: nat, kind: Kind, env: nat, sym: Symbol, r: Ref) {
    Listed(s, from, kind, sym, r) && Under(s, RefEnv(s, r), env)
  }

  /** Only the lists of `from` and `to` for the kind have changed. */
  ghost predicate MovedLists(s: State, s': State, from: nat, to: nat, kind: Kind, env: nat, sym: Symbol) {
    && s'.refs.Keys == s.refs.Keys
    && (forall c {:trigger s'.refs[c]} :: c in s.refs && c != from && c != to ==> s'.refs[c] == s.refs[c])
    && (forall c, k, sy, r {:trigger Listed(s', c, k, sy, r)} {:trigger Listed(s, c, k, sy, r)} ::
          Listed(s', c, k, sy, r) <==>
          if k == kind && sy == sym && ToMove(s, from, kind, env, sym, r)
          then c == to || (c != from && Listed(s, c, k, sy, r))
          else Listed(s, c, k, sy, r))
  }

  ghost predicate MovedSlots(s: State, s': State, from: nat, to: nat, kind: Kind, env: nat, sym: Symbol) {
    && (forall r {:trigger r in s'.slots} :: r in s'.slots <==> r in s.slots || ToMove(s, from, kind, env, sym, r))
    && (forall r {:trigger s'.slots[r]} :: r in s'.slots ==>
          s'.slots[r] == if ToMove(s, from, kind, env, sym, r) then Installed(s, to, kind) else s.slots[r])
  }

  ghost predicate Moved(s: State, s': State, from: nat, to: nat, kind: Kind, env: nat, sym: Symbol) {
    && s' == s.(refs := s'.refs, slots := s'.slots)
    && MovedLists(s, s', from, to, kind, env, sym) && MovedSlots(s, s', from, to, kind, env, sym)
  }

  /** The references to be moved are no longer listed. */
  ghost predicate Took(s: State, s1: State, from: nat, kind: Kind, env: nat, sym: Symbol) {
    && s1 == s.(refs := s1.refs) && s1.refs.Keys == s.refs.Keys
    && (forall c {:trigger s1.refs[c]} :: c in s.refs && c != from ==> s1.refs[c] == s.refs[c])
    && (forall c, k, sy, r {:trigger Listed(s1, c, k, sy, r)} :: Listed(s1, c, k, sy, r) <==>
          Listed(s, c, k, sy, r) && !(c == from && k == kind && sy == sym && Under(s, RefEnv(s, r), env)))
  }

  /** The references `moved` are listed at `to`. */
  ghost predicate Gave(s1: State, s2: State, to: nat, kind: Kind, moved: seq<Ref>, sym: Symbol) {
    && s2 == s1.(refs := s2.refs) && s2.refs.Keys == s1.refs.Keys
    && (forall c {:trigger s2.refs[c]} :: c in s1.refs && c != to ==> s2.refs[c] == s1.refs[c])
    && (forall c, k, sy, r {:trigger Listed(s2, c, k, sy, r)} :: Listed(s2, c, k, sy, r) <==>
          Listed(s1, c, k, sy, r) || (c == to && k == kind && sy == sym && r in moved))
  }

  lemma UnlistedIs(s: State, from: nat, kind: Kind, env: nat, sym: Symbol)
    requires from in s.refs && UniqueSyms(ListOf(s, from, kind))
    ensures Took(s, Unlisted(s, from, kind, env, sym), from, kind, env, sym)
  {
    var al := ListOf(s, from, kind);
    Parts(s, env, RefsOf(al, sym));
    SetRefsIs(al, sym, Outside(s, env, RefsOf(al, sym)));
    WithListIs(s, from, kind, SetRefs(al, sym, Outside(s, env, RefsOf(al, sym))));
  }

  lemma RelistedIs(s: State, to: nat, kind: Kind, moved: seq<Ref>, sym: Symbol)
    requires to in s.refs && UniqueSyms(ListOf(s, to, kind))
    ensures Gave(s, Relisted(s, to, kind, moved, sym), to, kind, moved, sym)
  {
    var al := ListOf(s, to, kind);
    var rs := Reversed(moved) + RefsOf(al, sym);
    ReversedIn(moved);
    SetRefsIs(al, sym, rs);
    WithListIs(s, to, kind, SetRefs(al, sym, rs));
    assert forall r :: r in rs <==> r in moved || r in RefsOf(al, sym);
  }

  lemma MovedTuple(s: State, s1: State, s2: State, from: nat, to: nat, kind: Kind, env: nat, sym: Symbol,
                   moved: seq<Ref>,
                   c: nat, k: Kind, sy: Symbol, r: Ref)
    requires Took(s, s1, from, kind, env, sym) && Gave(s1, s2, to, kind, moved, sym) && from != to
    requires ToMove(s, from, kind, env, sym, r) <==> r in moved
    ensures Listed(s2, c, k, sy, r) <==>
      if k == kind && sy == sym && ToMove(s, from, kind, env, sym, r)
      then c == to || (c != from && Listed(s, c, k, sy, r))
      else Listed(s, c, k, sy, r)
  {
    hide Listed, Under;
    assert Listed(s2, c, k, sy, r) <==> Listed(s1, c, k, sy, r) || (c == to && k == kind && sy == sym && r in moved);
    assert Listed(s1, c, k, sy, r) <==>
      Listed(s, c, k, sy, r) && !(c == from && k == kind && sy == sym && Under(s, RefEnv(s, r), env));
  }

  lemma MovedRefs(s: State, from: nat, to: nat, kind: Kind, env: nat, sym: Symbol)
    requires from in s.refs && to in s.refs && from != to
    requires UniqueSyms(ListOf(s, from, kind)) && UniqueSyms(ListOf(s, to, kind))
    ensures Moved(s, MoveRefPairs(s, from, to, kind, env, sym), from, to, kind, env, sym)
  {
    var s' := MoveRefPairs(s, from, to, kind, env, sym);
    var al := ListOf(s, from, kind);
    var moved := Inside(s, env, RefsOf(al, sym));
    Parts(s, env, RefsOf(al, sym));
    forall r ensures ToMove(s, from, kind, env, sym, r) <==> r in moved {}
    if !HasEntry(al, sym) {
      NoEntry(al, sym);
    } else {
      UnlistedIs(s, from, kind, env, sym);
      var s1 := Unlisted(s, from, kind, env, sym);
      assert ListOf(s1, to, kind) == ListOf(s, to, kind);
      RelistedIs(s1, to, kind, moved, sym);
      var s2 := Relisted(s1, to, kind, moved, sym);
      WriteIs(s2, moved, Installed(s, to, kind));
      MovedAll(s, s1, s2, s', from, to, kind, env, sym, moved);
    }
  }

  lemma MovedAll(s: State, s1: State, s2: State, s': State, from: nat, to: nat, kind: Kind, env: nat, sym: Symbol,
                 moved: seq<Ref>)
    requires Took(s, s1, from, kind, env, sym) && from != to
    requires forall r {:trigger ToMove(s, from, kind, env, sym, r)} :: ToMove(s, from, kind, env, sym, r) <==>
      r in moved
    requires if moved == [] then s' == s1
      else Gave(s1, s2, to, kind, moved, sym) && s' == Write(s2, moved, Installed(s, to, kind))
    ensures Moved(s, s', from, to, kind, env, sym)
  {
    var s3 := if moved == [] then s1 else s2;
    assert Gave(s1, s3, to, kind, moved, sym);
    WriteIs(s2, moved, Installed(s, to, kind));
    assert MovedLists(s, s', from, to, kind, env, sym) by {
      forall c, k, sy, r
        ensures Listed(s', c, k, sy, r) <==>
          if k == kind && sy == sym && ToMove(s, from, kind, env, sym, r)
          then c == to || (c != from && Listed(s, c, k, sy, r))
          else Listed(s, c, k, sy, r)
      {
        MovedTuple(s, s1, s3, from, to, kind, env, sym, moved, c, k, sy, r);
        assert Listed(s', c, k, sy, r) == Listed(s3, c, k, sy, r);
      }
    }
  }

  // ---------------------------------------------------------------- what a move keeps

  /** References are where they belong, except those that still have to be moved to toCell. */
  ghost predicate AgreeBut(s: State, from: nat, toCell: Cell, env: nat, sym: Symbol) {
    forall c, k, sy, r {:trigger Listed(s, c, k, sy, r)} ::
      Listed(s, c, k, sy, r) ==>
        if c == from && sy == sym && Under(s, RefEnv(s, r), env) then FindCell(s, RefEnv(s, r), sym) == toCell
        else Attached(s, FindCell(s, RefEnv(s, r), sy), c)
  }

  ghost predicate NoneLeft(s: State, from: nat, kind: Kind, env: nat, sym: Symbol) {
    forall r {:trigger ToMove(s, from, kind, env, sym, r)} :: !ToMove(s, from, kind, env, sym, r)
  }

  lemma MoveSound(s: State, s': State, from: nat, to: nat, kind: Kind, env: nat, sym: Symbol)
    requires Sound(s) && from in s.refs && to in s.refs && from != to && s' == MoveRefPairs(s, from, to, kind, env, sym)
    ensures Sound(s')
  {
    assert CacheOk(s, from) && CacheOk(s, to);
    assert UniqueSyms(Alist(s.refs[from], kind)) && UniqueSyms(Alist(s.refs[to], kind));
    MovedRefs(s, from, to, kind, env, sym);
    forall c | c in s'.refs ensures CacheOk(s', c) {
      assert CacheOk(s, c);
      forall k ensures UniqueSyms(Alist(s'.refs[c], k)) {
        assert UniqueSyms(Alist(s.refs[c], k));
        MovedUnique(s, from, to, kind, env, sym, c, k);
      }
    }
    SoundCaches(s, s');
  }

  lemma MovedUnique(s: State, from: nat, to: nat, kind: Kind, env: nat, sym: Symbol, c: nat, k: Kind)
    requires from in s.refs && to in s.refs && from != to && c in s.refs && UniqueSyms(Alist(s.refs[c], k))
    ensures var s' := MoveRefPairs(s, from, to, kind, env, sym); c in s'.refs && UniqueSyms(Alist(s'.refs[c], k))
  {
    hide Listed, Under, UniqueSyms, SetRefs, RefsOf, Inside, Outside, Reversed, Installed;
    var al := ListOf(s, from, kind);
    var s1 := Unlisted(s, from, kind, env, sym);
    if HasEntry(al, sym) && k == kind {
      if c == from { SetRefsIs(al, sym, Outside(s, env, RefsOf(al, sym))); }
      if c == to {
        var al' := ListOf(s1, to, kind);
        assert al' == ListOf(s, to, kind);
        SetRefsIs(al', sym, Reversed(Inside(s, env, RefsOf(al, sym))) + RefsOf(al', sym));
      }
    }
  }

  lemma MoveOwners(s: State, s': State, from: nat, to: nat, kind: Kind, env: nat, sym: Symbol)
    requires OneOwner(s) && Moved(s, s', from, to, kind, env, sym) && from != to
    ensures OneOwner(s')
  {
    hide Listed, Under, MovedSlots;
    forall c, k, sy, c', k', sy', r | Listed(s', c, k, sy, r) && Listed(s', c', k', sy', r)
      ensures c == c' && k == k' && sy == sy'
    {
      OwnerBefore(s, s', from, to, kind, env, sym, c, k, sy, r);
      OwnerBefore(s, s', from, to, kind, env, sym, c', k', sy', r);
    }
  }

  /** Where a reference was before the move. */
  lemma OwnerBefore(s: State, s': State, from: nat, to: nat, kind: Kind, env: nat, sym: Symbol, c: nat, k: Kind,
                    sy: Symbol, r: Ref)
    requires OneOwner(s) && MovedLists(s, s', from, to, kind, env, sym) && from != to && Listed(s', c, k, sy, r)
    ensures if ToMove(s, from, kind, env, sym, r) then c == to && k == kind && sy == sym else Listed(s, c, k, sy, r)
  {
    if ToMove(s, from, kind, env, sym, r) {
      assert Listed(s, from, kind, sym, r);
      assert Listed(s, c, k, sy, r) ==> c == from && k == kind && sy == sym;
    }
  }

  lemma MoveLinks(s: State, s': State, from: nat, to: nat, kind: Kind, env: nat, sym: Symbol)
    requires OneOwner(s) && AllLinked(s, {}) && Moved(s, s', from, to, kind, env, sym) && from != to
    ensures AllLinked(s', {})
  {
    forall c, k, sy, r | Listed(s', c, k, sy, r)
      ensures SlotOk(s', c, k, r)
    {
      OwnerBefore(s, s', from, to, kind, env, sym, c, k, sy, r);
      if !ToMove(s, from, kind, env, sym, r) { assert SlotOk(s, c, k, r); }
    }
  }

  lemma MoveAgrees(s: State, s': State, from: nat, to: nat, toCell: Cell, kind: Kind, env: nat, sym: Symbol)
    requires OneOwner(s) && AgreeBut(s, from, toCell, env, sym) && Moved(s, s', from, to, kind, env, sym) && from != to
    requires Attached(s, toCell, to)
    ensures AgreeBut(s', from, toCell, env, sym)
  {
    FindAllSame(s, s');
    forall c, k, sy, r | Listed(s', c, k, sy, r)
      ensures if c == from && sy == sym && Under(s', RefEnv(s', r), env) then FindCell(s', RefEnv(s', r), sym) == toCell
        else Attached(s', FindCell(s', RefEnv(s', r), sy), c)
    {
      OwnerBefore(s, s', from, to, kind, env, sym, c, k, sy, r);
      UnderSame(s, s', RefEnv(s, r), env);
      assert !ToMove(s, from, kind, env, sym, r) ==> Listed(s, c, k, sy, r);
      if ToMove(s, from, kind, env, sym, r) {
        assert Listed(s, from, kind, sym, r);
        assert FindCell(s, RefEnv(s, r), sym) == toCell;
      }
    }
  }

  lemma MoveLeaves(s: State, s': State, from: nat, to: nat, kind: Kind, env: nat, sym: Symbol, k: Kind)
    requires Moved(s, s', from, to, kind, env, sym) && from != to
    requires k == kind || NoneLeft(s, from, k, env, sym)
    ensures NoneLeft(s', from, k, env, sym)
  {
    forall r ensures !ToMove(s', from, k, env, sym, r) {
      UnderSame(s, s', RefEnv(s, r), env);
      assert Listed(s', from, k, sym, r) ==> Listed(s, from, k, sym, r);
      assert !ToMove(s, from, k, env, sym, r) || k == kind;
    }
  }

  /** What holds between the steps of update_cache_references. */
  ghost predicate Moving(s: State, from: nat, to: nat, toCell: Cell, env: nat, sym: Symbol) {
    && Sound(s) && OneOwner(s) && AllLinked(s, {}) && AgreeBut(s, from, toCell, env, sym) && Cloned(s, {from, to})
    && from in s.refs && to in s.refs && from != to && Attached(s, toCell, to)
  }

  lemma MoveKeeps(s: State, from: nat, to: nat, toCell: Cell, kind: Kind, env: nat, sym: Symbol)
    requires Moving(s, from, to, toCell, env, sym)
    ensures var s' := MoveRefPairs(s, from, to, kind, env, sym);
      && Moving(s', from, to, toCell, env, sym) && Moved(s, s', from, to, kind, env, sym) &&
         NoneLeft(s', from, kind, env, sym)
      && s'.frames == s.frames && s'.blockEnv == s.blockEnv
  {
    hide Listed, Under, Linked, AgreeBut, Agree, OneOwner, MoveRefPairs;
    var s' := MoveRefPairs(s, from, to, kind, env, sym);
    assert CacheOk(s, from) && CacheOk(s, to);
    assert UniqueSyms(Alist(s.refs[from], kind)) && UniqueSyms(Alist(s.refs[to], kind));
    MovedRefs(s, from, to, kind, env, sym);
    MoveSound(s, s', from, to, kind, env, sym);
    MoveOwners(s, s', from, to, kind, env, sym);
    MoveLinks(s, s', from, to, kind, env, sym);
    MoveAgrees(s, s', from, to, toCell, kind, env, sym);
    MoveLeaves(s, s', from, to, kind, env, sym, kind);
    forall c | c !in {from, to} ensures CloneOk(s', c) { assert CloneOk(s, c); }
  }

  /** After the three moves no reference is misplaced. */
  lemma AllMoved(s: State, from: nat, toCell: Cell, env: nat, sym: Symbol)
    requires AgreeBut(s, from, toCell, env, sym)
    requires NoneLeft(s, from, Lookups, env, sym) && NoneLeft(s, from, Assignments, env, sym) &&
      NoneLeft(s, from, Operators, env, sym)
    ensures Agree(s)
  {
    forall c, k, sy, r | Listed(s, c, k, sy, r) ensures Attached(s, FindCell(s, RefEnv(s, r), sy), c) {
      assert !ToMove(s, from, k, env, sym, r);
    }
  }

  /** update_cache_references puts every misplaced reference where it belongs. */
  lemma UpdatedReferences(s: State, from: nat, toCell: Cell, env: nat, sym: Symbol)
    requires Sound(s) && OneOwner(s) && AllLinked(s, {}) && Cloned(s, {}) && AgreeBut(s, from, toCell, env, sym)
    requires from in s.refs && !Attached(s, toCell, from) && (toCell.ArgCell? ==> Get(s, toCell) != Unbound)
    ensures var s' := UpdateCacheReferences(s, from, toCell, env, sym);
      Inv(s') && s'.frames == s.frames && s'.blockEnv == s.blockEnv
  {
    var s1 := GuaranteeCache(s, toCell);
    var to := AttachedTo(s1, toCell);
    GuaranteedMoving(s, from, toCell, env, sym);
    hide Listed, Under, Linked, AgreeBut, Agree, OneOwner, MoveRefPairs, GuaranteeCache, Moved, NoneLeft, Sound;
    MoveKeeps(s1, from, to, toCell, Lookups, env, sym);
    var s2 := MoveRefPairs(s1, from, to, Lookups, env, sym);
    MoveKeeps(s2, from, to, toCell, Assignments, env, sym);
    var s3 := MoveRefPairs(s2, from, to, Assignments, env, sym);
    MoveLeaves(s2, s3, from, to, Assignments, env, sym, Lookups);
    MoveKeeps(s3, from, to, toCell, Operators, env, sym);
    var s4 := MoveRefPairs(s3, from, to, Operators, env, sym);
    MoveLeaves(s3, s4, from, to, Operators, env, sym, Lookups);
    MoveLeaves(s3, s4, from, to, Operators, env, sym, Assignments);
    AllMoved(s4, from, toCell, env, sym);
    TwoClones(s4, to, from);
  }

  lemma TwoClones(s: State, to: nat, from: nat)
    requires Sound(s) && OneOwner(s) && AllLinked(s, {}) && Agree(s) && Cloned(s, {from, to}) && from in s.refs &&
      to in s.refs
    ensures var s' := UpdateClone(UpdateClone(s, to), from);
      Inv(s') && s'.frames == s.frames && s'.blockEnv == s.blockEnv
  {
    hide Listed, Linked, Agree, OneOwner, Sound, UpdateClone;
    var s1 := UpdateClone(s, to);
    UpdatedClone(s, to, {});
    SameListsAgree(s, s1);
    assert {from} + {to} == {from, to};
    ClonedStays(s, s1, to, {from});
    var s2 := UpdateClone(s1, from);
    UpdatedClone(s1, from, {});
    SameListsAgree(s1, s2);
    assert {} + {from} == {from};
    ClonedStays(s1, s2, from, {});
  }

  lemma GuaranteedMoving(s: State, from: nat, toCell: Cell, env: nat, sym: Symbol)
    requires Sound(s) && OneOwner(s) && AllLinked(s, {}) && Cloned(s, {}) && AgreeBut(s, from, toCell, env, sym)
    requires from in s.refs && !Attached(s, toCell, from) && (toCell.ArgCell? ==> Get(s, toCell) != Unbound)
    ensures var s1 := GuaranteeCache(s, toCell); Moving(s1, from, AttachedTo(s1, toCell), toCell, env, sym)
    ensures var s1 := GuaranteeCache(s, toCell); s1.frames == s.frames && s1.blockEnv == s.blockEnv
  {
    var s1 := GuaranteeCache(s, toCell);
    GuaranteedCache(s, toCell);
    NextIsFresh(s);
    assert AttachedTo(s1, toCell) != from;
    ExtendsKeeps(s, s1);
    FindAllSame(s, s1);
    forall c, k, sy, r | Listed(s1, c, k, sy, r)
      ensures if c == from && sy == sym && Under(s1, RefEnv(s1, r), env) then FindCell(s1, RefEnv(s1, r), sym) == toCell
        else Attached(s1, FindCell(s1, RefEnv(s1, r), sy), c)
    {
      UnderSame(s, s1, RefEnv(s, r), env);
      assert Listed(s, c, k, sy, r);
    }
  }

  lemma ExtendsKeeps(s: State, s1: State)
    requires Sound(s) && Extends(s, s1) && OneOwner(s) && AllLinked(s, {}) && Cloned(s, {})
    ensures OneOwner(s1) && AllLinked(s1, {}) && Cloned(s1, {})
  {
    forall c, k, sy, r | Listed(s1, c, k, sy, r)
      ensures SlotOk(s1, c, k, r)
    {
      assert Listed(s, c, k, sy, r) && SlotOk(s, c, k, r) && CacheOk(s, c);
      assert c in s.caches;
    }
    forall c ensures CloneOk(s1, c) {
      assert CloneOk(s, c);
      assert c in s.refs ==> CacheOk(s, c) && c in s.caches;
    }
    forall c, k, sy, c', k', sy', r | Listed(s1, c, k, sy, r) && Listed(s1, c', k', sy', r)
      ensures c == c' && k == k' && sy == sy'
    {
      assert Listed(s, c, k, sy, r) && Listed(s, c', k', sy', r);
    }
  }
}
