/** The operations as the microcode performs them, updating cells, caches, lists and blocks in place. */
module LookupStore {
  import opened LookupState
  import opened LookupLists
  import opened LookupCaches
  import opened LookupMoves
  import opened LookupOperations
  import opened LookupBindings
  import opened LookupUnbind
  import opened LookupRuns
  import opened LookupLaws

  lemma {:induction false} AllRefsAppend(a: seq<Entry>, b: seq<Entry>)
    ensures AllRefs(a + b) == AllRefs(a) + AllRefs(b) && Pruned(a + b) == Pruned(a) + Pruned(b)
  {
    if a == [] {
      assert a + b == b;
    } else {
      assert (a + b)[1..] == a[1..] + b;
      AllRefsAppend(a[1..], b);
    }
  }

  lemma AllRefsSnoc(a: seq<Entry>, e: Entry)
    ensures AllRefs(a + [e]) == AllRefs(a) + e.refs && Pruned(a + [e]) == Pruned(a) + if e.refs != [] then [e] else []
  {
    AllRefsAppend(a, [e]);
    assert [e][1..] == [];
    assert AllRefs([e]) == e.refs + [];
    assert Pruned([e]) == if e.refs != [] then [e] + [] else [];
  }

  lemma WriteSnoc(s: State, rs: seq<Ref>, r: Ref, slot: Slot)
    ensures Write(s, rs + [r], slot).slots == Write(s, rs, slot).slots[r := slot]
  {
    assert forall q :: q in rs + [r] <==> q in rs || q == r;
  }

  lemma WriteNone(s: State, slot: Slot)
    ensures Write(s, [], slot).slots == s.slots
  {}

  lemma {:induction false} PartsSnoc(s: State, env: nat, rs: seq<Ref>, r: Ref)
    ensures Inside(s, env, rs + [r]) == Inside(s, env, rs) + if Under(s, RefEnv(s, r), env) then [r] else []
    ensures Outside(s, env, rs + [r]) == Outside(s, env, rs) + if Under(s, RefEnv(s, r), env) then [] else [r]
  {
    if rs == [] {
      assert rs + [r] == [r];
      assert Inside(s, env, [r][1..]) == [] && Outside(s, env, [r][1..]) == [];
    } else {
      assert (rs + [r])[1..] == rs[1..] + [r];
      PartsSnoc(s, env, rs[1..], r);
    }
  }

  lemma {:induction false} ReversedSnoc(rs: seq<Ref>, r: Ref)
    ensures Reversed(rs + [r]) == [r] + Reversed(rs)
  {
    if rs == [] {
      assert rs + [r] == [r] && [r][1..] == [];
    } else {
      assert (rs + [r])[1..] == rs[1..] + [r];
      ReversedSnoc(rs[1..], r);
    }
  }

  lemma {:induction false} ReplacedTwice(al: seq<Entry>, sym: Symbol, a: seq<Ref>, b: seq<Ref>)
    requires HasEntry(al, sym)
    ensures HasEntry(ReplaceRefs(al, sym, a), sym) &&
      ReplaceRefs(ReplaceRefs(al, sym, a), sym, b) == ReplaceRefs(al, sym, b)
    ensures RefsOf(ReplaceRefs(al, sym, a), sym) == a
  {
    var al' := ReplaceRefs(al, sym, a);
    if al[0].sym == sym {
      assert al'[1..] == al[1..];
    } else {
      assert al'[1..] == ReplaceRefs(al[1..], sym, a);
      ReplacedTwice(al[1..], sym, a, b);
    }
  }

  lemma SetTwice(al: seq<Entry>, sym: Symbol, a: seq<Ref>, b: seq<Ref>)
    ensures SetRefs(SetRefs(al, sym, a), sym, b) == SetRefs(al, sym, b)
    ensures RefsOf(SetRefs(al, sym, a), sym) == a
  {
    if HasEntry(al, sym) {
      ReplacedTwice(al, sym, a, b);
    } else {
      assert SetRefs(al, sym, a)[1..] == al;
    }
  }

  lemma {:induction false} SetSame(al: seq<Entry>, sym: Symbol)
    requires HasEntry(al, sym)
    ensures SetRefs(al, sym, RefsOf(al, sym)) == al
  {
    if al[0].sym != sym { SetSame(al[1..], sym); }
  }

  lemma NothingMoved(s: State, from: nat, to: nat, kind: Kind, env: nat, sym: Symbol)
    ensures !HasEntry(ListOf(s, from, kind), sym) ==> MoveRefPairs(s, from, to, kind, env, sym) == s
    ensures Inside(s, env, []) == Outside(s, env, []) == []
  {
    hide SetRefs, Under, Installed;
  }

  lemma ListTwice(rs: Refs, kind: Kind, a: seq<Entry>, b: seq<Entry>)
    ensures WithAlist(WithAlist(rs, kind, a), kind, b) == WithAlist(rs, kind, b)
    ensures Alist(WithAlist(rs, kind, a), kind) == a && WithAlist(rs, kind, Alist(rs, kind)) == rs
  {}

  /** How far move_ref_pairs has come: `left` stays with `from`, `moved` is listed at `to` and linked to it. */
  ghost predicate HalfMoved(s: State, now: State, from: nat, to: nat, kind: Kind, sym: Symbol, left: seq<Ref>,
                            moved: seq<Ref>)
    requires from in s.refs && to in s.refs
  {
    && now == s.(refs := now.refs, slots := now.slots)
    && now.slots == Write(s, moved, Installed(s, to, kind)).slots
    && now.refs == s.refs[from := WithAlist(s.refs[from], kind, SetRefs(ListOf(s, from, kind), sym, left))]
                         [to := if moved == [] then s.refs[to]
                           else WithAlist(s.refs[to], kind,
                                          SetRefs(ListOf(s, to, kind), sym,
                                                  Reversed(moved) + RefsOf(ListOf(s, to, kind), sym)))]
  }

  lemma NoneMoved(s: State, from: nat, to: nat, kind: Kind, sym: Symbol)
    requires from in s.refs && to in s.refs && from != to && HasEntry(ListOf(s, from, kind), sym)
    ensures HalfMoved(s, s, from, to, kind, sym, RefsOf(ListOf(s, from, kind), sym), [])
  {
    SetSame(ListOf(s, from, kind), sym);
    ListTwice(s.refs[from], kind, [], []);
    WriteNone(s, Installed(s, to, kind));
  }

  lemma AllPairsMoved(s: State, now: State, from: nat, to: nat, kind: Kind, env: nat, sym: Symbol)
    requires from in s.refs && to in s.refs && from != to && HasEntry(ListOf(s, from, kind), sym)
    requires var rs := RefsOf(ListOf(s, from, kind), sym);
      HalfMoved(s, now, from, to, kind, sym, Outside(s, env, rs), Inside(s, env, rs))
    ensures now == MoveRefPairs(s, from, to, kind, env, sym) && now.refs.Keys == s.refs.Keys
  {
    var moved := Inside(s, env, RefsOf(ListOf(s, from, kind), sym));
    var s1 := Unlisted(s, from, kind, env, sym);
    WriteNone(s, Installed(s, to, kind));
    assert ListOf(s1, to, kind) == ListOf(s, to, kind);
    assert now.refs == if moved == [] then s1.refs else Relisted(s1, to, kind, moved, sym).refs;
  }

  /** Where a reference moves from list to list. */
  lemma PairMoved(s: State, now: State, later: State, from: nat, to: nat, kind: Kind, sym: Symbol, left: seq<Ref>,
                  rest: seq<Ref>, moved: seq<Ref>, r: Ref)
    requires from in s.refs && to in s.refs && from != to
    requires HalfMoved(s, now, from, to, kind, sym, left + ([r] + rest), moved)
    requires later == now.(refs := later.refs, slots := now.slots[r := Installed(now, to, kind)])
    requires later.refs ==
      now.refs[from := WithAlist(now.refs[from], kind, SetRefs(ListOf(now, from, kind), sym, left + rest))]
                                   [to := WithAlist(now.refs[to], kind,
                                                    SetRefs(ListOf(now, to, kind), sym,
                                                            [r] + RefsOf(ListOf(now, to, kind), sym)))]
    ensures HalfMoved(s, later, from, to, kind, sym, left + rest, moved + [r])
  {
    hide Write, Reversed, SetRefs, RefsOf, WithAlist, Alist;
    WriteSnoc(s, moved, r, Installed(s, to, kind));
    var fromList := Alist(s.refs[from], kind);
    var f1, f2 := SetRefs(fromList, sym, left + ([r] + rest)), SetRefs(fromList, sym, left + rest);
    SetTwice(fromList, sym, left + ([r] + rest), left + rest);
    ListTwice(s.refs[from], kind, f1, f2);
    assert now.refs[from] == WithAlist(s.refs[from], kind, f1);
    NewHead(moved, s.refs[to], now.refs[to], kind, sym, r);
    TwoPuts(s.refs, from, to, now.refs[from], now.refs[to], later.refs[from], later.refs[to]);
  }

  /** Listing one more moved reference. */
  lemma NewHead(moved: seq<Ref>, rs: Refs, now: Refs, kind: Kind, sym: Symbol, r: Ref)
    requires now == if moved == [] then rs
      else WithAlist(rs, kind, SetRefs(Alist(rs, kind), sym, Reversed(moved) + RefsOf(Alist(rs, kind), sym)))
    ensures WithAlist(now, kind, SetRefs(Alist(now, kind), sym, [r] + RefsOf(Alist(now, kind), sym))) ==
      WithAlist(rs, kind, SetRefs(Alist(rs, kind), sym, Reversed(moved + [r]) + RefsOf(Alist(rs, kind), sym)))
  {
    hide SetRefs, RefsOf, WithAlist, Alist;
    ReversedSnoc(moved, r);
    var al := Alist(rs, kind);
    var before := Reversed(moved) + RefsOf(al, sym);
    assert [r] + before == Reversed(moved + [r]) + RefsOf(al, sym);
    if moved == [] {
      assert before == RefsOf(al, sym);
    } else {
      SetTwice(al, sym, before, [r] + before);
      ListTwice(rs, kind, SetRefs(al, sym, before), SetRefs(al, sym, [r] + before));
    }
  }

  lemma TwoPuts<V>(m: map<nat, V>, a: nat, b: nat, v: V, w: V, v': V, w': V)
    requires a != b
    ensures m[a := v][b := w][a := v'][b := w'] == m[a := v'][b := w']
  {}

  class Store {
    var frames: seq<Frame>
    var cells: map<Cell, Object>
    var caches: map<nat, Cache>
    var refs: map<nat, Refs>
    var slots: map<Ref, Slot>
    var blockEnv: map<int, nat>
    var next: nat

    function Now(): State
      reads this
    {
      State(frames, cells, caches, refs, slots, blockEnv, next)
    }

    constructor ()
      ensures Now() == Initial() && Inv(Now())
    {
      frames, cells, caches, refs, slots, blockEnv, next := [Global], map[], map[], map[], map[], map[], 1;
      new;
      InitialInv();
    }

    /** scan_procedure_bindings. */
    method ScanProcedureBindings(f: nat, params: seq<Symbol>, sym: Symbol, findUnbound: bool) returns (found: Found)
      ensures found == ScanParameters(Now(), f, params, 0, sym, findUnbound)
    {
      var scan := 0;
      while scan < |params|
        invariant 0 <= scan <= |params|
        invariant ScanParameters(Now(), f, params, scan, sym, findUnbound) ==
          ScanParameters(Now(), f, params, 0, sym, findUnbound)
      {
        if params[scan] == sym {
          var cell := ArgCell(f, scan);
          if findUnbound || Get(Now(), cell) != Unbound {
            return Some(cell);
          }
        }
        scan := scan + 1;
      }
      found := None;
    }

    /** scan_frame. */
    method ScanFrameFor(f: nat, sym: Symbol, findUnbound: bool) returns (found: Found)
      ensures found == ScanFrame(Now(), f, sym, findUnbound)
    {
      if IsFrame(Now(), f) {
        var ext := frames[f].ext;
        var scan := 0;
        assert ext[0..] == ext;
        while scan < |ext|
          invariant 0 <= scan <= |ext|
          invariant ScanExtension(f, ext[scan..], sym) == ScanExtension(f, ext, sym)
        {
          if ext[scan].sym == sym {
            return Some(ExtCell(f, ext[scan].id));
          }
          assert ext[scan..][1..] == ext[scan + 1..];
          scan := scan + 1;
        }
        found := ScanProcedureBindings(f, frames[f].params, sym, findUnbound);
      } else {
        found := Some(GlobalCell(sym));
      }
    }

    /** find_binding_cell. */
    method FindBindingCell(env: nat, sym: Symbol) returns (cell: Cell)
      ensures cell == FindCell(Now(), env, sym)
    {
      var frame := env;
      while true
        invariant FindCell(Now(), frame, sym) == FindCell(Now(), env, sym)
        decreases frame
      {
        var found := ScanFrameFor(frame, sym, false);
        if found.Some? {
          return found.cell;
        }
        if !IsFrame(Now(), frame) {
          return GlobalCell(sym);
        }
        frame := frames[frame].parent;
      }
    }

    /** move_ref_pair_p. */
    method MoveRefPairP(r: Ref, ancestor: nat) returns (inside: bool)
      ensures inside == Under(Now(), RefEnv(Now(), r), ancestor)
    {
      var descendant := RefEnv(Now(), r);
      while IsFrame(Now(), descendant)
        invariant Under(Now(), descendant, ancestor) == Under(Now(), RefEnv(Now(), r), ancestor)
        decreases descendant
      {
        if descendant == ancestor {
          return true;
        }
        descendant := frames[descendant].parent;
      }
      inside := descendant == ancestor;
    }

    /** guarantee_cache. */
    method Guarantee(cell: Cell)
      modifies this
      ensures Now() == GuaranteeCache(old(Now()), cell)
    {
      if !Get(Now(), cell).Cached? {
        var c := next;
        caches := caches[c := Cache(Get(Now(), cell), 0)];
        refs := refs[c := Refs([], [], [])];
        cells := cells[cell := Cached(c)];
        next := c + 1;
      }
    }

    /** Walk over a list of references of c, writing the slot to each and dropping empty entries. */
    method WalkAndWrite(c: nat, kind: Kind, slot: Slot)
      requires c in refs
      modifies this`slots, this`refs
      ensures var s := old(Now()); var al := ListOf(s, c, kind);
        Now() == Write(WithList(s, c, kind, Pruned(al)), AllRefs(al), slot)
    {
      ghost var s := Now();
      var al := Alist(refs[c], kind);
      var kept: seq<Entry> := [];
      var i := 0;
      WriteNone(s, slot);
      assert al[..0] == [];
      while i < |al|
        invariant 0 <= i <= |al| && kept == Pruned(al[..i]) && refs == s.refs
        invariant slots == Write(s, AllRefs(al[..i]), slot).slots
      {
        WriteEntry(al[i].refs, slot, s, AllRefs(al[..i]));
        assert al[..i + 1] == al[..i] + [al[i]];
        AllRefsSnoc(al[..i], al[i]);
        if al[i].refs != [] {
          kept := kept + [al[i]];
        }
        i := i + 1;
      }
      assert al[..|al|] == al;
      refs := refs[c := WithAlist(refs[c], kind, kept)];
    }

    /** Write the slot to each reference of one entry. */
    method WriteEntry(rs: seq<Ref>, slot: Slot, ghost s: State, ghost before: seq<Ref>)
      requires slots == Write(s, before, slot).slots
      modifies this`slots
      ensures slots == Write(s, before + rs, slot).slots
    {
      var j := 0;
      assert before + rs[..0] == before;
      while j < |rs|
        invariant 0 <= j <= |rs| && slots == Write(s, before + rs[..j], slot).slots
      {
        slots := slots[rs[j] := slot];
        WriteSnoc(s, before + rs[..j], rs[j], slot);
        assert before + rs[..j + 1] == before + rs[..j] + [rs[j]];
        j := j + 1;
      }
      assert rs[..|rs|] == rs;
    }

    /** update_assignment_references. */
    method UpdateAssignments(c: nat)
      requires c in refs
      modifies this`slots, this`refs
      ensures Now() == UpdateAssignmentReferences(old(Now()), c)
    {
      WalkAndWrite(c, Assignments, VariableSlot(AssignmentTarget(Now(), c)));
    }

    /** update_clone. */
    method CloneUpdate(c: nat)
      requires c in refs && c in caches && c < next
      modifies this
      ensures Now() == UpdateClone(old(Now()), c)
      ensures refs.Keys == old(refs.Keys) && old(caches.Keys) <= caches.Keys && old(next) <= next
    {
      if refs[c].assignments != [] && refs[c].operators != [] {
        if caches[c].clone == 0 {
          var clone := next;
          caches := caches[clone := Cache(Expensive, c)];
          next := clone + 1;
          caches := caches[c := caches[c].(clone := clone)];
          UpdateAssignments(c);
        }
      } else {
        if caches[c].clone != 0 {
          caches := caches[c := caches[c].(clone := 0)];
          UpdateAssignments(c);
        }
      }
    }

    // -------------------------------------------------------------- moving references

    /** Splice one reference out of the list of `from` and into that of `to`. */
    method MovePair(from: nat, to: nat, kind: Kind, sym: Symbol, left: seq<Ref>, rest: seq<Ref>, r: Ref,
                    ghost s: State, ghost moved: seq<Ref>)
      requires from in s.refs && to in s.refs && from != to &&
        HalfMoved(s, Now(), from, to, kind, sym, left + ([r] + rest), moved)
      modifies this`slots, this`refs
      ensures HalfMoved(s, Now(), from, to, kind, sym, left + rest, moved + [r])
    {
      hide Write, Reversed, SetRefs, RefsOf, WithAlist, Alist;
      ghost var now := Now();
      refs := refs[from := WithAlist(refs[from], kind, SetRefs(Alist(refs[from], kind), sym, left + rest))];
      refs := refs[to := WithAlist(refs[to], kind,
                                   SetRefs(Alist(refs[to], kind), sym, [r] + RefsOf(Alist(refs[to], kind), sym)))];
      slots := slots[r := Installed(Now(), to, kind)];
      PairMoved(s, now, Now(), from, to, kind, sym, left, rest, moved, r);
    }

    /** move_ref_pairs. */
    method MovePairs(from: nat, to: nat, kind: Kind, env: nat, sym: Symbol)
      requires from in refs && to in refs && from != to
      modifies this`slots, this`refs
      ensures Now() == MoveRefPairs(old(Now()), from, to, kind, env, sym) && refs.Keys == old(refs.Keys)
    {
      hide HalfMoved, Under, Inside, Outside, MoveRefPairs, SetRefs, Installed;
      ghost var s := Now();
      NothingMoved(s, from, to, kind, env, sym);
      if HasEntry(Alist(refs[from], kind), sym) {
        var prefs := RefsOf(Alist(refs[from], kind), sym);
        var left: seq<Ref> := [];
        ghost var moved: seq<Ref> := [];
        var i := 0;
        NoneMoved(s, from, to, kind, sym);
        assert prefs[..0] == [] && left + prefs[0..] == prefs;
        while i < |prefs|
          invariant 0 <= i <= |prefs| && left == Outside(s, env, prefs[..i]) && moved == Inside(s, env, prefs[..i])
          invariant HalfMoved(s, Now(), from, to, kind, sym, left + prefs[i..], moved)
        {
          var r := prefs[i];
          ghost var now := Now();
          assert prefs[..i + 1] == prefs[..i] + [r] && prefs[i..] == [r] + prefs[i + 1..];
          PartsSnoc(s, env, prefs[..i], r);
          var inside := MoveRefPairP(r, env);
          UnderSame(s, now, RefEnv(s, r), env);
          if inside {
            MovePair(from, to, kind, sym, left, prefs[i + 1..], r, s, moved);
            moved := moved + [r];
          } else {
            left := left + [r];
            assert left + prefs[i + 1..] == Outside(s, env, prefs[..i]) + prefs[i..];
          }
          i := i + 1;
        }
        assert prefs[..|prefs|] == prefs && left + prefs[|prefs|..] == left;
        AllPairsMoved(s, Now(), from, to, kind, env, sym);
      }
    }

    /** update_cache_references. */
    method UpdateReferences(from: nat, toCell: Cell, env: nat, sym: Symbol)
      requires Sound(Now()) && from in refs && !Attached(Now(), toCell, from) &&
        (toCell.ArgCell? ==> Get(Now(), toCell) != Unbound)
      modifies this
      ensures Now() == UpdateCacheReferences(old(Now()), from, toCell, env, sym)
    {
      GuaranteedCache(Now(), toCell);
      NextIsFresh(Now());
      Guarantee(toCell);
      var to := AttachedTo(Now(), toCell);
      assert CacheOk(Now(), from) && CacheOk(Now(), to);
      MovePairs(from, to, Lookups, env, sym);
      MovePairs(from, to, Assignments, env, sym);
      MovePairs(from, to, Operators, env, sym);
      CloneUpdate(to);
      CloneUpdate(from);
    }

    // -------------------------------------------------------------- assignment

    /** count_references, which drops empty entries. */
    method CountReferences(c: nat, kind: Kind) returns (n: nat)
      requires c in refs
      modifies this`refs
      ensures var s := old(Now());
        Now() == WithList(s, c, kind, Pruned(ListOf(s, c, kind))) && n == |AllRefs(ListOf(s, c, kind))|
    {
      var al := Alist(refs[c], kind);
      var kept: seq<Entry> := [];
      var i := 0;
      n := 0;
      assert al[..0] == [];
      while i < |al|
        invariant 0 <= i <= |al| && kept == Pruned(al[..i]) && n == |AllRefs(al[..i])| && refs == old(refs)
      {
        assert al[..i + 1] == al[..i] + [al[i]];
        AllRefsSnoc(al[..i], al[i]);
        n := n + |al[i].refs|;
        if al[i].refs != [] {
          kept := kept + [al[i]];
        }
        i := i + 1;
      }
      assert al[..|al|] == al;
      refs := refs[c := WithAlist(refs[c], kind, kept)];
    }

    /** update_uuo_links. */
    method UpdateLinks(c: nat, v: Object)
      requires c in refs && c in caches && c < next
      modifies this
      ensures Now() == UpdateUuoLinks(old(Now()), c, v)
    {
      var n := CountReferences(c, Operators);
      caches := caches[c := caches[c].(value := v)];
      CloneUpdate(c);
      WalkAndWrite(c, Operators, UuoLink(v, c));
    }

    /** assign_variable_cache. */
    method AssignThroughCache(c: nat, v: Object, force: bool) returns (status: Status)
      requires c in refs && c in caches && c < next
      modifies this
      ensures (Now(), status) == AssignCache(old(Now()), c, v, force)
    {
      var oldValue := caches[c].value;
      if !Assignable(oldValue, force) {
        return Reference(oldValue);
      }
      if refs[c].operators != [] {
        UpdateLinks(c, v);
      } else {
        caches := caches[c := caches[c].(value := v)];
      }
      status := Done;
    }

    /** assign_variable_end. */
    method AssignCell(cell: Cell, v: Object, force: bool) returns (status: Status)
      requires Sound(Now())
      modifies this
      ensures (Now(), status) == AssignEnd(old(Now()), cell, v, force)
    {
      assert CellOk(Now(), cell);
      var oldValue := Get(Now(), cell);
      if oldValue.Cached? {
        status := AssignThroughCache(oldValue.cache, v, force);
      } else if Assignable(oldValue, force) {
        cells := cells[cell := v];
        status := Done;
      } else {
        status := Reference(oldValue);
      }
    }

    /** assign_variable. */
    method Assign(env: nat, sym: Symbol, v: Object) returns (status: Status)
      requires Sound(Now())
      modifies this
      ensures (Now(), status) == AssignVariable(old(Now()), env, sym, v)
      ensures env < |old(frames)| && Storable(v) ==> Assigns(old(Now()), Now(), status, env, sym, v)
    {
      if env < |frames| && Storable(v) { AssignLaw(Now(), env, sym, v); }
      var cell := FindBindingCell(env, sym);
      status := AssignCell(cell, v, false);
    }

    // -------------------------------------------------------------- definition and removal

    /** define_variable. */
    method Define(env: nat, sym: Symbol, v: Object) returns (status: Status)
      requires Inv(Now()) && env < |frames| && Storable(v)
      modifies this
      ensures (Now(), status) == DefineVariable(old(Now()), env, sym, v)
      ensures Defines(old(Now()), Now(), status, env, sym, v)
    {
      hide Defines;
      ghost var s := Now();
      DefineLaw(s, env, sym, v);
      var found := ScanFrameFor(env, sym, true);
      if found.Some? {
        status := AssignCell(found.cell, v, true);
        return;
      }
      var shadowed := FindBindingCell(frames[env].parent, sym);
      var w := Get(Now(), shadowed);
      var cell := ExtCell(env, next);
      BindSound(s, env, sym, v);
      assert CellOk(s, shadowed) && CellOk(s, cell);
      frames := frames[env := frames[env].(ext := frames[env].ext + [Binding(sym, next)])];
      cells := cells[cell := v];
      next := next + 1;
      assert Now() == Bind(s, env, sym, v);
      if w.Cached? {
        UpdateReferences(w.cache, cell, env, sym);
      }
      status := Done;
    }

    /** unbind_variable_1: the last binding of the extension takes the place of the removed one. */
    method UnbindCell(cell: Cell, sym: Symbol)
      requires cell.ExtCell? ==> IsFrame(Now(), cell.frame) && exists i ::
        0 <= i < |frames[cell.frame].ext| && frames[cell.frame].ext[i].sym == sym
      modifies this`frames, this`cells
      ensures Now() == Unbind1(old(Now()), cell, sym)
    {
      if cell.ExtCell? {
        var ext := frames[cell.frame].ext;
        var index := 0;
        IndexOfIs(ext, sym);
        assert ext[0..] == ext;
        while index < |ext|
          invariant 0 <= index <= |ext| && index + IndexOf(ext[index..], sym) == IndexOf(ext, sym)
          decreases |ext| - index
        {
          if ext[index].sym == sym {
            if index < |ext| - 1 {
              ext := ext[index := ext[|ext| - 1]];
            }
            frames := frames[cell.frame := frames[cell.frame].(ext := ext[..|ext| - 1])];
            return;
          }
          assert ext[index..][1..] == ext[index + 1..];
          index := index + 1;
        }
      }
      cells := cells[cell := Unbound];
    }

    /** unbind_variable. */
    method Unbind(env: nat, sym: Symbol) returns (bound: bool)
      requires Inv(Now()) && env < |frames|
      modifies this
      ensures (Now(), bound) == UnbindVariable(old(Now()), env, sym)
      ensures Unbinds(old(Now()), Now(), bound, env, sym)
    {
      hide Unbinds;
      ghost var s := Now();
      UnbindLaw(s, env, sym);
      var cell := FindBindingCell(env, sym);
      FoundFrame(s, env, sym);
      assert CellOk(s, cell);
      HasBinding(s, env, sym);
      var v := Get(Now(), cell);
      if v.Cached? {
        if caches[v.cache].value == Unbound {
          return false;
        }
        if IsFrame(Now(), FrameOf(cell)) {
          UnbindCachedCell(cell, v.cache, env, sym);
        } else {
          caches := caches[v.cache := caches[v.cache].(value := Unbound)];
        }
        return true;
      }
      if v == Unbound {
        return false;
      }
      UnbindCell(cell, sym);
      bound := true;
    }

    /** unbind_cached_variable. */
    method UnbindCachedCell(cell: Cell, c: nat, ghost env: nat, sym: Symbol)
      requires Inv(Now()) && env < |frames| && cell == FindCell(Now(), env, sym) && Attached(Now(), cell, c) &&
        IsFrame(Now(), FrameOf(cell))
      modifies this
      ensures Now() == UnbindCached(old(Now()), cell, c, sym)
    {
      ghost var s := Now();
      FoundFrame(s, env, sym);
      HasBinding(s, env, sym);
      var shadowed := FindBindingCell(frames[FrameOf(cell)].parent, sym);
      ShadowedIsOther(s, env, sym);
      assert CellOk(s, cell);
      assert !Attached(s, shadowed, c);
      UnbindSound(s, cell, sym);
      UnbindCell(cell, sym);
      UpdateReferences(c, shadowed, FrameOf(cell), sym);
    }

    // -------------------------------------------------------------- compiled code

    /** add_cache_reference. */
    method AddReference(env: nat, sym: Symbol, r: Ref, kind: Kind)
      requires Sound(Now()) && env < |frames|
      modifies this
      ensures Now() == AddCacheReference(old(Now()), env, sym, r, kind)
      ensures SameValues(old(Now()), Now())
    {
      ghost var s := Now();
      CacheLaw(s, env, sym, r, kind);
      var cell := FindBindingCell(env, sym);
      FoundFrame(s, env, sym);
      GuaranteedCache(s, cell);
      Guarantee(cell);
      var c := AttachedTo(Now(), cell);
      assert CacheOk(Now(), c);
      var al := Alist(refs[c], kind);
      refs := refs[c := WithAlist(refs[c], kind, SetRefs(al, sym, RefsOf(al, sym) + [r]))];
      CloneUpdate(c);
      ghost var s2 := Now();
      hide FindCell, GuaranteeCache, UpdateClone, Extends, Sound, Installed, SetRefs, RefsOf, WithAlist, Alist;
      slots := slots[r := Installed(Now(), c, kind)];
      WriteNone(s2, Installed(s2, c, kind));
      WriteSnoc(s2, [], r, Installed(s2, c, kind));
      assert [] + [r] == [r];
    }

    /** An assignment by compiled code; a trap goes to compiler_assignment_trap. */
    method CompiledAssignment(r: Ref, v: Object) returns (status: Status)
      requires Inv(Now()) && exists c, sym :: Listed(Now(), c, Assignments, sym, r)
      modifies this
      ensures (Now(), status) == CompiledAssign(old(Now()), r, v)
      ensures forall c, sym {:trigger Listed(old(Now()), c, Assignments, sym, r)} ::
        Listed(old(Now()), c, Assignments, sym, r) && Storable(v) ==>
          Assigns(old(Now()), Now(), status, RefEnv(old(Now()), r), sym, v)
    {
      hide Assigns;
      ghost var c, sym :| Listed(Now(), c, Assignments, sym, r);
      forall d, sy | Listed(Now(), d, Assignments, sy, r) && Storable(v)
        ensures Assigns(Now(), CompiledAssign(Now(), r, v).0, CompiledAssign(Now(), r, v).1, RefEnv(Now(), r), sy, v)
      {
        CompiledLaw(Now(), d, sy, r, v);
      }
      assert SlotOk(Now(), c, Assignments, r) && CacheOk(Now(), c);
      var k := slots[r].cache;
      var value := caches[k].value;
      if value.Plain? {
        caches := caches[k := caches[k].(value := v)];
        status := Done;
      } else {
        status := AssignThroughCache(if value == Expensive then caches[k].clone else k, v, false);
      }
    }

    /** Any allowed operation keeps compiled references consistent with the environments. */
    method Perform(op: Op)
      requires Inv(Now()) && Allowed(Now(), op)
      modifies this
      ensures Now() == Step(old(Now()), op) && Inv(Now())
    {
      StepKeeps(Now(), op);
      match op {
        case OpFrame(parent, params, args) =>
          var s := MakeFrame(Now(), parent, params, args);
          frames, cells := s.frames, s.cells;
        case OpBlock(block, env) => blockEnv := blockEnv[block := env];
        case OpCache(sym, r, kind) =>
          BlockEnvInRange(Now(), r);
          AddReference(RefEnv(Now(), r), sym, r, kind);
        case OpAssign(env, sym, v) => var status := Assign(env, sym, v);
        case OpDefine(env, sym, v) => var status := Define(env, sym, v);
        case OpUnbind(env, sym) => var bound := Unbind(env, sym);
        case OpCompiledAssign(r, v) => var status := CompiledAssignment(r, v);
      }
    }
  }

  /** A variable found in an extension is bound there. */
  lemma HasBinding(s: State, env: nat, sym: Symbol)
    requires Sound(s) && env < |s.frames|
    ensures var cell := FindCell(s, env, sym);
      cell.ExtCell? ==> IsFrame(s, cell.frame) && exists i ::
        0 <= i < |s.frames[cell.frame].ext| && s.frames[cell.frame].ext[i].sym == sym
  {
    var cell := FindCell(s, env, sym);
    FoundFrame(s, env, sym);
    if cell.ExtCell? {
      ScanExtensionIn(cell.frame, s.frames[cell.frame].ext, sym);
      ScanParametersIn(s, cell.frame, s.frames[cell.frame].params, 0, sym, false);
    }
  }
}
