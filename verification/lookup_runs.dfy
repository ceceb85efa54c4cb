/** Whole runs: frames are made, code is loaded, variables are cached, assigned, defined and unbound. */
module LookupRuns {
  import opened LookupState
  import opened LookupLists
  import opened LookupCaches
  import opened LookupMoves
  import opened LookupOperations
  import opened LookupBindings
  import opened LookupUnbind

  // ---------------------------------------------------------------- compiled code

  /** An assignment by compiled code through the cache in its block: a plain value is replaced on
      the spot, anything else traps to the microcode, which looks through a clone. */
  function CompiledAssign(s: State, r: Ref, v: Object): (State, Status) {
    if r in s.slots && s.slots[r].VariableSlot? then
      var k := s.slots[r].cache;
      if ValueOf(s, k).Plain? then (WithValue(s, k, v), Done)
      else AssignCache(s, if ValueOf(s, k) == Expensive then CloneOf(s, k) else k, v, false)
    else (s, ErrIllegalTrap)
  }

  /** A cached lookup sees what find_binding_cell sees. */
  lemma CompiledLookup(s: State, c: nat, sym: Symbol, r: Ref)
    requires Inv(s) && Listed(s, c, Lookups, sym, r)
    ensures r in s.slots && s.slots[r] == VariableSlot(c)
    ensures LookupVariable(s, RefEnv(s, r), sym) == (Reference(ValueOf(s, c)), ValueOf(s, c))
  {
    assert SlotOk(s, c, Lookups, r);
    assert Attached(s, FindCell(s, RefEnv(s, r), sym), c);
  }

  /** An operator link was made for the present value of the variable. */
  lemma CompiledOperator(s: State, c: nat, sym: Symbol, r: Ref)
    requires Inv(s) && Listed(s, c, Operators, sym, r)
    ensures r in s.slots && s.slots[r] == UuoLink(LookupVariable(s, RefEnv(s, r), sym).1, c)
  {
    assert SlotOk(s, c, Operators, r);
    assert Attached(s, FindCell(s, RefEnv(s, r), sym), c);
  }

  lemma HasRefs(al: seq<Entry>, sym: Symbol, r: Ref)
    requires r in RefsOf(al, sym)
    ensures al != []
  {}

  /** A compiled assignment does what the interpreter's assignment does; no operator link is bypassed. */
  lemma CompiledAssignment(s: State, c: nat, sym: Symbol, r: Ref, v: Object)
    requires Inv(s) && Listed(s, c, Assignments, sym, r)
    ensures CompiledAssign(s, r, v) == AssignVariable(s, RefEnv(s, r), sym, v)
  {
    assert SlotOk(s, c, Assignments, r) && CacheOk(s, c) && CloneOk(s, c);
    assert Attached(s, FindCell(s, RefEnv(s, r), sym), c);
    HasRefs(s.refs[c].assignments, sym, r);
  }

  // ---------------------------------------------------------------- frames and blocks

  /** A procedure application makes a frame. */
  function MakeFrame(s: State, parent: nat, params: seq<Symbol>, args: seq<Object>): State {
    var f := |s.frames|;
    s.(frames := s.frames + [Procedure(parent, params, [])],
       cells := map cell | cell in s.cells.Keys + (set i | 0 <= i < |args| :: ArgCell(f, i)) ::
         if cell.ArgCell? && cell.frame == f && cell.index < |args| then args[cell.index] else s.cells[cell])
  }

  ghost predicate FrameAllowed(s: State, parent: nat, params: seq<Symbol>, args: seq<Object>) {
    && parent < |s.frames| && |params| <= |args|
    && (forall i, j :: 0 <= i < j < |params| ==> params[i] != params[j])
    && (forall i :: 0 <= i < |args| ==> Storable(args[i]))
  }

  /** A block of compiled code is loaded into an environment. */
  function LoadBlock(s: State, block: int, env: nat): State {
    s.(blockEnv := s.blockEnv[block := env])
  }

  lemma {:induction false} FindInOldFrame(s: State, parent: nat, params: seq<Symbol>, args: seq<Object>, f: nat,
                                          sym: Symbol)
    requires f < |s.frames|
    ensures FindCell(MakeFrame(s, parent, params, args), f, sym) == FindCell(s, f, sym)
    decreases f
  {
    var s1 := MakeFrame(s, parent, params, args);
    assert s1.frames[f] == s.frames[f];
    if IsFrame(s, f) {
      OldParameters(s, parent, params, args, f, s.frames[f].params, 0, sym);
      FindInOldFrame(s, parent, params, args, s.frames[f].parent, sym);
    }
  }

  lemma {:induction false} OldParameters(s: State, parent: nat, params: seq<Symbol>, args: seq<Object>, f: nat,
                                         ps: seq<Symbol>, i: nat, sym: Symbol)
    requires f < |s.frames|
    ensures ScanParameters(MakeFrame(s, parent, params, args), f, ps, i, sym, false) ==
      ScanParameters(s, f, ps, i, sym, false)
    decreases |ps| - i
  {
    if i < |ps| { OldParameters(s, parent, params, args, f, ps, i + 1, sym); }
  }

  lemma FrameMade(s: State, parent: nat, params: seq<Symbol>, args: seq<Object>)
    requires Inv(s) && FrameAllowed(s, parent, params, args)
    ensures Inv(MakeFrame(s, parent, params, args))
  {
    var s1 := MakeFrame(s, parent, params, args);
    var n := |s.frames|;
    assert forall c, k, sy, r :: Listed(s1, c, k, sy, r) == Listed(s, c, k, sy, r);
    forall f | 0 <= f < |s1.frames| ensures FrameOk(s1, f) {
      if f < n { assert FrameOk(s, f) && s1.frames[f] == s.frames[f]; }
    }
    forall f | 0 < f < |s1.frames| ensures IsFrame(s1, f) {
      if f < n { assert IsFrame(s, f) && s1.frames[f] == s.frames[f]; }
    }
    forall c | c in s1.refs ensures CacheOk(s1, c) { assert CacheOk(s, c); }
    forall cell ensures CellOk(s1, cell) {
      assert CellOk(s, cell);
      assert Get(s1, cell).Cached? ==> CacheOk(s, Get(s1, cell).cache);
    }
    forall a, b, c | Attached(s1, a, c) && Attached(s1, b, c) ensures a == b {
      assert Attached(s, a, c) && Attached(s, b, c);
    }
    OldReferences(s, s1);
    forall c, k, sy, r | Listed(s1, c, k, sy, r) ensures Attached(s1, FindCell(s1, RefEnv(s1, r), sy), c) {
      var e := RefEnv(s, r);
      assert Listed(s, c, k, sy, r) && Attached(s, FindCell(s, e, sy), c);
      assert r.block in s.blockEnv ==> e < n;
      FindInOldFrame(s, parent, params, args, e, sy);
      FoundFrame(s, e, sy);
    }
  }

  /** The reference lists, caches and slots are the same. */
  lemma OldReferences(s: State, s1: State)
    requires OneOwner(s) && AllLinked(s, {}) && Cloned(s, {})
    requires s1.refs == s.refs && s1.caches == s.caches && s1.slots == s.slots
    ensures OneOwner(s1) && AllLinked(s1, {}) && Cloned(s1, {})
  {
    assert forall c, k, sy, r :: Listed(s1, c, k, sy, r) == Listed(s, c, k, sy, r);
    forall c, k, sy, r | Listed(s1, c, k, sy, r) ensures SlotOk(s1, c, k, r) {
      assert Listed(s, c, k, sy, r) && SlotOk(s, c, k, r);
    }
    forall c ensures CloneOk(s1, c) { assert CloneOk(s, c); }
    forall a, k, sy, b, k', sy', r | Listed(s1, a, k, sy, r) && Listed(s1, b, k', sy', r)
      ensures a == b && k == k' && sy == sy'
    {
      assert Listed(s, a, k, sy, r) && Listed(s, b, k', sy', r);
    }
  }

  lemma BlockLoaded(s: State, block: int, env: nat)
    requires Inv(s) && env < |s.frames|
    requires forall c, k, sy, r {:trigger Listed(s, c, k, sy, r)} :: Listed(s, c, k, sy, r) ==> r.block != block
    ensures Inv(LoadBlock(s, block, env))
  {
    var s1 := LoadBlock(s, block, env);
    assert forall c, k, sy, r :: Listed(s1, c, k, sy, r) == Listed(s, c, k, sy, r);
    FindAllSame(s, s1);
    forall f | 0 <= f < |s1.frames| ensures FrameOk(s1, f) { assert FrameOk(s, f); }
    forall f | 0 < f < |s1.frames| ensures IsFrame(s1, f) { assert IsFrame(s, f); }
    forall c | c in s1.refs ensures CacheOk(s1, c) { assert CacheOk(s, c); }
    forall cell ensures CellOk(s1, cell) { assert CellOk(s, cell); }
    forall a, b, c | Attached(s1, a, c) && Attached(s1, b, c) ensures a == b {
      assert Attached(s, a, c) && Attached(s, b, c);
    }
    OldReferences(s, s1);
    forall c, k, sy, r | Listed(s1, c, k, sy, r) ensures Attached(s1, FindCell(s1, RefEnv(s1, r), sy), c) {
      assert Listed(s, c, k, sy, r) && Attached(s, FindCell(s, RefEnv(s, r), sy), c);
    }
  }

  // ---------------------------------------------------------------- runs

  datatype Op =
    | OpFrame(parent: nat, params: seq<Symbol>, args: seq<Object>)
    | OpBlock(block: int, env: nat)
    | OpCache(sym: Symbol, place: Ref, kind: Kind)
    | OpAssign(env: nat, sym: Symbol, v: Object)
    | OpDefine(env: nat, sym: Symbol, v: Object)
    | OpUnbind(env: nat, sym: Symbol)
    | OpCompiledAssign(place: Ref, v: Object)

  function Step(s: State, op: Op): State {
    match op
    case OpFrame(parent, params, args) => MakeFrame(s, parent, params, args)
    case OpBlock(block, env) => LoadBlock(s, block, env)
    case OpCache(sym, r, kind) => AddCacheReference(s, RefEnv(s, r), sym, r, kind)
    case OpAssign(env, sym, v) => AssignVariable(s, env, sym, v).0
    case OpDefine(env, sym, v) => DefineVariable(s, env, sym, v).0
    case OpUnbind(env, sym) => UnbindVariable(s, env, sym).0
    case OpCompiledAssign(r, v) => CompiledAssign(s, r, v).0
  }

  /** The operations that a run may contain: no definition over an unbound parameter that should
      capture references, no unbinding of a global variable that operator links depend on. */
  ghost predicate Allowed(s: State, op: Op) {
    match op
    case OpFrame(parent, params, args) => FrameAllowed(s, parent, params, args)
    case OpBlock(block, env) => env < |s.frames| && forall c, k, sy, r {:trigger Listed(s, c, k, sy, r)} ::
      Listed(s, c, k, sy, r) ==> r.block != block
    case OpCache(sym, r, kind) => NotListed(s, r)
    case OpAssign(env, sym, v) => env < |s.frames| && Storable(v)
    case OpDefine(env, sym, v) =>
      && env < |s.frames| && Storable(v)
      && var found := ScanFrame(s, env, sym, true);
         (found.Some? && found.cell.ArgCell? && Get(s, found.cell) == Unbound ==>
           forall c, kind, r {:trigger Captured(s, env, c, kind, sym, r)} :: !Captured(s, env, c, kind, sym, r))
    case OpUnbind(env, sym) =>
      && env < |s.frames|
      && var v := Get(s, FindCell(s, env, sym));
         (FindCell(s, env, sym).GlobalCell? && v.Cached? && ValueOf(s, v.cache) != Unbound ==>
           forall sy, r {:trigger Listed(s, v.cache, Operators, sy, r)} :: !Listed(s, v.cache, Operators, sy, r))
    case OpCompiledAssign(r, v) => Storable(v) && exists c, sym :: Listed(s, c, Assignments, sym, r)
  }

  function Run(s: State, ops: seq<Op>): State
    decreases |ops|
  {
    if ops == [] then s else Run(Step(s, ops[0]), ops[1..])
  }

  ghost predicate AllAllowed(s: State, ops: seq<Op>)
    decreases |ops|
  {
    ops == [] || (Allowed(s, ops[0]) && AllAllowed(Step(s, ops[0]), ops[1..]))
  }

  lemma BlockEnvInRange(s: State, r: Ref)
    requires Sound(s)
    ensures RefEnv(s, r) < |s.frames|
  {
    assert r.block in s.blockEnv ==> s.blockEnv[r.block] < |s.frames|;
  }

  /** A parameter that scan_frame finds is the frame's own. */
  lemma ScannedParameter(s: State, env: nat, sym: Symbol)
    requires var found := ScanFrame(s, env, sym, true); found.Some? && found.cell.ArgCell?
    ensures var cell := ScanFrame(s, env, sym, true).cell;
      IsFrame(s, env) && cell.frame == env && cell.index < |s.frames[env].params| &&
        s.frames[env].params[cell.index] == sym
  {
    ScanExtensionIn(env, s.frames[env].ext, sym);
    ScanParametersIn(s, env, s.frames[env].params, 0, sym, true);
  }

  lemma StepKeeps(s: State, op: Op)
    requires Inv(s) && Allowed(s, op)
    ensures Inv(Step(s, op))
  {
    match op {
      case OpFrame(parent, params, args) => FrameMade(s, parent, params, args);
      case OpBlock(block, env) => BlockLoaded(s, block, env);
      case OpCache(sym, r, kind) =>
        BlockEnvInRange(s, r);
        AddReferenceKeeps(s, RefEnv(s, r), sym, r, kind);
      case OpAssign(env, sym, v) =>
        FoundFrame(s, env, sym);
        AssignKeeps(s, FindCell(s, env, sym), v, false);
      case OpDefine(env, sym, v) =>
        var found := ScanFrame(s, env, sym, true);
        if found.Some? && found.cell.ArgCell? && Get(s, found.cell) == Unbound {
          ScannedParameter(s, env, sym);
          DefineUnboundParameter(s, env, found.cell.index, v);
        } else {
          DefineKeeps(s, env, sym, v);
        }
      case OpUnbind(env, sym) =>
        FoundFrame(s, env, sym);
        if FindCell(s, env, sym).GlobalCell? { UnbindGlobalKeeps(s, env, sym); } else { UnbindFrameKeeps(s, env, sym); }
      case OpCompiledAssign(r, v) =>
        var c, sym :| Listed(s, c, Assignments, sym, r);
        CompiledAssignment(s, c, sym, r, v);
        BlockEnvInRange(s, r);
        FoundFrame(s, RefEnv(s, r), sym);
        AssignKeeps(s, FindCell(s, RefEnv(s, r), sym), v, false);
    }
  }

  /** Over every run, compiled references stay consistent with the environments. */
  lemma {:induction false} RunKeeps(s: State, ops: seq<Op>)
    requires Inv(s) && AllAllowed(s, ops)
    ensures Inv(Run(s, ops))
    decreases |ops|
  {
    if ops != [] {
      StepKeeps(s, ops[0]);
      RunKeeps(Step(s, ops[0]), ops[1..]);
    }
  }

  /** The system starts with the global environment alone. */
  function Initial(): State {
    State([Global], map[], map[], map[], map[], map[], 1)
  }

  lemma InitialInv()
    ensures Inv(Initial())
  {
    assert forall cell :: Get(Initial(), cell) == Unbound;
  }

  // ---------------------------------------------------------------- definition over an unbound parameter

  /** Where variables are found when an unbound parameter gets a value again. */
  lemma {:induction false} FindAfterRebind(s: State, env: nat, k: nat, v: Object, f: nat, sy: Symbol)
    requires Sound(s) && IsFrame(s, env) && f < |s.frames| && v != Unbound
    requires k < |s.frames[env].params| && Get(s, ArgCell(env, k)) == Unbound
    ensures var sym := s.frames[env].params[k];
      FindCell(Put(s, ArgCell(env, k), v), f, sy) ==
      if sy == sym && Under(s, f, env) && FindCell(s, f, sym) == FindCell(s, s.frames[env].parent, sym)
      then ArgCell(env, k) else FindCell(s, f, sy)
    decreases f
  {
    var sym := s.frames[env].params[k];
    var s1 := Put(s, ArgCell(env, k), v);
    if IsFrame(s, f) {
      var p := s.frames[env].parent;
      var params := s.frames[f].params;
      FoundFrame(s, p, sym);
      UnderIsAbove(s, p, FrameOf(FindCell(s, p, sym)));
      ScanExtensionIn(f, s.frames[f].ext, sym);
      ScanParametersIn(s, f, params, 0, sy, false);
      ScanParametersIn(s1, f, params, 0, sy, false);
      assert FrameOk(s, env);
      FindAfterRebind(s, env, k, v, s.frames[f].parent, sy);
      if f == env {
        ReboundParameter(s, env, k, v, params, 0, sy);
        if s.frames[f].parent != env && Under(s, s.frames[f].parent, env) { UnderIsAbove(s, s.frames[f].parent, env); }
        FoundFrame(s, env, sym);
      } else {
        SameParameters(s, env, k, v, f, params, 0, sy);
        FoundFrame(s, f, sym);
        if Under(s, f, env) { UnderIsAbove(s, s.frames[f].parent, env); }
        ScanParametersIn(s, f, params, 0, sym, false);
      }
    }
  }

  lemma {:induction false} SameParameters(s: State, env: nat, k: nat, v: Object, f: nat, ps: seq<Symbol>, i: nat,
                                          sy: Symbol)
    requires f != env
    ensures ScanParameters(Put(s, ArgCell(env, k), v), f, ps, i, sy, false) == ScanParameters(s, f, ps, i, sy, false)
    decreases |ps| - i
  {
    if i < |ps| { SameParameters(s, env, k, v, f, ps, i + 1, sy); }
  }

  lemma {:induction false} ReboundParameter(s: State, env: nat, k: nat, v: Object, ps: seq<Symbol>, i: nat, sy: Symbol)
    requires k < |ps| && v != Unbound && Get(s, ArgCell(env, k)) == Unbound
    requires forall a, b :: 0 <= a < b < |ps| ==> ps[a] != ps[b]
    ensures ScanParameters(Put(s, ArgCell(env, k), v), env, ps, i, sy, false) ==
      if sy == ps[k] && i <= k then Some(ArgCell(env, k)) else ScanParameters(s, env, ps, i, sy, false)
    decreases |ps| - i
  {
    if i < |ps| {
      ReboundParameter(s, env, k, v, ps, i + 1, sy);
      assert i < k ==> ps[i] != ps[k];
    }
  }

  /** A reference that a definition in env should capture. */
  ghost predicate Captured(s: State, env: nat, c: nat, kind: Kind, sym: Symbol, r: Ref) {
    && Listed(s, c, kind, sym, r) && Under(s, RefEnv(s, r), env) && IsFrame(s, env)
    && FindCell(s, RefEnv(s, r), sym) == FindCell(s, s.frames[env].parent, sym)
  }

  /** Defining a parameter that had been unbound moves no references, so it keeps them consistent
      just when there is none to be captured. */
  lemma DefineUnboundParameter(s: State, env: nat, k: nat, v: Object)
    requires Inv(s) && IsFrame(s, env) && k < |s.frames[env].params| && Get(s, ArgCell(env, k)) == Unbound &&
      Storable(v)
    ensures var sym := s.frames[env].params[k];
      Inv(DefineVariable(s, env, sym, v).0) <==>
        forall c, kind, r {:trigger Captured(s, env, c, kind, sym, r)} :: !Captured(s, env, c, kind, sym, r)
  {
    var sym := s.frames[env].params[k];
    var s1 := Put(s, ArgCell(env, k), v);
    UnboundIsFound(s, env, k);
    if forall c, kind, r {:trigger Captured(s, env, c, kind, sym, r)} :: !Captured(s, env, c, kind, sym, r) {
      RebindKeeps(s, env, k, v);
    } else {
      var c, kind, r :| Captured(s, env, c, kind, sym, r);
      BlockEnvInRange(s, r);
      FindAfterRebind(s, env, k, v, RefEnv(s, r), sym);
      assert Listed(s1, c, kind, sym, r);
      assert !Attached(s1, FindCell(s1, RefEnv(s1, r), sym), c);
    }
  }

  lemma UnboundIsFound(s: State, env: nat, k: nat)
    requires Sound(s) && IsFrame(s, env) && k < |s.frames[env].params| && Get(s, ArgCell(env, k)) == Unbound
    ensures ScanFrame(s, env, s.frames[env].params[k], true) == Some(ArgCell(env, k))
  {
    var sym := s.frames[env].params[k];
    assert FrameOk(s, env);
    ScanExtensionIn(env, s.frames[env].ext, sym);
    ScanParametersIn(s, env, s.frames[env].params, 0, sym, true);
  }

  lemma RebindKeeps(s: State, env: nat, k: nat, v: Object)
    requires Inv(s) && IsFrame(s, env) && k < |s.frames[env].params| && Get(s, ArgCell(env, k)) == Unbound &&
      Storable(v)
    requires var sym := s.frames[env].params[k];
      forall c, kind, r {:trigger Captured(s, env, c, kind, sym, r)} :: !Captured(s, env, c, kind, sym, r)
    ensures Inv(Put(s, ArgCell(env, k), v))
  {
    var sym := s.frames[env].params[k];
    var s1 := Put(s, ArgCell(env, k), v);
    assert forall c, kind, sy, r :: Listed(s1, c, kind, sy, r) == Listed(s, c, kind, sy, r);
    forall f | 0 <= f < |s1.frames| ensures FrameOk(s1, f) { assert FrameOk(s, f); }
    forall f | 0 < f < |s1.frames| ensures IsFrame(s1, f) { assert IsFrame(s, f); }
    forall c | c in s1.refs ensures CacheOk(s1, c) { assert CacheOk(s, c); }
    forall cell ensures CellOk(s1, cell) {
      assert CellOk(s, cell);
      assert Get(s1, cell).Cached? ==> CacheOk(s, Get(s1, cell).cache);
    }
    forall a, b, c | Attached(s1, a, c) && Attached(s1, b, c) ensures a == b {
      assert Attached(s, a, c) && Attached(s, b, c);
    }
    OldReferences(s, s1);
    forall c, kind, sy, r | Listed(s1, c, kind, sy, r) ensures Attached(s1, FindCell(s1, RefEnv(s1, r), sy), c) {
      assert Listed(s, c, kind, sy, r) && Attached(s, FindCell(s, RefEnv(s, r), sy), c);
      BlockEnvInRange(s, r);
      FindAfterRebind(s, env, k, v, RefEnv(s, r), sy);
      assert !Captured(s, env, c, kind, sym, r);
    }
  }

  // ---------------------------------------------------------------- the excluded operations do occur

  lemma RunOne(s: State, op: Op, ops: seq<Op>)
    ensures Run(s, [op] + ops) == Run(Step(s, op), ops)
    ensures AllAllowed(s, [op] + ops) <==> Allowed(s, op) && AllAllowed(Step(s, op), ops)
  {
    hide Step, Allowed;
    assert ([op] + ops)[1..] == ops;
  }

  /** Unbinding a global variable leaves a stale operator link behind. */
  lemma StaleOperatorLink(sym: Symbol, r: Ref)
    ensures var ops := [OpDefine(0, sym, Plain(1)), OpCache(sym, r, Operators)];
      AllAllowed(Initial(), ops) && !Inv(Step(Run(Initial(), ops), OpUnbind(0, sym)))
  {
    hide Step, Allowed, Inv;
    var define, cache := OpDefine(0, sym, Plain(1)), OpCache(sym, r, Operators);
    var s0, s1 := Initial(), Step(Initial(), define);
    OneGlobal(sym, r);
    assert [define, cache] == [define] + ([cache] + []);
    RunOne(s0, define, [cache] + []);
    RunOne(s1, cache, []);
    LinkedGlobal(s1, sym, r);
  }

  lemma OneGlobal(sym: Symbol, r: Ref)
    ensures var s1 := Step(Initial(), OpDefine(0, sym, Plain(1)));
      && Allowed(Initial(), OpDefine(0, sym, Plain(1))) &&
         s1 == Initial().(cells := map[GlobalCell(sym) := Plain(1)]) && Inv(s1)
      && NotListed(s1, r) && RefEnv(s1, r) == 0
  {
    InitialInv();
    StepKeeps(Initial(), OpDefine(0, sym, Plain(1)));
  }

  lemma LinkedGlobal(s: State, sym: Symbol, r: Ref)
    requires Inv(s) && NotListed(s, r) && RefEnv(s, r) == 0 && Get(s, GlobalCell(sym)) == Plain(1)
    ensures Allowed(s, OpCache(sym, r, Operators)) && !Inv(Step(Step(s, OpCache(sym, r, Operators)), OpUnbind(0, sym)))
  {
    hide Inv, AddCacheReference, UnbindVariable;
    BlockInFrames(s, r);
    InGlobal(s, sym);
    CachedGlobal(s, sym, r, Operators, Plain(1));
    StepKeeps(s, OpCache(sym, r, Operators));
    var s2 := Step(s, OpCache(sym, r, Operators));
    UnbindGlobalKeeps(s2, 0, sym);
  }

  /** Caching a reference to a variable that is found in the global environment. */
  lemma CachedGlobal(s: State, sym: Symbol, r: Ref, kind: Kind, v: Object)
    requires Inv(s) && NotListed(s, r) && FindCell(s, RefEnv(s, r), sym) == GlobalCell(sym) &&
      Get(s, GlobalCell(sym)) == v && !v.Cached?
    ensures var s' := AddCacheReference(s, RefEnv(s, r), sym, r, kind);
      Attached(s', GlobalCell(sym), s.next) && ValueOf(s', s.next) == v
    ensures var s' := AddCacheReference(s, RefEnv(s, r), sym, r, kind); Listed(s', s.next, kind, sym, r)
    ensures var s' := AddCacheReference(s, RefEnv(s, r), sym, r, kind);
      s'.frames == s.frames && s'.blockEnv == s.blockEnv
    ensures var s' := AddCacheReference(s, RefEnv(s, r), sym, r, kind);
      s'.cells == s.cells[GlobalCell(sym) := Cached(s.next)]
    ensures FindCell(AddCacheReference(s, RefEnv(s, r), sym, r, kind), 0, sym) == GlobalCell(sym)
  {
    hide FindCell, Inv, SetRefs;
    BlockInFrames(s, r);
    AddReferenceKeeps(s, RefEnv(s, r), sym, r, kind);
    var s1 := GuaranteeCache(s, GlobalCell(sym));
    var s' := AddCacheReference(s, RefEnv(s, r), sym, r, kind);
    var s2 := AddToList(s1, s.next, kind, sym, r);
    CloneStays(s2, s.next);
    InGlobal(s', sym);
  }

  lemma BlockInFrames(s: State, r: Ref)
    requires Inv(s)
    ensures RefEnv(s, r) < |s.frames| && s.frames[0] == Global
  {
    BlockEnvInRange(s, r);
  }

  lemma InGlobal(s: State, sym: Symbol)
    requires s.frames != [] && s.frames[0] == Global
    ensures FindCell(s, 0, sym) == GlobalCell(sym)
  {}

  /** A procedure frame whose only parameter has been unbound, and a block in it. */
  function UnboundParameter(sym: Symbol, block: int): State {
    Initial().(frames := [Global, Procedure(0, [sym], [])], cells := map[ArgCell(1, 0) := Unbound],
               blockEnv := map[block := 1])
  }

  lemma UnboundReached(sym: Symbol, block: int)
    ensures var ops := [OpFrame(0, [sym], [Plain(1)]), OpBlock(block, 1), OpUnbind(1, sym)];
      AllAllowed(Initial(), ops) && Run(Initial(), ops) == UnboundParameter(sym, block) &&
        Inv(UnboundParameter(sym, block))
  {
    var frame, load, unbind := OpFrame(0, [sym], [Plain(1)]), OpBlock(block, 1), OpUnbind(1, sym);
    var s0, s3 := Initial(), UnboundParameter(sym, block);
    var s2 := s3.(cells := map[ArgCell(1, 0) := Plain(1)]);
    var s1 := s2.(blockEnv := map[]);
    assert Step(s0, frame) == s1 && Step(s1, load) == s2;
    assert ScanParameters(s2, 1, [sym], 0, sym, false) == Some(ArgCell(1, 0));
    assert FindCell(s2, 1, sym) == ArgCell(1, 0);
    assert Step(s2, unbind) == s3;
    InitialInv();
    StepKeeps(s0, frame);
    StepKeeps(s1, load);
    StepKeeps(s2, unbind);
    hide Step, Allowed, Inv;
    assert [frame, load, unbind] == [frame] + ([load] + ([unbind] + []));
    RunOne(s0, frame, [load] + ([unbind] + []));
    RunOne(s1, load, [unbind] + []);
    RunOne(s2, unbind, []);
  }

  /** Defining an unbound parameter leaves a reference with the variable that it should shadow. */
  lemma StaleReference(sym: Symbol, r: Ref)
    ensures var s := UnboundParameter(sym, r.block);
      Allowed(s, OpCache(sym, r, Lookups)) && !Inv(Step(Step(s, OpCache(sym, r, Lookups)), OpDefine(1, sym, Plain(2))))
  {
    var s := UnboundParameter(sym, r.block);
    UnboundReached(sym, r.block);
    NotFoundInFrame(s, sym);
    assert NotListed(s, r);
    CachedGlobal(s, sym, r, Lookups, Unbound);
    StepKeeps(s, OpCache(sym, r, Lookups));
    var s' := Step(s, OpCache(sym, r, Lookups));
    NotFoundInFrame(s', sym);
    assert Captured(s', 1, 1, Lookups, sym, r);
    DefineUnboundParameter(s', 1, 0, Plain(2));
  }

  lemma NotFoundInFrame(s: State, sym: Symbol)
    requires s.frames == [Global, Procedure(0, [sym], [])] && Get(s, ArgCell(1, 0)) == Unbound
    ensures FindCell(s, 1, sym) == FindCell(s, 0, sym) == GlobalCell(sym)
  {
    assert ScanParameters(s, 1, [sym], 0, sym, false) == ScanParameters(s, 1, [sym], 1, sym, false) == None;
  }
}
