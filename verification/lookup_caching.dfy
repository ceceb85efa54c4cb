/** A program cannot tell whether its variables are cached. */
module LookupCaching {
  import opened LookupState
  import opened LookupLists
  import opened LookupOperations
  import opened LookupBindings
  import opened LookupUnbind
  import opened LookupRuns
  import opened LookupLaws

  /** The variable sy of f holds the same in both states, and is bound in the same frame. */
  ghost predicate SameVariable(s: State, t: State, f: nat, sy: Symbol) {
    ValueIn(s, f, sy) == ValueIn(t, f, sy) && FrameOf(FindCell(s, f, sy)) == FrameOf(FindCell(t, f, sy))
  }

  /** Two variables are the same in both states, or different in both. */
  ghost predicate SamePair(s: State, t: State, f: nat, sy: Symbol, g: nat, sz: Symbol) {
    FindCell(s, f, sy) == FindCell(s, g, sz) <==> FindCell(t, f, sy) == FindCell(t, g, sz)
  }

  /** The states cannot be told apart by their variables. */
  ghost predicate SameView(s: State, t: State) {
    && SameTree(s, t)
    && (forall f, sy {:trigger SameVariable(s, t, f, sy)} :: 0 <= f < |s.frames| ==> SameVariable(s, t, f, sy))
    && forall f, sy, g, sz {:trigger SamePair(s, t, f, sy, g, sz)} ::
         0 <= f < |s.frames| && 0 <= g < |s.frames| ==> SamePair(s, t, f, sy, g, sz)
  }

  /** No variable is cached. */
  ghost predicate Uncached(t: State) {
    t.refs == map[]
  }

  lemma NoCaches(t: State)
    requires Sound(t) && Uncached(t)
    ensures forall cell {:trigger Get(t, cell)} :: !Get(t, cell).Cached?
    ensures forall c, kind, sym, r {:trigger Listed(t, c, kind, sym, r)} :: !Listed(t, c, kind, sym, r)
  {
    forall cell ensures !Get(t, cell).Cached? { assert CellOk(t, cell); }
  }

  /** The operation of the plain interpreter that does the same. */
  ghost function Interpreted(s: State, op: Op): seq<Op> {
    match op
    case OpCache(_, _, _) => []
    case OpCompiledAssign(r, v) =>
      if exists c, sym :: Listed(s, c, Assignments, sym, r) then
        var c, sym :| Listed(s, c, Assignments, sym, r);
        [OpAssign(RefEnv(s, r), sym, v)]
      else []
    case _ => [op]
  }

  /** A run without compiled code. */
  ghost function InterpretedRun(s: State, ops: seq<Op>): seq<Op>
    decreases |ops|
  {
    if ops == [] then [] else Interpreted(s, ops[0]) + InterpretedRun(Step(s, ops[0]), ops[1..])
  }

  predicate IsPlain(op: Op) {
    !op.OpCache? && !op.OpCompiledAssign?
  }

  /** What the laws say about both states carries over. */
  lemma SameAssign(s: State, t: State, env: nat, sym: Symbol, v: Object)
    requires Sound(s) && Sound(t) && SameView(s, t) && env < |s.frames| && Storable(v)
    ensures SameView(AssignVariable(s, env, sym, v).0, AssignVariable(t, env, sym, v).0)
    ensures AssignVariable(s, env, sym, v).1 == AssignVariable(t, env, sym, v).1
  {
    AssignLaw(s, env, sym, v);
    AssignLaw(t, env, sym, v);
    assert SameVariable(s, t, env, sym);
    hide Sound, AssignVariable, FindCell;
    var s', t' := AssignVariable(s, env, sym, v).0, AssignVariable(t, env, sym, v).0;
    if AssignVariable(s, env, sym, v).1 == Done {
      forall f, sy | 0 <= f < |s.frames| ensures SameVariable(s', t', f, sy) {
        assert SameVariable(s, t, f, sy) && SamePair(s, t, f, sy, env, sym);
        assert ValueIn(s', f, sy) == if FindCell(s, f, sy) == FindCell(s, env, sym) then v else ValueIn(s, f, sy);
      }
      forall f, sy, g, sz | 0 <= f < |s.frames| && 0 <= g < |s.frames| ensures SamePair(s', t', f, sy, g, sz) {
        assert SamePair(s, t, f, sy, g, sz);
      }
    }
  }

  lemma SameSees(s: State, t: State, env: nat, sym: Symbol, f: nat, sy: Symbol)
    requires SameView(s, t) && env < |s.frames| && f < |s.frames|
    ensures Sees(s, env, sym, f, sy) <==> Sees(t, env, sym, f, sy)
  {
    UnderFrames(s, t, f, env);
    assert SamePair(s, t, f, sym, env, sym);
  }

  lemma SameDefine(s: State, t: State, env: nat, sym: Symbol, v: Object)
    requires Sound(s) && Sound(t) && SameView(s, t) && env < |s.frames| && Storable(v)
    ensures SameView(DefineVariable(s, env, sym, v).0, DefineVariable(t, env, sym, v).0)
  {
    DefineLaw(s, env, sym, v);
    DefineLaw(t, env, sym, v);
    hide Sound, DefineVariable, FindCell, Sees;
    var s', t' := DefineVariable(s, env, sym, v).0, DefineVariable(t, env, sym, v).0;
    assert SameTree(s', t');
    forall f, sy | 0 <= f < |s.frames| ensures SameVariable(s', t', f, sy) {
      assert SameVariable(s, t, f, sy) && DefinedFor(s, s', env, sym, v, f, sy) &&
        DefinedFor(t, t', env, sym, v, f, sy);
      SameSees(s, t, env, sym, f, sy);
    }
    forall f, sy, g, sz | 0 <= f < |s.frames| && 0 <= g < |s.frames| ensures SamePair(s', t', f, sy, g, sz) {
      assert SamePair(s, t, f, sy, g, sz);
      assert DefinedFor(s, s', env, sym, v, f, sy) && DefinedFor(t, t', env, sym, v, f, sy);
      assert DefinedFor(s, s', env, sym, v, g, sz) && DefinedFor(t, t', env, sym, v, g, sz);
      SameSees(s, t, env, sym, f, sy);
      SameSees(s, t, env, sym, g, sz);
    }
  }

  /** The variable that takes the place of sy of f when the binding of sym in env is removed. */
  lemma RemovedPlace(s: State, s': State, env: nat, sym: Symbol, f: nat, sy: Symbol) returns (g: nat, sz: Symbol)
    requires Sound(s) && env < |s.frames| && f < |s.frames| && RemovedIn(s, s', env, sym)
    ensures g < |s.frames| && FindCell(s', f, sy) == FindCell(s, g, sz)
    ensures if FindCell(s, f, sy) == FindCell(s, env, sym) && FrameOf(FindCell(s, env, sym)) != 0
      then IsFrame(s, FrameOf(FindCell(s, env, sym))) && sz == sym &&
        g == s.frames[FrameOf(FindCell(s, env, sym))].parent
      else g == f && sz == sy
    ensures ValueIn(s', f, sy) ==
      if FindCell(s, f, sy) == FindCell(s, env, sym) && FrameOf(FindCell(s, env, sym)) == 0 then Unbound
      else ValueIn(s, g, sz)
  {
    assert RemovedFor(s, s', env, sym, f, sy);
    FoundFrame(s, env, sym);
    var h := FrameOf(FindCell(s, env, sym));
    if FindCell(s, f, sy) == FindCell(s, env, sym) && h != 0 {
      g, sz := s.frames[h].parent, sym;
    } else {
      g, sz := f, sy;
    }
  }

  lemma SameUnbind(s: State, t: State, env: nat, sym: Symbol)
    requires Sound(s) && Sound(t) && SameView(s, t) && env < |s.frames|
    ensures SameView(UnbindVariable(s, env, sym).0, UnbindVariable(t, env, sym).0)
    ensures UnbindVariable(s, env, sym).1 == UnbindVariable(t, env, sym).1
  {
    UnbindLaw(s, env, sym);
    UnbindLaw(t, env, sym);
    assert SameVariable(s, t, env, sym);
    hide Sound, UnbindVariable, FindCell, RemovedFor;
    if UnbindVariable(s, env, sym).1 {
      var s', t' := UnbindVariable(s, env, sym).0, UnbindVariable(t, env, sym).0;
      assert SameTree(s', t');
      forall f, sy | 0 <= f < |s.frames| ensures SameVariable(s', t', f, sy) {
        PairUnbound(s, t, s', t', env, sym, f, sy, f, sy);
      }
      forall f, sy, g, sz | 0 <= f < |s.frames| && 0 <= g < |s.frames| ensures SamePair(s', t', f, sy, g, sz) {
        PairUnbound(s, t, s', t', env, sym, f, sy, g, sz);
      }
    }
  }

  lemma PairUnbound(s: State, t: State, s': State, t': State, env: nat, sym: Symbol, f: nat, sy: Symbol, f': nat,
                    sy': Symbol)
    requires Sound(s) && Sound(t) && SameView(s, t) && env < |s.frames| && f < |s.frames| && f' < |s.frames|
    requires RemovedIn(s, s', env, sym) && RemovedIn(t, t', env, sym)
    ensures SameVariable(s', t', f, sy) && SamePair(s', t', f, sy, f', sy')
  {
    hide Sound, FindCell, RemovedFor;
    var g, sz := RemovedPlace(s, s', env, sym, f, sy);
    var k, sw := RemovedPlace(t, t', env, sym, f, sy);
    var g', sz' := RemovedPlace(s, s', env, sym, f', sy');
    var k', sw' := RemovedPlace(t, t', env, sym, f', sy');
    assert SameVariable(s, t, env, sym);
    assert SamePair(s, t, f, sy, env, sym) && SamePair(s, t, f', sy', env, sym);
    assert SameVariable(s, t, g, sz) && SamePair(s, t, g, sz, g', sz');
  }

  lemma SameFrame(s: State, t: State, parent: nat, params: seq<Symbol>, args: seq<Object>)
    requires Sound(s) && Sound(t) && SameView(s, t) && FrameAllowed(s, parent, params, args)
    ensures SameView(MakeFrame(s, parent, params, args), MakeFrame(t, parent, params, args))
  {
    var s', t', n := MakeFrame(s, parent, params, args), MakeFrame(t, parent, params, args), |s.frames|;
    assert SameTree(s', t');
    hide MakeFrame, FindCell, Sound, SameTree;
    forall f, sy | 0 <= f <= n ensures SameVariable(s', t', f, sy) {
      PairFramed(s, t, s', t', parent, params, args, f, sy, f, sy);
    }
    forall f, sy, g, sz | 0 <= f <= n && 0 <= g <= n ensures SamePair(s', t', f, sy, g, sz) {
      PairFramed(s, t, s', t', parent, params, args, f, sy, g, sz);
    }
  }

  lemma PairFramed(s: State, t: State, s': State, t': State, parent: nat, params: seq<Symbol>, args: seq<Object>,
                   f: nat, sy: Symbol, f': nat, sy': Symbol)
    requires Sound(s) && Sound(t) && SameView(s, t) && FrameAllowed(s, parent, params, args)
    requires f <= |s.frames| && f' <= |s.frames|
    requires s' == MakeFrame(s, parent, params, args) && t' == MakeFrame(t, parent, params, args)
    ensures SameVariable(s', t', f, sy) && SamePair(s', t', f, sy, f', sy')
  {
    hide MakeFrame, FindCell, Sound;
    var i, g := FramePlace(s, s', parent, params, args, f, sy);
    var i', g' := FramePlace(s, s', parent, params, args, f', sy');
    var j, k := FramePlace(t, t', parent, params, args, f, sy);
    var j', k' := FramePlace(t, t', parent, params, args, f', sy');
    assert SameVariable(s, t, g, sy) && SamePair(s, t, g, sy, g', sy');
  }

  /** A variable after a frame has been made: parameter number i of the new frame, or the one it was in g. */
  lemma FramePlace(s: State, s': State, parent: nat, params: seq<Symbol>, args: seq<Object>, f: nat, sy: Symbol)
    returns (i: int, g: nat)
    requires Sound(s) && FrameAllowed(s, parent, params, args) && f <= |s.frames|
    requires s' == MakeFrame(s, parent, params, args)
    ensures g < |s.frames| && FrameOf(FindCell(s, g, sy)) < |s.frames|
    ensures g == if f == |s.frames| then parent else f
    ensures if f == |s.frames| && sy in params
      then 0 <= i < |params| && params[i] == sy && FindCell(s', f, sy) == ArgCell(f, i) && ValueIn(s', f, sy) == args[i]
      else FindCell(s', f, sy) == FindCell(s, g, sy) && ValueIn(s', f, sy) == ValueIn(s, g, sy)
  {
    FrameLaw(s, parent, params, args);
    hide MakeFrame, FindCell;
    i := 0;
    g := if f == |s.frames| then parent else f;
    FoundFrame(s, g, sy);
    var w := ValueIn(s', f, sy);
    if f == |s.frames| && sy in params { i :| 0 <= i < |params| && params[i] == sy; }
  }

  /** Whatever is allowed in a state is allowed in one with the same view and no caches. */
  lemma AllowedUncached(s: State, t: State, op: Op)
    requires Inv(s) && Sound(t) && Uncached(t) && SameView(s, t) && Allowed(s, op)
    ensures forall o :: o in Interpreted(s, op) ==> IsPlain(o) && Allowed(t, o)
    ensures |Interpreted(s, op)| == if op.OpCache? then 0 else 1
  {
    NoCaches(t);
    if op.OpCompiledAssign? { BlockEnvInRange(s, op.place); }
  }

  /** Plain operations make no caches. */
  lemma StaysUncached(t: State, op: Op)
    requires Sound(t) && Uncached(t) && IsPlain(op)
    ensures Uncached(Step(t, op))
  {
    NoCaches(t);
  }

  lemma SameStep(s: State, t: State, op: Op)
    requires Inv(s) && Sound(t) && SameView(s, t) && Allowed(s, op) && IsPlain(op)
    ensures SameView(Step(s, op), Step(t, op))
  {
    match op {
      case OpFrame(parent, params, args) => SameFrame(s, t, parent, params, args);
      case OpBlock(block, env) => SameBlock(s, t, block, env);
      case OpAssign(env, sym, v) => SameAssign(s, t, env, sym, v);
      case OpDefine(env, sym, v) => SameDefine(s, t, env, sym, v);
      case OpUnbind(env, sym) => SameUnbind(s, t, env, sym);
    }
  }

  lemma SameBlock(s: State, t: State, block: int, env: nat)
    requires SameView(s, t)
    ensures SameView(LoadBlock(s, block, env), LoadBlock(t, block, env))
  {
    var s', t' := LoadBlock(s, block, env), LoadBlock(t, block, env);
    FindAllSame(s, s');
    FindAllSame(t, t');
    forall f, sy | 0 <= f < |s.frames| ensures SameVariable(s', t', f, sy) { assert SameVariable(s, t, f, sy); }
    forall f, sy, g, sz | 0 <= f < |s.frames| && 0 <= g < |s.frames| ensures SamePair(s', t', f, sy, g, sz) {
      assert SamePair(s, t, f, sy, g, sz);
    }
  }

  /** Caching leaves the view as it is. */
  lemma SameCache(s: State, t: State, sym: Symbol, r: Ref, kind: Kind)
    requires Sound(s) && SameView(s, t)
    ensures SameView(AddCacheReference(s, RefEnv(s, r), sym, r, kind), t)
  {
    BlockEnvInRange(s, r);
    CacheLaw(s, RefEnv(s, r), sym, r, kind);
    var s' := AddCacheReference(s, RefEnv(s, r), sym, r, kind);
    hide AddCacheReference, FindCell;
    forall f, sy | 0 <= f < |s.frames| ensures SameVariable(s', t, f, sy) {
      assert SameVariable(s, t, f, sy) && ValueIn(s', f, sy) == ValueIn(s, f, sy);
    }
    forall f, sy, g, sz | 0 <= f < |s.frames| && 0 <= g < |s.frames| ensures SamePair(s', t, f, sy, g, sz) {
      assert SamePair(s, t, f, sy, g, sz);
      assert ValueIn(s', f, sy) == ValueIn(s, f, sy) && ValueIn(s', g, sz) == ValueIn(s, g, sz);
    }
  }

  /** One operation, and what the plain interpreter does instead. */
  lemma SameOne(s: State, t: State, op: Op)
    requires Inv(s) && Inv(t) && Uncached(t) && SameView(s, t) && Allowed(s, op)
    ensures var ops := Interpreted(s, op); var t' := Run(t, ops);
      AllAllowed(t, ops) && SameView(Step(s, op), t') && Inv(t') && Uncached(t') && forall o :: o in ops ==> IsPlain(o)
  {
    AllowedUncached(s, t, op);
    var ops := Interpreted(s, op);
    hide Inv, SameView, Allowed, Step;
    if op.OpCache? {
      CacheStep(s, t, op);
    } else {
      assert ops == [ops[0]] + [];
      RunOne(t, ops[0], []);
      StepKeeps(t, ops[0]);
      StaysUncachedInv(t, ops[0]);
      if op.OpCompiledAssign? { CompiledStep(s, t, op); } else { PlainStep(s, t, op); }
    }
  }

  lemma StaysUncachedInv(t: State, op: Op)
    requires Inv(t) && Uncached(t) && IsPlain(op)
    ensures Uncached(Step(t, op))
  {
    StaysUncached(t, op);
  }

  lemma PlainStep(s: State, t: State, op: Op)
    requires Inv(s) && Inv(t) && SameView(s, t) && Allowed(s, op) && IsPlain(op)
    ensures SameView(Step(s, op), Step(t, op))
  {
    SameStep(s, t, op);
  }

  lemma CacheStep(s: State, t: State, op: Op)
    requires Inv(s) && SameView(s, t) && op.OpCache?
    ensures SameView(Step(s, op), t)
  {
    SameCache(s, t, op.sym, op.place, op.kind);
  }

  lemma CompiledStep(s: State, t: State, op: Op)
    requires Inv(s) && Inv(t) && SameView(s, t) && Allowed(s, op) && op.OpCompiledAssign?
    ensures |Interpreted(s, op)| == 1 && SameView(Step(s, op), Step(t, Interpreted(s, op)[0]))
  {
    var r, v, o := op.place, op.v, Interpreted(s, op)[0];
    var c :| Listed(s, c, Assignments, o.sym, r) && o == OpAssign(RefEnv(s, r), o.sym, v);
    CompiledAssignment(s, c, o.sym, r, v);
    BlockEnvInRange(s, r);
    SameAssign(s, t, RefEnv(s, r), o.sym, v);
  }

  lemma {:induction false} RunAppended(t: State, a: seq<Op>, b: seq<Op>)
    ensures Run(t, a + b) == Run(Run(t, a), b)
    ensures AllAllowed(t, a + b) <==> AllAllowed(t, a) && AllAllowed(Run(t, a), b)
    decreases |a|
  {
    hide Step, Allowed;
    if a == [] {
      assert a + b == b;
    } else {
      assert (a + b)[1..] == a[1..] + b;
      RunAppended(Step(t, a[0]), a[1..], b);
    }
  }

  /** Caching is invisible: after every run of interpreted and compiled operations each variable is the
      binding, and holds the value, that it would be and hold if nothing had ever been cached and every
      compiled assignment had been interpreted. */
  lemma {:induction false} CachingInvisible(s: State, t: State, ops: seq<Op>)
    requires Inv(s) && Inv(t) && Uncached(t) && SameView(s, t) && AllAllowed(s, ops)
    ensures AllAllowed(t, InterpretedRun(s, ops)) && forall o :: o in InterpretedRun(s, ops) ==> IsPlain(o)
    ensures SameView(Run(s, ops), Run(t, InterpretedRun(s, ops)))
    decreases |ops|
  {
    hide Inv, SameView, Allowed, Step, Interpreted;
    if ops != [] {
      var a, b := Interpreted(s, ops[0]), InterpretedRun(Step(s, ops[0]), ops[1..]);
      SameOne(s, t, ops[0]);
      StepKeeps(s, ops[0]);
      CachingInvisible(Step(s, ops[0]), Run(t, a), ops[1..]);
      RunAppended(t, a, b);
    }
  }

  /** In particular from the start. */
  lemma InvisibleFromStart(ops: seq<Op>, f: nat, sym: Symbol)
    requires AllAllowed(Initial(), ops) && f < |Run(Initial(), ops).frames|
    ensures var (s, t) := (Run(Initial(), ops), Run(Initial(), InterpretedRun(Initial(), ops)));
      LookupVariable(s, f, sym) == LookupVariable(t, f, sym)
  {
    InitialInv();
    var s0 := Initial();
    assert SameView(s0, s0) by {
      forall f, sy ensures SameVariable(s0, s0, f, sy) {}
      forall f, sy, g, sz ensures SamePair(s0, s0, f, sy, g, sz) {}
    }
    CachingInvisible(s0, s0, ops);
    assert SameVariable(Run(s0, ops), Run(s0, InterpretedRun(s0, ops)), f, sym);
  }
}
