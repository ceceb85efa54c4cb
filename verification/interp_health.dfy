/** A program that runs in the interpreter keeps the references of compiled code consistent. */
module InterpHealth {
  import opened LookupState
  import opened LookupLists
  import opened LookupCaches
  import opened LookupMoves
  import opened LookupOperations
  import opened LookupBindings
  import opened LookupRuns
  import opened InterpMachine

  /** The constants of the code are ordinary values, and the parameters of a lambda are distinct. */
  predicate CodeOk(e: Expr) {
    match e
    case Constant(datum) => Storable(datum)
    case Variable(_) => true
    case Assignment(target, operand) => CodeOk(target) && CodeOk(operand)
    case Definition(_, operand) => CodeOk(operand)
    case Conditional(decider, consequent, alternative) => CodeOk(decider) && CodeOk(consequent) && CodeOk(alternative)
    case Disjunction(decider, alternative) => CodeOk(decider) && CodeOk(alternative)
    case Sequence(first, second) => CodeOk(first) && CodeOk(second)
    case Comment(expression) => CodeOk(expression)
    case Delay(expression) => CodeOk(expression)
    case Lambda(params, body, _) => (forall i, j :: 0 <= i < j < |params| ==> params[i] != params[j]) && CodeOk(body)
    case Combination(operator, operands) => CodeOk(operator) && forall i :: 0 <= i < |operands| ==> CodeOk(operands[i])
  }

  ghost predicate ItemOk(s: State, item: Item) {
    match item
    case EnvItem(f) => f < |s.frames|
    case ValueItem(v) => Storable(v)
    case ExpItem(e) => CodeOk(e)
    case _ => true
  }

  /** No parameter has been unbound. */
  ghost predicate ParametersBound(s: State) {
    forall f: nat, i: nat {:trigger Get(s, ArgCell(f, i))} :: IsFrame(s, f) && i < |s.frames[f].params| ==>
      Get(s, ArgCell(f, i)) != Unbound
  }

  ghost predicate ObjectsOk(mem: Memory) {
    forall w {:trigger mem.objects[w]} :: w in mem.objects ==>
      mem.objects[w].env < |mem.state.frames| && CodeOk(mem.objects[w].code)
  }

  ghost predicate PrimitivesOk(mem: Memory) {
    forall w, args {:trigger mem.primitives[w].code(args)} ::
      w in mem.primitives && (forall v :: v in args ==> Storable(v)) ==> Storable(mem.primitives[w].code(args))
  }

  ghost predicate MemoryOk(mem: Memory) {
    Inv(mem.state) && ParametersBound(mem.state) && ObjectsOk(mem) && PrimitivesOk(mem)
  }

  ghost predicate StackOk(m: Machine) {
    forall i {:trigger m.words[i]} :: 0 <= i < |m.words| ==> ItemOk(m.mem.state, m.words[i])
  }

  ghost predicate Healthy(m: Machine) {
    InStack(m) && MemoryOk(m.mem) && StackOk(m) && m.env < |m.mem.state.frames| && CodeOk(m.exp) && Storable(m.val)
  }

  /** A fresh machine is healthy, with any ordinary code and primitives. */
  lemma FreshHealthy(e: Expr, primitives: map<int, Primitive>, words: seq<Item>, sp: nat)
    requires CodeOk(e) && PrimitivesOk(Memory(Initial(), map[], primitives, 2)) && sp + 2 == |words|
    requires forall i {:trigger words[i]} :: 0 <= i < sp ==> words[i].CountItem?
    requires words[sp] == CodeItem(EndOfComputation) && words[sp + 1] == ExpItem(Constant(SHARP_F))
    ensures Healthy(Machine(Evaluating, e, 0, SHARP_F, EndOfComputation, words, sp,
                            Memory(Initial(), map[], primitives, 2)))
  {
    InitialInv();
    var mem := Memory(Initial(), map[], primitives, 2);
    forall i | 0 <= i < |words| ensures ItemOk(mem.state, words[i]) { assert i < sp ==> words[i].CountItem?; }
  }

  /** There are no fewer frames, and what the machine relies on holds. */
  ghost predicate Kept(mem: Memory, mem': Memory) {
    MemoryOk(mem') && |mem.state.frames| <= |mem'.state.frames|
  }

  // ---------------------------------------------------------------- the environment

  /** Moving references and changing clones concerns neither cells nor frames. */
  lemma CellsStay(s: State, from: nat, toCell: Cell, env: nat, sym: Symbol)
    ensures var s' := UpdateCacheReferences(s, from, toCell, env, sym);
      s'.frames == s.frames && s'.cells == GuaranteeCache(s, toCell).cells
  {
    hide Inside, Outside, Reversed, SetRefs, Pruned, AllRefs, Alist, WithAlist;
    var s1 := GuaranteeCache(s, toCell);
    var to := AttachedTo(s1, toCell);
    var s2 := MoveRefPairs(s1, from, to, Lookups, env, sym);
    MoveStays(s1, from, to, Lookups, env, sym);
    MoveStays(s2, from, to, Assignments, env, sym);
    var s3 := MoveRefPairs(s2, from, to, Assignments, env, sym);
    MoveStays(s3, from, to, Operators, env, sym);
    var s4 := MoveRefPairs(s3, from, to, Operators, env, sym);
    CloneStays(s4, to);
    CloneStays(UpdateClone(s4, to), from);
  }

  lemma MoveStays(s: State, from: nat, to: nat, kind: Kind, env: nat, sym: Symbol)
    ensures var s' := MoveRefPairs(s, from, to, kind, env, sym); s'.frames == s.frames && s'.cells == s.cells
  {}

  lemma LinksStay(s: State, c: nat, v: Object)
    ensures UpdateUuoLinks(s, c, v).frames == s.frames && UpdateUuoLinks(s, c, v).cells == s.cells
  {
    hide Pruned, AllRefs, Alist, WithAlist;
    var s0 := WithList(s, c, Operators, Pruned(ListOf(s, c, Operators)));
    CloneStays(WithValue(s0, c, v), c);
  }

  /** An assignment changes no frame and unbinds nothing. */
  lemma AssignBound(s: State, cell: Cell, v: Object, force: bool)
    requires Storable(v) && ParametersBound(s)
    ensures var s' := AssignEnd(s, cell, v, force).0; s'.frames == s.frames && ParametersBound(s')
  {
    var s' := AssignEnd(s, cell, v, force).0;
    if Get(s, cell).Cached? { LinksStay(s, Get(s, cell).cache, v); }
    forall f: nat, i: nat | IsFrame(s', f) && i < |s'.frames[f].params| ensures Get(s', ArgCell(f, i)) != Unbound {
      assert Get(s, ArgCell(f, i)) != Unbound;
    }
  }

  lemma DefineBound(s: State, env: nat, sym: Symbol, v: Object)
    requires Storable(v) && ParametersBound(s)
    ensures var s' := DefineNew(s, env, sym, v); |s'.frames| == |s.frames| && ParametersBound(s')
  {
    if IsFrame(s, env) {
      var s1 := Bind(s, env, sym, v);
      var w := Get(s, FindCell(s, s.frames[env].parent, sym));
      var s' := DefineNew(s, env, sym, v);
      if w.Cached? { CellsStay(s1, w.cache, ExtCell(env, s.next), env, sym); }
      hide UpdateCacheReferences, FindCell;
      forall f: nat, i: nat | IsFrame(s', f) && i < |s'.frames[f].params| ensures Get(s', ArgCell(f, i)) != Unbound {
        assert IsFrame(s, f) && s'.frames[f].params == s.frames[f].params;
        assert Get(s, ArgCell(f, i)) != Unbound;
      }
    }
  }

  lemma FrameBound(s: State, parent: nat, params: seq<Symbol>, args: seq<Object>)
    requires ParametersBound(s) && FrameAllowed(s, parent, params, args)
    ensures ParametersBound(MakeFrame(s, parent, params, args))
  {
    var s' := MakeFrame(s, parent, params, args);
    forall f: nat, i: nat | IsFrame(s', f) && i < |s'.frames[f].params| ensures Get(s', ArgCell(f, i)) != Unbound {
      if f < |s.frames| {
        assert s'.frames[f] == s.frames[f];
        assert Get(s, ArgCell(f, i)) != Unbound;
      }
    }
  }

  /** With the parameters bound, a definition is one that the run may contain. */
  lemma DefineAllowed(s: State, env: nat, sym: Symbol, v: Object)
    requires Inv(s) && ParametersBound(s) && env < |s.frames| && Storable(v)
    ensures Allowed(s, OpDefine(env, sym, v))
  {
    if IsFrame(s, env) {
      ScanExtensionIn(env, s.frames[env].ext, sym);
      ScanParametersIn(s, env, s.frames[env].params, 0, sym, true);
    }
  }

  // ---------------------------------------------------------------- memory

  lemma ObjectsStay(mem: Memory, mem': Memory)
    requires ObjectsOk(mem) && PrimitivesOk(mem) && mem'.objects == mem.objects && mem'.primitives == mem.primitives
    requires |mem.state.frames| <= |mem'.state.frames|
    ensures ObjectsOk(mem') && PrimitivesOk(mem')
  {}

  lemma AllocatedKeeps(mem: Memory, o: HeapObject)
    requires MemoryOk(mem) && o.env < |mem.state.frames| && CodeOk(o.code)
    ensures Kept(mem, Allocated(mem, o))
  {}

  lemma AssignedKeeps(mem: Memory, env: nat, name: Symbol, v: Object)
    requires MemoryOk(mem) && env < |mem.state.frames| && Storable(v)
    ensures var (mem', status, oldValue) := Assigned(mem, env, name, v);
      Kept(mem, mem') && (status == Done ==> Storable(oldValue))
  {
    StepKeeps(mem.state, OpAssign(env, name, ToCell(v)));
    AssignBound(mem.state, FindCell(mem.state, env, name), ToCell(v), false);
    hide Inv, ParametersBound, FindCell, UpdateUuoLinks;
    var mem' := Assigned(mem, env, name, v).0;
    ObjectsStay(mem, mem');
  }

  lemma DefinedKeeps(mem: Memory, env: nat, name: Symbol, v: Object)
    requires MemoryOk(mem) && env < |mem.state.frames| && Storable(v)
    ensures Kept(mem, Defined(mem, env, name, v).0)
  {
    var s := mem.state;
    DefineAllowed(s, env, name, ToCell(v));
    StepKeeps(s, OpDefine(env, name, ToCell(v)));
    var found := ScanFrame(s, env, name, true);
    if found.Some? { AssignBound(s, found.cell, ToCell(v), true); } else { DefineBound(s, env, name, ToCell(v)); }
    hide Inv, ParametersBound, ScanFrame, AssignEnd, DefineNew;
    ObjectsStay(mem, Defined(mem, env, name, v).0);
  }

  lemma FramedKeeps(mem: Memory, f: Object, args: seq<Object>)
    requires MemoryOk(mem) && IsClosure(mem, f) && ArityOk(mem.objects[f.value].code, |args|)
    requires forall i :: 0 <= i < |args| ==> Storable(args[i])
    ensures Kept(mem, Framed(mem, f, args)) && |Framed(mem, f, args).state.frames| == |mem.state.frames| + 1
    ensures FrameAllowed(mem.state, mem.objects[f.value].env, mem.objects[f.value].code.params, args)
  {
    var c := mem.objects[f.value];
    assert CodeOk(c.code);
    StepKeeps(mem.state, OpFrame(c.env, c.code.params, args));
    FrameBound(mem.state, c.env, c.code.params, args);
    hide Inv, ParametersBound;
    ObjectsStay(mem, Framed(mem, f, args));
  }

  // ---------------------------------------------------------------- steps

  /** The registers and the stack in a memory that has been kept. */
  lemma StillHealthy(m: Machine, mem': Memory)
    requires Healthy(m) && Kept(m.mem, mem')
    ensures Healthy(m.(mem := mem'))
  {
    var m' := m.(mem := mem');
    forall i | 0 <= i < |m'.words| ensures ItemOk(m'.mem.state, m'.words[i]) { assert ItemOk(m.mem.state, m.words[i]); }
  }

  lemma PushHealthy(m: Machine, item: Item)
    requires Healthy(m) && 0 < m.sp && ItemOk(m.mem.state, item)
    ensures Healthy(Push(m, item))
  {}

  lemma DoThenHealthy(m: Machine, rc: ReturnCode, e: Expr)
    requires Healthy(m) && 2 <= m.sp && CodeOk(e)
    ensures Healthy(DoThen(m, rc, e))
  {
    hide MemoryOk, CodeOk;
    PushHealthy(m, ExpItem(m.exp));
    PushHealthy(Push(m, ExpItem(m.exp)), CodeItem(rc));
  }

  lemma PushEnvHealthy(m: Machine, rc: ReturnCode, e: Expr)
    requires Healthy(m) && CodeOk(e)
    ensures Healthy(PushEnvThen(m, rc, e))
  {
    hide MemoryOk, CodeOk;
    if m.sp >= 3 {
      PushHealthy(m, EnvItem(m.env));
      DoThenHealthy(Push(m, EnvItem(m.env)), rc, e);
    }
  }

  lemma CombinationHealthy(m: Machine)
    requires Healthy(m) && m.exp.Combination?
    ensures Healthy(StepEvaluate(m))
  {
    var n := |m.exp.operands|;
    if m.sp >= n + 4 {
      assert CodeOk(m.exp.operator) && (n > 0 ==> CodeOk(m.exp.operands[n - 1]));
      hide MemoryOk, CodeOk;
      var m1 := m.(sp := m.sp - n);
      PushHealthy(m1, CountItem(n));
      var slots := Push(m1, CountItem(n));
      if n == 0 {
        PushHealthy(slots, CountItem(1));
        DoThenHealthy(Push(slots, CountItem(1)), CombApplyFunction, m.exp.operator);
      } else {
        PushHealthy(slots, EnvItem(m.env));
        DoThenHealthy(Push(slots, EnvItem(m.env)), CombSaveValue, m.exp.operands[n - 1]);
      }
    }
  }

  lemma EvaluateHealthy(m: Machine)
    requires Healthy(m)
    ensures Healthy(StepEvaluate(m))
  {
    match m.exp {
      case Assignment(_, operand) => PushEnvHealthy(m, AssignmentFinish, operand);
      case Definition(_, operand) => PushEnvHealthy(m, DefinitionFinish, operand);
      case Conditional(decider, _, _) => PushEnvHealthy(m, ConditionalDecide, decider);
      case Disjunction(decider, _) => PushEnvHealthy(m, DisjunctionDecide, decider);
      case Sequence(first, _) => PushEnvHealthy(m, SequenceFinish, first);
      case Combination(_, _) => CombinationHealthy(m);
      case Delay(expression) =>
        AllocatedKeeps(m.mem, Promise(expression, m.env));
        StillHealthy(m, Allocated(m.mem, Promise(expression, m.env)));
      case Lambda(_, _, _) =>
        AllocatedKeeps(m.mem, Closure(m.exp, m.env));
        StillHealthy(m, Allocated(m.mem, Closure(m.exp, m.env)));
      case _ =>
        hide MemoryOk, StackOk, FindCell;
    }
  }

  lemma SaveHealthy(m: Machine)
    requires Healthy(m) && m.exp.Combination?
    ensures Healthy(SaveValue(m, m.exp.operator, m.exp.operands))
  {
    var operands := m.exp.operands;
    assert CodeOk(m.exp.operator) && forall i :: 0 <= i < |operands| ==> CodeOk(operands[i]);
    hide MemoryOk, CodeOk;
    if m.sp < |m.words| && m.words[m.sp].CountItem? {
      var n := m.words[m.sp].n;
      if n != 0 && m.sp + n < |m.words| && n <= |operands| && m.sp >= 3 {
        var stored := m.(words := m.words[m.sp + n := ValueItem(m.val)][m.sp := CountItem(n - 1)]);
        assert Healthy(stored);
        if n > 1 {
          PushHealthy(stored, EnvItem(m.env));
          DoThenHealthy(Push(stored, EnvItem(m.env)), CombSaveValue, operands[n - 2]);
        } else {
          PushHealthy(stored, CountItem(|operands| + 1));
          DoThenHealthy(Push(stored, CountItem(|operands| + 1)), CombApplyFunction, m.exp.operator);
        }
      }
    }
  }

  lemma ContinueHealthy(m: Machine)
    requires Healthy(m)
    ensures Healthy(Continue(m))
  {
    match (m.ret, m.exp) {
      case (AssignmentFinish, Assignment(target, _)) =>
        if target.Variable? {
          var (mem, status, oldValue) := Assigned(m.mem, m.env, target.name, m.val);
          AssignedKeeps(m.mem, m.env, target.name, m.val);
          StillHealthy(m, mem);
        }
      case (DefinitionFinish, Definition(name, _)) =>
        DefinedKeeps(m.mem, m.env, name, m.val);
        StillHealthy(m, Defined(m.mem, m.env, name, m.val).0);
      case (CombSaveValue, Combination(_, _)) => SaveHealthy(m);
      case _ => hide MemoryOk, StackOk;
    }
  }

  lemma ReturnHealthy(m: Machine)
    requires Healthy(m)
    ensures Healthy(StepReturn(m))
  {
    hide MemoryOk, CodeOk, Continue;
    if m.sp + 2 <= |m.words| && m.words[m.sp].CodeItem? && m.words[m.sp + 1].ExpItem? {
      assert ItemOk(m.mem.state, m.words[m.sp + 1]);
      var r := m.(ret := m.words[m.sp].rc, exp := m.words[m.sp + 1].e, sp := m.sp + 2);
      if r.sp < |r.words| && r.words[r.sp].EnvItem? {
        assert ItemOk(r.mem.state, r.words[r.sp]);
        ContinueHealthy(r.(env := r.words[r.sp].f, sp := r.sp + 1));
      }
    }
  }

  /** The arguments of the frame on the stack. */
  lemma ArgumentsOk(m: Machine)
    requires Healthy(m) && FrameOnTop(m)
    ensures forall v :: v in Values(m.words[m.sp + 1..m.sp + 1 + m.words[m.sp].n]) ==> Storable(v)
  {
    var items := m.words[m.sp + 1..m.sp + 1 + m.words[m.sp].n];
    forall i | 0 <= i < |items| ensures Storable(Values(items)[i]) {
      assert items[i] == m.words[m.sp + 1 + i];
      assert ItemOk(m.mem.state, m.words[m.sp + 1 + i]);
    }
  }

  lemma ApplyHealthy(m: Machine)
    requires Healthy(m)
    ensures Healthy(StepApply(m))
  {
    if FrameOnTop(m) {
      ArgumentsOk(m);
      hide Framed, Inv, ParametersBound, CodeOk;
      var size := m.words[m.sp].n;
      var f := m.words[m.sp + 1].v;
      var vs := Values(m.words[m.sp + 1..m.sp + 1 + size]);
      var args := vs[1..];
      assert |args| == size - 1;
      assert forall i :: 0 <= i < |args| ==> args[i] == vs[i + 1];
      if IsClosure(m.mem, f) {
        if ArityOk(m.mem.objects[f.value].code, size - 1) {
          FramedKeeps(m.mem, f, args);
          BodyOk(m.mem, f);
          StillHealthy(m.(sp := m.sp + 1 + size), Framed(m.mem, f, args));
        }
      } else if IsPrimitive(m.mem, f) {
        assert forall v :: v in args ==> Storable(v);
        assert Storable(m.mem.primitives[f.value].code(args));
      }
    }
  }

  lemma BodyOk(mem: Memory, f: Object)
    requires MemoryOk(mem) && IsClosure(mem, f)
    ensures CodeOk(mem.objects[f.value].code.body)
  {
    assert CodeOk(mem.objects[f.value].code);
  }

  /** Every step of the interpreter keeps the compiled references consistent with the environments. */
  lemma StepHealthy(m: Machine)
    requires Healthy(m)
    ensures Healthy(InterpMachine.Step(m))
  {
    match m.mode {
      case Evaluating => EvaluateHealthy(m);
      case Returning => ReturnHealthy(m);
      case Applying => ApplyHealthy(m);
      case _ =>
    }
  }

  lemma {:induction false} RunHealthy(m: Machine, n: nat)
    requires Healthy(m)
    ensures Healthy(Steps(m, n))
    decreases n
  {
    if n > 0 {
      StepHealthy(m);
      RunHealthy(InterpMachine.Step(m), n - 1);
    }
  }
}
