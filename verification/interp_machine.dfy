/** The SCode interpreter: registers, a stack in an array, and one step of its dispatch loop. */
module InterpMachine {
  import opened LookupState
  import opened LookupOperations
  import opened LookupBindings
  import opened LookupRuns

  datatype Expr =
    | Constant(datum: Object)
    | Variable(name: Symbol)
    | Assignment(target: Expr, operand: Expr)
    | Definition(name: Symbol, operand: Expr)
    | Conditional(decider: Expr, consequent: Expr, alternative: Expr)
    | Disjunction(decider: Expr, alternative: Expr)
    | Sequence(first: Expr, second: Expr)
    | Comment(expression: Expr)
    | Delay(expression: Expr)
    | Lambda(params: seq<Symbol>, body: Expr, lexpr: bool)
    | Combination(operator: Expr, operands: seq<Expr>)

  datatype HeapObject = Closure(code: Expr, env: nat) | Promise(code: Expr, env: nat)

  /** A primitive that computes a value from its arguments; LEXPR_ARITY accepts any number. */
  datatype Primitive = Primitive(arity: int, code: seq<Object> -> Object)

  const LEXPR_ARITY := -1

  datatype Memory = Memory(state: State, objects: map<int, HeapObject>, primitives: map<int, Primitive>, free: int)

  /** #F, and the object that programs use for the unassigned marker. */
  const SHARP_F: Object := Plain(0)
  const EXTERNAL_UNASSIGNED: Object := Plain(1)

  datatype ReturnCode =
    | EndOfComputation
    | CombSaveValue
    | CombApplyFunction
    | ConditionalDecide
    | DisjunctionDecide
    | AssignmentFinish
    | DefinitionFinish
    | SequenceFinish

  /** A word of the stack. */
  datatype Item =
    CodeItem(rc: ReturnCode) | ExpItem(e: Expr) | EnvItem(f: nat) | ValueItem(v: Object) | CountItem(n: nat)

  datatype Error = VariableError(status: Status) | BadFrame | Inapplicable | WrongNumberOfArguments

  /** Where the machine is: at do_expression, pop_return or internal_apply, or at an end. */
  datatype Mode = Evaluating | Returning | Applying | Halted | Failed(error: Error) | Overflowed | BadStack

  /** The stack grows towards index 0; words[sp] is its top. */
  datatype Machine = Machine(
    mode: Mode, exp: Expr, env: nat, val: Object, ret: ReturnCode, words: seq<Item>, sp: nat, mem: Memory)

  ghost predicate InStack(m: Machine) {
    m.sp <= |m.words|
  }

  predicate Final(m: Machine) {
    m.mode.Halted? || m.mode.Failed? || m.mode.Overflowed? || m.mode.BadStack?
  }

  /** MAP_TO_UNASSIGNED and MAP_FROM_UNASSIGNED. */
  function ToCell(v: Object): Object {
    if v == EXTERNAL_UNASSIGNED then Unassigned else v
  }

  function FromCell(v: Object): Object {
    if v == Unassigned then EXTERNAL_UNASSIGNED else v
  }

  // ---------------------------------------------------------------- what machine and evaluator do to memory

  function Allocated(mem: Memory, o: HeapObject): Memory {
    mem.(objects := mem.objects[mem.free := o], free := mem.free + 2)
  }

  /** The state after an assignment, its status, and the old value. */
  function Assigned(mem: Memory, env: nat, name: Symbol, v: Object): (Memory, Status, Object) {
    var oldValue := Content(mem.state, FindCell(mem.state, env, name));
    var (state, status) := AssignVariable(mem.state, env, name, ToCell(v));
    (mem.(state := state), status, FromCell(oldValue))
  }

  function Defined(mem: Memory, env: nat, name: Symbol, v: Object): (Memory, Status) {
    var (state, status) := DefineVariable(mem.state, env, name, ToCell(v));
    (mem.(state := state), status)
  }

  predicate IsClosure(mem: Memory, f: Object) {
    f.Plain? && f.value in mem.objects && mem.objects[f.value].Closure? && mem.objects[f.value].code.Lambda?
  }

  predicate IsPrimitive(mem: Memory, f: Object) {
    f.Plain? && f.value in mem.primitives
  }

  predicate ArityOk(lambda: Expr, nargs: nat)
    requires lambda.Lambda?
  {
    nargs == |lambda.params| || (lambda.lexpr && nargs > |lambda.params|)
  }

  predicate PrimitiveArityOk(p: Primitive, nargs: nat) {
    nargs == p.arity || p.arity == LEXPR_ARITY
  }

  function Framed(mem: Memory, f: Object, args: seq<Object>): Memory
    requires IsClosure(mem, f)
  {
    var c := mem.objects[f.value];
    mem.(state := MakeFrame(mem.state, c.env, c.code.params, args))
  }

  // ---------------------------------------------------------------- stack

  function Push(m: Machine, item: Item): Machine
    requires 0 < m.sp <= |m.words|
  {
    m.(words := m.words[m.sp - 1 := item], sp := m.sp - 1)
  }

  /** DO_NTH_THEN: save a continuation and evaluate a part. */
  function DoThen(m: Machine, rc: ReturnCode, e: Expr): Machine
    requires 2 <= m.sp <= |m.words|
  {
    var saved := Push(Push(m, ExpItem(m.exp)), CodeItem(rc));
    saved.(ret := rc, exp := e, mode := Evaluating)
  }

  /** The environment is saved too. */
  function PushEnvThen(m: Machine, rc: ReturnCode, e: Expr): (r: Machine)
    requires InStack(m)
    ensures InStack(r) && |r.words| == |m.words|
  {
    if m.sp < 3 then m.(mode := Overflowed) else DoThen(Push(m, EnvItem(m.env)), rc, e)
  }

  function ReturnValue(m: Machine, v: Object): Machine {
    m.(val := v, mode := Returning)
  }

  function ReducesTo(m: Machine, e: Expr): Machine {
    m.(exp := e, mode := Evaluating)
  }

  // ---------------------------------------------------------------- the eval dispatch

  function StepEvaluate(m: Machine): (r: Machine)
    requires InStack(m)
    ensures InStack(r) && |r.words| == |m.words|
  {
    match m.exp
    case Constant(datum) => ReturnValue(m, datum)
    case Variable(name) =>
      var (status, v) := LookupVariable(m.mem.state, m.env, name);
      if status == Done then ReturnValue(m, v) else m.(mode := Failed(VariableError(status)))
    case Assignment(_, operand) => PushEnvThen(m, AssignmentFinish, operand)
    case Definition(_, operand) => PushEnvThen(m, DefinitionFinish, operand)
    case Conditional(decider, _, _) => PushEnvThen(m, ConditionalDecide, decider)
    case Disjunction(decider, _) => PushEnvThen(m, DisjunctionDecide, decider)
    case Sequence(first, _) => PushEnvThen(m, SequenceFinish, first)
    case Comment(expression) => ReducesTo(m, expression)
    case Delay(expression) => ReturnValue(m.(mem := Allocated(m.mem, Promise(expression, m.env))), Plain(m.mem.free))
    case Lambda(_, _, _) => ReturnValue(m.(mem := Allocated(m.mem, Closure(m.exp, m.env))), Plain(m.mem.free))
    case Combination(operator, operands) =>
      var n := |operands|;
      if m.sp < n + 4 then m.(mode := Overflowed)
      else
        var slots := Push(m.(sp := m.sp - n), CountItem(n));
        if n == 0 then DoThen(Push(slots, CountItem(1)), CombApplyFunction, operator)
        else DoThen(Push(slots, EnvItem(m.env)), CombSaveValue, operands[n - 1])
  }

  // ---------------------------------------------------------------- the return dispatch

  /** The continuation is taken from the stack, and the environment below it. */
  function Unsaved(m: Machine): Machine
    requires m.sp + 2 <= |m.words| && m.words[m.sp].CodeItem? && m.words[m.sp + 1].ExpItem?
  {
    m.(ret := m.words[m.sp].rc, exp := m.words[m.sp + 1].e, sp := m.sp + 2)
  }

  function EnvPopped(m: Machine): Machine
    requires m.sp < |m.words| && m.words[m.sp].EnvItem?
  {
    m.(env := m.words[m.sp].f, sp := m.sp + 1)
  }

  /** The dispatch on the return code. */
  function Resumed(r: Machine): (t: Machine)
    requires InStack(r)
    ensures InStack(t) && |t.words| == |r.words|
  {
    match r.ret
    case EndOfComputation => r.(mode := Halted)
    case CombApplyFunction => if r.sp + 1 < |r.words|
      then r.(words := r.words[r.sp + 1 := ValueItem(r.val)], mode := Applying) else r.(mode := BadStack)
    case _ => if r.sp == |r.words| || !r.words[r.sp].EnvItem? then r.(mode := BadStack) else Continue(EnvPopped(r))
  }

  /** pop_return: restore the continuation and continue as it says. */
  function StepReturn(m: Machine): (r: Machine)
    requires InStack(m)
    ensures InStack(r) && |r.words| == |m.words|
  {
    if m.sp + 2 > |m.words| || !m.words[m.sp].CodeItem? || !m.words[m.sp + 1].ExpItem? then m.(mode := BadStack)
      else Resumed(Unsaved(m))
  }

  /** The return codes that have popped the environment. */
  function Continue(m: Machine): (r: Machine)
    requires InStack(m)
    ensures InStack(r) && |r.words| == |m.words|
  {
    match (m.ret, m.exp)
    case (ConditionalDecide, Conditional(_, consequent, alternative)) => ReducesTo(m, if m.val == SHARP_F
      then alternative else consequent)
    case (DisjunctionDecide, Disjunction(_, alternative)) => if m.val != SHARP_F then m.(mode := Returning)
      else ReducesTo(m, alternative)
    case (SequenceFinish, Sequence(_, second)) => ReducesTo(m, second)
    case (AssignmentFinish, Assignment(target, _)) =>
      if !target.Variable? then m.(mode := Failed(BadFrame))
      else
        var (mem, status, oldValue) := Assigned(m.mem, m.env, target.name, m.val);
        if status == Done then ReturnValue(m.(mem := mem), oldValue) else m.(mode := Failed(VariableError(status)))
    case (DefinitionFinish, Definition(name, _)) =>
      var (mem, status) := Defined(m.mem, m.env, name, m.val);
      if status == Done then ReturnValue(m.(mem := mem), Plain(name)) else m.(mode := Failed(VariableError(status)))
    case (CombSaveValue, Combination(operator, operands)) => SaveValue(m, operator, operands)
    case _ => m.(mode := BadStack)
  }

  /** RC_COMB_SAVE_VALUE: the finger counts the operands that are left. */
  function SaveValue(m: Machine, operator: Expr, operands: seq<Expr>): (r: Machine)
    requires InStack(m)
    ensures InStack(r) && |r.words| == |m.words|
  {
    if m.sp == |m.words| || !m.words[m.sp].CountItem? then m.(mode := BadStack)
    else
      var n := m.words[m.sp].n;
      if n == 0 || m.sp + n >= |m.words| || n > |operands| then m.(mode := BadStack)
      else if m.sp < 3 then m.(mode := Overflowed)
      else
        var stored := m.(words := m.words[m.sp + n := ValueItem(m.val)][m.sp := CountItem(n - 1)]);
        if n > 1 then DoThen(Push(stored, EnvItem(m.env)), CombSaveValue, operands[n - 2])
        else DoThen(Push(stored, CountItem(|operands| + 1)), CombApplyFunction, operator)
  }

  // ---------------------------------------------------------------- application

  predicate AllValues(items: seq<Item>) {
    forall i :: 0 <= i < |items| ==> items[i].ValueItem?
  }

  function Values(items: seq<Item>): seq<Object>
    requires AllValues(items)
  {
    seq(|items|, i requires 0 <= i < |items| => items[i].v)
  }

  /** The top of the stack holds an application frame. */
  predicate FrameOnTop(m: Machine) {
    && m.sp + 1 < |m.words| && m.words[m.sp].CountItem? && m.words[m.sp].n > 0
    && m.sp + 1 + m.words[m.sp].n <= |m.words| && AllValues(m.words[m.sp + 1..m.sp + 1 + m.words[m.sp].n])
  }

  /** internal_apply. */
  function StepApply(m: Machine): (r: Machine)
    requires InStack(m)
    ensures InStack(r) && |r.words| == |m.words|
  {
    if !FrameOnTop(m) then m.(mode := BadStack)
    else
      var size := m.words[m.sp].n;
      var f := m.words[m.sp + 1].v;
      var args := Values(m.words[m.sp + 1..m.sp + 1 + size])[1..];
      var popped := m.(sp := m.sp + 1 + size);
      if IsClosure(m.mem, f) then
        var lambda := m.mem.objects[f.value].code;
        if !ArityOk(lambda, size - 1) then m.(mode := Failed(WrongNumberOfArguments))
        else ReducesTo(popped.(env := |m.mem.state.frames|, mem := Framed(m.mem, f, args)), lambda.body)
      else if IsPrimitive(m.mem, f) then
        var p := m.mem.primitives[f.value];
        if !PrimitiveArityOk(p, size - 1) then m.(mode := Failed(WrongNumberOfArguments))
        else ReturnValue(popped, p.code(args))
      else m.(mode := Failed(Inapplicable))
  }

  /** One step; a machine at its end stays there. */
  function Step(m: Machine): (r: Machine)
    requires InStack(m)
    ensures InStack(r) && |r.words| == |m.words|
  {
    match m.mode
    case Evaluating => StepEvaluate(m)
    case Returning => StepReturn(m)
    case Applying => StepApply(m)
    case _ => m
  }

  function Steps(m: Machine, n: nat): (r: Machine)
    requires InStack(m)
    ensures InStack(r) && |r.words| == |m.words|
    decreases n
  {
    if n == 0 then m else Steps(Step(m), n - 1)
  }

  lemma OneStep(m: Machine)
    requires InStack(m)
    ensures Steps(m, 1) == Step(m)
  {
    assert Steps(Step(m), 0) == Step(m);
  }

  lemma {:induction false} StepsTrans(m: Machine, a: nat, b: nat)
    requires InStack(m)
    ensures Steps(m, a + b) == Steps(Steps(m, a), b)
    decreases a
  {
    hide Step;
    if a > 0 { StepsTrans(Step(m), a - 1, b); }
  }

  lemma {:induction false} StepsFinal(m: Machine, n: nat)
    requires InStack(m) && Final(m)
    ensures Steps(m, n) == m
    decreases n
  {
    if n > 0 { StepsFinal(m, n - 1); }
  }

  /** Two ends of the same run are the same. */
  lemma OneEnd(m: Machine, a: nat, b: nat)
    requires InStack(m) && Final(Steps(m, a))
    ensures a <= b ==> Steps(m, b) == Steps(m, a)
    ensures Final(Steps(m, b)) ==> Steps(m, b) == Steps(m, a)
  {
    if a <= b {
      StepsTrans(m, a, b - a);
      StepsFinal(Steps(m, a), b - a);
    } else if Final(Steps(m, b)) {
      StepsTrans(m, b, a - b);
      StepsFinal(Steps(m, b), a - b);
    }
  }
}
