/** The machine computes what the direct evaluator does, in exactly the evaluator's stack space. */
module InterpRefinement {
  import opened LookupState
  import opened LookupOperations
  import opened InterpMachine
  import opened InterpEval

  /** The stack from `base` on is the same. */
  ghost predicate SameAbove(s: Machine, t: Machine, base: nat) {
    |t.words| == |s.words| && forall i {:trigger t.words[i]} {:trigger s.words[i]} :: base <= i < |s.words| ==>
      t.words[i] == s.words[i]
  }

  /** t is at pop_return with the value, and with the stack that s had. */
  ghost predicate Returned(s: Machine, t: Machine, v: Object, mem: Memory) {
    t.mode == Returning && t.val == v && t.mem == mem && t.sp == s.sp && SameAbove(s, t, s.sp)
  }

  /** What a finished evaluation from s leads to. */
  ghost predicate Ends(s: Machine, r: Outcome, t: Machine) {
    match r
    case Value(v, mem, space) => if space <= s.sp then Returned(s, t, v, mem) else t.mode == Overflowed
    case Failure(error, space) => if space <= s.sp then t.mode == Failed(error) else t.mode == Overflowed
    case Unfinished => false
  }

  /** After n steps from s the machine is at t, as the outcome r demands; an evaluation that has not
      finished with the fuel is still under way after as many steps, or has overflowed the stack. */
  ghost predicate Simulated(fuel: nat, s: Machine, r: Outcome, n: nat)
    requires InStack(s)
  {
    var t := Steps(s, n);
    if r.Unfinished? then t.mode == Overflowed || (!Final(t) && fuel <= n) else Ends(s, r, t)
  }

  /** s evaluates e, with the stack that b has. */
  ghost predicate EvaluatesFor(b: Machine, s: Machine, mem: Memory, e: Expr, env: nat) {
    s.mode == Evaluating && s.mem == mem && s.exp == e && s.env == env && s.sp == b.sp && SameAbove(b, s, b.sp)
  }

  /** The machine has saved a continuation for the part e of b's expression. */
  ghost predicate Awaits(b: Machine, s: Machine, rc: ReturnCode, e: Expr) {
    && s.mode == Evaluating && s.mem == b.mem && s.exp == e && s.env == b.env && 3 <= b.sp && s.sp == b.sp - 3 &&
       SameAbove(b, s, b.sp) && InStack(b)
    && s.words[b.sp - 1] == EnvItem(b.env) && s.words[b.sp - 2] == ExpItem(b.exp) && s.words[b.sp - 3] == CodeItem(rc)
  }

  /** The value of the part has come back. */
  ghost predicate Resumes(b: Machine, s: Machine, rc: ReturnCode, v: Object, mem: Memory) {
    && s.mode == Returning && s.val == v && s.mem == mem && InStack(b) && 3 <= b.sp && s.sp == b.sp - 3 &&
       SameAbove(b, s, b.sp)
    && s.words[b.sp - 1] == EnvItem(b.env) && s.words[b.sp - 2] == ExpItem(b.exp) && s.words[b.sp - 3] == CodeItem(rc)
  }

  lemma PushedEnv(b: Machine, rc: ReturnCode, e: Expr)
    requires InStack(b) && b.mode == Evaluating && 3 <= b.sp
    ensures Awaits(b, PushEnvThen(b, rc, e), rc, e)
  {}

  lemma PartReturned(b: Machine, s: Machine, t: Machine, rc: ReturnCode, e: Expr, v: Object, mem: Memory)
    requires Awaits(b, s, rc, e) && Returned(s, t, v, mem)
    ensures Resumes(b, t, rc, v, mem)
  {
    assert t.words[b.sp - 1] == s.words[b.sp - 1] && t.words[b.sp - 2] == s.words[b.sp - 2] &&
      t.words[b.sp - 3] == s.words[b.sp - 3];
    forall i | b.sp <= i < |b.words| ensures t.words[i] == b.words[i] { assert t.words[i] == s.words[i]; }
  }

  /** The registers after the continuation has been restored. */
  ghost predicate Restored(b: Machine, m: Machine, rc: ReturnCode, v: Object, mem: Memory) {
    m.ret == rc && m.exp == b.exp && m.env == b.env && m.val == v && m.mem == mem && m.sp == b.sp &&
      SameAbove(b, m, b.sp) && InStack(m)
  }

  lemma Continues(b: Machine, t: Machine, rc: ReturnCode, v: Object, mem: Memory) returns (m: Machine)
    requires Resumes(b, t, rc, v, mem) && rc != EndOfComputation && rc != CombApplyFunction
    ensures Restored(b, m, rc, v, mem) && InStack(t) && Step(t) == Continue(m)
  {
    m := t.(ret := rc, exp := b.exp, env := b.env, sp := b.sp);
  }

  lemma SameAboveTrans(b: Machine, s: Machine, t: Machine, base: nat, base': nat)
    requires SameAbove(b, s, base) && SameAbove(s, t, base') && base' <= base
    ensures SameAbove(b, t, base)
  {
    forall i | base <= i < |b.words| ensures t.words[i] == b.words[i] { assert t.words[i] == s.words[i]; }
  }

  // ---------------------------------------------------------------- one step, then another evaluation

  /** The machine goes from s to a tail position s1 in a steps, having used k words. */
  lemma ThenTail(fuel: nat, s: Machine, a: nat, s1: Machine, n: nat, k: nat, r: Outcome)
    requires InStack(s) && Steps(s, a) == s1 && s1.sp == s.sp && SameAbove(s, s1, s.sp) && k <= s.sp && 0 < a &&
      0 < fuel
    requires Simulated(fuel - 1, s1, r, n)
    ensures Simulated(fuel, s, Tail(k, r), a + n)
  {
    StepsTrans(s, a, n);
    var t := Steps(s1, n);
    if r.Value? && r.space <= s.sp { SameAboveTrans(s, s1, t, s.sp, s.sp); }
  }

  /** The evaluation of a part with k words in use does not come to a value. */
  lemma ThenPart(fuel: nat, s: Machine, a: nat, s1: Machine, n: nat, k: nat, r: Outcome)
    requires InStack(s) && Steps(s, a) == s1 && s1.sp + k == s.sp && 0 < a && 0 < fuel
    requires Simulated(fuel - 1, s1, r, n) && (r.Value? ==> r.space > s1.sp)
    ensures Simulated(fuel, s, Inside(k, r), a + n)
  {
    StepsTrans(s, a, n);
  }

  // ---------------------------------------------------------------- constructs with one part before the rest

  /** The part that is evaluated first, and its return code. */
  function FirstPart(e: Expr): Expr
    requires e.Assignment? || e.Definition? || e.Conditional? || e.Disjunction? || e.Sequence?
  {
    match e
    case Assignment(_, operand) => operand
    case Definition(_, operand) => operand
    case Conditional(decider, _, _) => decider
    case Disjunction(decider, _) => decider
    case Sequence(first, _) => first
  }

  function CodeFor(e: Expr): ReturnCode {
    match e
    case Assignment(_, _) => AssignmentFinish
    case Definition(_, _) => DefinitionFinish
    case Conditional(_, _, _) => ConditionalDecide
    case Disjunction(_, _) => DisjunctionDecide
    case _ => SequenceFinish
  }

  predicate HasFirstPart(e: Expr) {
    e.Assignment? || e.Definition? || e.Conditional? || e.Disjunction? || e.Sequence?
  }

  lemma CodeIsNotLast(e: Expr)
    ensures CodeFor(e) != EndOfComputation && CodeFor(e) != CombApplyFunction
  {}

  lemma FirstStep(s: Machine)
    requires InStack(s) && s.mode == Evaluating && HasFirstPart(s.exp)
    ensures Step(s) == PushEnvThen(s, CodeFor(s.exp), FirstPart(s.exp))
    ensures s.sp < 3 ==> Step(s).mode == Overflowed
  {}

  /** The part has been evaluated to v; one more step restores the registers. */
  lemma PartDone(s: Machine, s1: Machine, rc: ReturnCode, e: Expr, k: nat, v: Object, mem: Memory) returns (m: Machine)
    requires InStack(s) && InStack(s1) && Steps(s, 1) == s1 && Awaits(s, s1, rc, e) &&
      Returned(s1, Steps(s1, k), v, mem)
    requires rc != EndOfComputation && rc != CombApplyFunction
    ensures Restored(s, m, rc, v, mem) && Steps(s, k + 2) == Continue(m)
  {
    hide Continue, Step, Steps, SameAbove, Restored, Resumes, Awaits, Returned;
    var t := Steps(s1, k);
    PartReturned(s, s1, t, rc, e, v, mem);
    m := Continues(s, t, rc, v, mem);
    StepsTrans(s, 1, k);
    StepsTrans(s, 1 + k, 1);
    OneStep(t);
  }

  /** Evaluate the first part: either that settles the outcome, or the machine comes back to s's stack with a value. */
  lemma SimulatePart(fuel: nat, s: Machine) returns (n: nat, m: Machine)
    requires InStack(s) && s.mode == Evaluating && HasFirstPart(s.exp) && 0 < fuel
    ensures var r := Inside(3, Eval(fuel - 1, s.mem, FirstPart(s.exp), s.env));
      if r.Value? && r.space <= s.sp
      then Restored(s, m, CodeFor(s.exp), r.val, r.mem) && n > 0 && Steps(s, n) == Continue(m)
      else Simulated(fuel, s, r, n)
    decreases fuel, 2
  {
    hide Eval, Continue, PushEnvThen, Step, Steps, SameAbove, Restored, Awaits, FirstPart, CodeFor;
    var e, rc := FirstPart(s.exp), CodeFor(s.exp);
    m := s;
    var s1 := Step(s);
    OneStep(s);
    FirstStep(s);
    n := 1;
    if s.sp >= 3 {
      PushedEnv(s, rc, e);
      AwaitsIs(s, s1, rc, e);
      var k := Simulate(fuel - 1, s1);
      var r := Eval(fuel - 1, s.mem, e, s.env);
      if r.Value? && r.space <= s1.sp {
        CodeIsNotLast(s.exp);
        m := PartDone(s, s1, rc, e, k, r.val, r.mem);
        n := k + 2;
      } else {
        ThenPart(fuel, s, 1, s1, k, 3, r);
        n := 1 + k;
      }
    }
  }

  lemma AwaitsIs(b: Machine, s: Machine, rc: ReturnCode, e: Expr)
    requires Awaits(b, s, rc, e)
    ensures s.mode == Evaluating && s.mem == b.mem && s.exp == e && s.env == b.env && s.sp == b.sp - 3 && InStack(s)
  {}

  /** The machine is where the outcome r demands, without further steps. */
  lemma Settled(fuel: nat, s: Machine, n: nat, k: nat, r: Outcome)
    requires InStack(s) && k <= s.sp && !r.Unfinished? && r.space == 0 && Ends(s, r, Steps(s, n))
    ensures Simulated(fuel, s, Tail(k, r), n)
  {}

  lemma SimulateAssignment(fuel: nat, s: Machine) returns (n: nat)
    requires InStack(s) && s.mode == Evaluating && s.exp.Assignment? && 0 < fuel
    ensures Simulated(fuel, s, Eval(fuel, s.mem, s.exp, s.env), n)
    decreases fuel, 3
  {
    var m;
    n, m := SimulatePart(fuel, s);
    var r := Inside(3, Eval(fuel - 1, s.mem, s.exp.operand, s.env));
    if r.Value? && r.space <= s.sp {
      Settled(fuel, s, n, r.space, AssignmentValue(r.mem, s.env, s.exp.target, r.val));
    }
  }

  lemma SimulateDefinition(fuel: nat, s: Machine) returns (n: nat)
    requires InStack(s) && s.mode == Evaluating && s.exp.Definition? && 0 < fuel
    ensures Simulated(fuel, s, Eval(fuel, s.mem, s.exp, s.env), n)
    decreases fuel, 3
  {
    var m;
    n, m := SimulatePart(fuel, s);
    var r := Inside(3, Eval(fuel - 1, s.mem, s.exp.operand, s.env));
    if r.Value? && r.space <= s.sp {
      Settled(fuel, s, n, r.space, DefinitionValue(r.mem, s.env, s.exp.name, r.val));
    }
  }

  /** Where the evaluation of e continues after its first part has given v; None when v is its value. */
  datatype Next = NoNext | Next(e: Expr)

  function Rest(e: Expr, v: Object): Next {
    match e
    case Conditional(_, consequent, alternative) => Next(if v == SHARP_F then alternative else consequent)
    case Disjunction(_, alternative) => if v == SHARP_F then Next(alternative) else NoNext
    case Sequence(_, second) => Next(second)
    case _ => NoNext
  }

  lemma Branches(s: Machine, m: Machine, v: Object, mem: Memory)
    requires s.exp.Conditional? || s.exp.Disjunction? || s.exp.Sequence?
    requires Restored(s, m, CodeFor(s.exp), v, mem)
    ensures var next := Rest(s.exp, v);
      if next.Next? then EvaluatesFor(s, Continue(m), mem, next.e, s.env) else Returned(s, Continue(m), v, mem)
  {}

  lemma SimulateBranch(fuel: nat, s: Machine) returns (n: nat)
    requires InStack(s) && s.mode == Evaluating && (s.exp.Conditional? || s.exp.Disjunction? || s.exp.Sequence?) &&
      0 < fuel
    ensures Simulated(fuel, s, Eval(fuel, s.mem, s.exp, s.env), n)
    decreases fuel, 3
  {
    hide Steps, Step, SameAbove;
    var m;
    n, m := SimulatePart(fuel, s);
    var r := Inside(3, Eval(fuel - 1, s.mem, FirstPart(s.exp), s.env));
    if r.Value? && r.space <= s.sp {
      var next := Rest(s.exp, r.val);
      Branches(s, m, r.val, r.mem);
      hide Continue, Restored;
      if next.Next? {
        var s1 := Steps(s, n);
        var k := Simulate(fuel - 1, s1);
        ThenTail(fuel, s, n, s1, k, r.space, Eval(fuel - 1, r.mem, next.e, s.env));
        n := n + k;
      } else {
        Settled(fuel, s, n, r.space, Value(r.val, r.mem, 0));
      }
    }
  }

  // ---------------------------------------------------------------- combinations

  /** The machine evaluates operand k - 1 of b's combination; the values of the later ones are stored. */
  ghost predicate AwaitsOperand(b: Machine, s: Machine, k: nat, mem: Memory, args: seq<Object>) {
    b.exp.Combination? && InStack(b) &&
    var n := |b.exp.operands|;
    && n + 4 <= b.sp && 0 < k <= n && |args| == n - k
    && s.mode == Evaluating && s.mem == mem && s.exp == b.exp.operands[k - 1] && s.env == b.env &&
       s.sp == b.sp - n - 4 && SameAbove(b, s, b.sp)
    && s.words[b.sp - n - 1] == CountItem(k) && s.words[b.sp - n - 2] == EnvItem(b.env)
    && s.words[b.sp - n - 3] == ExpItem(b.exp) && s.words[b.sp - n - 4] == CodeItem(CombSaveValue)
    && forall j {:trigger args[j]} :: 0 <= j < n - k ==> s.words[b.sp - n + k + j] == ValueItem(args[j])
  }

  /** All operands are stored and the machine evaluates the operator. */
  ghost predicate AwaitsOperator(b: Machine, s: Machine, mem: Memory, args: seq<Object>) {
    b.exp.Combination? && InStack(b) &&
    var n := |b.exp.operands|;
    && n + 4 <= b.sp && |args| == n
    && s.mode == Evaluating && s.mem == mem && s.exp == b.exp.operator && s.env == b.env && s.sp == b.sp - n - 4 &&
       SameAbove(b, s, b.sp)
    && s.words[b.sp - n - 2] == CountItem(n + 1)
    && s.words[b.sp - n - 3] == ExpItem(b.exp) && s.words[b.sp - n - 4] == CodeItem(CombApplyFunction)
    && forall j {:trigger args[j]} :: 0 <= j < n ==> s.words[b.sp - n + j] == ValueItem(args[j])
  }

  lemma CombinationStarts(b: Machine)
    requires InStack(b) && b.mode == Evaluating && b.exp.Combination? && |b.exp.operands| + 4 <= b.sp
    ensures var n := |b.exp.operands|;
      if n == 0 then AwaitsOperator(b, Step(b), b.mem, []) else AwaitsOperand(b, Step(b), n, b.mem, [])
  {}

  /** RC_COMB_SAVE_VALUE with the finger at k. */
  lemma OperandStep(b: Machine, t: Machine, k: nat, v: Object)
    requires InStack(b) && b.exp.Combination? && var n := |b.exp.operands|;
      n + 4 <= b.sp && 0 < k <= n && |t.words| == |b.words|
    requires t.mode == Returning && t.sp == b.sp - |b.exp.operands| - 4 && t.val == v
    requires var base := b.sp - |b.exp.operands|;
      t.words[base - 1] == CountItem(k) && t.words[base - 2] == EnvItem(b.env)
      && t.words[base - 3] == ExpItem(b.exp) && t.words[base - 4] == CodeItem(CombSaveValue)
    ensures var base := b.sp - |b.exp.operands|; var u := Step(t);
      && u.mode == Evaluating && u.mem == t.mem && u.env == b.env && u.sp == base - 4 && |u.words| == |t.words|
      && u.exp == (if k > 1 then b.exp.operands[k - 2] else b.exp.operator)
      && u.words[base + k - 1] == ValueItem(v) && u.words[base - 1] == CountItem(k - 1)
      && u.words[base - 2] == (if k > 1 then EnvItem(b.env) else CountItem(|b.exp.operands| + 1)) &&
         u.words[base - 3] == ExpItem(b.exp)
      && u.words[base - 4] == CodeItem(if k > 1 then CombSaveValue else CombApplyFunction)
      && forall i {:trigger u.words[i]} :: base <= i < |u.words| && i != base + k - 1 ==> u.words[i] == t.words[i]
  {
    var base := b.sp - |b.exp.operands|;
    var m := t.(ret := CombSaveValue, exp := b.exp, env := b.env, sp := base - 1);
    assert Step(t) == SaveValue(m, b.exp.operator, b.exp.operands);
  }

  /** The value of an operand is stored and the next one, or the operator, is taken up. */
  lemma OperandStored(b: Machine, s: Machine, t: Machine, k: nat, mem: Memory, args: seq<Object>, v: Object,
                      mem': Memory)
    requires AwaitsOperand(b, s, k, mem, args) && Returned(s, t, v, mem')
    ensures InStack(t) && if k > 1 then AwaitsOperand(b, Step(t), k - 1, mem', [v] + args)
      else AwaitsOperator(b, Step(t), mem', [v] + args)
  {
    hide Step;
    var n := |b.exp.operands|;
    var base := b.sp - n;
    assert t.words[base - 1] == CountItem(k) && t.words[base - 2] == EnvItem(b.env);
    assert t.words[base - 3] == ExpItem(b.exp) && t.words[base - 4] == CodeItem(CombSaveValue);
    OperandStep(b, t, k, v);
    var u := Step(t);
    forall j | 0 <= j < n - k + 1 ensures u.words[base + k - 1 + j] == ValueItem(([v] + args)[j]) {
      if j > 0 {
        assert s.words[base + k + (j - 1)] == ValueItem(args[j - 1]);
        assert t.words[base + k - 1 + j] == s.words[base + k - 1 + j];
      }
    }
    assert SameAbove(b, u, b.sp) by {
      forall i | b.sp <= i < |b.words| ensures u.words[i] == b.words[i] { assert t.words[i] == s.words[i]; }
    }
  }

  /** The operands and the operator have been evaluated, or one of them did not come to a value. */
  datatype Application = Ready(f: Object, args: seq<Object>, mem: Memory, space: nat) | Stopped(outcome: Outcome)

  /** The evaluation of a combination from its operand k - 1 on up to the application, where the later
      operands have the values args and have taken `space`. */
  function RestOfFrame(fuel: nat, mem: Memory, e: Expr, env: nat, k: nat, args: seq<Object>, space: nat): Application
    requires e.Combination? && k <= |e.operands|
  {
    match EvalOperands(fuel, mem, e.operands, env, k)
    case ArgsFailure(error, space') => Stopped(Failure(error, |e.operands| + 4 + Max(space, space')))
    case ArgsUnfinished => Stopped(Unfinished)
    case Args(first, mem1, space') =>
      var r := Inside(|e.operands| + 4, Tail(Max(space, space'), Eval(fuel, mem1, e.operator, env)));
      if r.Value? then Ready(r.val, first + args, r.mem, r.space) else Stopped(r)
  }

  function WholeFrame(fuel: nat, mem: Memory, e: Expr, env: nat): Application
    requires e.Combination?
  {
    RestOfFrame(fuel, mem, e, env, |e.operands|, [], 0)
  }

  lemma WholeCombination(fuel: nat, mem: Memory, e: Expr, env: nat)
    requires e.Combination? && 0 < fuel
    ensures Eval(fuel, mem, e, env) ==
      match WholeFrame(fuel - 1, mem, e, env)
      case Ready(f, args, mem', space) => Tail(space, Apply(fuel - 1, mem', f, args))
      case Stopped(r) => r
  {
    var a := EvalOperands(fuel - 1, mem, e.operands, env, |e.operands|);
    if a.Args? { assert a.args + [] == a.args; }
  }

  lemma OneOperand(fuel: nat, mem: Memory, e: Expr, env: nat, k: nat, args: seq<Object>, space: nat)
    requires e.Combination? && 0 < k <= |e.operands|
    ensures var r := Eval(fuel, mem, e.operands[k - 1], env);
      RestOfFrame(fuel, mem, e, env, k, args, space) ==
      match r
      case Value(v, mem', space') => RestOfFrame(fuel, mem', e, env, k - 1, [v] + args, Max(space, space'))
      case Failure(error, space') => Stopped(Inside(|e.operands| + 4, Tail(space, r)))
      case Unfinished => Stopped(Unfinished)
  {
    var r := Eval(fuel, mem, e.operands[k - 1], env);
    if r.Value? {
      var a := EvalOperands(fuel, r.mem, e.operands, env, k - 1);
      if a.Args? { assert (a.args + [r.val]) + args == a.args + ([r.val] + args); }
    }
  }

  /** The application frame of f and args is on the stack, on top of what b has. */
  ghost predicate Applies(b: Machine, u: Machine, f: Object, args: seq<Object>, mem: Memory) {
    && u.mode == Applying && u.mem == mem && |args| + 2 <= b.sp && InStack(b) && u.sp == b.sp - |args| - 2 &&
       SameAbove(b, u, b.sp)
    && u.words[u.sp] == CountItem(|args| + 1) && u.words[u.sp + 1] == ValueItem(f)
    && forall j {:trigger args[j]} :: 0 <= j < |args| ==> u.words[u.sp + 2 + j] == ValueItem(args[j])
  }

  /** After n steps from b the machine is about to apply, or it is where the outcome demands. */
  ghost predicate FrameReached(fuel: nat, b: Machine, q: Application, n: nat)
    requires InStack(b)
  {
    match q
    case Ready(f, args, mem, space) => if space <= b.sp then n > 0 && Applies(b, Steps(b, n), f, args, mem)
      else Steps(b, n).mode == Overflowed
    case Stopped(r) => !r.Value? && Simulated(fuel, b, r, n)
  }

  /** From operand k - 1 on. */
  lemma SimulateOperands(fuel: nat, b: Machine, a: nat, s: Machine, k: nat, mem: Memory, args: seq<Object>, space: nat)
    returns (n: nat)
    requires 0 < fuel && InStack(b) && 0 < a && Steps(b, a) == s && AwaitsOperand(b, s, k, mem, args)
    requires |b.exp.operands| + 4 + space <= b.sp
    ensures FrameReached(fuel, b, RestOfFrame(fuel - 1, mem, b.exp, b.env, k, args, space), n)
    decreases fuel, 2, k
  {
    hide Eval, EvalOperands, Apply, Step, Steps, AwaitsOperator, RestOfFrame, SameAbove;
    var c := Simulate(fuel - 1, s);
    var r := Eval(fuel - 1, mem, s.exp, s.env);
    OneOperand(fuel - 1, mem, b.exp, b.env, k, args, space);
    n := a + c;
    StepsTrans(b, a, c);
    if r.Value? && r.space <= s.sp {
      var t := Steps(s, c);
      OperandStored(b, s, t, k, mem, args, r.val, r.mem);
      StepsTrans(b, n, 1);
      var s1 := Step(t);
      OneStep(t);
      if k > 1 {
        n := SimulateOperands(fuel, b, n + 1, s1, k - 1, r.mem, [r.val] + args, Max(space, r.space));
      } else {
        n := SimulateOperator(fuel, b, n + 1, s1, r.mem, [r.val] + args, Max(space, r.space));
      }
    } else if r.Value? {
      RestIsLarge(fuel - 1, r.mem, b.exp, b.env, k - 1, [r.val] + args, Max(space, r.space));
    }
  }

  /** A combination needs no less space than its operands do. */
  lemma RestIsLarge(fuel: nat, mem: Memory, e: Expr, env: nat, k: nat, args: seq<Object>, space: nat)
    requires e.Combination? && k <= |e.operands|
    ensures var r := RestOfFrame(fuel, mem, e, env, k, args, space);
      if r.Ready? then r.space >= |e.operands| + 4 + space
      else !r.outcome.Value? && (r.outcome.Failure? ==> r.outcome.space >= |e.operands| + 4 + space)
  {}

  /** The operator has been evaluated to f. */
  lemma OperatorReturned(b: Machine, s: Machine, t: Machine, mem: Memory, args: seq<Object>, f: Object, mem': Memory)
    requires AwaitsOperator(b, s, mem, args) && Returned(s, t, f, mem')
    ensures InStack(t) && Applies(b, Step(t), f, args, mem')
  {
    var n := |args|;
    var base := b.sp - n;
    assert t.words[base - 2] == CountItem(n + 1) && t.words[base - 3] == ExpItem(b.exp) &&
      t.words[base - 4] == CodeItem(CombApplyFunction);
    var u := Step(t);
    forall j | 0 <= j < n ensures u.words[base + j] == ValueItem(args[j]) {
      assert t.words[base + j] == s.words[base + j];
    }
    forall i | b.sp <= i < |b.words| ensures u.words[i] == b.words[i] { assert t.words[i] == s.words[i]; }
  }

  /** The frame on the stack is popped by the application. */
  lemma FrameRead(u: Machine, f: Object, args: seq<Object>)
    requires u.mode == Applying && u.sp + 2 + |args| <= |u.words| && u.words[u.sp] == CountItem(|args| + 1) &&
      u.words[u.sp + 1] == ValueItem(f)
    requires forall j {:trigger args[j]} :: 0 <= j < |args| ==> u.words[u.sp + 2 + j] == ValueItem(args[j])
    ensures FrameOnTop(u) && Values(u.words[u.sp + 1..u.sp + 2 + |args|])[1..] == args
  {
    var items := u.words[u.sp + 1..u.sp + 2 + |args|];
    assert AllValues(items) by {
      forall i | 0 <= i < |items| ensures items[i].ValueItem? {
        if i > 0 { assert items[i] == u.words[u.sp + 2 + (i - 1)] == ValueItem(args[i - 1]); }
      }
    }
    var vs := Values(items)[1..];
    assert |vs| == |args|;
    forall j | 0 <= j < |args| ensures vs[j] == args[j] {
      assert vs[j] == items[j + 1].v && items[j + 1] == u.words[u.sp + 2 + j];
    }
    assert vs == args;
  }

  /** One step of internal_apply. */
  lemma Applied(b: Machine, u: Machine, f: Object, args: seq<Object>)
    requires Applies(b, u, f, args, u.mem)
    ensures if IsClosure(u.mem, f) && ArityOk(u.mem.objects[f.value].code, |args|)
      then EvaluatesFor(b, Step(u), Framed(u.mem, f, args), u.mem.objects[f.value].code.body, |u.mem.state.frames|)
      else if IsPrimitive(u.mem, f) && !IsClosure(u.mem, f) && PrimitiveArityOk(u.mem.primitives[f.value], |args|)
      then Returned(b, Step(u), u.mem.primitives[f.value].code(args), u.mem)
      else var known := IsClosure(u.mem, f) || IsPrimitive(u.mem, f);
           Step(u).mode == Failed(if known then WrongNumberOfArguments else Inapplicable)
  {
    FrameRead(u, f, args);
    hide Framed;
    assert |args| + 1 - 1 == |args|;
  }

  /** Apply f; the frame is on top of the stack that b has. */
  lemma SimulateApply(fuel: nat, b: Machine, a: nat, u: Machine, f: Object, args: seq<Object>, space: nat)
    returns (n: nat)
    requires 0 < fuel && InStack(b) && 0 < a && Steps(b, a) == u && space <= b.sp && Applies(b, u, f, args, u.mem)
    ensures Simulated(fuel, b, Tail(space, Apply(fuel - 1, u.mem, f, args)), n)
    decreases fuel, 0
  {
    hide Eval, Steps, Framed, SameAbove;
    StepsTrans(b, a, 1);
    var s1 := Step(u);
    OneStep(u);
    Applied(b, u, f, args);
    hide Step, StepApply;
    n := a + 1;
    if IsClosure(u.mem, f) && ArityOk(u.mem.objects[f.value].code, |args|) {
      var k := Simulate(fuel - 1, s1);
      ThenTail(fuel, b, n, s1, k, space, Apply(fuel - 1, u.mem, f, args));
      n := n + k;
    } else {
      Settled(fuel, b, n, space, Apply(fuel - 1, u.mem, f, args));
    }
  }

  /** The operator, after all operands. */
  lemma SimulateOperator(fuel: nat, b: Machine, a: nat, s: Machine, mem: Memory, args: seq<Object>, space: nat)
    returns (n: nat)
    requires 0 < fuel && InStack(b) && 0 < a && Steps(b, a) == s && AwaitsOperator(b, s, mem, args)
    requires |b.exp.operands| + 4 + space <= b.sp
    ensures FrameReached(fuel, b, RestOfFrame(fuel - 1, mem, b.exp, b.env, 0, args, space), n)
    decreases fuel, 1
  {
    hide Eval, Apply, Step, Steps, SameAbove;
    var c := Simulate(fuel - 1, s);
    var q := Eval(fuel - 1, mem, s.exp, s.env);
    n := a + c;
    StepsTrans(b, a, c);
    assert [] + args == args;
    if q.Value? && q.space <= s.sp {
      var t := Steps(s, c);
      OperatorReturned(b, s, t, mem, args, q.val, q.mem);
      StepsTrans(b, n, 1);
      OneStep(t);
      n := n + 1;
    }
  }

  /** The operands from the last to the first, then the operator. */
  lemma SimulateFrame(fuel: nat, s: Machine) returns (n: nat)
    requires InStack(s) && s.mode == Evaluating && s.exp.Combination? && 0 < fuel
    ensures FrameReached(fuel, s, WholeFrame(fuel - 1, s.mem, s.exp, s.env), n)
    decreases fuel, 3
  {
    var k := |s.exp.operands|;
    var s1 := Step(s);
    OneStep(s);
    if s.sp < k + 4 {
      n := 1;
      RestIsLarge(fuel - 1, s.mem, s.exp, s.env, k, [], 0);
    } else {
      CombinationStarts(s);
      if k == 0 {
        n := SimulateOperator(fuel, s, 1, s1, s.mem, [], 0);
      } else {
        n := SimulateOperands(fuel, s, 1, s1, k, s.mem, [], 0);
      }
    }
  }

  lemma SimulateCombination(fuel: nat, s: Machine) returns (n: nat)
    requires InStack(s) && s.mode == Evaluating && s.exp.Combination? && 0 < fuel
    ensures Simulated(fuel, s, Eval(fuel, s.mem, s.exp, s.env), n)
    decreases fuel, 4
  {
    hide Eval, WholeFrame, Apply, Step, Steps, SameAbove;
    WholeCombination(fuel, s.mem, s.exp, s.env);
    n := SimulateFrame(fuel, s);
    var q := WholeFrame(fuel - 1, s.mem, s.exp, s.env);
    if q.Ready? && q.space <= s.sp {
      n := SimulateApply(fuel, s, n, Steps(s, n), q.f, q.args, q.space);
    }
  }

  // ---------------------------------------------------------------- the refinement

  /** From do_expression the machine computes what the evaluator computes: it comes to pop_return with
      the value and the stack it started with, or fails with the same error, or overflows its stack
      just when the evaluation needs more space than there is. */
  lemma Simulate(fuel: nat, s: Machine) returns (n: nat)
    requires InStack(s) && s.mode == Evaluating
    ensures Simulated(fuel, s, Eval(fuel, s.mem, s.exp, s.env), n)
    decreases fuel, 5
  {
    if fuel == 0 {
      n := 0;
    } else {
      match s.exp {
        case Assignment(_, _) => n := SimulateAssignment(fuel, s);
        case Definition(_, _) => n := SimulateDefinition(fuel, s);
        case Conditional(_, _, _) => n := SimulateBranch(fuel, s);
        case Disjunction(_, _) => n := SimulateBranch(fuel, s);
        case Sequence(_, _) => n := SimulateBranch(fuel, s);
        case Combination(_, _) => n := SimulateCombination(fuel, s);
        case Comment(expression) =>
          OneStep(s);
          var k := Simulate(fuel - 1, Step(s));
          ThenTail(fuel, s, 1, Step(s), k, 0, Eval(fuel - 1, s.mem, expression, s.env));
          n := 1 + k;
        case _ =>
          OneStep(s);
          n := 1;
      }
    }
  }
}
