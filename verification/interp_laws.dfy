/** What programs mean: laws of the evaluator, and so of the machine that computes the same. */
module InterpLaws {
  import opened LookupState
  import opened LookupLists
  import opened LookupOperations
  import opened LookupRuns
  import opened LookupLaws
  import opened InterpMachine
  import opened InterpEval
  import opened InterpRefinement
  import opened InterpTheorems
  import opened InterpHealth

  /** What a program comes to, apart from the space that it takes. */
  datatype Result = Good(val: Object, mem: Memory) | Bad(error: Error)

  ghost predicate MeansWith(fuel: nat, mem: Memory, e: Expr, env: nat, o: Result) {
    match Eval(fuel, mem, e, env)
    case Value(v, mem', _) => o == Good(v, mem')
    case Failure(error, _) => o == Bad(error)
    case Unfinished => false
  }

  /** The evaluation of e comes to o. */
  ghost predicate Means(mem: Memory, e: Expr, env: nat, o: Result) {
    exists fuel: nat :: MeansWith(fuel, mem, e, env, o)
  }

  // ---------------------------------------------------------------- fuel

  /** More fuel does not change an evaluation that finishes. */
  lemma {:induction false} MoreFuel(fuel: nat, mem: Memory, e: Expr, env: nat)
    requires !Eval(fuel, mem, e, env).Unfinished?
    ensures Eval(fuel + 1, mem, e, env) == Eval(fuel, mem, e, env)
    decreases fuel, 0, 2
  {
    hide Eval;
    NeedsFuel(fuel, mem, e, env);
    match e {
      case Combination(_, _) => MoreCombination(fuel, mem, e, env);
      case Conditional(_, _, _) => MoreBranch(fuel, mem, e, env);
      case Disjunction(_, _) => MoreBranch(fuel, mem, e, env);
      case Sequence(_, _) => MoreBranch(fuel, mem, e, env);
      case Comment(expression) => MorePart(fuel, mem, e, expression, env);
      case Assignment(_, operand) => MorePart(fuel, mem, e, operand, env);
      case Definition(_, operand) => MorePart(fuel, mem, e, operand, env);
      case _ => LeafSame(fuel, mem, e, env);
    }
  }

  lemma LeafSame(fuel: nat, mem: Memory, e: Expr, env: nat)
    requires fuel > 0 && (e.Constant? || e.Variable? || e.Lambda? || e.Delay?)
    ensures Eval(fuel + 1, mem, e, env) == Eval(fuel, mem, e, env)
  {}

  lemma {:induction false} MorePart(fuel: nat, mem: Memory, e: Expr, part: Expr, env: nat)
    requires fuel > 0 && !Eval(fuel, mem, e, env).Unfinished?
    requires e == Comment(part) || (e.Assignment? && e.operand == part) || (e.Definition? && e.operand == part)
    ensures Eval(fuel + 1, mem, e, env) == Eval(fuel, mem, e, env)
    decreases fuel, 0, 0
  {
    MoreFuel(fuel - 1, mem, part, env);
  }

  /** The outcome of a branching expression from that of its first part. */
  lemma BranchIs(fuel: nat, mem: Memory, e: Expr, env: nat)
    requires e.Conditional? || e.Disjunction? || e.Sequence?
    ensures var r := Inside(3, Eval(fuel, mem, FirstPart(e), env));
      Eval(fuel + 1, mem, e, env) ==
      if r.Value? && Rest(e, r.val).Next? then Tail(r.space, Eval(fuel, r.mem, Rest(e, r.val).e, env)) else r
  {}

  /** The first part, and where the evaluation goes on, have come to an end. */
  lemma BranchFinished(fuel: nat, mem: Memory, e: Expr, env: nat)
    requires (e.Conditional? || e.Disjunction? || e.Sequence?) && !Eval(fuel + 1, mem, e, env).Unfinished?
    ensures var r := Eval(fuel, mem, FirstPart(e), env);
      !r.Unfinished? && (r.Value? && Rest(e, r.val).Next? ==> !Eval(fuel, r.mem, Rest(e, r.val).e, env).Unfinished?)
  {
    hide Eval, FirstPart, Rest;
    BranchIs(fuel, mem, e, env);
  }

  lemma BranchSame(fuel: nat, mem: Memory, e: Expr, env: nat)
    requires e.Conditional? || e.Disjunction? || e.Sequence?
    requires var r := Eval(fuel, mem, FirstPart(e), env);
      Eval(fuel + 1, mem, FirstPart(e), env) == r &&
      (r.Value? && Rest(e, r.val).Next? ==>
         Eval(fuel + 1, r.mem, Rest(e, r.val).e, env) == Eval(fuel, r.mem, Rest(e, r.val).e, env))
    ensures Eval(fuel + 2, mem, e, env) == Eval(fuel + 1, mem, e, env)
  {
    hide Eval, FirstPart, Rest;
    BranchIs(fuel, mem, e, env);
    BranchIs(fuel + 1, mem, e, env);
  }

  lemma {:induction false} MoreBranch(fuel: nat, mem: Memory, e: Expr, env: nat)
    requires (e.Conditional? || e.Disjunction? || e.Sequence?) && !Eval(fuel, mem, e, env).Unfinished?
    ensures Eval(fuel + 1, mem, e, env) == Eval(fuel, mem, e, env)
    decreases fuel, 0, 0
  {
    hide Eval, FirstPart, Rest;
    NeedsFuel(fuel, mem, e, env);
    BranchFinished(fuel - 1, mem, e, env);
    var r := Eval(fuel - 1, mem, FirstPart(e), env);
    MoreFuel(fuel - 1, mem, FirstPart(e), env);
    if r.Value? && Rest(e, r.val).Next? { MoreFuel(fuel - 1, r.mem, Rest(e, r.val).e, env); }
    BranchSame(fuel - 1, mem, e, env);
  }

  lemma NeedsFuel(fuel: nat, mem: Memory, e: Expr, env: nat)
    requires !Eval(fuel, mem, e, env).Unfinished?
    ensures fuel > 0
  {}

  lemma {:induction false} MoreCombination(fuel: nat, mem: Memory, e: Expr, env: nat)
    requires e.Combination? && !Eval(fuel, mem, e, env).Unfinished?
    ensures Eval(fuel + 1, mem, e, env) == Eval(fuel, mem, e, env)
    decreases fuel, 0, 1
  {
    hide Eval, EvalOperands, Apply;
    NeedsFuel(fuel, mem, e, env);
    WholeCombination(fuel, mem, e, env);
    var q := WholeFrame(fuel - 1, mem, e, env);
    hide WholeFrame;
    FrameFinished(fuel - 1, mem, e, env);
    MoreFrame(fuel - 1, mem, e, env);
    if q.Ready? { MoreApply(fuel - 1, q.mem, q.f, q.args); }
    WholeCombination(fuel + 1, mem, e, env);
  }

  /** The operands and the operator have come to an end. */
  lemma FrameFinished(fuel: nat, mem: Memory, e: Expr, env: nat)
    requires e.Combination?
    requires var q := WholeFrame(fuel, mem, e, env); q.Ready? || !q.outcome.Unfinished?
    ensures var a := EvalOperands(fuel, mem, e.operands, env, |e.operands|);
      !a.ArgsUnfinished? && (a.Args? ==> !Eval(fuel, a.mem, e.operator, env).Unfinished?)
  {
    hide Eval, EvalOperands;
  }

  lemma {:induction false} MoreFrame(fuel: nat, mem: Memory, e: Expr, env: nat)
    requires e.Combination?
    requires var q := WholeFrame(fuel, mem, e, env); q.Ready? || !q.outcome.Unfinished?
    ensures WholeFrame(fuel + 1, mem, e, env) == WholeFrame(fuel, mem, e, env)
    decreases fuel + 1, 0, 0
  {
    hide Eval, EvalOperands;
    FrameFinished(fuel, mem, e, env);
    var a := EvalOperands(fuel, mem, e.operands, env, |e.operands|);
    MoreOperands(fuel, mem, e.operands, env, |e.operands|);
    if a.Args? { MoreFuel(fuel, a.mem, e.operator, env); }
  }

  lemma {:induction false} MoreOperands(fuel: nat, mem: Memory, operands: seq<Expr>, env: nat, k: nat)
    requires k <= |operands| && !EvalOperands(fuel, mem, operands, env, k).ArgsUnfinished?
    ensures EvalOperands(fuel + 1, mem, operands, env, k) == EvalOperands(fuel, mem, operands, env, k)
    decreases fuel, 1 + k
  {
    if k > 0 {
      var r := Eval(fuel, mem, operands[k - 1], env);
      MoreFuel(fuel, mem, operands[k - 1], env);
      if r.Value? { MoreOperands(fuel, r.mem, operands, env, k - 1); }
    }
  }

  lemma {:induction false} MoreApply(fuel: nat, mem: Memory, f: Object, args: seq<Object>)
    requires !Apply(fuel, mem, f, args).Unfinished?
    ensures Apply(fuel + 1, mem, f, args) == Apply(fuel, mem, f, args)
    decreases fuel, 1
  {
    if IsClosure(mem, f) && ArityOk(mem.objects[f.value].code, |args|) {
      MoreFuel(fuel, Framed(mem, f, args), mem.objects[f.value].code.body, |mem.state.frames|);
    }
  }

  lemma {:induction false} EnoughFuel(fuel: nat, more: nat, mem: Memory, e: Expr, env: nat, o: Result)
    requires fuel <= more && MeansWith(fuel, mem, e, env, o)
    ensures MeansWith(more, mem, e, env, o)
    decreases more
  {
    hide Eval;
    if fuel < more {
      EnoughFuel(fuel, more - 1, mem, e, env, o);
      MoreFuel(more - 1, mem, e, env);
    }
  }

  /** A program has one meaning. */
  lemma OneMeaning(mem: Memory, e: Expr, env: nat, o: Result, o': Result)
    requires Means(mem, e, env, o) && Means(mem, e, env, o')
    ensures o == o'
  {
    hide Eval;
    var fuel: nat :| MeansWith(fuel, mem, e, env, o);
    var fuel': nat :| MeansWith(fuel', mem, e, env, o');
    FuelDoesNotMatter(fuel, fuel', mem, e, env);
  }

  /** What the machine comes to, with a stack that is large enough. */
  lemma MachineMeans(s: Machine, o: Result) returns (space: nat)
    requires AtBottom(s) && Means(s.mem, s.exp, s.env, o)
    ensures space <= s.sp ==>
      if o.Good? then exists n: nat :: HaltsWith(s, n, o.val, o.mem) else exists n: nat :: FailsWith(s, n, o.error)
    ensures space > s.sp ==> exists n: nat :: Steps(s, n).mode == Overflowed
  {
    hide Eval, Steps;
    var fuel: nat :| MeansWith(fuel, s.mem, s.exp, s.env, o);
    var r := Eval(fuel, s.mem, s.exp, s.env);
    space := r.space;
    var n := RunEnds(fuel, s);
    assert space <= s.sp ==> if o.Good? then HaltsWith(s, n, o.val, o.mem) else FailsWith(s, n, o.error);
  }

  // ---------------------------------------------------------------- health

  /** An evaluation leaves memory in order, and its value is an ordinary one. */
  lemma EvalHealthy(mem: Memory, e: Expr, env: nat, v: Object, mem': Memory)
    requires MemoryOk(mem) && CodeOk(e) && env < |mem.state.frames| && Means(mem, e, env, Good(v, mem'))
    ensures MemoryOk(mem') && Storable(v) && env < |mem'.state.frames|
  {
    hide Eval, Steps, MemoryOk, CodeOk;
    var fuel: nat :| MeansWith(fuel, mem, e, env, Good(v, mem'));
    var r := Eval(fuel, mem, e, env);
    var s := Machine(Evaluating, e, env, SHARP_F, EndOfComputation,
                     seq(r.space, _ => CountItem(0)) + [EnvItem(env)], r.space, mem);
    var n := Simulate(fuel, s);
    RunHealthy(s, n);
    assert Steps(s, n).words[r.space] == s.words[r.space] == EnvItem(env);
  }

  // ---------------------------------------------------------------- constants, variables, procedures

  lemma ConstantLaw(mem: Memory, datum: Object, env: nat)
    ensures Means(mem, Constant(datum), env, Good(datum, mem))
  {
    assert MeansWith(1, mem, Constant(datum), env, Good(datum, mem));
  }

  /** A variable has the value that it is bound to; one without a value is an error. */
  lemma VariableLaw(mem: Memory, name: Symbol, env: nat)
    requires Sound(mem.state)
    ensures var v := ValueIn(mem.state, env, name);
      Means(mem, Variable(name), env,
            if v.Plain? then Good(v, mem)
            else Bad(VariableError(if v.Unassigned? then ErrUnassigned else if v.Macro? then ErrMacro else ErrUnbound)))
  {
    LookupRule(mem.state, env, name);
    var v := ValueIn(mem.state, env, name);
    var o := if v.Plain? then Good(v, mem)
      else Bad(VariableError(if v.Unassigned? then ErrUnassigned else if v.Macro? then ErrMacro else ErrUnbound));
    assert MeansWith(1, mem, Variable(name), env, o);
  }

  /** A new object at the next free address. */
  ghost predicate Made(mem: Memory, mem': Memory, o: HeapObject) {
    mem'.state == mem.state && mem'.primitives == mem.primitives && mem'.free == mem.free + 2 &&
    mem'.objects == mem.objects[mem.free := o]
  }

  /** A lambda expression makes a closure with its own code and the present environment, a delay a promise. */
  lemma ProcedureLaw(mem: Memory, e: Expr, env: nat) returns (mem': Memory)
    requires e.Lambda? || e.Delay?
    ensures Means(mem, e, env, Good(Plain(mem.free), mem'))
    ensures Made(mem, mem', if e.Lambda? then Closure(e, env) else Promise(e.expression, env))
  {
    mem' := Eval(1, mem, e, env).mem;
    assert MeansWith(1, mem, e, env, Good(Plain(mem.free), mem'));
  }

  // ---------------------------------------------------------------- branches

  /** Where the evaluation of e goes on in the memory mem' when its first part has the value v. */
  ghost predicate GoesOn(mem: Memory, e: Expr, env: nat, mem': Memory, next: Expr) {
    forall o {:trigger Means(mem, e, env, o)} {:trigger Means(mem', next, env, o)} ::
      Means(mem, e, env, o) <==> Means(mem', next, env, o)
  }

  lemma AfterPart(mem: Memory, e: Expr, env: nat, v: Object, mem': Memory, o: Result)
    requires (e.Conditional? || e.Disjunction? || e.Sequence?) && Means(mem, FirstPart(e), env, Good(v, mem'))
    requires Rest(e, v).Next?
    ensures Means(mem, e, env, o) <==> Means(mem', Rest(e, v).e, env, o)
  {
    hide Eval, Rest, FirstPart;
    var f1: nat :| MeansWith(f1, mem, FirstPart(e), env, Good(v, mem'));
    if Means(mem, e, env, o) {
      var fuel: nat :| MeansWith(fuel, mem, e, env, o);
      NeedsFuel(fuel, mem, e, env);
      BranchIs(fuel - 1, mem, e, env);
      FuelDoesNotMatter(f1, fuel - 1, mem, FirstPart(e), env);
      assert MeansWith(fuel - 1, mem', Rest(e, v).e, env, o);
    }
    if Means(mem', Rest(e, v).e, env, o) {
      var f2: nat :| MeansWith(f2, mem', Rest(e, v).e, env, o);
      var more := if f1 < f2 then f2 else f1;
      EnoughFuel(f1, more, mem, FirstPart(e), env, Good(v, mem'));
      EnoughFuel(f2, more, mem', Rest(e, v).e, env, o);
      BranchIs(more, mem, e, env);
      assert MeansWith(more + 1, mem, e, env, o);
    }
  }

  lemma AllAfterPart(mem: Memory, e: Expr, env: nat, v: Object, mem': Memory)
    requires (e.Conditional? || e.Disjunction? || e.Sequence?) && Means(mem, FirstPart(e), env, Good(v, mem'))
    requires Rest(e, v).Next?
    ensures GoesOn(mem, e, env, mem', Rest(e, v).e)
  {
    hide Means;
    forall o ensures Means(mem, e, env, o) <==> Means(mem', Rest(e, v).e, env, o) {
      AfterPart(mem, e, env, v, mem', o);
    }
  }

  /** A conditional means its alternative if the decider yields #F, and otherwise its consequent. */
  lemma ConditionalLaw(mem: Memory, decider: Expr, consequent: Expr, alternative: Expr, env: nat, v: Object,
                       mem': Memory)
    requires Means(mem, decider, env, Good(v, mem'))
    ensures GoesOn(mem, Conditional(decider, consequent, alternative), env, mem',
                   if v == Plain(0) then alternative else consequent)
  {
    hide Means;
    AllAfterPart(mem, Conditional(decider, consequent, alternative), env, v, mem');
  }

  /** A disjunction means its alternative if the decider yields #F, and otherwise what the decider yields. */
  lemma DisjunctionLaw(mem: Memory, decider: Expr, alternative: Expr, env: nat, v: Object, mem': Memory)
    requires Means(mem, decider, env, Good(v, mem'))
    ensures if v == Plain(0) then GoesOn(mem, Disjunction(decider, alternative), env, mem', alternative)
      else Means(mem, Disjunction(decider, alternative), env, Good(v, mem'))
  {
    hide Eval, GoesOn;
    var e := Disjunction(decider, alternative);
    if v == Plain(0) {
      AllAfterPart(mem, e, env, v, mem');
    } else {
      var f1: nat :| MeansWith(f1, mem, decider, env, Good(v, mem'));
      BranchIs(f1, mem, e, env);
      assert MeansWith(f1 + 1, mem, e, env, Good(v, mem'));
    }
  }

  /** A sequence means its second part, after the first. */
  lemma SequenceLaw(mem: Memory, first: Expr, second: Expr, env: nat, v: Object, mem': Memory)
    requires Means(mem, first, env, Good(v, mem'))
    ensures GoesOn(mem, Sequence(first, second), env, mem', second)
  {
    hide Means;
    AllAfterPart(mem, Sequence(first, second), env, v, mem');
  }

  /** A comment means what it contains. */
  lemma CommentLaw(mem: Memory, expression: Expr, env: nat, o: Result)
    ensures Means(mem, Comment(expression), env, o) <==> Means(mem, expression, env, o)
  {
    if fuel: nat :| MeansWith(fuel, mem, Comment(expression), env, o) {
      assert MeansWith(fuel - 1, mem, expression, env, o);
    }
    if fuel: nat :| MeansWith(fuel, mem, expression, env, o) {
      assert MeansWith(fuel + 1, mem, Comment(expression), env, o);
    }
  }

  /** An error of the part that is evaluated first is the error of the whole. */
  lemma ErrorLaw(mem: Memory, e: Expr, part: Expr, env: nat, error: Error)
    requires Means(mem, part, env, Bad(error))
    requires match e
      case Assignment(_, operand) => operand == part
      case Definition(_, operand) => operand == part
      case Conditional(decider, _, _) => decider == part
      case Disjunction(decider, _) => decider == part
      case Sequence(first, _) => first == part
      case Combination(operator, operands) => part == if operands == [] then operator else operands[|operands| - 1]
      case _ => false
    ensures Means(mem, e, env, Bad(error))
  {
    var fuel: nat :| MeansWith(fuel, mem, part, env, Bad(error));
    if e.Combination? {
      FirstOperandFails(fuel, mem, e, env, error);
    } else {
      assert MeansWith(fuel + 1, mem, e, env, Bad(error));
    }
  }

  lemma FirstOperandFails(fuel: nat, mem: Memory, e: Expr, env: nat, error: Error)
    requires e.Combination? && var n := |e.operands|;
      MeansWith(fuel, mem, if n == 0 then e.operator else e.operands[n - 1], env, Bad(error))
    ensures MeansWith(fuel + 1, mem, e, env, Bad(error))
  {
    var n := |e.operands|;
    WholeCombination(fuel + 1, mem, e, env);
    if n > 0 { OneOperand(fuel, mem, e, env, n, [], 0); }
  }

  // ---------------------------------------------------------------- assignment and definition

  /** What a cell holds for the value v: the unassigned marker stands for no value. */
  ghost predicate HeldFor(v: Object, w: Object) {
    if v == Plain(1) then w == Unassigned else w == v
  }

  /** An assignment yields the old value; the variable then has the new one, and no other variable changes.
      An unbound variable or a macro cannot be assigned. */
  lemma AssignmentLaw(mem: Memory, name: Symbol, operand: Expr, env: nat, v: Object, mem1: Memory)
    returns (o: Result, w: Object)
    requires Means(mem, operand, env, Good(v, mem1)) && MemoryOk(mem1) && Storable(v) && env < |mem1.state.frames|
    ensures Means(mem, Assignment(Variable(name), operand), env, o) && HeldFor(v, w)
    ensures var u := ValueIn(mem1.state, env, name);
      if u.Plain? || u.Unassigned? then
        && o.Good? && o.val == (if u.Unassigned? then Plain(1) else u)
        && o.mem == mem1.(state := o.mem.state)
        && Updated(mem1.state, o.mem.state, env, name, w) && ValueIn(o.mem.state, env, name) == w
      else o == Bad(VariableError(if u.Macro? then ErrMacro else ErrUnbound))
  {
    var fuel: nat :| MeansWith(fuel, mem, operand, env, Good(v, mem1));
    w := ToCell(v);
    LookupRule(mem1.state, env, name);
    AssignLaw(mem1.state, env, name, w);
    hide AssignVariable, Updated;
    var r := Eval(fuel + 1, mem, Assignment(Variable(name), operand), env);
    o := if r.Value? then Good(r.val, r.mem) else Bad(r.error);
    assert MeansWith(fuel + 1, mem, Assignment(Variable(name), operand), env, o);
  }

  /** Only variables can be assigned. */
  lemma BadAssignment(mem: Memory, target: Expr, operand: Expr, env: nat, v: Object, mem1: Memory)
    requires Means(mem, operand, env, Good(v, mem1)) && !target.Variable?
    ensures Means(mem, Assignment(target, operand), env, Bad(BadFrame))
  {
    var fuel: nat :| MeansWith(fuel, mem, operand, env, Good(v, mem1));
    assert MeansWith(fuel + 1, mem, Assignment(target, operand), env, Bad(BadFrame));
  }

  /** A definition yields the name; the environment itself then binds it to the value. */
  lemma DefinitionLaw(mem: Memory, name: Symbol, operand: Expr, env: nat, v: Object, mem1: Memory)
    returns (mem': Memory, w: Object)
    requires Means(mem, operand, env, Good(v, mem1)) && MemoryOk(mem1) && Storable(v) && env < |mem1.state.frames|
    ensures Means(mem, Definition(name, operand), env, Good(Plain(name), mem')) && HeldFor(v, w)
    ensures mem' == mem1.(state := mem'.state) && Defines(mem1.state, mem'.state, Done, env, name, w)
  {
    var fuel: nat :| MeansWith(fuel, mem, operand, env, Good(v, mem1));
    w := ToCell(v);
    DefineLaw(mem1.state, env, name, w);
    hide DefinedIn;
    mem' := Defined(mem1, env, name, v).0;
    assert MeansWith(fuel + 1, mem, Definition(name, operand), env, Good(Plain(name), mem'));
  }

  /** A variable that has been assigned has the new value. */
  lemma AssignedThenRead(mem: Memory, name: Symbol, operand: Expr, env: nat, v: Object, mem1: Memory)
    returns (mem': Memory)
    requires MemoryOk(mem) && CodeOk(operand) && env < |mem.state.frames| && Means(mem, operand, env, Good(v, mem1))
    requires v.Plain? && v != Plain(1)
    requires ValueIn(mem1.state, env, name).Plain? || ValueIn(mem1.state, env, name).Unassigned?
    ensures Means(mem, Sequence(Assignment(Variable(name), operand), Variable(name)), env, Good(v, mem'))
  {
    EvalHealthy(mem, operand, env, v, mem1);
    var o, w := AssignmentLaw(mem, name, operand, env, v, mem1);
    mem' := o.mem;
    EvalHealthy(mem, Assignment(Variable(name), operand), env, o.val, o.mem);
    VariableLaw(mem', name, env);
    hide Means;
    SequenceLaw(mem, Assignment(Variable(name), operand), Variable(name), env, o.val, mem');
    assert Means(mem', Variable(name), env, Good(v, mem'));
  }

  /** A variable that has been defined has the value. */
  lemma DefinedThenRead(mem: Memory, name: Symbol, operand: Expr, env: nat, v: Object, mem1: Memory)
    returns (mem': Memory)
    requires MemoryOk(mem) && CodeOk(operand) && env < |mem.state.frames| && Means(mem, operand, env, Good(v, mem1))
    requires v.Plain? && v != Plain(1)
    ensures Means(mem, Sequence(Definition(name, operand), Variable(name)), env, Good(v, mem'))
  {
    EvalHealthy(mem, operand, env, v, mem1);
    var w;
    mem', w := DefinitionLaw(mem, name, operand, env, v, mem1);
    EvalHealthy(mem, Definition(name, operand), env, Plain(name), mem');
    VariableLaw(mem', name, env);
    hide Means;
    SequenceLaw(mem, Definition(name, operand), Variable(name), env, Plain(name), mem');
    assert Means(mem', Variable(name), env, Good(v, mem'));
  }

  // ---------------------------------------------------------------- combinations

  ghost predicate OperandMeans(operands: seq<Expr>, env: nat, args: seq<Object>, mems: seq<Memory>, k: int) {
    0 <= k < |operands| == |args| == |mems| - 1 && Means(mems[k + 1], operands[k], env, Good(args[k], mems[k]))
  }

  /** The operands yield args, each in the memory that the one behind it leaves: the last comes first. */
  ghost predicate OperandsMean(operands: seq<Expr>, env: nat, args: seq<Object>, mems: seq<Memory>) {
    && |operands| == |args| == |mems| - 1
    && forall k {:trigger OperandMeans(operands, env, args, mems, k)} :: 0 <= k < |operands| ==>
         OperandMeans(operands, env, args, mems, k)
  }

  lemma {:induction false} OperandsEvaluated(operands: seq<Expr>, env: nat, args: seq<Object>, mems: seq<Memory>,
                                             k: nat)
    returns (fuel: nat)
    requires OperandsMean(operands, env, args, mems) && k <= |operands|
    ensures var a := EvalOperands(fuel, mems[k], operands, env, k); a.Args? && a.args == args[..k] && a.mem == mems[0]
    decreases k
  {
    if k == 0 {
      fuel := 0;
    } else {
      var f := OperandsEvaluated(operands, env, args, mems, k - 1);
      assert OperandMeans(operands, env, args, mems, k - 1);
      var f1: nat :| MeansWith(f1, mems[k], operands[k - 1], env, Good(args[k - 1], mems[k - 1]));
      fuel := if f < f1 then f1 else f;
      EnoughFuel(f1, fuel, mems[k], operands[k - 1], env, Good(args[k - 1], mems[k - 1]));
      EnoughOperands(f, fuel, mems[k - 1], operands, env, k - 1);
      assert args[..k] == args[..k - 1] + [args[k - 1]];
    }
  }

  lemma {:induction false} EnoughOperands(fuel: nat, more: nat, mem: Memory, operands: seq<Expr>, env: nat, k: nat)
    requires k <= |operands| && fuel <= more && EvalOperands(fuel, mem, operands, env, k).Args?
    ensures EvalOperands(more, mem, operands, env, k) == EvalOperands(fuel, mem, operands, env, k)
    decreases more
  {
    hide EvalOperands;
    if fuel < more {
      EnoughOperands(fuel, more - 1, mem, operands, env, k);
      MoreOperands(more - 1, mem, operands, env, k);
    }
  }

  ghost predicate AppliesWith(fuel: nat, mem: Memory, f: Object, args: seq<Object>, o: Result) {
    match Apply(fuel, mem, f, args)
    case Value(v, mem', _) => o == Good(v, mem')
    case Failure(error, _) => o == Bad(error)
    case Unfinished => false
  }

  /** The application of f to args comes to o. */
  ghost predicate ApplicationMeans(mem: Memory, f: Object, args: seq<Object>, o: Result) {
    exists fuel: nat :: AppliesWith(fuel, mem, f, args, o)
  }

  /** A combination means the application of what its operator yields to what its operands yield; the
      operator is evaluated last. */
  lemma CombinationLaw(operator: Expr, operands: seq<Expr>, env: nat, args: seq<Object>, mems: seq<Memory>, f: Object,
                       mem': Memory, o: Result)
    requires OperandsMean(operands, env, args, mems) && Means(mems[0], operator, env, Good(f, mem'))
    ensures Means(mems[|operands|], Combination(operator, operands), env, o) <==> ApplicationMeans(mem', f, args, o)
  {
    hide Eval, EvalOperands, Apply;
    var n, mem, e := |operands|, mems[|operands|], Combination(operator, operands);
    var f1 := OperandsEvaluated(operands, env, args, mems, n);
    assert args[..n] == args;
    var f2: nat :| MeansWith(f2, mems[0], operator, env, Good(f, mem'));
    if Means(mem, e, env, o) {
      var fuel: nat :| MeansWith(fuel, mem, e, env, o);
      var more := Max(f1, Max(f2, fuel));
      EnoughFuel(fuel, more + 1, mem, e, env, o);
      OperatorReady(f1, f2, more, mem, e, env, args, mems[0], f, mem');
      assert AppliesWith(more, mem', f, args, o);
    }
    if ApplicationMeans(mem', f, args, o) {
      var f3: nat :| AppliesWith(f3, mem', f, args, o);
      var more := Max(f1, Max(f2, f3));
      OperatorReady(f1, f2, more, mem, e, env, args, mems[0], f, mem');
      EnoughApply(f3, more, mem', f, args, o);
      assert MeansWith(more + 1, mem, e, env, o);
    }
  }

  /** The operands and the operator have been evaluated; what is left is the application. */
  lemma OperatorReady(f1: nat, f2: nat, more: nat, mem: Memory, e: Expr, env: nat, args: seq<Object>, mem0: Memory,
                      f: Object, mem': Memory)
    requires e.Combination? && f1 <= more && f2 <= more && MeansWith(f2, mem0, e.operator, env, Good(f, mem'))
    requires var a := EvalOperands(f1, mem, e.operands, env, |e.operands|); a.Args? && a.args == args && a.mem == mem0
    ensures forall o {:trigger MeansWith(more + 1, mem, e, env, o)} {:trigger AppliesWith(more, mem', f, args, o)} ::
      MeansWith(more + 1, mem, e, env, o) <==> AppliesWith(more, mem', f, args, o)
  {
    hide Eval, EvalOperands, Apply;
    EnoughOperands(f1, more, mem, e.operands, env, |e.operands|);
    EnoughFuel(f2, more, mem0, e.operator, env, Good(f, mem'));
    WholeCombination(more + 1, mem, e, env);
    assert args + [] == args;
  }

  lemma {:induction false} EnoughApply(fuel: nat, more: nat, mem: Memory, f: Object, args: seq<Object>, o: Result)
    requires fuel <= more && AppliesWith(fuel, mem, f, args, o)
    ensures AppliesWith(more, mem, f, args, o)
    decreases more
  {
    hide Apply;
    if fuel < more {
      EnoughApply(fuel, more - 1, mem, f, args, o);
      MoreApply(more - 1, mem, f, args);
    }
  }

  /** The object at f is a closure of the lambda expression in the environment. */
  ghost predicate ClosureAt(mem: Memory, f: Object, params: seq<Symbol>, body: Expr, lexpr: bool, env: nat) {
    f.Plain? && f.value in mem.objects && mem.objects[f.value] == Closure(Lambda(params, body, lexpr), env)
  }

  /** A closure means its body, in a new frame that gives the parameters their arguments and has the
      closure's own environment behind it. */
  lemma ClosureLaw(mem: Memory, f: Object, args: seq<Object>, params: seq<Symbol>, body: Expr, lexpr: bool, env: nat)
    returns (mem': Memory)
    requires MemoryOk(mem) && ClosureAt(mem, f, params, body, lexpr, env)
    requires |args| == |params| || (lexpr && |args| > |params|)
    requires forall i :: 0 <= i < |args| ==> Storable(args[i])
    ensures MemoryOk(mem') && mem' == mem.(state := mem'.state)
    ensures Entered(mem.state, mem'.state, env, params, args)
    ensures forall o {:trigger ApplicationMeans(mem, f, args, o)} ::
      ApplicationMeans(mem, f, args, o) <==> Means(mem', body, |mem.state.frames|, o)
  {
    mem' := Framed(mem, f, args);
    FramedKeeps(mem, f, args);
    FrameLaw(mem.state, env, params, args);
    hide Framed, Entered, MemoryOk, Eval;
    forall o ensures ApplicationMeans(mem, f, args, o) <==> Means(mem', body, |mem.state.frames|, o) {
      if fuel: nat :| AppliesWith(fuel, mem, f, args, o) {
        assert MeansWith(fuel, mem', body, |mem.state.frames|, o);
      }
      if fuel: nat :| MeansWith(fuel, mem', body, |mem.state.frames|, o) {
        assert AppliesWith(fuel, mem, f, args, o);
      }
    }
  }

  /** Any other number of arguments is an error. */
  lemma ArityLaw(mem: Memory, f: Object, args: seq<Object>, params: seq<Symbol>, body: Expr, lexpr: bool, env: nat)
    requires ClosureAt(mem, f, params, body, lexpr, env)
    requires |args| < |params| || (!lexpr && |args| > |params|)
    ensures ApplicationMeans(mem, f, args, Bad(WrongNumberOfArguments))
  {
    assert AppliesWith(0, mem, f, args, Bad(WrongNumberOfArguments));
  }

  /** A primitive computes its value from the arguments, if it accepts their number. */
  lemma PrimitiveLaw(mem: Memory, f: Object, args: seq<Object>)
    requires f.Plain? && f.value in mem.primitives && f.value !in mem.objects
    ensures var p := mem.primitives[f.value];
      ApplicationMeans(mem, f, args, if p.arity == |args| || p.arity == -1 then Good(p.code(args), mem)
                                     else Bad(WrongNumberOfArguments))
  {
    var p := mem.primitives[f.value];
    var o := if p.arity == |args| || p.arity == -1 then Good(p.code(args), mem) else Bad(WrongNumberOfArguments);
    assert AppliesWith(0, mem, f, args, o);
  }

  /** Nothing else can be applied. */
  lemma InapplicableLaw(mem: Memory, f: Object, args: seq<Object>)
    requires f.Plain? ==> f.value !in mem.primitives
    requires f.Plain? && f.value in mem.objects ==>
      mem.objects[f.value].Promise? || !mem.objects[f.value].code.Lambda?
    ensures ApplicationMeans(mem, f, args, Bad(Inapplicable))
  {
    assert AppliesWith(0, mem, f, args, Bad(Inapplicable));
  }

  // ---------------------------------------------------------------- procedures at work

  lemma {:induction false} OperandsHealthy(operands: seq<Expr>, env: nat, args: seq<Object>, mems: seq<Memory>, k: nat)
    requires OperandsMean(operands, env, args, mems) && k <= |operands|
    requires MemoryOk(mems[|operands|]) && env < |mems[|operands|].state.frames|
    requires forall i :: 0 <= i < |operands| ==> CodeOk(operands[i])
    ensures MemoryOk(mems[k]) && env < |mems[k].state.frames| && forall i :: k <= i < |args| ==> Storable(args[i])
    decreases |operands| - k
  {
    if k < |operands| {
      OperandsHealthy(operands, env, args, mems, k + 1);
      assert OperandMeans(operands, env, args, mems, k);
      EvalHealthy(mems[k + 1], operands[k], env, args[k], mems[k]);
    }
  }

  /** A lambda expression that is applied: its body is evaluated where the parameters have the values of the
      operands and everything else is what it was. */
  lemma LetLaw(params: seq<Symbol>, body: Expr, operands: seq<Expr>, env: nat, args: seq<Object>, mems: seq<Memory>)
    returns (mem': Memory, mem1: Memory)
    requires OperandsMean(operands, env, args, mems) && |params| == |operands|
    requires MemoryOk(mems[|operands|]) && env < |mems[|operands|].state.frames|
    requires CodeOk(Combination(Lambda(params, body, false), operands))
    ensures Made(mems[0], mem1, Closure(Lambda(params, body, false), env))
    ensures MemoryOk(mem') && mem' == mem1.(state := mem'.state)
    ensures Entered(mems[0].state, mem'.state, env, params, args)
    ensures forall o {:trigger Means(mem', body, |mems[0].state.frames|, o)} ::
      Means(mems[|operands|], Combination(Lambda(params, body, false), operands), env, o) <==>
      Means(mem', body, |mems[0].state.frames|, o)
  {
    var lambda := Lambda(params, body, false);
    OperandsHealthy(operands, env, args, mems, 0);
    mem1 := ProcedureLaw(mems[0], lambda, env);
    var f := Plain(mems[0].free);
    EvalHealthy(mems[0], lambda, env, f, mem1);
    mem' := ClosureLaw(mem1, f, args, params, body, false, env);
    hide Means, ApplicationMeans, MemoryOk, Entered, CodeOk;
    forall o
      ensures Means(mems[|operands|], Combination(lambda, operands), env, o) <==>
        Means(mem', body, |mems[0].state.frames|, o)
    {
      CombinationLaw(lambda, operands, env, args, mems, f, mem1, o);
      assert ApplicationMeans(mem1, f, args, o) <==> Means(mem', body, |mem1.state.frames|, o);
    }
  }

  /** A parameter has the value of its operand. */
  lemma ParameterLaw(params: seq<Symbol>, operands: seq<Expr>, env: nat, args: seq<Object>, mems: seq<Memory>, i: nat)
    returns (mem': Memory)
    requires OperandsMean(operands, env, args, mems) && |params| == |operands| && i < |params| && args[i].Plain?
    requires MemoryOk(mems[|operands|]) && env < |mems[|operands|].state.frames|
    requires CodeOk(Combination(Lambda(params, Variable(params[i]), false), operands))
    ensures Means(mems[|operands|], Combination(Lambda(params, Variable(params[i]), false), operands), env,
                  Good(args[i], mem'))
  {
    var mem1;
    mem', mem1 := LetLaw(params, Variable(params[i]), operands, env, args, mems);
    VariableLaw(mem', params[i], |mems[0].state.frames|);
    assert ValueIn(mem'.state, |mems[0].state.frames|, params[i]) == args[i];
    hide Means;
    assert Means(mem', Variable(params[i]), |mems[0].state.frames|, Good(args[i], mem'));
  }

  /** Lexical scope: a variable that is no parameter is read in the environment of the closure, wherever it
      is called. */
  lemma LexicalScope(mem: Memory, f: Object, args: seq<Object>, params: seq<Symbol>, name: Symbol, env: nat)
    returns (mem': Memory)
    requires MemoryOk(mem) && ClosureAt(mem, f, params, Variable(name), false, env) && |args| == |params|
    requires forall i :: 0 <= i < |args| ==> Storable(args[i])
    requires name !in params && ValueIn(mem.state, env, name).Plain?
    ensures ApplicationMeans(mem, f, args, Good(ValueIn(mem.state, env, name), mem'))
  {
    mem' := ClosureLaw(mem, f, args, params, Variable(name), false, env);
    VariableLaw(mem', name, |mem.state.frames|);
    assert ValueIn(mem'.state, |mem.state.frames|, name) == ValueIn(mem.state, env, name);
    hide Means;
  }

  /** The machine t evaluates the body of a closure: the application frame of m, a count, the closure and
      args, has been popped, and a new environment gives the parameters these arguments. */
  ghost predicate Enters(m: Machine, t: Machine, params: seq<Symbol>, body: Expr, env: nat, args: seq<Object>) {
    && |params| <= |args| && m.sp + 2 + |args| <= |m.words| && m.words[m.sp] == CountItem(|args| + 1)
    && (forall i {:trigger args[i]} :: 0 <= i < |args| ==> m.words[m.sp + 2 + i] == ValueItem(args[i]))
    && t.mode == Evaluating && t.exp == body && t.env == |m.mem.state.frames|
    && t.sp == m.sp + 2 + |args| && t.words == m.words && t.mem == m.mem.(state := t.mem.state)
    && Entered(m.mem.state, t.mem.state, env, params, args)
  }

  /** The application frame on top of the stack. */
  lemma FrameArguments(m: Machine) returns (args: seq<Object>)
    requires Healthy(m) && FrameOnTop(m)
    ensures args == Values(m.words[m.sp + 1..m.sp + 1 + m.words[m.sp].n])[1..] && |args| + 1 == m.words[m.sp].n
    ensures m.words[m.sp + 1].ValueItem?
    ensures forall i {:trigger args[i]} :: 0 <= i < |args| ==>
      m.words[m.sp + 2 + i] == ValueItem(args[i]) && Storable(args[i])
  {
    ArgumentsOk(m);
    hide Healthy;
    var items := m.words[m.sp + 1..m.sp + 1 + m.words[m.sp].n];
    var vs := Values(items);
    args := vs[1..];
    assert items[0] == m.words[m.sp + 1];
    forall i | 0 <= i < |args| ensures m.words[m.sp + 2 + i] == ValueItem(args[i]) && Storable(args[i]) {
      assert items[i + 1] == m.words[m.sp + 2 + i] && args[i] == vs[i + 1] == items[i + 1].v;
    }
  }

  /** The new environment of an application. */
  lemma EnvironmentEntered(mem: Memory, f: Object, args: seq<Object>, params: seq<Symbol>, body: Expr, lexpr: bool,
                           env: nat)
    requires MemoryOk(mem) && ClosureAt(mem, f, params, body, lexpr, env)
    requires |args| == |params| || (lexpr && |args| > |params|)
    requires forall i :: 0 <= i < |args| ==> Storable(args[i])
    ensures Entered(mem.state, Framed(mem, f, args).state, env, params, args)
  {
    FramedKeeps(mem, f, args);
    FrameLaw(mem.state, env, params, args);
  }

  /** internal_apply with a closure. */
  lemma ApplicationLaw(m: Machine, f: Object, params: seq<Symbol>, body: Expr, lexpr: bool, env: nat)
    returns (args: seq<Object>)
    requires Healthy(m) && FrameOnTop(m) && m.words[m.sp + 1] == ValueItem(f)
    requires ClosureAt(m.mem, f, params, body, lexpr, env)
    requires var n := m.words[m.sp].n - 1; n == |params| || (lexpr && n > |params|)
    ensures Enters(m, StepApply(m), params, body, env, args)
  {
    hide Entered, MakeFrame, MemoryOk, StackOk, CodeOk;
    args := FrameArguments(m);
    EnvironmentEntered(m.mem, f, args, params, body, lexpr, env);
  }
}
