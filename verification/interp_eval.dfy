/** A direct recursive evaluator, with the stack space that an evaluation needs. */
module InterpEval {
  import opened LookupState
  import opened LookupOperations
  import opened InterpMachine

  /** space counts the words of stack used at the same time; what is evaluated in a tail position
      reuses the space, everything else adds to it. */
  datatype Outcome =
    | Value(val: Object, mem: Memory, space: nat)
    | Failure(error: Error, space: nat)
    | Unfinished

  datatype Operands =
    | Args(args: seq<Object>, mem: Memory, space: nat)
    | ArgsFailure(error: Error, space: nat)
    | ArgsUnfinished

  function Max(a: nat, b: nat): nat {
    if a < b then b else a
  }

  /** The outcome of a part that is evaluated with k words in use. */
  function Inside(k: nat, r: Outcome): Outcome {
    match r
    case Value(v, mem, space) => Value(v, mem, k + space)
    case Failure(error, space) => Failure(error, k + space)
    case Unfinished => Unfinished
  }

  /** The outcome of a part in a tail position, after k words have been in use. */
  function Tail(k: nat, r: Outcome): Outcome {
    match r
    case Value(v, mem, space) => Value(v, mem, Max(k, space))
    case Failure(error, space) => Failure(error, Max(k, space))
    case Unfinished => Unfinished
  }

  function VariableValue(mem: Memory, env: nat, name: Symbol): Outcome {
    var (status, v) := LookupVariable(mem.state, env, name);
    if status == Done then Value(v, mem, 0) else Failure(VariableError(status), 0)
  }

  function AssignmentValue(mem: Memory, env: nat, target: Expr, v: Object): Outcome {
    if !target.Variable? then Failure(BadFrame, 0)
    else
      var (mem', status, oldValue) := Assigned(mem, env, target.name, v);
      if status == Done then Value(oldValue, mem', 0) else Failure(VariableError(status), 0)
  }

  function DefinitionValue(mem: Memory, env: nat, name: Symbol, v: Object): Outcome {
    var (mem', status) := Defined(mem, env, name, v);
    if status == Done then Value(Plain(name), mem', 0) else Failure(VariableError(status), 0)
  }

  /** The value of e; fuel bounds the depth of the recursion. */
  function Eval(fuel: nat, mem: Memory, e: Expr, env: nat): Outcome
    decreases fuel, 0
  {
    if fuel == 0 then Unfinished
    else match e
      case Constant(datum) => Value(datum, mem, 0)
      case Variable(name) => VariableValue(mem, env, name)
      case Lambda(_, _, _) => Value(Plain(mem.free), Allocated(mem, Closure(e, env)), 0)
      case Delay(expression) => Value(Plain(mem.free), Allocated(mem, Promise(expression, env)), 0)
      case Comment(expression) => Eval(fuel - 1, mem, expression, env)
      case Assignment(target, operand) =>
        var r := Inside(3, Eval(fuel - 1, mem, operand, env));
        if r.Value? then Tail(r.space, AssignmentValue(r.mem, env, target, r.val)) else r
      case Definition(name, operand) =>
        var r := Inside(3, Eval(fuel - 1, mem, operand, env));
        if r.Value? then Tail(r.space, DefinitionValue(r.mem, env, name, r.val)) else r
      case Conditional(decider, consequent, alternative) =>
        var r := Inside(3, Eval(fuel - 1, mem, decider, env));
        if r.Value? then Tail(r.space, Eval(fuel - 1, r.mem, if r.val == SHARP_F then alternative else consequent, env))
          else r
      case Disjunction(decider, alternative) =>
        var r := Inside(3, Eval(fuel - 1, mem, decider, env));
        if r.Value? && r.val == SHARP_F then Tail(r.space, Eval(fuel - 1, r.mem, alternative, env)) else r
      case Sequence(first, second) =>
        var r := Inside(3, Eval(fuel - 1, mem, first, env));
        if r.Value? then Tail(r.space, Eval(fuel - 1, r.mem, second, env)) else r
      case Combination(operator, operands) =>
        var a := EvalOperands(fuel - 1, mem, operands, env, |operands|);
        match a
        case ArgsFailure(error, space) => Failure(error, |operands| + 4 + space)
        case ArgsUnfinished => Unfinished
        case Args(args, mem1, space) =>
          var r := Inside(|operands| + 4, Tail(space, Eval(fuel - 1, mem1, operator, env)));
          if r.Value? then Tail(r.space, Apply(fuel - 1, r.mem, r.val, args)) else r
  }

  /** The values of the first k operands, the last one evaluated first. */
  function EvalOperands(fuel: nat, mem: Memory, operands: seq<Expr>, env: nat, k: nat): (r: Operands)
    requires k <= |operands|
    ensures r.Args? ==> |r.args| == k
    decreases fuel, 1 + k
  {
    if k == 0 then Args([], mem, 0)
    else match Eval(fuel, mem, operands[k - 1], env)
      case Failure(error, space) => ArgsFailure(error, space)
      case Unfinished => ArgsUnfinished
      case Value(v, mem1, space) =>
        match EvalOperands(fuel, mem1, operands, env, k - 1)
        case ArgsFailure(error, space') => ArgsFailure(error, Max(space, space'))
        case ArgsUnfinished => ArgsUnfinished
        case Args(args, mem2, space') => Args(args + [v], mem2, Max(space, space'))
  }

  /** The value of applying f; a closure's body is evaluated in a new frame. */
  function Apply(fuel: nat, mem: Memory, f: Object, args: seq<Object>): Outcome
    decreases fuel, 1
  {
    if IsClosure(mem, f) then
      var lambda := mem.objects[f.value].code;
      if ArityOk(lambda, |args|) then Eval(fuel, Framed(mem, f, args), lambda.body, |mem.state.frames|)
        else Failure(WrongNumberOfArguments, 0)
    else if IsPrimitive(mem, f) then
      var p := mem.primitives[f.value];
      if PrimitiveArityOk(p, |args|) then Value(p.code(args), mem, 0) else Failure(WrongNumberOfArguments, 0)
    else Failure(Inapplicable, 0)
  }
}
