/** What the refinement means for whole programs: results, stack space and tail calls. */
module InterpTheorems {
  import opened LookupState
  import opened InterpMachine
  import opened InterpEval
  import opened InterpRefinement

  /** The continuation below is the end of the computation. */
  ghost predicate AtBottom(s: Machine) {
    && s.mode == Evaluating && s.sp + 2 <= |s.words|
    && s.words[s.sp] == CodeItem(EndOfComputation) && s.words[s.sp + 1].ExpItem?
  }

  ghost predicate Evaluates(fuel: nat, s: Machine, v: Object, mem: Memory) {
    var r := Eval(fuel, s.mem, s.exp, s.env);
    r.Value? && r.val == v && r.mem == mem && r.space <= s.sp
  }

  ghost predicate Fails(fuel: nat, s: Machine, error: Error) {
    var r := Eval(fuel, s.mem, s.exp, s.env);
    r.Failure? && r.error == error && r.space <= s.sp
  }

  ghost predicate HaltsWith(s: Machine, n: nat, v: Object, mem: Memory)
    requires InStack(s)
  {
    var t := Steps(s, n);
    t.mode == Halted && t.val == v && t.mem == mem
  }

  ghost predicate FailsWith(s: Machine, n: nat, error: Error)
    requires InStack(s)
  {
    Steps(s, n).mode == Failed(error)
  }

  /** After the value has been returned, one more step halts. */
  lemma ThenHalts(s: Machine, n: nat, v: Object, mem: Memory)
    requires AtBottom(s) && Returned(s, Steps(s, n), v, mem)
    ensures HaltsWith(s, n + 1, v, mem)
  {
    hide Steps, Step;
    var t := Steps(s, n);
    assert t.words[s.sp] == s.words[s.sp] && t.words[s.sp + 1] == s.words[s.sp + 1];
    HaltStep(t);
    StepsTrans(s, n, 1);
    OneStep(t);
  }

  lemma HaltStep(t: Machine)
    requires t.mode == Returning && t.sp + 2 <= |t.words|
    requires t.words[t.sp] == CodeItem(EndOfComputation) && t.words[t.sp + 1].ExpItem?
    ensures Step(t).mode == Halted && Step(t).val == t.val && Step(t).mem == t.mem
  {}

  /** A finished evaluation brings the machine to an end that tells the outcome. */
  lemma RunEnds(fuel: nat, s: Machine) returns (n: nat)
    requires AtBottom(s) && !Eval(fuel, s.mem, s.exp, s.env).Unfinished?
    ensures var r := Eval(fuel, s.mem, s.exp, s.env);
      if r.space > s.sp then Steps(s, n).mode == Overflowed
      else if r.Value? then HaltsWith(s, n, r.val, r.mem)
      else FailsWith(s, n, r.error)
  {
    hide Eval, Steps, Step, Returned;
    n := Simulate(fuel, s);
    var r := Eval(fuel, s.mem, s.exp, s.env);
    if r.Value? && r.space <= s.sp {
      ThenHalts(s, n, r.val, r.mem);
      n := n + 1;
    }
  }

  /** A run that has halted or failed within n steps does not take an evaluation deeper than n. */
  lemma EndMeansFinished(s: Machine, n: nat)
    requires AtBottom(s) && (Steps(s, n).mode.Halted? || Steps(s, n).mode.Failed?)
    ensures !Eval(n + 1, s.mem, s.exp, s.env).Unfinished?
  {
    hide Eval;
    if Eval(n + 1, s.mem, s.exp, s.env).Unfinished? {
      var k := Simulate(n + 1, s);
      OneEnd(s, n, k);
    }
  }

  /** The machine halts with a value just when the evaluator yields it and there is enough stack. */
  lemma HaltsIff(s: Machine, v: Object, mem: Memory)
    requires AtBottom(s)
    ensures (exists n: nat :: HaltsWith(s, n, v, mem)) <==> (exists fuel: nat :: Evaluates(fuel, s, v, mem))
  {
    hide Eval, Steps, Step;
    if fuel: nat :| Evaluates(fuel, s, v, mem) { var n := RunEnds(fuel, s); }
    if n: nat :| HaltsWith(s, n, v, mem) {
      EndMeansFinished(s, n);
      var k := RunEnds(n + 1, s);
      OneEnd(s, n, k);
      assert Evaluates(n + 1, s, v, mem);
    }
  }

  /** The machine fails with an error just when the evaluator does and there is enough stack. */
  lemma FailsIff(s: Machine, error: Error)
    requires AtBottom(s)
    ensures (exists n: nat :: FailsWith(s, n, error)) <==> (exists fuel: nat :: Fails(fuel, s, error))
  {
    hide Eval, Steps, Step;
    if fuel: nat :| Fails(fuel, s, error) { var n := RunEnds(fuel, s); }
    if n: nat :| FailsWith(s, n, error) {
      EndMeansFinished(s, n);
      var k := RunEnds(n + 1, s);
      OneEnd(s, n, k);
      assert Fails(n + 1, s, error);
    }
  }

  /** A program needs just the space that the evaluator counts: a stack that is smaller overflows. */
  lemma OverflowsIff(fuel: nat, s: Machine)
    requires AtBottom(s) && !Eval(fuel, s.mem, s.exp, s.env).Unfinished?
    ensures (exists n: nat :: Steps(s, n).mode == Overflowed) <==> Eval(fuel, s.mem, s.exp, s.env).space > s.sp
  {
    hide Eval, Step;
    var k := RunEnds(fuel, s);
    if n: nat :| Steps(s, n).mode == Overflowed { OneEnd(s, n, k); }
  }

  /** A machine that is about to evaluate e with sp words of stack left. */
  function Started(mem: Memory, e: Expr, env: nat, sp: nat): Machine {
    Machine(Evaluating, e, env, SHARP_F, EndOfComputation,
            seq(sp, _ => CountItem(0)) + [CodeItem(EndOfComputation), ExpItem(Constant(SHARP_F))], sp, mem)
  }

  /** The outcome does not depend on the fuel. */
  lemma FuelDoesNotMatter(fuel: nat, fuel': nat, mem: Memory, e: Expr, env: nat)
    requires !Eval(fuel, mem, e, env).Unfinished? && !Eval(fuel', mem, e, env).Unfinished?
    ensures Eval(fuel, mem, e, env) == Eval(fuel', mem, e, env)
  {
    var r, r' := Eval(fuel, mem, e, env), Eval(fuel', mem, e, env);
    var s := Started(mem, e, env, if r.space < r'.space then r.space else r'.space);
    StartedAtBottom(mem, e, env, s.sp);
    SameOutcome(fuel, fuel', s);
  }

  lemma StartedAtBottom(mem: Memory, e: Expr, env: nat, sp: nat)
    ensures AtBottom(Started(mem, e, env, sp))
  {}

  lemma SameOutcome(fuel: nat, fuel': nat, s: Machine)
    requires AtBottom(s) && !Eval(fuel, s.mem, s.exp, s.env).Unfinished? &&
      !Eval(fuel', s.mem, s.exp, s.env).Unfinished?
    requires var r, r' := Eval(fuel, s.mem, s.exp, s.env), Eval(fuel', s.mem, s.exp, s.env);
      s.sp == if r.space < r'.space then r.space else r'.space
    ensures Eval(fuel, s.mem, s.exp, s.env) == Eval(fuel', s.mem, s.exp, s.env)
  {
    hide Eval, Steps, Step;
    var n := RunEnds(fuel, s);
    var n' := RunEnds(fuel', s);
    OneEnd(s, n, n');
  }

  // ---------------------------------------------------------------- tail positions

  /** What is evaluated in place of an expression, and the words that have been in use before. */
  datatype Position = Position(mem: Memory, e: Expr, env: nat, space: nat) | NoTail

  /** The tail position that the evaluation of e comes to. */
  function NextTail(fuel: nat, mem: Memory, e: Expr, env: nat): Position {
    if HasFirstPart(e) then
      var r := Inside(3, Eval(fuel, mem, FirstPart(e), env));
      if r.Value? && Rest(e, r.val).Next? then Position(r.mem, Rest(e, r.val).e, env, r.space) else NoTail
    else match e
      case Comment(expression) => Position(mem, expression, env, 0)
      case Combination(_, _) =>
        var q := WholeFrame(fuel, mem, e, env);
        if q.Ready? && IsClosure(q.mem, q.f) && ArityOk(q.mem.objects[q.f.value].code, |q.args|)
        then Position(Framed(q.mem, q.f, q.args), q.mem.objects[q.f.value].code.body, |q.mem.state.frames|, q.space)
        else NoTail
      case _ => NoTail
  }

  lemma PartTail(s: Machine, m: Machine, v: Object, mem: Memory)
    requires HasFirstPart(s.exp) && Restored(s, m, CodeFor(s.exp), v, mem) && Rest(s.exp, v).Next?
    ensures EvaluatesFor(s, Continue(m), mem, Rest(s.exp, v).e, s.env)
  {}

  lemma SameEvaluation(b: Machine, s: Machine, t: Machine, mem: Memory, e: Expr, env: nat)
    requires s.sp == b.sp && SameAbove(b, s, b.sp) && EvaluatesFor(s, t, mem, e, env)
    ensures EvaluatesFor(b, t, mem, e, env)
  {
    SameAboveTrans(b, s, t, b.sp, b.sp);
  }

  /** The machine comes to the tail position with exactly the stack it started with. */
  lemma TailReached(fuel: nat, s: Machine) returns (n: nat)
    requires InStack(s) && s.mode == Evaluating
    requires var p := NextTail(fuel, s.mem, s.exp, s.env); p.Position? && p.space <= s.sp
    ensures var p := NextTail(fuel, s.mem, s.exp, s.env); n > 0 && EvaluatesFor(s, Steps(s, n), p.mem, p.e, p.env)
  {
    hide Eval, WholeFrame, Steps, SameAbove, Framed, Continue, Restored, Rest, FirstPart;
    if HasFirstPart(s.exp) {
      var m;
      n, m := SimulatePart(fuel + 1, s);
      var r := Inside(3, Eval(fuel, s.mem, FirstPart(s.exp), s.env));
      PartTail(s, m, r.val, r.mem);
    } else if s.exp.Comment? {
      n := 1;
      OneStep(s);
      CommentStep(s);
    } else {
      n := SimulateFrame(fuel + 1, s);
      var q := WholeFrame(fuel, s.mem, s.exp, s.env);
      var u := Steps(s, n);
      Applied(s, u, q.f, q.args);
      StepsTrans(s, n, 1);
      OneStep(u);
      n := n + 1;
    }
  }

  lemma CommentStep(s: Machine)
    requires InStack(s) && s.mode == Evaluating && s.exp.Comment?
    ensures EvaluatesFor(s, Step(s), s.mem, s.exp.expression, s.env)
  {}

  /** The position after k tail positions in a row. */
  function TailAfter(fuel: nat, mem: Memory, e: Expr, env: nat, k: nat): Position
    decreases k
  {
    if k == 0 then Position(mem, e, env, 0)
    else
      var p := NextTail(fuel, mem, e, env);
      if p.NoTail? then NoTail
      else
        var q := TailAfter(fuel, p.mem, p.e, p.env, k - 1);
        if q.NoTail? then NoTail else q.(space := Max(p.space, q.space))
  }

  /** However many tail positions there are in a row, the stack does not grow: a loop by tail calls
      needs the space of its largest round. */
  lemma {:induction false} TailCallsNeedNoStack(fuel: nat, s: Machine, k: nat) returns (n: nat)
    requires InStack(s) && s.mode == Evaluating
    requires var p := TailAfter(fuel, s.mem, s.exp, s.env, k); p.Position? && p.space <= s.sp
    ensures var p := TailAfter(fuel, s.mem, s.exp, s.env, k); n >= k && EvaluatesFor(s, Steps(s, n), p.mem, p.e, p.env)
    decreases k
  {
    hide NextTail, SameAbove;
    n := 0;
    if k > 0 {
      var a := TailReached(fuel, s);
      var s1 := Steps(s, a);
      var c := TailCallsNeedNoStack(fuel, s1, k - 1);
      StepsTrans(s, a, c);
      var p := TailAfter(fuel, s.mem, s.exp, s.env, k);
      SameEvaluation(s, s1, Steps(s1, c), p.mem, p.e, p.env);
      n := a + c;
    } else {
      SameAboveSelf(s);
    }
  }

  lemma SameAboveSelf(s: Machine)
    ensures SameAbove(s, s, s.sp)
  {}

  /** An evaluation has the value of its tail position, and the larger of the two spaces. */
  lemma TailValue(fuel: nat, mem: Memory, e: Expr, env: nat)
    requires NextTail(fuel, mem, e, env).Position?
    ensures var p := NextTail(fuel, mem, e, env);
      Eval(fuel + 1, mem, e, env) == Tail(p.space, Eval(fuel, p.mem, p.e, p.env))
  {
    if e.Combination? { WholeCombination(fuel + 1, mem, e, env); }
    if e.Comment? {
      var r := Eval(fuel, mem, e.expression, env);
      assert Tail(0, r) == r;
    }
  }
}
