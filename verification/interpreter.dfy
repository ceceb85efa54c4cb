/** The dispatch loop, updating the registers, the stack and memory in place. */
module InterpLoop {
  import opened LookupState
  import opened LookupLists
  import opened LookupOperations
  import opened LookupBindings
  import opened LookupRuns
  import opened LookupStore
  import opened InterpMachine
  import opened InterpEval
  import opened InterpRefinement
  import opened InterpTheorems
  import opened InterpHealth
  import opened InterpLaws

  class Interpreter {
    var mode: Mode
    var exp: Expr
    var env: nat
    var val: Object
    var ret: ReturnCode
    const words: array<Item>
    var sp: nat
    const store: Store
    var objects: map<int, HeapObject>
    var primitives: map<int, Primitive>
    var free: int

    function MemoryNow(): Memory
      reads this, store
    {
      Memory(store.Now(), objects, primitives, free)
    }

    function Now(): Machine
      reads this, words, store
    {
      Machine(mode, exp, env, val, ret, words[..], sp, MemoryNow())
    }

    /** do_expression is about to evaluate e in the global environment, with size words of stack. */
    constructor (e: Expr, primitives: map<int, Primitive>, size: nat)
      requires 2 <= size
      ensures fresh(words) && fresh(store) && AtBottom(Now()) && sp == size - 2 && words.Length == size
      ensures exp == e && env == 0 && val == SHARP_F && MemoryNow() == Memory(Initial(), map[], primitives, 2)
      ensures CodeOk(e) && PrimitivesOk(MemoryNow()) ==> Healthy(Now())
    {
      mode, exp, env, val, ret, sp := Evaluating, e, 0, SHARP_F, EndOfComputation, size - 2;
      objects, this.primitives, free := map[], primitives, 2;
      var stack := new Item[size](_ => CountItem(0));
      stack[size - 2], stack[size - 1] := CodeItem(EndOfComputation), ExpItem(Constant(SHARP_F));
      words := stack;
      store := new Store();
      new;
      if CodeOk(e) && PrimitivesOk(Memory(Initial(), map[], primitives, 2)) {
        FreshHealthy(e, primitives, words[..], sp);
      }
    }

    /** STACK_PUSH. */
    method PushItem(item: Item)
      requires 0 < sp <= words.Length
      modifies this`sp, words
      ensures Now() == Push(old(Now()), item)
    {
      sp := sp - 1;
      words[sp] := item;
    }

    /** DO_NTH_THEN. */
    method DoNext(rc: ReturnCode, e: Expr)
      requires 2 <= sp <= words.Length
      modifies this`ret, this`exp, this`mode, this`sp, words
      ensures Now() == DoThen(old(Now()), rc, e)
    {
      PushItem(ExpItem(exp));
      PushItem(CodeItem(rc));
      ret := rc;
      exp := e;
      mode := Evaluating;
    }

    method PushEnvAndDo(rc: ReturnCode, e: Expr)
      requires sp <= words.Length
      modifies this`ret, this`exp, this`mode, this`sp, words
      ensures Now() == PushEnvThen(old(Now()), rc, e)
    {
      if sp < 3 {
        mode := Overflowed;
      } else {
        PushItem(EnvItem(env));
        DoNext(rc, e);
      }
    }

    /** TC_COMBINATION: room for the operands, and the finger. */
    method StartCombination()
      requires sp <= words.Length && exp.Combination?
      modifies this`ret, this`exp, this`mode, this`sp, words
      ensures Now() == StepEvaluate(old(Now()))
    {
      var n := |exp.operands|;
      if sp < n + 4 {
        mode := Overflowed;
      } else {
        sp := sp - n;
        PushItem(CountItem(n));
        if n == 0 {
          PushItem(CountItem(1));
          DoNext(CombApplyFunction, exp.operator);
        } else {
          PushItem(EnvItem(env));
          DoNext(CombSaveValue, exp.operands[n - 1]);
        }
      }
    }

    /** Put an object on the heap. */
    method Allocate(o: HeapObject)
      modifies this`objects, this`free, this`val, this`mode
      ensures Now() == ReturnValue(old(Now()).(mem := Allocated(old(MemoryNow()), o)), Plain(old(free)))
    {
      val := Plain(free);
      objects := objects[free := o];
      free := free + 2;
      mode := Returning;
    }

    /** TC_VARIABLE. */
    method EvalVariable()
      requires sp <= words.Length && exp.Variable?
      modifies this`mode, this`val
      ensures Now() == StepEvaluate(old(Now()))
    {
      var cell := store.FindBindingCell(env, exp.name);
      var v := Content(store.Now(), cell);
      var status := Reference(v);
      if status == Done {
        val := v;
        mode := Returning;
      } else {
        mode := Failed(VariableError(status));
      }
    }

    /** The eval dispatch. */
    method EvalDispatch()
      requires sp <= words.Length
      modifies this, words
      ensures Now() == StepEvaluate(old(Now()))
    {
      match exp {
        case Constant(datum) =>
          val := datum;
          mode := Returning;
        case Variable(name) => EvalVariable();
        case Assignment(_, operand) => PushEnvAndDo(AssignmentFinish, operand);
        case Definition(_, operand) => PushEnvAndDo(DefinitionFinish, operand);
        case Conditional(decider, _, _) => PushEnvAndDo(ConditionalDecide, decider);
        case Disjunction(decider, _) => PushEnvAndDo(DisjunctionDecide, decider);
        case Sequence(first, _) => PushEnvAndDo(SequenceFinish, first);
        case Comment(expression) =>
          exp := expression;
          mode := Evaluating;
        case Delay(expression) => Allocate(Promise(expression, env));
        case Lambda(_, _, _) => Allocate(Closure(exp, env));
        case Combination(_, _) => StartCombination();
      }
    }

    /** RC_EXECUTE_ASSIGNMENT_FINISH. */
    method FinishAssignment()
      requires Healthy(Now()) && exp.Assignment? && ret == AssignmentFinish
      modifies this`mode, this`val, store
      ensures Now() == Continue(old(Now()))
    {
      if !exp.target.Variable? {
        mode := Failed(BadFrame);
        return;
      }
      var cell := store.FindBindingCell(env, exp.target.name);
      var oldValue := Content(store.Now(), cell);
      ghost var before := store.Now();
      var status := store.Assign(env, exp.target.name, ToCell(val));
      if status == Done {
        val := FromCell(oldValue);
        mode := Returning;
      } else {
        FailedAssignment(before, env, exp.target.name, ToCell(val));
        mode := Failed(VariableError(status));
      }
    }

    /** RC_EXECUTE_DEFINITION_FINISH. */
    method FinishDefinition()
      requires Healthy(Now()) && exp.Definition? && ret == DefinitionFinish
      modifies this`mode, this`val, store
      ensures Now() == Continue(old(Now()))
    {
      var status := store.Define(env, exp.name, ToCell(val));
      if status == Done {
        val := Plain(exp.name);
        mode := Returning;
      } else {
        assert false;
      }
    }

    /** The value goes to its slot, and the finger to the one before. */
    method StoreOperand(n: nat)
      requires sp + n < words.Length && 0 < n
      modifies words
      ensures Now() == old(Now()).(words := old(words[..])[sp + n := ValueItem(val)][sp := CountItem(n - 1)])
    {
      words[sp + n] := ValueItem(val);
      words[sp] := CountItem(n - 1);
    }

    /** RC_COMB_SAVE_VALUE. */
    method SaveOperand()
      requires sp <= words.Length && exp.Combination?
      modifies this`ret, this`exp, this`mode, this`sp, words
      ensures Now() == SaveValue(old(Now()), old(exp).operator, old(exp).operands)
    {
      if sp == words.Length || !words[sp].CountItem? {
        mode := BadStack;
        return;
      }
      var n := words[sp].n;
      if n == 0 || sp + n >= words.Length || n > |exp.operands| {
        mode := BadStack;
      } else if sp < 3 {
        mode := Overflowed;
      } else {
        StoreOperand(n);
        if n > 1 {
          PushItem(EnvItem(env));
          DoNext(CombSaveValue, exp.operands[n - 2]);
        } else {
          PushItem(CountItem(|exp.operands| + 1));
          DoNext(CombApplyFunction, exp.operator);
        }
      }
    }

    /** The return codes that pop the environment. */
    method ContinueDispatch()
      requires Healthy(Now())
      modifies this, words, store
      ensures Now() == Continue(old(Now()))
    {
      match (ret, exp) {
        case (ConditionalDecide, Conditional(_, consequent, alternative)) =>
          exp := if val == SHARP_F then alternative else consequent;
          mode := Evaluating;
        case (DisjunctionDecide, Disjunction(_, alternative)) =>
          if val != SHARP_F {
            mode := Returning;
          } else {
            exp := alternative;
            mode := Evaluating;
          }
        case (SequenceFinish, Sequence(_, second)) =>
          exp := second;
          mode := Evaluating;
        case (AssignmentFinish, Assignment(_, _)) => FinishAssignment();
        case (DefinitionFinish, Definition(_, _)) => FinishDefinition();
        case (CombSaveValue, Combination(_, _)) => SaveOperand();
        case _ => mode := BadStack;
      }
    }

    /** RESTORE_CONT. */
    method RestoreContinuation()
      requires sp + 2 <= words.Length && words[sp].CodeItem? && words[sp + 1].ExpItem?
      modifies this`ret, this`exp, this`sp
      ensures Now() == Unsaved(old(Now()))
    {
      ret := words[sp].rc;
      exp := words[sp + 1].e;
      sp := sp + 2;
    }

    /** The return code has been popped. */
    method ReturnTo()
      requires Healthy(Now()) && (sp < words.Length && words[sp].EnvItem? ==> Healthy(EnvPopped(Now())))
      modifies this, words, store
      ensures Now() == Resumed(old(Now()))
    {
      hide Healthy, Continue;
      HealthyInStack(Now());
      match ret {
        case EndOfComputation => mode := Halted;
        case CombApplyFunction =>
          if sp + 1 < words.Length {
            words[sp + 1] := ValueItem(val);
            mode := Applying;
          } else {
            mode := BadStack;
          }
        case _ =>
          if sp == words.Length || !words[sp].EnvItem? {
            mode := BadStack;
          } else {
            env := words[sp].f;
            sp := sp + 1;
            ContinueDispatch();
          }
      }
    }

    /** The return dispatch. */
    method ReturnDispatch()
      requires Healthy(Now())
      modifies this, words, store
      ensures Now() == StepReturn(old(Now()))
    {
      hide Healthy, Continue;
      ghost var m := Now();
      HealthyInStack(m);
      if sp + 2 > words.Length || !words[sp].CodeItem? || !words[sp + 1].ExpItem? {
        mode := BadStack;
        return;
      }
      hide StepReturn, Resumed, Unsaved;
      RestoredHealthy(m);
      RestoreContinuation();
      ReturnTo();
    }

    /** Pop n values from the stack. */
    method PopValues(n: nat) returns (vs: seq<Object>)
      requires sp + n <= words.Length && AllValues(words[sp..sp + n])
      modifies this`sp
      ensures sp == old(sp) + n && vs == Values(words[old(sp)..old(sp) + n])
    {
      ghost var items := words[sp..sp + n];
      ghost var start := sp;
      vs := [];
      var i := 0;
      while i < n
        invariant i <= n && sp == start + i && |vs| == i && items == words[start..start + n]
        invariant forall j :: 0 <= j < i ==> vs[j] == items[j].v
      {
        assert words[sp] == items[i];
        vs := vs + [words[sp].v];
        sp := sp + 1;
        i := i + 1;
      }
    }

    /** Pop the frame on the stack and apply the closure c to its arguments. */
    method ApplyClosure(f: Object, size: nat)
      requires Healthy(Now()) && FrameOnTop(Now()) && words[sp] == CountItem(size) && words[sp + 1] == ValueItem(f)
      requires IsClosure(MemoryNow(), f) && ArityOk(objects[f.value].code, size - 1)
      modifies this`sp, this`exp, this`env, this`mode, store
      ensures Now() == StepApply(old(Now()))
      ensures var c := old(objects)[f.value];
        exists args {:trigger Enters(old(Now()), Now(), c.code.params, c.code.body, c.env, args)} ::
          Enters(old(Now()), Now(), c.code.params, c.code.body, c.env, args)
    {
      hide Healthy, Inv, Allowed, StepApply, CodeOk, LookupRuns.MakeFrame, Enters;
      ghost var m := Now();
      ghost var entered := ApplicationLaw(m, f, objects[f.value].code.params, objects[f.value].code.body,
                                          objects[f.value].code.lexpr, objects[f.value].env);
      HealthyInStack(m);
      var closure := objects[f.value];
      ApplicationReady(m, f, size);
      ClosureStep(m, f, size);
      sp := sp + 1;
      var vs := PopValues(size);
      var args := vs[1..];
      env := |store.frames|;
      store.Perform(OpFrame(closure.env, closure.code.params, args));
      exp := closure.code.body;
      mode := Evaluating;
    }

    /** Pop the frame on the stack and call the primitive. */
    method ApplyPrimitive(f: Object, size: nat)
      requires sp <= words.Length && FrameOnTop(Now()) && words[sp] == CountItem(size) && words[sp + 1] == ValueItem(f)
      requires IsPrimitive(MemoryNow(), f) && !IsClosure(MemoryNow(), f) &&
        PrimitiveArityOk(primitives[f.value], size - 1)
      modifies this`sp, this`val, this`mode
      ensures Now() == StepApply(old(Now()))
    {
      sp := sp + 1;
      var vs := PopValues(size);
      val := primitives[f.value].code(vs[1..]);
      mode := Returning;
    }

    /** internal_apply. */
    method ApplyDispatch()
      requires Healthy(Now())
      modifies this, store
      ensures Now() == StepApply(old(Now()))
    {
      if !FrameOnTop(Now()) {
        mode := BadStack;
        return;
      }
      var size := words[sp].n;
      var f := words[sp + 1].v;
      assert words[sp..][1] == words[sp + 1];
      if IsClosure(MemoryNow(), f) {
        if ArityOk(objects[f.value].code, size - 1) {
          ApplyClosure(f, size);
        } else {
          mode := Failed(WrongNumberOfArguments);
        }
      } else if IsPrimitive(MemoryNow(), f) {
        if PrimitiveArityOk(primitives[f.value], size - 1) {
          ApplyPrimitive(f, size);
        } else {
          mode := Failed(WrongNumberOfArguments);
        }
      } else {
        mode := Failed(Inapplicable);
      }
    }

    /** One turn of the loop. */
    method Dispatch()
      requires Healthy(Now()) && !Final(Now())
      modifies this, words, store
      ensures InStack(old(Now())) && Now() == InterpMachine.Step(old(Now())) && Healthy(Now())
    {
      HealthyInStack(Now());
      StepHealthy(Now());
      hide Healthy, StepEvaluate, StepReturn, StepApply;
      match mode {
        case Evaluating => EvalDispatch();
        case Returning => ReturnDispatch();
        case Applying => ApplyDispatch();
      }
    }

    /** Interpret: run until the end of the computation.  The result is the evaluator's. */
    method Interpret(ghost fuel: nat)
      requires AtBottom(Now()) && Healthy(Now()) && !Eval(fuel, MemoryNow(), exp, env).Unfinished?
      modifies this, words, store
      ensures var r := old(Eval(fuel, MemoryNow(), exp, env));
        if r.space > old(sp) then mode == Overflowed
        else if r.Value? then mode == Halted && val == r.val && MemoryNow() == r.mem
        else mode == Failed(r.error)
      ensures Healthy(Now())
      ensures mode == Halted ==> Means(old(MemoryNow()), old(exp), old(env), Good(val, MemoryNow()))
      ensures mode.Failed? ==> Means(old(MemoryNow()), old(exp), old(env), Bad(mode.error))
    {
      ghost var s := Now();
      ghost var n := RunEnds(fuel, s);
      ghost var i := 0;
      hide Eval, Steps, Healthy, InterpMachine.Step, AtBottom, Means;
      StepsNone(s);
      while mode.Evaluating? || mode.Returning? || mode.Applying?
        invariant i <= n && Now() == Steps(s, i) && Healthy(Now())
        decreases n - i
      {
        HealthyInStack(Now());
        NotYet(s, i, n);
        StepsSnoc(s, i);
        Dispatch();
        i := i + 1;
      }
      OneEnd(s, i, n);
      assert mode == Halted ==> MeansWith(fuel, s.mem, s.exp, s.env, Good(val, MemoryNow()));
      assert mode.Failed? ==> MeansWith(fuel, s.mem, s.exp, s.env, Bad(mode.error));
    }
  }

  lemma HealthyInStack(m: Machine)
    requires Healthy(m)
    ensures InStack(m)
  {}

  lemma ClosureStep(m: Machine, f: Object, size: nat)
    requires InStack(m) && FrameOnTop(m) && m.words[m.sp] == CountItem(size) && m.words[m.sp + 1] == ValueItem(f)
    requires IsClosure(m.mem, f) && ArityOk(m.mem.objects[f.value].code, size - 1)
    ensures var args := Values(m.words[m.sp + 1..m.sp + 1 + size])[1..]; var c := m.mem.objects[f.value];
      StepApply(m) == m.(mode := Evaluating, sp := m.sp + 1 + size, env := |m.mem.state.frames|,
                         mem := m.mem.(state := MakeFrame(m.mem.state, c.env, c.code.params, args)), exp := c.code.body)
  {}

  /** A closure may be applied to what is on the stack. */
  lemma ApplicationReady(m: Machine, f: Object, size: nat)
    requires Healthy(m) && FrameOnTop(m) && m.words[m.sp] == CountItem(size) && IsClosure(m.mem, f) &&
      ArityOk(m.mem.objects[f.value].code, size - 1)
    ensures var args := Values(m.words[m.sp + 1..m.sp + 1 + size])[1..]; var c := m.mem.objects[f.value];
      Inv(m.mem.state) && Allowed(m.mem.state, OpFrame(c.env, c.code.params, args))
  {
    ArgumentsOk(m);
    hide Framed, Inv, CodeOk;
    var vs := Values(m.words[m.sp + 1..m.sp + 1 + size]);
    assert forall i :: 0 <= i < |vs[1..]| ==> vs[1..][i] == vs[i + 1];
    FramedKeeps(m.mem, f, vs[1..]);
  }

  lemma StepsNone(s: Machine)
    requires InStack(s)
    ensures Steps(s, 0) == s
  {}

  lemma StepsSnoc(s: Machine, i: nat)
    requires InStack(s)
    ensures Steps(s, i + 1) == InterpMachine.Step(Steps(s, i))
  {
    StepsTrans(s, i, 1);
    OneStep(Steps(s, i));
  }

  /** A run that is not at its end has not made all its steps. */
  lemma NotYet(s: Machine, i: nat, n: nat)
    requires InStack(s) && i <= n && Final(Steps(s, n)) && !Final(Steps(s, i))
    ensures i < n
  {}

  lemma RestoredHealthy(m: Machine)
    requires Healthy(m) && m.sp + 2 <= |m.words| && m.words[m.sp].CodeItem? && m.words[m.sp + 1].ExpItem?
    ensures var r := Unsaved(m);
      Healthy(r) && (r.sp < |r.words| && r.words[r.sp].EnvItem? ==> Healthy(EnvPopped(r)))
  {
    assert ItemOk(m.mem.state, m.words[m.sp + 1]);
    if m.sp + 2 < |m.words| { assert ItemOk(m.mem.state, m.words[m.sp + 2]); }
  }

  /** An operation on a variable that is refused changes nothing. */
  lemma FailedAssignment(s: State, env: nat, sym: Symbol, v: Object)
    requires AssignVariable(s, env, sym, v).1 != Done
    ensures AssignVariable(s, env, sym, v).0 == s
  {}
}
