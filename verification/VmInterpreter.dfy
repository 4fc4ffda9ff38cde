/** The interpreter: an object whose fields the loop updates, proved to follow the
    machine's step function. */
module VmInterpreter {
  import opened Options
  import opened VmMachine
  import opened Sequences

  /** What the loop does next: go round again, or leave with a result. */
  datatype Signal = Continue | Ok(value: ExtValue) | Err(error: VmError) | Panic

  function SignalOf(o: Outcome): Signal {
    match o
    case Running(_) => Continue
    case Finished(v, _) => Ok(v)
    case Failed(e) => Err(e)
    case Panicked => Panic
  }

  datatype Taken<T> = Took(value: T) | Refused(error: VmError)

  class Vm {
    var stack: seq<ExtValue>
    var callStack: seq<Frame>
    var ip: nat
    var code: seq<Instruction>
    var upvalues: seq<Value>
    /** Base of the current frame, not the saved one. */
    var stackBase: nat
    var framesCreated: nat

    constructor (code: seq<Instruction>)
      ensures View() == State([], [], 0, code, [], 0, 0)
    {
      this.code := code;
      stack, callStack, upvalues := [], [], [];
      ip, stackBase, framesCreated := 0, 0, 0;
    }

    function View(): State
      reads this
    {
      State(stack, callStack, ip, code, upvalues, stackBase, framesCreated)
    }

    /** This object now shows what `o` says. */
    ghost predicate Follows(o: Outcome, signal: Signal)
      reads this
    {
      signal == SignalOf(o) && (o.Running? || o.Finished? ==> View() == o.s)
    }

    /** The interpreter loop, for at most `fuel` turns. */
    method Run(fuel: nat) returns (signal: Signal)
      modifies this
      ensures Follows(VmMachine.Run(old(View()), fuel), signal)
    {
      hide Step;
      var left: nat := fuel;
      signal := Continue;
      while left > 0 && signal.Continue?
        invariant left <= fuel
        invariant signal.Continue? ==> VmMachine.Run(old(View()), fuel) == VmMachine.Run(View(), left)
        invariant !signal.Continue? ==> signal == SignalOf(VmMachine.Run(old(View()), fuel))
                                        && Follows(VmMachine.Run(old(View()), fuel), signal)
                                        && !VmMachine.Run(old(View()), fuel).Running?
        decreases left
      {
        signal := Turn();
        left := left - 1;
      }
    }

    /** One turn of the loop. */
    method Turn() returns (signal: Signal)
      modifies this
      ensures Follows(Step(old(View())), signal)
    {
      hide Execute;
      if ip >= |code| {
        return Ok(LastOr(stack, Base(Nil)));
      }
      var instr := code[ip];
      ip := ip + 1;
      signal := Perform(instr);
    }

    method Perform(instr: Instruction) returns (signal: Signal)
      modifies this
      ensures Follows(Execute(instr, old(View())), signal)
    {
      hide AddOp, IntOp, DivOp, NegOp, EqOp, BranchOp, StoreOp, MakeClosureOp, SetUpvalueOp, CallOp, TailCallOp, ReturnOp, Jumped;
      signal := Continue;
      match instr {
        case Push(v) => stack := stack + [Base(v)];
        case Pop =>
          var a := TakeAny();
          if a.Refused? { return Err(a.error); }
        case Add => signal := PerformAdd();
        case Sub => signal := PerformIntOp((a, b) => Int(a - b));
        case Mul => signal := PerformIntOp((a, b) => Int(a * b));
        case Div => signal := PerformDiv();
        case Neg => signal := PerformNeg();
        case Eq => signal := PerformEq();
        case Lt => signal := PerformIntOp((a, b) => Bool(a < b));
        case Jump(offset) => signal := DoJump(offset);
        case JumpIfFalse(offset) => signal := PerformBranch(offset);
        case Load(idx) =>
          var pos := stackBase + idx;
          if pos >= |stack| { return Err(StackUnderflow); }
          stack := stack + [stack[pos]];
        case Store(idx) => signal := PerformStore(idx);
        case MakeClosure(body, n) => signal := PerformMakeClosure(body, n);
        case GetUpvalue(idx) =>
          if idx >= |upvalues| { return Err(InvalidUpvalue(idx)); }
          stack := stack + [Base(upvalues[idx])];
        case SetUpvalue(idx) => signal := PerformSetUpvalue(idx);
        case CallClosure(n) => signal := PerformCall(n);
        case TailCall(n) => signal := PerformTailCall(n);
        case Return => signal := PerformReturn();
        case Halt => signal := Ok(LastOr(stack, Base(Nil)));
      }
    }

    // ---- Taking operands ----

    method TakeAny() returns (r: Taken<ExtValue>)
      modifies this`stack
      ensures match PopAny(old(stack)) case Got(v, rest) => r == Took(v) && stack == rest case Lacking(e) => r == Refused(e)
    {
      if stack == [] { return Refused(StackUnderflow); }
      r := Took(stack[|stack| - 1]);
      stack := stack[..|stack| - 1];
    }

    method TakeBase() returns (r: Taken<Value>)
      modifies this`stack
      ensures match PopBase(old(stack)) case Got(v, rest) => r == Took(v) && stack == rest case Lacking(e) => r == Refused(e)
    {
      var a := TakeAny();
      match a {
        case Refused(e) => r := Refused(e);
        case Took(Base(v)) => r := Took(v);
        case Took(Closure(_, _)) => r := Refused(TypeMismatch("base value", "closure"));
      }
    }

    method TakeInt() returns (r: Taken<int>)
      modifies this`stack
      ensures match PopInt(old(stack)) case Got(v, rest) => r == Took(v) && stack == rest case Lacking(e) => r == Refused(e)
    {
      var a := TakeBase();
      match a {
        case Refused(e) => r := Refused(e);
        case Took(Int(n)) => r := Took(n);
        case Took(_) => r := Refused(TypeMismatch("int", "other"));
      }
    }

    method TakeBool() returns (r: Taken<bool>)
      modifies this`stack
      ensures match PopBool(old(stack)) case Got(v, rest) => r == Took(v) && stack == rest case Lacking(e) => r == Refused(e)
    {
      var a := TakeBase();
      match a {
        case Refused(e) => r := Refused(e);
        case Took(Bool(b)) => r := Took(b);
        case Took(_) => r := Refused(TypeMismatch("bool", "other"));
      }
    }

    // ---- Instructions ----

    method PerformAdd() returns (signal: Signal)
      modifies this`stack
      ensures Follows(AddOp(old(View())), signal)
    {
      var b := TakeBase();
      if b.Refused? { return Err(b.error); }
      var a := TakeBase();
      if a.Refused? { return Err(a.error); }
      match (a.value, b.value) {
        case (Int(x), Int(y)) => stack := stack + [Base(Int(x + y))];
        case (Str(x), Str(y)) => stack := stack + [Base(Str(x + y))];
        case _ => return Err(TypeMismatch("int or str", "mixed types"));
      }
      signal := Continue;
    }

    method PerformIntOp(op: (int, int) -> Value) returns (signal: Signal)
      modifies this`stack
      ensures Follows(IntOp(old(View()), op), signal)
    {
      var b := TakeInt();
      if b.Refused? { return Err(b.error); }
      var a := TakeInt();
      if a.Refused? { return Err(a.error); }
      stack := stack + [Base(op(a.value, b.value))];
      signal := Continue;
    }

    method PerformDiv() returns (signal: Signal)
      modifies this`stack
      ensures Follows(DivOp(old(View())), signal)
    {
      var b := TakeInt();
      if b.Refused? { return Err(b.error); }
      var a := TakeInt();
      if a.Refused? { return Err(a.error); }
      if b.value == 0 { return Err(DivisionByZero); }
      stack := stack + [Base(Int(TruncDiv(a.value, b.value)))];
      signal := Continue;
    }

    method PerformNeg() returns (signal: Signal)
      modifies this`stack
      ensures Follows(NegOp(old(View())), signal)
    {
      var a := TakeInt();
      if a.Refused? { return Err(a.error); }
      stack := stack + [Base(Int(-a.value))];
      signal := Continue;
    }

    method PerformEq() returns (signal: Signal)
      modifies this`stack
      ensures Follows(EqOp(old(View())), signal)
    {
      var b := TakeAny();
      if b.Refused? { return Err(b.error); }
      var a := TakeAny();
      if a.Refused? { return Err(a.error); }
      stack := stack + [Base(Bool(SameValue(a.value, b.value)))];
      signal := Continue;
    }

    method PerformBranch(offset: int) returns (signal: Signal)
      modifies this`stack, this`ip
      ensures Follows(BranchOp(old(View()), offset), signal)
    {
      var cond := TakeBool();
      if cond.Refused? { return Err(cond.error); }
      signal := Continue;
      if !cond.value {
        signal := DoJump(offset);
      }
    }

    method PerformStore(idx: nat) returns (signal: Signal)
      modifies this`stack
      ensures Follows(StoreOp(old(View()), idx), signal)
    {
      var a := TakeAny();
      if a.Refused? { return Err(a.error); }
      var pos := stackBase + idx;
      if pos >= |stack| { return Err(StackUnderflow); }
      stack := stack[pos := a.value];
      signal := Continue;
    }

    method PerformMakeClosure(body: seq<Instruction>, n: nat) returns (signal: Signal)
      modifies this`stack
      ensures Follows(MakeClosureOp(old(View()), body, n), signal)
    {
      var popped: seq<Value> := [];
      var i := 0;
      assert PopUpvalues(stack, n).Got? ==> PopUpvalues(stack, n).value + Reversed(popped) == PopUpvalues(stack, n).value;
      while i < n
        invariant i <= n && |popped| == i
        invariant View() == old(View()).(stack := stack)
        invariant match PopUpvalues(stack, n - i)
                  case Got(vs, rest) => PopUpvalues(old(stack), n) == Got(vs + Reversed(popped), rest)
                  case Lacking(e) => PopUpvalues(old(stack), n) == Lacking(e)
      {
        var a := TakeAny();
        match a {
          case Refused(e) => return Err(e);
          case Took(Closure(_, _)) => return Err(TypeMismatch("base value for upvalue", "closure"));
          case Took(Base(v)) =>
            ReversedAppend(popped, v);
            UpvaluesRegrouped(stack, n - i - 1, v, Reversed(popped));
            popped := popped + [v];
        }
        i := i + 1;
      }
      assert [] + Reversed(popped) == Reversed(popped);
      stack := stack + [Closure(body, Reversed(popped))];
      signal := Continue;
    }

    method PerformSetUpvalue(idx: nat) returns (signal: Signal)
      modifies this`stack, this`upvalues
      ensures Follows(SetUpvalueOp(old(View()), idx), signal)
    {
      var a := TakeAny();
      match a {
        case Refused(e) => return Err(e);
        case Took(Closure(_, _)) => return Err(TypeMismatch("base value", "closure"));
        case Took(Base(v)) =>
          if idx >= |upvalues| { return Err(InvalidUpvalue(idx)); }
          upvalues := upvalues[idx := v];
      }
      signal := Continue;
    }

    method PerformCall(nArgs: nat) returns (signal: Signal)
      modifies this
      ensures Follows(CallOp(old(View()), nArgs), signal)
    {
      if |callStack| >= MAX_CALL_DEPTH { return Err(StackOverflow); }
      framesCreated := framesCreated + 1;
      var fnPos := CalleePos(stack, nArgs);
      if fnPos >= |stack| { return Panic; }
      if !stack[fnPos].Closure? { return Err(NotAFunction); }
      var closure := stack[fnPos];
      stack := WithoutSlot(stack, fnPos);
      if nArgs > |stack| { return Panic; }
      var newStackBase := |stack| - nArgs;
      callStack := callStack + [Frame(code, ip, stackBase, upvalues)];
      code := closure.code;
      ip := 0;
      upvalues := closure.upvalues;
      stackBase := newStackBase;
      signal := Continue;
    }

    method PerformTailCall(nArgs: nat) returns (signal: Signal)
      modifies this
      ensures Follows(TailCallOp(old(View()), nArgs), signal)
    {
      var fnPos := CalleePos(stack, nArgs);
      if fnPos >= |stack| { return Panic; }
      if !stack[fnPos].Closure? { return Err(NotAFunction); }
      var closure := stack[fnPos];
      stack := WithoutSlot(stack, fnPos);
      if nArgs > |stack| { return Panic; }
      var newArgs := stack[|stack| - nArgs..];
      stack := Truncate(stack, stackBase);
      stack := stack + newArgs;
      code := closure.code;
      upvalues := closure.upvalues;
      ip := 0;
      signal := Continue;
    }

    method PerformReturn() returns (signal: Signal)
      modifies this
      ensures Follows(ReturnOp(old(View())), signal)
    {
      var retVal := TakeAny();
      if retVal.Refused? { return Err(retVal.error); }
      if callStack == [] {
        stack := stack + [retVal.value];
        return Ok(stack[|stack| - 1]);
      }
      var frame := callStack[|callStack| - 1];
      callStack := callStack[..|callStack| - 1];
      stack := Truncate(stack, frame.stackBase);
      code, ip, upvalues, stackBase := frame.code, frame.ip, frame.upvalues, frame.stackBase;
      stack := stack + [retVal.value];
      signal := Continue;
    }

    method DoJump(offset: int) returns (signal: Signal)
      modifies this`ip
      ensures Follows(Jumped(old(View()), offset), signal)
    {
      var newIp := ip + offset - 1;
      if newIp < 0 { return Err(InvalidJump(newIp % TWO_TO_THE_64)); }
      if newIp > |code| { return Err(InvalidJump(newIp)); }
      ip := newIp;
      signal := Continue;
    }
  }

  lemma UpvaluesRegrouped(stack: seq<ExtValue>, n: nat, v: Value, popped: seq<Value>)
    ensures match PopUpvalues(stack, n)
            case Got(vs, _) => (vs + [v]) + popped == vs + ([v] + popped)
            case Lacking(_) => true
  {
    match PopUpvalues(stack, n) {
      case Got(vs, _) => assert (vs + [v]) + popped == vs + ([v] + popped);
      case Lacking(_) =>
    }
  }
}
