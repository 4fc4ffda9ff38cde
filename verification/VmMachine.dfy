/** The bytecode machine with tail calls: its states and its single step. */
module VmMachine {
  import opened Options

  datatype Value = Int(n: int) | Bool(b: bool) | Str(s: string) | Nil

  datatype Instruction =
    | Push(v: Value)
    | Pop
    | Add
    | Sub
    | Mul
    | Div
    | Neg
    | Eq
    | Lt
    | Jump(offset: int)
    | JumpIfFalse(offset: int)
    | Load(idx: nat)
    | Store(idx: nat)
    | Return
    | Halt
    | MakeClosure(body: seq<Instruction>, nUpvalues: nat)
    | GetUpvalue(idx: nat)
    | SetUpvalue(idx: nat)
    | CallClosure(nArgs: nat)
    | TailCall(nArgs: nat)

  datatype ExtValue = Base(v: Value) | Closure(code: seq<Instruction>, upvalues: seq<Value>)

  datatype Frame = Frame(code: seq<Instruction>, ip: nat, stackBase: nat, upvalues: seq<Value>)

  datatype VmError =
    | StackUnderflow
    | TypeMismatch(expected: string, got: string)
    | DivisionByZero
    | InvalidJump(target: nat)
    | InvalidUpvalue(idx: nat)
    | NotAFunction
    | StackOverflow

  const MAX_CALL_DEPTH: nat := 256
  const TWO_TO_THE_64: nat := 0x1_0000_0000_0000_0000

  datatype State = State(
    stack: seq<ExtValue>, callStack: seq<Frame>, ip: nat, code: seq<Instruction>,
    upvalues: seq<Value>, stackBase: nat, framesCreated: nat)

  /** What a step leads to. `Panicked` stands for an index or a subtraction out of range,
      on which the machine aborts instead of returning an error. */
  datatype Outcome =
    | Running(s: State)
    | Finished(value: ExtValue, s: State)
    | Failed(error: VmError)
    | Panicked

  datatype Popped<T> = Got(value: T, rest: seq<ExtValue>) | Lacking(error: VmError)

  // ---- Taking operands off the stack ----

  function PopAny(stack: seq<ExtValue>): Popped<ExtValue> {
    if stack == [] then Lacking(StackUnderflow) else Got(stack[|stack| - 1], stack[..|stack| - 1])
  }

  function PopBase(stack: seq<ExtValue>): Popped<Value> {
    match PopAny(stack)
    case Lacking(e) => Lacking(e)
    case Got(Base(v), rest) => Got(v, rest)
    case Got(_, _) => Lacking(TypeMismatch("base value", "closure"))
  }

  function PopInt(stack: seq<ExtValue>): Popped<int> {
    match PopBase(stack)
    case Lacking(e) => Lacking(e)
    case Got(Int(n), rest) => Got(n, rest)
    case Got(_, _) => Lacking(TypeMismatch("int", "other"))
  }

  function PopBool(stack: seq<ExtValue>): Popped<bool> {
    match PopBase(stack)
    case Lacking(e) => Lacking(e)
    case Got(Bool(b), rest) => Got(b, rest)
    case Got(_, _) => Lacking(TypeMismatch("bool", "other"))
  }

  /** Upvalues are popped last first and kept in pushing order. */
  function PopUpvalues(stack: seq<ExtValue>, n: nat): Popped<seq<Value>> {
    if n == 0 then Got([], stack)
    else match PopAny(stack)
      case Lacking(e) => Lacking(e)
      case Got(Closure(_, _), _) => Lacking(TypeMismatch("base value for upvalue", "closure"))
      case Got(Base(v), rest) =>
        match PopUpvalues(rest, n - 1)
        case Lacking(e) => Lacking(e)
        case Got(vs, rest') => Got(vs + [v], rest')
  }

  // ---- Arithmetic ----

  /** Division that truncates toward zero. */
  function TruncDiv(a: int, b: int): int
    requires b != 0
  {
    if a >= 0 then a / b else -((-a) / b)
  }

  /** Closures are never equal, not even to themselves. */
  predicate SameValue(a: ExtValue, b: ExtValue) {
    a.Base? && b.Base? && a.v == b.v
  }

  // ---- One step ----

  function Truncate<T>(s: seq<T>, n: nat): seq<T> {
    if n < |s| then s[..n] else s
  }

  function LastOr<T>(s: seq<T>, default: T): T {
    if s == [] then default else s[|s| - 1]
  }

  function Pushed(s: State, rest: seq<ExtValue>, v: ExtValue): Outcome {
    Running(s.(stack := rest + [v]))
  }

  function Jumped(s: State, offset: int): Outcome {
    var target := s.ip + offset - 1;
    if target < 0 then Failed(InvalidJump(target % TWO_TO_THE_64))
    else if target > |s.code| then Failed(InvalidJump(target))
    else Running(s.(ip := target))
  }

  function IntOp(s: State, op: (int, int) -> Value): Outcome {
    match PopInt(s.stack)
    case Lacking(e) => Failed(e)
    case Got(b, rest) =>
      match PopInt(rest)
      case Lacking(e) => Failed(e)
      case Got(a, rest') => Pushed(s, rest', Base(op(a, b)))
  }

  function AddOp(s: State): Outcome {
    match PopBase(s.stack)
    case Lacking(e) => Failed(e)
    case Got(b, rest) =>
      match PopBase(rest)
      case Lacking(e) => Failed(e)
      case Got(a, rest') =>
        match (a, b)
        case (Int(x), Int(y)) => Pushed(s, rest', Base(Int(x + y)))
        case (Str(x), Str(y)) => Pushed(s, rest', Base(Str(x + y)))
        case _ => Failed(TypeMismatch("int or str", "mixed types"))
  }

  function DivOp(s: State): Outcome {
    match PopInt(s.stack)
    case Lacking(e) => Failed(e)
    case Got(b, rest) =>
      match PopInt(rest)
      case Lacking(e) => Failed(e)
      case Got(a, rest') =>
        if b == 0 then Failed(DivisionByZero) else Pushed(s, rest', Base(Int(TruncDiv(a, b))))
  }

  function NegOp(s: State): Outcome {
    match PopInt(s.stack)
    case Lacking(e) => Failed(e)
    case Got(a, rest) => Pushed(s, rest, Base(Int(-a)))
  }

  function EqOp(s: State): Outcome {
    match PopAny(s.stack)
    case Lacking(e) => Failed(e)
    case Got(b, rest) =>
      match PopAny(rest)
      case Lacking(e) => Failed(e)
      case Got(a, rest') => Pushed(s, rest', Base(Bool(SameValue(a, b))))
  }

  function BranchOp(s: State, offset: int): Outcome {
    match PopBool(s.stack)
    case Lacking(e) => Failed(e)
    case Got(cond, rest) =>
      var s' := s.(stack := rest);
      if cond then Running(s') else Jumped(s', offset)
  }

  function LoadOp(s: State, idx: nat): Outcome {
    var pos := s.stackBase + idx;
    if pos >= |s.stack| then Failed(StackUnderflow) else Pushed(s, s.stack, s.stack[pos])
  }

  function StoreOp(s: State, idx: nat): Outcome {
    match PopAny(s.stack)
    case Lacking(e) => Failed(e)
    case Got(v, rest) =>
      var pos := s.stackBase + idx;
      if pos >= |rest| then Failed(StackUnderflow) else Running(s.(stack := rest[pos := v]))
  }

  function MakeClosureOp(s: State, body: seq<Instruction>, n: nat): Outcome {
    match PopUpvalues(s.stack, n)
    case Lacking(e) => Failed(e)
    case Got(vs, rest) => Pushed(s, rest, Closure(body, vs))
  }

  function GetUpvalueOp(s: State, idx: nat): Outcome {
    if idx < |s.upvalues| then Pushed(s, s.stack, Base(s.upvalues[idx])) else Failed(InvalidUpvalue(idx))
  }

  function SetUpvalueOp(s: State, idx: nat): Outcome {
    match PopAny(s.stack)
    case Lacking(e) => Failed(e)
    case Got(Closure(_, _), _) => Failed(TypeMismatch("base value", "closure"))
    case Got(Base(v), rest) =>
      if idx >= |s.upvalues| then Failed(InvalidUpvalue(idx))
      else Running(s.(stack := rest, upvalues := s.upvalues[idx := v]))
  }

  /** Where a call looks for the callee: just below its arguments. */
  function CalleePos(stack: seq<ExtValue>, nArgs: nat): nat {
    if nArgs + 1 <= |stack| then |stack| - (nArgs + 1) else 0
  }

  function WithoutSlot<T>(s: seq<T>, p: nat): seq<T>
    requires p < |s|
  {
    s[..p] + s[p + 1..]
  }

  /** The topmost `n` slots moved down to `base`, dropping what was between. */
  function ArgsAtBase<T>(s: seq<T>, n: nat, base: nat): seq<T>
    requires n <= |s|
  {
    Truncate(s, base) + s[|s| - n..]
  }

  function CallOp(s: State, nArgs: nat): Outcome {
    if |s.callStack| >= MAX_CALL_DEPTH then Failed(StackOverflow)
    else
      var p := CalleePos(s.stack, nArgs);
      if p >= |s.stack| then Panicked
      else if !s.stack[p].Closure? then Failed(NotAFunction)
      else
        var stack := WithoutSlot(s.stack, p);
        if nArgs > |stack| then Panicked
        else Running(State(stack, s.callStack + [Frame(s.code, s.ip, s.stackBase, s.upvalues)],
                           0, s.stack[p].code, s.stack[p].upvalues, |stack| - nArgs, s.framesCreated + 1))
  }

  function TailCallOp(s: State, nArgs: nat): Outcome {
    var p := CalleePos(s.stack, nArgs);
    if p >= |s.stack| then Panicked
    else if !s.stack[p].Closure? then Failed(NotAFunction)
    else
      var stack := WithoutSlot(s.stack, p);
      if nArgs > |stack| then Panicked
      else Running(s.(stack := ArgsAtBase(stack, nArgs, s.stackBase),
                      code := s.stack[p].code, upvalues := s.stack[p].upvalues, ip := 0))
  }

  function ReturnOp(s: State): Outcome {
    match PopAny(s.stack)
    case Lacking(e) => Failed(e)
    case Got(v, rest) =>
      if s.callStack == [] then Finished(v, s)
      else
        var f := s.callStack[|s.callStack| - 1];
        Running(State(Truncate(rest, f.stackBase) + [v], s.callStack[..|s.callStack| - 1],
                      f.ip, f.code, f.upvalues, f.stackBase, s.framesCreated))
  }

  function Stopped(s: State): Outcome {
    Finished(LastOr(s.stack, Base(Nil)), s)
  }

  function Execute(instr: Instruction, s: State): Outcome {
    match instr
    case Push(v) => Pushed(s, s.stack, Base(v))
    case Pop =>
      (match PopAny(s.stack)
       case Lacking(e) => Failed(e)
       case Got(_, rest) => Running(s.(stack := rest)))
    case Add => AddOp(s)
    case Sub => IntOp(s, (a, b) => Int(a - b))
    case Mul => IntOp(s, (a, b) => Int(a * b))
    case Div => DivOp(s)
    case Neg => NegOp(s)
    case Eq => EqOp(s)
    case Lt => IntOp(s, (a, b) => Bool(a < b))
    case Jump(offset) => Jumped(s, offset)
    case JumpIfFalse(offset) => BranchOp(s, offset)
    case Load(idx) => LoadOp(s, idx)
    case Store(idx) => StoreOp(s, idx)
    case MakeClosure(body, n) => MakeClosureOp(s, body, n)
    case GetUpvalue(idx) => GetUpvalueOp(s, idx)
    case SetUpvalue(idx) => SetUpvalueOp(s, idx)
    case CallClosure(n) => CallOp(s, n)
    case TailCall(n) => TailCallOp(s, n)
    case Return => ReturnOp(s)
    case Halt => Stopped(s)
  }

  /** One turn of the interpreter loop. */
  function Step(s: State): Outcome {
    if s.ip >= |s.code| then Stopped(s)
    else Execute(s.code[s.ip], s.(ip := s.ip + 1))
  }

  /** `n` turns of the loop, or fewer when it ends before. */
  function Run(s: State, n: nat): Outcome
    decreases n
  {
    if n == 0 then Running(s)
    else match Step(s)
      case Running(s') => Run(s', n - 1)
      case other => other
  }

  lemma {:induction false} RunSplits(s: State, m: nat, n: nat)
    ensures Run(s, m + n) ==
            match Run(s, m) case Running(s') => Run(s', n) case other => other
    decreases m
  {
    hide Step;
    if m > 0 && Step(s).Running? {
      RunSplits(Step(s).s, m - 1, n);
    }
  }
}
