/** What programs compute: expressions with an evaluator of their own, their code, and the
    machine that runs the code. */
module VmMeaning {
  import opened Arithmetic
  import opened VmMachine
  import opened VmInterpreter

  // ---- A language and its meaning ----

  datatype Operator = Plus | Minus | Times | Over | Less | Same

  /** Expressions over the arguments of a function and the values that it has captured; both
      may be assigned. */
  datatype Expr =
    | Const(v: Value)
    | Local(i: nat)
    | Captured(i: nat)
    | Binary(op: Operator, left: Expr, right: Expr)
    | Negated(e: Expr)
    | If(cond: Expr, yes: Expr, no: Expr)
    | SetLocal(i: nat, e: Expr, body: Expr)
    | SetCaptured(i: nat, e: Expr, body: Expr)
    | Seq(e: Expr, body: Expr)

  datatype Env = Env(locals: seq<Value>, captured: seq<Value>)

  datatype Result = Val(v: Value, env: Env) | Error(e: VmError)

  function Abs(a: int): nat {
    if a < 0 then -a else a
  }

  /** The quotient of the magnitudes, with the sign of the product. */
  function Quotient(a: int, b: int): int
    requires b != 0
  {
    var q := Abs(a) / Abs(b);
    if (a < 0) == (b < 0) then q else -q
  }

  datatype Computed = Is(v: Value) | Not(e: VmError)

  function Apply(op: Operator, a: Value, b: Value): Computed {
    match op
    case Plus =>
      (match (a, b)
       case (Int(x), Int(y)) => ApplyToInts(op, x, y)
       case (Str(x), Str(y)) => Is(Str(x + y))
       case _ => Not(TypeMismatch("int or str", "mixed types")))
    case Same => Is(Bool(a == b))
    case _ =>
      match (a, b)
      case (Int(x), Int(y)) => ApplyToInts(op, x, y)
      case _ => Not(TypeMismatch("int", "other"))
  }

  function ApplyToInts(op: Operator, x: int, y: int): Computed {
    match op
    case Plus => Is(Int(x + y))
    case Minus => Is(Int(x - y))
    case Times => Is(Int(x * y))
    case Over => if y == 0 then Not(DivisionByZero) else Is(Int(Quotient(x, y)))
    case Less => Is(Bool(x < y))
    case Same => Is(Bool(x == y))
  }

  function Eval(e: Expr, env: Env): Result
    requires Scoped(e, |env.locals|)
    ensures Eval(e, env).Val? ==> |Eval(e, env).env.locals| == |env.locals|
    decreases e
  {
    match e
    case Const(v) => Val(v, env)
    case Local(i) => Val(env.locals[i], env)
    case Captured(i) => if i < |env.captured| then Val(env.captured[i], env) else Error(InvalidUpvalue(i))
    case Binary(op, left, right) =>
      (match Eval(left, env)
       case Error(x) => Error(x)
       case Val(a, env1) =>
         match Eval(right, env1)
         case Error(x) => Error(x)
         case Val(b, env2) =>
           match Apply(op, a, b)
           case Is(v) => Val(v, env2)
           case Not(x) => Error(x))
    case Negated(e1) =>
      (match Eval(e1, env)
       case Error(x) => Error(x)
       case Val(a, env1) => if a.Int? then Val(Int(0 - a.n), env1) else Error(TypeMismatch("int", "other")))
    case If(cond, yes, no) =>
      (match Eval(cond, env)
       case Error(x) => Error(x)
       case Val(c, env1) =>
         if !c.Bool? then Error(TypeMismatch("bool", "other"))
         else if c.b then Eval(yes, env1) else Eval(no, env1))
    case SetLocal(i, e1, body) =>
      (match Eval(e1, env)
       case Error(x) => Error(x)
       case Val(a, env1) => Eval(body, env1.(locals := env1.locals[i := a])))
    case SetCaptured(i, e1, body) =>
      (match Eval(e1, env)
       case Error(x) => Error(x)
       case Val(a, env1) =>
         if i < |env1.captured| then Eval(body, env1.(captured := env1.captured[i := a])) else Error(InvalidUpvalue(i)))
    case Seq(e1, body) =>
      (match Eval(e1, env)
       case Error(x) => Error(x)
       case Val(_, env1) => Eval(body, env1))
  }

  /** All locals are among the first `n`. */
  predicate Scoped(e: Expr, n: nat) {
    match e
    case Const(_) => true
    case Local(i) => i < n
    case Captured(_) => true
    case Binary(_, left, right) => Scoped(left, n) && Scoped(right, n)
    case Negated(e1) => Scoped(e1, n)
    case If(cond, yes, no) => Scoped(cond, n) && Scoped(yes, n) && Scoped(no, n)
    case SetLocal(i, e1, body) => i < n && Scoped(e1, n) && Scoped(body, n)
    case SetCaptured(_, e1, body) => Scoped(e1, n) && Scoped(body, n)
    case Seq(e1, body) => Scoped(e1, n) && Scoped(body, n)
  }

  // ---- Its code ----

  function Opcode(op: Operator): Instruction {
    match op
    case Plus => Add
    case Minus => Sub
    case Times => Mul
    case Over => Div
    case Less => Lt
    case Same => Eq
  }

  function Code(e: Expr): (code: seq<Instruction>)
    ensures |code| > 0
  {
    match e
    case Const(v) => [Push(v)]
    case Local(i) => [Load(i)]
    case Captured(i) => [GetUpvalue(i)]
    case Binary(op, left, right) => Code(left) + Code(right) + [Opcode(op)]
    case Negated(e1) => Code(e1) + [Neg]
    case If(cond, yes, no) =>
      Code(cond) + [JumpIfFalse(|Code(yes)| + 2)] + Code(yes) + [Jump(|Code(no)| + 1)] + Code(no)
    case SetLocal(i, e1, body) => Code(e1) + [Store(i)] + Code(body)
    case SetCaptured(i, e1, body) => Code(e1) + [SetUpvalue(i)] + Code(body)
    case Seq(e1, body) => Code(e1) + [Pop] + Code(body)
  }

  // ---- The machine ----

  function Bases(vs: seq<Value>): (r: seq<ExtValue>)
    ensures |r| == |vs| && forall i :: 0 <= i < |r| ==> r[i] == Base(vs[i])
  {
    seq(|vs|, i requires 0 <= i < |vs| => Base(vs[i]))
  }

  /** `part` stands in `code` from `ip` on. */
  predicate Stands(code: seq<Instruction>, ip: nat, part: seq<Instruction>) {
    ip + |part| <= |code| && code[ip..ip + |part|] == part
  }

  /** The machine `s` at `ip` with a frame on top of its stack: the locals, and above them
      `temps`. */
  function Within(s: State, ip: nat, env: Env, temps: seq<ExtValue>): State {
    s.(stack := s.stack + Bases(env.locals) + temps, upvalues := env.captured, ip := ip)
  }

  /** `o` is what `r` says, with the value on top of `temps`, at `ip`. */
  predicate Yields(o: Outcome, r: Result, s: State, ip: nat, temps: seq<ExtValue>) {
    match r
    case Val(v, env) => o == Running(Within(s, ip, env, temps + [Base(v)]))
    case Error(e) => o == Failed(e)
  }

  // ---- Single instructions ----

  lemma Fetched(s: State, ip: nat, instr: Instruction)
    requires Stands(s.code, ip, [instr]) && s.ip == ip
    ensures Run(s, 1) == Execute(instr, s.(ip := ip + 1))
  {
    hide Execute;
    assert s.code[ip] == s.code[ip..ip + 1][0];
    RunOne(s);
  }

  lemma RunOne(s: State)
    ensures Run(s, 1) == Step(s)
  {
    hide Step;
    if Step(s).Running? {
      assert Run(Step(s).s, 0) == Step(s);
    }
  }

  lemma QuotientIsTruncDiv(a: int, b: int)
    requires b != 0
    ensures TruncDiv(a, b) == Quotient(a, b)
  {
    if a >= 0 {
      NegatedDivisor(a, b);
    } else {
      NegatedDivisor(-a, b);
    }
  }

  lemma NegatedDivisor(a: nat, b: int)
    requires b != 0
    ensures a / b == if b > 0 then a / Abs(b) else -(a / Abs(b))
  {
    if b < 0 {
      var q, r := a / b, a % b;
      assert a == b * q + r;
      assert b * q == (-q) * Abs(b);
      DivisionIsUnique(a, Abs(b), -q, r);
    }
  }

  /** The quotient rounds toward zero, and the remainder has the sign of the dividend. */
  lemma QuotientMeans(a: int, b: int)
    requires b != 0
    ensures var r := a - Quotient(a, b) * b;
            Abs(r) < Abs(b) && (r == 0 || (r < 0) == (a < 0)) && Abs(Quotient(a, b)) * Abs(b) <= Abs(a)
  {
    var q, m := Abs(a) / Abs(b), Abs(a) % Abs(b);
    assert Abs(a) == Abs(b) * q + m;
    SignedProduct(q, b);
    assert Quotient(a, b) * b == if a < 0 then -(q * Abs(b)) else q * Abs(b);
  }

  lemma SignedProduct(q: nat, b: int)
    ensures q * b == if b < 0 then -(q * Abs(b)) else q * Abs(b)
    ensures (0 - q) * b == -(q * b)
  {
    if b < 0 {
      assert q * Abs(b) == q * (0 - b) == -(q * b);
    }
  }

  lemma TopTwo(stack: seq<ExtValue>, a: Value, b: Value)
    ensures PopAny(stack + [Base(a)] + [Base(b)]) == Got(Base(b), stack + [Base(a)])
    ensures PopAny(stack + [Base(a)]) == Got(Base(a), stack)
  {
  }

  /** An operator takes its operands in the order in which they were pushed. */
  lemma OperatorStep(op: Operator, s: State, stack: seq<ExtValue>, a: Value, b: Value)
    requires s.stack == stack + [Base(a)] + [Base(b)]
    ensures Execute(Opcode(op), s) ==
            match Apply(op, a, b)
            case Is(v) => Running(s.(stack := stack + [Base(v)]))
            case Not(e) => Failed(e)
  {
    TopTwo(stack, a, b);
    if op == Over && a.Int? && b.Int? && b.n != 0 {
      QuotientIsTruncDiv(a.n, b.n);
    }
  }

  lemma PopsTop(rest: seq<ExtValue>, v: Value)
    ensures PopAny(rest + [Base(v)]) == Got(Base(v), rest)
  {
  }

  lemma PushComputes(v: Value, env: Env, s: State, ip: nat, temps: seq<ExtValue>)
    requires Stands(s.code, ip, [Push(v)])
    ensures Run(Within(s, ip, env, temps), 1) == Running(Within(s, ip + 1, env, temps + [Base(v)]))
  {
    var x := Within(s, ip, env, temps);
    Fetched(x, ip, Push(v));
    assert x.stack + [Base(v)] == s.stack + Bases(env.locals) + (temps + [Base(v)]);
  }

  lemma LoadComputes(i: nat, env: Env, s: State, ip: nat, temps: seq<ExtValue>)
    requires Stands(s.code, ip, [Load(i)]) && s.stackBase == |s.stack| && i < |env.locals|
    ensures Run(Within(s, ip, env, temps), 1) == Running(Within(s, ip + 1, env, temps + [Base(env.locals[i])]))
  {
    var x := Within(s, ip, env, temps);
    Fetched(x, ip, Load(i));
    assert x.stack[s.stackBase + i] == Base(env.locals[i]);
    assert x.stack + [Base(env.locals[i])] == s.stack + Bases(env.locals) + (temps + [Base(env.locals[i])]);
  }

  lemma GetUpvalueComputes(i: nat, env: Env, s: State, ip: nat, temps: seq<ExtValue>)
    requires Stands(s.code, ip, [GetUpvalue(i)])
    ensures Yields(Run(Within(s, ip, env, temps), 1), Eval(Captured(i), env), s, ip + 1, temps)
  {
    var x := Within(s, ip, env, temps);
    Fetched(x, ip, GetUpvalue(i));
    if i < |env.captured| {
      assert x.stack + [Base(env.captured[i])] == s.stack + Bases(env.locals) + (temps + [Base(env.captured[i])]);
    }
  }

  lemma OperatorComputes(op: Operator, a: Value, b: Value, env: Env, s: State, ip: nat, temps: seq<ExtValue>)
    requires Stands(s.code, ip, [Opcode(op)])
    ensures Run(Within(s, ip, env, temps + [Base(a)] + [Base(b)]), 1) ==
            match Apply(op, a, b)
            case Is(v) => Running(Within(s, ip + 1, env, temps + [Base(v)]))
            case Not(e) => Failed(e)
  {
    hide Execute, Opcode, Apply;
    var x := Within(s, ip, env, temps + [Base(a)] + [Base(b)]);
    Fetched(x, ip, Opcode(op));
    var rest := s.stack + Bases(env.locals) + temps;
    assert x.stack == rest + [Base(a)] + [Base(b)];
    OperatorStep(op, x.(ip := ip + 1), rest, a, b);
    if Apply(op, a, b).Is? {
      assert rest + [Base(Apply(op, a, b).v)] == s.stack + Bases(env.locals) + (temps + [Base(Apply(op, a, b).v)]);
    }
  }

  /** What is left when the topmost value is taken. */
  lemma TopTaken(v: Value, env: Env, s: State, ip: nat, temps: seq<ExtValue>)
    ensures var x := Within(s, ip, env, temps + [Base(v)]);
            PopAny(x.stack) == Got(Base(v), Within(s, ip, env, temps).stack)
  {
    var rest := s.stack + Bases(env.locals) + temps;
    assert s.stack + Bases(env.locals) + (temps + [Base(v)]) == rest + [Base(v)];
    PopsTop(rest, v);
  }

  lemma NegComputes(a: Value, env: Env, s: State, ip: nat, temps: seq<ExtValue>)
    requires Stands(s.code, ip, [Neg])
    ensures Run(Within(s, ip, env, temps + [Base(a)]), 1) ==
            if a.Int? then Running(Within(s, ip + 1, env, temps + [Base(Int(0 - a.n))])) else Failed(TypeMismatch("int", "other"))
  {
    Fetched(Within(s, ip, env, temps + [Base(a)]), ip, Neg);
    TopTaken(a, env, s, ip, temps);
    if a.Int? {
      assert s.stack + Bases(env.locals) + temps + [Base(Int(0 - a.n))] == s.stack + Bases(env.locals) + (temps + [Base(Int(0 - a.n))]);
    }
  }

  /** Jumping by `offset` from `ip`, forwards or backwards. */
  predicate JumpsTo(o: Outcome, offset: int, env: Env, s: State, ip: nat, temps: seq<ExtValue>) {
    if 0 <= ip + offset <= |s.code| then o == Running(Within(s, ip + offset, env, temps))
    else o == Failed(InvalidJump(if ip + offset < 0 then (ip + offset) % TWO_TO_THE_64 else ip + offset))
  }

  /** A false condition goes as far as the offset says, counted from the instruction. */
  lemma BranchComputes(c: Value, offset: int, env: Env, s: State, ip: nat, temps: seq<ExtValue>)
    requires Stands(s.code, ip, [JumpIfFalse(offset)])
    ensures var o := Run(Within(s, ip, env, temps + [Base(c)]), 1);
            if !c.Bool? then o == Failed(TypeMismatch("bool", "other"))
            else if c.b then o == Running(Within(s, ip + 1, env, temps))
            else JumpsTo(o, offset, env, s, ip, temps)
  {
    Fetched(Within(s, ip, env, temps + [Base(c)]), ip, JumpIfFalse(offset));
    TopTaken(c, env, s, ip, temps);
  }

  lemma JumpComputes(offset: int, env: Env, s: State, ip: nat, temps: seq<ExtValue>)
    requires Stands(s.code, ip, [Jump(offset)])
    ensures JumpsTo(Run(Within(s, ip, env, temps), 1), offset, env, s, ip, temps)
  {
    Fetched(Within(s, ip, env, temps), ip, Jump(offset));
  }

  lemma StoreComputes(i: nat, v: Value, env: Env, s: State, ip: nat, temps: seq<ExtValue>)
    requires Stands(s.code, ip, [Store(i)]) && s.stackBase == |s.stack| && i < |env.locals|
    ensures Run(Within(s, ip, env, temps + [Base(v)]), 1) == Running(Within(s, ip + 1, env.(locals := env.locals[i := v]), temps))
  {
    Fetched(Within(s, ip, env, temps + [Base(v)]), ip, Store(i));
    TopTaken(v, env, s, ip, temps);
    assert (s.stack + Bases(env.locals) + temps)[s.stackBase + i := Base(v)] == s.stack + Bases(env.locals[i := v]) + temps;
  }

  lemma SetUpvalueComputes(i: nat, v: Value, env: Env, s: State, ip: nat, temps: seq<ExtValue>)
    requires Stands(s.code, ip, [SetUpvalue(i)])
    ensures Run(Within(s, ip, env, temps + [Base(v)]), 1) ==
            if i < |env.captured| then Running(Within(s, ip + 1, env.(captured := env.captured[i := v]), temps))
            else Failed(InvalidUpvalue(i))
  {
    Fetched(Within(s, ip, env, temps + [Base(v)]), ip, SetUpvalue(i));
    TopTaken(v, env, s, ip, temps);
  }

  lemma PopComputes(v: Value, env: Env, s: State, ip: nat, temps: seq<ExtValue>)
    requires Stands(s.code, ip, [Pop])
    ensures Run(Within(s, ip, env, temps + [Base(v)]), 1) == Running(Within(s, ip + 1, env, temps))
  {
    Fetched(Within(s, ip, env, temps + [Base(v)]), ip, Pop);
    TopTaken(v, env, s, ip, temps);
  }

  predicate TakesOperand(instr: Instruction) {
    || instr.Pop? || instr.Add? || instr.Sub? || instr.Mul? || instr.Div? || instr.Neg? || instr.Eq? || instr.Lt?
    || instr.JumpIfFalse? || instr.Store? || instr.SetUpvalue? || instr.Return?
  }

  predicate TakesValue(instr: Instruction) {
    TakesOperand(instr) && !instr.Pop? && !instr.Eq? && !instr.Store? && !instr.Return?
  }

  predicate CallsValue(s: State, instr: Instruction) {
    && (instr.TailCall? || (instr.CallClosure? && |s.callStack| < 256))
    && instr.nArgs < |s.stack| && s.stack[|s.stack| - 1 - instr.nArgs].Base?
  }

  /** What instructions refuse: to take from an empty stack, a closure for a value, a slot or
      a captured value that is not there, and to call at full depth or what is no closure. */
  lemma Refusals(s: State, instr: Instruction)
    ensures s.stack == [] && TakesOperand(instr) ==> Execute(instr, s) == Failed(StackUnderflow)
    ensures s.stack != [] && s.stack[|s.stack| - 1].Closure? && TakesValue(instr) ==>
              Execute(instr, s) == Failed(TypeMismatch("base value", "closure"))
    ensures instr.Load? && s.stackBase + instr.idx >= |s.stack| ==> Execute(instr, s) == Failed(StackUnderflow)
    ensures instr.Store? && s.stack != [] && s.stackBase + instr.idx >= |s.stack| - 1 ==> Execute(instr, s) == Failed(StackUnderflow)
    ensures instr.GetUpvalue? && instr.idx >= |s.upvalues| ==> Execute(instr, s) == Failed(InvalidUpvalue(instr.idx))
    ensures instr.CallClosure? && |s.callStack| >= 256 ==> Execute(instr, s) == Failed(StackOverflow)
    ensures CallsValue(s, instr) ==> Execute(instr, s) == Failed(NotAFunction)
  {
  }

  /** Nothing equals a closure. */
  lemma ClosuresDiffer(s: State, stack: seq<ExtValue>, a: ExtValue, b: ExtValue)
    requires s.stack == stack + [a] + [b] && (a.Closure? || b.Closure?)
    ensures Execute(Eq, s) == Running(s.(stack := stack + [Base(Bool(false))]))
  {
    assert s.stack[..|s.stack| - 1] == stack + [a];
  }

  // ---- Whole expressions ----

  /** A run goes on from where another has led. */
  lemma GoesOn(x: State, m: nat, y: State, n: nat)
    requires Run(x, m) == Running(y)
    ensures Run(x, m + n) == Run(y, n)
  {
    RunSplits(x, m, n);
  }

  lemma StandApart(code: seq<Instruction>, ip: nat, a: seq<Instruction>, b: seq<Instruction>)
    requires Stands(code, ip, a + b)
    ensures Stands(code, ip, a) && Stands(code, ip + |a|, b) && ip + |a| + |b| <= |code|
  {
    assert code[ip..ip + |a|] == code[ip..ip + |a + b|][..|a|];
    assert code[ip + |a|..ip + |a| + |b|] == code[ip..ip + |a + b|][|a|..];
  }

  lemma ThreeApart(code: seq<Instruction>, ip: nat, a: seq<Instruction>, b: seq<Instruction>, c: seq<Instruction>)
    requires Stands(code, ip, a + b + c)
    ensures Stands(code, ip, a) && Stands(code, ip + |a|, b) && Stands(code, ip + |a| + |b|, c)
    ensures ip + |a| + |b| + |c| <= |code|
  {
    hide Stands;
    StandApart(code, ip, a + b, c);
    StandApart(code, ip, a, b);
  }

  /** The code of an expression, wherever it stands and whatever is on the stack, leaves the
      stack as it was with the value on top, or fails as the evaluation does. */
  lemma {:induction false} CodeComputes(e: Expr, env: Env, s: State, ip: nat, temps: seq<ExtValue>) returns (n: nat)
    requires Scoped(e, |env.locals|) && s.stackBase == |s.stack| && Stands(s.code, ip, Code(e))
    ensures n <= |Code(e)| && Yields(Run(Within(s, ip, env, temps), n), Eval(e, env), s, ip + |Code(e)|, temps)
    decreases e
  {
    hide Run, Within, Stands, Apply;
    match e {
      case Const(v) =>
        PushComputes(v, env, s, ip, temps);
        n := 1;
      case Local(i) =>
        LoadComputes(i, env, s, ip, temps);
        n := 1;
      case Captured(i) =>
        GetUpvalueComputes(i, env, s, ip, temps);
        n := 1;
      case Binary(_, _, _) => n := BinaryComputes(e, env, s, ip, temps);
      case Negated(e1) =>
        StandApart(s.code, ip, Code(e1), [Neg]);
        n := CodeComputes(e1, env, s, ip, temps);
        match Eval(e1, env) {
          case Error(_) =>
          case Val(a, env1) =>
            NegComputes(a, env1, s, ip + |Code(e1)|, temps);
            GoesOn(Within(s, ip, env, temps), n, Within(s, ip + |Code(e1)|, env1, temps + [Base(a)]), 1);
            n := n + 1;
        }
      case If(_, _, _) => n := IfComputes(e, env, s, ip, temps);
      case _ => n := SequenceComputes(e, env, s, ip, temps);
    }
  }

  /** A run, one instruction and another run. */
  lemma Between(x: State, n: nat, y: State, z: State, m: nat) returns (k: nat)
    requires Run(x, n) == Running(y) && Run(y, 1) == Running(z)
    ensures k == n + 1 + m && Run(x, k) == Run(z, m)
  {
    hide Run;
    k := n + 1 + m;
    GoesOn(y, 1, z, m);
    GoesOn(x, n, y, 1 + m);
  }

  /** The code between the two parts of a sequence takes the value of the first. */
  function Taking(e: Expr): Instruction
    requires e.SetLocal? || e.SetCaptured? || e.Seq?
  {
    match e
    case SetLocal(i, _, _) => Store(i)
    case SetCaptured(i, _, _) => SetUpvalue(i)
    case Seq(_, _) => Pop
  }

  function Taken(e: Expr, v: Value, env: Env): Env
    requires e.SetLocal? || e.SetCaptured? || e.Seq?
    requires e.SetLocal? ==> e.i < |env.locals|
    requires e.SetCaptured? ==> e.i < |env.captured|
  {
    match e
    case SetLocal(i, _, _) => env.(locals := env.locals[i := v])
    case SetCaptured(i, _, _) => env.(captured := env.captured[i := v])
    case Seq(_, _) => env
  }

  lemma TakingComputes(e: Expr, v: Value, env: Env, s: State, ip: nat, temps: seq<ExtValue>)
    requires e.SetLocal? || e.SetCaptured? || e.Seq?
    requires e.SetLocal? ==> e.i < |env.locals|
    requires Stands(s.code, ip, [Taking(e)]) && s.stackBase == |s.stack|
    ensures e.SetCaptured? && e.i >= |env.captured| ==> Run(Within(s, ip, env, temps + [Base(v)]), 1) == Failed(InvalidUpvalue(e.i))
    ensures !(e.SetCaptured? && e.i >= |env.captured|) ==>
              Run(Within(s, ip, env, temps + [Base(v)]), 1) == Running(Within(s, ip + 1, Taken(e, v, env), temps))
  {
    hide Run, Within, Stands;
    match e
    case SetLocal(i, _, _) => StoreComputes(i, v, env, s, ip, temps);
    case SetCaptured(i, _, _) => SetUpvalueComputes(i, v, env, s, ip, temps);
    case Seq(_, _) => PopComputes(v, env, s, ip, temps);
  }

  lemma {:induction false} SequenceComputes(e: Expr, env: Env, s: State, ip: nat, temps: seq<ExtValue>) returns (n: nat)
    requires e.SetLocal? || e.SetCaptured? || e.Seq?
    requires Scoped(e, |env.locals|) && s.stackBase == |s.stack| && Stands(s.code, ip, Code(e))
    ensures n <= |Code(e)| && Yields(Run(Within(s, ip, env, temps), n), Eval(e, env), s, ip + |Code(e)|, temps)
    decreases e, 0
  {
    hide Run, Within, Stands;
    var at := ip + |Code(e.e)|;
    ThreeApart(s.code, ip, Code(e.e), [Taking(e)], Code(e.body));
    n := CodeComputes(e.e, env, s, ip, temps);
    match Eval(e.e, env) {
      case Error(_) =>
      case Val(a, env1) =>
        var x, y := Within(s, ip, env, temps), Within(s, at, env1, temps + [Base(a)]);
        TakingComputes(e, a, env1, s, at, temps);
        if e.SetCaptured? && e.i >= |env1.captured| {
          GoesOn(x, n, y, 1);
          n := n + 1;
        } else {
          var env2 := Taken(e, a, env1);
          var m := CodeComputes(e.body, env2, s, at + 1, temps);
          n := Between(x, n, y, Within(s, at + 1, env2, temps), m);
        }
    }
  }

  lemma {:induction false} BinaryComputes(e: Expr, env: Env, s: State, ip: nat, temps: seq<ExtValue>) returns (n: nat)
    requires e.Binary? && Scoped(e, |env.locals|) && s.stackBase == |s.stack| && Stands(s.code, ip, Code(e))
    ensures n <= |Code(e)| && Yields(Run(Within(s, ip, env, temps), n), Eval(e, env), s, ip + |Code(e)|, temps)
    decreases e, 0
  {
    hide Run, Within, Stands, Apply;
    var op, l, r := e.op, e.left, e.right;
    var at := ip + |Code(l)|;
    ThreeApart(s.code, ip, Code(l), Code(r), [Opcode(op)]);
    n := CodeComputes(l, env, s, ip, temps);
    match Eval(l, env) {
      case Error(_) =>
      case Val(a, env1) =>
        var x, y := Within(s, ip, env, temps), Within(s, at, env1, temps + [Base(a)]);
        var m := CodeComputes(r, env1, s, at, temps + [Base(a)]);
        GoesOn(x, n, y, m);
        n := n + m;
        match Eval(r, env1) {
          case Error(_) =>
          case Val(b, env2) =>
            OperatorComputes(op, a, b, env2, s, at + |Code(r)|, temps);
            GoesOn(x, n, Within(s, at + |Code(r)|, env2, temps + [Base(a)] + [Base(b)]), 1);
            n := n + 1;
        }
    }
  }

  lemma {:induction false} IfComputes(e: Expr, env: Env, s: State, ip: nat, temps: seq<ExtValue>) returns (n: nat)
    requires e.If? && Scoped(e, |env.locals|) && s.stackBase == |s.stack| && Stands(s.code, ip, Code(e))
    ensures n <= |Code(e)| && Yields(Run(Within(s, ip, env, temps), n), Eval(e, env), s, ip + |Code(e)|, temps)
    decreases e, 0
  {
    hide Run, Within, Stands;
    var cc, cy, cn := Code(e.cond), Code(e.yes), Code(e.no);
    var at := ip + |cc|;
    ThreeApart(s.code, ip, cc + [JumpIfFalse(|cy| + 2)] + cy, [Jump(|cn| + 1)], cn);
    ThreeApart(s.code, ip, cc, [JumpIfFalse(|cy| + 2)], cy);
    n := CodeComputes(e.cond, env, s, ip, temps);
    match Eval(e.cond, env) {
      case Error(_) =>
      case Val(c, env1) =>
        var x, y := Within(s, ip, env, temps), Within(s, at, env1, temps + [Base(c)]);
        BranchComputes(c, |cy| + 2, env1, s, at, temps);
        if !c.Bool? {
          GoesOn(x, n, y, 1);
          n := n + 1;
        } else if c.b {
          var m := CodeComputes(e.yes, env1, s, at + 1, temps);
          n := Between(x, n, y, Within(s, at + 1, env1, temps), m);
          match Eval(e.yes, env1) {
            case Error(_) =>
            case Val(v, env2) =>
              var z := Within(s, at + 1 + |cy|, env2, temps + [Base(v)]);
              JumpComputes(|cn| + 1, env2, s, at + 1 + |cy|, temps + [Base(v)]);
              GoesOn(x, n, z, 1);
              n := n + 1;
          }
        } else {
          var m := CodeComputes(e.no, env1, s, at + |cy| + 2, temps);
          n := Between(x, n, y, Within(s, at + |cy| + 2, env1, temps), m);
        }
    }
  }

  // ---- Whole programs ----

  function Pushes(vs: seq<Value>): (code: seq<Instruction>)
    ensures |code| == |vs|
  {
    if vs == [] then [] else Pushes(vs[..|vs| - 1]) + [Push(vs[|vs| - 1])]
  }

  lemma {:induction false} PushesRun(vs: seq<Value>, s: State)
    requires s.ip == 0 && Stands(s.code, 0, Pushes(vs)) && s.stack == []
    ensures Run(s, |vs|) == Running(s.(stack := Bases(vs), ip := |vs|))
    decreases |vs|
  {
    hide Run, Stands;
    if vs == [] {
      assert Bases(vs) == [];
      RunNothing(s);
    } else {
      var n := |vs| - 1;
      StandApart(s.code, 0, Pushes(vs[..n]), [Push(vs[n])]);
      PushesRun(vs[..n], s);
      var x := s.(stack := Bases(vs[..n]), ip := n);
      Pushed1(x, vs[n]);
      assert Bases(vs[..n]) + [Base(vs[n])] == Bases(vs);
      GoesOn(s, n, x, 1);
    }
  }

  lemma RunNothing(s: State)
    ensures Run(s, 0) == Running(s)
  {
  }

  lemma Pushed1(s: State, v: Value)
    requires Stands(s.code, s.ip, [Push(v)])
    ensures Run(s, 1) == Running(s.(stack := s.stack + [Base(v)], ip := s.ip + 1))
  {
    Fetched(s, s.ip, Push(v));
  }

  /** A run that has ended stays as it is. */
  lemma {:induction false} Ended(s: State, m: nat, n: nat)
    requires !Run(s, m).Running? && m <= n
    ensures Run(s, n) == Run(s, m)
  {
    RunSplits(s, m, n - m);
  }

  lemma HaltComputes(v: Value, env: Env, s: State, ip: nat)
    requires Stands(s.code, ip, [Halt])
    ensures Run(Within(s, ip, env, [Base(v)]), 1).Finished? && Run(Within(s, ip, env, [Base(v)]), 1).value == Base(v)
  {
    Fetched(Within(s, ip, env, [Base(v)]), ip, Halt);
  }

  /** The interpreter finds the value of any expression, or its error, within as many turns as
      the program has instructions. */
  method RunExpression(e: Expr, locals: seq<Value>) returns (signal: Signal)
    requires Scoped(e, |locals|)
    ensures match Eval(e, Env(locals, []))
            case Val(v, _) => signal == Ok(Base(v))
            case Error(x) => signal == Err(x)
  {
    var code := Pushes(locals) + Code(e) + [Halt];
    var vm := new Vm(code);
    ghost var s := vm.View();
    ProgramComputes(e, locals, s);
    signal := vm.Run(|code|);
  }

  lemma ProgramComputes(e: Expr, locals: seq<Value>, s: State)
    requires Scoped(e, |locals|) && s == State([], [], 0, Pushes(locals) + Code(e) + [Halt], [], 0, 0)
    ensures match Eval(e, Env(locals, []))
            case Val(v, _) => Run(s, |s.code|).Finished? && Run(s, |s.code|).value == Base(v)
            case Error(x) => Run(s, |s.code|) == Failed(x)
  {
    hide Run, Stands, Eval, Within, Bases, Pushes, Code, Scoped;
    var k, env := |locals|, Env(locals, []);
    WholeStands(s.code);
    ThreeApart(s.code, 0, Pushes(locals), Code(e), [Halt]);
    PushesRun(locals, s);
    var x := s.(stack := Bases(locals), ip := k);
    OnlyLocals(s, locals, k);
    var n := CodeComputes(e, env, s, k, []);
    GoesOn(s, k, x, n);
    ProgramEnds(Eval(e, env), s, k + n, k + |Code(e)|);
  }

  /** From the value on top of the stack, or the error, to the end of the run. */
  lemma ProgramEnds(r: Result, s: State, n: nat, ip: nat)
    requires Stands(s.code, ip, [Halt]) && n < |s.code| && Yields(Run(s, n), r, s, ip, [])
    ensures match r
            case Val(v, _) => Run(s, |s.code|).Finished? && Run(s, |s.code|).value == Base(v)
            case Error(x) => Run(s, |s.code|) == Failed(x)
  {
    hide Run, Stands, Within;
    match r {
      case Error(_) => Ended(s, n, |s.code|);
      case Val(v, env) =>
        assert [] + [Base(v)] == [Base(v)];
        HaltComputes(v, env, s, ip);
        GoesOn(s, n, Within(s, ip, env, [Base(v)]), 1);
        Ended(s, n + 1, |s.code|);
    }
  }

  lemma OnlyLocals(s: State, locals: seq<Value>, k: nat)
    requires s.stack == [] && s.upvalues == []
    ensures Within(s, k, Env(locals, []), []) == s.(stack := Bases(locals), ip := k)
  {
    assert [] + Bases(locals) + [] == Bases(locals);
  }

  lemma WholeStands(code: seq<Instruction>)
    ensures Stands(code, 0, code)
  {
    assert code[0..|code|] == code;
  }

  // ---- Functions ----

  /** The code of a function whose arguments are its locals. */
  function Body(e: Expr): seq<Instruction> {
    Code(e) + [Return]
  }

  /** The stack at a call: a closure and its arguments above `below`. */
  function CallStack(below: seq<ExtValue>, e: Expr, captured: seq<Value>, args: seq<Value>): seq<ExtValue> {
    below + [Closure(Body(e), captured)] + Bases(args)
  }

  lemma CalleeTaken(below: seq<ExtValue>, e: Expr, captured: seq<Value>, args: seq<Value>)
    ensures var stack, n := CallStack(below, e, captured, args), |args|;
            && |stack| == |below| + 1 + n && CalleePos(stack, n) == |below|
            && stack[|below|] == Closure(Body(e), captured)
            && WithoutSlot(stack, |below|) == below + Bases(args)
            && (below + Bases(args))[|below|..] == Bases(args)
  {
  }

  lemma AtReturn(v: Value, env: Env, s: State, ip: nat)
    requires Stands(s.code, ip, [Return])
    ensures var o := Run(Within(s, ip, env, [Base(v)]), 1);
            if s.callStack == [] then o.Finished? && o.value == Base(v)
            else var f := s.callStack[|s.callStack| - 1];
                 o == Running(State(Truncate(s.stack + Bases(env.locals), f.stackBase) + [Base(v)], s.callStack[..|s.callStack| - 1],
                                    f.ip, f.code, f.upvalues, f.stackBase, s.framesCreated))
  {
    Fetched(Within(s, ip, env, [Base(v)]), ip, Return);
    TopTaken(v, env, s, ip, []);
    assert [] + [Base(v)] == [Base(v)];
    assert s.stack + Bases(env.locals) + [] == s.stack + Bases(env.locals);
  }

  /** A function's body runs on the machine that has just entered it, up to the instruction
      behind its return. */
  lemma BodyComputes(e: Expr, env: Env, s: State) returns (n: nat)
    requires Scoped(e, |env.locals|) && s.code == Body(e) && s.stackBase == |s.stack|
    ensures n <= |Code(e)| + 1
    ensures var o := Run(Within(s, 0, env, []), n);
            match Eval(e, env)
            case Error(x) => o == Failed(x)
            case Val(v, env1) =>
              |env1.locals| == |env.locals| &&
              if s.callStack == [] then o.Finished? && o.value == Base(v)
              else var f := s.callStack[|s.callStack| - 1];
                   o == Running(State(Truncate(s.stack + Bases(env1.locals), f.stackBase) + [Base(v)], s.callStack[..|s.callStack| - 1],
                                      f.ip, f.code, f.upvalues, f.stackBase, s.framesCreated))
  {
    hide Run, Within, Stands, Eval, Truncate;
    WholeStands(s.code);
    StandApart(s.code, 0, Code(e), [Return]);
    n := CodeComputes(e, env, s, 0, []);
    match Eval(e, env) {
      case Error(_) =>
      case Val(v, env1) =>
        assert [] + [Base(v)] == [Base(v)];
        AtReturn(v, env1, s, |Code(e)|);
        GoesOn(Within(s, 0, env, []), n, Within(s, |Code(e)|, env1, [Base(v)]), 1);
        n := n + 1;
    }
  }

  /** A call leaves the value of the function's body, for its arguments in their order and its
      captured values, on what is left of the caller's stack. */
  lemma CallComputes(e: Expr, captured: seq<Value>, args: seq<Value>, below: seq<ExtValue>, s: State) returns (n: nat)
    requires Scoped(e, |args|) && Stands(s.code, s.ip, [CallClosure(|args|)])
    requires s.stack == CallStack(below, e, captured, args) && |s.callStack| < MAX_CALL_DEPTH && s.stackBase <= |below|
    ensures n <= |Code(e)| + 2
    ensures match Eval(e, Env(args, captured))
            case Error(x) => Run(s, n) == Failed(x)
            case Val(v, _) =>
              Run(s, n) == Running(s.(stack := below[..s.stackBase] + [Base(v)], ip := s.ip + 1, framesCreated := s.framesCreated + 1))
  {
    hide Run, Stands, Eval, Execute, CalleePos, WithoutSlot, CallStack, Body;
    var env := Env(args, captured);
    CalleeTaken(below, e, captured, args);
    Fetched(s, s.ip, CallClosure(|args|));
    Called(s.(ip := s.ip + 1), |args|);
    var frame := Frame(s.code, s.ip + 1, s.stackBase, s.upvalues);
    var inner := State(below, s.callStack + [frame], 0, Body(e), captured, |below|, s.framesCreated + 1);
    var x := Within(inner, 0, env, []);
    assert below + Bases(args) + [] == below + Bases(args);
    assert Run(s, 1) == Running(x);
    n := BodyComputes(e, env, inner);
    GoesOn(s, 1, x, n);
    match Eval(e, env) {
      case Error(_) =>
      case Val(v, env1) =>
        assert Truncate(below + Bases(env1.locals), s.stackBase) == below[..s.stackBase];
        assert inner.callStack[..|s.callStack|] == s.callStack;
    }
    n := 1 + n;
  }

  lemma Called(s: State, n: nat)
    ensures Execute(CallClosure(n), s) == CallOp(s, n) && Execute(TailCall(n), s) == TailCallOp(s, n)
  {
  }

  /** So a call keeps its caller's slots above the base exactly if there are none. */
  lemma CallKeepsSlotsExactly(e: Expr, captured: seq<Value>, args: seq<Value>, below: seq<ExtValue>, s: State) returns (n: nat)
    requires Scoped(e, |args|) && Stands(s.code, s.ip, [CallClosure(|args|)])
    requires s.stack == CallStack(below, e, captured, args) && |s.callStack| < MAX_CALL_DEPTH && s.stackBase <= |below|
    requires Eval(e, Env(args, captured)).Val?
    ensures Run(s, n).Running?
    ensures Run(s, n).s.stack == below + [Base(Eval(e, Env(args, captured)).v)] <==> |below| == s.stackBase
  {
    hide Run, Stands, Eval;
    n := CallComputes(e, captured, args, below, s);
    assert below[..s.stackBase] == below <==> |below| == s.stackBase;
    assert |below[..s.stackBase] + [Base(Eval(e, Env(args, captured)).v)]| == s.stackBase + 1;
  }

  /** A tail call gives the value of the function's body to the caller of the frame that it
      replaces. */
  lemma TailCallComputes(e: Expr, captured: seq<Value>, args: seq<Value>, below: seq<ExtValue>, s: State) returns (n: nat)
    requires Scoped(e, |args|) && Stands(s.code, s.ip, [TailCall(|args|)])
    requires s.stack == CallStack(below, e, captured, args) && s.stackBase <= |below|
    requires s.callStack != [] ==> s.callStack[|s.callStack| - 1].stackBase <= s.stackBase
    ensures n <= |Code(e)| + 2
    ensures match Eval(e, Env(args, captured))
            case Error(x) => Run(s, n) == Failed(x)
            case Val(v, _) =>
              if s.callStack == [] then Run(s, n).Finished? && Run(s, n).value == Base(v)
              else var f := s.callStack[|s.callStack| - 1];
                   Run(s, n) == Running(State(below[..f.stackBase] + [Base(v)], s.callStack[..|s.callStack| - 1],
                                              f.ip, f.code, f.upvalues, f.stackBase, s.framesCreated))
  {
    hide Run, Stands, Eval, Execute, CalleePos, WithoutSlot, CallStack, Body;
    var env := Env(args, captured);
    CalleeTaken(below, e, captured, args);
    Fetched(s, s.ip, TailCall(|args|));
    Called(s.(ip := s.ip + 1), |args|);
    var kept := below[..s.stackBase];
    var inner := State(kept, s.callStack, 0, Body(e), captured, s.stackBase, s.framesCreated);
    var x := Within(inner, 0, env, []);
    ArgsMoved(below, args, s.stackBase);
    assert kept + Bases(args) + [] == kept + Bases(args);
    assert Run(s, 1) == Running(x);
    n := BodyComputes(e, env, inner);
    GoesOn(s, 1, x, n);
    match Eval(e, env) {
      case Error(_) =>
      case Val(v, env1) =>
        if s.callStack != [] {
          var f := s.callStack[|s.callStack| - 1];
          assert Truncate(kept + Bases(env1.locals), f.stackBase) == below[..f.stackBase];
        }
    }
    n := 1 + n;
  }

  lemma ArgsMoved(below: seq<ExtValue>, args: seq<Value>, base: nat)
    requires base <= |below|
    ensures ArgsAtBase(below + Bases(args), |args|, base) == below[..base] + Bases(args)
  {
  }

  /** A closure captures the topmost values in the order in which they were pushed. */
  lemma MakeClosureComputes(code: seq<Instruction>, captured: seq<Value>, below: seq<ExtValue>, s: State)
    requires Stands(s.code, s.ip, [MakeClosure(code, |captured|)]) && s.stack == below + Bases(captured)
    ensures Run(s, 1) == Running(s.(stack := below + [Closure(code, captured)], ip := s.ip + 1))
  {
    hide Execute, Stands, Bases, PopUpvalues, Run;
    Fetched(s, s.ip, MakeClosure(code, |captured|));
    Made(s.(ip := s.ip + 1), code, |captured|);
    UpvaluesPopped(captured, below);
  }

  lemma Made(s: State, code: seq<Instruction>, n: nat)
    ensures Execute(MakeClosure(code, n), s) == MakeClosureOp(s, code, n)
  {
  }

  lemma {:induction false} UpvaluesPopped(vs: seq<Value>, below: seq<ExtValue>)
    ensures PopUpvalues(below + Bases(vs), |vs|) == Got(vs, below)
    decreases |vs|
  {
    if vs == [] {
      assert below + Bases(vs) == below;
    } else {
      var n := |vs| - 1;
      assert below + Bases(vs) == (below + Bases(vs[..n])) + [Base(vs[n])];
      PopsTop(below + Bases(vs[..n]), vs[n]);
      UpvaluesPopped(vs[..n], below);
      assert vs[..n] + [vs[n]] == vs;
    }
  }
}
