/** A tail call means the same as a call followed by a return.

    After `CallClosure` the callee runs above the caller's leftover slots `d`, with one
    more frame below it. After `TailCall` it runs in the caller's place. `Lifted` maps a
    state of the second run to the corresponding state of the first; the machine's steps
    commute with it for as long as the callee keeps to its own part of the stack. */
module VmTailCalls {
  import opened Options
  import opened VmMachine

  // ---- The correspondence ----

  function LiftedStack(stack: seq<ExtValue>, p: nat, d: seq<ExtValue>): seq<ExtValue>
    requires p <= |stack|
  {
    stack[..p] + d + stack[p..]
  }

  function Raised(frames: seq<Frame>, n: nat): (r: seq<Frame>)
    ensures |r| == |frames|
    ensures forall i :: 0 <= i < |r| ==> r[i] == frames[i].(stackBase := frames[i].stackBase + n)
  {
    seq(|frames|, i requires 0 <= i < |frames| => frames[i].(stackBase := frames[i].stackBase + n))
  }

  /** `t` with `d` put into its stack at `p`, `saved` put into its frames at `k`, and all
      bases above raised accordingly. */
  function Lifted(t: State, p: nat, d: seq<ExtValue>, k: nat, saved: Frame): State
    requires Contained(t, p, k)
  {
    State(LiftedStack(t.stack, p, d), LiftedFrames(t.callStack, |d|, k, saved),
          t.ip, t.code, t.upvalues, t.stackBase + |d|, t.framesCreated + 1)
  }

  /** The current frame and all frames from the `k`-th on live above stack position `p`. */
  predicate Contained(t: State, p: nat, k: nat) {
    && p <= |t.stack| && k <= |t.callStack| && p <= t.stackBase
    && forall i :: k <= i < |t.callStack| ==> p <= t.callStack[i].stackBase
  }

  /** How many of the topmost slots an instruction looks at. */
  function Operands(instr: Instruction): nat {
    match instr
    case Push(_) => 0
    case Jump(_) => 0
    case Load(_) => 0
    case GetUpvalue(_) => 0
    case Pop => 1
    case Neg => 1
    case JumpIfFalse(_) => 1
    case Store(_) => 1
    case SetUpvalue(_) => 1
    case Return => 1
    case Halt => 1
    case MakeClosure(_, n) => n
    case CallClosure(n) => n + 1
    case TailCall(n) => n + 1
    case _ => 2
  }

  /** The next turn of the loop leaves the slots below `floor` alone. */
  predicate KeepsAbove(s: State, floor: nat) {
    floor + (if s.ip >= |s.code| then 1 else Operands(s.code[s.ip])) <= |s.stack|
  }

  predicate AtInstruction(s: State, instr: Instruction) {
    s.ip < |s.code| && s.code[s.ip] == instr
  }

  /** The called run `c` does nothing that a tail call could not do in its place: it
      keeps above its floor, makes no call at the depth limit and does not yet return to
      its caller. */
  predicate StepsInside(c: State, floor: nat, depth: nat) {
    && KeepsAbove(c, floor)
    && (c.ip < |c.code| && c.code[c.ip].CallClosure? ==> |c.callStack| < MAX_CALL_DEPTH)
    && !(AtInstruction(c, Return) && |c.callStack| == depth)
  }

  /** The outcomes `o` of the tail-called run and `oc` of the called run correspond. */
  predicate Corresponds(o: Outcome, oc: Outcome, p: nat, d: seq<ExtValue>, k: nat, saved: Frame) {
    match o
    case Running(t) => Contained(t, p, k) && oc == Running(Lifted(t, p, d, k, saved))
    case Finished(v, _) => oc.Finished? && oc.value == v
    case Failed(e) => oc == Failed(e)
    case Panicked => oc == Panicked
  }

  predicate PopsAlike<T(==)>(r: Popped<T>, rc: Popped<T>, p: nat, d: seq<ExtValue>, len: nat) {
    match r
    case Got(v, rest) => p <= |rest| == len && rc == Got(v, LiftedStack(rest, p, d))
    case Lacking(e) => rc == Lacking(e)
  }

  // ---- Operands ----

  lemma PopLifted(stack: seq<ExtValue>, p: nat, d: seq<ExtValue>)
    requires p < |stack|
    ensures PopsAlike(PopAny(stack), PopAny(LiftedStack(stack, p, d)), p, d, |stack| - 1)
    ensures PopsAlike(PopBase(stack), PopBase(LiftedStack(stack, p, d)), p, d, |stack| - 1)
    ensures PopsAlike(PopInt(stack), PopInt(LiftedStack(stack, p, d)), p, d, |stack| - 1)
    ensures PopsAlike(PopBool(stack), PopBool(LiftedStack(stack, p, d)), p, d, |stack| - 1)
  {
    var rest := stack[..|stack| - 1];
    var lifted := LiftedStack(stack, p, d);
    assert lifted[..|lifted| - 1] == LiftedStack(rest, p, d);
  }

  lemma {:induction false} PopUpvaluesLifted(stack: seq<ExtValue>, n: nat, p: nat, d: seq<ExtValue>)
    requires p + n <= |stack|
    ensures PopsAlike(PopUpvalues(stack, n), PopUpvalues(LiftedStack(stack, p, d), n), p, d, |stack| - n)
    decreases n
  {
    if n > 0 {
      PopLifted(stack, p, d);
      if PopAny(stack).Got? {
        PopUpvaluesLifted(PopAny(stack).rest, n - 1, p, d);
      }
    }
  }

  lemma PushLifted(stack: seq<ExtValue>, p: nat, d: seq<ExtValue>, v: ExtValue)
    requires p <= |stack|
    ensures LiftedStack(stack, p, d) + [v] == LiftedStack(stack + [v], p, d)
  {
  }

  // ---- Steps ----

  /** Every instruction but calls and returns commutes with lifting. */
  lemma PlainLifted(instr: Instruction, t: State, p: nat, d: seq<ExtValue>, k: nat, saved: Frame)
    requires Contained(t, p, k)
    requires p + Operands(instr) <= |t.stack|
    requires !instr.CallClosure? && !instr.TailCall? && !instr.Return?
    requires instr.Halt? ==> p < |t.stack|
    ensures Corresponds(Execute(instr, t), Execute(instr, Lifted(t, p, d, k, saved)), p, d, k, saved)
  {
    if instr.Push? || instr.Load? || instr.GetUpvalue? || instr.Jump? || instr.Halt? {
      NullaryLifted(instr, t, p, d, k, saved);
    } else if instr.Neg? {
      UnaryLifted(instr, t, p, d, k, saved);
    } else if instr.Pop? || instr.JumpIfFalse? || instr.SetUpvalue? {
      ConsumerLifted(instr, t, p, d, k, saved);
    } else if instr.Store? {
      StoreLifted(instr.idx, t, p, d, k, saved);
    } else if instr.MakeClosure? {
      MakeClosureLifted(instr.body, instr.nUpvalues, t, p, d, k, saved);
    } else {
      BinaryLifted(instr, t, p, d, k, saved);
    }
  }

  lemma NullaryLifted(instr: Instruction, t: State, p: nat, d: seq<ExtValue>, k: nat, saved: Frame)
    requires Contained(t, p, k) && p <= |t.stack|
    requires instr.Push? || instr.Load? || instr.GetUpvalue? || instr.Jump? || (instr.Halt? && p < |t.stack|)
    ensures Corresponds(Execute(instr, t), Execute(instr, Lifted(t, p, d, k, saved)), p, d, k, saved)
  {
    hide AddOp, IntOp, DivOp, NegOp, EqOp, BranchOp, StoreOp, MakeClosureOp, SetUpvalueOp, CallOp, TailCallOp, ReturnOp, LiftedStack, LiftedFrames;
    SlotsLifted(t.stack, p, d);
    match instr {
      case Push(v) => PushLifted(t.stack, p, d, Base(v));
      case GetUpvalue(idx) =>
        if idx < |t.upvalues| { PushLifted(t.stack, p, d, Base(t.upvalues[idx])); }
      case Load(idx) =>
        var pos := t.stackBase + idx;
        if pos < |t.stack| { PushLifted(t.stack, p, d, t.stack[pos]); }
      case _ =>
    }
  }

  lemma SlotsLifted(stack: seq<ExtValue>, p: nat, d: seq<ExtValue>)
    requires p <= |stack|
    ensures |LiftedStack(stack, p, d)| == |stack| + |d|
    ensures forall i :: p <= i < |stack| ==> LiftedStack(stack, p, d)[i + |d|] == stack[i]
    ensures p < |stack| ==> LiftedStack(stack, p, d)[|stack| + |d| - 1] == stack[|stack| - 1]
  {
  }

  lemma ConsumerLifted(instr: Instruction, t: State, p: nat, d: seq<ExtValue>, k: nat, saved: Frame)
    requires Contained(t, p, k) && p < |t.stack|
    requires instr.Pop? || instr.JumpIfFalse? || instr.SetUpvalue?
    ensures Corresponds(Execute(instr, t), Execute(instr, Lifted(t, p, d, k, saved)), p, d, k, saved)
  {
    hide AddOp, IntOp, DivOp, NegOp, EqOp, LoadOp, StoreOp, MakeClosureOp, GetUpvalueOp, CallOp, TailCallOp, ReturnOp;
    PopLifted(t.stack, p, d);
  }

  lemma MakeClosureLifted(body: seq<Instruction>, n: nat, t: State, p: nat, d: seq<ExtValue>, k: nat, saved: Frame)
    requires Contained(t, p, k) && p + n <= |t.stack|
    ensures Corresponds(MakeClosureOp(t, body, n), MakeClosureOp(Lifted(t, p, d, k, saved), body, n), p, d, k, saved)
  {
    PopUpvaluesLifted(t.stack, n, p, d);
    match PopUpvalues(t.stack, n) {
      case Got(vs, rest) => PushLifted(rest, p, d, Closure(body, vs));
      case Lacking(_) =>
    }
  }

  lemma UnaryLifted(instr: Instruction, t: State, p: nat, d: seq<ExtValue>, k: nat, saved: Frame)
    requires Contained(t, p, k) && p < |t.stack| && instr.Neg?
    ensures Corresponds(Execute(instr, t), Execute(instr, Lifted(t, p, d, k, saved)), p, d, k, saved)
  {
    PopLifted(t.stack, p, d);
    match PopInt(t.stack) {
      case Got(a, rest) => PushLifted(rest, p, d, Base(Int(-a)));
      case Lacking(_) =>
    }
  }

  lemma StoreLifted(idx: nat, t: State, p: nat, d: seq<ExtValue>, k: nat, saved: Frame)
    requires Contained(t, p, k) && p < |t.stack|
    ensures Corresponds(StoreOp(t, idx), StoreOp(Lifted(t, p, d, k, saved), idx), p, d, k, saved)
  {
    PopLifted(t.stack, p, d);
    var v, rest := PopAny(t.stack).value, PopAny(t.stack).rest;
    var pos := t.stackBase + idx;
    if pos < |rest| {
      assert LiftedStack(rest, p, d)[pos + |d| := v] == LiftedStack(rest[pos := v], p, d);
    }
  }

  lemma BinaryLifted(instr: Instruction, t: State, p: nat, d: seq<ExtValue>, k: nat, saved: Frame)
    requires Contained(t, p, k) && p + 2 <= |t.stack|
    requires instr.Add? || instr.Sub? || instr.Mul? || instr.Div? || instr.Eq? || instr.Lt?
    ensures Corresponds(Execute(instr, t), Execute(instr, Lifted(t, p, d, k, saved)), p, d, k, saved)
  {
    match instr {
      case Add => AddLifted(t, p, d, k, saved);
      case Sub => IntOpLifted((a, b) => Int(a - b), t, p, d, k, saved);
      case Mul => IntOpLifted((a, b) => Int(a * b), t, p, d, k, saved);
      case Lt => IntOpLifted((a, b) => Bool(a < b), t, p, d, k, saved);
      case Div => DivLifted(t, p, d, k, saved);
      case Eq => EqLifted(t, p, d, k, saved);
    }
  }

  /** What is left after popping two operands is lifted alike, with any result on top. */
  lemma TwoPopsLifted(stack: seq<ExtValue>, p: nat, d: seq<ExtValue>)
    requires p + 2 <= |stack|
    ensures PopAny(stack).Got? && p < |PopAny(stack).rest|
    ensures PopAny(PopAny(stack).rest).Got? && PopAny(PopAny(stack).rest).rest == stack[..|stack| - 2]
    ensures forall v :: LiftedStack(stack[..|stack| - 2], p, d) + [v] == LiftedStack(stack[..|stack| - 2] + [v], p, d)
  {
    forall v ensures LiftedStack(stack[..|stack| - 2], p, d) + [v] == LiftedStack(stack[..|stack| - 2] + [v], p, d) {
      PushLifted(stack[..|stack| - 2], p, d, v);
    }
  }

  lemma AddLifted(t: State, p: nat, d: seq<ExtValue>, k: nat, saved: Frame)
    requires Contained(t, p, k) && p + 2 <= |t.stack|
    ensures Corresponds(AddOp(t), AddOp(Lifted(t, p, d, k, saved)), p, d, k, saved)
  {
    PopLifted(t.stack, p, d);
    TwoPopsLifted(t.stack, p, d);
    PopLifted(PopAny(t.stack).rest, p, d);
    hide LiftedStack, LiftedFrames;
  }

  lemma IntOpLifted(op: (int, int) -> Value, t: State, p: nat, d: seq<ExtValue>, k: nat, saved: Frame)
    requires Contained(t, p, k) && p + 2 <= |t.stack|
    ensures Corresponds(IntOp(t, op), IntOp(Lifted(t, p, d, k, saved), op), p, d, k, saved)
  {
    PopLifted(t.stack, p, d);
    TwoPopsLifted(t.stack, p, d);
    PopLifted(PopAny(t.stack).rest, p, d);
    hide LiftedStack, LiftedFrames;
  }

  lemma DivLifted(t: State, p: nat, d: seq<ExtValue>, k: nat, saved: Frame)
    requires Contained(t, p, k) && p + 2 <= |t.stack|
    ensures Corresponds(DivOp(t), DivOp(Lifted(t, p, d, k, saved)), p, d, k, saved)
  {
    PopLifted(t.stack, p, d);
    TwoPopsLifted(t.stack, p, d);
    PopLifted(PopAny(t.stack).rest, p, d);
    hide LiftedStack, LiftedFrames;
  }

  lemma EqLifted(t: State, p: nat, d: seq<ExtValue>, k: nat, saved: Frame)
    requires Contained(t, p, k) && p + 2 <= |t.stack|
    ensures Corresponds(EqOp(t), EqOp(Lifted(t, p, d, k, saved)), p, d, k, saved)
  {
    PopLifted(t.stack, p, d);
    TwoPopsLifted(t.stack, p, d);
    PopLifted(PopAny(t.stack).rest, p, d);
    hide LiftedStack, LiftedFrames;
  }

  /** Both runs find the same callee for a call made by the callee itself. */
  lemma CalleeLifted(stack: seq<ExtValue>, n: nat, p: nat, d: seq<ExtValue>)
    requires p + n + 1 <= |stack|
    ensures var q, lifted := CalleePos(stack, n), LiftedStack(stack, p, d);
            && CalleePos(lifted, n) == q + |d| < |lifted|
            && q < |stack| && lifted[q + |d|] == stack[q]
            && WithoutSlot(lifted, q + |d|) == LiftedStack(WithoutSlot(stack, q), p, d)
            && |LiftedStack(WithoutSlot(stack, q), p, d)| == |stack| + |d| - 1
            && |WithoutSlot(stack, q)| == |stack| - 1
  {
    SlotLifted(stack, CalleePos(stack, n), p, d);
  }

  lemma CallLifted(n: nat, t: State, p: nat, d: seq<ExtValue>, k: nat, saved: Frame)
    requires Contained(t, p, k) && p + n + 1 <= |t.stack|
    requires |t.callStack| + 1 < MAX_CALL_DEPTH
    ensures Corresponds(CallOp(t, n), CallOp(Lifted(t, p, d, k, saved), n), p, d, k, saved)
  {
    hide LiftedStack, LiftedFrames, WithoutSlot, CalleePos;
    CalleeLifted(t.stack, n, p, d);
    FrameAddedLifted(t.callStack, |d|, k, saved, Frame(t.code, t.ip, t.stackBase, t.upvalues));
    LiftedFramesLength(t.callStack, |d|, k, saved);
  }

  /** A tail call made by the callee itself. */
  lemma TailCallLifted(n: nat, t: State, p: nat, d: seq<ExtValue>, k: nat, saved: Frame)
    requires Contained(t, p, k) && p + n + 1 <= |t.stack|
    ensures Corresponds(TailCallOp(t, n), TailCallOp(Lifted(t, p, d, k, saved), n), p, d, k, saved)
  {
    hide LiftedStack, LiftedFrames, WithoutSlot, CalleePos, ArgsAtBase;
    CalleeLifted(t.stack, n, p, d);
    var q := CalleePos(t.stack, n);
    if t.stack[q].Closure? {
      ArgsLifted(WithoutSlot(t.stack, q), n, t.stackBase, p, d);
    }
  }

  lemma SlotLifted(stack: seq<ExtValue>, q: nat, p: nat, d: seq<ExtValue>)
    requires p <= q < |stack|
    ensures WithoutSlot(LiftedStack(stack, p, d), q + |d|) == LiftedStack(WithoutSlot(stack, q), p, d)
  {
    assert stack[..q][..p] == stack[..p];
  }

  lemma ArgsLifted(stack: seq<ExtValue>, n: nat, base: nat, p: nat, d: seq<ExtValue>)
    requires p + n <= |stack| && p <= base
    ensures p <= |ArgsAtBase(stack, n, base)|
    ensures ArgsAtBase(LiftedStack(stack, p, d), n, base + |d|) == LiftedStack(ArgsAtBase(stack, n, base), p, d)
  {
    TruncateLifted(stack, base, p, d);
    var kept, args := Truncate(stack, base), stack[|stack| - n..];
    assert LiftedStack(stack, p, d)[|stack| + |d| - n..] == args;
    assert LiftedStack(kept, p, d) + args == LiftedStack(kept + args, p, d);
  }

  lemma TruncateLifted(stack: seq<ExtValue>, n: nat, p: nat, d: seq<ExtValue>)
    requires p <= |stack| && p <= n
    ensures p <= |Truncate(stack, n)|
    ensures Truncate(LiftedStack(stack, p, d), n + |d|) == LiftedStack(Truncate(stack, n), p, d)
  {
  }

  /** A return from a call that the callee made. */
  lemma ReturnLifted(t: State, p: nat, d: seq<ExtValue>, k: nat, saved: Frame)
    requires Contained(t, p, k) && p < |t.stack| && k < |t.callStack|
    ensures Corresponds(ReturnOp(t), ReturnOp(Lifted(t, p, d, k, saved)), p, d, k, saved)
  {
    hide LiftedStack, Truncate, LiftedFrames;
    PopLifted(t.stack, p, d);
    var v, rest := PopAny(t.stack).value, PopAny(t.stack).rest;
    var f := t.callStack[|t.callStack| - 1];
    LastFrameLifted(t.callStack, |d|, k, saved);
    TruncateLifted(rest, f.stackBase, p, d);
    PushLifted(Truncate(rest, f.stackBase), p, d, v);
  }

  function LiftedFrames(frames: seq<Frame>, n: nat, k: nat, saved: Frame): seq<Frame>
    requires k <= |frames|
  {
    frames[..k] + [saved] + Raised(frames[k..], n)
  }

  lemma LastFrameLifted(frames: seq<Frame>, n: nat, k: nat, saved: Frame)
    requires k < |frames|
    ensures var fs, f := LiftedFrames(frames, n, k, saved), frames[|frames| - 1];
            && |fs| == |frames| + 1
            && fs[|fs| - 1] == f.(stackBase := f.stackBase + n)
            && fs[..|fs| - 1] == LiftedFrames(frames[..|frames| - 1], n, k, saved)
  {
  }

  lemma LiftedFramesLength(frames: seq<Frame>, n: nat, k: nat, saved: Frame)
    requires k <= |frames|
    ensures |LiftedFrames(frames, n, k, saved)| == |frames| + 1
  {
  }

  lemma FrameAddedLifted(frames: seq<Frame>, n: nat, k: nat, saved: Frame, f: Frame)
    requires k <= |frames|
    ensures LiftedFrames(frames, n, k, saved) + [f.(stackBase := f.stackBase + n)] == LiftedFrames(frames + [f], n, k, saved)
  {
  }

  /** One turn of the loop commutes with lifting. */
  lemma StepLifted(t: State, p: nat, d: seq<ExtValue>, k: nat, saved: Frame)
    requires Contained(t, p, k)
    requires StepsInside(Lifted(t, p, d, k, saved), p + |d|, k + 1)
    ensures Corresponds(Step(t), Step(Lifted(t, p, d, k, saved)), p, d, k, saved)
  {
    hide AddOp, IntOp, DivOp, NegOp, EqOp, BranchOp, LoadOp, StoreOp, MakeClosureOp, GetUpvalueOp, SetUpvalueOp;
    hide CallOp, TailCallOp, ReturnOp, Jumped;
    var c := Lifted(t, p, d, k, saved);
    if t.ip < |t.code| {
      var instr := t.code[t.ip];
      var t1 := t.(ip := t.ip + 1);
      assert Lifted(t1, p, d, k, saved) == c.(ip := c.ip + 1);
      match instr {
        case CallClosure(n) => CallLifted(n, t1, p, d, k, saved);
        case TailCall(n) => TailCallLifted(n, t1, p, d, k, saved);
        case Return => ReturnLifted(t1, p, d, k, saved);
        case _ => PlainLifted(instr, t1, p, d, k, saved);
      }
    }
  }

  // ---- Whole runs ----

  /** The called run keeps to its own part for `m` turns, or until it ends. */
  predicate RunsInside(c: State, floor: nat, depth: nat, m: nat)
    decreases m
  {
    m > 0 ==>
      && StepsInside(c, floor, depth)
      && (Step(c).Running? ==> RunsInside(Step(c).s, floor, depth, m - 1))
  }

  lemma {:induction false} RunLifted(t: State, p: nat, d: seq<ExtValue>, k: nat, saved: Frame, m: nat)
    requires Contained(t, p, k)
    requires RunsInside(Lifted(t, p, d, k, saved), p + |d|, k + 1, m)
    ensures Corresponds(Run(t, m), Run(Lifted(t, p, d, k, saved), m), p, d, k, saved)
    decreases m
  {
    hide Step;
    if m > 0 {
      StepLifted(t, p, d, k, saved);
      if Step(t).Running? {
        RunLifted(Step(t).s, p, d, k, saved, m - 1);
      }
    }
  }

  /** `tail` stands before a tail call; `call` is the same state with other code, which
      has a call and a return there instead. */
  predicate CallSites(tail: State, call: State, n: nat) {
    && AtInstruction(tail, TailCall(n))
    && call == tail.(code := call.code)
    && AtInstruction(call, CallClosure(n))
    && AtInstruction(call.(ip := call.ip + 1), Return)
  }

  /** The slots of the caller's frame that the call leaves below the callee. */
  function Leftover(s: State, n: nat): seq<ExtValue>
    requires s.stackBase + n + 1 <= |s.stack|
  {
    s.stack[s.stackBase..|s.stack| - n - 1]
  }

  /** The frame that the call saves: it continues at the return. */
  function SavedFrame(call: State): Frame {
    Frame(call.code, call.ip + 1, call.stackBase, call.upvalues)
  }

  /** Right after the call the two runs correspond. */
  lemma CallsEnterAlike(tail: State, call: State, n: nat)
    requires CallSites(tail, call, n) && KeepsAbove(call, call.stackBase)
    requires |call.callStack| < MAX_CALL_DEPTH
    ensures Corresponds(Step(tail), Step(call), tail.stackBase, Leftover(tail, n), |tail.callStack|, SavedFrame(call))
    ensures Step(call).Running? ==> Step(call).s.stackBase == tail.stackBase + |Leftover(tail, n)|
  {
    hide AddOp, IntOp, DivOp, NegOp, EqOp, BranchOp, StoreOp, MakeClosureOp, SetUpvalueOp, LoadOp, GetUpvalueOp, ReturnOp, Jumped;
    var q := CalleePos(tail.stack, n);
    if tail.stack[q].Closure? {
      var p, d := tail.stackBase, Leftover(tail, n);
      var stack := WithoutSlot(tail.stack, q);
      var t := Step(tail).s;
      assert t.stack == stack[..p] + stack[|stack| - n..];
      assert stack[..q] == stack[..p] + d;
      assert stack == stack[..q] + stack[q..];
      assert LiftedStack(t.stack, p, d) == stack;
      assert Raised(t.callStack[|t.callStack|..], |d|) == [];
    }
  }

  /** Returning from the callee: one return after a tail call, two after a call. */
  predicate ReturnsAlike(o: Outcome, oc: Outcome) {
    match o
    case Running(t) => oc == Running(t.(framesCreated := t.framesCreated + 1))
    case Finished(v, _) => oc.Finished? && oc.value == v
    case _ => false
  }

  lemma {:induction false} CalleeReturns(t: State, p: nat, d: seq<ExtValue>, k: nat, saved: Frame)
    requires Contained(t, p, k) && AtInstruction(t, Return) && |t.callStack| == k && p < |t.stack|
    requires saved.stackBase == p && saved.ip < |saved.code| && saved.code[saved.ip] == Return
    requires k > 0 ==> t.callStack[k - 1].stackBase <= p
    ensures ReturnsAlike(Step(t), Run(Lifted(t, p, d, k, saved), 2))
  {
    hide Execute, Run, Step, AtInstruction, Lifted, Contained;
    var c := Lifted(t, p, d, k, saved);
    var v := t.stack[|t.stack| - 1];
    var c1 := State(t.stack[..p] + [v], t.callStack, saved.ip, saved.code, saved.upvalues, p, t.framesCreated + 1);
    StepOfReturn(t);
    CalledReturns(t, p, d, k, saved);
    assert c1.stack[..|c1.stack| - 1] == t.stack[..p];
    if k > 0 {
      var f := t.callStack[k - 1];
      assert Truncate(t.stack[..p], f.stackBase) == Truncate(t.stack[..|t.stack| - 1], f.stackBase);
    }
    StepOfReturn(c1);
    RunTwo(c);
  }

  /** The return from the called version, back to the return behind the call. */
  lemma {:induction false} CalledReturns(t: State, p: nat, d: seq<ExtValue>, k: nat, saved: Frame)
    requires Contained(t, p, k) && AtInstruction(t, Return) && |t.callStack| == k && p < |t.stack|
    requires saved.stackBase == p && saved.ip < |saved.code| && saved.code[saved.ip] == Return
    ensures var v := t.stack[|t.stack| - 1];
            var c1 := State(t.stack[..p] + [v], t.callStack, saved.ip, saved.code, saved.upvalues, p, t.framesCreated + 1);
            Step(Lifted(t, p, d, k, saved)) == Running(c1) && AtInstruction(c1, Return)
  {
    hide Execute, Step;
    var c := Lifted(t, p, d, k, saved);
    StepOfReturn(c);
    assert Raised(t.callStack[k..], |d|) == [];
    assert c.callStack[..k] == t.callStack && c.callStack[k] == saved;
    assert c.stack[|c.stack| - 1] == t.stack[|t.stack| - 1];
    assert Truncate(c.stack[..|c.stack| - 1], p) == t.stack[..p];
  }

  lemma StepOfReturn(s: State)
    ensures AtInstruction(s, Return) ==> Step(s) == ReturnOp(s.(ip := s.ip + 1))
  {
  }

  lemma RunTwo(c: State)
    requires Step(c).Running?
    ensures Run(c, 2) == Step(Step(c).s)
  {
    var c1 := Step(c).s;
    assert Run(c, 2) == Run(c1, 1);
    if Step(c1).Running? {
      assert Run(c1, 1) == Run(Step(c1).s, 0);
    }
  }

  /** The call is sound to replace: its frames' bases are in order, it is below the depth
      limit, and for `m` turns the called run keeps to its own part. */
  predicate Replaceable(tail: State, call: State, n: nat, m: nat) {
    && CallSites(tail, call, n) && KeepsAbove(call, call.stackBase)
    && |call.callStack| < MAX_CALL_DEPTH
    && (call.callStack != [] ==> call.callStack[|call.callStack| - 1].stackBase <= call.stackBase)
    && (Step(call).Running? ==> RunsInside(Step(call).s, Step(call).s.stackBase, |call.callStack| + 1, m))
  }

  /** After `m` turns of the callee it stands before its own return. */
  predicate ReturnsAfter(call: State, m: nat) {
    match Run(call, 1 + m)
    case Running(c) =>
      && AtInstruction(c, Return) && |c.callStack| == |call.callStack| + 1
      && Step(call).Running? && Step(call).s.stackBase < |c.stack|
    case _ => false
  }

  /** As long as the called run keeps to its own part, the runs after a tail call and
      after a call end alike or go on in corresponding states. */
  lemma {:induction false} TailCallFollowsCall(tail: State, call: State, n: nat, m: nat)
    requires Replaceable(tail, call, n, m)
    ensures Corresponds(Run(tail, 1 + m), Run(call, 1 + m),
                        tail.stackBase, Leftover(tail, n), |tail.callStack|, SavedFrame(call))
  {
    hide Step;
    CallsEnterAlike(tail, call, n);
    RunUnfolds(tail, m);
    RunUnfolds(call, m);
    if Step(tail).Running? {
      RunLifted(Step(tail).s, tail.stackBase, Leftover(tail, n), |tail.callStack|, SavedFrame(call), m);
    }
  }

  /** When the callee returns, both runs arrive in the same state, or finish with the same
      value: a tail call means what a call followed by a return means. */
  lemma {:induction false} TailCallMeansCallAndReturn(tail: State, call: State, n: nat, m: nat)
    requires Replaceable(tail, call, n, m) && ReturnsAfter(call, m)
    ensures ReturnsAlike(Run(tail, 1 + m + 1), Run(call, 1 + m + 2))
  {
    hide Step;
    var p, d, k, saved := tail.stackBase, Leftover(tail, n), |tail.callStack|, SavedFrame(call);
    CallsEnterAlike(tail, call, n);
    TailCallFollowsCall(tail, call, n, m);
    OuterFramesKept(tail, call, n, m);
    var t, c := Run(tail, 1 + m).s, Run(call, 1 + m).s;
    assert c == Lifted(t, p, d, k, saved);
    OuterBase(t, p, d, k, saved, call.callStack);
    CalleeReturns(t, p, d, k, saved);
    RunSplits(tail, 1 + m, 1);
    RunSplits(call, 1 + m, 2);
    RunUnfolds(t, 0);
  }

  lemma OuterBase(t: State, p: nat, d: seq<ExtValue>, k: nat, saved: Frame, outer: seq<Frame>)
    requires Contained(t, p, k) && |outer| == k && |Lifted(t, p, d, k, saved).callStack| == k + 1
    requires Lifted(t, p, d, k, saved).callStack[..k] == outer
    ensures t.callStack == outer
  {
    var c := Lifted(t, p, d, k, saved);
    assert c.callStack[..k] == t.callStack[..k];
  }

  lemma {:induction false} RunUnfolds(s: State, m: nat)
    ensures Run(s, 1 + m) == match Step(s) case Running(s') => Run(s', m) case other => other
  {
  }

  // ---- The frames below the callee ----

  /** The called run leaves the frames below its own alone. */
  lemma {:induction false} FramesKept(c: State, floor: nat, depth: nat, m: nat)
    requires depth <= |c.callStack| && RunsInside(c, floor, depth, m)
    ensures Run(c, m).Running? ==>
              depth <= |Run(c, m).s.callStack| && Run(c, m).s.callStack[..depth] == c.callStack[..depth]
    decreases m
  {
    hide Step;
    if m > 0 && Step(c).Running? {
      StepFrames(c, floor, depth);
      FramesKept(Step(c).s, floor, depth, m - 1);
    }
  }

  lemma {:induction false} StepFrames(c: State, floor: nat, depth: nat)
    requires depth <= |c.callStack| && StepsInside(c, floor, depth) && Step(c).Running?
    ensures depth <= |Step(c).s.callStack| && Step(c).s.callStack[..depth] == c.callStack[..depth]
  {
    hide Execute, CallOp, ReturnOp;
    var instr, s := c.code[c.ip], c.(ip := c.ip + 1);
    if instr.CallClosure? {
      CallFrames(s, instr.nArgs);
    } else if instr.Return? {
      ReturnFrames(s);
    } else {
      PlainFrames(instr, s);
    }
  }

  lemma CallFrames(s: State, n: nat)
    ensures Execute(CallClosure(n), s) == CallOp(s, n)
    ensures CallOp(s, n).Running? ==> CallOp(s, n).s.callStack[..|s.callStack|] == s.callStack
    ensures CallOp(s, n).Running? ==> |CallOp(s, n).s.callStack| == |s.callStack| + 1
  {
  }

  lemma ReturnFrames(s: State)
    ensures Execute(Return, s) == ReturnOp(s)
    ensures ReturnOp(s).Running? ==> s.callStack != [] && ReturnOp(s).s.callStack == s.callStack[..|s.callStack| - 1]
  {
  }

  /** Only calls and returns change the frames, the base and the frame counter. */
  lemma PlainFrames(instr: Instruction, s: State)
    requires !instr.CallClosure? && !instr.Return?
    ensures match Execute(instr, s)
            case Running(s') =>
              s'.callStack == s.callStack && s'.stackBase == s.stackBase && s'.framesCreated == s.framesCreated
            case _ => true
  {
  }

  lemma {:induction false} OuterFramesKept(tail: State, call: State, n: nat, m: nat)
    requires CallSites(tail, call, n) && Step(call).Running?
    requires RunsInside(Step(call).s, Step(call).s.stackBase, |call.callStack| + 1, m)
    ensures match Run(call, 1 + m)
            case Running(c) => |call.callStack| < |c.callStack| && c.callStack[..|call.callStack|] == call.callStack
            case _ => true
  {
    hide Run, RunsInside, Execute, CallOp;
    var c0, k := Step(call).s, |call.callStack|;
    CallFrames(call.(ip := call.ip + 1), n);
    FramesKept(c0, c0.stackBase, k + 1, m);
    RunUnfolds(call, m);
    match Run(call, 1 + m) {
      case Running(c) =>
        assert c.callStack[..k] == c.callStack[..k + 1][..k] == c0.callStack[..k + 1][..k] == c0.callStack[..k];
      case _ =>
    }
  }

  // ---- Depth ----

  /** In the next `m` turns every call is a tail call and nothing returns. */
  predicate OnlyTailCalls(s: State, m: nat)
    decreases m
  {
    m > 0 && s.ip < |s.code| ==>
      && !s.code[s.ip].CallClosure? && !s.code[s.ip].Return?
      && (Step(s).Running? ==> OnlyTailCalls(Step(s).s, m - 1))
  }

  /** `t` has the frames, the base and the frame count of `s`. */
  predicate SameFrames(s: State, t: State) {
    t.callStack == s.callStack && t.stackBase == s.stackBase && t.framesCreated == s.framesCreated
  }

  lemma PlainStepFrames(s: State)
    requires s.ip < |s.code| && !s.code[s.ip].CallClosure? && !s.code[s.ip].Return? && Step(s).Running?
    ensures SameFrames(s, Step(s).s)
  {
    hide Execute;
    PlainFrames(s.code[s.ip], s.(ip := s.ip + 1));
  }

  /** However many tail calls are chained, no frame is added. */
  lemma {:induction false} TailCallsAddNoFrame(s: State, m: nat)
    requires OnlyTailCalls(s, m)
    ensures match Run(s, m)
            case Running(s') => SameFrames(s, s')
            case _ => true
    decreases m
  {
    hide Execute;
    if m > 0 {
      RunUnfolds(s, m - 1);
      if Step(s).Running? {
        assert s.ip < |s.code|;
        PlainStepFrames(s);
        TailCallsAddNoFrame(Step(s).s, m - 1);
      }
    }
  }

  /** The depth limit is the one thing that a call meets and a tail call does not. */
  lemma OnlyCallsMeetTheDepthLimit(tail: State, call: State, n: nat)
    requires CallSites(tail, call, n)
    ensures Step(call) == Failed(StackOverflow) <==> |call.callStack| >= MAX_CALL_DEPTH
    ensures Step(tail) != Failed(StackOverflow)
  {
  }

  // ---- After the return ----

  function Bumped(o: Outcome, j: nat): Outcome {
    match o
    case Running(s) => Running(s.(framesCreated := s.framesCreated + j))
    case Finished(v, s) => Finished(v, s.(framesCreated := s.framesCreated + j))
    case other => other
  }

  /** Nothing depends on the frame counter. */
  lemma {:induction false} CounterIsOnlyCounted(s: State, j: nat, m: nat)
    ensures Run(s.(framesCreated := s.framesCreated + j), m) == Bumped(Run(s, m), j)
    decreases m
  {
    hide Step;
    if m > 0 {
      StepCounter(s, j);
      if Step(s).Running? {
        CounterIsOnlyCounted(Step(s).s, j, m - 1);
      }
    }
  }

  lemma StepCounter(s: State, j: nat)
    ensures Step(s.(framesCreated := s.framesCreated + j)) == Bumped(Step(s), j)
  {
    hide Execute;
    if s.ip < |s.code| {
      ExecuteCounter(s.code[s.ip], s.(ip := s.ip + 1), j);
    }
  }

  lemma ExecuteCounter(instr: Instruction, s: State, j: nat)
    ensures Execute(instr, s.(framesCreated := s.framesCreated + j)) == Bumped(Execute(instr, s), j)
  {
    if instr.Add? || instr.Sub? || instr.Mul? {
      ArithmeticCounter(instr, s, j);
    } else if instr.Div? || instr.Eq? || instr.Lt? {
      ComparisonCounter(instr, s, j);
    } else if instr.CallClosure? || instr.TailCall? || instr.Return? {
      ControlCounter(instr, s, j);
    } else {
      OtherCounter(instr, s, j);
    }
  }

  lemma ArithmeticCounter(instr: Instruction, s: State, j: nat)
    requires instr.Add? || instr.Sub? || instr.Mul?
    ensures Execute(instr, s.(framesCreated := s.framesCreated + j)) == Bumped(Execute(instr, s), j)
  {
  }

  lemma ComparisonCounter(instr: Instruction, s: State, j: nat)
    requires instr.Div? || instr.Eq? || instr.Lt?
    ensures Execute(instr, s.(framesCreated := s.framesCreated + j)) == Bumped(Execute(instr, s), j)
  {
  }

  lemma ControlCounter(instr: Instruction, s: State, j: nat)
    requires instr.CallClosure? || instr.TailCall? || instr.Return?
    ensures Execute(instr, s.(framesCreated := s.framesCreated + j)) == Bumped(Execute(instr, s), j)
  {
  }

  lemma OtherCounter(instr: Instruction, s: State, j: nat)
    requires !instr.Add? && !instr.Sub? && !instr.Mul? && !instr.Div? && !instr.Eq? && !instr.Lt?
    requires !instr.CallClosure? && !instr.TailCall? && !instr.Return?
    ensures Execute(instr, s.(framesCreated := s.framesCreated + j)) == Bumped(Execute(instr, s), j)
  {
  }

  /** So a program may use either form: from a callee that returns on, the two runs show
      the same states but for the counter, hence the same final result. */
  lemma {:induction false} SameProgramResult(tail: State, call: State, n: nat, m: nat, rest: nat)
    requires Replaceable(tail, call, n, m) && ReturnsAfter(call, m)
    requires Run(tail, 1 + m + 1).Running?
    ensures Run(call, 1 + m + 2 + rest) == Bumped(Run(tail, 1 + m + 1 + rest), 1)
  {
    hide Step;
    TailCallMeansCallAndReturn(tail, call, n, m);
    RunSplits(tail, 1 + m + 1, rest);
    RunSplits(call, 1 + m + 2, rest);
    CounterIsOnlyCounted(Run(tail, 1 + m + 1).s, 1, rest);
  }

  // ---- Where the two forms differ ----

  /** A callee that pops a slot of its caller: after a call the slot is there, after a
      tail call it is gone. */
  lemma {:induction false} PoppingBelowTheBaseShowsTheDifference()
    ensures exists tail, call ::
      && CallSites(tail, call, 0) && KeepsAbove(call, call.stackBase) && |call.callStack| < MAX_CALL_DEPTH
      && Run(tail, 2) == Failed(StackUnderflow)
      && Run(call, 4).Finished? && Run(call, 4).value == Base(Int(1))
  {
    var tail, call := PopperTailCalled(), PopperCalled();
    PopperRunTailCalled();
    PopperRunCalled();
    assert CallSites(tail, call, 0);
  }

  const POPPER: seq<Instruction> := [Pop, Push(Int(1)), Halt]

  function PopperTailCalled(): State {
    State([Base(Int(7)), Closure(POPPER, [])], [], 0, [TailCall(0)], [], 0, 0)
  }

  function PopperCalled(): State {
    PopperTailCalled().(code := [CallClosure(0), Return])
  }

  lemma {:induction false} PopperRunTailCalled()
    ensures Run(PopperTailCalled(), 2) == Failed(StackUnderflow)
  {
    var t1 := State([], [], 0, POPPER, [], 0, 0);
    assert Step(PopperTailCalled()) == Running(t1);
    assert Step(t1) == Failed(StackUnderflow);
    hide Step;
    RunUnfolds(PopperTailCalled(), 1);
    RunUnfolds(t1, 0);
  }

  /** The state before turn `i` of the called run. */
  function PopperState(i: nat): State {
    var f := Frame([CallClosure(0), Return], 1, 0, []);
    if i == 0 then PopperCalled()
    else if i == 1 then State([Base(Int(7))], [f], 0, POPPER, [], 1, 1)
    else if i == 2 then State([], [f], 1, POPPER, [], 1, 1)
    else State([Base(Int(1))], [f], 2, POPPER, [], 1, 1)
  }

  lemma PopperStep(i: nat)
    requires i < 3
    ensures Step(PopperState(i)) == Running(PopperState(i + 1))
  {
    assert WithoutSlot(PopperCalled().stack, 1) == [Base(Int(7))];
  }

  lemma {:induction false} PopperRunCalled()
    ensures Run(PopperCalled(), 4).Finished? && Run(PopperCalled(), 4).value == Base(Int(1))
  {
    assert Step(PopperState(3)).Finished? && Step(PopperState(3)).value == Base(Int(1));
    hide Step;
    PopperStep(0);
    PopperStep(1);
    PopperStep(2);
    RunUnfolds(PopperState(0), 3);
    RunUnfolds(PopperState(1), 2);
    RunUnfolds(PopperState(2), 1);
    RunUnfolds(PopperState(3), 0);
  }
}
