/** The interpreter loop over the shared stack and locals (src/vm/mod.rs:784-1379), step by step: every
    method does what the relation of module Execution says. */
module Interpreter {
  import opened Wrappers
  import opened Slots
  import opened Bytecode
  import opened Frames
  import opened Execution

  /** What a fallible instruction left agrees with the function: the state, or the error. */
  ghost predicate Does(err: Option<VMError>, after: Machine, r: Result<Machine, VMError>) {
    match r
    case Ok(m) => err == None && after == m
    case Err(e) => err == Some(e)
  }

  // ----- single instructions

  /** A load pushes the value of the local: an int or float cut to 32 bits, both halves of a long or
      double, or a reference. A local out of range, or a reference that is none, is an error. */
  method Load(ctx: ThreadContext, code: byte, index: nat) returns (err: Option<VMError>)
    requires IsLoad(code) && index < 0x1_0000
    modifies ctx`stack
    ensures Does(err, ctx.State(), Loaded(old(ctx.State()), code, index))
  {
    hide ToSlots, ToI64, AsI32, FromI32;
    err := None;
    if IsWide64(code) {
      var l := ctx.LLoad(index);
      match l
      case Ok(v) => ctx.PushValue(Long(v));
      case Err(e) => err := Some(e);
    } else if code == 0x19 {
      var a := ctx.ALoad(index);
      match a
      case Ok(p) => ctx.PushSlot(FromObject(p));
      case Err(e) => err := Some(e);
    } else {
      var i := ctx.ILoad(index);
      match i
      case Ok(v) => ctx.PushSlot(FromI32(v));
      case Err(e) => err := Some(e);
    }
  }

  /** The value that a store or a return takes, with guarded pops. */
  method TakeOne(ctx: ThreadContext, code: byte) returns (r: Result<JVMValue, VMError>)
    requires IsStore(code) || 0xac <= code < RETURN
    modifies ctx`stack
    ensures match TakeValue(old(ctx.State()), code)
            case Ok((v, m)) => r == Ok(v) && ctx.State() == m
            case Err(e) => r == Err(e)
  {
    hide ToI64, AsI32;
    if KindOf(code) == 0 {
      var i :- ctx.IPop();
      r := Ok(Int(i));
    } else if KindOf(code) == 1 {
      var l :- ctx.LPop();
      r := Ok(Long(l));
    } else if KindOf(code) == 2 {
      var i :- ctx.IPop();
      r := Ok(Float(i));
    } else if KindOf(code) == 3 {
      var l :- ctx.LPop();
      r := Ok(Double(l));
    } else {
      var p :- ctx.APop();
      r := Ok(Object(p));
    }
  }

  /** A store takes one operand, or two, and puts its value into the local, and into no other; it fails when
      there are too few, the operand is no reference, or the local is out of range. */
  method Store(ctx: ThreadContext, code: byte, index: nat) returns (err: Option<VMError>)
    requires IsStore(code)
    modifies ctx`stack, ctx`locals
    ensures Does(err, ctx.State(), Stored(old(ctx.State()), code, index))
  {
    hide ToSlots, TakeValue;
    var v := TakeOne(ctx, code);
    if v.Err? {
      return Some(v.error);
    }
    ghost var m := ctx.State();
    var ok := ctx.VStore(index, v.value);
    PutExact(m, index, v.value, ctx.locals, ok);
    err := if ok then None else Some(InvalidLocal(index));
  }

  lemma {:induction false} PutExact(m: Machine, index: nat, v: JVMValue, locals: seq<JVMSlot>, ok: bool)
    requires ok <==> index + m.current.localsStart + |ToSlots(v)| <= |m.locals|
    requires |locals| == |m.locals|
    requires var at := index + m.current.localsStart;
             forall k :: 0 <= k < |locals| ==>
               locals[k] == if ok && at <= k < at + |ToSlots(v)| then ToSlots(v)[k - at] else m.locals[k]
    ensures PutLocal(m, index, v) == if ok then Some(m.(locals := locals)) else None
  {
    hide ToSlots;
    if ok {
      assert PutLocal(m, index, v).value.locals == locals;
    }
  }

  method Increment(ctx: ThreadContext, index: nat, amount: int) returns (err: Option<VMError>)
    modifies ctx`locals
    ensures Does(err, ctx.State(), Incremented(old(ctx.State()), index, amount))
  {
    hide ToSlots, AsI32, Wrapped;
    var v := ctx.ILoad(index);
    if v.Err? {
      return Some(v.error);
    }
    ghost var m := ctx.State();
    var sum := Int(Wrapped(v.value + amount));
    var ok := ctx.VStore(index, sum);
    PutExact(m, index, sum, ctx.locals, ok);
    err := if ok then None else Some(InvalidLocal(index));
  }

  /** A conditional branch compares its operands. */
  method Compare(ctx: ThreadContext, code: byte) returns (taken: bool, err: Option<VMError>)
    requires IsConditional(code)
    modifies ctx`stack
    ensures match Compared(old(ctx.State()), code)
            case Ok((b, m)) => err == None && taken == b && ctx.State() == m
            case Err(e) => err == Some(e) && !taken
  {
    hide Holds, AsI32;
    taken, err := false, None;
    var second := ctx.IPop();
    if second.Err? {
      err := Some(second.error);
      return;
    }
    if IsUnary(code) {
      taken := Holds(code, second.value, 0);
      return;
    }
    var first := ctx.IPop();
    if first.Err? {
      err := Some(first.error);
      return;
    }
    taken := Holds(code, first.value, second.value);
  }

  /** Any instruction that is not modelled: some guarded pops, and then pushes or an error. */
  method Compute(ctx: ThreadContext) returns (err: Option<VMError>)
    modifies ctx`stack
    ensures err.None? ==> Computes(old(ctx.State()), ctx.State())
  {
    var pops: int := *;
    ghost var k: nat := 0;
    while pops > 0
      invariant k == 0 || k <= old(ctx.State()).Operands()
      invariant ctx.stack == old(ctx.stack)[..|old(ctx.stack)| - k]
    {
      pops := pops - 1;
      var s := ctx.PopSlot();
      if s.None? {
        return Some(StackUnderflow);
      }
      k := k + 1;
    }
    var results: seq<JVMSlot> := *;
    var fails: bool := *;
    if fails {
      return Some(OtherError);
    }
    for i := 0 to |results|
      invariant old(ctx.stack)[..|old(ctx.stack)| - k] <= ctx.stack
    {
      ctx.PushSlot(results[i]);
    }
    err := None;
    assert PopsAndPushes(old(ctx.State()), k, ctx.State());
  }

  /** A return instruction. */
  method TakeResult(ctx: ThreadContext, code: byte) returns (out: Outcome)
    requires 0xac <= code <= RETURN
    modifies ctx`stack
    ensures match ReturnOf(old(ctx.State()), code)
            case Ok((v, m)) => out == Returned(v) && ctx.State() == m
            case Err(e) => out == Failed(e)
  {
    hide TakeValue;
    if code == RETURN {
      return Returned(None);
    }
    var v := TakeOne(ctx, code);
    out := match v case Ok(value) => Returned(Some(value)) case Err(e) => Failed(e);
  }

  /** An instruction after which control goes to the next one. */
  method Straight(ctx: ThreadContext, op: OpCode) returns (err: Option<VMError>)
    requires HasArgs(op) && !IsCall(op) && !IsReturn(op) && op.code != GOTO && !IsConditional(op.code)
    modifies ctx`stack, ctx`locals
    ensures err.None? ==> Executes(op, old(ctx.State()), ctx.State())
    ensures err.Some? ==> FailsWith(op, old(ctx.State()), err.value)
  {
    hide Loaded, Stored, Incremented, Computes, Compared, FromI32;
    err := None;
    if IsLoad(op.code) {
      err := Load(ctx, op.code, op.args[0]);
    } else if IsStore(op.code) {
      err := Store(ctx, op.code, op.args[0]);
    } else if op.code == IINC {
      err := Increment(ctx, op.args[0], op.args[1]);
    } else if op.code == BIPUSH {
      ctx.PushSlot(FromI32(op.args[0]));
    } else if op.code == DUP {
      ctx.Dup();
    } else if op.code == DUP2 {
      ctx.Dup2();
    } else {
      err := Compute(ctx);
    }
  }

  // ----- calls and the loop

  /** A call: it is refused as `Decide` says, or its body runs in the frame of `Entered`; when the body returns
      the context is that of `Left`. The caller's frame record and locals are restored; if every call below
      fits, just the arguments are off its operands, and nothing but the result is added. */
  method Invoke(ctx: ThreadContext, class_: nat, op: OpCode, linker: Linker, fuel: nat)
      returns (out: Outcome, ghost call: Option<Call>)
    requires IsCall(op) && HasArgs(op)
    modifies ctx
    ensures match call
            case None => exists moment: nat :: RefusedAt(linker, class_, op, old(ctx.stack), moment, out)
            case Some(c) =>
              && CallOK(linker, class_, op, old(ctx.State()), c, fuel) && out == c.body.out
              && (out.Returned? ==> ctx.State() == Left(c.body.end, out.value))
    ensures out.Returned? ==>
              && ctx.current == old(ctx.current) && ctx.prevFrames == old(ctx.prevFrames)
              && ctx.locals == old(ctx.locals)
    ensures call.Some? && RunFits(call.value.body) && out.Returned? ==>
              && call.value.taken <= |old(ctx.stack)|
              && ctx.State() == old(ctx.State())
                   .(stack := old(ctx.stack)[..|old(ctx.stack)| - call.value.taken] + Pushed(out.value))
    decreases fuel, 2
  {
    hide ToSlots, Left, RunFits, Runs;
    var code, ref := op.code, op.args[0];
    ghost var m := ctx.State();
    var moment: nat :| true;
    call := None;
    var resolved := linker.resolve(class_, ref);
    if resolved.None? {
      assert RefusedAt(linker, class_, op, m.stack, moment, Failed(OtherError));
      return Failed(OtherError), None;
    }
    var n := Taken(resolved.value, code);
    var ok := ctx.PopCreateArgs(n);
    if !ok {
      assert RefusedAt(linker, class_, op, m.stack, moment, Failed(StackUnderflow));
      return Failed(StackUnderflow), None;
    }
    var callee := resolved.value;
    if code == INVOKEVIRTUAL {
      assert ctx.locals[|ctx.locals| - n] == m.stack[|m.stack| - n];
      var receiver := Target(ctx.locals[|ctx.locals| - n]);
      if receiver.None? {
        assert RefusedAt(linker, class_, op, m.stack, moment, Failed(NotAnObject));
        return Failed(NotAnObject), None;
      }
      match linker.dispatch(callee, receiver.value, moment) {
        case NotAnInstance =>
          assert RefusedAt(linker, class_, op, m.stack, moment, Failed(NotAnObject));
          return Failed(NotAnObject), None;
        case NoSuchMethod =>
          assert RefusedAt(linker, class_, op, m.stack, moment, Panicked);
          return Panicked, None;
        case Found(found) => callee := found;
      }
    }
    if callee.maxLocals < n {
      assert RefusedAt(linker, class_, op, m.stack, moment, Panicked);
      return Panicked, None;
    }
    assert Decide(linker, class_, code, ref, m.stack, moment) == Proceeds(callee, n);
    ghost var entered, body;
    out, entered, body := RunCallee(ctx, m, callee, n, ref, linker, fuel);
    call := Some(Call(moment, callee, m.Operands(), n, entered, body));
    assert CallOK(linker, class_, op, m, call.value, fuel);
    if out.Returned? {
      CallRestoresFrame(linker, class_, op, m, call.value, fuel);
      if RunFits(body) {
        CallRestores(linker, class_, op, m, call.value, fuel);
      }
    }
  }

  /** The rest of a call from state `m`, whose arguments are the last locals: frame, body, and result. */
  method RunCallee(ctx: ThreadContext, ghost m: Machine, callee: Code, n: nat, ref: nat, linker: Linker, fuel: nat)
      returns (out: Outcome, ghost entered: Machine, ghost body: Run)
    requires n <= |m.stack| && n <= callee.maxLocals
    requires ctx.State() == Machine(m.stack[..|m.stack| - n], m.locals + m.stack[|m.stack| - n..], m.prevFrames,
                                    m.current)
    modifies ctx
    ensures entered == Entered(m, callee, n, ref)
    ensures Runs(linker, callee, entered, body, fuel) && out == body.out
    ensures out.Returned? ==> ctx.State() == Left(body.end, out.value)
    decreases fuel, 1
  {
    hide ToSlots, Runs;
    ctx.FinishPushFrame(ref, callee.maxLocals, callee.maxStack, n);
    entered := ctx.State();
    out, body := RunCode(ctx, callee, linker, fuel);
    if out.Returned? {
      ctx.PopFrame();
      if out.value.Some? {
        ctx.PushValue(out.value.value);
      }
    }
  }

  /** The interpreter loop is a run of the code, from the state in which it is called. */
  method RunCode(ctx: ThreadContext, code: Code, linker: Linker, fuel: nat) returns (out: Outcome, ghost run: Run)
    modifies ctx
    ensures Runs(linker, code, old(ctx.State()), run, fuel) && out == run.out
    ensures out.Returned? ==> ctx.State() == run.end
    decreases fuel, 0
  {
    hide NextOp, Table, WideTable, ShortForm, NodeOK, Executes, FailsWith, CallOK, Decide, Compared, ReturnOf, Left;
    ghost var m := ctx.State();
    ghost var nodes: seq<Node> := [];
    var pc, lastPc, steps := 0, 0, fuel;
    while steps > 0
      invariant 0 <= lastPc == pc <= MAX_CODE
      invariant |nodes| + steps == fuel && Steps(linker, code, m, nodes, fuel)
      invariant pc == LastPc(nodes) && ctx.State() == LastState(m, nodes)
      decreases steps
    {
      steps := steps - 1;
      ghost var before := ctx.State();
      NextOpAdvances(code.bytes, pc);
      NextOpSize(code.bytes, pc);
      var (next, end) := NextOp(code.bytes, pc);
      if next.None? {
        return Returned(None), Run(nodes, None, Returned(None), before);
      }
      pc := Wrap16(end);
      var op := next.value;
      ghost var call: Option<Call> := None;
      if !op.Invalid? {
        DecodedArgs(code.bytes, lastPc);
      }
      if IsCall(op) {
        var called;
        called, call := Invoke(ctx, code.class_, op, linker, steps);
        if !called.Returned? {
          return called, Run(nodes, call, called, before);
        }
      } else if IsReturn(op) {
        out := TakeResult(ctx, op.code);
        return out, Run(nodes, None, out, ctx.State());
      } else {
        var err;
        pc, err := Plain(ctx, op, lastPc, pc);
        if err.Some? {
          return Failed(err.value), Run(nodes, None, Failed(err.value), before);
        }
      }
      ghost var x := Node(lastPc, before, call, pc, ctx.State());
      NodeMade(linker, code, x, steps);
      StepsNext(linker, code, m, nodes, x, fuel);
      nodes := nodes + [x];
      lastPc := pc;
    }
    return OutOfFuel, Run(nodes, None, OutOfFuel, ctx.State());
  }

  lemma {:induction false} NodeMade(linker: Linker, code: Code, x: Node, fuel: nat)
    requires NextOp(code.bytes, x.pc).0.Some?
    requires var (op, end) := (NextOp(code.bytes, x.pc).0.value, NextOp(code.bytes, x.pc).1);
             if IsCall(op) then
               && x.call.Some? && CallOK(linker, code.class_, op, x.before, x.call.value, fuel)
               && x.call.value.body.out.Returned?
               && x.after == Left(x.call.value.body.end, x.call.value.body.out.value) && x.next == Wrap16(end)
             else
               && x.call.None? && !IsReturn(op) && Executes(op, x.before, x.after)
               && x.next == NextPc(op, x.pc, Wrap16(end), x.before)
    ensures NodeOK(linker, code, x, fuel)
  {
    hide NextOp, CallOK, Executes, NextPc;
  }

  /** An instruction that is neither a call nor a return: where control goes next, or the error. */
  method Plain(ctx: ThreadContext, op: OpCode, at: nat, end: nat) returns (pc: nat, err: Option<VMError>)
    requires op.Invalid? || HasArgs(op)
    requires !IsCall(op) && !IsReturn(op) && end <= MAX_CODE
    modifies ctx`stack, ctx`locals
    ensures pc <= MAX_CODE
    ensures err.None? ==> Executes(op, old(ctx.State()), ctx.State()) && pc == NextPc(op, at, end, old(ctx.State()))
    ensures err.Some? ==> FailsWith(op, old(ctx.State()), err.value)
  {
    hide Loaded, Stored, Incremented, Computes, Compared, Duplicated;
    pc, err := end, None;
    if !op.Invalid? {
      if op.code == GOTO {
        pc := BranchTarget(at, op.args[0]);
      } else if IsConditional(op.code) {
        var taken;
        taken, err := Compare(ctx, op.code);
        if taken {
          pc := BranchTarget(at, op.args[0]);
        }
      } else {
        err := Straight(ctx, op);
      }
    }
  }
}
