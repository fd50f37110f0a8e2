/** What the interpreter does, as a relation on states (src/vm/mod.rs:784-1379): the instructions, whole
    runs with the calls that they make, and what runs keep. What an instruction that is not modelled
    computes is left open; it only pops with the guard, and pushes. */
module Execution {
  import opened Wrappers
  import opened Slots
  import opened Bytecode
  import opened Frames

  /** A method that can be run: its class, its body, and the slots of its declared parameters. */
  datatype Code = Code(class_: nat, bytes: seq<byte>, maxStack: nat, maxLocals: nat, argsSize: nat)

  /** What the receiver of a virtual call has in place of the resolved method; arrays have nothing. */
  datatype Receiver = NotAnInstance | NoSuchMethod | Found(callee: Code)

  /** Method resolution by class and constant-pool index, and dispatch on the address of a receiver. The heap
      changes, and addresses are used again, so that dispatch depends on the moment of the call. */
  datatype Linker = Linker(resolve: (nat, int) -> Option<Code>, dispatch: (Code, Ptr, nat) -> Receiver)

  /** How a method, or one instruction of it, ends. */
  datatype Outcome = Returned(value: Option<JVMValue>) | Failed(error: VMError) | Panicked | OutOfFuel

  function Pushed(v: Option<JVMValue>): seq<JVMSlot> {
    if v.Some? then ToSlots(v.value) else []
  }

  const GOTO: byte := 0xa7
  const IFEQ: byte := 0x99
  const IFNE: byte := 0x9a
  const DUP: byte := 0x59
  const DUP2: byte := 0x5c
  const INVOKEVIRTUAL: byte := 0xb6
  const INVOKESPECIAL: byte := 0xb7
  const INVOKESTATIC: byte := 0xb8
  const RETURN: byte := 0xb1

  predicate IsLoad(code: byte) {
    0x15 <= code <= 0x19
  }

  predicate IsStore(code: byte) {
    0x36 <= code <= 0x3a
  }

  predicate IsUnary(code: byte) {
    code == IFEQ || code == IFNE
  }

  predicate IsConditional(code: byte) {
    0x9f <= code <= 0xa4 || IsUnary(code)
  }

  predicate IsCall(op: OpCode) {
    !op.Invalid? && INVOKEVIRTUAL <= op.code <= INVOKESTATIC
  }

  predicate IsReturn(op: OpCode) {
    !op.Invalid? && 0xac <= op.code <= RETURN
  }

  /** The operands that the instruction relies on are there. */
  ghost predicate HasArgs(op: OpCode) {
    && !op.Invalid?
    && (IsLocal(op.code) ==> |op.args| > 0 && 0 <= op.args[0] < 0x1_0000)
    && (op.Wide? ==> IsLocal(op.code) || op.code == IINC)
    && (op.code == IINC ==> |op.args| == 2 && op.args[0] >= 0)
    && (op.code == BIPUSH ==> |op.args| == 1 && -0x80 <= op.args[0] < 0x80)
    && (op.code == GOTO || IsConditional(op.code) ==> |op.args| == 1)
    && (IsCall(op) ==> |op.args| == 1 && op.args[0] >= 0)
  }

  lemma {:induction false} DecodedArgs(bytes: seq<byte>, pc: nat)
    requires pc < |bytes| && NextOp(bytes, pc).0.Some? && !NextOp(bytes, pc).0.value.Invalid?
    ensures HasArgs(NextOp(bytes, pc).0.value)
  {
    hide NextOp, WellFormed, HasArgs, ShortForm, Encode;
    DecodedForm(bytes, pc);
    WellFormedArgs(NextOp(bytes, pc).0.value);
  }

  lemma {:induction false} WellFormedArgs(op: OpCode)
    requires WellFormed(op)
    ensures HasArgs(op)
  {
  }

  // ----- instructions

  function Push(m: Machine, slots: seq<JVMSlot>): Machine {
    m.(stack := m.stack + slots)
  }

  function Pop(m: Machine, n: nat): Machine
    requires n <= |m.stack|
  {
    m.(stack := m.stack[..|m.stack| - n])
  }

  /** The operand below the `k` topmost ones. */
  function Top(m: Machine, k: nat): JVMSlot
    requires k < |m.stack|
  {
    m.stack[|m.stack| - 1 - k]
  }

  function Local(m: Machine, index: nat): Option<JVMSlot> {
    var at := index + m.current.localsStart;
    if at < |m.locals| then Some(m.locals[at]) else None
  }

  function PutLocal(m: Machine, index: nat, v: JVMValue): Option<Machine> {
    var at := index + m.current.localsStart;
    if at + |ToSlots(v)| > |m.locals| then None
    else Some(m.(locals := m.locals[..at] + ToSlots(v) + m.locals[at + |ToSlots(v)|..]))
  }

  /** The value kinds in the order in which loads, stores and returns come: int, long, float, double,
      reference. */
  function KindOf(code: byte): nat {
    if IsLoad(code) then code - 0x15 else if IsStore(code) then code - 0x36 else if code >= 0xac then code - 0xac else 0
  }

  predicate IsWide64(code: byte) {
    KindOf(code) == 1 || KindOf(code) == 3
  }

  /** A load. */
  function Loaded(m: Machine, code: byte, index: nat): Result<Machine, VMError> {
    match Local(m, index)
    case None => Err(InvalidLocal(index))
    case Some(s) =>
      if IsWide64(code) then
        match Local(m, Following(index))
        case None => Err(InvalidLocal(Following(index)))
        case Some(h) => Ok(Push(m, ToSlots(Long(ToI64(s, h)))))
      else if KindOf(code) == 4 then
        match Target(s)
        case None => Err(NotAnObject)
        case Some(p) => Ok(Push(m, [FromObject(p)]))
      else Ok(Push(m, [FromI32(AsI32(s))]))
  }

  /** The value that a store or a return takes from the stack. */
  function TakeValue(m: Machine, code: byte): Result<(JVMValue, Machine), VMError> {
    if m.Operands() < (if IsWide64(code) then 2 else 1) then Err(StackUnderflow)
    else if IsWide64(code) then
      var l := ToI64(Top(m, 1), Top(m, 0));
      Ok((if KindOf(code) == 1 then Long(l) else Double(l), Pop(m, 2)))
    else if KindOf(code) == 4 then
      match Target(Top(m, 0))
      case None => Err(NotAnObject)
      case Some(p) => Ok((Object(p), Pop(m, 1)))
    else
      var i := AsI32(Top(m, 0));
      Ok((if KindOf(code) == 2 then Float(i) else Int(i), Pop(m, 1)))
  }

  function Stored(m: Machine, code: byte, index: nat): Result<Machine, VMError> {
    match TakeValue(m, code)
    case Err(e) => Err(e)
    case Ok((v, m1)) => match PutLocal(m1, index, v) case Some(m2) => Ok(m2) case None => Err(InvalidLocal(index))
  }

  function Wrapped(i: int): i32 {
    Signed32(i % U32_SIZE)
  }

  function Incremented(m: Machine, index: nat, amount: int): Result<Machine, VMError> {
    match Local(m, index)
    case None => Err(InvalidLocal(index))
    case Some(s) =>
      match PutLocal(m, index, Int(Wrapped(AsI32(s) + amount)))
      case Some(m1) => Ok(m1)
      case None => Err(InvalidLocal(index))
  }

  /** The comparison of a conditional branch. */
  predicate Holds(code: byte, v1: int, v2: int) {
    match code
    case 0x9f => v1 == v2
    case 0xa0 => v1 != v2
    case 0xa1 => v1 < v2
    case 0xa2 => v1 >= v2
    case 0xa3 => v1 > v2
    case 0xa4 => v1 <= v2
    case 0x99 => v1 == v2
    case 0x9a => v1 != v2
    case _ => false
  }

  /** Whether a conditional branch is taken, and what it leaves. */
  function Compared(m: Machine, code: byte): Result<(bool, Machine), VMError> {
    if m.Operands() < (if IsUnary(code) then 1 else 2) then Err(StackUnderflow)
    else if IsUnary(code) then Ok((Holds(code, AsI32(Top(m, 0)), 0), Pop(m, 1)))
    else Ok((Holds(code, AsI32(Top(m, 1)), AsI32(Top(m, 0))), Pop(m, 2)))
  }

  function Duplicated(m: Machine, n: nat): Machine {
    var k := if m.Operands() <= 0 then 0 else if m.Operands() < n then m.Operands() else n;
    Push(m, m.stack[|m.stack| - k..])
  }

  /** A return instruction: the value, and what it leaves. */
  function ReturnOf(m: Machine, code: byte): Result<(Option<JVMValue>, Machine), VMError> {
    if code == RETURN then Ok((None, m)) else
      match TakeValue(m, code)
      case Err(e) => Err(e)
      case Ok((v, m1)) => Ok((Some(v), m1))
  }

  /** An instruction that is not modelled took some operands of the frame and pushed others. */
  ghost predicate Computes(m: Machine, after: Machine) {
    && after == m.(stack := after.stack)
    && exists k: nat :: PopsAndPushes(m, k, after)
  }

  ghost predicate PopsAndPushes(m: Machine, k: nat, after: Machine) {
    (k == 0 || k <= m.Operands()) && m.stack[..|m.stack| - k] <= after.stack
  }

  /** An instruction that is neither a call nor a return, and goes well. */
  ghost predicate Executes(op: OpCode, m: Machine, after: Machine) {
    if op.Invalid? then after == m
    else
      HasArgs(op) &&
      if IsLoad(op.code) then Loaded(m, op.code, op.args[0]) == Ok(after)
      else if IsStore(op.code) then Stored(m, op.code, op.args[0]) == Ok(after)
      else if op.code == IINC then Incremented(m, op.args[0], op.args[1]) == Ok(after)
      else if op.code == BIPUSH then after == Push(m, [FromI32(op.args[0])])
      else if op.code == DUP then after == Duplicated(m, 1)
      else if op.code == DUP2 then after == Duplicated(m, 2)
      else if op.code == GOTO then after == m
      else if IsConditional(op.code) then Compared(m, op.code).Ok? && after == Compared(m, op.code).value.1
      else Computes(m, after)
  }

  /** It fails. */
  ghost predicate FailsWith(op: OpCode, m: Machine, e: VMError) {
    if op.Invalid? then false
    else
      HasArgs(op) &&
      if IsLoad(op.code) then Loaded(m, op.code, op.args[0]) == Err(e)
      else if IsStore(op.code) then Stored(m, op.code, op.args[0]) == Err(e)
      else if op.code == IINC then Incremented(m, op.args[0], op.args[1]) == Err(e)
      else if op.code == BIPUSH || op.code == DUP || op.code == DUP2 || op.code == GOTO then false
      else if IsConditional(op.code) then Compared(m, op.code) == Err(e)
      else true
  }

  /** A branch is taken: always, or because its comparison holds of the operands. */
  predicate Branches(op: OpCode, m: Machine) {
    && !op.Invalid? && op.args != []
    && (op.code == GOTO ||
        (IsConditional(op.code) && Compared(m, op.code).Ok? && Compared(m, op.code).value.0))
  }

  /** The program counter has sixteen bits, and wraps. */
  function Wrap16(pc: nat): nat {
    if pc > MAX_CODE then pc - (MAX_CODE + 1) else pc
  }

  /** The address that follows an instruction at `pc` which ends at `end`. */
  function NextPc(op: OpCode, pc: nat, end: nat, m: Machine): nat {
    if Branches(op, m) then BranchTarget(pc, op.args[0]) else end
  }

  // ----- calls

  /** The slots that a call takes: the declared parameters, and the receiver unless it is static. */
  function Taken(declared: Code, code: byte): nat {
    declared.argsSize + if code == INVOKESTATIC then 0 else 1
  }

  datatype Decision = Refused(out: Outcome) | Proceeds(callee: Code, taken: nat)

  /** What a call comes to before its body runs: the method that was resolved, or what the receiver's class
      has in its place at that moment, and how many slots it takes. */
  function Decide(linker: Linker, class_: nat, code: byte, ref: int, stack: seq<JVMSlot>, moment: nat): (d: Decision)
    ensures d.Proceeds? ==> d.taken <= |stack| && d.taken <= d.callee.maxLocals
  {
    match linker.resolve(class_, ref)
    case None => Refused(Failed(OtherError))
    case Some(declared) =>
      var n := Taken(declared, code);
      if n > |stack| then Refused(Failed(StackUnderflow))
      else if code != INVOKEVIRTUAL then Fitting(declared, n)
      else
        match Target(stack[|stack| - n])
        case None => Refused(Failed(NotAnObject))
        case Some(p) =>
          match linker.dispatch(declared, p, moment)
          case NotAnInstance => Refused(Failed(NotAnObject))
          case NoSuchMethod => Refused(Panicked)
          case Found(callee) => Fitting(callee, n)
  }

  function Fitting(callee: Code, n: nat): Decision {
    if callee.maxLocals < n then Refused(Panicked) else Proceeds(callee, n)
  }

  /** The callee's frame: its arguments in its first locals, null in the others, and no operands. */
  function Entered(m: Machine, callee: Code, taken: nat, ref: nat): Machine
    requires taken <= |m.stack| && taken <= callee.maxLocals
  {
    var n := |m.stack| - taken;
    Machine(m.stack[..n], m.locals + m.stack[n..] + Nulls(callee.maxLocals - taken), m.prevFrames + [m.current],
            StackFrame(ref, n, callee.maxStack, |m.locals|))
  }

  /** Back in the caller, with the result. */
  function Left(m: Machine, value: Option<JVMValue>): Machine {
    var n := |m.prevFrames|;
    Machine(Truncated(m.stack, m.current.stackStart) + Pushed(value), Truncated(m.locals, m.current.localsStart),
            if n == 0 then [] else m.prevFrames[..n - 1], if n == 0 then NO_FRAME else m.prevFrames[n - 1])
  }

  // ----- runs

  /** A call that was made: when, how many operands its caller had, the slots it took, and its body's run. */
  datatype Call = Call(moment: nat, callee: Code, operands: int, taken: nat, entered: Machine, body: Run)

  /** One instruction that was completed, with the call that it made. */
  datatype Node = Node(pc: nat, before: Machine, call: Option<Call>, next: nat, after: Machine)

  /** The instructions of one frame, the call that did not return if there was one, and the end. */
  datatype Run = Run(nodes: seq<Node>, last: Option<Call>, out: Outcome, end: Machine)

  function LastPc(nodes: seq<Node>): nat {
    if nodes == [] then 0 else nodes[|nodes| - 1].next
  }

  function LastState(m: Machine, nodes: seq<Node>): Machine {
    if nodes == [] then m else nodes[|nodes| - 1].after
  }

  ghost predicate CallOK(linker: Linker, class_: nat, op: OpCode, m: Machine, c: Call, fuel: nat)
    requires IsCall(op)
    decreases c, 0
  {
    && HasArgs(op)
    && Decide(linker, class_, op.code, op.args[0], m.stack, c.moment) == Proceeds(c.callee, c.taken)
    && c.operands == m.Operands()
    && c.entered == Entered(m, c.callee, c.taken, op.args[0])
    && Runs(linker, c.callee, c.entered, c.body, fuel)
  }

  ghost predicate NodeOK(linker: Linker, code: Code, x: Node, fuel: nat)
    decreases x, 0
  {
    match NextOp(code.bytes, x.pc)
    case (None, _) => false
    case (Some(op), end) =>
      if IsCall(op) then
        && x.call.Some? && CallOK(linker, code.class_, op, x.before, x.call.value, fuel)
        && x.call.value.body.out.Returned?
        && x.after == Left(x.call.value.body.end, x.call.value.body.out.value) && x.next == Wrap16(end)
      else
        && x.call.None? && !IsReturn(op) && Executes(op, x.before, x.after)
        && x.next == NextPc(op, x.pc, Wrap16(end), x.before)
  }

  /** The instructions follow each other, from the first byte of the code on. */
  ghost predicate Steps(linker: Linker, code: Code, m: Machine, nodes: seq<Node>, fuel: nat)
    requires |nodes| <= fuel
    decreases nodes, 0
  {
    nodes == [] ||
    var n := |nodes| - 1;
    && Steps(linker, code, m, nodes[..n], fuel)
    && nodes[n].pc == LastPc(nodes[..n]) && nodes[n].before == LastState(m, nodes[..n])
    && NodeOK(linker, code, nodes[n], fuel - |nodes|)
  }

  ghost predicate RefusedAt(linker: Linker, class_: nat, op: OpCode, stack: seq<JVMSlot>, moment: nat, out: Outcome) {
    HasArgs(op) && IsCall(op) && !out.Returned? &&
    Decide(linker, class_, op.code, op.args[0], stack, moment) == Refused(out)
  }

  /** How a run ends at an instruction: without fuel, past the code, by a return, by a call that is refused
      or does not return, or by a failure. */
  ghost predicate Ends(linker: Linker, code: Code, pc: nat, m: Machine, run: Run, fuel: nat)
    decreases run, 0
  {
    if fuel == 0 then run.last.None? && run.out == OutOfFuel
    else
      match NextOp(code.bytes, pc)
      case (None, _) => run.last.None? && run.out == Returned(None) && run.end == m
      case (Some(op), _) =>
        if IsCall(op) then
          match run.last
          case None => exists moment: nat :: RefusedAt(linker, code.class_, op, m.stack, moment, run.out)
          case Some(c) =>
            CallOK(linker, code.class_, op, m, c, fuel - 1) && run.out == c.body.out && !run.out.Returned?
        else
          run.last.None? &&
          if IsReturn(op) then
            match ReturnOf(m, op.code)
            case Ok((v, end)) => run.out == Returned(v) && run.end == end
            case Err(e) => run.out == Failed(e)
          else run.out.Failed? && FailsWith(op, m, run.out.error)
  }

  /** A run of a method from the state in which it was entered. Each instruction, counted along with the
      calls that enclose it, uses one unit of fuel. */
  ghost predicate Runs(linker: Linker, code: Code, m: Machine, run: Run, fuel: nat)
    decreases run, 1
  {
    && |run.nodes| <= fuel && Steps(linker, code, m, run.nodes, fuel)
    && Ends(linker, code, LastPc(run.nodes), LastState(m, run.nodes), run, fuel - |run.nodes|)
  }

  lemma {:induction false} StepsNext(linker: Linker, code: Code, m: Machine, nodes: seq<Node>, x: Node, fuel: nat)
    requires |nodes| < fuel && Steps(linker, code, m, nodes, fuel)
    requires x.pc == LastPc(nodes) && x.before == LastState(m, nodes)
    requires NodeOK(linker, code, x, fuel - |nodes| - 1)
    ensures Steps(linker, code, m, nodes + [x], fuel)
  {
    hide NodeOK;
    assert (nodes + [x])[..|nodes|] == nodes;
  }

  /** Fuel only cuts runs short: one that ended by itself is a run with any more fuel. */
  lemma {:induction false} MoreFuel(linker: Linker, code: Code, m: Machine, run: Run, fuel: nat, more: nat)
    requires Runs(linker, code, m, run, fuel) && !run.out.OutOfFuel? && fuel <= more
    ensures Runs(linker, code, m, run, more)
    decreases run, 1
  {
    hide NextOp, Steps, HasArgs, Decide, FailsWith, ReturnOf, Entered;
    StepsMoreFuel(linker, code, m, run.nodes, fuel, more);
    var n := |run.nodes|;
    if run.last.Some? {
      var op := NextOp(code.bytes, LastPc(run.nodes)).0.value;
      CallMoreFuel(linker, code.class_, op, LastState(m, run.nodes), run.last.value, fuel - n - 1, more - n - 1);
    }
  }

  lemma {:induction false} StepsMoreFuel(linker: Linker, code: Code, m: Machine, nodes: seq<Node>, fuel: nat, more: nat)
    requires |nodes| <= fuel <= more && Steps(linker, code, m, nodes, fuel)
    ensures Steps(linker, code, m, nodes, more)
    decreases nodes, 0
  {
    hide NodeOK;
    if nodes != [] {
      var n := |nodes| - 1;
      StepsMoreFuel(linker, code, m, nodes[..n], fuel, more);
      NodeMoreFuel(linker, code, nodes[n], fuel - |nodes|, more - |nodes|);
    }
  }

  lemma {:induction false} NodeMoreFuel(linker: Linker, code: Code, x: Node, fuel: nat, more: nat)
    requires NodeOK(linker, code, x, fuel) && fuel <= more
    ensures NodeOK(linker, code, x, more)
    decreases x, 0
  {
    hide NextOp, CallOK, Executes, NextPc, Left;
    var op := NextOp(code.bytes, x.pc).0.value;
    if IsCall(op) {
      CallMoreFuel(linker, code.class_, op, x.before, x.call.value, fuel, more);
    }
  }

  lemma {:induction false} CallMoreFuel(linker: Linker, class_: nat, op: OpCode, m: Machine, c: Call, fuel: nat,
                                        more: nat)
    requires IsCall(op) && CallOK(linker, class_, op, m, c, fuel) && !c.body.out.OutOfFuel? && fuel <= more
    ensures CallOK(linker, class_, op, m, c, more)
    decreases c, 0
  {
    hide Runs;
    MoreFuel(linker, c.callee, c.entered, c.body, fuel, more);
  }

  // ----- where control goes

  /** The numbers that a conditional branch compares: the two top operands, or the top one and zero. */
  function Compares(m: Machine, code: byte): (int, int)
    requires |m.stack| >= if code == 0x99 || code == 0x9a then 1 else 2
  {
    var n := |m.stack|;
    if code == 0x99 || code == 0x9a then (AsI32(m.stack[n - 1]), 0)
    else (AsI32(m.stack[n - 2]), AsI32(m.stack[n - 1]))
  }

  /** Which opcodes branch for smaller, for equal and for greater numbers. */
  predicate BranchesFor(code: byte, v1: int, v2: int) {
    if v1 < v2 then code == 0x9a || code == 0xa0 || code == 0xa1 || code == 0xa4
    else if v1 == v2 then code == 0x99 || code == 0x9f || code == 0xa2 || code == 0xa4
    else code == 0x9a || code == 0xa0 || code == 0xa2 || code == 0xa3
  }

  lemma {:induction false} HoldsExact(code: byte, v1: int, v2: int)
    ensures Holds(code, v1, v2) <==> BranchesFor(code, v1, v2)
  {
  }

  /** The address `at`, cut to sixteen bits. */
  ghost predicate IsCut(pc: nat, at: nat) {
    pc <= 65535 && (pc == at || pc + 0x1_0000 == at)
  }

  /** The address `at + offset`, or the nearest one that sixteen bits can hold. */
  function Clamped(at: nat, offset: int): nat {
    var t := at + offset;
    if t < 0 then 0 else if t < 0x1_0000 then t else 0xFFFF
  }

  /** Where a branch at `x.pc` leads, by the bytes of the code: the two bytes behind the opcode are a signed
      offset. */
  ghost predicate BranchFollows(bytes: seq<byte>, x: Node)
    requires x.pc + 2 < |bytes|
  {
    var code := bytes[x.pc];
    && x.after.locals == x.before.locals
    && (code != 0xa7 ==> |x.before.stack| >= if code == 0x99 || code == 0x9a then 1 else 2)
    && (code == 0xa7 || BranchesFor(code, Compares(x.before, code).0, Compares(x.before, code).1) ==>
          forall offset :: IsSigned(offset, Word(bytes, x.pc + 1), 0x1_0000) ==> x.next == Clamped(x.pc, offset))
    && (code != 0xa7 && !BranchesFor(code, Compares(x.before, code).0, Compares(x.before, code).1) ==>
          IsCut(x.next, x.pc + 3))
  }

  /** For every instruction of every run: its address is zero or what the one before led to, and lies in the
      code; an unconditional branch, or one whose comparison holds of the operands that its frame has, leads
      to its own address plus the offset in its bytes; and any other instruction leads past its own bytes,
      wrapping where the address does not fit sixteen bits. */
  lemma {:induction false} ControlFollows(linker: Linker, code: Code, m: Machine, nodes: seq<Node>, fuel: nat, i: nat)
    requires |nodes| <= fuel && Steps(linker, code, m, nodes, fuel) && i < |nodes|
    ensures nodes[i].pc == (if i == 0 then 0 else nodes[i - 1].next)
    ensures nodes[i].before == (if i == 0 then m else nodes[i - 1].after)
    ensures nodes[i].pc < |code.bytes| && NextOp(code.bytes, nodes[i].pc).0.Some?
    ensures var x := nodes[i];
            var b := code.bytes[x.pc];
            var (op, end) := NextOp(code.bytes, x.pc);
            if (b == 0xa7 || b == 0x99 || b == 0x9a || 0x9f <= b <= 0xa4) && x.pc + 2 < |code.bytes| then
              BranchFollows(code.bytes, x)
            else
              x.pc < end <= |code.bytes| && IsCut(x.next, end)
    ensures nodes[i].pc <= 65535 && nodes[i].next <= 65535
    decreases |nodes|
  {
    hide NextOp, ShortForm, Table, WideTable, CallOK, WellFormed, Encode, BranchFollows, NodeOK;
    var n := |nodes| - 1;
    if i < n {
      ControlFollows(linker, code, m, nodes[..n], fuel, i);
    } else {
      if n > 0 {
        ControlFollows(linker, code, m, nodes[..n], fuel, n - 1);
      }
      NodeFollows(linker, code, nodes[i], fuel - |nodes|);
    }
  }

  lemma {:induction false} NodeFollows(linker: Linker, code: Code, x: Node, fuel: nat)
    requires NodeOK(linker, code, x, fuel) && x.pc <= MAX_CODE
    ensures x.pc < |code.bytes| && NextOp(code.bytes, x.pc).0.Some? && x.next <= MAX_CODE
    ensures var b := code.bytes[x.pc];
            var (op, end) := NextOp(code.bytes, x.pc);
            if (b == 0xa7 || b == 0x99 || b == 0x9a || 0x9f <= b <= 0xa4) && x.pc + 2 < |code.bytes| then
              BranchFollows(code.bytes, x)
            else
              x.pc < end <= |code.bytes| && IsCut(x.next, end)
  {
    hide NextOp, CallOK, Executes, BranchFollows, Left, Compared;
    NextOpAdvances(code.bytes, x.pc);
    NextOpSize(code.bytes, x.pc);
    var b := code.bytes[x.pc];
    var op := NextOp(code.bytes, x.pc).0.value;
    NoBranch(code.bytes, x.pc);
    if b == 0xa7 || b == 0x99 || b == 0x9a || 0x9f <= b <= 0xa4 {
      BranchOperand(code.bytes, x.pc);
      if x.pc + 2 < |code.bytes| {
        TakenOrNot(code.bytes, x, op);
      } else {
        assert !Branches(op, x.before);
      }
    } else {
      assert !Branches(op, x.before);
    }
  }

  /** No other opcode decodes to a branch. */
  lemma {:induction false} NoBranch(bytes: seq<byte>, pc: nat)
    requires pc < |bytes| && NextOp(bytes, pc).0.Some?
    ensures var op := NextOp(bytes, pc).0.value;
            !op.Invalid? && (op.code == GOTO || IsConditional(op.code)) ==> op.Op? && op.code == bytes[pc]
  {
    hide ReadAll;
  }

  lemma {:induction false} TakenOrNot(bytes: seq<byte>, x: Node, op: OpCode)
    requires x.pc + 2 < |bytes| && op.Op? && op.code == bytes[x.pc] && |op.args| == 1
    requires IsSigned(op.args[0], Word(bytes, x.pc + 1), 0x1_0000)
    requires op.code == GOTO || IsConditional(op.code)
    requires Executes(op, x.before, x.after) && x.next == NextPc(op, x.pc, Wrap16(x.pc + 3), x.before)
    requires x.pc <= MAX_CODE
    ensures BranchFollows(bytes, x)
  {
    hide AsI32, Holds, BranchesFor, Word;
    if op.code != GOTO {
      var (v1, v2) := Compares(x.before, op.code);
      HoldsExact(op.code, v1, v2);
      assert Branches(op, x.before) <==> BranchesFor(op.code, v1, v2);
    }
  }

  // ----- isolation

  /** Every call, however deep, takes no more than the operands that its caller has. */
  predicate RunFits(run: Run)
    decreases run, 1
  {
    NodesFit(run.nodes) && (run.last.Some? ==> CallFits(run.last.value))
  }

  predicate NodesFit(nodes: seq<Node>)
    decreases nodes, 0
  {
    nodes == [] ||
    var n := |nodes| - 1;
    NodesFit(nodes[..n]) && NodeFits(nodes[n])
  }

  predicate NodeFits(x: Node)
    decreases x, 0
  {
    x.call.Some? ==> CallFits(x.call.value)
  }

  predicate CallFits(c: Call)
    decreases c, 0
  {
    c.taken <= c.operands && RunFits(c.body)
  }

  /** The frame records are the same, and so are the locals below the current frame's. */
  ghost predicate FrameKept(m: Machine, after: Machine) {
    && after.current == m.current && after.prevFrames == m.prevFrames
    && |after.locals| == |m.locals| && m.current.localsStart <= |m.locals|
    && after.locals[..m.current.localsStart] == m.locals[..m.current.localsStart]
  }

  /** So is everything below the marks of the current frame. */
  ghost predicate Kept(m: Machine, after: Machine) {
    FrameKept(m, after) && BaseKept(m, after)
  }

  /** What lies on the stack below the current frame's operands is the same. */
  ghost predicate BaseKept(m: Machine, after: Machine) {
    var start := m.current.stackStart;
    start <= |m.stack| && start <= |after.stack| && after.stack[..start] == m.stack[..start]
  }

  lemma {:induction false} KeptTwice(m: Machine, between: Machine, after: Machine)
    requires Kept(m, between) && Kept(between, after)
    ensures Kept(m, after)
  {
  }

  /** An instruction by itself never reaches below the marks. */
  lemma {:induction false} ExecutesKeeps(op: OpCode, m: Machine, after: Machine)
    requires m.Inside() && Executes(op, m, after)
    ensures Kept(m, after)
  {
    hide Loaded, Stored, Incremented, Duplicated, Compared, Computes, Push, Kept;
    if op.Invalid? {
      KeptSame(m);
    } else if IsLoad(op.code) {
      LoadedKeeps(m, op.code, op.args[0]);
    } else if IsStore(op.code) {
      StoredKeeps(m, op.code, op.args[0]);
    } else if op.code == IINC {
      IncrementedKeeps(m, op.args[0], op.args[1]);
    } else if op.code == BIPUSH {
      PushKeeps(m, [FromI32(op.args[0])]);
    } else if op.code == DUP {
      DuplicatedKeeps(m, 1);
    } else if op.code == DUP2 {
      DuplicatedKeeps(m, 2);
    } else if op.code == GOTO {
      KeptSame(m);
    } else if IsConditional(op.code) {
      ComparedKeeps(m, op.code);
    } else {
      ComputesKeeps(m, after);
    }
  }

  lemma {:induction false} PushKeeps(m: Machine, slots: seq<JVMSlot>)
    requires m.Inside()
    ensures Kept(m, Push(m, slots))
  {
  }

  lemma {:induction false} LoadedKeeps(m: Machine, code: byte, index: nat)
    requires m.Inside()
    ensures Loaded(m, code, index).Ok? ==> Kept(m, Loaded(m, code, index).value)
  {
    hide ToSlots, ToI64, FromI32, AsI32;
  }

  lemma {:induction false} DuplicatedKeeps(m: Machine, n: nat)
    requires m.Inside()
    ensures Kept(m, Duplicated(m, n))
  {
  }

  lemma {:induction false} ComparedKeeps(m: Machine, code: byte)
    requires m.Inside()
    ensures Compared(m, code).Ok? ==> Kept(m, Compared(m, code).value.1)
  {
    hide Holds, AsI32;
  }

  lemma {:induction false} ComputesKeeps(m: Machine, after: Machine)
    requires m.Inside() && Computes(m, after)
    ensures Kept(m, after)
  {
    var k: nat :| PopsAndPushes(m, k, after);
    var start := m.current.stackStart;
    assert after.stack[..start] == after.stack[..|m.stack| - k][..start];
  }

  lemma {:induction false} PutKeeps(m: Machine, index: nat, v: JVMValue)
    requires m.Inside()
    ensures PutLocal(m, index, v).Some? ==> Kept(m, PutLocal(m, index, v).value)
  {
    hide ToSlots;
  }

  lemma {:induction false} TakeKeeps(m: Machine, code: byte)
    requires m.Inside()
    ensures TakeValue(m, code).Ok? ==> Kept(m, TakeValue(m, code).value.1)
  {
  }

  lemma {:induction false} StoredKeeps(m: Machine, code: byte, index: nat)
    requires m.Inside()
    ensures Stored(m, code, index).Ok? ==> Kept(m, Stored(m, code, index).value)
  {
    hide PutLocal, TakeValue;
    TakeKeeps(m, code);
    match TakeValue(m, code)
    case Err(_) =>
    case Ok((v, m1)) => PutKeeps(m1, index, v);
  }

  lemma {:induction false} IncrementedKeeps(m: Machine, index: nat, amount: int)
    requires m.Inside()
    ensures Incremented(m, index, amount).Ok? ==> Kept(m, Incremented(m, index, amount).value)
  {
    hide PutLocal, Wrapped, AsI32;
    match Local(m, index)
    case None =>
    case Some(s) => PutKeeps(m, index, Int(Wrapped(AsI32(s) + amount)));
  }

  // ----- frames and locals, in every run

  lemma {:induction false} PutKeepsFrame(m: Machine, index: nat, v: JVMValue)
    requires m.current.localsStart <= |m.locals|
    ensures PutLocal(m, index, v).Some? ==> FrameKept(m, PutLocal(m, index, v).value)
  {
    hide ToSlots;
  }

  lemma {:induction false} ExecutesKeepsFrame(op: OpCode, m: Machine, after: Machine)
    requires m.current.localsStart <= |m.locals| && Executes(op, m, after)
    ensures FrameKept(m, after)
  {
    hide PutLocal, ToSlots, AsI32, FromI32, ToI64, Holds, Wrapped, PopsAndPushes, FrameKept;
    FrameSame(m, after);
    if !op.Invalid? && IsStore(op.code) {
      match TakeValue(m, op.code)
      case Err(_) =>
      case Ok((v, m1)) =>
        PutKeepsFrame(m1, op.args[0], v);
        FrameSame(m, m1);
        FrameKeptTwice(m, m1, after);
    } else if !op.Invalid? && op.code == IINC {
      match Local(m, op.args[0])
      case None =>
      case Some(s) => PutKeepsFrame(m, op.args[0], Int(Wrapped(AsI32(s) + op.args[1])));
    }
  }

  lemma {:induction false} FrameSame(m: Machine, after: Machine)
    requires m.current.localsStart <= |m.locals|
    ensures after == m.(stack := after.stack) ==> FrameKept(m, after)
  {
  }

  lemma {:induction false} FrameKeptTwice(m: Machine, between: Machine, after: Machine)
    requires FrameKept(m, between) && FrameKept(between, after)
    ensures FrameKept(m, after)
  {
  }

  /** A completed call restores its caller's frame records and locals, whatever the calls below it did: only
      operands can be lost. */
  lemma {:induction false} CallRestoresFrame(linker: Linker, class_: nat, op: OpCode, m: Machine, c: Call, fuel: nat)
    requires IsCall(op) && CallOK(linker, class_, op, m, c, fuel) && c.body.out.Returned?
    ensures var after := Left(c.body.end, c.body.out.value);
            after.current == m.current && after.prevFrames == m.prevFrames && after.locals == m.locals
    decreases c, 0
  {
    hide Decide, HasArgs, Pushed, Runs;
    RunKeepsFrame(linker, c.callee, c.entered, c.body, fuel);
    assert c.body.end.locals[..|m.locals|] == m.locals;
  }

  lemma {:induction false} NodeKeepsFrame(linker: Linker, code: Code, x: Node, fuel: nat)
    requires NodeOK(linker, code, x, fuel) && x.before.current.localsStart <= |x.before.locals|
    ensures FrameKept(x.before, x.after)
    decreases x, 0
  {
    hide NextOp, Executes, CallOK, Left, NextPc;
    var op := NextOp(code.bytes, x.pc).0.value;
    if IsCall(op) {
      CallRestoresFrame(linker, code.class_, op, x.before, x.call.value, fuel);
    } else {
      ExecutesKeepsFrame(op, x.before, x.after);
    }
  }

  lemma {:induction false} StepsKeepFrame(linker: Linker, code: Code, m: Machine, nodes: seq<Node>, fuel: nat)
    requires |nodes| <= fuel && Steps(linker, code, m, nodes, fuel) && m.current.localsStart <= |m.locals|
    ensures FrameKept(m, LastState(m, nodes))
    decreases nodes, 0
  {
    hide NodeOK;
    if nodes != [] {
      var n := |nodes| - 1;
      StepsKeepFrame(linker, code, m, nodes[..n], fuel);
      NodeKeepsFrame(linker, code, nodes[n], fuel - |nodes|);
    }
  }

  /** Every run, of any code: the frame records and the locals below the frame's are kept, even when calls take
      too many operands. */
  lemma {:induction false} RunKeepsFrame(linker: Linker, code: Code, m: Machine, run: Run, fuel: nat)
    requires Runs(linker, code, m, run, fuel) && m.current.localsStart <= |m.locals|
    ensures FrameKept(m, LastState(m, run.nodes))
    ensures run.out.Returned? ==> FrameKept(m, run.end)
    decreases run, 1
  {
    hide NextOp, Steps, CallOK, FailsWith, HasArgs, TakeValue, RefusedAt, ReturnOf;
    StepsKeepFrame(linker, code, m, run.nodes, fuel);
    if run.out.Returned? {
      var last := LastState(m, run.nodes);
      EndKeepsFrame(linker, code, LastPc(run.nodes), last, run, fuel - |run.nodes|);
      FrameKeptTwice(m, last, run.end);
    }
  }

  lemma {:induction false} EndKeepsFrame(linker: Linker, code: Code, pc: nat, m: Machine, run: Run, fuel: nat)
    requires Ends(linker, code, pc, m, run, fuel) && run.out.Returned?
    requires m.current.localsStart <= |m.locals|
    ensures FrameKept(m, run.end)
  {
    hide NextOp, CallOK, FailsWith, HasArgs, AsI32, ToI64;
    FrameSame(m, run.end);
  }

  // ----- operands, in runs whose calls fit

  /** A completed call whose body's calls all fit also takes just its arguments off the stack, and adds nothing
      but the result. */
  lemma {:induction false} CallRestores(linker: Linker, class_: nat, op: OpCode, m: Machine, c: Call, fuel: nat)
    requires IsCall(op) && CallOK(linker, class_, op, m, c, fuel)
    requires RunFits(c.body) && c.body.out.Returned?
    ensures c.taken <= |m.stack|
    ensures Left(c.body.end, c.body.out.value)
         == m.(stack := m.stack[..|m.stack| - c.taken] + Pushed(c.body.out.value))
    decreases c, 0
  {
    hide Decide, HasArgs, Pushed, RunFits, Runs;
    RunKeeps(linker, c.callee, c.entered, c.body, fuel);
    var end, n := c.body.end, |m.stack| - c.taken;
    assert c.entered.stack == m.stack[..n];
    assert end.locals[..|m.locals|] == m.locals;
    assert end.stack[..n] == m.stack[..n];
  }

  lemma {:induction false} NodeKeeps(linker: Linker, code: Code, x: Node, fuel: nat)
    requires NodeOK(linker, code, x, fuel) && x.before.Inside()
    requires NodeFits(x)
    ensures Kept(x.before, x.after)
    decreases x, 0
  {
    hide NextOp, Executes, CallOK, RunFits, Left, NextPc;
    var op := NextOp(code.bytes, x.pc).0.value;
    if IsCall(op) {
      CallRestores(linker, code.class_, op, x.before, x.call.value, fuel);
      CallCounts(linker, code.class_, op, x.before, x.call.value, fuel);
    } else {
      ExecutesKeeps(op, x.before, x.after);
    }
  }

  lemma {:induction false} CallCounts(linker: Linker, class_: nat, op: OpCode, m: Machine, c: Call, fuel: nat)
    requires IsCall(op) && CallOK(linker, class_, op, m, c, fuel)
    ensures c.operands == m.Operands() && c.taken <= |m.stack| && c.taken <= c.callee.maxLocals
    ensures Runs(linker, c.callee, c.entered, c.body, fuel)
    ensures c.entered.Inside() && c.entered.stack == m.stack[..|m.stack| - c.taken]
    ensures c.entered.current.stackStart == |m.stack| - c.taken
    ensures |m.locals| + c.taken <= |c.entered.locals|
    ensures c.entered.locals[|m.locals|..][..c.taken] == m.stack[|m.stack| - c.taken..]
  {
    hide Decide, Runs;
    var n := |m.stack| - c.taken;
    assert c.entered.locals[|m.locals|..][..c.taken] == m.stack[n..];
  }

  lemma {:induction false} StepsKeep(linker: Linker, code: Code, m: Machine, nodes: seq<Node>, fuel: nat)
    requires |nodes| <= fuel && Steps(linker, code, m, nodes, fuel) && m.Inside() && NodesFit(nodes)
    ensures Kept(m, LastState(m, nodes))
    ensures forall i :: 0 <= i < |nodes| ==> Kept(m, nodes[i].after)
    decreases nodes, 0
  {
    hide NodeOK, NodeFits, Kept;
    if nodes == [] {
      KeptSame(m);
    } else {
      var n := |nodes| - 1;
      StepsKeep(linker, code, m, nodes[..n], fuel);
      KeptInside(m, nodes[n].before);
      NodeKeeps(linker, code, nodes[n], fuel - |nodes|);
      KeptTwice(m, nodes[n].before, nodes[n].after);
      forall i | 0 <= i < n ensures Kept(m, nodes[i].after) {
        assert nodes[..n][i] == nodes[i];
      }
    }
  }

  lemma {:induction false} KeptSame(m: Machine)
    requires m.Inside()
    ensures Kept(m, m)
  {
  }

  lemma {:induction false} KeptInside(m: Machine, after: Machine)
    requires Kept(m, after)
    ensures m.Inside() && after.Inside()
  {
  }

  /** Frame isolation: in any run whose calls all fit, every state of the frame, and the end of a run that
      returns, has everything below the frame's marks as it was when the frame was entered. */
  lemma {:induction false} RunKeeps(linker: Linker, code: Code, m: Machine, run: Run, fuel: nat)
    requires Runs(linker, code, m, run, fuel) && m.Inside() && RunFits(run)
    ensures Kept(m, LastState(m, run.nodes))
    ensures forall i :: 0 <= i < |run.nodes| ==> Kept(m, run.nodes[i].after)
    ensures run.out.Returned? ==> Kept(m, run.end)
    decreases run, 1
  {
    hide NextOp, Steps, Kept, CallOK, NodesFit, CallFits, Decide, FailsWith, HasArgs, TakeValue;
    StepsKeep(linker, code, m, run.nodes, fuel);
    var last := LastState(m, run.nodes);
    KeptInside(m, last);
    if run.out.Returned? {
      EndKeeps(linker, code, LastPc(run.nodes), last, run, fuel - |run.nodes|);
      KeptTwice(m, last, run.end);
    }
  }

  lemma {:induction false} EndKeeps(linker: Linker, code: Code, pc: nat, m: Machine, run: Run, fuel: nat)
    requires Ends(linker, code, pc, m, run, fuel) && m.Inside() && run.out.Returned?
    ensures Kept(m, run.end)
  {
    hide NextOp, CallOK, Decide, FailsWith, HasArgs, TakeValue, Kept;
    KeptSame(m);
    match NextOp(code.bytes, pc)
    case (None, _) =>
    case (Some(op), _) => TakeKeeps(m, op.code);
  }

  // ----- the converse

  /** A call that takes too much: the state in which its frame was entered, and the state at the call. */
  datatype Breach = Breach(entry: Machine, at: Machine, call: Call)

  /** The first one of a run that was entered in `m`. */
  function FirstBreach(m: Machine, run: Run): Option<Breach>
    decreases run, 1
  {
    match BreachIn(m, run.nodes)
    case Some(b) => Some(b)
    case None =>
      if run.last.Some? then BreachAt(m, LastState(m, run.nodes), run.last.value) else None
  }

  function BreachIn(m: Machine, nodes: seq<Node>): Option<Breach>
    decreases nodes, 0
  {
    if nodes == [] then None else
      var n := |nodes| - 1;
      match BreachIn(m, nodes[..n])
      case Some(b) => Some(b)
      case None => BreachOf(m, nodes[n])
  }

  function BreachOf(m: Machine, x: Node): Option<Breach>
    decreases x, 0
  {
    if x.call.Some? then BreachAt(m, x.before, x.call.value) else None
  }

  function BreachAt(entry: Machine, at: Machine, c: Call): Option<Breach>
    decreases c, 0
  {
    if c.taken > c.operands then Some(Breach(entry, at, c)) else FirstBreach(c.entered, c.body)
  }

  lemma {:induction false} NoBreachFits(m: Machine, run: Run)
    ensures FirstBreach(m, run).None? <==> RunFits(run)
    decreases run, 1
  {
    NoBreachIn(m, run.nodes);
    if run.last.Some? {
      NoBreachAt(m, LastState(m, run.nodes), run.last.value);
    }
  }

  lemma {:induction false} NoBreachIn(m: Machine, nodes: seq<Node>)
    ensures BreachIn(m, nodes).None? <==> NodesFit(nodes)
    decreases nodes, 0
  {
    if nodes != [] {
      var n := |nodes| - 1;
      NoBreachIn(m, nodes[..n]);
      NoBreachOf(m, nodes[n]);
    }
  }

  lemma {:induction false} NoBreachOf(m: Machine, x: Node)
    ensures BreachOf(m, x).None? <==> NodeFits(x)
    decreases x, 0
  {
    if x.call.Some? {
      NoBreachAt(m, x.before, x.call.value);
    }
  }

  lemma {:induction false} NoBreachAt(entry: Machine, at: Machine, c: Call)
    ensures BreachAt(entry, at, c).None? <==> CallFits(c)
    decreases c, 0
  {
    NoBreachFits(c.entered, c.body);
  }

  /** What a breach is: until that call its frame was isolated, and the call takes operands of the frame's own
      caller, which become the first locals of its callee. */
  ghost predicate TakesFromCaller(b: Breach) {
    var n := |b.call.entered.stack|;
    var start := b.entry.current.stackStart;
    && b.entry.Inside() && Kept(b.entry, b.at)
    && n < start && n + b.call.taken == |b.at.stack|
    && |b.at.locals| + (start - n) <= |b.call.entered.locals|
    && b.call.entered.locals[|b.at.locals|..][..start - n] == b.entry.stack[n..start]
  }

  /** The converse: every run with a call that does not fit has a first one, and that one takes operands that
      are not its frame's. */
  lemma {:induction false} BreachTakesFromCaller(linker: Linker, code: Code, m: Machine, run: Run, fuel: nat)
    requires Runs(linker, code, m, run, fuel) && m.Inside() && !RunFits(run)
    ensures FirstBreach(m, run).Some? && TakesFromCaller(FirstBreach(m, run).value)
    decreases run, 1
  {
    hide NextOp, Steps, Kept, CallOK, CallFits, Decide, FailsWith, HasArgs, TakesFromCaller, BreachAt;
    NoBreachFits(m, run);
    NoBreachIn(m, run.nodes);
    if BreachIn(m, run.nodes).Some? {
      BreachInSteps(linker, code, m, run.nodes, fuel);
    } else {
      StepsKeep(linker, code, m, run.nodes, fuel);
      var op := NextOp(code.bytes, LastPc(run.nodes)).0.value;
      BreachAtCall(linker, code.class_, op, m, LastState(m, run.nodes), run.last.value, fuel - |run.nodes| - 1);
    }
  }

  lemma {:induction false} BreachInSteps(linker: Linker, code: Code, m: Machine, nodes: seq<Node>, fuel: nat)
    requires |nodes| <= fuel && Steps(linker, code, m, nodes, fuel) && m.Inside() && BreachIn(m, nodes).Some?
    ensures TakesFromCaller(BreachIn(m, nodes).value)
    decreases nodes, 0
  {
    hide NodeOK, Kept, NodesFit, TakesFromCaller, BreachOf;
    var n := |nodes| - 1;
    if BreachIn(m, nodes[..n]).Some? {
      BreachInSteps(linker, code, m, nodes[..n], fuel);
    } else {
      NoBreachIn(m, nodes[..n]);
      StepsKeep(linker, code, m, nodes[..n], fuel);
      BreachOfNode(linker, code, m, nodes[n], fuel - |nodes|);
    }
  }

  lemma {:induction false} BreachOfNode(linker: Linker, code: Code, m: Machine, x: Node, fuel: nat)
    requires NodeOK(linker, code, x, fuel) && Kept(m, x.before) && BreachOf(m, x).Some?
    ensures TakesFromCaller(BreachOf(m, x).value)
    decreases x, 0
  {
    hide NextOp, Executes, Kept, CallOK, TakesFromCaller, BreachAt, Left;
    var op := NextOp(code.bytes, x.pc).0.value;
    BreachAtCall(linker, code.class_, op, m, x.before, x.call.value, fuel);
  }

  lemma {:induction false} BreachAtCall(linker: Linker, class_: nat, op: OpCode, entry: Machine, at: Machine, c: Call,
                                        fuel: nat)
    requires IsCall(op) && CallOK(linker, class_, op, at, c, fuel)
    requires Kept(entry, at) && BreachAt(entry, at, c).Some?
    ensures TakesFromCaller(BreachAt(entry, at, c).value)
    decreases c, 0
  {
    hide CallOK, Runs, Decide, HasArgs, RunFits, FirstBreach;
    CallCounts(linker, class_, op, at, c, fuel);
    if c.taken > c.operands {
      var n, start, k := |c.entered.stack|, entry.current.stackStart, |at.locals|;
      assert c.entered.locals[k..][..c.taken][..start - n] == at.stack[n..][..start - n] == at.stack[n..start];
      assert at.stack[n..start] == at.stack[..start][n..] == entry.stack[n..start];
    } else {
      NoBreachFits(c.entered, c.body);
      BreachTakesFromCaller(linker, c.callee, c.entered, c.body, fuel);
    }
  }

  /** The damage: when a call whose body's calls all fit returns, what lies below its caller's operands is as
      it was exactly when the call took no more than these operands, or the slots of its result happen to
      equal those that it took beyond them. */
  lemma {:induction false} CallDamageExact(linker: Linker, class_: nat, op: OpCode, m: Machine, c: Call, fuel: nat)
    requires IsCall(op) && CallOK(linker, class_, op, m, c, fuel) && m.Inside()
    requires RunFits(c.body) && c.body.out.Returned?
    ensures var result, excess := Pushed(c.body.out.value), c.taken - c.operands;
            var start := m.current.stackStart;
            BaseKept(m, Left(c.body.end, c.body.out.value)) <==>
              excess <= 0 ||
              (excess <= |result| && excess <= start && result[..excess] == m.stack[start - excess..start])
  {
    hide CallOK, Runs, RunFits, Pushed, Left;
    CallRestores(linker, class_, op, m, c, fuel);
    CallCounts(linker, class_, op, m, c, fuel);
    var result, excess, start := Pushed(c.body.out.value), c.taken - c.operands, m.current.stackStart;
    var left := m.stack[..|m.stack| - c.taken] + result;
    if 0 < excess <= |result| {
      assert left[start - excess..start] == result[..excess];
      assert left[..start] == m.stack[..start - excess] + result[..excess];
      assert m.stack[..start] == m.stack[..start - excess] + m.stack[start - excess..start];
    }
  }

  // ----- a run that takes too much

  /** A static method without operands that calls a method with one parameter, and that method. */
  const GREEDY: Code := Code(0, [INVOKESTATIC, 0, 2, RETURN], 0, 0, 0)
  const ONE_PARAMETER: Code := Code(0, [RETURN], 0, 1, 1)

  const GREEDY_CALL: OpCode := Op(INVOKESTATIC, [2])

  /** Entered on a stack with one operand of its caller, the first method takes it: its run is a run, it does
      not fit, and its caller finds the operand gone. */
  lemma {:induction false} GreedyRun(linker: Linker, m: Machine) returns (run: Run)
    requires linker.resolve(0, 2) == Some(ONE_PARAMETER)
    requires |m.stack| == 1 && m.current.stackStart == 1 && m.Inside()
    ensures Runs(linker, GREEDY, m, run, 3) && !RunFits(run)
    ensures run.out == Returned(None) && run.end == m.(stack := [])
  {
    hide NextOp, CallOK, Left, Entered, Table, ShortForm, WideTable, Executes, Ends, CallFits;
    GreedyCode();
    var call := GreedyCall(linker, m);
    var after := Left(call.entered, None);
    var x := Node(0, m, Some(call), 3, after);
    assert [x][..0] == [];
    assert Steps(linker, GREEDY, m, [x], 3);
    run := Run([x], None, Returned(None), after);
    Falls(linker, GREEDY, 3, after, run, 2);
    assert !NodeFits(x);
  }

  lemma {:induction false} GreedyCall(linker: Linker, m: Machine) returns (call: Call)
    requires linker.resolve(0, 2) == Some(ONE_PARAMETER)
    requires |m.stack| == 1 && m.current.stackStart == 1 && m.Inside()
    ensures IsCall(GREEDY_CALL) && CallOK(linker, 0, GREEDY_CALL, m, call, 2) && !CallFits(call)
    ensures call.body.out == Returned(None) && call.body.end == call.entered
    ensures Left(call.entered, None) == m.(stack := [])
  {
    hide Runs, Entered, Left, RunFits;
    var entered := Entered(m, ONE_PARAMETER, 1, 2);
    var body := Run([], None, Returned(None), entered);
    EmptyRun(linker, entered, body);
    GreedyLeft(m);
    call := Call(0, ONE_PARAMETER, 0, 1, entered, body);
  }

  lemma {:induction false} GreedyLeft(m: Machine)
    requires |m.stack| == 1
    ensures Left(Entered(m, ONE_PARAMETER, 1, 2), None) == m.(stack := [])
  {
    var entered := Entered(m, ONE_PARAMETER, 1, 2);
    assert entered.locals[..|m.locals|] == m.locals && entered.prevFrames[..|m.prevFrames|] == m.prevFrames;
  }

  lemma {:induction false} EmptyRun(linker: Linker, m: Machine, run: Run)
    requires run == Run([], None, Returned(None), m)
    ensures Runs(linker, ONE_PARAMETER, m, run, 2)
  {
    hide NextOp, Ends;
    GreedyCode();
    Falls(linker, ONE_PARAMETER, 0, m, run, 2);
  }

  /** A run ends at a return without a value. */
  lemma {:induction false} Falls(linker: Linker, code: Code, pc: nat, m: Machine, run: Run, fuel: nat)
    requires fuel > 0 && NextOp(code.bytes, pc).0 == Some(Op(RETURN, []))
    requires run.last.None? && run.out == Returned(None) && run.end == m
    ensures Ends(linker, code, pc, m, run, fuel)
  {
    hide NextOp;
  }

  lemma {:induction false} GreedyForms()
    ensures WellFormed(GREEDY_CALL) && Encode(GREEDY_CALL) == [INVOKESTATIC, 0, 2]
    ensures WellFormed(Op(RETURN, [])) && Encode(Op(RETURN, [])) == [RETURN]
  {
    hide ShortForm, WideTable;
    assert Format(GREEDY_CALL) == Some([U16]) && Format(Op(RETURN, [])) == Some([]);
    OneWord(2);
  }

  lemma {:induction false} OneWord(v: int)
    requires Fits(v, U16)
    ensures AllFit([v], [U16]) && WriteAll([v], [U16]) == Write(v, U16)
  {
    hide Write;
    assert [v][1..] == [] && [U16][1..] == [];
    var none := WriteAll([], []);
    assert none == [];
  }

  lemma {:induction false} GreedyCode()
    ensures NextOp(GREEDY.bytes, 0) == (Some(GREEDY_CALL), 3)
    ensures NextOp(GREEDY.bytes, 3) == (Some(Op(RETURN, [])), 4)
    ensures NextOp(ONE_PARAMETER.bytes, 0) == (Some(Op(RETURN, [])), 1)
  {
    hide WellFormed, Encode, NextOp;
    GreedyForms();
    var back := Op(RETURN, []);
    var first: seq<byte> := [INVOKESTATIC, 0, 2];
    DecodeEncoded([], GREEDY_CALL, [RETURN]);
    DecodeEncoded(first, back, []);
    DecodeEncoded([], back, []);
    assert [] + Encode(GREEDY_CALL) + [RETURN] == GREEDY.bytes;
    assert first + Encode(back) + [] == GREEDY.bytes;
    assert [] + Encode(back) + [] == ONE_PARAMETER.bytes;
  }
}
