/** The references on a thread's stack and in its locals, and the strong counts of what they refer to
    (src/vm/mod.rs:18-102, src/vm/mod.rs:192-477): an instruction clones and drops exactly the references
    that it adds and takes away, so that the counts stay exact while code runs. */
module References {
  import opened Wrappers
  import opened Slots
  import opened HeapGraph
  import opened ManagedHeap
  import opened Bytecode
  import opened Frames
  import opened Execution
  import M = MultiArray

  /** How many slots of the thread refer to `p`. */
  function Refs(m: Machine, p: Ptr): nat {
    Count(m.stack, p) + Count(m.locals, p)
  }

  /** The instructions whose effect on references is modelled. */
  predicate IsModelled(op: OpCode) {
    op.Invalid? || IsLocal(op.code) || op.code == IINC || op.code == BIPUSH || op.code == DUP || op.code == DUP2
    || op.code == GOTO || IsConditional(op.code)
  }

  /** The part of the slots from `i` to `j` that is there. */
  function Part(slots: seq<JVMSlot>, i: int, j: int): seq<JVMSlot> {
    if 0 <= i <= j <= |slots| then slots[i..j] else []
  }

  /** The operands that an instruction has, up to `n`. */
  function TopOperands(m: Machine, n: nat): seq<JVMSlot> {
    var k := if m.Operands() < n then m.Operands() else n;
    Part(m.stack, |m.stack| - k, |m.stack|)
  }

  /** The slots that an instruction clones: a reference that is loaded, and operands that are doubled. */
  function Copies(op: OpCode, m: Machine): seq<JVMSlot> {
    if op.Invalid? then []
    else if op.code == DUP then TopOperands(m, 1)
    else if op.code == DUP2 then TopOperands(m, 2)
    else if IsLoad(op.code) && KindOf(op.code) == 4 && op.args != [] then
      var at := op.args[0] + m.current.localsStart;
      Part(m.locals, at, at + 1)
    else []
  }

  /** The slots that an instruction drops: operands that are taken as numbers, and locals that are
      overwritten. The reference that is stored moves. */
  function Discards(op: OpCode, m: Machine): seq<JVMSlot> {
    if op.Invalid? || op.args == [] then []
    else
      var at := op.args[0] + m.current.localsStart;
      if IsStore(op.code) then
        var n := if IsWide64(op.code) then 2 else 1;
        (if KindOf(op.code) == 4 then [] else TopOperands(m, n)) + Part(m.locals, at, at + n)
      else if op.code == IINC then Part(m.locals, at, at + 1)
      else if IsConditional(op.code) then TopOperands(m, if IsUnary(op.code) then 1 else 2)
      else []
  }

  // ----- counting

  lemma {:induction false} CountOne(s: JVMSlot, p: Ptr)
    ensures Count([s], p) == One(s, p)
  {
    CountNext([s], 0, p);
    assert [s][..0 + 1] == [s];
  }

  /** Numbers are no references. */
  lemma {:induction false} NumbersCount(v: JVMValue, p: Ptr)
    ensures Count(ToSlots(v), p) == if v == Object(p) then 1 else 0
  {
    hide FromI64, ToI64, FromI32, AsI32;
    ValuesSurvive(v);
    var s := ToSlots(v);
    CountOne(s[0], p);
    if |s| == 2 {
      CountOne(s[1], p);
      CountConcat([s[0]], [s[1]], p);
      assert [s[0]] + [s[1]] == s;
    }
  }

  lemma {:induction false} NullsCount(n: nat, p: Ptr)
    ensures Count(Nulls(n), p) == 0
  {
    if n > 0 {
      NullsCount(n - 1, p);
      assert Nulls(n)[..n - 1] == Nulls(n - 1);
    }
  }

  lemma {:induction false} PushCounts(m: Machine, slots: seq<JVMSlot>, p: Ptr)
    ensures Refs(Push(m, slots), p) == Refs(m, p) + Count(slots, p)
  {
    CountConcat(m.stack, slots, p);
  }

  lemma {:induction false} PopCounts(m: Machine, n: nat, p: Ptr)
    requires n <= m.Operands()
    ensures Refs(m, p) == Refs(Pop(m, n), p) + Count(TopOperands(m, n), p)
  {
    CountSplit(m.stack, |m.stack| - n, p);
    assert Part(m.stack, |m.stack| - n, |m.stack|) == m.stack[|m.stack| - n..];
  }

  lemma {:induction false} OverwriteCounts(slots: seq<JVMSlot>, at: nat, new_: seq<JVMSlot>, p: Ptr)
    requires at + |new_| <= |slots|
    ensures Count(slots[..at] + new_ + slots[at + |new_|..], p) + Count(slots[at..at + |new_|], p)
         == Count(slots, p) + Count(new_, p)
  {
    var end := at + |new_|;
    CountSplit(slots, end, p);
    CountSplit(slots[..end], at, p);
    assert slots[..end][..at] == slots[..at] && slots[..end][at..] == slots[at..end];
    CountConcat(slots[..at], new_, p);
    CountConcat(slots[..at] + new_, slots[end..], p);
  }

  lemma {:induction false} PutCounts(m: Machine, index: nat, v: JVMValue, p: Ptr)
    ensures var at := index + m.current.localsStart;
            match PutLocal(m, index, v)
            case None => true
            case Some(m1) =>
              Refs(m1, p) + Count(Part(m.locals, at, at + |ToSlots(v)|), p) == Refs(m, p) + Count(ToSlots(v), p)
  {
    hide ToSlots, Count;
    var at := index + m.current.localsStart;
    if at + |ToSlots(v)| <= |m.locals| {
      OverwriteCounts(m.locals, at, ToSlots(v), p);
    }
  }

  /** The value that is taken holds the reference of the operand when it is one, and otherwise it is lost. */
  lemma {:induction false} TakeCounts(m: Machine, code: byte, p: Ptr)
    ensures match TakeValue(m, code)
            case Err(_) => true
            case Ok((v, m1)) =>
              var n := if IsWide64(code) then 2 else 1;
              && |ToSlots(v)| == n && m1.locals == m.locals && m1.current == m.current
              && Refs(m, p) == Refs(m1, p) + Count(ToSlots(v), p)
                               + if KindOf(code) == 4 then 0 else Count(TopOperands(m, n), p)
  {
    hide ToI64, AsI32, KindOf;
    match TakeValue(m, code)
    case Err(_) =>
    case Ok((v, m1)) =>
      var n := if IsWide64(code) then 2 else 1;
      PopCounts(m, n, p);
      NumbersCount(v, p);
      if KindOf(code) == 4 {
        assert TopOperands(m, 1) == [Top(m, 0)];
        CountOne(Top(m, 0), p);
      }
  }

  // ----- one instruction

  lemma {:induction false} LoadConserves(op: OpCode, m: Machine, after: Machine, p: Ptr)
    requires !op.Invalid? && IsLoad(op.code) && op.args != [] && op.args[0] >= 0
    requires Loaded(m, op.code, op.args[0]) == Ok(after)
    ensures Refs(after, p) == Refs(m, p) + Count(Copies(op, m), p)
  {
    hide ToI64, AsI32, FromI32, ToSlots, KindOf;
    var s := Local(m, op.args[0]).value;
    if IsWide64(op.code) {
      var l := ToI64(s, Local(m, Following(op.args[0])).value);
      PushCounts(m, ToSlots(Long(l)), p);
      NumbersCount(Long(l), p);
    } else if KindOf(op.code) == 4 {
      var at := op.args[0] + m.current.localsStart;
      assert Part(m.locals, at, at + 1) == [s];
      PushCounts(m, [s], p);
    } else {
      PushCounts(m, ToSlots(Int(AsI32(s))), p);
      NumbersCount(Int(AsI32(s)), p);
      NumberSlots(AsI32(s));
    }
  }

  lemma {:induction false} NumberSlots(i: i32)
    ensures ToSlots(Int(i)) == [FromI32(i)]
  {
  }

  lemma {:induction false} StoreConserves(op: OpCode, m: Machine, after: Machine, p: Ptr)
    requires !op.Invalid? && IsStore(op.code) && op.args != [] && op.args[0] >= 0
    requires Execution.Stored(m, op.code, op.args[0]) == Ok(after)
    ensures Refs(after, p) + Count(Discards(op, m), p) == Refs(m, p)
  {
    hide ToSlots, KindOf, PutLocal, TakeValue, TopOperands, Part;
    TakeCounts(m, op.code, p);
    var (v, m1) := TakeValue(m, op.code).value;
    PutCounts(m1, op.args[0], v, p);
    var at, n := op.args[0] + m.current.localsStart, if IsWide64(op.code) then 2 else 1;
    CountConcat(if KindOf(op.code) == 4 then [] else TopOperands(m, n), Part(m.locals, at, at + n), p);
  }

  lemma {:induction false} IncrementConserves(op: OpCode, m: Machine, after: Machine, p: Ptr)
    requires !op.Invalid? && op.code == IINC && |op.args| == 2 && op.args[0] >= 0
    requires Incremented(m, op.args[0], op.args[1]) == Ok(after)
    ensures Refs(after, p) + Count(Discards(op, m), p) == Refs(m, p)
  {
    hide ToSlots, PutLocal, Part, AsI32, Wrapped;
    var v := Int(Wrapped(AsI32(Local(m, op.args[0]).value) + op.args[1]));
    PutCounts(m, op.args[0], v, p);
    NumbersCount(v, p);
    NumberSlots(v.i);
  }

  lemma {:induction false} DuplicateConserves(m: Machine, n: nat, p: Ptr)
    ensures Refs(Duplicated(m, n), p) == Refs(m, p) + Count(TopOperands(m, n), p)
  {
    var k := if m.Operands() <= 0 then 0 else if m.Operands() < n then m.Operands() else n;
    PushCounts(m, m.stack[|m.stack| - k..], p);
    assert TopOperands(m, n) == m.stack[|m.stack| - k..];
  }

  /** No reference appears or goes without a clone or a drop. */
  lemma {:induction false} InstructionConserves(op: OpCode, m: Machine, after: Machine, p: Ptr)
    requires IsModelled(op) && Executes(op, m, after)
    ensures Refs(after, p) + Count(Discards(op, m), p) == Refs(m, p) + Count(Copies(op, m), p)
  {
    hide Refs, Loaded, Execution.Stored, Incremented, Duplicated, TopOperands, KindOf, FromI32, AsI32, ToSlots, Holds;
    if op.Invalid? {
    } else if IsLoad(op.code) {
      LoadConserves(op, m, after, p);
    } else if IsStore(op.code) {
      StoreConserves(op, m, after, p);
    } else if op.code == IINC {
      IncrementConserves(op, m, after, p);
    } else if op.code == DUP {
      DuplicateConserves(m, 1, p);
    } else if op.code == DUP2 {
      DuplicateConserves(m, 2, p);
    } else if op.code == BIPUSH {
      PushCounts(m, [FromI32(op.args[0])], p);
      NumberSlots(op.args[0]);
      NumbersCount(Int(op.args[0]), p);
    } else if IsConditional(op.code) {
      PopCounts(m, if IsUnary(op.code) then 1 else 2, p);
    }
  }

  // ----- calls

  /** Arguments move from the stack to the locals of the callee. */
  lemma {:induction false} EnterConserves(m: Machine, callee: Code, taken: nat, ref: nat, p: Ptr)
    requires taken <= |m.stack| && taken <= callee.maxLocals
    ensures Refs(Entered(m, callee, taken, ref), p) == Refs(m, p)
  {
    hide Count;
    var n := |m.stack| - taken;
    var nulls := Nulls(callee.maxLocals - taken);
    CountSplit(m.stack, n, p);
    CountConcat(m.locals, m.stack[n..], p);
    CountConcat(m.locals + m.stack[n..], nulls, p);
    NullsCount(callee.maxLocals - taken, p);
  }

  /** The operand that a return takes as a number. */
  function ReturnDiscards(m: Machine, code: byte): seq<JVMSlot> {
    if code == RETURN || KindOf(code) == 4 then [] else TopOperands(m, if IsWide64(code) then 2 else 1)
  }

  /** A reference that is returned moves out of the callee's operands. */
  lemma {:induction false} ReturnConserves(m: Machine, code: byte, p: Ptr)
    ensures match ReturnOf(m, code)
            case Err(_) => true
            case Ok((v, m1)) => Refs(m1, p) + Count(Pushed(v), p) + Count(ReturnDiscards(m, code), p) == Refs(m, p)
  {
    hide Count, TakeValue, KindOf, TopOperands, ToSlots;
    CountNothing(p);
    TakeCounts(m, code, p);
  }

  lemma {:induction false} CountNothing(p: Ptr)
    ensures Count([], p) == 0
  {
  }

  /** What lies behind the mark. */
  function Beyond(slots: seq<JVMSlot>, n: nat): seq<JVMSlot> {
    if n < |slots| then slots[n..] else []
  }

  lemma {:induction false} TruncatedCounts(slots: seq<JVMSlot>, n: nat, p: Ptr)
    ensures Count(Truncated(slots, n), p) + Count(Beyond(slots, n), p) == Count(slots, p)
  {
    if n < |slots| {
      CountSplit(slots, n, p);
    }
  }

  /** The slots of the callee's frame, which go when it is popped. */
  function FrameSlots(m: Machine): seq<JVMSlot> {
    Beyond(m.locals, m.current.localsStart) + Beyond(m.stack, m.current.stackStart)
  }

  /** Popping a frame drops its slots, and the result joins the caller's operands. */
  lemma {:induction false} LeaveConserves(m: Machine, v: Option<JVMValue>, p: Ptr)
    ensures Refs(Left(m, v), p) + Count(FrameSlots(m), p) == Refs(m, p) + Count(Pushed(v), p)
  {
    hide Count, Truncated, Beyond, Pushed;
    TruncatedCounts(m.stack, m.current.stackStart, p);
    TruncatedCounts(m.locals, m.current.localsStart, p);
    CountConcat(Beyond(m.locals, m.current.localsStart), Beyond(m.stack, m.current.stackStart), p);
    CountConcat(Truncated(m.stack, m.current.stackStart), Pushed(v), p);
  }

  // ----- whole runs

  /** How many references to `p` a run adds: by cloning, and by the operands that instructions which are not
      modelled leave behind. */
  function Gains(code: Code, run: Run, p: Ptr): nat
    decreases run, 1
  {
    NodesGain(code, run.nodes, p)
  }

  function NodesGain(code: Code, nodes: seq<Node>, p: Ptr): nat
    decreases nodes, 0
  {
    if nodes == [] then 0 else
      var n := |nodes| - 1;
      NodesGain(code, nodes[..n], p) + NodeGains(code, nodes[n], p)
  }

  function NodeGains(code: Code, x: Node, p: Ptr): nat
    decreases x, 0
  {
    match (x.call, NextOp(code.bytes, x.pc).0)
    case (Some(c), _) => Gains(c.callee, c.body, p)
    case (None, Some(op)) => if IsModelled(op) then Count(Copies(op, x.before), p) else Count(x.after.stack, p)
    case (None, None) => 0
  }

  /** How many it takes away: by dropping, in its own frame and with the frames of its calls, and by the
      operands that instructions which are not modelled find. */
  function Losses(code: Code, m: Machine, run: Run, p: Ptr): nat
    decreases run, 1
  {
    NodesLose(code, run.nodes, p) + Count(EndDiscards(code, LastPc(run.nodes), LastState(m, run.nodes)), p)
  }

  function NodesLose(code: Code, nodes: seq<Node>, p: Ptr): nat
    decreases nodes, 0
  {
    if nodes == [] then 0 else
      var n := |nodes| - 1;
      NodesLose(code, nodes[..n], p) + NodeLoses(code, nodes[n], p)
  }

  function NodeLoses(code: Code, x: Node, p: Ptr): nat
    decreases x, 0
  {
    match (x.call, NextOp(code.bytes, x.pc).0)
    case (Some(c), _) => Losses(c.callee, c.entered, c.body, p) + Count(FrameSlots(c.body.end), p)
    case (None, Some(op)) => if IsModelled(op) then Count(Discards(op, x.before), p) else Count(x.before.stack, p)
    case (None, None) => 0
  }

  function EndDiscards(code: Code, pc: nat, m: Machine): seq<JVMSlot> {
    match NextOp(code.bytes, pc).0
    case Some(op) => if IsReturn(op) then ReturnDiscards(m, op.code) else []
    case None => []
  }

  lemma {:induction false} CallConserves(linker: Linker, class_: nat, op: OpCode, m: Machine, c: Call, fuel: nat,
                                        p: Ptr)
    requires IsCall(op) && CallOK(linker, class_, op, m, c, fuel) && c.body.out.Returned?
    ensures Refs(Left(c.body.end, c.body.out.value), p)
            + Losses(c.callee, c.entered, c.body, p) + Count(FrameSlots(c.body.end), p)
         == Refs(m, p) + Gains(c.callee, c.body, p)
    decreases c, 0
  {
    hide Decide, Runs, Refs, Losses, Gains, FrameSlots, Left, Pushed;
    EnterConserves(m, c.callee, c.taken, op.args[0], p);
    RunConserves(linker, c.callee, c.entered, c.body, fuel, p);
    LeaveConserves(c.body.end, c.body.out.value, p);
  }

  lemma {:induction false} NodeConserves(linker: Linker, code: Code, x: Node, fuel: nat, p: Ptr)
    requires NodeOK(linker, code, x, fuel)
    ensures Refs(x.after, p) + NodeLoses(code, x, p) == Refs(x.before, p) + NodeGains(code, x, p)
    decreases x, 0
  {
    hide NextOp, Executes, CallOK, Left, NextPc, Losses, Gains, FrameSlots, Copies, Discards, IsModelled, Count;
    var op := NextOp(code.bytes, x.pc).0.value;
    if IsCall(op) {
      CallConserves(linker, code.class_, op, x.before, x.call.value, fuel, p);
    } else if IsModelled(op) {
      InstructionConserves(op, x.before, x.after, p);
    } else {
      OtherKeepsLocals(op, x.before, x.after);
    }
  }

  lemma {:induction false} OtherKeepsLocals(op: OpCode, m: Machine, after: Machine)
    requires Executes(op, m, after) && !IsModelled(op)
    ensures after.locals == m.locals
  {
    hide PopsAndPushes;
  }

  lemma {:induction false} StepsConserve(linker: Linker, code: Code, m: Machine, nodes: seq<Node>, fuel: nat, p: Ptr)
    requires |nodes| <= fuel && Steps(linker, code, m, nodes, fuel)
    ensures Refs(LastState(m, nodes), p) + NodesLose(code, nodes, p) == Refs(m, p) + NodesGain(code, nodes, p)
    decreases nodes, 0
  {
    hide NodeOK, Refs, NodeLoses, NodeGains;
    if nodes != [] {
      var n := |nodes| - 1;
      StepsConserve(linker, code, m, nodes[..n], fuel, p);
      NodeConserves(linker, code, nodes[n], fuel - |nodes|, p);
    }
  }

  /** Conservation: in any run, with all the calls that it makes, the references on the thread and in the result
      are those that were there, plus the cloned ones, less the dropped ones. */
  lemma {:induction false} RunConserves(linker: Linker, code: Code, m: Machine, run: Run, fuel: nat, p: Ptr)
    requires Runs(linker, code, m, run, fuel) && run.out.Returned?
    ensures Refs(run.end, p) + Count(Pushed(run.out.value), p) + Losses(code, m, run, p)
         == Refs(m, p) + Gains(code, run, p)
    decreases run, 1
  {
    hide Ends, Steps, Refs, Count, NodesLose, NodesGain, EndDiscards;
    StepsConserve(linker, code, m, run.nodes, fuel, p);
    EndConserves(linker, code, LastPc(run.nodes), LastState(m, run.nodes), run, fuel - |run.nodes|, p);
  }

  lemma {:induction false} EndConserves(linker: Linker, code: Code, pc: nat, m: Machine, run: Run, fuel: nat, p: Ptr)
    requires Ends(linker, code, pc, m, run, fuel) && run.out.Returned?
    ensures Refs(run.end, p) + Count(Pushed(run.out.value), p) + Count(EndDiscards(code, pc, m), p) == Refs(m, p)
  {
    hide NextOp, CallOK, FailsWith, HasArgs, Decide, ReturnOf, Refs, Count, IsCall, ReturnDiscards;
    CountNothing(p);
    match NextOp(code.bytes, pc)
    case (None, _) =>
    case (Some(op), _) => ReturnConserves(m, op.code, p);
  }

  // ----- the strong counts

  /** What the program holds are the references on the thread, those in hand, and the `others`. */
  ghost predicate Owns(mem: Memory, m: Machine, hand: seq<JVMSlot>, others: multiset<Ptr>) {
    forall p: Ptr :: mem.external[p] == Refs(m, p) + Count(hand, p) + others[p]
  }

  /** The strong counts can be raised by cloning the slots. */
  predicate Room(mem: Memory, slots: seq<JVMSlot>) {
    forall p :: p in mem.strong ==> mem.strong[p] + Count(slots, p) <= ISIZE_MAX
  }

  /** Some strong count is the largest `isize`, or one less. */
  ghost predicate Full(mem: Memory) {
    exists p :: p in mem.strong && mem.strong[p] >= ISIZE_MAX - 1
  }

  lemma {:induction false} NoRoom(mem: Memory, op: OpCode, m: Machine)
    requires !Room(mem, Copies(op, m))
    ensures Full(mem)
  {
    hide Count;
    var p :| p in mem.strong && mem.strong[p] + Count(Copies(op, m), p) > ISIZE_MAX;
    CountBound(Copies(op, m), p);
  }

  lemma {:induction false} CountBound(slots: seq<JVMSlot>, p: Ptr)
    ensures Count(slots, p) <= |slots|
  {
    if slots != [] {
      CountBound(slots[..|slots| - 1], p);
    }
  }

  /** References on the thread or in hand are to objects of the heap, and every strong count is one for the
      heap's set, plus the references in the slots of objects, on the thread, in hand, and the others. */
  lemma {:induction false} ThreadCounted(mem: Memory, objects: set<Ptr>, m: Machine, hand: seq<JVMSlot>,
                                         others: multiset<Ptr>, p: Ptr)
    requires Counted(mem, objects, None) && objects == mem.data.Keys && Owns(mem, m, hand, others)
    ensures Refs(m, p) + Count(hand, p) > 0 ==> p in objects
    ensures p in objects ==>
              && p in mem.strong
              && mem.strong[p] == 1 + InRefs(mem.data, objects, p) + Refs(m, p) + Count(hand, p) + others[p]
  {
    hide Refs, Count, InRefs;
    CountedInside(mem, objects, None);
    CountsAreExact(mem, objects);
    if Refs(m, p) + Count(hand, p) > 0 {
      assert mem.external[p] > 0;
    }
  }

  /** What an instruction clones was on the thread. */
  lemma {:induction false} CopiesAreOwned(op: OpCode, m: Machine, p: Ptr)
    ensures Count(Copies(op, m), p) > 0 ==> Refs(m, p) > 0
  {
    hide Count, Part, TopOperands, KindOf;
    OperandsAreOwned(m, 1, p);
    OperandsAreOwned(m, 2, p);
    if !op.Invalid? && op.args != [] {
      var at := op.args[0] + m.current.localsStart;
      PartCounts(m.locals, at, at + 1, p);
    }
    CountNothing(p);
  }

  lemma {:induction false} OperandsAreOwned(m: Machine, n: nat, p: Ptr)
    ensures Count(TopOperands(m, n), p) <= Refs(m, p)
  {
    hide Count, Part;
    var k := if m.Operands() < n then m.Operands() else n;
    PartCounts(m.stack, |m.stack| - k, |m.stack|, p);
  }

  lemma {:induction false} PartCounts(slots: seq<JVMSlot>, i: int, j: int, p: Ptr)
    ensures Count(Part(slots, i, j), p) <= Count(slots, p)
  {
    if 0 <= i <= j <= |slots| {
      CountSplit(slots, j, p);
      CountSplit(slots[..j], i, p);
      assert slots[..j][i..] == slots[i..j];
    }
  }

  /** The references in the slots are dropped. */
  method DropAll(h: Heap, slots: seq<JVMSlot>, ghost after: Machine, ghost hand: seq<JVMSlot>,
                 ghost others: multiset<Ptr>)
    requires h.Valid() && h.AllHeld()
    requires forall p: Ptr ::
               h.mem.external[p] == Refs(after, p) + Count(hand, p) + others[p] + Count(slots, p)
    modifies h`objects, h`allocCount, h`mem
    ensures h.Valid() && h.AllHeld() && Owns(h.mem, after, hand, others)
  {
    hide Refs, Count, Counted, Held, CountsFit;
    ghost var last := h.mem.external - Bag(slots);
    h.DropSlots(slots, last);
  }

  /** What an instruction does to the heap: it clones and drops. Cloning aborts when a count would pass the
      largest `isize`. */
  method Follow(h: Heap, op: OpCode, m: Machine, ghost after: Machine, ghost others: multiset<Ptr>)
    returns (aborted: bool)
    requires h.Valid() && h.AllHeld() && Owns(h.mem, m, [], others)
    requires IsModelled(op) && Executes(op, m, after)
    modifies h`objects, h`allocCount, h`mem
    ensures h.Valid() && h.AllHeld()
    ensures aborted <==> !Room(old(h.mem), Copies(op, m))
    ensures if aborted then h.mem == old(h.mem) && Full(h.mem) else Owns(h.mem, after, [], others)
  {
    hide Refs, Count, Counted, Held, CountsFit, Executes, IsModelled, Copies, Discards;
    if !Room(h.mem, Copies(op, m)) {
      NoRoom(h.mem, op, m);
      return true;
    }
    ghost var before := h.mem;
    CopiesAllocated(h.mem, h.objects, op, m, others);
    M.CloneSlots(h, Copies(op, m));
    forall p: Ptr
      ensures h.mem.external[p] == Refs(after, p) + Count([], p) + others[p] + Count(Discards(op, m), p)
    {
      ClonedSlotsCount(before, Copies(op, m), p);
      InstructionConserves(op, m, after, p);
    }
    DropAll(h, Discards(op, m), after, [], others);
    aborted := false;
  }

  lemma {:induction false} CopiesAllocated(mem: Memory, objects: set<Ptr>, op: OpCode, m: Machine,
                                           others: multiset<Ptr>)
    requires Counted(mem, objects, None) && Owns(mem, m, [], others) && Room(mem, Copies(op, m))
    ensures M.RoomFor(mem, Copies(op, m))
  {
    hide Refs, Copies, Holders;
    var slots := Copies(op, m);
    CountedInside(mem, objects, None);
    forall i | 0 <= i < |slots| && slots[i] < 0 ensures -(slots[i] as int) in mem.strong {
      var p: Ptr := -(slots[i] as int);
      CountPositive(slots, p);
      assert Target(slots[i]) == Some(p);
      CopiesAreOwned(op, m, p);
      assert mem.external[p] > 0;
    }
  }

  // ----- the strong counts, in whole runs

  /** The run and its calls completed no instruction whose effect on references is not modelled. */
  predicate RunModelled(code: Code, run: Run)
    decreases run, 1
  {
    forall i :: 0 <= i < |run.nodes| ==> NodeModelled(code, run.nodes[i])
  }

  predicate NodeModelled(code: Code, x: Node)
    decreases x, 0
  {
    match (x.call, NextOp(code.bytes, x.pc).0)
    case (Some(c), _) => RunModelled(c.callee, c.body)
    case (None, Some(op)) => IsModelled(op)
    case (None, None) => false
  }

  lemma {:induction false} StepAt(linker: Linker, code: Code, m: Machine, nodes: seq<Node>, fuel: nat, i: nat)
    requires |nodes| <= fuel && Steps(linker, code, m, nodes, fuel) && i < |nodes|
    ensures nodes[i].before == LastState(m, nodes[..i]) && NodeOK(linker, code, nodes[i], fuel - i - 1)
    decreases |nodes|
  {
    hide NodeOK;
    var n := |nodes| - 1;
    if i < n {
      StepAt(linker, code, m, nodes[..n], fuel, i);
      assert nodes[..n][..i] == nodes[..i];
    }
  }

  /** The end of a returning run: the operand that a return takes as a number is dropped. */
  method FollowEnd(h: Heap, ghost linker: Linker, code: Code, pc: nat, m: Machine, ghost run: Run, ghost fuel: nat,
                   ghost others: multiset<Ptr>)
    requires h.Valid() && h.AllHeld() && Owns(h.mem, m, [], others)
    requires Ends(linker, code, pc, m, run, fuel) && run.out.Returned?
    modifies h`objects, h`allocCount, h`mem
    ensures h.Valid() && h.AllHeld() && Owns(h.mem, run.end, Pushed(run.out.value), others)
  {
    hide Refs, Count, Counted, Held, CountsFit, Ends, EndDiscards, Pushed;
    forall p: Ptr
      ensures h.mem.external[p] == Refs(run.end, p) + Count(Pushed(run.out.value), p) + others[p]
                                   + Count(EndDiscards(code, pc, m), p)
    {
      CountNothing(p);
      EndConserves(linker, code, pc, m, run, fuel, p);
    }
    DropAll(h, EndDiscards(code, pc, m), run.end, Pushed(run.out.value), others);
  }

  /** The frame of a call is popped: its slots are dropped, and the result moves to the caller's operands. */
  method FollowLeave(h: Heap, m: Machine, v: Option<JVMValue>, ghost others: multiset<Ptr>)
    requires h.Valid() && h.AllHeld() && Owns(h.mem, m, Pushed(v), others)
    modifies h`objects, h`allocCount, h`mem
    ensures h.Valid() && h.AllHeld() && Owns(h.mem, Left(m, v), [], others)
  {
    hide Refs, Count, Counted, Held, CountsFit, Left, FrameSlots, Pushed;
    forall p: Ptr
      ensures h.mem.external[p] == Refs(Left(m, v), p) + Count([], p) + others[p] + Count(FrameSlots(m), p)
    {
      CountNothing(p);
      LeaveConserves(m, v, p);
    }
    DropAll(h, FrameSlots(m), Left(m, v), [], others);
  }

  lemma {:induction false} EnterOwns(mem: Memory, m: Machine, callee: Code, taken: nat, ref: nat, others: multiset<Ptr>)
    requires taken <= |m.stack| && taken <= callee.maxLocals && Owns(mem, m, [], others)
    ensures Owns(mem, Entered(m, callee, taken, ref), [], others)
  {
    hide Refs, Count, Entered;
    forall p: Ptr ensures Refs(Entered(m, callee, taken, ref), p) == Refs(m, p) {
      EnterConserves(m, callee, taken, ref, p);
    }
  }

  /** One completed instruction, or one completed call with its body. */
  method FollowNode(h: Heap, ghost linker: Linker, code: Code, x: Node, ghost fuel: nat, ghost others: multiset<Ptr>)
    returns (aborted: bool)
    requires h.Valid() && h.AllHeld() && Owns(h.mem, x.before, [], others)
    requires NodeOK(linker, code, x, fuel) && NodeModelled(code, x)
    modifies h`objects, h`allocCount, h`mem
    ensures h.Valid() && h.AllHeld()
    ensures if aborted then Full(h.mem) else Owns(h.mem, x.after, [], others)
    decreases x, 0
  {
    hide Owns, Full, Counted, Held, CountsFit, NextOp, Executes, IsModelled, Left, Decide, Runs, RunModelled, Entered,
      Pushed, NextPc;
    var op := NextOp(code.bytes, x.pc).0.value;
    match x.call {
      case None => aborted := Follow(h, op, x.before, x.after, others);
      case Some(c) =>
        EnterOwns(h.mem, x.before, c.callee, c.taken, op.args[0], others);
        aborted := FollowRun(h, linker, c.callee, c.entered, c.body, fuel, others);
        if !aborted {
          FollowLeave(h, c.body.end, c.body.out.value, others);
        }
    }
  }

  /** A whole run, with all its calls, does to the heap what its instructions clone and drop. However deep the
      calls are, and whatever objects the drops free: unless a clone aborts, at the end every strong count is
      exact, counting the references that are left on the thread and the one in the result. */
  method FollowRun(h: Heap, ghost linker: Linker, code: Code, m: Machine, run: Run, ghost fuel: nat,
                   ghost others: multiset<Ptr>)
    returns (aborted: bool)
    requires h.Valid() && h.AllHeld() && Owns(h.mem, m, [], others)
    requires Runs(linker, code, m, run, fuel) && RunModelled(code, run)
    modifies h`objects, h`allocCount, h`mem
    ensures h.Valid() && h.AllHeld()
    ensures if aborted then Full(h.mem)
            else run.out.Returned? ==> Owns(h.mem, run.end, Pushed(run.out.value), others)
    decreases run, 1
  {
    hide Owns, Full, Counted, Held, CountsFit, NodeOK, Steps, Ends, NodeModelled, RunModelled, NextOp, Pushed;
    for i := 0 to |run.nodes|
      invariant h.Valid() && h.AllHeld()
      invariant Owns(h.mem, LastState(m, run.nodes[..i]), [], others)
    {
      StepAt(linker, code, m, run.nodes, fuel, i);
      AllModelled(code, run, i);
      assert run.nodes[..i + 1][i] == run.nodes[i];
      aborted := FollowNode(h, linker, code, run.nodes[i], fuel - i - 1, others);
      if aborted {
        return;
      }
    }
    assert run.nodes[..|run.nodes|] == run.nodes;
    if run.out.Returned? {
      FollowEnd(h, linker, code, LastPc(run.nodes), LastState(m, run.nodes), run, fuel - |run.nodes|, others);
    }
    aborted := false;
  }

  lemma {:induction false} AllModelled(code: Code, run: Run, i: nat)
    requires RunModelled(code, run) && i < |run.nodes|
    ensures NodeModelled(code, run.nodes[i])
  {
  }
}
