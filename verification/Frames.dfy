/** The state of one interpreter thread: all frames share one operand stack and one vector of locals
    (src/vm/mod.rs:104-477). */
module Frames {
  import opened Wrappers
  import opened Slots

  datatype JVMValue =
    | Object(p: Ptr)
    | Byte(b: i8)
    | Short(s: i16)
    | Int(i: i32)
    | Float(bits: i32)
    | Long(l: i64)
    | Double(lbits: i64)

  /** `to_slots`: long and double take two slots, the low half first. */
  function ToSlots(v: JVMValue): (slots: seq<JVMSlot>)
    ensures 1 <= |slots| <= 2
  {
    match v
    case Object(p) => [FromObject(p)]
    case Byte(b) => [FromI32(b)]
    case Short(s) => [FromI32(s)]
    case Int(i) => [FromI32(i)]
    case Float(bits) => [FromI32(bits)]
    case Long(l) => [FromI64(l).0, FromI64(l).1]
    case Double(l) => [FromI64(l).0, FromI64(l).1]
  }

  datatype VMError = StackUnderflow | InvalidLocal(index: nat) | NotAnObject | OtherError

  datatype StackFrame = StackFrame(methRef: nat, stackStart: nat, maxStack: nat, localsStart: nat)

  const NO_FRAME := StackFrame(0, 0, 0, 0)

  function Truncated(slots: seq<JVMSlot>, n: nat): seq<JVMSlot> {
    if n < |slots| then slots[..n] else slots
  }

  /** The state of a thread, as a value. */
  datatype Machine = Machine(
    stack: seq<JVMSlot>,
    locals: seq<JVMSlot>,
    prevFrames: seq<StackFrame>,
    current: StackFrame
  ) {
    /** How many operands the current method has; negative when its caller's were taken. */
    function Operands(): int {
      |stack| - current.stackStart
    }

    /** The marks of the current frame lie inside the stack and the locals. */
    predicate Inside() {
      current.stackStart <= |stack| && current.localsStart <= |locals|
    }
  }

  class ThreadContext {
    var stack: seq<JVMSlot>
    var locals: seq<JVMSlot>
    var prevFrames: seq<StackFrame>
    var current: StackFrame

    constructor (maxStack: nat, maxLocals: nat)
      ensures stack == [] && locals == Nulls(maxLocals) && prevFrames == []
      ensures current == StackFrame(0, 0, maxStack, 0)
    {
      stack, locals, prevFrames := [], Nulls(maxLocals), [];
      current := StackFrame(0, 0, maxStack, 0);
    }

    /** How many operands the current method has. */
    ghost function Operands(): int
      reads this`stack, this`current
    {
      |stack| - current.stackStart
    }

    /** All of the context, as a value. */
    ghost function State(): Machine
      reads this
    {
      Machine(stack, locals, prevFrames, current)
    }

    // ----- frames

    /** Moves the arguments of a call from the stack to new locals, in the order in which they were
        pushed. The pops are not guarded by the start of the caller's operands. */
    method PopCreateArgs(argsSize: nat) returns (ok: bool)
      modifies this`stack, this`locals
      ensures ok <==> argsSize <= |old(stack)|
      ensures ok ==> stack == old(stack)[..|old(stack)| - argsSize]
      ensures ok ==> locals == old(locals) + old(stack)[|old(stack)| - argsSize..]
      ensures ok ==> (Operands() >= 0 <==> argsSize <= old(Operands()))
    {
      var start := |locals|;
      locals := locals + Nulls(argsSize);
      ghost var n := |stack|;
      assert locals[start + argsSize..] == [] && stack[..n] == stack && stack[n..] == [];
      var i := argsSize;
      while i > 0
        invariant 0 <= i <= argsSize && |locals| == start + argsSize
        invariant 0 <= n <= |old(stack)| && argsSize - i == |old(stack)| - n
        invariant stack == old(stack)[..n]
        invariant locals[..start] == old(locals) && locals[start + i..] == old(stack)[n..]
      {
        i := i - 1;
        if stack == [] {
          return false;
        }
        MovedOne(old(stack), n, locals, start, start + i);
        locals := StoreAt(locals, start + i, stack[|stack| - 1]);
        stack := stack[..|stack| - 1];
        n := n - 1;
      }
      assert locals == locals[..start] + locals[start..];
      ok := true;
    }

    method FinishPushFrame(methRef: nat, maxLocals: nat, maxStack: nat, argsSize: nat)
      requires argsSize <= maxLocals && argsSize <= |locals|
      modifies this`locals, this`prevFrames, this`current
      ensures locals == old(locals) + Nulls(maxLocals - argsSize)
      ensures prevFrames == old(prevFrames) + [old(current)]
      ensures current == StackFrame(methRef, |stack|, maxStack, |old(locals)| - argsSize)
    {
      var start := |locals| - argsSize;
      locals := locals + Nulls(maxLocals - argsSize);
      prevFrames := prevFrames + [current];
      current := StackFrame(methRef, |stack|, maxStack, start);
    }

    /** A call's frame: the callee finds its arguments in its first locals, in order, null in the others,
        and no operands. */
    method PushFrame(methRef: nat, maxStack: nat, maxLocals: nat, argsSize: nat) returns (ok: bool)
      requires argsSize <= maxLocals
      modifies this
      ensures ok <==> argsSize <= |old(stack)|
      ensures ok ==>
                && stack == old(stack)[..|old(stack)| - argsSize] && Operands() == 0
                && prevFrames == old(prevFrames) + [old(current)]
                && current.localsStart == |old(locals)|
                && locals == old(locals) + old(stack)[|old(stack)| - argsSize..] + Nulls(maxLocals - argsSize)
    {
      ok := PopCreateArgs(argsSize);
      if ok {
        FinishPushFrame(methRef, maxLocals, maxStack, argsSize);
      }
    }

    /** Back to the caller: everything above the callee's marks is gone. */
    method PopFrame()
      modifies this
      ensures stack == Truncated(old(stack), old(current).stackStart)
      ensures locals == Truncated(old(locals), old(current).localsStart)
      ensures if old(prevFrames) == [] then prevFrames == [] && current == NO_FRAME
              else
                && prevFrames == old(prevFrames)[..|old(prevFrames)| - 1]
                && current == old(prevFrames)[|old(prevFrames)| - 1]
    {
      var popped := current;
      if prevFrames == [] {
        current := NO_FRAME;
      } else {
        current := prevFrames[|prevFrames| - 1];
        prevFrames := prevFrames[..|prevFrames| - 1];
      }
      locals := Truncated(locals, popped.localsStart);
      stack := Truncated(stack, popped.stackStart);
    }

    // ----- operands

    method PushSlot(s: JVMSlot)
      modifies this`stack
      ensures stack == old(stack) + [s]
    {
      stack := stack + [s];
    }

    method PushValue(v: JVMValue)
      modifies this`stack
      ensures stack == old(stack) + ToSlots(v)
    {
      stack := stack + ToSlots(v);
    }

    /** A guarded pop: it never takes what lies below the start of the frame's operands. */
    method PopSlot() returns (s: Option<JVMSlot>)
      modifies this`stack
      ensures old(Operands()) <= 0 ==> s == None && stack == old(stack)
      ensures old(Operands()) > 0 ==>
                s == Some(old(stack)[|old(stack)| - 1]) && stack == old(stack)[..|old(stack)| - 1]
    {
      if |stack| <= current.stackStart {
        return None;
      }
      s := Some(stack[|stack| - 1]);
      stack := stack[..|stack| - 1];
    }

    method IPop() returns (r: Result<i32, VMError>)
      modifies this`stack
      ensures old(Operands()) <= 0 ==> r == Err(StackUnderflow) && stack == old(stack)
      ensures old(Operands()) > 0 ==>
                r == Ok(AsI32(old(stack)[|old(stack)| - 1])) && stack == old(stack)[..|old(stack)| - 1]
    {
      var s := PopSlot();
      r := if s.Some? then Ok(AsI32(s.value)) else Err(StackUnderflow);
    }

    method APop() returns (r: Result<Ptr, VMError>)
      modifies this`stack
      ensures old(Operands()) <= 0 ==> r == Err(StackUnderflow) && stack == old(stack)
      ensures old(Operands()) > 0 ==>
                && stack == old(stack)[..|old(stack)| - 1]
                && r == match Target(old(stack)[|old(stack)| - 1]) case Some(p) => Ok(p) case None => Err(NotAnObject)
    {
      var s := PopSlot();
      if s.None? {
        return Err(StackUnderflow);
      }
      r := match Target(s.value) case Some(p) => Ok(p) case None => Err(NotAnObject);
    }

    /** The high half is on top. */
    method LPop() returns (r: Result<i64, VMError>)
      modifies this`stack
      ensures r.Ok? <==> old(Operands()) >= 2
      ensures r.Ok? ==>
                && stack == old(stack)[..|old(stack)| - 2]
                && r.value == ToI64(old(stack)[|old(stack)| - 2], old(stack)[|old(stack)| - 1])
      ensures r.Err? ==>
                && r.error == StackUnderflow
                && stack == old(stack)[..|old(stack)| - if old(Operands()) > 0 then 1 else 0]
    {
      var high :- IPop();
      var low :- IPop();
      r := Ok(Joined(low, high));
    }

    method Dup()
      modifies this`stack
      ensures old(Operands()) > 0 ==> stack == old(stack) + [old(stack)[|old(stack)| - 1]]
      ensures old(Operands()) <= 0 ==> stack == old(stack)
    {
      var s := PopSlot();
      if s.Some? {
        PushSlot(s.value);
        PushSlot(s.value);
      }
    }

    method Dup2()
      modifies this`stack
      ensures old(Operands()) >= 2 ==> stack == old(stack) + old(stack)[|old(stack)| - 2..]
      ensures old(Operands()) == 1 ==> stack == old(stack) + [old(stack)[|old(stack)| - 1]]
      ensures old(Operands()) <= 0 ==> stack == old(stack)
    {
      var s1 := PopSlot();
      var s2 := PopSlot();
      var twice := (if s2.Some? then [s2.value] else []) + (if s1.Some? then [s1.value] else []);
      stack := stack + twice + twice;
    }

    // ----- locals

    method ILoad(index: nat) returns (r: Result<i32, VMError>)
      ensures r == if index + current.localsStart < |locals| then Ok(AsI32(locals[index + current.localsStart]))
                   else Err(InvalidLocal(index))
    {
      r := if index + current.localsStart < |locals| then Ok(AsI32(locals[index + current.localsStart]))
           else Err(InvalidLocal(index));
    }

    /** The second half is at the next 16-bit index. */
    method LLoad(index: nat) returns (r: Result<i64, VMError>)
      requires index < 0x1_0000
      ensures r == if index + current.localsStart >= |locals| then Err(InvalidLocal(index))
                   else if Following(index) + current.localsStart >= |locals| then Err(InvalidLocal(Following(index)))
                   else Ok(ToI64(locals[index + current.localsStart], locals[Following(index) + current.localsStart]))
    {
      var low :- ILoad(index);
      var high :- ILoad(Following(index));
      r := Ok(Joined(low, high));
    }

    method ALoad(index: nat) returns (r: Result<Ptr, VMError>)
      ensures r == if index + current.localsStart >= |locals| then Err(InvalidLocal(index))
                   else
                     match Target(locals[index + current.localsStart])
                     case Some(p) => Ok(p)
                     case None => Err(NotAnObject)
    {
      if index + current.localsStart >= |locals| {
        return Err(InvalidLocal(index));
      }
      r := match Target(locals[index + current.localsStart]) case Some(p) => Ok(p) case None => Err(NotAnObject);
    }

    /** A store reaches the slots of the value and nothing else; one that does not fit changes nothing. */
    method VStore(index: nat, v: JVMValue) returns (ok: bool)
      modifies this`locals
      ensures ok <==> index + old(current).localsStart + |ToSlots(v)| <= |old(locals)|
      ensures |locals| == |old(locals)|
      ensures forall k :: 0 <= k < |locals| ==>
                locals[k] == if ok && index + current.localsStart <= k < index + current.localsStart + |ToSlots(v)|
                             then ToSlots(v)[k - index - current.localsStart] else old(locals)[k]
    {
      var at := index + current.localsStart;
      if at + |ToSlots(v)| > |locals| {
        return false;
      }
      locals := locals[..at] + ToSlots(v) + locals[at + |ToSlots(v)|..];
      ok := true;
    }
  }

  function Following(index: nat): nat {
    if index == 0xFFFF then 0 else index + 1
  }

  function StoreAt(slots: seq<JVMSlot>, i: nat, v: JVMSlot): (r: seq<JVMSlot>)
    requires i < |slots|
    ensures |r| == |slots| && r[i] == v && forall k :: 0 <= k < |slots| && k != i ==> r[k] == slots[k]
  {
    slots[i := v]
  }

  /** One argument moved from the top of the stack to its local. */
  lemma {:induction false} MovedOne(stack: seq<JVMSlot>, n: nat, locals: seq<JVMSlot>, start: nat, i: nat)
    requires 0 < n <= |stack| && start <= i < |locals| && locals[i + 1..] == stack[n..]
    ensures stack[..n][..n - 1] == stack[..n - 1] && stack[..n][n - 1] == stack[n - 1]
    ensures var after := StoreAt(locals, i, stack[n - 1]);
            after[..start] == locals[..start] && after[i..] == stack[n - 1..]
  {
    assert stack[n - 1..] == [stack[n - 1]] + stack[n..];
    assert StoreAt(locals, i, stack[n - 1])[i..] == [stack[n - 1]] + locals[i + 1..];
  }

  /** The value of the same kind as `v` that the slots hold. */
  function FromSlots(v: JVMValue, slots: seq<JVMSlot>): Option<JVMValue>
    requires |slots| == |ToSlots(v)|
  {
    match v
    case Object(_) => (match Target(slots[0]) case Some(p) => Some(Object(p)) case None => None)
    case Byte(_) => var i := AsI32(slots[0]); if -0x80 <= i < 0x80 then Some(Byte(i)) else None
    case Short(_) => var i := AsI32(slots[0]); if -0x8000 <= i < 0x8000 then Some(Short(i)) else None
    case Int(_) => Some(Int(AsI32(slots[0])))
    case Float(_) => Some(Float(AsI32(slots[0])))
    case Long(_) => Some(Long(ToI64(slots[0], slots[1])))
    case Double(_) => Some(Double(ToI64(slots[0], slots[1])))
  }

  /** Every value that was turned into slots is read back from them, and none but an object's slot is
      ever taken for a reference. */
  lemma {:induction false} ValuesSurvive(v: JVMValue)
    ensures FromSlots(v, ToSlots(v)) == Some(v)
    ensures !v.Object? ==> forall k :: 0 <= k < |ToSlots(v)| ==> Target(ToSlots(v)[k]) == None
  {
    hide FromI64, ToI64, FromI32, AsI32;
    match v
    case Object(p) =>
    case Byte(b) => IntSurvives(b);
    case Short(h) => IntSurvives(h);
    case Int(i) => IntSurvives(i);
    case Float(bits) => IntSurvives(bits);
    case Long(l) => LongSurvives(l);
    case Double(l) => LongSurvives(l);
  }

  /** The pops of a call's arguments are not guarded: a method without operands that makes a call with
      one argument takes an operand of its caller. */
  method OperandTaken() returns (ctx: ThreadContext)
    ensures fresh(ctx) && ctx.prevFrames != []
    ensures ctx.current.stackStart == 1 && ctx.stack == [] && ctx.Operands() < 0
  {
    ctx := new ThreadContext(1, 0);
    ctx.PushSlot(FromI32(7));
    ctx.FinishPushFrame(0, 0, 0, 0);
    var ok := ctx.PopCreateArgs(1);
  }
}
