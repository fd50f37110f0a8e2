/** What each opcode does to the stack and the locals, in plain numbers (src/vm/mod.rs:811-1240): opcodes by their
    codes, operands by their places, words by their bits. */
module Opcodes {
  import opened Wrappers
  import opened Slots
  import opened Bytecode
  import opened Frames
  import opened Execution

  predicate IsLong(code: byte) {
    code == 0x16 || code == 0x18 || code == 0x37 || code == 0x39 || code == 0xad || code == 0xaf
  }

  predicate IsReference(code: byte) {
    code == 0x19 || code == 0x3a || code == 0xb0
  }

  /** The place of a local in the shared vector. */
  function Place(m: Machine, index: nat): nat {
    m.current.localsStart + index
  }

  lemma {:induction false} KindsExact(code: byte)
    requires 0x15 <= code <= 0x19 || 0x36 <= code <= 0x3a || 0xac <= code <= 0xb0
    ensures IsWide64(code) <==> IsLong(code)
    ensures KindOf(code) == 4 <==> IsReference(code)
    ensures KindOf(code) == 2 <==> code == 0x17 || code == 0x38 || code == 0xae
    ensures KindOf(code) == 1 <==> code == 0x16 || code == 0x37 || code == 0xad
  {
  }

  // ----- loads and stores

  /** A load pushes the low 32 bits of its local, or of two neighbouring ones for a long or a double, or the
      reference in it; or it fails at the first local out of range, or at what is no reference. */
  lemma {:induction false} LoadExact(m: Machine, code: byte, index: nat)
    requires 0x15 <= code <= 0x19 && index < 0x1_0000
    ensures var at, next := Place(m, index), Place(m, if index == 0xFFFF then 0 else index + 1);
            match Loaded(m, code, index)
            case Err(e) =>
              if at >= |m.locals| then e == InvalidLocal(index)
              else if code == 0x16 || code == 0x18 then
                next >= |m.locals| && e == InvalidLocal(if index == 0xFFFF then 0 else index + 1)
              else code == 0x19 && m.locals[at] >= 0 && e == NotAnObject
            case Ok(after) =>
              && at < |m.locals| && after == m.(stack := after.stack)
              && if code == 0x16 || code == 0x18 then
                   next < |m.locals| && after.stack == m.stack + [Low(m.locals[at]), Low(m.locals[next])]
                 else if code == 0x19 then m.locals[at] < 0 && after.stack == m.stack + [m.locals[at]]
                 else after.stack == m.stack + [Low(m.locals[at])]
  {
    hide AsI32, FromI32, FromI64, ToI64, Low, IsWide64, KindOf;
    KindsExact(code);
    match Local(m, index)
    case None =>
    case Some(s) =>
      match Local(m, Following(index))
      case None => WordsExact(1, 0, 0, s, s);
      case Some(h) => WordsExact(1, 0, 0, s, h);
  }

  /** What a store or a return takes: the low 32 bits of the top operand, or of the two top ones with the high half on
      top, or the reference. */
  lemma {:induction false} TakeExact(m: Machine, code: byte)
    requires 0x36 <= code <= 0x3a || 0xac <= code <= 0xb0
    ensures var n, k := |m.stack|, if IsLong(code) then 2 else 1;
            match TakeValue(m, code)
            case Err(e) =>
              if n < m.current.stackStart + k then e == StackUnderflow
              else IsReference(code) && m.stack[n - 1] >= 0 && e == NotAnObject
            case Ok((v, after)) =>
              && n >= m.current.stackStart + k && after == m.(stack := m.stack[..n - k])
              && if IsReference(code) then m.stack[n - 1] < 0 && v == Object(-(m.stack[n - 1] as int))
                 else if code == 0x36 || code == 0xac then
                   v.Int? && IsSigned(v.i, Low(m.stack[n - 1]), 0x1_0000_0000)
                 else if code == 0x38 || code == 0xae then
                   v.Float? && IsSigned(v.bits, Low(m.stack[n - 1]), 0x1_0000_0000)
                 else if code == 0x37 || code == 0xad then
                   v.Long? && IsSigned(v.l, Low(m.stack[n - 2]) + 0x1_0000_0000 * Low(m.stack[n - 1]),
                                       0x1_0000_0000_0000_0000)
                 else
                   v.Double? && IsSigned(v.lbits, Low(m.stack[n - 2]) + 0x1_0000_0000 * Low(m.stack[n - 1]),
                                         0x1_0000_0000_0000_0000)
  {
    hide AsI32, ToI64, FromI32, FromI64, Low, IsWide64, KindOf, IsSigned;
    KindsExact(code);
    var n := |m.stack|;
    if n >= 2 {
      WordsExact(1, 0, 0, m.stack[n - 2], m.stack[n - 1]);
    }
    if n >= 1 {
      WordsExact(1, 0, 0, m.stack[n - 1], m.stack[n - 1]);
    }
  }

  /** The words that a value of the store's kind leaves in the locals. */
  function Words(m: Machine, code: byte): seq<JVMSlot>
    requires |m.stack| >= if IsLong(code) then 2 else 1
  {
    var n := |m.stack|;
    if IsLong(code) then [Low(m.stack[n - 2]), Low(m.stack[n - 1])]
    else if IsReference(code) then [m.stack[n - 1]]
    else [Low(m.stack[n - 1])]
  }

  lemma {:induction false} TakenWords(m: Machine, code: byte)
    requires 0x36 <= code <= 0x3a || 0xac <= code <= 0xb0
    ensures TakeValue(m, code).Ok? ==>
              |m.stack| >= (if IsLong(code) then 2 else 1) && ToSlots(TakeValue(m, code).value.0) == Words(m, code)
  {
    hide AsI32, ToI64, FromI32, FromI64, Low, IsWide64, KindOf;
    KindsExact(code);
    var n := |m.stack|;
    if n >= 2 {
      WordsExact(1, 0, 0, m.stack[n - 2], m.stack[n - 1]);
    }
    if n >= 1 {
      WordsExact(1, 0, 0, m.stack[n - 1], m.stack[n - 1]);
    }
  }

  /** A store takes its operands off the stack and puts their words into its local, or two neighbouring ones, and into
      no other. */
  lemma {:induction false} StoreExact(m: Machine, code: byte, index: nat)
    requires 0x36 <= code <= 0x3a
    ensures var at, n, k := Place(m, index), |m.stack|, if IsLong(code) then 2 else 1;
            match Stored(m, code, index)
            case Err(e) =>
              if n < m.current.stackStart + k then e == StackUnderflow
              else if code == 0x3a && m.stack[n - 1] >= 0 then e == NotAnObject
              else at + k > |m.locals| && e == InvalidLocal(index)
            case Ok(after) =>
              && n >= m.current.stackStart + k && at + k <= |m.locals| && |after.locals| == |m.locals|
              && after == m.(stack := m.stack[..n - k], locals := after.locals)
              && forall j :: 0 <= j < |m.locals| ==>
                   after.locals[j] == if at <= j < at + k then Words(m, code)[j - at] else m.locals[j]
  {
    hide TakeValue, ToSlots, Words, KindOf;
    TakeExact(m, code);
    TakenWords(m, code);
    if TakeValue(m, code).Ok? {
      WordCount(m, code);
    }
  }

  lemma {:induction false} WordCount(m: Machine, code: byte)
    requires |m.stack| >= if IsLong(code) then 2 else 1
    ensures |Words(m, code)| == if IsLong(code) then 2 else 1
  {
  }

  /** What a store put, the load of its kind brings back: the words of the value are on the stack again. */
  lemma {:induction false} StoreThenLoad(m: Machine, k: nat, index: nat)
    requires k < 5 && index < 0xFFFF && Stored(m, 0x36 + k, index).Ok?
    ensures var m1 := Stored(m, 0x36 + k, index).value;
            && |m.stack| >= (if IsLong(0x36 + k) then 2 else 1)
            && Loaded(m1, 0x15 + k, index) == Ok(m1.(stack := m1.stack + Words(m, 0x36 + k)))
  {
    hide Stored, Loaded, Low;
    var store: byte, load: byte := 0x36 + k, 0x15 + k;
    StoreExact(m, store, index);
    TakeReference(m, store, index);
    var m1 := Stored(m, store, index).value;
    LoadExact(m1, load, index);
    LowTwice(m.stack);
    var at := Place(m, index);
    assert m1.locals[at] == Words(m, store)[0];
    if IsLong(store) {
      assert m1.locals[at + 1] == Words(m, store)[1];
    }
  }

  lemma {:induction false} TakeReference(m: Machine, code: byte, index: nat)
    requires 0x36 <= code <= 0x3a && Stored(m, code, index).Ok?
    ensures code == 0x3a ==> |m.stack| > 0 && m.stack[|m.stack| - 1] < 0
  {
    hide PutLocal, ToSlots;
    TakeExact(m, code);
  }

  lemma {:induction false} LowTwice(slots: seq<JVMSlot>)
    ensures forall i :: 0 <= i < |slots| ==> Low(Low(slots[i])) == Low(slots[i])
  {
  }

  /** An increment changes one local, to the sum modulo two to the thirty-second. */
  lemma {:induction false} IncrementExact(m: Machine, index: nat, amount: int)
    ensures var at := Place(m, index);
            match Incremented(m, index, amount)
            case Err(e) => at >= |m.locals| && e == InvalidLocal(index)
            case Ok(after) =>
              && at < |m.locals| && |after.locals| == |m.locals| && after == m.(locals := after.locals)
              && 0 <= after.locals[at] < 0x1_0000_0000
              && (after.locals[at] - m.locals[at] - amount) % 0x1_0000_0000 == 0
              && forall j :: 0 <= j < |m.locals| && j != at ==> after.locals[j] == m.locals[j]
  {
    hide AsI32, FromI32, Wrapped;
    var at := Place(m, index);
    if at < |m.locals| {
      SumExact(m.locals[at], amount);
      assert ToSlots(Int(Wrapped(AsI32(m.locals[at]) + amount))) == [FromI32(Wrapped(AsI32(m.locals[at]) + amount))];
    }
  }

  lemma {:induction false} SumExact(s: JVMSlot, amount: int)
    ensures var w := FromI32(Wrapped(AsI32(s) + amount));
            0 <= w < 0x1_0000_0000 && (w - s - amount) % 0x1_0000_0000 == 0
  {
    var sum := AsI32(s) + amount;
    assert FromI32(Wrapped(sum)) == sum % U32_SIZE;
    assert (AsI32(s) - s) % U32_SIZE == 0;
    var a, b := (sum - sum % U32_SIZE) / U32_SIZE, (AsI32(s) - s) / U32_SIZE;
    assert sum % U32_SIZE - s - amount == (b - a) * U32_SIZE;
  }

  // ----- the other instructions

  /** Constants, duplications and branches: what they do to the stack of their frame. */
  lemma {:induction false} StackExact(code: byte, args: seq<int>, m: Machine, after: Machine)
    requires m.Inside() && Executes(Op(code, args), m, after)
    ensures var own, n := |m.stack| - m.current.stackStart, |m.stack|;
            && (code == 0x10 ==> |args| == 1 && after.stack == m.stack + [after.stack[n]]
                                 && IsSigned(args[0], after.stack[n], 0x1_0000_0000))
            && (code == 0x59 ==> after.stack == m.stack + if own == 0 then [] else [m.stack[n - 1]])
            && (code == 0x5c ==> after.stack == m.stack + if own == 0 then [] else if own == 1 then [m.stack[n - 1]]
                                                          else [m.stack[n - 2], m.stack[n - 1]])
            && (code == 0xa7 ==> after == m)
            && (code == 0x99 || code == 0x9a ==> own >= 1 && after.stack == m.stack[..n - 1])
            && (0x9f <= code <= 0xa4 ==> own >= 2 && after.stack == m.stack[..n - 2])
            && (code == 0x10 || code == 0x59 || code == 0x5c || code == 0x99 || code == 0x9a || 0x9f <= code <= 0xa4 ==>
                  after == m.(stack := after.stack))
  {
    hide Loaded, Stored, Incremented, Computes, AsI32, FromI32, Low, Holds;
    var n := |m.stack|;
    if code == 0x10 {
      WordsExact(1, args[0], 0, 0, 0);
      assert after.stack[n] == FromI32(args[0]);
    } else if code == 0x59 && n > m.current.stackStart {
      assert m.stack[n - 1..] == [m.stack[n - 1]];
    } else if code == 0x5c && n == m.current.stackStart + 1 {
      assert m.stack[n - 1..] == [m.stack[n - 1]];
    } else if code == 0x5c && n > m.current.stackStart + 1 {
      assert m.stack[n - 2..] == [m.stack[n - 2], m.stack[n - 1]];
    }
  }

  /** The instructions that are loads, stores and increments, in either form, and that end well or fail as these do. */
  lemma {:induction false} LocalsExact(op: OpCode, m: Machine, after: Machine, e: VMError)
    requires !op.Invalid?
    ensures 0x15 <= op.code <= 0x19 && Executes(op, m, after) ==>
              op.args != [] && op.args[0] >= 0 && Loaded(m, op.code, op.args[0]) == Ok(after)
    ensures 0x36 <= op.code <= 0x3a && Executes(op, m, after) ==>
              op.args != [] && op.args[0] >= 0 && Stored(m, op.code, op.args[0]) == Ok(after)
    ensures op.code == 0x84 && Executes(op, m, after) ==>
              |op.args| == 2 && op.args[0] >= 0 && Incremented(m, op.args[0], op.args[1]) == Ok(after)
    ensures 0x15 <= op.code <= 0x19 && FailsWith(op, m, e) ==>
              op.args != [] && op.args[0] >= 0 && Loaded(m, op.code, op.args[0]) == Err(e)
    ensures 0x36 <= op.code <= 0x3a && FailsWith(op, m, e) ==>
              op.args != [] && op.args[0] >= 0 && Stored(m, op.code, op.args[0]) == Err(e)
    ensures op.code == 0x84 && FailsWith(op, m, e) ==>
              |op.args| == 2 && op.args[0] >= 0 && Incremented(m, op.args[0], op.args[1]) == Err(e)
    ensures (op.code == 0x10 || op.code == 0x59 || op.code == 0x5c || op.code == 0xa7) ==> !FailsWith(op, m, e)
    ensures (op.code == 0x99 || op.code == 0x9a) && FailsWith(op, m, e) ==>
              e == StackUnderflow && |m.stack| < m.current.stackStart + 1
    ensures 0x9f <= op.code <= 0xa4 && FailsWith(op, m, e) ==>
              e == StackUnderflow && |m.stack| < m.current.stackStart + 2
  {
    hide Loaded, Stored, Incremented, Computes, Duplicated, AsI32, FromI32, Holds;
  }

  /** An instruction that was completed made a call exactly when its byte is from 0xb6 to 0xb8 and its operand is there,
      and was no return. */
  lemma {:induction false} NodeKinds(linker: Linker, code: Code, x: Node, fuel: nat)
    requires NodeOK(linker, code, x, fuel)
    ensures x.pc < |code.bytes|
    ensures x.call.Some? <==> 0xb6 <= code.bytes[x.pc] <= 0xb8 && x.pc + 2 < |code.bytes|
    ensures !(0xac <= code.bytes[x.pc] <= 0xb1)
  {
    hide NextOp, CallOK, Executes, Left, NextPc;
    NextOpAdvances(code.bytes, x.pc);
    var b := code.bytes[x.pc];
    NoCall(code.bytes, x.pc);
    if 0xb6 <= b <= 0xb8 {
      WordOperand(code.bytes, x.pc);
    } else if 0xac <= b <= 0xb1 {
      PlainOpcode(code.bytes, x.pc);
    }
  }

  /** No other opcode decodes to a call. */
  lemma {:induction false} NoCall(bytes: seq<byte>, pc: nat)
    requires pc < |bytes| && NextOp(bytes, pc).0.Some?
    ensures var op := NextOp(bytes, pc).0.value;
            !op.Invalid? && 0xb6 <= op.code <= 0xb8 ==> op.Op? && op.code == bytes[pc]
  {
    hide ReadAll;
  }

  // ----- calls

  /** How many slots below the top the arguments of a call start: the declared ones, and the receiver except for
      a static method. */
  function ArgumentSlots(code: byte, declared: nat): nat {
    if code == 0xb8 then declared else declared + 1
  }

  /** Every call takes exactly its arguments off the stack. The callee finds the operand below the declared arguments
      in its local 0 when it has a receiver, the arguments in order behind it, and null in its other locals. */
  lemma {:induction false} CallArguments(linker: Linker, class_: nat, op: OpCode, m: Machine, c: Call, fuel: nat)
    requires IsCall(op) && CallOK(linker, class_, op, m, c, fuel)
    ensures op.code == 0xb6 || op.code == 0xb7 || op.code == 0xb8
    ensures op.args != [] && linker.resolve(class_, op.args[0]).Some?
    ensures var d := linker.resolve(class_, op.args[0]).value.argsSize;
            var first := |m.stack| - ArgumentSlots(op.code, d);
            var base := |m.locals|;
            && first >= 0 && c.taken == |m.stack| - first && c.entered.stack == m.stack[..first]
            && |c.entered.locals| == base + c.callee.maxLocals && c.entered.locals[..base] == m.locals
            && c.entered.current.localsStart == base && c.entered.current.stackStart == first
            && c.entered.prevFrames == m.prevFrames + [m.current]
            && (op.code != 0xb8 ==> c.entered.locals[base] == m.stack[|m.stack| - d - 1])
            && c.entered.locals[base + (if op.code == 0xb8 then 0 else 1)..][..d] == m.stack[|m.stack| - d..]
            && forall j :: base + ArgumentSlots(op.code, d) <= j < |c.entered.locals| ==> c.entered.locals[j] == 0
  {
    hide Runs;
  }

  /** The body that runs is that of the resolved method, or for a virtual call what the receiver, which is the operand
      below the declared arguments, has in its place. */
  lemma {:induction false} CallTarget(linker: Linker, class_: nat, op: OpCode, m: Machine, c: Call, fuel: nat)
    requires IsCall(op) && CallOK(linker, class_, op, m, c, fuel)
    ensures op.args != [] && linker.resolve(class_, op.args[0]).Some?
    ensures var declared := linker.resolve(class_, op.args[0]).value;
            if op.code == 0xb6 then
              && |m.stack| > declared.argsSize && m.stack[|m.stack| - declared.argsSize - 1] < 0
              && linker.dispatch(declared, -(m.stack[|m.stack| - declared.argsSize - 1] as int), c.moment)
                 == Found(c.callee)
            else c.callee == declared
  {
    hide Runs, Entered;
  }

  /** When a call is refused: there is no such method; there are too few operands on the whole stack; the receiver of a
      virtual call is no reference, or to an array; or its class has no such method or the method too few locals, which
      panics. */
  lemma {:induction false} RefusalExact(linker: Linker, class_: nat, op: OpCode, stack: seq<JVMSlot>, moment: nat,
                                        out: Outcome)
    requires RefusedAt(linker, class_, op, stack, moment, out)
    ensures op.args != []
    ensures match linker.resolve(class_, op.args[0])
            case None => out == Failed(OtherError)
            case Some(declared) =>
              var d := declared.argsSize;
              if |stack| < ArgumentSlots(op.code, d) then out == Failed(StackUnderflow)
              else if op.code != 0xb6 then out == Panicked && declared.maxLocals < ArgumentSlots(op.code, d)
              else if stack[|stack| - d - 1] >= 0 then out == Failed(NotAnObject)
              else
                match linker.dispatch(declared, -(stack[|stack| - d - 1] as int), moment)
                case NotAnInstance => out == Failed(NotAnObject)
                case NoSuchMethod => out == Panicked
                case Found(callee) => out == Panicked && callee.maxLocals < d + 1
  {
  }

  // ----- returns

  /** A run that returns ends past its code, without a value, or at an opcode from 0xac to 0xb1: 0xb1 returns
      nothing, each other one what it takes from its operands. */
  lemma {:induction false} ReturnExact(linker: Linker, code: Code, m: Machine, run: Run, fuel: nat)
    requires Runs(linker, code, m, run, fuel) && run.out.Returned?
    ensures var pc, last := LastPc(run.nodes), LastState(m, run.nodes);
            match NextOp(code.bytes, pc).0
            case None => run.out.value == None && run.end == last
            case Some(op) =>
              && pc < |code.bytes| && op.Op? && op.code == code.bytes[pc] && 0xac <= code.bytes[pc] <= 0xb1
              && if code.bytes[pc] == 0xb1 then run.out.value == None && run.end == last
                 else run.out.value.Some? && TakeValue(last, code.bytes[pc]) == Ok((run.out.value.value, run.end))
  {
    hide NextOp, Steps, CallOK, FailsWith, TakeValue, Decide;
    var pc := LastPc(run.nodes);
    if pc < |code.bytes| && NextOp(code.bytes, pc).0.Some? {
      NoReturn(code.bytes, pc);
    } else {
      NextOpAdvances(code.bytes, pc);
    }
  }

  /** No other opcode decodes to a return. */
  lemma {:induction false} NoReturn(bytes: seq<byte>, pc: nat)
    requires pc < |bytes| && NextOp(bytes, pc).0.Some?
    ensures var op := NextOp(bytes, pc).0.value;
            !op.Invalid? && 0xac <= op.code <= 0xb1 ==> op.Op? && op.code == bytes[pc]
  {
    hide ReadAll;
  }
}
