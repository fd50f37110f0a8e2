/** The bytecode stream: the decoder that the opcode table generates, and the iterator over it
    (janadinite-parse/src/class.rs:50-605, macros/src/opcode_decode.rs:264-331). */
module Bytecode {
  import opened Wrappers
  import Bytes

  type byte = Bytes.byte

  /** The longest code that a 16-bit counter can walk through. */
  const MAX_CODE := 65535

  /** An instruction, by the opcode of its long form and its operands. `Wide` instructions were
      prefixed; `Invalid` keeps the byte that could not be decoded. */
  datatype OpCode =
    | Op(code: byte, args: seq<int>)
    | Wide(code: byte, args: seq<int>)
    | Invalid(op: byte)

  const BIPUSH: byte := 0x10
  const WIDE: byte := 0xc4
  const IINC: byte := 0x84

  datatype Operand = U8 | I8 | U16 | I16

  function Size(k: Operand): nat {
    if k.U8? || k.I8? then 1 else 2
  }

  function TotalSize(kinds: seq<Operand>): nat {
    if kinds == [] then 0 else Size(kinds[0]) + TotalSize(kinds[1..])
  }

  predicate Fits(v: int, k: Operand) {
    match k
    case U8 => 0 <= v < 0x100
    case I8 => -0x80 <= v < 0x80
    case U16 => 0 <= v < 0x1_0000
    case I16 => -0x8000 <= v < 0x8000
  }

  predicate AllFit(args: seq<int>, kinds: seq<Operand>) {
    |args| == |kinds| && forall i :: 0 <= i < |args| ==> Fits(args[i], kinds[i])
  }

  /** The opcode table: the operands of every opcode that has a variant of its own. */
  function Table(op: byte): Option<seq<Operand>> {
    if 0x09 <= op <= 0x0f || 0x2e <= op <= 0x35 || 0x4f <= op <= 0x56 || 0x59 <= op <= 0x5e
       || 0x60 <= op <= 0x83 || 0x85 <= op <= 0x87 || 0x94 <= op <= 0x98 || 0xac <= op <= 0xb1 || op == 0xbe then
      Some([])
    else if op == 0x12 || IsLocal(op) || op == 0xbc then
      Some([U8])
    else if op == 0x13 || op == 0x14 || 0xb2 <= op <= 0xb8 || op == 0xbb || op == 0xbd then
      Some([U16])
    else if op == 0xa7 || 0x9f <= op <= 0xa4 || op == 0x99 || op == 0x9a then
      Some([I16])
    else if op == IINC then
      Some([U8, I8])
    else if op == 0xc5 then
      Some([U16, U8])
    else
      None
  }

  /** The loads and stores of a local variable. */
  predicate IsLocal(op: byte) {
    0x15 <= op <= 0x19 || 0x36 <= op <= 0x3a
  }

  /** The variants behind the wide prefix. */
  function WideTable(op: byte): Option<seq<Operand>> {
    if IsLocal(op) then Some([U16]) else if op == IINC then Some([U16, I16]) else None
  }

  /** The one-byte forms: four opcodes for each load and store. */
  function ShortForm(op: byte): Option<OpCode> {
    if 0x1a <= op <= 0x2d then Some(Op(0x15 + (op - 0x1a) / 4, [(op - 0x1a) % 4]))
    else if 0x3b <= op <= 0x4e then Some(Op(0x36 + (op - 0x3b) / 4, [(op - 0x3b) % 4]))
    else if 0x02 <= op <= 0x08 then Some(Op(BIPUSH, [op - 0x03]))
    else None
  }

  /** One operand at `pc`, if there are enough bytes. */
  function Read(bytes: seq<byte>, pc: nat, k: Operand): Option<int> {
    if pc + Size(k) > |bytes| then None else
      match k
      case U8 => Some(bytes[pc])
      case I8 => Some(if bytes[pc] < 0x80 then bytes[pc] else bytes[pc] as int - 0x100)
      case U16 => Some(bytes[pc] as int * 0x100 + bytes[pc + 1])
      case I16 =>
        var u := bytes[pc] as int * 0x100 + bytes[pc + 1];
        Some(if u < 0x8000 then u else u - 0x1_0000)
  }

  /** Operands in order, and where the counter stands afterwards: past the complete ones. */
  function ReadAll(bytes: seq<byte>, pc: nat, kinds: seq<Operand>): (Option<seq<int>>, nat)
    decreases |kinds|
  {
    if kinds == [] then (Some([]), pc) else
      match Read(bytes, pc, kinds[0])
      case None => (None, pc)
      case Some(v) =>
        var (rest, end) := ReadAll(bytes, pc + Size(kinds[0]), kinds[1..]);
        (if rest.Some? then Some([v] + rest.value) else None, end)
  }

  /** The generated decoder, for the opcode `op` that was read just before `pc`. */
  function Decode(op: byte, bytes: seq<byte>, pc: nat): (Option<OpCode>, nat) {
    if Table(op).Some? then
      var (args, end) := ReadAll(bytes, pc, Table(op).value);
      (Some(if args.Some? then Op(op, args.value) else Invalid(op)), end)
    else if op == WIDE then
      if pc >= |bytes| then (Some(Invalid(op)), pc)
      else if WideTable(bytes[pc]).None? then (Some(Invalid(op)), pc + 1)
      else
        var (args, end) := ReadAll(bytes, pc + 1, WideTable(bytes[pc]).value);
        (Some(if args.Some? then Wide(bytes[pc], args.value) else Invalid(op)), end)
    else if ShortForm(op).Some? then
      (ShortForm(op), pc)
    else if op == BIPUSH then
      var (args, end) := ReadAll(bytes, pc, [I8]);
      (if args.Some? then Some(Op(BIPUSH, args.value)) else None, end)
    else
      (Some(Invalid(op)), pc)
  }

  /** `next_op`. */
  function NextOp(bytes: seq<byte>, pc: nat): (Option<OpCode>, nat) {
    if pc >= |bytes| then (None, pc) else Decode(bytes[pc], bytes, pc + 1)
  }

  /** The iterator, whose counter has sixteen bits. */
  class Instructions {
    const bytes: seq<byte>
    var pc: nat

    constructor (code: seq<byte>)
      ensures bytes == code && pc == 0
    {
      bytes, pc := code, 0;
    }

    /** One step; for code that the counter can address it never leaves the code. */
    method Next() returns (op: Option<OpCode>)
      requires |bytes| <= MAX_CODE && pc <= MAX_CODE
      modifies this
      ensures (op, pc) == NextOp(bytes, old(pc))
      ensures pc <= MAX_CODE
      ensures op.Some? ==> old(pc) < pc <= |bytes|
    {
      NextOpAdvances(bytes, pc);
      if pc >= |bytes| {
        return None;
      }
      var code := bytes[pc];
      pc := pc + 1;
      if Table(code).Some? {
        var args := Operands(Table(code).value);
        op := Some(if args.Some? then Op(code, args.value) else Invalid(code));
      } else if code == WIDE {
        if pc >= |bytes| {
          return Some(Invalid(code));
        }
        var widened := bytes[pc];
        pc := pc + 1;
        if WideTable(widened).None? {
          return Some(Invalid(code));
        }
        var args := Operands(WideTable(widened).value);
        op := Some(if args.Some? then Wide(widened, args.value) else Invalid(code));
      } else if ShortForm(code).Some? {
        op := ShortForm(code);
      } else if code == BIPUSH {
        var args := Operands([I8]);
        op := if args.Some? then Some(Op(BIPUSH, args.value)) else None;
      } else {
        op := Some(Invalid(code));
      }
    }

    /** The operands of one instruction, read one after the other. */
    method Operands(kinds: seq<Operand>) returns (args: Option<seq<int>>)
      modifies this
      ensures (args, pc) == ReadAll(bytes, old(pc), kinds)
    {
      var done: seq<int> := [];
      PrependNone(ReadAll(bytes, pc, kinds));
      assert kinds[0..] == kinds;
      for i := 0 to |kinds|
        invariant ReadAll(bytes, old(pc), kinds) == Prepend(done, ReadAll(bytes, pc, kinds[i..]))
      {
        var v := Read(bytes, pc, kinds[i]);
        assert kinds[i..][1..] == kinds[i + 1..];
        if v.None? {
          return None;
        }
        PrependOne(done, v.value, ReadAll(bytes, pc + Size(kinds[i]), kinds[i + 1..]));
        done := done + [v.value];
        pc := pc + Size(kinds[i]);
      }
      assert done + [] == done;
      args := Some(done);
    }
  }

  ghost function Prepend(done: seq<int>, r: (Option<seq<int>>, nat)): (Option<seq<int>>, nat) {
    (if r.0.Some? then Some(done + r.0.value) else None, r.1)
  }

  lemma {:induction false} PrependNone(r: (Option<seq<int>>, nat))
    ensures Prepend([], r) == r
  {
    if r.0.Some? {
      assert [] + r.0.value == r.0.value;
    }
  }

  lemma {:induction false} PrependOne(done: seq<int>, v: int, r: (Option<seq<int>>, nat))
    ensures Prepend(done, (if r.0.Some? then Some([v] + r.0.value) else None, r.1)) == Prepend(done + [v], r)
  {
    if r.0.Some? {
      assert done + ([v] + r.0.value) == done + [v] + r.0.value;
    }
  }

  // ----- progress

  lemma {:induction false} ReadAllBounds(bytes: seq<byte>, pc: nat, kinds: seq<Operand>)
    requires pc <= |bytes|
    ensures pc <= ReadAll(bytes, pc, kinds).1 <= |bytes|
    ensures ReadAll(bytes, pc, kinds).0.Some? ==> ReadAll(bytes, pc, kinds).1 == pc + TotalSize(kinds)
    ensures ReadAll(bytes, pc, kinds).0.Some? ==> AllFit(ReadAll(bytes, pc, kinds).0.value, kinds)
    ensures ReadAll(bytes, pc, kinds).0.Some? <==> pc + TotalSize(kinds) <= |bytes|
    decreases |kinds|
  {
    if kinds != [] && Read(bytes, pc, kinds[0]).Some? {
      ReadAllBounds(bytes, pc + Size(kinds[0]), kinds[1..]);
    }
  }

  lemma {:induction false} ReadAllSize(bytes: seq<byte>, pc: nat, kinds: seq<Operand>)
    ensures ReadAll(bytes, pc, kinds).1 <= pc + TotalSize(kinds)
    decreases |kinds|
  {
    if kinds != [] {
      ReadAllSize(bytes, pc + Size(kinds[0]), kinds[1..]);
    }
  }

  /** No instruction takes more than six bytes. */
  lemma {:induction false} NextOpSize(bytes: seq<byte>, pc: nat)
    ensures NextOp(bytes, pc).1 <= pc + 6
  {
    if pc < |bytes| {
      var op := bytes[pc];
      if Table(op).Some? {
        ReadAllSize(bytes, pc + 1, Table(op).value);
      } else if op == WIDE && pc + 1 < |bytes| && WideTable(bytes[pc + 1]).Some? {
        ReadAllSize(bytes, pc + 2, WideTable(bytes[pc + 1]).value);
      } else {
        ReadAllSize(bytes, pc + 1, [I8]);
      }
    }
  }

  /** The counter moves forward and stays inside the code; decoding stops only at the end of the code
      or at a `bipush` whose operand is missing. */
  lemma {:induction false} NextOpAdvances(bytes: seq<byte>, pc: nat)
    ensures pc < |bytes| ==> pc < NextOp(bytes, pc).1 <= |bytes|
    ensures NextOp(bytes, pc).0.None? <==> pc >= |bytes| || (bytes[pc] == BIPUSH && pc + 1 == |bytes|)
  {
    if pc < |bytes| {
      var op := bytes[pc];
      if Table(op).Some? {
        ReadAllBounds(bytes, pc + 1, Table(op).value);
      } else if op == WIDE && pc + 1 < |bytes| && WideTable(bytes[pc + 1]).Some? {
        ReadAllBounds(bytes, pc + 2, WideTable(bytes[pc + 1]).value);
      } else {
        ReadAllBounds(bytes, pc + 1, [I8]);
      }
    }
  }

  /** All instructions from `pc` on; this ends for every code. */
  function Stream(bytes: seq<byte>, pc: nat): seq<OpCode>
    decreases |bytes| - pc
  {
    if pc >= |bytes| then [] else
      NextOpAdvances(bytes, pc);
      match NextOp(bytes, pc)
      case (None, _) => []
      case (Some(op), next) => [op] + Stream(bytes, next)
  }

  // ----- the format, and its inverse

  function Write(v: int, k: Operand): (b: seq<byte>)
    requires Fits(v, k)
    ensures |b| == Size(k)
  {
    match k
    case U8 => [v]
    case I8 => [if v >= 0 then v else v + 0x100]
    case U16 => [v / 0x100, v % 0x100]
    case I16 =>
      var u := if v >= 0 then v else v + 0x1_0000;
      [u / 0x100, u % 0x100]
  }

  function WriteAll(args: seq<int>, kinds: seq<Operand>): (b: seq<byte>)
    requires AllFit(args, kinds)
    ensures |b| == TotalSize(kinds)
  {
    if args == [] then [] else Write(args[0], kinds[0]) + WriteAll(args[1..], kinds[1..])
  }

  /** The operands that an instruction must have. */
  function Format(i: OpCode): Option<seq<Operand>> {
    match i
    case Op(code, _) => if code == BIPUSH then Some([I8]) else Table(code)
    case Wide(code, _) => WideTable(code)
    case Invalid(_) => None
  }

  predicate WellFormed(i: OpCode) {
    !i.Invalid? && Format(i).Some? && AllFit(i.args, Format(i).value)
  }

  /** An instruction in its long form: the prefix if it is wide, the opcode, and the operands. */
  function Encode(i: OpCode): (b: seq<byte>)
    requires WellFormed(i)
  {
    (if i.Wide? then [WIDE] else []) + [i.code] + WriteAll(i.args, Format(i).value)
  }

  lemma {:induction false} ReadWritten(bytes: seq<byte>, pc: nat, v: int, k: Operand)
    requires Fits(v, k) && pc + Size(k) <= |bytes| && bytes[pc..pc + Size(k)] == Write(v, k)
    ensures Read(bytes, pc, k) == Some(v)
  {
  }

  lemma {:induction false} ReadAllWritten(bytes: seq<byte>, pc: nat, args: seq<int>, kinds: seq<Operand>)
    requires AllFit(args, kinds)
    requires pc + TotalSize(kinds) <= |bytes| && bytes[pc..pc + TotalSize(kinds)] == WriteAll(args, kinds)
    ensures ReadAll(bytes, pc, kinds) == (Some(args), pc + TotalSize(kinds))
    decreases |kinds|
  {
    hide Read, Write, Fits;
    if kinds != [] {
      var n := Size(kinds[0]);
      Slices(bytes, pc, n, TotalSize(kinds), Write(args[0], kinds[0]), WriteAll(args[1..], kinds[1..]));
      ReadWritten(bytes, pc, args[0], kinds[0]);
      ReadAllWritten(bytes, pc + n, args[1..], kinds[1..]);
      assert [args[0]] + args[1..] == args;
    }
  }

  lemma {:induction false} Slices(bytes: seq<byte>, pc: nat, n: nat, total: nat, a: seq<byte>, b: seq<byte>)
    requires pc + total <= |bytes| && n <= total && bytes[pc..pc + total] == a + b && |a| == n
    ensures bytes[pc..pc + n] == a
    ensures bytes[pc + n..pc + total] == b
  {
    assert bytes[pc..pc + total][..n] == bytes[pc..pc + n];
    assert bytes[pc..pc + total][n..] == bytes[pc + n..pc + total];
  }

  /** Every instruction is decoded from its long form, wherever that stands, and the counter moves past
      exactly that form. */
  lemma {:induction false} DecodeEncoded(before: seq<byte>, i: OpCode, after: seq<byte>)
    requires WellFormed(i)
    ensures NextOp(before + Encode(i) + after, |before|) == (Some(i), |before| + |Encode(i)|)
  {
    hide ReadAll, WriteAll, AllFit;
    var bytes, pc := before + Encode(i) + after, |before|;
    var kinds := Format(i).value;
    var start := if i.Wide? then pc + 2 else pc + 1;
    assert bytes[start..start + TotalSize(kinds)] == WriteAll(i.args, kinds);
    ReadAllWritten(bytes, start, i.args, kinds);
    if i.Wide? {
      assert bytes[pc] == WIDE && bytes[pc + 1] == i.code;
    } else {
      assert bytes[pc] == i.code;
    }
  }

  /** A program in long form. */
  function Assemble(program: seq<OpCode>): seq<byte>
    requires forall k :: 0 <= k < |program| ==> WellFormed(program[k])
  {
    if program == [] then [] else Encode(program[0]) + Assemble(program[1..])
  }

  lemma {:induction false} EncodeNotEmpty(i: OpCode)
    requires WellFormed(i)
    ensures |Encode(i)| > 0
  {
  }

  /** Decoding an assembled program gives the program back. */
  lemma {:induction false} StreamOfAssembled(before: seq<byte>, program: seq<OpCode>)
    requires forall k :: 0 <= k < |program| ==> WellFormed(program[k])
    ensures Stream(before + Assemble(program), |before|) == program
    decreases |program|
  {
    hide Encode, NextOp, WellFormed;
    if program != [] {
      var i, rest := program[0], program[1..];
      var bytes := before + Assemble(program);
      assert bytes == before + Encode(i) + Assemble(rest) == (before + Encode(i)) + Assemble(rest);
      DecodeEncoded(before, i, Assemble(rest));
      EncodeNotEmpty(i);
      StreamOfAssembled(before + Encode(i), rest);
      assert [i] + rest == program;
    }
  }

  /** What was decoded is well formed, and the counter has moved by the length of one of its forms: the
      one-byte form, or the long one. */
  lemma {:induction false} DecodedForm(bytes: seq<byte>, pc: nat)
    requires pc < |bytes|
    ensures var (r, next) := NextOp(bytes, pc);
            r.Some? && !r.value.Invalid? ==>
              && WellFormed(r.value)
              && ((ShortForm(bytes[pc]) == r && next == pc + 1)
                  || (bytes[pc] == (if r.value.Wide? then WIDE else r.value.code) && next == pc + |Encode(r.value)|))
  {
    var op := bytes[pc];
    if Table(op).Some? {
      ReadAllBounds(bytes, pc + 1, Table(op).value);
    } else if op == WIDE && pc + 1 < |bytes| && WideTable(bytes[pc + 1]).Some? {
      ReadAllBounds(bytes, pc + 2, WideTable(bytes[pc + 1]).value);
    } else if op == BIPUSH {
      ReadAllBounds(bytes, pc + 1, [I8]);
    }
  }

  // ----- from the bytes alone

  /** The two bytes at `i`, the high one first. */
  function Word(bytes: seq<byte>, i: nat): nat
    requires i + 1 < |bytes|
  {
    bytes[i] as int * 0x100 + bytes[i + 1] as int
  }

  lemma {:induction false} OneOperand(bytes: seq<byte>, pc: nat, k: Operand)
    ensures var v := Read(bytes, pc, k);
            ReadAll(bytes, pc, [k]) == if v.Some? then (Some([v.value]), pc + Size(k)) else (None, pc)
  {
    hide Read;
    assert [k][1..] == [];
    if Read(bytes, pc, k).Some? {
      assert ReadAll(bytes, pc + Size(k), []) == (Some([]), pc + Size(k));
      assert [Read(bytes, pc, k).value] + [] == [Read(bytes, pc, k).value];
    }
  }

  lemma {:induction false} TwoOperands(bytes: seq<byte>, pc: nat, k: Operand, l: Operand)
    ensures var v, w := Read(bytes, pc, k), Read(bytes, pc + Size(k), l);
            ReadAll(bytes, pc, [k, l]) == if v.None? then (None, pc)
                                          else if w.None? then (None, pc + Size(k))
                                          else (Some([v.value, w.value]), pc + Size(k) + Size(l))
  {
    hide Read;
    assert [k, l][1..] == [l];
    OneOperand(bytes, pc + Size(k), l);
    if Read(bytes, pc, k).Some? && Read(bytes, pc + Size(k), l).Some? {
      assert [Read(bytes, pc, k).value] + [Read(bytes, pc + Size(k), l).value]
          == [Read(bytes, pc, k).value, Read(bytes, pc + Size(k), l).value];
    }
  }

  /** The opcodes without operands: constants, array accesses, duplications, arithmetic, conversions,
      comparisons, returns and the array length. */
  lemma {:induction false} PlainOpcode(bytes: seq<byte>, pc: nat)
    requires pc < |bytes|
    requires var op := bytes[pc];
             0x09 <= op <= 0x0f || 0x2e <= op <= 0x35 || 0x4f <= op <= 0x56 || 0x59 <= op <= 0x5e || 0x60 <= op <= 0x83
             || 0x85 <= op <= 0x87 || 0x94 <= op <= 0x98 || 0xac <= op <= 0xb1 || op == 0xbe
    ensures NextOp(bytes, pc) == (Some(Op(bytes[pc], [])), pc + 1)
  {
    assert ReadAll(bytes, pc + 1, []) == (Some([]), pc + 1);
  }

  /** One unsigned byte: the short constant loads, loads and stores of locals, and arrays of a primitive type. A
      missing byte makes the instruction invalid. */
  lemma {:induction false} ByteOperand(bytes: seq<byte>, pc: nat)
    requires pc < |bytes|
    requires var op := bytes[pc]; op == 0x12 || 0x15 <= op <= 0x19 || 0x36 <= op <= 0x3a || op == 0xbc
    ensures NextOp(bytes, pc)
         == if pc + 1 < |bytes| then (Some(Op(bytes[pc], [bytes[pc + 1]])), pc + 2)
            else (Some(Invalid(bytes[pc])), pc + 1)
  {
    hide Read;
    OneOperand(bytes, pc + 1, U8);
    ReadPlain(bytes, pc + 1);
  }

  /** The four ways to read an operand. */
  lemma {:induction false} ReadPlain(bytes: seq<byte>, pc: nat)
    ensures Read(bytes, pc, U8) == if pc < |bytes| then Some(bytes[pc] as int) else None
    ensures Read(bytes, pc, U16) == if pc + 1 < |bytes| then Some(Word(bytes, pc)) else None
    ensures Read(bytes, pc, I8).Some? <==> pc < |bytes|
    ensures Read(bytes, pc, I16).Some? <==> pc + 1 < |bytes|
    ensures pc < |bytes| ==> IsSigned(Read(bytes, pc, I8).value, bytes[pc] as int, 0x100)
    ensures pc + 1 < |bytes| ==> IsSigned(Read(bytes, pc, I16).value, Word(bytes, pc), 0x1_0000)
  {
  }

  /** Two bytes, unsigned: indices into the constant pool. */
  lemma {:induction false} WordOperand(bytes: seq<byte>, pc: nat)
    requires pc < |bytes|
    requires var op := bytes[pc]; op == 0x13 || op == 0x14 || 0xb2 <= op <= 0xb8 || op == 0xbb || op == 0xbd
    ensures NextOp(bytes, pc)
         == if pc + 2 < |bytes| then (Some(Op(bytes[pc], [Word(bytes, pc + 1)])), pc + 3)
            else (Some(Invalid(bytes[pc])), pc + 1)
  {
    hide Read;
    OneOperand(bytes, pc + 1, U16);
    ReadPlain(bytes, pc + 1);
  }

  /** Two bytes, signed: the offsets of branches. */
  lemma {:induction false} BranchOperand(bytes: seq<byte>, pc: nat)
    requires pc < |bytes|
    requires var op := bytes[pc]; op == 0xa7 || op == 0x99 || op == 0x9a || 0x9f <= op <= 0xa4
    ensures var (r, end) := NextOp(bytes, pc);
            if pc + 2 < |bytes| then
              && end == pc + 3 && r.Some? && r.value.Op? && r.value.code == bytes[pc] && |r.value.args| == 1
              && IsSigned(r.value.args[0], Word(bytes, pc + 1), 0x1_0000)
            else r == Some(Invalid(bytes[pc])) && end == pc + 1
  {
    hide Read;
    OneOperand(bytes, pc + 1, I16);
    ReadPlain(bytes, pc + 1);
  }

  /** The increment has an unsigned index and a signed amount. */
  lemma {:induction false} IncrementOperands(bytes: seq<byte>, pc: nat)
    requires pc < |bytes| && bytes[pc] == 0x84
    ensures var (r, end) := NextOp(bytes, pc);
            if pc + 2 < |bytes| then
              && end == pc + 3 && r.Some? && r.value.Op? && r.value.code == 0x84 && |r.value.args| == 2
              && r.value.args[0] == bytes[pc + 1] as int
              && IsSigned(r.value.args[1], bytes[pc + 2] as int, 0x100)
            else r == Some(Invalid(0x84)) && end == |bytes|
  {
    hide Read;
    TwoOperands(bytes, pc + 1, U8, I8);
    ReadPlain(bytes, pc + 1);
    ReadPlain(bytes, pc + 2);
  }

  /** The multi-dimensional array has an index into the pool and a number of dimensions. What was read before a
      missing byte has been passed. */
  lemma {:induction false} DimensionOperands(bytes: seq<byte>, pc: nat)
    requires pc < |bytes| && bytes[pc] == 0xc5
    ensures var (r, end) := NextOp(bytes, pc);
            if pc + 3 < |bytes| then r == Some(Op(0xc5, [Word(bytes, pc + 1), bytes[pc + 3]])) && end == pc + 4
            else r == Some(Invalid(0xc5)) && end == if pc + 2 < |bytes| then pc + 3 else pc + 1
  {
    hide Read;
    TwoOperands(bytes, pc + 1, U16, U8);
    ReadPlain(bytes, pc + 1);
    ReadPlain(bytes, pc + 3);
  }

  /** The small constants: the opcode says the value from -1 to 5, or the signed byte behind it does. */
  lemma {:induction false} ConstantOperand(bytes: seq<byte>, pc: nat)
    requires pc < |bytes|
    ensures 0x02 <= bytes[pc] <= 0x08 ==> NextOp(bytes, pc) == (Some(Op(0x10, [bytes[pc] as int - 3])), pc + 1)
    ensures bytes[pc] == 0x10 ==>
              var (r, end) := NextOp(bytes, pc);
              if pc + 1 < |bytes| then
                && end == pc + 2 && r.Some? && r.value.Op? && r.value.code == 0x10 && |r.value.args| == 1
                && IsSigned(r.value.args[0], bytes[pc + 1] as int, 0x100)
              else r.None? && end == pc + 1
  {
    hide Read;
    OneOperand(bytes, pc + 1, I8);
    ReadPlain(bytes, pc + 1);
  }

  /** The wide prefix: loads and stores with a two-byte index, and the increment with a two-byte signed amount as
      well; before anything else the prefix and the byte behind it are one invalid instruction. */
  lemma {:induction false} WideOperands(bytes: seq<byte>, pc: nat)
    requires pc + 1 < |bytes| && bytes[pc] == 0xc4
    ensures var widened, (r, end) := bytes[pc + 1], NextOp(bytes, pc);
            if 0x15 <= widened <= 0x19 || 0x36 <= widened <= 0x3a then
              (r, end) == if pc + 3 < |bytes| then (Some(Wide(widened, [Word(bytes, pc + 2)])), pc + 4)
                          else (Some(Invalid(0xc4)), pc + 2)
            else if widened == 0x84 then
              if pc + 5 < |bytes| then
                && end == pc + 6 && r.Some? && r.value.Wide? && r.value.code == 0x84 && |r.value.args| == 2
                && r.value.args[0] == Word(bytes, pc + 2)
                && IsSigned(r.value.args[1], Word(bytes, pc + 4), 0x1_0000)
              else (r, end) == (Some(Invalid(0xc4)), if pc + 3 < |bytes| then pc + 4 else pc + 2)
            else (r, end) == (Some(Invalid(0xc4)), pc + 2)
  {
    hide Read;
    OneOperand(bytes, pc + 2, U16);
    TwoOperands(bytes, pc + 2, U16, I16);
    ReadPlain(bytes, pc + 2);
    ReadPlain(bytes, pc + 4);
  }

  /** The one-byte loads and stores: five kinds, four locals each. */
  lemma {:induction false} ShortOperand(bytes: seq<byte>, pc: nat, k: nat, n: nat)
    requires pc < |bytes| && k < 5 && n < 4
    ensures bytes[pc] as int == 0x1a + 4 * k + n ==> NextOp(bytes, pc) == (Some(Op(0x15 + k, [n])), pc + 1)
    ensures bytes[pc] as int == 0x3b + 4 * k + n ==> NextOp(bytes, pc) == (Some(Op(0x36 + k, [n])), pc + 1)
  {
    assert (4 * k + n) / 4 == k && (4 * k + n) % 4 == n;
  }

  /** All other bytes are invalid instructions of one byte. */
  lemma {:induction false} OtherOpcode(bytes: seq<byte>, pc: nat)
    requires pc < |bytes|
    requires var op := bytes[pc];
             op <= 0x01 || op == 0x11 || op == 0x57 || op == 0x58 || op == 0x5f || 0x88 <= op <= 0x93
             || 0x9b <= op <= 0x9e || op == 0xa5 || op == 0xa6 || 0xa8 <= op <= 0xab || op == 0xb9 || op == 0xba
             || 0xbf <= op <= 0xc3 || 0xc6 <= op
    ensures NextOp(bytes, pc) == (Some(Invalid(bytes[pc])), pc + 1)
  {
  }

  // ----- equivalent forms

  /** The local variable that an instruction loads or stores, and how. */
  function LocalAccess(i: OpCode): Option<(byte, int)> {
    if !i.Invalid? && IsLocal(i.code) && i.args != [] then Some((i.code, i.args[0])) else None
  }

  /** The one-byte, the long and the wide form of a load or store denote the same access. */
  lemma {:induction false} FormsAgree(k: nat, n: nat, stores: bool)
    requires k < 5 && n < 4
    ensures var code: byte := (if stores then 0x36 else 0x15) + k;
            var short: byte := (if stores then 0x3b else 0x1a) + 4 * k + n;
            && NextOp([short], 0) == (Some(Op(code, [n])), 1)
            && NextOp([code, n], 0) == (Some(Op(code, [n])), 2)
            && NextOp([WIDE, code, 0, n], 0) == (Some(Wide(code, [n])), 4)
            && LocalAccess(Op(code, [n])) == LocalAccess(Wide(code, [n])) == Some((code, n))
  {
    LongForm((if stores then 0x36 else 0x15) + k, n);
  }

  lemma {:induction false} LongForm(code: byte, n: nat)
    requires IsLocal(code) && n < 0x100
    ensures NextOp([code, n], 0) == (Some(Op(code, [n])), 2)
    ensures NextOp([WIDE, code, 0, n], 0) == (Some(Wide(code, [n])), 4)
  {
    assert WriteAll([n], [U8]) == [n] && WriteAll([n], [U16]) == [0, n];
    DecodeEncoded([], Op(code, [n]), []);
    assert [] + Encode(Op(code, [n])) + [] == [code, n];
    DecodeEncoded([], Wide(code, [n]), []);
    assert [] + Encode(Wide(code, [n])) + [] == [WIDE, code, 0, n];
  }

  // ----- branches

  /** `last_pc.saturating_add_signed(offset)`. */
  function BranchTarget(at: nat, offset: int): nat {
    if at + offset < 0 then 0 else if at + offset > 65535 then 65535 else at + offset
  }
}
