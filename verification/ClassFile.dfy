/** Class-file items and their binary form (janadinite-parse/src/class/constant_pool.rs:203-399,
    janadinite-parse/src/class/raw.rs:166-366). Modified UTF-8 is a parameter; floating-point constants
    are their bits. */
module ClassFile {
  import opened Wrappers
  import opened Bytes

  /** The modified UTF-8 codec. */
  datatype Mutf8 = Mutf8(encode: string -> seq<byte>, decode: seq<byte> -> Option<string>)

  /** What is decoded after it was encoded is the same string. */
  ghost predicate Inverse(utf8: Mutf8) {
    forall s: string :: utf8.decode(utf8.encode(s)) == Some(s)
  }

  datatype ConstantPoolEntry =
    | Utf8(text: string)
    | Integer(bytes: nat)
    | Float(bits: nat)
    | Long(bytes64: nat)
    | Double(bits64: nat)
    | Class(nameIndex: nat)
    | String(stringIndex: nat)
    | Fieldref(classIndex: nat, nameAndTypeIndex: nat)
    | Methodref(classIndex: nat, nameAndTypeIndex: nat)
    | InterfaceMethodref(classIndex: nat, nameAndTypeIndex: nat)
    | NameAndType(nameIndex: nat, descriptorIndex: nat)
    | MethodHandle(kind: nat, reference: nat)
    | MethodType(descriptorIndex: nat)
    | InvokeDynamic(bootstrap: nat, nameAndTypeIndex: nat)
    | Unusable

  predicate IsWide(e: ConstantPoolEntry) {
    e.Long? || e.Double?
  }

  predicate IsNaN32(bits: nat) {
    (bits / 0x80_0000) % 0x100 == 0xFF && bits % 0x80_0000 != 0
  }

  predicate IsNaN64(bits: nat) {
    (bits / 0x10_0000_0000_0000) % 0x800 == 0x7FF && bits % 0x10_0000_0000_0000 != 0
  }

  const NAN32 := 0xFFFF_FFFF
  const NAN64 := 0xFFFF_FFFF_FFFF_FFFF

  /** What is written for a float: every NaN becomes the same. */
  function FloatBits(bits: nat): nat {
    if IsNaN32(bits) then NAN32 else bits
  }

  function DoubleBits(bits: nat): nat {
    if IsNaN64(bits) then NAN64 else bits
  }

  predicate U8(v: nat) {
    v < Power(1)
  }

  predicate U16(v: nat) {
    v < Power(2)
  }

  /** The entry's numbers fit their fields, and its string fits its length field. */
  predicate Sized(utf8: Mutf8, e: ConstantPoolEntry) {
    match e
    case Utf8(s) => U16(|utf8.encode(s)|)
    case Integer(b) => b < Power(4)
    case Float(b) => b < Power(4)
    case Long(b) => b < Power(8)
    case Double(b) => b < Power(8)
    case Class(i) => U16(i)
    case String(i) => U16(i)
    case Fieldref(c, n) => U16(c) && U16(n)
    case Methodref(c, n) => U16(c) && U16(n)
    case InterfaceMethodref(c, n) => U16(c) && U16(n)
    case NameAndType(n, d) => U16(n) && U16(d)
    case MethodHandle(k, r) => U8(k) && U16(r)
    case MethodType(d) => U16(d)
    case InvokeDynamic(b, n) => U16(b) && U16(n)
    case Unusable => true
  }

  /** NaN constants are the one that is written. */
  predicate Canonical(e: ConstantPoolEntry) {
    (e.Float? ==> FloatBits(e.bits) == e.bits) && (e.Double? ==> DoubleBits(e.bits64) == e.bits64)
  }

  function Two(tag: nat, a: nat, na: nat, b: nat, nb: nat): seq<byte> {
    ToBytes(tag, 1) + (ToBytes(a, na) + ToBytes(b, nb))
  }

  function EncodeEntry(utf8: Mutf8, e: ConstantPoolEntry): Result<seq<byte>, Error> {
    match e
    case Utf8(s) =>
      if U16(|utf8.encode(s)|) then Ok(ToBytes(1, 1) + (ToBytes(|utf8.encode(s)|, 2) + utf8.encode(s)))
      else Err(InvalidData)
    case Integer(b) => Ok(ToBytes(3, 1) + ToBytes(b, 4))
    case Float(b) => Ok(ToBytes(4, 1) + ToBytes(FloatBits(b), 4))
    case Long(b) => Ok(ToBytes(5, 1) + ToBytes(b, 8))
    case Double(b) => Ok(ToBytes(6, 1) + ToBytes(DoubleBits(b), 8))
    case Class(i) => Ok(ToBytes(7, 1) + ToBytes(i, 2))
    case String(i) => Ok(ToBytes(8, 1) + ToBytes(i, 2))
    case Fieldref(c, n) => Ok(Two(9, c, 2, n, 2))
    case Methodref(c, n) => Ok(Two(10, c, 2, n, 2))
    case InterfaceMethodref(c, n) => Ok(Two(11, c, 2, n, 2))
    case NameAndType(n, d) => Ok(Two(12, n, 2, d, 2))
    case MethodHandle(k, r) => Ok(Two(15, k, 1, r, 2))
    case MethodType(d) => Ok(ToBytes(16, 1) + ToBytes(d, 2))
    case InvokeDynamic(b, n) => Ok(Two(18, b, 2, n, 2))
    case Unusable => Ok([])
  }

  /** Two numbers, one after the other. */
  function ReadTwo(b: seq<byte>, na: nat, nb: nat): Parse<(nat, nat)> {
    var (x, b1) :- ReadUint(b, na);
    var (y, b2) :- ReadUint(b1, nb);
    Done((x, y), b2)
  }

  function DecodeText(utf8: Mutf8, b: seq<byte>): Parse<ConstantPoolEntry> {
    var (len, b1) :- ReadUint(b, 2);
    var (data, b2) :- Take(b1, len);
    match utf8.decode(data)
    case None => Fail(InvalidData)
    case Some(s) => Done(Utf8(s), b2)
  }

  function DecodeEntry(utf8: Mutf8, b: seq<byte>): (r: Parse<ConstantPoolEntry>)
    ensures r.Done? ==> |r.rest| < |b|
  {
    var (tag, b1) :- ReadUint(b, 1);
    if tag == 1 then DecodeText(utf8, b1)
    else if tag == 3 || tag == 4 then
      var (v, b2) :- ReadUint(b1, 4);
      Done(if tag == 3 then Integer(v) else Float(v), b2)
    else if tag == 5 || tag == 6 then
      var (v, b2) :- ReadUint(b1, 8);
      Done(if tag == 5 then Long(v) else Double(v), b2)
    else if tag == 7 || tag == 8 || tag == 16 then
      var (v, b2) :- ReadUint(b1, 2);
      Done(if tag == 7 then Class(v) else if tag == 8 then String(v) else MethodType(v), b2)
    else if tag == 15 then
      var (v, b2) :- ReadTwo(b1, 1, 2);
      Done(MethodHandle(v.0, v.1), b2)
    else if 9 <= tag <= 12 || tag == 18 then
      var (v, b2) :- ReadTwo(b1, 2, 2);
      Done(match tag
           case 9 => Fieldref(v.0, v.1)
           case 10 => Methodref(v.0, v.1)
           case 11 => InterfaceMethodref(v.0, v.1)
           case 12 => NameAndType(v.0, v.1)
           case _ => InvokeDynamic(v.0, v.1), b2)
    else
      Fail(InvalidData)
  }

  lemma {:induction false} Regroup(a: seq<byte>, b: seq<byte>, c: seq<byte>)
    ensures a + (b + c) == a + b + c
  {
  }

  lemma {:induction false} TwoWritten(a: nat, na: nat, b: nat, nb: nat, rest: seq<byte>)
    requires a < Power(na) && b < Power(nb)
    ensures ReadTwo(ToBytes(a, na) + ToBytes(b, nb) + rest, na, nb) == Done((a, b), rest)
  {
    hide ReadUint, ToBytes;
    ReadWritten(a, na, ToBytes(b, nb) + rest);
    Regroup(ToBytes(a, na), ToBytes(b, nb), rest);
    ReadWritten(b, nb, rest);
  }

  lemma {:induction false} TagWritten(tag: nat, body: seq<byte>, rest: seq<byte>)
    requires tag < 256
    ensures ReadUint(ToBytes(tag, 1) + body + rest, 1) == Done(tag, body + rest)
  {
    Powers();
    ReadWritten(tag, 1, body + rest);
    assert ToBytes(tag, 1) + (body + rest) == ToBytes(tag, 1) + body + rest;
  }

  /** An entry is read back from its bytes as it is written: with NaNs canonical, exactly itself. */
  lemma {:induction false} EntryRoundTrip(utf8: Mutf8, e: ConstantPoolEntry, rest: seq<byte>)
    requires Inverse(utf8) && Sized(utf8, e) && !e.Unusable?
    ensures EncodeEntry(utf8, e).Ok?
    ensures var r := DecodeEntry(utf8, EncodeEntry(utf8, e).value + rest);
            && r.Done? && r.rest == rest
            && r.value == (match e
                           case Float(b) => Float(FloatBits(b))
                           case Double(b) => Double(DoubleBits(b))
                           case _ => e)
    ensures DecodeEntry(utf8, EncodeEntry(utf8, e).value + rest) == Done(e, rest) <==> Canonical(e)
  {
    hide ReadUint, Two, IsNaN32, IsNaN64;
    Powers();
    match e
    case Utf8(s) =>
      var data := utf8.encode(s);
      TagWritten(1, ToBytes(|data|, 2) + data, rest);
      assert ToBytes(|data|, 2) + data + rest == ToBytes(|data|, 2) + (data + rest);
      ReadWritten(|data|, 2, data + rest);
      TakeWritten(data, rest);
    case Integer(b) => TagWritten(3, ToBytes(b, 4), rest); ReadWritten(b, 4, rest);
    case Float(b) => TagWritten(4, ToBytes(FloatBits(b), 4), rest); ReadWritten(FloatBits(b), 4, rest);
    case Long(b) => TagWritten(5, ToBytes(b, 8), rest); ReadWritten(b, 8, rest);
    case Double(b) => TagWritten(6, ToBytes(DoubleBits(b), 8), rest); ReadWritten(DoubleBits(b), 8, rest);
    case Class(i) => TagWritten(7, ToBytes(i, 2), rest); ReadWritten(i, 2, rest);
    case String(i) => TagWritten(8, ToBytes(i, 2), rest); ReadWritten(i, 2, rest);
    case MethodType(i) => TagWritten(16, ToBytes(i, 2), rest); ReadWritten(i, 2, rest);
    case Fieldref(c, n) => TwoTagged(9, c, 2, n, 2, rest);
    case Methodref(c, n) => TwoTagged(10, c, 2, n, 2, rest);
    case InterfaceMethodref(c, n) => TwoTagged(11, c, 2, n, 2, rest);
    case NameAndType(c, n) => TwoTagged(12, c, 2, n, 2, rest);
    case MethodHandle(c, n) => TwoTagged(15, c, 1, n, 2, rest);
    case InvokeDynamic(c, n) => TwoTagged(18, c, 2, n, 2, rest);
  }

  lemma {:induction false} TwoTagged(tag: nat, a: nat, na: nat, b: nat, nb: nat, rest: seq<byte>)
    requires tag < 256 && a < Power(na) && b < Power(nb)
    ensures var r := ReadUint(Two(tag, a, na, b, nb) + rest, 1);
            r.Done? && r.value == tag && ReadTwo(r.rest, na, nb) == Done((a, b), rest)
  {
    TagWritten(tag, ToBytes(a, na) + ToBytes(b, nb), rest);
    TwoWritten(a, na, b, nb, rest);
  }

  /** The numbers that fit one byte and two; a string is written exactly when its bytes can be counted by two. */
  lemma {:induction false} LimitsExact(utf8: Mutf8, s: string, v: nat)
    ensures U8(v) <==> v <= 0xFF
    ensures U16(v) <==> v <= 0xFFFF
    ensures var n := |utf8.encode(s)|;
            if n <= 0xFFFF then EncodeEntry(utf8, Utf8(s)).Ok? else EncodeEntry(utf8, Utf8(s)) == Err(InvalidData)
  {
    Powers();
  }

  /** Which bits are a NaN: all exponent bits, and some bit of the fraction. Every other float or double is written as
      its own bits, every NaN as all ones; so a constant is what it is written as unless it is another NaN. */
  lemma {:induction false} NaNExact(b: nat, d: nat)
    requires b <= 0xFFFF_FFFF && d <= 0xFFFF_FFFF_FFFF_FFFF
    ensures FloatBits(b) == if 0x7F80_0000 < b < 0x8000_0000 || 0xFF80_0000 < b then 0xFFFF_FFFF else b
    ensures DoubleBits(d) == if 0x7FF0_0000_0000_0000 < d < 0x8000_0000_0000_0000 || 0xFFF0_0000_0000_0000 < d
                             then 0xFFFF_FFFF_FFFF_FFFF else d
    ensures Canonical(Float(b)) <==>
              !(0x7F80_0000 < b < 0x8000_0000 || 0xFF80_0000 < b) || b == 0xFFFF_FFFF
    ensures Canonical(Double(d)) <==>
              !(0x7FF0_0000_0000_0000 < d < 0x8000_0000_0000_0000 || 0xFFF0_0000_0000_0000 < d)
              || d == 0xFFFF_FFFF_FFFF_FFFF
  {
  }

  /** How many bytes follow a tag that has a fixed size. */
  function BodySize(tag: byte): Option<nat> {
    match tag
    case 3 => Some(4)
    case 4 => Some(4)
    case 5 => Some(8)
    case 6 => Some(8)
    case 7 => Some(2)
    case 8 => Some(2)
    case 9 => Some(4)
    case 10 => Some(4)
    case 11 => Some(4)
    case 12 => Some(4)
    case 15 => Some(3)
    case 16 => Some(2)
    case 18 => Some(4)
    case _ => None
  }

  /** When an entry cannot be decoded: an unknown tag, or text that is none, is invalid data; and anything cut short is
      an unexpected end. */
  lemma {:induction false} EntryFails(utf8: Mutf8, b: seq<byte>)
    ensures b == [] ==> DecodeEntry(utf8, b) == Fail(UnexpectedEof)
    ensures b != [] && BodySize(b[0]).Some? ==>
              if |b| < 1 + BodySize(b[0]).value then DecodeEntry(utf8, b) == Fail(UnexpectedEof)
              else DecodeEntry(utf8, b).Done? && DecodeEntry(utf8, b).rest == b[1 + BodySize(b[0]).value..]
    ensures b != [] && b[0] == 1 ==>
              if |b| < 3 || |b| < 3 + b[1] as int * 0x100 + b[2] as int then
                DecodeEntry(utf8, b) == Fail(UnexpectedEof)
              else
                var end := 3 + b[1] as int * 0x100 + b[2] as int;
                DecodeEntry(utf8, b) == match utf8.decode(b[3..end])
                                        case None => Fail(InvalidData)
                                        case Some(s) => Done(Utf8(s), b[end..])
    ensures b != [] && b[0] != 1 && BodySize(b[0]).None? ==> DecodeEntry(utf8, b) == Fail(InvalidData)
  {
    hide BigEndian, DecodeText;
    if b != [] {
      WordsExact(b[0], 0);
      assert b[..1] == [b[0]];
      if b[0] == 1 {
        TextFails(utf8, b);
      }
    }
  }

  lemma {:induction false} TextFails(utf8: Mutf8, b: seq<byte>)
    requires b != []
    ensures DecodeText(utf8, b[1..])
         == if |b| < 3 || |b| < 3 + b[1] as int * 0x100 + b[2] as int then Fail(UnexpectedEof)
            else
              var end := 3 + b[1] as int * 0x100 + b[2] as int;
              match utf8.decode(b[3..end]) case None => Fail(InvalidData) case Some(s) => Done(Utf8(s), b[end..])
  {
    hide BigEndian;
    if |b| >= 3 {
      WordsExact(b[1], b[2]);
      assert b[1..][..2] == [b[1], b[2]];
      var end := 3 + b[1] as int * 0x100 + b[2] as int;
      if end <= |b| {
        assert b[1..][2..][..end - 3] == b[3..end] && b[1..][2..][end - 3..] == b[end..];
      }
    }
  }

  // ----- the constant pool

  /** `encode_items` over a pool: the entry after an 8-byte constant writes nothing. */
  function EncodePool(utf8: Mutf8, pool: seq<ConstantPoolEntry>): Result<seq<byte>, Error> {
    if pool == [] then Ok([]) else
      match EncodeEntry(utf8, pool[0])
      case Err(e) => Err(e)
      case Ok(b) =>
        match EncodePool(utf8, pool[1..])
        case Err(e) => Err(e)
        case Ok(rest) => Ok(b + rest)
  }

  /** The index of the pool loop is a `u16`, and wraps. */
  function NextIndex(index: nat, e: ConstantPoolEntry): nat {
    var next := index + if IsWide(e) then 2 else 1;
    if next > 65535 then next - 65536 else next
  }

  /** The pool loop, from `index` to the given count. */
  function DecodePool(utf8: Mutf8, b: seq<byte>, index: nat, count: nat, pool: seq<ConstantPoolEntry>)
      : Parse<seq<ConstantPoolEntry>>
    decreases |b|
  {
    if index >= count then Done(pool, b) else
      var (entry, rest) :- DecodeEntry(utf8, b);
      DecodePool(utf8, rest, NextIndex(index, entry), count,
                 pool + if IsWide(entry) then [entry, Unusable] else [entry])
  }

  /** From `i` on, every entry is usable and an 8-byte constant is followed by one unusable entry, as
      section 4.4.5 of the Java Virtual Machine Specification has it. */
  predicate Structured(utf8: Mutf8, pool: seq<ConstantPoolEntry>, i: nat)
    requires i <= |pool|
    decreases |pool| - i
  {
    i == |pool| ||
    (!pool[i].Unusable? && Sized(utf8, pool[i]) && Canonical(pool[i]) &&
     if IsWide(pool[i]) then i + 1 < |pool| && pool[i + 1].Unusable? && Structured(utf8, pool, i + 2)
     else Structured(utf8, pool, i + 1))
  }

  predicate WellFormedPool(utf8: Mutf8, pool: seq<ConstantPoolEntry>) {
    0 < |pool| <= 65535 && pool[0].Unusable? && Structured(utf8, pool, 1)
  }

  /** Where the pool loop stops for a count: it does not stop inside an 8-byte constant. */
  function Stop(pool: seq<ConstantPoolEntry>, count: nat): nat {
    if count < |pool| && pool[count].Unusable? then count + 1 else count
  }

  function PoolBytes(utf8: Mutf8, pool: seq<ConstantPoolEntry>): seq<byte> {
    match EncodePool(utf8, pool) case Ok(b) => b case Err(_) => []
  }

  lemma {:induction false} PoolEncodes(utf8: Mutf8, pool: seq<ConstantPoolEntry>)
    requires forall i :: 0 <= i < |pool| ==> Sized(utf8, pool[i])
    ensures EncodePool(utf8, pool).Ok?
    ensures pool != [] ==>
              EncodeEntry(utf8, pool[0]).Ok? &&
              PoolBytes(utf8, pool) == EncodeEntry(utf8, pool[0]).value + PoolBytes(utf8, pool[1..])
  {
    if pool != [] {
      PoolEncodes(utf8, pool[1..]);
    }
  }

  lemma {:induction false} StructuredSized(utf8: Mutf8, pool: seq<ConstantPoolEntry>, i: nat)
    requires i <= |pool| && Structured(utf8, pool, i)
    ensures forall j :: i <= j < |pool| ==> Sized(utf8, pool[j])
    decreases |pool| - i
  {
    if i < |pool| {
      StructuredSized(utf8, pool, if IsWide(pool[i]) then i + 2 else i + 1);
    }
  }

  /** One turn of the pool loop over an encoded pool. */
  lemma {:induction false} PoolStep(utf8: Mutf8, pool: seq<ConstantPoolEntry>, i: nat, rest: seq<byte>)
    requires Inverse(utf8) && i < |pool| && Structured(utf8, pool, i)
    ensures var step := if IsWide(pool[i]) then 2 else 1;
            && i + step <= |pool|
            && DecodeEntry(utf8, PoolBytes(utf8, pool[i..]) + rest)
               == Done(pool[i], PoolBytes(utf8, pool[i + step..]) + rest)
            && pool[i..i + step] == if IsWide(pool[i]) then [pool[i], Unusable] else [pool[i]]
  {
    hide DecodeEntry, Sized, Canonical, EncodePool;
    StructuredSized(utf8, pool, i);
    var e := pool[i];
    PoolEncodes(utf8, pool[i..]);
    assert pool[i..][1..] == pool[i + 1..];
    var tail := PoolBytes(utf8, pool[i + 1..]);
    EntryRoundTrip(utf8, e, tail + rest);
    assert EncodeEntry(utf8, e).value + (tail + rest) == PoolBytes(utf8, pool[i..]) + rest;
    if IsWide(e) {
      PoolEncodes(utf8, pool[i + 1..]);
      assert pool[i + 1..][1..] == pool[i + 2..];
      assert tail == PoolBytes(utf8, pool[i + 2..]);
    }
  }

  /** Decoding an encoded pool with any count gives the pool up to where the loop stops, and leaves the
      bytes of the entries after that. */
  lemma {:induction false} PoolUpTo(utf8: Mutf8, pool: seq<ConstantPoolEntry>, i: nat, count: nat,
                                    done: seq<ConstantPoolEntry>, rest: seq<byte>)
    requires Inverse(utf8) && count <= |pool| <= 65535
    requires i <= Stop(pool, count) && Structured(utf8, pool, i)
    ensures DecodePool(utf8, PoolBytes(utf8, pool[i..]) + rest, i, count, done)
         == Done(done + pool[i..Stop(pool, count)], PoolBytes(utf8, pool[Stop(pool, count)..]) + rest)
    decreases |pool| - i
  {
    hide DecodeEntry, Sized, Canonical, PoolBytes, EncodePool, Inverse;
    var stop := Stop(pool, count);
    if i < count {
      var step := if IsWide(pool[i]) then 2 else 1;
      PoolStep(utf8, pool, i, rest);
      PoolUpTo(utf8, pool, i + step, count, done + pool[i..i + step], rest);
      assert done + pool[i..i + step] + pool[i + step..stop] == done + pool[i..stop];
    } else {
      assert i == stop;
      assert done + pool[i..stop] == done;
    }
  }

  /** The pool body comes back whole when the count is the length of the pool. */
  lemma {:induction false} PoolRoundTrip(utf8: Mutf8, pool: seq<ConstantPoolEntry>, rest: seq<byte>)
    requires Inverse(utf8) && WellFormedPool(utf8, pool)
    ensures EncodePool(utf8, pool).Ok?
    ensures DecodePool(utf8, EncodePool(utf8, pool).value + rest, 1, |pool|, [Unusable]) == Done(pool, rest)
  {
    hide DecodePool, EncodePool;
    PoolHead(utf8, pool);
    PoolUpTo(utf8, pool, 1, |pool|, [Unusable], rest);
    assert Stop(pool, |pool|) == |pool|;
    assert [Unusable] + pool[1..|pool|] == pool;
    assert pool[|pool|..] == [];
    NoEntries(utf8);
    assert PoolBytes(utf8, []) + rest == rest;
  }

  lemma {:induction false} NoEntries(utf8: Mutf8)
    ensures PoolBytes(utf8, []) == []
  {
  }

  lemma {:induction false} PoolHead(utf8: Mutf8, pool: seq<ConstantPoolEntry>)
    requires WellFormedPool(utf8, pool)
    ensures EncodePool(utf8, pool).Ok? && PoolBytes(utf8, pool) == PoolBytes(utf8, pool[1..])
  {
    StructuredSized(utf8, pool, 1);
    PoolEncodes(utf8, pool);
  }

  /** Only the first entry and the one after an 8-byte constant are unusable. */
  ghost predicate Shaped(pool: seq<ConstantPoolEntry>) {
    && pool != [] && pool[0].Unusable?
    && forall i :: 0 < i < |pool| ==> (pool[i].Unusable? <==> pool[i - 1].Long? || pool[i - 1].Double?)
  }

  /** A decoded pool has as many entries as the count says, or one more when the last constant takes 8 bytes. */
  ghost predicate HasCount(pool: seq<ConstantPoolEntry>, count: nat) {
    |pool| == count || (|pool| == count + 1 && pool[count].Unusable?)
  }

  /** Whatever bytes a pool is decoded from, it has the shape above; and it has the count, unless the count is
      65535 and the constant at the last index takes 8 bytes: then the index wraps, and as many entries again
      are read. */
  lemma {:induction false} DecodedPoolIsShaped(utf8: Mutf8, b: seq<byte>, count: nat)
    requires count <= 65535
    ensures var r := DecodePool(utf8, b, 1, count, [Unusable]);
            r.Done? ==>
              && Shaped(r.value)
              && (if HasCount(r.value, count) then count == 65535 ==> |r.value| == 65535
                  else count == 65535 && |r.value| >= 131071 && IsWide(r.value[65534]))
  {
    PoolShape(utf8, b, 1, count, [Unusable]);
  }

  /** The same from any turn of the loop: the pool has as many entries as the index says, or the index has
      wrapped, after an 8-byte constant at its largest value but one. */
  lemma {:induction false} PoolShape(utf8: Mutf8, b: seq<byte>, index: nat, count: nat, pool: seq<ConstantPoolEntry>)
    requires Shaped(pool) && !IsWide(pool[|pool| - 1]) && count <= 65535 && index <= 65535 && index <= count + 1
    requires |pool| == index || (count == 65535 && |pool| >= 65536 + index && IsWide(pool[65534]))
    requires |pool| == index == count + 1 ==> pool[count].Unusable?
    ensures var r := DecodePool(utf8, b, index, count, pool);
            r.Done? ==> Shaped(r.value) && pool <= r.value
                        && ((HasCount(r.value, count) && (count == 65535 ==> |r.value| == 65535))
                            || (count == 65535 && |r.value| >= 131071 && IsWide(r.value[65534])))
    decreases |b|
  {
    hide DecodeEntry;
    if index < count {
      var r := DecodeEntry(utf8, b);
      if r.Done? {
        EntryIsUsable(utf8, b);
        var next := pool + if IsWide(r.value) then [r.value, Unusable] else [r.value];
        PoolShape(utf8, r.rest, NextIndex(index, r.value), count, next);
      }
    }
  }

  lemma {:induction false} EntryIsUsable(utf8: Mutf8, b: seq<byte>)
    ensures var r := DecodeEntry(utf8, b); r.Done? ==> !r.value.Unusable?
  {
  }

  // ----- attributes, fields and methods

  datatype AttributeInfo = AttributeInfo(nameIndex: nat, info: seq<byte>)

  /** A `field_info` or a `method_info`: the two have the same layout. */
  datatype MemberInfo = MemberInfo(access: nat, nameIndex: nat, descriptorIndex: nat, attributes: seq<AttributeInfo>)

  predicate ValidAttribute(a: AttributeInfo) {
    U16(a.nameIndex) && |a.info| < Power(4)
  }

  predicate ValidAttributes(attributes: seq<AttributeInfo>) {
    forall i :: 0 <= i < |attributes| ==> ValidAttribute(attributes[i])
  }

  predicate ValidMember(m: MemberInfo) {
    U16(m.access) && U16(m.nameIndex) && U16(m.descriptorIndex) && U16(|m.attributes|) && ValidAttributes(m.attributes)
  }

  predicate ValidMembers(members: seq<MemberInfo>) {
    forall i :: 0 <= i < |members| ==> ValidMember(members[i])
  }

  function EncodeAttribute(a: AttributeInfo): seq<byte> {
    ToBytes(a.nameIndex, 2) + (ToBytes(|a.info|, 4) + a.info)
  }

  function EncodeAttributes(attributes: seq<AttributeInfo>): seq<byte> {
    if attributes == [] then [] else EncodeAttribute(attributes[0]) + EncodeAttributes(attributes[1..])
  }

  function EncodeMember(m: MemberInfo): seq<byte> {
    ToBytes(m.access, 2) + (ToBytes(m.nameIndex, 2) + (ToBytes(m.descriptorIndex, 2)
      + (ToBytes(|m.attributes|, 2) + EncodeAttributes(m.attributes))))
  }

  function EncodeMembers(members: seq<MemberInfo>): seq<byte> {
    if members == [] then [] else EncodeMember(members[0]) + EncodeMembers(members[1..])
  }

  function EncodeIndices(indices: seq<nat>): seq<byte> {
    if indices == [] then [] else ToBytes(indices[0], 2) + EncodeIndices(indices[1..])
  }

  function DecodeAttribute(b: seq<byte>): Parse<AttributeInfo> {
    var (name, b1) :- ReadUint(b, 2);
    var (len, b2) :- ReadUint(b1, 4);
    var (info, b3) :- Take(b2, len);
    Done(AttributeInfo(name, info), b3)
  }

  function DecodeAttributes(b: seq<byte>, n: nat): Parse<seq<AttributeInfo>>
    decreases n
  {
    if n == 0 then Done([], b) else
      var (a, b1) :- DecodeAttribute(b);
      var (rest, b2) :- DecodeAttributes(b1, n - 1);
      Done([a] + rest, b2)
  }

  function DecodeMember(b: seq<byte>): Parse<MemberInfo> {
    var (access, b1) :- ReadUint(b, 2);
    var (name, b2) :- ReadUint(b1, 2);
    var (descriptor, b3) :- ReadUint(b2, 2);
    var (count, b4) :- ReadUint(b3, 2);
    var (attributes, b5) :- DecodeAttributes(b4, count);
    Done(MemberInfo(access, name, descriptor, attributes), b5)
  }

  function DecodeMembers(b: seq<byte>, n: nat): Parse<seq<MemberInfo>>
    decreases n
  {
    if n == 0 then Done([], b) else
      var (m, b1) :- DecodeMember(b);
      var (rest, b2) :- DecodeMembers(b1, n - 1);
      Done([m] + rest, b2)
  }

  function DecodeIndices(b: seq<byte>, n: nat): Parse<seq<nat>>
    decreases n
  {
    if n == 0 then Done([], b) else
      var (i, b1) :- ReadUint(b, 2);
      var (rest, b2) :- DecodeIndices(b1, n - 1);
      Done([i] + rest, b2)
  }

  /** A number in front of more bytes. */
  lemma {:induction false} NumberFirst(v: nat, n: nat, more: seq<byte>, rest: seq<byte>)
    requires v < Power(n)
    ensures ReadUint(ToBytes(v, n) + more + rest, n) == Done(v, more + rest)
  {
    ReadWritten(v, n, more + rest);
    assert ToBytes(v, n) + (more + rest) == ToBytes(v, n) + more + rest;
  }

  lemma {:induction false} AttributeRoundTrip(a: AttributeInfo, rest: seq<byte>)
    requires ValidAttribute(a)
    ensures DecodeAttribute(EncodeAttribute(a) + rest) == Done(a, rest)
  {
    hide ReadUint, ToBytes;
    NumberFirst(a.nameIndex, 2, ToBytes(|a.info|, 4) + a.info, rest);
    NumberFirst(|a.info|, 4, a.info, rest);
    TakeWritten(a.info, rest);
  }

  lemma {:induction false} AttributesRoundTrip(attributes: seq<AttributeInfo>, rest: seq<byte>)
    requires ValidAttributes(attributes)
    ensures DecodeAttributes(EncodeAttributes(attributes) + rest, |attributes|) == Done(attributes, rest)
  {
    hide DecodeAttribute, EncodeAttribute, ValidAttribute;
    if attributes == [] {
      assert [] + rest == rest;
    } else {
      var a, more := attributes[0], attributes[1..];
      AttributeRoundTrip(a, EncodeAttributes(more) + rest);
      assert EncodeAttribute(a) + (EncodeAttributes(more) + rest) == EncodeAttributes(attributes) + rest;
      AttributesRoundTrip(more, rest);
      assert [a] + more == attributes;
    }
  }

  lemma {:induction false} MemberRoundTrip(m: MemberInfo, rest: seq<byte>)
    requires ValidMember(m)
    ensures DecodeMember(EncodeMember(m) + rest) == Done(m, rest)
  {
    hide ReadUint, ToBytes, ValidAttributes, EncodeAttributes, DecodeAttributes;
    var b4 := EncodeAttributes(m.attributes);
    var b3 := ToBytes(|m.attributes|, 2) + b4;
    var b2 := ToBytes(m.descriptorIndex, 2) + b3;
    var b1 := ToBytes(m.nameIndex, 2) + b2;
    NumberFirst(m.access, 2, b1, rest);
    NumberFirst(m.nameIndex, 2, b2, rest);
    NumberFirst(m.descriptorIndex, 2, b3, rest);
    NumberFirst(|m.attributes|, 2, b4, rest);
    AttributesRoundTrip(m.attributes, rest);
  }

  lemma {:induction false} MembersRoundTrip(members: seq<MemberInfo>, rest: seq<byte>)
    requires ValidMembers(members)
    ensures DecodeMembers(EncodeMembers(members) + rest, |members|) == Done(members, rest)
  {
    hide DecodeMember, EncodeMember, ValidMember;
    if members == [] {
      assert [] + rest == rest;
    } else {
      var m, more := members[0], members[1..];
      MemberRoundTrip(m, EncodeMembers(more) + rest);
      assert EncodeMember(m) + (EncodeMembers(more) + rest) == EncodeMembers(members) + rest;
      MembersRoundTrip(more, rest);
      assert [m] + more == members;
    }
  }

  lemma {:induction false} IndicesRoundTrip(indices: seq<nat>, rest: seq<byte>)
    requires forall i :: 0 <= i < |indices| ==> U16(indices[i])
    ensures DecodeIndices(EncodeIndices(indices) + rest, |indices|) == Done(indices, rest)
  {
    hide ReadUint, ToBytes;
    if indices == [] {
      assert [] + rest == rest;
    } else {
      var more := indices[1..];
      NumberFirst(indices[0], 2, EncodeIndices(more), rest);
      IndicesRoundTrip(more, rest);
      assert [indices[0]] + more == indices;
    }
  }

  // ----- the class file

  const MAGIC := 0xCAFE_BABE

  datatype RawClassFile = RawClassFile(
    magic: nat,
    minor: nat,
    major: nat,
    pool: seq<ConstantPoolEntry>,
    access: nat,
    thisClass: nat,
    superClass: nat,
    interfaces: seq<nat>,
    fields: seq<MemberInfo>,
    methods: seq<MemberInfo>,
    attributes: seq<AttributeInfo>
  )

  /** What follows the pool. */
  function EncodeTail(f: RawClassFile): seq<byte> {
    ToBytes(f.access, 2) + (ToBytes(f.thisClass, 2) + (ToBytes(f.superClass, 2)
      + (ToBytes(|f.interfaces|, 2) + (EncodeIndices(f.interfaces)
      + (ToBytes(|f.fields|, 2) + (EncodeMembers(f.fields)
      + (ToBytes(|f.methods|, 2) + (EncodeMembers(f.methods)
      + (ToBytes(|f.attributes|, 2) + EncodeAttributes(f.attributes))))))))))
  }

  function EncodeFile(utf8: Mutf8, f: RawClassFile): Result<seq<byte>, Error> {
    var count := if |f.pool| == 0 then 0 else |f.pool| - 1;
    match EncodePool(utf8, f.pool)
    case Err(e) => Err(e)
    case Ok(pool) =>
      Ok(ToBytes(f.magic, 4) + (ToBytes(f.minor, 2) + (ToBytes(f.major, 2)
        + (ToBytes(count, 2) + (pool + EncodeTail(f))))))
  }

  function DecodeTail(b: seq<byte>, minor: nat, major: nat, pool: seq<ConstantPoolEntry>): Parse<RawClassFile> {
    var (access, b1) :- ReadUint(b, 2);
    var (thisClass, b2) :- ReadUint(b1, 2);
    var (superClass, b3) :- ReadUint(b2, 2);
    var (n4, b4) :- ReadUint(b3, 2);
    var (interfaces, b5) :- DecodeIndices(b4, n4);
    var (n6, b6) :- ReadUint(b5, 2);
    var (fields, b7) :- DecodeMembers(b6, n6);
    var (n8, b8) :- ReadUint(b7, 2);
    var (methods, b9) :- DecodeMembers(b8, n8);
    var (n10, b10) :- ReadUint(b9, 2);
    var (attributes, b11) :- DecodeAttributes(b10, n10);
    Done(RawClassFile(MAGIC, minor, major, pool, access, thisClass, superClass, interfaces, fields, methods,
                      attributes), b11)
  }

  function DecodeFile(utf8: Mutf8, b: seq<byte>): Parse<RawClassFile> {
    var (magic, b1) :- ReadUint(b, 4);
    if magic != MAGIC then Fail(InvalidData) else
      var (minor, b2) :- ReadUint(b1, 2);
      var (major, b3) :- ReadUint(b2, 2);
      var (count, b4) :- ReadUint(b3, 2);
      var (pool, b5) :- DecodePool(utf8, b4, 1, count, [Unusable]);
      DecodeTail(b5, minor, major, pool)
  }

  predicate WellFormedFile(utf8: Mutf8, f: RawClassFile) {
    && WellFormedPool(utf8, f.pool) && ValidTail(f) && f.magic < Power(4) && U16(f.minor) && U16(f.major)
  }

  predicate ValidTail(f: RawClassFile) {
    && U16(f.access) && U16(f.thisClass) && U16(f.superClass)
    && U16(|f.interfaces|) && U16(|f.fields|) && U16(|f.methods|) && U16(|f.attributes|)
    && (forall i :: 0 <= i < |f.interfaces| ==> U16(f.interfaces[i]))
    && ValidMembers(f.fields) && ValidMembers(f.methods) && ValidAttributes(f.attributes)
  }

  lemma {:induction false} TailRoundTrip(f: RawClassFile, rest: seq<byte>)
    requires ValidTail(f) && f.magic == MAGIC
    ensures DecodeTail(EncodeTail(f) + rest, f.minor, f.major, f.pool) == Done(f, rest)
  {
    hide ReadUint, ToBytes, DecodeAttributes, DecodeMembers, DecodeIndices, EncodeAttributes, EncodeMembers,
      EncodeIndices, ValidMembers, ValidAttributes;
    var t10 := EncodeAttributes(f.attributes);
    var t9 := ToBytes(|f.attributes|, 2) + t10;
    var t8 := EncodeMembers(f.methods) + t9;
    var t7 := ToBytes(|f.methods|, 2) + t8;
    var t6 := EncodeMembers(f.fields) + t7;
    var t5 := ToBytes(|f.fields|, 2) + t6;
    var t4 := EncodeIndices(f.interfaces) + t5;
    var t3 := ToBytes(|f.interfaces|, 2) + t4;
    var t2 := ToBytes(f.superClass, 2) + t3;
    var t1 := ToBytes(f.thisClass, 2) + t2;
    NumberFirst(f.access, 2, t1, rest);
    NumberFirst(f.thisClass, 2, t2, rest);
    NumberFirst(f.superClass, 2, t3, rest);
    NumberFirst(|f.interfaces|, 2, t4, rest);
    IndicesRoundTrip(f.interfaces, t5 + rest);
    Regroup(EncodeIndices(f.interfaces), t5, rest);
    NumberFirst(|f.fields|, 2, t6, rest);
    MembersRoundTrip(f.fields, t7 + rest);
    Regroup(EncodeMembers(f.fields), t7, rest);
    NumberFirst(|f.methods|, 2, t8, rest);
    MembersRoundTrip(f.methods, t9 + rest);
    Regroup(EncodeMembers(f.methods), t9, rest);
    NumberFirst(|f.attributes|, 2, t10, rest);
    AttributesRoundTrip(f.attributes, rest);
  }

  /** A file is decoded from its encoding exactly when its magic is right and its pool is empty or ends with an 8-byte
      constant: the count that is written is one less than the decoder expects, and only then does the
      pool loop stop at the end all the same. */
  lemma {:induction false} FileRoundTripExact(utf8: Mutf8, f: RawClassFile)
    requires Inverse(utf8) && WellFormedFile(utf8, f)
    ensures EncodeFile(utf8, f).Ok?
    ensures DecodeFile(utf8, EncodeFile(utf8, f).value) == Done(f, []) <==>
              f.magic == 0xCAFE_BABE &&
              (|f.pool| == 1 || (|f.pool| > 2 && (f.pool[|f.pool| - 2].Long? || f.pool[|f.pool| - 2].Double?)))
  {
    hide ReadUint, ToBytes, DecodePool, EncodePool, DecodeTail, EncodeTail, ValidTail, PoolBytes, Structured;
    var tail, n := EncodeTail(f), |f.pool| - 1;
    FileHead(utf8, f);
    if f.magic != MAGIC {
      return;
    }
    PoolHead(utf8, f.pool);
    LastEntry(utf8, f.pool, 1);
    var stop := Stop(f.pool, n);
    var left := PoolBytes(utf8, f.pool[stop..]) + tail;
    PoolUpTo(utf8, f.pool, 1, n, [Unusable], tail);
    assert [Unusable] + f.pool[1..stop] == f.pool[..stop];
    TailPool(left, f.minor, f.major, f.pool[..stop]);
    if stop == |f.pool| {
      assert f.pool[..stop] == f.pool && f.pool[stop..] == [];
      NoEntries(utf8);
      TailRoundTrip(f, []);
      assert left == tail && tail + [] == tail;
    }
  }

  lemma {:induction false} TailPool(b: seq<byte>, minor: nat, major: nat, pool: seq<ConstantPoolEntry>)
    ensures var r := DecodeTail(b, minor, major, pool); r.Done? ==> r.value.pool == pool
  {
  }

  /** The pool loop sees the count that was written. */
  lemma {:induction false} FileHead(utf8: Mutf8, f: RawClassFile)
    requires WellFormedFile(utf8, f)
    ensures EncodeFile(utf8, f).Ok?
    ensures DecodeFile(utf8, EncodeFile(utf8, f).value)
         == if f.magic != MAGIC then Fail(InvalidData) else
            match DecodePool(utf8, PoolBytes(utf8, f.pool) + EncodeTail(f), 1, |f.pool| - 1, [Unusable])
            case Fail(e) => Fail(e)
            case Done(pool, rest) => DecodeTail(rest, f.minor, f.major, pool)
  {
    hide ReadUint, ToBytes, DecodePool, EncodePool, DecodeTail, EncodeTail, Structured, ValidTail;
    PoolHead(utf8, f.pool);
    Powers();
    var n := |f.pool| - 1;
    var b3 := PoolBytes(utf8, f.pool) + EncodeTail(f);
    var b2 := ToBytes(n, 2) + b3;
    var b1 := ToBytes(f.major, 2) + b2;
    var b0 := ToBytes(f.minor, 2) + b1;
    ReadWritten(f.magic, 4, b0);
    ReadWritten(f.minor, 2, b1);
    ReadWritten(f.major, 2, b2);
    ReadWritten(n, 2, b3);
  }

  /** The last entry is unusable exactly when the one before it is an 8-byte constant. */
  lemma {:induction false} LastEntry(utf8: Mutf8, pool: seq<ConstantPoolEntry>, i: nat)
    requires i <= |pool| && Structured(utf8, pool, i)
    ensures i < |pool| ==>
              (pool[|pool| - 1].Unusable? <==> |pool| - 2 >= i && IsWide(pool[|pool| - 2]))
    decreases |pool| - i
  {
    if i < |pool| {
      LastEntry(utf8, pool, if IsWide(pool[i]) then i + 2 else i + 1);
    }
  }
}
