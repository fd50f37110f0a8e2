/** Reading and writing class-file items step by step: every reader and writer agrees with the function
    that gives the item's binary form (janadinite-parse/src/class/raw.rs:166-366,
    janadinite-parse/src/class/constant_pool.rs:203-399, janadinite-parse/src/io.rs). */
module ClassIO {
  import opened Wrappers
  import opened Bytes
  import opened ClassFile

  /** A read gave what the function gives: the value and the bytes left, or the error. */
  ghost predicate Reads<T>(r: Result<T, Error>, left: seq<byte>, p: Parse<T>) {
    match p
    case Fail(e) => r == Err(e)
    case Done(v, rest) => r == Ok(v) && left == rest
  }

  /** Items read before, then what is still to be read. */
  ghost function After<T>(results: seq<T>, p: Parse<seq<T>>): Parse<seq<T>> {
    match p
    case Fail(e) => Fail(e)
    case Done(v, rest) => Done(results + v, rest)
  }

  // ----- reading

  method ReadTwoNumbers(reader: Reader, na: nat, nb: nat) returns (r: Result<(nat, nat), Error>)
    modifies reader
    ensures Reads(r, reader.bytes, ReadTwo(old(reader.bytes), na, nb))
  {
    hide ReadUint;
    var x :- reader.ReadNumber(na);
    var y :- reader.ReadNumber(nb);
    r := Ok((x, y));
  }

  method ReadText(utf8: Mutf8, reader: Reader) returns (r: Result<ConstantPoolEntry, Error>)
    modifies reader
    ensures Reads(r, reader.bytes, DecodeText(utf8, old(reader.bytes)))
  {
    hide ReadUint, Take;
    var len :- reader.ReadNumber(2);
    var data :- reader.ReadBytes(len);
    match utf8.decode(data) {
      case None => r := Err(InvalidData);
      case Some(s) => r := Ok(Utf8(s));
    }
  }

  method ReadEntry(utf8: Mutf8, reader: Reader) returns (r: Result<ConstantPoolEntry, Error>)
    modifies reader
    ensures Reads(r, reader.bytes, DecodeEntry(utf8, old(reader.bytes)))
  {
    hide ReadUint, ReadTwo, DecodeText;
    var tag :- reader.ReadNumber(1);
    match tag {
      case 1 => r := ReadText(utf8, reader);
      case 3 =>
        var v :- reader.ReadNumber(4);
        r := Ok(Integer(v));
      case 4 =>
        var v :- reader.ReadNumber(4);
        r := Ok(Float(v));
      case 5 =>
        var v :- reader.ReadNumber(8);
        r := Ok(Long(v));
      case 6 =>
        var v :- reader.ReadNumber(8);
        r := Ok(Double(v));
      case 7 =>
        var v :- reader.ReadNumber(2);
        r := Ok(Class(v));
      case 8 =>
        var v :- reader.ReadNumber(2);
        r := Ok(String(v));
      case 9 =>
        var v :- ReadTwoNumbers(reader, 2, 2);
        r := Ok(Fieldref(v.0, v.1));
      case 10 =>
        var v :- ReadTwoNumbers(reader, 2, 2);
        r := Ok(Methodref(v.0, v.1));
      case 11 =>
        var v :- ReadTwoNumbers(reader, 2, 2);
        r := Ok(InterfaceMethodref(v.0, v.1));
      case 12 =>
        var v :- ReadTwoNumbers(reader, 2, 2);
        r := Ok(NameAndType(v.0, v.1));
      case 15 =>
        var v :- ReadTwoNumbers(reader, 1, 2);
        r := Ok(MethodHandle(v.0, v.1));
      case 16 =>
        var v :- reader.ReadNumber(2);
        r := Ok(MethodType(v));
      case 18 =>
        var v :- ReadTwoNumbers(reader, 2, 2);
        r := Ok(InvokeDynamic(v.0, v.1));
      case _ => r := Err(InvalidData);
    }
  }

  /** The pool loop. The index is a `u16`, and wraps. */
  method ReadPool(utf8: Mutf8, reader: Reader, count: nat) returns (r: Result<seq<ConstantPoolEntry>, Error>)
    modifies reader
    ensures Reads(r, reader.bytes, DecodePool(utf8, old(reader.bytes), 1, count, [Unusable]))
  {
    hide DecodeEntry;
    var pool := [Unusable];
    var index: nat := 1;
    while index < count
      invariant DecodePool(utf8, old(reader.bytes), 1, count, [Unusable])
             == DecodePool(utf8, reader.bytes, index, count, pool)
      decreases |reader.bytes|
    {
      var entry :- ReadEntry(utf8, reader);
      var step: nat;
      match entry {
        case Long(_) =>
          pool := pool + [entry, Unusable];
          step := 2;
        case Double(_) =>
          pool := pool + [entry, Unusable];
          step := 2;
        case _ =>
          pool := pool + [entry];
          step := 1;
      }
      index := if index + step > 65535 then index + step - 65536 else index + step;
    }
    r := Ok(pool);
  }

  method ReadAttribute(reader: Reader) returns (r: Result<AttributeInfo, Error>)
    modifies reader
    ensures Reads(r, reader.bytes, DecodeAttribute(old(reader.bytes)))
  {
    hide ReadUint, Take;
    var name :- reader.ReadNumber(2);
    var len :- reader.ReadNumber(4);
    var info :- reader.ReadBytes(len);
    r := Ok(AttributeInfo(name, info));
  }

  method ReadAttributes(reader: Reader, n: nat) returns (r: Result<seq<AttributeInfo>, Error>)
    modifies reader
    ensures Reads(r, reader.bytes, DecodeAttributes(old(reader.bytes), n))
  {
    hide DecodeAttribute;
    var results := [];
    AfterNone(DecodeAttributes(reader.bytes, n));
    for i := 0 to n
      invariant DecodeAttributes(old(reader.bytes), n) == After(results, DecodeAttributes(reader.bytes, n - i))
    {
      var item :- ReadAttribute(reader);
      AfterOne(results, item, DecodeAttributes(reader.bytes, n - i - 1));
      results := results + [item];
    }
    assert results + [] == results;
    r := Ok(results);
  }

  lemma {:induction false} AfterNone<T>(p: Parse<seq<T>>)
    ensures After([], p) == p
  {
    if p.Done? {
      assert [] + p.value == p.value;
    }
  }

  lemma {:induction false} AfterOne<T>(results: seq<T>, item: T, p: Parse<seq<T>>)
    ensures After(results, After([item], p)) == After(results + [item], p)
  {
    if p.Done? {
      assert results + ([item] + p.value) == results + [item] + p.value;
    }
  }

  /** A `field_info` or a `method_info`. */
  method ReadMember(reader: Reader) returns (r: Result<MemberInfo, Error>)
    modifies reader
    ensures Reads(r, reader.bytes, DecodeMember(old(reader.bytes)))
  {
    hide ReadUint, DecodeAttributes;
    var access :- reader.ReadNumber(2);
    var name :- reader.ReadNumber(2);
    var descriptor :- reader.ReadNumber(2);
    var count :- reader.ReadNumber(2);
    var attributes :- ReadAttributes(reader, count);
    r := Ok(MemberInfo(access, name, descriptor, attributes));
  }

  method ReadMembers(reader: Reader, n: nat) returns (r: Result<seq<MemberInfo>, Error>)
    modifies reader
    ensures Reads(r, reader.bytes, DecodeMembers(old(reader.bytes), n))
  {
    hide DecodeMember;
    var results := [];
    AfterNone(DecodeMembers(reader.bytes, n));
    for i := 0 to n
      invariant DecodeMembers(old(reader.bytes), n) == After(results, DecodeMembers(reader.bytes, n - i))
    {
      var item :- ReadMember(reader);
      AfterOne(results, item, DecodeMembers(reader.bytes, n - i - 1));
      results := results + [item];
    }
    assert results + [] == results;
    r := Ok(results);
  }

  method ReadIndices(reader: Reader, n: nat) returns (r: Result<seq<nat>, Error>)
    modifies reader
    ensures Reads(r, reader.bytes, DecodeIndices(old(reader.bytes), n))
  {
    hide ReadUint;
    var results := [];
    AfterNone(DecodeIndices(reader.bytes, n));
    for i := 0 to n
      invariant DecodeIndices(old(reader.bytes), n) == After(results, DecodeIndices(reader.bytes, n - i))
    {
      var item :- reader.ReadNumber(2);
      AfterOne(results, item, DecodeIndices(reader.bytes, n - i - 1));
      results := results + [item];
    }
    assert results + [] == results;
    r := Ok(results);
  }

  /** What follows the pool. */
  method ReadTail(reader: Reader, minor: nat, major: nat, pool: seq<ConstantPoolEntry>)
    returns (r: Result<RawClassFile, Error>)
    modifies reader
    ensures Reads(r, reader.bytes, DecodeTail(old(reader.bytes), minor, major, pool))
  {
    hide ReadUint, DecodeIndices, DecodeMembers, DecodeAttributes;
    var access :- reader.ReadNumber(2);
    var thisClass :- reader.ReadNumber(2);
    var superClass :- reader.ReadNumber(2);
    var n :- reader.ReadNumber(2);
    var interfaces :- ReadIndices(reader, n);
    n :- reader.ReadNumber(2);
    var fields :- ReadMembers(reader, n);
    n :- reader.ReadNumber(2);
    var methods :- ReadMembers(reader, n);
    n :- reader.ReadNumber(2);
    var attributes :- ReadAttributes(reader, n);
    r := Ok(RawClassFile(MAGIC, minor, major, pool, access, thisClass, superClass, interfaces, fields, methods,
                         attributes));
  }

  method ReadFile(utf8: Mutf8, reader: Reader) returns (r: Result<RawClassFile, Error>)
    modifies reader
    ensures Reads(r, reader.bytes, DecodeFile(utf8, old(reader.bytes)))
  {
    hide ReadUint, DecodePool, DecodeTail;
    var magic :- reader.ReadNumber(4);
    if magic != MAGIC {
      return Err(InvalidData);
    }
    var minor :- reader.ReadNumber(2);
    var major :- reader.ReadNumber(2);
    var count :- reader.ReadNumber(2);
    var pool :- ReadPool(utf8, reader, count);
    r := ReadTail(reader, minor, major, pool);
  }

  // ----- writing

  /** A write appended what the function gives, or failed as it does. */
  ghost predicate Writes(r: Result<(), Error>, before: seq<byte>, after: seq<byte>, e: Result<seq<byte>, Error>) {
    match e
    case Err(x) => r == Err(x)
    case Ok(b) => r.Ok? && after == before + b
  }

  method WriteTwo(writer: Writer, tag: nat, a: nat, na: nat, b: nat, nb: nat)
    modifies writer
    ensures writer.bytes == old(writer.bytes) + Two(tag, a, na, b, nb)
  {
    hide ToBytes;
    writer.WriteNumber(tag, 1);
    writer.WriteNumber(a, na);
    writer.WriteNumber(b, nb);
  }

  method WriteOne(writer: Writer, tag: nat, a: nat, na: nat)
    modifies writer
    ensures writer.bytes == old(writer.bytes) + (ToBytes(tag, 1) + ToBytes(a, na))
  {
    hide ToBytes;
    writer.WriteNumber(tag, 1);
    writer.WriteNumber(a, na);
  }

  method WriteEntry(utf8: Mutf8, writer: Writer, e: ConstantPoolEntry) returns (r: Result<(), Error>)
    modifies writer
    ensures Writes(r, old(writer.bytes), writer.bytes, EncodeEntry(utf8, e))
  {
    hide ToBytes, Two, IsNaN32, IsNaN64;
    r := Ok(());
    match e {
      case Utf8(s) =>
        writer.WriteNumber(1, 1);
        var data := utf8.encode(s);
        if !U16(|data|) {
          return Err(InvalidData);
        }
        writer.WriteNumber(|data|, 2);
        writer.Write(data);
      case Integer(b) => WriteOne(writer, 3, b, 4);
      case Float(b) => WriteOne(writer, 4, if IsNaN32(b) then NAN32 else b, 4);
      case Long(b) => WriteOne(writer, 5, b, 8);
      case Double(b) => WriteOne(writer, 6, if IsNaN64(b) then NAN64 else b, 8);
      case Class(i) => WriteOne(writer, 7, i, 2);
      case String(i) => WriteOne(writer, 8, i, 2);
      case Fieldref(c, n) => WriteTwo(writer, 9, c, 2, n, 2);
      case Methodref(c, n) => WriteTwo(writer, 10, c, 2, n, 2);
      case InterfaceMethodref(c, n) => WriteTwo(writer, 11, c, 2, n, 2);
      case NameAndType(n, d) => WriteTwo(writer, 12, n, 2, d, 2);
      case MethodHandle(k, i) => WriteTwo(writer, 15, k, 1, i, 2);
      case MethodType(d) => WriteOne(writer, 16, d, 2);
      case InvokeDynamic(b, n) => WriteTwo(writer, 18, b, 2, n, 2);
      case Unusable =>
    }
  }

  /** `encode_items` of a pool. */
  method WritePool(utf8: Mutf8, writer: Writer, pool: seq<ConstantPoolEntry>) returns (r: Result<(), Error>)
    modifies writer
    ensures Writes(r, old(writer.bytes), writer.bytes, EncodePool(utf8, pool))
  {
    hide EncodeEntry;
    r := Ok(());
    for i := 0 to |pool|
      invariant r.Ok?
      invariant match EncodePool(utf8, pool[i..])
                case Err(x) => EncodePool(utf8, pool) == Err(x)
                case Ok(b) =>
                  && EncodePool(utf8, pool).Ok?
                  && old(writer.bytes) + EncodePool(utf8, pool).value == writer.bytes + b
    {
      assert pool[i..][1..] == pool[i + 1..];
      var _ :- WriteEntry(utf8, writer, pool[i]);
    }
  }

  method WriteAttribute(writer: Writer, a: AttributeInfo)
    modifies writer
    ensures writer.bytes == old(writer.bytes) + EncodeAttribute(a)
  {
    hide ToBytes;
    writer.WriteNumber(a.nameIndex, 2);
    writer.WriteNumber(|a.info|, 4);
    writer.Write(a.info);
  }

  method WriteAttributes(writer: Writer, attributes: seq<AttributeInfo>)
    modifies writer
    ensures writer.bytes == old(writer.bytes) + EncodeAttributes(attributes)
  {
    hide EncodeAttribute;
    for i := 0 to |attributes|
      invariant writer.bytes + EncodeAttributes(attributes[i..]) == old(writer.bytes) + EncodeAttributes(attributes)
    {
      assert attributes[i..][1..] == attributes[i + 1..];
      WriteAttribute(writer, attributes[i]);
    }
  }

  method WriteMember(writer: Writer, m: MemberInfo)
    modifies writer
    ensures writer.bytes == old(writer.bytes) + EncodeMember(m)
  {
    hide ToBytes, EncodeAttributes;
    writer.WriteNumber(m.access, 2);
    writer.WriteNumber(m.nameIndex, 2);
    writer.WriteNumber(m.descriptorIndex, 2);
    writer.WriteNumber(|m.attributes|, 2);
    WriteAttributes(writer, m.attributes);
  }

  method WriteMembers(writer: Writer, members: seq<MemberInfo>)
    modifies writer
    ensures writer.bytes == old(writer.bytes) + EncodeMembers(members)
  {
    hide EncodeMember;
    for i := 0 to |members|
      invariant writer.bytes + EncodeMembers(members[i..]) == old(writer.bytes) + EncodeMembers(members)
    {
      assert members[i..][1..] == members[i + 1..];
      WriteMember(writer, members[i]);
    }
  }

  method WriteIndices(writer: Writer, indices: seq<nat>)
    modifies writer
    ensures writer.bytes == old(writer.bytes) + EncodeIndices(indices)
  {
    hide ToBytes;
    for i := 0 to |indices|
      invariant writer.bytes + EncodeIndices(indices[i..]) == old(writer.bytes) + EncodeIndices(indices)
    {
      assert indices[i..][1..] == indices[i + 1..];
      writer.WriteNumber(indices[i], 2);
    }
  }

  method WriteTail(writer: Writer, f: RawClassFile)
    modifies writer
    ensures writer.bytes == old(writer.bytes) + EncodeTail(f)
  {
    hide ToBytes, EncodeIndices, EncodeMembers, EncodeAttributes;
    writer.WriteNumber(f.access, 2);
    writer.WriteNumber(f.thisClass, 2);
    writer.WriteNumber(f.superClass, 2);
    writer.WriteNumber(|f.interfaces|, 2);
    WriteIndices(writer, f.interfaces);
    writer.WriteNumber(|f.fields|, 2);
    WriteMembers(writer, f.fields);
    writer.WriteNumber(|f.methods|, 2);
    WriteMembers(writer, f.methods);
    writer.WriteNumber(|f.attributes|, 2);
    WriteAttributes(writer, f.attributes);
  }

  method WriteFile(utf8: Mutf8, writer: Writer, f: RawClassFile) returns (r: Result<(), Error>)
    modifies writer
    ensures Writes(r, old(writer.bytes), writer.bytes, EncodeFile(utf8, f))
  {
    hide ToBytes, EncodePool, EncodeTail;
    writer.WriteNumber(f.magic, 4);
    writer.WriteNumber(f.minor, 2);
    writer.WriteNumber(f.major, 2);
    writer.WriteNumber(if |f.pool| == 0 then 0 else |f.pool| - 1, 2);
    var _ :- WritePool(utf8, writer, f.pool);
    WriteTail(writer, f);
    r := Ok(());
  }
}
