/** Reading and writing big-endian numbers (janadinite-parse/src/io.rs). */
module Bytes {
  import opened Wrappers

  type byte = b: int | 0 <= b < 256

  datatype Error = UnexpectedEof | InvalidData

  /** The result of decoding from the front of some bytes: a value and what is left, or an error. */
  datatype Parse<+T> = Fail(error: Error) | Done(value: T, rest: seq<byte>) {
    predicate IsFailure() {
      Fail?
    }

    function PropagateFailure<U>(): Parse<U>
      requires Fail?
    {
      Fail(error)
    }

    function Extract(): (T, seq<byte>)
      requires Done?
    {
      (value, rest)
    }
  }

  function Power(n: nat): nat {
    if n == 0 then 1 else 256 * Power(n - 1)
  }

  /** `from_be_bytes`. */
  function BigEndian(b: seq<byte>): nat {
    if b == [] then 0 else BigEndian(b[..|b| - 1]) * 256 + b[|b| - 1]
  }

  /** `to_be_bytes`, of a number cut to `n` bytes. */
  function ToBytes(v: nat, n: nat): (b: seq<byte>)
    ensures |b| == n
  {
    if n == 0 then [] else ToBytes(v / 256, n - 1) + [v % 256]
  }

  lemma {:induction false} ToBytesExact(v: nat, n: nat)
    requires v < Power(n)
    ensures BigEndian(ToBytes(v, n)) == v
  {
    if n > 0 {
      ToBytesExact(v / 256, n - 1);
      assert ToBytes(v, n)[..n - 1] == ToBytes(v / 256, n - 1);
    }
  }

  lemma {:induction false} BigEndianExact(b: seq<byte>)
    ensures BigEndian(b) < Power(|b|)
    ensures ToBytes(BigEndian(b), |b|) == b
  {
    if b != [] {
      BigEndianExact(b[..|b| - 1]);
      assert b == b[..|b| - 1] + [b[|b| - 1]];
    }
  }

  /** The bytes in front weigh more, by 256 for each byte behind them. */
  lemma {:induction false} BigEndianConcat(a: seq<byte>, b: seq<byte>)
    ensures BigEndian(a + b) == BigEndian(a) * Power(|b|) + BigEndian(b)
    decreases |b|
  {
    if b == [] {
      assert a + b == a;
    } else {
      var n := |b| - 1;
      assert (a + b)[..|a| + n] == a + b[..n];
      BigEndianConcat(a, b[..n]);
      Scaled(BigEndian(a), Power(n), BigEndian(b[..n]));
    }
  }

  lemma {:induction false} Scaled(x: nat, p: nat, y: nat)
    ensures (x * p + y) * 256 == x * (256 * p) + y * 256
  {
  }

  /** One byte is its own number, two are the high one times 256 and the low one. */
  lemma {:induction false} WordsExact(x: byte, y: byte)
    ensures BigEndian([x]) == x && BigEndian([x, y]) == x as int * 0x100 + y as int
  {
    assert [x][..0] == [] && [x, y][..1] == [x];
  }

  lemma {:induction false} Powers()
    ensures Power(1) == 0x100 && Power(2) == 0x1_0000 && Power(4) == 0x1_0000_0000
    ensures Power(8) == 0x1_0000_0000_0000_0000
  {
  }

  /** The first `n` bytes. */
  function Take(b: seq<byte>, n: nat): Parse<seq<byte>> {
    if |b| < n then Fail(UnexpectedEof) else Done(b[..n], b[n..])
  }

  /** `read_u8` to `read_u64`. */
  function ReadUint(b: seq<byte>, n: nat): Parse<nat> {
    var (bytes, rest) :- Take(b, n);
    Done(BigEndian(bytes), rest)
  }

  /** A number that was written is read back, and what follows is left. */
  lemma {:induction false} ReadWritten(v: nat, n: nat, rest: seq<byte>)
    requires v < Power(n)
    ensures ReadUint(ToBytes(v, n) + rest, n) == Done(v, rest)
  {
    ToBytesExact(v, n);
    assert (ToBytes(v, n) + rest)[..n] == ToBytes(v, n);
  }

  lemma {:induction false} TakeWritten(b: seq<byte>, rest: seq<byte>)
    ensures Take(b + rest, |b|) == Done(b, rest)
  {
  }

  /** `ClassByteReader`: a cursor that is replaced on every read. */
  class Reader {
    var bytes: seq<byte>

    constructor (b: seq<byte>)
      ensures bytes == b
    {
      bytes := b;
    }

    /** `read_next_exact`: what there is is consumed, even when it is too little. */
    method ReadExact(n: nat) returns (r: Result<seq<byte>, Error>)
      modifies this
      ensures match Take(old(bytes), n)
              case Fail(e) => r == Err(e) && bytes == []
              case Done(v, rest) => r == Ok(v) && bytes == rest
    {
      var amount := if n < |bytes| then n else |bytes|;
      var data := bytes[..amount];
      bytes := bytes[amount..];
      r := if amount < n then Err(UnexpectedEof) else Ok(data);
    }

    method ReadNumber(n: nat) returns (r: Result<nat, Error>)
      modifies this
      ensures match ReadUint(old(bytes), n)
              case Fail(e) => r == Err(e)
              case Done(v, rest) => r == Ok(v) && bytes == rest
    {
      var b := ReadExact(n);
      r := match b case Ok(data) => Ok(BigEndian(data)) case Err(e) => Err(e);
    }

    /** `decode_n` of single bytes. */
    method ReadBytes(n: nat) returns (r: Result<seq<byte>, Error>)
      modifies this
      ensures match Take(old(bytes), n)
              case Fail(e) => r == Err(e)
              case Done(v, rest) => r == Ok(v) && bytes == rest
    {
      var results: seq<byte> := [];
      for i := 0 to n
        invariant |results| == i <= |old(bytes)|
        invariant results == old(bytes)[..i] && bytes == old(bytes)[i..]
      {
        var b := ReadExact(1);
        if b.Err? {
          return Err(b.error);
        }
        results := results + b.value;
      }
      r := Ok(results);
    }
  }

  /** A writer that appends. */
  class Writer {
    var bytes: seq<byte>

    constructor ()
      ensures bytes == []
    {
      bytes := [];
    }

    method Write(b: seq<byte>)
      modifies this
      ensures bytes == old(bytes) + b
    {
      bytes := bytes + b;
    }

    method WriteNumber(v: nat, n: nat)
      modifies this
      ensures bytes == old(bytes) + ToBytes(v, n)
    {
      Write(ToBytes(v, n));
    }
  }
}
