/** The one-word JVM slot (src/vm/mod.rs:18-102): a number if it is not negative, and the
    negated address of a heap object if it is. */
module Slots {
  import opened Wrappers

  const U32_SIZE := 0x1_0000_0000
  const U64_SIZE := 0x1_0000_0000_0000_0000
  const USIZE_MAX := 0xFFFF_FFFF_FFFF_FFFF
  const ISIZE_MAX := 0x7FFF_FFFF_FFFF_FFFF

  type i8 = i: int | -0x80 <= i < 0x80
  type i16 = i: int | -0x8000 <= i < 0x8000
  type i32 = i: int | -0x8000_0000 <= i < 0x8000_0000
  type i64 = i: int | -0x8000_0000_0000_0000 <= i < 0x8000_0000_0000_0000

  /** The address of an object: never null, and in the lower half of the address space. */
  type Ptr = p: int | 0 < p <= ISIZE_MAX witness 1

  /** A slot word. No constructor makes the smallest `isize`, whose negation overflows. */
  type JVMSlot = i: int | -ISIZE_MAX <= i <= ISIZE_MAX

  const NULL: JVMSlot := 0

  function Nulls(n: nat): (slots: seq<JVMSlot>)
    ensures |slots| == n && forall i :: 0 <= i < n ==> slots[i] == NULL
  {
    if n == 0 then [] else Nulls(n - 1) + [NULL]
  }

  function FromObject(p: Ptr): JVMSlot {
    -(p as int)
  }

  /** `into_object` and `with_object`: the address in a slot, if it holds one. */
  function Target(s: JVMSlot): Option<Ptr> {
    if s >= 0 then None else Some(-(s as int))
  }

  /** An unsigned 32-bit word read as a signed one. */
  function Signed32(u: int): i32
    requires 0 <= u < U32_SIZE
  {
    if u < 0x8000_0000 then u else u - U32_SIZE
  }

  function Unsigned32(i: i32): (u: int)
    ensures 0 <= u < U32_SIZE && Signed32(u) == i
  {
    if i >= 0 then i else i + U32_SIZE
  }

  function FromI32(i: i32): JVMSlot {
    Unsigned32(i)
  }

  /** The low 32 bits of the word, whatever the slot holds. */
  function AsI32(s: JVMSlot): i32 {
    Signed32(s % U32_SIZE)
  }

  /** `from_i64`: the low half first, the high half second. */
  function FromI64(l: i64): (JVMSlot, JVMSlot) {
    var u := if l >= 0 then l else l + U64_SIZE;
    (FromI32(Signed32(u % U32_SIZE)), FromI32(Signed32(u / U32_SIZE)))
  }

  /** `lpop` and `lload`: the long whose two halves are given. */
  function ToI64(low: JVMSlot, high: JVMSlot): i64 {
    Joined(AsI32(low), AsI32(high))
  }

  function Joined(low: i32, high: i32): i64 {
    var u := Unsigned32(low) + Unsigned32(high) * U32_SIZE;
    if u < U64_SIZE / 2 then u else u - U64_SIZE
  }

  /** Numbers and references share the word without being confused, and both can be read back. */
  lemma {:induction false} TaggingIsSound(p: Ptr, i: i32, l: i64)
    ensures Target(FromObject(p)) == Some(p)
    ensures Target(FromI32(i)) == None && AsI32(FromI32(i)) == i
    ensures Target(FromI64(l).0) == None && Target(FromI64(l).1) == None
    ensures ToI64(FromI64(l).0, FromI64(l).1) == l
  {
    LongSurvives(l);
  }

  lemma {:induction false} LongSurvives(l: i64)
    ensures Target(FromI64(l).0) == None && Target(FromI64(l).1) == None
    ensures ToI64(FromI64(l).0, FromI64(l).1) == l
  {
    var u := if l >= 0 then l else l + U64_SIZE;
    IntSurvives(Signed32(u % U32_SIZE));
    IntSurvives(Signed32(u / U32_SIZE));
    assert Unsigned32(Signed32(u % U32_SIZE)) == u % U32_SIZE;
    assert Unsigned32(Signed32(u / U32_SIZE)) == u / U32_SIZE;
  }

  lemma {:induction false} IntSurvives(i: i32)
    ensures AsI32(FromI32(i)) == i && Target(FromI32(i)) == None
  {
  }

  /** The low 32 bits of a slot word. */
  function Low(s: JVMSlot): (w: JVMSlot)
    ensures 0 <= w < 0x1_0000_0000
  {
    s % 0x1_0000_0000
  }

  /** In plain numbers: a reference is its negated address; a number stands in a slot as its two's complement, and
      is read from the low half of any word; a long stands in two slots, the low half first. */
  lemma {:induction false} WordsExact(p: Ptr, i: i32, l: i64, s: JVMSlot, h: JVMSlot)
    ensures FromObject(p) as int + p as int == 0
    ensures IsSigned(i, FromI32(i), 0x1_0000_0000) && 0 <= FromI32(i) < 0x1_0000_0000
    ensures IsSigned(AsI32(s), Low(s), 0x1_0000_0000) && FromI32(AsI32(s)) == Low(s)
    ensures IsSigned(ToI64(s, h), Low(s) + 0x1_0000_0000 * Low(h), 0x1_0000_0000_0000_0000)
    ensures FromI64(ToI64(s, h)) == (Low(s), Low(h))
    ensures var (low, high) := FromI64(l);
            0 <= low < 0x1_0000_0000 && 0 <= high < 0x1_0000_0000
            && IsSigned(l, low + 0x1_0000_0000 * high, 0x1_0000_0000_0000_0000)
  {
    HalvesKept(AsI32(s), AsI32(h));
    LongHalves(l);
  }

  lemma {:induction false} HalvesKept(low: i32, high: i32)
    ensures FromI64(Joined(low, high)) == (FromI32(low), FromI32(high))
  {
    var u := Unsigned32(low) + Unsigned32(high) * U32_SIZE;
    assert u % U32_SIZE == Unsigned32(low) && u / U32_SIZE == Unsigned32(high);
  }

  lemma {:induction false} LongHalves(l: i64)
    ensures var (low, high) := FromI64(l);
            0 <= low < U32_SIZE && 0 <= high < U32_SIZE && IsSigned(l, low + U32_SIZE * high, U64_SIZE)
  {
    var u := if l >= 0 then l else l + U64_SIZE;
    assert Unsigned32(Signed32(u % U32_SIZE)) == u % U32_SIZE;
    assert Unsigned32(Signed32(u / U32_SIZE)) == u / U32_SIZE;
  }
}
