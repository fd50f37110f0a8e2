/** Linking a class's constant pool, and the lookups that are made in it afterwards
    (src/vm/class.rs:120-333, src/vm/mod.rs:599-722). What an unresolved entry is resolved to later is
    kept apart, in module ResolutionCaches. */
module ConstantPool {
  import opened Wrappers
  import opened Members
  import Bytes
  import C = ClassFile
  import D = Descriptors

  datatype Entry =
    | UTF8(text: string)
    | Class(name: nat)
    | PrimitiveArray(dimensions: nat, ty: D.FieldDescriptor)
    | ResolvedClassArray(dimensions: nat)
    | ClassArray(descriptor: nat, dimensions: nat)
    | NameAndType(name: nat, desc: nat)
    | MethodRef(class_: nat, nameAndDesc: nat)
    | ResolvedMethod(id: MethodID)
    | ResolvedField(off: nat)
    | FieldRef(class_: nat, nameAndDesc: nat)
    | Int(value: int)
    | Float(bits: nat)
    | Long(value: int)
    | Double(bits: nat)
    | Unusable

  type Pool = seq<Entry>
  type RawPool = seq<C.ConstantPoolEntry>

  // ----- what the class file says

  function RawText(entries: RawPool, i: nat): Option<string> {
    if i < |entries| && entries[i].Utf8? then Some(entries[i].text) else None
  }

  function RawClass(entries: RawPool, i: nat): Option<string> {
    if i < |entries| && entries[i].Class? then RawText(entries, entries[i].nameIndex) else None
  }

  function RawNameAndType(entries: RawPool, i: nat): Option<(string, string)> {
    if i < |entries| && entries[i].NameAndType? then
      match (RawText(entries, entries[i].nameIndex), RawText(entries, entries[i].descriptorIndex))
      case (Some(n), Some(d)) => Some((n, d))
      case _ => None
    else None
  }

  predicate IsArrayName(name: string) {
    name != [] && name[0] == '['
  }

  /** What an array type is an array of, and in how many dimensions. */
  datatype Component = Component(element: D.FieldDescriptor, dimensions: nat)

  /** The loop over the descriptors that follow the first bracket; dimensions saturate. */
  function ComponentOf(ds: seq<D.FieldDescriptor>, dimensions: nat): Option<Component> {
    if ds == [] then None
    else if ds[0].Array? then ComponentOf(ds[1..], if dimensions < 65535 then dimensions + 1 else dimensions)
    else Some(Component(ds[0], dimensions))
  }

  // ----- linking

  function LinkClass(name: string, nameIndex: nat, thisName: string): Result<Entry, Bytes.Error> {
    if !IsArrayName(name) then Ok(Class(nameIndex)) else
      match ComponentOf(D.Fields(name[1..]), 1)
      case None => Err(Bytes.InvalidData)
      case Some(Component(Object(o), n)) =>
        Ok(if o == thisName then ResolvedClassArray(n) else ClassArray(nameIndex, n))
      case Some(Component(ty, n)) => Ok(PrimitiveArray(n, ty))
  }

  function FirstField(fields: seq<VMField>, name: string, desc: string): (i: nat)
    ensures i <= |fields| && (i < |fields| ==> fields[i].field.name == name && fields[i].field.descriptor == desc)
    ensures forall k :: 0 <= k < i ==> !(fields[k].field.name == name && fields[k].field.descriptor == desc)
  {
    if fields == [] || (fields[0].field.name == name && fields[0].field.descriptor == desc) then 0
    else 1 + FirstField(fields[1..], name, desc)
  }

  function LinkMethod(class_: nat, nat_: nat, name: string, desc: string, own: bool, methods: seq<VMMethod>): Entry {
    var i := First(methods, name, desc);
    if own && i < |methods| then ResolvedMethod(methods[i].Id()) else MethodRef(class_, nat_)
  }

  function LinkField(class_: nat, nat_: nat, name: string, desc: string, own: bool, fields: seq<VMField>): Entry {
    var i := FirstField(fields, name, desc);
    if own && i < |fields| then ResolvedField(fields[i].idx) else FieldRef(class_, nat_)
  }

  /** The class name and the name and descriptor of a member reference. */
  function RawRef(entries: RawPool, class_: nat, nat_: nat): Option<(string, string, string)> {
    match (RawClass(entries, class_), RawNameAndType(entries, nat_))
    case (Some(c), Some((n, d))) => Some((c, n, d))
    case _ => None
  }

  datatype Owner = Owner(thisName: string, methods: seq<VMMethod>, fields: seq<VMField>)

  function LinkEntry(entries: RawPool, e: C.ConstantPoolEntry, o: Owner): Result<Entry, Bytes.Error> {
    match e
    case Utf8(s) => Ok(UTF8(s))
    case NameAndType(n, d) =>
      if RawText(entries, n).Some? && RawText(entries, d).Some? then Ok(NameAndType(n, d)) else Err(Bytes.InvalidData)
    case Class(n) =>
      (match RawText(entries, n) case None => Err(Bytes.InvalidData) case Some(name) => LinkClass(name, n, o.thisName))
    case Integer(b) => Ok(Int(if b < 0x8000_0000 then b else b - 0x1_0000_0000))
    case Float(b) => Ok(Float(b))
    case Long(b) => Ok(Long(if b < 0x8000_0000_0000_0000 then b else b - 0x1_0000_0000_0000_0000))
    case Double(b) => Ok(Double(b))
    case Methodref(c, nt) =>
      (match RawRef(entries, c, nt)
       case None => Err(Bytes.InvalidData)
       case Some((cn, n, d)) => Ok(LinkMethod(c, nt, n, d, cn == o.thisName, o.methods)))
    case Fieldref(c, nt) =>
      (match RawRef(entries, c, nt)
       case None => Err(Bytes.InvalidData)
       case Some((cn, n, d)) => Ok(LinkField(c, nt, n, d, cn == o.thisName, o.fields)))
    case _ => Ok(Unusable)
  }

  /** `from_unresolved`, from entry `i` on. */
  function LinkFrom(entries: RawPool, i: nat, o: Owner, done: Pool): Result<Pool, Bytes.Error>
    requires i <= |entries|
    decreases |entries| - i
  {
    if i == |entries| then Ok(done) else
      match LinkEntry(entries, entries[i], o)
      case Err(e) => Err(e)
      case Ok(r) => LinkFrom(entries, i + 1, o, done + [r])
  }

  function Link(entries: RawPool, o: Owner): Result<Pool, Bytes.Error> {
    LinkFrom(entries, 0, o, [])
  }

  method LinkArray(name: string, nameIndex: nat, thisName: string) returns (r: Result<Entry, Bytes.Error>)
    requires IsArrayName(name)
    ensures r == LinkClass(name, nameIndex, thisName)
  {
    hide D.Fields;
    var ds := D.Fields(name[1..]);
    var dimensions := 1;
    for i := 0 to |ds|
      invariant ComponentOf(ds, 1) == ComponentOf(ds[i..], dimensions)
    {
      assert ds[i..][0] == ds[i] && ds[i..][1..] == ds[i + 1..];
      match ds[i] {
        case Array => dimensions := if dimensions < 65535 then dimensions + 1 else dimensions;
        case Object(o) =>
          return Ok(if o == thisName then ResolvedClassArray(dimensions) else ClassArray(nameIndex, dimensions));
        case ty => return Ok(PrimitiveArray(dimensions, ty));
      }
    }
    r := Err(Bytes.InvalidData);
  }

  method FindField(fields: seq<VMField>, name: string, desc: string) returns (i: nat)
    ensures i == FirstField(fields, name, desc)
  {
    i := 0;
    while i < |fields| && !(fields[i].field.name == name && fields[i].field.descriptor == desc)
      invariant i <= |fields| && FirstField(fields, name, desc) == i + FirstField(fields[i..], name, desc)
    {
      assert fields[i..][1..] == fields[i + 1..];
      i := i + 1;
    }
  }

  method LinkOne(entries: RawPool, e: C.ConstantPoolEntry, o: Owner) returns (r: Result<Entry, Bytes.Error>)
    ensures r == LinkEntry(entries, e, o)
  {
    hide First, FirstField, D.Fields, ComponentOf;
    match e {
      case Utf8(s) => r := Ok(UTF8(s));
      case NameAndType(n, d) =>
        if RawText(entries, n).None? || RawText(entries, d).None? {
          return Err(Bytes.InvalidData);
        }
        r := Ok(NameAndType(n, d));
      case Class(n) =>
        var name := RawText(entries, n);
        if name.None? {
          return Err(Bytes.InvalidData);
        }
        if IsArrayName(name.value) {
          r := LinkArray(name.value, n, o.thisName);
        } else {
          r := Ok(Class(n));
        }
      case Integer(b) => r := Ok(Int(if b < 0x8000_0000 then b else b - 0x1_0000_0000));
      case Float(b) => r := Ok(Float(b));
      case Long(b) => r := Ok(Long(if b < 0x8000_0000_0000_0000 then b else b - 0x1_0000_0000_0000_0000));
      case Double(b) => r := Ok(Double(b));
      case Methodref(c, nt) =>
        var ref := RawRef(entries, c, nt);
        if ref.None? {
          return Err(Bytes.InvalidData);
        }
        var (owner, name, desc) := ref.value;
        var i := Position(o.methods, name, desc);
        r := Ok(if owner == o.thisName && i < |o.methods| then ResolvedMethod(o.methods[i].Id()) else MethodRef(c, nt));
      case Fieldref(c, nt) =>
        var ref := RawRef(entries, c, nt);
        if ref.None? {
          return Err(Bytes.InvalidData);
        }
        var (owner, name, desc) := ref.value;
        var i := FindField(o.fields, name, desc);
        r := Ok(if owner == o.thisName && i < |o.fields| then ResolvedField(o.fields[i].idx) else FieldRef(c, nt));
      case _ => r := Ok(Unusable);
    }
  }

  method FromUnresolved(entries: RawPool, o: Owner) returns (r: Result<Pool, Bytes.Error>)
    ensures r == Link(entries, o)
  {
    hide LinkEntry;
    var resolved: Pool := [];
    for i := 0 to |entries|
      invariant Link(entries, o) == LinkFrom(entries, i, o, resolved)
    {
      var entry :- LinkOne(entries, entries[i], o);
      resolved := resolved + [entry];
    }
    r := Ok(resolved);
  }

  // ----- when linking succeeds

  /** Every index in the entry leads to an entry of the right kind, and an array type has a component. */
  predicate Consistent(entries: RawPool, e: C.ConstantPoolEntry) {
    match e
    case NameAndType(n, d) => RawText(entries, n).Some? && RawText(entries, d).Some?
    case Class(n) =>
      && RawText(entries, n).Some?
      && (IsArrayName(RawText(entries, n).value) ==> ComponentOf(D.Fields(RawText(entries, n).value[1..]), 1).Some?)
    case Methodref(c, nt) => RawRef(entries, c, nt).Some?
    case Fieldref(c, nt) => RawRef(entries, c, nt).Some?
    case _ => true
  }

  lemma {:induction false} EntryLinks(entries: RawPool, e: C.ConstantPoolEntry, o: Owner)
    ensures LinkEntry(entries, e, o).Ok? <==> Consistent(entries, e)
  {
  }

  /** Linking succeeds exactly for consistent pools, keeps every index, and links each entry by itself. */
  lemma {:induction false} LinkExact(entries: RawPool, i: nat, o: Owner, done: Pool)
    requires i <= |entries| && |done| == i
    ensures var r := LinkFrom(entries, i, o, done);
            && (r.Ok? <==> forall k :: i <= k < |entries| ==> Consistent(entries, entries[k]))
            && (r.Ok? ==> && |r.value| == |entries| && done <= r.value
                          && forall k :: i <= k < |entries| ==> LinkEntry(entries, entries[k], o) == Ok(r.value[k]))
    decreases |entries| - i
  {
    hide LinkEntry, Consistent;
    if i < |entries| {
      EntryLinks(entries, entries[i], o);
      var l := LinkEntry(entries, entries[i], o);
      if l.Ok? {
        LinkExact(entries, i + 1, o, done + [l.value]);
      }
    }
  }

  /** A pool that was linked. */
  ghost predicate Linked(entries: RawPool, o: Owner, pool: Pool) {
    && |pool| == |entries|
    && forall k :: 0 <= k < |entries| ==> LinkEntry(entries, entries[k], o) == Ok(pool[k])
  }

  lemma {:induction false} LinkedExact(entries: RawPool, o: Owner)
    ensures Link(entries, o).Ok? <==> forall k :: 0 <= k < |entries| ==> Consistent(entries, entries[k])
    ensures Link(entries, o).Ok? ==> Linked(entries, o, Link(entries, o).value)
  {
    hide LinkEntry, Consistent;
    LinkExact(entries, 0, o, []);
  }

  // ----- lookups

  /** The result of a lookup that may run into an `expect` or a `panic`. */
  datatype Lookup<+T> = Missing | Found(value: T) | Panics

  function GetUtf8(pool: Pool, i: nat): Option<string> {
    if i < |pool| && pool[i].UTF8? then Some(pool[i].text) else None
  }

  function GetNameAndType(pool: Pool, i: nat): Lookup<(string, string)> {
    if !(i < |pool| && pool[i].NameAndType?) then Missing else
      match (GetUtf8(pool, pool[i].name), GetUtf8(pool, pool[i].desc))
      case (Some(n), Some(d)) => Found((n, d))
      case _ => Panics
  }

  function GetClass(pool: Pool, i: nat): Lookup<string> {
    if !(i < |pool| && pool[i].Class?) then Missing else
      match GetUtf8(pool, pool[i].name)
      case Some(n) => Found(n)
      case None => Panics
  }

  /** What `get_class_or_array_by_ref` comes to, up to loading the class. */
  datatype ClassOrArray =
    | Named(name: string)
    | Primitives(dimensions: nat, ty: D.FieldDescriptor)
    | Arrays(dimensions: nat, name: string)

  function FirstObject(ds: seq<D.FieldDescriptor>): Option<string> {
    if ds == [] then None else if ds[0].Object? then Some(ds[0].name) else FirstObject(ds[1..])
  }

  function GetClassOrArray(pool: Pool, i: nat): Lookup<ClassOrArray> {
    if i >= |pool| then Missing else
      match pool[i]
      case Class(n) =>
        (match GetUtf8(pool, n) case Some(name) => Found(Named(name)) case None => Panics)
      case PrimitiveArray(dims, ty) => Found(Primitives(dims, ty))
      case ClassArray(d, dims) =>
        (match GetUtf8(pool, d)
         case None => Panics
         case Some(text) =>
           match FirstObject(D.Fields(text)) case None => Panics case Some(name) => Found(Arrays(dims, name)))
      case _ => Missing
  }

  function AsLookup<T>(o: Option<T>): Lookup<T> {
    match o case Some(v) => Found(v) case None => Missing
  }

  /** After linking, a text or a name and type is found exactly where the class file has it. In
      particular no lookup panics. */
  lemma {:induction false} TextsFound(entries: RawPool, o: Owner, pool: Pool, i: nat)
    requires Linked(entries, o, pool)
    ensures GetUtf8(pool, i) == RawText(entries, i)
    ensures GetNameAndType(pool, i) == AsLookup(RawNameAndType(entries, i))
  {
  }

  lemma {:induction false} TextFound(entries: RawPool, o: Owner, pool: Pool, i: nat)
    requires Linked(entries, o, pool)
    ensures GetUtf8(pool, i) == RawText(entries, i)
  {
  }

  /** A class is found exactly where the class file has one whose name is not an array's. */
  lemma {:induction false} ClassesFound(entries: RawPool, o: Owner, pool: Pool, i: nat)
    requires Linked(entries, o, pool)
    ensures GetClass(pool, i)
         == match RawClass(entries, i)
            case Some(n) => if IsArrayName(n) then Missing else Found(n)
            case None => Missing
  {
  }

  /** A class or array is found exactly where the class file has one, except that arrays of the class
      itself are not. */
  lemma {:induction false} ArraysFound(entries: RawPool, o: Owner, pool: Pool, i: nat)
    requires Linked(entries, o, pool)
    ensures GetClassOrArray(pool, i)
         == match RawClass(entries, i)
            case None => Missing
            case Some(n) =>
              if !IsArrayName(n) then Found(Named(n)) else
                var c := ComponentOf(D.Fields(n[1..]), 1).value;
                if !c.element.Object? then Found(Primitives(c.dimensions, c.element))
                else if c.element.name == o.thisName then Missing
                else Found(Arrays(c.dimensions, c.element.name))
  {
    hide D.Fields;
    if i < |entries| {
      assert LinkEntry(entries, entries[i], o) == Ok(pool[i]);
      if entries[i].Class? {
        TextFound(entries, o, pool, entries[i].nameIndex);
        var n := RawText(entries, entries[i].nameIndex).value;
        if IsArrayName(n) {
          BracketFirst(n);
          SameObject(D.Fields(n[1..]), 1);
        }
      } else {
        NotClass(entries, entries[i], o);
      }
    }
  }

  lemma {:induction false} NotClass(entries: RawPool, e: C.ConstantPoolEntry, o: Owner)
    requires !e.Class?
    ensures var r := LinkEntry(entries, e, o);
            r.Ok? ==> !r.value.Class? && !r.value.PrimitiveArray? && !r.value.ClassArray?
  {
  }

  lemma {:induction false} BracketFirst(name: string)
    requires IsArrayName(name)
    ensures D.Fields(name) == [D.Array] + D.Fields(name[1..])
  {
  }

  /** The search by `find_map` meets the object that the linking loop stopped at. */
  lemma {:induction false} SameObject(ds: seq<D.FieldDescriptor>, dimensions: nat)
    ensures var c := ComponentOf(ds, dimensions);
            c.Some? && c.value.element.Object? ==> FirstObject(ds) == Some(c.value.element.name)
    decreases |ds|
  {
    if ds != [] && ds[0].Array? {
      SameObject(ds[1..], if dimensions < 65535 then dimensions + 1 else dimensions);
    }
  }

  /** References that were left unresolved have a name and type to search for. */
  lemma {:induction false} UnresolvedHasName(entries: RawPool, o: Owner, pool: Pool, i: nat)
    requires Linked(entries, o, pool) && i < |pool| && (pool[i].MethodRef? || pool[i].FieldRef?)
    ensures GetNameAndType(pool, pool[i].nameAndDesc).Found?
    ensures RawClass(entries, pool[i].class_).Some?
  {
    hide LinkClass;
    assert LinkEntry(entries, entries[i], o) == Ok(pool[i]);
    IsReference(entries, entries[i], o);
    TextsFound(entries, o, pool, pool[i].nameAndDesc);
  }

  lemma {:induction false} IsReference(entries: RawPool, e: C.ConstantPoolEntry, o: Owner)
    ensures var r := LinkEntry(entries, e, o);
            && (r.Ok? && (r.value.MethodRef? || r.value.FieldRef?) ==>
                  && (e.Methodref? || e.Fieldref?)
                  && r.value.class_ == e.classIndex && r.value.nameAndDesc == e.nameAndTypeIndex)
            && (r.Ok? && (r.value.ResolvedMethod? || r.value.MethodRef?) ==> e.Methodref?)
            && (r.Ok? && (r.value.ResolvedField? || r.value.FieldRef?) ==> e.Fieldref?)
  {
  }

  // ----- numbers

  /** Integer constants are linked to the signed numbers that their bits mean, floats and doubles to their bits, and
      what the linker does not know to an entry that cannot be used. */
  lemma {:induction false} NumbersLinked(entries: RawPool, b: nat, d: nat, o: Owner)
    requires b <= 0xFFFF_FFFF && d <= 0xFFFF_FFFF_FFFF_FFFF
    ensures var r := LinkEntry(entries, C.Integer(b), o);
            r.Ok? && r.value.Int? && IsSigned(r.value.value, b, 0x1_0000_0000)
    ensures var r := LinkEntry(entries, C.Long(d), o);
            r.Ok? && r.value.Long? && IsSigned(r.value.value, d, 0x1_0000_0000_0000_0000)
    ensures LinkEntry(entries, C.Float(b), o) == Ok(Float(b))
    ensures LinkEntry(entries, C.Double(d), o) == Ok(Double(d))
    ensures LinkEntry(entries, C.String(b), o) == LinkEntry(entries, C.MethodType(b), o) == Ok(Unusable)
    ensures LinkEntry(entries, C.InterfaceMethodref(b, b), o) == LinkEntry(entries, C.MethodHandle(b, b), o)
         == LinkEntry(entries, C.InvokeDynamic(b, b), o) == LinkEntry(entries, C.Unusable, o) == Ok(Unusable)
  {
  }

  // ----- array types

  /** The type of `n`-dimensional arrays of `t`. */
  function Nested(t: D.FieldType, n: nat): D.FieldType {
    if n == 0 then t else D.ArrayOf(Nested(t, n - 1))
  }

  lemma {:induction false} NestedIsValid(t: D.FieldType, n: nat)
    requires D.ValidType(t)
    ensures D.ValidType(Nested(t, n)) && |D.Flatten(Nested(t, n))| == n + |D.Flatten(t)|
  {
    if n > 0 {
      NestedIsValid(t, n - 1);
    }
  }

  /** The name of an array class says its element type and its dimensions, of which 65535 are counted. */
  lemma {:induction false} DimensionsExact(t: D.FieldType, n: nat)
    requires D.ValidType(t) && !t.ArrayOf? && n > 0
    ensures var name := D.Print(Nested(t, n));
            && IsArrayName(name)
            && ComponentOf(D.Fields(name[1..]), 1)
               == Some(Component(D.Flatten(t)[0], if n < 65535 then n else 65535))
  {
    hide D.Fields, ComponentOf;
    NestedIsValid(t, n - 1);
    var rest := D.Print(Nested(t, n - 1));
    assert D.Print(Nested(t, n))[1..] == rest && rest + "" == rest;
    D.FieldsOfPrinted(Nested(t, n - 1), "");
    NoFields();
    assert D.Flatten(Nested(t, n - 1)) + [] == D.Flatten(Nested(t, n - 1));
    ComponentOfNested(t, n - 1, 1);
  }

  lemma {:induction false} NoFields()
    ensures D.Fields("") == []
  {
  }

  lemma {:induction false} ComponentOfNested(t: D.FieldType, n: nat, dimensions: nat)
    requires D.ValidType(t) && !t.ArrayOf? && dimensions <= 65535
    ensures D.ValidType(Nested(t, n))
    ensures ComponentOf(D.Flatten(Nested(t, n)), dimensions)
         == Some(Component(D.Flatten(t)[0], if dimensions + n < 65535 then dimensions + n else 65535))
    decreases n
  {
    NestedIsValid(t, n);
    if n > 0 {
      assert D.Flatten(Nested(t, n))[1..] == D.Flatten(Nested(t, n - 1));
      ComponentOfNested(t, n - 1, if dimensions < 65535 then dimensions + 1 else dimensions);
    }
  }

  /** So an array type in the pool is linked by its element: a primitive type with its dimensions, the class's own
      arrays, or those of another class. */
  lemma {:induction false} ArrayLinked(t: D.FieldType, n: nat, nameIndex: nat, thisName: string)
    requires D.ValidType(t) && !t.ArrayOf? && 0 < n <= 65535
    ensures LinkClass(D.Print(Nested(t, n)), nameIndex, thisName)
         == Ok(match t
               case Class(name) => if name == thisName then ResolvedClassArray(n) else ClassArray(nameIndex, n)
               case Base(_) => PrimitiveArray(n, D.Flatten(t)[0]))
    ensures t.Base? ==> D.Letter(D.Flatten(t)[0]) == t.c
  {
    hide D.Fields, ComponentOf;
    DimensionsExact(t, n);
    D.LettersExact("I");
  }

  lemma {:induction false} FieldIsLinked(entries: RawPool, e: C.ConstantPoolEntry, o: Owner)
    ensures var r := LinkEntry(entries, e, o);
            e.Fieldref? && r.Ok? ==> r.value.FieldRef? || r.value.ResolvedField?
  {
  }

  // ----- method ids

  function MethodById(vtable: seq<VMMethod>, statics: seq<VMMethod>, id: MethodID): Option<VMMethod> {
    var table := if id.VtableID? then vtable else statics;
    if id.idx < |table| then Some(table[id.idx]) else None
  }

  ghost predicate ValidStatics(statics: seq<VMMethod>) {
    forall i :: 0 <= i < |statics| ==> statics[i].idx == Cut(i) && statics[i].decl.isStatic
  }

  /** An entry of the method table is found again by its id exactly when its position fits a `u16`. */
  lemma {:induction false} VtableIdExact(vtable: seq<VMMethod>, statics: seq<VMMethod>, i: nat)
    requires ValidVtable(vtable) && i < |vtable|
    ensures MethodById(vtable, statics, vtable[i].Id()) == Some(vtable[i]) <==> i < 0x1_0000
  {
  }

  /** A method found by name is found again by its id, when the tables fit a `u16`. */
  lemma {:induction false} FoundIdFetches(vtable: seq<VMMethod>, statics: seq<VMMethod>, name: string, desc: string)
    requires ValidVtable(vtable) && ValidStatics(statics) && |vtable| <= 0x1_0000 && |statics| <= 0x1_0000
    requires First(vtable + statics, name, desc) < |vtable + statics|
    ensures var m := (vtable + statics)[First(vtable + statics, name, desc)];
            MethodById(vtable, statics, m.Id()) == Some(m) && m.decl.Named(name, desc)
  {
  }

  /** A reference that linking resolved names a method of the class with the requested name and
      descriptor. */
  lemma {:induction false} ResolvedMethodFetches(entries: RawPool, thisName: string, vtable: seq<VMMethod>,
                                                 statics: seq<VMMethod>, fields: seq<VMField>, pool: Pool, i: nat)
    requires Linked(entries, Owner(thisName, vtable + statics, fields), pool)
    requires ValidVtable(vtable) && ValidStatics(statics) && |vtable| <= 0x1_0000 && |statics| <= 0x1_0000
    requires i < |pool| && pool[i].ResolvedMethod?
    ensures entries[i].Methodref? && RawClass(entries, entries[i].classIndex) == Some(thisName)
    ensures RawNameAndType(entries, entries[i].nameAndTypeIndex).Some?
    ensures var m := MethodById(vtable, statics, pool[i].id);
            var (n, d) := RawNameAndType(entries, entries[i].nameAndTypeIndex).value;
            m.Some? && m.value.decl.Named(n, d)
  {
    hide First, ValidVtable, ValidStatics, RawClass, RawNameAndType, MethodById;
    var o := Owner(thisName, vtable + statics, fields);
    assert LinkEntry(entries, entries[i], o) == Ok(pool[i]);
    IsReference(entries, entries[i], o);
    var (_, n, d) := RawRef(entries, entries[i].classIndex, entries[i].nameAndTypeIndex).value;
    FoundIdFetches(vtable, statics, n, d);
  }

  /** A reference that linking resolved has the class's own name, and the index that is left of it is that of
      the first field with the requested name and descriptor. */
  lemma {:induction false} ResolvedFieldFetches(entries: RawPool, o: Owner, pool: Pool, i: nat)
    requires Linked(entries, o, pool) && i < |pool| && pool[i].ResolvedField?
    ensures entries[i].Fieldref? && RawClass(entries, entries[i].classIndex) == Some(o.thisName)
    ensures RawNameAndType(entries, entries[i].nameAndTypeIndex).Some?
    ensures var (n, d) := RawNameAndType(entries, entries[i].nameAndTypeIndex).value;
            var p := FirstField(o.fields, n, d);
            p < |o.fields| && pool[i].off == o.fields[p].idx
  {
    hide FirstField, RawClass, RawNameAndType;
    assert LinkEntry(entries, entries[i], o) == Ok(pool[i]);
    IsReference(entries, entries[i], o);
  }

  /** What linking makes of a method reference with a given text. */
  lemma {:induction false} MethodEntry(entries: RawPool, o: Owner, pool: Pool, i: nat,
                                       class_: string, name: string, desc: string)
    requires Linked(entries, o, pool) && i < |entries| && entries[i].Methodref?
    requires RawRef(entries, entries[i].classIndex, entries[i].nameAndTypeIndex) == Some((class_, name, desc))
    ensures pool[i] == LinkMethod(entries[i].classIndex, entries[i].nameAndTypeIndex, name, desc,
                                  class_ == o.thisName, o.methods)
    ensures RawClass(entries, entries[i].classIndex) == Some(class_)
    ensures RawNameAndType(entries, entries[i].nameAndTypeIndex) == Some((name, desc))
  {
    hide First, LinkMethod, RawClass, RawNameAndType;
    assert LinkEntry(entries, entries[i], o) == Ok(pool[i]);
  }

  /** What linking makes of a field reference with a given text. */
  lemma {:induction false} FieldEntry(entries: RawPool, o: Owner, pool: Pool, i: nat,
                                      class_: string, name: string, desc: string)
    requires Linked(entries, o, pool) && i < |entries| && entries[i].Fieldref?
    requires RawRef(entries, entries[i].classIndex, entries[i].nameAndTypeIndex) == Some((class_, name, desc))
    ensures pool[i] == LinkField(entries[i].classIndex, entries[i].nameAndTypeIndex, name, desc,
                                 class_ == o.thisName, o.fields)
    ensures RawClass(entries, entries[i].classIndex) == Some(class_)
    ensures RawNameAndType(entries, entries[i].nameAndTypeIndex) == Some((name, desc))
  {
    hide FirstField, LinkField, RawClass, RawNameAndType;
    assert LinkEntry(entries, entries[i], o) == Ok(pool[i]);
  }
}
