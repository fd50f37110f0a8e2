/** Linked classes: how one is created from a class file and its superclass, and how methods and fields are
    found down and up a chain of them (src/vm/class.rs:464-645, src/vm/mod.rs:599-722,
    src/vm/mod.rs:896-957). A class is never changed once it is made. */
module VMClasses {
  import opened Wrappers
  import opened Members
  import opened ConstantPool
  import Bytes
  import D = Descriptors

  /** A parsed class file. */
  datatype Parsed = Parsed(
    thisName: string,
    superName: string,
    pool: RawPool,
    methods: seq<JVMMethod>,
    fields: seq<JVMField>
  )

  datatype VMClass = VMClass(
    name: string,
    super: Option<VMClass>,
    vtable: seq<VMMethod>,
    statics: seq<VMMethod>,
    fields: seq<VMField>,
    pool: Pool
  )

  function JavaLangObject(): VMClass {
    VMClass("java/lang/Object", None, [VMMethod(0, JVMMethod("<init>", "()V", false, Some([0xb1])))], [], [], [])
  }

  function VtableIn(super: Option<VMClass>): seq<VMMethod> {
    match super case None => [] case Some(s) => s.vtable
  }

  function FieldsIn(super: Option<VMClass>): seq<VMField> {
    match super case None => [] case Some(s) => s.fields
  }

  function Create(f: Parsed, super: Option<VMClass>): Result<VMClass, Bytes.Error> {
    var vtable := VtableOf(VtableIn(super), f.methods);
    var statics := StaticsOf([], f.methods);
    var fields := FieldsOf(FieldsIn(super), f.fields);
    match Link(f.pool, Owner(f.thisName, vtable + statics, fields))
    case Err(e) => Err(e)
    case Ok(pool) => Ok(VMClass(f.thisName, super, vtable, statics, fields, pool))
  }

  method CreateClass(f: Parsed, super: Option<VMClass>) returns (r: Result<VMClass, Bytes.Error>)
    ensures r == Create(f, super)
  {
    hide Link, VtableOf, StaticsOf, FieldsOf;
    var vtable, statics := BuildMethods(VtableIn(super), f.methods);
    var fields := BuildFields(FieldsIn(super), f.fields);
    var pool :- FromUnresolved(f.pool, Owner(f.thisName, vtable + statics, fields));
    r := Ok(VMClass(f.thisName, super, vtable, statics, fields, pool));
  }

  /** The class and all its superclasses came from `Create`, or are the built-in one. */
  ghost predicate Made(c: VMClass) {
    c == JavaLangObject() ||
    ((exists f: Parsed :: Create(f, c.super) == Ok(c)) && (c.super.Some? ==> Made(c.super.value)))
  }

  /** Every instance field of the first list is in the second, where it was. */
  ghost predicate KeepsFields(small: seq<VMField>, big: seq<VMField>) {
    forall f :: f in small && f.data.Normal? ==> f in big
  }

  ghost predicate Sound(c: VMClass) {
    && ValidVtable(c.vtable) && ValidStatics(c.statics) && Laid(c.fields, 0)
    && (c.super.Some? ==> Extends(c.super.value.vtable, c.vtable) && KeepsFields(c.super.value.fields, c.fields))
  }

  lemma {:induction false} CreateIsSound(f: Parsed, super: Option<VMClass>, c: VMClass)
    requires Create(f, super) == Ok(c) && (super.Some? ==> Sound(super.value))
    ensures Sound(c)
  {
    hide Link, VtableOf, StaticsOf, FieldsOf, ValidVtable, ValidStatics, Laid, Extends;
    var none: seq<VMMethod> := [];
    EmptyIsSound();
    VtableKeeps(VtableIn(super), f.methods);
    StaticsAreValid(f.methods);
    LayoutKept(FieldsIn(super), f.fields);
    FieldsKept(FieldsIn(super), f.fields);
  }

  lemma {:induction false} EmptyIsSound()
    ensures ValidVtable([]) && Laid([], 0)
  {
  }

  lemma {:induction false} StaticsAreValid(methods: seq<JVMMethod>)
    ensures ValidStatics(StaticsOf([], methods))
  {
    StaticsExact([], methods);
  }

  lemma {:induction false} FieldsKept(super: seq<VMField>, declared: seq<JVMField>)
    ensures KeepsFields(super, FieldsOf(super, declared))
  {
    hide Inherited, Declare;
    forall f | f in super && f.data.Normal? ensures f in FieldsOf(super, declared) {
      InheritedExact(super, f);
    }
  }

  lemma {:induction false} MadeIsSound(c: VMClass)
    requires Made(c)
    ensures Sound(c)
  {
    hide Create, ValidStatics, Extends, KeepsFields;
    if c == JavaLangObject() {
      ObjectIsSound();
    } else {
      var f: Parsed :| Create(f, c.super) == Ok(c);
      if c.super.Some? {
        MadeIsSound(c.super.value);
      }
      CreateIsSound(f, c.super, c);
    }
  }

  lemma {:induction false} ObjectIsSound()
    ensures Sound(JavaLangObject())
  {
  }

  /** The built-in class has one method, an instance method without parameters that returns at once, and nothing
      else. */
  lemma {:induction false} ObjectExact(name: string, desc: string)
    ensures var c := JavaLangObject();
            && c.super.None? && c.fields == [] && c.statics == [] && |c.vtable| == 1
            && c.vtable[0].decl.code == Some([0xb1])
            && (MethodByName(c, name, desc).Some? <==> name == "<init>" && desc == "()V")
  {
    var table := JavaLangObject().vtable;
    assert table + [] == table && table[1..] == [];
  }

  // ----- down the chain

  predicate Ancestor(a: VMClass, c: VMClass) {
    a == c || (c.super.Some? && Ancestor(a, c.super.value))
  }

  lemma {:induction false} AncestorIsMade(a: VMClass, c: VMClass)
    requires Made(c) && Ancestor(a, c)
    ensures Made(a)
  {
    hide Create;
    if a != c {
      AncestorIsMade(a, c.super.value);
    }
  }

  /** A superclass's table entries keep their places, names and descriptors in every subclass. */
  lemma {:induction false} SlotsKept(a: VMClass, c: VMClass)
    requires Made(c) && Ancestor(a, c)
    ensures ValidVtable(c.vtable) && Extends(a.vtable, c.vtable)
  {
    hide Create, ValidVtable, ValidStatics, Laid, KeepsFields;
    MadeIsSound(c);
    if a != c {
      SlotsKept(a, c.super.value);
    }
  }

  /** An inherited instance field is in every subclass at the same offset, its slots are disjoint from those
      of any other instance field there, and lie within the object's. */
  lemma {:induction false} FieldsStay(a: VMClass, c: VMClass, f: VMField)
    requires Made(c) && Ancestor(a, c) && f in a.fields && f.data.Normal?
    ensures f in c.fields
    ensures f.data.off + SlotsOf(f.field) <= FieldsSlots(c.fields)
    ensures forall i, j :: 0 <= i < j < |c.fields| && c.fields[i].data.Normal? && c.fields[j].data.Normal? ==>
              c.fields[i].data.off + SlotsOf(c.fields[i].field) <= c.fields[j].data.off
  {
    hide Create, ValidVtable, ValidStatics, Laid, SlotsOf, FieldsSlots, InstanceSlots, Extends;
    MadeIsSound(c);
    if a != c {
      FieldsStay(a, c.super.value, f);
    }
    var i :| 0 <= i < |c.fields| && c.fields[i] == f;
    LaidAt(c.fields, 0, i);
    InstanceSlotsFit(c.fields);
    forall i, j | 0 <= i < j < |c.fields| && c.fields[i].data.Normal? && c.fields[j].data.Normal?
      ensures c.fields[i].data.off + SlotsOf(c.fields[i].field) <= c.fields[j].data.off
    {
      LaidAt(c.fields, 0, i);
    }
  }

  lemma {:induction false} MadeIsMarked(c: VMClass)
    requires Made(c)
    ensures Marked(c.fields)
  {
    hide Link, VtableOf, StaticsOf, FieldsOf;
    if c != JavaLangObject() {
      var f: Parsed :| Create(f, c.super) == Ok(c);
      if c.super.Some? {
        MadeIsMarked(c.super.value);
      }
      MarkedKept(FieldsIn(c.super), f.fields);
    }
  }

  /** The objects of a class, in the slots of its field types: an object is given the slots of all the types in the
      class's list, and each instance field lies in these, disjoint from every later one. */
  lemma {:induction false} ObjectLayout(c: VMClass, types: seq<D.FieldType>)
    requires Made(c) && Typed(Declarations(c.fields), types)
    ensures FieldsSlots(c.fields) == AllTotal(types)
    ensures EndOf(c.fields) == InstanceTotal(Declarations(c.fields), types)
    ensures forall i, j :: 0 <= i < j < |c.fields| && c.fields[i].data.Normal? && c.fields[j].data.Normal? ==>
              c.fields[i].data.off + AllTotal([types[i]]) <= c.fields[j].data.off
    ensures forall i :: 0 <= i < |c.fields| && c.fields[i].data.Normal? ==>
              c.fields[i].data.off + AllTotal([types[i]]) <= AllTotal(types)
  {
    hide Typed, Laid, InstanceTotal, AllTotal, FieldsSlots, EndOf, ValidVtable, ValidStatics, Made, Marked;
    MadeIsSound(c);
    MadeIsMarked(c);
    SlotsExact(c.fields, types);
  }

  /** A field that a class declares stands behind the instance fields of the superclass, and behind those declared
      before it. */
  lemma {:induction false} DeclaredOffset(f: Parsed, c: VMClass, types: seq<D.FieldType>, own: seq<D.FieldType>, k: nat)
    requires Create(f, c.super) == Ok(c) && (c.super.Some? ==> Made(c.super.value)) && k < |f.fields|
    requires Typed(Declarations(FieldsIn(c.super)), types) && Typed(f.fields, own)
    ensures |c.fields| == |Inherited(FieldsIn(c.super))| + |f.fields|
    ensures var super := FieldsIn(c.super);
            var inherited := InstanceTotal(Declarations(super), types);
            c.fields[|Inherited(super)| + k].data == if f.fields[k].isStatic then StaticData
                                                     else Normal(inherited + InstanceTotal(f.fields[..k], own[..k]))
  {
    hide Create, FieldsOf, InstanceTotal, EndOf, Inherited, Made, Typed;
    FieldsCreated(f, c);
    OwnCount(f, own);
    OffsetsExact(FieldsIn(c.super), f.fields, own, k);
    if c.super.Some? {
      ObjectLayout(c.super.value, types);
    } else {
      NoFields(types);
    }
  }

  lemma {:induction false} FieldsCreated(f: Parsed, c: VMClass)
    requires Create(f, c.super) == Ok(c)
    ensures c.fields == FieldsOf(FieldsIn(c.super), f.fields)
  {
    hide Link, VtableOf, StaticsOf, FieldsOf;
  }

  lemma {:induction false} OwnCount(f: Parsed, own: seq<D.FieldType>)
    requires Typed(f.fields, own)
    ensures |own| == |f.fields|
  {
  }

  lemma {:induction false} NoFields(types: seq<D.FieldType>)
    requires Typed(Declarations([]), types)
    ensures |types| == 0 && EndOf([]) == 0 == InstanceTotal(Declarations([]), types)
  {
  }

  // ----- lookups by name

  /** `method_by_name` with a descriptor. */
  function MethodByName(c: VMClass, name: string, desc: string): Option<VMMethod> {
    var table := c.vtable + c.statics;
    var i := First(table, name, desc);
    if i < |table| then Some(table[i]) else None
  }

  function ById(c: VMClass, id: MethodID): Option<VMMethod> {
    MethodById(c.vtable, c.statics, id)
  }

  /** The search made at a virtual call picks the entry of the receiver's table at the position the method
      has in the superclass's. */
  lemma {:induction false} DispatchByName(a: VMClass, c: VMClass, i: nat)
    requires Made(c) && Ancestor(a, c) && i < |a.vtable|
    ensures i < |c.vtable|
    ensures MethodByName(c, a.vtable[i].decl.name, a.vtable[i].decl.descriptor) == Some(c.vtable[i])
  {
    hide Create, Made, First;
    SlotsKept(a, c);
    var table := c.vtable + c.statics;
    FirstIs(table, a.vtable[i].decl.name, a.vtable[i].decl.descriptor, i);
  }

  /** `c` is made from the files, in order, on top of `base`. */
  ghost predicate Chain(base: Option<VMClass>, files: seq<Parsed>, c: Option<VMClass>) {
    if files == [] then c == base else
      && c.Some? && Create(files[|files| - 1], c.value.super) == Ok(c.value)
      && Chain(base, files[..|files| - 1], c.value.super)
  }

  /** The most derived declaration in the class files. */
  function Selected(base: Option<JVMMethod>, files: seq<Parsed>, name: string, desc: string): Option<JVMMethod> {
    if files == [] then base else
      Latest(Selected(base, files[..|files| - 1], name, desc), files[|files| - 1].methods, name, desc)
  }

  /** For every name and descriptor, the table of a class holds the most derived declaration of its chain of
      class files. */
  lemma {:induction false} TableHoldsMostDerived(base: Option<VMClass>, files: seq<Parsed>, c: Option<VMClass>,
                                                 name: string, desc: string)
    requires Chain(base, files, c)
    ensures InTable(VtableIn(c), name, desc) == Selected(InTable(VtableIn(base), name, desc), files, name, desc)
  {
    hide InTable, Latest, VtableOf, StaticsOf, FieldsOf, Link;
    if files != [] {
      var last := |files| - 1;
      TableHoldsMostDerived(base, files[..last], c.value.super, name, desc);
      SearchFindsLatest(VtableIn(c.value.super), files[last].methods, name, desc);
    }
  }

  // ----- up the chain

  /** The superclass walk of `get_method_or_resolve`. */
  function Walk(c: VMClass, name: string, desc: string): Option<(VMClass, MethodID)> {
    match MethodByName(c, name, desc)
    case Some(m) => Some((c, m.Id()))
    case None => match c.super case Some(s) => Walk(s, name, desc) case None => None
  }

  method FindMethod(root: VMClass, name: string, desc: string) returns (found: Option<(VMClass, MethodID)>)
    ensures found == Walk(root, name, desc)
  {
    hide MethodByName;
    var current := root;
    while true
      invariant Walk(root, name, desc) == Walk(current, name, desc)
      decreases current
    {
      match MethodByName(current, name, desc) {
        case Some(m) => return Some((current, m.Id()));
        case None =>
          match current.super {
            case Some(s) => current := s;
            case None => return None;
          }
      }
    }
  }

  /** The tables of the class and its superclasses have at most 65536 entries. */
  predicate TablesFit(c: VMClass) {
    |c.vtable| <= 0x1_0000 && |c.statics| <= 0x1_0000 && (c.super.Some? ==> TablesFit(c.super.value))
  }

  /** Whatever the walk returns: the id fetches a method with the name and descriptor from the class, that
      class is the nearest that has one, and above the starting class only static methods are ever found. If
      it returns nothing, no class of the chain has one. */
  lemma {:induction false} WalkExact(c: VMClass, name: string, desc: string)
    requires Made(c) && TablesFit(c)
    ensures match Walk(c, name, desc)
            case Some((k, id)) =>
              && Ancestor(k, c) && ById(k, id).Some? && ById(k, id).value.decl.Named(name, desc)
              && (k != c ==> id.StaticID?)
              && forall b :: Ancestor(b, c) && MethodByName(b, name, desc).Some? ==> Ancestor(b, k)
            case None => forall b :: Ancestor(b, c) ==> MethodByName(b, name, desc).None?
  {
    hide Create, First, ValidVtable, ValidStatics, Laid, KeepsFields, MethodByName;
    MadeIsSound(c);
    match MethodByName(c, name, desc)
    case Some(m) => OwnIdFetches(c, name, desc);
    case None =>
      if c.super.Some? {
        var s := c.super.value;
        WalkExact(s, name, desc);
        match Walk(s, name, desc)
        case None =>
        case Some((k, id)) =>
          StrictlyAbove(k, s, c);
          if id.VtableID? {
            var j := id.idx;
            SlotsKept(k, c);
            NotInTable(c, name, desc, j);
          }
      }
  }

  lemma {:induction false} OwnIdFetches(c: VMClass, name: string, desc: string)
    requires Sound(c) && |c.vtable| <= 0x1_0000 && |c.statics| <= 0x1_0000 && MethodByName(c, name, desc).Some?
    ensures var m := MethodByName(c, name, desc).value;
            ById(c, m.Id()) == Some(m) && m.decl.Named(name, desc)
  {
  }

  lemma {:induction false} StrictlyAbove(k: VMClass, s: VMClass, c: VMClass)
    requires c.super == Some(s) && Ancestor(k, s)
    ensures Ancestor(k, c) && k != c
  {
    AncestorIsNotDeeper(k, s);
  }

  /** The number of superclasses. */
  function Depth(c: VMClass): nat {
    match c.super case None => 0 case Some(s) => 1 + Depth(s)
  }

  lemma {:induction false} AncestorIsNotDeeper(a: VMClass, c: VMClass)
    requires Ancestor(a, c)
    ensures Depth(a) <= Depth(c)
  {
    if a != c {
      AncestorIsNotDeeper(a, c.super.value);
    }
  }

  lemma {:induction false} NotInTable(c: VMClass, name: string, desc: string, j: nat)
    requires MethodByName(c, name, desc).None? && j < |c.vtable|
    ensures !c.vtable[j].decl.Named(name, desc)
  {
    assert (c.vtable + c.statics)[j] == c.vtable[j];
  }

  /** `field_by_name`: the first field of this name, or the length. */
  function FirstNamed(fields: seq<VMField>, name: string): (i: nat)
    ensures i <= |fields| && (i < |fields| ==> fields[i].field.name == name)
    ensures forall k :: 0 <= k < i ==> fields[k].field.name != name
  {
    if fields == [] || fields[0].field.name == name then 0 else 1 + FirstNamed(fields[1..], name)
  }

  /** The superclass walk of `get_field_or_resolve`. */
  function WalkFields(c: VMClass, name: string): Option<(VMClass, nat)> {
    var i := FirstNamed(c.fields, name);
    if i < |c.fields| then Some((c, c.fields[i].idx)) else
      match c.super case Some(s) => WalkFields(s, name) case None => None
  }

  method FindFieldUp(root: VMClass, name: string) returns (found: Option<(VMClass, nat)>)
    ensures found == WalkFields(root, name)
  {
    hide FirstNamed;
    var current := root;
    while true
      invariant WalkFields(root, name) == WalkFields(current, name)
      decreases current
    {
      var i := FirstNamed(current.fields, name);
      if i < |current.fields| {
        return Some((current, current.fields[i].idx));
      }
      match current.super {
        case Some(s) => current := s;
        case None => return None;
      }
    }
  }

  /** The class's fields come from the file, and take slots. */
  ghost predicate FieldsFrom(c: VMClass, f: Parsed) {
    c.fields == FieldsOf(FieldsIn(c.super), f.fields) && RealFields(FieldsIn(c.super), f.fields)
  }

  /** So do those of all its superclasses. */
  ghost predicate FieldsReal(c: VMClass) {
    (exists f: Parsed :: FieldsFrom(c, f)) && (c.super.Some? ==> FieldsReal(c.super.value))
  }

  /** The instance fields that a class inherits. */
  function InheritedBy(c: VMClass): seq<VMField> {
    Inherited(FieldsIn(c.super))
  }

  /** `x` is the field that the class's file declares at position `k`. */
  ghost predicate DeclaredAs(c: VMClass, f: Parsed, k: nat, x: VMField) {
    && FieldsFrom(c, f) && k < |f.fields| && |c.fields| == |InheritedBy(c)| + |f.fields|
    && x == c.fields[|InheritedBy(c)| + k]
  }

  /** An ancestor's instance fields come first in a class's list, where they were among its own. */
  lemma {:induction false} InstancesFirst(a: VMClass, c: VMClass)
    requires FieldsReal(c) && Ancestor(a, c)
    ensures Inherited(a.fields) <= Inherited(c.fields)
    ensures a != c ==> Inherited(a.fields) <= c.fields
  {
    hide Inherited, Declare, RealFields;
    if a != c {
      InstancesFirst(a, c.super.value);
      var f: Parsed :| FieldsFrom(c, f);
      InstancesOf(FieldsIn(c.super), f.fields);
    }
  }

  /** The index of an inherited field finds it exactly when the class that declares it inherits as many
      instance fields as it declares statics before it. The index counts all fields declared before it, the
      lookup counts the instance fields before it. */
  lemma {:induction false} InheritedIndexExact(a: VMClass, f: Parsed, k: nat, x: VMField, c: VMClass)
    requires FieldsReal(c) && Ancestor(a, c) && a != c
    requires DeclaredAs(a, f, k, x) && !f.fields[k].isStatic
    ensures x in c.fields && x.field == f.fields[k]
    ensures FieldByIdx(c.fields, x.idx) == Some(x) <==> |InheritedBy(a)| == StaticCount(f.fields[..k])
  {
    hide Inherited, Declare, RealFields, FieldByIdx, StaticCount, EndOf, SlotsOf, Cut;
    var super := FieldsIn(a.super);
    InstancesFirst(a, c);
    InstancesOf(super, f.fields);
    InstanceAt(f.fields, 0, EndOf(super), k);
    DeclaredAt(f.fields, 0, EndOf(super), k);
    FitsU16(super, f.fields);
    CutExact(k);
    var p := |InheritedBy(a)| + k - StaticCount(f.fields[..k]);
    assert c.fields[p] == Inherited(a.fields)[p] == x;
    var file: Parsed :| FieldsFrom(c, file);
    FieldIndexExact(FieldsIn(c.super), file.fields, p);
  }

  /** `x`, in the list of `c`, was declared by the class itself, or is an instance field that an ancestor
      declared. */
  ghost predicate Origin(a: VMClass, f: Parsed, k: nat, x: VMField, c: VMClass) {
    Ancestor(a, c) && DeclaredAs(a, f, k, x) && (a != c ==> !f.fields[k].isStatic)
  }

  lemma {:induction false} FieldOrigin(c: VMClass, i: nat) returns (a: VMClass, f: Parsed, k: nat)
    requires FieldsReal(c) && i < |c.fields|
    ensures Origin(a, f, k, c.fields[i], c)
  {
    hide Inherited, Declare, RealFields, EndOf, SlotsOf, Cut;
    var own: Parsed :| FieldsFrom(c, own);
    var super := FieldsIn(c.super);
    DeclareLength(own.fields, 0, EndOf(super));
    if i < |InheritedBy(c)| {
      var x := c.fields[i];
      InheritedExact(super, x);
      EmptyInherited(c);
      var q :| 0 <= q < |super| && super[q] == x;
      a, f, k := FieldOrigin(c.super.value, q);
      DeclareLength(f.fields, 0, EndOf(FieldsIn(a.super)));
      DeclaredAt(f.fields, 0, EndOf(FieldsIn(a.super)), k);
      AncestorIsNotDeeper(a, c.super.value);
    } else {
      a, f, k := c, own, i - |InheritedBy(c)|;
    }
  }

  lemma {:induction false} EmptyInherited(c: VMClass)
    ensures InheritedBy(c) != [] ==> c.super.Some?
  {
  }

  /** When the index of a field that is declared at position `k` of class `a` finds it in the list of `c`. */
  ghost predicate IndexWorks(a: VMClass, f: Parsed, k: nat, c: VMClass) {
    k <= |f.fields| && |InheritedBy(a)| == if a == c then 0 else StaticCount(f.fields[..k])
  }

  lemma {:induction false} IndexExact(a: VMClass, f: Parsed, k: nat, x: VMField, c: VMClass)
    requires FieldsReal(c) && Origin(a, f, k, x, c)
    ensures FieldByIdx(c.fields, x.idx) == Some(x) <==> IndexWorks(a, f, k, c)
  {
    hide Inherited, Declare, RealFields, FieldByIdx, StaticCount, FieldsReal;
    if a == c {
      DeclaredIndexExact(FieldsIn(c.super), f.fields, k);
    } else {
      InheritedIndexExact(a, f, k, x, c);
    }
  }

  /** The `i`-th field of a class has an origin, and that decides whether its index finds it. */
  ghost predicate DecidedByOrigin(c: VMClass, i: nat)
    requires i < |c.fields|
  {
    var x := c.fields[i];
    && (exists a: VMClass, f: Parsed, k: nat :: Origin(a, f, k, x, c))
    && (forall a: VMClass, f: Parsed, k: nat :: Origin(a, f, k, x, c) ==>
          (FieldByIdx(c.fields, x.idx) == Some(x) <==> IndexWorks(a, f, k, c)))
  }

  lemma {:induction false} OriginDecides(c: VMClass, i: nat)
    requires FieldsReal(c) && i < |c.fields|
    ensures DecidedByOrigin(c, i)
  {
    hide FieldsReal, Origin, FieldByIdx, IndexWorks;
    var x := c.fields[i];
    var a, f, k := FieldOrigin(c, i);
    forall a: VMClass, f: Parsed, k: nat | Origin(a, f, k, x, c)
      ensures FieldByIdx(c.fields, x.idx) == Some(x) <==> IndexWorks(a, f, k, c)
    {
      IndexExact(a, f, k, x, c);
    }
  }

  /** Whatever the field walk returns: the nearest class that has a field of the name, and the index of the
      first such field there; the declaration of that field decides whether the index fetches it. */
  lemma {:induction false} FieldWalkExact(c: VMClass, name: string)
    requires FieldsReal(c)
    ensures match WalkFields(c, name)
            case Some((k, off)) =>
              var i := FirstNamed(k.fields, name);
              && Ancestor(k, c) && i < |k.fields| && off == k.fields[i].idx && DecidedByOrigin(k, i)
              && forall b :: Ancestor(b, c) && FirstNamed(b.fields, name) < |b.fields| ==> Ancestor(b, k)
            case None => forall b :: Ancestor(b, c) ==> FirstNamed(b.fields, name) == |b.fields|
  {
    hide FirstNamed, DecidedByOrigin;
    var i := FirstNamed(c.fields, name);
    if i < |c.fields| {
      OriginDecides(c, i);
    } else if c.super.Some? {
      FieldWalkExact(c.super.value, name);
    }
  }

  // ----- resolving a method reference

  datatype ResolveError =
    | InvalidConstantPoolEntry
    | NoSuchMethodInClass
    | NoSuchFieldInClass
    | NotLoaded(name: string)
    | Panic

  /** `get_class_or_load_by_ref` with nothing cached, where a class name means what `table` says. */
  function RootClass(table: map<string, VMClass>, c: VMClass, i: nat): Result<VMClass, ResolveError> {
    match GetClass(c.pool, i)
    case Missing => Err(InvalidConstantPoolEntry)
    case Panics => Err(Panic)
    case Found(cn) => if cn in table then Ok(table[cn]) else Err(NotLoaded(cn))
  }

  /** The class entry of a member reference. */
  function RefClass(c: VMClass, i: nat): nat {
    if i < |c.pool| && (c.pool[i].MethodRef? || c.pool[i].FieldRef?) then c.pool[i].class_ else 0
  }

  /** `get_method_or_resolve`, given what the reference's class comes to. */
  function MethodVia(root: Result<VMClass, ResolveError>, c: VMClass, i: nat)
      : Result<(VMClass, MethodID), ResolveError>
  {
    if i >= |c.pool| then Err(InvalidConstantPoolEntry) else
      match c.pool[i]
      case ResolvedMethod(id) => Ok((c, id))
      case MethodRef(_, nat_) =>
        (match (GetNameAndType(c.pool, nat_), root)
         case (Found((name, desc)), Ok(r)) =>
           (match Walk(r, name, desc) case Some(found) => Ok(found) case None => Err(NoSuchMethodInClass))
         case (Found(_), Err(e)) => Err(e)
         case _ => Err(Panic))
      case _ => Err(InvalidConstantPoolEntry)
  }

  function ResolveMethod(table: map<string, VMClass>, c: VMClass, i: nat): Result<(VMClass, MethodID), ResolveError> {
    MethodVia(RootClass(table, c, RefClass(c, i)), c, i)
  }

  /** `get_field_or_resolve`, given what the reference's class comes to. */
  function FieldVia(root: Result<VMClass, ResolveError>, c: VMClass, i: nat): Result<(VMClass, nat), ResolveError> {
    if i >= |c.pool| then Err(InvalidConstantPoolEntry) else
      match c.pool[i]
      case ResolvedField(off) => Ok((c, off))
      case FieldRef(_, nat_) =>
        (match (GetNameAndType(c.pool, nat_), root)
         case (Found((name, _)), Ok(r)) =>
           (match WalkFields(r, name) case Some(found) => Ok(found) case None => Err(NoSuchFieldInClass))
         case (Found(_), Err(e)) => Err(e)
         case _ => Err(Panic))
      case _ => Err(InvalidConstantPoolEntry)
  }

  function ResolveField(table: map<string, VMClass>, c: VMClass, i: nat): Result<(VMClass, nat), ResolveError> {
    FieldVia(RootClass(table, c, RefClass(c, i)), c, i)
  }

  /** What the class file at hand says about a method reference. */
  ghost predicate Refers(f: Parsed, i: nat, class_: string, name: string, desc: string) {
    && i < |f.pool| && f.pool[i].Methodref?
    && RawRef(f.pool, f.pool[i].classIndex, f.pool[i].nameAndTypeIndex) == Some((class_, name, desc))
  }

  ghost predicate TableMade(table: map<string, VMClass>) {
    forall n :: n in table ==> Made(table[n]) && TablesFit(table[n])
  }

  /** Resolution never panics; when it succeeds, the reference in the class file names a class, a method name
      and a descriptor, and the id fetches a method with these from the class that is returned: the class
      itself, or an ancestor of the class with the reference's name. */
  lemma {:induction false} ResolveMethodFetches(table: map<string, VMClass>, f: Parsed, c: VMClass, i: nat)
    requires Create(f, c.super) == Ok(c) && Made(c) && TablesFit(c) && TableMade(table)
    ensures ResolveMethod(table, c, i) != Err(Panic)
    ensures match ResolveMethod(table, c, i)
            case Err(_) => true
            case Ok((k, id)) =>
              && Made(k) && ById(k, id).Some?
              && exists cn, n, d :: Refers(f, i, cn, n, d) && ById(k, id).value.decl.Named(n, d)
                                    && if k == c && cn == c.name then true else cn in table && Ancestor(k, table[cn])
  {
    hide First, ValidVtable, ValidStatics, Laid, KeepsFields, MethodById, Walk, MethodByName, Extends, LinkEntry,
      RawText, RawClass, RawNameAndType, GetNameAndType, GetClass, VtableOf, StaticsOf, FieldsOf, Link, Made;
    var o := Owner(f.thisName, c.vtable + c.statics, c.fields);
    LinkedExact(f.pool, o);
    MadeIsSound(c);
    if i < |c.pool| {
      match c.pool[i]
      case ResolvedMethod(id) =>
        ResolvedMethodFetches(f.pool, f.thisName, c.vtable, c.statics, c.fields, c.pool, i);
        var (n, d) := RawNameAndType(f.pool, f.pool[i].nameAndTypeIndex).value;
        assert Refers(f, i, f.thisName, n, d);
      case MethodRef(class_, nat_) =>
        UnresolvedHasName(f.pool, o, c.pool, i);
        MethodRefRaw(f.pool, o, c.pool, i);
        TextsFound(f.pool, o, c.pool, nat_);
        ClassesFound(f.pool, o, c.pool, class_);
        var (n, d) := RawNameAndType(f.pool, nat_).value;
        var cn := RawClass(f.pool, class_).value;
        assert Refers(f, i, cn, n, d);
        if !IsArrayName(cn) && cn in table {
          WalkExact(table[cn], n, d);
          match Walk(table[cn], n, d)
          case None =>
          case Some((k, id)) => AncestorIsMade(k, table[cn]);
        }
      case _ =>
    }
  }

  lemma {:induction false} MethodRefRaw(entries: RawPool, o: Owner, pool: Pool, i: nat)
    requires Linked(entries, o, pool) && i < |pool| && pool[i].MethodRef?
    ensures entries[i].Methodref? && entries[i].classIndex == pool[i].class_
    ensures entries[i].nameAndTypeIndex == pool[i].nameAndDesc
  {
  }

  /** What is no method reference in the class file is never resolved as one, nor what is no field reference as a
      field. */
  lemma {:induction false} NoReference(table: map<string, VMClass>, f: Parsed, c: VMClass, i: nat)
    requires Create(f, c.super) == Ok(c)
    ensures i >= |f.pool| || !f.pool[i].Methodref? ==> ResolveMethod(table, c, i) == Err(InvalidConstantPoolEntry)
    ensures i >= |f.pool| || !f.pool[i].Fieldref? ==> ResolveField(table, c, i) == Err(InvalidConstantPoolEntry)
  {
    hide LinkEntry, RawText, RawClass, RawNameAndType, GetNameAndType, GetClass, VtableOf, StaticsOf, FieldsOf, Link,
      Walk, WalkFields;
    var o := Owner(f.thisName, c.vtable + c.statics, c.fields);
    LinkedExact(f.pool, o);
    if i < |f.pool| {
      assert LinkEntry(f.pool, f.pool[i], o) == Ok(c.pool[i]);
      IsReference(f.pool, f.pool[i], o);
    }
  }

  /** A virtual call: when the resolved method is an instance method of an ancestor of the receiver's class,
      the search in the receiver's class succeeds, and picks the receiver's entry at the resolved index. */
  lemma {:induction false} VirtualCall(table: map<string, VMClass>, f: Parsed, c: VMClass, i: nat, receiver: VMClass)
    requires Create(f, c.super) == Ok(c) && Made(c) && TablesFit(c) && TableMade(table)
    requires ResolveMethod(table, c, i).Ok?
    requires var (k, id) := ResolveMethod(table, c, i).value; id.VtableID? && Made(receiver) && Ancestor(k, receiver)
    ensures var (k, id) := ResolveMethod(table, c, i).value;
            && ById(k, id).Some? && id.idx < |receiver.vtable|
            && var m := ById(k, id).value;
               MethodByName(receiver, m.decl.name, m.decl.descriptor) == Some(receiver.vtable[id.idx])
  {
    hide ResolveMethod, Create, Made, TablesFit, TableMade, MethodByName, Refers;
    var (k, id) := ResolveMethod(table, c, i).value;
    ResolveMethodFetches(table, f, c, i);
    var m := ById(k, id).value;
    assert m == k.vtable[id.idx];
    DispatchByName(k, receiver, id.idx);
  }

  // ----- resolving a field reference

  /** What the class file at hand says about a field reference. */
  ghost predicate RefersToField(f: Parsed, i: nat, class_: string, name: string, desc: string) {
    && i < |f.pool| && f.pool[i].Fieldref?
    && RawRef(f.pool, f.pool[i].classIndex, f.pool[i].nameAndTypeIndex) == Some((class_, name, desc))
  }

  /** The `p`-th field of `k` is the one that a reference in `c` comes to: the first of the name and descriptor
      in the class itself, or else the first of the name alone in the nearest class that has one. */
  ghost predicate FieldMeant(table: map<string, VMClass>, c: VMClass, k: VMClass, p: nat,
                             class_: string, name: string, desc: string) {
    p < |k.fields| &&
    var own := FirstField(c.fields, name, desc);
    if class_ == c.name && own < |c.fields| then k == c && p == own else
      && class_ in table && WalkFields(table[class_], name) == Some((k, k.fields[p].idx))
      && p == FirstNamed(k.fields, name)
  }

  ghost predicate FieldFetched(table: map<string, VMClass>, f: Parsed, c: VMClass, i: nat, k: VMClass, off: nat,
                               p: nat, class_: string, name: string, desc: string) {
    && RefersToField(f, i, class_, name, desc) && FieldMeant(table, c, k, p, class_, name, desc)
    && off == k.fields[p].idx && DecidedByOrigin(k, p)
  }

  ghost predicate TableFieldsReal(table: map<string, VMClass>) {
    forall n :: n in table ==> FieldsReal(table[n])
  }

  /** Resolution of a field never panics; when it succeeds, the index is that of the field which the reference
      comes to, and the declaration of that field decides whether the index fetches it. */
  lemma {:induction false} ResolveFieldFetches(table: map<string, VMClass>, f: Parsed, c: VMClass, i: nat)
    requires Create(f, c.super) == Ok(c) && FieldsReal(c) && TableFieldsReal(table)
    ensures ResolveField(table, c, i) != Err(Panic)
    ensures match ResolveField(table, c, i)
            case Err(_) => true
            case Ok((k, off)) => exists p, cn, n, d :: FieldFetched(table, f, c, i, k, off, p, cn, n, d)
  {
    hide FirstField, FirstNamed, Walk, WalkFields, LinkEntry, RawText, RawClass, RawNameAndType, GetNameAndType,
      GetClass, VtableOf, StaticsOf, FieldsOf, Link, DecidedByOrigin, FieldsReal;
    var o := Owner(f.thisName, c.vtable + c.statics, c.fields);
    LinkedExact(f.pool, o);
    if i < |c.pool| {
      match c.pool[i]
      case ResolvedField(off) =>
        ResolvedFieldFetches(f.pool, o, c.pool, i);
        var (n, d) := RawNameAndType(f.pool, f.pool[i].nameAndTypeIndex).value;
        var p := FirstField(c.fields, n, d);
        OriginDecides(c, p);
        assert FieldFetched(table, f, c, i, c, off, p, c.name, n, d);
      case FieldRef(class_, nat_) =>
        UnresolvedHasName(f.pool, o, c.pool, i);
        FieldRefRaw(f.pool, o, c.pool, i);
        TextsFound(f.pool, o, c.pool, nat_);
        ClassesFound(f.pool, o, c.pool, class_);
        var (n, d) := RawNameAndType(f.pool, nat_).value;
        var cn := RawClass(f.pool, class_).value;
        FieldEntry(f.pool, o, c.pool, i, cn, n, d);
        if !IsArrayName(cn) && cn in table {
          FieldWalkExact(table[cn], n);
          match WalkFields(table[cn], n)
          case None =>
          case Some((k, off)) => assert FieldFetched(table, f, c, i, k, off, FirstNamed(k.fields, n), cn, n, d);
        }
      case _ =>
    }
  }

  lemma {:induction false} FieldRefRaw(entries: RawPool, o: Owner, pool: Pool, i: nat)
    requires Linked(entries, o, pool) && i < |pool| && pool[i].FieldRef?
    ensures entries[i].Fieldref? && entries[i].classIndex == pool[i].class_
    ensures entries[i].nameAndTypeIndex == pool[i].nameAndDesc
  {
    assert LinkEntry(entries, entries[i], o) == Ok(pool[i]);
    IsReference(entries, entries[i], o);
  }

  // ----- references by their text

  /** The class has the name that its file gives it, no array's, and is found by it. */
  ghost predicate BoundAs(table: map<string, VMClass>, f: Parsed, c: VMClass) {
    Create(f, c.super) == Ok(c) && !IsArrayName(f.thisName) && f.thisName in table && table[f.thisName] == c
  }

  function ClassByText(table: map<string, VMClass>, class_: string): Result<VMClass, ResolveError> {
    if IsArrayName(class_) then Err(InvalidConstantPoolEntry)
    else if class_ in table then Ok(table[class_]) else Err(NotLoaded(class_))
  }

  /** The method that a class name, a method name and a descriptor mean, whoever refers to it. */
  function MethodByText(table: map<string, VMClass>, class_: string, name: string, desc: string)
      : Result<(VMClass, MethodID), ResolveError>
  {
    match ClassByText(table, class_)
    case Err(e) => Err(e)
    case Ok(r) => match Walk(r, name, desc) case Some(found) => Ok(found) case None => Err(NoSuchMethodInClass)
  }

  /** The field that a class name and a field name mean. */
  function FieldByText(table: map<string, VMClass>, class_: string, name: string)
      : Result<(VMClass, nat), ResolveError>
  {
    match ClassByText(table, class_)
    case Err(e) => Err(e)
    case Ok(r) => match WalkFields(r, name) case Some(found) => Ok(found) case None => Err(NoSuchFieldInClass)
  }

  /** Resolution of a method is decided by the text of the reference alone, whether linking resolved it or the
      first use does. */
  lemma {:induction false} MethodTextDecides(table: map<string, VMClass>, f: Parsed, c: VMClass, i: nat,
                                             class_: string, name: string, desc: string)
    requires BoundAs(table, f, c) && Refers(f, i, class_, name, desc)
    ensures ResolveMethod(table, c, i) == MethodByText(table, class_, name, desc)
  {
    hide First, LinkEntry, RawText, RawClass, RawNameAndType, GetNameAndType, GetClass, VtableOf, StaticsOf,
      FieldsOf, Link, IsArrayName;
    var o := Owner(f.thisName, c.vtable + c.statics, c.fields);
    LinkedExact(f.pool, o);
    MethodEntry(f.pool, o, c.pool, i, class_, name, desc);
    TextsFound(f.pool, o, c.pool, f.pool[i].nameAndTypeIndex);
    ClassesFound(f.pool, o, c.pool, f.pool[i].classIndex);
  }

  /** So is that of a field, except for a field of the class itself behind another of its name that has another
      index: linking looks at the descriptor, the search does not. */
  lemma {:induction false} FieldTextDecides(table: map<string, VMClass>, f: Parsed, c: VMClass, i: nat,
                                            class_: string, name: string, desc: string)
    requires BoundAs(table, f, c) && RefersToField(f, i, class_, name, desc)
    ensures var own, first := FirstField(c.fields, name, desc), FirstNamed(c.fields, name);
            && (own < |c.fields| ==> first <= own)
            && (ResolveField(table, c, i) == FieldByText(table, class_, name) <==>
                  (class_ == c.name && own < |c.fields| ==> c.fields[first].idx == c.fields[own].idx))
  {
    hide LinkEntry, RawText, RawClass, RawNameAndType, GetNameAndType, GetClass, VtableOf, StaticsOf, FieldsOf,
      Link, IsArrayName, FirstField, FirstNamed;
    var o := Owner(f.thisName, c.vtable + c.statics, c.fields);
    LinkedExact(f.pool, o);
    FieldEntry(f.pool, o, c.pool, i, class_, name, desc);
    TextsFound(f.pool, o, c.pool, f.pool[i].nameAndTypeIndex);
    ClassesFound(f.pool, o, c.pool, f.pool[i].classIndex);
  }

  /** A body that runs on the pool of another class than the one whose file it is in, such as an inherited one,
      calls the methods it was compiled to call when the two files agree on the text at the index. */
  lemma {:induction false} SameTextSameMethod(table: map<string, VMClass>, f: Parsed, c: VMClass,
                                              g: Parsed, b: VMClass, i: nat, j: nat)
    requires BoundAs(table, f, c) && BoundAs(table, g, b)
    requires exists cn, n, d :: Refers(f, i, cn, n, d) && Refers(g, j, cn, n, d)
    ensures ResolveMethod(table, c, i) == ResolveMethod(table, b, j)
  {
    hide BoundAs, Refers, ResolveMethod, MethodByText;
    var cn, n, d :| Refers(f, i, cn, n, d) && Refers(g, j, cn, n, d);
    MethodTextDecides(table, f, c, i, cn, n, d);
    MethodTextDecides(table, g, b, j, cn, n, d);
  }
}
