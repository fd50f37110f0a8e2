/** The members of a class: its method tables and its field layout (src/vm/class.rs:336-400,
    src/vm/class.rs:546-618). */
module Members {
  import opened Wrappers
  import Descriptors

  // ----- methods

  datatype JVMMethod = JVMMethod(name: string, descriptor: string, isStatic: bool, code: Option<seq<int>>) {
    predicate Named(n: string, d: string) {
      name == n && descriptor == d
    }
  }

  datatype MethodID = StaticID(idx: nat) | VtableID(idx: nat)

  datatype VMMethod = VMMethod(idx: nat, decl: JVMMethod) {
    function Id(): MethodID {
      if decl.isStatic then StaticID(idx) else VtableID(idx)
    }
  }

  /** `as u16`. */
  function Cut(v: nat): nat {
    v % 0x1_0000
  }

  lemma {:induction false} CutExact(v: nat)
    ensures Cut(v) == v <==> v < 0x1_0000
    ensures Cut(v) < 0x1_0000
  {
  }

  /** The first method with this name and descriptor, or the length. */
  function First(table: seq<VMMethod>, name: string, desc: string): (i: nat)
    ensures i <= |table| && (i < |table| ==> table[i].decl.Named(name, desc))
    ensures forall k :: 0 <= k < i ==> !table[k].decl.Named(name, desc)
  {
    if table == [] || table[0].decl.Named(name, desc) then 0 else 1 + First(table[1..], name, desc)
  }

  /** One declared method: it replaces the entry with its name and descriptor, or is appended. */
  function AddMethod(vtable: seq<VMMethod>, m: JVMMethod): seq<VMMethod> {
    if m.isStatic then vtable else
      var i := First(vtable, m.name, m.descriptor);
      if i < |vtable| then vtable[i := VMMethod(Cut(i), m)] else vtable + [VMMethod(Cut(|vtable|), m)]
  }

  function VtableOf(inherited: seq<VMMethod>, methods: seq<JVMMethod>): seq<VMMethod>
    decreases |methods|
  {
    if methods == [] then inherited else VtableOf(AddMethod(inherited, methods[0]), methods[1..])
  }

  function AddStatic(statics: seq<VMMethod>, m: JVMMethod): seq<VMMethod> {
    if m.isStatic then statics + [VMMethod(Cut(|statics|), m)] else statics
  }

  function StaticsOf(statics: seq<VMMethod>, methods: seq<JVMMethod>): seq<VMMethod>
    decreases |methods|
  {
    if methods == [] then statics else StaticsOf(AddStatic(statics, methods[0]), methods[1..])
  }

  /** `vtable.iter().position(..)`. */
  method Position(table: seq<VMMethod>, name: string, desc: string) returns (i: nat)
    ensures i == First(table, name, desc)
  {
    i := 0;
    while i < |table| && !table[i].decl.Named(name, desc)
      invariant i <= |table| && First(table, name, desc) == i + First(table[i..], name, desc)
    {
      assert table[i..][1..] == table[i + 1..];
      i := i + 1;
    }
  }

  method BuildMethods(inherited: seq<VMMethod>, methods: seq<JVMMethod>)
    returns (vtable: seq<VMMethod>, statics: seq<VMMethod>)
    ensures vtable == VtableOf(inherited, methods) && statics == StaticsOf([], methods)
  {
    hide First, Cut;
    vtable, statics := inherited, [];
    for k := 0 to |methods|
      invariant VtableOf(inherited, methods) == VtableOf(vtable, methods[k..])
      invariant StaticsOf([], methods) == StaticsOf(statics, methods[k..])
    {
      var m := methods[k];
      assert methods[k..][0] == m && methods[k..][1..] == methods[k + 1..];
      if m.isStatic {
        statics := statics + [VMMethod(Cut(|statics|), m)];
        continue;
      }
      var i := Position(vtable, m.name, m.descriptor);
      if i < |vtable| {
        vtable := vtable[i := VMMethod(Cut(i), m)];
      } else {
        vtable := vtable + [VMMethod(Cut(|vtable|), m)];
      }
    }
  }

  /** Name-descriptor pairs are unique, no entry is static, and each entry's index is its position as a
      `u16`. */
  ghost predicate ValidVtable(vtable: seq<VMMethod>) {
    && (forall i, j :: 0 <= i < j < |vtable| ==> !Alike(vtable[i], vtable[j]))
    && (forall i :: 0 <= i < |vtable| ==> vtable[i].idx == Cut(i) && !vtable[i].decl.isStatic)
  }

  predicate Alike(a: VMMethod, b: VMMethod) {
    b.decl.Named(a.decl.name, a.decl.descriptor)
  }

  /** Every entry of the first table is in the second at its position, or overridden there. */
  ghost predicate Extends(small: seq<VMMethod>, big: seq<VMMethod>) {
    |small| <= |big| && forall i :: 0 <= i < |small| ==> Alike(small[i], big[i])
  }

  lemma {:induction false} AddKeeps(vtable: seq<VMMethod>, m: JVMMethod)
    requires ValidVtable(vtable)
    ensures ValidVtable(AddMethod(vtable, m)) && Extends(vtable, AddMethod(vtable, m))
  {
  }

  /** The table of a subclass is valid, and keeps every inherited name and descriptor where it was. */
  lemma {:induction false} VtableKeeps(inherited: seq<VMMethod>, methods: seq<JVMMethod>)
    requires ValidVtable(inherited)
    ensures ValidVtable(VtableOf(inherited, methods)) && Extends(inherited, VtableOf(inherited, methods))
    decreases |methods|
  {
    hide ValidVtable, AddMethod;
    if methods != [] {
      AddKeeps(inherited, methods[0]);
      VtableKeeps(AddMethod(inherited, methods[0]), methods[1..]);
    }
  }

  /** The method that the class file's own text designates: the last one declared with the name and
      descriptor, or else the inherited one. */
  function Latest(inherited: Option<JVMMethod>, methods: seq<JVMMethod>, name: string, desc: string)
      : Option<JVMMethod>
  {
    if methods == [] then inherited else
      var m := methods[|methods| - 1];
      if !m.isStatic && m.Named(name, desc) then Some(m)
      else Latest(inherited, methods[..|methods| - 1], name, desc)
  }

  function InTable(table: seq<VMMethod>, name: string, desc: string): Option<JVMMethod> {
    var i := First(table, name, desc);
    if i < |table| then Some(table[i].decl) else None
  }

  /** Overriding is complete: a search of the table finds the latest method, for every name and
      descriptor. */
  lemma {:induction false} SearchFindsLatest(inherited: seq<VMMethod>, methods: seq<JVMMethod>, name: string,
                                             desc: string)
    ensures InTable(VtableOf(inherited, methods), name, desc)
         == Latest(InTable(inherited, name, desc), methods, name, desc)
  {
    hide First, AddMethod, InTable;
    if methods != [] {
      var last := |methods| - 1;
      VtableSplit(inherited, methods);
      AddFinds(VtableOf(inherited, methods[..last]), methods[last], name, desc);
      SearchFindsLatest(inherited, methods[..last], name, desc);
    }
  }

  lemma {:induction false} VtableSplit(inherited: seq<VMMethod>, methods: seq<JVMMethod>)
    requires methods != []
    ensures VtableOf(inherited, methods)
         == AddMethod(VtableOf(inherited, methods[..|methods| - 1]), methods[|methods| - 1])
    decreases |methods|
  {
    hide AddMethod;
    if |methods| > 1 {
      VtableSplit(AddMethod(inherited, methods[0]), methods[1..]);
      assert methods[1..][..|methods| - 2] == methods[..|methods| - 1][1..];
    }
  }

  lemma {:induction false} AddFinds(vtable: seq<VMMethod>, m: JVMMethod, name: string, desc: string)
    ensures InTable(AddMethod(vtable, m), name, desc)
         == if !m.isStatic && m.Named(name, desc) then Some(m) else InTable(vtable, name, desc)
  {
    hide Cut, First;
    if !m.isStatic {
      var next := AddMethod(vtable, m);
      var i := First(vtable, name, desc);
      if m.Named(name, desc) || i < |vtable| {
        FirstIs(next, name, desc, i);
      } else {
        FirstIs(next, name, desc, |next|);
      }
    }
  }

  /** The first position is determined by its two properties. */
  lemma {:induction false} FirstIs(table: seq<VMMethod>, name: string, desc: string, i: nat)
    requires i <= |table| && (i < |table| ==> table[i].decl.Named(name, desc))
    requires forall k :: 0 <= k < i ==> !table[k].decl.Named(name, desc)
    ensures First(table, name, desc) == i
  {
  }

  /** The static table holds the static methods in order, each with its position as a `u16`. */
  function StaticMethods(methods: seq<JVMMethod>): seq<JVMMethod> {
    if methods == [] then [] else
      (if methods[0].isStatic then [methods[0]] else []) + StaticMethods(methods[1..])
  }

  lemma {:induction false} StaticsExact(statics: seq<VMMethod>, methods: seq<JVMMethod>)
    requires forall i :: 0 <= i < |statics| ==> statics[i].idx == Cut(i) && statics[i].decl.isStatic
    ensures var r := StaticsOf(statics, methods);
            && |r| == |statics| + |StaticMethods(methods)| && statics <= r
            && (forall i :: 0 <= i < |r| ==> r[i].idx == Cut(i) && r[i].decl.isStatic)
            && forall i :: 0 <= i < |StaticMethods(methods)| ==> r[|statics| + i].decl == StaticMethods(methods)[i]
    decreases |methods|
  {
    hide Cut;
    if methods != [] {
      StaticsExact(AddStatic(statics, methods[0]), methods[1..]);
    }
  }

  // ----- fields

  datatype JVMField = JVMField(name: string, descriptor: string, isStatic: bool)

  /** The slots a field takes: one or two, or none when its descriptor is not one. */
  function SlotsOf(f: JVMField): (n: nat)
    ensures n <= 2
  {
    match Descriptors.NextField(f.descriptor).0
    case Some(d) => Descriptors.SlotCount(d)
    case None => 0
  }

  datatype FieldData = Normal(off: nat) | StaticData

  datatype VMField = VMField(idx: nat, data: FieldData, field: JVMField)

  /** The instance fields of the superclass, with their offsets and indices. */
  function Inherited(fields: seq<VMField>): seq<VMField> {
    if fields == [] then [] else
      (if fields[0].data.Normal? then [fields[0]] else []) + Inherited(fields[1..])
  }

  /** Where the last instance field ends. */
  function EndOf(fields: seq<VMField>): nat {
    if fields == [] then 0 else
      var f := fields[|fields| - 1];
      if f.data.Normal? then f.data.off + SlotsOf(f.field) else EndOf(fields[..|fields| - 1])
  }

  function Declare(declared: seq<JVMField>, idx: nat, off: nat): seq<VMField>
    decreases |declared|
  {
    if declared == [] then [] else
      var f := declared[0];
      if f.isStatic then [VMField(Cut(idx), StaticData, f)] + Declare(declared[1..], idx + 1, off)
      else [VMField(Cut(idx), Normal(off), f)] + Declare(declared[1..], idx + 1, off + SlotsOf(f))
  }

  function FieldsOf(super: seq<VMField>, declared: seq<JVMField>): seq<VMField> {
    Inherited(super) + Declare(declared, 0, EndOf(super))
  }

  method BuildFields(super: seq<VMField>, declared: seq<JVMField>) returns (fields: seq<VMField>)
    ensures fields == FieldsOf(super, declared)
  {
    hide SlotsOf, Cut;
    fields := [];
    var off: nat := 0;
    for i := 0 to |super|
      invariant fields == Inherited(super[..i]) && off == EndOf(super[..i])
    {
      InheritedSplit(super, i);
      assert super[..i + 1][..i] == super[..i];
      var field := super[i];
      match field.data {
        case Normal(o) =>
          off := o + SlotsOf(field.field);
          fields := fields + [VMField(field.idx, Normal(o), field.field)];
        case StaticData =>
      }
    }
    assert super[..|super|] == super;
    for i := 0 to |declared|
      invariant FieldsOf(super, declared) == fields + Declare(declared[i..], i, off)
    {
      var f := declared[i];
      assert declared[i..][0] == f && declared[i..][1..] == declared[i + 1..];
      if !f.isStatic {
        fields := fields + [VMField(Cut(i), Normal(off), f)];
        off := off + SlotsOf(f);
      } else {
        fields := fields + [VMField(Cut(i), StaticData, f)];
      }
    }
  }

  lemma {:induction false} InheritedSplit(fields: seq<VMField>, i: nat)
    requires i < |fields|
    ensures Inherited(fields[..i + 1])
         == Inherited(fields[..i]) + if fields[i].data.Normal? then [fields[i]] else []
  {
    if i > 0 {
      InheritedSplit(fields[1..], i - 1);
      assert fields[1..][..i] == fields[..i + 1][1..] && fields[1..][..i - 1] == fields[..i][1..];
    }
  }

  /** The slots an object of the class is given: `fields_slots`, statics included. */
  function FieldsSlots(fields: seq<VMField>): nat {
    if fields == [] then 0 else SlotsOf(fields[0].field) + FieldsSlots(fields[1..])
  }

  function InstanceSlots(fields: seq<VMField>): nat {
    if fields == [] then 0 else
      (if fields[0].data.Normal? then SlotsOf(fields[0].field) else 0) + InstanceSlots(fields[1..])
  }

  /** Each instance field starts where the one before it ends, the first at `at`. */
  ghost predicate Laid(fields: seq<VMField>, at: nat) {
    fields == [] ||
    if fields[0].data.Normal? then fields[0].data.off == at && Laid(fields[1..], at + SlotsOf(fields[0].field))
    else Laid(fields[1..], at)
  }

  lemma {:induction false} LaidAppend(a: seq<VMField>, b: seq<VMField>, at: nat)
    requires Laid(a, at) && Laid(b, at + InstanceSlots(a))
    ensures Laid(a + b, at) && InstanceSlots(a + b) == InstanceSlots(a) + InstanceSlots(b)
  {
    hide SlotsOf;
    if a == [] {
      assert a + b == b;
    } else {
      assert (a + b)[0] == a[0] && (a + b)[1..] == a[1..] + b;
      LaidAppend(a[1..], b, if a[0].data.Normal? then at + SlotsOf(a[0].field) else at);
    }
  }

  lemma {:induction false} InheritedLaid(fields: seq<VMField>, at: nat)
    requires Laid(fields, at)
    ensures Laid(Inherited(fields), at) && InstanceSlots(Inherited(fields)) == InstanceSlots(fields)
  {
    hide SlotsOf;
    if fields != [] {
      InheritedLaid(fields[1..], if fields[0].data.Normal? then at + SlotsOf(fields[0].field) else at);
      var r := Inherited(fields);
      if fields[0].data.Normal? {
        assert r[1..] == Inherited(fields[1..]);
      } else {
        assert r == Inherited(fields[1..]);
      }
    }
  }

  lemma {:induction false} DeclareLaid(declared: seq<JVMField>, idx: nat, off: nat)
    ensures Laid(Declare(declared, idx, off), off)
    decreases |declared|
  {
    hide SlotsOf, Cut;
    if declared != [] {
      DeclareLaid(declared[1..], idx + 1, if declared[0].isStatic then off else off + SlotsOf(declared[0]));
    }
  }

  lemma {:induction false} EndIsTotal(fields: seq<VMField>, at: nat)
    requires Laid(fields, at)
    ensures if exists i :: 0 <= i < |fields| && fields[i].data.Normal? then EndOf(fields) == at + InstanceSlots(fields)
            else EndOf(fields) == 0 && InstanceSlots(fields) == 0
  {
    hide SlotsOf;
    if fields != [] {
      var next := if fields[0].data.Normal? then at + SlotsOf(fields[0].field) else at;
      EndIsTotal(fields[1..], next);
      EndOfTail(fields);
    }
  }

  lemma {:induction false} EndOfTail(fields: seq<VMField>)
    requires fields != []
    ensures EndOf(fields) == if exists i :: 1 <= i < |fields| && fields[i].data.Normal? then EndOf(fields[1..])
                             else if fields[0].data.Normal? then fields[0].data.off + SlotsOf(fields[0].field) else 0
  {
    hide SlotsOf;
    var last := |fields| - 1;
    if last > 0 && !fields[last].data.Normal? {
      EndOfTail(fields[..last]);
      assert fields[..last][1..] == fields[1..][..last - 1];
    }
  }

  /** The layout of a subclass is laid out like the one it inherits. */
  lemma {:induction false} LayoutKept(super: seq<VMField>, declared: seq<JVMField>)
    requires Laid(super, 0)
    ensures Laid(FieldsOf(super, declared), 0)
    ensures InstanceSlots(super) <= InstanceSlots(FieldsOf(super, declared))
  {
    hide Laid, SlotsOf, InstanceSlots, Declare, Inherited, EndOf;
    InheritedLaid(super, 0);
    EndIsTotal(super, 0);
    DeclareLaid(declared, 0, EndOf(super));
    LaidAppend(Inherited(super), Declare(declared, 0, EndOf(super)), 0);
  }

  /** Where a laid-out field lies, and that fields before and after it are disjoint from it. */
  lemma {:induction false} LaidAt(fields: seq<VMField>, at: nat, i: nat)
    requires Laid(fields, at) && i < |fields| && fields[i].data.Normal?
    ensures fields[i].data.off == at + InstanceSlots(fields[..i])
    ensures fields[i].data.off + SlotsOf(fields[i].field) <= at + InstanceSlots(fields)
    ensures forall j :: i < j < |fields| && fields[j].data.Normal? ==>
              fields[i].data.off + SlotsOf(fields[i].field) <= fields[j].data.off
  {
    hide SlotsOf;
    if i > 0 {
      LaidAt(fields[1..], if fields[0].data.Normal? then at + SlotsOf(fields[0].field) else at, i - 1);
      assert fields[1..][..i - 1] == fields[..i][1..];
      forall j | i < j < |fields| && fields[j].data.Normal?
        ensures fields[i].data.off + SlotsOf(fields[i].field) <= fields[j].data.off
      {
        assert fields[1..][j - 1] == fields[j];
      }
    } else {
      forall j | i < j < |fields| && fields[j].data.Normal?
        ensures fields[0].data.off + SlotsOf(fields[0].field) <= fields[j].data.off
      {
        LaidAt(fields[1..], at + SlotsOf(fields[0].field), j - 1);
      }
    }
  }

  ghost predicate Covers(f: VMField, k: nat) {
    f.data.Normal? && f.data.off <= k < f.data.off + SlotsOf(f.field)
  }

  /** Instance slots are covered without gaps: below their total, every slot is some field's. */
  lemma {:induction false} SlotIsCovered(fields: seq<VMField>, at: nat, k: nat)
    requires Laid(fields, at) && at <= k < at + InstanceSlots(fields)
    ensures exists i :: 0 <= i < |fields| && Covers(fields[i], k)
  {
    hide SlotsOf;
    if fields[0].data.Normal? && k < at + SlotsOf(fields[0].field) {
      assert Covers(fields[0], k);
    } else {
      SlotIsCovered(fields[1..], if fields[0].data.Normal? then at + SlotsOf(fields[0].field) else at, k);
      var i :| 0 <= i < |fields| - 1 && Covers(fields[1..][i], k);
      assert Covers(fields[i + 1], k);
    }
  }

  lemma {:induction false} InstanceSlotsFit(fields: seq<VMField>)
    ensures InstanceSlots(fields) <= FieldsSlots(fields)
  {
    hide SlotsOf;
    if fields != [] {
      InstanceSlotsFit(fields[1..]);
    }
  }

  /** Inherited fields come first, with the offsets and indices they had. */
  lemma {:induction false} InheritedExact(super: seq<VMField>, f: VMField)
    ensures f in Inherited(super) <==> f in super && f.data.Normal?
  {
    if super != [] {
      InheritedExact(super[1..], f);
      assert f in super <==> f == super[0] || f in super[1..];
    }
  }

  lemma {:induction false} DeclaredAt(declared: seq<JVMField>, idx: nat, off: nat, k: nat)
    requires k < |declared|
    ensures var d := Declare(declared, idx, off);
            && |d| == |declared| && d[k].field == declared[k] && d[k].idx == Cut(idx + k)
            && (d[k].data.StaticData? <==> declared[k].isStatic)
            && (d[k].data.Normal? ==> off <= d[k].data.off)
    decreases |declared|
  {
    hide SlotsOf, Cut;
    var next := if declared[0].isStatic then off else off + SlotsOf(declared[0]);
    if k > 0 {
      DeclaredAt(declared[1..], idx + 1, next, k - 1);
    } else if |declared| > 1 {
      DeclaredAt(declared[1..], idx + 1, next, 0);
    }
  }

  /** `field_by_idx`. */
  function FieldByIdx(fields: seq<VMField>, idx: nat): Option<VMField> {
    if idx < |fields| then Some(fields[idx]) else None
  }

  /** Every field takes a slot, and the positions of declared fields fit a `u16`. */
  ghost predicate RealFields(super: seq<VMField>, declared: seq<JVMField>) {
    && |declared| <= 0x1_0000 && Laid(super, 0)
    && forall f :: f in FieldsOf(super, declared) ==> SlotsOf(f.field) > 0
  }

  lemma {:induction false} FieldsDistinct(super: seq<VMField>, declared: seq<JVMField>, p: nat, q: nat)
    requires RealFields(super, declared) && p < q < |FieldsOf(super, declared)|
    ensures FieldsOf(super, declared)[p] != FieldsOf(super, declared)[q]
  {
    hide SlotsOf, Laid, Inherited, Declare, Cut, EndOf, InstanceSlots;
    var fields, base := FieldsOf(super, declared), |Inherited(super)|;
    LayoutKept(super, declared);
    if fields[p].data.Normal? && fields[q].data.Normal? {
      assert fields[p] in fields;
      LaidAt(fields, 0, p);
    } else if fields[p].data.StaticData? && fields[q].data.StaticData? {
      if p < base {
        InheritedExact(super, fields[p]);
      } else {
        DeclareLength(declared, 0, EndOf(super));
        DeclaredAt(declared, 0, EndOf(super), p - base);
        DeclaredAt(declared, 0, EndOf(super), q - base);
        CutExact(p - base);
        CutExact(q - base);
      }
    }
  }

  lemma {:induction false} DeclareLength(declared: seq<JVMField>, idx: nat, off: nat)
    ensures |Declare(declared, idx, off)| == |declared|
    decreases |declared|
  {
    if declared != [] {
      DeclaredAt(declared, idx, off, 0);
    }
  }

  /** A field's index finds the field itself exactly when it is the field's position in the list. */
  lemma {:induction false} FieldIndexExact(super: seq<VMField>, declared: seq<JVMField>, p: nat)
    requires RealFields(super, declared) && p < |FieldsOf(super, declared)|
    ensures var fields := FieldsOf(super, declared);
            FieldByIdx(fields, fields[p].idx) == Some(fields[p]) <==> fields[p].idx == p
  {
    hide SlotsOf, FieldsOf;
    var fields := FieldsOf(super, declared);
    var q := fields[p].idx;
    if q < p {
      FieldsDistinct(super, declared, q, p);
    } else if p < q < |fields| {
      FieldsDistinct(super, declared, p, q);
    }
  }

  /** For a declared field that is exactly when no instance field is inherited: the index counts declared
      fields, the lookup counts from the first inherited one. */
  lemma {:induction false} DeclaredIndexExact(super: seq<VMField>, declared: seq<JVMField>, k: nat)
    requires RealFields(super, declared) && k < |declared|
    ensures |FieldsOf(super, declared)| == |Inherited(super)| + |declared|
    ensures var fields := FieldsOf(super, declared);
            var f := fields[|Inherited(super)| + k];
            f.field == declared[k] && (FieldByIdx(fields, f.idx) == Some(f) <==> Inherited(super) == [])
  {
    hide SlotsOf, Laid, Inherited, Declare, Cut, EndOf, RealFields;
    DeclareLength(declared, 0, EndOf(super));
    DeclaredAt(declared, 0, EndOf(super), k);
    assert k < 0x1_0000 by {
      assert RealFields(super, declared);
      FitsU16(super, declared);
    }
    CutExact(k);
    FieldIndexExact(super, declared, |Inherited(super)| + k);
  }

  lemma {:induction false} FitsU16(super: seq<VMField>, declared: seq<JVMField>)
    requires RealFields(super, declared)
    ensures |declared| <= 0x1_0000
  {
  }

  /** The number of static fields in a list of declarations. */
  function StaticCount(declared: seq<JVMField>): nat {
    if declared == [] then 0 else
      StaticCount(declared[..|declared| - 1]) + if declared[|declared| - 1].isStatic then 1 else 0
  }

  lemma {:induction false} InheritedConcat(a: seq<VMField>, b: seq<VMField>)
    ensures Inherited(a + b) == Inherited(a) + Inherited(b)
  {
    if a == [] {
      assert a + b == b;
    } else {
      assert (a + b)[0] == a[0] && (a + b)[1..] == a[1..] + b;
      InheritedConcat(a[1..], b);
    }
  }

  lemma {:induction false} InheritedTwice(fields: seq<VMField>)
    ensures Inherited(Inherited(fields)) == Inherited(fields)
  {
    if fields != [] {
      InheritedTwice(fields[1..]);
      if fields[0].data.Normal? {
        var r := Inherited(fields);
        assert r[0] == fields[0] && r[1..] == Inherited(fields[1..]);
      } else {
        assert Inherited(fields) == Inherited(fields[1..]);
      }
    }
  }

  /** A class's instance fields are those that it inherits and then its own. */
  lemma {:induction false} InstancesOf(super: seq<VMField>, declared: seq<JVMField>)
    ensures Inherited(FieldsOf(super, declared)) == Inherited(super) + Inherited(Declare(declared, 0, EndOf(super)))
  {
    InheritedConcat(Inherited(super), Declare(declared, 0, EndOf(super)));
    InheritedTwice(super);
  }

  lemma {:induction false} DeclareSplit(declared: seq<JVMField>, idx: nat, off: nat, k: nat)
    requires k < |declared|
    ensures |Declare(declared, idx, off)| == |declared|
    ensures Declare(declared, idx, off)[..k] == Declare(declared[..k], idx, off)
    decreases |declared|
  {
    hide SlotsOf, Cut;
    DeclareLength(declared, idx, off);
    if k > 0 {
      assert declared[..k][1..] == declared[1..][..k - 1];
      DeclareSplit(declared[1..], idx + 1, if declared[0].isStatic then off else off + SlotsOf(declared[0]), k - 1);
    }
  }

  lemma {:induction false} InstanceCount(declared: seq<JVMField>, idx: nat, off: nat)
    ensures |Inherited(Declare(declared, idx, off))| + StaticCount(declared) == |declared|
  {
    hide SlotsOf, Cut;
    if declared != [] {
      var n := |declared| - 1;
      var d := Declare(declared, idx, off);
      InstanceCount(declared[..n], idx, off);
      DeclareSplit(declared, idx, off, n);
      DeclaredAt(declared, idx, off, n);
      InheritedSplit(d, n);
      assert d[..n + 1] == d;
    }
  }

  /** Among a class's own instance fields, the `k`-th declared field stands after the instance fields declared
      before it. */
  lemma {:induction false} InstanceAt(declared: seq<JVMField>, idx: nat, off: nat, k: nat)
    requires k < |declared| && !declared[k].isStatic
    ensures |Declare(declared, idx, off)| == |declared| && StaticCount(declared[..k]) <= k
    ensures k - StaticCount(declared[..k]) < |Inherited(Declare(declared, idx, off))|
    ensures Inherited(Declare(declared, idx, off))[k - StaticCount(declared[..k])] == Declare(declared, idx, off)[k]
  {
    hide SlotsOf, Cut, Declare, Inherited;
    var d := Declare(declared, idx, off);
    DeclareLength(declared, idx, off);
    DeclareSplit(declared, idx, off, k);
    DeclaredAt(declared, idx, off, k);
    InstanceCount(declared[..k], idx, off);
    InheritedSplit(d, k);
    InheritedConcat(d[..k + 1], d[k + 1..]);
    assert d == d[..k + 1] + d[k + 1..];
  }

  /** An inherited field's index can even lead past the end of the list: the superclass declares a static and
      then an instance field, the subclass nothing. */
  lemma {:induction false} InheritedIndexCanFail()
    ensures var declared := [JVMField("s", "I", true), JVMField("x", "I", false)];
            var fields := FieldsOf(FieldsOf([], declared), []);
            |fields| == 1 && fields[0].field.name == "x" && FieldByIdx(fields, fields[0].idx) == None
  {
  }

  // ----- the layout of printed types

  /** The fields have the descriptors of these types. */
  ghost predicate Typed(fields: seq<JVMField>, types: seq<Descriptors.FieldType>) {
    && |fields| == |types|
    && forall i :: 0 <= i < |fields| ==>
         Descriptors.ValidType(types[i]) && fields[i].descriptor == Descriptors.Print(types[i])
  }

  function Declarations(fields: seq<VMField>): (d: seq<JVMField>)
    ensures |d| == |fields| && forall i :: 0 <= i < |fields| ==> d[i] == fields[i].field
  {
    if fields == [] then [] else [fields[0].field] + Declarations(fields[1..])
  }

  /** The slots of the instance fields among these: two for a long or a double, one for any other type. */
  function InstanceTotal(fields: seq<JVMField>, types: seq<Descriptors.FieldType>): nat
    requires |fields| == |types|
  {
    if fields == [] then 0 else
      var last := |fields| - 1;
      InstanceTotal(fields[..last], types[..last])
      + if fields[last].isStatic then 0
        else if types[last] == Descriptors.Base('J') || types[last] == Descriptors.Base('D') then 2 else 1
  }

  /** Exactly the fields that are declared static have no offset. */
  ghost predicate Marked(fields: seq<VMField>) {
    forall i :: 0 <= i < |fields| ==> (fields[i].field.isStatic <==> fields[i].data.StaticData?)
  }

  lemma {:induction false} MarkedKept(super: seq<VMField>, declared: seq<JVMField>)
    requires Marked(super)
    ensures Marked(FieldsOf(super, declared))
  {
    hide SlotsOf, Cut, Declare, Inherited;
    var inherited, end := Inherited(super), EndOf(super);
    DeclareLength(declared, 0, end);
    forall i | 0 <= i < |FieldsOf(super, declared)|
      ensures FieldsOf(super, declared)[i].field.isStatic <==> FieldsOf(super, declared)[i].data.StaticData?
    {
      if i < |inherited| {
        InheritedExact(super, inherited[i]);
        assert inherited[i] in inherited;
      } else {
        DeclaredAt(declared, 0, end, i - |inherited|);
      }
    }
  }

  /** The slots of all the fields. */
  function AllTotal(types: seq<Descriptors.FieldType>): nat {
    if types == [] then 0 else
      AllTotal(types[..|types| - 1])
      + if types[|types| - 1] == Descriptors.Base('J') || types[|types| - 1] == Descriptors.Base('D') then 2 else 1
  }

  /** A field takes two slots exactly when its type is long or double, and one otherwise, arrays included. */
  lemma {:induction false} FieldSlotsExact(f: JVMField, t: Descriptors.FieldType)
    requires Descriptors.ValidType(t) && f.descriptor == Descriptors.Print(t)
    ensures SlotsOf(f) == if t == Descriptors.Base('J') || t == Descriptors.Base('D') then 2 else 1
  {
    Descriptors.ItemOfPrinted(t);
  }

  /** One whose descriptor begins with no type takes none. */
  lemma {:induction false} NoFieldSlots(f: JVMField)
    ensures var d := f.descriptor;
            d == "" || (!Descriptors.IsBase(d[0]) && d[0] != '[' && (d[0] == 'L' ==> ';' !in d[1..])) ==>
              SlotsOf(f) == 0
  {
    Descriptors.NoSlots(f.descriptor);
  }

  lemma {:induction false} TypedPrefix(fields: seq<JVMField>, types: seq<Descriptors.FieldType>, k: nat)
    requires Typed(fields, types) && k <= |fields|
    ensures Typed(fields[..k], types[..k])
  {
  }

  /** The offset of each field that the class declares: behind the inherited fields, and behind the instance fields
      declared before it. */
  lemma {:induction false} OffsetsExact(super: seq<VMField>, declared: seq<JVMField>, types: seq<Descriptors.FieldType>,
                                        k: nat)
    requires Typed(declared, types) && k < |declared|
    ensures |FieldsOf(super, declared)| == |Inherited(super)| + |declared|
    ensures var f := FieldsOf(super, declared)[|Inherited(super)| + k];
            && f.field == declared[k]
            && f.data == if declared[k].isStatic then StaticData
                         else Normal(EndOf(super) + InstanceTotal(declared[..k], types[..k]))
  {
    hide Typed, InstanceTotal, Declare, EndOf, Inherited;
    DeclareLength(declared, 0, EndOf(super));
    DeclaredAt(declared, 0, EndOf(super), k);
    DeclareOffset(declared, types, 0, EndOf(super), k);
  }

  lemma {:induction false} DeclareOffset(declared: seq<JVMField>, types: seq<Descriptors.FieldType>, idx: nat, off: nat,
                                         k: nat)
    requires Typed(declared, types) && k < |declared|
    ensures |Declare(declared, idx, off)| == |declared|
    ensures Declare(declared, idx, off)[k].data.Normal? ==>
              Declare(declared, idx, off)[k].data.off == off + InstanceTotal(declared[..k], types[..k])
  {
    hide SlotsOf, Cut, Typed, Declare;
    TypedPrefix(declared, types, k);
    PrefixTotal(declared, types, k);
    DeclareLength(declared, idx, off);
    DeclaredAt(declared, idx, off, k);
    DeclareSum(declared, idx, off, k);
  }

  /** The slots of the instance fields in a list of declarations. */
  function DeclaredSlots(declared: seq<JVMField>): nat {
    if declared == [] then 0 else
      var last := |declared| - 1;
      DeclaredSlots(declared[..last]) + if declared[last].isStatic then 0 else SlotsOf(declared[last])
  }

  lemma {:induction false} DeclareSum(declared: seq<JVMField>, idx: nat, off: nat, k: nat)
    requires k < |declared|
    ensures |Declare(declared, idx, off)| == |declared|
    ensures Declare(declared, idx, off)[k].data.Normal? ==>
              Declare(declared, idx, off)[k].data.off == off + DeclaredSlots(declared[..k])
    decreases |declared|
  {
    hide SlotsOf, Cut;
    DeclareLength(declared, idx, off);
    if k > 0 {
      var next := if declared[0].isStatic then off else off + SlotsOf(declared[0]);
      DeclareSum(declared[1..], idx + 1, next, k - 1);
      assert declared[..k][1..] == declared[1..][..k - 1];
      DeclaredFirst(declared[..k]);
    }
  }

  lemma {:induction false} DeclaredFirst(declared: seq<JVMField>)
    requires declared != []
    ensures DeclaredSlots(declared)
         == (if declared[0].isStatic then 0 else SlotsOf(declared[0])) + DeclaredSlots(declared[1..])
    decreases |declared|
  {
    hide SlotsOf;
    var last := |declared| - 1;
    if last > 0 {
      DeclaredFirst(declared[..last]);
      assert declared[..last][1..] == declared[1..][..last - 1];
    }
  }

  lemma {:induction false} PrefixTotal(declared: seq<JVMField>, types: seq<Descriptors.FieldType>, k: nat)
    requires Typed(declared, types) && k <= |declared|
    ensures DeclaredSlots(declared[..k]) == InstanceTotal(declared[..k], types[..k])
  {
    hide SlotsOf;
    if k > 0 {
      PrefixTotal(declared, types, k - 1);
      FieldSlotsExact(declared[k - 1], types[k - 1]);
      assert declared[..k][..k - 1] == declared[..k - 1] && types[..k][..k - 1] == types[..k - 1];
    }
  }

  /** A whole list, in numbers: the instance fields end where the slots of their types say, an object is given the slots
      of all the types, and each instance field lies in these, disjoint from every later one. */
  lemma {:induction false} SlotsExact(fields: seq<VMField>, types: seq<Descriptors.FieldType>)
    requires Laid(fields, 0) && Typed(Declarations(fields), types)
    requires Marked(fields)
    ensures EndOf(fields) == InstanceTotal(Declarations(fields), types)
    ensures FieldsSlots(fields) == AllTotal(types) >= InstanceTotal(Declarations(fields), types)
    ensures forall i, j :: 0 <= i < j < |fields| && fields[i].data.Normal? && fields[j].data.Normal? ==>
              fields[i].data.off + AllTotal([types[i]]) <= fields[j].data.off
    ensures forall i :: 0 <= i < |fields| && fields[i].data.Normal? ==>
              fields[i].data.off + AllTotal([types[i]]) <= AllTotal(types)
  {
    hide SlotsOf, Laid, EndOf, FieldsSlots, InstanceSlots, InstanceTotal;
    EndIsTotal(fields, 0);
    SumsOfTypes(fields, types, |fields|);
    assert fields[..|fields|] == fields && types[..|types|] == types;
    assert Declarations(fields)[..|fields|] == Declarations(fields);
    InstanceSlotsFit(fields);
    forall i | 0 <= i < |fields| && fields[i].data.Normal?
      ensures fields[i].data.off + AllTotal([types[i]]) <= AllTotal(types)
      ensures forall j :: i < j < |fields| && fields[j].data.Normal? ==>
                fields[i].data.off + AllTotal([types[i]]) <= fields[j].data.off
    {
      FieldSlotsExact(fields[i].field, types[i]);
      LaidAt(fields, 0, i);
      assert [types[i]][..0] == [];
    }
  }

  lemma {:induction false} SumsOfTypes(fields: seq<VMField>, types: seq<Descriptors.FieldType>, k: nat)
    requires Typed(Declarations(fields), types) && k <= |fields|
    requires Marked(fields)
    ensures InstanceSlots(fields[..k]) == InstanceTotal(Declarations(fields)[..k], types[..k])
    ensures FieldsSlots(fields[..k]) == AllTotal(types[..k])
  {
    hide SlotsOf, InstanceSlots, FieldsSlots, InstanceTotal, AllTotal, Declarations;
    if k > 0 {
      var d := Declarations(fields);
      SumsOfTypes(fields, types, k - 1);
      FieldSlotsExact(d[k - 1], types[k - 1]);
      SumsNext(fields[..k]);
      assert fields[..k][..k - 1] == fields[..k - 1];
      TotalsNext(d, types, k);
    } else {
      NoSums();
      assert fields[..k] == [] && Declarations(fields)[..k] == [] && types[..k] == [];
    }
  }

  lemma {:induction false} NoSums()
    ensures InstanceSlots([]) == FieldsSlots([]) == InstanceTotal([], []) == AllTotal([]) == 0
  {
  }

  lemma {:induction false} TotalsNext(fields: seq<JVMField>, types: seq<Descriptors.FieldType>, k: nat)
    requires |fields| == |types| && 0 < k <= |fields|
    ensures var n := if types[k - 1] == Descriptors.Base('J') || types[k - 1] == Descriptors.Base('D') then 2 else 1;
            && AllTotal(types[..k]) == AllTotal(types[..k - 1]) + n
            && InstanceTotal(fields[..k], types[..k])
               == InstanceTotal(fields[..k - 1], types[..k - 1]) + if fields[k - 1].isStatic then 0 else n
  {
    assert fields[..k][..k - 1] == fields[..k - 1] && types[..k][..k - 1] == types[..k - 1];
  }

  lemma {:induction false} SumsNext(fields: seq<VMField>)
    requires fields != []
    ensures var last := |fields| - 1;
            && FieldsSlots(fields) == FieldsSlots(fields[..last]) + SlotsOf(fields[last].field)
            && InstanceSlots(fields)
               == InstanceSlots(fields[..last]) + if fields[last].data.Normal? then SlotsOf(fields[last].field) else 0
    decreases |fields|
  {
    hide SlotsOf;
    var last := |fields| - 1;
    if last > 0 {
      SumsNext(fields[1..]);
      assert fields[1..][..last - 1] == fields[..last][1..];
    }
  }
}
