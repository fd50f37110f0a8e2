/** Allocation of multi-dimensional arrays (src/vm/heap.rs:90-135). The counts arrive innermost
    first, as they are popped; each level is filled with shallow copies of the level below. */
module MultiArray {
  import opened Wrappers
  import opened Slots
  import opened HeapGraph
  import opened ManagedHeap

  /** How an allocation ends. A deadlock is a drop of an `ObjectRef` under the heap lock. */
  datatype Fate = Succeeds | PopFails | IsCorrupted | Deadlocks | Panics

  /** An array that is not on the heap yet. */
  datatype Local = Local(kind: ObjectKind, slots: seq<JVMSlot>)

  /** The level built before level `i` holds references. */
  predicate HoldsReferences(counts: seq<Option<i32>>, i: nat)
    requires i <= |counts|
  {
    i >= 2 && counts[i - 1].Some? && counts[i - 1].value > 0
  }

  /** The end that the counts from `i` on lead to. */
  function Expected(counts: seq<Option<i32>>, i: nat): Fate
    requires i <= |counts|
    decreases |counts| - i
  {
    if i == |counts| then
      if i == 0 then IsCorrupted else Succeeds
    else if counts[i].None? then
      if HoldsReferences(counts, i) then Deadlocks else PopFails
    else if counts[i].value < 0 then
      if HoldsReferences(counts, i) then Deadlocks else Panics
    else if counts[i].value == 0 && HoldsReferences(counts, i) then
      Deadlocks
    else
      Expected(counts, i + 1)
  }

  /** The allocation succeeds exactly when there is a dimension, every count could be popped and is
      not negative, and no zero from the third count on follows a positive count. */
  lemma {:induction false} ExpectedSucceeds(counts: seq<Option<i32>>, i: nat)
    requires i <= |counts|
    ensures Expected(counts, i) == Succeeds <==>
              && |counts| > 0
              && (forall j :: i <= j < |counts| ==> counts[j].Some? && counts[j].value >= 0)
              && (forall j :: i <= j < |counts| && counts[j] == Some(0) ==> !HoldsReferences(counts, j))
    decreases |counts| - i
  {
    if i < |counts| {
      ExpectedSucceeds(counts, i + 1);
    }
  }

  /** A count that could be popped and is not negative is the length. */
  function Length(c: Option<i32>): (n: nat)
    ensures c.Some? && c.value >= 0 ==> n == c.value
  {
    if c.Some? && c.value > 0 then c.value else 0
  }

  /** How many arrays the levels before `i` put on the heap: one for each element of every level but
      the innermost. */
  function Rows(counts: seq<Option<i32>>, i: nat): nat
    requires i <= |counts|
  {
    if i <= 1 then 0 else Rows(counts, i - 1) + Length(counts[i - 1])
  }

  /** The array unfolds, from level `n` inwards, to a rectangle of the given lengths: the last count
      popped is the outermost length. */
  ghost predicate Rectangle(m: Memory, a: Local, counts: seq<Option<i32>>, n: nat, unit: nat)
    requires 0 < n <= |counts|
    decreases n
  {
    if n == 1 then
      && a.kind == Array(unit) && |a.slots| == Length(counts[0]) * unit
      && forall i :: 0 <= i < |a.slots| ==> a.slots[i] == NULL
    else
      && a.kind == Array(1) && |a.slots| == Length(counts[n - 1])
      && forall i :: 0 <= i < |a.slots| ==>
           Child(m, a.slots[i]).Some? && Rectangle(m, Child(m, a.slots[i]).value, counts, n - 1, unit)
  }

  /** The heap array that a slot refers to. */
  ghost function Child(m: Memory, s: JVMSlot): Option<Local> {
    match Target(s)
    case None => None
    case Some(p) => if p in m.data && p in m.kind then Some(Local(m.kind[p], m.data[p])) else None
  }

  /** `after` has everything that `before` has, unchanged. */
  ghost predicate Grown(before: Memory, after: Memory) {
    && (forall p :: p in before.data ==> p in after.data && after.data[p] == before.data[p])
    && forall p :: p in before.kind ==> p in after.kind && after.kind[p] == before.kind[p]
  }

  lemma {:induction false} RectangleGrown(before: Memory, after: Memory, a: Local, counts: seq<Option<i32>>,
                                          n: nat, unit: nat)
    requires 0 < n <= |counts| && Grown(before, after)
    requires Rectangle(before, a, counts, n, unit)
    ensures Rectangle(after, a, counts, n, unit)
    decreases n
  {
    if n > 1 {
      forall i | 0 <= i < |a.slots|
        ensures Child(after, a.slots[i]).Some? && Rectangle(after, Child(after, a.slots[i]).value, counts, n - 1, unit)
      {
        RectangleGrown(before, after, Child(before, a.slots[i]).value, counts, n - 1, unit);
      }
    }
  }

  /** Either all slots are null, or they are distinct references to objects that nothing else refers to. */
  ghost predicate Fresh(m: Memory, slots: seq<JVMSlot>) {
    Alike(m, slots, 2)
  }

  ghost predicate Sole(m: Memory, slots: seq<JVMSlot>, count: nat) {
    && (forall i :: 0 <= i < |slots| ==>
          slots[i] < 0 && -(slots[i] as int) in m.strong && m.strong[-(slots[i] as int)] == count)
    && forall i, j :: 0 <= i < j < |slots| ==> slots[i] != slots[j]
  }

  /** Distinct slots count each object at most once. */
  lemma {:induction false} CountDistinct(slots: seq<JVMSlot>, p: Ptr)
    requires forall i, j :: 0 <= i < j < |slots| ==> slots[i] != slots[j]
    ensures Count(slots, p) <= 1
  {
    if slots != [] {
      var n := |slots| - 1;
      CountDistinct(slots[..n], p);
      if Count(slots[..n], p) > 0 {
        CountPositive(slots[..n], p);
        var i :| 0 <= i < |slots[..n]| && Target(slots[..n][i]) == Some(p);
        assert slots[i] != slots[n];
      }
    }
  }

  lemma {:induction false} CountNulls(slots: seq<JVMSlot>, p: Ptr)
    requires forall i :: 0 <= i < |slots| ==> slots[i] == NULL
    ensures Count(slots, p) == 0
  {
    CountPositive(slots, p);
  }

  /** Every reference in the slots is to allocated memory, and its count can take one more for each. */
  ghost predicate RoomFor(m: Memory, slots: seq<JVMSlot>) {
    && (forall i :: 0 <= i < |slots| && slots[i] < 0 ==> -(slots[i] as int) in m.strong)
    && forall p :: p in m.strong ==> m.strong[p] + Count(slots, p) <= ISIZE_MAX
  }

  /** `clone_unchecked`: every reference in the slots is cloned. */
  method CloneSlots(h: Heap, slots: seq<JVMSlot>)
    requires h.Valid() && RoomFor(h.mem, slots)
    modifies h`mem
    ensures h.Valid() && (old(h.AllHeld()) ==> h.AllHeld())
    ensures h.mem == ClonedSlots(old(h.mem), slots)
  {
    hide Counted, Held, CountsFit;
    ghost var m := h.mem;
    for i := 0 to |slots|
      invariant h.Valid() && (old(h.AllHeld()) ==> h.AllHeld())
      invariant h.mem == ClonedSlots(m, slots[..i])
    {
      ClonedSlotsNext(m, slots, i);
      h.CloneSlot(slots[i]);
    }
    assert slots[..|slots|] == slots;
  }

  lemma {:induction false} ClonedSlotsNext(m: Memory, slots: seq<JVMSlot>, i: nat)
    requires i < |slots| && RoomFor(m, slots)
    ensures slots[i] < 0 ==> ClonedSlots(m, slots[..i]).strong[-(slots[i] as int)] < ISIZE_MAX
    ensures ClonedSlots(m, slots[..i + 1]) == ClonedSlot(ClonedSlots(m, slots[..i]), slots[i])
  {
    if slots[i] < 0 {
      ClonedSlotsCount(m, slots[..i], -(slots[i] as int));
      CountAt(slots, i, -(slots[i] as int));
    }
    assert slots[..i + 1][..i] == slots[..i];
  }

  // ----- one level

  /** Arrays with the slots of `child` are on the heap at the given addresses, with one reference each
      besides the heap's, and nothing else has changed. */
  ghost predicate Filled(before: Memory, after: Memory, child: Local, at: set<Ptr>) {
    && Grown(before, after)
    && after.data.Keys == before.data.Keys + at
    && after.strong.Keys == after.kind.Keys == after.data.Keys
    && forall p :: p in at ==> after.data[p] == child.slots && after.kind[p] == child.kind && after.strong[p] == 2
  }

  /** The slots that refer to the given addresses, in order. */
  function RefsTo(at: seq<Ptr>): (slots: seq<JVMSlot>)
    ensures |slots| == |at| && forall i :: 0 <= i < |at| ==> slots[i] == FromObject(at[i])
  {
    if at == [] then [] else RefsTo(at[..|at| - 1]) + [FromObject(at[|at| - 1])]
  }

  /** The addresses are distinct and not in use. */
  ghost predicate Unused(m: Memory, at: seq<Ptr>) {
    Distinct(at) && forall j :: 0 <= j < |at| ==> at[j] !in m.data
  }

  /** Either all slots are null, or they are distinct references to objects with that strong count. */
  ghost predicate Alike(m: Memory, slots: seq<JVMSlot>, count: nat) {
    || (forall i :: 0 <= i < |slots| ==> slots[i] == NULL)
    || Sole(m, slots, count)
  }

  lemma {:induction false} AlikeRoom(m: Memory, slots: seq<JVMSlot>, count: nat)
    requires Alike(m, slots, count) && CountsFit(m) && m.strong.Keys == m.data.Keys && count < ISIZE_MAX
    ensures RoomFor(m, slots)
    ensures Alike(ClonedSlots(m, slots), slots, count + 1)
    ensures forall p :: Count(slots, p) > 0 ==> p in m.strong
  {
    forall p | Count(slots, p) > 0 ensures p in m.strong && Count(slots, p) == 1 && m.strong[p] == count {
      CountPositive(slots, p);
      CountDistinct(slots, p);
    }
    forall p ensures p in m.strong ==> ClonedSlots(m, slots).strong[p] == m.strong[p] + Count(slots, p) {
      ClonedSlotsCount(m, slots, p);
    }
    forall i | 0 <= i < |slots| && slots[i] < 0 ensures Count(slots, -(slots[i] as int)) > 0 {
      CountAt(slots, i, -(slots[i] as int));
    }
  }

  /** One more array of the same contents. */
  lemma {:induction false} RowAdded(before: Memory, m: Memory, child: Local, at: set<Ptr>, p: Ptr, rest: multiset<Ptr>)
    requires Filled(before, m, child, at) && p !in m.data
    ensures Filled(before, Created(m, p, child.kind, child.slots, rest), child, at + {p})
  {
    hide Grown;
    GrownNew(before, m, p, child.kind, child.slots, rest);
  }

  lemma {:induction false} GrownNew(before: Memory, m: Memory, p: Ptr, k: ObjectKind, slots: seq<JVMSlot>,
                                    rest: multiset<Ptr>)
    requires Grown(before, m) && p !in m.data && m.kind.Keys == m.data.Keys
    ensures Grown(before, Created(m, p, k, slots, rest))
  {
  }

  /** Cloning references to older objects does not touch the new arrays. */
  lemma {:induction false} FilledCloned(before: Memory, m: Memory, child: Local, at: set<Ptr>)
    requires Filled(before, m, child, at) && at !! before.strong.Keys
    requires Fresh(before, child.slots) && RoomFor(m, child.slots)
    ensures Filled(before, ClonedSlots(m, child.slots), child, at)
  {
    hide Fresh, Grown;
    forall p | p in at ensures ClonedSlots(m, child.slots).strong[p] == 2 {
      ClonedSlotsCount(m, child.slots, p);
      FreshOld(before, child.slots, p);
    }
    GrownCloned(before, m, child.slots);
  }

  lemma {:induction false} GrownCloned(before: Memory, m: Memory, slots: seq<JVMSlot>)
    requires Grown(before, m) && RoomFor(m, slots)
    ensures Grown(before, ClonedSlots(m, slots))
  {
  }

  lemma {:induction false} TakesCloned(m: Memory, slots: seq<JVMSlot>)
    requires RoomFor(m, slots)
    ensures Takes(ClonedSlots(m, slots).external, slots, m.external)
  {
    forall p ensures ClonedSlots(m, slots).external[p] == m.external[p] + Count(slots, p) {
      ClonedSlotsCount(m, slots, p);
    }
  }

  lemma {:induction false} FreshOld(m: Memory, slots: seq<JVMSlot>, p: Ptr)
    requires Fresh(m, slots) && p !in m.strong
    ensures Count(slots, p) == 0
  {
    CountPositive(slots, p);
  }

  lemma {:induction false} AlikeCreated(m: Memory, slots: seq<JVMSlot>, count: nat, p: Ptr, k: ObjectKind,
                                        rest: multiset<Ptr>)
    requires Alike(m, slots, count) && p !in m.strong
    ensures Alike(Created(m, p, k, slots, rest), slots, count)
  {
  }

  /** One clone of the level below joins the heap. */
  method AddClone(h: Heap, child: Local, p: Ptr, j: nat, ghost at: set<Ptr>, ghost before: Memory)
    requires h.Valid() && h.AllHeld() && j < U32_SIZE && p !in h.mem.data
    requires Filled(before, h.mem, child, at) && Fresh(before, child.slots) && at !! before.strong.Keys
    requires Alike(h.mem, child.slots, 2 + j)
    modifies h`objects, h`allocCount, h`stopTheWorld, h`mem
    ensures h.Valid() && h.AllHeld()
    ensures h.mem.external == old(h.mem).external[p := old(h.mem).external[p] + 1]
    ensures Filled(before, h.mem, child, at + {p})
    ensures Alike(h.mem, child.slots, 3 + j)
  {
    hide Filled, Alike, RoomFor, Held, CountsFit;
    AlikeRoom(h.mem, child.slots, 2 + j);
    FilledCloned(before, h.mem, child, at);
    TakesCloned(h.mem, child.slots);
    var outer := h.mem.external;
    CloneSlots(h, child.slots);
    RowAdded(before, h.mem, child, at, p, outer);
    AlikeCreated(h.mem, child.slots, 3 + j, p, child.kind, outer);
    h.AllocateFromObject(p, child.kind, child.slots, outer);
  }

  /** Fills the slots of a new level: every slot but the last gets a fresh clone of the level below,
      and the last one gets that level itself. */
  method FillRows(h: Heap, child: Local, at: seq<Ptr>, rest: multiset<Ptr>) returns (rows: seq<JVMSlot>)
    requires h.Valid() && h.AllHeld() && 0 < |at| <= U32_SIZE && Unused(h.mem, at)
    requires Takes(h.mem.external, child.slots, rest) && Fresh(h.mem, child.slots)
    modifies h`objects, h`allocCount, h`stopTheWorld, h`mem
    ensures h.Valid() && h.AllHeld()
    ensures rows == RefsTo(at) && Takes(h.mem.external, rows, rest)
    ensures Filled(old(h.mem), h.mem, child, Elements(at))
  {
    hide Counted, Filled, Alike, Takes, Held, CountsFit, Unused, Elements;
    rows := [];
    NoRows(h.mem, h.objects, child, rest);
    ghost var before := h.mem;
    var n, outer := |at| - 1, rest;
    assert at[..0] == [];
    for j := 0 to n
      invariant h.Valid() && h.AllHeld()
      invariant Takes(h.mem.external, child.slots, outer) && Takes(outer, rows, rest)
      invariant rows == RefsTo(at[..j])
      invariant Filled(before, h.mem, child, Elements(at[..j]))
      invariant Alike(h.mem, child.slots, 2 + j)
    {
      Upto(before, at, j);
      FilledGrown(before, h.mem, child, Elements(at[..j]));
      TakesAppend(h.mem.external, child.slots, outer, at[j]);
      AddClone(h, child, at[j], j, Elements(at[..j]), before);
      TakesAppend(outer, rows, rest, at[j]);
      outer := outer[at[j] := outer[at[j]] + 1];
      rows := rows + [FromObject(at[j])];
    }
    Upto(before, at, n);
    FilledGrown(before, h.mem, child, Elements(at[..n]));
    RowAdded(before, h.mem, child, Elements(at[..n]), at[n], outer);
    TakesAppend(outer, rows, rest, at[n]);
    h.AllocateFromObject(at[n], child.kind, child.slots, outer);
    rows := rows + [FromObject(at[n])];
    assert at[..n + 1] == at;
  }

  lemma {:induction false} NoRows(m: Memory, owners: set<Ptr>, child: Local, rest: multiset<Ptr>)
    requires Counted(m, owners, None)
    ensures m.strong.Keys == m.data.Keys
    ensures Filled(m, m, child, Elements([])) && Takes(rest, [], rest)
  {
  }

  lemma {:induction false} Upto(m: Memory, at: seq<Ptr>, j: nat)
    requires j < |at| && Unused(m, at)
    ensures Elements(at[..j + 1]) == Elements(at[..j]) + {at[j]}
    ensures at[j] !in m.data.Keys + Elements(at[..j]) && Elements(at[..j]) !! m.data.Keys
    ensures RefsTo(at[..j + 1]) == RefsTo(at[..j]) + [FromObject(at[j])]
  {
  }

  // ----- the whole array

  /** Where the loop stands before level `i`: the level below, if any, is held by this thread alone,
      and unfolds to a rectangle; the arrays on the heap are those of the levels below it. */
  ghost predicate Reached(before: Memory, m: Memory, last: Option<Local>, counts: seq<Option<i32>>, i: nat,
                          unit: nat, at: seq<Ptr>, outside: multiset<Ptr>)
    requires i <= |counts|
  {
    && (forall j :: 0 <= j < i ==> counts[j].Some? && counts[j].value >= 0)
    && Rows(counts, i) <= |at|
    && Grown(before, m) && m.data.Keys == before.data.Keys + Elements(at[..Rows(counts, i)])
    && (last.None? <==> i == 0)
    && (last.None? ==> m.external == outside)
    && (last.Some? ==>
          && Rectangle(m, last.value, counts, i, unit) && Siblings(m, last.value)
          && Fresh(m, last.value.slots) && Takes(m.external, last.value.slots, outside))
  }

  /** The rows of an array are distinct objects, and have the same slots: below the second level the
      clones share what they refer to. */
  ghost predicate Siblings(m: Memory, a: Local) {
    && (forall i, j :: 0 <= i < j < |a.slots| && a.slots[i] < 0 ==> a.slots[i] != a.slots[j])
    && forall i, j :: 0 <= i < |a.slots| && 0 <= j < |a.slots| ==> Child(m, a.slots[i]) == Child(m, a.slots[j])
  }

  /** A new level of references to filled rows. */
  lemma {:induction false} LevelBuilt(before: Memory, m: Memory, child: Local, at: seq<Ptr>,
                                      counts: seq<Option<i32>>, i: nat, unit: nat)
    requires 0 < i < |counts| && Length(counts[i]) == |at|
    requires Rectangle(before, child, counts, i, unit)
    requires Filled(before, m, child, Elements(at)) && Distinct(at)
    ensures Rectangle(m, Local(Array(1), RefsTo(at)), counts, i + 1, unit)
    ensures Siblings(m, Local(Array(1), RefsTo(at))) && Fresh(m, RefsTo(at))
  {
    hide Filled, Grown, Rectangle, Siblings, Alike;
    var slots := RefsTo(at);
    FilledGrown(before, m, child, Elements(at));
    RectangleGrown(before, m, child, counts, i, unit);
    forall j | 0 <= j < |at| ensures Child(m, slots[j]) == Some(child) {
      FilledChild(before, m, child, at, j);
    }
    FilledSole(before, m, child, at);
    RectangleOf(m, slots, child, counts, i, unit);
  }

  lemma {:induction false} RectangleOf(m: Memory, slots: seq<JVMSlot>, child: Local, counts: seq<Option<i32>>,
                                       i: nat, unit: nat)
    requires 0 < i < |counts| && Length(counts[i]) == |slots| && Rectangle(m, child, counts, i, unit)
    requires forall j :: 0 <= j < |slots| ==> Child(m, slots[j]) == Some(child)
    requires Sole(m, slots, 2)
    ensures Rectangle(m, Local(Array(1), slots), counts, i + 1, unit)
    ensures Siblings(m, Local(Array(1), slots)) && Fresh(m, slots)
  {
  }

  lemma {:induction false} FilledGrown(before: Memory, m: Memory, child: Local, at: set<Ptr>)
    requires Filled(before, m, child, at)
    ensures Grown(before, m) && m.data.Keys == before.data.Keys + at
  {
  }

  lemma {:induction false} FilledChild(before: Memory, m: Memory, child: Local, at: seq<Ptr>, j: nat)
    requires Filled(before, m, child, Elements(at)) && j < |at|
    ensures Child(m, RefsTo(at)[j]) == Some(child)
  {
  }

  lemma {:induction false} FilledSole(before: Memory, m: Memory, child: Local, at: seq<Ptr>)
    requires Filled(before, m, child, Elements(at)) && Distinct(at)
    ensures Sole(m, RefsTo(at), 2)
  {
    forall j | 0 <= j < |at| ensures at[j] in m.strong && m.strong[at[j]] == 2 {
      assert at[j] in Elements(at);
    }
  }

  /** A level without references: the innermost one, or one of length zero. */
  lemma {:induction false} LevelEmpty(m: Memory, a: Local, counts: seq<Option<i32>>, i: nat, unit: nat)
    requires i < |counts| && a.kind == Array(if i == 0 then unit else 1)
    requires |a.slots| == Length(counts[i]) * (if i == 0 then unit else 1)
    requires i > 0 ==> a.slots == []
    requires forall j :: 0 <= j < |a.slots| ==> a.slots[j] == NULL
    ensures Rectangle(m, a, counts, i + 1, unit) && Siblings(m, a) && Fresh(m, a.slots)
    ensures Takes(m.external, a.slots, m.external)
  {
    forall p ensures Count(a.slots, p) == 0 {
      CountNulls(a.slots, p);
    }
  }

  lemma {:induction false} RowsMonotone(counts: seq<Option<i32>>, i: nat, n: nat)
    requires i <= n <= |counts|
    ensures Rows(counts, i) <= Rows(counts, n)
    decreases n
  {
    if i < n {
      RowsMonotone(counts, i, n - 1);
    }
  }

  /** The level below holds references exactly when it has elements and is not the innermost; each is
      then the only one besides the heap's, so that dropping it would take the heap lock. */
  lemma {:induction false} ReachedHolds(before: Memory, m: Memory, last: Option<Local>, counts: seq<Option<i32>>,
                                        i: nat, unit: nat, at: seq<Ptr>, outside: multiset<Ptr>)
    requires i <= |counts| && Reached(before, m, last, counts, i, unit, at, outside)
    ensures HoldsReferences(counts, i) <==> last.Some? && last.value.slots != [] && last.value.slots[0] < 0
    ensures HoldsReferences(counts, i) ==>
              -(last.value.slots[0] as int) in m.strong && m.strong[-(last.value.slots[0] as int)] == 2
    ensures last.Some? && !HoldsReferences(counts, i) ==> m.external == outside
    ensures last.Some? && !HoldsReferences(counts, i) && i > 1 ==> last.value.slots == []
  {
    if last.Some? && !HoldsReferences(counts, i) {
      forall p ensures Count(last.value.slots, p) == 0 {
        CountNulls(last.value.slots, p);
      }
    }
  }

  lemma {:induction false} KeysUpto(before: Memory, m: Memory, at: seq<Ptr>, r: nat, n: nat)
    requires r + n <= |at| && Unused(before, at) && m.data.Keys == before.data.Keys + Elements(at[..r])
    ensures Unused(m, at[r..r + n])
    ensures Elements(at[..r + n]) == Elements(at[..r]) + Elements(at[r..r + n])
  {
  }

  /** One turn of the loop. */
  method BuildLevel(h: Heap, last: Option<Local>, counts: seq<Option<i32>>, i: nat, unit: nat, at: seq<Ptr>,
                    outside: multiset<Ptr>, ghost before: Memory) returns (next: Local)
    requires h.Valid() && h.AllHeld() && i < |counts| && Unused(before, at)
    requires Reached(before, h.mem, last, counts, i, unit, at, outside)
    requires counts[i].Some? && counts[i].value >= 0 && (counts[i].value == 0 ==> !HoldsReferences(counts, i))
    requires Rows(counts, i + 1) <= |at|
    modifies h`objects, h`allocCount, h`stopTheWorld, h`mem
    ensures h.Valid() && h.AllHeld()
    ensures Reached(before, h.mem, Some(next), counts, i + 1, unit, at, outside)
  {
    hide Counted, Held, CountsFit, Filled, Takes, Grown, Rectangle, Siblings, Alike, Unused, Reached;
    var len := counts[i].value;
    if i == 0 || len == 0 {
      var size := if i == 0 then unit else 1;
      next := Local(Array(size), Nulls(len * size));
      ReachedEmpty(before, h.mem, last, counts, i, unit, at, outside, next);
    } else {
      var r := Rows(counts, i);
      ReachedRows(before, h.mem, last, counts, i, unit, at, outside);
      ghost var m := h.mem;
      var rows := FillRows(h, last.value, at[r..r + len], outside);
      next := Local(Array(1), rows);
      ReachedNext(before, m, h.mem, last, counts, i, unit, at, outside);
    }
  }

  /** A level without references follows. */
  lemma {:induction false} ReachedEmpty(before: Memory, m: Memory, last: Option<Local>, counts: seq<Option<i32>>,
                                        i: nat, unit: nat, at: seq<Ptr>, outside: multiset<Ptr>, next: Local)
    requires i < |counts| && Reached(before, m, last, counts, i, unit, at, outside)
    requires counts[i].Some? && counts[i].value >= 0 && (i == 0 || counts[i].value == 0) && !HoldsReferences(counts, i)
    requires next.kind == Array(if i == 0 then unit else 1)
    requires next.slots == Nulls(counts[i].value * if i == 0 then unit else 1)
    requires Rows(counts, i + 1) <= |at|
    ensures Reached(before, m, Some(next), counts, i + 1, unit, at, outside)
  {
    ReachedHolds(before, m, last, counts, i, unit, at, outside);
    LevelEmpty(m, next, counts, i, unit);
    hide Rectangle, Siblings, Alike, Takes, Grown;
  }

  /** What the next level finds. */
  lemma {:induction false} ReachedRows(before: Memory, m: Memory, last: Option<Local>, counts: seq<Option<i32>>,
                                       i: nat, unit: nat, at: seq<Ptr>, outside: multiset<Ptr>)
    requires 0 < i < |counts| && Reached(before, m, last, counts, i, unit, at, outside)
    requires counts[i].Some? && counts[i].value > 0 && Rows(counts, i + 1) <= |at| && Unused(before, at)
    ensures Rows(counts, i + 1) == Rows(counts, i) + counts[i].value
    ensures last.Some? && Unused(m, at[Rows(counts, i)..Rows(counts, i) + counts[i].value])
    ensures Takes(m.external, last.value.slots, outside) && Fresh(m, last.value.slots)
  {
  }

  /** A level of references follows. */
  lemma {:induction false} ReachedNext(before: Memory, m: Memory, after: Memory, last: Option<Local>,
                                       counts: seq<Option<i32>>, i: nat, unit: nat, at: seq<Ptr>,
                                       outside: multiset<Ptr>)
    requires 0 < i < |counts| && Reached(before, m, last, counts, i, unit, at, outside)
    requires counts[i].Some? && counts[i].value > 0 && Unused(before, at)
    requires Rows(counts, i + 1) == Rows(counts, i) + counts[i].value <= |at|
    requires last.Some? && var here := at[Rows(counts, i)..Rows(counts, i + 1)];
             && Filled(m, after, last.value, Elements(here))
             && Takes(after.external, RefsTo(here), outside)
    ensures Reached(before, after, Some(Local(Array(1), RefsTo(at[Rows(counts, i)..Rows(counts, i + 1)]))),
                    counts, i + 1, unit, at, outside)
  {
    hide Rectangle, Siblings, Alike, Takes, Grown, Filled, Elements, Unused, Distinct;
    var here := at[Rows(counts, i)..Rows(counts, i + 1)];
    KeysUpto(before, m, at, Rows(counts, i), counts[i].value);
    FilledGrown(m, after, last.value, Elements(here));
    UnusedDistinct(m, here);
    GrownTwice(before, m, after);
    LevelBuilt(m, after, last.value, here, counts, i, unit);
  }

  lemma {:induction false} UnusedDistinct(m: Memory, at: seq<Ptr>)
    requires Unused(m, at)
    ensures Distinct(at)
  {
  }

  lemma {:induction false} GrownTwice(before: Memory, m: Memory, after: Memory)
    requires Grown(before, m) && Grown(m, after)
    ensures Grown(before, after)
  {
  }

  lemma {:induction false} SiblingsGrown(before: Memory, after: Memory, a: Local, counts: seq<Option<i32>>,
                                         n: nat, unit: nat)
    requires 0 < n <= |counts| && Grown(before, after) && Rectangle(before, a, counts, n, unit)
    requires Siblings(before, a)
    ensures Siblings(after, a)
  {
  }

  /** The whole array is on the heap at `p`: it unfolds to a rectangle, one array for each element of
      every level but the innermost has joined the heap with it, everything older is as it was, and
      the program holds one reference more than before. */
  ghost predicate Made(before: Memory, m: Memory, counts: seq<Option<i32>>, unit: nat, at: seq<Ptr>, p: Ptr)
    requires |counts| > 0
  {
    && Rows(counts, |counts|) < |at| && p == at[Rows(counts, |counts|)]
    && Grown(before, m) && m.data.Keys == before.data.Keys + Elements(at[..Rows(counts, |counts|) + 1])
    && m.external == before.external[p := before.external[p] + 1]
    && Child(m, FromObject(p)).Some?
    && Rectangle(m, Child(m, FromObject(p)).value, counts, |counts|, unit)
    && Siblings(m, Child(m, FromObject(p)).value)
  }

  lemma {:induction false} ReachedEnd(before: Memory, m: Memory, last: Option<Local>, counts: seq<Option<i32>>,
                                      unit: nat, at: seq<Ptr>)
    requires |counts| > 0 && Reached(before, m, last, counts, |counts|, unit, at, before.external)
    requires Unused(before, at) && Rows(counts, |counts|) < |at| && m.kind.Keys == m.data.Keys
    ensures last.Some? && at[Rows(counts, |counts|)] !in m.data
    ensures Takes(m.external, last.value.slots, before.external)
    ensures var p := at[Rows(counts, |counts|)];
            Made(before, Created(m, p, last.value.kind, last.value.slots, before.external), counts, unit, at, p)
  {
    hide Rectangle, Siblings, Alike, Takes, Grown, Created, Unused, Elements;
    var r := Rows(counts, |counts|);
    var p := at[r];
    var after := Created(m, p, last.value.kind, last.value.slots, before.external);
    NextKey(before, m, at, r);
    CreatedGrown(m, p, last.value, before.external);
    GrownTwice(before, m, after);
    RectangleGrown(m, after, last.value, counts, |counts|, unit);
    SiblingsGrown(m, after, last.value, counts, |counts|, unit);
  }

  lemma {:induction false} NextKey(before: Memory, m: Memory, at: seq<Ptr>, r: nat)
    requires r < |at| && Unused(before, at) && m.data.Keys == before.data.Keys + Elements(at[..r])
    ensures at[r] !in m.data && Elements(at[..r + 1]) == Elements(at[..r]) + {at[r]}
  {
  }

  lemma {:induction false} CreatedGrown(m: Memory, p: Ptr, a: Local, rest: multiset<Ptr>)
    requires p !in m.data && m.kind.Keys == m.data.Keys
    ensures Created(m, p, a.kind, a.slots, rest).external == rest[p := rest[p] + 1]
    ensures var after := Created(m, p, a.kind, a.slots, rest);
            Grown(m, after) && Child(after, FromObject(p)) == Some(a) && after.data.Keys == m.data.Keys + {p}
  {
  }

  /** `allocate_multiarray`. It ends as its counts say it will; when it succeeds the array is made, and
      the counts of references are right. */
  method AllocateMultiArray(h: Heap, counts: seq<Option<i32>>, unit: nat, at: seq<Ptr>)
      returns (fate: Fate, made: Option<Ptr>)
    requires h.Valid() && h.AllHeld() && 0 < unit < 0x1_0000
    requires Unused(h.mem, at) && Rows(counts, |counts|) < |at|
    modifies h`objects, h`allocCount, h`stopTheWorld, h`mem
    ensures h.Valid() && h.AllHeld()
    ensures fate == Expected(counts, 0)
    ensures made.Some? <==> fate == Succeeds
    ensures made.Some? ==> |counts| > 0 && Made(old(h.mem), h.mem, counts, unit, at, made.value)
  {
    hide Counted, Held, CountsFit, Filled, Takes, Grown, Rectangle, Siblings, Alike, Unused, Reached, Made;
    ghost var before := h.mem;
    var outside := h.mem.external;
    var last: Option<Local> := None;
    ReachedStart(before, counts, unit, at);
    for i := 0 to |counts|
      invariant h.Valid() && h.AllHeld()
      invariant Expected(counts, i) == Expected(counts, 0)
      invariant Reached(before, h.mem, last, counts, i, unit, at, outside)
    {
      ReachedHolds(before, h.mem, last, counts, i, unit, at, outside);
      RowsMonotone(counts, i + 1, |counts|);
      var held := last.Some? && last.value.slots != [] && last.value.slots[0] < 0;
      if counts[i].None? {
        return if held then Deadlocks else PopFails, None;
      }
      if counts[i].value < 0 {
        return if held then Deadlocks else Panics, None;
      }
      if counts[i].value == 0 && held {
        return Deadlocks, None;
      }
      var next := BuildLevel(h, last, counts, i, unit, at, outside, before);
      last := Some(next);
    }
    if |counts| == 0 {
      return IsCorrupted, None;
    }
    CountedKeys(h.mem, h.objects);
    ReachedEnd(before, h.mem, last, counts, unit, at);
    var p := at[Rows(counts, |counts|)];
    h.AllocateFromObject(p, last.value.kind, last.value.slots, outside);
    fate, made := Succeeds, Some(p);
  }

  /** In numbers: the array has the length that was popped last, in units for a single dimension; and its elements,
      when it has more, are arrays of the length that was popped before. */
  lemma {:induction false} LengthsExact(before: Memory, m: Memory, counts: seq<Option<i32>>, unit: nat, at: seq<Ptr>,
                                        p: Ptr)
    requires |counts| > 0 && Expected(counts, 0) == Succeeds && Made(before, m, counts, unit, at, p)
    ensures forall j :: 0 <= j < |counts| ==> counts[j].Some? && counts[j].value >= 0
    ensures var n, outer := |counts|, m.data[p];
            if n == 1 then
              |outer| == counts[0].value * unit && forall k :: 0 <= k < |outer| ==> outer[k] == 0
            else
              && |outer| == counts[n - 1].value
              && forall k :: 0 <= k < |outer| ==>
                   outer[k] < 0 && -(outer[k] as int) in m.data
                   && |m.data[-(outer[k] as int)]| == counts[n - 2].value * if n == 2 then unit else 1
  {
    hide Expected;
    ExpectedSucceeds(counts, 0);
    var a := Child(m, FromObject(p)).value;
    forall k | 0 <= k < |a.slots| && |counts| > 1
      ensures |Child(m, a.slots[k]).value.slots| == counts[|counts| - 2].value * if |counts| == 2 then unit else 1
    {
      assert Rectangle(m, Child(m, a.slots[k]).value, counts, |counts| - 1, unit);
    }
  }

  lemma {:induction false} ReachedStart(before: Memory, counts: seq<Option<i32>>, unit: nat, at: seq<Ptr>)
    ensures Reached(before, before, None, counts, 0, unit, at, before.external)
  {
  }

  lemma {:induction false} CountedKeys(m: Memory, owners: set<Ptr>)
    requires Counted(m, owners, None)
    ensures m.strong.Keys == m.kind.Keys == m.data.Keys
  {
  }

  /** Rows of the array that are different objects refer to no common object. */
  ghost predicate Separate(m: Memory, a: Local) {
    forall i, j, k, l ::
      0 <= i < j < |a.slots| && Child(m, a.slots[i]).Some? && Child(m, a.slots[j]).Some?
      && 0 <= k < |Child(m, a.slots[i]).value.slots| && 0 <= l < |Child(m, a.slots[j]).value.slots|
      && Child(m, a.slots[i]).value.slots[k] < 0 ==>
        Child(m, a.slots[i]).value.slots[k] != Child(m, a.slots[j]).value.slots[l]
  }

  /** Sub-arrays are shared between the rows exactly when there are three dimensions or more, at least
      two rows, and rows that are not empty. */
  lemma {:induction false} SharingExact(m: Memory, a: Local, counts: seq<Option<i32>>, n: nat, unit: nat)
    requires 1 < n <= |counts| && Rectangle(m, a, counts, n, unit) && Siblings(m, a)
    ensures Separate(m, a) <==> n == 2 || Length(counts[n - 1]) < 2 || Length(counts[n - 2]) == 0
  {
    if n > 2 && |a.slots| >= 2 {
      var row := Child(m, a.slots[0]).value;
      assert Child(m, a.slots[1]).value == row && Rectangle(m, row, counts, n - 1, unit);
      if |row.slots| > 0 {
        assert Child(m, row.slots[0]).Some? && row.slots[0] < 0;
        assert !Separate(m, a);
      }
    }
  }
}
