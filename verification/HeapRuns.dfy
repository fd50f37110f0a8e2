/** Whole runs of a single mutator: any sequence of allocations, clones, loads, stores, drops and
    collections keeps the counts exact and every reference safe, and the program cannot tell that
    memory is managed at all. */
module HeapRuns {
  import opened Wrappers
  import opened Slots
  import opened HeapGraph
  import opened ManagedHeap

  datatype Op =
    | Allocate(at: Ptr, kind: ObjectKind, slots: nat)
    | Clone(p: Ptr)
    | Drop(p: Ptr)
    | Load(o: Ptr, i: nat)
    | Store(o: Ptr, i: nat, v: JVMSlot)
    | Collect

  /** The program holds the references that the operation uses. */
  predicate Enabled(m: Memory, op: Op) {
    match op
    case Allocate(at, _, _) => at !in m.data
    case Clone(p) => m.external[p] > 0 && p in m.strong && m.strong[p] < ISIZE_MAX
    case Drop(p) => m.external[p] > 0
    case Load(o, i) =>
      m.external[o] > 0 && o in m.data && i < |m.data[o]|
      && (m.data[o][i] < 0 ==> -(m.data[o][i] as int) in m.strong && m.strong[-(m.data[o][i] as int)] < ISIZE_MAX)
    case Store(o, i, v) =>
      o in m.data && i < |m.data[o]| && m.external[o] > One(v, o) && (v < 0 ==> m.external[-(v as int)] > 0)
    case Collect => true
  }

  /** The references that the program holds after the operation. */
  function Holding(m: Memory, op: Op): multiset<Ptr>
    requires Enabled(m, op)
  {
    match op
    case Allocate(at, _, _) => m.external[at := m.external[at] + 1]
    case Clone(p) => m.external[p := m.external[p] + 1]
    case Drop(p) => m.external[p := m.external[p] - 1]
    case Load(o, i) => Plus(m.external, m.data[o][i])
    case Store(_, _, v) => Minus(m.external, v)
    case Collect => m.external
  }

  /** The objects as the operation alone makes them, if nothing was ever freed. */
  function Written(m: Memory, op: Op): Graph
    requires Enabled(m, op)
  {
    match op
    case Allocate(at, _, n) => m.data[at := Nulls(n)]
    case Store(o, i, v) => Stored(m, o, i, v).data
    case _ => m.data
  }

  /** A new object has the slots that were asked for, all null; a store replaces one slot of one object; nothing
      else is ever written. */
  lemma {:induction false} WrittenExact(m: Memory, op: Op)
    requires Enabled(m, op)
    ensures var w := Written(m, op);
            match op
            case Allocate(at, _, n) =>
              && at in w && |w[at]| == n && (forall k :: 0 <= k < n ==> w[at][k] == 0)
              && w.Keys == m.data.Keys + {at} && forall p :: p in m.data ==> w[p] == m.data[p]
            case Store(o, i, v) =>
              && w.Keys == m.data.Keys && Replaced(m.data[o], i, v, w[o])
              && forall p :: p in m.data && p != o ==> w[p] == m.data[p]
            case _ => w == m.data
  {
  }

  /** The program gets one reference with a new object, a clone, or a reference that it loads, and gives one up
      with a drop, or a reference that it stores. */
  lemma {:induction false} HoldingExact(m: Memory, op: Op, p: Ptr)
    requires Enabled(m, op)
    ensures var got := match op
                       case Allocate(at, _, _) => at == p
                       case Clone(q) => q == p
                       case Load(o, i) => m.data[o][i] == FromObject(p)
                       case _ => false;
            var gave := match op case Drop(q) => q == p case Store(_, _, v) => v == FromObject(p) case _ => false;
            Holding(m, op)[p] == m.external[p] + (if got then 1 else 0) - (if gave then 1 else 0)
  {
  }

  ghost function RootsOf(g: Graph, external: multiset<Ptr>): set<Ptr> {
    set p | p in g && external[p] > 0
  }

  /** Everything that can be reached from what the program holds is there, as it was written. */
  ghost predicate Intact(g: Graph, external: multiset<Ptr>, m: Memory) {
    forall p :: p in ReachableSet(g, RootsOf(g, external)) ==> p in m.data && m.data[p] == g[p]
  }

  /** What has to go when references are dropped cannot be reached. */
  lemma {:induction false} RemovedUnreachable(g: Graph, external: multiset<Ptr>, removed: set<Ptr>)
    requires Below(g, external, removed) && RefersInside(g)
    ensures removed !! ReachableSet(g, RootsOf(g, external))
  {
    var roots := RootsOf(g, external);
    var y := g.Keys - ReachableSet(g, roots);
    ReachableSetClosed(g, roots);
    assert Absorbs(g, external, y) by {
      forall p | p in g && external[p] == 0 && (forall o :: o in g && o !in y ==> !Refers(g, o, p)) ensures p in y {
        if p in ReachableSet(g, roots) {
          ReachableFrom(g, roots, p);
          assert false;
        }
      }
    }
  }

  /** One operation: the program holds what it asked for, and what it can reach is untouched. */
  method Step(h: Heap, op: Op)
    requires h.Valid() && h.AllHeld() && Enabled(h.mem, op)
    modifies h`objects, h`allocCount, h`stopTheWorld, h`mem, h`unreachable, h`parkedThreads
    ensures h.Valid() && h.AllHeld()
    ensures h.parkedThreads == old(h.parkedThreads)
    ensures h.mem.external == Holding(old(h.mem), op)
    ensures Intact(Written(old(h.mem), op), h.mem.external, h.mem)
  {
    hide Intact, Counted, CountsFit, Held;
    match op
    case Allocate(at, k, n) => StepAllocate(h, at, k, n);
    case Clone(p) => StepClone(h, p);
    case Drop(p) => StepDrop(h, p);
    case Load(o, i) => StepLoad(h, o, i);
    case Store(o, i, v) => StepStore(h, o, i, v);
    case Collect => StepCollect(h);
  }

  method StepAllocate(h: Heap, at: Ptr, k: ObjectKind, n: nat)
    requires h.Valid() && h.AllHeld() && at !in h.mem.data
    modifies h`objects, h`allocCount, h`stopTheWorld, h`mem
    ensures h.Valid() && h.AllHeld()
    ensures h.mem.external == old(h.mem).external[at := old(h.mem).external[at] + 1]
    ensures Intact(old(h.mem).data[at := Nulls(n)], h.mem.external, h.mem)
  {
    forall p ensures Count(Nulls(n), p) == 0 {
      CountPositive(Nulls(n), p);
    }
    h.AllocateFromObject(at, k, Nulls(n), h.mem.external);
  }

  method StepClone(h: Heap, p: Ptr)
    requires h.Valid() && h.AllHeld() && Enabled(h.mem, Clone(p))
    modifies h`mem
    ensures h.Valid() && h.AllHeld()
    ensures h.mem.external == old(h.mem).external[p := old(h.mem).external[p] + 1]
    ensures Intact(old(h.mem).data, h.mem.external, h.mem)
  {
    h.CloneReference(p);
  }

  method StepLoad(h: Heap, o: Ptr, i: nat)
    requires h.Valid() && h.AllHeld() && Enabled(h.mem, Load(o, i))
    modifies h`mem
    ensures h.Valid() && h.AllHeld()
    ensures h.mem.external == Plus(old(h.mem).external, old(h.mem).data[o][i])
    ensures Intact(old(h.mem).data, h.mem.external, h.mem)
  {
    var _ := h.LoadSlot(o, i);
  }

  method StepDrop(h: Heap, p: Ptr)
    requires h.Valid() && h.AllHeld() && h.mem.external[p] > 0
    modifies h`objects, h`allocCount, h`mem
    ensures h.Valid() && h.AllHeld()
    ensures h.mem.external == old(h.mem).external[p := old(h.mem).external[p] - 1]
    ensures Intact(old(h.mem).data, h.mem.external, h.mem)
  {
    ghost var m := h.mem;
    CountedInside(m, h.objects, None);
    h.DropReference(p);
    RemovedUnreachable(m.data, h.mem.external, m.data.Keys - h.mem.data.Keys);
  }

  /** The world is stopped around the collection: every registered thread is parked, and goes on
      afterwards. */
  method StepCollect(h: Heap)
    requires h.Valid() && h.AllHeld()
    modifies h`objects, h`allocCount, h`mem, h`unreachable, h`parkedThreads
    ensures h.Valid() && h.AllHeld() && h.mem.external == old(h.mem).external
    ensures h.parkedThreads == old(h.parkedThreads)
    ensures Intact(old(h.mem).data, h.mem.external, h.mem)
  {
    ghost var m := h.mem;
    assert h.Roots() == RootsOf(m.data, m.external);
    var parked := h.parkedThreads;
    h.parkedThreads := h.heapThreads;
    h.TryGc();
    h.parkedThreads := parked;
  }

  method StepStore(h: Heap, o: Ptr, i: nat, v: JVMSlot)
    requires h.Valid() && h.AllHeld() && Enabled(h.mem, Store(o, i, v))
    modifies h`objects, h`allocCount, h`mem
    ensures h.Valid() && h.AllHeld() && h.mem.external == Minus(old(h.mem).external, v)
    ensures Intact(Stored(old(h.mem), o, i, v).data, h.mem.external, h.mem)
  {
    ghost var m := h.mem;
    CountedInside(m, h.objects, None);
    h.StoreSlot(o, i, v);
    StoreIntact(m, o, i, v, h.mem);
  }

  /** What was stored is what a load finds, unless its clone aborts because the count is full. */
  method StoreThenLoad(h: Heap, o: Ptr, i: nat, v: JVMSlot) returns (r: Option<JVMSlot>)
    requires h.Valid() && h.AllHeld() && Enabled(h.mem, Store(o, i, v))
    modifies h`objects, h`allocCount, h`mem
    ensures h.Valid() && h.AllHeld()
    ensures match r
            case Some(x) => x == v
            case None => v < 0 && -(v as int) in h.mem.strong && h.mem.strong[-(v as int)] == ISIZE_MAX
  {
    hide Counted, Held, LeastAbsorbing, Shrunk;
    h.StoreSlot(o, i, v);
    if v < 0 && -(v as int) in h.mem.strong && h.mem.strong[-(v as int)] >= ISIZE_MAX {
      FullCount(h, -(v as int));
      return None;
    }
    var x := h.LoadSlot(o, i);
    r := Some(x);
  }

  lemma {:induction false} FullCount(h: Heap, p: Ptr)
    requires h.Valid() && p in h.mem.strong && h.mem.strong[p] >= ISIZE_MAX
    ensures h.mem.strong[p] == ISIZE_MAX
  {
  }

  lemma {:induction false} StoreIntact(m: Memory, o: Ptr, i: nat, v: JVMSlot, after: Memory)
    requires Enabled(m, Store(o, i, v)) && RefersInside(m.data)
    requires forall p :: p in m.external ==> p in m.data
    requires Shrunk(after, Stored(m, o, i, v)) && after.external == Minus(m.external, v)
    requires LeastAbsorbing(Stored(m, o, i, NULL).data, m.external, m.data.Keys - after.data.Keys)
    ensures Intact(Stored(m, o, i, v).data, after.external, after)
  {
    var g := Stored(m, o, i, NULL).data;
    assert g.Keys == m.data.Keys;
    EdgesOfStore(m, o, i, NULL);
    RemovedUnreachable(g, m.external, m.data.Keys - after.data.Keys);
    StoreReaches(m, o, i, v);
  }

  /** The references after a store are old ones, or the one that was stored. */
  lemma {:induction false} EdgesOfStore(m: Memory, o: Ptr, i: nat, v: JVMSlot)
    requires o in m.data && i < |m.data[o]| && RefersInside(m.data)
    requires v < 0 ==> -(v as int) in m.data
    ensures RefersInside(Stored(m, o, i, v).data)
    ensures forall p: Ptr, q: Ptr :: Refers(Stored(m, o, i, v).data, p, q) ==>
                             Refers(Stored(m, o, i, NULL).data, p, q) || Target(v) == Some(q)
  {
    forall p: Ptr, q: Ptr | Refers(Stored(m, o, i, v).data, p, q)
      ensures q in m.data && (Refers(Stored(m, o, i, NULL).data, p, q) || Target(v) == Some(q))
    {
      CountUpdate(m.data[o], i, v, q);
      CountUpdate(m.data[o], i, NULL, q);
      assert Refers(m.data, p, q) || Target(v) == Some(q);
    }
  }

  /** What can be reached after a store could be reached before it, with the old content taken out. */
  lemma {:induction false} StoreReaches(m: Memory, o: Ptr, i: nat, v: JVMSlot)
    requires Enabled(m, Store(o, i, v)) && RefersInside(m.data)
    requires forall p :: p in m.external ==> p in m.data
    ensures var g, h := Stored(m, o, i, NULL).data, Stored(m, o, i, v).data;
            ReachableSet(h, RootsOf(h, Minus(m.external, v))) <= ReachableSet(g, RootsOf(g, m.external))
  {
    var g, h := Stored(m, o, i, NULL).data, Stored(m, o, i, v).data;
    var s := ReachableSet(g, RootsOf(g, m.external));
    EdgesOfStore(m, o, i, NULL);
    EdgesOfStore(m, o, i, v);
    ReachableSetClosed(g, RootsOf(g, m.external));
    ReachableSetLeast(h, RootsOf(h, Minus(m.external, v)), s);
  }

  /** Any run: operations that are not enabled are skipped. Afterwards every reference, wherever it is
      held, is to memory that is still allocated, and every strong count is exact. */
  method Run(h: Heap, ops: seq<Op>)
    requires h.Valid() && h.AllHeld()
    modifies h`objects, h`allocCount, h`stopTheWorld, h`mem, h`unreachable, h`parkedThreads
    ensures h.Valid() && h.AllHeld() && h.parkedThreads == old(h.parkedThreads)
    ensures forall p :: p in h.mem.external ==> p in h.objects
    ensures forall o, p :: Refers(h.mem.data, o, p) ==> p in h.objects
    ensures forall p :: p in h.objects ==>
                          && p in h.mem.strong
                          && h.mem.strong[p] == 1 + InRefs(h.mem.data, h.objects, p) + h.mem.external[p]
  {
    for n := 0 to |ops|
      invariant h.Valid() && h.AllHeld() && h.parkedThreads == old(h.parkedThreads)
    {
      if Enabled(h.mem, ops[n]) {
        Step(h, ops[n]);
      }
    }
    CountedInside(h.mem, h.objects, None);
    CountsAreExact(h.mem, h.objects);
  }
}
