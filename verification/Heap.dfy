/** The reference-counted heap and its cycle collector (src/vm/heap.rs).

    Memory is modelled as maps from addresses, so that freeing an object is visible: an address
    that is in none of the maps is not allocated, and reading it is an error. */
module ManagedHeap {
  import opened Wrappers
  import opened Slots
  import opened HeapGraph

  const GC_THRESHOLD: nat := 20

  class Heap {
    // The fields of the source's `Heap`, and the stop flag that `set_gc_flags` raises.
    var objects: set<Ptr>
    var allocCount: nat
    var unreachable: seq<Ptr>
    var heapThreads: nat
    var parkedThreads: nat
    var stopTheWorld: bool

    // The allocations behind the `Arc`s, and the references that the rest of the program holds.
    var mem: Memory

    /** The invariant between operations: the heap owns each allocation once. */
    ghost predicate Valid()
      reads this`objects, this`unreachable, this`allocCount, this`mem
    {
      && objects == mem.data.Keys
      && unreachable == []
      && allocCount <= USIZE_MAX
      && Counted(mem, objects, None)
      && CountsFit(mem)
    }

    /** Every object is referred to by something besides the heap's own set. */
    ghost predicate AllHeld()
      reads this`mem
    {
      Held(mem)
    }

    /** The objects that something outside the heap refers to. */
    ghost function Roots(): set<Ptr>
      reads this`objects, this`mem
    {
      set p | p in objects && mem.external[p] > 0
    }

    /** What the collector must keep. */
    ghost function Live(): set<Ptr>
      reads this`objects, this`mem
    {
      ReachableSet(mem.data, Roots())
    }

    constructor ()
      ensures Valid() && AllHeld()
      ensures objects == {} && mem.external == multiset{} && heapThreads == parkedThreads == allocCount == 0
    {
      objects, allocCount, unreachable := {}, 0, [];
      heapThreads, parkedThreads, stopTheWorld := 0, 0, false;
      mem := Memory(map[], map[], map[], map[], multiset{});
    }

    // ----- counting and marking

    /** The first counting pass: everything but the heap's own reference. */
    method CopyCounts()
      requires Valid()
      modifies this`mem
      ensures mem == old(mem).(gcRefs := mem.gcRefs) && mem.gcRefs.Keys == old(mem.gcRefs.Keys)
      ensures forall p :: p in objects ==> mem.gcRefs[p] == mem.strong[p] - 1
    {
      var todo := objects;
      while todo != {}
        invariant todo <= objects
        invariant mem == old(mem).(gcRefs := mem.gcRefs) && mem.gcRefs.Keys == old(mem.gcRefs.Keys)
        invariant forall p :: p in objects - todo ==> mem.gcRefs[p] == mem.strong[p] - 1
      {
        var o :| o in todo;
        todo := todo - {o};
        mem := Marked(mem, o, mem.strong[o] - 1);
      }
    }

    /** The second counting pass. No subtraction goes below zero, whatever the order, with self
        references and repeated references; what is left is the number of references from
        outside the heap. */
    method SubtractHeapReferences()
      requires Valid()
      requires forall p :: p in objects ==> mem.gcRefs[p] == mem.strong[p] - 1
      modifies this`mem
      ensures mem == old(mem).(gcRefs := mem.gcRefs) && mem.gcRefs.Keys == old(mem.gcRefs.Keys)
      ensures forall p :: p in objects ==> mem.gcRefs[p] == mem.external[p]
    {
      CountedInside(mem, objects, None);
      var todo := objects;
      while todo != {}
        invariant todo <= objects
        invariant mem == old(mem).(gcRefs := mem.gcRefs) && mem.gcRefs.Keys == old(mem.gcRefs.Keys)
        invariant forall p :: p in objects ==> mem.gcRefs[p] == InRefs(mem.data, todo, p) + mem.external[p]
      {
        var o :| o in todo;
        forall p ensures InRefs(mem.data, todo, p) == Count(mem.data[o], p) + InRefs(mem.data, todo - {o}, p) {
          InRefsPick(mem.data, todo, o, p);
        }
        forall p | Count(mem.data[o], p) > 0 ensures p in objects {
          assert Refers(mem.data, o, p);
        }
        todo := todo - {o};
        SubtractReferencesOf(o);
      }
    }

    /** The inner loop of the second pass, over the slots of `o`. */
    method SubtractReferencesOf(o: Ptr)
      requires o in mem.data
      requires forall p :: Count(mem.data[o], p) > 0 ==> p in mem.gcRefs && Count(mem.data[o], p) <= mem.gcRefs[p]
      modifies this`mem
      ensures mem == old(mem).(gcRefs := mem.gcRefs) && mem.gcRefs.Keys == old(mem.gcRefs.Keys)
      ensures forall p :: p in mem.gcRefs ==> mem.gcRefs[p] + Count(mem.data[o], p) == old(mem).gcRefs[p]
    {
      var slots := mem.data[o];
      for i := 0 to |slots|
        invariant mem == old(mem).(gcRefs := mem.gcRefs) && mem.gcRefs.Keys == old(mem.gcRefs.Keys)
        invariant forall p :: p in mem.gcRefs ==> mem.gcRefs[p] + Count(slots[..i], p) == old(mem).gcRefs[p]
      {
        forall p ensures Count(slots[..i + 1], p) == Count(slots[..i], p) + One(slots[i], p) {
          CountNext(slots, i, p);
        }
        if slots[i] < 0 {
          var child: Ptr := -(slots[i] as int);
          CountAt(slots, i, child);
          mem := Marked(mem, child, mem.gcRefs[child] - 1);
        }
      }
      assert slots[..|slots|] == slots;
    }

    /** The extraction pass: objects that only the heap refers to leave the set, marked with the
        largest count. */
    method SetAside()
      requires objects == mem.gcRefs.Keys && unreachable == []
      requires Doomed(mem) == {}
      modifies this`mem, this`objects, this`unreachable
      ensures mem == old(mem).(gcRefs := mem.gcRefs) && mem.gcRefs.Keys == old(mem.gcRefs.Keys)
      ensures forall p :: p in objects <==> p in old(objects) && old(mem).gcRefs[p] != 0
      ensures forall p :: p in objects ==> mem.gcRefs[p] == old(mem).gcRefs[p]
      ensures forall p :: p in unreachable <==> p in Doomed(mem)
      ensures objects !! Doomed(mem) && objects + Doomed(mem) == old(objects)
      ensures Distinct(unreachable)
    {
      var todo := objects;
      while todo != {}
        invariant mem == old(mem).(gcRefs := mem.gcRefs)
        invariant todo <= objects <= old(objects) == mem.gcRefs.Keys
        invariant forall p :: p in objects ==> mem.gcRefs[p] == old(mem).gcRefs[p]
        invariant forall p :: p in old(objects) - todo ==> (p in objects <==> old(mem).gcRefs[p] != 0)
        invariant forall p :: p in old(objects) - objects ==> mem.gcRefs[p] == USIZE_MAX && p in unreachable
        invariant forall p :: p in unreachable ==> p in old(objects) - objects
        invariant Distinct(unreachable)
      {
        var o :| o in todo;
        todo := todo - {o};
        if mem.gcRefs[o] == 0 {
          assert o !in unreachable;
          objects := objects - {o};
          mem := Marked(mem, o, USIZE_MAX);
          unreachable := unreachable + [o];
        }
      }
      forall p | p in objects ensures p !in Doomed(mem) {
        assert p !in Doomed(old(mem));
      }
    }

    /** The first `n` objects set aside refer to nothing marked, unless they are marked themselves. */
    ghost predicate Settled(n: nat)
      reads this`unreachable, this`mem
      requires n <= |unreachable|
    {
      forall i, p :: 0 <= i < n && unreachable[i] !in Doomed(mem) && Refers(mem.data, unreachable[i], p) ==>
                       p !in Doomed(mem)
    }

    /** Clears the mark of everything that `o` refers to, and says whether there was any. */
    method MarkChildren(o: Ptr) returns (found: bool)
      requires o in mem.data
      requires forall p :: Refers(mem.data, o, p) ==> p in mem.gcRefs
      modifies this`mem
      ensures mem == old(mem).(gcRefs := mem.gcRefs) && mem.gcRefs.Keys == old(mem.gcRefs.Keys)
      ensures forall p :: p in Doomed(mem) <==> p in Doomed(old(mem)) && !Refers(mem.data, o, p)
      ensures found <==> Doomed(mem) != Doomed(old(mem))
    {
      found := false;
      var slots := mem.data[o];
      for i := 0 to |slots|
        invariant mem == old(mem).(gcRefs := mem.gcRefs) && mem.gcRefs.Keys == old(mem.gcRefs.Keys)
        invariant forall p :: p in Doomed(mem) <==> p in Doomed(old(mem)) && Count(slots[..i], p) == 0
        invariant found <==> Doomed(mem) != Doomed(old(mem))
      {
        forall p ensures Count(slots[..i + 1], p) == Count(slots[..i], p) + One(slots[i], p) {
          CountNext(slots, i, p);
        }
        if slots[i] < 0 {
          var child: Ptr := -(slots[i] as int);
          CountAt(slots, i, child);
          assert Refers(mem.data, o, child);
          if mem.gcRefs[child] == USIZE_MAX {
            assert child in Doomed(mem);
            found := true;
            mem := Marked(mem, child, 1);
            assert child !in Doomed(mem);
          }
        }
      }
      assert slots[..|slots|] == slots;
    }

    /** The first marking pass, from the objects that stayed in the set. */
    method MarkFromSurvivors() returns (found: bool)
      requires objects == mem.gcRefs.Keys - Doomed(mem) && mem.gcRefs.Keys == mem.data.Keys
      requires RefersInside(mem.data)
      modifies this`mem
      ensures mem == old(mem).(gcRefs := mem.gcRefs) && mem.gcRefs.Keys == old(mem.gcRefs.Keys)
      ensures Doomed(mem) <= Doomed(old(mem)) && Spread(old(mem), mem)
      ensures forall o, p :: o in objects && Refers(mem.data, o, p) ==> p !in Doomed(mem)
      ensures found <==> Doomed(mem) != Doomed(old(mem))
    {
      found := false;
      var todo := objects;
      while todo != {}
        invariant todo <= objects
        invariant mem == old(mem).(gcRefs := mem.gcRefs) && mem.gcRefs.Keys == old(mem.gcRefs.Keys)
        invariant Doomed(mem) <= Doomed(old(mem)) && Spread(old(mem), mem)
        invariant forall o, p :: o in objects - todo && Refers(mem.data, o, p) ==> p !in Doomed(mem)
        invariant found <==> Doomed(mem) != Doomed(old(mem))
      {
        var o :| o in todo;
        todo := todo - {o};
        var more := MarkChildren(o);
        found := found || more;
      }
    }

    /** One round over the objects set aside, in order. */
    method RescueRound() returns (found: bool)
      requires (forall p :: p in unreachable ==> p in mem.data) && mem.gcRefs.Keys == mem.data.Keys
      requires RefersInside(mem.data)
      modifies this`mem
      ensures mem == old(mem).(gcRefs := mem.gcRefs) && mem.gcRefs.Keys == old(mem.gcRefs.Keys)
      ensures Doomed(mem) <= Doomed(old(mem)) && Spread(old(mem), mem)
      ensures found <==> Doomed(mem) != Doomed(old(mem))
      ensures !found ==> Settled(|unreachable|)
    {
      found := false;
      for i := 0 to |unreachable|
        invariant mem == old(mem).(gcRefs := mem.gcRefs) && mem.gcRefs.Keys == old(mem.gcRefs.Keys)
        invariant Doomed(mem) <= Doomed(old(mem)) && Spread(old(mem), mem)
        invariant found <==> Doomed(mem) != Doomed(old(mem))
        invariant !found ==> Settled(i)
      {
        var o := unreachable[i];
        if mem.gcRefs[o] != USIZE_MAX {
          var more := MarkChildren(o);
          found := found || more;
        }
      }
    }

    /** The rescue loop. It ends because every round but the last clears a mark, and it ends only
        when nothing unmarked refers to anything marked. */
    method Rescue(first: bool)
      requires (forall p :: p in unreachable ==> p in mem.data) && mem.gcRefs.Keys == mem.data.Keys
      requires RefersInside(mem.data)
      requires !first ==> forall p :: p in unreachable ==> p in Doomed(mem)
      modifies this`mem
      ensures mem == old(mem).(gcRefs := mem.gcRefs) && mem.gcRefs.Keys == old(mem.gcRefs.Keys)
      ensures Doomed(mem) <= Doomed(old(mem)) && Spread(old(mem), mem)
      ensures Settled(|unreachable|)
    {
      var found := first;
      while found
        invariant mem == old(mem).(gcRefs := mem.gcRefs) && mem.gcRefs.Keys == old(mem.gcRefs.Keys)
        invariant Doomed(mem) <= Doomed(old(mem)) && Spread(old(mem), mem)
        invariant !found ==> Settled(|unreachable|)
        decreases Doomed(mem), found
      {
        found := RescueRound();
      }
    }

    /** The counting passes and the extraction: the set keeps exactly the objects that something
        outside the heap refers to. */
    method CountAndSetAside()
      requires Valid()
      modifies this`mem, this`objects, this`unreachable
      ensures mem == old(mem).(gcRefs := mem.gcRefs) && mem.gcRefs.Keys == old(mem.gcRefs.Keys)
      ensures objects == old(Roots()) == mem.gcRefs.Keys - Doomed(mem)
      ensures Elements(unreachable) == Doomed(mem) && Distinct(unreachable)
    {
      CopyCounts();
      SubtractHeapReferences();
      forall p | p in objects ensures mem.gcRefs[p] < USIZE_MAX {
        assert mem.external[p] <= mem.strong[p];
      }
      SetAside();
    }

    /** The marking loops: afterwards exactly the objects reachable from the set carry no mark. */
    method MarkReachable()
      requires objects == mem.gcRefs.Keys - Doomed(mem) && mem.gcRefs.Keys == mem.data.Keys
      requires Elements(unreachable) == Doomed(mem)
      requires RefersInside(mem.data)
      modifies this`mem
      ensures mem == old(mem).(gcRefs := mem.gcRefs) && mem.gcRefs.Keys == old(mem.gcRefs.Keys)
      ensures Doomed(mem) <= Doomed(old(mem))
      ensures mem.gcRefs.Keys - Doomed(mem) == ReachableSet(mem.data, objects)
    {
      forall p | p in unreachable ensures p in Doomed(mem) {
        assert p in Elements(unreachable);
      }
      var found := MarkFromSurvivors();
      ghost var between := mem;
      Rescue(found);
      ghost var reached, kept := ReachableSet(mem.data, objects), mem.gcRefs.Keys - Doomed(mem);
      ReachableSetClosed(mem.data, objects);
      assert between.gcRefs.Keys - Doomed(between) <= reached;
      assert kept <= reached;
      forall o, p | o in kept && Refers(mem.data, o, p) ensures p in kept {
        if o !in objects {
          assert o in Elements(unreachable);
          ghost var i :| 0 <= i < |unreachable| && unreachable[i] == o;
        }
      }
      ReachableSetLeast(mem.data, objects, kept);
    }

    /** Counting and marking together: what the drain will keep is what is live. */
    method CountAndMark()
      requires Valid()
      modifies this`mem, this`objects, this`unreachable
      ensures mem == old(mem).(gcRefs := mem.gcRefs)
      ensures Draining(mem) && Kept(mem) == old(Live())
    {
      CountedInside(mem, objects, None);
      ghost var all := objects;
      CountAndSetAside();
      MarkReachable();
      assert objects + Elements(unreachable) == all;
      assert Emptied(mem.data, all);
    }

    // ----- sweeping

    /** Dropping a plain `Arc`. The memory is freed with the last one, and the slots with it. A slot
        that still held a reference would then be dropped as an `ObjectRef`, which takes the heap
        lock; the caller already holds that lock, so it must not happen. */
    method DropArc(p: Ptr, ghost owners: set<Ptr>)
      requires Counted(mem, owners, Some(p))
      requires p in mem.strong && (mem.strong[p] == 1 ==> forall q :: !Refers(mem.data, p, q))
      modifies this`mem
      ensures Counted(mem, owners, None)
      ensures mem == if old(mem).strong[p] > 1
                     then old(mem).(strong := old(mem).strong[p := old(mem).strong[p] - 1])
                     else Freed(old(mem), p)
    {
      if mem.strong[p] > 1 {
        CountedDrop(mem, owners, p);
        mem := mem.(strong := mem.strong[p := mem.strong[p] - 1]);
      } else {
        CountedFree(mem, owners, p);
        mem := Freed(mem, p);
      }
    }

    /** Replaces slot `i` of a dead object by null and drops the reference found there. */
    method EmptySlot(u: Ptr, i: nat, ghost owners: set<Ptr>)
      requires u in owners && u in mem.data && i < |mem.data[u]|
      requires Counted(mem, owners, None) && Emptied(mem.data, owners)
      modifies this`mem
      ensures Counted(mem, owners, None) && Emptied(mem.data, owners)
      ensures u in mem.data && mem.data[u] == Put(old(mem).data[u], i, NULL)
      ensures Untouched(mem, owners - {u}, old(mem)) && mem.external == old(mem).external
    {
      var s := mem.data[u][i];
      CountedTake(mem, owners, u, i);
      mem := Stored(mem, u, i, NULL);
      forall o, p | Refers(mem.data, o, p) ensures o in owners {
        assert o != u ==> Refers(old(mem).data, o, p);
      }
      if s < 0 {
        var child: Ptr := -(s as int);
        assert Target(s) == Some(child);
        LastReference(mem, owners, child);
        EmptiedFree(mem.data, owners, child);
        DropArc(child, owners);
      }
      CountedInside(mem, owners, None);
    }

    /** Frees one dead object: its slots are replaced by null one after the other, each reference
        found there is dropped, and the object's own `Arc` goes last. */
    method DropDead(u: Ptr, ghost owners: set<Ptr>)
      requires u in owners
      requires Counted(mem, owners, None) && Emptied(mem.data, owners)
      modifies this`mem
      ensures Counted(mem, owners - {u}, None) && Emptied(mem.data, owners - {u})
      ensures Untouched(mem, owners - {u}, old(mem)) && mem.external == old(mem).external
    {
      ghost var rest := owners - {u};
      assert owners == rest + {u};
      CountedInside(mem, owners, None);
      var n := |mem.data[u]|;
      for i := 0 to n
        invariant Counted(mem, owners, None) && Emptied(mem.data, owners)
        invariant u in mem.data && |mem.data[u]| == n && forall j :: 0 <= j < i ==> mem.data[u][j] == NULL
        invariant Untouched(mem, rest, old(mem)) && mem.external == old(mem).external
      {
        EmptySlot(u, i, owners);
      }
      EmptiedWithout(mem.data, owners, u);
      EmptiedFree(mem.data, rest, u);
      CountedHand(mem, rest, u);
      DropArc(u, rest);
      CountedInside(mem, rest, None);
    }

    /** The state in the middle of the drain: what is in the set and what waits in the list are the
        owned objects, and they are as they were. */
    ghost predicate Draining(before: Memory)
      reads this`objects, this`unreachable, this`mem
    {
      var all := objects + Elements(unreachable);
      && objects !! Elements(unreachable) && Distinct(unreachable)
      && Counted(mem, all, None) && Emptied(mem.data, all)
      && Untouched(mem, all, before) && mem.external == before.external
      && all <= before.data.Keys && all <= before.gcRefs.Keys && all <= before.kind.Keys
    }

    /** What the set will hold when the drain is over. */
    ghost function Kept(before: Memory): set<Ptr>
      reads this`objects, this`unreachable
    {
      objects + (Elements(unreachable) - Doomed(before))
    }

    /** The drain: an object whose mark was cleared goes back into the set, any other is freed. */
    method Sweep()
      requires Draining(mem)
      modifies this`objects, this`unreachable, this`mem
      ensures Draining(old(mem)) && unreachable == []
      ensures objects == old(Kept(mem))
    {
      while unreachable != []
        invariant Draining(old(mem)) && Kept(old(mem)) == old(Kept(mem))
        decreases |unreachable|
      {
        SweepNext(old(mem));
      }
    }

    /** One step of the drain. */
    method SweepNext(ghost before: Memory)
      requires Draining(before) && unreachable != []
      modifies this`objects, this`unreachable, this`mem
      ensures Draining(before) && unreachable == old(unreachable)[1..]
      ensures Kept(before) == old(Kept(before))
    {
      ghost var all := objects + Elements(unreachable);
      CountedInside(mem, all, None);
      FirstElement(objects, unreachable);
      var o := unreachable[0];
      unreachable := unreachable[1..];
      ghost var rest := objects + Elements(unreachable);
      if mem.gcRefs[o] != USIZE_MAX {
        objects := objects + {o};
        assert objects + Elements(unreachable) == all;
        assert Kept(before) == old(Kept(before));
      } else {
        assert o in Doomed(before);
        assert rest == all - {o};
        assert Kept(before) == old(Kept(before));
        DropDead(o, all);
        assert Untouched(mem, rest, before);
      }
    }

    // ----- the collector

    lemma {:induction false} LiveIsClosed()
      requires Valid()
      ensures Closed(mem.data, Live()) && Live() <= objects
      ensures forall p :: p in mem.external ==> p in Live()
    {
      CountedInside(mem, objects, None);
      ReachableSetClosed(mem.data, Roots());
      forall p | p in mem.external ensures p in Live() {
        assert p in Roots();
      }
    }

    /** One whole collection: exactly the live objects are left, as they were. */
    method Collect()
      requires Valid()
      modifies this`objects, this`unreachable, this`mem
      ensures objects == old(Live()) == mem.data.Keys && unreachable == []
      ensures Counted(mem, objects, None) && mem.external == old(mem).external
      ensures forall p :: p in objects ==> mem.data[p] == old(mem).data[p] && mem.kind[p] == old(mem).kind[p]
    {
      LiveIsClosed();
      ghost var live := Live();
      CountAndMark();
      Sweep();
      assert objects == live;
      ClosedFrame(old(mem).data, mem.data, live);
      assert objects + Elements(unreachable) == objects;
      NothingLeaks(mem, objects);
    }

    /** A collection. Below the threshold nothing happens. Otherwise exactly the live objects are
        left, as they were; each loses the references from the objects that were freed, and keeps
        at least one besides the heap's own. */
    method TryGc()
      requires Valid()
      requires heapThreads == parkedThreads
      modifies this`allocCount, this`objects, this`unreachable, this`mem
      ensures Valid() && mem.external == old(mem).external
      ensures old(allocCount) < GC_THRESHOLD ==> unchanged(this)
      ensures old(allocCount) >= GC_THRESHOLD ==>
                && allocCount == 0 && AllHeld()
                && objects == old(Live())
                && (forall p :: p in objects ==> mem.data[p] == old(mem).data[p] && mem.kind[p] == old(mem).kind[p])
                && (forall p :: p in objects ==>
                      mem.strong[p] == old(mem).strong[p] - InRefs(old(mem).data, old(objects) - objects, p))
    {
      if allocCount >= GC_THRESHOLD {
        ghost var roots := Roots();
        CountsAreExact(mem, objects);
        Collect();
        allocCount := 0;
        Survivors(old(mem), roots, mem, objects);
      }
    }

    // ----- the mutator

    /** `Arc::clone`, which aborts when the count would pass the largest `isize`. */
    method CloneReference(p: Ptr)
      requires Valid() && p in objects && mem.strong[p] < ISIZE_MAX
      modifies this`mem
      ensures Valid() && (old(AllHeld()) ==> AllHeld())
      ensures mem == Cloned(old(mem), p)
      ensures mem.data == old(mem).data && mem.kind == old(mem).kind && mem.strong[p] == old(mem).strong[p] + 1
      ensures mem.external == old(mem).external[p := old(mem).external[p] + 1]
    {
      CountedClone(mem, objects, p);
      mem := Cloned(mem, p);
    }

    /** `allocate_from_object`: a new object of the given slots joins the heap, and the caller gets
        a reference to it. The allocator chooses any unused address. */
    method AllocateFromObject(p: Ptr, k: ObjectKind, slots: seq<JVMSlot>, rest: multiset<Ptr>)
      requires Valid() && p !in mem.data && Takes(mem.external, slots, rest)
      modifies this`objects, this`allocCount, this`stopTheWorld, this`mem
      ensures Valid() && (old(AllHeld()) ==> AllHeld())
      ensures objects == old(objects) + {p} && mem == Created(old(mem), p, k, slots, rest)
      ensures mem.data == old(mem).data[p := slots] && mem.kind == old(mem).kind[p := k]
      ensures mem.strong == old(mem).strong[p := 2] && mem.external == rest[p := rest[p] + 1]
      ensures allocCount == Raised(old(allocCount))
      ensures allocCount == if old(allocCount) < 0xFFFF_FFFF_FFFF_FFFF then old(allocCount) + 1 else 0
      ensures stopTheWorld <==> old(stopTheWorld) || allocCount >= 20
    {
      hide InRefs, Count;
      CountedNew(mem, objects, p, k, slots, rest);
      mem := Created(mem, p, k, slots, rest);
      objects := objects + {p};
      CountAllocation();
    }

    /** The count of allocations goes up, and may raise the stop flag. */
    method CountAllocation()
      requires allocCount <= USIZE_MAX
      modifies this`allocCount, this`stopTheWorld
      ensures allocCount == Raised(old(allocCount)) <= USIZE_MAX
      ensures stopTheWorld <==> old(stopTheWorld) || allocCount >= GC_THRESHOLD
    {
      allocCount := Raised(allocCount);
      if allocCount >= GC_THRESHOLD {
        stopTheWorld := true;
      }
    }

    /** `ObjectRef::drop`. When only the heap's reference would be left, the object leaves the set
        and is freed, and the references in its slots are dropped in turn. What is removed is the
        least set of objects that nothing else refers to any more. */
    method DropReference(p: Ptr)
      requires Valid() && AllHeld() && mem.external[p] > 0
      modifies this`objects, this`allocCount, this`mem
      ensures Valid() && AllHeld()
      ensures mem.external == old(mem).external[p := old(mem).external[p] - 1]
      ensures Shrunk(mem, old(mem))
      ensures LeastAbsorbing(old(mem).data, mem.external, old(mem).data.Keys - mem.data.Keys)
      ensures allocCount == Lowered(old(allocCount), |old(mem).data.Keys - mem.data.Keys|)
      decreases |objects|, 0, 1
    {
      hide InRefs, Count;
      CountedInside(mem, objects, None);
      if mem.strong[p] == 2 {
        DropLast(p);
      } else {
        CountedForget(mem, objects, p);
        mem := Forgotten(mem, p);
        assert old(mem).data.Keys - mem.data.Keys == {};
      }
      RemovedAbsorbs(old(mem).data, mem);
    }

    /** The drop of the last reference besides the heap's. */
    method DropLast(p: Ptr)
      requires Valid() && AllHeld() && mem.external[p] > 0 && p in mem.strong && mem.strong[p] == 2
      modifies this`objects, this`allocCount, this`mem
      ensures Valid() && AllHeld()
      ensures mem.external == old(mem).external[p := old(mem).external[p] - 1]
      ensures Shrunk(mem, old(mem))
      ensures Below(old(mem).data, mem.external, old(mem).data.Keys - mem.data.Keys)
      ensures allocCount == Lowered(old(allocCount), |old(mem).data.Keys - mem.data.Keys|)
      decreases |objects|, 0, 0
    {
      ghost var last := mem.external[p := mem.external[p] - 1];
      var slots := mem.data[p];
      Unlink(p);
      ghost var between := mem;
      DropSlots(slots, last);
      BelowFirst(old(mem).data, last, p);
      ReleasedOne(old(mem), p);
      ShrunkTwice(old(mem), between, mem, last, old(allocCount));
    }

    /** The first half of the drop of a last reference: the object leaves the set and is freed, and
        its slots go to the destructor. */
    method Unlink(p: Ptr)
      requires Valid() && AllHeld() && mem.external[p] > 0 && p in mem.strong && mem.strong[p] == 2
      modifies this`objects, this`allocCount, this`mem
      ensures Valid() && AllHeld()
      ensures forall o :: !Refers(old(mem).data, o, p)
      ensures old(mem).external[p] == 1 && mem == Released(old(mem), p) && |objects| < old(|objects|)
      ensures allocCount == Lowered(old(allocCount), 1)
    {
      CountedRelease(mem, objects, p);
      objects := objects - {p};
      mem := Released(mem, p);
      allocCount := if allocCount == 0 then USIZE_MAX else allocCount - 1;
    }

    /** Between the drops of a freed object's slots: the references in `rest` are still to be dropped, and
        what has gone since `before`, when the count was `count`, had to go. */
    ghost predicate Dropping(before: Memory, count: nat, rest: seq<JVMSlot>, last: multiset<Ptr>)
      reads this`allocCount, this`mem
    {
      && Takes(mem.external, rest, last)
      && Shrunk(mem, before)
      && Below(before.data, last, before.data.Keys - mem.data.Keys)
      && allocCount == Lowered(count, |before.data.Keys - mem.data.Keys|)
    }

    /** The drop of a freed object's slots, first to last. */
    method DropSlots(slots: seq<JVMSlot>, ghost last: multiset<Ptr>)
      requires Valid() && AllHeld()
      requires Takes(mem.external, slots, last)
      modifies this`objects, this`allocCount, this`mem
      ensures Valid() && AllHeld()
      ensures mem.external == last
      ensures Shrunk(mem, old(mem))
      ensures Below(old(mem).data, last, old(mem).data.Keys - mem.data.Keys)
      ensures allocCount == Lowered(old(allocCount), |old(mem).data.Keys - mem.data.Keys|)
      decreases |objects|, 1, 2
    {
      assert slots[0..] == slots && slots[|slots|..] == [];
      assert mem.data.Keys - mem.data.Keys == {};
      for i := 0 to |slots|
        invariant Valid() && AllHeld() && |objects| <= old(|objects|)
        invariant Dropping(old(mem), old(allocCount), slots[i..], last)
      {
        DropNext(slots, i, old(mem), old(allocCount), last);
      }
      TakesNothing(mem.external, last);
    }

    method DropNext(slots: seq<JVMSlot>, i: nat, ghost before: Memory, ghost count: nat, ghost last: multiset<Ptr>)
      requires Valid() && AllHeld() && i < |slots|
      requires Dropping(before, count, slots[i..], last)
      modifies this`objects, this`allocCount, this`mem
      ensures Valid() && AllHeld() && |objects| <= old(|objects|)
      ensures Dropping(before, count, slots[i + 1..], last)
      decreases |objects|, 1, 1
    {
      TakesNext(mem.external, slots, i, last);
      ghost var between := mem;
      DropSlot(slots[i]);
      ShrunkTwice(before, between, mem, last, count);
    }

    /** `JVMSlot::drop`. */
    method DropSlot(s: JVMSlot)
      requires Valid() && AllHeld()
      requires s < 0 ==> mem.external[-(s as int)] > 0
      modifies this`objects, this`allocCount, this`mem
      ensures Valid() && AllHeld()
      ensures mem.external == Minus(old(mem).external, s)
      ensures Shrunk(mem, old(mem))
      ensures Below(old(mem).data, mem.external, old(mem).data.Keys - mem.data.Keys)
      ensures allocCount == Lowered(old(allocCount), |old(mem).data.Keys - mem.data.Keys|)
      decreases |objects|, 1, 0
    {
      if s < 0 {
        DropReference(-(s as int));
      } else {
        assert old(mem).data.Keys - mem.data.Keys == {};
      }
    }

    /** `JVMSlot::clone`: a reference in the slot is cloned. */
    method CloneSlot(s: JVMSlot)
      requires Valid()
      requires s < 0 ==> -(s as int) in mem.strong && mem.strong[-(s as int)] < ISIZE_MAX
      modifies this`mem
      ensures Valid() && (old(AllHeld()) ==> AllHeld())
      ensures s < 0 ==> -(s as int) in old(mem).strong
      ensures mem == ClonedSlot(old(mem), s)
    {
      if s < 0 {
        CloneReference(-(s as int));
      }
    }

    /** Cloning a slot of an object that the program holds. */
    method LoadSlot(o: Ptr, i: nat) returns (v: JVMSlot)
      requires Valid() && mem.external[o] > 0
      requires o in mem.data && i < |mem.data[o]|
      requires forall p :: Target(mem.data[o][i]) == Some(p) && p in mem.strong ==> mem.strong[p] < ISIZE_MAX
      modifies this`mem
      ensures Valid() && (old(AllHeld()) ==> AllHeld())
      ensures v == old(mem).data[o][i] && mem.data == old(mem).data
      ensures mem.external == Plus(old(mem).external, v)
    {
      hide InRefs, Count, Put;
      v := mem.data[o][i];
      CountedInside(mem, objects, None);
      if v < 0 {
        CountAt(mem.data[o], i, -(v as int));
        assert Refers(mem.data, o, -(v as int));
      }
      CloneSlot(v);
    }

    /** Storing a slot that the program owns into an object that it holds. The old content is taken
        out and dropped first, and the object is still there to receive the new one. */
    method StoreSlot(o: Ptr, i: nat, v: JVMSlot)
      requires Valid() && AllHeld()
      requires o in mem.data && i < |mem.data[o]| && mem.external[o] > One(v, o)
      requires v < 0 ==> mem.external[-(v as int)] > 0
      modifies this`objects, this`allocCount, this`mem
      ensures Valid() && AllHeld()
      ensures mem.external == Minus(old(mem).external, v)
      ensures o in mem.data && Shrunk(mem, Stored(old(mem), o, i, v))
      ensures Replaced(old(mem).data[o], i, v, mem.data[o])
      ensures forall p :: p in mem.data && p != o ==> p in old(mem).data && mem.data[p] == old(mem).data[p]
      ensures LeastAbsorbing(Stored(old(mem), o, i, NULL).data, old(mem).external, old(mem).data.Keys - mem.data.Keys)
    {
      DropContent(o, i);
      ShrunkStored(mem, old(mem), o, i, v);
      PutIn(o, i, v);
    }

    /** The first half of a store: null takes the place of the old content, which is dropped. */
    method DropContent(o: Ptr, i: nat)
      requires Valid() && AllHeld()
      requires o in mem.data && i < |mem.data[o]| && mem.external[o] > 0
      modifies this`objects, this`allocCount, this`mem
      ensures Valid() && AllHeld()
      ensures mem.external == old(mem).external && o in mem.data
      ensures Shrunk(mem, Stored(old(mem), o, i, NULL))
      ensures LeastAbsorbing(Stored(old(mem), o, i, NULL).data, mem.external, old(mem).data.Keys - mem.data.Keys)
    {
      var was := TakeOut(o, i);
      MinusPlus(old(mem).external, was);
      ghost var g := mem.data;
      assert g.Keys == old(mem).data.Keys;
      DropSlot(was);
      RemovedAbsorbs(g, mem);
      CountedInside(mem, objects, None);
    }

    /** Moving an owned slot into a slot that holds null. */
    method PutIn(o: Ptr, i: nat, v: JVMSlot)
      requires Valid() && AllHeld() && o in mem.data && i < |mem.data[o]| && mem.data[o][i] == NULL
      requires v < 0 ==> mem.external[-(v as int)] > 0
      modifies this`mem
      ensures Valid() && AllHeld()
      ensures mem == Stored(old(mem), o, i, v).(external := Minus(old(mem).external, v))
      ensures Replaced(old(mem).data[o], i, v, mem.data[o]) && mem.data - {o} == old(mem).data - {o}
    {
      CountedSwap(mem, objects, o, i, v, Minus(mem.external, v));
      mem := Stored(mem, o, i, v).(external := Minus(mem.external, v));
    }

    /** `mem::replace` with null: the content of the slot is now in the program's hands. */
    method TakeOut(o: Ptr, i: nat) returns (was: JVMSlot)
      requires Valid() && AllHeld() && o in mem.data && i < |mem.data[o]|
      modifies this`mem
      ensures Valid() && AllHeld()
      ensures was == old(mem).data[o][i]
      ensures mem == Stored(old(mem), o, i, NULL).(external := Plus(old(mem).external, was))
    {
      was := mem.data[o][i];
      MinusPlus(mem.external, was);
      CountedSwap(mem, objects, o, i, NULL, Plus(mem.external, was));
      mem := Stored(mem, o, i, NULL).(external := Plus(mem.external, was));
    }
  }

  // ----- marks

  /** The objects that still carry the largest count. */
  ghost function Doomed(m: Memory): set<Ptr> {
    set p | p in m.gcRefs && m.gcRefs[p] == USIZE_MAX
  }

  function Marked(m: Memory, p: Ptr, mark: nat): Memory {
    m.(gcRefs := m.gcRefs[p := mark])
  }

  /** Every mark cleared between two states was reached from something without a mark: a set that
      holds what had no mark before and is closed holds what has none now. */
  ghost predicate Spread(before: Memory, after: Memory) {
    forall r: set<Ptr> :: before.gcRefs.Keys - Doomed(before) <= r && Closed(before.data, r) ==>
                            after.gcRefs.Keys - Doomed(after) <= r
  }

  // ----- counts

  lemma {:induction false} CountsAreExact(m: Memory, objects: set<Ptr>)
    requires Counted(m, objects, None) && objects == m.data.Keys
    ensures forall p :: p in objects ==> m.strong[p] == 1 + InRefs(m.data, objects, p) + m.external[p]
  {
  }

  /** The counts of the objects that survive a collection: what they had, less the references from
      the objects that were freed, and never only the heap's own. */
  lemma {:induction false} Survivors(before: Memory, roots: set<Ptr>, m: Memory, objects: set<Ptr>)
    requires Counted(m, objects, None) && objects == m.data.Keys
    requires m.external == before.external && before.strong.Keys == before.data.Keys
    requires objects == ReachableSet(before.data, roots)
    requires forall p :: p in objects ==> m.data[p] == before.data[p]
    requires forall p :: p in roots ==> m.external[p] > 0
    requires CountsFit(before)
    requires forall p :: p in before.data ==>
                           before.strong[p] == 1 + InRefs(before.data, before.data.Keys, p) + before.external[p]
    ensures forall p :: p in objects ==>
                          m.strong[p] == before.strong[p] - InRefs(before.data, before.data.Keys - objects, p)
    ensures Held(m) && CountsFit(m)
  {
    var g := before.data;
    CountsAreExact(m, objects);
    forall p | p in objects ensures 2 <= m.strong[p] == before.strong[p] - InRefs(g, g.Keys - objects, p) {
      SurvivorReferences(g, roots, m.data, p);
    }
  }

  /** References to a survivor come from survivors or from freed objects, and a survivor that is not a
      root has one from a survivor. */
  lemma {:induction false} SurvivorReferences(g: Graph, roots: set<Ptr>, h: Graph, p: Ptr)
    requires h.Keys == ReachableSet(g, roots) && p in h
    requires forall p :: p in h ==> h[p] == g[p]
    ensures InRefs(g, g.Keys, p) == InRefs(h, h.Keys, p) + InRefs(g, g.Keys - h.Keys, p)
    ensures p !in roots ==> InRefs(h, h.Keys, p) > 0
  {
    InRefsUnion(g, h.Keys, g.Keys - h.Keys, p);
    assert h.Keys + (g.Keys - h.Keys) == g.Keys;
    InRefsFrame(g, h, h.Keys, p);
    ReachableFrom(g, roots, p);
    if p !in roots {
      var o :| Reachable(g, roots, o) && Refers(g, o, p);
      assert o in h && Refers(h, o, p);
      InRefsPositive(h, h.Keys, p);
    }
  }

  /** One added to a `usize`, which wraps. */
  function Raised(count: nat): nat {
    if count >= USIZE_MAX then 0 else count + 1
  }

  /** One subtracted from a `usize`, `n` times, wrapping below zero. */
  function Lowered(count: nat, n: nat): nat
    decreases n
  {
    if n == 0 then count else Lowered(if count == 0 then USIZE_MAX else count - 1, n - 1)
  }

  lemma {:induction false} LoweredTwice(count: nat, l: nat, m: nat, n: nat)
    requires n == l + m
    ensures Lowered(Lowered(count, l), m) == Lowered(count, n)
    decreases l
  {
    if l > 0 {
      LoweredTwice(if count == 0 then USIZE_MAX else count - 1, l - 1, m, n - 1);
    }
  }

  /** The allocation count is the true difference until more objects are freed than were allocated
      since the last collection; from then on it is far above the threshold. */
  lemma {:induction false} LoweredExact(count: nat, n: nat)
    requires count <= USIZE_MAX && n < USIZE_MAX - GC_THRESHOLD
    ensures n <= count ==> Lowered(count, n) == count - n
    ensures n > count ==> Lowered(count, n) == U64_SIZE + count - n && Lowered(count, n) > GC_THRESHOLD
  {
    if n > 0 && count > 0 {
      LoweredExact(count - 1, n - 1);
    } else if n > 0 {
      LoweredFromTop(USIZE_MAX, n - 1);
    }
  }

  lemma {:induction false} LoweredFromTop(count: nat, n: nat)
    requires n <= count
    ensures Lowered(count, n) == count - n
  {
    if n > 0 {
      LoweredFromTop(count - 1, n - 1);
    }
  }

  /** Removals add up. */
  lemma {:induction false} Removed(g: Graph, h: Graph, k: Graph, count: nat)
    requires k.Keys <= h.Keys <= g.Keys
    ensures Lowered(Lowered(count, |g.Keys - h.Keys|), |h.Keys - k.Keys|) == Lowered(count, |g.Keys - k.Keys|)
    ensures |k.Keys| <= |h.Keys|
  {
    RemovedCount(g.Keys, h.Keys, k.Keys);
    LoweredTwice(count, |g.Keys - h.Keys|, |h.Keys - k.Keys|, |g.Keys - k.Keys|);
  }

  lemma {:induction false} ReleasedOne(m: Memory, p: Ptr)
    requires p in m.data && m.external[p] > 0
    ensures Shrunk(Released(m, p), m) && |m.data.Keys - Released(m, p).data.Keys| == 1
  {
    assert m.data.Keys - Released(m, p).data.Keys == {p};
  }

  lemma {:induction false} RemovedCount(a: set<Ptr>, b: set<Ptr>, c: set<Ptr>)
    requires c <= b <= a
    ensures |a - c| == |a - b| + |b - c| && |c| <= |b|
  {
  }

  // ----- what does not change

  /** The objects of `owners` still have the slots, mark and kind that they had. */
  ghost predicate Untouched(m: Memory, owners: set<Ptr>, before: Memory) {
    && owners <= m.data.Keys == m.gcRefs.Keys == m.kind.Keys
    && forall p :: p in owners && p in before.data && p in before.gcRefs && p in before.kind ==>
                     m.data[p] == before.data[p] && m.gcRefs[p] == before.gcRefs[p] && m.kind[p] == before.kind[p]
  }

  /** What is left is as it was. */
  ghost predicate Shrunk(m: Memory, before: Memory) {
    && m.data.Keys <= before.data.Keys && m.kind.Keys <= before.kind.Keys
    && (forall p :: p in m.data ==> m.data[p] == before.data[p])
    && forall p :: p in m.kind ==> m.kind[p] == before.kind[p]
  }

  /** What went in two steps, because it had to each time, had to go altogether. */
  lemma {:induction false} ShrunkTwice(before: Memory, m: Memory, after: Memory, last: multiset<Ptr>, count: nat)
    requires Shrunk(m, before) && Below(before.data, last, before.data.Keys - m.data.Keys)
    requires Shrunk(after, m) && Below(m.data, after.external, m.data.Keys - after.data.Keys)
    requires forall p :: last[p] <= after.external[p]
    ensures Shrunk(after, before) && Below(before.data, last, before.data.Keys - after.data.Keys)
    ensures Lowered(Lowered(count, |before.data.Keys - m.data.Keys|), |m.data.Keys - after.data.Keys|)
         == Lowered(count, |before.data.Keys - after.data.Keys|)
    ensures |after.data.Keys| <= |m.data.Keys|
  {
    BelowThen(before.data, last, m.data, after.external, after.data);
    Removed(before.data, m.data, after.data, count);
  }

  lemma {:induction false} ShrunkStored(m: Memory, before: Memory, o: Ptr, i: nat, v: JVMSlot)
    requires o in before.data && i < |before.data[o]| && o in m.data
    requires Shrunk(m, Stored(before, o, i, NULL))
    ensures i < |m.data[o]| && m.data[o][i] == NULL
    ensures Shrunk(Stored(m, o, i, v), Stored(before, o, i, v))
  {
  }

  ghost predicate Distinct(s: seq<Ptr>) {
    forall i, j :: 0 <= i < j < |s| ==> s[i] != s[j]
  }

  ghost function Elements(s: seq<Ptr>): set<Ptr> {
    set p | p in s
  }

  lemma {:induction false} FirstElement(objects: set<Ptr>, s: seq<Ptr>)
    requires s != [] && Distinct(s) && objects !! Elements(s)
    ensures s[0] in Elements(s) && s[0] !in objects + Elements(s[1..])
    ensures Elements(s) == Elements(s[1..]) + {s[0]}
    ensures Distinct(s[1..])
  {
  }
}
