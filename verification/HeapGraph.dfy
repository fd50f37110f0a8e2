/** The references between heap objects, counted and followed, as functions of the slots alone. */
module HeapGraph {
  import opened Wrappers
  import opened Slots

  /** The slots of every object, by address. */
  type Graph = map<Ptr, seq<JVMSlot>>

  datatype ObjectKind = Instance(classId: nat) | Array(size: nat)

  /** The allocations behind the `Arc`s, by address: the strong count and the fields of each object.
      `external` are the references held outside the heap, with repetitions: operand stacks, locals,
      statics and temporaries. */
  datatype Memory = Memory(
    strong: map<Ptr, nat>,
    gcRefs: map<Ptr, nat>,
    data: Graph,
    kind: map<Ptr, ObjectKind>,
    external: multiset<Ptr>
  )

  /** How many of the slots refer to `p`. */
  function Count(slots: seq<JVMSlot>, p: Ptr): nat {
    if slots == [] then 0 else Count(slots[..|slots| - 1], p) + One(slots[|slots| - 1], p)
  }

  function One(s: JVMSlot, p: Ptr): nat {
    if s == -(p as int) then 1 else 0
  }

  /** Slot `i` holds `v`, and every other slot what it held. */
  ghost predicate Replaced(slots: seq<JVMSlot>, i: nat, v: JVMSlot, r: seq<JVMSlot>) {
    |r| == |slots| && forall k :: 0 <= k < |slots| ==> r[k] == if k == i then v else slots[k]
  }

  function Put(slots: seq<JVMSlot>, i: nat, v: JVMSlot): (r: seq<JVMSlot>)
    requires i < |slots|
    ensures Replaced(slots, i, v, r)
  {
    slots[i := v]
  }

  ghost function AnyOf(s: set<Ptr>): (p: Ptr)
    requires s != {}
    ensures p in s
  {
    var p :| p in s; p
  }

  /** How many slots of the objects in `s` refer to `p`. */
  ghost function InRefs(g: Graph, s: set<Ptr>, p: Ptr): nat
    requires s <= g.Keys
  {
    if s == {} then 0 else
      var o := AnyOf(s);
      Count(g[o], p) + InRefs(g, s - {o}, p)
  }

  ghost predicate Refers(g: Graph, o: Ptr, p: Ptr) {
    o in g && Count(g[o], p) > 0
  }

  // ----- counting in one list of slots

  lemma {:induction false} CountNext(slots: seq<JVMSlot>, i: nat, p: Ptr)
    requires i < |slots|
    ensures Count(slots[..i + 1], p) == Count(slots[..i], p) + One(slots[i], p)
  {
    assert slots[..i + 1][..i] == slots[..i];
  }

  lemma {:induction false} CountConcat(a: seq<JVMSlot>, b: seq<JVMSlot>, p: Ptr)
    ensures Count(a + b, p) == Count(a, p) + Count(b, p)
  {
    if b == [] {
      assert a + b == a;
    } else {
      var n := |b| - 1;
      assert (a + b)[..|a| + n] == a + b[..n];
      CountConcat(a, b[..n], p);
    }
  }

  lemma {:induction false} CountSplit(slots: seq<JVMSlot>, i: nat, p: Ptr)
    requires i <= |slots|
    ensures Count(slots, p) == Count(slots[..i], p) + Count(slots[i..], p)
  {
    CountConcat(slots[..i], slots[i..], p);
    assert slots[..i] + slots[i..] == slots;
  }

  lemma {:induction false} CountRest(slots: seq<JVMSlot>, i: nat, p: Ptr)
    requires i < |slots|
    ensures Count(slots[i..], p) == One(slots[i], p) + Count(slots[i + 1..], p)
  {
    CountConcat([slots[i]], slots[i + 1..], p);
    assert [slots[i]] + slots[i + 1..] == slots[i..];
    CountNext([slots[i]], 0, p);
    assert [slots[i]][..0 + 1] == [slots[i]];
  }

  /** Slot `i` counts, and the slots up to it count no more than all of them. */
  lemma {:induction false} CountAt(slots: seq<JVMSlot>, i: nat, p: Ptr)
    requires i < |slots|
    ensures Count(slots[..i], p) + One(slots[i], p) <= Count(slots, p)
  {
    CountNext(slots, i, p);
    CountSplit(slots, i + 1, p);
  }

  lemma {:induction false} CountUpdate(slots: seq<JVMSlot>, i: nat, v: JVMSlot, p: Ptr)
    requires i < |slots|
    ensures Count(Put(slots, i, v), p) + One(slots[i], p) == Count(slots, p) + One(v, p)
  {
    var after := Put(slots, i, v);
    CountNext(slots, i, p);
    CountNext(after, i, p);
    CountSplit(slots, i + 1, p);
    CountSplit(after, i + 1, p);
    assert after[..i] == slots[..i] && after[i + 1..] == slots[i + 1..];
  }

  /** A reference is counted exactly when some slot holds it. */
  lemma {:induction false} CountPositive(slots: seq<JVMSlot>, p: Ptr)
    ensures Count(slots, p) > 0 <==> exists i :: 0 <= i < |slots| && Target(slots[i]) == Some(p)
  {
    if slots != [] {
      var n := |slots| - 1;
      CountPositive(slots[..n], p);
      if Count(slots[..n], p) > 0 {
        var i :| 0 <= i < |slots[..n]| && Target(slots[..n][i]) == Some(p);
        assert Target(slots[i]) == Some(p);
      } else if Target(slots[n]) != Some(p) {
        forall i | 0 <= i < |slots| ensures Target(slots[i]) != Some(p) {
          assert i < n ==> Target(slots[..n][i]) == Target(slots[i]);
        }
      }
    }
  }

  // ----- counting over a set of objects

  lemma {:induction false} InRefsPick(g: Graph, s: set<Ptr>, o: Ptr, p: Ptr)
    requires s <= g.Keys && o in s
    ensures InRefs(g, s, p) == Count(g[o], p) + InRefs(g, s - {o}, p)
  {
    var q := AnyOf(s);
    if q != o {
      InRefsPick(g, s - {q}, o, p);
      InRefsPick(g, s - {o}, q, p);
      assert s - {q} - {o} == s - {o} - {q};
    }
  }

  lemma {:induction false} InRefsFrame(g: Graph, h: Graph, s: set<Ptr>, p: Ptr)
    requires s <= g.Keys && s <= h.Keys
    requires forall o :: o in s ==> Count(g[o], p) == Count(h[o], p)
    ensures InRefs(g, s, p) == InRefs(h, s, p)
  {
    if s != {} {
      var o :| o in s;
      InRefsPick(g, s, o, p);
      InRefsPick(h, s, o, p);
      InRefsFrame(g, h, s - {o}, p);
    }
  }

  lemma {:induction false} InRefsUnion(g: Graph, s: set<Ptr>, t: set<Ptr>, p: Ptr)
    requires s <= g.Keys && t <= g.Keys && s !! t
    ensures InRefs(g, s + t, p) == InRefs(g, s, p) + InRefs(g, t, p)
  {
    if s == {} {
      assert s + t == t;
    } else {
      var o :| o in s;
      InRefsPick(g, s, o, p);
      InRefsPick(g, s + t, o, p);
      assert s + t - {o} == (s - {o}) + t;
      InRefsUnion(g, s - {o}, t, p);
    }
  }

  /** Overwriting the slots of one object changes the count by that object's references. */
  lemma {:induction false} InRefsUpdate(g: Graph, o: Ptr, slots: seq<JVMSlot>, p: Ptr)
    requires o in g
    ensures InRefs(g[o := slots], g.Keys, p) + Count(g[o], p) == InRefs(g, g.Keys, p) + Count(slots, p)
  {
    var h := g[o := slots];
    InRefsPick(g, g.Keys, o, p);
    InRefsPick(h, g.Keys, o, p);
    InRefsFrame(g, h, g.Keys - {o}, p);
  }

  /** A new object adds its own references. */
  lemma {:induction false} InRefsInsert(g: Graph, o: Ptr, slots: seq<JVMSlot>, p: Ptr)
    requires o !in g
    ensures InRefs(g[o := slots], g.Keys + {o}, p) == InRefs(g, g.Keys, p) + Count(slots, p)
  {
    var h := g[o := slots];
    InRefsPick(h, g.Keys + {o}, o, p);
    assert g.Keys + {o} - {o} == g.Keys;
    InRefsFrame(g, h, g.Keys, p);
  }

  /** Removing an object removes its own references. */
  lemma {:induction false} InRefsRemove(g: Graph, o: Ptr, p: Ptr)
    requires o in g
    ensures InRefs(g, g.Keys, p) == InRefs(g - {o}, g.Keys - {o}, p) + Count(g[o], p)
  {
    InRefsPick(g, g.Keys, o, p);
    InRefsFrame(g, g - {o}, g.Keys - {o}, p);
  }

  lemma {:induction false} InRefsPositive(g: Graph, s: set<Ptr>, p: Ptr)
    requires s <= g.Keys
    ensures InRefs(g, s, p) > 0 <==> exists o :: o in s && Refers(g, o, p)
  {
    if s != {} {
      var o :| o in s;
      InRefsPick(g, s, o, p);
      InRefsPositive(g, s - {o}, p);
      if InRefs(g, s - {o}, p) > 0 {
        var q :| q in s - {o} && Refers(g, q, p);
        assert q in s;
      } else if exists q :: q in s && Refers(g, q, p) {
        var q :| q in s && Refers(g, q, p);
        assert q == o || q in s - {o};
      }
    }
  }

  // ----- the count invariant

  ghost predicate Held(m: Memory) {
    forall p :: p in m.data && p in m.strong ==> m.strong[p] >= 2
  }

  ghost predicate CountsFit(m: Memory) {
    forall p :: p in m.data && p in m.strong ==> m.strong[p] <= ISIZE_MAX
  }

  /** How many references to `p` there are: one if it is among `owners`, one if it is the `Arc` in
      hand, the slots of all objects, and the rest of the program. */
  ghost function Holders(g: Graph, external: multiset<Ptr>, owners: set<Ptr>, hand: Option<Ptr>, p: Ptr): nat {
    (if p in owners then 1 else 0) + (if hand == Some(p) then 1 else 0) + InRefs(g, g.Keys, p) + external[p]
  }

  /** Every strong count is exact, every reference is to allocated memory, and memory that nothing
      refers to has been freed. */
  ghost predicate Counted(m: Memory, owners: set<Ptr>, hand: Option<Ptr>) {
    && m.strong.Keys == m.gcRefs.Keys == m.kind.Keys == m.data.Keys
    && (forall p :: Holders(m.data, m.external, owners, hand, p) > 0 ==> p in m.data)
    && forall p :: p in m.data ==> m.strong[p] == Holders(m.data, m.external, owners, hand, p) > 0
  }

  /** What is not owned any more has no references left in its slots. */
  ghost predicate Emptied(g: Graph, owners: set<Ptr>) {
    forall o, p :: Refers(g, o, p) ==> o in owners
  }

  lemma {:induction false} EmptiedFree(g: Graph, owners: set<Ptr>, p: Ptr)
    requires Emptied(g, owners)
    ensures Emptied(g - {p}, owners)
  {
    forall o, q | Refers(g - {p}, o, q) ensures o in owners {
      assert Refers(g, o, q);
    }
  }

  /** An owner whose slots are all null need not be an owner. */
  lemma {:induction false} EmptiedWithout(g: Graph, owners: set<Ptr>, u: Ptr)
    requires Emptied(g, owners) && u in g && forall j :: 0 <= j < |g[u]| ==> g[u][j] == NULL
    ensures Emptied(g, owners - {u}) && forall p :: !Refers(g, u, p)
  {
    forall p ensures !Refers(g, u, p) {
      CountPositive(g[u], p);
    }
  }

  ghost predicate RefersInside(g: Graph) {
    forall o, p :: Refers(g, o, p) ==> p in g
  }

  /** References are only to allocated memory. */
  lemma {:induction false} CountedInside(m: Memory, owners: set<Ptr>, hand: Option<Ptr>)
    requires Counted(m, owners, hand)
    ensures RefersInside(m.data) && owners <= m.data.Keys
    ensures hand.Some? ==> hand.value in m.data
    ensures forall p :: p in m.external ==> p in m.data
  {
    forall o, p | Refers(m.data, o, p) ensures p in m.data {
      InRefsPositive(m.data, m.data.Keys, p);
      assert Holders(m.data, m.external, owners, hand, p) > 0;
    }
    forall p | p in m.external || p in owners || hand == Some(p) ensures p in m.data {
      assert Holders(m.data, m.external, owners, hand, p) > 0;
    }
  }

  /** An `Arc` in hand counts like one more owner. */
  lemma {:induction false} CountedHand(m: Memory, owners: set<Ptr>, p: Ptr)
    requires p !in owners
    ensures Counted(m, owners, Some(p)) <==> Counted(m, owners + {p}, None)
  {
  }

  /** Dropping the `Arc` in hand when it is not the last one. */
  lemma {:induction false} CountedDrop(m: Memory, owners: set<Ptr>, p: Ptr)
    requires Counted(m, owners, Some(p)) && p in m.strong && m.strong[p] > 1
    ensures Counted(m.(strong := m.strong[p := m.strong[p] - 1]), owners, None)
  {
  }

  /** The memory without the object at `p`. */
  function Freed(m: Memory, p: Ptr): Memory {
    Memory(m.strong - {p}, m.gcRefs - {p}, m.data - {p}, m.kind - {p}, m.external)
  }

  /** Freeing the object in hand with its last `Arc`, when its slots hold no references. */
  lemma {:induction false} CountedFree(m: Memory, owners: set<Ptr>, p: Ptr)
    requires Counted(m, owners, Some(p)) && p in m.strong && m.strong[p] == 1
    requires forall q :: !Refers(m.data, p, q)
    ensures Counted(Freed(m, p), owners, None)
  {
    var g := m.data;
    forall q ensures Holders(g, m.external, owners, Some(p), q)
                     == Holders(g - {p}, m.external, owners, None, q) + if q == p then 1 else 0 {
      InRefsRemove(g, p, q);
      assert !Refers(g, p, q);
      assert (g - {p}).Keys == g.Keys - {p};
    }
  }

  /** Overwriting a slot by null puts the reference that it held in hand. */
  lemma {:induction false} CountedTake(m: Memory, owners: set<Ptr>, o: Ptr, i: nat)
    requires Counted(m, owners, None)
    requires o in m.data && i < |m.data[o]|
    ensures Counted(Stored(m, o, i, NULL), owners, Target(m.data[o][i]))
  {
    var g, h := m.data, Stored(m, o, i, NULL).data;
    assert h.Keys == g.Keys;
    forall p ensures Holders(h, m.external, owners, Target(g[o][i]), p) == Holders(g, m.external, owners, None, p) {
      InRefsUpdate(g, o, Put(g[o], i, NULL), p);
      CountUpdate(g[o], i, NULL, p);
    }
  }

  /** The memory with `v` in slot `i` of `o`. */
  function Stored(m: Memory, o: Ptr, i: nat, v: JVMSlot): Memory
    requires o in m.data && i < |m.data[o]|
  {
    m.(data := m.data[o := Put(m.data[o], i, v)])
  }

  /** Whoever's last reference is in hand is not owned, so it has been emptied before. */
  lemma {:induction false} LastReference(m: Memory, owners: set<Ptr>, p: Ptr)
    requires Counted(m, owners, Some(p)) && Emptied(m.data, owners)
    ensures p in m.strong
    ensures m.strong[p] == 1 ==> forall q :: !Refers(m.data, p, q)
  {
  }

  /** When nothing but the owners holds references, and only to owners, nothing else is allocated. */
  lemma {:induction false} NothingLeaks(m: Memory, owners: set<Ptr>)
    requires Counted(m, owners, None)
    requires Emptied(m.data, owners) && Closed(m.data, owners)
    requires forall p :: p in m.external ==> p in owners
    ensures owners == m.data.Keys
  {
    CountedInside(m, owners, None);
    forall p | p in m.data ensures p in owners {
      InRefsPositive(m.data, m.data.Keys, p);
      assert Holders(m.data, m.external, owners, None, p) > 0;
    }
  }

  // ----- references that come and go

  /** The references in a list of slots, with repetitions. */
  function Bag(slots: seq<JVMSlot>): (b: multiset<Ptr>)
    ensures forall p :: b[p] == Count(slots, p)
  {
    if slots == [] then multiset{} else
      var rest := Bag(slots[..|slots| - 1]);
      match Target(slots[|slots| - 1])
      case None => rest
      case Some(p) => rest[p := rest[p] + 1]
  }

  /** A new reference outside the heap. */
  function Cloned(m: Memory, p: Ptr): Memory
    requires p in m.strong
  {
    m.(strong := m.strong[p := m.strong[p] + 1], external := m.external[p := m.external[p] + 1])
  }

  function ClonedSlot(m: Memory, s: JVMSlot): Memory
    requires s < 0 ==> -(s as int) in m.strong
  {
    if s < 0 then Cloned(m, -(s as int)) else m
  }

  /** The memory after all references in the slots were cloned, first to last. */
  function ClonedSlots(m: Memory, slots: seq<JVMSlot>): (c: Memory)
    requires forall i :: 0 <= i < |slots| && slots[i] < 0 ==> -(slots[i] as int) in m.strong
    ensures c.strong.Keys == m.strong.Keys
    ensures c == m.(strong := c.strong, external := c.external)
  {
    if slots == [] then m else ClonedSlot(ClonedSlots(m, slots[..|slots| - 1]), slots[|slots| - 1])
  }

  lemma {:induction false} ClonedSlotsCount(m: Memory, slots: seq<JVMSlot>, p: Ptr)
    requires forall i :: 0 <= i < |slots| && slots[i] < 0 ==> -(slots[i] as int) in m.strong
    ensures ClonedSlots(m, slots).external[p] == m.external[p] + Count(slots, p)
    ensures p in m.strong ==> ClonedSlots(m, slots).strong[p] == m.strong[p] + Count(slots, p)
  {
    if slots != [] {
      ClonedSlotsCount(m, slots[..|slots| - 1], p);
    }
  }

  lemma {:induction false} CountedClone(m: Memory, owners: set<Ptr>, p: Ptr)
    requires Counted(m, owners, None) && p in m.data
    ensures Counted(Cloned(m, p), owners, None)
  {
    forall q ensures Holders(m.data, Cloned(m, p).external, owners, None, q)
                     == Holders(m.data, m.external, owners, None, q) + if q == p then 1 else 0 {
    }
  }

  /** One reference outside the heap less, which is not the last. */
  function Forgotten(m: Memory, p: Ptr): Memory
    requires p in m.strong && m.strong[p] > 0 && m.external[p] > 0
  {
    m.(strong := m.strong[p := m.strong[p] - 1], external := m.external[p := m.external[p] - 1])
  }

  lemma {:induction false} CountedForget(m: Memory, owners: set<Ptr>, p: Ptr)
    requires Counted(m, owners, None) && m.external[p] > 0 && p in m.strong && m.strong[p] > 1
    ensures Counted(Forgotten(m, p), owners, None)
    ensures Held(m) && m.strong[p] > 2 ==> Held(Forgotten(m, p))
    ensures CountsFit(m) ==> CountsFit(Forgotten(m, p))
  {
    forall q ensures Holders(m.data, m.external, owners, None, q)
                     == Holders(m.data, Forgotten(m, p).external, owners, None, q) + if q == p then 1 else 0 {
    }
  }

  /** The object at `p` is freed with its last reference from outside, and its slots are handed to
      the program. */
  function Released(m: Memory, p: Ptr): Memory
    requires p in m.data && m.external[p] > 0
  {
    Freed(m, p).(external := m.external[p := m.external[p] - 1] + Bag(m.data[p]))
  }

  lemma {:induction false} CountedRelease(m: Memory, owners: set<Ptr>, p: Ptr)
    requires Counted(m, owners, None)
    requires m.external[p] > 0 && p in owners && p in m.strong && m.strong[p] == 2
    ensures m.external[p] == 1 && forall o :: !Refers(m.data, o, p)
    ensures Counted(Released(m, p), owners - {p}, None)
    ensures Held(m) ==> Held(Released(m, p))
    ensures CountsFit(m) ==> CountsFit(Released(m, p))
  {
    hide InRefs, Count;
    var g, after := m.data, Released(m, p).external;
    assert Holders(g, m.external, owners, None, p) == 2;
    InRefsPositive(g, g.Keys, p);
    assert !Refers(g, p, p);
    forall q ensures Holders(g, m.external, owners, None, q)
                     == Holders(g - {p}, after, owners - {p}, None, q) + if q == p then 2 else 0 {
      InRefsRemove(g, p, q);
      assert (g - {p}).Keys == g.Keys - {p};
    }
  }

  /** The references in `slots` are part of what the program holds, and `rest` is what is left. */
  ghost predicate Takes(external: multiset<Ptr>, slots: seq<JVMSlot>, rest: multiset<Ptr>) {
    forall p :: external[p] == rest[p] + Count(slots, p)
  }

  lemma {:induction false} TakesNothing(external: multiset<Ptr>, rest: multiset<Ptr>)
    requires Takes(external, [], rest)
    ensures external == rest
  {
  }

  /** A reference more, outside and in the list. */
  lemma {:induction false} TakesAppend(external: multiset<Ptr>, slots: seq<JVMSlot>, rest: multiset<Ptr>, p: Ptr)
    requires Takes(external, slots, rest)
    ensures Takes(external[p := external[p] + 1], slots, rest[p := rest[p] + 1])
    ensures Takes(external[p := external[p] + 1], slots + [FromObject(p)], rest)
  {
  }

  lemma {:induction false} TakesNext(external: multiset<Ptr>, slots: seq<JVMSlot>, i: nat, last: multiset<Ptr>)
    requires i < |slots| && Takes(external, slots[i..], last)
    ensures slots[i] < 0 ==> external[-(slots[i] as int)] > 0
    ensures Takes(Minus(external, slots[i]), slots[i + 1..], last)
    ensures forall p :: last[p] <= Minus(external, slots[i])[p]
  {
    forall p ensures Minus(external, slots[i])[p] == last[p] + Count(slots[i + 1..], p) {
      CountRest(slots, i, p);
    }
    if slots[i] < 0 {
      CountRest(slots, i, -(slots[i] as int));
    }
  }

  /** A new object at `p` takes over the references in its slots from the program, which gets one
      reference to the object. */
  function Created(m: Memory, p: Ptr, k: ObjectKind, slots: seq<JVMSlot>, rest: multiset<Ptr>): Memory {
    Memory(m.strong[p := 2], m.gcRefs[p := 0], m.data[p := slots], m.kind[p := k], rest[p := rest[p] + 1])
  }

  lemma {:induction false} CountedNew(m: Memory, owners: set<Ptr>, p: Ptr, k: ObjectKind, slots: seq<JVMSlot>,
                                      rest: multiset<Ptr>)
    requires Counted(m, owners, None) && p !in m.data
    requires Takes(m.external, slots, rest)
    ensures Counted(Created(m, p, k, slots, rest), owners + {p}, None)
    ensures CountsFit(m) ==> CountsFit(Created(m, p, k, slots, rest))
    ensures Held(m) ==> Held(Created(m, p, k, slots, rest))
  {
    hide InRefs, Count, Holders, Takes;
    var after := Created(m, p, k, slots, rest);
    assert p !in owners by {
      assert Holders(m.data, m.external, owners, None, p) == 0;
      NotOwned(m, owners, p);
    }
    forall q ensures Holders(after.data, after.external, owners + {p}, None, q)
                     == Holders(m.data, m.external, owners, None, q) + if q == p then 2 else 0 {
      HoldersNew(m, owners, p, k, slots, rest, q);
    }
  }

  lemma {:induction false} NotOwned(m: Memory, owners: set<Ptr>, p: Ptr)
    requires Holders(m.data, m.external, owners, None, p) == 0
    ensures p !in owners
  {
  }

  lemma {:induction false} HoldersNew(m: Memory, owners: set<Ptr>, p: Ptr, k: ObjectKind, slots: seq<JVMSlot>,
                                      rest: multiset<Ptr>, q: Ptr)
    requires p !in m.data && p !in owners && Takes(m.external, slots, rest)
    ensures var after := Created(m, p, k, slots, rest);
            Holders(after.data, after.external, owners + {p}, None, q)
            == Holders(m.data, m.external, owners, None, q) + if q == p then 2 else 0
  {
    hide InRefs, Count;
    InRefsInsert(m.data, p, slots, q);
    assert Created(m, p, k, slots, rest).data.Keys == m.data.Keys + {p};
  }

  /** Exchanging the contents of one slot with the program. */
  function Plus(external: multiset<Ptr>, s: JVMSlot): multiset<Ptr> {
    match Target(s)
    case None => external
    case Some(p) => external[p := external[p] + 1]
  }

  function Minus(external: multiset<Ptr>, s: JVMSlot): multiset<Ptr> {
    match Target(s)
    case None => external
    case Some(p) => if external[p] == 0 then external else external[p := external[p] - 1]
  }

  lemma {:induction false} MinusPlus(external: multiset<Ptr>, s: JVMSlot)
    ensures Minus(Plus(external, s), s) == external
    ensures forall p :: Plus(external, s)[p] == external[p] + One(s, p)
  {
  }

  lemma {:induction false} CountedSwap(m: Memory, owners: set<Ptr>, o: Ptr, i: nat, v: JVMSlot, after: multiset<Ptr>)
    requires Counted(m, owners, None) && o in m.data && i < |m.data[o]|
    requires forall q :: after[q] + One(v, q) == m.external[q] + One(m.data[o][i], q)
    ensures Counted(Stored(m, o, i, v).(external := after), owners, None)
  {
    var g, h := m.data, Stored(m, o, i, v).data;
    assert h.Keys == g.Keys;
    forall q ensures Holders(h, after, owners, None, q) == Holders(g, m.external, owners, None, q) {
      InRefsUpdate(g, o, Put(g[o], i, v), q);
      CountUpdate(g[o], i, v, q);
    }
  }

  /** `x` holds every object that nothing outside `x` refers to. */
  ghost predicate Absorbs(g: Graph, external: multiset<Ptr>, x: set<Ptr>) {
    forall p :: p in g && external[p] == 0 && (forall o :: o in g && o !in x ==> !Refers(g, o, p)) ==> p in x
  }

  /** `x` is the least set that holds every object that nothing outside the set refers to. */
  ghost predicate LeastAbsorbing(g: Graph, external: multiset<Ptr>, x: set<Ptr>) {
    Absorbs(g, external, x) && Below(g, external, x)
  }

  ghost predicate Below(g: Graph, external: multiset<Ptr>, x: set<Ptr>) {
    forall y :: Absorbs(g, external, y) ==> x <= y
  }

  /** Removing objects that `x` holds, with more references still to be dropped, leaves it absorbing. */
  lemma {:induction false} AbsorbsRest(g: Graph, external: multiset<Ptr>, h: Graph, more: multiset<Ptr>, x: set<Ptr>)
    requires Absorbs(g, external, x)
    requires h.Keys <= g.Keys && g.Keys - h.Keys <= x
    requires forall p :: p in h ==> h[p] == g[p]
    requires forall p :: external[p] <= more[p]
    ensures Absorbs(h, more, x)
  {
  }

  /** Two removals, one after the other, of objects that have to go. */
  lemma {:induction false} BelowThen(g: Graph, last: multiset<Ptr>, h: Graph, more: multiset<Ptr>, k: Graph)
    requires k.Keys <= h.Keys <= g.Keys && forall p :: p in h ==> h[p] == g[p]
    requires forall p :: last[p] <= more[p]
    requires Below(g, last, g.Keys - h.Keys) && Below(h, more, h.Keys - k.Keys)
    ensures Below(g, last, g.Keys - k.Keys)
  {
    forall y | Absorbs(g, last, y) ensures g.Keys - k.Keys <= y {
      AbsorbsRest(g, last, h, more, y);
    }
  }

  /** An object that nothing refers to has to go. */
  lemma {:induction false} BelowFirst(g: Graph, last: multiset<Ptr>, p: Ptr)
    requires p in g && last[p] == 0 && forall o :: !Refers(g, o, p)
    ensures Below(g, last, g.Keys - (g - {p}).Keys)
  {
  }

  /** When everything that is left is referred to, what was removed absorbs. */
  lemma {:induction false} RemovedAbsorbs(g: Graph, m: Memory)
    requires m.data.Keys <= g.Keys && forall p :: p in m.data ==> m.data[p] == g[p]
    requires Counted(m, m.data.Keys, None)
    requires forall p :: p in m.data ==> m.strong[p] >= 2
    ensures Absorbs(g, m.external, g.Keys - m.data.Keys)
  {
    var h, external := m.data, m.external;
    forall p | p in h && external[p] == 0 ensures exists o :: o in h && Refers(g, o, p) {
      InRefsPositive(h, h.Keys, p);
      var o :| o in h && Refers(h, o, p);
      assert Refers(g, o, p);
    }
  }

  // ----- reachability

  /** `path` follows references, one object after the other. */
  ghost predicate IsPath(g: Graph, path: seq<Ptr>) {
    && path != []
    && (forall i :: 0 <= i < |path| ==> path[i] in g)
    && forall i, j :: 0 <= i < j < |path| && j == i + 1 ==> Refers(g, path[i], path[j])
  }

  ghost predicate Connects(g: Graph, roots: set<Ptr>, path: seq<Ptr>, p: Ptr) {
    IsPath(g, path) && path[0] in roots && path[|path| - 1] == p
  }

  /** Some chain of references leads from a root to `p`. */
  ghost predicate Reachable(g: Graph, roots: set<Ptr>, p: Ptr) {
    exists path :: Connects(g, roots, path, p)
  }

  ghost function ReachableSet(g: Graph, roots: set<Ptr>): set<Ptr> {
    set p | p in g && Reachable(g, roots, p)
  }

  /** Every reference held by an object of `s` stays in `s`. */
  ghost predicate Closed(g: Graph, s: set<Ptr>) {
    forall o, p :: o in s && Refers(g, o, p) ==> p in s
  }

  lemma {:induction false} ReachableRoot(g: Graph, roots: set<Ptr>, p: Ptr)
    requires p in g && p in roots
    ensures Reachable(g, roots, p)
  {
    assert Connects(g, roots, [p], p);
  }

  lemma {:induction false} ReachableStep(g: Graph, roots: set<Ptr>, o: Ptr, p: Ptr)
    requires Reachable(g, roots, o) && p in g && Refers(g, o, p)
    ensures Reachable(g, roots, p)
  {
    var path :| Connects(g, roots, path, o);
    assert Connects(g, roots, path + [p], p);
  }

  /** A reachable object is a root, or some reachable object refers to it. */
  lemma {:induction false} ReachableFrom(g: Graph, roots: set<Ptr>, p: Ptr)
    requires Reachable(g, roots, p)
    ensures p in g
    ensures p in roots || exists o :: Reachable(g, roots, o) && Refers(g, o, p)
  {
    var path :| Connects(g, roots, path, p);
    var n := |path| - 1;
    if n > 0 {
      assert Connects(g, roots, path[..n], path[n - 1]);
      assert Refers(g, path[n - 1], path[n]);
    }
  }

  /** A closed set that holds the roots holds everything reachable. */
  lemma {:induction false} ReachableStays(g: Graph, roots: set<Ptr>, s: set<Ptr>, path: seq<Ptr>, p: Ptr)
    requires Closed(g, s) && roots * g.Keys <= s
    requires Connects(g, roots, path, p)
    ensures p in s
    decreases |path|
  {
    var n := |path| - 1;
    if n > 0 {
      ReachableStays(g, roots, s, path[..n], path[n - 1]);
      assert Refers(g, path[n - 1], path[n]);
    }
  }

  lemma {:induction false} ReachableSetClosed(g: Graph, roots: set<Ptr>)
    requires roots <= g.Keys
    requires forall o, p :: Refers(g, o, p) ==> p in g
    ensures roots <= ReachableSet(g, roots) && Closed(g, ReachableSet(g, roots))
  {
    forall p | p in roots ensures p in ReachableSet(g, roots) {
      ReachableRoot(g, roots, p);
    }
    forall o, p | o in ReachableSet(g, roots) && Refers(g, o, p) ensures p in ReachableSet(g, roots) {
      ReachableStep(g, roots, o, p);
    }
  }

  /** A closed set that holds the roots holds the reachable set. */
  lemma {:induction false} ReachableSetLeast(g: Graph, roots: set<Ptr>, s: set<Ptr>)
    requires roots <= s && Closed(g, s)
    ensures ReachableSet(g, roots) <= s
  {
    forall p | p in ReachableSet(g, roots) ensures p in s {
      var path :| Connects(g, roots, path, p);
      ReachableStays(g, roots, s, path, p);
    }
  }

  /** References that stay in a set go on staying there when its objects keep their slots. */
  lemma {:induction false} ClosedFrame(before: Graph, after: Graph, s: set<Ptr>)
    requires Closed(before, s) && s <= before.Keys && s <= after.Keys
    requires forall p :: p in s ==> after[p] == before[p]
    ensures Closed(after, s)
  {
  }
}
