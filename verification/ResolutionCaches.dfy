/** The write-once cells beside constant-pool entries, filled while any number of threads load classes and
    resolve references (src/vm/mod.rs:599-785): what a cell holds is what a fresh search would find. */
module ResolutionCaches {
  import opened Wrappers
  import opened VMClasses
  import opened ConstantPool
  import opened Members
  import opened ClassTable

  datatype Member = MethodAt(id: MethodID) | FieldAt(off: nat)

  /** A cell: the name its class is bound to, and the index of its entry. */
  type Key = (string, nat)

  /** `foundClasses` and `foundMembers` hold what some thread found and has not stored yet. */
  datatype Caches = Caches(
    classes: map<Key, VMClass>,
    members: map<Key, (VMClass, Member)>,
    foundClasses: set<(Key, VMClass)>,
    foundMembers: set<(Key, (VMClass, Member))>
  )

  datatype State = State(loads: Loads, caches: Caches)

  predicate IsFieldEntry(c: VMClass, i: nat) {
    i < |c.pool| && (c.pool[i].FieldRef? || c.pool[i].ResolvedField?)
  }

  function MemberVia(root: Result<VMClass, ResolveError>, c: VMClass, i: nat): Result<(VMClass, Member), ResolveError> {
    if IsFieldEntry(c, i) then
      match FieldVia(root, c, i) case Ok((k, off)) => Ok((k, FieldAt(off))) case Err(e) => Err(e)
    else
      match MethodVia(root, c, i) case Ok((k, id)) => Ok((k, MethodAt(id))) case Err(e) => Err(e)
  }

  /** A member reference searched for afresh. */
  function Resolve(table: Table, c: VMClass, i: nat): Result<(VMClass, Member), ResolveError> {
    MemberVia(RootClass(table, c, RefClass(c, i)), c, i)
  }

  lemma {:induction false} ResolveIsBoth(table: Table, c: VMClass, i: nat)
    ensures !IsFieldEntry(c, i) ==>
              Resolve(table, c, i) == match ResolveMethod(table, c, i)
                                      case Ok((k, id)) => Ok((k, MethodAt(id)))
                                      case Err(e) => Err(e)
    ensures IsFieldEntry(c, i) ==>
              Resolve(table, c, i) == match ResolveField(table, c, i)
                                      case Ok((k, off)) => Ok((k, FieldAt(off)))
                                      case Err(e) => Err(e)
  {
  }

  /** The entries that are resolved as fields are the field references of the class file. */
  lemma {:induction false} FieldEntries(file: Parsed, c: VMClass, i: nat)
    requires Create(file, c.super) == Ok(c)
    ensures IsFieldEntry(c, i) <==> i < |file.pool| && file.pool[i].Fieldref?
  {
    hide LinkEntry, RawText, RawClass, RawNameAndType, VtableOf, StaticsOf, FieldsOf, Link, LinkField;
    var o := Owner(file.thisName, c.vtable + c.statics, c.fields);
    LinkedExact(file.pool, o);
    if i < |file.pool| {
      assert LinkEntry(file.pool, file.pool[i], o) == Ok(c.pool[i]);
      IsReference(file.pool, file.pool[i], o);
      FieldIsLinked(file.pool, file.pool[i], o);
    }
  }

  /** The name that a class entry's cell is filled for. */
  function ClassAt(c: VMClass, i: nat): Option<string> {
    match GetClassOrArray(c.pool, i)
    case Found(Named(n)) => Some(n)
    case Found(Arrays(_, n)) => Some(n)
    case _ => None
  }

  /** `get_class_or_load_by_ref`: the cell is read before the name is looked up. */
  function CachedRoot(table: Table, caches: Caches, k: Key): Result<VMClass, ResolveError>
    requires k.0 in table
  {
    var c := table[k.0];
    if k in caches.classes && k.1 < |c.pool| && c.pool[k.1].Class? then Ok(caches.classes[k])
    else RootClass(table, c, k.1)
  }

  /** A member reference as the interpreter resolves it. */
  function Cached(table: Table, caches: Caches, k: Key): Result<(VMClass, Member), ResolveError>
    requires k.0 in table
  {
    if k in caches.members then Ok(caches.members[k])
    else MemberVia(CachedRoot(table, caches, (k.0, RefClass(table[k.0], k.1))), table[k.0], k.1)
  }

  // ----- steps

  ghost predicate FindClass(s: State, k: Key, s': State) {
    && k.0 in s.loads.table && k !in s.caches.classes
    && var name := ClassAt(s.loads.table[k.0], k.1);
       && name.Some? && name.value in s.loads.table
       && s' == s.(caches := s.caches.(foundClasses := s.caches.foundClasses + {(k, s.loads.table[name.value])}))
  }

  /** `get_or_init`: a cell that was filled meanwhile stays as it is. */
  ghost predicate KeepClass(s: State, k: Key, c: VMClass, s': State) {
    && (k, c) in s.caches.foundClasses
    && s' == if k in s.caches.classes then s else s.(caches := s.caches.(classes := s.caches.classes[k := c]))
  }

  ghost predicate FindMember(s: State, k: Key, s': State) {
    && k.0 in s.loads.table
    && var v := Cached(s.loads.table, s.caches, k);
       && v.Ok?
       && s' == s.(caches := s.caches.(foundMembers := s.caches.foundMembers + {(k, v.value)}))
  }

  ghost predicate KeepMember(s: State, k: Key, v: (VMClass, Member), s': State) {
    && (k, v) in s.caches.foundMembers
    && s' == if k in s.caches.members then s else s.(caches := s.caches.(members := s.caches.members[k := v]))
  }

  ghost predicate Step(files: Classpath, s: State, s': State) {
    || (LoaderStep(files, s.loads, s'.loads) && s'.caches == s.caches)
    || (exists k: Key :: FindClass(s, k, s'))
    || (exists k: Key, c: VMClass :: KeepClass(s, k, c, s'))
    || (exists k: Key :: FindMember(s, k, s'))
    || (exists k: Key, v: (VMClass, Member) :: KeepMember(s, k, v, s'))
  }

  // ----- the invariant

  ghost predicate ClassGood(table: Table, k: Key, c: VMClass) {
    && k.0 in table
    && var name := ClassAt(table[k.0], k.1);
       name.Some? && Knows(table, name.value, c)
  }

  ghost predicate MemberGood(table: Table, k: Key, v: (VMClass, Member)) {
    k.0 in table && Resolve(table, table[k.0], k.1) == Ok(v)
  }

  ghost predicate CachesOK(table: Table, caches: Caches) {
    && (forall k :: k in caches.classes ==> ClassGood(table, k, caches.classes[k]))
    && (forall k :: k in caches.members ==> MemberGood(table, k, caches.members[k]))
    && (forall k, c :: (k, c) in caches.foundClasses ==> ClassGood(table, k, c))
    && (forall k, v :: (k, v) in caches.foundMembers ==> MemberGood(table, k, v))
  }

  ghost predicate AllOK(files: Classpath, s: State) {
    Inv(files, s.loads) && CachesOK(s.loads.table, s.caches)
  }

  /** A search that succeeded gives the same after more classes were loaded. */
  lemma {:induction false} ResolveStable(old_: Table, new_: Table, c: VMClass, i: nat)
    requires Grows(old_, new_) && Resolve(old_, c, i).Ok?
    ensures Resolve(new_, c, i) == Resolve(old_, c, i)
  {
  }

  lemma {:induction false} CachesStay(old_: Table, new_: Table, caches: Caches)
    requires Grows(old_, new_) && CachesOK(old_, caches)
    ensures CachesOK(new_, caches)
  {
    hide Resolve, ClassAt;
    forall k, c | ClassGood(old_, k, c) ensures ClassGood(new_, k, c) {
    }
    forall k, v | MemberGood(old_, k, v) ensures MemberGood(new_, k, v) {
      ResolveStable(old_, new_, old_[k.0], k.1);
    }
  }

  /** The cells agree with the fresh search, for every reference of every loaded class. */
  lemma {:induction false} CachedIsFresh(table: Table, caches: Caches, k: Key)
    requires CachesOK(table, caches) && k.0 in table
    ensures Cached(table, caches, k) == Resolve(table, table[k.0], k.1)
  {
  }

  lemma {:induction false} StepKeepsAll(files: Classpath, s: State, s': State)
    requires AllOK(files, s) && Step(files, s, s')
    ensures AllOK(files, s') && Grows(s.loads.table, s'.loads.table)
  {
    hide Inv, LoaderStep, Cached, Resolve, ClassAt, Knows;
    if LoaderStep(files, s.loads, s'.loads) && s'.caches == s.caches {
      StepKeeps(files, s.loads, s'.loads);
      CachesStay(s.loads.table, s'.loads.table, s.caches);
    } else if k: Key :| FindMember(s, k, s') {
      CachedIsFresh(s.loads.table, s.caches, k);
    } else if k: Key :| FindClass(s, k, s') {
      FoundIsGood(s, k, s');
    }
  }

  lemma {:induction false} FoundIsGood(s: State, k: Key, s': State)
    requires CachesOK(s.loads.table, s.caches) && FindClass(s, k, s')
    ensures CachesOK(s'.loads.table, s'.caches)
  {
  }

  /** What storing a found member leaves, even when another thread stored before: the cell holds what a fresh search
      finds, no other cell and nothing else changes, and from then on the cell answers. */
  lemma {:induction false} MemberKept(s: State, k: Key, v: (VMClass, Member), s': State)
    requires CachesOK(s.loads.table, s.caches) && KeepMember(s, k, v, s')
    ensures k.0 in s.loads.table && Resolve(s.loads.table, s.loads.table[k.0], k.1) == Ok(v)
    ensures s'.loads == s.loads && s'.caches.classes == s.caches.classes
    ensures s'.caches.members == s.caches.members[k := v]
    ensures forall later: Table :: k.0 in later ==> Cached(later, s'.caches, k) == Ok(v)
  {
    hide Resolve;
    assert MemberGood(s.loads.table, k, v);
    if k in s.caches.members {
      assert MemberGood(s.loads.table, k, s.caches.members[k]);
    }
  }

  /** The same for the cell of a class: it holds the class that its name is bound to. */
  lemma {:induction false} ClassKept(s: State, k: Key, c: VMClass, s': State)
    requires CachesOK(s.loads.table, s.caches) && KeepClass(s, k, c, s')
    ensures k.0 in s.loads.table && ClassAt(s.loads.table[k.0], k.1).Some?
    ensures Knows(s.loads.table, ClassAt(s.loads.table[k.0], k.1).value, c)
    ensures s'.loads == s.loads && s'.caches.members == s.caches.members
    ensures s'.caches.classes == s.caches.classes[k := c]
  {
    hide ClassAt;
    assert ClassGood(s.loads.table, k, c);
    if k in s.caches.classes {
      assert ClassGood(s.loads.table, k, s.caches.classes[k]);
    }
  }

  /** What can be found can be stored: for every reference of a loaded class that resolves, two steps fill its
      cell. */
  lemma {:induction false} CellsCanFill(files: Classpath, s: State, k: Key) returns (s1: State, s2: State)
    requires CachesOK(s.loads.table, s.caches) && k.0 in s.loads.table
    requires Resolve(s.loads.table, s.loads.table[k.0], k.1).Ok?
    ensures Step(files, s, s1) && Step(files, s1, s2)
    ensures k in s2.caches.members
    ensures Resolve(s.loads.table, s.loads.table[k.0], k.1) == Ok(s2.caches.members[k])
  {
    hide LoaderStep, Resolve, Cached, CachesOK;
    CachedIsFresh(s.loads.table, s.caches, k);
    var v := Cached(s.loads.table, s.caches, k).value;
    s1 := s.(caches := s.caches.(foundMembers := s.caches.foundMembers + {(k, v)}));
    s2 := if k in s1.caches.members then s1 else s1.(caches := s1.caches.(members := s1.caches.members[k := v]));
    assert FindMember(s, k, s1) && KeepMember(s1, k, v, s2);
    FoundStays(s, k, s1);
    MemberKept(s1, k, v, s2);
  }

  /** So do two steps the cell of a class entry whose class is bound. */
  lemma {:induction false} ClassCanFill(files: Classpath, s: State, k: Key) returns (s1: State, s2: State)
    requires CachesOK(s.loads.table, s.caches) && k.0 in s.loads.table && k !in s.caches.classes
    requires ClassAt(s.loads.table[k.0], k.1).Some? && ClassAt(s.loads.table[k.0], k.1).value in s.loads.table
    ensures Step(files, s, s1) && Step(files, s1, s2)
    ensures k in s2.caches.classes
    ensures s2.caches.classes[k] == s.loads.table[ClassAt(s.loads.table[k.0], k.1).value]
  {
    hide LoaderStep, ClassAt, Cached, CachesOK;
    var c := s.loads.table[ClassAt(s.loads.table[k.0], k.1).value];
    s1 := s.(caches := s.caches.(foundClasses := s.caches.foundClasses + {(k, c)}));
    s2 := s1.(caches := s1.caches.(classes := s1.caches.classes[k := c]));
    assert FindClass(s, k, s1) && KeepClass(s1, k, c, s2);
  }

  lemma {:induction false} FoundStays(s: State, k: Key, s1: State)
    requires CachesOK(s.loads.table, s.caches) && FindMember(s, k, s1)
    ensures CachesOK(s1.loads.table, s1.caches) && s1.loads == s.loads
  {
    hide Resolve, Cached;
    CachedIsFresh(s.loads.table, s.caches, k);
  }

  // ----- whole runs

  ghost predicate Start(s: State) {
    Initial(s.loads) && s.caches == Caches(map[], map[], {}, {})
  }

  ghost predicate IsRun(files: Classpath, run: seq<State>) {
    && run != [] && Start(run[0])
    && forall i :: 0 <= i < |run| - 1 ==> Step(files, run[i], run[i + 1])
  }

  lemma {:induction false} RunKeepsAll(files: Classpath, run: seq<State>, i: nat, j: nat)
    requires IsRun(files, run) && i <= j < |run|
    ensures AllOK(files, run[i]) && AllOK(files, run[j])
    ensures Grows(run[i].loads.table, run[j].loads.table)
    decreases j
  {
    hide Inv, Step, CachesOK;
    if j == 0 {
      InitialOK(files, run[0].loads);
      EmptyCaches(run[0].loads.table);
    } else {
      RunKeepsAll(files, run, if i < j then i else j - 1, j - 1);
      StepKeepsAll(files, run[j - 1], run[j]);
    }
  }

  lemma {:induction false} EmptyCaches(table: Table)
    ensures CachesOK(table, Caches(map[], map[], {}, {}))
  {
  }

  /** All loaders of a name, at any two moments of any run, get the same class. */
  lemma {:induction false} OneClassPerName(files: Classpath, run: seq<State>, i: nat, j: nat, name: string,
                                           c: VMClass, d: VMClass)
    requires IsRun(files, run) && i < |run| && j < |run|
    requires (name, c) in run[i].loads.got && (name, d) in run[j].loads.got
    ensures c == d && Knows(run[i].loads.table, name, c) && Knows(run[j].loads.table, name, c)
  {
    hide IsRun, TableOK, ThreadsOK, LockOK, CachesOK;
    if i <= j {
      RunKeepsAll(files, run, i, j);
    } else {
      RunKeepsAll(files, run, j, i);
    }
  }

  /** What the interpreter resolves, at any moment of any run, is what a search without any cell gives; and
      what it resolved once stays what it is. */
  lemma {:induction false} ResolvedOnce(files: Classpath, run: seq<State>, i: nat, j: nat, k: Key)
    requires IsRun(files, run) && i <= j < |run| && k.0 in run[i].loads.table
    ensures Cached(run[i].loads.table, run[i].caches, k)
         == Resolve(run[i].loads.table, run[i].loads.table[k.0], k.1)
    ensures Knows(run[j].loads.table, k.0, run[i].loads.table[k.0])
    ensures Cached(run[i].loads.table, run[i].caches, k).Ok? ==>
              Cached(run[j].loads.table, run[j].caches, k) == Cached(run[i].loads.table, run[i].caches, k)
  {
    hide IsRun, Inv, CachesOK, Cached, Resolve;
    RunKeepsAll(files, run, i, j);
    CachedIsFresh(run[i].loads.table, run[i].caches, k);
    CachedIsFresh(run[j].loads.table, run[j].caches, k);
    if Resolve(run[i].loads.table, run[i].loads.table[k.0], k.1).Ok? {
      ResolveStable(run[i].loads.table, run[j].loads.table, run[i].loads.table[k.0], k.1);
    }
  }

  /** A method that any thread resolves in any run is there: the id fetches, from the class that comes with
      it, a method with the name and descriptor that the class file asks for. */
  lemma {:induction false} InvokedMethodExists(files: Classpath, run: seq<State>, j: nat, k: Key, file: Parsed)
    requires IsRun(files, run) && j < |run| && k.0 in run[j].loads.table
    requires forall n :: n in run[j].loads.table ==> TablesFit(run[j].loads.table[n])
    requires var c := run[j].loads.table[k.0];
             Create(file, c.super) == Ok(c) && (k.1 < |file.pool| ==> !file.pool[k.1].Fieldref?)
    ensures Cached(run[j].loads.table, run[j].caches, k) != Err(Panic)
    ensures match Cached(run[j].loads.table, run[j].caches, k)
            case Ok((owner, MethodAt(id))) =>
              ById(owner, id).Some?
              && exists cn, n, d :: Refers(file, k.1, cn, n, d) && ById(owner, id).value.decl.Named(n, d)
            case Ok((_, FieldAt(_))) => false
            case Err(_) => true
  {
    hide IsRun, CachesOK, Cached, Create, Made, ThreadsOK, LockOK, GotOK, TablesFit, ById, Refers, IsFieldEntry,
      Resolve, ResolveMethod, TableOK;
    var table := run[j].loads.table;
    RunKeepsAll(files, run, j, j);
    CachedIsFresh(table, run[j].caches, k);
    forall n | n in table ensures Made(table[n]) {
      BoundIsMade(files, table, n);
    }
    FieldEntries(file, table[k.0], k.1);
    ResolveIsBoth(table, table[k.0], k.1);
    ResolveMethodFetches(table, file, table[k.0], k.1);
  }

  /** A field that any thread resolves in any run is the one the class file asks for, and its declaration
      decides whether the index that was found fetches it. */
  lemma {:induction false} AccessedFieldExists(files: Classpath, run: seq<State>, j: nat, k: Key, file: Parsed)
    requires IsRun(files, run) && j < |run| && k.0 in run[j].loads.table
    requires TableFieldsReal(run[j].loads.table)
    requires var c := run[j].loads.table[k.0];
             Create(file, c.super) == Ok(c) && k.1 < |file.pool| && file.pool[k.1].Fieldref?
    ensures Cached(run[j].loads.table, run[j].caches, k) != Err(Panic)
    ensures var c := run[j].loads.table[k.0];
            match Cached(run[j].loads.table, run[j].caches, k)
            case Ok((owner, FieldAt(off))) =>
              exists p, cn, n, d :: FieldFetched(run[j].loads.table, file, c, k.1, owner, off, p, cn, n, d)
            case Ok((_, MethodAt(_))) => false
            case Err(_) => true
  {
    hide IsRun, CachesOK, Cached, Create, ThreadsOK, LockOK, GotOK, FieldsReal, FieldFetched, IsFieldEntry, Resolve,
      ResolveField, TableOK;
    var table := run[j].loads.table;
    RunKeepsAll(files, run, j, j);
    CachedIsFresh(table, run[j].caches, k);
    FieldEntries(file, table[k.0], k.1);
    ResolveIsBoth(table, table[k.0], k.1);
    ResolveFieldFetches(table, file, table[k.0], k.1);
  }
}
