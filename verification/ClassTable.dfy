/** The class table under any interleaving of loading threads (src/vm/mod.rs:508-597). A step is one
    section under the table's lock. */
module ClassTable {
  import opened Wrappers
  import opened VMClasses
  import opened ConstantPool
  import opened Members

  type Table = map<string, VMClass>

  /** The class files that can be opened and parsed. */
  type Classpath = string -> Option<Parsed>

  const OBJECT := "java/lang/Object"

  // ----- loading

  /** What a thread returns to: a load that waits for its superclass, or the initialiser of a class. */
  datatype Frame = AwaitSuper(name: string, file: Parsed) | InClinit(name: string, class_: VMClass)

  datatype Phase =
    | Idle
    | Wanting(name: string)                      // not found under the read lock
    | Loading(name: string)                      // at the entry of `load_class_by_name`, lock held
    | Returned(name: string, class_: VMClass)

  datatype Thread = Thread(stack: seq<Frame>, phase: Phase)

  /** `got` is a history variable: every name asked for, with the class that came back. */
  datatype Loads = Loads(table: Table, lock: Option<nat>, threads: seq<Thread>, got: set<(string, VMClass)>)

  function Moved(s: Loads, t: nat, table: Table, lock: Option<nat>, th: Thread): Loads
    requires t < |s.threads|
  {
    Loads(table, lock, s.threads[t := th], s.got)
  }

  /** A class is asked for: by the program, or by an initialiser that runs after a class was inserted. */
  ghost predicate Ask(s: Loads, t: nat, name: string, s': Loads) {
    && t < |s.threads| && s.lock.None?
    && (s.threads[t].phase.Idle? || s.threads[t].phase.Returned?)
    && s' == Moved(s, t, s.table, None, Thread(
         match s.threads[t].phase
         case Returned(n, c) => s.threads[t].stack + [InClinit(n, c)]
         case _ => s.threads[t].stack,
         if name in s.table then Returned(name, s.table[name]) else Wanting(name)))
  }

  ghost predicate Acquire(s: Loads, t: nat, s': Loads) {
    && t < |s.threads| && s.lock.None? && s.threads[t].phase.Wanting?
    && s' == Moved(s, t, s.table, Some(t), Thread(s.threads[t].stack, Loading(s.threads[t].phase.name)))
  }

  /** `create` and insert, then release the lock; an error abandons the load and everything below it. */
  function Insert(s: Loads, t: nat, name: string, file: Parsed, super: Option<VMClass>, stack: seq<Frame>): Loads
    requires t < |s.threads|
  {
    match Create(file, super)
    case Err(_) => Moved(s, t, s.table, None, Thread([], Idle))
    case Ok(c) => Moved(s, t, s.table[name := c], None, Thread(stack, Returned(name, c)))
  }

  /** The body of `load_class_by_name` up to its recursive call, which keeps the lock. */
  function AfterLoad(files: Classpath, s: Loads, t: nat): Loads
    requires t < |s.threads| && s.threads[t].phase.Loading?
  {
    var th := s.threads[t];
    var name := th.phase.name;
    if name in s.table then Moved(s, t, s.table, None, Thread(th.stack, Returned(name, s.table[name]))) else
      match files(name)
      case None => Moved(s, t, s.table, None, Thread([], Idle))
      case Some(file) =>
        if file.superName == "" then Insert(s, t, name, file, None, th.stack)
        else Moved(s, t, s.table, Some(t), Thread(th.stack + [AwaitSuper(name, file)], Loading(file.superName)))
  }

  ghost predicate Load(files: Classpath, s: Loads, t: nat, s': Loads) {
    && t < |s.threads| && s.threads[t].phase.Loading? && s.lock == Some(t)
    && s' == AfterLoad(files, s, t)
  }

  predicate Awaits(th: Thread) {
    th.phase.Returned? && th.stack != [] && th.stack[|th.stack| - 1].AwaitSuper?
  }

  /** The superclass came back: the lock is taken again and the table is looked at again. */
  function AfterResume(s: Loads, t: nat): Loads
    requires t < |s.threads| && Awaits(s.threads[t])
  {
    var th := s.threads[t];
    var top, below := th.stack[|th.stack| - 1], th.stack[..|th.stack| - 1];
    if top.name in s.table then Moved(s, t, s.table, None, Thread(below, Returned(top.name, s.table[top.name])))
    else Insert(s, t, top.name, top.file, Some(th.phase.class_), below)
  }

  ghost predicate Resume(s: Loads, t: nat, s': Loads) {
    && t < |s.threads| && s.lock.None? && Awaits(s.threads[t])
    && s' == AfterResume(s, t)
  }

  /** An initialiser got its class and goes on. */
  ghost predicate Leave(s: Loads, t: nat, s': Loads) {
    && t < |s.threads| && s.threads[t].phase.Returned?
    && var th := s.threads[t];
       && th.stack != [] && th.stack[|th.stack| - 1].InClinit?
       && var f := th.stack[|th.stack| - 1];
          s' == Moved(s, t, s.table, s.lock, Thread(th.stack[..|th.stack| - 1], Returned(f.name, f.class_)))
                .(got := s.got + {(th.phase.name, th.phase.class_)})
  }

  ghost predicate Finish(s: Loads, t: nat, s': Loads) {
    && t < |s.threads| && s.threads[t].phase.Returned? && s.threads[t].stack == []
    && s' == Moved(s, t, s.table, s.lock, Thread([], Idle))
             .(got := s.got + {(s.threads[t].phase.name, s.threads[t].phase.class_)})
  }

  ghost predicate LoaderStep(files: Classpath, s: Loads, s': Loads) {
    exists t: nat :: StepOf(files, s, t, s')
  }

  ghost predicate StepOf(files: Classpath, s: Loads, t: nat, s': Loads) {
    (exists name: string :: Ask(s, t, name, s')) || Progress(files, s, t, s')
  }

  /** A step of a load that was asked for before. */
  ghost predicate Progress(files: Classpath, s: Loads, t: nat, s': Loads) {
    Acquire(s, t, s') || Load(files, s, t, s') || Resume(s, t, s') || Leave(s, t, s') || Finish(s, t, s')
  }

  // ----- the invariant of loading

  /** A bound class is the built-in one, or was created from its class file and from the class that its
      superclass's name is bound to. */
  ghost predicate Bound(files: Classpath, table: Table, name: string)
    requires name in table
  {
    (name == OBJECT && table[name] == JavaLangObject()) ||
    (files(name).Some? &&
     var file := files(name).value;
     if file.superName == "" then Create(file, None) == Ok(table[name])
     else file.superName in table && Create(file, Some(table[file.superName])) == Ok(table[name]))
  }

  ghost predicate TableOK(files: Classpath, table: Table) {
    forall name :: name in table ==> Bound(files, table, name)
  }

  /** Nothing is removed and no name is rebound. */
  ghost predicate Grows(old_: Table, new_: Table) {
    forall name :: name in old_ ==> name in new_ && new_[name] == old_[name]
  }

  ghost predicate Knows(table: Table, name: string, c: VMClass) {
    name in table && table[name] == c
  }

  /** The name that level `k` of a thread is about: its frames, then its phase. */
  function NameAt(th: Thread, k: nat): string
    requires k <= |th.stack|
  {
    if k < |th.stack| then th.stack[k].name else if th.phase.Idle? then "" else th.phase.name
  }

  ghost predicate FrameOK(files: Classpath, table: Table, th: Thread, k: nat)
    requires k < |th.stack|
  {
    match th.stack[k]
    case AwaitSuper(name, file) =>
      files(name) == Some(file) && file.superName != "" && NameAt(th, k + 1) == file.superName
    case InClinit(name, c) => Knows(table, name, c)
  }

  ghost predicate ThreadOK(files: Classpath, table: Table, th: Thread) {
    && (th.phase.Idle? ==> th.stack == [])
    && (th.phase.Returned? ==> Knows(table, th.phase.name, th.phase.class_))
    && forall k :: 0 <= k < |th.stack| ==> FrameOK(files, table, th, k)
  }

  ghost predicate ThreadsOK(files: Classpath, table: Table, threads: seq<Thread>) {
    forall t :: 0 <= t < |threads| ==> ThreadOK(files, table, threads[t])
  }

  ghost predicate LockOK(lock: Option<nat>, threads: seq<Thread>) {
    && (forall t: nat :: t < |threads| ==> (threads[t].phase.Loading? <==> lock == Some(t)))
    && (lock.Some? ==> lock.value < |threads|)
  }

  ghost predicate GotOK(table: Table, got: set<(string, VMClass)>) {
    forall name, c :: (name, c) in got ==> Knows(table, name, c)
  }

  ghost predicate Inv(files: Classpath, s: Loads) {
    && TableOK(files, s.table) && ThreadsOK(files, s.table, s.threads)
    && LockOK(s.lock, s.threads) && GotOK(s.table, s.got)
  }

  lemma {:induction false} BoundStays(files: Classpath, table: Table, name: string, c: VMClass)
    requires TableOK(files, table) && name !in table && Bound(files, table[name := c], name)
    ensures TableOK(files, table[name := c]) && Grows(table, table[name := c])
  {
    hide Create, JavaLangObject;
    var next := table[name := c];
    forall n | n in next ensures Bound(files, next, n) {
      if n != name {
        assert Bound(files, table, n);
      }
    }
  }

  lemma {:induction false} ThreadsStay(files: Classpath, old_: Table, new_: Table, threads: seq<Thread>)
    requires ThreadsOK(files, old_, threads) && Grows(old_, new_)
    ensures ThreadsOK(files, new_, threads)
  {
    hide NameAt;
    forall t | 0 <= t < |threads| ensures ThreadOK(files, new_, threads[t]) {
      var th := threads[t];
      assert ThreadOK(files, old_, th);
      forall k | 0 <= k < |th.stack| ensures FrameOK(files, new_, th, k) {
        assert FrameOK(files, old_, th, k);
      }
    }
  }

  lemma {:induction false} GotStays(old_: Table, new_: Table, got: set<(string, VMClass)>)
    requires GotOK(old_, got) && Grows(old_, new_)
    ensures GotOK(new_, got)
  {
  }

  /** Replacing one thread. */
  lemma {:induction false} MovedOK(files: Classpath, s: Loads, t: nat, table: Table, lock: Option<nat>, th: Thread)
    requires Inv(files, s) && t < |s.threads|
    requires TableOK(files, table) && Grows(s.table, table) && ThreadOK(files, table, th)
    requires th.phase.Loading? <==> lock == Some(t)
    requires lock == Some(t) || lock == None || lock == s.lock
    requires forall u: nat :: u < |s.threads| && u != t ==> (s.threads[u].phase.Loading? <==> lock == Some(u))
    ensures Inv(files, Moved(s, t, table, lock, th))
  {
    hide TableOK, ThreadOK, Grows;
    ThreadsStay(files, s.table, table, s.threads);
    GotStays(s.table, table, s.got);
  }

  /** Frames below the top are about what they were about. */
  lemma {:induction false} PopOK(files: Classpath, table: Table, th: Thread, phase: Phase)
    requires ThreadOK(files, table, th) && th.stack != []
    requires !phase.Idle? && phase.name == th.stack[|th.stack| - 1].name
    requires phase.Returned? ==> Knows(table, phase.name, phase.class_)
    ensures ThreadOK(files, table, Thread(th.stack[..|th.stack| - 1], phase))
  {
    hide Knows;
    var next := Thread(th.stack[..|th.stack| - 1], phase);
    forall k | 0 <= k < |next.stack| ensures FrameOK(files, table, next, k) {
      assert FrameOK(files, table, th, k);
      assert NameAt(th, k + 1) == NameAt(next, k + 1);
    }
  }

  lemma {:induction false} PushOK(files: Classpath, table: Table, th: Thread, f: Frame, phase: Phase)
    requires ThreadOK(files, table, th) && !th.phase.Idle? && f.name == th.phase.name && !phase.Idle?
    requires match f
             case AwaitSuper(name, file) =>
               files(name) == Some(file) && file.superName != "" && phase.name == file.superName
             case InClinit(name, c) => Knows(table, name, c)
    requires phase.Returned? ==> Knows(table, phase.name, phase.class_)
    ensures ThreadOK(files, table, Thread(th.stack + [f], phase))
  {
    hide Knows;
    var next := Thread(th.stack + [f], phase);
    forall k | 0 <= k < |next.stack| ensures FrameOK(files, table, next, k) {
      if k < |th.stack| {
        assert FrameOK(files, table, th, k);
        assert NameAt(th, k + 1) == NameAt(next, k + 1);
      }
    }
  }

  lemma {:induction false} TurnOK(files: Classpath, table: Table, th: Thread, phase: Phase)
    requires ThreadOK(files, table, th) && !th.phase.Idle? && !phase.Idle? && phase.name == th.phase.name
    requires phase.Returned? ==> Knows(table, phase.name, phase.class_)
    ensures ThreadOK(files, table, Thread(th.stack, phase))
  {
    hide Knows;
    var next := Thread(th.stack, phase);
    forall k | 0 <= k < |next.stack| ensures FrameOK(files, table, next, k) {
      assert FrameOK(files, table, th, k);
      assert NameAt(th, k + 1) == NameAt(next, k + 1);
    }
  }

  lemma {:induction false} IdleOK(files: Classpath, table: Table)
    ensures ThreadOK(files, table, Thread([], Idle))
  {
  }

  lemma {:induction false} AskKeeps(files: Classpath, s: Loads, t: nat, name: string, s': Loads)
    requires Inv(files, s) && Ask(s, t, name, s')
    ensures Inv(files, s') && Grows(s.table, s'.table)
  {
    hide TableOK, ThreadOK, GotOK;
    var th := s.threads[t];
    var phase := if name in s.table then Returned(name, s.table[name]) else Wanting(name);
    match th.phase
    case Returned(n, c) =>
      ThreadKnows(files, s.table, th);
      PushOK(files, s.table, th, InClinit(n, c), phase);
      MovedOK(files, s, t, s.table, None, Thread(th.stack + [InClinit(n, c)], phase));
    case Idle =>
      IdleIsEmpty(files, s.table, th, phase);
      MovedOK(files, s, t, s.table, None, Thread(th.stack, phase));
  }

  lemma {:induction false} ThreadKnows(files: Classpath, table: Table, th: Thread)
    requires ThreadOK(files, table, th) && th.phase.Returned?
    ensures Knows(table, th.phase.name, th.phase.class_)
  {
  }

  lemma {:induction false} IdleIsEmpty(files: Classpath, table: Table, th: Thread, phase: Phase)
    requires ThreadOK(files, table, th) && th.phase.Idle? && !phase.Idle?
    requires phase.Returned? ==> Knows(table, phase.name, phase.class_)
    ensures ThreadOK(files, table, Thread(th.stack, phase))
  {
  }

  lemma {:induction false} AcquireKeeps(files: Classpath, s: Loads, t: nat, s': Loads)
    requires Inv(files, s) && Acquire(s, t, s')
    ensures Inv(files, s') && Grows(s.table, s'.table)
  {
    hide TableOK, ThreadOK, GotOK;
    var th := s.threads[t];
    TurnOK(files, s.table, th, Loading(th.phase.name));
    MovedOK(files, s, t, s.table, Some(t), Thread(th.stack, Loading(th.phase.name)));
  }

  /** Creating and inserting a class whose name is free, from its own file and its bound superclass. */
  lemma {:induction false} InsertKeeps(files: Classpath, s: Loads, t: nat, name: string, file: Parsed,
                                       super: Option<VMClass>, stack: seq<Frame>)
    requires Inv(files, s) && t < |s.threads| && name !in s.table && files(name) == Some(file)
    requires if file.superName == "" then super.None? else super.Some? && Knows(s.table, file.superName, super.value)
    requires forall c :: ThreadOK(files, s.table[name := c], Thread(stack, Returned(name, c)))
    requires s.lock.None? || s.lock == Some(t)
    ensures Inv(files, Insert(s, t, name, file, super, stack))
    ensures Grows(s.table, Insert(s, t, name, file, super, stack).table)
  {
    hide Create, ThreadOK, GotOK, TableOK;
    IdleOK(files, s.table);
    match Create(file, super)
    case Err(_) => MovedOK(files, s, t, s.table, None, Thread([], Idle));
    case Ok(c) =>
      var next := s.table[name := c];
      assert Bound(files, next, name);
      BoundStays(files, s.table, name, c);
      MovedOK(files, s, t, next, None, Thread(stack, Returned(name, c)));
  }

  /** A frame stack stays right when the class its top waits for is bound. */
  lemma {:induction false} InsertTurn(files: Classpath, table: Table, th: Thread, name: string)
    requires ThreadOK(files, table, th) && !th.phase.Idle? && th.phase.name == name && name !in table
    ensures forall c :: ThreadOK(files, table[name := c], Thread(th.stack, Returned(name, c)))
  {
    hide ThreadOK;
    forall c ensures ThreadOK(files, table[name := c], Thread(th.stack, Returned(name, c))) {
      var next := table[name := c];
      TurnOK(files, table, th, Wanting(name));
      var wanting := Thread(th.stack, Wanting(name));
      assert ThreadsOK(files, table, [wanting]);
      ThreadsStay(files, table, next, [wanting]);
      assert ThreadOK(files, next, [wanting][0]);
      TurnOK(files, next, wanting, Returned(name, c));
    }
  }

  lemma {:induction false} LoadKeeps(files: Classpath, s: Loads, t: nat, s': Loads)
    requires Inv(files, s) && Load(files, s, t, s')
    ensures Inv(files, s') && Grows(s.table, s'.table)
  {
    hide TableOK, ThreadOK, GotOK, Create, Insert;
    var th := s.threads[t];
    var name := th.phase.name;
    if name in s.table {
      TurnOK(files, s.table, th, Returned(name, s.table[name]));
      MovedOK(files, s, t, s.table, None, Thread(th.stack, Returned(name, s.table[name])));
    } else {
      IdleOK(files, s.table);
      match files(name)
      case None => MovedOK(files, s, t, s.table, None, Thread([], Idle));
      case Some(file) =>
        if file.superName == "" {
          InsertTurn(files, s.table, th, name);
          InsertKeeps(files, s, t, name, file, None, th.stack);
        } else {
          PushOK(files, s.table, th, AwaitSuper(name, file), Loading(file.superName));
          MovedOK(files, s, t, s.table, Some(t), Thread(th.stack + [AwaitSuper(name, file)], Loading(file.superName)));
        }
    }
  }

  lemma {:induction false} ResumeKeeps(files: Classpath, s: Loads, t: nat, s': Loads)
    requires Inv(files, s) && Resume(s, t, s')
    ensures Inv(files, s') && Grows(s.table, s'.table)
  {
    hide TableOK, ThreadOK, GotOK, Create, Insert;
    var th := s.threads[t];
    var top := th.stack[|th.stack| - 1];
    var name, below := top.name, th.stack[..|th.stack| - 1];
    ThreadKnows(files, s.table, th);
    TopAwaits(files, s.table, th);
    if name in s.table {
      PopOK(files, s.table, th, Returned(name, s.table[name]));
      MovedOK(files, s, t, s.table, None, Thread(below, Returned(name, s.table[name])));
    } else {
      PopOK(files, s.table, th, Wanting(name));
      InsertTurn(files, s.table, Thread(below, Wanting(name)), name);
      InsertKeeps(files, s, t, name, top.file, Some(th.phase.class_), below);
    }
  }

  /** What comes back to a load is the superclass it waits for. */
  lemma {:induction false} TopAwaits(files: Classpath, table: Table, th: Thread)
    requires ThreadOK(files, table, th) && th.phase.Returned? && th.stack != [] && th.stack[|th.stack| - 1].AwaitSuper?
    ensures var top := th.stack[|th.stack| - 1];
            files(top.name) == Some(top.file) && top.file.superName != "" && th.phase.name == top.file.superName
  {
    assert FrameOK(files, table, th, |th.stack| - 1);
  }

  lemma {:induction false} LeaveKeeps(files: Classpath, s: Loads, t: nat, s': Loads)
    requires Inv(files, s) && Leave(s, t, s')
    ensures Inv(files, s') && Grows(s.table, s'.table)
  {
    hide TableOK, ThreadOK;
    var th := s.threads[t];
    var f := th.stack[|th.stack| - 1];
    ThreadKnows(files, s.table, th);
    ClinitKnows(files, s.table, th);
    PopOK(files, s.table, th, Returned(f.name, f.class_));
    MovedOK(files, s, t, s.table, s.lock, Thread(th.stack[..|th.stack| - 1], Returned(f.name, f.class_)));
  }

  lemma {:induction false} ClinitKnows(files: Classpath, table: Table, th: Thread)
    requires ThreadOK(files, table, th) && th.stack != [] && th.stack[|th.stack| - 1].InClinit?
    ensures Knows(table, th.stack[|th.stack| - 1].name, th.stack[|th.stack| - 1].class_)
  {
    assert FrameOK(files, table, th, |th.stack| - 1);
  }

  lemma {:induction false} FinishKeeps(files: Classpath, s: Loads, t: nat, s': Loads)
    requires Inv(files, s) && Finish(s, t, s')
    ensures Inv(files, s') && Grows(s.table, s'.table)
  {
    hide TableOK, ThreadOK;
    ThreadKnows(files, s.table, s.threads[t]);
    IdleOK(files, s.table);
    MovedOK(files, s, t, s.table, s.lock, Thread([], Idle));
  }

  /** Every step of every thread keeps the invariant and rebinds no name. */
  lemma {:induction false} StepKeeps(files: Classpath, s: Loads, s': Loads)
    requires Inv(files, s) && LoaderStep(files, s, s')
    ensures Inv(files, s') && Grows(s.table, s'.table)
  {
    hide Inv, Ask, Acquire, Load, Resume, Leave, Finish, Grows;
    var t: nat :| StepOf(files, s, t, s');
    if name: string :| Ask(s, t, name, s') {
      AskKeeps(files, s, t, name, s');
    } else if Acquire(s, t, s') {
      AcquireKeeps(files, s, t, s');
    } else if Load(files, s, t, s') {
      LoadKeeps(files, s, t, s');
    } else if Resume(s, t, s') {
      ResumeKeeps(files, s, t, s');
    } else if Leave(s, t, s') {
      LeaveKeeps(files, s, t, s');
    } else {
      FinishKeeps(files, s, t, s');
    }
  }

  /** No deadlock: when a thread is not idle, it or the thread that holds the lock can go on with what it was
      doing. */
  lemma {:induction false} NeverStuck(files: Classpath, s: Loads, t: nat)
    requires Inv(files, s) && t < |s.threads| && !s.threads[t].phase.Idle?
    ensures var u := if s.lock.Some? then s.lock.value else t;
            u < |s.threads| && !s.threads[u].phase.Idle? && exists s' :: Progress(files, s, u, s')
  {
    hide TableOK, ThreadsOK, GotOK, AfterLoad, AfterResume;
    if s.lock.Some? {
      var s' := AfterLoad(files, s, s.lock.value);
      assert Progress(files, s, s.lock.value, s');
    } else {
      var th := s.threads[t];
      match th.phase
      case Wanting(name) =>
        var s' := Moved(s, t, s.table, Some(t), Thread(th.stack, Loading(name)));
        assert Progress(files, s, t, s');
      case Returned(name, c) => ReturnedCanStep(files, s, t);
    }
  }

  lemma {:induction false} ReturnedCanStep(files: Classpath, s: Loads, t: nat)
    requires t < |s.threads| && s.threads[t].phase.Returned? && s.lock.None?
    ensures exists s' :: Progress(files, s, t, s')
  {
    hide AfterResume;
    var th := s.threads[t];
    var got := s.got + {(th.phase.name, th.phase.class_)};
    if th.stack == [] {
      var s' := Moved(s, t, s.table, s.lock, Thread([], Idle)).(got := got);
      assert Progress(files, s, t, s');
    } else if Awaits(th) {
      var s' := AfterResume(s, t);
      assert Progress(files, s, t, s');
    } else {
      var f := th.stack[|th.stack| - 1];
      var next := Thread(th.stack[..|th.stack| - 1], Returned(f.name, f.class_));
      var s' := Moved(s, t, s.table, s.lock, next).(got := got);
      assert Progress(files, s, t, s');
    }
  }

  // ----- when a load ends

  /** The descent to the superclasses stops at this name: it is bound, or has no file, or no superclass. */
  predicate Stops(files: Classpath, table: Table, name: string) {
    name in table || files(name).None? || files(name).value.superName == ""
  }

  /** It stops at most `n` superclasses above this name. */
  predicate EndsIn(files: Classpath, table: Table, name: string, n: nat)
    decreases n
  {
    Stops(files, table, name) || (n > 0 && EndsIn(files, table, files(name).value.superName, n - 1))
  }

  /** The next `n` steps of a thread that holds the lock, as long as it is loading. */
  function LoadSteps(files: Classpath, s: Loads, t: nat, n: nat): (after: Loads)
    requires t < |s.threads|
    ensures t < |after.threads|
    decreases n
  {
    if n == 0 || !s.threads[t].phase.Loading? then s else LoadSteps(files, AfterLoad(files, s, t), t, n - 1)
  }

  /** While a thread holds the lock no step of another thread changes the table, the lock, or the thread: the
      steps above are the only ones that it can take. */
  lemma {:induction false} HolderIsAlone(files: Classpath, s: Loads, t: nat, u: nat, s': Loads)
    requires s.lock == Some(t) && t < |s.threads| && StepOf(files, s, u, s')
    ensures if u != t then s'.table == s.table && s'.lock == s.lock && s'.threads[t] == s.threads[t]
            else s.threads[t].phase.Loading? ==> s' == AfterLoad(files, s, t)
  {
    hide AfterLoad, AfterResume;
  }

  /** One step of the descent. */
  lemma {:induction false} LoadStep(files: Classpath, s: Loads, t: nat)
    requires t < |s.threads| && s.threads[t].phase.Loading?
    ensures |AfterLoad(files, s, t).threads| == |s.threads|
    ensures var name, after := s.threads[t].phase.name, AfterLoad(files, s, t);
            if Stops(files, s.table, name) then !after.threads[t].phase.Loading?
            else
              && after.threads[t].phase == Loading(files(name).value.superName)
              && after.table == s.table && after.lock == Some(t)
              && |after.threads[t].stack| == |s.threads[t].stack| + 1
  {
    hide Create;
  }

  /** After one step more than the number of superclasses that it may pass, the descent has ended, or not. */
  lemma {:induction false} StepsExact(files: Classpath, s: Loads, t: nat, n: nat)
    requires t < |s.threads| && s.threads[t].phase.Loading?
    ensures !LoadSteps(files, s, t, n + 1).threads[t].phase.Loading? <==>
              EndsIn(files, s.table, s.threads[t].phase.name, n)
    decreases n
  {
    hide AfterLoad;
    LoadStep(files, s, t);
    var after := AfterLoad(files, s, t);
    if !Stops(files, s.table, s.threads[t].phase.name) && n > 0 {
      StepsExact(files, after, t, n - 1);
    }
  }

  /** The descent of a load ends exactly when, from its name on, following the superclasses in the class files
      leads in finitely many steps to a bound name, a name without a file, or a class without a superclass. */
  lemma {:induction false} LoadEndsExact(files: Classpath, s: Loads, t: nat)
    requires t < |s.threads| && s.threads[t].phase.Loading?
    ensures (exists n: nat :: !LoadSteps(files, s, t, n).threads[t].phase.Loading?) <==>
              exists n: nat :: EndsIn(files, s.table, s.threads[t].phase.name, n)
  {
    hide EndsIn;
    var name := s.threads[t].phase.name;
    if n: nat :| !LoadSteps(files, s, t, n).threads[t].phase.Loading? {
      assert n > 0;
      StepsExact(files, s, t, n - 1);
      assert EndsIn(files, s.table, name, n - 1);
    }
    if n: nat :| EndsIn(files, s.table, name, n) {
      StepsExact(files, s, t, n);
      assert !LoadSteps(files, s, t, n + 1).threads[t].phase.Loading?;
    }
  }

  /** The superclass of every one of these names is one of them: a cycle, or a chain that never ends. */
  ghost predicate Endless(files: Classpath, table: Table, names: iset<string>) {
    forall name :: name in names ==> !Stops(files, table, name) && files(name).value.superName in names
  }

  lemma {:induction false} EndlessNeverEnds(files: Classpath, table: Table, names: iset<string>, name: string, n: nat)
    requires Endless(files, table, names) && name in names
    ensures !EndsIn(files, table, name, n)
    decreases n
  {
    if n > 0 {
      EndlessNeverEnds(files, table, names, files(name).value.superName, n - 1);
    }
  }

  /** A load of a name from such a chain goes on for ever: after any number of steps it is as many superclasses
      deeper, holds the lock, and has bound nothing. In the source the recursion overflows the stack. */
  lemma {:induction false} EndlessLoad(files: Classpath, names: iset<string>, s: Loads, t: nat, n: nat)
    requires Endless(files, s.table, names) && t < |s.threads|
    requires s.threads[t].phase.Loading? && s.threads[t].phase.name in names && s.lock == Some(t)
    ensures var after := LoadSteps(files, s, t, n);
            && after.threads[t].phase.Loading? && after.threads[t].phase.name in names
            && |after.threads[t].stack| == |s.threads[t].stack| + n
            && after.lock == Some(t) && after.table == s.table
    decreases n
  {
    hide AfterLoad;
    if n > 0 {
      LoadStep(files, s, t);
      EndlessLoad(files, names, AfterLoad(files, s, t), t, n - 1);
    }
  }

  /** Two class files that name each other as superclass. */
  function TwoFiles(name: string): Option<Parsed> {
    if name == "A" then Some(Parsed("A", "B", [], [], []))
    else if name == "B" then Some(Parsed("B", "A", [], [], []))
    else None
  }

  /** A concrete class path on which a load never ends. */
  lemma {:induction false} CycleNeverLoads(s: Loads, t: nat, n: nat)
    requires t < |s.threads| && s.threads[t].phase == Loading("A") && s.lock == Some(t)
    requires s.table == map[OBJECT := JavaLangObject()]
    ensures LoadSteps(TwoFiles, s, t, n).threads[t].phase.Loading?
    ensures !EndsIn(TwoFiles, s.table, "A", n)
  {
    hide JavaLangObject, LoadSteps, EndsIn;
    var names := iset{"A", "B"};
    assert Endless(TwoFiles, s.table, names);
    EndlessLoad(TwoFiles, names, s, t, n);
    EndlessNeverEnds(TwoFiles, s.table, names, "A", n);
  }

  // ----- what a load comes to

  /** The class that a name means, through at most `n` superclasses: the one it is bound to, or the one made from its
      class file and from what its superclass means; none when a file is missing or a class cannot be made. */
  function Meaning(files: Classpath, table: Table, name: string, n: nat): Option<VMClass>
    decreases n
  {
    if name in table then Some(table[name])
    else if files(name).None? then None
    else
      var file := files(name).value;
      if file.superName == "" then CreatedOf(file, None)
      else if n == 0 then None
      else
        match Meaning(files, table, file.superName, n - 1)
        case None => None
        case Some(super) => CreatedOf(file, Some(super))
  }

  function CreatedOf(file: Parsed, super: Option<VMClass>): Option<VMClass> {
    match Create(file, super) case Ok(c) => Some(c) case Err(_) => None
  }

  /** The next step of a thread that loads, or whose superclass came back, when no other thread comes between. */
  function SoloStep(files: Classpath, s: Loads, t: nat): (after: Loads)
    requires t < |s.threads|
    ensures |after.threads| == |s.threads|
  {
    if s.threads[t].phase.Loading? && s.lock == Some(t) then AfterLoad(files, s, t)
    else if s.lock.None? && Awaits(s.threads[t]) then AfterResume(s, t)
    else s
  }

  function Solo(files: Classpath, s: Loads, t: nat, k: nat): (after: Loads)
    requires t < |s.threads|
    ensures |after.threads| == |s.threads|
    decreases k
  {
    if k == 0 then s else Solo(files, SoloStep(files, s, t), t, k - 1)
  }

  /** These are steps of the transition system. */
  lemma {:induction false} SoloIsStep(files: Classpath, s: Loads, t: nat)
    requires t < |s.threads| && SoloStep(files, s, t) != s
    ensures StepOf(files, s, t, SoloStep(files, s, t))
  {
    hide AfterLoad, AfterResume;
    assert Progress(files, s, t, SoloStep(files, s, t));
  }

  lemma {:induction false} SoloTwice(files: Classpath, s: Loads, t: nat, j: nat, k: nat)
    requires t < |s.threads|
    ensures Solo(files, Solo(files, s, t, j), t, k) == Solo(files, s, t, j + k)
    decreases j
  {
    hide SoloStep;
    if j > 0 {
      SoloTwice(files, SoloStep(files, s, t), t, j - 1, k);
    }
  }

  /** Where a load that began in `s` with this stack below it has come to: the lock is free, and the class that the name
      means is bound to it and handed to what is below; or the load has failed, and all loads below it with it. */
  ghost predicate Loaded(files: Classpath, s: Loads, t: nat, name: string, n: nat, s': Loads)
    requires t < |s.threads|
  {
    && s'.lock.None? && s'.got == s.got && Grows(s.table, s'.table)
    && (forall x :: x in s'.table && x !in s.table ==> EndsIn(files, s.table, x, n))
    && match Meaning(files, s.table, name, n)
       case Some(c) => s'.threads == s.threads[t := Thread(s.threads[t].stack, Returned(name, c))]
                       && Knows(s'.table, name, c)
       case None => s'.threads == s.threads[t := Thread([], Idle)]
  }

  /** A load computes the meaning of its name: the steps down to the superclasses and back up again bind every class on
      the way, and end in `Loaded`. `n` is how many superclasses there are above the name. */
  lemma {:induction false} LoadBinds(files: Classpath, s: Loads, t: nat, n: nat) returns (k: nat)
    requires t < |s.threads| && s.threads[t].phase.Loading? && s.lock == Some(t)
    requires EndsIn(files, s.table, s.threads[t].phase.name, n)
    requires n > 0 ==> !EndsIn(files, s.table, s.threads[t].phase.name, n - 1)
    ensures Loaded(files, s, t, s.threads[t].phase.name, n, Solo(files, s, t, k))
    decreases n
  {
    hide Create, Loaded, SoloStep;
    var name := s.threads[t].phase.name;
    if Stops(files, s.table, name) {
      k := 1;
      LoadStops(files, s, t, n);
      assert Solo(files, s, t, 1) == Solo(files, SoloStep(files, s, t), t, 0) == SoloStep(files, s, t);
    } else {
      var s1 := SoloStep(files, s, t);
      Descends(files, s, t);
      NotSooner(files, s.table, name, n);
      var j := LoadBinds(files, s1, t, n - 1);
      var s2 := Solo(files, s1, t, j);
      SoloTwice(files, s, t, 1, j);
      assert Solo(files, s, t, 1) == Solo(files, s1, t, 0) == s1;
      if Meaning(files, s.table, files(name).value.superName, n - 1).None? {
        k := 1 + j;
        Abandoned(files, s, t, n, s2);
      } else {
        k := 1 + j + 1;
        SoloTwice(files, s, t, 1 + j, 1);
        assert Solo(files, s2, t, 1) == Solo(files, SoloStep(files, s2, t), t, 0) == SoloStep(files, s2, t);
        GoesBack(files, s, t, n, s2);
      }
    }
  }

  lemma {:induction false} LoadStops(files: Classpath, s: Loads, t: nat, n: nat)
    requires t < |s.threads| && s.threads[t].phase.Loading? && s.lock == Some(t)
    requires Stops(files, s.table, s.threads[t].phase.name)
    ensures Loaded(files, s, t, s.threads[t].phase.name, n, SoloStep(files, s, t))
  {
    hide Create;
  }

  lemma {:induction false} Descends(files: Classpath, s: Loads, t: nat)
    requires t < |s.threads| && s.threads[t].phase.Loading? && s.lock == Some(t)
    requires !Stops(files, s.table, s.threads[t].phase.name)
    ensures var name := s.threads[t].phase.name;
            var file := files(name).value;
            var th := Thread(s.threads[t].stack + [AwaitSuper(name, file)], Loading(file.superName));
            SoloStep(files, s, t) == Loads(s.table, Some(t), s.threads[t := th], s.got)
  {
  }

  /** The superclass is one step nearer to the end, and no nearer. */
  lemma {:induction false} NotSooner(files: Classpath, table: Table, name: string, n: nat)
    requires EndsIn(files, table, name, n) && !Stops(files, table, name)
    requires n > 0 ==> !EndsIn(files, table, name, n - 1)
    ensures n > 0 && EndsIn(files, table, files(name).value.superName, n - 1)
    ensures n > 1 ==> !EndsIn(files, table, files(name).value.superName, n - 2)
  {
  }

  lemma {:induction false} EndsLater(files: Classpath, table: Table, name: string, n: nat)
    requires EndsIn(files, table, name, n)
    ensures EndsIn(files, table, name, n + 1)
    decreases n
  {
    if !Stops(files, table, name) {
      EndsLater(files, table, files(name).value.superName, n - 1);
    }
  }

  lemma {:induction false} Abandoned(files: Classpath, s: Loads, t: nat, n: nat, s2: Loads)
    requires t < |s.threads| && s.threads[t].phase.Loading? && s.lock == Some(t) && n > 0
    requires !Stops(files, s.table, s.threads[t].phase.name)
    requires var super := files(s.threads[t].phase.name).value.superName;
             && Meaning(files, s.table, super, n - 1).None?
             && Loaded(files, SoloStep(files, s, t), t, super, n - 1, s2)
    ensures Loaded(files, s, t, s.threads[t].phase.name, n, s2)
  {
    hide Create, EndsIn, SoloStep;
    Descends(files, s, t);
    forall x | x in s2.table && x !in s.table ensures EndsIn(files, s.table, x, n) {
      EndsLater(files, s.table, x, n - 1);
    }
  }

  lemma {:induction false} GoesBack(files: Classpath, s: Loads, t: nat, n: nat, s2: Loads)
    requires t < |s.threads| && s.threads[t].phase.Loading? && s.lock == Some(t) && n > 0
    requires var name := s.threads[t].phase.name;
             !Stops(files, s.table, name) && EndsIn(files, s.table, name, n) && !EndsIn(files, s.table, name, n - 1)
    requires var super := files(s.threads[t].phase.name).value.superName;
             && Meaning(files, s.table, super, n - 1).Some?
             && Loaded(files, SoloStep(files, s, t), t, super, n - 1, s2)
    ensures |s2.threads| == |s.threads|
    ensures Loaded(files, s, t, s.threads[t].phase.name, n, SoloStep(files, s2, t))
  {
    hide Create, EndsIn;
    Descends(files, s, t);
    var name := s.threads[t].phase.name;
    var th := s2.threads[t];
    assert th.stack[..|th.stack| - 1] == s.threads[t].stack;
    assert name !in s2.table;
    forall x | x in s2.table && x !in s.table ensures EndsIn(files, s.table, x, n) {
      EndsLater(files, s.table, x, n - 1);
    }
  }

  lemma {:induction false} LeastEnd(files: Classpath, table: Table, name: string, n: nat) returns (m: nat)
    requires EndsIn(files, table, name, n)
    ensures m <= n && EndsIn(files, table, name, m) && (m > 0 ==> !EndsIn(files, table, name, m - 1))
  {
    hide EndsIn;
    m := n;
    while m > 0 && EndsIn(files, table, name, m - 1)
      invariant m <= n && EndsIn(files, table, name, m)
    {
      m := m - 1;
    }
  }

  lemma {:induction false} MeaningStays(files: Classpath, table: Table, name: string, m: nat, n: nat)
    requires EndsIn(files, table, name, m) && m <= n
    ensures Meaning(files, table, name, n) == Meaning(files, table, name, m)
    decreases m
  {
    hide Create;
    if !Stops(files, table, name) {
      MeaningStays(files, table, files(name).value.superName, m - 1, n - 1);
    }
  }

  /** A class that an idle thread asks for, when nothing comes between: it gets the class that the name is bound to, or
      takes the lock and loads it, and then gets what the name means, which is bound to the name from then on; or the
      load fails because there is no such class. */
  lemma {:induction false} AskedIsLoaded(files: Classpath, s: Loads, t: nat, name: string, n: nat)
      returns (asked: Loads, acquired: Loads, k: nat, done: Loads)
    requires t < |s.threads| && s.lock.None? && s.threads[t] == Thread([], Idle)
    requires EndsIn(files, s.table, name, n)
    ensures Ask(s, t, name, asked) && |done.threads| == |s.threads|
    ensures name in s.table ==> Finish(asked, t, done) && done == s.(got := s.got + {(name, s.table[name])})
    ensures name !in s.table ==>
              && Acquire(asked, t, acquired)
              && match Meaning(files, s.table, name, n)
                 case Some(c) =>
                   && Finish(Solo(files, acquired, t, k), t, done) && done.threads == s.threads
                   && done.lock.None? && Knows(done.table, name, c) && (name, c) in done.got
                 case None =>
                   && done == Solo(files, acquired, t, k) && done.threads == s.threads && done.lock.None?
  {
    hide Create, Solo, Meaning, EndsIn;
    if name in s.table {
      asked := Moved(s, t, s.table, None, Thread([], Returned(name, s.table[name])));
      done := s.(got := s.got + {(name, s.table[name])});
      assert asked.threads[t := Thread([], Idle)] == s.threads;
      acquired, k := s, 0;
    } else {
      asked := Moved(s, t, s.table, None, Thread([], Wanting(name)));
      acquired := Moved(asked, t, s.table, Some(t), Thread([], Loading(name)));
      var m := LeastEnd(files, s.table, name, n);
      MeaningStays(files, s.table, name, m, n);
      k := LoadBinds(files, acquired, t, m);
      var loaded := Solo(files, acquired, t, k);
      done := match Meaning(files, s.table, name, n)
        case Some(c) => Moved(loaded, t, loaded.table, None, Thread([], Idle)).(got := loaded.got + {(name, c)})
        case None => loaded;
      assert done.threads == s.threads;
    }
  }

  /** An initialiser that asks for a bound class gets it, and then the load that it interrupted goes on where it was. */
  lemma {:induction false} InitialiserReturns(s: Loads, t: nat, name: string) returns (asked: Loads, back: Loads)
    requires t < |s.threads| && s.lock.None? && s.threads[t].phase.Returned? && name in s.table
    ensures Ask(s, t, name, asked) && asked.threads[t].phase == Returned(name, s.table[name])
    ensures Leave(asked, t, back) && back == s.(got := s.got + {(name, s.table[name])})
  {
    var th := s.threads[t];
    asked := Moved(s, t, s.table, None, Thread(th.stack + [InClinit(th.phase.name, th.phase.class_)],
                                               Returned(name, s.table[name])));
    back := s.(got := s.got + {(name, s.table[name])});
    var stack := asked.threads[t].stack;
    assert stack[..|stack| - 1] == th.stack;
    assert asked.threads[t := th] == s.threads;
  }

  // ----- whole runs

  ghost predicate Initial(s: Loads) {
    && s.table == map[OBJECT := JavaLangObject()] && s.lock.None? && s.got == {}
    && forall t :: 0 <= t < |s.threads| ==> s.threads[t] == Thread([], Idle)
  }

  lemma {:induction false} InitialOK(files: Classpath, s: Loads)
    requires Initial(s)
    ensures Inv(files, s) && s.table.Keys == {"java/lang/Object"}
  {
  }

  /** A name that a step binds gets a class made from its own file and from a superclass that was bound
      before the step. */
  lemma {:induction false} SuperclassFirst(files: Classpath, s: Loads, s': Loads, name: string)
    requires Inv(files, s) && LoaderStep(files, s, s') && name !in s.table && name in s'.table
    ensures files(name).Some?
    ensures var file := files(name).value;
            if file.superName == "" then Create(file, None) == Ok(s'.table[name])
            else file.superName in s.table && Create(file, Some(s.table[file.superName])) == Ok(s'.table[name])
  {
    hide TableOK, ThreadOK, GotOK, Create;
    var t: nat :| StepOf(files, s, t, s');
    if Resume(s, t, s') {
      ThreadKnows(files, s.table, s.threads[t]);
      TopAwaits(files, s.table, s.threads[t]);
    }
  }

  /** Every bound class is made, with all its superclasses, by `create`. */
  lemma {:induction false} BoundIsMade(files: Classpath, table: Table, name: string)
    requires TableOK(files, table) && name in table
    ensures Made(table[name])
    decreases table[name]
  {
    hide Link, VtableOf, StaticsOf, FieldsOf, JavaLangObject;
    assert Bound(files, table, name);
    var c := table[name];
    if c != JavaLangObject() {
      var file := files(name).value;
      if file.superName == "" {
        assert Create(file, c.super) == Ok(c);
      } else {
        assert c.super == Some(table[file.superName]);
        BoundIsMade(files, table, file.superName);
        assert Create(file, c.super) == Ok(c);
      }
    }
  }
}
