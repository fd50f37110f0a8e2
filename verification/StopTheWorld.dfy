/** The stop-the-world protocol between the mutator threads and the collector (src/vm/heap.rs:28-72,
    137-159): one lock, one flag, two condition variables and two counters. Everything done under the
    lock is one step; the read of the flag in `safepoint` is the only unlocked one. */
module StopTheWorld {

  type Tid = nat

  /** What a parked thread does once the world goes on. */
  datatype After = Resume | ThenAllocate(reachesThreshold: bool)

  /** Where a mutator is. `Entering` has read the flag as set but does not hold the lock yet; a woken
      thread still has to take the lock and look at the flag again. */
  datatype Mutator = Outside | Running | Entering | Parked(after: After, woken: bool)

  datatype Collector = Starting | Waiting | Notified

  datatype State = State(
    flag: bool,
    heapThreads: nat,
    parkedThreads: nat,
    mutators: map<Tid, Mutator>,
    collector: Collector
  )

  datatype Step =
    | Register(t: Tid)
    | Unregister(t: Tid)
    | Allocate(t: Tid, reachesThreshold: bool)
    | ReadFlag(t: Tid)
    | EnterSafepoint(t: Tid)
    | WakeUp(t: Tid)
    | SpuriousWake(t: Tid)
    | CollectorStart
    | CollectorWake
    | CollectorSpuriousWake

  /** A step is not possible, or it fails the assertion at the head of `try_gc`, or it is taken. */
  datatype Outcome = Impossible | AssertionFails | Taken(state: State)

  /** At the start the main thread is registered and the collector has not taken the lock yet. */
  predicate Init(s: State) {
    && !s.flag && s.heapThreads == 1 && s.parkedThreads == 0 && s.collector == Starting
    && 0 in s.mutators && s.mutators[0] == Running
    && forall t :: t in s.mutators && t != 0 ==> s.mutators[t] == Outside
  }

  /** `GC_THREAD.notify_all()`: lost on a collector that is not waiting. */
  function NotifyCollector(s: State): State {
    if s.collector == Waiting then s.(collector := Notified) else s
  }

  /** What a thread does with the lock when it goes on: `set_gc_flags` may raise the flag. */
  function GoOn(s: State, t: Tid, after: After): State {
    s.(mutators := s.mutators[t := Running],
       flag := s.flag || (after.ThenAllocate? && after.reachesThreshold))
  }

  /** `stop_the_world_inner`, up to the wait. */
  function Park(s: State, t: Tid, after: After): State {
    var s1 := s.(parkedThreads := s.parkedThreads + 1);
    var s2 := if s1.parkedThreads >= s1.heapThreads then NotifyCollector(s1) else s1;
    if s2.flag then s2.(mutators := s2.mutators[t := Parked(after, false)])
    else GoOn(s2.(parkedThreads := s.parkedThreads), t, after)
  }

  function WakeAll(mutators: map<Tid, Mutator>): map<Tid, Mutator> {
    map t | t in mutators ::
      match mutators[t]
      case Parked(after, _) => Parked(after, true)
      case m => m
  }

  /** The collector holds the lock and tests its wait condition: with the flag down it waits, otherwise
      it collects, lowers the flag, wakes everyone, and waits again. */
  function CollectorHasLock(s: State): Outcome {
    if !s.flag then
      Taken(s.(collector := Waiting))
    else if s.heapThreads != s.parkedThreads then
      AssertionFails
    else
      Taken(s.(flag := false, mutators := WakeAll(s.mutators), collector := Waiting))
  }

  function Next(s: State, step: Step): Outcome {
    match step
    case Register(t) =>
      if t !in s.mutators || s.mutators[t] != Outside then Impossible
      else
        var s1 := s.(heapThreads := s.heapThreads + 1, mutators := s.mutators[t := Running]);
        Taken(if s1.flag then Park(s1, t, Resume) else s1)
    case Unregister(t) =>
      if t !in s.mutators || s.mutators[t] != Running || s.heapThreads == 0 then Impossible
      else
        var s1 := s.(heapThreads := s.heapThreads - 1, mutators := s.mutators[t := Outside]);
        Taken(if s1.flag && s1.parkedThreads >= s1.heapThreads then NotifyCollector(s1) else s1)
    case Allocate(t, hits) =>
      if t !in s.mutators || s.mutators[t] != Running then Impossible
      else Taken(if s.flag then Park(s, t, ThenAllocate(hits)) else GoOn(s, t, ThenAllocate(hits)))
    case ReadFlag(t) =>
      if t !in s.mutators || s.mutators[t] != Running then Impossible
      else Taken(if s.flag then s.(mutators := s.mutators[t := Entering]) else s)
    case EnterSafepoint(t) =>
      if t !in s.mutators || s.mutators[t] != Entering then Impossible
      else Taken(Park(s, t, Resume))
    case WakeUp(t) =>
      if t !in s.mutators || !s.mutators[t].Parked? || !s.mutators[t].woken || s.parkedThreads == 0 then Impossible
      else if s.flag then Taken(s.(mutators := s.mutators[t := Parked(s.mutators[t].after, false)]))
      else Taken(GoOn(s.(parkedThreads := s.parkedThreads - 1), t, s.mutators[t].after))
    case SpuriousWake(t) =>
      if t !in s.mutators || !s.mutators[t].Parked? then Impossible
      else Taken(s.(mutators := s.mutators[t := Parked(s.mutators[t].after, true)]))
    case CollectorStart =>
      if s.collector != Starting then Impossible else CollectorHasLock(s)
    case CollectorWake =>
      if s.collector != Notified then Impossible else CollectorHasLock(s)
    case CollectorSpuriousWake =>
      if s.collector != Waiting then Impossible else Taken(s.(collector := Notified))
  }

  // ----- invariants

  ghost function Registered(mutators: map<Tid, Mutator>): set<Tid> {
    set t | t in mutators && mutators[t] != Outside
  }

  ghost function ParkedSet(mutators: map<Tid, Mutator>): set<Tid> {
    set t | t in mutators && mutators[t].Parked?
  }

  /** The counters are the numbers of registered and of parked threads; a thread that entered a
      safepoint still finds the flag set, and nobody sleeps with the flag down; and when everyone is
      parked the collector is about to run. This holds in every run, whatever wakes up. */
  ghost predicate Bookkeeping(s: State) {
    && s.heapThreads == |Registered(s.mutators)|
    && s.parkedThreads == |ParkedSet(s.mutators)|
    && (forall t :: t in s.mutators && s.mutators[t] == Entering ==> s.flag)
    && (forall t :: t in s.mutators && s.mutators[t].Parked? && !s.mutators[t].woken ==> s.flag)
    && (s.flag && s.parkedThreads == s.heapThreads ==> s.collector != Waiting)
  }

  /** A notified collector finds the world stopped. */
  ghost predicate NotifiedInTime(s: State) {
    s.collector == Notified ==> s.flag && s.parkedThreads == s.heapThreads
  }

  /** How one thread's step changes the two counts. */
  lemma {:induction false} SetsUpdate(mutators: map<Tid, Mutator>, t: Tid, m: Mutator)
    requires t in mutators
    ensures |Registered(mutators[t := m])| + (if mutators[t] != Outside then 1 else 0)
         == |Registered(mutators)| + (if m != Outside then 1 else 0)
    ensures |ParkedSet(mutators[t := m])| + (if mutators[t].Parked? then 1 else 0)
         == |ParkedSet(mutators)| + (if m.Parked? then 1 else 0)
    ensures |ParkedSet(mutators)| + (if mutators[t] != Outside && !mutators[t].Parked? then 1 else 0)
         <= |Registered(mutators)|
  {
    SizesUpdate(Registered(mutators), Registered(mutators[t := m]), t);
    SizesUpdate(ParkedSet(mutators), ParkedSet(mutators[t := m]), t);
    SubsetSize(ParkedSet(mutators), Registered(mutators));
    if mutators[t] != Outside && !mutators[t].Parked? {
      SubsetSize(ParkedSet(mutators) + {t}, Registered(mutators));
    }
  }

  lemma {:induction false} SizesUpdate(a: set<Tid>, b: set<Tid>, t: Tid)
    requires forall u :: u != t ==> (u in a <==> u in b)
    ensures |b| + (if t in a then 1 else 0) == |a| + (if t in b then 1 else 0)
  {
    assert a - {t} == b - {t};
    RemoveSize(a, t);
    RemoveSize(b, t);
  }

  lemma {:induction false} RemoveSize(a: set<Tid>, t: Tid)
    ensures |a| == |a - {t}| + if t in a then 1 else 0
  {
  }

  lemma {:induction false} SubsetSize(a: set<Tid>, b: set<Tid>)
    requires a <= b
    ensures |a| <= |b|
    ensures |a| == |b| ==> a == b
  {
    assert b == a + (b - a);
  }

  lemma {:induction false} InitHolds(s: State)
    requires Init(s)
    ensures Bookkeeping(s) && NotifiedInTime(s)
  {
    assert Registered(s.mutators) == {0};
    assert ParkedSet(s.mutators) == {};
  }

  lemma {:induction false} ParkKeeps(s: State, t: Tid, after: After)
    requires t in s.mutators && (s.mutators[t] == Running || s.mutators[t] == Entering) && s.flag
    requires s.heapThreads == |Registered(s.mutators)| && s.parkedThreads == |ParkedSet(s.mutators)|
    requires forall u :: u in s.mutators && s.mutators[u].Parked? && !s.mutators[u].woken ==> s.flag
    ensures Bookkeeping(Park(s, t, after))
    ensures (s.collector == Notified ==> s.parkedThreads + 1 == s.heapThreads) ==> NotifiedInTime(Park(s, t, after))
  {
    SetsUpdate(s.mutators, t, Parked(after, false));
  }

  /** Every step of every run keeps the books, and no wake-up is lost: even when a notification finds
      the collector not waiting, or a thread wakes for nothing, or is still parked from the last round. */
  lemma {:induction false} StepKeepsBooks(s: State, step: Step)
    requires Bookkeeping(s)
    requires Next(s, step).Taken?
    ensures Bookkeeping(Next(s, step).state)
  {
    match step
    case Register(t) =>
      SetsUpdate(s.mutators, t, Running);
      var s1 := s.(heapThreads := s.heapThreads + 1, mutators := s.mutators[t := Running]);
      if s.flag {
        ParkKeeps(s1, t, Resume);
      } else {
        assert Bookkeeping(s1);
      }
    case Unregister(t) => SetsUpdate(s.mutators, t, Outside);
    case Allocate(t, hits) =>
      SetsUpdate(s.mutators, t, Running);
      if s.flag {
        ParkKeeps(s, t, ThenAllocate(hits));
      }
    case ReadFlag(t) => SetsUpdate(s.mutators, t, Entering);
    case EnterSafepoint(t) => ParkKeeps(s, t, Resume);
    case WakeUp(t) =>
      SetsUpdate(s.mutators, t, Running);
      SetsUpdate(s.mutators, t, Parked(s.mutators[t].after, false));
    case SpuriousWake(t) => SetsUpdate(s.mutators, t, Parked(s.mutators[t].after, true));
    case CollectorStart =>
      AllParked(s);
      WakeAllKeeps(s.mutators);
    case CollectorWake =>
      AllParked(s);
      WakeAllKeeps(s.mutators);
    case CollectorSpuriousWake =>
  }

  lemma {:induction false} WakeAllKeeps(mutators: map<Tid, Mutator>)
    ensures Registered(WakeAll(mutators)) == Registered(mutators)
    ensures ParkedSet(WakeAll(mutators)) == ParkedSet(mutators)
    ensures forall t :: t in WakeAll(mutators) && WakeAll(mutators)[t].Parked? ==> WakeAll(mutators)[t].woken
  {
  }

  /** Under the two assumptions on the collector (it never wakes for nothing, and its first look at the
      flag does not find it set with a registered thread still running) the assertion never fails. */
  predicate CollectorBehaves(s: State, step: Step) {
    && !step.CollectorSpuriousWake?
    && (step.CollectorStart? && s.flag ==> s.parkedThreads == s.heapThreads)
  }

  lemma {:induction false} StepKeepsNotified(s: State, step: Step)
    requires Bookkeeping(s) && NotifiedInTime(s) && CollectorBehaves(s, step)
    ensures !Next(s, step).AssertionFails?
    ensures Next(s, step).Taken? ==> NotifiedInTime(Next(s, step).state)
  {
    match step
    case Register(t) =>
      if t in s.mutators {
        SetsUpdate(s.mutators, t, Running);
      }
    case Unregister(t) =>
      if t in s.mutators {
        SetsUpdate(s.mutators, t, Outside);
      }
    case Allocate(t, hits) =>
      if t in s.mutators {
        SetsUpdate(s.mutators, t, Running);
      }
    case EnterSafepoint(t) =>
      if t in s.mutators {
        SetsUpdate(s.mutators, t, Running);
      }
    case WakeUp(t) =>
      if t in s.mutators {
        SetsUpdate(s.mutators, t, Running);
      }
    case _ =>
  }

  // ----- runs

  /** A run of the protocol; steps that are not possible are skipped. */
  function Run(s: State, steps: seq<Step>): Outcome
    decreases |steps|
  {
    if steps == [] then Taken(s) else
      match Next(s, steps[0])
      case Impossible => Run(s, steps[1..])
      case AssertionFails => AssertionFails
      case Taken(s1) => Run(s1, steps[1..])
  }

  /** Every step of the run meets the two assumptions on the collector, up to where the run ends. */
  ghost predicate RunBehaves(s: State, steps: seq<Step>)
    decreases |steps|
  {
    steps == [] ||
    (CollectorBehaves(s, steps[0]) &&
     match Next(s, steps[0])
     case Impossible => RunBehaves(s, steps[1..])
     case AssertionFails => true
     case Taken(s1) => RunBehaves(s1, steps[1..]))
  }

  /** In every run the books are kept. */
  lemma {:induction false} RunKeepsBooks(s: State, steps: seq<Step>)
    requires Bookkeeping(s)
    ensures Run(s, steps).Taken? ==> Bookkeeping(Run(s, steps).state)
    decreases |steps|
  {
    if steps != [] && !Next(s, steps[0]).AssertionFails? {
      if Next(s, steps[0]).Taken? {
        StepKeepsBooks(s, steps[0]);
        RunKeepsBooks(Next(s, steps[0]).state, steps[1..]);
      } else {
        RunKeepsBooks(s, steps[1..]);
      }
    }
  }

  /** In every run in which the collector behaves, whenever it collects the world is stopped. */
  lemma {:induction false} RunStopsTheWorld(s: State, steps: seq<Step>)
    requires Bookkeeping(s) && NotifiedInTime(s) && RunBehaves(s, steps)
    ensures Run(s, steps).Taken?
    ensures Bookkeeping(Run(s, steps).state) && NotifiedInTime(Run(s, steps).state)
    decreases |steps|
  {
    if steps != [] {
      StepKeepsNotified(s, steps[0]);
      if Next(s, steps[0]).Taken? {
        StepKeepsBooks(s, steps[0]);
        RunStopsTheWorld(Next(s, steps[0]).state, steps[1..]);
      } else {
        RunStopsTheWorld(s, steps[1..]);
      }
    }
  }

  lemma {:induction false} RunSplit(s: State, steps: seq<Step>, step: Step)
    requires RunBehaves(s, steps + [step])
    ensures RunBehaves(s, steps)
    ensures Run(s, steps).Taken? ==> CollectorBehaves(Run(s, steps).state, step)
    decreases |steps|
  {
    hide Next, CollectorBehaves;
    if steps == [] {
      assert steps + [step] == [step];
    } else {
      assert (steps + [step])[0] == steps[0] && (steps + [step])[1..] == steps[1..] + [step];
      match Next(s, steps[0])
      case Impossible => RunSplit(s, steps[1..], step);
      case AssertionFails =>
      case Taken(s1) => RunSplit(s1, steps[1..], step);
    }
  }

  /** From the start, in every run in which the collector neither wakes for nothing nor starts late: the
      assertion never fails, and a step that collects is taken with every registered thread parked. */
  lemma {:induction false} WorldStopsFromInit(s: State, steps: seq<Step>, step: Step)
    requires Init(s) && RunBehaves(s, steps + [step])
    ensures Run(s, steps).Taken? && !Next(Run(s, steps).state, step).AssertionFails?
    ensures var s1 := Run(s, steps).state;
            s1.flag && (step.CollectorStart? || step.CollectorWake?) && Next(s1, step).Taken? ==>
              && !Next(s1, step).state.flag
              && forall t :: t in s1.mutators && s1.mutators[t] != Outside ==> s1.mutators[t].Parked?
  {
    InitHolds(s);
    RunSplit(s, steps, step);
    RunStopsTheWorld(s, steps);
    var s1 := Run(s, steps).state;
    StepKeepsNotified(s1, step);
    AllParked(s1);
  }

  /** What it means that the world is stopped: every registered thread is parked. */
  lemma {:induction false} AllParked(s: State)
    requires Bookkeeping(s)
    ensures s.parkedThreads <= s.heapThreads
    ensures s.parkedThreads == s.heapThreads <==>
              forall t :: t in s.mutators && s.mutators[t] != Outside ==> s.mutators[t].Parked?
  {
    SubsetSize(ParkedSet(s.mutators), Registered(s.mutators));
    if s.parkedThreads == s.heapThreads {
      forall t | t in s.mutators && s.mutators[t] != Outside ensures s.mutators[t].Parked? {
        assert t in Registered(s.mutators) && t in ParkedSet(s.mutators);
      }
    }
    if forall t :: t in s.mutators && s.mutators[t] != Outside ==> s.mutators[t].Parked? {
      assert ParkedSet(s.mutators) == Registered(s.mutators);
    }
  }

  /** The collector taking the lock fails exactly when the flag is up and some registered thread is not
      parked; a collection lowers the flag and leaves no thread asleep. */
  lemma {:induction false} CollectorExact(s: State)
    requires Bookkeeping(s)
    ensures CollectorHasLock(s).AssertionFails? <==>
              s.flag && exists t :: t in s.mutators && s.mutators[t] != Outside && !s.mutators[t].Parked?
    ensures CollectorHasLock(s).Taken? ==>
              var after := CollectorHasLock(s).state;
              && !after.flag && after.collector == Waiting
              && after.heapThreads == s.heapThreads && after.parkedThreads == s.parkedThreads
              && after.mutators.Keys == s.mutators.Keys
              && (s.flag ==> forall t :: t in s.mutators ==>
                    after.mutators[t] == if s.mutators[t].Parked? then Parked(s.mutators[t].after, true)
                                         else s.mutators[t])
              && (!s.flag ==> after.mutators == s.mutators)
              && forall t :: t in after.mutators && after.mutators[t].Parked? ==> after.mutators[t].woken
  {
    AllParked(s);
    WakeAllKeeps(s.mutators);
  }

  /** No lost wake-up: while the flag is up, either the collector is about to take the lock and its
      assertion will hold, or some registered thread is still on its way and the collector waits. */
  lemma {:induction false} NoLostWakeup(s: State)
    requires Bookkeeping(s) && s.flag
    ensures (forall t :: t in s.mutators && s.mutators[t] != Outside ==> s.mutators[t].Parked?) ==>
              s.collector != Waiting && CollectorHasLock(s).Taken?
    ensures s.collector == Waiting ==>
              exists t :: t in s.mutators && (s.mutators[t] == Running || s.mutators[t] == Entering)
  {
    AllParked(s);
    if s.collector == Waiting {
      var t :| t in s.mutators && s.mutators[t] != Outside && !s.mutators[t].Parked?;
      assert s.mutators[t] == Running || s.mutators[t] == Entering;
    }
  }

  /** Without the assumptions the assertion can fail: the collector starts late, or wakes for nothing,
      while the only thread has raised the flag and runs on. */
  lemma {:induction false} AssertionCanFail(s: State)
    requires Init(s)
    ensures Run(s, [Allocate(0, true), CollectorStart]).AssertionFails?
    ensures Run(s, [CollectorStart, Allocate(0, true), CollectorSpuriousWake, CollectorWake]).AssertionFails?
  {
  }

  // ----- what each thread does

  /** The thread has parked: it is counted, waits without having been woken, and has notified a waiting
      collector if it was the last one. The flag and the other threads are as they were. */
  ghost predicate HasParked(s: State, t: Tid, after: After, s': State) {
    && s'.parkedThreads == s.parkedThreads + 1 && s'.heapThreads == s.heapThreads && s'.flag == s.flag
    && s'.mutators == s.mutators[t := Parked(after, false)]
    && s'.collector == if s.collector == Waiting && s.parkedThreads + 1 == s.heapThreads then Notified
                       else s.collector
  }

  /** The thread runs, and only it and the flag have changed. */
  ghost predicate HasGoneOn(s: State, t: Tid, flag: bool, s': State) {
    s' == State(flag, s.heapThreads, s.parkedThreads, s.mutators[t := Running], s.collector)
  }

  /** A thread that allocates parks exactly when the flag is up, to allocate afterwards; otherwise it allocates,
      and raises the flag exactly at the threshold. */
  lemma {:induction false} AllocateExact(s: State, t: Tid, hits: bool)
    requires Bookkeeping(s) && t in s.mutators && s.mutators[t] == Running
    ensures var r := Next(s, Allocate(t, hits));
            && r.Taken?
            && if s.flag then HasParked(s, t, ThenAllocate(hits), r.state) else HasGoneOn(s, t, hits, r.state)
  {
    SetsUpdate(s.mutators, t, Running);
  }

  /** A thread that finds the flag up at a safepoint parks, in two steps between which others may act; one that
      finds it down goes on without a trace. */
  lemma {:induction false} SafepointExact(s: State, t: Tid)
    requires Bookkeeping(s) && t in s.mutators
    ensures s.mutators[t] == Running ==>
              Next(s, ReadFlag(t)) == Taken(if s.flag then s.(mutators := s.mutators[t := Entering]) else s)
    ensures s.mutators[t] == Entering ==>
              var r := Next(s, EnterSafepoint(t));
              r.Taken? && HasParked(s, t, Resume, r.state)
    ensures s.mutators[t] == Running && s.flag ==>
              var r := Run(s, [ReadFlag(t), EnterSafepoint(t)]);
              r.Taken? && HasParked(s, t, Resume, r.state)
  {
    SetsUpdate(s.mutators, t, Running);
    if s.mutators[t] == Running && s.flag {
      var between := s.(mutators := s.mutators[t := Entering]);
      assert Next(s, ReadFlag(t)) == Taken(between);
      assert between.mutators[t := Parked(Resume, false)] == s.mutators[t := Parked(Resume, false)];
      var last := Next(between, EnterSafepoint(t)).state;
      assert Run(between, [EnterSafepoint(t)]) == Run(last, []);
      assert [ReadFlag(t), EnterSafepoint(t)][1..] == [EnterSafepoint(t)];
    }
  }

  /** A thread that registers is counted, and parks at once exactly when the flag is up; one that unregisters
      with the flag up notifies the collector exactly when all the others are parked. */
  lemma {:induction false} RegisterExact(s: State, t: Tid)
    requires Bookkeeping(s) && t in s.mutators
    ensures s.mutators[t] == Outside ==>
              var r := Next(s, Register(t));
              var s1 := s.(heapThreads := s.heapThreads + 1);
              r.Taken? && if s.flag then HasParked(s1, t, Resume, r.state) else HasGoneOn(s1, t, false, r.state)
    ensures s.mutators[t] == Running ==>
              && s.heapThreads > 0
              && Next(s, Unregister(t))
              == Taken(State(s.flag, s.heapThreads - 1, s.parkedThreads, s.mutators[t := Outside],
                             if s.flag && s.collector == Waiting && s.parkedThreads + 1 == s.heapThreads then Notified
                             else s.collector))
  {
    SetsUpdate(s.mutators, t, Running);
  }

  /** A thread that was woken with the flag down runs again and is no longer counted as parked; one that was about
      to allocate does so then, and raises the flag again when that reaches the threshold. With the flag up it
      waits again. */
  lemma {:induction false} WakeUpExact(s: State, t: Tid)
    requires Bookkeeping(s) && t in s.mutators && s.mutators[t].Parked?
    ensures s.mutators[t].woken ==>
              var r := Next(s, WakeUp(t));
              && r.Taken?
              && if s.flag then r.state == s.(mutators := s.mutators[t := Parked(s.mutators[t].after, false)])
                 else
                   && s.parkedThreads > 0
                   && HasGoneOn(s.(parkedThreads := s.parkedThreads - 1), t, s.mutators[t].after == ThenAllocate(true),
                                r.state)
    ensures !s.mutators[t].woken ==>
              s.flag && Next(s, WakeUp(t)).Impossible?
              && Next(s, SpuriousWake(t)) == Taken(s.(mutators := s.mutators[t := Parked(s.mutators[t].after, true)]))
  {
    assert t in ParkedSet(s.mutators);
  }

  /** With the flag down and nobody else in the way, every parked thread runs again after one step. */
  lemma {:induction false} AfterCollection(s: State, t: Tid)
    requires Bookkeeping(s) && s.flag && s.parkedThreads == s.heapThreads && s.collector == Notified
    requires t in s.mutators && s.mutators[t].Parked?
    ensures var r := Next(s, CollectorWake);
            && r.Taken? && !r.state.flag && r.state.collector == Waiting
            && r.state.heapThreads == s.heapThreads && r.state.parkedThreads == s.parkedThreads
            && var r1 := Next(r.state, WakeUp(t));
               && r1.Taken? && r1.state.mutators[t] == Running
               && (r1.state.flag <==> s.mutators[t].after == ThenAllocate(true))
  {
    StepKeepsBooks(s, CollectorWake);
    WakeUpExact(Next(s, CollectorWake).state, t);
  }

  // ----- the world can stop

  /** A running or entering thread comes to the allocation or safepoint before it. */
  ghost predicate Arrives(s: State, step: Step) {
    match step
    case Allocate(t, _) => t in s.mutators && s.mutators[t] == Running
    case ReadFlag(t) => t in s.mutators && s.mutators[t] == Running
    case EnterSafepoint(t) => t in s.mutators && s.mutators[t] == Entering
    case _ => false
  }

  /** All the steps of the run are such arrivals, and are taken. */
  ghost predicate AllArrive(s: State, steps: seq<Step>)
    decreases |steps|
  {
    steps == [] ||
    (Arrives(s, steps[0]) && Next(s, steps[0]).Taken? && AllArrive(Next(s, steps[0]).state, steps[1..]))
  }

  ghost function EnteringSet(mutators: map<Tid, Mutator>): set<Tid> {
    set t | t in mutators && mutators[t] == Entering
  }

  /** How many arrivals are missing: two at most for each running thread, one for each entering thread. */
  ghost function Missing(s: State): int {
    2 * (|Registered(s.mutators)| - |ParkedSet(s.mutators)|) - |EnteringSet(s.mutators)|
  }

  lemma {:induction false} MissingIsNatural(s: State)
    ensures Missing(s) >= 0
    ensures Missing(s) == 0 <==> |Registered(s.mutators)| == |ParkedSet(s.mutators)|
  {
    var on := Registered(s.mutators) - ParkedSet(s.mutators);
    SubsetSize(ParkedSet(s.mutators), Registered(s.mutators));
    SubsetSize(EnteringSet(s.mutators), on);
    assert |on| == |Registered(s.mutators)| - |ParkedSet(s.mutators)|;
  }

  /** While the flag is up each arrival keeps it up and leaves fewer missing. */
  lemma {:induction false} ArrivalCounts(s: State, step: Step)
    requires Bookkeeping(s) && NotifiedInTime(s) && s.flag && Arrives(s, step)
    ensures Next(s, step).Taken?
    ensures var s1 := Next(s, step).state;
            Bookkeeping(s1) && NotifiedInTime(s1) && s1.flag && Missing(s1) < Missing(s)
            && (s1.collector == Starting <==> s.collector == Starting)
  {
    StepKeepsBooks(s, step);
    StepKeepsNotified(s, step);
    var t := step.t;
    var m := Next(s, step).state.mutators[t];
    SetsUpdate(s.mutators, t, m);
    SizesUpdate(EnteringSet(s.mutators), EnteringSet(s.mutators[t := m]), t);
  }

  /** However the running threads arrive, and in whatever order, while the flag is up: they arrive a bounded number
      of times, and as long as the collector has not been notified one of them can. */
  lemma {:induction false} ArrivalsEnd(s: State, steps: seq<Step>)
    requires Bookkeeping(s) && NotifiedInTime(s) && s.flag && s.collector != Starting && AllArrive(s, steps)
    ensures |steps| <= Missing(s) && Run(s, steps).Taken?
    ensures var s1 := Run(s, steps).state;
            && s1.flag && Bookkeeping(s1) && NotifiedInTime(s1)
            && (s1.collector == Notified ==> Next(s1, CollectorWake).Taken? && !Next(s1, CollectorWake).state.flag)
            && (s1.collector != Notified ==> exists step :: Arrives(s1, step))
    decreases |steps|
  {
    hide Next, Bookkeeping, NotifiedInTime, Arrives, Missing;
    MissingIsNatural(s);
    if steps == [] {
      EndOrArrival(s);
    } else {
      ArrivalCounts(s, steps[0]);
      ArrivalsEnd(Next(s, steps[0]).state, steps[1..]);
    }
  }

  lemma {:induction false} EndOrArrival(s: State)
    requires Bookkeeping(s) && NotifiedInTime(s) && s.flag && s.collector != Starting
    ensures s.collector == Notified ==> Next(s, CollectorWake).Taken? && !Next(s, CollectorWake).state.flag
    ensures s.collector != Notified ==> exists step :: Arrives(s, step)
  {
    NoLostWakeup(s);
    if s.collector != Notified {
      var t :| t in s.mutators && (s.mutators[t] == Running || s.mutators[t] == Entering);
      assert Arrives(s, if s.mutators[t] == Running then ReadFlag(t) else EnterSafepoint(t));
    }
  }

  /** From every such state the running threads can arrive so that the collector runs and lowers the flag. */
  lemma {:induction false} WorldCanStop(s: State) returns (steps: seq<Step>)
    requires Bookkeeping(s) && NotifiedInTime(s) && s.flag && s.collector != Starting
    ensures AllArrive(s, steps)
    ensures Run(s, steps + [CollectorWake]).Taken? && !Run(s, steps + [CollectorWake]).state.flag
    decreases Missing(s)
  {
    hide Next, Bookkeeping, NotifiedInTime, Arrives, Missing;
    MissingIsNatural(s);
    EndOrArrival(s);
    if s.collector == Notified {
      steps := [];
      assert [CollectorWake][1..] == [] && steps + [CollectorWake] == [CollectorWake];
      assert Run(Next(s, CollectorWake).state, []) == Taken(Next(s, CollectorWake).state);
    } else {
      var step :| Arrives(s, step);
      ArrivalCounts(s, step);
      var rest := WorldCanStop(Next(s, step).state);
      steps := [step] + rest;
      assert (steps + [CollectorWake])[1..] == rest + [CollectorWake] && steps[1..] == rest;
    }
  }
}
