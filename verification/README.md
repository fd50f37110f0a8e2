# Janadinite, modelled and proved

Janadinite is a small Java virtual machine with its own heap. This project models its memory manager, the
protocol between its threads and the collector, the frames of its interpreter, its class linking and
loading, and its binary decoders, and proves what they keep: over every object graph and iteration order,
every run, every interleaving of threads, every class hierarchy and every byte string. Code that changes
things step by step is modelled by classes and loops, each proved against a function or a relation on states
about which the main results are lemmas.

- `Slots`: the one-word slot that holds a number or a negated address.
- `HeapGraph`, `ManagedHeap`, `HeapRuns`: reference counts, the drop cascade, the cycle collector, and whole
  runs of a program over them. Memory is a set of maps from addresses, so that freeing is visible.
- `MultiArray`: allocation of multi-dimensional arrays on that heap.
- `StopTheWorld`: a transition system of any number of threads, the lock, the flag and the two condition
  variables.
- `Frames`, `Execution`, `Interpreter`: the shared operand stack and locals; calls, returns, branches, loads and
  stores as a relation on states, with what whole runs keep; and the methods that carry it out.
- `Opcodes`: what that relation comes to for each opcode, in bytes, places and words.
- `References`: the references on a thread's stack and in its locals, and the strong counts while code runs.
- `Bytecode`, `Descriptors`, `Bytes`, `ClassFile`, `ClassIO`: the instruction stream, descriptors, and the
  class-file items, read and written.
- `Members`, `ConstantPool`, `VMClasses`: method tables, field layout, constant-pool linking, dispatch and the
  searches up a chain of classes.
- `ClassTable`, `ResolutionCaches`: a transition system of loading threads and of the write-once cells.

Where the code departs from what it seems meant to do, the code is modelled, and a lemma says exactly when
the intended property holds (an `Exact` in its name) or gives an input on which it fails:

- The collector's assertion can fail when the collector starts late or wakes for nothing
  (`StopTheWorld.AssertionCanFail`); it fails exactly when the flag is up and some registered thread runs
  (`StopTheWorld.CollectorExact`).
- A multi-dimensional array of three or more dimensions shares sub-arrays between its rows
  (`MultiArray.SharingExact`), and a zero, negative or missing count after a level that already holds
  references drops those references under the heap lock (`MultiArray.ExpectedSucceeds`).
- The allocation counter is a wrapping `usize`: once more objects were dropped than allocated since the last
  collection it is far above the threshold (`ManagedHeap.LoweredExact`).
- A class file is written with a pool count one too small, and comes back only when that does not matter
  (`ClassFile.FileRoundTripExact`). NaN constants come back as one canonical NaN (`ClassFile.EntryRoundTrip`).
- The index of a field is looked up in a list that starts with the inherited ones. The lookup finds a declared
  field exactly when no instance field is inherited (`Members.DeclaredIndexExact`), and an inherited one exactly
  when its class inherits as many instance fields as it declares statics before it
  (`VMClasses.InheritedIndexExact`); it can even miss the list (`Members.InheritedIndexCanFail`).
- Method table indices are cut to 16 bits (`ConstantPool.VtableIdExact`).
- The pops of a call's arguments are not guarded by the caller's frame (`Frames.OperandTaken`, and
  `Execution.GreedyRun` in bytes). Frames are isolated in every run whose calls fit their caller's operands
  (`Execution.RunKeeps`); the first call that does not fit takes operands of its caller's caller
  (`Execution.BreachTakesFromCaller`), which are lost unless its result happens to equal them
  (`Execution.CallDamageExact`). Frame records and locals are restored in every case
  (`Execution.CallRestoresFrame`).
- Loading a class ends exactly when its chain of superclasses leads to a bound name, a missing file or a class
  without superclass (`ClassTable.LoadEndsExact`); on a cycle of superclasses it goes deeper for ever, with the lock
  held (`ClassTable.EndlessLoad`, and `ClassTable.CycleNeverLoads` for two files).
- Linking resolves a field of the class itself by name and descriptor, the search at first use by name only;
  when the two differ is said by `VMClasses.FieldTextDecides`.
- Arrays of a class itself are linked to an entry that no lookup accepts (`ConstantPool.ArraysFound`).

## Model

| member | source | states |
|---|---|---|
| Slots.TaggingIsSound | src/vm/mod.rs:30-83 | Numbers and references share a slot word without being confused: an object reads back as its address, a number never reads as an object, and 32- and 64-bit numbers read back unchanged. |
| Slots.WordsExact | src/vm/mod.rs:30-83 | In bits: a reference is its negated address, an int its 32-bit two's complement, a long two such words with the low half first; and any word read as an int gives its low 32 bits. |
| ManagedHeap.Heap.constructor | src/vm/heap.rs:172-180 | A new heap is empty and satisfies the count invariant. |
| ManagedHeap.Heap.CopyCounts | src/vm/heap.rs:191-193 | In any iteration order every mark becomes the strong count without the heap's own reference. |
| ManagedHeap.Heap.SubtractHeapReferences | src/vm/heap.rs:195-202 | In any order, with self references and repeated edges, no subtraction goes below zero, and what is left is each object's number of references from outside the heap. |
| ManagedHeap.Heap.SubtractReferencesOf | src/vm/heap.rs:196-201 | The inner loop takes from every mark exactly the number of slots of one object that refer to it. |
| ManagedHeap.Heap.SetAside | src/vm/heap.rs:204-207 | Exactly the objects with mark zero leave the set and are listed once, marked with the largest count. |
| ManagedHeap.Heap.MarkChildren | src/vm/heap.rs:211-221 | Exactly the marks of the objects that one object refers to are cleared, and the flag says whether any was. |
| ManagedHeap.Heap.MarkFromSurvivors | src/vm/heap.rs:209-222 | After the first pass nothing that stayed refers to anything marked, and every cleared mark was reached. |
| ManagedHeap.Heap.RescueRound | src/vm/heap.rs:225-239 | One round clears marks only along references, says whether it cleared any, and when it did not the unmarked objects refer to nothing marked. |
| ManagedHeap.Heap.Rescue | src/vm/heap.rs:224-240 | The loop ends because the marks get fewer, and it ends only at the closure. |
| ManagedHeap.Heap.MarkReachable | src/vm/heap.rs:209-240 | Afterwards exactly the objects reachable from the set carry no mark. |
| ManagedHeap.Heap.CountAndMark | src/vm/heap.rs:187-240 | Counting and marking together: what the drain will keep is exactly what is reachable from references outside the heap. |
| ManagedHeap.Heap.DropArc | src/vm/heap.rs:253-257 | Dropping a plain `Arc` keeps the counts; the memory is freed only with the last one, and only when no slot holds a reference, so no destructor runs under the lock. |
| ManagedHeap.Heap.EmptySlot | src/vm/heap.rs:248-255 | Nulling a slot and dropping what it held keeps the counts exact and touches nothing else. |
| ManagedHeap.Heap.DropDead | src/vm/heap.rs:246-257 | A dead object's slots are all nulled before its own `Arc` goes; everything else that is owned is untouched. |
| ManagedHeap.Heap.Sweep | src/vm/heap.rs:242-259 | The drain ends with exactly the unmarked objects in the set. |
| ManagedHeap.Heap.Collect | src/vm/heap.rs:187-260 | Exactly the live objects are left, in the set and in memory, with their slots as they were and exact counts. |
| ManagedHeap.Heap.TryGc | src/vm/heap.rs:182-263 | With the world stopped: below the threshold nothing changes; otherwise exactly the objects reachable from outside references are left, unchanged, each loses exactly its references from dead objects, and each keeps one besides the heap's. |
| ManagedHeap.Survivors | src/vm/heap.rs:242-261 | The counts of survivors: what they had less the references from freed objects, never only the heap's own, for any graph. |
| ManagedHeap.SurvivorReferences | src/vm/heap.rs:242-261 | References to a survivor come from survivors or freed objects, and a survivor that is no root has one from a survivor. |
| ManagedHeap.LoweredExact | src/vm/heap.rs:427 | The wrapping allocation count is the true difference until it would pass zero, and from then on it exceeds the threshold. |
| ManagedHeap.Heap.AllocateFromObject | src/vm/heap.rs:283-290 | The object joins the heap at its address with the given kind and slots and a count of two, nothing else changes, the counter rises by one (wrapping), and the stop flag rises exactly at twenty. |
| ManagedHeap.Heap.CloneReference | src/vm/mod.rs:49-52 | Cloning adds one outside reference and one to the strong count. |
| ManagedHeap.Heap.DropReference | src/vm/heap.rs:414-431 | Dropping a reference terminates, removes exactly the least set of objects that nothing outside the set refers to any more, leaves the rest unchanged, and every object left has a reference besides the heap's. |
| ManagedHeap.Heap.DropLast | src/vm/heap.rs:417-428 | The drop of the last reference removes no more than that least set, and the counter falls by the number removed. |
| ManagedHeap.Heap.DropSlots | src/vm/mod.rs:86-92 | The destructors of a freed object's slots, in order, give back exactly the references they held. |
| ManagedHeap.Heap.LoadSlot | src/vm/mod.rs:94-102 | Cloning a slot gives its content and exactly the references that go with it. |
| ManagedHeap.Heap.StoreSlot | src/vm/mod.rs:1011 | Overwriting a slot drops the old content first; then that slot holds the new value, every other slot of the object and every other object that is left is as it was, and only what the old content alone kept alive is gone. |
| ManagedHeap.Heap.PutIn | src/vm/mod.rs:1011 | The second half of a store: exactly one slot changes, to the value that the program owned. |
| HeapRuns.RemovedUnreachable | src/vm/heap.rs:414-431 | What a drop removes cannot be reached from anything the program holds. |
| HeapRuns.StoreReaches | src/vm/mod.rs:1011 | What can be reached after a store could be reached before it. |
| HeapRuns.StepCollect | src/vm/heap.rs:182-263 | Collecting between two operations, with the world stopped for it, leaves everything the program can reach as it was. |
| HeapRuns.Step | src/vm/heap.rs:182-291 | One operation of a running, registered thread: the program holds what it asked for, and everything it can reach is as written, as if nothing were ever freed. |
| HeapRuns.WrittenExact | src/vm/heap.rs:271-281 | What an operation writes, slot by slot: nulls in a new object, one slot in a store, nothing otherwise. |
| HeapRuns.HoldingExact | src/vm/mod.rs:86-102 | Which reference each operation gives to the program or takes from it. |
| HeapRuns.StoreThenLoad | src/vm/mod.rs:1004-1012 | A load after a store gives the value that was stored, unless the clone of its reference aborts. |
| HeapRuns.Run | src/vm/heap.rs:182-291 | After any sequence of operations every reference is to an object still in the set, and each strong count is one plus slot references plus outside references. |
| MultiArray.ExpectedSucceeds | src/vm/heap.rs:101-134 | The allocation succeeds exactly when there is a dimension, every count was popped and is not negative, and no zero follows a level that holds references. |
| MultiArray.BuildLevel | src/vm/heap.rs:102-130 | One level: its rows are clones of the level below, each a new object, and the arrays on the heap are those of the levels below. |
| MultiArray.AllocateMultiArray | src/vm/heap.rs:90-135 | The call ends as its counts say; on success the result unfolds to a rectangle of those lengths, last count outermost, one plus the sum of the non-innermost counts objects have joined, rows are distinct, and counts stay exact. |
| MultiArray.LengthsExact | src/vm/heap.rs:101-134 | In numbers: the array has the length popped last, each of its elements is an array of the length popped before, and a single dimension has its length times the unit, all null. |
| MultiArray.SharingExact | src/vm/heap.rs:117-127 | Rows share sub-arrays exactly when there are three or more dimensions, two or more rows, and rows that are not empty. |
| StopTheWorld.InitHolds | src/main.rs:22-23 | The invariants hold at the start. |
| StopTheWorld.StepKeepsBooks | src/vm/heap.rs:28-72 | Every step of every thread keeps the counters equal to the numbers of registered and parked threads, the flag up for whoever entered a safepoint, and the collector notified when all are parked. |
| StopTheWorld.ParkKeeps | src/vm/heap.rs:137-148 | Parking keeps them, and notifies the collector exactly when the last thread parks. |
| StopTheWorld.StepKeepsNotified | src/vm/heap.rs:28-39 | If the collector does not wake for nothing and does not start late, its assertion never fails. |
| StopTheWorld.RunKeepsBooks | src/vm/heap.rs:28-159 | The bookkeeping holds in every run, whatever wakes up. |
| StopTheWorld.RunStopsTheWorld | src/vm/heap.rs:28-39 | No run under those two assumptions fails the assertion, and both invariants hold after it. |
| StopTheWorld.WorldStopsFromInit | src/vm/heap.rs:28-39 | From the start, in every such run: the assertion never fails, and a step that collects is taken with every registered thread parked. |
| StopTheWorld.AllParked | src/vm/heap.rs:137-148 | The parked count never exceeds the registered count, and they are equal exactly when every registered thread is parked. |
| StopTheWorld.CollectorExact | src/vm/heap.rs:182-186 | The collector's assertion fails exactly when the flag is up and a registered thread is not parked; a collection lowers the flag and wakes everyone. |
| StopTheWorld.NoLostWakeup | src/vm/heap.rs:137-159 | While the flag is up and all are parked the collector has its notification; while it waits, some registered thread is on its way. |
| StopTheWorld.AllocateExact | src/vm/heap.rs:65-72 | A thread that allocates parks exactly when the flag is up, to allocate once it goes on; otherwise it allocates, and raises the flag exactly when that reaches the threshold. |
| StopTheWorld.SafepointExact | src/vm/heap.rs:151-159 | A thread at a safepoint that finds the flag up parks; one that finds it down goes on without a trace. |
| StopTheWorld.RegisterExact | src/vm/heap.rs:42-61 | A thread that registers is counted and parks exactly when the flag is up; one that unregisters then notifies the collector exactly when all others are parked. |
| StopTheWorld.WakeUpExact | src/vm/heap.rs:143-147 | A woken thread waits again while the flag is up, and otherwise runs and is no longer counted; an allocation that was pending is made then, and raises the flag again at the threshold. |
| StopTheWorld.AfterCollection | src/vm/heap.rs:35-37 | A notified collector with all parked lowers the flag, and any parked thread can run after one step. |
| StopTheWorld.ArrivalsEnd | src/vm/heap.rs:137-159 | While the flag is up, running threads that come to allocations and safepoints do so a bounded number of times in any order, and until the collector is notified one of them can. |
| StopTheWorld.WorldCanStop | src/vm/heap.rs:28-39 | From every such state they can come so that the collector runs and lowers the flag. |
| StopTheWorld.AssertionCanFail | src/vm/heap.rs:31-34 | Two concrete runs that break the assertion without the assumptions. |
| Frames.ThreadContext.PopCreateArgs | src/vm/mod.rs:209-220 | The arguments become new locals in the order they were pushed; the pops ignore the frame's guard. |
| Frames.ThreadContext.FinishPushFrame | src/vm/mod.rs:222-242 | The caller's record is saved, the callee's other locals are null and its operands empty. |
| Frames.ThreadContext.PushFrame | src/vm/mod.rs:247-257 | Both together. |
| Frames.ThreadContext.PopFrame | src/vm/mod.rs:260-266 | Everything above the callee's marks is gone and the caller's record is back. |
| Frames.ThreadContext.PopSlot | src/vm/mod.rs:309-316 | A guarded pop never takes what lies below the frame's start. |
| Frames.ThreadContext.LPop | src/vm/mod.rs:342-347 | The high half is on top, and both pops are guarded. |
| Frames.ThreadContext.Dup2 | src/vm/mod.rs:457-476 | The two top operands, or the one there is, are repeated in order. |
| Frames.ThreadContext.VStore | src/vm/mod.rs:431-439 | A store reaches the slots of its value and no other; one that does not fit changes nothing. |
| Frames.ThreadContext.LLoad | src/vm/mod.rs:371-376 | A long is loaded from two neighbouring locals, and the first one out of range is the error. |
| Frames.ValuesSurvive | src/vm/mod.rs:124-152 | Every value of every kind is read back from its slots, and only an object's slot is ever taken for a reference. |
| Frames.OperandTaken | src/vm/mod.rs:214-217 | A method without operands that makes a call takes an operand of its caller. |
| Execution.ControlFollows | src/vm/mod.rs:1192-1232 | For every instruction of every run: its address is zero or what the one before led to, and lies in the code; a branch opcode leads to its own address plus the signed number in the two bytes behind it, clamped to 16 bits, exactly when its operands are smaller, equal or greater as its opcode asks; any other instruction leads past its own bytes, modulo 65536. |
| Execution.HoldsExact | src/vm/mod.rs:1195-1232 | Which branch opcodes are taken for smaller, equal and greater operands. |
| Execution.MoreFuel | src/vm/mod.rs:784-1379 | Fuel only cuts runs short: a run that ended by itself is a run with any more fuel. |
| Execution.ExecutesKeeps | src/vm/mod.rs:309-476 | No instruction by itself changes what lies below its frame's marks, or the frame records. |
| Execution.RunKeeps | src/vm/mod.rs:784-1379 | Frame isolation: in any run, of any code, whose calls all take no more than their caller's operands, every state of the frame and the end of a run that returns has everything below the frame's marks as it was on entry. |
| Execution.RunKeepsFrame | src/vm/mod.rs:784-1379 | In every run, also of code whose calls take too much, the frame records and the locals below the frame's own are as they were on entry. |
| Execution.CallRestoresFrame | src/vm/mod.rs:896-957 | Every completed call gives its caller's frame records and locals back unchanged, whatever the calls below it took. |
| Execution.CallRestores | src/vm/mod.rs:896-957 | When the calls below all fit, it also takes exactly its arguments off the stack and adds only the result. |
| Execution.BreachTakesFromCaller | src/vm/mod.rs:209-220 | The converse: in every run with a call that does not fit, the first such call is made from a frame that was isolated so far, and moves operands of that frame's caller into its callee's first locals. |
| Execution.CallDamageExact | src/vm/mod.rs:209-266 | When such a call returns, what lies below its caller's operands is unchanged exactly when it took no more than these, or its result happens to equal what it took beyond them. |
| Execution.GreedyRun | src/vm/mod.rs:896-921 | A concrete run of bytes: a static method without operands calls a method with one parameter, and its caller's operand is gone afterwards. |
| Opcodes.LoadExact | src/vm/mod.rs:371-417 | For each load opcode: the words that it pushes from one or two locals, or the reference, or the error. |
| Opcodes.TakeExact | src/vm/mod.rs:318-353 | For each store and return opcode: the value that it takes, from which operands and in which bits, or the error. |
| Opcodes.StoreExact | src/vm/mod.rs:849-856 | For each store opcode: which operands go, which locals change and to what words, and each failure. |
| Opcodes.StoreThenLoad | src/vm/mod.rs:841-856 | The load of the same kind brings the stored words back. |
| Opcodes.IncrementExact | src/vm/mod.rs:1043-1060 | One local changes, to the sum modulo two to the thirty-second. |
| Opcodes.StackExact | src/vm/mod.rs:1192-1232 | For constants, duplications and branches: what each opcode does to the operands of its frame. |
| Opcodes.LocalsExact | src/vm/mod.rs:1017-1060 | Which opcodes are loads, stores and increments, in either form, and when the modelled ones fail. |
| Opcodes.NodeKinds | src/vm/mod.rs:896-957 | Exactly the opcodes from 0xb6 to 0xb8 call, and those from 0xac to 0xb1 end the run. |
| Opcodes.CallArguments | src/vm/mod.rs:896-957 | Every call takes its declared slots, and one more unless it is static; the operand below the arguments is the callee's local 0, the arguments follow in order, and the other locals are null. |
| Opcodes.CallTarget | src/vm/mod.rs:922-951 | The resolved method runs, or for a virtual call what the receiver below the arguments has in its place. |
| Opcodes.RefusalExact | src/vm/mod.rs:896-957 | Each way in which a call is refused, by the stack, the receiver and the method. |
| Opcodes.ReturnExact | src/vm/mod.rs:1233-1238 | How a run that returns ends: past its code, or at a return opcode with the value that this takes. |
| Interpreter.Load | src/vm/mod.rs:841-846 | A load pushes the value of its local, or fails as its function says, with the error. |
| Interpreter.TakeOne | src/vm/mod.rs:318-353 | The value of each kind that a store or return takes, with guarded pops, or the error. |
| Interpreter.Store | src/vm/mod.rs:849-856 | A store takes one or two operands and changes its local alone; it fails for too few operands, for what is no reference, and for a local out of range. |
| Interpreter.Increment | src/vm/mod.rs:1043-1060 | The local alone is changed, by the wrapped sum, or is out of range. |
| Interpreter.Compare | src/vm/mod.rs:1195-1232 | A conditional branch is taken exactly when its comparison holds of the operands. |
| Interpreter.TakeResult | src/vm/mod.rs:1233-1238 | Each return takes a value of its kind, or fails for too few operands or for what is no reference. |
| Interpreter.Plain | src/vm/mod.rs:1017-1232 | An instruction that is neither call nor return does what the relation says, and gives the next address. |
| Interpreter.Invoke | src/vm/mod.rs:896-957 | A call is refused as its decision function says, a receiver that is a number, null or an array among the reasons, or its body is a run of the callee in the frame with its arguments; whenever it returns the caller's frame records and locals are restored, and if every call below fits, so are its operands, with the result added. |
| Interpreter.RunCallee | src/vm/mod.rs:904-921 | Frame, body and result of a call: what it leaves is determined by the body's run. |
| Interpreter.RunCode | src/vm/mod.rs:784-1379 | The loop is a run of the code from the state in which it is called, with its outcome, its end, and every call that it made. |
| References.InstructionConserves | src/vm/mod.rs:431-476 | One instruction: for every object, the references on the thread afterwards and those dropped are as many as the references before and those cloned. |
| References.EnterConserves | src/vm/mod.rs:209-242 | Entering a call moves references and makes or drops none. |
| References.LeaveConserves | src/vm/mod.rs:260-276 | Popping a frame drops exactly the references in its slots, and the result's joins the caller's operands. |
| References.RunConserves | src/vm/mod.rs:784-1379 | Conservation over whole runs with all their calls, fitting or not: references at the end and in the result are those at the start, plus the cloned, less the dropped. |
| References.ThreadCounted | src/vm/heap.rs:414-431 | With exact counts, every reference on the thread is to an object in the set, and each strong count is one plus slot references, thread references, the one in hand, and the others. |
| References.Follow | src/vm/mod.rs:841-857 | One instruction on the heap: clones abort exactly when a count has no room; otherwise the counts are exact for the thread's new state, whatever the drops freed. |
| References.FollowLeave | src/vm/mod.rs:260-266 | Popping a frame on the heap: its references are dropped, the counts are exact for the caller. |
| References.FollowRun | src/vm/mod.rs:784-1379 | A whole run on the heap, with all its calls: unless a strong count is full, every count is exact at the end, with the references left on the thread and the one in the result. |
| Bytecode.Instructions.Next | janadinite-parse/src/class.rs:587-597 | The iterator agrees with the decoding function, and for code of at most 65535 bytes the counter stays inside the code and moves forward. |
| Bytecode.Instructions.Operands | macros/src/opcode_decode.rs:316-324 | Operands are read in order, and the counter moves past those that were read. |
| Bytecode.NextOpAdvances | janadinite-parse/src/class.rs:587-597 | For any bytes decoding moves forward inside the code, and stops only at the end or at a `bipush` without operand. |
| Bytecode.DecodeEncoded | macros/src/opcode_decode.rs:310-331 | Every well-formed instruction is decoded from its long or wide form wherever it stands, and the counter moves by exactly that form. |
| Bytecode.StreamOfAssembled | janadinite-parse/src/class.rs:587-605 | Decoding an assembled program gives the program back. |
| Bytecode.DecodedForm | janadinite-parse/src/class.rs:550-566 | Whatever was decoded is well formed, and the counter moved by the length of its one-byte or its long form. |
| Bytecode.PlainOpcode | janadinite-parse/src/class.rs:50-427 | The opcodes without operands are decoded from one byte. |
| Bytecode.ByteOperand | janadinite-parse/src/class.rs:50-427 | Those with one unsigned byte, from two. |
| Bytecode.WordOperand | janadinite-parse/src/class.rs:50-506 | Those with a pool index, from three, the high byte first. |
| Bytecode.BranchOperand | janadinite-parse/src/class.rs:353-415 | Branches, with the two bytes read as two's complement. |
| Bytecode.IncrementOperands | janadinite-parse/src/class.rs:190-192 | The increment has an unsigned index and a signed amount. |
| Bytecode.DimensionOperands | janadinite-parse/src/class.rs:506 | The multi-dimensional array has a pool index and a number of dimensions. |
| Bytecode.ConstantOperand | janadinite-parse/src/class.rs:553-566 | The small constants are in the opcode or in the signed byte behind it. |
| Bytecode.WideOperands | janadinite-parse/src/class.rs:508-544 | Behind the wide prefix loads and stores have two bytes of index, and the increment two signed bytes as well; anything else is invalid. |
| Bytecode.ShortOperand | macros/src/opcode_decode.rs:264-302 | The one-byte loads and stores: five kinds of four locals. |
| Bytecode.OtherOpcode | janadinite-parse/src/class.rs:564 | Every other byte is an invalid instruction. |
| Bytecode.FormsAgree | macros/src/opcode_decode.rs:264-302 | The one-byte, long and wide forms of a load or store denote the same access to the same local. |
| Descriptors.FieldsOfPrinted | janadinite-parse/src/class.rs:764-796 | The descriptor iterator reads every printed type back and stops where it ends. |
| Descriptors.LettersExact | janadinite-parse/src/class.rs:764-796 | The kind that is read is the one its letter stands for, and only long and double take two slots. |
| Descriptors.ArgCursor.Next | janadinite-parse/src/class.rs:829-850 | The parameter iterator yields the next parameter, or ends at text that is none. |
| Descriptors.ComputeArgsSize | janadinite-parse/src/class.rs:853-857 | The loop sums the slots of the parameters. |
| Descriptors.ArgsOfPrinted | janadinite-parse/src/class.rs:826-851 | Splitting a printed parameter list gives exactly the printed types. |
| Descriptors.SlotsOfPrinted | janadinite-parse/src/class.rs:853-857 | Their total counts two for long and double and one for anything else, arrays included. |
| Descriptors.ParseExact | janadinite-parse/src/class.rs:806-813 | The parameter text is recovered from a descriptor exactly when it contains no parenthesis. |
| Descriptors.ParseAny | janadinite-parse/src/class.rs:806-813 | For any text: no parameters without a parenthesis, otherwise what stands between the first and the next, and the return type what stands behind that. |
| Descriptors.MethodDescriptorExact | janadinite-parse/src/class.rs:805-858 | For every descriptor of section 4.3.3 of the Java Virtual Machine Specification with parenthesis-free names: the parameters are the printed types, and `args_size` is their total. |
| Descriptors.ArgsCover | janadinite-parse/src/class.rs:826-851 | For any text the parameters are a prefix of it, and what is left starts no parameter. |
| Bytes.ToBytesExact | janadinite-parse/src/io.rs:71-93 | A number that fits is recovered from its big-endian bytes. |
| Bytes.BigEndianExact | janadinite-parse/src/io.rs:17-39 | Any bytes are recovered from the number they denote. |
| Bytes.BigEndianConcat | janadinite-parse/src/io.rs:17-39 | The bytes in front weigh 256 more for each byte behind them. |
| Bytes.Reader.ReadExact | janadinite-parse/src/io.rs:9-15 | A read takes exactly the bytes asked for, or takes all that is left and fails. |
| Bytes.Reader.ReadBytes | janadinite-parse/src/io.rs:46-53 | Reading bytes one by one gives the next `n`, or fails when there are fewer. |
| ClassFile.EntryRoundTrip | janadinite-parse/src/class/constant_pool.rs:203-399 | Every constant that fits its fields is read back from its bytes, leaving what follows; unchanged exactly when it is not a non-canonical NaN. |
| ClassFile.NaNExact | janadinite-parse/src/io.rs:169-205 | In bits: which floats and doubles are NaN, that these are written as all ones, and every other number as itself. |
| ClassFile.EntryFails | janadinite-parse/src/class/constant_pool.rs:203-297 | From any bytes: how many each tag takes, and which error an unknown tag, bad text or a missing byte gives. |
| ClassFile.LimitsExact | janadinite-parse/src/class/constant_pool.rs:306-317 | A string is written exactly when it has at most 65535 bytes. |
| ClassFile.PoolUpTo | janadinite-parse/src/class/raw.rs:280-300 | Decoding an encoded pool with any count gives the pool up to where the loop stops, never inside an 8-byte constant. |
| ClassFile.PoolRoundTrip | janadinite-parse/src/class/raw.rs:280-300 | Given the pool's length as count, a well-formed pool comes back whole, with the unusable entries of section 4.4.5 of the Java Virtual Machine Specification reinserted. |
| ClassFile.DecodedPoolIsShaped | janadinite-parse/src/class/raw.rs:280-300 | From any bytes: unusable entries stand first and after 8-byte constants and nowhere else, and the pool has as many entries as the count, or one more; except that with the count 65535 and an 8-byte constant in the last place the index wraps, and the pool has at least 131071 entries. |
| ClassFile.AttributesRoundTrip | janadinite-parse/src/class/raw.rs:166-192 | A list of attributes comes back and leaves the bytes that follow. |
| ClassFile.MembersRoundTrip | janadinite-parse/src/class/raw.rs:194-260 | A list of fields or methods comes back and leaves the bytes that follow. |
| ClassFile.TailRoundTrip | janadinite-parse/src/class/raw.rs:302-331 | Everything after the pool comes back. |
| ClassFile.FileRoundTripExact | janadinite-parse/src/class/raw.rs:262-366 | A whole file comes back exactly when its magic is right and its pool is empty or ends with an 8-byte constant. |
| ClassIO.ReadEntry | janadinite-parse/src/class/constant_pool.rs:204-297 | Reading by tag from a mutable reader agrees with the decoding function, value, rest and error. |
| ClassIO.ReadPool | janadinite-parse/src/class/raw.rs:280-300 | The pool loop agrees with its function. |
| ClassIO.ReadAttributes | janadinite-parse/src/io.rs:46-53 | `decode_n` of attributes agrees with its function. |
| ClassIO.ReadMembers | janadinite-parse/src/class/raw.rs:194-245 | So do the field and method lists. |
| ClassIO.ReadFile | janadinite-parse/src/class/raw.rs:263-333 | So does the file reader. |
| ClassIO.WriteEntry | janadinite-parse/src/class/constant_pool.rs:302-397 | The writer appends exactly the entry's bytes, or fails on a string that is too long. |
| ClassIO.WritePool | janadinite-parse/src/io.rs:96-101 | `encode_items` appends exactly the pool's bytes. |
| ClassIO.WriteFile | janadinite-parse/src/class/raw.rs:336-366 | The writer appends exactly the file's bytes. |
| Members.BuildMethods | src/vm/class.rs:548-577 | The loop builds the method table and the static table of their functions. |
| Members.VtableKeeps | src/vm/class.rs:548-577 | Name-descriptor pairs stay unique, each index is its position as a `u16`, and every inherited name and descriptor keeps its place. |
| Members.SearchFindsLatest | src/vm/class.rs:553-577 | For every name and descriptor the table holds the last declared instance method, or else the inherited one. |
| Members.StaticsExact | src/vm/class.rs:555-562 | The static table holds exactly the static methods, in order. |
| Members.BuildFields | src/vm/class.rs:579-618 | The two loops build the field list of its function. |
| Members.LayoutKept | src/vm/class.rs:579-618 | If the superclass's instance fields are contiguous from zero, so are the class's. |
| Members.LaidAt | src/vm/class.rs:579-618 | A laid-out field starts where the slots before it end, and later fields start behind it. |
| Members.SlotIsCovered | src/vm/class.rs:579-618 | Below their total every instance slot belongs to some field: there are no gaps. |
| Members.InstanceSlotsFit | src/vm/class.rs:510-512 | The instance fields fit the slots an object is given, statics being counted as well. |
| Members.FieldSlotsExact | janadinite-parse/src/class.rs:757-762 | A field takes two slots exactly when its type is long or double, and one otherwise. |
| Members.NoFieldSlots | janadinite-parse/src/class.rs:764-796 | One whose descriptor begins with no type takes none. |
| Members.OffsetsExact | src/vm/class.rs:594-618 | Each declared instance field stands behind the inherited ones and behind the slots of the types declared before it. |
| Members.SlotsExact | src/vm/class.rs:510-618 | In the slots of the printed types: where the instance fields end, how many slots an object is given, and that the fields lie in these and are disjoint. |
| Members.DeclaredIndexExact | src/vm/class.rs:594-618 | For a declared field that is exactly when no instance field is inherited. |
| Members.InheritedIndexCanFail | src/vm/mod.rs:983 | A concrete class whose inherited field has an index past the end of its list. |
| ConstantPool.FromUnresolved | src/vm/class.rs:180-332 | The linking loop agrees with the linking function. |
| ConstantPool.LinkArray | src/vm/class.rs:211-257 | The loop over an array's descriptors finds its component and dimensions, saturating. |
| ConstantPool.LinkedExact | src/vm/class.rs:180-332 | Linking succeeds exactly when every index leads to an entry of the right kind and every array type has a component; then indices are preserved and each entry is linked by itself. |
| ConstantPool.TextsFound | src/vm/class.rs:124-153 | After linking, texts and name-and-types are found exactly where the class file has them: the `expect` and `panic` branches cannot be reached. |
| ConstantPool.ClassesFound | src/vm/class.rs:156-174 | A class is found exactly where the class file has one whose name is not an array's, and without panic. |
| ConstantPool.ArraysFound | src/vm/mod.rs:599-662 | A class or array is found, without panic, exactly where the class file has one, with its element and dimensions, except arrays of the class itself. |
| ConstantPool.DimensionsExact | src/vm/class.rs:211-257 | The name of an array class says its element type and its dimensions, saturating. |
| ConstantPool.ArrayLinked | src/vm/class.rs:211-257 | So it is linked by its element: a primitive type, the class itself, or another class, with the dimensions. |
| ConstantPool.NumbersLinked | src/vm/class.rs:257-260 | Integer constants become the signed numbers of their bits. |
| ConstantPool.UnresolvedHasName | src/vm/mod.rs:684-687 | An unresolved member reference always has a name and type to search for. |
| ConstantPool.VtableIdExact | src/vm/class.rs:485-490 | A method's id fetches it exactly when its position fits a `u16`. |
| ConstantPool.ResolvedMethodFetches | src/vm/class.rs:293-305 | A reference resolved while linking fetches a method of the class with the requested name and descriptor. |
| VMClasses.CreateClass | src/vm/class.rs:547-635 | Creation agrees with its function. |
| VMClasses.MadeIsSound | src/vm/class.rs:547-635 | Every class that `create` makes on a made superclass has a valid table, valid statics, contiguous fields, and keeps its superclass's slots and fields. |
| VMClasses.SlotsKept | src/vm/class.rs:548-577 | Down any chain an ancestor's table entry keeps its position, name and descriptor. |
| VMClasses.FieldsStay | src/vm/mod.rs:998 | An ancestor's instance field has the same offset in every descendant, lies within the slots an object is given, and all instance fields are disjoint. |
| VMClasses.ObjectLayout | src/vm/class.rs:510-618 | For every made class: an object has the slots of all its field types, and each instance field lies in them, disjoint from every later one. |
| VMClasses.DeclaredOffset | src/vm/class.rs:594-618 | A declared field stands behind the types of the superclass's instance fields and of those declared before it. |
| VMClasses.DispatchByName | src/vm/mod.rs:940-942 | The by-name search in the receiver's class picks the receiver's entry at the ancestor's position. |
| VMClasses.TableHoldsMostDerived | src/vm/class.rs:564-577 | For every name and descriptor a class's table holds the most derived declaration of its chain of class files. |
| VMClasses.FindMethod | src/vm/mod.rs:690-709 | The superclass loop agrees with its function. |
| VMClasses.WalkExact | src/vm/mod.rs:690-714 | The walk returns the nearest class with such a method and an id that fetches it; above the starting class only statics are ever found; nothing is returned exactly when no class of the chain has one. |
| VMClasses.FindFieldUp | src/vm/mod.rs:749-768 | The field loop agrees with its function. |
| VMClasses.InstancesFirst | src/vm/class.rs:579-592 | An ancestor's instance fields come first in a class's list, in the order they have among the ancestor's own. |
| VMClasses.InheritedIndexExact | src/vm/class.rs:501-503 | Down any chain, the index of an inherited field finds it exactly when the class that declares it inherits as many instance fields as it declares statics before it. |
| VMClasses.FieldOrigin | src/vm/class.rs:579-618 | Every field in a class's list was declared by the class, or is an instance field that an ancestor declared. |
| VMClasses.FieldWalkExact | src/vm/mod.rs:749-776 | The field walk returns the nearest class with the name and the index of its first such field; the declaration of that field decides, by the two conditions above, whether the index fetches it. |
| VMClasses.ResolveMethodFetches | src/vm/mod.rs:664-722 | Resolution never panics; a result names a made class and an id that fetches a method with the name and descriptor of the class file, from the class itself or an ancestor of the class named. |
| VMClasses.ResolveFieldFetches | src/vm/mod.rs:724-785 | Field resolution never panics; a result has the index of the field that the class file asks for, the first of name and descriptor in the class itself or else the first of the name in the nearest class, and that field's declaration decides whether the index fetches it. |
| VMClasses.MethodTextDecides | src/vm/mod.rs:664-722 | What a method reference resolves to is decided by its class name, name and descriptor, whether linking resolved it or the first use does. |
| VMClasses.FieldTextDecides | src/vm/class.rs:308-319 | A field reference resolves as its text says exactly when it is not to a field of the class itself that stands behind another of its name with another index. |
| VMClasses.SameTextSameMethod | src/vm/mod.rs:922-951 | A body that runs on another class's pool calls the same methods when the two class files agree on the text at the index. |
| VMClasses.NoReference | src/vm/mod.rs:719-720 | What is no method or field reference in the class file is refused as one. |
| VMClasses.VirtualCall | src/vm/mod.rs:922-942 | For a receiver below the resolved class the search at the call succeeds, and picks the receiver's entry at the resolved index. |
| ClassTable.StepKeeps | src/vm/mod.rs:509-580 | Every step of every loading thread keeps the invariant of the table, the lock and the pending loads, and rebinds no name. |
| ClassTable.SuperclassFirst | src/vm/mod.rs:524-540 | A name that a step binds gets a class made from its own file and from a superclass bound before the step. |
| ClassTable.BoundIsMade | src/vm/mod.rs:537-542 | Every bound class, with all its superclasses, was made by `create`. |
| ClassTable.NeverStuck | src/vm/mod.rs:509-580 | Loading does not deadlock: when a thread is not idle, it or the thread that holds the lock can go on with the load it is in. |
| ClassTable.HolderIsAlone | src/vm/mod.rs:509-580 | While a thread holds the lock no other thread's step touches the table, the lock or that thread, and its own next step of a load is determined. |
| ClassTable.LoadEndsExact | src/vm/mod.rs:509-527 | The descent of a load ends after some number of steps exactly when following the superclasses in the class files leads to a bound name, a name without file, or a class without superclass. |
| ClassTable.EndlessLoad | src/vm/mod.rs:524-527 | From a chain of superclasses that never stops, a cycle or not: after any number of steps the load is as many superclasses deeper, holds the lock, and has bound nothing. |
| ClassTable.CycleNeverLoads | src/vm/mod.rs:524-527 | Two class files that name each other as superclass never load, from the initial table. |
| ClassTable.LoadBinds | src/vm/mod.rs:509-555 | A load computes the meaning of its name: the steps down to the superclasses and back bind every class on the way and hand the class to what waits for it, or abandon all loads below when a file is missing or a class cannot be made. |
| ClassTable.AskedIsLoaded | src/vm/mod.rs:558-580 | From the request to the answer: a bound name is answered at once, any other by a load that binds what the name means. |
| ClassTable.InitialiserReturns | src/vm/mod.rs:544-553 | An initialiser that asks for a class gets it, and the load that it interrupted goes on where it was. |
| ResolutionCaches.ResolveStable | src/vm/mod.rs:664-785 | A search that succeeded gives the same after more classes were loaded. |
| ResolutionCaches.CachedIsFresh | src/vm/mod.rs:599-785 | With good cells, resolving through them equals the search without them, for every reference of every loaded class. |
| ResolutionCaches.MemberKept | src/vm/mod.rs:715-716 | Storing a found member fills its cell with what a fresh search finds, even after another thread stored, changes nothing else, and from then on the cell answers. |
| ResolutionCaches.ClassKept | src/vm/mod.rs:612-619 | The same for the cell of a class. |
| ResolutionCaches.CellsCanFill | src/vm/mod.rs:664-722 | For every reference that resolves two steps fill its cell. |
| ResolutionCaches.ClassCanFill | src/vm/mod.rs:599-618 | So do two steps for every class entry whose class is bound. |
| ResolutionCaches.StepKeepsAll | src/vm/mod.rs:509-785 | Every loading or resolving step keeps the cells good. |
| ResolutionCaches.RunKeepsAll | src/vm/mod.rs:509-785 | In every run the invariants hold throughout and the table only grows. |
| ResolutionCaches.OneClassPerName | src/vm/mod.rs:558-580 | All loaders of a name, at any two moments of any run, get the same class. |
| ResolutionCaches.ResolvedOnce | src/vm/mod.rs:664-785 | At any moment of any run resolution agrees with the fresh search, and what was resolved once never changes. |
| ResolutionCaches.InvokedMethodExists | src/vm/mod.rs:897-903 | A method resolved in any run is there: its id fetches a method with the name and descriptor of the class file. |
| ResolutionCaches.FieldEntries | src/vm/mod.rs:735-784 | The entries that are resolved as fields are exactly the field references of the class file. |
| ResolutionCaches.AccessedFieldExists | src/vm/mod.rs:961-983 | A field resolved in any run is the one that the class file asks for, without panic, and its declaration decides whether the index fetches it. |

## Left out

- Arithmetic, comparison and conversion instructions, array and object instructions: the interpreter treats them as guarded pops and pushes of any values; each is one wrapping operation.
- Floating-point values: they are kept as bit patterns.
- References in statics and in other threads: `HeapRuns` and `References` hold them as one multiset of references held elsewhere.
- References.FollowRun: covers runs of the instructions that are modelled (constants, loads, stores, branches, duplication, calls and returns), and the end of those that return. Collections at the safepoints of calls are not taken in between; `HeapRuns.StepCollect` says what they keep.
- Drops of references by several threads at once: the strong count is read outside the lock; `ManagedHeap` models a single mutator between stops.
- Memory orderings weaker than the lock, and liveness of the stop: code without calls or allocations never parks, so that threads arrive is a fairness assumption; `StopTheWorld.ArrivalsEnd` and `WorldCanStop` say what follows when they do.
- Addresses: the allocator is a parameter that may choose any unused address.
- StopTheWorld.StepKeepsNotified: assumes that the collector does not wake spuriously and that its first look at the flag is not late; `AssertionCanFail` shows both assumptions are needed.
- Interpreter.RunCode: a run uses one unit of fuel for each instruction, counted along with the calls that enclose it, and a run that ended by itself is a run with any more fuel (`Execution.MoreFuel`); the state after a failure is not described, since the whole nest of calls is abandoned then. A call of a method without enough locals counts as a panic.
- Interpreter.Invoke: method resolution and dispatch are parameters here; `VMClasses` and `ResolutionCaches` say what they find. Argument sizes are unbounded; the source cuts them to 16 bits. An inherited body runs against the pool of the class it was found through, not its declaring class; `VMClasses.SameTextSameMethod` says when its calls mean the same there, and nothing is claimed where the two pools differ. Dispatch depends on the moment of the call, so that addresses may be used again. Methods without code are not modelled.
- `PutField`, `GetField` and the static accessors as instructions: only the layout, the field search and the slot store that they rest on are modelled.
- Opcodes that the code does not implement, exceptions, native methods, and when class initialisers run: `ClassTable` lets them load classes at any point after an insertion.
- ClassTable.LoadBinds: about a thread between whose steps no other thread loads; what holds however they interleave is said by `StepKeeps`, `SuperclassFirst` and `ResolutionCaches.OneClassPerName`.
- VMClasses.ObjectLayout: assumes that the fields have descriptors of section 4.3.2 of the Java Virtual Machine Specification; what a field without one does is only said in terms of its number of slots.
- VMClasses.WalkExact: assumes that no table of the chain has more than 65536 entries; `ConstantPool.VtableIdExact` shows what happens beyond.
- VMClasses.ResolveMethodFetches: assumes the same of every class in the table.
- ResolutionCaches.InvokedMethodExists: assumes the same.
- Members.DeclaredIndexExact: assumes that every field's descriptor is valid, so that it takes a slot, and at most 65536 declared fields.
- VMClasses.InheritedIndexExact: assumes the same of every class of the chain.
- VMClasses.FieldWalkExact: assumes the same of every class of the chain.
- VMClasses.ResolveFieldFetches: assumes the same of every class in the table.
- ResolutionCaches.AccessedFieldExists: assumes the same.
- VMClasses.MethodTextDecides: assumes that the class is bound under the name in its file, which is not an array's; a file under another name is not checked by the source.
- VMClasses.FieldTextDecides: assumes the same.
- Overflow checks: sums and differences wrap, as they do in a release build. With checks on, a drop that would take `alloc_count` below zero (src/vm/heap.rs:427) panics after the object has left the set and with the heap lock held, an increment of a local that overflows panics, and so do the pool index and the program counter past 65535.
- Members.LayoutKept: offsets are unbounded; the source's `u32` would overflow only for layouts of more than four thousand million slots.
- ClassFile.PoolRoundTrip: pools of up to 65535 entries, the most that a count can say. `mutf8` is not part of this model; it is a pair of functions whose decoder inverts its encoder.
- ClassFile.DecodedPoolIsShaped: says nothing about how many bytes a failed decode has consumed.
- Attribute parsing beyond name and bytes, `Debug` output, error messages, opening files and the classpath: a class file is found by name or is not, and a failed load abandons the whole chain of loads of its thread. Poisoned locks are not modelled.
- Two names bound to files with equal content are distinct cells but equal class values.
- The macro that generates the decoder: only the decoder that it generates is modelled.
