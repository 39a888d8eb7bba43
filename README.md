# rmosh garbage collector and bytecode interpreter, modelled in Dafny

rmosh is a Rust prototype of a Scheme virtual machine. The modelled core
has three parts.

- **The collector of `rmosh/src/gc.rs`.** It is a mark-and-sweep collector
  over an intrusive singly linked list of object headers. Marking pushes
  headers on a grey stack. Tracing pops them and marks the fields of pairs.
  Sweeping unlinks and frees every unmarked header, and clears the mark of
  the rest. The model gives back each freed object's whole size; the code
  as written gives back only the header's (see Findings). After a collection the next threshold is twice the bytes still
  allocated. The collector also keeps a symbol table for `intern`.
- **The interpreter of `rmosh/src/vm.rs`.** It is an accumulator machine
  with a 256-slot operand stack, a frame pointer, a display closure and a
  global table, and 22 instructions. Every allocation may first trigger a
  collection whose roots are:
  - the live stack;
  - the accumulator;
  - the display closure;
  - the constants and symbols of the program.
- **The earlier prototype in `rmosh/src/main.rs`.** It has the same
  collector restricted to pairs and symbols, and a five-instruction
  machine that collects on every allocation.

The model has two layers.

- **Values and pure functions:** `Values`, `HeapSpec`, `VmSpec` and
  `ProtoSpec` state what each operation computes. `VmProperties`,
  `ProtoProps`, `VmExamples` and `ProtoRuns` prove what the source
  promises about those functions.
- **Imperative classes**, proved against those functions:
  - `Collector.Gc`: the header list as a `first` pointer and a map of
    `next` links, the mark bits, the grey stack and the symbol table, each
    updated in place;
  - `Interpreter.Vm`: the machine of vm.rs, with its stack an `array`;
  - `Prototype.ProtoVm`: the machine of main.rs.

A heap reference is the number of an arena slot. Slots are handed out in
increasing order and never reused, so `GcRef` pointer identity is equality
of slot numbers. An object only refers to older slots, and this is what
makes the recursive `trace_value` terminate in the model. Sizes are
abstract: one unit for a header and one per field or character. A Rust
`panic!`, a failing `expect`, an `isize` overflow and a stack access
outside the stack end a run with `Panic` (or an `Abort` status in the
imperative interpreter).

## Model

| member | source | states |
|---|---|---|
| Values.MarkSeq | rmosh/src/gc.rs:160-177 | `mark_value` pushes exactly the referenced header for a pair, symbol or closure and nothing for immediates or native procedures |
| HeapSpec.EmptyHeap | rmosh/src/gc.rs:126-133 | a new collector has no objects, a first threshold of 1 MiB, and satisfies the heap invariant |
| HeapSpec.AllocateOk | rmosh/src/gc.rs:135-145 | allocation hands out a slot that is neither allocated nor in the header list, and keeps the heap invariant (list and objects agree, no duplicates, byte count equals the list's size, objects point to older slots) |
| HeapSpec.InternedOk | rmosh/src/gc.rs:147-156 | after `intern` the name is registered to the returned symbol, which holds that name while it is allocated (a symbol freed by a sweep stays in the table); an unregistered name gets a freshly allocated symbol; the invariant is kept |
| HeapSpec.InternIdempotent | rmosh/src/vm.rs:393-399 | interning the same name twice returns the same symbol and changes nothing the second time |
| HeapSpec.InternDistinct | rmosh/src/gc.rs:147-156 | two different names intern to two different symbols |
| HeapSpec.InternAfterCollect | rmosh/src/gc.rs:147-156 | once a collection frees an interned symbol, `intern` of its name returns the freed slot and changes nothing: the table is neither a root nor pruned |
| HeapSpec.InternedSymbolFreed | rmosh/src/gc.rs:147-156 | a name interned on a new collector is freed by a collection with no roots, and interning it again returns the freed slot |
| HeapSpec.FreedHeadersWithin | rmosh/src/gc.rs:262-266 | the freed headers are never more than the whole sizes of the freed objects |
| HeapSpec.SweptAsWrittenKeepsPayload | rmosh/src/gc.rs:33-37 | with `dealloc` given the header layout, the sweep keeps the same objects and list, its byte count is the survivors' size plus every freed object's payload, and the heap invariant holds exactly when no freed object has a payload |
| HeapSpec.SweptAsWrittenLeaksPair | rmosh/src/gc.rs:243-266 | one freed pair of numbers leaves two units counted and a threshold of 4, where the whole release leaves 0 and 0 |
| HeapSpec.Pushes | rmosh/src/gc.rs:222-241 | the grey-stack pushes of `trace_pointer` on an object name only older objects |
| HeapSpec.PushesOfValue | rmosh/src/gc.rs:193-220 | the pushes of `trace_value`/`trace_object` on a value name only objects older than the value's own |
| HeapSpec.PushesOfSeq | rmosh/src/gc.rs:199-203 | tracing a closure's free variables pushes only objects older than the closure |
| HeapSpec.Traced | rmosh/src/gc.rs:187-191 | the set tracing from an object reaches contains that object and nothing newer |
| HeapSpec.TracedTransitive | rmosh/src/gc.rs:187-191 | whatever is reached from an object reached from `r` is reached from `r` |
| HeapSpec.LiveClosedUnderPushes | rmosh/src/gc.rs:222-241 | everything a live object's tracing pushes is itself live |
| HeapSpec.ReachedCovers | rmosh/src/gc.rs:187-191 | every grey object is marked by `trace_references` |
| HeapSpec.RootRefsExactly | rmosh/src/vm.rs:63-103 | an object is marked as a root exactly when some root is a pair, symbol or closure reference to it |
| HeapSpec.RootsAreLive | rmosh/src/vm.rs:63-103 | every pair, symbol or closure named by a root is live |
| HeapSpec.Filter | rmosh/src/gc.rs:248-270 | the header list after sweeping holds exactly the marked members of the old list and is no longer |
| HeapSpec.FilterPreservesOrder | rmosh/src/gc.rs:248-270 | sweeping keeps the surviving headers in their old list order |
| HeapSpec.FilterAllMarked | rmosh/src/gc.rs:248-270 | when every header is marked the list is unchanged |
| HeapSpec.Kept | rmosh/src/gc.rs:248-270 | the objects surviving a sweep are exactly the marked ones, unchanged |
| HeapSpec.SweptOk | rmosh/src/gc.rs:248-270 | sweeping keeps the invariant, keeps exactly the marked objects unchanged, and the whole sizes of the freed objects plus the bytes left are the bytes before (the release the heap-size assertions of vm.rs:416-476 expect; see Findings for the release as written) |
| HeapSpec.SweepBytes | rmosh/src/gc.rs:248-270 | the bytes of a list are the bytes of its survivors plus the whole sizes of the objects the sweep frees |
| HeapSpec.ThresholdOk | rmosh/src/gc.rs:243-247 | setting the next threshold keeps the heap invariant |
| HeapSpec.CollectFromRoots | rmosh/src/gc.rs:243-247 | a collection from the marks and grey stack `mark_roots` leaves is the collection of the objects live from the roots |
| HeapSpec.CollectOk | rmosh/src/gc.rs:243-247 | `collect_garbage` keeps the invariant, keeps exactly the live objects unchanged, never increases the byte count, and sets the threshold to twice the bytes left after the whole release |
| Collector.SweepLinks | rmosh/src/gc.rs:248-270 | the sweep loop over the header chain leaves exactly the marked objects, the filtered list as the new chain, no marks, and the byte count less the freed objects' whole sizes (the corrected release) |
| Collector.Gc.constructor | rmosh/src/gc.rs:126-133 | a new collector is valid, idle, and holds the empty heap |
| Collector.Gc.Alloc | rmosh/src/gc.rs:135-145 | the new header goes to the front of the list, its slot is fresh and unmarked, and the abstract heap is the allocation |
| Collector.Gc.PushHeader | rmosh/src/gc.rs:138-141 | the header becomes `first` and links to the old `first`; every other field is unchanged |
| Collector.Gc.Intern | rmosh/src/gc.rs:147-156 | the abstract heap and the returned symbol are those of the interning function |
| Collector.Gc.Register | rmosh/src/gc.rs:151-152 | the symbol table gains the name and nothing else changes |
| Collector.Gc.MarkObject | rmosh/src/gc.rs:179-185 | the header is pushed on the grey stack and marked |
| Collector.Gc.MarkValue | rmosh/src/gc.rs:160-177 | the grey stack grows by the value's mark pushes, and those allocated are marked |
| Collector.Gc.TracePointer | rmosh/src/gc.rs:222-241 | the grey stack grows by exactly the object's pushes, and those allocated are marked |
| Collector.Gc.TraceValue | rmosh/src/gc.rs:193-220 | the grey stack grows by exactly the value's trace pushes, and those allocated are marked |
| Collector.Gc.TraceFreeVars | rmosh/src/gc.rs:199-203 | tracing a closure's free variables in order grows the grey stack by their pushes |
| Collector.Gc.TraceReferences | rmosh/src/gc.rs:187-191 | the grey stack is drained, and the marks gain exactly what is reachable from it |
| Collector.Gc.BlackenTop | rmosh/src/gc.rs:188-190 | one pop-and-trace keeps the marked-plus-reachable set and strictly decreases the remaining work |
| Collector.Gc.CollectGarbage | rmosh/src/gc.rs:243-247 | the heap becomes the collection of the marked and grey-reachable objects; the collector ends valid and idle |
| Collector.Gc.SweepAndReset | rmosh/src/gc.rs:245-246 | sweep then reset the threshold: the heap is the collection of the marked objects |
| Collector.Gc.SetThreshold | rmosh/src/gc.rs:246 | only the threshold changes |
| Collector.Gc.Sweep | rmosh/src/gc.rs:248-270 | the heap becomes the swept heap and no mark is left |
| Collector.Gc.SweepHeaders | rmosh/src/gc.rs:248-270 | the fields after the loop are the survivors, filtered list, byte count less the freed objects' whole sizes (the corrected release), no marks and a well-formed chain; the grey stack, cursor, symbols and threshold are unchanged |
| VmSpec.FreeVars | rmosh/src/vm.rs:231-244 | a display or closure captures `num` values, the `i`-th being the slot `i` below the top of the stack |
| VmSpec.NewVm | rmosh/src/vm.rs:24-35 | a new machine satisfies the machine invariant |
| VmSpec.RootPushesOfRoots | rmosh/src/vm.rs:63-103 | `mark_roots` pushes the live stack, then the accumulator, the display closure and the instructions' roots, in that order |
| VmSpec.StartOk | rmosh/src/vm.rs:144-151 | the prologue of `run` with `initialize_free_vars` keeps the machine invariant |
| VmSpec.AllocObjOk | rmosh/src/vm.rs:45-48 | `alloc` keeps the invariant, returns a fresh reference holding the object, and changes nothing but the heap |
| VmSpec.MarkAndSweepOk | rmosh/src/vm.rs:50-61 | `mark_and_sweep` keeps the invariant and the allocation cursor and changes nothing but the heap |
| VmSpec.ConsOk | rmosh/src/vm.rs:161-167 | `Cons` keeps the machine invariant |
| VmSpec.DisplayOk | rmosh/src/vm.rs:231-244 | `Display` keeps the machine invariant |
| VmSpec.ClosureOk | rmosh/src/vm.rs:261-282 | `Closure` keeps the machine invariant |
| VmSpec.ReferFreeOk | rmosh/src/vm.rs:245-252 | `ReferFree` keeps the machine invariant |
| VmSpec.ReturnNOk | rmosh/src/vm.rs:344-366 | `return_n` keeps the machine invariant |
| VmSpec.CallOk | rmosh/src/vm.rs:283-310 | `Call` keeps the machine invariant |
| VmSpec.LeaveOk | rmosh/src/vm.rs:217-230 | `Leave` keeps the machine invariant |
| VmSpec.AddPairOk | rmosh/src/vm.rs:177-193 | `AddPair` keeps the machine invariant |
| VmSpec.NumberAddOk | rmosh/src/vm.rs:168-176 | `NumberAdd` keeps the machine invariant |
| VmSpec.PushOk | rmosh/src/vm.rs:158-160 | `Push` keeps the machine invariant |
| VmSpec.LetFrameOk | rmosh/src/vm.rs:209-213 | `LetFrame` keeps the machine invariant |
| VmSpec.FrameOk | rmosh/src/vm.rs:314-333 | `Frame` keeps the machine invariant |
| VmSpec.AllocStepOk | rmosh/src/vm.rs:161-282 | the allocating instructions keep the machine invariant |
| VmSpec.FrameStepOk | rmosh/src/vm.rs:158-333 | the stack-frame instructions keep the machine invariant |
| VmSpec.OtherStepOk | rmosh/src/vm.rs:155-336 | the remaining instructions keep the machine invariant |
| VmSpec.StepOk | rmosh/src/vm.rs:152-340 | every turn of the loop of `run` that does not abort keeps the machine invariant |
| VmSpec.StepsNext | rmosh/src/vm.rs:152-340 | a run is one step followed by the run from the state it leaves |
| VmProperties.PushStoresAc | rmosh/src/vm.rs:158-160 | `Push` succeeds exactly when the stack has room; it stores the accumulator at the stack pointer, advances it, and changes nothing else |
| VmProperties.PopUndoesPush | rmosh/src/vm.rs:109-121 | a pop after a push returns the pushed value and the old stack pointer |
| VmProperties.PushValuesSlots | rmosh/src/vm.rs:116-121 | pushes in a row fill consecutive slots from the stack pointer and leave every other slot alone; they fail exactly when the stack overflows |
| VmProperties.LetFrameLeave | rmosh/src/vm.rs:209-230 | `Leave(n)` after `LetFrame` and `n` more slots restores the display closure, frame pointer and stack pointer `LetFrame` saved |
| VmProperties.LeaveNeedsFrame | rmosh/src/vm.rs:217-230 | `Leave(n)` continues exactly when a saved frame pointer lies under the `n` dropped slots with a slot below it |
| VmProperties.FrameReturn | rmosh/src/vm.rs:314-333 | `Return(n)` after `Frame(skip)` and `n` more slots restores the frame pointer, display closure and stack pointer, and continues at `pc + skip` |
| VmProperties.FrameSaves | rmosh/src/vm.rs:314-333 | `Frame` pushes the return address, the display closure twice and the frame pointer |
| VmProperties.ReturnRestores | rmosh/src/vm.rs:344-366 | `return_n` over an intact frame restores what `Frame` saved |
| VmProperties.ReturnNeedsFrame | rmosh/src/vm.rs:344-366 | `return_n` continues exactly when a saved frame pointer is on top of the frame and a non-negative return address at its bottom |
| VmProperties.DefineThenRefer | rmosh/src/vm.rs:194-205 | `DefineGlobal(x)` binds `x` to the accumulator and clears it; `ReferGlobal(x)` then loads the bound value |
| VmProperties.ReferGlobalBound | rmosh/src/vm.rs:198-205 | `ReferGlobal` aborts exactly when the symbol is unbound, and otherwise loads its value |
| VmProperties.CallClosure | rmosh/src/vm.rs:283-298 | calling a closure continues exactly when it takes no optional argument and the argument count matches; the closure becomes the display, `fp` is `sp - argLen` and execution goes to the closure's entry |
| VmProperties.CallNonProcedure | rmosh/src/vm.rs:306-308 | calling anything but a closure or a procedure aborts |
| VmProperties.CallProcedure | rmosh/src/vm.rs:297-305 | calling a native procedure continues exactly when it gets one argument, the argument slot `fp + 1` is on the stack, the procedure is allocated and a saved frame pointer and a non-negative return address lie below the argument; then `ac` is `Undef` and `fp`, `dc`, `sp` and `pc` come from that frame; in every other case it aborts |
| VmProperties.CallProcedureReturns | rmosh/src/vm.rs:297-305 | a native procedure called with its one argument on a frame that `Frame(skip)` built leaves `Undef` in `ac` and restores the caller's `fp`, `dc` and `sp`, continuing at `pc + skip` |
| VmProperties.NumberAddSum | rmosh/src/vm.rs:168-176 | `NumberAdd` continues exactly when a number is popped, the accumulator is a number and the sum fits in `isize`; the sum goes to the accumulator |
| VmProperties.AddPairSums | rmosh/src/vm.rs:177-193 | `AddPair` continues exactly when the accumulator names an allocated pair of two numbers whose sum fits in `isize`; the sum goes to the accumulator |
| VmProperties.ConsBuildsPair | rmosh/src/vm.rs:161-167 | `Cons` aborts only on an empty stack; otherwise it pops one slot and puts a fresh pair of the popped value and the accumulator in the accumulator |
| VmProperties.AllocKeepsExactlyLive | rmosh/src/vm.rs:45-61 | an allocation keeps an old object exactly when no collection is due or the object is live from the roots, and keeps it unchanged |
| VmProperties.AllocKeepsRoots | rmosh/src/vm.rs:63-103 | every object a root names survives an allocation |
| VmProperties.ConsWindow | rmosh/src/vm.rs:161-167 | the popped first element of `Cons` survives the pair's allocation exactly when no collection is due or something else keeps it live |
| VmProperties.StepsOk | rmosh/src/vm.rs:152-340 | a run still going after any number of turns keeps the machine invariant |
| VmProperties.StepsCompose | rmosh/src/vm.rs:152-340 | running `a` turns and then `b` more is running `a + b` turns |
| VmProperties.MoreFuel | rmosh/src/vm.rs:152-340 | a run that has halted or aborted gives the same outcome with more fuel |
| VmExamples.ConstantLoads | rmosh/src/vm.rs:155-157 | `Constant` loads its operand and moves on |
| VmExamples.AddPairLoads | rmosh/src/vm.rs:463-485 | the first three instructions of the `test_vm_run_add_pair` program push 99 and load 101 |
| VmExamples.ConsThenAddPair | rmosh/src/vm.rs:463-485 | `Cons` then `AddPair` on 99 and 101 halt with 200, with the pair of 99 and 101 as the new object |
| VmExamples.AddPairGives200 | rmosh/src/vm.rs:463-485 | the program halts with 200 and the stack pointer where it was |
| VmExamples.RunAddPairGives200 | rmosh/src/vm.rs:463-485 | `run` of the program on a new machine halts with 200 |
| VmExamples.DefineGives9 | rmosh/src/vm.rs:442-460 | the `test_vm_define` program halts with 9 in the accumulator and bound to the symbol |
| VmExamples.RunDefineGives9 | rmosh/src/vm.rs:442-460 | with "a" interned twice (giving the same symbol), `run` on a new machine halts with 9 |
| VmExamples.CallProcPushes | rmosh/src/vm.rs:402-421 | `Frame(8)` and the argument build the frame with return address 7 and 3 on top |
| VmExamples.CallProcReturns | rmosh/src/vm.rs:402-421 | calling the native procedure leaves `Undef`, pops the frame and continues past the end |
| VmExamples.RunCallProcGivesUndef | rmosh/src/vm.rs:402-421 | `run` of the `test_vm_call_proc` program on a new machine halts with `Undef` |
| Interpreter.Vm.constructor | rmosh/src/vm.rs:24-35 | a new machine is valid and its state is the new-machine value |
| Interpreter.Vm.Push | rmosh/src/vm.rs:116-121 | the value is stored at the stack pointer, which advances; fails exactly on a full stack and then changes nothing |
| Interpreter.Vm.Pop | rmosh/src/vm.rs:109-114 | the stack pointer steps back and the slot it points at is returned; fails exactly on an empty stack |
| Interpreter.Vm.Index | rmosh/src/vm.rs:123-125 | the slot `n + 1` below the given pointer, exactly when it is inside the stack |
| Interpreter.Vm.StackLen | rmosh/src/vm.rs:127-129 | the number of live slots is the stack pointer |
| Interpreter.Vm.CollectFreeVars | rmosh/src/vm.rs:233-237 | the gathered free variables are those of the specification |
| Interpreter.Vm.MarkRoots | rmosh/src/vm.rs:63-103 | the grey stack is the root pushes in order, and exactly the allocated root objects are marked |
| Interpreter.Vm.MarkStack | rmosh/src/vm.rs:64-66 | marking the live stack pushes its roots in slot order |
| Interpreter.Vm.MarkRoot | rmosh/src/vm.rs:68-69 | marking a register pushes its mark pushes |
| Interpreter.Vm.MarkOps | rmosh/src/vm.rs:71-102 | marking the instructions pushes their roots in program order |
| Interpreter.Vm.MarkOp | rmosh/src/vm.rs:72-101 | one instruction's constant or symbol is marked; other instructions mark nothing |
| Interpreter.Vm.MarkAndSweep | rmosh/src/vm.rs:50-61 | the new state is the specification's `mark_and_sweep`, and the machine stays valid |
| Interpreter.Vm.Collect | rmosh/src/vm.rs:55-56 | the heap becomes the collection from the machine's roots |
| Interpreter.Vm.Alloc | rmosh/src/vm.rs:45-48 | the new state and reference are those of the specification's `alloc` |
| Interpreter.Vm.GcAlloc | rmosh/src/vm.rs:47 | the heap becomes the allocation and the reference is fresh |
| Interpreter.Vm.Intern | rmosh/src/vm.rs:105-107 | the heap and symbol are those of the interning function |
| Interpreter.Vm.ExecPush | rmosh/src/vm.rs:158-160 | the outcome and new state are those of the `Push` step |
| Interpreter.Vm.ExecCons | rmosh/src/vm.rs:161-167 | the outcome and new state are those of the `Cons` step |
| Interpreter.Vm.AllocPair | rmosh/src/vm.rs:164-166 | the state after the pair's allocation is that of the specification |
| Interpreter.Vm.ExecNumberAdd | rmosh/src/vm.rs:168-176 | the outcome and new state are those of the `NumberAdd` step |
| Interpreter.Vm.ExecAddPair | rmosh/src/vm.rs:177-193 | the outcome and new state are those of the `AddPair` step |
| Interpreter.Vm.ExecReferGlobal | rmosh/src/vm.rs:198-205 | the outcome and new state are those of the `ReferGlobal` step |
| Interpreter.Vm.ExecLetFrame | rmosh/src/vm.rs:209-213 | the outcome and new state are those of the `LetFrame` step |
| Interpreter.Vm.ExecReferLocal | rmosh/src/vm.rs:214-216 | the outcome and new state are those of the `ReferLocal` step |
| Interpreter.Vm.ExecLeave | rmosh/src/vm.rs:217-230 | the outcome and new state are those of the `Leave` step |
| Interpreter.Vm.ExecDisplay | rmosh/src/vm.rs:231-244 | the outcome and new state are those of the `Display` step |
| Interpreter.Vm.AllocDisplay | rmosh/src/vm.rs:240-243 | the state after the display's allocation is that of the specification |
| Interpreter.Vm.ExecReferFree | rmosh/src/vm.rs:245-252 | the outcome and new state are those of the `ReferFree` step |
| Interpreter.Vm.ExecClosure | rmosh/src/vm.rs:261-282 | the outcome, new state and next instruction are those of the `Closure` step |
| Interpreter.Vm.ClosureJump | rmosh/src/vm.rs:272-281 | the allocation and jump leave the state of the specification |
| Interpreter.Vm.AllocClosure | rmosh/src/vm.rs:272-280 | the state after the closure's allocation is that of the specification |
| Interpreter.Vm.ReturnN | rmosh/src/vm.rs:344-366 | the outcome and new state are those of `return_n` |
| Interpreter.Vm.ExecCall | rmosh/src/vm.rs:283-310 | the outcome and new state are those of the `Call` step |
| Interpreter.Vm.ExecFrame | rmosh/src/vm.rs:314-333 | the outcome and new state are those of the `Frame` step |
| Interpreter.Vm.Execute | rmosh/src/vm.rs:153-337 | one instruction: the outcome and new state are those of the step function, and the machine stays valid unless it aborts |
| Interpreter.Vm.Dispatch | rmosh/src/vm.rs:154-337 | the dispatch on the instruction agrees with the step function |
| Interpreter.Vm.DispatchPlain | rmosh/src/vm.rs:154-337 | the dispatch on the non-allocating instructions agrees with the step function |
| Interpreter.Vm.ExecuteFrame | rmosh/src/vm.rs:158-333 | the stack-frame instructions agree with the step function |
| Interpreter.Vm.ExecuteRefer | rmosh/src/vm.rs:168-252 | the reading instructions agree with the step function |
| Interpreter.Vm.ExecuteRegisters | rmosh/src/vm.rs:155-336 | the register and jump instructions agree with the step function |
| Interpreter.Vm.InitializeFreeVars | rmosh/src/vm.rs:37-43 | the native procedure and a display closure over it are allocated, and the closure becomes the display |
| Interpreter.Vm.Turn | rmosh/src/vm.rs:152-340 | one turn of the loop: the rest of the run from the old state is the rest of the run from the new one |
| Interpreter.Vm.Prologue | rmosh/src/vm.rs:144-151 | the program is installed and the state is the prologue's |
| Interpreter.Vm.Run | rmosh/src/vm.rs:144-342 | the outcome and final state are those of the run function, and the result is the accumulator |
| Interpreter.Vm.Loop | rmosh/src/vm.rs:152-341 | the loop's outcome is the bounded run from the state it starts in |
| ProtoSpec.NewMachineOk | rmosh/src/main.rs:275-283 | a new prototype machine satisfies the invariant and holds no dangling reference |
| ProtoSpec.RootPushesOfRoots | rmosh/src/main.rs:299-317 | `mark_roots` pushes the live stack, then the accumulator, then the constants |
| ProtoSpec.ConstRootsNext | rmosh/src/main.rs:306-316 | marking one more instruction pushes its constant after those before it |
| ProtoSpec.AllocObjOk | rmosh/src/main.rs:285-288 | `alloc` keeps the invariant, returns a fresh reference holding the object, and changes nothing but the heap |
| ProtoSpec.StepOk | rmosh/src/main.rs:350-393 | every instruction that does not panic keeps the invariant |
| ProtoSpec.ConsRootedOk | rmosh/src/main.rs:360-367 | the corrected `Cons` keeps the invariant |
| ProtoSpec.StepAsWrittenOk | rmosh/src/main.rs:350-393 | every instruction of the machine as written that does not panic keeps the invariant |
| ProtoSpec.ConsAsWrittenOk | rmosh/src/main.rs:360-367 | `Cons` as written keeps the invariant: its pair may name a freed slot, never one not yet handed out |
| ProtoProps.RootRefsOf | rmosh/src/main.rs:133-143 | an object is a marked root exactly when a root value's mark pushes name it |
| ProtoProps.ConstRootsOf | rmosh/src/main.rs:306-316 | a value is a constant root exactly when the program has `Constant` of it |
| ProtoProps.RootsExactly | rmosh/src/main.rs:299-317 | the roots are exactly the live stack, the accumulator and the constants |
| ProtoProps.RootIsLive | rmosh/src/main.rs:299-317 | every pair or symbol held by a root is live |
| ProtoProps.LiveBelow | rmosh/src/main.rs:153-193 | everything live is below any bound that covers the roots |
| ProtoProps.AllocCollects | rmosh/src/main.rs:285-288 | the prototype collects on every allocation: the heap keeps exactly the live objects, unchanged and in list order, plus the new one at the front |
| ProtoProps.ConstantLoads | rmosh/src/main.rs:352-354 | `Constant` loads its operand |
| ProtoProps.PushStores | rmosh/src/main.rs:355-359 | `Push` succeeds exactly when the stack has room, and stores the accumulator at the stack pointer |
| ProtoProps.AddSums | rmosh/src/main.rs:368-378 | `Add` succeeds exactly on a popped number, a number in the accumulator and an in-range sum, which goes to the accumulator |
| ProtoProps.PushThenAdd | rmosh/src/main.rs:355-378 | `Push` then `Add` doubles the accumulator and leaves the stack pointer where it was |
| ProtoProps.AddPairSums | rmosh/src/main.rs:379-391 | `AddPair` succeeds exactly on an allocated pair of numbers with an in-range sum, which goes to the accumulator |
| ProtoProps.ConsBuildsPair | rmosh/src/main.rs:360-367 | the corrected `Cons` pops one slot and puts a fresh pair of it and the accumulator in the accumulator |
| ProtoProps.RunFromNext | rmosh/src/main.rs:348-394 | the loop is one instruction followed by the rest, and a panic ends it |
| ProtoProps.RunOk | rmosh/src/main.rs:345-395 | a run that finishes keeps the invariant |
| ProtoProps.RootKept | rmosh/src/main.rs:290-297 | a collection keeps every present object that a root names |
| ProtoProps.FieldsLive | rmosh/src/main.rs:178-193 | the pair or symbol fields of a live pair are live |
| ProtoProps.CollectKeepsClosed | rmosh/src/main.rs:195-222 | a collection leaves no dangling reference in the roots or in surviving pairs |
| ProtoProps.AllocateKeepsClosed | rmosh/src/main.rs:119-129 | allocating a pair of present values leaves no dangling reference |
| ProtoProps.ConsKeepsClosed | rmosh/src/main.rs:360-367 | the corrected `Cons` always succeeds on a non-empty stack and leaves no dangling reference |
| ProtoProps.StepKeepsClosed | rmosh/src/main.rs:350-393 | no instruction of the corrected machine creates a dangling reference |
| ProtoProps.RunKeepsClosed | rmosh/src/main.rs:345-395 | a whole run of the corrected machine never creates a dangling reference |
| ProtoProps.ConsAsWrittenAgrees | rmosh/src/main.rs:360-367 | when the popped first element holds no reference, `Cons` as written and the corrected `Cons` give the same machine |
| ProtoProps.StepKeepsImmediates | rmosh/src/main.rs:350-393 | an instruction keeps the live stack free of references when `Push` pushes none, and `Constant` loads its operand |
| ProtoProps.RunAsWrittenAgrees | rmosh/src/main.rs:345-395 | for a program whose every `Push` follows a constant without a reference, run from a stack without references, the machine as written and the corrected machine have the same outcome |
| ProtoRuns.RunAddGives100 | rmosh/src/main.rs:319-329 | `run_add` ends with 100 and 99 stored in the slot it pushed, exactly when the stack had room |
| ProtoRuns.RunAddPairGives200 | rmosh/src/main.rs:331-343 | `run_add_pair` ends with 200 exactly when the stack had room, and the pair of 99 and 101 is the one new object |
| ProtoRuns.RunAddPairFreesPair | rmosh/src/main.rs:331-343 | the final `mark_and_sweep` of `run_add_pair` frees the pair, leaving an initially empty heap empty |
| ProtoRuns.AddPairPushesImmediates | rmosh/src/main.rs:331-338 | the one `Push` of `run_add_pair` follows the constant 99 |
| ProtoRuns.RunAddPairAsWritten | rmosh/src/main.rs:331-343 | `run_add_pair` as written has the same outcome as on the corrected machine from any stack of numbers, so its 200 and its freed pair hold as written |
| ProtoRuns.ManyPairsAt | rmosh/src/vm.rs:427-432 | instruction `t` of turn `j` of the many-pairs program is instruction `t` of the loop body |
| ProtoRuns.ManyPairsConsts | rmosh/src/vm.rs:427-432 | the constants of the many-pairs program are 99 and 101 |
| ProtoRuns.ManyPairsPushesImmediates | rmosh/src/vm.rs:427-432 | every `Push` of the many-pairs program follows the constant 99 |
| ProtoRuns.ManyPairsStartOk | rmosh/src/main.rs:275-283 | a new prototype machine keeps the invariant for the many-pairs program |
| ProtoRuns.ManyPairsRootsEmpty | rmosh/src/main.rs:299-317 | with 99 on the stack and 101 in `ac`, nothing is a root of the many-pairs program |
| ProtoRuns.ManyPairsTurn | rmosh/src/main.rs:350-367 | one turn from an empty stack frees every object and leaves the new pair of 99 and 101 as the only one, named by `ac`, with the stack empty |
| ProtoRuns.ManyPairsFrom | rmosh/src/main.rs:345-395 | the remaining turns, one slot each, end with the last pair as the only object, named by `ac` |
| ProtoRuns.ManyPairsKeepsLast | rmosh/src/vm.rs:424-439 | the program of `test_vm_alloc_many_pairs` on a new prototype machine ends with one slot handed out per turn and the last pair of 99 and 101 as the only object, named by `ac`, with the stack empty |
| ProtoRuns.ManyPairsFinalSweep | rmosh/src/vm.rs:434-438 | the `mark_and_sweep` after that run keeps exactly the last pair |
| ProtoRuns.ManyPairsAsWritten | rmosh/src/main.rs:360-367 | the machine as written has the same outcome on the many-pairs program |
| ProtoRuns.ReachBeforeSecondCons | rmosh/src/main.rs:350-393 | six instructions of the window program lead from a new machine to the second `Cons` with the first pair on the stack |
| ProtoRuns.ConsAsWrittenDangles | rmosh/src/main.rs:360-367 | `Cons` as written frees the pair it popped, and the new pair's first field dangles |
| ProtoRuns.ConsRootedKeepsPair | rmosh/src/main.rs:360-367 | the corrected `Cons` on the same machine keeps the first pair, and nothing dangles |
| Prototype.ProtoVm.constructor | rmosh/src/main.rs:275-283 | a new machine is valid, its state is the new-machine value, and it owns a fresh collector and stack |
| Prototype.ProtoVm.MarkRoots | rmosh/src/main.rs:299-317 | the grey stack is the root pushes in order, and exactly the allocated roots are marked |
| Prototype.ProtoVm.MarkStack | rmosh/src/main.rs:300-302 | marking the live stack pushes its roots in slot order |
| Prototype.ProtoVm.MarkRoot | rmosh/src/main.rs:304 | marking the accumulator pushes its mark pushes |
| Prototype.ProtoVm.MarkConsts | rmosh/src/main.rs:306-316 | marking the program pushes its constants in order |
| Prototype.ProtoVm.MarkConst | rmosh/src/main.rs:307-315 | one instruction's constant is marked; the others mark nothing |
| Prototype.ProtoVm.MarkAndSweep | rmosh/src/main.rs:290-297 | the heap becomes the collection from the machine's roots, and the machine stays valid |
| Prototype.ProtoVm.Alloc | rmosh/src/main.rs:285-288 | the new state and reference are those of the specification's `alloc` |
| Prototype.ProtoVm.GcAlloc | rmosh/src/main.rs:287 | the heap becomes the allocation and the reference is the cursor |
| Prototype.ProtoVm.ExecPush | rmosh/src/main.rs:355-359 | succeeds exactly when the `Push` step does, with its new state |
| Prototype.ProtoVm.ExecCons | rmosh/src/main.rs:360-367 | succeeds exactly when the corrected `Cons` step does, with its new state |
| Prototype.ProtoVm.AllocPair | rmosh/src/main.rs:361-366 | the pair is allocated with the first element still on the stack, then popped |
| Prototype.ProtoVm.PopInto | rmosh/src/main.rs:361-366 | the stack pointer steps back and the pair goes to the accumulator |
| Prototype.ProtoVm.ExecAdd | rmosh/src/main.rs:368-378 | succeeds exactly when the `Add` step does, with its new state |
| Prototype.ProtoVm.ExecAddPair | rmosh/src/main.rs:379-391 | succeeds exactly when the `AddPair` step does, with its new state |
| Prototype.ProtoVm.Execute | rmosh/src/main.rs:350-393 | one instruction agrees with the step function and keeps the machine valid |
| Prototype.ProtoVm.Run | rmosh/src/main.rs:345-395 | succeeds exactly when the run function does, with its final state, and returns the accumulator |
| Prototype.ProtoVm.RunAdd | rmosh/src/main.rs:319-329 | `run_add` returns 100 exactly when the stack had room, leaving 99 in the pushed slot |
| Prototype.ProtoVm.RunAddPair | rmosh/src/main.rs:331-343 | `run_add_pair` returns 200 exactly when the stack had room; afterwards the pair is freed and an initially empty heap is empty again |
| Prototype.VmRunAdd | rmosh/src/main.rs:403-412 | `test_vm_run_add`: a new machine's `run_add` gives 100 |
| Prototype.VmRunAddPair | rmosh/src/main.rs:415-424 | `test_vm_run_add_pair`: a new machine's `run_add_pair` gives 200 and leaves the heap empty |
| Prototype.SymbolKeepsName | rmosh/src/main.rs:428-439 | `test_symbol`: an allocated symbol keeps the name "define" |

## Left out

- `GlobalAllocator` (gc.rs:14-40): the counter of the global allocator is the collector's `bytesAllocated` field. Object sizes are abstract: one unit per header and one per field or character. `mimalloc` and atomic ordering are left out.
- Raw pointers, `Box::into_raw`, `transmute` and `drop(Box::from_raw(..))` become arena slots that are never reused. A freed slot leaves the map. Dereferencing a freed object is undefined behaviour in Rust; in the model, reading it aborts and marking or tracing it does nothing.
- `should_gc`, `bytes_allocated`, `mark_object` on a whole value and `mark_heap_object`: vm.rs calls them, but they are not in gc.rs. They are modelled as "bytes allocated exceed the threshold", as `mark_value`, and as `mark_object` of the symbol.
- `objects.rs` and `values.rs` are not part of this model. The constructors `Pair::new`, `Symbol::new`, `Closure::new` and `Procedure::new` become datatype constructors. `Closure::refer_free(n)` is indexing the free variables, aborting out of range. `scm_write` becomes a procedure returning `Undef`; its output is left out.
- `Display`, `fmt`, `Hash`, `Deref`/`DerefMut` of `GcRef`, `println!` and `print_vm`: these are output and pointer plumbing, left out. `GcRef` equality is slot equality.
- Interpreter.Vm.Run: the loop of `run` can run forever (`LocalJmp`, `Test`), so the model takes a fuel bound. A run still going when the fuel is spent reports that and nothing more.
- Interpreter.Vm.Push: in Rust, `push` on a full stack and `pop` on an empty one write or read outside the array (undefined behaviour). The model aborts instead.
- Interpreter.Vm.Alloc, Interpreter.Vm.InitializeFreeVars and the `Exec*` methods ensure only the collector invariant and the new state, not the machine invariant `Valid()`. `Execute` re-derives `Valid()` once, from `VmSpec.StepOk`.
- Prototype.ProtoVm.ExecCons and Prototype.ProtoVm.AllocPair model the corrected `Cons`, in which the popped first element is still rooted during the allocation (see Findings). `ProtoSpec.ConsAsWritten` is the order as written, and `ProtoSpec.RunAsWritten` a whole run as written.
- ProtoSpec.StepOk, ProtoProps and Prototype.ProtoVm.Run: every member that runs through `ProtoSpec.Step` or `ProtoSpec.Run` is about the corrected `Cons`. ProtoProps.RunAsWrittenAgrees says when a run as written has the same outcome: every `Push` pushes a constant without a reference.
- ProtoRuns.RunAddPairGives200 and ProtoRuns.RunAddPairFreesPair are proved on the corrected machine. ProtoRuns.RunAddPairAsWritten carries both to the order as written for any stack of numbers, which includes a new machine.
- Prototype.ProtoVm.RunAddPair and Prototype.VmRunAddPair run the corrected `Cons`. The same run as written gives the same 200 (ProtoRuns.RunAddPairAsWritten).
- The global table is not a root in vm.rs `mark_roots`, and `trace_pointer` does nothing for closures. Both are modelled as written. `VmProperties.AllocKeepsExactlyLive` states that such objects are freed.
- The overflow of `isize` addition panics, as in a debug build. Wrap-around in a release build is left out.
- The heap-size assertions of the tests (`SIZE_OF_MIN_VM`, `SIZE_OF_PAIR`) depend on the real allocator's sizes and are left out. The generated tests from vm.rs:488 on are not modelled. Their instructions are all covered by the step lemmas.
- VmSpec.ShouldGc: the trigger is the concrete "bytes allocated exceed `next_gc`", with a first threshold of 1 MiB. A different `should_gc` changes which allocations of vm.rs collect. Under this trigger neither the 100 `Cons` of `test_vm_alloc_many_pairs` (vm.rs:424-439) nor the `mark_and_sweep` after them collects. On Interpreter.Vm all 100 pairs therefore stay allocated, and the test's promise that only the last pair survives is not modelled there. ProtoRuns.ManyPairsKeepsLast and ProtoRuns.ManyPairsFinalSweep prove that promise for the same program on the prototype, which collects at every allocation.
- HeapSpec.SweptOk: the freed bytes are the freed objects' whole sizes. gc.rs:266 (and main.rs:218) drops a `Box<GcHeader>`, so the `dealloc` of gc.rs:33-37 subtracts only the header's layout from an allocation counted with the object's whole size, a layout mismatch Rust leaves undefined. The model takes the whole release the heap-size assertions of vm.rs:416-476 expect (see Findings; HeapSpec.SweptAsWritten is the release as written).
- HeapSpec.SweepBytes: the bytes a sweep gives back are the freed objects' whole sizes, not the header-only release of gc.rs:266 (see Findings).
- HeapSpec.CollectOk: the new threshold is twice the bytes left after the whole release. As written the count still holds every freed object's payload, so `next_gc` of gc.rs:246 is higher (HeapSpec.CollectedAsWritten, HeapSpec.SweptAsWrittenLeaksPair).
- Collector.SweepLinks: the loop subtracts each freed object's whole size, the corrected release (see Findings).
- Collector.Gc.SweepHeaders: the byte count after the loop drops by the freed objects' whole sizes, the corrected release (see Findings).
- The `True` value of `Values.Value` stands for the `Object::True` that the generated tests of vm.rs load (vm.rs:708, 720). The value enum is declared in `values.rs`, which is not part of this model. `mark_value` (gc.rs:160-177) has no arm for it, and the model treats it as the immediate it is, like `False`.
- HeapSpec.InternedOk: the returned symbol holds the name only while it is allocated. The sweep of gc.rs:248-270 never removes an entry of `symbols`, and the `mark_roots` of vm.rs:63-103 does not mark the table. So `intern` after a collection that freed the symbol returns the freed slot (HeapSpec.InternAfterCollect, HeapSpec.InternedSymbolFreed). This is modelled as written; reading the freed slot aborts.
- The vm.rs `Cons` has the same unrooted window as the prototype's, but there a collection only runs when one is due. It is modelled as written, and `VmProperties.ConsWindow` says exactly when the popped value survives.

## Findings

| source | as written | input that shows it | evidently intended | confidence | as-written member | corrected member |
|---|---|---|---|---|---|---|
| rmosh/src/main.rs:360-367 | `Cons` decrements `sp` before `alloc`, which collects on every call, so the popped first element is no root while the pair is allocated | the program `Constant 1, Push, Constant 2, Cons, Push, Constant 3, Cons` on a new machine: at the second `Cons` the pair of 1 and 2 is only in the popped slot, so it is freed, and the new pair's first field dangles | the first element stays rooted until the pair holding it is allocated | not executed | ProtoRuns.ConsAsWrittenDangles | ProtoProps.RunKeepsClosed |
| rmosh/src/gc.rs:262-266 | an unmarked header is freed with `drop(Box::from_raw(object_ptr))` where `object_ptr` is a `&mut GcHeader`, so `dealloc` receives the header's layout and the byte count keeps the freed object's payload | a new collector allocating one pair of numbers and sweeping it with nothing marked: the pair is gone but two of its three units stay counted, and the next threshold is 4 rather than 0 | the whole object is released, as the heap-size assertions of vm.rs:416-476 expect | not executed | HeapSpec.SweptAsWrittenLeaksPair | HeapSpec.SweptOk |
