/** The interpreter of vm.rs as a step function on values: registers, the
    operand stack, the global table and the heap.  A run either halts with
    the accumulator, stops on an abort (a Rust `panic!`, an `expect` that
    fails, an arithmetic overflow or underflow, or a stack access outside
    the stack), or is still running when its fuel is spent.  The imperative
    interpreter in vm.dfy is proved against these definitions. */
module VmSpec {
  import opened Values
  import opened HeapSpec

  /** `STACK_SIZE` */
  const StackSize: nat := 256

  /** The range of `isize`, the payload type of `Number`. */
  const IsizeMin: int := -0x8000_0000_0000_0000
  const IsizeMax: int := 0x7fff_ffff_ffff_ffff

  /** The instruction set. */
  datatype Op =
    | Constant(c: Value)
    | Push
    | Cons
    | NumberAdd
    | AddPair
    | DefineGlobal(symbol: Ref)
    | ReferGlobal(symbol: Ref)
    | Enter(n: int)
    | LetFrame(frameSize: int)
    | ReferLocal(n: int)
    | Leave(n: int)
    | Display(numFreeVars: int)
    | ReferFree(n: int)
    | Test(skip: nat)
    | LocalJmp(jump: nat)
    | Closure(size: nat, argLen: int, isOptionalArg: bool, numFreeVars: int)
    | Call(argLen: int)
    | Return(n: int)
    | Frame(skip: nat)
    | Halt
    | Undef
    | Nop

  /** The machine: the heap, the operand stack with its stack pointer and
      frame pointer (as offsets into the stack), the accumulator, the
      display closure, the global table and the program counter. */
  datatype VmState = VmState(
    heap: HeapState,
    stack: seq<Value>,
    sp: int,
    fp: int,
    ac: Value,
    dc: Value,
    globals: map<Ref, Value>,
    pc: nat)

  /** What one step or a whole run comes to. */
  datatype Outcome = Running(s: VmState) | Halted(s: VmState) | Panic

  // ---------------------------------------------------------------------
  // Well-formed states.

  /** References an instruction holds: a constant's value, the symbol of a
      global definition or reference. */
  predicate OpBelow(op: Op, bound: nat) {
    match op
    case Constant(v) => ValueBelow(v, bound)
    case DefineGlobal(sym) => sym < bound
    case ReferGlobal(sym) => sym < bound
    case _ => true
  }

  predicate OpsBelow(ops: seq<Op>, bound: nat) {
    forall i :: 0 <= i < |ops| ==> OpBelow(ops[i], bound)
  }

  /** The stack has `STACK_SIZE` slots and the stack pointer is inside it. */
  predicate Shaped(s: VmState) {
    |s.stack| == StackSize && 0 <= s.sp <= StackSize
  }

  /** The invariant of the machine: the heap invariant, the stack's shape,
      and every reference the machine holds (stack slots, registers,
      globals, instructions) was handed out by the heap.  References are
      never reused, so a reference to a swept object stays below the
      cursor: the invariant says nothing about dangling references. */
  ghost predicate StateOk(ops: seq<Op>, s: VmState) {
    var n := s.heap.nextRef;
    && HeapOk(s.heap)
    && Shaped(s)
    && (forall i :: 0 <= i < |s.stack| ==> ValueBelow(s.stack[i], n))
    && ValueBelow(s.ac, n) && ValueBelow(s.dc, n)
    && (forall k :: k in s.globals ==> k < n && ValueBelow(s.globals[k], n))
    && OpsBelow(ops, n)
  }

  // ---------------------------------------------------------------------
  // Roots and allocation.

  /** The roots an instruction contributes: a constant's value and the
      symbol named by `DefineGlobal` and `ReferGlobal`. */
  function OpRoot(op: Op): seq<Value> {
    match op
    case Constant(v) => [v]
    case DefineGlobal(sym) => [SymbolRef(sym)]
    case ReferGlobal(sym) => [SymbolRef(sym)]
    case _ => []
  }

  /** The roots of a program, instruction by instruction. */
  function OpRoots(ops: seq<Op>): seq<Value>
    decreases |ops|
  {
    if ops == [] then [] else OpRoots(ops[..|ops| - 1]) + OpRoot(ops[|ops| - 1])
  }

  /** Marking one more instruction pushes its roots after those of the
      instructions before it. */
  lemma OpRootsNext(ops: seq<Op>, j: nat)
    requires j < |ops|
    ensures RootPushes(OpRoots(ops[..j + 1]))
      == RootPushes(OpRoots(ops[..j])) + RootPushes(OpRoot(ops[j]))
  {
    assert ops[..j + 1][..j] == ops[..j];
    RootPushesAppend(OpRoots(ops[..j]), OpRoot(ops[j]));
  }

  /** `mark_roots`, in marking order: the live part of the stack, the
      accumulator, the display closure, then the instructions.  The global
      table is not a root. */
  function Roots(ops: seq<Op>, s: VmState): seq<Value>
    requires Shaped(s)
  {
    s.stack[..s.sp] + [s.ac, s.dc] + OpRoots(ops)
  }

  /** What `mark_roots` pushes, part by part. */
  lemma RootPushesOfRoots(ops: seq<Op>, s: VmState)
    requires Shaped(s)
    ensures RootPushes(Roots(ops, s))
      == RootPushes(s.stack[..s.sp]) + MarkSeq(s.ac) + MarkSeq(s.dc) + RootPushes(OpRoots(ops))
  {
    RootPushesParts(s.stack[..s.sp], s.ac, s.dc, OpRoots(ops));
  }

  lemma RootPushesParts(live: seq<Value>, a: Value, d: Value, rest: seq<Value>)
    ensures RootPushes(live + [a, d] + rest)
      == RootPushes(live) + MarkSeq(a) + MarkSeq(d) + RootPushes(rest)
  {
    RootPushesAppend(live, [a, d]);
    RootPushesAppend(live + [a, d], rest);
    RootPushesPair(a, d);
    SeqAssoc(RootPushes(live), MarkSeq(a), MarkSeq(d), RootPushes(rest));
  }

  lemma RootPushesPair(a: Value, d: Value)
    ensures RootPushes([a, d]) == MarkSeq(a) + MarkSeq(d)
  {
    assert [a, d][..1] == [a];
    assert [a][..0] == [];
    assert RootPushes([a]) == [] + MarkSeq(a);
    assert [] + MarkSeq(a) == MarkSeq(a);
  }

  lemma AppendAssoc<T>(x: seq<T>, y: seq<T>, z: seq<T>)
    ensures x + y + z == x + (y + z)
  {
  }

  lemma SeqAssoc<T>(x: seq<T>, y: seq<T>, z: seq<T>, w: seq<T>)
    ensures x + (y + z) + w == x + y + z + w
  {
  }

  /** `should_gc`: more bytes allocated than the threshold. */
  predicate ShouldGc(h: HeapState) {
    h.bytes > h.nextGc
  }

  /** `mark_and_sweep`: a full collection for the machine's roots when the
      threshold is exceeded, otherwise nothing. */
  function MarkAndSweep(ops: seq<Op>, s: VmState): VmState
    requires HeapOk(s.heap) && Shaped(s)
  {
    if ShouldGc(s.heap) then s.(heap := Collect(s.heap, Roots(ops, s))) else s
  }

  /** `Vm::alloc`: collect if due, then allocate; the new reference. */
  function AllocObj(ops: seq<Op>, s: VmState, o: Obj): (VmState, Ref)
    requires HeapOk(s.heap) && Shaped(s)
  {
    var s1 := MarkAndSweep(ops, s);
    (s1.(heap := Allocate(s1.heap, o)), s1.heap.nextRef)
  }

  // ---------------------------------------------------------------------
  // Stack access.

  /** The stack slot at offset `k`, if there is one. */
  function Slot(s: VmState, k: int): Option<Value> {
    if 0 <= k < |s.stack| then Some(s.stack[k]) else None
  }

  /** `push`: store at the stack pointer and advance it. */
  function PushValue(s: VmState, v: Value): Option<VmState> {
    if 0 <= s.sp < |s.stack| then Some(s.(stack := s.stack[s.sp := v], sp := s.sp + 1)) else None
  }

  /** Several pushes in order. */
  function PushValues(s: VmState, vs: seq<Value>): Option<VmState>
    decreases |vs|
  {
    if vs == [] then Some(s)
    else
      match PushValue(s, vs[0])
      case None => None
      case Some(s1) => PushValues(s1, vs[1..])
  }

  /** `pop`: step the stack pointer back and read the slot it points at. */
  function PopValue(s: VmState): Option<(VmState, Value)> {
    if 0 < s.sp <= |s.stack| then Some((s.(sp := s.sp - 1), s.stack[s.sp - 1])) else None
  }

  /** The free variables a `Display` or `Closure` instruction collects:
      element `i` is the slot `i` below the top of the stack. */
  function FreeVars(stack: seq<Value>, sp: int, num: int): (fvs: seq<Value>)
    requires 0 <= sp - num && sp <= |stack|
    ensures |fvs| == if num <= 0 then 0 else num
    ensures forall i :: 0 <= i < |fvs| ==> fvs[i] == stack[sp - 1 - i]
    decreases num
  {
    if num <= 0 then [] else FreeVars(stack, sp, num - 1) + [stack[sp - num]]
  }

  /** `a + b` on `isize`, which aborts on overflow. */
  function AddIsize(a: int, b: int): Option<int> {
    if IsizeMin <= a + b <= IsizeMax then Some(a + b) else None
  }

  // ---------------------------------------------------------------------
  // One instruction.  Every instruction but `Halt` ends with `pc += 1`.

  function Next(s: VmState): Outcome {
    Running(s.(pc := s.pc + 1))
  }

  /** Continue at `target + 1`; a `usize` expression that went below zero
      aborts. */
  function Jump(s: VmState, target: int): Outcome {
    if target < 0 then Panic else Running(s.(pc := target + 1))
  }

  function StepPush(s: VmState): Outcome {
    match PushValue(s, s.ac)
    case None => Panic
    case Some(s1) => Next(s1)
  }

  /** `Cons`: pop the first element, pair it with the accumulator in a new
      pair.  The popped value is not a root during the allocation. */
  function StepCons(ops: seq<Op>, s: VmState): Outcome
    requires HeapOk(s.heap) && Shaped(s)
  {
    match PopValue(s)
    case None => Panic
    case Some((s1, first)) => WithPair(ops, s1, first)
  }

  /** The rest of `Cons` once the first element is popped: the pair of it
      and the accumulator goes to the accumulator. */
  function WithPair(ops: seq<Op>, s: VmState, first: Value): Outcome
    requires HeapOk(s.heap) && Shaped(s)
  {
    var (s1, r) := AllocObj(ops, s, PairObj(first, s.ac));
    Next(s1.(ac := PairRef(r)))
  }

  function StepNumberAdd(s: VmState): Outcome {
    match PopValue(s)
    case None => Panic
    case Some((s1, a)) =>
      if a.Number? && s1.ac.Number? then
        match AddIsize(a.n, s1.ac.n)
        case None => Panic
        case Some(sum) => Next(s1.(ac := Number(sum)))
      else Panic
  }

  /** `AddPair`: the sum of the two numbers of the pair in the
      accumulator.  A reference to a swept object aborts. */
  function StepAddPair(s: VmState): Outcome {
    if s.ac.PairRef? && s.ac.ref in s.heap.objects && s.heap.objects[s.ac.ref].PairObj? then
      var p := s.heap.objects[s.ac.ref];
      if p.first.Number? && p.second.Number? then
        match AddIsize(p.first.n, p.second.n)
        case None => Panic
        case Some(sum) => Next(s.(ac := Number(sum)))
      else Panic
    else Panic
  }

  function StepReferGlobal(s: VmState, sym: Ref): Outcome {
    if sym in s.globals then Next(s.(ac := s.globals[sym])) else Panic
  }

  function StepLetFrame(s: VmState): Outcome {
    match PushValues(s, [s.dc, StackPointer(s.fp)])
    case None => Panic
    case Some(s1) => Next(s1)
  }

  function StepReferLocal(s: VmState, n: int): Outcome {
    match Slot(s, s.fp + n)
    case None => Panic
    case Some(v) => Next(s.(ac := v))
  }

  /** `Leave(n)`: drop `n` slots, then the saved frame pointer (which must
      be one) and the saved display closure. */
  function StepLeave(s: VmState, n: int): Outcome {
    var top := s.sp - n;
    match Slot(s, top - 1)
    case Some(StackPointer(f)) =>
      (match Slot(s, top - 2)
       case None => Panic
       case Some(d) => Next(s.(fp := f, dc := d, sp := top - 2)))
    case _ => Panic
  }

  /** `Display(num)`: a closure over the top `num` slots becomes the display
      closure, and those slots are dropped. */
  function StepDisplay(ops: seq<Op>, s: VmState, num: int): Outcome
    requires HeapOk(s.heap) && Shaped(s)
  {
    if s.sp - num < 0 || s.sp - num > StackSize then Panic
    else WithDisplay(ops, s, num, FreeVars(s.stack, s.sp, num))
  }

  /** The rest of `Display` once its free variables `fvs` are gathered:
      allocate the closure, make it the display and drop `num` slots. */
  function WithDisplay(ops: seq<Op>, s: VmState, num: int, fvs: seq<Value>): Outcome
    requires HeapOk(s.heap) && Shaped(s)
  {
    var (s1, r) := AllocObj(ops, s, ClosureObj(0, 0, false, fvs, s.dc));
    Next(s1.(dc := ClosureRef(r), sp := s.sp - num))
  }

  /** `ReferFree(n)`: the `n`-th free variable of the display closure. */
  function StepReferFree(s: VmState, n: int): Outcome {
    if s.dc.ClosureRef? && s.dc.ref in s.heap.objects && s.heap.objects[s.dc.ref].ClosureObj? then
      var fvs := s.heap.objects[s.dc.ref].freeVars;
      if 0 <= n < |fvs| then Next(s.(ac := fvs[n])) else Panic
    else Panic
  }

  /** `Closure`: a closure whose entry is this instruction goes into the
      accumulator, its free variables are dropped, and execution skips the
      closure's body.  The jump target `pc + size - 1` is a `usize`
      expression, which underflows when `size` is 0; the panic ends the run,
      so whether the closure was allocated before it is not observable. */
  function StepClosure(ops: seq<Op>, s: VmState, size: nat, argLen: int, isOptionalArg: bool, num: int): Outcome
    requires HeapOk(s.heap) && Shaped(s)
  {
    if s.sp - num < 0 || s.sp - num > StackSize || size == 0 then Panic
    else WithClosure(ops, s, size, argLen, isOptionalArg, num, FreeVars(s.stack, s.sp, num))
  }

  /** The rest of `Closure` once its free variables `fvs` are gathered:
      the allocation, then the jump over the body. */
  function WithClosure(ops: seq<Op>, s: VmState, size: nat, argLen: int, isOptionalArg: bool, num: int, fvs: seq<Value>): Outcome
    requires HeapOk(s.heap) && Shaped(s)
  {
    Running(ClosureMade(ops, s, argLen, isOptionalArg, num, fvs).(pc := s.pc + size))
  }

  /** The state `Closure` leaves before its jump: the closure over `fvs`,
      allocated, is in the accumulator and `num` slots are dropped. */
  function ClosureMade(ops: seq<Op>, s: VmState, argLen: int, isOptionalArg: bool, num: int, fvs: seq<Value>): (t: VmState)
    requires HeapOk(s.heap) && Shaped(s)
  {
    var (s1, r) := AllocObj(ops, s, ClosureObj(s.pc, argLen, isOptionalArg, fvs, Values.Undef));
    s1.(ac := ClosureRef(r), sp := s.sp - num)
  }

  /** `return_n(n)`: drop `n` slots, then restore the frame pointer, the
      display closure and the program counter from the frame `Frame`
      pushed. */
  function ReturnN(s: VmState, n: int): Outcome {
    var top := s.sp - n;
    match Slot(s, top - 1)
    case Some(StackPointer(f)) =>
      (match (Slot(s, top - 3), Slot(s, top - 4))
       case (Some(d), Some(Number(next))) =>
         if next < 0 then Panic else Running(s.(fp := f, dc := d, sp := top - 4, pc := next + 1))
       case _ => Panic)
    case _ => Panic
  }

  /** `Call(argLen)`: enter a closure, or apply a native procedure and
      return at once. */
  function StepCall(s: VmState, argLen: int): Outcome {
    match s.ac
    case ClosureRef(c) =>
      if c in s.heap.objects && s.heap.objects[c].ClosureObj? then
        var cl := s.heap.objects[c];
        if cl.isOptionalArg then Panic
        else if argLen == cl.argLen then Running(s.(dc := s.ac, pc := cl.entry + 1, fp := s.sp - argLen))
        else Panic
      else Panic
    case ProcedureRef(p) =>
      if argLen != 1 || Slot(s, s.fp + argLen).None? || p !in s.heap.objects then Panic
      else ReturnN(s.(ac := Values.Undef), 1)
    case _ => Panic
  }

  /** `Frame(skip)`: push the return address, the display closure twice and
      the frame pointer. */
  function StepFrame(s: VmState, skip: nat): Outcome {
    if s.pc + skip == 0 || s.pc + skip - 1 > IsizeMax then Panic
    else
      match PushValues(s, [Number(s.pc + skip - 1), s.dc, s.dc, StackPointer(s.fp)])
      case None => Panic
      case Some(s1) => Next(s1)
  }

  /** One iteration of the loop of `run`. */
  function Step(ops: seq<Op>, s: VmState): Outcome
    requires HeapOk(s.heap) && Shaped(s) && s.pc < |ops|
  {
    match ops[s.pc]
    case Constant(c) => Next(s.(ac := c))
    case Push => StepPush(s)
    case Cons => StepCons(ops, s)
    case NumberAdd => StepNumberAdd(s)
    case AddPair => StepAddPair(s)
    case DefineGlobal(sym) => Next(s.(globals := s.globals[sym := s.ac], ac := Values.Undef))
    case ReferGlobal(sym) => StepReferGlobal(s, sym)
    case Enter(n) => Next(s.(fp := s.sp - n))
    case LetFrame(_) => StepLetFrame(s)
    case ReferLocal(n) => StepReferLocal(s, n)
    case Leave(n) => StepLeave(s, n)
    case Display(num) => StepDisplay(ops, s, num)
    case ReferFree(n) => StepReferFree(s, n)
    case Test(skip) => if s.ac == False then Jump(s, s.pc + skip - 1) else Next(s)
    case LocalJmp(jump) => Jump(s, s.pc + jump - 1)
    case Closure(size, argLen, opt, num) => StepClosure(ops, s, size, argLen, opt, num)
    case Call(argLen) => StepCall(s, argLen)
    case Return(n) => ReturnN(s, n)
    case Frame(skip) => StepFrame(s, skip)
    case Halt => Halted(s)
    case Undef => Next(s.(ac := Values.Undef))
    case Nop => Next(s)
  }

  // ---------------------------------------------------------------------
  // A whole run.

  /** The prologue of `run`: the stack and frame pointers go to the bottom
      of the stack, `initialize_free_vars` allocates the native procedure
      and a display closure over it (straight from the collector, with no
      collection), and the program counter starts at 0. */
  function Start(s: VmState): VmState {
    var h1 := Allocate(s.heap, ProcedureObj);
    var h2 := Allocate(h1, ClosureObj(0, 0, false, [ProcedureRef(s.heap.nextRef)], s.dc));
    s.(heap := h2, sp := 0, fp := 0, dc := ClosureRef(h1.nextRef), pc := 0)
  }

  /** The loop of `run`, for at most `fuel` iterations: it halts when the
      program counter leaves the program or on `Halt`. */
  ghost function Steps(ops: seq<Op>, s: VmState, fuel: nat): Outcome
    requires StateOk(ops, s)
    decreases fuel
  {
    if s.pc >= |ops| then Halted(s)
    else if fuel == 0 then Running(s)
    else
      StepOk(ops, s);
      match Step(ops, s)
      case Running(s1) => Steps(ops, s1, fuel - 1)
      case Halted(s1) => Halted(s1)
      case Panic => Panic
  }

  /** `run(ops)` on machine `s`, with at most `fuel` iterations. */
  ghost function Run(ops: seq<Op>, s: VmState, fuel: nat): Outcome
    requires StateOk(ops, s)
  {
    StartOk(ops, s);
    Steps(ops, Start(s), fuel)
  }

  /** `Vm::new`: an empty heap, a stack of `Undef`, every register `Undef`,
      no globals. */
  function NewVm(): (s: VmState)
    ensures StateOk([], s)
  {
    VmState(EmptyHeap(), seq(StackSize, _ => Values.Undef), 0, 0, Values.Undef, Values.Undef, map[], 0)
  }

  // ---------------------------------------------------------------------
  // The machine invariant.

  lemma OpsBelowMono(ops: seq<Op>, a: nat, b: nat)
    requires OpsBelow(ops, a) && a <= b
    ensures OpsBelow(ops, b)
  {
    forall i | 0 <= i < |ops| ensures OpBelow(ops[i], b) {
      assert OpBelow(ops[i], a);
    }
  }

  /** Raising the allocation cursor keeps every held reference below it. */
  lemma StateOkGrow(ops: seq<Op>, s: VmState, h: HeapState)
    requires StateOk(ops, s) && HeapOk(h) && s.heap.nextRef <= h.nextRef
    ensures StateOk(ops, s.(heap := h))
  {
    OpsBelowMono(ops, s.heap.nextRef, h.nextRef);
  }

  /** The prologue keeps the invariant. */
  lemma StartOk(ops: seq<Op>, s: VmState)
    requires StateOk(ops, s)
    ensures StateOk(ops, Start(s))
  {
    var h1 := Allocate(s.heap, ProcedureObj);
    AllocateOk(s.heap, ProcedureObj);
    AllocateOk(h1, ClosureObj(0, 0, false, [ProcedureRef(s.heap.nextRef)], s.dc));
    StateOkGrow(ops, s, Start(s).heap);
  }

  /** An allocation through the machine keeps the invariant, hands out a
      fresh reference holding the object, and changes nothing but the
      heap. */
  lemma AllocObjOk(ops: seq<Op>, s: VmState, o: Obj)
    requires StateOk(ops, s) && ObjBelow(o, s.heap.nextRef)
    ensures var (s2, r) := AllocObj(ops, s, o);
      && StateOk(ops, s2)
      && r == s.heap.nextRef && r !in s.heap.objects
      && r in s2.heap.objects && s2.heap.objects[r] == o
      && s2 == s.(heap := s2.heap)
  {
    var s1 := MarkAndSweep(ops, s);
    if ShouldGc(s.heap) {
      CollectOk(s.heap, Roots(ops, s));
    }
    assert HeapOk(s1.heap) && s1.heap.nextRef == s.heap.nextRef;
    AllocateOk(s1.heap, o);
    StateOkGrow(ops, s, Allocate(s1.heap, o));
  }

  /** A collection through the machine keeps the invariant and the
      cursor. */
  lemma MarkAndSweepOk(ops: seq<Op>, s: VmState)
    requires StateOk(ops, s)
    ensures StateOk(ops, MarkAndSweep(ops, s))
    ensures MarkAndSweep(ops, s) == s.(heap := MarkAndSweep(ops, s).heap)
    ensures MarkAndSweep(ops, s).heap.nextRef == s.heap.nextRef
  {
    if ShouldGc(s.heap) {
      CollectOk(s.heap, Roots(ops, s));
      StateOkGrow(ops, s, Collect(s.heap, Roots(ops, s)));
    }
  }

  lemma PushValuesOk(ops: seq<Op>, s: VmState, vs: seq<Value>)
    requires StateOk(ops, s)
    requires forall i :: 0 <= i < |vs| ==> ValueBelow(vs[i], s.heap.nextRef)
    ensures PushValues(s, vs).Some? ==> StateOk(ops, PushValues(s, vs).value)
    decreases |vs|
  {
    if vs != [] && PushValue(s, vs[0]).Some? {
      PushValuesOk(ops, PushValue(s, vs[0]).value, vs[1..]);
    }
  }

  /** Every value a closure in the heap captures is below the cursor. */
  lemma ClosureBelow(ops: seq<Op>, s: VmState, c: Ref)
    requires StateOk(ops, s) && c in s.heap.objects && s.heap.objects[c].ClosureObj?
    ensures forall i :: 0 <= i < |s.heap.objects[c].freeVars| ==> ValueBelow(s.heap.objects[c].freeVars[i], s.heap.nextRef)
  {
    assert ObjBelow(s.heap.objects[c], c);
  }

  /** The free variables a closure captures are below the cursor. */
  lemma FreeVarsBelow(ops: seq<Op>, s: VmState, num: int)
    requires StateOk(ops, s) && 0 <= s.sp - num
    ensures forall i :: 0 <= i < |FreeVars(s.stack, s.sp, num)| ==> ValueBelow(FreeVars(s.stack, s.sp, num)[i], s.heap.nextRef)
  {
    var fvs := FreeVars(s.stack, s.sp, num);
    forall i | 0 <= i < |fvs| ensures ValueBelow(fvs[i], s.heap.nextRef) {
      assert fvs[i] == s.stack[s.sp - 1 - i];
    }
  }

  lemma NextOk(ops: seq<Op>, s: VmState)
    requires StateOk(ops, s)
    ensures StateOk(ops, Next(s).s)
  {
  }

  lemma ConsOk(ops: seq<Op>, s: VmState)
    requires StateOk(ops, s)
    ensures !StepCons(ops, s).Panic? ==> StateOk(ops, StepCons(ops, s).s)
  {
    if PopValue(s).Some? {
      var (s1, first) := PopValue(s).value;
      assert StateOk(ops, s1);
      AllocObjOk(ops, s1, PairObj(first, s1.ac));
    }
  }

  lemma DisplayOk(ops: seq<Op>, s: VmState, num: int)
    requires StateOk(ops, s)
    ensures !StepDisplay(ops, s, num).Panic? ==> StateOk(ops, StepDisplay(ops, s, num).s)
  {
    if 0 <= s.sp - num <= StackSize {
      AllocObjOk(ops, s, ClosureObj(0, 0, false, FreeVars(s.stack, s.sp, num), s.dc));
    }
  }

  lemma ClosureOk(ops: seq<Op>, s: VmState, size: nat, argLen: int, opt: bool, num: int)
    requires StateOk(ops, s)
    ensures !StepClosure(ops, s, size, argLen, opt, num).Panic? ==> StateOk(ops, StepClosure(ops, s, size, argLen, opt, num).s)
  {
    if 0 <= s.sp - num <= StackSize {
      AllocObjOk(ops, s, ClosureObj(s.pc, argLen, opt, FreeVars(s.stack, s.sp, num), Values.Undef));
    }
  }

  lemma ReferFreeOk(ops: seq<Op>, s: VmState, k: int)
    requires StateOk(ops, s)
    ensures !StepReferFree(s, k).Panic? ==> StateOk(ops, StepReferFree(s, k).s)
  {
    if s.dc.ClosureRef? && s.dc.ref in s.heap.objects && s.heap.objects[s.dc.ref].ClosureObj? {
      ClosureBelow(ops, s, s.dc.ref);
    }
  }

  lemma ReturnNOk(ops: seq<Op>, s: VmState, n: int)
    requires StateOk(ops, s)
    ensures !ReturnN(s, n).Panic? ==> StateOk(ops, ReturnN(s, n).s)
  {
  }

  lemma CallOk(ops: seq<Op>, s: VmState, argLen: int)
    requires StateOk(ops, s)
    ensures !StepCall(s, argLen).Panic? ==> StateOk(ops, StepCall(s, argLen).s)
  {
    if s.ac.ProcedureRef? {
      ReturnNOk(ops, s.(ac := Values.Undef), 1);
    }
  }

  lemma LeaveOk(ops: seq<Op>, s: VmState, n: int)
    requires StateOk(ops, s)
    ensures !StepLeave(s, n).Panic? ==> StateOk(ops, StepLeave(s, n).s)
  {
  }

  lemma AddPairOk(ops: seq<Op>, s: VmState)
    requires StateOk(ops, s)
    ensures !StepAddPair(s).Panic? ==> StateOk(ops, StepAddPair(s).s)
  {
  }

  lemma NumberAddOk(ops: seq<Op>, s: VmState)
    requires StateOk(ops, s)
    ensures !StepNumberAdd(s).Panic? ==> StateOk(ops, StepNumberAdd(s).s)
  {
  }

  lemma AllocStepOk(ops: seq<Op>, s: VmState)
    requires StateOk(ops, s) && s.pc < |ops|
    requires ops[s.pc].Cons? || ops[s.pc].Display? || ops[s.pc].Closure?
    ensures !Step(ops, s).Panic? ==> StateOk(ops, Step(ops, s).s)
  {
    match ops[s.pc]
    case Cons => assert Step(ops, s) == StepCons(ops, s); ConsOk(ops, s);
    case Display(num) => assert Step(ops, s) == StepDisplay(ops, s, num); DisplayOk(ops, s, num);
    case Closure(size, argLen, opt, num) =>
      assert Step(ops, s) == StepClosure(ops, s, size, argLen, opt, num);
      ClosureOk(ops, s, size, argLen, opt, num);
  }

  lemma PushOk(ops: seq<Op>, s: VmState)
    requires StateOk(ops, s)
    ensures !StepPush(s).Panic? ==> StateOk(ops, StepPush(s).s)
  {
    PushValuesOk(ops, s, [s.ac]);
  }

  lemma LetFrameOk(ops: seq<Op>, s: VmState)
    requires StateOk(ops, s)
    ensures !StepLetFrame(s).Panic? ==> StateOk(ops, StepLetFrame(s).s)
  {
    PushValuesOk(ops, s, [s.dc, StackPointer(s.fp)]);
  }

  lemma FrameOk(ops: seq<Op>, s: VmState, skip: nat)
    requires StateOk(ops, s)
    ensures !StepFrame(s, skip).Panic? ==> StateOk(ops, StepFrame(s, skip).s)
  {
    if s.pc + skip > 0 {
      PushValuesOk(ops, s, [Number(s.pc + skip - 1), s.dc, s.dc, StackPointer(s.fp)]);
    }
  }

  lemma FrameStepOk(ops: seq<Op>, s: VmState)
    requires StateOk(ops, s) && s.pc < |ops|
    requires ops[s.pc].Push? || ops[s.pc].LetFrame? || ops[s.pc].Frame? || ops[s.pc].Leave?
      || ops[s.pc].Return? || ops[s.pc].Call?
    ensures !Step(ops, s).Panic? ==> StateOk(ops, Step(ops, s).s)
  {
    match ops[s.pc]
    case Push => assert Step(ops, s) == StepPush(s); PushOk(ops, s);
    case LetFrame(_) => assert Step(ops, s) == StepLetFrame(s); LetFrameOk(ops, s);
    case Frame(skip) => assert Step(ops, s) == StepFrame(s, skip); FrameOk(ops, s, skip);
    case Leave(n) => assert Step(ops, s) == StepLeave(s, n); LeaveOk(ops, s, n);
    case Return(n) => assert Step(ops, s) == ReturnN(s, n); ReturnNOk(ops, s, n);
    case Call(argLen) => assert Step(ops, s) == StepCall(s, argLen); CallOk(ops, s, argLen);
  }

  lemma OtherStepOk(ops: seq<Op>, s: VmState)
    requires StateOk(ops, s) && s.pc < |ops|
    requires !(ops[s.pc].Cons? || ops[s.pc].Display? || ops[s.pc].Closure?)
    requires !(ops[s.pc].Push? || ops[s.pc].LetFrame? || ops[s.pc].Frame? || ops[s.pc].Leave?
      || ops[s.pc].Return? || ops[s.pc].Call?)
    ensures !Step(ops, s).Panic? ==> StateOk(ops, Step(ops, s).s)
  {
    assert OpBelow(ops[s.pc], s.heap.nextRef);
    match ops[s.pc]
    case NumberAdd => assert Step(ops, s) == StepNumberAdd(s); NumberAddOk(ops, s);
    case AddPair => assert Step(ops, s) == StepAddPair(s); AddPairOk(ops, s);
    case ReferFree(k) => assert Step(ops, s) == StepReferFree(s, k); ReferFreeOk(ops, s, k);
    case _ =>
  }

  /** Every step keeps the machine invariant. */
  lemma StepOk(ops: seq<Op>, s: VmState)
    requires StateOk(ops, s) && s.pc < |ops|
    ensures !Step(ops, s).Panic? ==> StateOk(ops, Step(ops, s).s)
  {
    var op := ops[s.pc];
    if op.Cons? || op.Display? || op.Closure? {
      AllocStepOk(ops, s);
    } else if op.Push? || op.LetFrame? || op.Frame? || op.Leave? || op.Return? || op.Call? {
      FrameStepOk(ops, s);
    } else {
      OtherStepOk(ops, s);
    }
  }

  /** One turn of the loop of `run`: the step at the current instruction,
      then the remaining turns from wherever it leaves the machine. */
  lemma StepsNext(ops: seq<Op>, s: VmState, fuel: nat, rest: nat)
    requires StateOk(ops, s) && s.pc < |ops| && fuel == rest + 1
    ensures Step(ops, s).Running? ==> StateOk(ops, Step(ops, s).s)
    ensures Steps(ops, s, fuel)
      == if Step(ops, s).Running? then Steps(ops, Step(ops, s).s, rest) else Step(ops, s)
  {
    StepOk(ops, s);
  }
}
