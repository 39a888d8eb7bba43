/** The prototype `Vm` of main.rs as a class: the accumulator, a fixed
    array of `STACK_SIZE` slots with its stack pointer, the running program
    and the collector.  Every method is proved against the definitions of
    ProtoSpec: an instruction does what `Step` says, `run` what `Run` says,
    and an allocation what `AllocObj` says.  The prototype's `Gc` keeps the
    same header list, mark bits and grey stack as the one of gc.rs, with
    pairs and symbols only, so `Collector.Gc` serves for both. */
module Prototype {
  import opened Values
  import opened HeapSpec
  import opened Collector
  import opened ProtoSpec
  import opened ProtoProps
  import opened ProtoRuns
  import VmSpec

  class ProtoVm {
    const gc: Gc
    var ac: Value                 // accumulator register
    const stack: array<Value>
    var sp: int                   // stack pointer, as an offset into `stack`
    var ops: seq<ProtoOp>         // the running program, kept as a root

    /** The machine as a value. */
    ghost function State(): Machine
      reads this, stack, gc`objects, gc`list, gc`nextRef, gc`symbols, gc`bytesAllocated, gc`nextGc
    {
      Machine(gc.Abs(), stack[..], sp, ac)
    }

    ghost predicate Valid()
      reads this, stack, gc
    {
      && gc.Valid() && gc.Quiescent()
      && MachineOk(ops, State())
    }

    /** `Vm::new` */
    constructor ()
      ensures Valid() && ops == []
      ensures State() == NewMachine()
      ensures fresh(gc) && fresh(stack)
    {
      gc := new Gc();
      stack := new Value[VmSpec.StackSize](_ => Number(0));
      ac, sp, ops := Number(0), 0, [];
      new;
      assert stack[..] == seq(VmSpec.StackSize, _ => Number(0));
      NewMachineOk([]);
    }

    // -------------------------------------------------------------------
    // Roots and collection.

    /** `mark_roots`: the slots below the stack pointer, the accumulator,
        then the constants of the program. */
    method MarkRoots()
      requires Valid()
      modifies gc`marked, gc`greyStack
      ensures gc.TraceValid()
      ensures gc.greyStack == RootPushes(Roots(ops, State()))
      ensures gc.marked == RootRefs(Roots(ops, State())) * gc.objects.Keys
    {
      RootPushesOfRoots(ops, State());
      assert ValueBelow(ac, gc.nextRef) && ConstsOk(ops, gc.nextRef);
      MarkStack();
      MarkRoot(ac);
      MarkConsts();
    }

    /** The first loop of `mark_roots`. */
    method MarkStack()
      requires gc.TraceValid() && gc.Quiescent()
      requires 0 <= sp <= stack.Length
      requires forall k :: 0 <= k < stack.Length ==> ValueBelow(stack[k], gc.nextRef)
      modifies gc`marked, gc`greyStack
      ensures gc.TraceValid()
      ensures gc.greyStack == RootPushes(stack[..sp])
      ensures gc.marked == Elems(gc.greyStack) * gc.objects.Keys
    {
      var i := 0;
      while i < sp
        invariant 0 <= i <= sp
        invariant gc.TraceValid()
        invariant gc.greyStack == RootPushes(stack[..i])
        invariant gc.marked == Elems(gc.greyStack) * gc.objects.Keys
      {
        assert stack[..i + 1][..i] == stack[..i];
        MarkRoot(stack[i]);
        i := i + 1;
      }
    }

    /** `mark_value` of one root, keeping the marked set equal to the
        live references pushed so far. */
    method MarkRoot(v: Value)
      requires gc.TraceValid() && ValueBelow(v, gc.nextRef)
      requires gc.marked == Elems(gc.greyStack) * gc.objects.Keys
      modifies gc`marked, gc`greyStack
      ensures gc.TraceValid()
      ensures gc.greyStack == old(gc.greyStack) + MarkSeq(v)
      ensures gc.marked == Elems(gc.greyStack) * gc.objects.Keys
    {
      ElemsAppend(gc.greyStack, MarkSeq(v));
      gc.MarkValue(v);
    }

    /** The last loop of `mark_roots`: the operand of every `Constant`. */
    method MarkConsts()
      requires gc.TraceValid() && ConstsOk(ops, gc.nextRef)
      requires gc.marked == Elems(gc.greyStack) * gc.objects.Keys
      modifies gc`marked, gc`greyStack
      ensures gc.TraceValid()
      ensures gc.greyStack == old(gc.greyStack) + RootPushes(ConstRoots(ops))
      ensures gc.marked == Elems(gc.greyStack) * gc.objects.Keys
    {
      ghost var g0 := gc.greyStack;
      var j := 0;
      while j < |ops|
        invariant 0 <= j <= |ops|
        invariant gc.TraceValid()
        invariant gc.greyStack == g0 + RootPushes(ConstRoots(ops[..j]))
        invariant gc.marked == Elems(gc.greyStack) * gc.objects.Keys
      {
        ConstRootsNext(ops, j);
        VmSpec.AppendAssoc(g0, RootPushes(ConstRoots(ops[..j])), RootPushes(Operand(ops[j])));
        MarkConst(ops[j]);
        j := j + 1;
      }
      assert ops[..|ops|] == ops;
    }

    /** One turn of the last loop of `mark_roots`: `mark_value` of a
        constant, nothing for any other instruction. */
    method MarkConst(op: ProtoOp)
      requires gc.TraceValid() && (op.Constant? ==> Held(op.c, gc.nextRef))
      requires gc.marked == Elems(gc.greyStack) * gc.objects.Keys
      modifies gc`marked, gc`greyStack
      ensures gc.TraceValid()
      ensures gc.greyStack == old(gc.greyStack) + RootPushes(Operand(op))
      ensures gc.marked == Elems(gc.greyStack) * gc.objects.Keys
    {
      match op {
        case Constant(v) =>
          assert RootPushes([v]) == MarkSeq(v) by { assert [v][..0] == []; }
          MarkRoot(v);
        case _ =>
          assert Operand(op) == [];
      }
    }

    /** `mark_and_sweep`: mark the roots, then `collect_garbage`.  The
        heap becomes the collection for the machine's roots. */
    method MarkAndSweep()
      requires Valid()
      modifies gc`marked, gc`greyStack, gc`objects, gc`links, gc`first, gc`bytesAllocated, gc`list, gc`nextGc
      ensures Valid()
      ensures State() == old(State()).(heap := Collect(old(State()).heap, Roots(ops, old(State()))))
    {
      ghost var s := State();
      ghost var h, roots := s.heap, Roots(ops, s);
      MarkRoots();
      gc.CollectGarbage();
      CollectFromRoots(h, roots);
      CollectOk(h, roots);
      MachineOkGrow(ops, s, gc.Abs());
      assert State() == s.(heap := gc.Abs());
    }

    /** `Vm::alloc`: a full collection, then `self.gc.alloc`. */
    method Alloc(o: Obj) returns (r: Ref)
      requires Valid() && ObjBelow(o, gc.nextRef)
      modifies gc`marked, gc`greyStack, gc`objects, gc`links, gc`first, gc`bytesAllocated, gc`list, gc`nextGc
      modifies gc`nextRef
      ensures Valid()
      ensures State() == AllocObj(ops, old(State()), o).0
      ensures r == AllocObj(ops, old(State()), o).1
    {
      MarkAndSweep();
      r := GcAlloc(o);
    }

    /** `self.gc.alloc`: allocate without a collection. */
    method GcAlloc(o: Obj) returns (r: Ref)
      requires Valid() && ObjBelow(o, gc.nextRef)
      modifies gc`objects, gc`links, gc`first, gc`bytesAllocated, gc`list, gc`nextRef
      ensures Valid()
      ensures State() == old(State()).(heap := Allocate(old(gc.Abs()), o))
      ensures r == old(gc.nextRef)
    {
      ghost var s := State();
      r := gc.Alloc(o);
      AllocateOk(s.heap, o);
      MachineOkGrow(ops, s, gc.Abs());
      assert State() == s.(heap := gc.Abs());
    }

    // -------------------------------------------------------------------
    // The instructions.

    /** `Push`: the `assert!` that the stack is not full, then store `ac`
        in the slot at `sp`. */
    method ExecPush(i: nat) returns (ok: bool)
      requires Valid() && i < |ops| && ops[i] == Push
      modifies this`sp, stack
      ensures ok <==> Step(ops, old(State()), i).Done?
      ensures ok ==> State() == Step(ops, old(State()), i).m
    {
      ghost var s := State();
      PushStores(ops, s, i);
      if sp >= VmSpec.StackSize {
        return false;
      }
      stack[sp] := ac;
      sp := sp + 1;
      ok := true;
      assert State() == s.(stack := s.stack[s.sp := s.ac], sp := s.sp + 1);
    }

    /** `Cons` with its first element left on the stack while the pair is
        allocated: the `usize` decrement of an empty stack pointer panics,
        otherwise `ac` names a new pair of the top slot and `ac`, and the
        slot is popped. */
    method ExecCons(i: nat) returns (ok: bool)
      requires Valid() && i < |ops| && ops[i] == Cons
      modifies this`sp, this`ac
      modifies gc`marked, gc`greyStack, gc`objects, gc`links, gc`first, gc`bytesAllocated, gc`list, gc`nextGc
      modifies gc`nextRef
      ensures ok <==> Step(ops, old(State()), i).Done?
      ensures ok ==> gc.Valid() && gc.Quiescent() && State() == Step(ops, old(State()), i).m
    {
      ghost var s := State();
      if sp == 0 {
        assert Step(ops, s, i) == ConsRooted(ops, s) == Panic;
        return false;
      }
      assert Step(ops, s, i) == ConsRooted(ops, s);
      AllocPair();
      ok := true;
    }

    /** The allocation of `Cons`, then the pop of its first element. */
    method AllocPair()
      requires Valid() && 0 < sp
      modifies this`sp, this`ac
      modifies gc`marked, gc`greyStack, gc`objects, gc`links, gc`first, gc`bytesAllocated, gc`list, gc`nextGc
      modifies gc`nextRef
      ensures gc.Valid() && gc.Quiescent()
      ensures ConsRooted(ops, old(State())) == Done(State())
    {
      ghost var s := State();
      ghost var o := PairObj(s.stack[s.sp - 1], s.ac);
      var r := Alloc(PairObj(stack[sp - 1], ac));
      PopInto(r);
    }

    /** The pop that ends `Cons`: `ac` names the new pair. */
    method PopInto(r: Ref)
      modifies this`sp, this`ac
      ensures State() == old(State()).(sp := old(sp) - 1, ac := PairRef(r))
    {
      sp := sp - 1;
      ac := PairRef(r);
    }

    /** `Add`: pop a slot and add `ac` to it.  An empty stack, a value that
        is not a number or an `isize` overflow panics. */
    method ExecAdd(i: nat) returns (ok: bool)
      requires Valid() && i < |ops| && ops[i] == Add
      modifies this`sp, this`ac
      ensures ok <==> Step(ops, old(State()), i).Done?
      ensures ok ==> State() == Step(ops, old(State()), i).m
    {
      ghost var s := State();
      AddSums(ops, s, i);
      if sp == 0 {
        return false;
      }
      var a := stack[sp - 1];
      if !(a.Number? && ac.Number?) {
        return false;
      }
      var sum := a.n + ac.n;
      if sum < VmSpec.IsizeMin || VmSpec.IsizeMax < sum {
        return false;
      }
      sp := sp - 1;
      ac := Number(sum);
      ok := true;
    }

    /** `AddPair`: the sum of the two fields of the pair in `ac`. */
    method ExecAddPair(i: nat) returns (ok: bool)
      requires Valid() && i < |ops| && ops[i] == AddPair
      modifies this`ac
      ensures ok <==> Step(ops, old(State()), i).Done?
      ensures ok ==> State() == Step(ops, old(State()), i).m
    {
      ghost var s := State();
      AddPairSums(ops, s, i);
      if !(ac.PairRef? && ac.ref in gc.objects && gc.objects[ac.ref].PairObj?) {
        return false;
      }
      var p := gc.objects[ac.ref];
      if !(p.first.Number? && p.second.Number?) {
        return false;
      }
      var sum := p.first.n + p.second.n;
      if sum < VmSpec.IsizeMin || VmSpec.IsizeMax < sum {
        return false;
      }
      ac := Number(sum);
      ok := true;
    }

    /** One turn of the loop of `run`: the `match` on instruction `i`. */
    method Execute(i: nat) returns (ok: bool)
      requires Valid() && i < |ops|
      modifies this`sp, this`ac, stack
      modifies gc`marked, gc`greyStack, gc`objects, gc`links, gc`first, gc`bytesAllocated, gc`list, gc`nextGc
      modifies gc`nextRef
      ensures ok <==> Step(ops, old(State()), i).Done?
      ensures ok ==> Valid() && State() == Step(ops, old(State()), i).m
    {
      ghost var s := State();
      StepOk(ops, s, i);
      match ops[i] {
        case Constant(c) =>
          ConstantLoads(ops, s, i);
          ac := c;
          ok := true;
        case Push =>
          ok := ExecPush(i);
        case Cons =>
          ok := ExecCons(i);
        case Add =>
          ok := ExecAdd(i);
        case AddPair =>
          ok := ExecAddPair(i);
      }
    }

    /** `run`: every instruction of the program once, in order; the result
        is the final `ac`.  `ok` is false when the run panics. */
    method Run() returns (ok: bool, result: Value)
      requires Valid()
      modifies this`sp, this`ac, stack
      modifies gc`marked, gc`greyStack, gc`objects, gc`links, gc`first, gc`bytesAllocated, gc`list, gc`nextGc
      modifies gc`nextRef
      ensures ok <==> ProtoSpec.Run(ops, old(State())).Done?
      ensures ok ==> Valid() && State() == ProtoSpec.Run(ops, old(State())).m && result == ac
    {
      var len := |ops|;
      var idx := 0;
      ghost var target := RunFrom(ops, State(), 0);
      while idx < len
        invariant 0 <= idx <= len && Valid()
        invariant RunFrom(ops, State(), idx) == target
      {
        RunFromNext(ops, State(), idx);
        ok := Execute(idx);
        if !ok {
          return false, ac;
        }
        idx := idx + 1;
      }
      return true, ac;
    }

    /** `run_add`: 99 plus 1.  On a full stack the `Push` panics. */
    method RunAdd() returns (ok: bool, result: Value)
      requires Valid()
      modifies this`ops, this`sp, this`ac, stack
      modifies gc`marked, gc`greyStack, gc`objects, gc`links, gc`first, gc`bytesAllocated, gc`list, gc`nextGc
      modifies gc`nextRef
      ensures ok <==> old(sp) < VmSpec.StackSize
      ensures ok ==> Valid() && result == Number(100)
      ensures ok ==> sp == old(sp) && stack[..] == old(stack[..])[old(sp) := Number(99)]
    {
      ghost var s := State();
      ops := AddOps;
      assert ConstsOk(ops, gc.nextRef) by { NumbersHeld(ops, gc.nextRef); }
      RunAddGives100(s);
      ok, result := Run();
    }

    /** `run_add_pair`: the pair of 99 and 101, the sum of its fields, then
        a collection that frees the pair again.  On a full stack the `Push`
        panics. */
    method RunAddPair() returns (ok: bool, result: Value)
      requires Valid()
      modifies this`ops, this`sp, this`ac, stack
      modifies gc`marked, gc`greyStack, gc`objects, gc`links, gc`first, gc`bytesAllocated, gc`list, gc`nextGc
      modifies gc`nextRef
      ensures ok <==> old(sp) < VmSpec.StackSize
      ensures ok ==> Valid() && result == Number(200)
      ensures ok ==> old(gc.nextRef) !in gc.objects && gc.nextRef == old(gc.nextRef) + 1
      ensures ok && old(gc.objects) == map[] ==> gc.objects == map[]
    {
      ghost var s := State();
      ops := AddPairOps;
      assert ConstsOk(ops, gc.nextRef) by { NumbersHeld(ops, gc.nextRef); }
      RunAddPairGives200(s);
      ok, result := Run();
      if ok {
        RunAddPairFreesPair(s);
        MarkAndSweep();
      }
    }
  }

  /** A program whose constants are numbers holds no reference. */
  lemma NumbersHeld(ops: seq<ProtoOp>, bound: nat)
    requires ops == AddOps || ops == AddPairOps
    ensures ConstsOk(ops, bound)
  {
    forall i | 0 <= i < |ops| && ops[i].Constant? ensures Held(ops[i].c, bound) {
      assert Constant(ops[i].c) in ops;
    }
  }

  // ---------------------------------------------------------------------
  // The tests of main.rs.

  /** `test_vm_run_add`: a fresh `Vm` yields 100. */
  method VmRunAdd() returns (result: Value)
    ensures result == Number(100)
  {
    var vm := new ProtoVm();
    var ok;
    ok, result := vm.RunAdd();
  }

  /** `test_vm_run_add_pair`: a fresh `Vm` yields 200, and the heap is
      empty again afterwards. */
  method VmRunAddPair() returns (result: Value, heapEmpty: bool)
    ensures result == Number(200) && heapEmpty
  {
    var vm := new ProtoVm();
    var ok;
    ok, result := vm.RunAddPair();
    heapEmpty := vm.gc.objects == map[];
  }

  /** `test_symbol`: a symbol allocated by a fresh collector holds its
      name. */
  method SymbolKeepsName() returns (name: string)
    ensures name == "define"
  {
    var gc := new Gc();
    var r := gc.Alloc(SymbolObj("define"));
    name := gc.objects[r].name;
  }
}
