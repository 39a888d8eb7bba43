/** Runs of the interpreter of vm.rs on the programs of its unit tests:
    the pair of 99 and 101 summed by `AddPair`, and a global defined and
    read back. */
module VmExamples {
  import opened Values
  import opened HeapSpec
  import opened VmSpec
  import opened VmProperties

  /** The program of `test_vm_run_add_pair`. */
  const AddPairOps: seq<Op> := [Constant(Number(99)), Push, Constant(Number(101)), Cons, AddPair]

  /** `Constant` loads its operand and moves on. */
  lemma ConstantLoads(ops: seq<Op>, s: VmState)
    requires HeapOk(s.heap) && Shaped(s) && s.pc < |ops| && ops[s.pc].Constant?
    ensures Step(ops, s) == Running(s.(ac := ops[s.pc].c, pc := s.pc + 1))
  {
  }

  /** The first three instructions of `AddPairOps` push 99 and load
      101. */
  lemma AddPairLoads(s: VmState)
    requires StateOk(AddPairOps, s) && s.pc == 0 && s.sp < StackSize
    ensures var s3 := s.(stack := s.stack[s.sp := Number(99)], sp := s.sp + 1, ac := Number(101), pc := 3);
      && StateOk(AddPairOps, s3)
      && Steps(AddPairOps, s, 6) == Steps(AddPairOps, s3, 3)
  {
    var ops := AddPairOps;
    assert ops[0] == Constant(Number(99)) && ops[1] == Push && ops[2] == Constant(Number(101));
    ConstantLoads(ops, s);
    StepsNext(ops, s, 6, 5);
    var s1 := s.(ac := Number(99), pc := 1);
    PushStoresAc(ops, s1);
    StepsNext(ops, s1, 5, 4);
    var s2 := s1.(stack := s.stack[s.sp := Number(99)], sp := s.sp + 1, pc := 2);
    ConstantLoads(ops, s2);
    StepsNext(ops, s2, 4, 3);
  }

  /** `Cons` then `AddPair` on 99 pushed and 101 loaded: 200 in the
      accumulator, and the pair of 99 and 101 is the new object. */
  lemma ConsThenAddPair(s: VmState)
    requires StateOk(AddPairOps, s) && s.pc == 3 && s.sp > 0
    requires s.stack[s.sp - 1] == Number(99) && s.ac == Number(101)
    ensures Steps(AddPairOps, s, 3).Halted?
    ensures var t := Steps(AddPairOps, s, 3).s;
      && t.ac == Number(200) && t.sp == s.sp - 1 && t.pc == 5
      && s.heap.nextRef in t.heap.objects
      && t.heap.objects[s.heap.nextRef] == PairObj(Number(99), Number(101))
  {
    var ops := AddPairOps;
    assert ops[3] == Cons && ops[4] == AddPair;
    ConsBuildsPair(ops, s);
    StepsNext(ops, s, 3, 2);
    var s4 := Step(ops, s).s;
    AddPairSums(ops, s4);
    StepsNext(ops, s4, 2, 1);
    var s5 := s4.(ac := Number(200), pc := 5);
    assert Steps(ops, s5, 1) == Halted(s5);
  }

  /** From the start of `AddPairOps` with room on the stack, six turns of
      the loop halt with 200 in the accumulator, the stack pointer where it
      was and the pair of 99 and 101 as the one new object. */
  lemma AddPairGives200(s: VmState)
    requires StateOk(AddPairOps, s) && s.pc == 0 && s.sp < StackSize
    ensures Steps(AddPairOps, s, 6).Halted?
    ensures var t := Steps(AddPairOps, s, 6).s;
      && t.ac == Number(200) && t.sp == s.sp && t.pc == 5
      && s.heap.nextRef in t.heap.objects
      && t.heap.objects[s.heap.nextRef] == PairObj(Number(99), Number(101))
  {
    AddPairLoads(s);
    ConsThenAddPair(s.(stack := s.stack[s.sp := Number(99)], sp := s.sp + 1, ac := Number(101), pc := 3));
  }

  /** `test_vm_run_add_pair`: `run` on a fresh machine yields 200. */
  lemma RunAddPairGives200()
    ensures StateOk(AddPairOps, NewVm())
    ensures Run(AddPairOps, NewVm(), 6).Halted?
    ensures Run(AddPairOps, NewVm(), 6).s.ac == Number(200)
  {
    var ops := AddPairOps;
    forall i | 0 <= i < |ops| ensures OpBelow(ops[i], 0) {
      assert ops[i] in ops;
    }
    var s := NewVm();
    StartOk(ops, s);
    AddPairGives200(Start(s));
  }

  /** The program of `test_vm_define`, with `x` the interned symbol. */
  function DefineOps(x: Ref): seq<Op> {
    [Constant(Number(9)), DefineGlobal(x), ReferGlobal(x)]
  }

  /** From the start of `DefineOps`, four turns of the loop halt with 9
      in the accumulator and bound to the symbol. */
  lemma DefineGives9(x: Ref, s: VmState)
    requires StateOk(DefineOps(x), s) && s.pc == 0
    ensures Steps(DefineOps(x), s, 4).Halted?
    ensures var t := Steps(DefineOps(x), s, 4).s;
      && t.ac == Number(9) && t.pc == 3
      && x in t.globals && t.globals[x] == Number(9)
  {
    var ops := DefineOps(x);
    ConstantLoads(ops, s);
    StepsNext(ops, s, 4, 3);
    var s1 := s.(ac := Number(9), pc := 1);
    var s2 := s1.(globals := s.globals[x := Number(9)], ac := Values.Undef, pc := 2);
    DefineThenRefer(ops, s1, s2, x);
    StepsNext(ops, s1, 3, 2);
    StepsNext(ops, s2, 2, 1);
    var s3 := s2.(ac := Number(9), pc := 3);
    assert Steps(ops, s3, 1) == Halted(s3);
  }

  /** `test_vm_define`: with "a" interned in a fresh machine (a second
      `intern` gives the same symbol), `run` yields 9. */
  lemma RunDefineGives9()
    ensures var (h, x) := Interned(EmptyHeap(), "a");
      && Interned(h, "a") == (h, x)
      && StateOk(DefineOps(x), NewVm().(heap := h))
      && Run(DefineOps(x), NewVm().(heap := h), 4).Halted?
      && Run(DefineOps(x), NewVm().(heap := h), 4).s.ac == Number(9)
  {
    var (h, x) := Interned(EmptyHeap(), "a");
    InternedOk(EmptyHeap(), "a");
    var ops := DefineOps(x);
    forall i | 0 <= i < |ops| ensures OpBelow(ops[i], h.nextRef) {
      assert ops[i] in ops;
    }
    var s := NewVm().(heap := h);
    assert StateOk(ops, s);
    StartOk(ops, s);
    DefineGives9(x, Start(s));
  }

  /** The program of `test_vm_call_proc`: a frame, the argument 3, and a
      call of the display closure's free variable, the native procedure. */
  const CallProcOps: seq<Op> := [Frame(8), Constant(Number(3)), Push, ReferFree(0), Call(1)]

  /** `Frame(8)` then the argument: the frame holds the return address 7,
      the display closure twice and the frame pointer, with 3 above it. */
  lemma CallProcPushes(s: VmState)
    requires StateOk(CallProcOps, s) && s.pc == 0 && s.sp == 0 && s.fp == 0
    ensures var s3 := s.(stack := s.stack[0 := Number(7)][1 := s.dc][2 := s.dc][3 := StackPointer(0)][4 := Number(3)],
                         sp := 5, ac := Number(3), pc := 3);
      && StateOk(CallProcOps, s3)
      && Steps(CallProcOps, s, 6) == Steps(CallProcOps, s3, 3)
  {
    var ops := CallProcOps;
    assert ops[0] == Frame(8) && ops[1] == Constant(Number(3)) && ops[2] == Push;
    assert Step(ops, s) == StepFrame(s, 8);
    var vs := [Number(7), s.dc, s.dc, StackPointer(0)];
    PushValuesSlots(s, vs);
    var t := PushValues(s, vs).value;
    var framed := s.stack[0 := Number(7)][1 := s.dc][2 := s.dc][3 := StackPointer(0)];
    forall k | 0 <= k < StackSize ensures t.stack[k] == framed[k] {
      if k < 4 {
        assert t.stack[s.sp + k] == vs[k];
      }
    }
    var s1 := s.(stack := framed, sp := 4, pc := 1);
    assert Step(ops, s) == Running(s1);
    StepsNext(ops, s, 6, 5);
    ConstantLoads(ops, s1);
    StepsNext(ops, s1, 5, 4);
    var s2 := s1.(ac := Number(3), pc := 2);
    PushStoresAc(ops, s2);
    StepsNext(ops, s2, 4, 3);
  }

  /** `ReferFree(0)` loads the native procedure and `Call(1)` applies it:
      `Undef` in the accumulator, and the frame is popped, which continues
      at 8, past the end of the program. */
  lemma CallProcReturns(s: VmState, p: Ref)
    requires StateOk(CallProcOps, s) && s.pc == 3 && s.sp == 5 && s.fp == 0
    requires s.stack[0] == Number(7) && s.stack[3] == StackPointer(0)
    requires s.dc.ClosureRef? && s.dc.ref in s.heap.objects
    requires s.heap.objects[s.dc.ref] == ClosureObj(0, 0, false, [ProcedureRef(p)], Values.Undef)
    requires p in s.heap.objects
    ensures Steps(CallProcOps, s, 3).Halted?
    ensures var t := Steps(CallProcOps, s, 3).s;
      t.ac == Values.Undef && t.sp == 0 && t.fp == 0 && t.pc == 8
  {
    var ops := CallProcOps;
    assert ops[3] == ReferFree(0) && ops[4] == Call(1);
    assert Step(ops, s) == StepReferFree(s, 0);
    var s4 := s.(ac := ProcedureRef(p), pc := 4);
    assert Step(ops, s) == Running(s4);
    StepsNext(ops, s, 3, 2);
    CallProcedure(ops, s4, 1);
    var s5 := s4.(ac := Values.Undef, fp := 0, dc := s.stack[1], sp := 0, pc := 8);
    assert ReturnN(s4.(ac := Values.Undef), 1) == Running(s5);
    StepsNext(ops, s4, 2, 1);
    assert Steps(ops, s5, 1) == Halted(s5);
  }

  /** `test_vm_call_proc`: `run` on a fresh machine yields `Undef`. */
  lemma RunCallProcGivesUndef()
    ensures StateOk(CallProcOps, NewVm())
    ensures Run(CallProcOps, NewVm(), 6).Halted?
    ensures Run(CallProcOps, NewVm(), 6).s.ac == Values.Undef
  {
    var ops := CallProcOps;
    forall i | 0 <= i < |ops| ensures OpBelow(ops[i], 0) {
      assert ops[i] in ops;
    }
    var s := NewVm();
    StartOk(ops, s);
    var s0 := Start(s);
    assert s0.heap.objects[1] == ClosureObj(0, 0, false, [ProcedureRef(0)], Values.Undef);
    CallProcPushes(s0);
    var s3 := s0.(stack := s0.stack[0 := Number(7)][1 := s0.dc][2 := s0.dc][3 := StackPointer(0)][4 := Number(3)],
                  sp := 5, ac := Number(3), pc := 3);
    CallProcReturns(s3, 0);
  }
}
