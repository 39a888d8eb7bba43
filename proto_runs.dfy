/** Concrete runs of the prototype of main.rs: the two programs of its
    `run_add` and `run_add_pair`, and a program on which `Cons` as written
    leaves a dangling reference. */
module ProtoRuns {
  import opened Values
  import opened HeapSpec
  import opened ProtoSpec
  import opened ProtoProps
  import VmSpec

  /** The program of `run_add`. */
  const AddOps: seq<ProtoOp> := [Constant(Number(99)), Push, Constant(Number(1)), Add]

  /** The program of `run_add_pair`. */
  const AddPairOps: seq<ProtoOp> := [Constant(Number(99)), Push, Constant(Number(101)), Cons, AddPair]

  /** `run_add` on any machine with room on its stack yields 100 in `ac`,
      leaves the stack pointer where it was and 99 in the slot above it; on
      a full stack it panics. */
  lemma RunAddGives100(m: Machine)
    requires MachineOk(AddOps, m)
    ensures Run(AddOps, m) ==
      if m.sp < VmSpec.StackSize then Done(m.(stack := m.stack[m.sp := Number(99)], ac := Number(100)))
      else Panic
  {
    var ops := AddOps;
    assert ops[0] == Constant(Number(99)) && ops[1] == Push && ops[2] == Constant(Number(1)) && ops[3] == Add;
    ConstantLoads(ops, m, 0);
    RunFromNext(ops, m, 0);
    var m1 := m.(ac := Number(99));
    PushStores(ops, m1, 1);
    RunFromNext(ops, m1, 1);
    if m.sp < VmSpec.StackSize {
      var m2 := m1.(stack := m.stack[m.sp := Number(99)], sp := m.sp + 1);
      ConstantLoads(ops, m2, 2);
      RunFromNext(ops, m2, 2);
      var m3 := m2.(ac := Number(1));
      assert m3.stack[m3.sp - 1] == Number(99);
      AddSums(ops, m3, 3);
      RunFromNext(ops, m3, 3);
      var m4 := m3.(sp := m.sp, ac := Number(100));
      assert RunFrom(ops, m4, 4) == Done(m4);
    }
  }

  /** `run_add_pair` on any machine with room on its stack yields 200 in
      `ac`, and the pair it built of 99 and 101 is the one new object; on a
      full stack it panics. */
  lemma RunAddPairGives200(m: Machine)
    requires MachineOk(AddPairOps, m)
    ensures Run(AddPairOps, m).Done? <==> m.sp < VmSpec.StackSize
    ensures Run(AddPairOps, m).Done? ==>
      var m' := Run(AddPairOps, m).m;
      && m'.ac == Number(200) && m'.sp == m.sp && m'.stack == m.stack[m.sp := Number(99)]
      && m'.heap.nextRef == m.heap.nextRef + 1
      && m.heap.nextRef in m'.heap.objects
      && m'.heap.objects[m.heap.nextRef] == PairObj(Number(99), Number(101))
      && (forall x :: x in m'.heap.objects && x != m.heap.nextRef ==> x in m.heap.objects)
  {
    var ops := AddPairOps;
    assert ops[0] == Constant(Number(99)) && ops[1] == Push && ops[2] == Constant(Number(101));
    assert ops[3] == Cons && ops[4] == AddPair;
    ConstantLoads(ops, m, 0);
    RunFromNext(ops, m, 0);
    var m1 := m.(ac := Number(99));
    PushStores(ops, m1, 1);
    RunFromNext(ops, m1, 1);
    if m.sp < VmSpec.StackSize {
      var m2 := m1.(stack := m.stack[m.sp := Number(99)], sp := m.sp + 1);
      ConstantLoads(ops, m2, 2);
      RunFromNext(ops, m2, 2);
      var m3 := m2.(ac := Number(101));
      assert m3.stack[m3.sp - 1] == Number(99);
      ConsBuildsPair(ops, m3, 3);
      AllocCollects(ops, m3, PairObj(Number(99), Number(101)));
      RunFromNext(ops, m3, 3);
      var m4 := Step(ops, m3, 3).m;
      AddPairSums(ops, m4, 4);
      RunFromNext(ops, m4, 4);
      var m5 := m4.(ac := Number(200));
      assert RunFrom(ops, m5, 5) == Done(m5);
    }
  }

  /** The `mark_and_sweep` that ends `run_add_pair` frees the pair the run
      built: nothing the machine holds names it.  On a fresh machine the
      heap is empty again. */
  lemma RunAddPairFreesPair(m: Machine)
    requires MachineOk(AddPairOps, m) && m.sp < VmSpec.StackSize
    ensures Run(AddPairOps, m).Done? && MachineOk(AddPairOps, Run(AddPairOps, m).m)
    ensures var m' := Run(AddPairOps, m).m;
      var h := Collect(m'.heap, Roots(AddPairOps, m'));
      && m.heap.nextRef !in h.objects
      && (m.heap.objects == map[] ==> h.objects == map[])
  {
    RunAddPairGives200(m);
    RunOk(AddPairOps, m, 0);
    var m' := Run(AddPairOps, m).m;
    var r := m.heap.nextRef;
    forall k | 0 <= k < m'.sp ensures ValueBelow(m'.stack[k], r) {
      assert m'.stack[k] == m.stack[k] && Held(m.stack[k], r);
    }
    LiveBelow(AddPairOps, m', r);
    var roots := Roots(AddPairOps, m');
    CollectOk(m'.heap, roots);
    var h := Collect(m'.heap, roots);
    if m.heap.objects == map[] {
      assert forall x :: x !in h.objects;
    }
  }

  /** Every `Push` of `run_add_pair` pushes the number 99. */
  lemma AddPairPushesImmediates()
    ensures PushesImmediates(AddPairOps)
  {
    var ops := AddPairOps;
    assert ops[0] == Constant(Number(99)) && ops[1] == Push && ops[2] == Constant(Number(101));
    assert ops[3] == Cons && ops[4] == AddPair;
  }

  /** `run_add_pair` as main.rs writes it, with the stack pointer stepped
      back before the allocation, computes the same run as with the first
      element rooted, on any machine whose stack holds numbers: the popped
      99 roots nothing.  `RunAddPairGives200` and `RunAddPairFreesPair`
      therefore hold for the program as written. */
  lemma RunAddPairAsWritten(m: Machine)
    requires MachineOk(AddPairOps, m) && ImmediateSlots(m)
    ensures RunAsWritten(AddPairOps, m) == Run(AddPairOps, m)
  {
    AddPairPushesImmediates();
    RunAsWrittenAgrees(AddPairOps, m, 0);
  }

  // ---------------------------------------------------------------------
  // Many pairs.

  /** One turn of the loop that builds the program of
      `test_vm_alloc_many_pairs`: load 99, push it, load 101, cons. */
  const PairTurn: seq<ProtoOp> := [Constant(Number(99)), Push, Constant(Number(101)), Cons]

  /** The program after `k` turns of that loop. */
  function ManyPairsOps(k: nat): (ops: seq<ProtoOp>)
    ensures |ops| == 4 * k
  {
    if k == 0 then [] else ManyPairsOps(k - 1) + PairTurn
  }

  /** Instruction `t` of turn `j` is instruction `t` of `PairTurn`. */
  lemma {:induction false} ManyPairsAt(k: nat, j: nat, t: nat)
    requires j < k && t < 4
    ensures ManyPairsOps(k)[4 * j + t] == PairTurn[t]
  {
    var a := ManyPairsOps(k - 1);
    assert ManyPairsOps(k) == a + PairTurn;
    if j < k - 1 {
      ManyPairsAt(k - 1, j, t);
      assert ManyPairsOps(k)[4 * j + t] == a[4 * j + t];
    } else {
      assert ManyPairsOps(k)[4 * j + t] == PairTurn[4 * j + t - |a|];
    }
  }

  /** The constants of the program are the numbers 99 and 101. */
  lemma {:induction false} ManyPairsConsts(k: nat, v: Value)
    requires Constant(v) in ManyPairsOps(k)
    ensures v == Number(99) || v == Number(101)
  {
    var a := ManyPairsOps(k - 1);
    assert ManyPairsOps(k) == a + PairTurn;
    if Constant(v) in a {
      ManyPairsConsts(k - 1, v);
    }
  }

  /** Every `Push` of the program pushes the number 99. */
  lemma {:induction false} ManyPairsPushesImmediates(k: nat)
    ensures PushesImmediates(ManyPairsOps(k))
  {
    if k > 0 {
      var a := ManyPairsOps(k - 1);
      var ops := ManyPairsOps(k);
      assert ops == a + PairTurn;
      ManyPairsPushesImmediates(k - 1);
      forall j | 0 <= j < |ops| && ops[j] == Push
        ensures 0 < j && ops[j - 1].Constant? && MarkSeq(ops[j - 1].c) == []
      {
        if j < |a| {
          assert ops[j] == a[j] && ops[j - 1] == a[j - 1];
        } else {
          assert ops[j] == PairTurn[j - |a|];
          assert j - |a| == 1;
          assert ops[j - 1] == PairTurn[0];
        }
      }
    }
  }

  /** A fresh machine keeps the invariant for the program. */
  lemma ManyPairsStartOk(k: nat)
    ensures MachineOk(ManyPairsOps(k), NewMachine())
  {
    var ops := ManyPairsOps(k);
    forall i | 0 <= i < |ops| && ops[i].Constant? ensures Held(ops[i].c, 0) {
      assert Constant(ops[i].c) in ops;
      ManyPairsConsts(k, ops[i].c);
    }
    NewMachineOk(ops);
  }

  /** With 99 on the stack and 101 in `ac`, nothing is a root: the
      constants are numbers. */
  lemma ManyPairsRootsEmpty(k: nat, m: Machine)
    requires 0 <= m.sp <= |m.stack| && m.sp == 1 && m.stack[0] == Number(99) && m.ac == Number(101)
    ensures RootRefs(Roots(ManyPairsOps(k), m)) == {}
  {
    forall x | x in RootRefs(Roots(ManyPairsOps(k), m)) ensures false {
      RootsExactly(ManyPairsOps(k), m, x);
      var v :| (v in m.stack[..m.sp] || v == m.ac || Constant(v) in ManyPairsOps(k)) && x in MarkSeq(v);
      if Constant(v) in ManyPairsOps(k) {
        ManyPairsConsts(k, v);
      }
    }
  }

  /** The machine after one turn from an empty stack: 99 in the bottom
      slot, the heap after collecting for 99 and 101 and allocating their
      pair, and that pair in `ac`. */
  function AfterTurn(ops: seq<ProtoOp>, m: Machine): Machine
    requires HeapOk(m.heap) && 1 <= |m.stack|
  {
    var m3 := m.(stack := m.stack[0 := Number(99)], sp := 1, ac := Number(101));
    Machine(Allocate(Collect(m.heap, Roots(ops, m3)), PairObj(Number(99), Number(101))), m3.stack, 0, PairRef(m.heap.nextRef))
  }

  /** The machine's stack is empty and its one object is the pair of 99
      and 101 in the slot handed out last, named by `ac`. */
  ghost predicate LastPairOnly(m: Machine) {
    && m.sp == 0 && m.heap.nextRef > 0
    && m.ac == PairRef(m.heap.nextRef - 1)
    && m.heap.objects == map[m.heap.nextRef - 1 := PairObj(Number(99), Number(101))]
  }

  /** One turn from an empty stack: the `Cons` collects every object,
      since nothing the machine holds is a reference, then allocates the
      pair of 99 and 101 as the only object, named by `ac`. */
  lemma ManyPairsTurn(k: nat, j: nat, m: Machine)
    requires j < k && MachineOk(ManyPairsOps(k), m) && m.sp == 0
    ensures var ops := ManyPairsOps(k);
      var m' := AfterTurn(ops, m);
      && MachineOk(ops, m') && LastPairOnly(m') && m'.heap.nextRef == m.heap.nextRef + 1
      && RunFrom(ops, m, 4 * j) == RunFrom(ops, m', 4 * j + 4)
  {
    var ops := ManyPairsOps(k);
    ManyPairsAt(k, j, 0);
    ManyPairsAt(k, j, 1);
    ManyPairsAt(k, j, 2);
    ManyPairsAt(k, j, 3);
    ConstantLoads(ops, m, 4 * j);
    RunFromNext(ops, m, 4 * j);
    var m1 := m.(ac := Number(99));
    PushStores(ops, m1, 4 * j + 1);
    RunFromNext(ops, m1, 4 * j + 1);
    var m2 := m1.(stack := m.stack[0 := Number(99)], sp := 1);
    ConstantLoads(ops, m2, 4 * j + 2);
    RunFromNext(ops, m2, 4 * j + 2);
    var m3 := m2.(ac := Number(101));
    assert m3 == m.(stack := m.stack[0 := Number(99)], sp := 1, ac := Number(101));
    var o := PairObj(Number(99), Number(101));
    ConsBuildsPair(ops, m3, 4 * j + 3);
    AllocCollects(ops, m3, o);
    RunFromNext(ops, m3, 4 * j + 3);
    ManyPairsRootsEmpty(k, m3);
    assert Live(m3.heap.objects, Roots(ops, m3)) == {};
    var m4 := Step(ops, m3, 4 * j + 3).m;
    var r := m.heap.nextRef;
    assert m4.heap.objects == map[r := o];
  }

  /** The run from instruction `i` ends with `LastPairOnly` after `n`
      slots have been handed out. */
  ghost predicate EndsWithLastPair(ops: seq<ProtoOp>, m: Machine, i: nat, n: nat)
    requires MachineOk(ops, m) && i <= |ops|
  {
    RunFrom(ops, m, i).Done? && LastPairOnly(RunFrom(ops, m, i).m) && RunFrom(ops, m, i).m.heap.nextRef == n
  }

  /** The turns from turn `j` on, at least one: each frees the pair of the
      turn before, so after the last one the only object is the last
      pair. */
  lemma {:induction false} ManyPairsFrom(ops: seq<ProtoOp>, k: nat, j: nat, m: Machine)
    requires ops == ManyPairsOps(k) && j < k && MachineOk(ops, m) && m.sp == 0
    ensures EndsWithLastPair(ops, m, 4 * j, m.heap.nextRef + (k - j))
    decreases k - j, 1
  {
    if j + 1 < k {
      ManyPairsNextTurn(ops, k, j, m);
    } else {
      ManyPairsLastTurn(ops, k, m);
    }
  }

  /** A turn that is not the last, followed by the turns after it. */
  lemma {:induction false} ManyPairsNextTurn(ops: seq<ProtoOp>, k: nat, j: nat, m: Machine)
    requires ops == ManyPairsOps(k) && j + 1 < k && MachineOk(ops, m) && m.sp == 0
    ensures EndsWithLastPair(ops, m, 4 * j, m.heap.nextRef + (k - j))
    decreases k - j, 0
  {
    ManyPairsTurn(k, j, m);
    ManyPairsFrom(ops, k, j + 1, AfterTurn(ops, m));
    assert 4 * j + 4 == 4 * (j + 1);
  }

  /** The last turn ends the run with its pair as the only object. */
  lemma ManyPairsLastTurn(ops: seq<ProtoOp>, k: nat, m: Machine)
    requires ops == ManyPairsOps(k) && 0 < k && MachineOk(ops, m) && m.sp == 0
    ensures EndsWithLastPair(ops, m, 4 * (k - 1), m.heap.nextRef + 1)
  {
    ManyPairsTurn(k, k - 1, m);
    var m1 := AfterTurn(ops, m);
    assert RunFrom(ops, m1, 4 * (k - 1) + 4) == Done(m1);
  }

  /** The program of `test_vm_alloc_many_pairs`, `k` turns of its loop,
      on a fresh prototype machine, which collects on every allocation:
      the run ends with `k` slots handed out and one object, the pair of
      99 and 101 built by the last turn, named by `ac`, with the stack
      empty. */
  lemma ManyPairsKeepsLast(k: nat)
    ensures MachineOk(ManyPairsOps(k), NewMachine())
    ensures Run(ManyPairsOps(k), NewMachine()).Done?
    ensures k == 0 ==> Run(ManyPairsOps(k), NewMachine()).m == NewMachine()
    ensures k > 0 ==> EndsWithLastPair(ManyPairsOps(k), NewMachine(), 0, k)
  {
    ManyPairsStartOk(k);
    if k > 0 {
      ManyPairsFrom(ManyPairsOps(k), k, 0, NewMachine());
    }
  }

  /** The `mark_and_sweep` after that run keeps exactly the last pair:
      `ac` names it. */
  lemma ManyPairsFinalSweep(k: nat)
    requires k > 0
    ensures MachineOk(ManyPairsOps(k), NewMachine())
    ensures var ops := ManyPairsOps(k);
      && Run(ops, NewMachine()).Done? && MachineOk(ops, Run(ops, NewMachine()).m)
      && var m := Run(ops, NewMachine()).m;
      Collect(m.heap, Roots(ops, m)).objects == m.heap.objects == map[k - 1 := PairObj(Number(99), Number(101))]
  {
    var ops := ManyPairsOps(k);
    ManyPairsKeepsLast(k);
    RunOk(ops, NewMachine(), 0);
    var m := Run(ops, NewMachine()).m;
    RootIsLive(ops, m, m.ac);
    CollectOk(m.heap, Roots(ops, m));
    var c := Collect(m.heap, Roots(ops, m));
    assert c.objects.Keys == m.heap.objects.Keys;
  }

  /** `Cons` as written computes the same run: every `Cons` of the
      program pops the number 99. */
  lemma ManyPairsAsWritten(k: nat)
    ensures MachineOk(ManyPairsOps(k), NewMachine())
    ensures RunAsWritten(ManyPairsOps(k), NewMachine()) == Run(ManyPairsOps(k), NewMachine())
  {
    var ops := ManyPairsOps(k);
    ManyPairsStartOk(k);
    ManyPairsPushesImmediates(k);
    if k > 0 {
      ManyPairsAt(k, 0, 0);
    }
    RunAsWrittenAgrees(ops, NewMachine(), 0);
  }

  // ---------------------------------------------------------------------
  // `Cons` as written.

  /** A program on which `Cons` as written frees a pair it is about to
      store: the first `Cons` builds a pair, `Push` puts it on the stack,
      and the second `Cons` takes it off the stack before collecting. */
  const WindowOps: seq<ProtoOp> :=
    [Constant(Number(1)), Push, Constant(Number(2)), Cons, Push, Constant(Number(3)), Cons]

  /** The constants of `WindowOps` are numbers. */
  lemma WindowConstsNumbers()
    ensures forall i :: 0 <= i < |WindowOps| && WindowOps[i].Constant? ==> WindowOps[i].c.Number?
  {
    forall i | 0 <= i < |WindowOps| && WindowOps[i].Constant? ensures WindowOps[i].c.Number? {
      assert Constant(WindowOps[i].c) in WindowOps;
    }
  }

  /** The heap after the first `Cons`: the pair of 1 and 2 in slot 0. */
  function PairHeap(): HeapState {
    HeapState(map[0 := PairObj(Number(1), Number(2))], [0], 1, map[], 3, 0)
  }

  /** The machine after the first `Cons`. */
  function AfterFirstCons(): Machine {
    Machine(PairHeap(), NewMachine().stack[0 := Number(1)], 0, PairRef(0))
  }

  /** The machine in front of the second `Cons`: the pair of 1 and 2 is
      in slot 0, on the stack, and `ac` holds 3. */
  function BeforeSecondCons(): Machine {
    Machine(PairHeap(), NewMachine().stack[0 := PairRef(0)], 1, Number(3))
  }

  /** The machine in front of the first `Cons`. */
  function BeforeFirstCons(): Machine {
    Machine(EmptyHeap(), NewMachine().stack[0 := Number(1)], 1, Number(2))
  }

  /** Three steps of `WindowOps` from a fresh machine push 1 and load 2. */
  lemma ReachBeforeFirstCons()
    ensures MachineOk(WindowOps, NewMachine()) && MachineOk(WindowOps, BeforeFirstCons())
    ensures RunFrom(WindowOps, NewMachine(), 0) == RunFrom(WindowOps, BeforeFirstCons(), 3)
  {
    var ops := WindowOps;
    assert ops[0] == Constant(Number(1)) && ops[1] == Push && ops[2] == Constant(Number(2));
    WindowConstsNumbers();
    var m0 := NewMachine();
    NewMachineOk(ops);
    ConstantLoads(ops, m0, 0);
    RunFromNext(ops, m0, 0);
    var m1 := m0.(ac := Number(1));
    PushStores(ops, m1, 1);
    RunFromNext(ops, m1, 1);
    var m2 := m1.(stack := m0.stack[0 := Number(1)], sp := 1);
    ConstantLoads(ops, m2, 2);
    RunFromNext(ops, m2, 2);
    assert m2.(ac := Number(2)) == BeforeFirstCons();
  }

  /** The first `Cons` collects an empty heap and builds the pair of 1 and
      2 in its first slot. */
  lemma FirstConsStep()
    requires MachineOk(WindowOps, BeforeFirstCons())
    ensures Step(WindowOps, BeforeFirstCons(), 3) == Done(AfterFirstCons())
  {
    var ops := WindowOps;
    assert ops[3] == Cons;
    var m3 := BeforeFirstCons();
    ConsBuildsPair(ops, m3, 3);
    EmptyCollect(ops, m3);
    PairHeapAllocated();
  }

  /** Allocating the pair of 1 and 2 in an empty heap gives `PairHeap`. */
  lemma PairHeapAllocated()
    ensures Allocate(HeapState(map[], [], 0, map[], 0, 0), PairObj(Number(1), Number(2))) == PairHeap()
  {
    var p := PairObj(Number(1), Number(2));
    var empty: map<Ref, Obj> := map[];
    assert empty[0 := p] == map[0 := p];
    assert [0] + [] == [0];
    assert SizeOf(p) == 3;
  }

  /** Six steps of `WindowOps` from a fresh machine lead to
      `BeforeSecondCons`, which has no dangling reference. */
  lemma ReachBeforeSecondCons()
    ensures MachineOk(WindowOps, NewMachine()) && MachineOk(WindowOps, BeforeSecondCons())
    ensures RunFrom(WindowOps, NewMachine(), 0) == RunFrom(WindowOps, BeforeSecondCons(), 6)
  {
    var ops := WindowOps;
    assert ops[4] == Push && ops[5] == Constant(Number(3));
    ReachBeforeFirstCons();
    FirstConsStep();
    RunFromNext(ops, BeforeFirstCons(), 3);
    var m4 := AfterFirstCons();
    PushStores(ops, m4, 4);
    RunFromNext(ops, m4, 4);
    var m5 := m4.(stack := m4.stack[0 := PairRef(0)], sp := 1);
    ConstantLoads(ops, m5, 5);
    RunFromNext(ops, m5, 5);
    assert m5.stack == BeforeSecondCons().stack;
    assert m5.(ac := Number(3)) == BeforeSecondCons();
  }

  /** A collection of an empty heap leaves it empty and sets the next
      threshold to 0. */
  lemma EmptyCollect(ops: seq<ProtoOp>, m: Machine)
    requires MachineOk(ops, m) && m.heap == EmptyHeap()
    ensures Collect(m.heap, Roots(ops, m)) == HeapState(map[], [], 0, map[], 0, 0)
  {
    var h := Collect(m.heap, Roots(ops, m));
    CollectOk(m.heap, Roots(ops, m));
    assert h.objects == map[];
  }

  /** The constants of `WindowOps` are numbers, so nothing is marked once
      the pair has left the stack. */
  lemma WindowRootsEmpty(m: Machine)
    requires 0 <= m.sp <= |m.stack| && m.sp == 0 && m.ac.Number?
    ensures RootRefs(Roots(WindowOps, m)) == {}
  {
    forall x | x in RootRefs(Roots(WindowOps, m)) ensures false {
      RootsExactly(WindowOps, m, x);
    }
  }

  /** In front of the second `Cons` nothing dangles: the pair of 1 and 2
      is on the stack. */
  lemma BeforeSecondConsClosed()
    ensures Closed(WindowOps, BeforeSecondCons())
  {
    WindowConstsNumbers();
    var b := BeforeSecondCons();
    assert forall i :: 0 <= i < b.sp ==> b.stack[i] == PairRef(0);
  }

  /** `Cons` as written, in front of the second `Cons`: the collection
      frees the pair of 1 and 2, and the new pair names the freed slot. */
  lemma ConsAsWrittenDangles()
    ensures MachineOk(WindowOps, BeforeSecondCons())
    ensures ConsAsWritten(WindowOps, BeforeSecondCons()).Done?
    ensures var m := ConsAsWritten(WindowOps, BeforeSecondCons()).m;
      && m.ac == PairRef(1) && 1 in m.heap.objects
      && m.heap.objects[1] == PairObj(PairRef(0), Number(3))
      && 0 !in m.heap.objects
      && !Closed(WindowOps, m)
  {
    ReachBeforeSecondCons();
    var b := BeforeSecondCons();
    var m1 := b.(sp := 0);
    WindowRootsEmpty(m1);
    var roots := Roots(WindowOps, m1);
    assert Live(b.heap.objects, roots) == {};
    CollectOk(b.heap, roots);
  }

  /** The second `Cons` with its first element rooted keeps the pair of 1
      and 2 and builds the new pair on it. */
  lemma ConsRootedKeepsPair()
    ensures MachineOk(WindowOps, BeforeSecondCons())
    ensures Step(WindowOps, BeforeSecondCons(), 6).Done?
    ensures var m := Step(WindowOps, BeforeSecondCons(), 6).m;
      && m.ac == PairRef(1) && 0 in m.heap.objects && 1 in m.heap.objects
      && m.heap.objects[1] == PairObj(PairRef(0), Number(3))
      && Closed(WindowOps, m)
  {
    ReachBeforeSecondCons();
    BeforeSecondConsClosed();
    var b := BeforeSecondCons();
    ConsKeepsClosed(WindowOps, b);
    ConsBuildsPair(WindowOps, b, 6);
    StepKeepsClosed(WindowOps, b, 6);
  }
}
