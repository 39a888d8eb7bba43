/** Properties of the prototype interpreter of main.rs: what `mark_roots`
    marks, what every allocation collects, what each instruction computes,
    that a run never leaves a dangling reference when `Cons` keeps its
    first element rooted, the input on which `Cons` as written does leave
    one, and the results of `run_add` and `run_add_pair`. */
module ProtoProps {
  import opened Values
  import opened HeapSpec
  import opened ProtoSpec
  import VmSpec

  // ---------------------------------------------------------------------
  // Roots.

  /** The references marked for a list of roots are those of its values. */
  lemma {:induction false} RootRefsOf(roots: seq<Value>, x: Ref)
    ensures x in RootRefs(roots) <==> exists v :: v in roots && x in MarkSeq(v)
    decreases |roots|
  {
    if roots != [] {
      var init, last := roots[..|roots| - 1], roots[|roots| - 1];
      assert roots == init + [last];
      RootRefsOf(init, x);
      ElemsAppend(RootPushes(init), MarkSeq(last));
      if x in RootRefs(roots) && x in RootRefs(init) {
        var v :| v in init && x in MarkSeq(v);
        assert v in roots;
      }
      if exists v :: v in roots && x in MarkSeq(v) {
        var v :| v in roots && x in MarkSeq(v);
        if v != last {
          assert v in init;
        }
      }
    }
  }

  /** The constants of a program are exactly the operands of its
      `Constant` instructions. */
  lemma {:induction false} ConstRootsOf(ops: seq<ProtoOp>, v: Value)
    ensures v in ConstRoots(ops) <==> Constant(v) in ops
    decreases |ops|
  {
    if ops != [] {
      var init, last := ops[..|ops| - 1], ops[|ops| - 1];
      assert ops == init + [last];
      ConstRootsOf(init, v);
    }
  }

  /** `mark_roots` marks exactly the objects named by the slots below the
      stack pointer, by the accumulator and by the `Constant` operands. */
  lemma RootsExactly(ops: seq<ProtoOp>, m: Machine, x: Ref)
    requires 0 <= m.sp <= |m.stack|
    ensures x in RootRefs(Roots(ops, m)) <==>
      exists v :: (v in m.stack[..m.sp] || v == m.ac || Constant(v) in ops) && x in MarkSeq(v)
  {
    RootRefsOf(Roots(ops, m), x);
    forall v ensures v in Roots(ops, m) <==> (v in m.stack[..m.sp] || v == m.ac || Constant(v) in ops) {
      ConstRootsOf(ops, v);
    }
  }

  /** A pair or symbol named by a root survives the collection. */
  lemma RootIsLive(ops: seq<ProtoOp>, m: Machine, v: Value)
    requires HeapOk(m.heap) && 0 <= m.sp <= |m.stack|
    requires v in m.stack[..m.sp] || v == m.ac || Constant(v) in ops
    requires v.PairRef? || v.SymbolRef?
    ensures v.ref in Live(m.heap.objects, Roots(ops, m))
  {
    assert v.ref in MarkSeq(v);
    RootsExactly(ops, m, v.ref);
    ReachedCovers(m.heap.objects, RootRefs(Roots(ops, m)));
  }

  /** When every reference the roots hold is below `b`, so is every
      reference a collection keeps: objects only point to older ones. */
  lemma LiveBelow(ops: seq<ProtoOp>, m: Machine, b: nat)
    requires HeapOk(m.heap) && 0 <= m.sp <= |m.stack|
    requires forall k :: 0 <= k < m.sp ==> ValueBelow(m.stack[k], b)
    requires ValueBelow(m.ac, b) && ConstsOk(ops, b)
    ensures forall x :: x in Live(m.heap.objects, Roots(ops, m)) ==> x < b
  {
    var objs, roots := m.heap.objects, Roots(ops, m);
    forall x | x in Live(objs, roots) ensures x < b {
      var r :| r in RootRefs(roots) && x in Traced(objs, r);
      RootsExactly(ops, m, r);
      var v :| (v in m.stack[..m.sp] || v == m.ac || Constant(v) in ops) && r in MarkSeq(v);
      if Constant(v) in ops {
        var k :| 0 <= k < |ops| && ops[k] == Constant(v);
        assert Held(ops[k].c, b);
      }
    }
  }

  // ---------------------------------------------------------------------
  // Allocation.

  /** Every allocation runs a full collection first: the objects kept are
      exactly the live ones, in their old list order, and the new object
      is linked in at the head of the list. */
  lemma AllocCollects(ops: seq<ProtoOp>, m: Machine, o: Obj)
    requires MachineOk(ops, m) && ObjBelow(o, m.heap.nextRef)
    ensures var (m2, r) := AllocObj(ops, m, o);
      var live := Live(m.heap.objects, Roots(ops, m));
      && r == m.heap.nextRef && r !in m.heap.objects && m2.heap.nextRef == r + 1
      && m2.heap.list == [r] + Filter(m.heap.list, live)
      && (forall x :: x in m2.heap.objects <==> x == r || (x in m.heap.objects && x in live))
      && m2.heap.objects[r] == o
      && (forall x :: x in m.heap.objects && x in live ==> m2.heap.objects[x] == m.heap.objects[x])
  {
    CollectOk(m.heap, Roots(ops, m));
    AllocObjOk(ops, m, o);
  }

  // ---------------------------------------------------------------------
  // The instructions.

  /** `Constant` loads its operand into `ac` and changes nothing else. */
  lemma ConstantLoads(ops: seq<ProtoOp>, m: Machine, i: nat)
    requires MachineOk(ops, m) && i < |ops| && ops[i].Constant?
    ensures Step(ops, m, i) == Done(m.(ac := ops[i].c))
  {
  }

  /** `Push` panics on a full stack; otherwise it stores `ac` at `sp`,
      advances `sp` and changes nothing else. */
  lemma PushStores(ops: seq<ProtoOp>, m: Machine, i: nat)
    requires MachineOk(ops, m) && i < |ops| && ops[i] == Push
    ensures Step(ops, m, i).Done? <==> m.sp < VmSpec.StackSize
    ensures Step(ops, m, i).Done? ==>
      Step(ops, m, i).m == m.(stack := m.stack[m.sp := m.ac], sp := m.sp + 1)
  {
  }

  /** `Add` panics unless there is a slot to pop, it and `ac` are numbers
      and their sum fits in an `isize`; then the sum goes to `ac` and the
      slot is popped. */
  lemma AddSums(ops: seq<ProtoOp>, m: Machine, i: nat)
    requires MachineOk(ops, m) && i < |ops| && ops[i] == Add
    ensures Step(ops, m, i).Done? <==>
      m.sp > 0 && m.stack[m.sp - 1].Number? && m.ac.Number?
      && VmSpec.IsizeMin <= m.stack[m.sp - 1].n + m.ac.n <= VmSpec.IsizeMax
    ensures Step(ops, m, i).Done? ==>
      Step(ops, m, i).m == m.(sp := m.sp - 1, ac := Number(m.stack[m.sp - 1].n + m.ac.n))
  {
  }

  /** `Push` then `Add` doubles a number in `ac` and leaves the stack
      pointer where it was. */
  lemma PushThenAdd(ops: seq<ProtoOp>, m: Machine, i: nat)
    requires MachineOk(ops, m) && i + 1 < |ops| && ops[i] == Push && ops[i + 1] == Add
    requires m.sp < VmSpec.StackSize && m.ac.Number?
    requires VmSpec.IsizeMin <= 2 * m.ac.n <= VmSpec.IsizeMax
    ensures var m1 := m.(stack := m.stack[m.sp := m.ac], sp := m.sp + 1);
      && Step(ops, m, i) == Done(m1) && MachineOk(ops, m1)
      && Step(ops, m1, i + 1) == Done(m.(stack := m1.stack, ac := Number(2 * m.ac.n)))
  {
    PushStores(ops, m, i);
    StepOk(ops, m, i);
    AddSums(ops, Step(ops, m, i).m, i + 1);
  }

  /** `AddPair` panics unless `ac` names a pair still allocated whose two
      fields are numbers with a sum that fits in an `isize`; then the sum
      goes to `ac`. */
  lemma AddPairSums(ops: seq<ProtoOp>, m: Machine, i: nat)
    requires MachineOk(ops, m) && i < |ops| && ops[i] == AddPair
    ensures Step(ops, m, i).Done? <==>
      && m.ac.PairRef? && m.ac.ref in m.heap.objects
      && var p := m.heap.objects[m.ac.ref];
      && p.PairObj? && p.first.Number? && p.second.Number?
      && VmSpec.IsizeMin <= p.first.n + p.second.n <= VmSpec.IsizeMax
    ensures Step(ops, m, i).Done? ==>
      var p := m.heap.objects[m.ac.ref];
      Step(ops, m, i).m == m.(ac := Number(p.first.n + p.second.n))
  {
  }

  /** `Cons` panics on an empty stack; otherwise `ac` names a fresh pair of
      the top slot and the old `ac`, and the slot is popped. */
  lemma ConsBuildsPair(ops: seq<ProtoOp>, m: Machine, i: nat)
    requires MachineOk(ops, m) && i < |ops| && ops[i] == Cons
    ensures Step(ops, m, i).Done? <==> m.sp > 0
    ensures Step(ops, m, i).Done? ==>
      var m1 := Step(ops, m, i).m;
      && m1.ac == PairRef(m.heap.nextRef) && m.heap.nextRef !in m.heap.objects
      && m1.heap.objects[m.heap.nextRef] == PairObj(m.stack[m.sp - 1], m.ac)
      && m1.sp == m.sp - 1 && m1.stack == m.stack
      && m1.heap == AllocObj(ops, m, PairObj(m.stack[m.sp - 1], m.ac)).0.heap
  {
    if m.sp > 0 {
      var o := PairObj(m.stack[m.sp - 1], m.ac);
      AllocObjOk(ops, m, o);
      var (m2, r) := AllocObj(ops, m, o);
      assert Step(ops, m, i) == ConsRooted(ops, m);
      assert ConsRooted(ops, m) == Done(m2.(sp := m.sp - 1, ac := PairRef(r)));
    } else {
      assert Step(ops, m, i) == ConsRooted(ops, m) == Panic;
    }
  }

  // ---------------------------------------------------------------------
  // Runs.

  /** One iteration of the loop of `run`: a step that panics ends the
      run with a panic, any other goes on with the next instruction. */
  lemma RunFromNext(ops: seq<ProtoOp>, m: Machine, i: nat)
    requires MachineOk(ops, m) && i < |ops|
    ensures Step(ops, m, i).Panic? ==> RunFrom(ops, m, i) == Panic
    ensures Step(ops, m, i).Done? ==>
      && MachineOk(ops, Step(ops, m, i).m)
      && RunFrom(ops, m, i) == RunFrom(ops, Step(ops, m, i).m, i + 1)
  {
    StepOk(ops, m, i);
  }

  /** A run that does not panic keeps the invariant. */
  lemma {:induction false} RunOk(ops: seq<ProtoOp>, m: Machine, i: nat)
    requires MachineOk(ops, m) && i <= |ops|
    ensures RunFrom(ops, m, i).Done? ==> MachineOk(ops, RunFrom(ops, m, i).m)
    decreases |ops| - i
  {
    if i < |ops| {
      StepOk(ops, m, i);
      if Step(ops, m, i).Done? {
        RunOk(ops, Step(ops, m, i).m, i + 1);
      }
    }
  }

  // ---------------------------------------------------------------------
  // No dangling references.

  /** A value the machine holds that names an allocated object still does
      after a collection for the machine's roots. */
  lemma RootKept(ops: seq<ProtoOp>, m: Machine, v: Value)
    requires MachineOk(ops, m)
    requires v in m.stack[..m.sp] || v == m.ac || Constant(v) in ops
    requires Present(v, m.heap.objects)
    ensures Present(v, Collect(m.heap, Roots(ops, m)).objects)
  {
    CollectOk(m.heap, Roots(ops, m));
    if v.PairRef? || v.SymbolRef? {
      RootIsLive(ops, m, v);
    }
  }

  /** The objects named by the fields of a live pair are live. */
  lemma FieldsLive(objs: map<Ref, Obj>, roots: seq<Value>, r: Ref)
    requires PointsDown(objs) && r in objs && objs[r].PairObj? && r in Live(objs, roots)
    ensures var p := objs[r];
      && ((p.first.PairRef? || p.first.SymbolRef?) ==> p.first.ref in Live(objs, roots))
      && ((p.second.PairRef? || p.second.SymbolRef?) ==> p.second.ref in Live(objs, roots))
  {
    var p := objs[r];
    LiveClosedUnderPushes(objs, roots, r);
    assert Pushes(objs, r) == MarkSeq(p.first) + MarkSeq(p.second)
      + PushesOfValue(objs, p.first) + PushesOfValue(objs, p.second);
  }

  /** A collection for the machine's roots frees nothing the machine or a
      surviving pair still names. */
  lemma CollectKeepsClosed(ops: seq<ProtoOp>, m: Machine)
    requires MachineOk(ops, m) && Closed(ops, m)
    ensures Closed(ops, m.(heap := Collect(m.heap, Roots(ops, m))))
  {
    var objs, roots := m.heap.objects, Roots(ops, m);
    var kept := Collect(m.heap, roots).objects;
    CollectOk(m.heap, roots);
    forall k | 0 <= k < m.sp ensures Present(m.stack[k], kept) {
      assert m.stack[k] in m.stack[..m.sp];
      RootKept(ops, m, m.stack[k]);
    }
    RootKept(ops, m, m.ac);
    forall k | 0 <= k < |ops| && ops[k].Constant? ensures Present(ops[k].c, kept) {
      assert ops[k] == Constant(ops[k].c);
      RootKept(ops, m, ops[k].c);
    }
    forall r | r in kept && kept[r].PairObj?
      ensures Present(kept[r].first, kept) && Present(kept[r].second, kept)
    {
      FieldsLive(objs, roots, r);
    }
  }

  /** Allocating a pair whose fields are present keeps the machine
      closed. */
  lemma AllocateKeepsClosed(ops: seq<ProtoOp>, m: Machine, o: Obj)
    requires 0 <= m.sp <= |m.stack| && Closed(ops, m) && m.heap.nextRef !in m.heap.objects
    requires o.PairObj? && Present(o.first, m.heap.objects) && Present(o.second, m.heap.objects)
    ensures Closed(ops, m.(heap := Allocate(m.heap, o)))
  {
    var objs' := Allocate(m.heap, o).objects;
    assert objs' == m.heap.objects[m.heap.nextRef := o];
    forall r | r in objs' && objs'[r].PairObj?
      ensures Present(objs'[r].first, objs') && Present(objs'[r].second, objs')
    {
      if r != m.heap.nextRef {
        assert objs'[r] == m.heap.objects[r];
      }
    }
  }

  /** `Cons` with its first element rooted keeps the machine closed. */
  lemma ConsKeepsClosed(ops: seq<ProtoOp>, m: Machine)
    requires MachineOk(ops, m) && Closed(ops, m) && m.sp > 0
    ensures ConsRooted(ops, m).Done? && Closed(ops, ConsRooted(ops, m).m)
  {
    var o := PairObj(m.stack[m.sp - 1], m.ac);
    var h := Collect(m.heap, Roots(ops, m));
    var m1 := m.(heap := h);
    CollectKeepsClosed(ops, m);
    CollectOk(m.heap, Roots(ops, m));
    assert Present(m.stack[m.sp - 1], h.objects);
    AllocateKeepsClosed(ops, m1, o);
    var m2 := m1.(heap := Allocate(h, o));
    assert ConsRooted(ops, m) == Done(m2.(sp := m.sp - 1, ac := PairRef(h.nextRef)));
  }

  /** Every step keeps the machine closed. */
  lemma StepKeepsClosed(ops: seq<ProtoOp>, m: Machine, i: nat)
    requires MachineOk(ops, m) && Closed(ops, m) && i < |ops|
    ensures Step(ops, m, i).Done? ==> Closed(ops, Step(ops, m, i).m)
  {
    match ops[i]
    case Constant(c) =>
    case Push =>
    case Cons =>
      if m.sp > 0 {
        ConsKeepsClosed(ops, m);
      }
    case Add =>
    case AddPair =>
  }

  /** A whole run never leaves a dangling reference. */
  lemma {:induction false} RunKeepsClosed(ops: seq<ProtoOp>, m: Machine, i: nat)
    requires MachineOk(ops, m) && Closed(ops, m) && i <= |ops|
    ensures RunFrom(ops, m, i).Done? ==>
      MachineOk(ops, RunFrom(ops, m, i).m) && Closed(ops, RunFrom(ops, m, i).m)
    decreases |ops| - i
  {
    RunOk(ops, m, i);
    if i < |ops| {
      StepOk(ops, m, i);
      StepKeepsClosed(ops, m, i);
      if Step(ops, m, i).Done? {
        RunKeepsClosed(ops, Step(ops, m, i).m, i + 1);
      }
    }
  }

  // ---------------------------------------------------------------------
  // `Cons` as written.

  /** When the popped first element holds no reference, `Cons` as written
      and `Cons` with the element rooted collect the same objects and build
      the same pair: marking that slot pushes nothing. */
  lemma ConsAsWrittenAgrees(ops: seq<ProtoOp>, m: Machine)
    requires MachineOk(ops, m) && m.sp > 0 && MarkSeq(m.stack[m.sp - 1]) == []
    ensures ConsAsWritten(ops, m) == ConsRooted(ops, m)
  {
    var m1 := m.(sp := m.sp - 1);
    assert m.stack[..m.sp] == m1.stack[..m1.sp] + [m.stack[m.sp - 1]];
    forall x ensures x in RootRefs(Roots(ops, m)) <==> x in RootRefs(Roots(ops, m1)) {
      RootsExactly(ops, m, x);
      RootsExactly(ops, m1, x);
    }
    assert RootRefs(Roots(ops, m)) == RootRefs(Roots(ops, m1));
  }

  /** A step keeps the slots below the stack pointer free of references
      when a `Push` pushes no reference, and `Constant` loads its
      operand. */
  lemma StepKeepsImmediates(ops: seq<ProtoOp>, m: Machine, i: nat)
    requires MachineOk(ops, m) && i < |ops| && ImmediateSlots(m)
    requires ops[i] == Push ==> MarkSeq(m.ac) == []
    ensures Step(ops, m, i).Done? ==> ImmediateSlots(Step(ops, m, i).m)
    ensures Step(ops, m, i).Done? && ops[i].Constant? ==> Step(ops, m, i).m.ac == ops[i].c
  {
    match ops[i]
    case Constant(c) => ConstantLoads(ops, m, i);
    case Push => PushStores(ops, m, i);
    case Cons => ConsBuildsPair(ops, m, i);
    case Add => AddSums(ops, m, i);
    case AddPair => AddPairSums(ops, m, i);
  }

  /** A program whose every `Push` pushes a constant with no reference,
      run from a machine whose stack holds none either, computes the same
      outcome with `Cons` as written as with its first element rooted:
      every `Cons` then pops a number, which marking would not push. */
  lemma {:induction false} RunAsWrittenAgrees(ops: seq<ProtoOp>, m: Machine, i: nat)
    requires MachineOk(ops, m) && i <= |ops| && PushesImmediates(ops) && ImmediateSlots(m)
    requires i < |ops| && ops[i] == Push ==> MarkSeq(m.ac) == []
    ensures RunFromAsWritten(ops, m, i) == RunFrom(ops, m, i)
    decreases |ops| - i
  {
    if i < |ops| {
      StepOk(ops, m, i);
      if ops[i] == Cons && m.sp > 0 {
        ConsAsWrittenAgrees(ops, m);
      }
      assert StepAsWritten(ops, m, i) == Step(ops, m, i);
      if Step(ops, m, i).Done? {
        var m1 := Step(ops, m, i).m;
        StepKeepsImmediates(ops, m, i);
        RunAsWrittenAgrees(ops, m1, i + 1);
      }
    }
  }
}
