/** What the instructions of vm.rs promise, stated on the step function:
    stack discipline, the frames `LetFrame`/`Leave` and `Frame`/`return_n`
    build and take apart, global definitions, calls, arithmetic, pair
    construction, and what a collection triggered by an allocation keeps. */
module VmProperties {
  import opened Values
  import opened HeapSpec
  import opened VmSpec

  // ---------------------------------------------------------------------
  // The operand stack.

  /** `Push` succeeds exactly when the stack has room; it stores the
      accumulator in the slot at the stack pointer and advances it, and
      nothing else changes. */
  lemma PushStoresAc(ops: seq<Op>, s: VmState)
    requires StateOk(ops, s) && s.pc < |ops| && ops[s.pc] == Push
    ensures Step(ops, s).Running? <==> s.sp < StackSize
    ensures Step(ops, s).Running? ==>
      Step(ops, s).s == s.(stack := s.stack[s.sp := s.ac], sp := s.sp + 1, pc := s.pc + 1)
  {
  }

  /** A pop right after a push gives back the pushed value and the old
      stack pointer. */
  lemma PopUndoesPush(s: VmState, v: Value)
    requires Shaped(s) && s.sp < StackSize
    ensures PushValue(s, v).Some?
    ensures PopValue(PushValue(s, v).value) == Some((s.(stack := s.stack[s.sp := v]), v))
  {
  }

  /** Pushes in a row fill consecutive slots from the stack pointer up, and
      leave every other slot alone. */
  lemma {:induction false} PushValuesSlots(s: VmState, vs: seq<Value>)
    requires Shaped(s)
    ensures PushValues(s, vs).Some? <==> s.sp + |vs| <= StackSize
    ensures PushValues(s, vs).Some? ==>
      var t := PushValues(s, vs).value;
      && t == s.(stack := t.stack, sp := s.sp + |vs|)
      && |t.stack| == StackSize
      && (forall i :: 0 <= i < |vs| ==> t.stack[s.sp + i] == vs[i])
      && (forall k :: 0 <= k < StackSize && !(s.sp <= k < s.sp + |vs|) ==> t.stack[k] == s.stack[k])
    decreases |vs|
  {
    if vs != [] && s.sp < StackSize {
      var s1 := PushValue(s, vs[0]).value;
      PushValuesSlots(s1, vs[1..]);
      if PushValues(s, vs).Some? {
        var t := PushValues(s, vs).value;
        forall i | 0 <= i < |vs| ensures t.stack[s.sp + i] == vs[i] {
          if i > 0 {
            assert vs[1..][i - 1] == vs[i];
          }
        }
      }
    }
  }

  // ---------------------------------------------------------------------
  // Frames.

  /** `LetFrame` saves the display closure and the frame pointer; a later
      `Leave(n)`, reached with `n` more slots on top of them and those two
      slots untouched, restores both and the stack pointer. */
  lemma LetFrameLeave(ops: seq<Op>, s: VmState, t: VmState, n: int)
    requires StateOk(ops, s) && s.pc < |ops| && ops[s.pc].LetFrame?
    requires s.sp + 2 <= StackSize
    requires HeapOk(t.heap) && Shaped(t) && t.pc < |ops| && ops[t.pc] == Leave(n)
    requires n >= 0 && t.sp == s.sp + 2 + n
    requires t.stack[s.sp..s.sp + 2] == [s.dc, StackPointer(s.fp)]
    ensures Step(ops, s).Running? && Step(ops, s).s.sp == s.sp + 2 && |Step(ops, s).s.stack| == StackSize
    ensures Step(ops, s).s.stack[s.sp..s.sp + 2] == [s.dc, StackPointer(s.fp)]
    ensures Step(ops, t) == Next(t.(fp := s.fp, dc := s.dc, sp := s.sp))
  {
    assert Step(ops, s) == StepLetFrame(s) && Step(ops, t) == StepLeave(t, n);
    PushValuesSlots(s, [s.dc, StackPointer(s.fp)]);
    assert t.stack[s.sp + 1] == t.stack[s.sp..s.sp + 2][1];
    assert t.stack[s.sp] == t.stack[s.sp..s.sp + 2][0];
  }

  /** `Leave(n)` continues exactly when the slot below the `n` dropped ones
      holds a saved frame pointer and a display closure lies below it. */
  lemma LeaveNeedsFrame(s: VmState, n: int)
    requires Shaped(s)
    ensures StepLeave(s, n).Running? <==>
      2 <= s.sp - n <= StackSize && s.stack[s.sp - n - 1].StackPointer?
  {
  }

  /** `Frame(skip)` saves the return address `pc + skip - 1`, the display
      closure and the frame pointer; a later `Return(n)`, reached with `n`
      more slots on top of the frame and the frame untouched, restores the
      frame pointer, the display closure and the stack pointer and
      continues at `pc + skip`. */
  lemma FrameReturn(ops: seq<Op>, s: VmState, skip: nat, t: VmState, n: int)
    requires StateOk(ops, s) && s.pc < |ops| && ops[s.pc] == Frame(skip)
    requires s.pc + skip >= 1 && s.pc + skip - 1 <= IsizeMax && s.sp + 4 <= StackSize
    requires HeapOk(t.heap) && Shaped(t) && t.pc < |ops| && ops[t.pc] == Return(n)
    requires n >= 0 && t.sp == s.sp + 4 + n
    requires t.stack[s.sp..s.sp + 4] == [Number(s.pc + skip - 1), s.dc, s.dc, StackPointer(s.fp)]
    ensures Step(ops, s).Running? && Step(ops, s).s.sp == s.sp + 4 && |Step(ops, s).s.stack| == StackSize
    ensures Step(ops, s).s.stack[s.sp..s.sp + 4] == [Number(s.pc + skip - 1), s.dc, s.dc, StackPointer(s.fp)]
    ensures Step(ops, t) == Running(t.(fp := s.fp, dc := s.dc, sp := s.sp, pc := s.pc + skip))
  {
    assert Step(ops, s) == StepFrame(s, skip) && Step(ops, t) == ReturnN(t, n);
    FrameSaves(s, skip);
    ReturnRestores(s, skip, t, n);
  }

  lemma FrameSaves(s: VmState, skip: nat)
    requires Shaped(s) && s.pc + skip >= 1 && s.pc + skip - 1 <= IsizeMax && s.sp + 4 <= StackSize
    ensures StepFrame(s, skip).Running? && StepFrame(s, skip).s.sp == s.sp + 4 && |StepFrame(s, skip).s.stack| == StackSize
    ensures StepFrame(s, skip).s.stack[s.sp..s.sp + 4] == [Number(s.pc + skip - 1), s.dc, s.dc, StackPointer(s.fp)]
  {
    PushValuesSlots(s, [Number(s.pc + skip - 1), s.dc, s.dc, StackPointer(s.fp)]);
  }

  lemma ReturnRestores(s: VmState, skip: nat, t: VmState, n: int)
    requires Shaped(s) && Shaped(t) && s.pc + skip >= 1 && n >= 0 && t.sp == s.sp + 4 + n
    requires t.stack[s.sp..s.sp + 4] == [Number(s.pc + skip - 1), s.dc, s.dc, StackPointer(s.fp)]
    ensures ReturnN(t, n) == Running(t.(fp := s.fp, dc := s.dc, sp := s.sp, pc := s.pc + skip))
  {
    var f := t.stack[s.sp..s.sp + 4];
    assert t.stack[s.sp + 3] == f[3] && t.stack[s.sp + 1] == f[1] && t.stack[s.sp] == f[0];
  }

  /** `return_n(n)` continues exactly when the frame below the `n` dropped
      slots holds a saved frame pointer on top and a non-negative return
      address at its bottom. */
  lemma ReturnNeedsFrame(s: VmState, n: int)
    requires Shaped(s)
    ensures ReturnN(s, n).Running? <==>
      && 4 <= s.sp - n <= StackSize
      && s.stack[s.sp - n - 1].StackPointer?
      && s.stack[s.sp - n - 4].Number? && s.stack[s.sp - n - 4].n >= 0
  {
  }

  // ---------------------------------------------------------------------
  // Globals.

  /** `DefineGlobal(x)` binds `x` to the accumulator and clears the
      accumulator; while that binding stands, `ReferGlobal(x)` loads the
      bound value. */
  lemma DefineThenRefer(ops: seq<Op>, s: VmState, t: VmState, x: Ref)
    requires StateOk(ops, s) && s.pc < |ops| && ops[s.pc] == DefineGlobal(x)
    requires HeapOk(t.heap) && Shaped(t) && t.pc < |ops| && ops[t.pc] == ReferGlobal(x)
    requires t.globals == Step(ops, s).s.globals
    ensures Step(ops, s) == Next(s.(globals := s.globals[x := s.ac], ac := Values.Undef))
    ensures Step(ops, t) == Next(t.(ac := s.ac))
  {
  }

  /** `ReferGlobal` of an unbound symbol aborts, and of a bound one loads
      its value. */
  lemma ReferGlobalBound(ops: seq<Op>, s: VmState, x: Ref)
    requires HeapOk(s.heap) && Shaped(s) && s.pc < |ops| && ops[s.pc] == ReferGlobal(x)
    ensures Step(ops, s).Panic? <==> x !in s.globals
    ensures x in s.globals ==> Step(ops, s) == Next(s.(ac := s.globals[x]))
  {
  }

  // ---------------------------------------------------------------------
  // Calls.

  /** Calling a closure: an optional-argument closure or a wrong argument
      count aborts; otherwise the closure becomes the display closure, the
      frame pointer goes `argLen` slots below the stack pointer, and
      execution continues after the closure's entry. */
  lemma CallClosure(ops: seq<Op>, s: VmState, argLen: int)
    requires HeapOk(s.heap) && Shaped(s) && s.pc < |ops| && ops[s.pc] == Call(argLen)
    requires s.ac.ClosureRef? && s.ac.ref in s.heap.objects && s.heap.objects[s.ac.ref].ClosureObj?
    ensures var cl := s.heap.objects[s.ac.ref];
      && (Step(ops, s).Running? <==> !cl.isOptionalArg && argLen == cl.argLen)
      && (Step(ops, s).Running? ==>
            Step(ops, s).s == s.(dc := s.ac, pc := cl.entry + 1, fp := s.sp - argLen))
  {
  }

  /** Only closures and native procedures can be called. */
  lemma CallNonProcedure(ops: seq<Op>, s: VmState, argLen: int)
    requires HeapOk(s.heap) && Shaped(s) && s.pc < |ops| && ops[s.pc] == Call(argLen)
    requires !s.ac.ClosureRef? && !s.ac.ProcedureRef?
    ensures Step(ops, s) == Panic
  {
  }

  /** Calling a native procedure asserts that it gets exactly one
      argument, reads that argument at `fp + 1`, sets the accumulator to
      the procedure's result (`Undef` for `scm_write`) and returns through
      the caller's frame as `Return(1)` would.  A wrong argument count, an
      argument slot off the stack, a freed procedure or a missing frame
      aborts. */
  lemma CallProcedure(ops: seq<Op>, s: VmState, argLen: int)
    requires HeapOk(s.heap) && Shaped(s) && s.pc < |ops| && ops[s.pc] == Call(argLen)
    requires s.ac.ProcedureRef?
    ensures Step(ops, s).Running? <==>
      && argLen == 1 && 0 <= s.fp + 1 < StackSize && s.ac.ref in s.heap.objects
      && 5 <= s.sp
      && s.stack[s.sp - 2].StackPointer?
      && s.stack[s.sp - 5].Number? && s.stack[s.sp - 5].n >= 0
    ensures Step(ops, s).Running? ==>
      Step(ops, s).s == s.(ac := Values.Undef, fp := s.stack[s.sp - 2].offset, dc := s.stack[s.sp - 4],
                           sp := s.sp - 5, pc := s.stack[s.sp - 5].n + 1)
    ensures !Step(ops, s).Running? ==> Step(ops, s) == Panic
  {
    ReturnNeedsFrame(s.(ac := Values.Undef), 1);
  }

  /** A native procedure called with one argument pushed on a frame that
      `Frame(skip)` built at `s` leaves `Undef` in the accumulator and
      restores the frame pointer, the display closure and the stack pointer
      of `s`, continuing at `pc + skip`. */
  lemma CallProcedureReturns(ops: seq<Op>, s: VmState, skip: nat, t: VmState)
    requires Shaped(s) && s.pc + skip >= 1
    requires HeapOk(t.heap) && Shaped(t) && t.pc < |ops| && ops[t.pc] == Call(1)
    requires t.ac.ProcedureRef? && t.ac.ref in t.heap.objects && 0 <= t.fp + 1 < StackSize
    requires t.sp == s.sp + 5
    requires t.stack[s.sp..s.sp + 4] == [Number(s.pc + skip - 1), s.dc, s.dc, StackPointer(s.fp)]
    ensures Step(ops, t) == Running(t.(ac := Values.Undef, fp := s.fp, dc := s.dc, sp := s.sp, pc := s.pc + skip))
  {
    assert Step(ops, t) == StepCall(t, 1);
    ReturnRestores(s, skip, t.(ac := Values.Undef), 1);
  }

  // ---------------------------------------------------------------------
  // Arithmetic and pairs.

  /** `NumberAdd` pops one number and adds it to the number in the
      accumulator; anything else, an empty stack or an `isize` overflow
      aborts. */
  lemma NumberAddSum(ops: seq<Op>, s: VmState)
    requires HeapOk(s.heap) && Shaped(s) && s.pc < |ops| && ops[s.pc] == NumberAdd
    ensures Step(ops, s).Running? <==>
      && s.sp > 0 && s.stack[s.sp - 1].Number? && s.ac.Number?
      && IsizeMin <= s.stack[s.sp - 1].n + s.ac.n <= IsizeMax
    ensures Step(ops, s).Running? ==>
      Step(ops, s).s == s.(ac := Number(s.stack[s.sp - 1].n + s.ac.n), sp := s.sp - 1, pc := s.pc + 1)
  {
  }

  /** `AddPair` continues exactly when the accumulator names a pair still
      allocated whose two fields are numbers with a sum that fits in an
      `isize`; the sum goes to the accumulator. */
  lemma AddPairSums(ops: seq<Op>, s: VmState)
    requires HeapOk(s.heap) && Shaped(s) && s.pc < |ops| && ops[s.pc] == AddPair
    ensures Step(ops, s).Running? <==>
      && s.ac.PairRef? && s.ac.ref in s.heap.objects
      && var p := s.heap.objects[s.ac.ref];
      && p.PairObj? && p.first.Number? && p.second.Number?
      && IsizeMin <= p.first.n + p.second.n <= IsizeMax
    ensures Step(ops, s).Running? ==>
      var p := s.heap.objects[s.ac.ref];
      Step(ops, s).s == s.(ac := Number(p.first.n + p.second.n), pc := s.pc + 1)
  {
  }

  /** `Cons` pops the top of the stack and puts a fresh pair of it and the
      accumulator in the accumulator; only an empty stack aborts. */
  lemma ConsBuildsPair(ops: seq<Op>, s: VmState)
    requires StateOk(ops, s) && s.pc < |ops| && ops[s.pc] == Cons
    ensures Step(ops, s).Running? <==> s.sp > 0
    ensures Step(ops, s).Running? ==>
      var t := Step(ops, s).s;
      && t.ac == PairRef(s.heap.nextRef) && s.heap.nextRef !in s.heap.objects
      && t.heap.objects[s.heap.nextRef] == PairObj(s.stack[s.sp - 1], s.ac)
      && t == s.(heap := t.heap, ac := t.ac, sp := s.sp - 1, pc := s.pc + 1)
  {
    assert Step(ops, s) == StepCons(ops, s);
    if s.sp > 0 {
      var s1 := s.(sp := s.sp - 1);
      assert PopValue(s) == Some((s1, s.stack[s.sp - 1]));
      AllocObjOk(ops, s1, PairObj(s.stack[s.sp - 1], s.ac));
      var (s2, r) := AllocObj(ops, s1, PairObj(s.stack[s.sp - 1], s.ac));
      assert StepCons(ops, s) == Next(s2.(ac := PairRef(r)));
    }
  }

  // ---------------------------------------------------------------------
  // Collection on allocation.

  /** An allocation through the machine keeps an existing object exactly
      when no collection is due or the object is live from the machine's
      roots, and keeps it unchanged.  In particular a value reachable only
      from the global table, from a popped value or from a closure's free
      variables is freed by a collection. */
  lemma AllocKeepsExactlyLive(ops: seq<Op>, s: VmState, o: Obj)
    requires StateOk(ops, s) && ObjBelow(o, s.heap.nextRef)
    ensures var (s2, r) := AllocObj(ops, s, o);
      && (forall x :: x != r ==>
            (x in s2.heap.objects <==>
               x in s.heap.objects && (!ShouldGc(s.heap) || x in Live(s.heap.objects, Roots(ops, s)))))
      && (forall x :: x in s.heap.objects && x in s2.heap.objects ==> s2.heap.objects[x] == s.heap.objects[x])
  {
    AllocObjOk(ops, s, o);
    if ShouldGc(s.heap) {
      CollectOk(s.heap, Roots(ops, s));
    }
  }

  /** Every pair, symbol and closure the stack, the registers or the
      instructions name, and that is present, survives an allocation. */
  lemma AllocKeepsRoots(ops: seq<Op>, s: VmState, o: Obj, i: nat)
    requires StateOk(ops, s) && ObjBelow(o, s.heap.nextRef)
    requires i < |Roots(ops, s)|
    requires var v := Roots(ops, s)[i]; (v.PairRef? || v.SymbolRef? || v.ClosureRef?) && v.ref in s.heap.objects
    ensures Roots(ops, s)[i].ref in AllocObj(ops, s, o).0.heap.objects
  {
    AllocKeepsExactlyLive(ops, s, o);
    RootsAreLive(s.heap.objects, Roots(ops, s), i);
  }

  /** The window in `Cons`: the popped first element is no root while the
      pair is allocated.  When a collection is due and nothing else keeps
      that pair alive, it is freed and the new pair's first field dangles;
      otherwise it survives. */
  lemma ConsWindow(ops: seq<Op>, s: VmState)
    requires StateOk(ops, s) && s.pc < |ops| && ops[s.pc] == Cons
    requires s.sp > 0 && s.stack[s.sp - 1].PairRef? && s.stack[s.sp - 1].ref in s.heap.objects
    ensures var q := s.stack[s.sp - 1].ref;
      var t := Step(ops, s).s;
      && t.heap.objects[t.ac.ref].first == PairRef(q)
      && (q in t.heap.objects <==>
            !ShouldGc(s.heap) || q in Live(s.heap.objects, Roots(ops, s.(sp := s.sp - 1))))
  {
    var (s1, first) := PopValue(s).value;
    ConsBuildsPair(ops, s);
    AllocKeepsExactlyLive(ops, s1, PairObj(first, s1.ac));
  }

  // ---------------------------------------------------------------------
  // Runs.

  /** A run that is still going after `a` steps keeps the machine
      invariant. */
  lemma {:induction false} StepsOk(ops: seq<Op>, s: VmState, a: nat)
    requires StateOk(ops, s)
    ensures Steps(ops, s, a).Running? ==> StateOk(ops, Steps(ops, s, a).s)
    decreases a
  {
    if s.pc < |ops| && a > 0 {
      StepOk(ops, s);
      if Step(ops, s).Running? {
        StepsOk(ops, Step(ops, s).s, a - 1);
      }
    }
  }

  /** Running `a` steps and then `b` more is running `a + b` steps. */
  lemma {:induction false} StepsCompose(ops: seq<Op>, s: VmState, a: nat, b: nat)
    requires StateOk(ops, s)
    ensures Steps(ops, s, a).Running? ==> StateOk(ops, Steps(ops, s, a).s)
    ensures Steps(ops, s, a + b) ==
      match Steps(ops, s, a)
      case Running(s1) => Steps(ops, s1, b)
      case other => other
    decreases a, 1
  {
    StepsOk(ops, s, a);
    if s.pc < |ops| && a > 0 {
      StepsComposeTurn(ops, s, a, b);
    }
  }

  /** `StepsCompose` when the first of the `a` steps is taken: that step
      is the first of the `a + b` steps too. */
  lemma {:induction false} StepsComposeTurn(ops: seq<Op>, s: VmState, a: nat, b: nat)
    requires StateOk(ops, s) && s.pc < |ops| && a > 0
    ensures Steps(ops, s, a).Running? ==> StateOk(ops, Steps(ops, s, a).s)
    ensures Steps(ops, s, a + b) ==
      match Steps(ops, s, a)
      case Running(s1) => Steps(ops, s1, b)
      case other => other
    decreases a, 0
  {
    StepsOk(ops, s, a);
    StepsNext(ops, s, a, a - 1);
    StepsNext(ops, s, a + b, (a - 1) + b);
    if Step(ops, s).Running? {
      StepsCompose(ops, Step(ops, s).s, a - 1, b);
    }
  }

  /** A run that has finished or aborted gives the same outcome with more
      fuel. */
  lemma MoreFuel(ops: seq<Op>, s: VmState, a: nat, b: nat)
    requires StateOk(ops, s) && a <= b && !Steps(ops, s, a).Running?
    ensures Steps(ops, s, b) == Steps(ops, s, a)
  {
    StepsCompose(ops, s, a, b - a);
  }
}
