/** The interpreter of vm.rs: a machine object that owns its collector, an
    operand stack of `STACK_SIZE` slots and its registers, and runs a
    program one instruction at a time.  Every method is proved against the
    step function of VmSpec. */
module Interpreter {
  import opened Values
  import opened HeapSpec
  import opened VmSpec
  import opened Collector

  /** How an instruction ended: go on with the next one, return from
      `run`, or abort. */
  datatype Status = Continue | Stop | Abort

  /** The outcome a status and a machine state stand for. */
  function Report(st: Status, s: VmState): Outcome {
    match st
    case Continue => Running(s)
    case Stop => Halted(s)
    case Abort => Panic
  }

  class Vm {
    const gc: Gc
    var ac: Value                 // accumulator register
    var dc: Value                 // display closure register
    const stack: array<Value>
    var sp: int                   // stack pointer, as an offset into `stack`
    var fp: int                   // frame pointer, as an offset into `stack`
    var globals: map<Ref, Value>
    var ops: seq<Op>              // the running program, kept as a root

    /** The machine as a value, at program counter `pc`. */
    ghost function State(pc: nat): VmState
      reads this, stack, gc`objects, gc`list, gc`nextRef, gc`symbols, gc`bytesAllocated, gc`nextGc
    {
      var heap := HeapState(gc.objects, gc.list, gc.nextRef, gc.symbols, gc.bytesAllocated, gc.nextGc);
      VmState(heap, stack[..], sp, fp, ac, dc, globals, pc)
    }

    ghost predicate Valid()
      reads this, stack, gc
    {
      && gc.Valid() && gc.Quiescent()
      && StateOk(ops, State(0))
    }

    /** The invariant does not depend on the program counter. */
    lemma ValidAt(p: nat)
      requires gc.Valid() && gc.Quiescent() && StateOk(ops, State(p))
      ensures Valid()
    {
      assert State(0) == State(p).(pc := 0);
    }

    /** `Vm::new` */
    constructor ()
      ensures Valid() && ops == []
      ensures State(0) == NewVm()
    {
      gc := new Gc();
      stack := new Value[StackSize](_ => Values.Undef);
      ac, dc, sp, fp := Values.Undef, Values.Undef, 0, 0;
      globals, ops := map[], [];
      new;
      assert stack[..] == seq(StackSize, _ => Values.Undef);
    }

    // -------------------------------------------------------------------
    // The stack.

    /** `push`: an abort when the stack is full. */
    method Push(v: Value) returns (ok: bool)
      requires stack.Length == StackSize && 0 <= sp <= StackSize
      modifies this`sp, stack
      ensures ok <==> old(sp) < StackSize
      ensures ok ==> stack[..] == old(stack[..])[old(sp) := v] && sp == old(sp) + 1
      ensures !ok ==> stack[..] == old(stack[..]) && sp == old(sp)
    {
      if sp == StackSize {
        return false;
      }
      stack[sp] := v;
      sp := sp + 1;
      return true;
    }

    /** `pop`: an abort when the stack is empty. */
    method Pop() returns (ok: bool, v: Value)
      requires stack.Length == StackSize && 0 <= sp <= StackSize
      modifies this`sp
      ensures ok <==> old(sp) > 0
      ensures ok ==> sp == old(sp) - 1 && v == stack[sp]
      ensures !ok ==> sp == old(sp)
    {
      if sp == 0 {
        return false, Values.Undef;
      }
      sp := sp - 1;
      return true, stack[sp];
    }

    /** `index(sp, n)`: the slot `n` below `p`, if it is on the stack. */
    method Index(p: int, n: int) returns (r: Option<Value>)
      requires stack.Length == StackSize
      ensures r.Some? <==> 0 <= p - n - 1 < StackSize
      ensures r.Some? ==> r.value == stack[p - n - 1]
    {
      if 0 <= p - n - 1 < StackSize {
        r := Some(stack[p - n - 1]);
      } else {
        r := None;
      }
    }

    /** `stack_len`: the number of slots in use. */
    method StackLen() returns (n: nat)
      requires 0 <= sp
      ensures n == sp
    {
      n := sp;
    }

    /** The loop that gathers the free variables of a `Display` or
        `Closure` instruction from the top of the stack down. */
    method CollectFreeVars(num: int) returns (fvs: seq<Value>)
      requires stack.Length == StackSize && 0 <= sp <= StackSize && 0 <= sp - num
      ensures fvs == FreeVars(stack[..], sp, num)
    {
      fvs := [];
      var i := 0;
      while i < num
        invariant 0 <= i && (num > 0 ==> i <= num) && (num <= 0 ==> i == 0)
        invariant fvs == FreeVars(stack[..], sp, i)
      {
        fvs := fvs + [stack[sp - 1 - i]];
        i := i + 1;
      }
    }

    // -------------------------------------------------------------------
    // Roots and collection.

    /** `mark_roots`: mark the live stack, the two registers and what the
        instructions hold, in that order. */
    method MarkRoots()
      requires Valid()
      modifies gc`marked, gc`greyStack
      ensures gc.TraceValid()
      ensures gc.greyStack == RootPushes(Roots(ops, State(0)))
      ensures gc.marked == RootRefs(Roots(ops, State(0))) * gc.objects.Keys
    {
      RootPushesOfRoots(ops, State(0));
      assert OpsBelow(ops, gc.nextRef) && ValueBelow(ac, gc.nextRef) && ValueBelow(dc, gc.nextRef);
      MarkStack();
      MarkRoot(ac);
      MarkRoot(dc);
      MarkOps();
    }

    /** The first loop of `mark_roots`: the slots below the stack pointer. */
    method MarkStack()
      requires gc.TraceValid() && gc.Quiescent()
      requires stack.Length == StackSize && 0 <= sp <= StackSize
      requires forall k :: 0 <= k < stack.Length ==> ValueBelow(stack[k], gc.nextRef)
      modifies gc`marked, gc`greyStack
      ensures gc.TraceValid()
      ensures gc.greyStack == RootPushes(stack[..sp])
      ensures gc.marked == Elems(gc.greyStack) * gc.objects.Keys
    {
      var len := StackLen();
      var i := 0;
      while i < len
        invariant 0 <= i <= len == sp
        invariant gc.TraceValid()
        invariant gc.greyStack == RootPushes(stack[..i])
        invariant gc.marked == Elems(gc.greyStack) * gc.objects.Keys
      {
        assert stack[..i + 1][..i] == stack[..i];
        MarkRoot(stack[i]);
        i := i + 1;
      }
    }

    /** `mark_value` of one root, keeping the marked set equal to the
        live references pushed so far. */
    method MarkRoot(v: Value)
      requires gc.TraceValid() && ValueBelow(v, gc.nextRef)
      requires gc.marked == Elems(gc.greyStack) * gc.objects.Keys
      modifies gc`marked, gc`greyStack
      ensures gc.TraceValid()
      ensures gc.greyStack == old(gc.greyStack) + MarkSeq(v)
      ensures gc.marked == Elems(gc.greyStack) * gc.objects.Keys
    {
      ElemsAppend(gc.greyStack, MarkSeq(v));
      gc.MarkValue(v);
    }

    /** The last loop of `mark_roots`: constants and global symbols. */
    method MarkOps()
      requires gc.TraceValid() && OpsBelow(ops, gc.nextRef)
      requires gc.marked == Elems(gc.greyStack) * gc.objects.Keys
      modifies gc`marked, gc`greyStack
      ensures gc.TraceValid()
      ensures gc.greyStack == old(gc.greyStack) + RootPushes(OpRoots(ops))
      ensures gc.marked == Elems(gc.greyStack) * gc.objects.Keys
    {
      ghost var g0 := gc.greyStack;
      var j := 0;
      while j < |ops|
        invariant 0 <= j <= |ops|
        invariant gc.TraceValid()
        invariant gc.greyStack == g0 + RootPushes(OpRoots(ops[..j]))
        invariant gc.marked == Elems(gc.greyStack) * gc.objects.Keys
      {
        OpRootsNext(ops, j);
        assert OpBelow(ops[j], gc.nextRef);
        AppendAssoc(g0, RootPushes(OpRoots(ops[..j])), RootPushes(OpRoot(ops[j])));
        MarkOp(ops[j]);
        j := j + 1;
      }
      assert ops[..|ops|] == ops;
    }

    /** One instruction of the last loop of `mark_roots`: `mark_object`
        of a constant, `mark_heap_object` of a global's symbol. */
    method MarkOp(op: Op)
      requires gc.TraceValid() && OpBelow(op, gc.nextRef)
      requires gc.marked == Elems(gc.greyStack) * gc.objects.Keys
      modifies gc`marked, gc`greyStack
      ensures gc.TraceValid()
      ensures gc.greyStack == old(gc.greyStack) + RootPushes(OpRoot(op))
      ensures gc.marked == Elems(gc.greyStack) * gc.objects.Keys
    {
      match op {
        case Constant(v) =>
          assert RootPushes([v]) == MarkSeq(v) by { assert [v][..0] == []; }
          MarkRoot(v);
        case DefineGlobal(sym) =>
          assert RootPushes([SymbolRef(sym)]) == [sym] by { assert [SymbolRef(sym)][..0] == []; }
          ElemsAppend(gc.greyStack, [sym]);
          gc.MarkObject(sym);
        case ReferGlobal(sym) =>
          assert RootPushes([SymbolRef(sym)]) == [sym] by { assert [SymbolRef(sym)][..0] == []; }
          ElemsAppend(gc.greyStack, [sym]);
          gc.MarkObject(sym);
        case _ =>
          assert OpRoot(op) == [];
      }
    }

    /** `mark_and_sweep`: when the threshold is exceeded, mark the roots
        and collect. */
    method MarkAndSweep(ghost pc: nat)
      requires Valid()
      modifies gc`marked, gc`greyStack, gc`objects, gc`links, gc`first, gc`bytesAllocated, gc`list, gc`nextGc
      ensures Valid()
      ensures State(pc) == VmSpec.MarkAndSweep(ops, old(State(pc)))
    {
      ghost var s := State(pc);
      if gc.bytesAllocated > gc.nextGc {
        assert Roots(ops, State(0)) == Roots(ops, s);
        Collect();
        assert State(pc) == s.(heap := gc.Abs());
      }
    }

    /** The body of `mark_and_sweep`: `mark_roots`, then
        `collect_garbage`. */
    method Collect()
      requires Valid()
      modifies gc`marked, gc`greyStack, gc`objects, gc`links, gc`first, gc`bytesAllocated, gc`list, gc`nextGc
      ensures Valid()
      ensures gc.Abs() == HeapSpec.Collect(old(gc.Abs()), Roots(ops, old(State(0))))
    {
      ghost var s := State(0);
      ghost var h, roots := s.heap, Roots(ops, s);
      MarkRoots();
      gc.CollectGarbage();
      CollectFromRoots(h, roots);
      CollectOk(h, roots);
      StateOkGrow(ops, s, gc.Abs());
      assert State(0) == s.(heap := gc.Abs());
    }

    /** `Vm::alloc`: collect if due, then allocate. */
    method Alloc(o: Obj, ghost pc: nat) returns (r: Ref)
      requires Valid() && ObjBelow(o, gc.nextRef)
      modifies gc`marked, gc`greyStack, gc`objects, gc`links, gc`first, gc`bytesAllocated, gc`list, gc`nextGc
      modifies gc`nextRef
      ensures gc.Valid() && gc.Quiescent()
      ensures (State(pc), r) == AllocObj(ops, old(State(pc)), o)
    {
      MarkAndSweep(pc);
      r := GcAlloc(o, pc);
    }

    /** `self.gc.alloc`: allocate without a collection. */
    method GcAlloc(o: Obj, ghost pc: nat) returns (r: Ref)
      requires Valid() && ObjBelow(o, gc.nextRef)
      modifies gc`objects, gc`links, gc`first, gc`bytesAllocated, gc`list, gc`nextRef
      ensures Valid()
      ensures State(pc) == old(State(pc)).(heap := Allocate(old(gc.Abs()), o))
      ensures r == old(gc.nextRef) && r !in old(gc.objects)
    {
      ghost var s := State(0);
      r := gc.Alloc(o);
      AllocateOk(s.heap, o);
      StateOkGrow(ops, s, gc.Abs());
      assert State(0) == s.(heap := gc.Abs());
    }

    /** `intern`: the collector's symbol for `name`, without a
        collection. */
    method Intern(name: string, ghost pc: nat) returns (r: Ref)
      requires Valid()
      modifies gc`objects, gc`links, gc`first, gc`nextRef, gc`bytesAllocated, gc`list, gc`symbols
      ensures Valid()
      ensures State(pc) == old(State(pc)).(heap := Interned(old(gc.Abs()), name).0)
      ensures r == Interned(old(gc.Abs()), name).1
    {
      ghost var s := State(0);
      InternedOk(s.heap, name);
      r := gc.Intern(name);
      StateOkGrow(ops, s, gc.Abs());
      assert State(0) == s.(heap := gc.Abs());
    }

    // -------------------------------------------------------------------
    // The instructions of `run`.  Each is proved against its arm of
    // `Step`: `pc` is the index of the instruction, and unless it jumps the
    // machine continues at `pc + 1`.

    method ExecPush(ghost pc: nat) returns (st: Status)
      requires stack.Length == StackSize && 0 <= sp <= StackSize
      modifies this`sp, stack
      ensures Report(st, State(pc + 1)) == StepPush(old(State(pc)))
    {
      var ok := Push(ac);
      st := if ok then Continue else Abort;
    }

    /** `Cons`: the pair is allocated after the pop, so a collection it
        triggers does not see the popped value. */
    method ExecCons(ghost pc: nat) returns (st: Status)
      requires Valid()
      modifies this`sp, this`ac
      modifies gc`marked, gc`greyStack, gc`objects, gc`links, gc`first, gc`bytesAllocated, gc`list, gc`nextGc, gc`nextRef
      ensures gc.Valid() && gc.Quiescent()
      ensures Report(st, State(pc + 1)) == StepCons(ops, old(State(pc)))
    {
      ghost var s := State(pc);
      var ok, first := Pop();
      if !ok {
        return Abort;
      }
      assert PopValue(s) == Some((State(pc), first));
      assert ValueBelow(first, gc.nextRef);
      AllocPair(first, pc);
      st := Continue;
    }

    /** The allocation of `Cons` and its update of the accumulator. */
    method AllocPair(first: Value, ghost pc: nat)
      requires Valid() && ValueBelow(first, gc.nextRef)
      modifies this`ac
      modifies gc`marked, gc`greyStack, gc`objects, gc`links, gc`first, gc`bytesAllocated, gc`list, gc`nextGc, gc`nextRef
      ensures gc.Valid() && gc.Quiescent()
      ensures Running(State(pc + 1)) == WithPair(ops, old(State(pc)), first)
    {
      var r := Alloc(PairObj(first, ac), pc);
      ac := PairRef(r);
    }

    method ExecNumberAdd(ghost pc: nat) returns (st: Status)
      requires stack.Length == StackSize && 0 <= sp <= StackSize
      modifies this`sp, this`ac
      ensures Report(st, State(pc + 1)) == StepNumberAdd(old(State(pc)))
    {
      var ok, a := Pop();
      if ok && a.Number? && ac.Number? && IsizeMin <= a.n + ac.n <= IsizeMax {
        ac := Number(a.n + ac.n);
        st := Continue;
      } else {
        st := Abort;
      }
    }

    method ExecAddPair(ghost pc: nat) returns (st: Status)
      modifies this`ac
      ensures Report(st, State(pc + 1)) == StepAddPair(old(State(pc)))
    {
      if ac.PairRef? && ac.ref in gc.objects && gc.objects[ac.ref].PairObj? {
        var p := gc.objects[ac.ref];
        if p.first.Number? && p.second.Number? && IsizeMin <= p.first.n + p.second.n <= IsizeMax {
          ac := Number(p.first.n + p.second.n);
          return Continue;
        }
      }
      st := Abort;
    }

    method ExecReferGlobal(sym: Ref, ghost pc: nat) returns (st: Status)
      modifies this`ac
      ensures Report(st, State(pc + 1)) == StepReferGlobal(old(State(pc)), sym)
    {
      if sym in globals {
        ac := globals[sym];
        st := Continue;
      } else {
        st := Abort;
      }
    }

    method ExecLetFrame(ghost pc: nat) returns (st: Status)
      requires stack.Length == StackSize && 0 <= sp <= StackSize
      modifies this`sp, stack
      ensures Report(st, State(pc + 1)) == StepLetFrame(old(State(pc)))
    {
      ghost var s := State(pc);
      ghost var vs := [dc, StackPointer(fp)];
      var ok := Push(dc);
      if ok {
        assert PushValue(s, vs[0]) == Some(State(pc));
        ghost var s1 := State(pc);
        ok := Push(StackPointer(fp));
        if ok {
          assert PushValue(s1, vs[1]) == Some(State(pc));
          assert PushValues(s1, vs[1..]) == Some(State(pc));
        } else {
          assert PushValues(s1, vs[1..]) == None;
        }
      }
      st := if ok then Continue else Abort;
    }

    method ExecReferLocal(n: int, ghost pc: nat) returns (st: Status)
      requires stack.Length == StackSize
      modifies this`ac
      ensures Report(st, State(pc + 1)) == StepReferLocal(old(State(pc)), n)
    {
      if 0 <= fp + n < StackSize {
        ac := stack[fp + n];
        st := Continue;
      } else {
        st := Abort;
      }
    }

    method ExecLeave(n: int, ghost pc: nat) returns (st: Status)
      requires stack.Length == StackSize
      modifies this`sp, this`fp, this`dc
      ensures Report(st, State(pc + 1)) == StepLeave(old(State(pc)), n)
    {
      var top := sp - n;
      var f := Index(top, 0);
      if !(f.Some? && f.value.StackPointer?) {
        return Abort;
      }
      var d := Index(top, 1);
      if d.None? {
        return Abort;
      }
      fp, dc, sp := f.value.offset, d.value, top - 2;
      st := Continue;
    }

    /** `Display`: the free variables stay on the stack during the
        allocation, and are dropped after it. */
    method ExecDisplay(num: int, ghost pc: nat) returns (st: Status)
      requires Valid()
      modifies this`sp, this`dc
      modifies gc`marked, gc`greyStack, gc`objects, gc`links, gc`first, gc`bytesAllocated, gc`list, gc`nextGc, gc`nextRef
      ensures gc.Valid() && gc.Quiescent()
      ensures Report(st, State(pc + 1)) == StepDisplay(ops, old(State(pc)), num)
    {
      if sp - num < 0 || sp - num > StackSize {
        return Abort;
      }
      var fvs := CollectFreeVars(num);
      FreeVarsBelow(ops, State(pc), num);
      st := AllocDisplay(fvs, num, pc);
    }

    method AllocDisplay(fvs: seq<Value>, num: int, ghost pc: nat) returns (st: Status)
      requires Valid() && 0 <= sp - num <= StackSize
      requires forall i :: 0 <= i < |fvs| ==> ValueBelow(fvs[i], gc.nextRef)
      modifies this`sp, this`dc
      modifies gc`marked, gc`greyStack, gc`objects, gc`links, gc`first, gc`bytesAllocated, gc`list, gc`nextGc, gc`nextRef
      ensures gc.Valid() && gc.Quiescent()
      ensures Report(st, State(pc + 1)) == WithDisplay(ops, old(State(pc)), num, fvs)
    {
      var r := Alloc(ClosureObj(0, 0, false, fvs, dc), pc);
      dc, sp := ClosureRef(r), sp - num;
      st := Continue;
    }

    method ExecReferFree(n: int, ghost pc: nat) returns (st: Status)
      modifies this`ac
      ensures Report(st, State(pc + 1)) == StepReferFree(old(State(pc)), n)
    {
      if dc.ClosureRef? && dc.ref in gc.objects && gc.objects[dc.ref].ClosureObj? {
        var fvs := gc.objects[dc.ref].freeVars;
        if 0 <= n < |fvs| {
          ac := fvs[n];
          return Continue;
        }
      }
      st := Abort;
    }

    /** `Closure`: the new closure's entry is this instruction; execution
        goes on after the closure's body. */
    method ExecClosure(size: nat, argLen: int, isOptionalArg: bool, num: int, pc: nat) returns (st: Status, next: nat)
      requires Valid()
      modifies this`sp, this`ac
      modifies gc`marked, gc`greyStack, gc`objects, gc`links, gc`first, gc`bytesAllocated, gc`list, gc`nextGc, gc`nextRef
      ensures gc.Valid() && gc.Quiescent()
      ensures Report(st, State(next)) == StepClosure(ops, old(State(pc)), size, argLen, isOptionalArg, num)
    {
      if sp - num < 0 || sp - num > StackSize || size == 0 {
        return Abort, pc;
      }
      var fvs := CollectFreeVars(num);
      FreeVarsBelow(ops, State(pc), num);
      next := ClosureJump(size, argLen, isOptionalArg, num, fvs, pc);
      st := Continue;
    }

    /** The rest of `Closure` once its free variables are gathered: the
        allocation, then the jump over the closure's body. */
    method ClosureJump(size: nat, argLen: int, isOptionalArg: bool, num: int, fvs: seq<Value>, pc: nat) returns (next: nat)
      requires Valid() && 0 <= sp - num <= StackSize && size > 0
      requires forall i :: 0 <= i < |fvs| ==> ValueBelow(fvs[i], gc.nextRef)
      modifies this`sp, this`ac
      modifies gc`marked, gc`greyStack, gc`objects, gc`links, gc`first, gc`bytesAllocated, gc`list, gc`nextGc, gc`nextRef
      ensures gc.Valid() && gc.Quiescent()
      ensures Running(State(next)) == WithClosure(ops, old(State(pc)), size, argLen, isOptionalArg, num, fvs)
    {
      AllocClosure(argLen, isOptionalArg, num, fvs, pc);
      next := pc + (size - 1) + 1;
    }

    /** The allocation of `Closure` and its update of the registers. */
    method AllocClosure(argLen: int, isOptionalArg: bool, num: int, fvs: seq<Value>, pc: nat)
      requires Valid() && 0 <= sp - num <= StackSize
      requires forall i :: 0 <= i < |fvs| ==> ValueBelow(fvs[i], gc.nextRef)
      modifies this`sp, this`ac
      modifies gc`marked, gc`greyStack, gc`objects, gc`links, gc`first, gc`bytesAllocated, gc`list, gc`nextGc, gc`nextRef
      ensures gc.Valid() && gc.Quiescent()
      ensures State(pc) == ClosureMade(ops, old(State(pc)), argLen, isOptionalArg, num, fvs)
    {
      var r := Alloc(ClosureObj(pc, argLen, isOptionalArg, fvs, Values.Undef), pc);
      ac, sp := ClosureRef(r), sp - num;
    }

    /** `return_n`: pop the frame `Frame` pushed and continue after the
        return address it holds. */
    method ReturnN(n: int, ghost pc: nat) returns (st: Status, next: nat)
      requires stack.Length == StackSize
      modifies this`sp, this`fp, this`dc
      ensures Report(st, State(next)) == VmSpec.ReturnN(old(State(pc)), n)
    {
      var top := sp - n;
      var f := Index(top, 0);
      if !(f.Some? && f.value.StackPointer?) {
        return Abort, 0;
      }
      var d := Index(top, 2);
      var ret := Index(top, 3);
      if d.None? || !(ret.Some? && ret.value.Number?) || ret.value.n < 0 {
        return Abort, 0;
      }
      fp, dc, sp := f.value.offset, d.value, top - 4;
      st, next := Continue, ret.value.n + 1;
    }

    /** `Call`: enter a closure, or apply the native procedure (whose
        result is `Undef`) and return from it at once. */
    method ExecCall(argLen: int, ghost pc: nat) returns (st: Status, next: nat)
      requires stack.Length == StackSize
      modifies this`sp, this`fp, this`dc, this`ac
      ensures Report(st, State(next)) == StepCall(old(State(pc)), argLen)
    {
      match ac {
        case ClosureRef(c) =>
          if c in gc.objects && gc.objects[c].ClosureObj? {
            var closure := gc.objects[c];
            if closure.isOptionalArg || argLen != closure.argLen {
              return Abort, 0;
            }
            dc, fp := ac, sp - argLen;
            return Continue, closure.entry + 1;
          }
          return Abort, 0;
        case ProcedureRef(p) =>
          // The argument slot must exist; the procedure only prints it.
          if argLen != 1 || !(0 <= fp + argLen < StackSize) || p !in gc.objects {
            return Abort, 0;
          }
          ac := Values.Undef;
          st, next := ReturnN(1, pc);
        case _ =>
          return Abort, 0;
      }
    }

    method ExecFrame(skip: nat, pc: nat) returns (st: Status)
      requires stack.Length == StackSize && 0 <= sp <= StackSize
      modifies this`sp, stack
      ensures Report(st, State(pc + 1)) == StepFrame(old(State(pc)), skip)
    {
      if pc + skip == 0 || pc + skip - 1 > IsizeMax {
        return Abort;
      }
      ghost var s := State(pc);
      ghost var vs := [Number(pc + skip - 1), dc, dc, StackPointer(fp)];
      var ok := Push(Number(pc + skip - 1));
      if !ok {
        return Abort;
      }
      assert PushValue(s, vs[0]) == Some(State(pc));
      ghost var s1 := State(pc);
      ok := Push(dc);
      if !ok {
        assert PushValues(s1, vs[1..]) == None;
        return Abort;
      }
      assert PushValue(s1, vs[1]) == Some(State(pc));
      ghost var s2 := State(pc);
      ok := Push(dc);
      if !ok {
        assert PushValues(s2, vs[2..]) == None;
        assert PushValues(s1, vs[1..]) == None;
        return Abort;
      }
      assert PushValue(s2, vs[2]) == Some(State(pc));
      ghost var s3 := State(pc);
      ok := Push(StackPointer(fp));
      if !ok {
        assert PushValues(s3, vs[3..]) == None;
        assert PushValues(s2, vs[2..]) == None;
        assert PushValues(s1, vs[1..]) == None;
        return Abort;
      }
      assert PushValues(s3, vs[3..]) == Some(State(pc));
      assert PushValues(s2, vs[2..]) == Some(State(pc));
      assert PushValues(s1, vs[1..]) == Some(State(pc));
      st := Continue;
    }

    // -------------------------------------------------------------------
    // The loop of `run`.

    /** One turn of the loop of `run`: the instruction at `pc`, and where
        execution goes on. */
    method Execute(pc: nat) returns (st: Status, next: nat)
      requires Valid() && pc < |ops|
      modifies this`ac, this`dc, this`sp, this`fp, this`globals, stack
      modifies gc`marked, gc`greyStack, gc`objects, gc`links, gc`first, gc`bytesAllocated, gc`list, gc`nextGc, gc`nextRef
      ensures Report(st, State(next)) == Step(ops, old(State(pc)))
      ensures st != Abort ==> Valid() && StateOk(ops, State(next))
    {
      ghost var s := State(pc);
      assert s == State(0).(pc := pc);
      StepOk(ops, s);
      st, next := Dispatch(pc);
      if st != Abort {
        ValidAt(next);
      }
    }

    /** The `match` of `run` on the instruction at `pc`. */
    method Dispatch(pc: nat) returns (st: Status, next: nat)
      requires Valid() && pc < |ops|
      modifies this`ac, this`dc, this`sp, this`fp, this`globals, stack
      modifies gc`marked, gc`greyStack, gc`objects, gc`links, gc`first, gc`bytesAllocated, gc`list, gc`nextGc, gc`nextRef
      ensures gc.Valid() && gc.Quiescent()
      ensures Report(st, State(next)) == Step(ops, old(State(pc)))
    {
      ghost var s := State(pc);
      assert s == State(0).(pc := pc);
      var op := ops[pc];
      if op.Cons? {
        assert Step(ops, s) == StepCons(ops, s);
        st := ExecCons(pc);
        next := pc + 1;
      } else if op.Display? {
        assert Step(ops, s) == StepDisplay(ops, s, op.numFreeVars);
        st := ExecDisplay(op.numFreeVars, pc);
        next := pc + 1;
      } else if op.Closure? {
        assert Step(ops, s) == StepClosure(ops, s, op.size, op.argLen, op.isOptionalArg, op.numFreeVars);
        st, next := ExecClosure(op.size, op.argLen, op.isOptionalArg, op.numFreeVars, pc);
      } else {
        st, next := DispatchPlain(pc);
      }
    }

    /** The instructions that leave the collector alone. */
    method DispatchPlain(pc: nat) returns (st: Status, next: nat)
      requires stack.Length == StackSize && 0 <= sp <= StackSize && HeapOk(State(pc).heap) && pc < |ops|
      requires !(ops[pc].Cons? || ops[pc].Display? || ops[pc].Closure?)
      modifies this`ac, this`dc, this`sp, this`fp, this`globals, stack
      ensures Report(st, State(next)) == Step(ops, old(State(pc)))
    {
      var op := ops[pc];
      if op.Push? || op.LetFrame? || op.Frame? || op.Leave? || op.Return? || op.Call? {
        st, next := ExecuteFrame(pc);
      } else if op.NumberAdd? || op.AddPair? || op.ReferGlobal? || op.ReferLocal? || op.ReferFree? {
        st, next := ExecuteRefer(pc);
      } else {
        st, next := ExecuteRegisters(pc);
      }
    }

    /** The instructions that push or pop frames. */
    method ExecuteFrame(pc: nat) returns (st: Status, next: nat)
      requires stack.Length == StackSize && 0 <= sp <= StackSize && HeapOk(State(pc).heap) && pc < |ops|
      requires ops[pc].Push? || ops[pc].LetFrame? || ops[pc].Frame? || ops[pc].Leave?
        || ops[pc].Return? || ops[pc].Call?
      modifies this`ac, this`dc, this`sp, this`fp, stack
      ensures Report(st, State(next)) == Step(ops, old(State(pc)))
    {
      ghost var s := State(pc);
      match ops[pc] {
        case Push =>
          assert Step(ops, s) == StepPush(s);
          st := ExecPush(pc);
          next := pc + 1;
        case LetFrame(_) =>
          assert Step(ops, s) == StepLetFrame(s);
          st := ExecLetFrame(pc);
          next := pc + 1;
        case Frame(skip) =>
          assert Step(ops, s) == StepFrame(s, skip);
          st := ExecFrame(skip, pc);
          next := pc + 1;
        case Leave(n) =>
          assert Step(ops, s) == StepLeave(s, n);
          st := ExecLeave(n, pc);
          next := pc + 1;
        case Return(n) =>
          assert Step(ops, s) == VmSpec.ReturnN(s, n);
          st, next := ReturnN(n, pc);
        case Call(argLen) =>
          assert Step(ops, s) == StepCall(s, argLen);
          st, next := ExecCall(argLen, pc);
      }
    }

    /** The instructions that read the stack, the globals or the display. */
    method ExecuteRefer(pc: nat) returns (st: Status, next: nat)
      requires stack.Length == StackSize && 0 <= sp <= StackSize && HeapOk(State(pc).heap) && pc < |ops|
      requires ops[pc].NumberAdd? || ops[pc].AddPair? || ops[pc].ReferGlobal? || ops[pc].ReferLocal?
        || ops[pc].ReferFree?
      modifies this`ac, this`sp
      ensures Report(st, State(next)) == Step(ops, old(State(pc)))
    {
      ghost var s := State(pc);
      next := pc + 1;
      match ops[pc] {
        case NumberAdd =>
          assert Step(ops, s) == StepNumberAdd(s);
          st := ExecNumberAdd(pc);
        case AddPair =>
          assert Step(ops, s) == StepAddPair(s);
          st := ExecAddPair(pc);
        case ReferGlobal(sym) =>
          assert Step(ops, s) == StepReferGlobal(s, sym);
          st := ExecReferGlobal(sym, pc);
        case ReferLocal(n) =>
          assert Step(ops, s) == StepReferLocal(s, n);
          st := ExecReferLocal(n, pc);
        case ReferFree(n) =>
          assert Step(ops, s) == StepReferFree(s, n);
          st := ExecReferFree(n, pc);
      }
    }

    /** The instructions that only set registers or globals, the jumps and
        `Halt`. */
    method ExecuteRegisters(pc: nat) returns (st: Status, next: nat)
      requires stack.Length == StackSize && 0 <= sp <= StackSize && HeapOk(State(pc).heap) && pc < |ops|
      requires ops[pc].Constant? || ops[pc].DefineGlobal? || ops[pc].Enter? || ops[pc].Test?
        || ops[pc].LocalJmp? || ops[pc].Halt? || ops[pc].Undef? || ops[pc].Nop?
      modifies this`ac, this`fp, this`globals
      ensures Report(st, State(next)) == Step(ops, old(State(pc)))
    {
      st, next := Continue, pc + 1;
      match ops[pc] {
        case Constant(c) =>
          ac := c;
        case DefineGlobal(sym) =>
          globals := globals[sym := ac];
          ac := Values.Undef;
        case Enter(n) =>
          fp := sp - n;
        case Test(skip) =>
          if ac == False {
            if pc + skip == 0 {
              st := Abort;
            } else {
              next := pc + skip - 1 + 1;
            }
          }
        case LocalJmp(jump) =>
          if pc + jump == 0 {
            st := Abort;
          } else {
            next := pc + jump - 1 + 1;
          }
        case Halt =>
          st, next := Stop, pc;
        case Undef =>
          ac := Values.Undef;
        case Nop =>
      }
    }

    /** `initialize_free_vars`: the native procedure and a display closure
        over it, allocated straight from the collector. */
    method InitializeFreeVars()
      requires Valid()
      modifies this`dc, gc`objects, gc`links, gc`first, gc`bytesAllocated, gc`list, gc`nextRef
      ensures gc.Valid() && gc.Quiescent()
      ensures State(0) == Start(old(State(0))).(sp := sp, fp := fp)
    {
      var procedure := GcAlloc(ProcedureObj, 0);
      var display := GcAlloc(ClosureObj(0, 0, false, [ProcedureRef(procedure)], dc), 0);
      dc := ClosureRef(display);
    }

    /** One turn of the loop of `run`, stated against the remaining turns:
        either the run goes on from `next` with one turn fewer, or it has
        ended with `st`. */
    method Turn(pc: nat, left: nat) returns (st: Status, next: nat, rest: nat, ghost after: VmState)
      requires Valid() && pc < |ops| && left > 0
      modifies this`ac, this`dc, this`sp, this`fp, this`globals, stack
      modifies gc`marked, gc`greyStack, gc`objects, gc`links, gc`first, gc`bytesAllocated, gc`list, gc`nextGc, gc`nextRef
      ensures StateOk(ops, old(State(pc)))
      ensures rest == left - 1 && after == State(next)
      ensures st != Abort ==> Valid() && StateOk(ops, after)
      ensures st == Continue ==> Steps(ops, old(State(pc)), left) == Steps(ops, after, rest)
      ensures st != Continue ==> Steps(ops, old(State(pc)), left) == Report(st, after)
    {
      ghost var s := State(pc);
      assert s == State(0).(pc := pc);
      rest := left - 1;
      StepsNext(ops, s, left, rest);
      st, next := Execute(pc);
      after := State(next);
    }

    /** The prologue of `run`: load the program, reset the stack and frame
        pointers, and set up the display. */
    method Prologue(program: seq<Op>)
      requires Valid() && OpsBelow(program, gc.nextRef)
      modifies this`ops, this`sp, this`fp, this`dc
      modifies gc`objects, gc`links, gc`first, gc`bytesAllocated, gc`list, gc`nextRef
      ensures StateOk(program, old(State(0)))
      ensures ops == program && State(0) == Start(old(State(0)))
      ensures gc.Valid() && gc.Quiescent() && StateOk(ops, State(0))
    {
      ghost var s0 := State(0);
      assert StateOk(program, s0);
      ops := program;
      sp, fp := 0, 0;
      assert State(0) == s0.(sp := 0, fp := 0);
      InitializeFreeVars();
      StartOk(program, s0);
    }

    /** `run`: load the program, reset the stack, set up the display and
        execute instructions until the program counter leaves the program,
        `Halt` returns the accumulator, or an instruction aborts.  At most
        `fuel` instructions are executed. */
    method Run(program: seq<Op>, fuel: nat) returns (st: Status, result: Value, ghost end: nat)
      requires Valid() && OpsBelow(program, gc.nextRef)
      modifies this, stack
      modifies gc`marked, gc`greyStack, gc`objects, gc`links, gc`first, gc`bytesAllocated, gc`list, gc`nextGc, gc`nextRef
      ensures StateOk(program, old(State(0)))
      ensures Report(st, State(end)) == VmSpec.Run(program, old(State(0)), fuel)
      ensures st != Abort ==> Valid() && result == ac
    {
      ghost var s0 := State(0);
      Prologue(program);
      ValidAt(0);
      st, result, end := Loop(0, fuel);
    }

    /** The loop of `run` from instruction `pc0`, for at most `fuel`
        turns. */
    method Loop(pc0: nat, fuel: nat) returns (st: Status, result: Value, ghost end: nat)
      requires Valid()
      modifies this`ac, this`dc, this`sp, this`fp, this`globals, stack
      modifies gc`marked, gc`greyStack, gc`objects, gc`links, gc`first, gc`bytesAllocated, gc`list, gc`nextGc, gc`nextRef
      ensures StateOk(ops, old(State(pc0)))
      ensures Report(st, State(end)) == Steps(ops, old(State(pc0)), fuel)
      ensures st != Abort ==> Valid() && result == ac
    {
      var pc: nat, left: nat := pc0, fuel;
      assert State(pc) == State(0).(pc := pc);
      ghost var target := Steps(ops, State(pc), left);
      ghost var cur := State(pc);
      while left > 0 && pc < |ops|
        invariant Valid() && cur == State(pc) && StateOk(ops, cur)
        invariant Steps(ops, cur, left) == target
        decreases left
      {
        var next, rest;
        ghost var after;
        st, next, rest, after := Turn(pc, left);
        if st != Continue {
          return st, ac, next;
        }
        cur, pc, left := after, next, rest;
      }
      st, result, end := if pc < |ops| then Continue else Stop, ac, pc;
    }
  }
}
