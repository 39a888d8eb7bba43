/** Values, heap objects and object headers shared by the collector and both
    interpreters.  A heap reference is the number of an arena slot; slots are
    handed out in increasing order and never reused, so reference equality
    (the pointer identity of `GcRef`) is equality of slot numbers. */
module Values {

  /** The number of an arena slot holding one heap object. */
  type Ref = nat

  datatype Option<T> = None | Some(value: T)

  /** The type tag stored in every object header. */
  datatype ObjectType = PairType | ProcedureType | SymbolType | ClosureType

  /** The immediate-or-reference union (`Value` of the collector, `Object`
      of the interpreter).  `StackPointer` is the saved frame pointer, an
      offset into the operand stack.  `True` is the `Object::True` the
      generated tests of vm.rs load. */
  datatype Value =
    | Number(n: int)
    | True
    | False
    | Undef
    | StackPointer(offset: int)
    | PairRef(ref: Ref)
    | SymbolRef(ref: Ref)
    | ClosureRef(ref: Ref)
    | ProcedureRef(ref: Ref)
  {
    /** True for the four variants that hold a heap reference. */
    predicate IsHeapRef() {
      PairRef? || SymbolRef? || ClosureRef? || ProcedureRef?
    }
  }

  /** The payload of a heap object.  A closure records its entry point, its
      declared argument count, the optional-argument flag, its captured free
      variables and the enclosing display closure. */
  datatype Obj =
    | PairObj(first: Value, second: Value)
    | SymbolObj(name: string)
    | ClosureObj(entry: nat, argLen: int, isOptionalArg: bool, freeVars: seq<Value>, prev: Value)
    | ProcedureObj

  /** The header every object carries: mark bit, link to the next object of
      the heap list, and type tag. */
  datatype Header = Header(marked: bool, next: Option<Ref>, objType: ObjectType)

  /** `GcHeader::new`: a header for a freshly built object. */
  function NewHeader(objType: ObjectType): Header {
    Header(false, None, objType)
  }

  function KindOf(o: Obj): ObjectType {
    match o
    case PairObj(_, _) => PairType
    case SymbolObj(_) => SymbolType
    case ClosureObj(_, _, _, _, _) => ClosureType
    case ProcedureObj => ProcedureType
  }

  /** The type tag a reference value promises for the object it names. */
  function TagOf(v: Value): ObjectType
    requires v.IsHeapRef()
  {
    match v
    case PairRef(_) => PairType
    case SymbolRef(_) => SymbolType
    case ClosureRef(_) => ClosureType
    case ProcedureRef(_) => ProcedureType
  }

  /** What `mark_value` pushes on the grey stack for a value: the referenced
      header for pairs, symbols and closures, nothing for immediates and for
      native procedures. */
  function MarkSeq(v: Value): (s: seq<Ref>)
    ensures s != [] <==> v.IsHeapRef() && !v.ProcedureRef?
    ensures s != [] ==> s == [v.ref]
  {
    match v
    case PairRef(r) => [r]
    case SymbolRef(r) => [r]
    case ClosureRef(r) => [r]
    case _ => []
  }

  /** The reference held by a value is below `bound`. */
  predicate ValueBelow(v: Value, bound: nat) {
    v.IsHeapRef() ==> v.ref < bound
  }

  /** Every reference stored inside `o` is below `bound`. */
  ghost predicate ObjBelow(o: Obj, bound: nat) {
    match o
    case PairObj(f, s) => ValueBelow(f, bound) && ValueBelow(s, bound)
    case ClosureObj(_, _, _, fvs, prev) =>
      (forall i :: 0 <= i < |fvs| ==> ValueBelow(fvs[i], bound)) && ValueBelow(prev, bound)
    case _ => true
  }

  /** Abstract allocation size of an object: one unit for the header and one
      per value field or character. */
  function SizeOf(o: Obj): (n: nat)
    ensures n >= 1
  {
    match o
    case PairObj(_, _) => 3
    case SymbolObj(name) => 1 + |name|
    case ClosureObj(_, _, _, fvs, _) => 5 + |fvs|
    case ProcedureObj => 1
  }
}
