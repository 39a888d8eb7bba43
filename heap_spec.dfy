/** The object store as a value: what the collector's state means, and what
    allocation, interning, marking, tracing and sweeping do to it.  The
    imperative collector in gc.dfy is proved against these definitions. */
module HeapSpec {
  import opened Values

  /** Every object only references strictly older slots.  It holds because an
      object is built from values that exist before it is allocated, and it
      is what makes the recursive tracing terminate. */
  ghost predicate PointsDown(objs: map<Ref, Obj>) {
    forall r :: r in objs ==> ObjBelow(objs[r], r)
  }

  /** No reference occurs twice in `s`. */
  ghost predicate Distinct(s: seq<Ref>)
    decreases |s|
  {
    s == [] || (s[|s| - 1] !in s[..|s| - 1] && Distinct(s[..|s| - 1]))
  }

  /** Termination measure of the tracing functions. */
  function Rank(v: Value): nat {
    if v.IsHeapRef() then 2 * v.ref + 2 else 0
  }

  /** The grey-stack pushes made by `trace_pointer` on the object at `r`, in
      order.  For a pair: `mark_value` of both fields, then `trace_value` of
      both fields; every other object type pushes nothing.  A slot that is no
      longer allocated pushes nothing. */
  function Pushes(objs: map<Ref, Obj>, r: Ref): (s: seq<Ref>)
    requires PointsDown(objs)
    ensures forall x :: x in s ==> x < r
    decreases 2 * r + 1, 0
  {
    if r in objs && objs[r].PairObj? then
      var p := objs[r];
      MarkSeq(p.first) + MarkSeq(p.second) + PushesOfValue(objs, p.first) + PushesOfValue(objs, p.second)
    else
      []
  }

  /** The pushes made by `trace_value`.  Pairs and symbols go to
      `trace_pointer`; a closure is looked into (its free variables and its
      enclosing closure are traced in turn) without marking anything itself;
      immediates and native procedures push nothing.  There is no check of
      the mark bit, so a pair reached twice is traced twice. */
  function PushesOfValue(objs: map<Ref, Obj>, v: Value): (s: seq<Ref>)
    requires PointsDown(objs)
    ensures forall x :: x in s ==> v.IsHeapRef() && x < v.ref
    decreases Rank(v), 0
  {
    match v
    case PairRef(p) => Pushes(objs, p)
    case SymbolRef(p) => Pushes(objs, p)
    case ClosureRef(c) =>
      if c in objs && objs[c].ClosureObj? then
        PushesOfSeq(objs, objs[c].freeVars, c) + PushesOfValue(objs, objs[c].prev)
      else
        []
    case _ => []
  }

  /** `trace_value` applied to each free variable of the closure at `c`. */
  function PushesOfSeq(objs: map<Ref, Obj>, vs: seq<Value>, c: Ref): (s: seq<Ref>)
    requires PointsDown(objs)
    requires forall i :: 0 <= i < |vs| ==> ValueBelow(vs[i], c)
    ensures forall x :: x in s ==> x < c
    decreases 2 * c + 1, |vs|
  {
    if vs == [] then []
    else
      assert ValueBelow(vs[0], c);
      PushesOfValue(objs, vs[0]) + PushesOfSeq(objs, vs[1..], c)
  }

  /** Everything marked once `r` has been popped from the grey stack and the
      whole collection has run to completion: `r` itself and, transitively,
      everything its tracing pushes. */
  function Traced(objs: map<Ref, Obj>, r: Ref): (t: set<Ref>)
    requires PointsDown(objs)
    ensures r in t
    ensures forall x :: x in t ==> x <= r
    decreases r
  {
    var ps := Pushes(objs, r);
    {r} + (set c, x | c in ps && x in Traced(objs, c) :: x)
  }

  /** Everything traced from a set of grey references. */
  function Reached(objs: map<Ref, Obj>, rs: set<Ref>): set<Ref>
    requires PointsDown(objs)
  {
    set r, x | r in rs && x in Traced(objs, r) :: x
  }

  function Elems(s: seq<Ref>): set<Ref> {
    set x | x in s
  }

  /** What `mark_value` pushes on the grey stack for each of a list of roots, in order. */
  function RootPushes(roots: seq<Value>): seq<Ref>
    decreases |roots|
  {
    if roots == [] then [] else RootPushes(roots[..|roots| - 1]) + MarkSeq(roots[|roots| - 1])
  }

  /** The references marked for a list of roots. */
  function RootRefs(roots: seq<Value>): set<Ref> {
    Elems(RootPushes(roots))
  }

  /** The objects a full collection keeps alive for these roots. */
  function Live(objs: map<Ref, Obj>, roots: seq<Value>): set<Ref>
    requires PointsDown(objs)
  {
    Reached(objs, RootRefs(roots))
  }

  /** What the sweep keeps of the heap list: the marked objects, in order. */
  function Filter(s: seq<Ref>, m: set<Ref>): (f: seq<Ref>)
    ensures forall x :: x in f <==> x in s && x in m
    ensures |f| <= |s|
    decreases |s|
  {
    if s == [] then []
    else
      assert s == s[..|s| - 1] + [s[|s| - 1]];
      Filter(s[..|s| - 1], m) + (if s[|s| - 1] in m then [s[|s| - 1]] else [])
  }

  /** Total size of the objects on a list. */
  function ListBytes(objs: map<Ref, Obj>, s: seq<Ref>): nat
    decreases |s|
  {
    if s == [] then 0
    else ListBytes(objs, s[..|s| - 1]) + (if s[|s| - 1] in objs then SizeOf(objs[s[|s| - 1]]) else 0)
  }

  /** Total size of the objects on a list that are not in `m`: what a sweep
      with mark set `m` gives back. */
  function FreedBytes(objs: map<Ref, Obj>, s: seq<Ref>, m: set<Ref>): nat
    decreases |s|
  {
    if s == [] then 0
    else
      FreedBytes(objs, s[..|s| - 1], m)
      + (if s[|s| - 1] !in m && s[|s| - 1] in objs then SizeOf(objs[s[|s| - 1]]) else 0)
  }

  /** The collector's state between two collections (every mark bit clear,
      grey stack empty). */
  datatype HeapState = HeapState(
    objects: map<Ref, Obj>,     // the arena: every object not yet swept
    list: seq<Ref>,             // the intrusive list from `first`
    nextRef: nat,               // the next slot to hand out
    symbols: map<string, Ref>,  // the interning table
    bytes: nat,                 // bytes allocated
    nextGc: nat)                // the collection threshold

  ghost predicate SymbolsOk(h: HeapState) {
    && (forall s :: s in h.symbols ==> h.symbols[s] < h.nextRef)
    && (forall s1, s2 :: s1 in h.symbols && s2 in h.symbols && s1 != s2 ==> h.symbols[s1] != h.symbols[s2])
    && (forall s :: s in h.symbols && h.symbols[s] in h.objects ==> h.objects[h.symbols[s]] == SymbolObj(s))
  }

  /** The invariant of the object store: the list threads every object once,
      slots are below the allocation cursor, objects point to older objects,
      the symbol table is injective, and the byte count is the list's size. */
  ghost predicate HeapOk(h: HeapState) {
    && PointsDown(h.objects)
    && (forall r :: r in h.objects ==> r < h.nextRef)
    && Distinct(h.list)
    && (forall r :: r in h.objects <==> r in h.list)
    && SymbolsOk(h)
    && h.bytes == ListBytes(h.objects, h.list)
  }

  /** `Gc::new`: an empty store whose first threshold is 1 MiB. */
  function EmptyHeap(): (h: HeapState)
    ensures HeapOk(h)
  {
    HeapState(map[], [], 0, map[], 0, 1024 * 1024)
  }

  /** `Gc::alloc`: the object goes into the next slot, and its header goes
      at the head of the list. */
  function Allocate(h: HeapState, o: Obj): HeapState {
    HeapState(h.objects[h.nextRef := o], [h.nextRef] + h.list, h.nextRef + 1, h.symbols, h.bytes + SizeOf(o), h.nextGc)
  }

  /** `Gc::intern`: the symbol registered under `name`, or else a freshly
      allocated symbol that is registered. */
  function Interned(h: HeapState, name: string): (HeapState, Ref) {
    if name in h.symbols then
      (h, h.symbols[name])
    else
      (Allocate(h, SymbolObj(name)).(symbols := h.symbols[name := h.nextRef]), h.nextRef)
  }

  /** The objects whose slot is in `keep`. */
  function Kept(objs: map<Ref, Obj>, keep: set<Ref>): (k: map<Ref, Obj>)
    ensures forall r :: r in k <==> r in objs && r in keep
    ensures forall r :: r in k ==> k[r] == objs[r]
  {
    map r | r in objs && r in keep :: objs[r]
  }

  /** `sweep` with mark set `m`: the objects in `m` stay, in list order, and
      the others are freed and their whole sizes given back, the release
      the heap-size assertions of the tests expect (`SweptAsWritten` is the
      header-only release of the code as written). */
  function Swept(h: HeapState, m: set<Ref>): HeapState
    requires HeapOk(h)
  {
    FreedWithinListBytes(h.objects, h.list, m);
    HeapState(Kept(h.objects, m), Filter(h.list, m), h.nextRef, h.symbols,
              h.bytes - FreedBytes(h.objects, h.list, m), h.nextGc)
  }

  /** `collect_garbage` with final mark set `m`: sweep, then set the
      threshold to twice the bytes still allocated. */
  function Collected(h: HeapState, m: set<Ref>): HeapState
    requires HeapOk(h)
  {
    var s := Swept(h, m);
    s.(nextGc := 2 * s.bytes)
  }

  /** A full collection for these roots: keep what is live. */
  function Collect(h: HeapState, roots: seq<Value>): HeapState
    requires HeapOk(h)
  {
    Collected(h, Live(h.objects, roots))
  }

  // ---------------------------------------------------------------------
  // The store operations keep the invariant.

  /** Allocation hands out a slot not in use, and keeps the invariant. */
  lemma AllocateOk(h: HeapState, o: Obj)
    requires HeapOk(h) && ObjBelow(o, h.nextRef)
    ensures h.nextRef !in h.objects && h.nextRef !in h.list
    ensures HeapOk(Allocate(h, o))
  {
    var r := h.nextRef;
    var h' := Allocate(h, o);
    ListBytesFrame(h.objects, h'.objects, h.list);
    ListBytesCons(h'.objects, r, h.list);
    DistinctCons(r, h.list);
  }

  /** Interning keeps the invariant and registers `name`; a freshly made
      symbol is a live symbol object holding `name`. */
  lemma InternedOk(h: HeapState, name: string)
    requires HeapOk(h)
    ensures var (h', r) := Interned(h, name);
      && HeapOk(h')
      && name in h'.symbols && h'.symbols[name] == r
      && (r in h'.objects ==> h'.objects[r] == SymbolObj(name))
      && (name !in h.symbols ==> r in h'.objects && r !in h.objects)
  {
    if name !in h.symbols {
      AllocateOk(h, SymbolObj(name));
    }
  }

  /** Interning the same name again changes nothing and gives the same
      symbol. */
  lemma InternIdempotent(h: HeapState, name: string)
    requires HeapOk(h)
    ensures var (h1, r1) := Interned(h, name);
      Interned(h1, name) == (h1, r1)
  {
  }

  /** Two different names never share a symbol. */
  lemma InternDistinct(h: HeapState, a: string, b: string)
    requires HeapOk(h) && a != b
    ensures var (h1, ra) := Interned(h, a);
      var (h2, rb) := Interned(h1, b);
      ra != rb
  {
    InternedOk(h, a);
    var (h1, ra) := Interned(h, a);
    InternedOk(h1, b);
  }

  /** A sweep with mark set `m` keeps the invariant, keeps exactly the
      marked objects with their contents, and gives back what it frees. */
  lemma SweptOk(h: HeapState, m: set<Ref>)
    requires HeapOk(h)
    ensures var h' := Swept(h, m);
      && HeapOk(h')
      && (forall r :: r in h'.objects <==> r in h.objects && r in m)
      && (forall r :: r in h'.objects ==> h'.objects[r] == h.objects[r])
      && h'.bytes + FreedBytes(h.objects, h.list, m) == h.bytes
  {
    var h' := Swept(h, m);
    SweepBytes(h.objects, h'.objects, h.list, m);
    FilterDistinct(h.list, m);
  }

  /** Setting the collection threshold keeps the invariant. */
  lemma ThresholdOk(h: HeapState, n: nat)
    requires HeapOk(h)
    ensures HeapOk(h.(nextGc := n))
  {
    assert h.(nextGc := n).objects == h.objects && h.(nextGc := n).list == h.list;
  }

  /** Marking the roots and tracing from what they push marks, among the
      objects present, exactly the live ones: the collection the collector
      runs is `Collect`. */
  lemma CollectFromRoots(h: HeapState, roots: seq<Value>)
    requires HeapOk(h)
    ensures Collected(h, RootRefs(roots) * h.objects.Keys + Reached(h.objects, Elems(RootPushes(roots))) * h.objects.Keys)
      == Collect(h, roots)
  {
    var k := h.objects.Keys;
    var m := RootRefs(roots) * k + Reached(h.objects, Elems(RootPushes(roots))) * k;
    ReachedCovers(h.objects, RootRefs(roots));
    assert forall r :: r in h.objects ==> (r in m <==> r in Live(h.objects, roots));
    SweptOnlyMembersMatter(h, m, Live(h.objects, roots));
  }

  /** A collection keeps the invariant and exactly the live objects, and
      its new threshold is twice what stays allocated. */
  lemma CollectOk(h: HeapState, roots: seq<Value>)
    requires HeapOk(h)
    ensures var h' := Collect(h, roots);
      && HeapOk(h')
      && (forall r :: r in h'.objects <==> r in h.objects && r in Live(h.objects, roots))
      && (forall r :: r in h'.objects ==> h'.objects[r] == h.objects[r])
      && h'.nextGc == 2 * h'.bytes
      && h'.bytes <= h.bytes
  {
    SweptOk(h, Live(h.objects, roots));
  }

  /** The symbol table is neither a root nor pruned by the sweep: once a
      collection frees an interned symbol, `intern` of its name returns the
      freed slot, and changes nothing. */
  lemma InternAfterCollect(h: HeapState, name: string, roots: seq<Value>)
    requires HeapOk(h) && name in h.symbols && h.symbols[name] !in Live(h.objects, roots)
    ensures var h' := Collect(h, roots);
      && h.symbols[name] !in h'.objects
      && Interned(h', name) == (h', h.symbols[name])
  {
    CollectOk(h, roots);
  }

  /** A name interned on a new collector, with no roots, is freed by the
      next collection and then interned to the freed slot. */
  lemma InternedSymbolFreed()
    ensures var (h1, x) := Interned(EmptyHeap(), "a");
      && HeapOk(h1) && x in h1.objects
      && var h2 := Collect(h1, []);
      && x !in h2.objects && Interned(h2, "a") == (h2, x)
  {
    InternedOk(EmptyHeap(), "a");
    var (h1, x) := Interned(EmptyHeap(), "a");
    assert RootRefs([]) == {};
    InternAfterCollect(h1, "a", []);
  }

  // ---------------------------------------------------------------------
  // The release of gc.rs:266 as written.  `object_ptr` is the header, so
  // `Box::from_raw(object_ptr)` is a `Box<GcHeader>`: `dealloc` receives the
  // header's layout and subtracts one unit per freed object, while the
  // object was counted with its whole size when it was allocated.

  /** Number of headers on a list that a sweep with mark set `m` frees. */
  function FreedHeaders(objs: map<Ref, Obj>, s: seq<Ref>, m: set<Ref>): nat
    decreases |s|
  {
    if s == [] then 0
    else
      FreedHeaders(objs, s[..|s| - 1], m)
      + (if s[|s| - 1] !in m && s[|s| - 1] in objs then 1 else 0)
  }

  /** A freed header is never bigger than the freed object. */
  lemma {:induction false} FreedHeadersWithin(o: map<Ref, Obj>, s: seq<Ref>, m: set<Ref>)
    ensures FreedHeaders(o, s, m) <= FreedBytes(o, s, m)
    decreases |s|
  {
    if s != [] {
      FreedHeadersWithin(o, s[..|s| - 1], m);
    }
  }

  /** `sweep` as written: the same objects stay, but the byte count goes
      down by the freed headers only. */
  function SweptAsWritten(h: HeapState, m: set<Ref>): HeapState
    requires HeapOk(h)
  {
    FreedWithinListBytes(h.objects, h.list, m);
    FreedHeadersWithin(h.objects, h.list, m);
    Swept(h, m).(bytes := h.bytes - FreedHeaders(h.objects, h.list, m))
  }

  /** `collect_garbage` over the sweep as written: the threshold is twice
      the byte count the header-only release leaves. */
  function CollectedAsWritten(h: HeapState, m: set<Ref>): HeapState
    requires HeapOk(h)
  {
    var s := SweptAsWritten(h, m);
    s.(nextGc := 2 * s.bytes)
  }

  /** The sweep as written keeps the same objects and list as `Swept`, but
      its byte count still holds the payload of every freed object, so the
      byte count is the survivors' size exactly when every freed object is
      a bare header. */
  lemma SweptAsWrittenKeepsPayload(h: HeapState, m: set<Ref>)
    requires HeapOk(h)
    ensures var w, s := SweptAsWritten(h, m), Swept(h, m);
      && w.objects == s.objects && w.list == s.list
      && w.bytes == s.bytes + (FreedBytes(h.objects, h.list, m) - FreedHeaders(h.objects, h.list, m))
      && (HeapOk(w) <==> FreedBytes(h.objects, h.list, m) == FreedHeaders(h.objects, h.list, m))
  {
    SweptOk(h, m);
    FreedHeadersWithin(h.objects, h.list, m);
    var w, s := SweptAsWritten(h, m), Swept(h, m);
    assert HeapOk(w) <==> w.bytes == s.bytes;
  }

  /** One pair of numbers allocated on a new collector and then swept with
      nothing marked: the pair is freed, but two of its three units stay
      counted, and the next threshold is 4 where the whole release gives 0. */
  lemma SweptAsWrittenLeaksPair()
    ensures var h := Allocate(EmptyHeap(), PairObj(Number(99), Number(101)));
      && HeapOk(h)
      && SweptAsWritten(h, {}).objects == map[]
      && SweptAsWritten(h, {}).bytes == 2 && !HeapOk(SweptAsWritten(h, {}))
      && CollectedAsWritten(h, {}).nextGc == 4
      && Swept(h, {}).bytes == 0 && Collected(h, {}).nextGc == 0
  {
    var h := Allocate(EmptyHeap(), PairObj(Number(99), Number(101)));
    AllocateOk(EmptyHeap(), PairObj(Number(99), Number(101)));
    assert h.list == [0];
    assert h.list[..0] == [];
    assert FreedBytes(h.objects, h.list, {}) == 3;
    assert FreedHeaders(h.objects, h.list, {}) == 1;
    SweptAsWrittenKeepsPayload(h, {});
  }

  // ---------------------------------------------------------------------
  // Sweep: what survives, in which order, and the bytes it gives back.

  lemma {:induction false} FilterAppend(a: seq<Ref>, b: seq<Ref>, m: set<Ref>)
    ensures Filter(a + b, m) == Filter(a, m) + Filter(b, m)
    decreases |b|
  {
    if b == [] {
      assert a + b == a;
    } else {
      var b' := b[..|b| - 1];
      assert (a + b)[..|a + b| - 1] == a + b';
      FilterAppend(a, b', m);
    }
  }

  /** The sweep keeps the relative order of the survivors. */
  lemma FilterPreservesOrder(s: seq<Ref>, m: set<Ref>, i: nat, j: nat)
    requires i < j < |s| && s[i] in m && s[j] in m
    ensures exists p, q :: 0 <= p < q < |Filter(s, m)| && Filter(s, m)[p] == s[i] && Filter(s, m)[q] == s[j]
  {
    var a, b := s[..j], s[j..];
    assert s == a + b;
    FilterAppend(a, b, m);
    assert s[i] in a;
    assert s[j] == b[0];
    var fa := Filter(a, m);
    assert s[i] in fa;
    var p :| 0 <= p < |fa| && fa[p] == s[i];
    assert s[j] in Filter(b, m);
    var q' :| 0 <= q' < |Filter(b, m)| && Filter(b, m)[q'] == s[j];
    assert Filter(s, m)[p] == s[i] && Filter(s, m)[|fa| + q'] == s[j];
  }

  /** When every object on the list is marked, the sweep keeps the list as it is. */
  lemma {:induction false} FilterAllMarked(s: seq<Ref>, m: set<Ref>)
    requires forall x :: x in s ==> x in m
    ensures Filter(s, m) == s
    decreases |s|
  {
    if s != [] {
      var init, last := s[..|s| - 1], s[|s| - 1];
      assert init + [last] == s;
      assert forall x :: x in init ==> x in s;
      FilterAllMarked(init, m);
      assert last in m;
    }
  }

  /** Only the marks on list members matter to the sweep. */
  lemma {:induction false} FilterOnlyMembersMatter(s: seq<Ref>, m1: set<Ref>, m2: set<Ref>)
    requires forall x :: x in s ==> (x in m1 <==> x in m2)
    ensures Filter(s, m1) == Filter(s, m2)
    decreases |s|
  {
    if s != [] {
      FilterOnlyMembersMatter(s[..|s| - 1], m1, m2);
    }
  }

  lemma {:induction false} FilterDistinct(s: seq<Ref>, m: set<Ref>)
    requires Distinct(s)
    ensures Distinct(Filter(s, m))
    decreases |s|
  {
    if s != [] {
      var init, x := s[..|s| - 1], s[|s| - 1];
      FilterDistinct(init, m);
      var f := Filter(init, m);
      assert x !in f;
      if x in m {
        assert Filter(s, m) == f + [x];
        assert (f + [x])[..|f|] == f;
      } else {
        assert Filter(s, m) == f;
      }
    }
  }

  /** The recursive `Distinct` is the pairwise one. */
  lemma {:induction false} DistinctIndex(s: seq<Ref>)
    ensures Distinct(s) <==> forall i, j :: 0 <= i < j < |s| ==> s[i] != s[j]
    decreases |s|
  {
    if s != [] {
      var init := s[..|s| - 1];
      DistinctIndex(init);
      if Distinct(s) {
        forall i, j | 0 <= i < j < |s| ensures s[i] != s[j] {
          if j < |s| - 1 {
            assert s[i] == init[i] && s[j] == init[j];
          } else {
            assert s[i] in init;
          }
        }
      }
      if forall i, j :: 0 <= i < j < |s| ==> s[i] != s[j] {
        forall i, j | 0 <= i < j < |init| ensures init[i] != init[j] {
          assert init[i] == s[i] && init[j] == s[j];
        }
      }
    }
  }

  /** A reference not yet on a list without repetitions can go at its front. */
  lemma {:induction false} DistinctCons(r: Ref, s: seq<Ref>)
    requires Distinct(s) && r !in s
    ensures Distinct([r] + s)
    decreases |s|
  {
    if s == [] {
      assert ([r] + s)[..0] == [];
    } else {
      var init := s[..|s| - 1];
      DistinctCons(r, init);
      assert ([r] + s)[..|s|] == [r] + init;
    }
  }

  lemma {:induction false} ListBytesFrame(o1: map<Ref, Obj>, o2: map<Ref, Obj>, s: seq<Ref>)
    requires forall x :: x in s ==> (x in o1 <==> x in o2) && (x in o1 ==> o1[x] == o2[x])
    ensures ListBytes(o1, s) == ListBytes(o2, s)
    decreases |s|
  {
    if s != [] {
      ListBytesFrame(o1, o2, s[..|s| - 1]);
    }
  }

  lemma {:induction false} ListBytesCons(o: map<Ref, Obj>, r: Ref, s: seq<Ref>)
    requires r in o
    ensures ListBytes(o, [r] + s) == SizeOf(o[r]) + ListBytes(o, s)
    decreases |s|
  {
    if s == [] {
      assert ([r] + s)[..0] == [];
    } else {
      assert ([r] + s)[..|[r] + s| - 1] == [r] + s[..|s| - 1];
      ListBytesCons(o, r, s[..|s| - 1]);
    }
  }

  lemma {:induction false} FreedBytesOnlyMembersMatter(o: map<Ref, Obj>, s: seq<Ref>, m1: set<Ref>, m2: set<Ref>)
    requires forall x :: x in s && x in o ==> (x in m1 <==> x in m2)
    ensures FreedBytes(o, s, m1) == FreedBytes(o, s, m2)
    decreases |s|
  {
    if s != [] {
      FreedBytesOnlyMembersMatter(o, s[..|s| - 1], m1, m2);
    }
  }

  lemma {:induction false} FreedWithinListBytes(o: map<Ref, Obj>, s: seq<Ref>, m: set<Ref>)
    ensures FreedBytes(o, s, m) <= ListBytes(o, s)
    decreases |s|
  {
    if s != [] {
      FreedWithinListBytes(o, s[..|s| - 1], m);
    }
  }

  lemma {:induction false} FreedBytesPrefix(o: map<Ref, Obj>, s: seq<Ref>, m: set<Ref>, k: nat)
    requires k <= |s|
    ensures FreedBytes(o, s[..k], m) <= FreedBytes(o, s, m)
    decreases |s|
  {
    if k < |s| {
      assert s[..|s| - 1][..k] == s[..k];
      FreedBytesPrefix(o, s[..|s| - 1], m, k);
    } else {
      assert s[..k] == s;
    }
  }

  /** A sweep depends on the mark set only through the objects present. */
  lemma SweptOnlyMembersMatter(h: HeapState, m1: set<Ref>, m2: set<Ref>)
    requires HeapOk(h)
    requires forall r :: r in h.objects ==> (r in m1 <==> r in m2)
    ensures Swept(h, m1) == Swept(h, m2)
  {
    FilterOnlyMembersMatter(h.list, m1, m2);
    FreedBytesOnlyMembersMatter(h.objects, h.list, m1, m2);
    assert Swept(h, m1).objects == Swept(h, m2).objects;
  }

  /** The bytes of the swept list are the old bytes minus what was freed. */
  lemma {:induction false} SweepBytes(o: map<Ref, Obj>, kept: map<Ref, Obj>, s: seq<Ref>, m: set<Ref>)
    requires forall x :: x in kept <==> x in o && x in m
    requires forall x :: x in kept ==> kept[x] == o[x]
    ensures ListBytes(o, s) == ListBytes(kept, Filter(s, m)) + FreedBytes(o, s, m)
    decreases |s|
  {
    if s != [] {
      var init, x := s[..|s| - 1], s[|s| - 1];
      SweepBytes(o, kept, init, m);
      var f := Filter(init, m);
      if x in m {
        assert Filter(s, m) == f + [x];
        assert (f + [x])[..|f + [x]| - 1] == f;
      } else {
        assert Filter(s, m) == f;
      }
    }
  }

  // ---------------------------------------------------------------------
  // Tracing: what a collection marks.

  lemma TracedUnfold(objs: map<Ref, Obj>, r: Ref)
    requires PointsDown(objs)
    ensures Traced(objs, r) == {r} + Reached(objs, Elems(Pushes(objs, r)))
  {
  }

  /** Whatever is traced from a traced reference is itself traced: the
      marked set is closed under tracing. */
  lemma {:induction false} TracedTransitive(objs: map<Ref, Obj>, r: Ref, x: Ref)
    requires PointsDown(objs)
    requires x in Traced(objs, r)
    ensures Traced(objs, x) <= Traced(objs, r)
    decreases r
  {
    if x != r {
      var ps := Pushes(objs, r);
      var c :| c in ps && x in Traced(objs, c);
      TracedTransitive(objs, c, x);
    }
  }

  /** After a full collection, every live object's tracing pushes only live
      objects: nothing the collector would still mark is swept. */
  lemma LiveClosedUnderPushes(objs: map<Ref, Obj>, roots: seq<Value>, x: Ref)
    requires PointsDown(objs)
    requires x in Live(objs, roots)
    ensures Elems(Pushes(objs, x)) <= Live(objs, roots)
  {
    var r :| r in RootRefs(roots) && x in Traced(objs, r);
    TracedTransitive(objs, r, x);
    forall c | c in Pushes(objs, x) ensures c in Live(objs, roots) {
      assert c in Traced(objs, c);
      assert c in Traced(objs, x);
    }
  }

  lemma {:induction false} RootPushesAppend(a: seq<Value>, b: seq<Value>)
    ensures RootPushes(a + b) == RootPushes(a) + RootPushes(b)
    decreases |b|
  {
    if b == [] {
      assert a + b == a;
    } else {
      assert (a + b)[..|a + b| - 1] == a + b[..|b| - 1];
      RootPushesAppend(a, b[..|b| - 1]);
    }
  }

  /** The references marked for a list of roots are exactly the references
      held by its pair, symbol and closure values. */
  lemma {:induction false} RootRefsExactly(roots: seq<Value>, x: Ref)
    ensures x in RootRefs(roots) <==>
      exists i :: 0 <= i < |roots| && (roots[i].PairRef? || roots[i].SymbolRef? || roots[i].ClosureRef?) && roots[i].ref == x
    decreases |roots|
  {
    if roots != [] {
      var init := roots[..|roots| - 1];
      RootRefsExactly(init, x);
      var v := roots[|roots| - 1];
      if x in RootRefs(roots) && x !in RootRefs(init) {
        assert x in MarkSeq(v);
        assert roots[|roots| - 1] == v;
      }
      if exists i :: 0 <= i < |roots| && (roots[i].PairRef? || roots[i].SymbolRef? || roots[i].ClosureRef?) && roots[i].ref == x {
        var i :| 0 <= i < |roots| && (roots[i].PairRef? || roots[i].SymbolRef? || roots[i].ClosureRef?) && roots[i].ref == x;
        if i < |roots| - 1 {
          assert init[i] == roots[i];
        } else {
          assert x in MarkSeq(v);
        }
      }
    }
  }

  /** Every root pair, symbol and closure is live. */
  lemma RootsAreLive(objs: map<Ref, Obj>, roots: seq<Value>, i: nat)
    requires PointsDown(objs)
    requires i < |roots| && (roots[i].PairRef? || roots[i].SymbolRef? || roots[i].ClosureRef?)
    ensures roots[i].ref in Live(objs, roots)
  {
    RootRefsExactly(roots, roots[i].ref);
    assert roots[i].ref in Traced(objs, roots[i].ref);
  }

  // ---------------------------------------------------------------------
  // Facts the imperative trace loop needs.

  lemma ReachedSplit(objs: map<Ref, Obj>, a: set<Ref>, b: set<Ref>)
    requires PointsDown(objs)
    ensures Reached(objs, a + b) == Reached(objs, a) + Reached(objs, b)
  {
  }

  lemma ReachedSingleton(objs: map<Ref, Obj>, r: Ref)
    requires PointsDown(objs)
    ensures Reached(objs, {r}) == Traced(objs, r)
  {
  }

  lemma ReachedCovers(objs: map<Ref, Obj>, a: set<Ref>)
    requires PointsDown(objs)
    ensures a <= Reached(objs, a)
  {
    forall x | x in a ensures x in Reached(objs, a) {
      assert x in Traced(objs, x);
    }
  }

  lemma ElemsAppend(a: seq<Ref>, b: seq<Ref>)
    ensures Elems(a + b) == Elems(a) + Elems(b)
  {
  }

  lemma {:induction false} PushesOfSeqAppend(objs: map<Ref, Obj>, vs: seq<Value>, v: Value, c: Ref)
    requires PointsDown(objs)
    requires forall i :: 0 <= i < |vs| ==> ValueBelow(vs[i], c)
    requires ValueBelow(v, c)
    ensures PushesOfSeq(objs, vs + [v], c) == PushesOfSeq(objs, vs, c) + PushesOfValue(objs, v)
    decreases |vs|
  {
    if vs == [] {
      assert ([v])[1..] == [];
    } else {
      assert (vs + [v])[1..] == vs[1..] + [v];
      PushesOfSeqAppend(objs, vs[1..], v, c);
    }
  }

  /** The number of grey-stack pops that tracing `r` causes, itself included.
      It is the termination measure of the trace loop. */
  function Work(objs: map<Ref, Obj>, r: Ref): nat
    requires PointsDown(objs)
    decreases r, 1, 0
  {
    var ps := Pushes(objs, r);
    assert forall i :: 0 <= i < |ps| ==> ps[i] in ps;
    1 + WorkSum(objs, ps, r)
  }

  function WorkSum(objs: map<Ref, Obj>, s: seq<Ref>, bound: nat): nat
    requires PointsDown(objs)
    requires forall i :: 0 <= i < |s| ==> s[i] < bound
    decreases bound, 0, |s|
  {
    if s == [] then 0
    else
      WorkSum(objs, s[..|s| - 1], bound) + Work(objs, s[|s| - 1])
  }

  lemma {:induction false} WorkSumBound(objs: map<Ref, Obj>, s: seq<Ref>, b1: nat, b2: nat)
    requires PointsDown(objs)
    requires forall i :: 0 <= i < |s| ==> s[i] < b1 && s[i] < b2
    ensures WorkSum(objs, s, b1) == WorkSum(objs, s, b2)
    decreases |s|
  {
    if s != [] {
      WorkSumBound(objs, s[..|s| - 1], b1, b2);
    }
  }

  lemma {:induction false} WorkSumAppend(objs: map<Ref, Obj>, a: seq<Ref>, b: seq<Ref>, bound: nat)
    requires PointsDown(objs)
    requires forall i :: 0 <= i < |a| ==> a[i] < bound
    requires forall i :: 0 <= i < |b| ==> b[i] < bound
    ensures WorkSum(objs, a + b, bound) == WorkSum(objs, a, bound) + WorkSum(objs, b, bound)
    decreases |b|
  {
    if b == [] {
      assert a + b == a;
    } else {
      assert (a + b)[..|a + b| - 1] == a + b[..|b| - 1];
      WorkSumAppend(objs, a, b[..|b| - 1], bound);
    }
  }
}
