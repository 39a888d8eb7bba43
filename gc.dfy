/** The mark-and-sweep collector `Gc`: an intrusive list of every allocated
    object threaded through the headers' `next` links, a grey stack of
    headers still to be traced, and the symbol table.  The header fields are
    kept as two maps (the `next` links and the set of headers whose mark bit
    is set); the type tag of a header is `KindOf` of its object.  The ghost
    field `list` is the heap list read from `first` along the links, which
    `Valid` ties to the concrete links. */
module Collector {
  import opened Values
  import opened HeapSpec

  /** Following the links from `from` visits the headers of `s` in order
      and then arrives at `to`. */
  ghost predicate Seg(from: Option<Ref>, links: map<Ref, Option<Ref>>, s: seq<Ref>, to: Option<Ref>)
    decreases |s|
  {
    if s == [] then from == to
    else from == Some(s[0]) && s[0] in links && Seg(links[s[0]], links, s[1..], to)
  }

  /** The links spell out `list`, starting from `first`. */
  ghost predicate Chain(first: Option<Ref>, links: map<Ref, Option<Ref>>, list: seq<Ref>) {
    Seg(first, links, list, None)
  }

  /** A segment only depends on the links of its own headers. */
  lemma {:induction false} SegFrame(from: Option<Ref>, l1: map<Ref, Option<Ref>>, l2: map<Ref, Option<Ref>>,
                                    s: seq<Ref>, to: Option<Ref>)
    requires Seg(from, l1, s, to)
    requires forall x :: x in s ==> x in l1 && x in l2 && l2[x] == l1[x]
    ensures Seg(from, l2, s, to)
    decreases |s|
  {
    if s != [] {
      assert s[0] in s;
      SegFrame(l1[s[0]], l1, l2, s[1..], to);
    }
  }

  /** Every header of a segment has a link. */
  lemma {:induction false} SegKeys(from: Option<Ref>, links: map<Ref, Option<Ref>>, s: seq<Ref>, to: Option<Ref>)
    requires Seg(from, links, s, to)
    ensures forall x :: x in s ==> x in links
    decreases |s|
  {
    if s != [] {
      SegKeys(links[s[0]], links, s[1..], to);
      assert s == [s[0]] + s[1..];
    }
  }

  /** A segment ending at `x` extends by `x` to wherever `x` links. */
  lemma {:induction false} SegSnoc(from: Option<Ref>, links: map<Ref, Option<Ref>>, s: seq<Ref>, x: Ref)
    requires Seg(from, links, s, Some(x)) && x in links
    ensures Seg(from, links, s + [x], links[x])
    decreases |s|
  {
    if s == [] {
      assert ([x])[1..] == [];
    } else {
      assert (s + [x])[0] == s[0] && (s + [x])[1..] == s[1..] + [x];
      SegSnoc(links[s[0]], links, s[1..], x);
    }
  }

  /** Redirecting the last header of a segment moves the segment's end. */
  lemma {:induction false} SegRetarget(from: Option<Ref>, links: map<Ref, Option<Ref>>, s: seq<Ref>,
                                       to: Option<Ref>, to': Option<Ref>)
    requires s != [] && Seg(from, links, s, to)
    requires s[|s| - 1] !in s[..|s| - 1]
    ensures Seg(from, links[s[|s| - 1] := to'], s, to')
    decreases |s|
  {
    var last := s[|s| - 1];
    var links' := links[last := to'];
    if |s| == 1 {
      assert s[1..] == [];
    } else {
      var rest := s[1..];
      assert rest[|rest| - 1] == last;
      assert s[..|s| - 1] == [s[0]] + rest[..|rest| - 1];
      SegRetarget(links[s[0]], links, rest, to, to');
      assert s[0] in s[..|s| - 1];
    }
  }

  /** Pushing a fresh header on the front of the list. */
  lemma ChainCons(first: Option<Ref>, links: map<Ref, Option<Ref>>, list: seq<Ref>, r: Ref)
    requires Chain(first, links, list) && r !in list
    requires forall x :: x in list ==> x in links
    ensures Chain(Some(r), links[r := first], [r] + list)
  {
    SegFrame(first, links, links[r := first], list, None);
    assert ([r] + list)[1..] == list;
  }

  /** In a list without repetitions, what comes before position `i` does not
      come again from `i` on, and the element at `i` does not come again. */
  lemma DistinctSplit(l: seq<Ref>, i: nat)
    requires Distinct(l) && i < |l|
    ensures forall x :: x in l[..i] ==> x !in l[i..]
    ensures l[i] !in l[i + 1..]
    ensures Distinct(l[..i])
  {
    DistinctIndex(l);
    DistinctIndex(l[..i]);
  }

  // Regrouping steps for the grey stack and the mark set, stated once so
  // that the trace methods below do not search for them.
  lemma AppendFour(g: seq<Ref>, s1: seq<Ref>, s2: seq<Ref>, s3: seq<Ref>, s4: seq<Ref>)
    ensures g + s1 + s2 + s3 + s4 == g + (s1 + s2 + s3 + s4)
  {
  }

  lemma ElemsFour(s1: seq<Ref>, s2: seq<Ref>, s3: seq<Ref>, s4: seq<Ref>)
    ensures Elems(s1 + s2 + s3 + s4) == Elems(s1) + Elems(s2) + Elems(s3) + Elems(s4)
  {
  }

  lemma AppendTwo(g: seq<Ref>, s1: seq<Ref>, s2: seq<Ref>)
    ensures g + s1 + s2 == g + (s1 + s2)
  {
  }

  lemma MarkFour(m: set<Ref>, k: set<Ref>, a: set<Ref>, b: set<Ref>, c: set<Ref>, d: set<Ref>)
    ensures m + a * k + b * k + c * k + d * k == m + (a + b + c + d) * k
  {
  }

  lemma MarkTwo(m: set<Ref>, k: set<Ref>, a: set<Ref>, b: set<Ref>)
    ensures m + a * k + b * k == m + (a + b) * k
  {
  }

  lemma TakeOneMore(s: seq<Value>, i: nat)
    requires i < |s|
    ensures s[..i + 1] == s[..i] + [s[i]]
  {
  }

  /** One iteration of the trace loop keeps the set of headers that will end
      up marked: `r` is already marked, and what its tracing pushes is
      marked now and traced later. */
  lemma TraceStep(objs: map<Ref, Obj>, g: seq<Ref>, m: set<Ref>)
    requires PointsDown(objs) && g != []
    requires Elems(g) * objs.Keys <= m
    ensures var r := g[|g| - 1];
      m + (Elems(Pushes(objs, r)) * objs.Keys) + (Reached(objs, Elems(g[..|g| - 1] + Pushes(objs, r))) * objs.Keys)
      == m + (Reached(objs, Elems(g)) * objs.Keys)
  {
    var r, rest := g[|g| - 1], g[..|g| - 1];
    var ps := Pushes(objs, r);
    var a, e := Reached(objs, Elems(rest)), Elems(ps);
    assert r in Elems(g);
    calc {
      Reached(objs, Elems(g));
      { assert g == rest + [r]; ElemsAppend(rest, [r]); assert Elems([r]) == {r}; }
      Reached(objs, Elems(rest) + {r});
      { ReachedSplit(objs, Elems(rest), {r}); }
      a + Reached(objs, {r});
      { ReachedSingleton(objs, r); }
      a + Traced(objs, r);
      { TracedUnfold(objs, r); }
      a + ({r} + Reached(objs, e));
    }
    calc {
      Reached(objs, Elems(rest + ps));
      { ElemsAppend(rest, ps); }
      Reached(objs, Elems(rest) + e);
      { ReachedSplit(objs, Elems(rest), e); }
      a + Reached(objs, e);
    }
    ReachedCovers(objs, e);
    MarkAbsorb(m, objs.Keys, a, Reached(objs, e), e, r);
  }

  /** Every grey header that is live is marked, before and after a step. */
  lemma GreyStep(g: seq<Ref>, ps: seq<Ref>, m: set<Ref>, k: set<Ref>)
    requires g != [] && Elems(g) * k <= m
    ensures Elems(g[..|g| - 1] + ps) * k <= m + Elems(ps) * k
  {
    assert g == g[..|g| - 1] + [g[|g| - 1]];
    ElemsAppend(g[..|g| - 1], [g[|g| - 1]]);
    ElemsAppend(g[..|g| - 1], ps);
  }

  /** Regrouping step of `TraceStep`: `r`, already marked, and its pushes,
      marked now, are absorbed into the headers reached later. */
  lemma MarkAbsorb(m: set<Ref>, k: set<Ref>, a: set<Ref>, reach: set<Ref>, e: set<Ref>, r: Ref)
    requires e <= reach && (r in k ==> r in m)
    ensures m + e * k + (a + reach) * k == m + (a + ({r} + reach)) * k
  {
  }

  /** One iteration of the trace loop lowers the remaining work by one. */
  lemma WorkStep(objs: map<Ref, Obj>, g: seq<Ref>, bound: nat)
    requires PointsDown(objs) && g != []
    requires forall i :: 0 <= i < |g| ==> g[i] < bound
    ensures var r := g[|g| - 1];
      var ps := Pushes(objs, r);
      (forall i :: 0 <= i < |ps| ==> ps[i] < bound)
      && WorkSum(objs, g[..|g| - 1] + ps, bound) < WorkSum(objs, g, bound)
  {
    var r, rest := g[|g| - 1], g[..|g| - 1];
    var ps := Pushes(objs, r);
    assert forall i :: 0 <= i < |ps| ==> ps[i] in ps;
    WorkSumAppend(objs, rest, ps, bound);
    WorkSumBound(objs, ps, r, bound);
  }

  /** Sweeping one header keeps the unvisited headers and the marked
      ones; a freed header leaves the kept objects. */
  lemma KeptStep(o: map<Ref, Obj>, m: set<Ref>, l: seq<Ref>, i: nat)
    requires i < |l| && l[i] !in l[i + 1..]
    ensures l[i] in m ==> Kept(o, m + Elems(l[i + 1..])) == Kept(o, m + Elems(l[i..]))
    ensures l[i] !in m ==> Kept(o, m + Elems(l[i + 1..])) == Kept(o, m + Elems(l[i..])) - {l[i]}
  {
    assert l[i..] == [l[i]] + l[i + 1..];
    ElemsAppend([l[i]], l[i + 1..]);
    assert Elems([l[i]]) == {l[i]};
    if l[i] in m {
      assert m + Elems(l[i + 1..]) == m + Elems(l[i..]);
    } else {
      assert Kept(o, m + Elems(l[i + 1..])) == Kept(o, m + Elems(l[i..])) - {l[i]};
    }
  }

  /** The invariant of the sweep loop after visiting the first `i` headers
      of the heap list `l` with mark set `m`.  The primed values are the
      headers' fields as the loop has left them: the links from `first'`
      spell out the headers kept so far and then reach `current`, from which
      the unvisited rest of the list follows; `previous` is the last header
      kept; the freed objects are gone from the arena and their bytes are
      given back; the marks of the visited headers are cleared. */
  ghost predicate SweepInv(objects: map<Ref, Obj>, bytes: nat, l: seq<Ref>, m: set<Ref>, i: nat,
                           first': Option<Ref>, links': map<Ref, Option<Ref>>, objects': map<Ref, Obj>, bytes': nat,
                           kept: seq<Ref>, marked': set<Ref>, previous: Option<Ref>, current: Option<Ref>)
  {
    && Distinct(l) && (forall r :: r in objects <==> r in l)
    && m <= objects.Keys && FreedBytes(objects, l, m) <= bytes
    && i <= |l|
    && Seg(first', links', kept, current)
    && Seg(current, links', l[i..], None)
    && previous == (if kept == [] then None else Some(kept[|kept| - 1]))
    && kept == Filter(l[..i], m)
    && objects' == Kept(objects, m + Elems(l[i..]))
    && links'.Keys == objects'.Keys
    && marked' == m - Elems(l[..i])
    && bytes' + FreedBytes(objects, l[..i], m) == bytes
  }

  /** Before the first header, nothing is visited. */
  lemma SweepInit(first: Option<Ref>, links: map<Ref, Option<Ref>>, objects: map<Ref, Obj>, marked: set<Ref>,
                  bytes: nat, l: seq<Ref>)
    requires Distinct(l) && (forall r :: r in objects <==> r in l)
    requires links.Keys == objects.Keys && Chain(first, links, l)
    requires marked <= objects.Keys
    requires FreedBytes(objects, l, marked) <= bytes
    ensures SweepInv(objects, bytes, l, marked, 0, first, links, objects, bytes, [], marked, None, first)
  {
    assert l[0..] == l && l[..0] == [];
    assert Kept(objects, marked + Elems(l)) == objects;
  }

  /** The header at `current` is the next one of the list. */
  lemma SweepVisit(objects: map<Ref, Obj>, bytes: nat, l: seq<Ref>, m: set<Ref>, i: nat,
                   first': Option<Ref>, links': map<Ref, Option<Ref>>, objects': map<Ref, Obj>, bytes': nat,
                   kept: seq<Ref>, marked': set<Ref>, previous: Option<Ref>, header: Ref)
    requires SweepInv(objects, bytes, l, m, i, first', links', objects', bytes', kept, marked', previous, Some(header))
    ensures i < |l| && l[i] == header && header in links' && header in objects'
    ensures l[..i + 1] == l[..i] + [header] && l[i..] == [header] + l[i + 1..]
    ensures Seg(links'[header], links', l[i + 1..], None)
    ensures header in marked' <==> header in m
    ensures header !in kept && header !in l[i + 1..]
    ensures forall x :: x in l[..i] ==> x !in l[i..]
    ensures Distinct(l[..i])
  {
    assert l[i..][1..] == l[i + 1..];
    DistinctSplit(l, i);
    assert header in l && header in Elems(l[i..]);
  }

  /** A marked header stays on the list with its mark cleared. */
  lemma SweepKeep(objects: map<Ref, Obj>, bytes: nat, l: seq<Ref>, m: set<Ref>, i: nat,
                  first': Option<Ref>, links': map<Ref, Option<Ref>>, objects': map<Ref, Obj>, bytes': nat,
                  kept: seq<Ref>, marked': set<Ref>, previous: Option<Ref>, header: Ref)
    requires SweepInv(objects, bytes, l, m, i, first', links', objects', bytes', kept, marked', previous, Some(header))
    requires header in marked'
    ensures header in links'
    ensures SweepInv(objects, bytes, l, m, i + 1, first', links', objects', bytes', kept + [header],
                     marked' - {header}, Some(header), links'[header])
  {
    SweepVisit(objects, bytes, l, m, i, first', links', objects', bytes', kept, marked', previous, header);
    SegSnoc(first', links', kept, header);
    SweepKeepAccount(objects, bytes, l, m, i, objects', bytes', kept, marked');
  }

  /** Keeping the marked header at position `i` clears its mark. */
  lemma SweepKeepAccount(objects: map<Ref, Obj>, bytes: nat, l: seq<Ref>, m: set<Ref>, i: nat,
                         objects': map<Ref, Obj>, bytes': nat, kept: seq<Ref>, marked': set<Ref>)
    requires i < |l| && l[i] in m && l[i] !in l[i + 1..]
    requires kept == Filter(l[..i], m)
    requires objects' == Kept(objects, m + Elems(l[i..]))
    requires marked' == m - Elems(l[..i])
    requires bytes' + FreedBytes(objects, l[..i], m) == bytes
    ensures kept + [l[i]] == Filter(l[..i + 1], m)
    ensures objects' == Kept(objects, m + Elems(l[i + 1..]))
    ensures marked' - {l[i]} == m - Elems(l[..i + 1])
    ensures bytes' + FreedBytes(objects, l[..i + 1], m) == bytes
  {
    SweepAccountStep(objects, l, m, i);
  }

  /** Visiting the header at position `i` of the list adds it to the
      visited prefix: it is kept when marked, and freed otherwise. */
  lemma SweepAccountStep(objects: map<Ref, Obj>, l: seq<Ref>, m: set<Ref>, i: nat)
    requires i < |l| && l[i] !in l[i + 1..]
    ensures Filter(l[..i + 1], m) == Filter(l[..i], m) + (if l[i] in m then [l[i]] else [])
    ensures Elems(l[..i + 1]) == Elems(l[..i]) + {l[i]}
    ensures FreedBytes(objects, l[..i + 1], m)
      == FreedBytes(objects, l[..i], m) + (if l[i] !in m && l[i] in objects then SizeOf(objects[l[i]]) else 0)
    ensures l[i] in m ==> Kept(objects, m + Elems(l[i + 1..])) == Kept(objects, m + Elems(l[i..]))
    ensures l[i] !in m ==> Kept(objects, m + Elems(l[i + 1..])) == Kept(objects, m + Elems(l[i..])) - {l[i]}
  {
    assert l[..i + 1][..i] == l[..i];
    assert l[..i + 1] == l[..i] + [l[i]];
    ElemsAppend(l[..i], [l[i]]);
    assert Elems([l[i]]) == {l[i]};
    KeptStep(objects, m, l, i);
  }

  /** Unlinking header `header`, which follows the kept headers and is
      followed by `rest`: the predecessor (or `first`) takes its link. */
  lemma SweepUnlink(first': Option<Ref>, links': map<Ref, Option<Ref>>, kept: seq<Ref>, previous: Option<Ref>,
                    header: Ref, rest: seq<Ref>)
    requires Seg(first', links', kept, Some(header)) && Seg(Some(header), links', [header] + rest, None)
    requires previous == (if kept == [] then None else Some(kept[|kept| - 1]))
    requires Distinct(kept) && header !in kept && header !in rest
    requires forall x :: x in kept ==> x !in rest
    ensures header in links'
    ensures var next := links'[header];
      var links2 := (if previous.Some? then links'[previous.value := next] else links') - {header};
      && Seg(if previous.Some? then first' else next, links2, kept, next)
      && Seg(next, links2, rest, None)
      && links2.Keys == links'.Keys - {header}
  {
    assert ([header] + rest)[1..] == rest;
    var next := links'[header];
    var links1 := if previous.Some? then links'[previous.value := next] else links';
    var first2 := if previous.Some? then first' else next;
    if previous.Some? {
      assert kept[|kept| - 1] !in kept[..|kept| - 1] by {
        assert Distinct(kept) && kept != [];
      }
      SegRetarget(first', links', kept, Some(header), next);
    }
    SegKeys(first', links', kept, Some(header));
    SegFrame(first2, links1, links1 - {header}, kept, next);
    SegKeys(next, links', rest, None);
    SegFrame(next, links', links1 - {header}, rest, None);
  }

  /** An unmarked header is unlinked from the list and its object freed. */
  lemma SweepFree(objects: map<Ref, Obj>, bytes: nat, l: seq<Ref>, m: set<Ref>, i: nat,
                  first': Option<Ref>, links': map<Ref, Option<Ref>>, objects': map<Ref, Obj>, bytes': nat,
                  kept: seq<Ref>, marked': set<Ref>, previous: Option<Ref>, header: Ref)
    requires SweepInv(objects, bytes, l, m, i, first', links', objects', bytes', kept, marked', previous, Some(header))
    requires header !in marked'
    ensures header in links' && header in objects' && SizeOf(objects'[header]) <= bytes'
    ensures var next := links'[header];
      SweepInv(objects, bytes, l, m, i + 1,
               if previous.Some? then first' else next,
               (if previous.Some? then links'[previous.value := next] else links') - {header},
               objects' - {header}, bytes' - SizeOf(objects'[header]), kept, marked', previous, next)
  {
    SweepVisit(objects, bytes, l, m, i, first', links', objects', bytes', kept, marked', previous, header);
    SweepFreeAccount(objects, bytes, l, m, i, objects', bytes', kept, marked');
    FilterDistinct(l[..i], m);
    SweepUnlink(first', links', kept, previous, header, l[i + 1..]);
  }

  /** Freeing the unmarked header at position `i` gives its bytes back. */
  lemma SweepFreeAccount(objects: map<Ref, Obj>, bytes: nat, l: seq<Ref>, m: set<Ref>, i: nat,
                         objects': map<Ref, Obj>, bytes': nat, kept: seq<Ref>, marked': set<Ref>)
    requires Distinct(l) && (forall r :: r in objects <==> r in l) && FreedBytes(objects, l, m) <= bytes
    requires i < |l| && l[i] !in m && l[i] !in l[i + 1..]
    requires kept == Filter(l[..i], m)
    requires objects' == Kept(objects, m + Elems(l[i..]))
    requires marked' == m - Elems(l[..i])
    requires bytes' + FreedBytes(objects, l[..i], m) == bytes
    ensures l[i] in objects' && SizeOf(objects'[l[i]]) <= bytes'
    ensures kept == Filter(l[..i + 1], m)
    ensures objects' - {l[i]} == Kept(objects, m + Elems(l[i + 1..]))
    ensures marked' == m - Elems(l[..i + 1])
    ensures bytes' - SizeOf(objects'[l[i]]) + FreedBytes(objects, l[..i + 1], m) == bytes
  {
    SweepAccountStep(objects, l, m, i);
    FreedBytesPrefix(objects, l, m, i + 1);
    assert l[i] in l;
  }

  /** After the last header, every header has been visited. */
  lemma SweepDone(objects: map<Ref, Obj>, bytes: nat, l: seq<Ref>, m: set<Ref>, i: nat,
                  first': Option<Ref>, links': map<Ref, Option<Ref>>, objects': map<Ref, Obj>, bytes': nat,
                  kept: seq<Ref>, marked': set<Ref>, previous: Option<Ref>)
    requires SweepInv(objects, bytes, l, m, i, first', links', objects', bytes', kept, marked', previous, None)
    ensures objects' == Kept(objects, m)
    ensures kept == Filter(l, m)
    ensures bytes' == bytes - FreedBytes(objects, l, m)
    ensures marked' == {}
    ensures links'.Keys == objects'.Keys && Chain(first', links', kept)
  {
    assert l[i..] == [];
    assert l[..i] == l;
    assert m + Elems(l[i..]) == m;
  }

  /** The loop of `sweep` over the headers' fields: walk the heap list with
      `previous` and `current`.  A marked header has its mark cleared and is
      kept; an unmarked one is unlinked and its object freed.  The result is
      the new `first`, links, arena, mark set and byte count, and the new
      heap list: the marked objects, in order, threaded by the links. */
  method SweepLinks(first: Option<Ref>, links: map<Ref, Option<Ref>>, objects: map<Ref, Obj>, marked: set<Ref>,
                    bytes: nat, ghost list: seq<Ref>)
    returns (first': Option<Ref>, links': map<Ref, Option<Ref>>, objects': map<Ref, Obj>, marked': set<Ref>,
             bytes': nat, ghost list': seq<Ref>)
    requires Distinct(list) && (forall r :: r in objects <==> r in list)
    requires links.Keys == objects.Keys && Chain(first, links, list)
    requires marked <= objects.Keys
    requires FreedBytes(objects, list, marked) <= bytes
    ensures objects' == Kept(objects, marked)
    ensures list' == Filter(list, marked)
    ensures bytes' == bytes - FreedBytes(objects, list, marked)
    ensures marked' == {}
    ensures links'.Keys == objects'.Keys && Chain(first', links', list')
  {
    ghost var i := 0;
    first', links', objects', marked', bytes', list' := first, links, objects, marked, bytes, [];
    var previous: Option<Ref> := None;
    var current := first;
    SweepInit(first, links, objects, marked, bytes, list);
    while current.Some?
      invariant SweepInv(objects, bytes, list, marked, i, first', links', objects', bytes', list', marked', previous, current)
      decreases |list| - i
    {
      var header := current.value;
      SweepVisit(objects, bytes, list, marked, i, first', links', objects', bytes', list', marked', previous, header);
      if header in marked' {
        SweepKeep(objects, bytes, list, marked, i, first', links', objects', bytes', list', marked', previous, header);
        current := links'[header];
        marked' := marked' - {header};
        previous := Some(header);
        list' := list' + [header];
      } else {
        SweepFree(objects, bytes, list, marked, i, first', links', objects', bytes', list', marked', previous, header);
        current := links'[header];
        if previous.Some? {
          links' := links'[previous.value := current];
        } else {
          first' := current;
        }
        bytes' := bytes' - SizeOf(objects'[header]);
        objects' := objects' - {header};
        links' := links' - {header};
      }
      i := i + 1;
    }
    SweepDone(objects, bytes, list, marked, i, first', links', objects', bytes', list', marked', previous);
  }

  class Gc {
    var objects: map<Ref, Obj>
    var links: map<Ref, Option<Ref>>
    var first: Option<Ref>
    var marked: set<Ref>
    var greyStack: seq<Ref>
    var symbols: map<string, Ref>
    var nextGc: nat
    var bytesAllocated: nat
    var nextRef: nat
    ghost var list: seq<Ref>

    ghost function Abs(): HeapState
      reads this`objects, this`list, this`nextRef, this`symbols, this`bytesAllocated, this`nextGc
    {
      HeapState(objects, list, nextRef, symbols, bytesAllocated, nextGc)
    }

    /** The heap list and its links agree with the arena. */
    ghost predicate HeapValid()
      reads this`objects, this`list, this`nextRef, this`symbols, this`bytesAllocated, this`nextGc
      reads this`links, this`first
    {
      HeapOk(Abs()) && LinksValid()
    }

    /** Every object has a header link, and the links from `first` spell
        out the heap list. */
    ghost predicate LinksValid()
      reads this`objects, this`links, this`first, this`list
    {
      links.Keys == objects.Keys && Chain(first, links, list)
    }

    /** What marking and tracing rely on: objects only point to older
        slots, mark bits are set only on headers of live objects, and grey
        entries are slots already handed out. */
    ghost predicate TraceValid()
      reads this`marked, this`greyStack, this`objects, this`nextRef
    {
      && PointsDown(objects)
      && marked <= objects.Keys
      && (forall i :: 0 <= i < |greyStack| ==> greyStack[i] < nextRef)
    }

    ghost predicate Valid()
      reads this
    {
      HeapValid() && TraceValid()
    }

    /** Between collections: no mark bit set and nothing grey. */
    ghost predicate Quiescent()
      reads this
    {
      marked == {} && greyStack == []
    }

    /** `Gc::new` */
    constructor ()
      ensures Valid() && Quiescent()
      ensures Abs() == EmptyHeap()
    {
      objects, links, first, marked, greyStack := map[], map[], None, {}, [];
      symbols, nextGc, bytesAllocated, nextRef := map[], 1024 * 1024, 0, 0;
      list := [];
    }

    /** `alloc`: the new object's header is unmarked and becomes the head of
        the heap list, linked to the old head. */
    method Alloc(o: Obj) returns (r: Ref)
      requires Valid() && ObjBelow(o, nextRef)
      modifies this`objects, this`links, this`first, this`nextRef, this`bytesAllocated, this`list
      ensures Valid()
      ensures r == old(nextRef) && r !in old(objects) && r !in marked
      ensures Abs() == Allocate(old(Abs()), o)
    {
      ghost var h := Abs();
      AllocateOk(h, o);
      ChainCons(first, links, list, nextRef);
      r := nextRef;
      PushHeader(o);
      assert Abs() == Allocate(h, o);
    }

    /** The body of `alloc`: the object takes the next slot, its fresh
        header takes the old `first` as its `next`, and becomes `first`. */
    method PushHeader(o: Obj)
      modifies this`objects, this`links, this`first, this`nextRef, this`bytesAllocated, this`list
      ensures objects == old(objects)[old(nextRef) := o]
      ensures links == old(links)[old(nextRef) := old(first)]
      ensures first == Some(old(nextRef))
      ensures nextRef == old(nextRef) + 1
      ensures bytesAllocated == old(bytesAllocated) + SizeOf(o)
      ensures list == [old(nextRef)] + old(list)
      ensures marked == old(marked) && greyStack == old(greyStack) && symbols == old(symbols) && nextGc == old(nextGc)
    {
      var r := nextRef;
      var header := NewHeader(KindOf(o)).(next := first);
      objects, links, first := objects[r := o], links[r := header.next], Some(r);
      nextRef, bytesAllocated := nextRef + 1, bytesAllocated + SizeOf(o);
      list := [r] + list;
    }

    /** `intern`: the symbol already registered under `name`, or a fresh one
        that is registered. */
    method Intern(name: string) returns (r: Ref)
      requires Valid()
      modifies this`objects, this`links, this`first, this`nextRef, this`bytesAllocated, this`list, this`symbols
      ensures Valid()
      ensures Abs() == Interned(old(Abs()), name).0
      ensures r == Interned(old(Abs()), name).1
    {
      ghost var h := Abs();
      InternedOk(h, name);
      if name in symbols {
        r := symbols[name];
      } else {
        r := Alloc(SymbolObj(name));
        Register(name, r);
        assert Abs() == Interned(h, name).0;
      }
    }

    /** `self.symbols.insert(s, symbol)`: registering a symbol object
        under its own name keeps the collector valid. */
    method Register(name: string, r: Ref)
      requires Valid() && r in objects && objects[r] == SymbolObj(name)
      modifies this`symbols
      ensures Valid()
      ensures symbols == old(symbols)[name := r]
      ensures objects == old(objects) && list == old(list) && nextRef == old(nextRef)
      ensures bytesAllocated == old(bytesAllocated) && nextGc == old(nextGc)
    {
      symbols := symbols[name := r];
    }

    /** `mark_object`: set the mark bit of the header and push it grey. */
    method MarkObject(r: Ref)
      requires TraceValid() && r < nextRef
      modifies this`marked, this`greyStack
      ensures TraceValid()
      ensures greyStack == old(greyStack) + [r]
      ensures marked == old(marked) + ({r} * objects.Keys)
    {
      if r in objects {
        marked := marked + {r};
      }
      greyStack := greyStack + [r];
    }

    /** `mark_value`: mark the object a pair, symbol or closure value refers
        to; immediates and native procedures are not marked. */
    method MarkValue(v: Value)
      requires TraceValid() && ValueBelow(v, nextRef)
      modifies this`marked, this`greyStack
      ensures TraceValid()
      ensures greyStack == old(greyStack) + MarkSeq(v)
      ensures marked == old(marked) + (Elems(MarkSeq(v)) * objects.Keys)
    {
      match v
      case Number(_) =>
      case StackPointer(_) =>
      case False =>
      case Undef =>
      case True =>
      case ProcedureRef(_) =>
      case ClosureRef(c) => MarkObject(c);
      case SymbolRef(s) => MarkObject(s);
      case PairRef(p) => MarkObject(p);
    }

    /** `trace_pointer`: blacken one grey header.  Only a pair's fields are
        marked and traced; a closure's contents are left alone. */
    method TracePointer(r: Ref)
      requires TraceValid() && r < nextRef
      modifies this`marked, this`greyStack
      ensures TraceValid()
      ensures greyStack == old(greyStack) + Pushes(objects, r)
      ensures marked == old(marked) + (Elems(Pushes(objects, r)) * objects.Keys)
      decreases 2 * r + 1, 0
    {
      if r in objects {
        match KindOf(objects[r])
        case SymbolType =>
        case ProcedureType =>
        case ClosureType =>
        case PairType =>
          var pair := objects[r];
          ghost var g0, m0 := greyStack, marked;
          ghost var s1, s2 := MarkSeq(pair.first), MarkSeq(pair.second);
          ghost var s3, s4 := PushesOfValue(objects, pair.first), PushesOfValue(objects, pair.second);
          MarkValue(pair.first);
          MarkValue(pair.second);
          TraceValue(pair.first);
          TraceValue(pair.second);
          assert Pushes(objects, r) == s1 + s2 + s3 + s4;
          AppendFour(g0, s1, s2, s3, s4);
          ElemsFour(s1, s2, s3, s4);
          MarkFour(m0, objects.Keys, Elems(s1), Elems(s2), Elems(s3), Elems(s4));
      }
    }

    /** `trace_value`: trace what a value refers to without marking it.  A
        closure's free variables and its display are traced in place. */
    method TraceValue(v: Value)
      requires TraceValid() && ValueBelow(v, nextRef)
      modifies this`marked, this`greyStack
      ensures TraceValid()
      ensures greyStack == old(greyStack) + PushesOfValue(objects, v)
      ensures marked == old(marked) + (Elems(PushesOfValue(objects, v)) * objects.Keys)
      decreases Rank(v), 0
    {
      match v
      case Number(_) =>
      case False =>
      case Undef =>
      case True =>
      case ProcedureRef(_) =>
      case StackPointer(_) =>
      case ClosureRef(c) =>
        if c in objects && objects[c].ClosureObj? {
          var closure := objects[c];
          TraceFreeVars(c);
          ghost var fvPushes := PushesOfSeq(objects, closure.freeVars, c);
          TraceValue(closure.prev);
          ghost var prevPushes := PushesOfValue(objects, closure.prev);
          assert PushesOfValue(objects, v) == fvPushes + prevPushes;
          AppendTwo(old(greyStack), fvPushes, prevPushes);
          ElemsAppend(fvPushes, prevPushes);
          MarkTwo(old(marked), objects.Keys, Elems(fvPushes), Elems(prevPushes));
        }
      case SymbolRef(s) => TracePointer(s);
      case PairRef(p) => TracePointer(p);
    }

    /** The `for var in &closure.free_vars` loop of `trace_value`. */
    method TraceFreeVars(c: Ref)
      requires TraceValid() && c < nextRef && c in objects && objects[c].ClosureObj?
      modifies this`marked, this`greyStack
      ensures TraceValid()
      ensures greyStack == old(greyStack) + PushesOfSeq(objects, objects[c].freeVars, c)
      ensures marked == old(marked) + (Elems(PushesOfSeq(objects, objects[c].freeVars, c)) * objects.Keys)
      decreases 2 * c + 1, 1
    {
      var fvs := objects[c].freeVars;
      var i := 0;
      while i < |fvs|
        invariant 0 <= i <= |fvs|
        invariant TraceValid()
        invariant greyStack == old(greyStack) + PushesOfSeq(objects, fvs[..i], c)
        invariant marked == old(marked) + (Elems(PushesOfSeq(objects, fvs[..i], c)) * objects.Keys)
      {
        var fv := fvs[i];
        ghost var done := PushesOfSeq(objects, fvs[..i], c);
        TakeOneMore(fvs, i);
        PushesOfSeqAppend(objects, fvs[..i], fv, c);
        TraceValue(fv);
        AppendTwo(old(greyStack), done, PushesOfValue(objects, fv));
        ElemsAppend(done, PushesOfValue(objects, fv));
        MarkTwo(old(marked), objects.Keys, Elems(done), Elems(PushesOfValue(objects, fv)));
        i := i + 1;
      }
      assert fvs[..i] == fvs;
    }

    /** `trace_references`: pop and blacken grey headers until none is left.
        Every header traced from the grey stack ends up marked. */
    method TraceReferences()
      requires TraceValid()
      requires Elems(greyStack) * objects.Keys <= marked
      modifies this`marked, this`greyStack
      ensures TraceValid() && greyStack == []
      ensures marked == old(marked) + (Reached(objects, Elems(old(greyStack))) * objects.Keys)
    {
      while |greyStack| > 0
        invariant TraceValid()
        invariant Elems(greyStack) * objects.Keys <= marked
        invariant marked + (Reached(objects, Elems(greyStack)) * objects.Keys)
          == old(marked) + (Reached(objects, Elems(old(greyStack))) * objects.Keys)
        decreases WorkSum(objects, greyStack, nextRef)
      {
        BlackenTop();
      }
      assert Reached(objects, Elems(greyStack)) == {};
    }

    /** One iteration of `trace_references`: pop the top grey header and
        blacken it.  The headers that will end up marked stay the same, and
        the remaining work drops. */
    method BlackenTop()
      requires TraceValid() && greyStack != []
      requires Elems(greyStack) * objects.Keys <= marked
      modifies this`marked, this`greyStack
      ensures TraceValid()
      ensures Elems(greyStack) * objects.Keys <= marked
      ensures marked + (Reached(objects, Elems(greyStack)) * objects.Keys)
        == old(marked) + (Reached(objects, Elems(old(greyStack))) * objects.Keys)
      ensures WorkSum(objects, greyStack, nextRef) < WorkSum(objects, old(greyStack), nextRef)
    {
      ghost var g, m := greyStack, marked;
      WorkStep(objects, g, nextRef);
      TraceStep(objects, g, m);
      GreyStep(g, Pushes(objects, g[|g| - 1]), m, objects.Keys);
      var r := greyStack[|greyStack| - 1];
      greyStack := greyStack[..|greyStack| - 1];
      TracePointer(r);
    }

    /** `collect_garbage`: trace from the grey stack, sweep, and set the
        next threshold to twice the bytes still allocated.  The objects kept
        are those marked before, and those reached from the grey headers. */
    method CollectGarbage()
      requires Valid() && Elems(greyStack) * objects.Keys <= marked
      modifies this`marked, this`greyStack, this`objects, this`links, this`first, this`bytesAllocated, this`list
      modifies this`nextGc
      ensures Valid() && Quiescent()
      ensures Abs() == Collected(old(Abs()), old(marked) + Reached(old(objects), Elems(old(greyStack))) * old(objects).Keys)
    {
      ghost var h, m0, g0 := Abs(), marked, greyStack;
      TraceReferences();
      assert h == Abs() && marked == m0 + Reached(h.objects, Elems(g0)) * h.objects.Keys;
      SweepAndReset();
    }

    /** The last two steps of `collect_garbage`: sweep, then set the
        threshold to twice the bytes still allocated. */
    method SweepAndReset()
      requires Valid() && greyStack == []
      modifies this`marked, this`objects, this`links, this`first, this`bytesAllocated, this`list, this`nextGc
      ensures Valid() && Quiescent()
      ensures Abs() == Collected(old(Abs()), old(marked))
    {
      ghost var h, m := Abs(), marked;
      Sweep();
      SetThreshold(bytesAllocated * 2);
      assert Abs() == Collected(h, m);
    }

    /** `self.next_gc = ...`: the threshold takes no part in the
        invariant. */
    method SetThreshold(n: nat)
      requires Valid()
      modifies this`nextGc
      ensures Valid()
      ensures Abs() == old(Abs()).(nextGc := n)
      ensures marked == old(marked) && greyStack == old(greyStack)
    {
      ThresholdOk(Abs(), n);
      nextGc := n;
    }

    /** `sweep`: keep exactly the marked objects, clearing their marks, and
        free the rest. */
    method Sweep()
      requires Valid()
      modifies this`objects, this`links, this`first, this`marked, this`bytesAllocated, this`list
      ensures Valid() && marked == {}
      ensures Abs() == Swept(old(Abs()), old(marked))
    {
      ghost var h, m := Abs(), marked;
      SweptOk(h, m);
      FreedWithinListBytes(objects, list, marked);
      SweepHeaders();
      assert Abs() == Swept(h, m);
    }

    /** The body of `sweep`: run the loop over the headers and store its
        results. */
    method SweepHeaders()
      requires Distinct(list) && (forall r :: r in objects <==> r in list)
      requires links.Keys == objects.Keys && Chain(first, links, list)
      requires marked <= objects.Keys
      requires FreedBytes(objects, list, marked) <= bytesAllocated
      modifies this`objects, this`links, this`first, this`marked, this`bytesAllocated, this`list
      ensures objects == Kept(old(objects), old(marked))
      ensures list == Filter(old(list), old(marked))
      ensures bytesAllocated == old(bytesAllocated) - FreedBytes(old(objects), old(list), old(marked))
      ensures marked == {}
      ensures links.Keys == objects.Keys && Chain(first, links, list)
      ensures greyStack == old(greyStack) && nextRef == old(nextRef) && symbols == old(symbols) && nextGc == old(nextGc)
    {
      var first', links', objects', marked', bytes';
      ghost var list';
      first', links', objects', marked', bytes', list' := SweepLinks(first, links, objects, marked, bytesAllocated, list);
      first, links, objects, marked, bytesAllocated, list := first', links', objects', marked', bytes', list';
    }
  }
}
