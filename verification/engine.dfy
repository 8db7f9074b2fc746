/** The elimination loop of the Visvalingam–Whyatt engine: it queues every
    interior vertex whose initial triangle is not nearly zero, then repeatedly
    pops the node of least area, relinks its live neighbours, recomputes their
    areas, restores heap order for them and records the running maximum of the
    popped areas as the popped vertex's effective area.

    The nodes live in an arena indexed by vertex: `live[v]` says whether vertex v
    has a node (queued and not yet popped), and `prev`, `next` and `area` hold
    that node's fields. The heap's handles are vertex indices and its keys are
    read from `area`. */
module Engine {
  import opened Optional
  import opened Geometry
  import opened Elimination
  import opened IndexedHeap

  /** A node's fields agree with the reference state after `removed` was
      eliminated. */
  ghost predicate NodeOk(line: Linestring, removed: set<nat>, v: nat, prevV: nat, nextV: nat, areaV: real)
    requires |line| > 0
  {
    && prevV == PrevKept(removed, v)
    && nextV == NextKept(removed, v, |line| - 1)
    && areaV == Key(line, removed, v)
  }

  /** The arena agrees with the reference state after the vertices in
      `removed` were eliminated: a vertex has a live node exactly when it was
      queued and not eliminated, and a live node's neighbours and area are the
      reference ones. */
  ghost predicate Linked(line: Linestring, removed: set<nat>, live: seq<bool>,
                         prev: seq<nat>, next: seq<nat>, area: seq<real>)
  {
    && |live| == |line| && |prev| == |line| && |next| == |line| && |area| == |line|
    && (forall x :: x in removed ==> Inserted(line, x))
    && (forall v :: 0 <= v < |line| ==> (live[v] <==> Inserted(line, v) && v !in removed))
    && (forall v :: 0 <= v < |line| && live[v] ==> NodeOk(line, removed, v, prev[v], next[v], area[v]))
  }

  /** The chain seen from a live node: its neighbours lie on either side of
      it, every vertex strictly between it and a neighbour was queued and has
      been eliminated, and its area is the triangle it forms with them. */
  lemma LinkedChain(line: Linestring, removed: set<nat>, live: seq<bool>,
                    prev: seq<nat>, next: seq<nat>, area: seq<real>, v: nat)
    requires Linked(line, removed, live, prev, next, area) && v < |line| && live[v]
    ensures prev[v] < v < next[v] < |line|
    ensures forall j :: prev[v] < j < v || v < j < next[v] ==> Inserted(line, j) && j in removed
    ensures area[v] == EffectiveArea(line[v], line[prev[v]], line[next[v]])
  {
    assert NodeOk(line, removed, v, prev[v], next[v], area[v]);
  }

  /** How eliminating c changes one other remaining node: c's predecessor
      takes c's successor as its next and recomputes its area, c's successor
      takes c's predecessor as its prev and recomputes its area, and any other
      node is unchanged. */
  lemma NodeAfterUnlink(line: Linestring, removed: set<nat>, c: nat, v: nat,
                        prevV: nat, nextV: nat, areaV: real)
    requires 0 < c < |line| - 1 && c !in removed && 0 !in removed && |line| - 1 !in removed
    requires v < |line| && v !in removed && v != c
    requires NodeOk(line, removed, v, prevV, nextV, areaV)
    ensures var p, n := PrevKept(removed, c), NextKept(removed, c, |line| - 1);
      NodeOk(line, removed + {c}, v,
             if v == n then p else prevV,
             if v == p then n else nextV,
             if v == p then TriangleArea(line, p, prevV, n)
             else if v == n then TriangleArea(line, n, p, nextV)
             else areaV)
  {
    RemovalRelinksPrev(removed, |line| - 1, c, v);
    RemovalRelinksNext(removed, |line| - 1, c, v);
  }

  /** The arena after the node of c is dropped and its live neighbours are
      relinked: c's predecessor p takes c's successor n as its next vertex and
      recomputes its area, n takes p as its prev vertex and recomputes its
      area, and nothing else changes. */
  ghost predicate Unlinked(line: Linestring, c: nat, live: seq<bool>, prev: seq<nat>, next: seq<nat>,
                           area: seq<real>, live': seq<bool>, prev': seq<nat>, next': seq<nat>,
                           area': seq<real>)
  {
    && |live| == |line| && |prev| == |line| && |next| == |line| && |area| == |line|
    && c < |line| && prev[c] < |line| && next[c] < |line|
    && var p, n := prev[c], next[c];
       && (live[p] ==> prev[p] < |line|) && (live[n] ==> next[n] < |line|)
       && live' == live[c := false]
       && next' == (if live[p] then next[p := n] else next)
       && prev' == (if live[n] then prev[n := p] else prev)
       && var area1 := if live[p] then area[p := TriangleArea(line, p, prev[p], n)] else area;
          area' == if live[n] then area1[n := TriangleArea(line, n, p, next[n])] else area1
  }

  /** One elimination on the arena: popping c and relinking its live
      neighbours as the engine does yields the arena for `removed + {c}`. */
  lemma UnlinkStep(line: Linestring, removed: set<nat>, live: seq<bool>, prev: seq<nat>, next: seq<nat>,
                   area: seq<real>, c: nat, live': seq<bool>, prev': seq<nat>, next': seq<nat>,
                   area': seq<real>)
    requires Linked(line, removed, live, prev, next, area) && c < |line| && live[c]
    requires Unlinked(line, c, live, prev, next, area, live', prev', next', area')
    ensures Linked(line, removed + {c}, live', prev', next', area')
  {
    var p, n := prev[c], next[c];
    assert NodeOk(line, removed, c, p, n, area[c]);
    var after := removed + {c};
    assert 0 !in removed && |line| - 1 !in removed;
    forall v | 0 <= v < |line| && live'[v]
      ensures NodeOk(line, after, v, prev'[v], next'[v], area'[v])
    {
      assert NodeOk(line, removed, v, prev[v], next[v], area[v]);
      NodeAfterUnlink(line, removed, c, v, prev[v], next[v], area[v]);
    }
    assert forall x :: x in after ==> Inserted(line, x);
    assert forall v :: 0 <= v < |line| ==> (live'[v] <==> Inserted(line, v) && v !in after);
  }

  /** A vertex the heap pops is a least-key step of the reference
      elimination. */
  lemma PoppedIsMinStep(line: Linestring, removed: set<nat>, live: seq<bool>, prev: seq<nat>,
                        next: seq<nat>, area: seq<real>, queued: multiset<nat>, c: nat)
    requires Linked(line, removed, live, prev, next, area)
    requires forall v: nat :: v in queued <==> v < |line| && live[v]
    requires c in queued && forall x :: x in queued ==> area[c] <= area[x]
    ensures IsMinStep(line, removed, c)
  {
    assert NodeOk(line, removed, c, prev[c], next[c], area[c]);
    forall v: nat | Inserted(line, v) && v !in removed
      ensures Key(line, removed, c) <= Key(line, removed, v)
    {
      assert v in queued;
      assert NodeOk(line, removed, v, prev[v], next[v], area[v]);
    }
  }

  /** The recorded effective areas after the pops in `order`: each popped
      vertex holds the running maximum of the popped keys at its step, every
      other vertex still holds 0, and `minArea` is the latest running maximum
      (None before the first pop). */
  ghost predicate Recorded(line: Linestring, order: seq<nat>, minArea: Option<real>, effective: seq<real>)
  {
    && |effective| == |line|
    && minArea == (if |order| == 0 then None else Some(RunningMax(PopKeys(line, order))[|order| - 1]))
    && (forall j :: 0 <= j < |order| ==> order[j] < |line| && effective[order[j]] == RunningMax(PopKeys(line, order))[j])
    && (forall v :: 0 <= v < |line| && v !in order ==> effective[v] == 0.0)
  }

  /** Recording one more pop of key `key` keeps the table right. */
  lemma RecordStep(line: Linestring, order: seq<nat>, minArea: Option<real>, effective: seq<real>, c: nat)
    requires Recorded(line, order, minArea, effective) && c < |line| && c !in order
    ensures var key := Key(line, Elements(order), c);
      var m := if minArea.None? then key else Max(minArea.value, key);
      Recorded(line, order + [c], Some(m), effective[c := m])
  {
    var key := Key(line, Elements(order), c);
    var o := order + [c];
    assert o[..|order|] == order;
    assert PopKeys(line, o) == PopKeys(line, order) + [key];
    var r := RunningMax(PopKeys(line, order));
    assert RunningMax(PopKeys(line, o)) == r + [if |r| == 0 then key else Max(r[|r| - 1], key)];
  }

  /** The popped vertex's live predecessor p takes n as its next vertex, and
      its area is recomputed and its heap position restored. */
  method UpdatePrevNode(input: Linestring, prev: array<nat>, next: array<nat>, area: array<real>,
                        heap: Heap, p: nat, n: nat)
    requires p < |input| && n < |input| && prev.Length == |input| && next.Length == |input|
    requires prev[p] < |input|
    requires heap.keys == area && heap.Valid() && heap.Ordered() && p in heap.contents
    requires heap.data != prev && heap.data != next && prev != next
    modifies next, area, heap`index, heap.data
    ensures next[..] == old(next[..])[p := n]
    ensures area[..] == old(area[..])[p := TriangleArea(input, p, old(prev[p]), n)]
    ensures heap.Valid() && heap.Ordered() && heap.index.Keys == old(heap.index.Keys)
  {
    ghost var before := area[..];
    next[p] := n;
    area[p] := TriangleArea(input, p, prev[p], n);
    heap.Reheap(p, before);
  }

  /** The popped vertex's live successor n takes p as its prev vertex, and
      its area is recomputed and its heap position restored. */
  method UpdateNextNode(input: Linestring, prev: array<nat>, next: array<nat>, area: array<real>,
                        heap: Heap, p: nat, n: nat)
    requires p < |input| && n < |input| && prev.Length == |input| && next.Length == |input|
    requires next[n] < |input|
    requires heap.keys == area && heap.Valid() && heap.Ordered() && n in heap.contents
    requires heap.data != prev && heap.data != next && prev != next
    modifies prev, area, heap`index, heap.data
    ensures prev[..] == old(prev[..])[n := p]
    ensures area[..] == old(area[..])[n := TriangleArea(input, n, p, old(next[n]))]
    ensures heap.Valid() && heap.Ordered() && heap.index.Keys == old(heap.index.Keys)
  {
    ghost var before := area[..];
    prev[n] := p;
    area[n] := TriangleArea(input, n, p, next[n]);
    heap.Reheap(n, before);
  }

  /** The shape of the arena the loop body relies on: a live node's
      neighbours lie on either side of it inside the line, and the heap holds
      exactly the live nodes. */
  ghost predicate Chained(line: Linestring, live: seq<bool>, prev: seq<nat>, next: seq<nat>,
                          queued: multiset<nat>)
  {
    && |live| == |line| && |prev| == |line| && |next| == |line|
    && (forall v :: 0 <= v < |line| && live[v] ==> prev[v] < v < next[v] < |line|)
    && (forall v: nat :: v in queued <==> v < |line| && live[v])
  }

  /** An engine state that agrees with the reference elimination has that
      shape. */
  lemma AgreesChained(line: Linestring, order: seq<nat>, minArea: Option<real>, live: seq<bool>,
                      prev: seq<nat>, next: seq<nat>, area: seq<real>, effective: seq<real>,
                      queued: multiset<nat>)
    requires Agrees(line, order, minArea, live, prev, next, area, effective, queued)
    ensures Chained(line, live, prev, next, queued)
  {
    forall v | 0 <= v < |line| && live[v]
      ensures prev[v] < v < next[v] < |line|
    {
      LinkedChain(line, Elements(order), live, prev, next, area, v);
    }
  }

  /** Relinks the live neighbours of the popped vertex c: its predecessor p
      takes c's successor n as its next vertex, n takes p as its prev vertex,
      and each of them that has a live node gets its area recomputed and its
      heap position restored. */
  method Relink(input: Linestring, live: array<bool>, prev: array<nat>, next: array<nat>,
                area: array<real>, heap: Heap, c: nat)
    requires live.Length == |input| && prev.Length == |input| && next.Length == |input| && area.Length == |input|
    requires c < |input| && prev[c] < c < next[c] < |input|
    requires live[prev[c]] ==> prev[prev[c]] < |input| && prev[c] in heap.contents
    requires live[next[c]] ==> next[next[c]] < |input| && next[c] in heap.contents
    requires heap.keys == area && heap.Valid() && heap.Ordered()
    requires heap.data != prev && heap.data != next && prev != next
    modifies live, prev, next, area, heap`index, heap.data
    ensures Unlinked(input, c, old(live[..]), old(prev[..]), old(next[..]), old(area[..]),
                     live[..], prev[..], next[..], area[..])
    ensures heap.Valid() && heap.Ordered() && heap.index.Keys == old(heap.index.Keys)
  {
    var p := prev[c];
    var n := next[c];
    if live[p] {
      UpdatePrevNode(input, prev, next, area, heap, p, n);
    }
    if live[n] {
      UpdateNextNode(input, prev, next, area, heap, p, n);
    }
    live[c] := false;
  }

  /** The whole engine state agrees with the reference elimination after
      the pops in `order`: the arena is linked for those removals, the heap
      holds exactly the live nodes, the pops were least-key steps and the
      effective areas recorded so far are the running maxima. */
  ghost predicate Agrees(line: Linestring, order: seq<nat>, minArea: Option<real>, live: seq<bool>,
                         prev: seq<nat>, next: seq<nat>, area: seq<real>, effective: seq<real>,
                         queued: multiset<nat>)
  {
    && Linked(line, Elements(order), live, prev, next, area)
    && (forall v: nat :: v in queued <==> v < |line| && live[v])
    && IsPopOrder(line, order)
    && Recorded(line, order, minArea, effective)
  }

  /** Once nothing is live, the recorded areas are the elimination result. */
  lemma DrainedIsResult(line: Linestring, order: seq<nat>, minArea: Option<real>, live: seq<bool>,
                        prev: seq<nat>, next: seq<nat>, area: seq<real>, effective: seq<real>)
    requires Agrees(line, order, minArea, live, prev, next, area, effective, multiset{})
    ensures IsEliminationResult(line, order, effective)
  {
    forall v | Inserted(line, v)
      ensures v in order
    {
      assert v !in multiset{};
    }
  }

  /** The arena after the seeding loop has looked at the vertices below i:
      exactly the queued ones among them have a node, linked to the original
      neighbours and holding the original triangle, and the heap holds them. */
  ghost predicate Seeded(line: Linestring, i: nat, live: seq<bool>, prev: seq<nat>, next: seq<nat>,
                         area: seq<real>, queued: multiset<nat>)
  {
    && |live| == |line| && |prev| == |line| && |next| == |line| && |area| == |line|
    && (forall v :: 0 <= v < |line| ==> (live[v] <==> v < i && Inserted(line, v)))
    && (forall v: nat :: v in queued <==> v < |line| && live[v])
    && (forall v :: 0 < v < |line| - 1 && live[v] ==>
          prev[v] == v - 1 && next[v] == v + 1 && area[v] == TriangleArea(line, v, v - 1, v + 1))
  }

  /** One turn of the seeding loop keeps the arena seeded. */
  lemma SeedStep(line: Linestring, i: nat, live: seq<bool>, prev: seq<nat>, next: seq<nat>,
                 area: seq<real>, queued: multiset<nat>)
    requires 0 < i < |line| - 1 && Seeded(line, i, live, prev, next, area, queued)
    ensures Inserted(line, i) ==>
      Seeded(line, i + 1, live[i := true], prev[i := i - 1], next[i := i + 1],
             area[i := TriangleArea(line, i, i - 1, i + 1)], queued + multiset{i})
    ensures !Inserted(line, i) ==> Seeded(line, i + 1, live, prev, next, area, queued)
  {
  }

  /** When the seeding loop ends, the engine agrees with the reference
      elimination before any pop. */
  lemma SeedAgrees(line: Linestring, i: nat, live: seq<bool>, prev: seq<nat>, next: seq<nat>,
                   area: seq<real>, queued: multiset<nat>)
    requires |line| > 0 && i >= |line| - 1 && Seeded(line, i, live, prev, next, area, queued)
    ensures Agrees(line, [], None, live, prev, next, area, seq(|line|, _ => 0.0), queued)
  {
    forall v | 0 <= v < |line| && live[v]
      ensures NodeOk(line, {}, v, prev[v], next[v], area[v])
    {
      PrevKeptUnique({}, v, v - 1);
      NextKeptUnique({}, v, |line| - 1, v + 1);
    }
    assert Elements([]) == {};
  }

  /** The body of the seeding loop: queues vertex i when its triangle is
      not nearly zero. */
  method SeedVertex(input: Linestring, live: array<bool>, prev: array<nat>, next: array<nat>,
                    area: array<real>, heap: Heap, i: nat)
    requires 0 < i < |input| - 1
    requires heap.keys == area && heap.capacity == |input| && heap.Valid() && heap.Ordered()
    requires heap.data != prev && heap.data != next && prev != next
    requires heap.size < i
    requires Seeded(input, i, live[..], prev[..], next[..], area[..], heap.contents)
    modifies live, prev, next, area, heap, heap.data
    ensures heap.Valid() && heap.Ordered() && heap.size <= old(heap.size) + 1
    ensures Seeded(input, i + 1, live[..], prev[..], next[..], area[..], heap.contents)
  {
    SeedStep(input, i, live[..], prev[..], next[..], area[..], heap.contents);
    var a := TriangleArea(input, i, i - 1, i + 1);
    if a > NearlyZero {
      assert Inserted(input, i);
      ghost var live0, prev0, next0, area0 := live[..], prev[..], next[..], area[..];
      live[i] := true;
      prev[i] := i - 1;
      next[i] := i + 1;
      area[i] := a;
      ghost var below: nat, above: nat := i - 1, i + 1;
      assert live[..] == live0[i := true] && prev[..] == prev0[i := below];
      assert next[..] == next0[i := above] && area[..] == area0[i := a];
      OrderIgnoresOthers(area0, area[..], heap.data[..heap.size]);
      heap.Insert(i);
    } else {
      assert !Inserted(input, i);
    }
  }

  /** The seeding loop: a node for every interior vertex whose triangle is not
      nearly zero, linked to its original neighbours and queued in a fresh
      heap keyed by the area table. */
  method Seed(input: Linestring) returns (live: array<bool>, prev: array<nat>, next: array<nat>,
                                          area: array<real>, heap: Heap)
    requires |input| > 0
    ensures fresh(live) && fresh(prev) && fresh(next) && fresh(area) && fresh(heap) && fresh(heap.data)
    ensures heap.data != prev && heap.data != next && prev != next
    ensures heap.keys == area && heap.Valid() && heap.Ordered()
    ensures Agrees(input, [], None, live[..], prev[..], next[..], area[..], seq(|input|, _ => 0.0), heap.contents)
  {
    var size := |input|;
    live := new bool[size](_ => false);
    prev := new nat[size](_ => 0);
    next := new nat[size](_ => 0);
    area := new real[size](_ => 0.0);
    heap := new Heap(size, area);
    var i := 1;
    while i < size - 1
      invariant 1 <= i && (i <= size - 1 || i == 1)
      invariant heap.keys == area && heap.capacity == size && heap.Valid() && heap.Ordered()
      invariant fresh(heap) && fresh(heap.data)
      invariant heap.data != prev && heap.data != next && prev != next
      invariant heap.size < i
      invariant Seeded(input, i, live[..], prev[..], next[..], area[..], heap.contents)
    {
      SeedVertex(input, live, prev, next, area, heap, i);
      i := i + 1;
    }
    SeedAgrees(input, i, live[..], prev[..], next[..], area[..], heap.contents);
  }

  lemma AgreesIntro(line: Linestring, order: seq<nat>, minArea: Option<real>, live: seq<bool>,
                    prev: seq<nat>, next: seq<nat>, area: seq<real>, effective: seq<real>,
                    queued: multiset<nat>)
    requires Linked(line, Elements(order), live, prev, next, area)
    requires forall v: nat :: v in queued <==> v < |line| && live[v]
    requires IsPopOrder(line, order)
    requires Recorded(line, order, minArea, effective)
    ensures Agrees(line, order, minArea, live, prev, next, area, effective, queued)
  {
  }

  /** The heap holds exactly the live nodes before a pop of c, so it does
      after the pop once c's node is gone. */
  lemma QueuedAfterPop(line: Linestring, live: seq<bool>, queued: multiset<nat>,
                       queued': multiset<nat>, c: nat)
    requires |live| == |line| && c < |line|
    requires forall v: nat :: v in queued <==> v < |line| && live[v]
    requires forall v: nat :: v in queued' <==> v in queued && v != c
    ensures forall v: nat :: v in queued' <==> v < |line| && live[c := false][v]
  {
  }

  /** The three parts of one pop: popping a least live node c is a least-key
      step of the reference elimination, recording the running maximum keeps
      the table of effective areas right, and relinking c's neighbours as the
      engine does yields the arena with c removed. */
  lemma PopAdvances(line: Linestring, order: seq<nat>, minArea: Option<real>, live: seq<bool>,
                    prev: seq<nat>, next: seq<nat>, area: seq<real>, effective: seq<real>,
                    queued: multiset<nat>, c: nat, minArea': Option<real>, live': seq<bool>,
                    prev': seq<nat>, next': seq<nat>, area': seq<real>)
    requires Agrees(line, order, minArea, live, prev, next, area, effective, queued)
    requires c in queued && forall x :: x in queued ==> area[c] <= area[x]
    requires minArea' == Some(if minArea.None? then area[c] else Max(minArea.value, area[c]))
    requires Unlinked(line, c, live, prev, next, area, live', prev', next', area')
    ensures IsPopOrder(line, order + [c])
    ensures Recorded(line, order + [c], minArea', effective[c := minArea'.value])
    ensures Linked(line, Elements(order) + {c}, live', prev', next', area')
  {
    var removed := Elements(order);
    var m := minArea'.value;
    assert live[c] && NodeOk(line, removed, c, prev[c], next[c], area[c]);
    assert IsPopOrder(line, order + [c]) by {
      PoppedIsMinStep(line, removed, live, prev, next, area, queued, c);
      PopOrderExtend(line, order, c);
    }
    assert Recorded(line, order + [c], Some(m), effective[c := m]) by {
      RecordStep(line, order, minArea, effective, c);
    }
    assert Linked(line, removed + {c}, live', prev', next', area') by {
      UnlinkStep(line, removed, live, prev, next, area, c, live', prev', next', area');
    }
  }

  /** One pop on the whole engine state: popping a least live node c,
      recording the running maximum and relinking c's neighbours as the engine
      does keeps the engine in agreement with the reference elimination, now
      one step further along it. */
  lemma PopAgrees(line: Linestring, order: seq<nat>, minArea: Option<real>, live: seq<bool>,
                  prev: seq<nat>, next: seq<nat>, area: seq<real>, effective: seq<real>,
                  queued: multiset<nat>, c: nat, minArea': Option<real>, live': seq<bool>,
                  prev': seq<nat>, next': seq<nat>, area': seq<real>, queued': multiset<nat>)
    requires Agrees(line, order, minArea, live, prev, next, area, effective, queued)
    requires c in queued && forall x :: x in queued ==> area[c] <= area[x]
    requires forall v: nat :: v in queued' <==> v in queued && v != c
    requires minArea' == Some(if minArea.None? then area[c] else Max(minArea.value, area[c]))
    requires Unlinked(line, c, live, prev, next, area, live', prev', next', area')
    ensures Agrees(line, order + [c], minArea', live', prev', next', area', effective[c := minArea'.value], queued')
  {
    PopAdvances(line, order, minArea, live, prev, next, area, effective, queued, c, minArea', live', prev', next', area');
    ElementsAppend(order, c);
    QueuedAfterPop(line, live, queued, queued', c);
    AgreesIntro(line, order + [c], minArea', live', prev', next', area', effective[c := minArea'.value], queued');
  }

  /** Pops a least node c and computes the running maximum of the popped
      areas. */
  method Retire(area: array<real>, heap: Heap, minArea: Option<real>) returns (c: nat, minArea': Option<real>)
    requires heap.keys == area && heap.Valid() && heap.Ordered() && heap.size > 0
    modifies heap, heap.data
    ensures heap.Valid() && heap.Ordered() && heap.size == old(heap.size) - 1
    ensures c < area.Length && c in old(heap.contents)
    ensures forall x :: x in old(heap.contents) ==> area[c] <= area[x]
    ensures forall v: nat :: v in heap.contents <==> v in old(heap.contents) && v != c
    ensures minArea' == Some(if minArea.None? then area[c] else Max(minArea.value, area[c]))
  {
    c := heap.Pop();
    minArea' := Some(if minArea.None? then area[c] else Max(minArea.value, area[c]));
  }

  /** One pass of the elimination loop: pops a least node c, records the
      running maximum of the popped areas as c's effective area, drops c's
      node and relinks its live neighbours. */
  method PopStep(input: Linestring, live: array<bool>, prev: array<nat>, next: array<nat>,
                 area: array<real>, effective: array<real>, heap: Heap, minArea: Option<real>)
    returns (c: nat, minArea': Option<real>)
    requires heap.data != prev && heap.data != next && prev != next && area != effective
    requires heap.keys == area && heap.Valid() && heap.Ordered() && heap.size > 0
    requires Chained(input, live[..], prev[..], next[..], heap.contents)
    requires area.Length == |input| && effective.Length == |input|
    modifies live, prev, next, area, effective, heap, heap.data
    ensures heap.Valid() && heap.Ordered() && heap.size == old(heap.size) - 1
    ensures c in old(heap.contents) && forall x :: x in old(heap.contents) ==> old(area[..])[c] <= old(area[..])[x]
    ensures forall v: nat :: v in heap.contents <==> v in old(heap.contents) && v != c
    ensures minArea' == Some(if minArea.None? then old(area[c]) else Max(minArea.value, old(area[c])))
    ensures effective[..] == old(effective[..])[c := minArea'.value]
    ensures Unlinked(input, c, old(live[..]), old(prev[..]), old(next[..]), old(area[..]),
                     live[..], prev[..], next[..], area[..])
  {
    ghost var live0, prev0, next0, area0, effective0 := live[..], prev[..], next[..], area[..], effective[..];
    c, minArea' := Retire(area, heap, minArea);
    assert live[..] == live0 && prev[..] == prev0 && next[..] == next0 && area[..] == area0;
    Relink(input, live, prev, next, area, heap, c);
    assert effective[..] == effective0;
    ghost var live1, prev1, next1, area1 := live[..], prev[..], next[..], area[..];
    effective[c] := minArea'.value;
    assert live[..] == live1 && prev[..] == prev1 && next[..] == next1 && area[..] == area1;
  }

  /** One pass of the elimination loop, followed on the reference side: the
      engine agrees with the reference elimination one pop further along. */
  method Eliminate(input: Linestring, live: array<bool>, prev: array<nat>, next: array<nat>,
                   area: array<real>, effective: array<real>, heap: Heap,
                   ghost order: seq<nat>, minArea: Option<real>) returns (c: nat, minArea': Option<real>)
    requires heap.data != prev && heap.data != next && prev != next && area != effective
    requires heap.keys == area && heap.Valid() && heap.Ordered() && heap.size > 0
    requires Agrees(input, order, minArea, live[..], prev[..], next[..], area[..], effective[..], heap.contents)
    requires Chained(input, live[..], prev[..], next[..], heap.contents)
    modifies live, prev, next, area, effective, heap, heap.data
    ensures heap.Valid() && heap.Ordered() && heap.size == old(heap.size) - 1
    ensures Agrees(input, order + [c], minArea', live[..], prev[..], next[..], area[..], effective[..], heap.contents)
    ensures Chained(input, live[..], prev[..], next[..], heap.contents)
  {
    ghost var queued := heap.contents;
    ghost var live0, prev0, next0, area0, effective0 := live[..], prev[..], next[..], area[..], effective[..];
    c, minArea' := PopStep(input, live, prev, next, area, effective, heap, minArea);
    PopAgrees(input, order, minArea, live0, prev0, next0, area0, effective0, queued, c, minArea',
              live[..], prev[..], next[..], area[..], heap.contents);
    AgreesChained(input, order + [c], minArea', live[..], prev[..], next[..], area[..], effective[..], heap.contents);
  }

  /** The elimination loop: pops nodes until the heap is empty, keeping
      the engine in agreement with the reference elimination; returns, as a
      ghost, the order of the pops. */
  method Drain(input: Linestring, live: array<bool>, prev: array<nat>, next: array<nat>,
               area: array<real>, effective: array<real>, heap: Heap) returns (ghost order: seq<nat>)
    requires heap.data != prev && heap.data != next && prev != next && area != effective
    requires heap.keys == area && heap.Valid() && heap.Ordered()
    requires Agrees(input, [], None, live[..], prev[..], next[..], area[..], effective[..], heap.contents)
    modifies live, prev, next, area, effective, heap, heap.data
    ensures IsEliminationResult(input, order, effective[..])
  {
    order := [];
    var minArea: Option<real> := None;
    AgreesChained(input, order, minArea, live[..], prev[..], next[..], area[..], effective[..], heap.contents);
    while !heap.IsEmpty()
      invariant heap.keys == area && heap.Valid() && heap.Ordered()
      invariant Agrees(input, order, minArea, live[..], prev[..], next[..], area[..], effective[..], heap.contents)
      invariant Chained(input, live[..], prev[..], next[..], heap.contents)
      decreases heap.size
    {
      var c;
      c, minArea := Eliminate(input, live, prev, next, area, effective, heap, order, minArea);
      order := order + [c];
    }
    DrainedIsResult(input, order, minArea, live[..], prev[..], next[..], area[..], effective[..]);
  }

  /** The constructor's computation: seeds the arena and the heap, then runs
      the elimination loop; returns the effective area of every vertex and,
      as a ghost, the order in which vertices were popped. */
  method ComputeEffectiveAreas(input: Linestring) returns (areas: seq<real>, ghost order: seq<nat>)
    requires |input| > 0
    ensures IsEliminationResult(input, order, areas)
  {
    var live, prev, next, area, heap := Seed(input);
    var effective := new real[|input|](_ => 0.0);
    assert effective[..] == seq(|input|, _ => 0.0);
    order := Drain(input, live, prev, next, area, effective, heap);
    areas := effective[..];
  }
}
