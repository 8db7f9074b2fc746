/** The heap's unit tests with their concrete values. The heap holds handles
    into a key table; the key of handle h is the value the test inserts as
    its h-th element, and the tests' values are distinct. */
module HeapExamples {
  import opened IndexedHeap

  /** c is a resident whose key is below the key of every other resident. */
  ghost predicate StrictLeast(k: seq<real>, m: multiset<nat>, c: nat)
  {
    c in m && c < |k| && forall x :: x in m && x != c ==> x < |k| && k[c] < k[x]
  }

  /** The keys strictly increase along `order`. */
  ghost predicate IncreasingAlong(k: seq<real>, order: seq<nat>)
  {
    && (forall a :: 0 <= a < |order| ==> order[a] < |k|)
    && (forall a, b :: 0 <= a < b < |order| ==> k[order[a]] < k[order[b]])
  }

  /** The handles of `hs` are pairwise distinct and index the key table. */
  ghost predicate DistinctHandles(hs: seq<nat>, bound: nat)
  {
    && (forall i :: 0 <= i < |hs| ==> hs[i] < bound)
    && (forall i, j :: 0 <= i < j < |hs| ==> hs[i] != hs[j])
  }

  /** Any resident of least key is the strict least one. */
  lemma LeastIs(k: seq<real>, m: multiset<nat>, e: nat, c: nat)
    requires e in m && e < |k| && StrictLeast(k, m, c)
    requires forall x :: x in m && x < |k| ==> k[e] <= k[x]
    ensures e == c
  {
  }

  /** When the keys strictly increase along `order`, the first of any suffix
      of it is its strict least resident. */
  lemma SuffixLeast(k: seq<real>, order: seq<nat>, i: nat)
    requires i < |order| && IncreasingAlong(k, order)
    ensures StrictLeast(k, multiset(order[i..]), order[i])
  {
    forall x | x in multiset(order[i..]) && x != order[i]
      ensures x < |k| && k[order[i]] < k[x]
    {
      assert x in order[i..];
      var j :| i <= j < |order| && order[j] == x;
    }
  }

  /** Inserts the handles one after the other into an empty heap, as the
      tests' insertions do: the residents are exactly those handles. */
  method InsertEach(heap: Heap, hs: seq<nat>)
    requires heap.Valid() && heap.Ordered() && heap.size == 0 && |hs| <= heap.capacity
    requires DistinctHandles(hs, heap.keys.Length)
    modifies heap, heap.data
    ensures heap.Valid() && heap.Ordered()
    ensures heap.contents == multiset(hs)
  {
    for i := 0 to |hs|
      invariant heap.Valid() && heap.Ordered()
      invariant heap.contents == multiset(hs[..i])
      invariant heap.size == i
    {
      InsertNext(heap, hs, i);
    }
    assert hs[..|hs|] == hs;
  }

  /** Inserts the next handle of `hs`. */
  method InsertNext(heap: Heap, hs: seq<nat>, i: nat)
    requires heap.Valid() && heap.Ordered() && heap.size == i < |hs| && |hs| <= heap.capacity
    requires heap.contents == multiset(hs[..i]) && DistinctHandles(hs, heap.keys.Length)
    modifies heap, heap.data
    ensures heap.Valid() && heap.Ordered()
    ensures heap.contents == multiset(hs[..i + 1]) && heap.size == i + 1
  {
    assert hs[i] !in multiset(hs[..i]);
    heap.Insert(hs[i]);
    assert hs[..i + 1] == hs[..i] + [hs[i]];
  }

  /** The top of a heap whose strict least resident is c is c. */
  method TopIs(heap: Heap, ghost k: seq<real>, ghost c: nat) returns (t: nat)
    requires heap.Valid() && heap.Ordered() && heap.keys[..] == k
    requires StrictLeast(k, heap.contents, c)
    ensures t == c
  {
    assert |heap.contents| == heap.size;
    t := heap.Top();
    LeastIs(k, heap.contents, t, c);
  }

  /** Popping a heap whose strict least resident is c removes and returns c. */
  method PopIs(heap: Heap, ghost k: seq<real>, ghost c: nat) returns (e: nat)
    requires heap.Valid() && heap.Ordered() && heap.keys[..] == k
    requires StrictLeast(k, heap.contents, c)
    modifies heap, heap.data
    ensures heap.Valid() && heap.Ordered() && heap.keys[..] == k && e == c
    ensures heap.contents == old(heap.contents) - multiset{c}
  {
    assert |heap.contents| == heap.size;
    ghost var m := heap.contents;
    e := heap.Pop();
    LeastIs(k, m, e, c);
  }

  /** The state of a drain in key order after i pops: the heap is valid
      and ordered, its key table is k, and its residents are the handles of
      `order` from position i on. */
  ghost predicate DrainState(heap: Heap, k: seq<real>, order: seq<nat>, i: nat)
    reads heap, heap.data, heap.keys
  {
    && heap.Valid() && heap.Ordered() && heap.keys[..] == k
    && i <= |order| && heap.contents == multiset(order[i..]) && IncreasingAlong(k, order)
  }

  /** Before the first pop: tells whether the heap is empty. */
  method StartDrain(heap: Heap, ghost k: seq<real>, ghost order: seq<nat>) returns (empty: bool)
    requires heap.Valid() && heap.Ordered() && heap.keys[..] == k
    requires heap.contents == multiset(order) && IncreasingAlong(k, order)
    ensures DrainState(heap, k, order, 0)
    ensures empty <==> 0 == |order|
  {
    empty := heap.IsEmpty();
    assert order[0..] == order;
    assert |multiset(order)| == |order|;
  }

  /** Pops the next handle of `order` from a heap holding the rest of it,
      appends its key to `res`, and tells whether the heap is now empty. */
  method PopNext(heap: Heap, ghost k: seq<real>, ghost order: seq<nat>, res: seq<real>)
    returns (res': seq<real>, empty: bool)
    requires DrainState(heap, k, order, |res|) && |res| < |order|
    requires forall j :: 0 <= j < |res| ==> res[j] == k[order[j]]
    modifies heap, heap.data
    ensures DrainState(heap, k, order, |res'|) && |res'| == |res| + 1
    ensures forall j :: 0 <= j < |res'| ==> res'[j] == k[order[j]]
    ensures empty <==> |res'| == |order|
  {
    ghost var i := |res|;
    SuffixLeast(k, order, i);
    DropFirst(order, i);
    var e := PopIs(heap, k, order[i]);
    empty := heap.IsEmpty();
    res' := res + [heap.keys[e]];
  }

  /** Removing the first handle of a suffix leaves the next suffix. */
  lemma DropFirst(order: seq<nat>, i: nat)
    requires i < |order|
    ensures multiset(order[i..]) - multiset{order[i]} == multiset(order[i + 1..])
    ensures multiset(order[i + 1..]) == multiset{} <==> i + 1 == |order|
  {
    assert order[i..] == [order[i]] + order[i + 1..];
    assert |multiset(order[i + 1..])| == |order| - (i + 1);
  }

  /** Pops until the heap is empty, as the heap-sort test does. When the keys
      strictly increase along `order` and the residents are the handles of
      `order`, the popped keys are those of `order`, in that order. */
  method DrainInOrder(heap: Heap, ghost k: seq<real>, ghost order: seq<nat>) returns (res: seq<real>)
    requires heap.Valid() && heap.Ordered() && heap.keys[..] == k
    requires heap.contents == multiset(order) && IncreasingAlong(k, order)
    modifies heap, heap.data
    ensures |res| == |order| && forall j :: 0 <= j < |res| ==> res[j] == k[order[j]]
  {
    res := [];
    var empty := StartDrain(heap, k, order);
    while !empty
      invariant DrainState(heap, k, order, |res|)
      invariant empty <==> |res| == |order|
      invariant forall j :: 0 <= j < |res| ==> res[j] == k[order[j]]
      decreases |order| - |res|
    {
      res, empty := PopNext(heap, k, order, res);
    }
  }

  /** The handles of the sort test in insertion order, and by increasing
      value. */
  const SortInserted: seq<nat> := [0, 1, 2, 3, 4]
  const SortPopped: seq<nat> := [3, 0, 4, 1, 2]

  /** Heap sort: inserting 1, 4, 8, -10 and 2 and popping until the heap is
      empty yields -10, 1, 2, 4, 8. */
  method HeapSortExample() returns (res: seq<real>)
    ensures res == [-10.0, 1.0, 2.0, 4.0, 8.0]
  {
    var keys := new real[5];
    keys[0], keys[1], keys[2], keys[3], keys[4] := 1.0, 4.0, 8.0, -10.0, 2.0;
    ghost var k := keys[..];
    SortHandles(k);
    SortIncreasing(k);
    SortPermutation();
    var heap := new Heap(5, keys);
    InsertEach(heap, SortInserted);
    res := DrainInOrder(heap, k, SortPopped);
    SortResult(k, res);
  }

  lemma SortHandles(k: seq<real>)
    requires |k| == 5
    ensures DistinctHandles(SortInserted, |k|)
  {
  }

  lemma SortIncreasing(k: seq<real>)
    requires k == [1.0, 4.0, 8.0, -10.0, 2.0]
    ensures IncreasingAlong(k, SortPopped)
  {
  }

  lemma SortPermutation()
    ensures multiset(SortInserted) == multiset(SortPopped)
  {
  }

  lemma SortResult(k: seq<real>, res: seq<real>)
    requires k == [1.0, 4.0, 8.0, -10.0, 2.0]
    requires |res| == |SortPopped| && forall j :: 0 <= j < |res| ==> res[j] == k[SortPopped[j]]
    ensures res == [-10.0, 1.0, 2.0, 4.0, 8.0]
  {
  }

  /** The handles the mix and reheap tests insert. */
  const FirstThree: seq<nat> := [0, 1, 2]

  lemma ThreeHandles(k: seq<real>)
    requires |k| >= 3
    ensures DistinctHandles(FirstThree, |k|)
  {
  }

  /** The least resident at each top and pop of the insert/pop mix test. */
  lemma MixLeastFirst(k: seq<real>)
    requires k == [5.0, 99.0, -10.0, 100.0]
    ensures StrictLeast(k, multiset(FirstThree), 2)
    ensures StrictLeast(k, multiset(FirstThree) - multiset{2}, 0)
    ensures multiset(FirstThree) - multiset{2} - multiset{0} == multiset{1}
  {
  }

  lemma MixLeastSecond(k: seq<real>)
    requires k == [5.0, 99.0, -10.0, 100.0]
    ensures StrictLeast(k, multiset{1} + multiset{3}, 1)
    ensures StrictLeast(k, multiset{1} + multiset{3} - multiset{1}, 3)
    ensures multiset{1} + multiset{3} - multiset{1} - multiset{3} == multiset{}
  {
  }

  /** Inserts and pops interleaved: after inserting 5, 99 and -10 the top is
      -10; after popping twice and inserting 100 the top is 99; two more pops
      empty the heap. */
  method HeapMixExample() returns (first: real, second: real, empty: bool)
    ensures first == -10.0 && second == 99.0 && empty
  {
    var keys := new real[4];
    keys[0], keys[1], keys[2], keys[3] := 5.0, 99.0, -10.0, 100.0;
    ghost var k := keys[..];
    var heap := new Heap(4, keys);
    first := MixFirst(heap, k);
    second, empty := MixSecond(heap, k);
  }

  /** Inserts 5, 99 and -10, reads the top, then pops twice. */
  method MixFirst(heap: Heap, ghost k: seq<real>) returns (first: real)
    requires heap.Valid() && heap.Ordered() && heap.keys[..] == k && k == [5.0, 99.0, -10.0, 100.0]
    requires heap.size == 0 && heap.capacity == 4
    modifies heap, heap.data
    ensures heap.Valid() && heap.Ordered() && heap.keys[..] == k
    ensures first == -10.0 && heap.contents == multiset{1} && heap.capacity == 4
  {
    ThreeHandles(k);
    MixLeastFirst(k);
    InsertEach(heap, FirstThree);
    var t := TopIs(heap, k, 2);
    first := heap.keys[t];
    var e := PopIs(heap, k, 2);
    e := PopIs(heap, k, 0);
  }

  /** Inserts 100, reads the top, then pops twice. */
  method MixSecond(heap: Heap, ghost k: seq<real>) returns (second: real, empty: bool)
    requires heap.Valid() && heap.Ordered() && heap.keys[..] == k && k == [5.0, 99.0, -10.0, 100.0]
    requires heap.contents == multiset{1} && heap.capacity == 4
    modifies heap, heap.data
    ensures second == 99.0 && empty
  {
    MixLeastSecond(k);
    assert heap.size == |heap.contents|;
    heap.Insert(3);
    var t := TopIs(heap, k, 1);
    second := heap.keys[t];
    var e := PopIs(heap, k, 1);
    e := PopIs(heap, k, 3);
    empty := heap.IsEmpty();
  }

  /** The least resident of the reheap test before and after the key of the third element changes
      from 1 to 10. */
  lemma ReheapFacts(k: seq<real>, k': seq<real>)
    requires k == [2.0, 8.0, 1.0] && k' == [2.0, 8.0, 10.0]
    ensures StrictLeast(k, multiset(FirstThree), 2)
    ensures StrictLeast(k', multiset(FirstThree), 0)
  {
  }

  /** Reheap after a key changed outside the heap: with 2, 8 and 1 inserted
      the top is 1; after that element's key becomes 10 and it is reheaped,
      the top is 2. */
  method HeapReheapExample() returns (before: real, after: real)
    ensures before == 1.0 && after == 2.0
  {
    var keys := new real[3];
    keys[0], keys[1], keys[2] := 2.0, 8.0, 1.0;
    ghost var k := keys[..];
    ThreeHandles(k);
    ReheapFacts(k, k[2 := 10.0]);
    var heap := new Heap(3, keys);
    InsertEach(heap, FirstThree);
    var t := TopIs(heap, k, 2);
    before := keys[t];
    keys[2] := 10.0;
    heap.Reheap(2, k);
    assert keys[..] == k[2 := 10.0];
    t := TopIs(heap, k[2 := 10.0], 0);
    after := keys[t];
  }
}
