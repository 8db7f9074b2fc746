/** Worked examples: the heap, CSV and engine scenarios of the repository's
    unit tests, stated as contracts of the model. */
module Examples {
  import opened Geometry
  import opened IndexedHeap
  import opened Elimination
  import opened Visvalingam
  import opened Csv
  import opened Sorting

  /** An empty line has one empty field, and a trailing comma adds an empty
      last field. */
  lemma CsvEdgeExample()
    ensures Split("") == [""]
    ensures Split("a,") == ["a", ""]
  {
    SplitJoin(["a", ""]);
    assert Join(["a", ""]) == "a,";
  }

  /** Reading the three data lines of the sample file into one row in turn:
      each time the row holds the five fields of the line just read, and its
      fourth field is "42". */
  method ReadRowsExample() returns (fourth: seq<string>)
    ensures fourth == ["42", "42", "42"]
  {
    var row := new CsvRow();
    var f := ReadFourth(row, ["1", "2", "3", "42", "5"]);
    fourth := [f];
    f := ReadFourth(row, ["0", "2", "4", "42", "8"]);
    fourth := fourth + [f];
    f := ReadFourth(row, ["1", "3", "5", "42", "9"]);
    fourth := fourth + [f];
  }

  /** Reads the line made of the given comma-free fields into the row and
      returns its fourth field. */
  method ReadFourth(row: CsvRow, fields: seq<string>) returns (f: string)
    requires |fields| > 3 && forall i :: 0 <= i < |fields| ==> ',' !in fields[i]
    modifies row
    ensures f == fields[3]
  {
    SplitJoin(fields);
    row.ReadNextRow(Join(fields));
    f := row.Get(3);
  }

  /** Heap sort, as the heap's unit test runs it: popping until the heap is
      empty yields the keys of the residents in ascending order, each resident
      exactly once. `handles` lists the popped residents in order. */
  method DrainAscending(heap: Heap) returns (popped: seq<real>, ghost handles: seq<nat>)
    requires heap.Valid() && heap.Ordered()
    modifies heap, heap.data
    ensures heap.Valid() && heap.contents == multiset{}
    ensures Ascending(popped) && |popped| == old(heap.size)
    ensures multiset(handles) == old(heap.contents) && |handles| == |popped|
    ensures forall j :: 0 <= j < |popped| ==> handles[j] < heap.keys.Length && popped[j] == heap.keys[handles[j]]
  {
    ghost var k := heap.keys[..];
    ghost var all := heap.contents;
    popped, handles := [], [];
    var empty := heap.IsEmpty();
    while !empty
      invariant heap.Valid() && heap.Ordered() && heap.keys[..] == k
      invariant empty <==> heap.contents == multiset{}
      invariant heap.size + |popped| == old(heap.size)
      invariant Drained(k, popped, handles, heap.contents, all)
      decreases heap.size
    {
      popped, handles := PopInto(heap, k, all, popped, handles);
      empty := heap.IsEmpty();
    }
  }

  /** One round of the drain: pops the top and appends its key. */
  method PopInto(heap: Heap, ghost k: seq<real>, ghost all: multiset<nat>, popped: seq<real>,
                 ghost handles: seq<nat>)
    returns (popped': seq<real>, ghost handles': seq<nat>)
    requires heap.Valid() && heap.Ordered() && heap.keys[..] == k
    requires heap.contents != multiset{} && Drained(k, popped, handles, heap.contents, all)
    modifies heap, heap.data
    ensures heap.Valid() && heap.Ordered() && heap.keys[..] == k
    ensures heap.size == old(heap.size) - 1 && |popped'| == |popped| + 1
    ensures Drained(k, popped', handles', heap.contents, all)
  {
    assert multiset(heap.data[..heap.size]) != multiset{};
    ghost var was := heap.contents;
    var e := heap.Pop();
    assert heap.keys[..] == k;
    DrainStep(k, popped, handles, was, all, e);
    popped' := popped + [heap.keys[e]];
    handles' := handles + [e];
  }

  /** The account kept while draining: `popped` holds the keys of the handles
      popped so far, in ascending order and none above a remaining key, and
      the popped handles and the residents together are the original
      residents. */
  ghost predicate Drained(k: seq<real>, popped: seq<real>, handles: seq<nat>, rest: multiset<nat>,
                          all: multiset<nat>)
  {
    && multiset(handles) + rest == all
    && |handles| == |popped|
    && (forall j :: 0 <= j < |popped| ==> handles[j] < |k| && popped[j] == k[handles[j]])
    && Ascending(popped)
    && (forall x, j :: x in rest && x < |k| && 0 <= j < |popped| ==> popped[j] <= k[x])
  }

  /** Popping a least-key resident keeps the account. */
  lemma DrainStep(k: seq<real>, popped: seq<real>, handles: seq<nat>, rest: multiset<nat>,
                  all: multiset<nat>, e: nat)
    requires Drained(k, popped, handles, rest, all) && e in rest && e < |k|
    requires forall x :: x in rest && x < |k| ==> k[e] <= k[x]
    ensures Drained(k, popped + [k[e]], handles + [e], rest - multiset{e}, all)
  {
    var hs := handles + [e];
    assert hs[..|handles|] == handles;
    assert multiset(hs) == multiset(handles) + multiset{e};
  }

  /** The six-point line of the engine's unit test. */
  const Fixture: Linestring := [Point(0.0, 0.0, 0.0), Point(5.0, -10.0, 0.0), Point(12.0, -6.0, 0.0),
                                Point(15.0, -7.0, 0.0), Point(19.0, -6.0, 0.0), Point(25.0, 0.0, 0.0)]

  /** Every interior vertex of the test line is queued. */
  lemma FixtureInserted()
    ensures forall v :: Inserted(Fixture, v) <==> 1 <= v <= 4
  {
    assert Key(Fixture, {}, 1) == 45.0;
    assert Key(Fixture, {}, 2) == 9.5;
    assert Key(Fixture, {}, 3) == 3.5;
    assert Key(Fixture, {}, 4) == 9.0;
  }

  /** After removing `removed`, the queued vertex c has a smaller key than
      every other queued vertex. */
  ghost predicate StrictMinStep(removed: set<nat>, c: nat)
  {
    && Inserted(Fixture, c) && c !in removed
    && forall v :: Inserted(Fixture, v) && v !in removed && v != c ==>
         Key(Fixture, removed, c) < Key(Fixture, removed, v)
  }

  /** A vertex that is a strict least-key choice is the only least-key step. */
  lemma OnlyMinStep(removed: set<nat>, c: nat, x: nat)
    requires IsMinStep(Fixture, removed, x) && StrictMinStep(removed, c)
    ensures x == c
  {
  }

  /** The keys at each step of the run: vertex 3 goes first with 3.5, then 2
      with 14, then 4 with 30, then 1 with 125. */
  lemma FixtureStep0()
    ensures StrictMinStep({}, 3)
    ensures Key(Fixture, {}, 3) == 3.5
  {
    FixtureInserted();
    assert Key(Fixture, {}, 1) == 45.0;
    assert Key(Fixture, {}, 2) == 9.5;
    assert Key(Fixture, {}, 4) == 9.0;
  }

  lemma FixtureStep1()
    ensures StrictMinStep({3}, 2)
    ensures Key(Fixture, {3}, 2) == 14.0
  {
    FixtureInserted();
    assert Key(Fixture, {3}, 1) == 45.0;
    assert Key(Fixture, {3}, 4) == 21.0;
  }

  lemma FixtureStep2()
    ensures StrictMinStep({3, 2}, 4)
    ensures Key(Fixture, {3, 2}, 4) == 30.0
  {
    FixtureInserted();
    NextKeptUnique({3, 2}, 1, 5, 4);
    PrevKeptUnique({3, 2}, 4, 1);
    assert Key(Fixture, {3, 2}, 1) == 80.0;
  }

  lemma FixtureStep3()
    ensures StrictMinStep({3, 2, 4}, 1)
    ensures Key(Fixture, {3, 2, 4}, 1) == 125.0
  {
    FixtureInserted();
    NextKeptUnique({3, 2, 4}, 1, 5, 5);
  }

  /** The elimination of the test line is determined: the order is 3, 2, 4,
      1 and the effective areas are 0, 125, 14, 3.5, 30 and 0. */
  lemma FixtureResult(order: seq<nat>, areas: seq<real>)
    requires IsEliminationResult(Fixture, order, areas)
    ensures order == [3, 2, 4, 1]
    ensures areas == [0.0, 125.0, 14.0, 3.5, 30.0, 0.0]
  {
    FixtureOrder(order);
    FixtureRunningMax(order);
    UnqueuedAreaZero(Fixture, order, areas, 0);
    UnqueuedAreaZero(Fixture, order, areas, 5);
    FixtureAreas(order, areas, RunningMax(PopKeys(Fixture, order)));
  }

  /** The running maximum of the keys along 3, 2, 4, 1 is the keys
      themselves, as they ascend. */
  lemma FixtureRunningMax(order: seq<nat>)
    requires order == [3, 2, 4, 1]
    ensures RunningMax(PopKeys(Fixture, order)) == [3.5, 14.0, 30.0, 125.0]
  {
    FixtureKeys(order);
    RunningMaxAscending(PopKeys(Fixture, order));
  }

  /** The area table read off the order and the running maximum. */
  lemma FixtureAreas(order: seq<nat>, areas: seq<real>, r: seq<real>)
    requires order == [3, 2, 4, 1] && r == [3.5, 14.0, 30.0, 125.0] && |areas| == 6
    requires forall j :: 0 <= j < |order| ==> order[j] < |areas| && areas[order[j]] == r[j]
    requires areas[0] == 0.0 && areas[5] == 0.0
    ensures areas == [0.0, 125.0, 14.0, 3.5, 30.0, 0.0]
  {
    assert areas[order[0]] == r[0] && areas[order[1]] == r[1];
    assert areas[order[2]] == r[2] && areas[order[3]] == r[3];
  }

  /** The keys popped along the order 3, 2, 4, 1. */
  lemma FixtureKeys(order: seq<nat>)
    requires order == [3, 2, 4, 1]
    ensures PopKeys(Fixture, order) == [3.5, 14.0, 30.0, 125.0]
  {
    PrefixElements(order);
    PopKeysAt(Fixture, order, 0);
    PopKeysAt(Fixture, order, 1);
    PopKeysAt(Fixture, order, 2);
    PopKeysAt(Fixture, order, 3);
    FixtureStep0();
    FixtureStep1();
    FixtureStep2();
    FixtureStep3();
  }

  /** The vertices removed before each step of the order 3, 2, 4, 1. */
  lemma PrefixElements(order: seq<nat>)
    requires order == [3, 2, 4, 1]
    ensures Elements(order[..0]) == {} && Elements(order[..1]) == {3}
    ensures Elements(order[..2]) == {3, 2} && Elements(order[..3]) == {3, 2, 4}
  {
    assert order[..1] == [3] && order[..2] == [3, 2] && order[..3] == [3, 2, 4];
  }

  /** The pop order of the test line is 3, 2, 4, 1: each step has a strict
      least-key choice, and nothing is left after the fourth. */
  lemma FixtureOrder(order: seq<nat>)
    requires IsPopOrder(Fixture, order) && Complete(Fixture, order)
    ensures order == [3, 2, 4, 1]
  {
    OrderStep0(order);
    OrderStep1(order);
    OrderStep2(order);
    OrderStep3(order);
    NoFifthStep(order);
  }

  lemma OrderStep0(order: seq<nat>)
    requires IsPopOrder(Fixture, order) && Complete(Fixture, order)
    ensures |order| > 0 && order[0] == 3 && Elements(order[..1]) == {3}
  {
    assert Elements(order[..0]) == {};
    FixtureStep0();
    ghost var removed := Elements(order[..0]);
    StepIs(order, 0, removed, 3);
  }

  lemma OrderStep1(order: seq<nat>)
    requires IsPopOrder(Fixture, order) && Complete(Fixture, order)
    requires |order| > 0 && Elements(order[..1]) == {3}
    ensures |order| > 1 && order[1] == 2 && Elements(order[..2]) == {3, 2}
  {
    FixtureStep1();
    ghost var removed := Elements(order[..1]);
    StepIs(order, 1, removed, 2);
  }

  lemma OrderStep2(order: seq<nat>)
    requires IsPopOrder(Fixture, order) && Complete(Fixture, order)
    requires |order| > 1 && Elements(order[..2]) == {3, 2}
    ensures |order| > 2 && order[2] == 4 && Elements(order[..3]) == {3, 2, 4}
  {
    FixtureStep2();
    ghost var removed := Elements(order[..2]);
    StepIs(order, 2, removed, 4);
  }

  lemma OrderStep3(order: seq<nat>)
    requires IsPopOrder(Fixture, order) && Complete(Fixture, order)
    requires |order| > 2 && Elements(order[..3]) == {3, 2, 4}
    ensures |order| > 3 && order[3] == 1 && Elements(order[..4]) == {3, 2, 4} + {1}
  {
    FixtureStep3();
    ghost var removed := Elements(order[..3]);
    StepIs(order, 3, removed, 1);
  }

  /** After k steps that removed `removed`, a queued vertex c that is the
      strict least-key choice is eliminated next. */
  lemma StepIs(order: seq<nat>, k: nat, removed: set<nat>, c: nat)
    requires IsPopOrder(Fixture, order) && Complete(Fixture, order)
    requires k <= |order| && Elements(order[..k]) == removed
    requires StrictMinStep(removed, c)
    ensures k < |order| && order[k] == c && Elements(order[..k + 1]) == removed + {c}
  {
    assert c in order;
    var j :| 0 <= j < |order| && order[j] == c;
    assert forall i :: 0 <= i < k ==> order[i] != c by {
      forall i | 0 <= i < k
        ensures order[i] != c
      {
        assert order[..k][i] == order[i];
      }
    }
    PrefixStep(order, k);
    PopOrderAt(Fixture, order, k);
    OnlyMinStep(removed, c, order[k]);
    ElementsAppend(order[..k], c);
  }

  lemma PrefixStep<T>(s: seq<T>, k: nat)
    requires k < |s|
    ensures s[..k + 1] == s[..k] + [s[k]]
  {
  }

  /** Once the four queued vertices are gone, the order stops. */
  lemma NoFifthStep(order: seq<nat>)
    requires IsPopOrder(Fixture, order) && 4 <= |order| && Elements(order[..4]) == {3, 2, 4} + {1}
    ensures |order| == 4
  {
    if |order| > 4 {
      PopOrderAt(Fixture, order, 4);
      FixtureInserted();
      assert false;
    }
  }

  /** Building the algorithm for the test line and simplifying it: at 0.002
      every point stays, at 20 the points with areas 14 and 3.5 go, and at
      50 only three points would be left, so the result is empty. */
  method FixtureExample() returns (areas: seq<real>, fine: Linestring, coarse: Linestring,
                                   collapsed: Linestring)
    ensures areas == [0.0, 125.0, 14.0, 3.5, 30.0, 0.0]
    ensures fine == Fixture
    ensures coarse == [Fixture[0], Fixture[1], Fixture[4], Fixture[5]]
    ensures collapsed == []
  {
    var alg, order := Build(Fixture);
    FixtureResult(order, alg.effectiveAreas);
    areas := alg.effectiveAreas;
    FixtureKept(alg);
    fine := Simplify(alg, 0.002, []);
    coarse := Simplify(alg, 20.0, []);
    collapsed := Simplify(alg, 50.0, []);
  }

  lemma FixtureKept(alg: Algorithm)
    requires alg.input == Fixture && alg.effectiveAreas == [0.0, 125.0, 14.0, 3.5, 30.0, 0.0]
    ensures Simplified(alg, 0.002, []) == Fixture
    ensures Simplified(alg, 20.0, []) == [Fixture[0], Fixture[1], Fixture[4], Fixture[5]]
    ensures Simplified(alg, 50.0, []) == []
  {
    KeptAllAt(alg);
    KeptFourAt(alg);
    KeptThreeAt(alg);
  }

  lemma KeptAllAt(alg: Algorithm)
    requires |alg.input| == 6 && alg.effectiveAreas == [0.0, 125.0, 14.0, 3.5, 30.0, 0.0]
    ensures Simplified(alg, 0.002, []) == alg.input
  {
    var ix: seq<nat> := [0, 1, 2, 3, 4, 5];
    assert forall v :: 0 <= v < 6 ==> (v in ix <==> ContainsVertex(alg, v, 0.002));
    KeptIndicesUnique(alg, 0.002, 6, ix);
    PointsSix(alg.input);
  }

  lemma KeptFourAt(alg: Algorithm)
    requires |alg.input| == 6 && alg.effectiveAreas == [0.0, 125.0, 14.0, 3.5, 30.0, 0.0]
    ensures Simplified(alg, 20.0, []) == [alg.input[0], alg.input[1], alg.input[4], alg.input[5]]
  {
    var ix: seq<nat> := [0, 1, 4, 5];
    assert forall v :: 0 <= v < 6 ==> (v in ix <==> ContainsVertex(alg, v, 20.0));
    KeptIndicesUnique(alg, 20.0, 6, ix);
    PointsSix(alg.input);
  }

  lemma KeptThreeAt(alg: Algorithm)
    requires |alg.input| == 6 && alg.effectiveAreas == [0.0, 125.0, 14.0, 3.5, 30.0, 0.0]
    ensures Simplified(alg, 50.0, []) == []
  {
    var ix: seq<nat> := [0, 1, 5];
    assert forall v :: 0 <= v < 6 ==> (v in ix <==> ContainsVertex(alg, v, 50.0));
    KeptIndicesUnique(alg, 50.0, 6, ix);
  }

  /** The points of a six-point line at all of its indices, and at the four
      indices 0, 1, 4 and 5. */
  lemma PointsSix(line: Linestring)
    requires |line| == 6
    ensures Points(line, [0, 1, 2, 3, 4, 5]) == line
    ensures Points(line, [0, 1, 4, 5]) == [line[0], line[1], line[4], line[5]]
  {
  }

}
