# Visvalingam–Whyatt line simplification, modelled in Dafny

This project models the algorithmic core of `visvalingam_simplify`, a small C++
program that simplifies polylines and polygons with the Visvalingam–Whyatt
algorithm. The algorithm repeatedly removes the vertex whose triangle with its
current neighbours has the least area. The model covers four pieces and proves
properties of each:

- **Indexed binary min-heap** (`heap.dfy`, module `IndexedHeap`). The heap is a
  class over a fixed-capacity array of handles. It keeps a `size` field, a map
  from each resident handle to its slot, and a ghost multiset of residents.
  Keys are read from a key table shared with the caller, the way the original
  comparators read node areas through node references. This lets `Reheap(e)` restore
  heap order after the caller has changed `e`'s key. Every public operation
  keeps three invariants:
  - the heap order;
  - the bijection between the index map and the occupied slots;
  - the multiset of residents, which each operation changes in a stated way.
- **Elimination engine** (`engine.dfy`, module `Engine`). This is the
  constructor's elimination loop written as imperative Dafny:
  - the nodes live in an arena indexed by vertex, with `live`, `prev`, `next`
    and `area` arrays;
  - the heap's handles are vertex indices and its keys are the `area` array;
  - the running maximum of the popped areas is recorded as the popped
    vertex's effective area.

  The loop is proved against an independent reference definition of the
  elimination (`elimination.dfy`, module `Elimination`). That definition works
  on the set of vertices already removed, with no heap and no linked nodes:
  - the neighbours of a vertex are the nearest vertices on each side that have
    not been removed;
  - every step removes a queued vertex of least key;
  - the recorded area is the running maximum of the keys.
- **Simplifier** (`visvalingam.dfy`, module `Visvalingam`). This module holds:
  - the keep/drop rule `ContainsVertex`;
  - `Simplify`, which appends the kept points and then collapses a result
    under four points to empty;
  - `SimplifyRatio`, which takes its threshold from a sorted copy of the area
    table (`sorting.dfy`, module `Sorting`);
  - the batch entry points over a linestring and over a multipolygon.
- **Vector primitives** (`geometry.dfy`, module `Geometry`) and the **CSV
  line splitter** (`csv.dfy`, module `Csv`). The splitter is the `getline`
  loop of the original, modelled on an explicit string-stream state and
  proved equal to a pure `Split` function. `Split` in turn round-trips with
  `Join`.

Two modules state the repository's unit-test scenarios as proved facts:
- `heap_examples.dfy` (module `HeapExamples`): the heap tests with their
  concrete values, i.e. the heap sort, the interleaved inserts and pops, and
  the reheap after a key change;
- `examples.dfy` (module `Examples`):
  - the CSV rows;
  - draining any ordered heap yields its keys in ascending order;
  - the elimination of the six-point line the tests build, with its pop
    order, its area table and its simplifications at three thresholds.
    The test itself only constructs the engine on that line; these values
    follow from the code.

## Model

| member | source | states |
|---|---|---|
| Geometry.VectorSub | src/polyline.cpp:8-14 | the result is the planar difference A - B (its X and Y added to B's give A's) and its Z is always 0, whatever the inputs' Z |
| Geometry.CrossProductAntisymmetric | src/polyline.cpp:3-6 | cross_product(v1, v2) = -cross_product(v2, v1), so cross_product(v, v) = 0 |
| Geometry.CrossProductIsTurnedDot | src/polyline.cpp:3-6 | cross_product(v1, v2) is the dot product of v1 turned a quarter turn with v2, and its square is the product of the squared lengths less the squared dot product (Lagrange's identity) |
| Geometry.CrossProductNorm | src/polyline.h:31-33 | the norm is non-negative and equals the cross product or its negation, i.e. its magnitude |
| Geometry.CrossProductNormSymmetric | src/polyline.h:31-33 | the norm does not depend on the order of its arguments |
| Geometry.EffectiveArea | src/visvalingam_algorithm.cpp:44-50 | the effective area of a vertex is never negative |
| Geometry.EffectiveAreaIsTriangleArea | src/visvalingam_algorithm.cpp:44-50 | half the cross-product norm of (n - c) and (p - c) equals the shoelace area of the triangle p, c, n |
| Geometry.EffectiveAreaSymmetric | src/visvalingam_algorithm.cpp:44-50 | swapping the two neighbours leaves the area unchanged, and Z coordinates play no part in it |
| Geometry.EffectiveAreaDegenerate | src/visvalingam_algorithm.cpp:44-50 | a triangle with a repeated vertex has area 0 |
| Geometry.PrimitiveExamples | src/test_visvalingam.cpp:26-54 | (10,20) - (5,1) = (5,19); the cross products 34, -34 and 880 and the norms 34, 34 and 880 of the unit tests |
| Elimination.TriangleArea | src/visvalingam_algorithm.cpp:52-67 | the area for three vertex indices is the non-negative shoelace area of the points at those indices |
| Elimination.QueuedTriangle | src/visvalingam_algorithm.cpp:76-84 | `Inserted`, the queueing test: a vertex is queued exactly when it is interior and the shoelace area of the triangle with its two original neighbours exceeds NEARLY_ZERO (1e-7); a queued vertex then repeats neither original neighbour, and the two neighbours differ |
| Elimination.PrevKept | src/visvalingam_algorithm.cpp:98-112 | the previous neighbour is the nearest lower index not removed: every index strictly between them has been removed |
| Elimination.NextKept | src/visvalingam_algorithm.cpp:98-112 | the next neighbour is the nearest higher index not removed, up to the last vertex: every index strictly between has been removed |
| Elimination.PrevKeptUnique | src/visvalingam_algorithm.cpp:98-112 | the previous neighbour is the only index below v that is not removed and has only removed indices between it and v |
| Elimination.NextKeptUnique | src/visvalingam_algorithm.cpp:98-112 | the next neighbour is the only such index above v |
| Elimination.RemovalRelinksPrev | src/visvalingam_algorithm.cpp:106-112 | removing c gives c's next neighbour c's previous one as its new previous neighbour, and changes no other vertex's previous neighbour |
| Elimination.RemovalRelinksNext | src/visvalingam_algorithm.cpp:98-104 | removing c gives c's previous neighbour c's next one as its new next neighbour, and changes no other vertex's next neighbour |
| Elimination.Key | src/visvalingam_algorithm.cpp:62-67 | a vertex's key is non-negative and, before any removal, is the area of the triangle with its original neighbours |
| Elimination.ElementsAppend | src/visvalingam_algorithm.cpp:115-116 | eliminating one more vertex adds exactly that vertex to the removed set |
| Elimination.PopOrderAt | src/visvalingam_algorithm.cpp:87-89 | every step of a pop order removes a queued, not yet removed vertex whose key is least among those left |
| Elimination.PopKeysAt | src/visvalingam_algorithm.cpp:89-96 | entry k of the popped keys is the key vertex k of the order had when the first k were gone |
| Elimination.RunningMax | src/visvalingam_algorithm.cpp:86-96 | the running maximum is non-decreasing and entry j is at least every key popped up to step j |
| Elimination.RunningMaxAttained | src/visvalingam_algorithm.cpp:96 | each running maximum is one of the keys popped so far |
| Elimination.RunningMaxAscending | src/visvalingam_algorithm.cpp:96 | on keys that already ascend, the running maximum is the keys themselves |
| Elimination.PopOrderExtend | src/visvalingam_algorithm.cpp:87-96 | a least-key step extends a pop order, and its key is appended to the popped keys |
| Elimination.PopOrderDistinct | src/visvalingam_algorithm.cpp:87-118 | a pop order eliminates only queued vertices and never the same vertex twice |
| Elimination.UnqueuedAreaZero | src/visvalingam_algorithm.cpp:70-84 | endpoints and interior vertices whose initial area is at most 1e-7 keep effective area 0 |
| Elimination.AreasFollowOrder | src/visvalingam_algorithm.cpp:86-96 | effective areas do not decrease along the elimination order, and each is at least the vertex's key when it was popped |
| Elimination.QueuedAreaPositive | src/visvalingam_algorithm.cpp:78-96 | every queued vertex ends with an effective area above 1e-7 |
| Elimination.ThresholdCutsOrder | src/visvalingam_algorithm.cpp:86-115 | for any threshold t, the eliminated vertices with area at most t are exactly the first k of the order, for some k |
| Engine.LinkedChain | src/visvalingam_algorithm.cpp:98-116 | for a live node, prev < v < next; every index strictly between is a queued vertex already popped; the node's area is the triangle area with its current neighbours |
| Engine.NodeAfterUnlink | src/visvalingam_algorithm.cpp:98-112 | after c is removed, a node's fields are its new neighbours and its recomputed area exactly when it is c's neighbour, and are unchanged otherwise |
| Engine.UnlinkStep | src/visvalingam_algorithm.cpp:98-117 | relinking the neighbours and retiring the popped node keeps the arena in agreement with the reference state, with c added to the removed set |
| Engine.PoppedIsMinStep | src/visvalingam_algorithm.cpp:89 | a node of least area in the heap is a least-key step of the reference elimination |
| Engine.RecordStep | src/visvalingam_algorithm.cpp:96-115 | recording max(min_area, key) for the popped vertex keeps the table equal to the running maximum of the reference keys |
| Engine.UpdatePrevNode | src/visvalingam_algorithm.cpp:98-104 | the previous node gets the popped node's next vertex and the recomputed area, nothing else in the arena changes, and the heap stays valid and ordered |
| Engine.UpdateNextNode | src/visvalingam_algorithm.cpp:106-112 | the next node gets the popped node's previous vertex and the recomputed area, nothing else in the arena changes, and the heap stays valid and ordered |
| Engine.Relink | src/visvalingam_algorithm.cpp:98-116 | the arena after unlinking c is exactly the relinked one (live neighbours updated, c no longer live), and the heap stays valid and ordered with the same handles |
| Engine.SeedStep | src/visvalingam_algorithm.cpp:76-84 | seeding vertex i queues it with neighbours i-1 and i+1 and its triangle area exactly when that area exceeds 1e-7 |
| Engine.SeedVertex | src/visvalingam_algorithm.cpp:76-84 | one iteration of the seeding loop keeps the arena and heap in the seeded state for the vertices below i + 1 |
| Engine.Seed | src/visvalingam_algorithm.cpp:70-84 | after seeding, the area table is all 0, nothing is eliminated, and the heap holds exactly the live nodes, ordered by area |
| Engine.PopAgrees | src/visvalingam_algorithm.cpp:89-117 | one pop, relink and record keeps the arena, the heap and the table in agreement with the reference run extended by the popped vertex |
| Engine.Retire | src/visvalingam_algorithm.cpp:89-96 | pops a vertex of least area, removes exactly it from the heap, and updates the running maximum |
| Engine.PopStep | src/visvalingam_algorithm.cpp:89-117 | one loop iteration: a least-area vertex is popped, its neighbours are relinked, and its table entry becomes the new running maximum |
| Engine.Eliminate | src/visvalingam_algorithm.cpp:87-117 | one loop iteration extends the reference run by one least-key step and keeps the arena's chain intact |
| Engine.DrainedIsResult | src/visvalingam_algorithm.cpp:87-118 | once the heap is empty, the table is an elimination result: a complete least-key order with running-maximum areas and 0 elsewhere |
| Engine.Drain | src/visvalingam_algorithm.cpp:87-118 | the loop terminates and leaves an elimination result in the table |
| Engine.ComputeEffectiveAreas | src/visvalingam_algorithm.cpp:69-120 | for a non-empty line, the areas are the result of a complete least-key elimination, one entry per vertex |
| IndexedHeap.Parent | src/heap.hpp:114-124 | the root has no parent; slot n > 0 has parent (n - 1) / 2, whose left or right child it is |
| IndexedHeap.LeftChild | src/heap.hpp:126-129 | the left child of n is 2n + 1, whose parent is n |
| IndexedHeap.RightChild | src/heap.hpp:167-168 | the right child of n is one past the left child, whose parent is n |
| IndexedHeap.RootLe | src/heap.hpp:63-67 | in heap order the root's key is no greater than any resident's key |
| IndexedHeap.HeapOrdered | src/heap.hpp:213-218 | heap order: no slot's key is below its parent's, and then the root's key is no greater than any slot's |
| IndexedHeap.IndexSize | src/heap.hpp:206-212 | when the index map matches the occupied slots, it has exactly size entries |
| IndexedHeap.Heap.ValidIndex | src/heap.hpp:206-212 | `Valid`, the object invariant (the shape facts and `IndexMatches`, the index map as a bijection between residents and slots): under it the index map has exactly size entries and its keys are the residents |
| IndexedHeap.Heap.Ordered | src/heap.hpp:213-218 | heap order on the occupied slots under the current keys, so the root slot's key is no greater than any other slot's |
| IndexedHeap.Heap.constructor | src/heap.hpp:31-39 | a new heap of the given capacity is empty, valid and ordered, with an empty index map |
| IndexedHeap.Heap.IsEmpty | src/heap.hpp:87-90 | the heap is empty exactly when it has no residents |
| IndexedHeap.Heap.HeapIndex | src/heap.hpp:196-203 | a resident's slot from the index map holds that resident |
| IndexedHeap.Heap.Top | src/heap.hpp:63-67 | the root is a resident whose key is no greater than any resident's key |
| IndexedHeap.Heap.SmallElem | src/heap.hpp:149-161 | the result is n or an occupied child, its key is no greater than n's or any occupied child's; n wins ties, then a |
| IndexedHeap.Heap.Less | src/visvalingam_algorithm.cpp:36-42 | the comparator holds exactly when the key of slot i's resident is strictly below that of slot j's, i.e. when slot j, as i's parent, would be out of heap order |
| IndexedHeap.Heap.Swap | src/heap.hpp:137 | the slots are exchanged and the multiset of residents is unchanged |
| IndexedHeap.Heap.BubbleUp | src/heap.hpp:131-147 | returns the slot where the moved element ends and records it in the index map; order holds around that slot and on its parent edge, and the whole heap is ordered when the children of the starting slot were already in order |
| IndexedHeap.Heap.StepUp | src/heap.hpp:134-142 | one swap with the parent moves the element up and keeps order around its new slot |
| IndexedHeap.Heap.SetIndex | src/heap.hpp:185-188 | records a slot in the index map, after which the map matches the slots again |
| IndexedHeap.Heap.BubbleDown | src/heap.hpp:163-183 | returns the slot where the moved element ends, records it in the index map, and restores heap order |
| IndexedHeap.Heap.StepDown | src/heap.hpp:167-176 | one swap with the smaller child moves the element down and keeps order around its new slot |
| IndexedHeap.Heap.SettleDown | src/heap.hpp:177-181 | an element no greater than its children stays, and heap order holds |
| IndexedHeap.Heap.Insert | src/heap.hpp:46-61 | under size < capacity: size grows by one, the residents gain exactly e, and the heap stays valid and ordered |
| IndexedHeap.Heap.Pop | src/heap.hpp:69-85 | on a non-empty heap: returns a resident whose key is no greater than any other's, removes exactly it and its index-map entry, decrements size, and keeps every other resident |
| IndexedHeap.Heap.RemoveRoot | src/heap.hpp:71-78 | forgets the root's resident and its map entry and moves the last resident to the root |
| IndexedHeap.Heap.Reheap | src/heap.hpp:95-102 | if only e's key changed since the heap was last in order, heap order holds again, and the residents, size and map domain are unchanged |
| IndexedHeap.Heap.Sift | src/heap.hpp:98 | bubbling up and then down from a slot restores heap order |
| Sorting.Sort | src/visvalingam_algorithm.cpp:145-146 | the sorted copy is ascending and a permutation of the table |
| Sorting.CountsPermutation | src/visvalingam_algorithm.cpp:145-146 | counts of entries at or below, and strictly below, a value are the same for any permutation |
| Sorting.OrderStatistic | src/visvalingam_algorithm.cpp:145-150 | entry i of the sorted table has at most i entries strictly below it and more than i at or below it |
| Visvalingam.Build | src/visvalingam_algorithm.cpp:69-72 | the algorithm (the datatype `Algorithm`, whose two fields are those of visvalingam_algorithm.h:24-25) borrows the input line and holds the areas of a complete elimination of it |
| Visvalingam.ContainsVertex | src/visvalingam_algorithm.h:28-40 | endpoints are always kept; an interior vertex is kept exactly when its area is strictly above the threshold |
| Visvalingam.KeptIndices | src/visvalingam_algorithm.cpp:126-132 | the kept indices below n are increasing, and an index is among them exactly when it passes the rule |
| Visvalingam.KeptIndicesUnique | src/visvalingam_algorithm.cpp:126-132 | the kept indices are the only increasing sequence of indices below n holding exactly the vertices that pass the rule |
| Visvalingam.Simplified | src/visvalingam_algorithm.cpp:133-136 | the result is empty or has at least four points, and when non-empty it starts with the old contents of res |
| Visvalingam.Simplify | src/visvalingam_algorithm.cpp:122-137 | appends to res exactly the points whose index passes the rule, in index order, then clears the whole result if it has fewer than four points |
| Visvalingam.SimplifiedKeepsEndpoints | src/visvalingam_algorithm.h:34-38 | a non-empty simplification into an empty res starts with the first input point and ends with the last |
| Visvalingam.KeptMonotone | src/visvalingam_algorithm.h:34-39 | a vertex kept at threshold t2 is kept at every t1 <= t2, so a lower threshold never keeps fewer vertices |
| Visvalingam.CollinearDropped | src/visvalingam_algorithm.cpp:78-84 | an interior vertex with initial area at most 1e-7 is dropped at every threshold that is not negative |
| Visvalingam.QueuedKept | src/visvalingam_algorithm.cpp:78-96 | a queued vertex is kept at every threshold up to 1e-7 |
| Visvalingam.KeptAfterSteps | src/visvalingam_algorithm.cpp:86-137 | at a threshold that is not negative, the interior vertices kept are exactly the queued vertices left after some number k of elimination steps |
| Visvalingam.RatioThreshold | src/visvalingam_algorithm.cpp:145-150 | the threshold is an order statistic of the area table: at most n*ratio/100 entries lie below it and more lie at or below it |
| Visvalingam.RatioInRange | src/visvalingam_algorithm.cpp:147-149 | the index n*ratio/100 is inside the table exactly when ratio < 100 |
| Visvalingam.SimplifyRatio | src/visvalingam_algorithm.cpp:140-153 | behaves exactly as Simplify at that threshold |
| Visvalingam.RunLinestring | src/visvalingam_algorithm.cpp:163-168 | the result is the simplification of the line at 0.002 into res |
| Visvalingam.RunPolygon | src/visvalingam_algorithm.cpp:174-181 | the new polygon has the same number of interior rings, and every ring is the simplification of the corresponding input ring at 0.002 |
| Visvalingam.RunMultiPolygon | src/visvalingam_algorithm.cpp:170-183 | appends one simplified polygon per input polygon, in order, and keeps the earlier contents of res |
| Csv.FirstComma | src/csv.cpp:18 | the index of the first ',' in the text, or its length when there is none |
| Csv.Split | src/csv.cpp:8-27 | a line yields at least one field and no field contains ',' |
| Csv.JoinSplit | src/csv.cpp:8-27 | joining the fields with ',' gives the line back |
| Csv.SplitJoin | src/csv.cpp:8-27 | splitting comma-free fields joined with ',' gives the fields back |
| Csv.FieldCount | src/csv.cpp:8-27 | a line with k commas has k + 1 fields |
| Csv.TrailingCommaEmptyField | src/csv.cpp:21-25 | a line ending with ',' has an empty last field |
| Csv.Getline | src/csv.cpp:18 | a delimited read on a failed or exhausted stream fails and keeps the cell; otherwise the cell is the comma-free text up to the next ',' or the end, and the read fails exactly when nothing was left |
| Csv.ReadStep | src/csv.cpp:18-20 | a read on a good stream keeps account of the fields: the fields read, plus what is still unread, are the fields of the line |
| Csv.SplitIntoTokens | src/csv.cpp:8-27 | the cells read, with the empty cell added after a trailing comma or for an empty line, are exactly the fields of the line |
| Csv.CsvRow.constructor | src/csv.cpp:47-65 | a new row holds no cells |
| Csv.CsvRow.ReadNextRow | src/csv.cpp:47-65 | the row holds exactly the fields of the new line, and nothing of the previous row survives |
| Csv.CsvRow.Get | src/csv.cpp:36-39 | for an index below size, the cell is that field of the line read last and holds no comma |
| Csv.CsvRow.Size | src/csv.cpp:41-45 | the number of cells is one more than the commas of the line read last, or 0 before any read |
| HeapExamples.LeastIs | src/heap.hpp:63-85 | whatever top or pop returns is the resident whose key is strictly below all others, when there is one |
| HeapExamples.SuffixLeast | src/heap.hpp:69-85 | when keys strictly increase along a list of residents, the first of each remaining suffix is the one a pop must return |
| HeapExamples.InsertEach | src/test_visvalingam.cpp:118-121 | inserting distinct handles one by one into an empty heap leaves exactly those handles as residents, in a valid, ordered heap |
| HeapExamples.DrainInOrder | src/test_visvalingam.cpp:67-70 | popping until empty yields the keys in the order of increasing key, one per resident |
| HeapExamples.HeapSortExample | src/test_visvalingam.cpp:56-76 | inserting 1, 4, 8, -10, 2 and popping until empty yields -10, 1, 2, 4, 8 |
| HeapExamples.HeapMixExample | src/test_visvalingam.cpp:78-94 | after inserting 5, 99, -10 the top is -10; after two pops and inserting 100 the top is 99; two more pops leave the heap empty |
| HeapExamples.HeapReheapExample | src/test_visvalingam.cpp:111-137 | with 2, 8, 1 inserted the top is 1; after that element's key becomes 10 and it is reheaped, the top is 2 |
| Examples.CsvEdgeExample | src/csv.cpp:21-25 | the empty line gives one empty field, and "a," gives "a" and an empty field |
| Examples.ReadRowsExample | src/test_visvalingam.cpp:9-24 | reading the three test rows gives "42" as field 3 of each |
| Examples.DrainAscending | src/test_visvalingam.cpp:56-76 | popping an ordered heap until it is empty yields every resident once, with keys in ascending order |
| Examples.FixtureResult | src/visvalingam_algorithm.cpp:69-120 | on the six-point line built at src/test_visvalingam.cpp:139-147, every complete elimination pops 3, 2, 4, 1 and gives the areas 0, 125, 14, 3.5, 30, 0 |
| Examples.FixtureExample | src/visvalingam_algorithm.cpp:122-137 | on that line, at 0.002 all six points are kept, at 20 the points 0, 1, 4 and 5 are kept, and at 50 the result is empty |

## Left out

- Output-only code is left out: `print_areas`, the heap's `dump_state`, and the `std::cout` line of `simplify_ratio`.
- `CSVIterator` and the outer `std::getline` that reads a line from the input stream are left out. The model starts from one line without its terminator.
- `src/main.cpp`, `src/ogr.cpp` and `src/geo_types.cpp` are not part of this model. They hold command-line handling, file I/O and GDAL conversions.
- Coordinates, areas and keys are mathematical reals. IEEE-754 rounding, NaN and infinities are not modelled.
- The initial running maximum `-DBL_MAX` is modelled as `None` of an `Option`.
- `new`/`delete` of the engine's nodes, the heap's destructor and the private copy operations are not modelled. The nodes are arena arrays indexed by vertex.
- `cross_product_norm` is declared in `src/polyline.h:33`, but its definition is not part of this model. It is modelled as the magnitude of `cross_product`, which gives the values the unit test expects.
- `validate_heap_state` compares a parent to its child with the strict comparator, which would reject a valid heap holding two equal keys. The model's heap order is the non-strict form.
- Engine.ComputeEffectiveAreas: requires a non-empty line. On an empty line the original's loop bound `input.size()-1` wraps around.
- Visvalingam.RunLinestring: requires a non-empty line, for the same reason.
- Visvalingam.RunPolygon: requires every ring to be non-empty, for the same reason.
- Visvalingam.RunMultiPolygon: requires every ring of every polygon to be non-empty, for the same reason.
- Visvalingam.SimplifyRatio: requires `n*ratio/100 < n` (by `RatioInRange`, `ratio < 100`), the bound the original asserts.
- The product `n*ratio` is unbounded; `size_t` overflow is not modelled.
- IndexedHeap.Heap.Insert: requires the handle not to be resident and to index the key table. The original leaves this to its callers. A handle inserted twice would make its index map stop matching the slots.
- The unused local `simplified_linestring` of `run_visvalingam` is not modelled.
- Which of several equal-key vertices is popped first depends on the heap's layout. The model only proves that some least-key vertex is popped: the elimination is a relation between the line and its pop order, not a function.
- The heap tests' values are `int32_t`; the examples use real keys with the same values. The reheap test's final loop, which pops and deletes the remaining elements, is not modelled.
- CSV: `readNextRow` and `getNextLineAndSplitIntoTokens` share one loop. Both are modelled by `SplitIntoTokens`, and `CsvRow.ReadNextRow` calls it.
