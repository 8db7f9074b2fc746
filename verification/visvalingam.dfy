/** The simplifier built on the engine: a constructed algorithm holds the
    input line it borrows and the effective area of every vertex; simplifying
    at a threshold keeps the endpoints and every interior vertex whose
    effective area exceeds the threshold, and collapses a result of fewer
    than four points to the empty line. */
module Visvalingam {
  import opened Geometry
  import opened Elimination
  import opened Engine
  import opened Sorting

  /** A constructed algorithm: the input line and its table of effective
      areas, one per vertex. */
  datatype Algorithm = Algorithm(input: Linestring, effectiveAreas: seq<real>)

  /** The threshold the batch entry points simplify at. */
  const RunThreshold: real := 0.002

  /** Builds the algorithm for a non-empty line: runs the elimination and
      keeps its table of effective areas. */
  method Build(input: Linestring) returns (alg: Algorithm, ghost order: seq<nat>)
    requires |input| > 0
    ensures alg.input == input
    ensures IsEliminationResult(input, order, alg.effectiveAreas)
  {
    var areas;
    areas, order := ComputeEffectiveAreas(input);
    alg := Algorithm(input, areas);
  }

  /** The keep/drop rule: endpoints are always kept, since their areas are
      never evaluated; an interior vertex is kept exactly when its effective
      area is strictly greater than the threshold. */
  function ContainsVertex(alg: Algorithm, v: nat, t: real): (keep: bool)
    requires v < |alg.effectiveAreas|
    ensures v == 0 || v == |alg.effectiveAreas| - 1 ==> keep
    ensures 0 < v < |alg.effectiveAreas| - 1 ==> (keep <==> alg.effectiveAreas[v] > t)
  {
    if v == 0 || v == |alg.effectiveAreas| - 1 then true
    else alg.effectiveAreas[v] > t
  }

  /** The vertices below n that pass the rule at threshold t, in increasing
      order. */
  function KeptIndices(alg: Algorithm, t: real, n: nat): (ix: seq<nat>)
    requires n <= |alg.effectiveAreas|
    ensures forall j :: 0 <= j < |ix| ==> ix[j] < n
    ensures forall i, j :: 0 <= i < j < |ix| ==> ix[i] < ix[j]
    ensures forall v :: 0 <= v < n ==> (v in ix <==> ContainsVertex(alg, v, t))
    decreases n
  {
    if n == 0 then []
    else KeptIndices(alg, t, n - 1) + (if ContainsVertex(alg, n - 1, t) then [n - 1] else [])
  }

  /** The points of a line at the given indices. */
  function Points(line: Linestring, ix: seq<nat>): (ps: Linestring)
    requires forall j :: 0 <= j < |ix| ==> ix[j] < |line|
    ensures |ps| == |ix|
    ensures forall j :: 0 <= j < |ix| ==> ps[j] == line[ix[j]]
  {
    seq(|ix|, j requires 0 <= j < |ix| => line[ix[j]])
  }

  /** What simplifying at threshold t leaves in `res`: the kept points are
      appended in index order, and the whole of `res` is cleared when it then
      holds fewer than four points. */
  function Simplified(alg: Algorithm, t: real, res: Linestring): (out: Linestring)
    requires |alg.input| == |alg.effectiveAreas|
    ensures |out| == 0 || |out| >= 4
    ensures out != [] ==> |out| >= |res| && out[..|res|] == res
  {
    var kept := Points(alg.input, KeptIndices(alg, t, |alg.input|));
    if |res| + |kept| < 4 then [] else res + kept
  }

  /** Appends the points that pass the rule to `res`, in index order, then
      clears `res` when it holds fewer than four points. */
  method Simplify(alg: Algorithm, t: real, res: Linestring) returns (out: Linestring)
    requires |alg.input| == |alg.effectiveAreas|
    ensures out == Simplified(alg, t, res)
  {
    out := res;
    var i := 0;
    while i < |alg.input|
      invariant i <= |alg.input|
      invariant out == res + Points(alg.input, KeptIndices(alg, t, i))
    {
      KeptPointsStep(alg, t, i);
      if ContainsVertex(alg, i, t) {
        out := out + [alg.input[i]];
      }
      i := i + 1;
    }
    if |out| < 4 {
      out := [];
    }
  }

  /** The points kept below i + 1: those kept below i, then point i when it
      passes the rule. */
  lemma KeptPointsStep(alg: Algorithm, t: real, i: nat)
    requires i < |alg.input| == |alg.effectiveAreas|
    ensures Points(alg.input, KeptIndices(alg, t, i + 1)) ==
      Points(alg.input, KeptIndices(alg, t, i)) + (if ContainsVertex(alg, i, t) then [alg.input[i]] else [])
  {
    var before := KeptIndices(alg, t, i);
    if ContainsVertex(alg, i, t) {
      assert KeptIndices(alg, t, i + 1) == before + [i];
      assert Points(alg.input, before + [i]) == Points(alg.input, before) + [alg.input[i]];
    } else {
      assert KeptIndices(alg, t, i + 1) == before;
    }
  }

  /** A simplified line that is not empty starts with the first input point
      and ends with the last one, when nothing was in `res` before. */
  lemma SimplifiedKeepsEndpoints(alg: Algorithm, t: real)
    requires 0 < |alg.input| == |alg.effectiveAreas|
    requires Simplified(alg, t, []) != []
    ensures Simplified(alg, t, [])[0] == alg.input[0]
    ensures Simplified(alg, t, [])[|Simplified(alg, t, [])| - 1] == alg.input[|alg.input| - 1]
  {
    SimplifiedFromEmpty(alg, t);
    KeptPointsEnds(alg, t);
  }

  /** The kept points of a non-empty line start and end with its endpoints. */
  lemma KeptPointsEnds(alg: Algorithm, t: real)
    requires 0 < |alg.input| == |alg.effectiveAreas|
    ensures var ps := Points(alg.input, KeptIndices(alg, t, |alg.input|));
      |ps| > 0 && ps[0] == alg.input[0] && ps[|ps| - 1] == alg.input[|alg.input| - 1]
  {
    KeptEnds(alg, t);
    PointsEnds(alg.input, KeptIndices(alg, t, |alg.input|));
  }

  /** Simplifying into an empty `res` gives the kept points, or nothing. */
  lemma SimplifiedFromEmpty(alg: Algorithm, t: real)
    requires |alg.input| == |alg.effectiveAreas|
    ensures var out := Simplified(alg, t, []);
      out == [] || out == Points(alg.input, KeptIndices(alg, t, |alg.input|))
  {
    var kept := Points(alg.input, KeptIndices(alg, t, |alg.input|));
    assert [] + kept == kept;
  }

  /** Points at indices that start at 0 and end at the last index start and
      end with the line's endpoints. */
  lemma PointsEnds(line: Linestring, ix: seq<nat>)
    requires forall j :: 0 <= j < |ix| ==> ix[j] < |line|
    requires |ix| > 0 && ix[0] == 0 && ix[|ix| - 1] == |line| - 1
    ensures Points(line, ix)[0] == line[0]
    ensures Points(line, ix)[|ix| - 1] == line[|line| - 1]
  {
  }

  /** The kept indices of a non-empty line start with 0 and end with its last
      index. */
  lemma KeptEnds(alg: Algorithm, t: real)
    requires 0 < |alg.input| == |alg.effectiveAreas|
    ensures var ix := KeptIndices(alg, t, |alg.input|);
      |ix| > 0 && ix[0] == 0 && ix[|ix| - 1] == |alg.input| - 1
  {
    var n := |alg.input|;
    var ix := KeptIndices(alg, t, n);
    assert ContainsVertex(alg, 0, t) && ContainsVertex(alg, n - 1, t);
    IncreasingEnds(ix, n);
  }

  /** A strictly increasing sequence of indices below n that holds 0 and
      n - 1 starts with 0 and ends with n - 1. */
  lemma IncreasingEnds(ix: seq<nat>, n: nat)
    requires forall j :: 0 <= j < |ix| ==> ix[j] < n
    requires forall i, j :: 0 <= i < j < |ix| ==> ix[i] < ix[j]
    requires 0 in ix && n - 1 in ix
    ensures ix[0] == 0 && ix[|ix| - 1] == n - 1
  {
    var a :| 0 <= a < |ix| && ix[a] == 0;
    var b :| 0 <= b < |ix| && ix[b] == n - 1;
    assert ix[0] <= ix[a] && ix[b] <= ix[|ix| - 1];
  }

  /** The kept indices are the only strictly increasing sequence of indices
      below n that holds exactly the vertices passing the rule. */
  lemma KeptIndicesUnique(alg: Algorithm, t: real, n: nat, ix: seq<nat>)
    requires n <= |alg.effectiveAreas|
    requires forall j :: 0 <= j < |ix| ==> ix[j] < n
    requires forall i, j :: 0 <= i < j < |ix| ==> ix[i] < ix[j]
    requires forall v :: 0 <= v < n ==> (v in ix <==> ContainsVertex(alg, v, t))
    ensures KeptIndices(alg, t, n) == ix
  {
    var kept := KeptIndices(alg, t, n);
    forall v
      ensures v in kept <==> v in ix
    {
      if v in kept {
        var j :| 0 <= j < |kept| && kept[j] == v;
      }
      if v in ix {
        var j :| 0 <= j < |ix| && ix[j] == v;
      }
    }
    IncreasingUnique(kept, ix);
  }

  /** Two strictly increasing sequences with the same members are equal. */
  lemma {:induction false} IncreasingUnique(a: seq<nat>, b: seq<nat>)
    requires forall i, j :: 0 <= i < j < |a| ==> a[i] < a[j]
    requires forall i, j :: 0 <= i < j < |b| ==> b[i] < b[j]
    requires forall v :: v in a <==> v in b
    ensures a == b
    decreases |a|
  {
    if |b| > 0 {
      assert b[|b| - 1] in a;
    }
    if |a| > 0 {
      assert a[|a| - 1] in b;
      assert |b| > 0;
      var x, y := a[|a| - 1], b[|b| - 1];
      assert y in a;
      assert x == y by {
        var i :| 0 <= i < |b| && b[i] == x;
        var j :| 0 <= j < |a| && a[j] == y;
        assert x <= y && y <= x;
      }
      var a', b' := a[..|a| - 1], b[..|b| - 1];
      forall v
        ensures v in a' <==> v in b'
      {
        if v in a' {
          var i :| 0 <= i < |a'| && a'[i] == v;
          assert v < x && v in b;
          var j :| 0 <= j < |b| && b[j] == v;
          assert j < |b| - 1 && b'[j] == v;
        }
        if v in b' {
          var i :| 0 <= i < |b'| && b'[i] == v;
          assert v < y && v in a;
          var j :| 0 <= j < |a| && a[j] == v;
          assert j < |a| - 1 && a'[j] == v;
        }
      }
      IncreasingUnique(a', b');
      assert a == a' + [x] && b == b' + [y];
    }
  }

  /** Retention is monotonic: a vertex kept at a threshold is kept at every
      lower one, so a lower threshold never keeps fewer vertices. */
  lemma {:induction false} KeptMonotone(alg: Algorithm, t1: real, t2: real, n: nat)
    requires t1 <= t2 && n <= |alg.effectiveAreas|
    ensures forall v :: v in KeptIndices(alg, t2, n) ==> v in KeptIndices(alg, t1, n)
    ensures |KeptIndices(alg, t2, n)| <= |KeptIndices(alg, t1, n)|
    decreases n
  {
    if n > 0 {
      KeptMonotone(alg, t1, t2, n - 1);
    }
  }

  /** An interior vertex whose initial triangle is nearly zero is never
      queued, keeps area 0 and so is dropped at every threshold that is not
      negative. */
  lemma CollinearDropped(alg: Algorithm, order: seq<nat>, v: nat, t: real)
    requires IsEliminationResult(alg.input, order, alg.effectiveAreas)
    requires 0 < v < |alg.input| - 1 && TriangleArea(alg.input, v, v - 1, v + 1) <= NearlyZero
    requires t >= 0.0
    ensures !ContainsVertex(alg, v, t)
  {
    UnqueuedAreaZero(alg.input, order, alg.effectiveAreas, v);
  }

  /** A queued vertex is kept at every threshold up to NearlyZero. */
  lemma QueuedKept(alg: Algorithm, order: seq<nat>, v: nat, t: real)
    requires IsEliminationResult(alg.input, order, alg.effectiveAreas)
    requires Inserted(alg.input, v) && t <= NearlyZero
    ensures ContainsVertex(alg, v, t)
  {
    QueuedAreaPositive(alg.input, order, alg.effectiveAreas, v);
  }

  /** Simplifying at a threshold that is not negative keeps exactly the
      endpoints and the vertices still present after some number k of
      elimination steps: the interior vertices dropped are the first k
      eliminated. */
  lemma KeptAfterSteps(alg: Algorithm, order: seq<nat>, t: real) returns (k: nat)
    requires IsEliminationResult(alg.input, order, alg.effectiveAreas) && t >= 0.0
    ensures k <= |order|
    ensures forall v :: 0 < v < |alg.input| - 1 ==>
      (ContainsVertex(alg, v, t) <==> Inserted(alg.input, v) && v !in order[..k])
  {
    k := ThresholdCutsOrder(alg.input, order, alg.effectiveAreas, t);
    PopOrderDistinct(alg.input, order);
    forall v | 0 < v < |alg.input| - 1
      ensures ContainsVertex(alg, v, t) <==> Inserted(alg.input, v) && v !in order[..k]
    {
      KeptAfterStepsAt(alg, order, t, k, v);
    }
  }

  /** KeptAfterSteps for one interior vertex v, given the cut k. */
  lemma KeptAfterStepsAt(alg: Algorithm, order: seq<nat>, t: real, k: nat, v: nat)
    requires IsEliminationResult(alg.input, order, alg.effectiveAreas) && t >= 0.0
    requires k <= |order|
    requires forall j :: 0 <= j < |order| ==> (alg.effectiveAreas[order[j]] <= t <==> j < k)
    requires forall j :: 0 <= j < |order| ==> Inserted(alg.input, order[j])
    requires forall i, j :: 0 <= i < j < |order| ==> order[i] != order[j]
    requires 0 < v < |alg.input| - 1
    ensures ContainsVertex(alg, v, t) <==> Inserted(alg.input, v) && v !in order[..k]
  {
    if Inserted(alg.input, v) {
      var j :| 0 <= j < |order| && order[j] == v;
      if v in order[..k] {
        var i :| 0 <= i < k && order[..k][i] == v;
        assert order[i] == order[j];
      }
    } else {
      UnqueuedAreaZero(alg.input, order, alg.effectiveAreas, v);
      assert forall i :: 0 <= i < k ==> order[..k][i] != v by {
        assert forall i :: 0 <= i < k ==> order[..k][i] == order[i] && Inserted(alg.input, order[i]);
      }
    }
  }

  /** The threshold of a simplification by ratio: the entry of the sorted
      table at position n * ratio / 100, an order statistic of the areas. */
  function RatioThreshold(areas: seq<real>, ratio: nat): (t: real)
    requires |areas| * ratio / 100 < |areas|
    ensures CountBelow(areas, t) <= |areas| * ratio / 100 < CountAtMost(areas, t)
  {
    OrderStatistic(areas, |areas| * ratio / 100);
    Sort(areas)[|areas| * ratio / 100]
  }

  /** The position read from the sorted table is inside it exactly when the
      ratio is below 100. */
  lemma RatioInRange(n: nat, ratio: nat)
    requires n > 0
    ensures n * ratio / 100 < n <==> ratio < 100
  {
    if ratio < 100 {
      assert n * ratio < n * 100;
    } else {
      assert n * ratio >= n * 100;
    }
  }

  /** Simplifies at the threshold that `ratio` percent of the sorted area
      table lies below. */
  method SimplifyRatio(alg: Algorithm, ratio: nat, res: Linestring) returns (out: Linestring)
    requires |alg.input| == |alg.effectiveAreas|
    requires |alg.effectiveAreas| * ratio / 100 < |alg.effectiveAreas|
    ensures out == Simplified(alg, RatioThreshold(alg.effectiveAreas, ratio), res)
  {
    var orderedArea := Sort(alg.effectiveAreas);
    var idx := |alg.effectiveAreas| * ratio / 100;
    var threshold := orderedArea[idx];
    out := Simplify(alg, threshold, res);
  }

  /** `out` is what simplifying `line` at threshold t leaves in `res`, for
      the run of the elimination on `line` that pops in `order` and computes
      `areas`. */
  ghost predicate SimplifiedBy(line: Linestring, order: seq<nat>, areas: seq<real>, t: real,
                               res: Linestring, out: Linestring)
  {
    IsEliminationResult(line, order, areas) && out == Simplified(Algorithm(line, areas), t, res)
  }

  /** `out` is what simplifying `line` at threshold t leaves in `res`, for
      some run of the elimination on `line`. */
  ghost predicate IsSimplification(line: Linestring, t: real, res: Linestring, out: Linestring)
  {
    exists order: seq<nat>, areas: seq<real> :: SimplifiedBy(line, order, areas, t, res, out)
  }

  /** Simplifies one line at the fixed threshold. */
  method RunLinestring(shape: Linestring, res: Linestring) returns (out: Linestring)
    requires |shape| > 0
    ensures IsSimplification(shape, RunThreshold, res, out)
  {
    var alg, order := Build(shape);
    out := Simplify(alg, RunThreshold, res);
    assert SimplifiedBy(shape, order, alg.effectiveAreas, RunThreshold, res, out);
  }

  /** `q` is the simplification of polygon p: the same number of rings, each
      simplified at the fixed threshold. */
  ghost predicate PolygonSimplified(p: Polygon, q: Polygon)
  {
    && IsSimplification(p.exteriorRing, RunThreshold, [], q.exteriorRing)
    && |q.interiorRings| == |p.interiorRings|
    && forall j :: 0 <= j < |p.interiorRings| ==>
         IsSimplification(p.interiorRings[j], RunThreshold, [], q.interiorRings[j])
  }

  /** Every ring of every polygon is non-empty. */
  ghost predicate RingsNonEmpty(shape: MultiPolygon)
  {
    forall i :: 0 <= i < |shape| ==>
      |shape[i].exteriorRing| > 0 &&
      forall j :: 0 <= j < |shape[i].interiorRings| ==> |shape[i].interiorRings[j]| > 0
  }

  /** Simplifies every ring of one polygon into a fresh polygon. */
  method RunPolygon(poly: Polygon) returns (q: Polygon)
    requires |poly.exteriorRing| > 0
    requires forall j :: 0 <= j < |poly.interiorRings| ==> |poly.interiorRings[j]| > 0
    ensures PolygonSimplified(poly, q)
  {
    var exterior := RunLinestring(poly.exteriorRing, []);
    var interiors: seq<Linestring> := [];
    var j := 0;
    while j < |poly.interiorRings|
      invariant j <= |poly.interiorRings| && |interiors| == j
      invariant forall h :: 0 <= h < j ==> IsSimplification(poly.interiorRings[h], RunThreshold, [], interiors[h])
    {
      var ring := RunLinestring(poly.interiorRings[j], []);
      interiors := interiors + [ring];
      j := j + 1;
    }
    q := Polygon(exterior, interiors);
  }

  /** Appends to `res` one simplified polygon per input polygon, in order. */
  method RunMultiPolygon(shape: MultiPolygon, res: MultiPolygon) returns (out: MultiPolygon)
    requires RingsNonEmpty(shape)
    ensures |out| == |res| + |shape| && out[..|res|] == res
    ensures forall i :: 0 <= i < |shape| ==> PolygonSimplified(shape[i], out[|res| + i])
  {
    out := res;
    var i := 0;
    while i < |shape|
      invariant i <= |shape| && |out| == |res| + i && out[..|res|] == res
      invariant forall h :: 0 <= h < i ==> PolygonSimplified(shape[h], out[|res| + h])
    {
      var q := RunPolygon(shape[i]);
      out := out + [q];
      i := i + 1;
    }
  }
}
