/** A reference definition of Visvalingam–Whyatt elimination, independent of
    the heap and of the node arena the engine uses.

    A run is described by the order in which interior vertices are eliminated.
    The state before each elimination is the set of vertices already removed;
    the neighbours of a remaining vertex are the nearest vertices on each side
    that have not been removed, and its key is the area of the triangle it forms
    with them. Each step removes a remaining queued vertex of least key, and the
    effective area recorded for it is the largest key popped so far. */
module Elimination {
  import opened Geometry

  /** Interior vertices whose initial triangle is no larger than this are
      treated as collinear: they are never queued and keep effective area 0. */
  const NearlyZero: real := 0.0000001

  /** The area of the triangle a vertex forms with two others of the line,
      given by their indices. */
  function TriangleArea(line: Linestring, current: nat, previous: nat, next: nat): (a: real)
    requires current < |line| && previous < |line| && next < |line|
    ensures a >= 0.0
    ensures a == ShoelaceArea(line[previous], line[current], line[next])
  {
    EffectiveAreaIsTriangleArea(line[current], line[previous], line[next]);
    EffectiveArea(line[current], line[previous], line[next])
  }

  /** The vertices the engine queues: interior ones whose triangle with their
      two original neighbours exceeds NearlyZero. */
  predicate Inserted(line: Linestring, v: nat)
  {
    0 < v < |line| - 1 && TriangleArea(line, v, v - 1, v + 1) > NearlyZero
  }

  /** The queueing test measured by the shoelace formula, and what it rules
      out: a queued vertex repeats neither neighbour, and the neighbours
      differ. */
  lemma QueuedTriangle(line: Linestring, v: nat)
    ensures Inserted(line, v) <==>
      0 < v < |line| - 1 && ShoelaceArea(line[v - 1], line[v], line[v + 1]) > NearlyZero
    ensures Inserted(line, v) ==>
      line[v - 1] != line[v] && line[v] != line[v + 1] && line[v - 1] != line[v + 1]
  {
  }

  /** The nearest index below v that is not removed (0 when there is none). */
  function PrevKept(removed: set<nat>, v: nat): (p: nat)
    ensures v == 0 ==> p == 0
    ensures v > 0 ==> p < v
    ensures p == 0 || p !in removed
    ensures forall j :: p < j < v ==> j in removed
    decreases v
  {
    if v == 0 then 0
    else if v - 1 !in removed then v - 1
    else PrevKept(removed, v - 1)
  }

  /** The nearest index above v, up to last, that is not removed (last when
      there is none). */
  function NextKept(removed: set<nat>, v: nat, last: nat): (n: nat)
    ensures v >= last ==> n == last
    ensures v < last ==> v < n <= last
    ensures n == last || n !in removed
    ensures forall j :: v < j < n ==> j in removed
    decreases if v < last then last - v else 0
  {
    if v >= last then last
    else if v + 1 !in removed then v + 1
    else NextKept(removed, v + 1, last)
  }

  /** PrevKept is determined by its three properties. */
  lemma PrevKeptUnique(removed: set<nat>, v: nat, p: nat)
    requires p < v && (p == 0 || p !in removed)
    requires forall j :: p < j < v ==> j in removed
    ensures PrevKept(removed, v) == p
  {
  }

  lemma NextKeptUnique(removed: set<nat>, v: nat, last: nat, n: nat)
    requires v < n <= last && (n == last || n !in removed)
    requires forall j :: v < j < n ==> j in removed
    ensures NextKept(removed, v, last) == n
  {
  }

  /** Removing a kept interior vertex c gives its kept successor c's kept
      predecessor, and leaves the predecessor of every other kept vertex alone. */
  lemma RemovalRelinksPrev(removed: set<nat>, last: nat, c: nat, v: nat)
    requires 0 < c < last && c !in removed && 0 !in removed
    requires v <= last && v !in removed && v != c
    ensures PrevKept(removed + {c}, v)
            == if v == NextKept(removed, c, last) then PrevKept(removed, c) else PrevKept(removed, v)
  {
    var after := removed + {c};
    if v == NextKept(removed, c, last) {
      PrevKeptUnique(after, v, PrevKept(removed, c));
    } else if v > 0 {
      var q := PrevKept(removed, v);
      if q < c < v {
        NextKeptUnique(removed, c, last, v);
      }
      PrevKeptUnique(after, v, q);
    }
  }

  /** Symmetrically, c's kept predecessor gets c's kept successor, and every
      other kept vertex keeps its successor. */
  lemma RemovalRelinksNext(removed: set<nat>, last: nat, c: nat, v: nat)
    requires 0 < c < last && c !in removed && last !in removed
    requires v <= last && v !in removed && v != c
    ensures NextKept(removed + {c}, v, last)
            == if v == PrevKept(removed, c) then NextKept(removed, c, last) else NextKept(removed, v, last)
  {
    var after := removed + {c};
    if v == PrevKept(removed, c) {
      NextKeptUnique(after, v, last, NextKept(removed, c, last));
    } else if v < last {
      var q := NextKept(removed, v, last);
      if v < c < q {
        PrevKeptUnique(removed, c, v);
      }
      NextKeptUnique(after, v, last, q);
    }
  }

  /** The key of vertex v once the vertices in `removed` are gone: the area of
      the triangle v forms with its nearest kept neighbours. */
  function Key(line: Linestring, removed: set<nat>, v: nat): (a: real)
    ensures a >= 0.0
    ensures removed == {} && 0 < v < |line| - 1 ==> a == TriangleArea(line, v, v - 1, v + 1)
  {
    if 0 < v < |line| - 1 then
      TriangleArea(line, v, PrevKept(removed, v), NextKept(removed, v, |line| - 1))
    else
      0.0
  }

  function Elements(s: seq<nat>): (e: set<nat>)
    ensures forall x :: x in e <==> x in s
  {
    set x | x in s
  }

  /** Appending to a sequence adds one element to its set. */
  lemma ElementsAppend(s: seq<nat>, c: nat)
    ensures Elements(s + [c]) == Elements(s) + {c}
  {
    forall x
      ensures x in Elements(s + [c]) <==> x in Elements(s) + {c}
    {
      assert x in s + [c] <==> x in s || x == c;
    }
  }

  /** With `removed` gone, c is a queued vertex still present whose key is
      least among all of them. */
  ghost predicate IsMinStep(line: Linestring, removed: set<nat>, c: nat)
  {
    && Inserted(line, c) && c !in removed
    && forall v :: Inserted(line, v) && v !in removed ==> Key(line, removed, c) <= Key(line, removed, v)
  }

  /** Every step of `order` eliminates a least-key vertex among those left. */
  ghost predicate IsPopOrder(line: Linestring, order: seq<nat>)
    decreases |order|
  {
    || |order| == 0
    || var before := order[..|order| - 1];
       IsPopOrder(line, before) && IsMinStep(line, Elements(before), order[|order| - 1])
  }

  /** Each step of a pop order is a least-key step. */
  lemma {:induction false} PopOrderAt(line: Linestring, order: seq<nat>, k: nat)
    requires IsPopOrder(line, order) && k < |order|
    ensures IsMinStep(line, Elements(order[..k]), order[k])
    decreases |order|
  {
    var before := order[..|order| - 1];
    if k < |order| - 1 {
      PopOrderAt(line, before, k);
      assert before[..k] == order[..k];
    }
  }

  /** Every queued vertex has been eliminated. */
  ghost predicate Complete(line: Linestring, order: seq<nat>)
  {
    forall v :: Inserted(line, v) ==> v in order
  }

  /** The key of each vertex of `order` at the moment it was eliminated. */
  function PopKeys(line: Linestring, order: seq<nat>): (keys: seq<real>)
    ensures |keys| == |order|
  {
    if |order| == 0 then []
    else
      var before := order[..|order| - 1];
      PopKeys(line, before) + [Key(line, Elements(before), order[|order| - 1])]
  }

  lemma {:induction false} PopKeysAt(line: Linestring, order: seq<nat>, k: nat)
    requires k < |order|
    ensures PopKeys(line, order)[k] == Key(line, Elements(order[..k]), order[k])
    decreases |order|
  {
    var before := order[..|order| - 1];
    if k < |order| - 1 {
      PopKeysAt(line, before, k);
      assert before[..k] == order[..k];
    }
  }

  function Max(a: real, b: real): (m: real)
    ensures m >= a && m >= b && (m == a || m == b)
  {
    if a < b then b else a
  }

  /** Entry j is the largest of s[0..j]. */
  function RunningMax(s: seq<real>): (r: seq<real>)
    ensures |r| == |s|
    ensures forall i, j :: 0 <= i <= j < |s| ==> s[i] <= r[j]
    ensures forall i, j :: 0 <= i <= j < |s| ==> r[i] <= r[j]
  {
    if |s| == 0 then []
    else
      var r := RunningMax(s[..|s| - 1]);
      var x := s[|s| - 1];
      r + [if |r| == 0 then x else Max(r[|r| - 1], x)]
  }

  /** Each running maximum is one of the values seen so far. */
  lemma {:induction false} RunningMaxAttained(s: seq<real>, j: nat)
    requires j < |s|
    ensures exists i :: 0 <= i <= j && RunningMax(s)[j] == s[i]
    decreases |s|
  {
    var front := s[..|s| - 1];
    if j < |s| - 1 {
      RunningMaxAttained(front, j);
      var i :| 0 <= i <= j && RunningMax(front)[j] == front[i];
      assert RunningMax(s)[j] == s[i];
    } else if j > 0 {
      RunningMaxAttained(front, j - 1);
      var i :| 0 <= i <= j - 1 && RunningMax(front)[j - 1] == front[i];
      assert RunningMax(s)[j] == s[i] || RunningMax(s)[j] == s[j];
    }
  }

  /** On a non-decreasing sequence the running maximum is the sequence
      itself. */
  lemma {:induction false} RunningMaxAscending(s: seq<real>)
    requires forall i, j :: 0 <= i < j < |s| ==> s[i] <= s[j]
    ensures RunningMax(s) == s
    decreases |s|
  {
    if |s| > 0 {
      var front := s[..|s| - 1];
      RunningMaxAscending(front);
      assert s == front + [s[|s| - 1]];
    }
  }

  /** What the engine computes for a line: `areas` has one entry per vertex,
      `order` eliminates every queued vertex, each by least current key, each
      eliminated vertex gets the running maximum of the keys popped so far, and
      every other vertex gets 0. */
  ghost predicate IsEliminationResult(line: Linestring, order: seq<nat>, areas: seq<real>)
  {
    && |areas| == |line|
    && IsPopOrder(line, order) && Complete(line, order)
    && (forall j :: 0 <= j < |order| ==> order[j] < |areas| && areas[order[j]] == RunningMax(PopKeys(line, order))[j])
    && (forall v :: 0 <= v < |areas| && v !in order ==> areas[v] == 0.0)
  }

  /** Extending a pop order by one least-key step. */
  lemma PopOrderExtend(line: Linestring, order: seq<nat>, c: nat)
    requires IsPopOrder(line, order) && IsMinStep(line, Elements(order), c)
    ensures IsPopOrder(line, order + [c])
    ensures PopKeys(line, order + [c]) == PopKeys(line, order) + [Key(line, Elements(order), c)]
  {
    var o := order + [c];
    assert o[..|order|] == order;
  }

  /** A pop order never eliminates a vertex twice, and eliminates only queued
      vertices. */
  lemma PopOrderDistinct(line: Linestring, order: seq<nat>)
    requires IsPopOrder(line, order)
    ensures forall j :: 0 <= j < |order| ==> Inserted(line, order[j])
    ensures forall i, j :: 0 <= i < j < |order| ==> order[i] != order[j]
  {
    forall i, j | 0 <= i < j < |order|
      ensures order[i] != order[j]
    {
      PopOrderAt(line, order, j);
      assert order[i] == order[..j][i];
    }
    forall j | 0 <= j < |order|
      ensures Inserted(line, order[j])
    {
      PopOrderAt(line, order, j);
    }
  }

  /** Endpoints and vertices that were never queued keep effective area 0. */
  lemma UnqueuedAreaZero(line: Linestring, order: seq<nat>, areas: seq<real>, v: nat)
    requires IsEliminationResult(line, order, areas) && v < |line| && !Inserted(line, v)
    ensures areas[v] == 0.0
  {
    PopOrderDistinct(line, order);
  }

  /** Effective areas are non-decreasing along the elimination order, and each
      is at least the key its vertex had when eliminated. */
  lemma AreasFollowOrder(line: Linestring, order: seq<nat>, areas: seq<real>, i: nat, j: nat)
    requires IsEliminationResult(line, order, areas) && i <= j < |order|
    ensures areas[order[i]] <= areas[order[j]]
    ensures areas[order[j]] >= Key(line, Elements(order[..j]), order[j])
  {
    PopKeysAt(line, order, j);
  }

  /** Every queued vertex ends with an effective area above NearlyZero: the
      first vertex eliminated had its initial triangle above it, and the running
      maximum never decreases. */
  lemma QueuedAreaPositive(line: Linestring, order: seq<nat>, areas: seq<real>, v: nat)
    requires IsEliminationResult(line, order, areas) && Inserted(line, v)
    ensures areas[v] > NearlyZero
  {
    var j :| 0 <= j < |order| && order[j] == v;
    PopKeysAt(line, order, 0);
    assert order[..0] == [];
    PopOrderAt(line, order, 0);
    assert Elements(order[..0]) == {};
  }

  /** Any threshold cuts the elimination order in two: the queued vertices
      whose effective area is at most t are exactly the first k eliminated, for
      some k. A simplification at t therefore keeps exactly the vertices left
      after k elimination steps. */
  lemma ThresholdCutsOrder(line: Linestring, order: seq<nat>, areas: seq<real>, t: real)
    returns (k: nat)
    requires IsEliminationResult(line, order, areas)
    ensures k <= |order|
    ensures forall j :: 0 <= j < |order| ==> (areas[order[j]] <= t <==> j < k)
  {
    var r := RunningMax(PopKeys(line, order));
    assert forall j :: 0 <= j < |order| ==> areas[order[j]] == r[j];
    k := 0;
    while k < |r| && r[k] <= t
      invariant k <= |r|
      invariant forall j :: 0 <= j < k ==> r[j] <= t
    {
      k := k + 1;
    }
  }
}
