/** Sorting a table of reals into ascending order, and counting the entries at
    or below a value. The simplification by ratio sorts a copy of the area
    table and reads one entry of it; the counts say which entry that is: the
    value with exactly so many entries below it. */
module Sorting {

  ghost predicate Ascending(s: seq<real>)
  {
    forall i, j :: 0 <= i < j < |s| ==> s[i] <= s[j]
  }

  /** Inserts x into an ascending sequence, before the first larger entry. */
  function InsertAscending(x: real, s: seq<real>): (r: seq<real>)
    requires Ascending(s)
    ensures Ascending(r)
    ensures multiset(r) == multiset(s) + multiset{x}
    ensures |r| == |s| + 1
    ensures r[0] == if |s| == 0 || x <= s[0] then x else s[0]
  {
    if |s| == 0 then [x]
    else if x <= s[0] then [x] + s
    else
      var rest := InsertAscending(x, s[1..]);
      assert s == [s[0]] + s[1..];
      assert s[0] <= rest[0];
      [s[0]] + rest
  }

  /** The entries of s in ascending order. */
  function Sort(s: seq<real>): (r: seq<real>)
    ensures Ascending(r)
    ensures multiset(r) == multiset(s)
    ensures |r| == |s|
  {
    if |s| == 0 then []
    else
      assert s == [s[0]] + s[1..];
      InsertAscending(s[0], Sort(s[1..]))
  }

  /** Number of entries no greater than t. */
  function CountAtMost(s: seq<real>, t: real): (n: nat)
    ensures n <= |s|
  {
    if |s| == 0 then 0
    else CountAtMost(s[..|s| - 1], t) + (if s[|s| - 1] <= t then 1 else 0)
  }

  /** Number of entries strictly below t. */
  function CountBelow(s: seq<real>, t: real): (n: nat)
    ensures n <= |s|
  {
    if |s| == 0 then 0
    else CountBelow(s[..|s| - 1], t) + (if s[|s| - 1] < t then 1 else 0)
  }

  lemma {:induction false} CountsAppend(a: seq<real>, b: seq<real>, t: real)
    ensures CountAtMost(a + b, t) == CountAtMost(a, t) + CountAtMost(b, t)
    ensures CountBelow(a + b, t) == CountBelow(a, t) + CountBelow(b, t)
    decreases |b|
  {
    if |b| > 0 {
      var b' := b[..|b| - 1];
      assert (a + b)[..|a + b| - 1] == a + b';
      CountsAppend(a, b', t);
    } else {
      assert a + b == a;
    }
  }

  /** The counts depend only on the multiset of entries, so sorting keeps
      them. */
  lemma {:induction false} CountsPermutation(a: seq<real>, b: seq<real>, t: real)
    requires multiset(a) == multiset(b)
    ensures CountAtMost(a, t) == CountAtMost(b, t)
    ensures CountBelow(a, t) == CountBelow(b, t)
    decreases |a|
  {
    if |a| == 0 {
      assert |b| == |multiset(b)| == 0;
    } else {
      var x := a[|a| - 1];
      var a' := a[..|a| - 1];
      assert a == a' + [x];
      assert x in multiset(b);
      var k :| 0 <= k < |b| && b[k] == x;
      var b' := b[..k] + b[k + 1..];
      CountsWithout(b, k, t);
      assert multiset(a') == multiset(a) - multiset{x};
      CountsPermutation(a', b', t);
    }
  }

  /** Taking entry k out of b takes it out of the multiset of entries and
      out of the counts. */
  lemma CountsWithout(b: seq<real>, k: nat, t: real)
    requires k < |b|
    ensures multiset(b[..k] + b[k + 1..]) == multiset(b) - multiset{b[k]}
    ensures CountAtMost(b, t) == CountAtMost(b[..k] + b[k + 1..], t) + CountAtMost([b[k]], t)
    ensures CountBelow(b, t) == CountBelow(b[..k] + b[k + 1..], t) + CountBelow([b[k]], t)
  {
    var x := b[k];
    assert b == b[..k] + [x] + b[k + 1..];
    CountsAppend(b[..k], [x], t);
    CountsAppend(b[..k] + [x], b[k + 1..], t);
    CountsAppend(b[..k], b[k + 1..], t);
  }

  lemma {:induction false} PrefixAtMost(s: seq<real>, t: real)
    requires forall j :: 0 <= j < |s| ==> s[j] <= t
    ensures CountAtMost(s, t) == |s|
    decreases |s|
  {
    if |s| > 0 {
      PrefixAtMost(s[..|s| - 1], t);
    }
  }

  lemma {:induction false} SuffixNotBelow(s: seq<real>, t: real)
    requires forall j :: 0 <= j < |s| ==> t <= s[j]
    ensures CountBelow(s, t) == 0
    decreases |s|
  {
    if |s| > 0 {
      SuffixNotBelow(s[..|s| - 1], t);
    }
  }

  /** In an ascending sequence, at most i entries lie strictly below entry i
      and more than i lie at or below it. */
  lemma AscendingRank(r: seq<real>, i: nat)
    requires Ascending(r) && i < |r|
    ensures CountBelow(r, r[i]) <= i < CountAtMost(r, r[i])
  {
    RankBelow(r, i);
    RankAtMost(r, i);
  }

  /** No entry from position i on is below entry i. */
  lemma RankBelow(r: seq<real>, i: nat)
    requires Ascending(r) && i < |r|
    ensures CountBelow(r, r[i]) <= i
  {
    var t := r[i];
    SuffixCount(r, i);
    assert r == r[..i] + r[i..];
    CountsAppend(r[..i], r[i..], t);
  }

  /** Every entry up to position i is at most entry i. */
  lemma RankAtMost(r: seq<real>, i: nat)
    requires Ascending(r) && i < |r|
    ensures i < CountAtMost(r, r[i])
  {
    var t := r[i];
    PrefixCount(r, i);
    assert r == r[..i + 1] + r[i + 1..];
    CountsAppend(r[..i + 1], r[i + 1..], t);
  }

  lemma PrefixCount(r: seq<real>, i: nat)
    requires Ascending(r) && i < |r|
    ensures CountAtMost(r[..i + 1], r[i]) == i + 1
  {
    var front := r[..i + 1];
    assert forall j :: 0 <= j < |front| ==> front[j] == r[j];
    PrefixAtMost(front, r[i]);
  }

  lemma SuffixCount(r: seq<real>, i: nat)
    requires Ascending(r) && i < |r|
    ensures CountBelow(r[i..], r[i]) == 0
  {
    var back := r[i..];
    assert forall j :: 0 <= j < |back| ==> back[j] == r[i + j];
    SuffixNotBelow(back, r[i]);
  }

  /** Entry i of the sorted table is an i-th smallest entry of the table: at
      most i entries lie strictly below it and more than i lie at or below
      it. */
  lemma OrderStatistic(s: seq<real>, i: nat)
    requires i < |s|
    ensures CountBelow(s, Sort(s)[i]) <= i < CountAtMost(s, Sort(s)[i])
  {
    var r := Sort(s);
    AscendingRank(r, i);
    CountsPermutation(s, r, r[i]);
  }
}
