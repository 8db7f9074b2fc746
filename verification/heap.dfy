/** A fixed-capacity binary min-heap of element handles that also keeps a map from
    each resident handle to its slot, so that `Reheap` can restore heap order
    after the key of one resident was changed outside the heap.

    Handles are natural numbers (the engine uses vertex indices). The ordering
    reads the keys through a table shared with the caller, `keys`, the way the
    comparator of the original reads node areas through node references: the caller may
    change `keys[h]` and then call `Reheap(h)`. */
module IndexedHeap {
  import opened Optional

  /** Slot of the parent of slot n; the root has none. */
  function Parent(n: nat): (p: Option<nat>)
    ensures n == 0 <==> p == None
    ensures p.Some? ==> p.value < n && (2 * p.value + 1 == n || 2 * p.value + 2 == n)
  {
    if n == 0 then None else Some((n - 1) / 2)
  }

  function LeftChild(n: nat): (c: nat)
    ensures Parent(c) == Some(n)
  {
    2 * n + 1
  }

  function RightChild(n: nat): (c: nat)
    ensures Parent(c) == Some(n) && c == LeftChild(n) + 1
  {
    2 * n + 2
  }

  // Heap order and the index map, stated on the occupied prefix `s` of the
  // slot array and on a key table `k`.

  /** Every resident is a valid index into a key table of the given length. */
  ghost predicate Handles(bound: nat, s: seq<nat>)
  {
    forall i :: 0 <= i < |s| ==> s[i] < bound
  }

  /** Slot a holds a key no greater than slot b. */
  ghost predicate LeAt(k: seq<real>, s: seq<nat>, a: nat, b: nat)
  {
    a < |s| && b < |s| && s[a] < |k| && s[b] < |k| && k[s[a]] <= k[s[b]]
  }

  /** The edge between slot i and its parent is in order. */
  ghost predicate EdgeOk(k: seq<real>, s: seq<nat>, i: nat)
  {
    0 < i < |s| ==> LeAt(k, s, (i - 1) / 2, i)
  }

  /** Slot n's parent is no greater than slot c, a child of n. */
  ghost predicate BridgeOk(k: seq<real>, s: seq<nat>, n: nat, c: nat)
  {
    0 < n ==> LeAt(k, s, (n - 1) / 2, c)
  }

  /** Heap order: no slot compares less than its parent, so the root holds
      a least key. */
  ghost predicate HeapOrdered(k: seq<real>, s: seq<nat>)
    ensures HeapOrdered(k, s) ==> forall i :: 0 < i < |s| ==> LeAt(k, s, 0, i)
  {
    RootLeast(k, s);
    forall i :: 0 < i < |s| ==> EdgeOk(k, s, i)
  }

  /** Heap order on every edge that does not touch slot n, and n's parent is no
      greater than n's children. */
  ghost predicate Around(k: seq<real>, s: seq<nat>, n: nat)
  {
    && (forall i :: 0 < i < |s| && i != n && (i - 1) / 2 != n ==> EdgeOk(k, s, i))
    && (forall c :: 0 < c < |s| && (c - 1) / 2 == n ==> BridgeOk(k, s, n, c))
  }

  ghost predicate ChildrenOk(k: seq<real>, s: seq<nat>, n: nat)
  {
    forall c :: 0 < c < |s| && (c - 1) / 2 == n ==> EdgeOk(k, s, c)
  }

  /** The index map is a bijection between the residents and their slots. */
  ghost predicate IndexMatches(s: seq<nat>, index: map<nat, nat>)

  {
    && (forall i :: 0 <= i < |s| ==> s[i] in index && index[s[i]] == i)
    && (forall e :: e in index ==> index[e] < |s| && s[index[e]] == e)
  }

  /** As IndexMatches, except that the resident of slot n, distinct from all
      others, may be missing from the map or mapped to a stale slot. */
  ghost predicate IndexExcept(s: seq<nat>, index: map<nat, nat>, n: nat)
  {
    && n < |s|
    && (forall i :: 0 <= i < |s| && i != n ==> s[i] in index && index[s[i]] == i)
    && (forall e :: e in index && e != s[n] ==> index[e] < |s| && s[index[e]] == e)
    && (forall i :: 0 <= i < |s| && i != n ==> s[i] != s[n])
  }

  function Swapped(s: seq<nat>, i: nat, j: nat): (t: seq<nat>)
    requires i < |s| && j < |s|
    ensures |t| == |s| && t[i] == s[j] && t[j] == s[i]
    ensures forall h :: 0 <= h < |s| && h != i && h != j ==> t[h] == s[h]
    ensures multiset(t) == multiset(s)
  {
    s[i := s[j]][j := s[i]]
  }

  lemma IndexSettle(s: seq<nat>, index: map<nat, nat>, n: nat)
    requires IndexExcept(s, index, n)
    ensures IndexMatches(s, index[s[n] := n])
  {
  }

  lemma IndexMatchesExcept(s: seq<nat>, index: map<nat, nat>, n: nat)
    requires IndexMatches(s, index) && n < |s|
    ensures IndexExcept(s, index, n)
  {
  }

  /** Exchanging the moving resident at slot m with the one at slot q and
      recording q's former resident at m keeps the map right except at q. */
  lemma IndexSwap(s: seq<nat>, index: map<nat, nat>, m: nat, q: nat)
    requires IndexExcept(s, index, m) && q < |s| && q != m
    ensures IndexExcept(Swapped(s, m, q), index[s[q] := m], q)
    ensures index[s[q] := m].Keys == index.Keys
  {
    var t := Swapped(s, m, q);
    var index' := index[s[q] := m];
    forall i | 0 <= i < |t| && i != q
      ensures t[i] in index' && index'[t[i]] == i
    {
      if i != m {
        assert t[i] == s[i] && s[i] != s[q];
      }
    }
  }

  /** One step of sifting up: slot m compares less than its parent p. */
  lemma SwapUpOrder(k: seq<real>, s: seq<nat>, m: nat)
    requires Handles(|k|, s) && 0 < m < |s|
    requires Around(k, s, m) && !EdgeOk(k, s, m)
    ensures Around(k, Swapped(s, m, (m - 1) / 2), (m - 1) / 2)
    ensures ChildrenOk(k, Swapped(s, m, (m - 1) / 2), (m - 1) / 2)
  {
    var p := (m - 1) / 2;
    var t := Swapped(s, m, p);
    forall i | 0 < i < |t| && i != p && (i - 1) / 2 != p
      ensures EdgeOk(k, t, i)
    {
      if i == m {
      } else if (i - 1) / 2 == m {
        assert BridgeOk(k, s, m, i);
      } else {
        assert EdgeOk(k, s, i);
      }
    }
    forall c | 0 < c < |t| && (c - 1) / 2 == p
      ensures BridgeOk(k, t, p, c) && EdgeOk(k, t, c)
    {
      if c != m {
        assert EdgeOk(k, s, c);
      }
      if p > 0 {
        assert EdgeOk(k, s, p);
      }
    }
  }

  /** One step of sifting down: c is the smallest child of slot m and compares
      less than it. */
  lemma SwapDownOrder(k: seq<real>, s: seq<nat>, m: nat, c: nat)
    requires Handles(|k|, s) && m < c < |s| && (c - 1) / 2 == m
    requires Around(k, s, m) && EdgeOk(k, s, m)
    requires k[s[c]] < k[s[m]]
    requires 2 * m + 1 < |s| ==> k[s[c]] <= k[s[2 * m + 1]]
    requires 2 * m + 2 < |s| ==> k[s[c]] <= k[s[2 * m + 2]]
    ensures Around(k, Swapped(s, m, c), c) && EdgeOk(k, Swapped(s, m, c), c)
  {
    var t := Swapped(s, m, c);
    forall i | 0 < i < |t| && i != c && (i - 1) / 2 != c
      ensures EdgeOk(k, t, i)
    {
      if i == m {
        assert BridgeOk(k, s, m, c);
      } else if (i - 1) / 2 == m {
        assert i == 2 * m + 1 || i == 2 * m + 2;
      } else {
        assert EdgeOk(k, s, i);
      }
    }
    forall d | 0 < d < |t| && (d - 1) / 2 == c
      ensures BridgeOk(k, t, c, d)
    {
      assert EdgeOk(k, s, d);
    }
  }

  /** The root of an ordered heap is no greater than any slot. */
  lemma {:induction false} RootLe(k: seq<real>, s: seq<nat>, i: nat)
    requires forall j :: 0 < j < |s| ==> EdgeOk(k, s, j)
    requires Handles(|k|, s) && i < |s|
    ensures k[s[0]] <= k[s[i]]
    decreases i
  {
    if i > 0 {
      RootLe(k, s, (i - 1) / 2);
      assert EdgeOk(k, s, i);
    }
  }

  /** When every edge is in order, the root is no greater than any slot. */
  lemma RootLeast(k: seq<real>, s: seq<nat>)
    ensures (forall i :: 0 < i < |s| ==> EdgeOk(k, s, i)) ==>
      forall i :: 0 < i < |s| ==> LeAt(k, s, 0, i)
  {
    if |s| > 1 && forall i :: 0 < i < |s| ==> EdgeOk(k, s, i) {
      assert EdgeOk(k, s, 1);
      assert Handles(|k|, s) by {
        forall i | 0 < i < |s| ensures s[i] < |k| {
          assert EdgeOk(k, s, i);
        }
      }
      forall i | 0 < i < |s|
        ensures LeAt(k, s, 0, i)
      {
        RootLe(k, s, i);
      }
    }
  }

  /** Moving the last slot to the root of an ordered heap leaves heap order
      broken at most below the root, and the map right except at the root. */
  lemma PopStart(k: seq<real>, was: seq<nat>, index: map<nat, nat>, s: seq<nat>)
    requires |was| > 1 && HeapOrdered(k, was) && IndexMatches(was, index)
    requires s == [was[|was| - 1]] + was[1..|was| - 1]
    ensures Around(k, s, 0) && EdgeOk(k, s, 0)
    ensures IndexExcept(s, index - {was[0]}, 0)
    ensures multiset(s) == multiset(was) - multiset{was[0]}
    ensures Handles(|k|, was) ==> Handles(|k|, s)
    ensures (index - {was[0]}).Keys + {s[0]} == index.Keys - {was[0]}
  {
    assert was == [was[0]] + was[1..|was| - 1] + [was[|was| - 1]];
    PopStartOrder(k, was, s);
    PopStartIndex(was, index, s);
  }

  lemma PopStartOrder(k: seq<real>, was: seq<nat>, s: seq<nat>)
    requires |was| > 1 && HeapOrdered(k, was)
    requires s == [was[|was| - 1]] + was[1..|was| - 1]
    ensures Around(k, s, 0) && EdgeOk(k, s, 0)
  {
    forall i | 0 < i < |s| && (i - 1) / 2 != 0
      ensures EdgeOk(k, s, i)
    {
      assert EdgeOk(k, was, i);
    }
  }

  lemma PopStartIndex(was: seq<nat>, index: map<nat, nat>, s: seq<nat>)
    requires |was| > 1 && IndexMatches(was, index)
    requires s == [was[|was| - 1]] + was[1..|was| - 1]
    ensures IndexExcept(s, index - {was[0]}, 0)
    ensures (index - {was[0]}).Keys + {s[0]} == index.Keys - {was[0]}
  {
  }

  /** Appending a handle that is not resident to an ordered heap leaves heap
      order broken at most above the new last slot, and the map right except
      there. */
  lemma InsertStart(k: seq<real>, s0: seq<nat>, index: map<nat, nat>, e: nat)
    requires HeapOrdered(k, s0) && IndexMatches(s0, index) && e !in multiset(s0)
    ensures var s := s0 + [e];
      && IndexExcept(s, index, |s0|)
      && Around(k, s, |s0|) && ChildrenOk(k, s, |s0|)
  {
    var s := s0 + [e];
    forall i | 0 <= i < |s0|
      ensures s[i] != e
    {
      assert s0[i] in multiset(s0);
    }
    forall i | 0 < i < |s| && i != |s0| && (i - 1) / 2 != |s0|
      ensures EdgeOk(k, s, i)
    {
      assert EdgeOk(k, s0, i);
    }
  }

  /** Sifting down stops once slot m is no greater than its children. */
  lemma DownDone(k: seq<real>, s: seq<nat>, m: nat)
    requires Handles(|k|, s) && m < |s|
    requires Around(k, s, m) && EdgeOk(k, s, m)
    requires 2 * m + 1 < |s| ==> k[s[m]] <= k[s[2 * m + 1]]
    requires 2 * m + 2 < |s| ==> k[s[m]] <= k[s[2 * m + 2]]
    ensures HeapOrdered(k, s)
  {
    forall i | 0 < i < |s|
      ensures EdgeOk(k, s, i)
    {
      if (i - 1) / 2 == m {
        assert i == 2 * m + 1 || i == 2 * m + 2;
      }
    }
  }

  /** Sifting up leaves the whole heap ordered once the element stops and its
      children were in order. */
  lemma UpDone(k: seq<real>, s: seq<nat>, m: nat)
    requires Around(k, s, m) && EdgeOk(k, s, m) && ChildrenOk(k, s, m)
    ensures HeapOrdered(k, s)
  {
  }

  /** When only the key of the resident at slot n changed since the heap was
      last in order, sifting can start from n: heap order holds around n, and
      whichever way the key moved, either n's children or n's parent edge is in
      order. */
  lemma ReheapStart(k: seq<real>, before: seq<real>, s: seq<nat>, n: nat)
    requires n < |s| && |before| == |k| && Handles(|k|, s) && HeapOrdered(before, s)
    requires forall h :: 0 <= h < |s| && h != n ==> s[h] != s[n]
    requires forall h :: 0 <= h < |k| && h != s[n] ==> before[h] == k[h]
    ensures Around(k, s, n)
    ensures ChildrenOk(k, s, n) || EdgeOk(k, s, n)
  {
    forall i | 0 < i < |s| && i != n && (i - 1) / 2 != n
      ensures EdgeOk(k, s, i)
    {
      assert EdgeOk(before, s, i);
    }
    forall c | 0 < c < |s| && (c - 1) / 2 == n
      ensures BridgeOk(k, s, n, c)
    {
      assert EdgeOk(before, s, c);
      if n > 0 {
        assert EdgeOk(before, s, n);
      }
    }
    if k[s[n]] <= before[s[n]] {
      forall c | 0 < c < |s| && (c - 1) / 2 == n
        ensures EdgeOk(k, s, c)
      {
        assert EdgeOk(before, s, c);
      }
    } else {
      assert EdgeOk(before, s, n);
    }
  }

  /** Heap order reads only the residents' keys: changing the key of a handle
      that is not resident keeps it. */
  lemma OrderIgnoresOthers(k: seq<real>, k2: seq<real>, s: seq<nat>)
    requires |k| == |k2| && Handles(|k|, s) && HeapOrdered(k, s)
    requires forall i :: 0 <= i < |s| ==> k[s[i]] == k2[s[i]]
    ensures HeapOrdered(k2, s)
  {
    forall i | 0 < i < |s|
      ensures EdgeOk(k2, s, i)
    {
      assert EdgeOk(k, s, i);
    }
  }

  /** The index map has exactly one entry per occupied slot. */
  lemma {:induction false} IndexSize(s: seq<nat>, index: map<nat, nat>)
    requires IndexMatches(s, index)
    ensures |index| == |s|
    decreases |s|
  {
    if |s| == 0 {
      assert index == map[];
    } else {
      var last := s[|s| - 1];
      var t := s[..|s| - 1];
      var rest := index - {last};
      assert rest.Keys == index.Keys - {last};
      IndexSize(t, rest);
    }
  }

  class Heap {
    /** The key table the ordering reads; the heap never writes it. */
    const keys: array<real>
    const capacity: nat
    /** Slots 0 .. size-1 hold the residents. */
    const data: array<nat>
    var size: nat
    /** Handle -> slot. */
    var index: map<nat, nat>
    /** The residents, as a multiset. */
    ghost var contents: multiset<nat>

    /** Everything except the index map. */
    ghost predicate Shape()
      reads this, data
    {
      && data.Length == capacity
      && size <= capacity
      && contents == multiset(data[..size])
      && Handles(keys.Length, data[..size])
    }

    /** The object invariant: the index map is a bijection between the residents
        and slots 0 .. size-1, so residents are distinct and the map has exactly
        size entries. */
    ghost predicate Valid()
      reads this, data
    {
      Shape() && IndexMatches(data[..size], index)
    }

    /** What the object invariant says of the index map: it has exactly size
        entries, and its keys are the residents. */
    lemma ValidIndex()
      requires Valid()
      ensures |index| == size
      ensures forall e :: e in index <==> e in contents
    {
      IndexSize(data[..size], index);
    }

    /** Heap order under the current keys. */
    ghost predicate Ordered()
      reads this, data, keys
      ensures Ordered() ==>
        size <= data.Length && forall i :: 0 < i < size ==> LeAt(keys[..], data[..size], 0, i)
    {
      size <= data.Length && HeapOrdered(keys[..], data[..size])
    }

    constructor (fixedSize: nat, keys: array<real>)
      ensures Valid() && Ordered()
      ensures this.keys == keys && capacity == fixedSize && fresh(data)
      ensures size == 0 && contents == multiset{} && index == map[]
    {
      this.keys := keys;
      capacity := fixedSize;
      data := new nat[fixedSize];
      size := 0;
      index := map[];
      contents := multiset{};
    }

    function IsEmpty(): (b: bool)
      reads this, data
      requires Valid()
      ensures b <==> contents == multiset{}
    {
      assert |contents| == size;
      size == 0
    }

    /** The slot of a resident, looked up through the index map. */
    function HeapIndex(e: nat): (i: nat)
      reads this, data
      requires Valid() && e in contents
      ensures i < size && data[i] == e
    {
      assert e in data[..size];
      var j :| 0 <= j < size && data[j] == e;
      assert data[..size][j] == e;
      index[e]
    }

    /** The minimum resident, left in place. */
    method Top() returns (e: nat)
      requires Valid() && Ordered() && size > 0
      ensures e == data[0] && e in contents
      ensures forall x :: x in contents ==> keys[e] <= keys[x]
    {
      e := data[0];
      ghost var s := data[..size];
      assert e == s[0];
      forall x | x in contents
        ensures keys[e] <= keys[x]
      {
        assert x in s;
        var j :| 0 <= j < |s| && s[j] == x;
        RootLe(keys[..], s, j);
      }
    }

    /** The smallest of slot n and those of slots a and b that are occupied;
        n wins ties, then a. */
    function SmallElem(n: nat, a: nat, b: nat): (s: nat)
      reads this, data, keys
      requires Shape() && n < size
      ensures s == n || (s == a && a < size) || (s == b && b < size)
      ensures keys[data[s]] <= keys[data[n]]
      ensures s != n ==> keys[data[s]] < keys[data[n]]
      ensures a < size ==> keys[data[s]] <= keys[data[a]]
      ensures b < size ==> keys[data[s]] <= keys[data[b]]
      ensures s == b && b != n && b != a ==> !(a < size && keys[data[a]] <= keys[data[b]])
    {
      var s1 := if a < size && keys[data[a]] < keys[data[n]] then a else n;
      if b < size && keys[data[b]] < keys[data[s1]] then b else s1
    }

    /** The comparator: the resident of slot i has a smaller key than the
        resident of slot j, so the pair is out of heap order when j is i's
        parent. */
    function Less(i: nat, j: nat): (b: bool)
      reads this, data, keys
      requires Shape() && i < size && j < size
      ensures b <==> !LeAt(keys[..], data[..size], j, i)
    {
      assert data[..size][i] == data[i] && data[..size][j] == data[j];
      keys[data[i]] < keys[data[j]]
    }

    /** Exchanges the residents of slots i and j. */
    method Swap(i: nat, j: nat)
      requires Shape() && i < size && j < size
      modifies data
      ensures Shape() && data[..size] == Swapped(old(data[..size]), i, j)
    {
      ghost var before := data[..size];
      data[i], data[j] := data[j], data[i];
      assert data[..size] == Swapped(before, i, j);
    }

    /** Moves the element at slot n0 towards the root while it compares less
        than its parent; returns its final slot and fixes the index map. */
    method BubbleUp(n0: nat) returns (m: nat)
      requires Shape() && IndexExcept(data[..size], index, n0)
      requires Around(keys[..], data[..size], n0)
      requires ChildrenOk(keys[..], data[..size], n0) || EdgeOk(keys[..], data[..size], n0)
      modifies this`index, data
      ensures Shape() && IndexMatches(data[..size], index) && m < size
      ensures data[m] == old(data[n0])
      ensures index.Keys == old(index.Keys) + {old(data[n0])}
      ensures Around(keys[..], data[..size], m) && EdgeOk(keys[..], data[..size], m)
      ensures old(ChildrenOk(keys[..], data[..size], n0)) ==> Ordered()
    {
      ghost var k := keys[..];
      ghost var childrenWereOk := ChildrenOk(k, data[..size], n0);
      ghost var x := data[n0];
      m := n0;
      var parent := Parent(m);
      while parent.Some? && Less(m, parent.value)
        invariant Shape() && IndexExcept(data[..size], index, m) && parent == Parent(m)
        invariant data[m] == x
        invariant index.Keys == old(index.Keys)
        invariant Around(k, data[..size], m)
        invariant ChildrenOk(k, data[..size], m) || EdgeOk(k, data[..size], m)
        invariant childrenWereOk ==> ChildrenOk(k, data[..size], m)
        decreases m
      {
        var p := parent.value;
        StepUp(k, m, p);
        m := p;
        parent := Parent(m);
      }
      SetIndex(m);
      if childrenWereOk {
        UpDone(k, data[..size], m);
      }
    }

    /** One step of BubbleUp: the moving element at slot m compares less than
        its parent p and trades places with it. */
    method StepUp(ghost k: seq<real>, m: nat, p: nat)
      requires k == keys[..] && Shape() && IndexExcept(data[..size], index, m)
      requires 0 < m && p == (m - 1) / 2 && Less(m, p)
      requires Around(k, data[..size], m)
      modifies this`index, data
      ensures Shape() && IndexExcept(data[..size], index, p)
      ensures data[p] == old(data[m]) && index.Keys == old(index.Keys)
      ensures Around(k, data[..size], p) && ChildrenOk(k, data[..size], p)
    {
      ghost var s := data[..size];
      assert !EdgeOk(k, s, m);
      SwapUpOrder(k, s, m);
      IndexSwap(s, index, m, p);
      Swap(m, p);
      index := index[data[m] := m];
    }

    /** Records slot n as the slot of its resident. */
    method SetIndex(n: nat)
      requires Shape() && IndexExcept(data[..size], index, n)
      modifies this`index
      ensures IndexMatches(data[..size], index) && index.Keys == old(index.Keys) + {data[n]}
    {
      IndexSettle(data[..size], index, n);
      index := index[data[n] := n];
    }

    /** Moves the element at slot n0 away from the root while a child compares
        less than it; returns its final slot and fixes the index map. */
    method BubbleDown(n0: nat) returns (m: nat)
      requires Shape() && IndexExcept(data[..size], index, n0)
      requires Around(keys[..], data[..size], n0) && EdgeOk(keys[..], data[..size], n0)
      modifies this`index, data
      ensures Shape() && IndexMatches(data[..size], index) && Ordered() && m < size
      ensures data[m] == old(data[n0])
      ensures index.Keys == old(index.Keys) + {old(data[n0])}
    {
      ghost var k := keys[..];
      ghost var x := data[n0];
      m := n0;
      while true
        invariant Shape() && IndexExcept(data[..size], index, m)
        invariant data[m] == x
        invariant index.Keys == old(index.Keys)
        invariant Around(k, data[..size], m) && EdgeOk(k, data[..size], m)
        decreases size - m
      {
        var left := LeftChild(m);
        var right := RightChild(m);
        var smallest := SmallElem(m, left, right);
        if smallest != m {
          StepDown(k, m, smallest);
          m := smallest;
        } else {
          SettleDown(k, m);
          return;
        }
      }
    }

    /** The last step of BubbleDown: slot m is no greater than its children, so
        its resident stays there. */
    method SettleDown(ghost k: seq<real>, m: nat)
      requires k == keys[..] && Shape() && IndexExcept(data[..size], index, m)
      requires m < size && SmallElem(m, LeftChild(m), RightChild(m)) == m
      requires Around(k, data[..size], m) && EdgeOk(k, data[..size], m)
      modifies this`index
      ensures IndexMatches(data[..size], index) && index.Keys == old(index.Keys) + {data[m]}
      ensures Ordered()
    {
      DownDone(k, data[..size], m);
      SetIndex(m);
    }

    /** One step of BubbleDown: c is the smallest child of slot m, compares
        less than it, and trades places with it. */
    method StepDown(ghost k: seq<real>, m: nat, c: nat)
      requires k == keys[..] && Shape() && IndexExcept(data[..size], index, m)
      requires m < size && c == SmallElem(m, LeftChild(m), RightChild(m)) && c != m
      requires Around(k, data[..size], m) && EdgeOk(k, data[..size], m)
      modifies this`index, data
      ensures Shape() && IndexExcept(data[..size], index, c)
      ensures data[c] == old(data[m]) && index.Keys == old(index.Keys)
      ensures Around(k, data[..size], c) && EdgeOk(k, data[..size], c)
    {
      ghost var s := data[..size];
      SwapDownOrder(k, s, m, c);
      IndexSwap(s, index, m, c);
      Swap(m, c);
      index := index[data[m] := m];
    }

    /** Adds a handle that is not resident yet. */
    method Insert(e: nat)
      requires Valid() && Ordered()
      requires size < capacity
      requires e !in contents
      requires e < keys.Length
      modifies this, data
      ensures Valid() && Ordered()
      ensures size == old(size) + 1
      ensures contents == old(contents) + multiset{e}
      ensures index.Keys == old(index.Keys) + {e}
    {
      ghost var s0 := data[..size];
      InsertStart(keys[..], s0, index, e);
      var at := size;
      size := size + 1;
      data[at] := e;
      contents := contents + multiset{e};
      assert data[..size] == s0 + [e];
      var _ := BubbleUp(at);
    }

    /** Removes and returns a minimum resident. */
    method Pop() returns (e: nat)
      requires Valid() && Ordered() && size > 0
      modifies this, data
      ensures Valid() && Ordered()
      ensures e in old(contents)
      ensures forall x :: x in old(contents) ==> keys[e] <= keys[x]
      ensures contents == old(contents) - multiset{e} && e !in contents
      ensures forall x :: x in contents <==> x in old(contents) && x != e
      ensures e < keys.Length
      ensures size == old(size) - 1
      ensures index.Keys == old(index.Keys) - {e}
    {
      e := Top();
      RemoveRoot();
      if size > 0 {
        var _ := BubbleDown(0);
      }
      assert forall i :: 0 <= i < size ==> data[..size][i] in index;
      assert e !in data[..size];
    }

    /** The first half of Pop: forgets the root's resident and moves the last
        resident into the root slot, where heap order may now fail below it. */
    method RemoveRoot()
      requires Valid() && Ordered() && size > 0
      modifies this, data
      ensures size == old(size) - 1
      ensures contents == old(contents) - multiset{old(data[0])}
      ensures size == 0 ==> Valid() && Ordered() && index.Keys == old(index.Keys) - {old(data[0])}
      ensures size > 0 ==>
        && Shape() && IndexExcept(data[..size], index, 0)
        && Around(keys[..], data[..size], 0) && EdgeOk(keys[..], data[..size], 0)
        && index.Keys + {data[0]} == old(index.Keys) - {old(data[0])}
    {
      ghost var was := data[..size];
      ghost var k := keys[..];
      var e := data[0];
      ghost var s := if size > 1 then [was[size - 1]] + was[1..size - 1] else [];
      if size > 1 {
        PopStart(k, was, index, s);
      } else {
        assert was == [e];
      }
      size := size - 1;
      index := index - {e};
      contents := contents - multiset{e};
      if size > 0 {
        data[0] := data[size];
        assert data[..size] == s;
      }
      assert keys[..] == k;
    }

    /** Restores heap order after the key of the resident e changed: `before`
        is the key table under which the heap was last in order, and it differs
        from the current one at most in e's key. */
    method Reheap(e: nat, ghost before: seq<real>)
      requires Valid() && e in contents
      requires |before| == keys.Length && HeapOrdered(before, data[..size])
      requires forall h :: 0 <= h < |before| && h != e ==> before[h] == keys[h]
      modifies this`index, data
      ensures Valid() && Ordered()
      ensures contents == old(contents) && size == old(size)
      ensures index.Keys == old(index.Keys)
    {
      ghost var s := data[..size];
      var n := HeapIndex(e);
      assert s[n] == e;
      IndexMatchesExcept(s, index, n);
      ReheapStart(keys[..], before, s, n);
      Sift(n);
    }

    /** Sifts the resident of slot n up, then down from where it stopped;
        restores heap order when order holds around n and on one side of it. */
    method Sift(n: nat)
      requires Shape() && IndexMatches(data[..size], index) && n < size
      requires Around(keys[..], data[..size], n)
      requires ChildrenOk(keys[..], data[..size], n) || EdgeOk(keys[..], data[..size], n)
      modifies this`index, data
      ensures Valid() && Ordered()
      ensures size == old(size) && index.Keys == old(index.Keys)
    {
      ghost var residents := index.Keys;
      assert data[..size][n] in index;
      IndexMatchesExcept(data[..size], index, n);
      var m := BubbleUp(n);
      assert index.Keys == residents;
      assert data[..size][m] in index;
      IndexMatchesExcept(data[..size], index, m);
      var _ := BubbleDown(m);
    }
  }
}
