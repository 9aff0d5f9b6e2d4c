/** The min-heap of keyed elements, with an optional index from key to position. */
module BinaryHeap {
  import opened Ctypes
  import opened Hashmap

  datatype Elem<D> = Elem(key: uint64, data: D)

  type Compare<!D> = (Elem<D>, Elem<D>) -> int

  /** What the heap needs of its comparison function. */
  ghost predicate TotalPreorder<D(!new)>(cmp: Compare<D>) {
    && (forall a, b :: cmp(a, b) <= 0 || cmp(b, a) <= 0)
    && (forall a, b, c :: cmp(a, b) <= 0 && cmp(b, c) <= 0 ==> cmp(a, c) <= 0)
  }

  function Parent(i: int): int {
    (i - 1) / 2
  }

  ghost predicate InOrder<D>(cmp: Compare<D>, s: seq<Elem<D>>, i: int)
    requires 0 < i < |s|
  {
    cmp(s[Parent(i)], s[i]) <= 0
  }

  /** Heap order: no element is less than its parent. */
  ghost predicate Ordered<D>(cmp: Compare<D>, s: seq<Elem<D>>) {
    forall i :: 0 < i < |s| ==> InOrder(cmp, s, i)
  }

  /** Heap order except on the edges that touch h; the edges that skip h hold. */
  ghost predicate OrderedBut<D>(cmp: Compare<D>, s: seq<Elem<D>>, h: nat)
    requires h < |s|
  {
    && (forall i :: 0 < i < |s| && i != h && Parent(i) != h ==> InOrder(cmp, s, i))
    && (h > 0 ==> forall i :: 0 < i < |s| && Parent(i) == h ==> cmp(s[Parent(h)], s[i]) <= 0)
  }

  /** The edge from h to its parent holds. */
  ghost predicate NotAboveParent<D>(cmp: Compare<D>, s: seq<Elem<D>>, h: nat)
    requires h < |s|
  {
    h == 0 || InOrder(cmp, s, h)
  }

  ghost predicate NotBelowChildren<D>(cmp: Compare<D>, s: seq<Elem<D>>, h: nat)
    requires h < |s|
  {
    forall i :: 0 < i < |s| && Parent(i) == h ==> InOrder(cmp, s, i)
  }

  function Swapped<D>(s: seq<Elem<D>>, i: nat, j: nat): seq<Elem<D>>
    requires i < |s| && j < |s|
  {
    s[i := s[j]][j := s[i]]
  }

  lemma SwappedMultiset<D>(s: seq<Elem<D>>, i: nat, j: nat)
    requires i < |s| && j < |s|
    ensures multiset(Swapped(s, i, j)) == multiset(s)
  {
  }

  /** In a heap the root is a least element. */
  lemma {:induction false} RootIsLeast<D(!new)>(cmp: Compare<D>, s: seq<Elem<D>>, i: nat)
    requires TotalPreorder(cmp) && Ordered(cmp, s) && i < |s|
    ensures cmp(s[0], s[i]) <= 0
  {
    if i > 0 {
      RootIsLeast(cmp, s, Parent(i));
      assert InOrder(cmp, s, i);
    }
  }

  /** Replacing one element of a heap spoils only the edges that touch it. */
  lemma ReplaceOne<D(!new)>(cmp: Compare<D>, s: seq<Elem<D>>, h: nat, e: Elem<D>)
    requires TotalPreorder(cmp) && Ordered(cmp, s) && h < |s|
    ensures OrderedBut(cmp, s[h := e], h)
  {
    var s' := s[h := e];
    forall i | 0 < i < |s| && i != h && Parent(i) != h
      ensures InOrder(cmp, s', i)
    {
      assert InOrder(cmp, s, i);
    }
    if h > 0 {
      forall i | 0 < i < |s| && Parent(i) == h
        ensures cmp(s'[Parent(h)], s'[i]) <= 0
      {
        assert InOrder(cmp, s, i) && InOrder(cmp, s, h);
      }
    }
  }

  lemma OrderedFromBut<D>(cmp: Compare<D>, s: seq<Elem<D>>, h: nat)
    requires h < |s| && OrderedBut(cmp, s, h)
    requires NotAboveParent(cmp, s, h) && NotBelowChildren(cmp, s, h)
    ensures Ordered(cmp, s)
  {
  }

  /** Exchanging an element with its greater parent moves the spoiled place up, and what stays below is in order. */
  lemma UpStep<D(!new)>(cmp: Compare<D>, s: seq<Elem<D>>, h: nat)
    requires TotalPreorder(cmp) && 0 < h < |s| && OrderedBut(cmp, s, h)
    requires cmp(s[Parent(h)], s[h]) > 0
    ensures OrderedBut(cmp, Swapped(s, Parent(h), h), Parent(h))
    ensures NotBelowChildren(cmp, Swapped(s, Parent(h), h), Parent(h))
  {
    var p := Parent(h);
    var s' := Swapped(s, p, h);
    assert cmp(s[h], s[p]) <= 0;
    forall i | 0 < i < |s| && i != p && Parent(i) != p
      ensures InOrder(cmp, s', i)
    {
      if Parent(i) != h { assert InOrder(cmp, s, i); }
    }
    forall i | 0 < i < |s| && Parent(i) == p
      ensures InOrder(cmp, s', i)
      ensures p > 0 ==> cmp(s'[Parent(p)], s'[i]) <= 0
    {
      if i != h { assert InOrder(cmp, s, i); }
      if p > 0 { assert InOrder(cmp, s, p); }
    }
  }

  /** c is a child of h with no lesser sibling. */
  ghost predicate LeastChild<D>(cmp: Compare<D>, s: seq<Elem<D>>, h: nat, c: nat) {
    && 0 < c < |s| && Parent(c) == h
    && forall i :: 0 < i < |s| && Parent(i) == h ==> cmp(s[c], s[i]) <= 0
  }

  /** Exchanging an element with a lesser least child moves the spoiled place down. */
  lemma DownStep<D(!new)>(cmp: Compare<D>, s: seq<Elem<D>>, h: nat, c: nat)
    requires TotalPreorder(cmp) && h < |s| && OrderedBut(cmp, s, h) && NotAboveParent(cmp, s, h)
    requires LeastChild(cmp, s, h, c) && cmp(s[h], s[c]) > 0
    ensures OrderedBut(cmp, Swapped(s, h, c), c) && NotAboveParent(cmp, Swapped(s, h, c), c)
  {
    var s' := Swapped(s, h, c);
    assert cmp(s[c], s[h]) <= 0;
    forall i | 0 < i < |s| && i != c && Parent(i) != c
      ensures InOrder(cmp, s', i)
    {
      if i != h && Parent(i) != h { assert InOrder(cmp, s, i); }
    }
    forall i | 0 < i < |s| && Parent(i) == c
      ensures cmp(s'[h], s'[i]) <= 0
    {
      assert InOrder(cmp, s, i);
    }
  }

  /** The element at h does not move down when it is less than its parent: its children are not less than that parent. */
  lemma StuckBelowParent<D(!new)>(cmp: Compare<D>, s: seq<Elem<D>>, h: nat, c: nat)
    requires TotalPreorder(cmp) && h < |s| && OrderedBut(cmp, s, h)
    requires 0 < c < |s| && Parent(c) == h && cmp(s[h], s[c]) > 0
    ensures NotAboveParent(cmp, s, h)
  {
    if h > 0 {
      assert cmp(s[Parent(h)], s[c]) <= 0;
      assert cmp(s[c], s[h]) <= 0;
    }
  }

  ghost predicate Indexed<D>(s: seq<Elem<D>>, m: map<uint64, int>, i: int)
    requires 0 <= i < |s|
  {
    s[i].key in m && m[s[i].key] == i
  }

  ghost predicate Points<D>(s: seq<Elem<D>>, m: map<uint64, int>, k: uint64)
    requires k in m
  {
    0 <= m[k] < |s| && s[m[k]].key == k
  }

  /** The index maps each stored key to its position and holds no other key. */
  ghost predicate Exact<D>(s: seq<Elem<D>>, m: map<uint64, int>) {
    && (forall i {:trigger Indexed(s, m, i)} :: 0 <= i < |s| ==> Indexed(s, m, i))
    && (forall k {:trigger Points(s, m, k)} :: k in m ==> Points(s, m, k))
  }

  /** The same, save that nothing is known about the binding of the key at h. */
  ghost predicate ExactBut<D>(s: seq<Elem<D>>, m: map<uint64, int>, h: nat)
    requires h < |s|
  {
    && (forall i {:trigger Indexed(s, m, i)} :: 0 <= i < |s| && i != h ==> Indexed(s, m, i) && s[i].key != s[h].key)
    && (forall k {:trigger Points(s, m, k)} :: k in m && k != s[h].key ==> Points(s, m, k))
  }

  lemma ExactIsExactBut<D>(s: seq<Elem<D>>, m: map<uint64, int>, h: nat)
    requires Exact(s, m) && h < |s|
    ensures ExactBut(s, m, h)
  {
    assert Indexed(s, m, h);
  }

  lemma SetMakesExact<D>(s: seq<Elem<D>>, m: map<uint64, int>, h: nat)
    requires h < |s| && ExactBut(s, m, h)
    ensures Exact(s, m[s[h].key := h])
  {
    var m' := m[s[h].key := h];
    forall i | 0 <= i < |s|
      ensures Indexed(s, m', i)
    {
      assert i != h ==> Indexed(s, m, i);
    }
    forall k | k in m'
      ensures Points(s, m', k)
    {
      assert k != s[h].key ==> Points(s, m, k);
    }
  }

  lemma SwapMakesExact<D>(s: seq<Elem<D>>, m: map<uint64, int>, h: nat, j: nat)
    requires h < |s| && j < |s| && j != h && ExactBut(s, m, h)
    ensures Exact(Swapped(s, h, j), m[s[j].key := h][s[h].key := j])
    ensures m[s[h].key := j][s[j].key := h] == m[s[j].key := h][s[h].key := j]
  {
    var s', m' := Swapped(s, h, j), m[s[j].key := h][s[h].key := j];
    assert Indexed(s, m, j);
    forall i | 0 <= i < |s|
      ensures Indexed(s', m', i)
    {
      assert i != h && i != j ==> Indexed(s, m, i);
    }
    forall k | k in m'
      ensures Points(s', m', k)
    {
      assert k != s[h].key && k != s[j].key ==> Points(s, m, k);
    }
  }

  ghost predicate BoundAt<D>(s: seq<Elem<D>>, items: map<uint64, D>, i: int)
    requires 0 <= i < |s|
  {
    s[i].key in items && items[s[i].key] == s[i].data
  }

  ghost predicate Present<D>(s: seq<Elem<D>>, items: map<uint64, D>, k: uint64)
    requires k in items
  {
    Elem(k, items[k]) in s
  }

  /** The elements of s are the bindings of items. */
  ghost predicate Bindings<D>(s: seq<Elem<D>>, items: map<uint64, D>) {
    && (forall i {:trigger BoundAt(s, items, i)} :: 0 <= i < |s| ==> BoundAt(s, items, i))
    && (forall k {:trigger Present(s, items, k)} :: k in items ==> Present(s, items, k))
  }

  lemma PermutedBindings<D>(s: seq<Elem<D>>, t: seq<Elem<D>>, items: map<uint64, D>)
    requires Bindings(s, items) && multiset(s) == multiset(t)
    ensures Bindings(t, items)
  {
    forall i | 0 <= i < |t|
      ensures BoundAt(t, items, i)
    {
      assert t[i] in multiset(s);
      var j :| 0 <= j < |s| && s[j] == t[i];
      assert BoundAt(s, items, j);
    }
    forall k | k in items
      ensures Present(t, items, k)
    {
      assert Present(s, items, k);
      assert Elem(k, items[k]) in multiset(t);
    }
  }

  /** An element appended to a heap spoils only the edge to its parent. */
  lemma AppendOne<D>(cmp: Compare<D>, s: seq<Elem<D>>, e: Elem<D>)
    requires |s| > 0 && s[|s| - 1] == e
    ensures Ordered(cmp, s[..|s| - 1]) ==> OrderedBut(cmp, s, |s| - 1)
    ensures Ordered(cmp, s[..|s| - 1]) && NotAboveParent(cmp, s, |s| - 1) ==> Ordered(cmp, s)
  {
    if Ordered(cmp, s[..|s| - 1]) {
      forall i | 0 < i < |s| - 1
        ensures InOrder(cmp, s, i)
      {
        assert InOrder(cmp, s[..|s| - 1], i);
      }
    }
  }

  /** What an element put behind the last one has come to when it has risen. */
  lemma AppendedRises<D>(cmp: Compare<D>, direct: bool, s: seq<Elem<D>>, e: Elem<D>, m: map<uint64, int>,
                         t: seq<Elem<D>>, n: map<uint64, int>, index: nat)
    requires index <= |s| && Travelled(direct, s + [e], m, |s|, t, n, index)
    requires direct ==> ExactBut(s + [e], m, |s|)
    requires NotAboveParent(cmp, t, index)
    requires index != |s| && OrderedBut(cmp, s + [e], |s|) ==> Ordered(cmp, t)
    ensures direct ==> if index == |s| then Exact(t, n[e.key := index]) else Exact(t, n)
    ensures Ordered(cmp, s) ==> Ordered(cmp, t)
  {
    var all := s + [e];
    assert all[..|s|] == s;
    if direct && index == |s| { SetMakesExact(all, m, index); }
    AppendOne(cmp, all, e);
  }

  lemma DropLastOrdered<D>(cmp: Compare<D>, s: seq<Elem<D>>)
    requires |s| > 0 && Ordered(cmp, s)
    ensures Ordered(cmp, s[..|s| - 1])
  {
    var t := s[..|s| - 1];
    forall i | 0 < i < |t|
      ensures InOrder(cmp, t, i)
    {
      assert InOrder(cmp, s, i);
    }
  }

  /** What an element that has travelled from start to index leaves behind: the same elements, and an exact
      index (of a direct heap) as soon as it has moved. */
  ghost predicate Travelled<D>(direct: bool, s0: seq<Elem<D>>, m0: map<uint64, int>, start: nat,
                               s: seq<Elem<D>>, m: map<uint64, int>, index: nat) {
    && start < |s0| == |s| && index < |s|
    && multiset(s) == multiset(s0)
    && (index == start ==> s == s0 && m == m0)
    && (index != start && direct ==> Exact(s, m))
  }

  lemma TravelStep<D>(direct: bool, s0: seq<Elem<D>>, m0: map<uint64, int>, start: nat,
                      s: seq<Elem<D>>, m: map<uint64, int>, h: nat, j: nat, m': map<uint64, int>)
    requires start < |s0| && (direct ==> ExactBut(s0, m0, start))
    requires Travelled(direct, s0, m0, start, s, m, h) && j < |s| && j != h && j != start
    requires direct ==> m' == m[s[j].key := h][s[h].key := j] || m' == m[s[h].key := j][s[j].key := h]
    ensures Travelled(direct, s0, m0, start, Swapped(s, h, j), m', j)
  {
    SwappedMultiset(s, h, j);
    if direct {
      if h != start { ExactIsExactBut(s, m, h); }
      SwapMakesExact(s, m, h, j);
    }
  }

  /** Heap order while an element travels up. */
  ghost predicate Rising<D>(cmp: Compare<D>, s0: seq<Elem<D>>, start: nat, s: seq<Elem<D>>, index: nat)
    requires start < |s0| && index < |s|
  {
    OrderedBut(cmp, s0, start) ==>
      OrderedBut(cmp, s, index) && (index != start ==> NotBelowChildren(cmp, s, index))
  }

  lemma RisingDone<D>(cmp: Compare<D>, s0: seq<Elem<D>>, start: nat, s: seq<Elem<D>>, index: nat)
    requires start < |s0| && index < |s|
    requires Rising(cmp, s0, start, s, index)
    requires index == 0 || cmp(s[(index - 1) / 2], s[index]) <= 0
    ensures NotAboveParent(cmp, s, index)
    ensures index != start && OrderedBut(cmp, s0, start) ==> Ordered(cmp, s)
  {
    if index != start && OrderedBut(cmp, s0, start) {
      OrderedFromBut(cmp, s, index);
    }
  }

  lemma RiseStep<D(!new)>(cmp: Compare<D>, direct: bool, s0: seq<Elem<D>>, m0: map<uint64, int>, start: nat,
                          s: seq<Elem<D>>, m: map<uint64, int>, h: nat, m': map<uint64, int>)
    requires TotalPreorder(cmp) && 0 < h <= start < |s0| && (direct ==> ExactBut(s0, m0, start))
    requires Travelled(direct, s0, m0, start, s, m, h) && Rising(cmp, s0, start, s, h)
    requires cmp(s[Parent(h)], s[h]) > 0
    requires direct ==> m' == m[s[h].key := Parent(h)][s[Parent(h)].key := h]
    ensures Travelled(direct, s0, m0, start, Swapped(s, Parent(h), h), m', Parent(h))
    ensures Rising(cmp, s0, start, Swapped(s, Parent(h), h), Parent(h))
  {
    TravelStep(direct, s0, m0, start, s, m, h, Parent(h), m');
    assert Swapped(s, Parent(h), h) == Swapped(s, h, Parent(h));
    if OrderedBut(cmp, s0, start) { UpStep(cmp, s, h); }
  }

  /** Heap order while an element travels down. */
  ghost predicate Sinking<D>(cmp: Compare<D>, s0: seq<Elem<D>>, start: nat, s: seq<Elem<D>>, index: nat)
    requires start < |s0| && index < |s|
  {
    OrderedBut(cmp, s0, start) ==>
      if NotAboveParent(cmp, s0, start) then OrderedBut(cmp, s, index) && NotAboveParent(cmp, s, index)
      else index == start
  }

  lemma SinkStep<D(!new)>(cmp: Compare<D>, direct: bool, s0: seq<Elem<D>>, m0: map<uint64, int>, start: nat,
                          s: seq<Elem<D>>, m: map<uint64, int>, h: nat, c: nat, m': map<uint64, int>)
    requires TotalPreorder(cmp) && start <= h && start < |s0| && (direct ==> ExactBut(s0, m0, start))
    requires Travelled(direct, s0, m0, start, s, m, h) && Sinking(cmp, s0, start, s, h)
    requires LeastChild(cmp, s, h, c) && cmp(s[h], s[c]) > 0
    requires direct ==> m' == m[s[c].key := h][s[h].key := c]
    ensures Travelled(direct, s0, m0, start, Swapped(s, h, c), m', c)
    ensures Sinking(cmp, s0, start, Swapped(s, h, c), c)
  {
    TravelStep(direct, s0, m0, start, s, m, h, c, m');
    if OrderedBut(cmp, s0, start) {
      if !NotAboveParent(cmp, s0, start) { StuckBelowParent(cmp, s, h, c); }
      DownStep(cmp, s, h, c);
    }
  }

  /** The children of h are at 2h + 1 and 2h + 2. */
  lemma ChildrenOf<D(!new)>(cmp: Compare<D>, s: seq<Elem<D>>, h: nat, c: nat)
    requires TotalPreorder(cmp) && h < |s| && c < |s|
    requires c == 2 * h + 1 || (c == 2 * h + 2 && cmp(s[2 * h + 1], s[c]) > 0)
    requires c == 2 * h + 1 && c + 1 < |s| ==> cmp(s[c], s[c + 1]) <= 0
    ensures LeastChild(cmp, s, h, c)
  {
    forall i | 0 < i < |s| && Parent(i) == h
      ensures cmp(s[c], s[i]) <= 0
    {
      assert i == 2 * h + 1 || i == 2 * h + 2;
    }
  }

  lemma NotAboveLeastChild<D(!new)>(cmp: Compare<D>, s: seq<Elem<D>>, h: nat, c: nat)
    requires TotalPreorder(cmp) && h < |s| && LeastChild(cmp, s, h, c) && cmp(s[h], s[c]) <= 0
    ensures NotBelowChildren(cmp, s, h)
  {
  }

  lemma NoChildren<D>(cmp: Compare<D>, s: seq<Elem<D>>, h: nat)
    requires h < |s| <= 2 * h + 1
    ensures NotBelowChildren(cmp, s, h)
  {
  }

  lemma SinkDone<D>(cmp: Compare<D>, s0: seq<Elem<D>>, start: nat, s: seq<Elem<D>>, index: nat)
    requires start < |s0| && index < |s| && (index == start ==> s == s0)
    requires Sinking(cmp, s0, start, s, index) && NotBelowChildren(cmp, s, index)
    ensures OrderedBut(cmp, s0, start) ==> (Ordered(cmp, s) <==> NotAboveParent(cmp, s0, start))
  {
    if OrderedBut(cmp, s0, start) {
      if NotAboveParent(cmp, s0, start) {
        OrderedFromBut(cmp, s, index);
      } else {
        assert !InOrder(cmp, s, start);
      }
    }
  }

  lemma IndexFinds<D>(s: seq<Elem<D>>, m: map<uint64, int>, items: map<uint64, D>, k: uint64)
    requires Exact(s, m) && Bindings(s, items)
    ensures k in m <==> k in items
    ensures k in items ==> 0 <= m[k] < |s| && s[m[k]] == Elem(k, items[k])
  {
    if k in m { assert Points(s, m, k) && BoundAt(s, items, m[k]); }
    if k in items {
      assert Present(s, items, k);
      var i :| 0 <= i < |s| && s[i] == Elem(k, items[k]);
      assert Indexed(s, m, i);
    }
  }

  lemma AppendExactBut<D>(s: seq<Elem<D>>, m: map<uint64, int>, items: map<uint64, D>, e: Elem<D>)
    requires Exact(s, m) && Bindings(s, items) && e.key !in items
    ensures ExactBut(s + [e], m, |s|)
  {
    forall i | 0 <= i < |s|
      ensures Indexed(s + [e], m, i) && (s + [e])[i].key != e.key
    {
      assert Indexed(s, m, i) && BoundAt(s, items, i);
    }
    forall k | k in m
      ensures Points(s + [e], m, k)
    {
      assert Points(s, m, k);
    }
  }

  lemma InsertBinds<D>(s: seq<Elem<D>>, m: map<uint64, int>, items: map<uint64, D>, e: Elem<D>,
                       s': seq<Elem<D>>, m': map<uint64, int>)
    requires Exact(s, m) && Bindings(s, items) && e.key !in items
    requires Exact(s', m') && multiset(s') == multiset(s + [e])
    ensures Bindings(s', items[e.key := e.data])
  {
    var t, items' := s + [e], items[e.key := e.data];
    assert t[|s|] == e;
    forall i | 0 <= i < |t|
      ensures BoundAt(t, items', i)
    {
      if i < |s| { assert BoundAt(s, items, i); }
    }
    forall k | k in items'
      ensures Present(t, items', k)
    {
      if k != e.key {
        IndexFinds(s, m, items, k);
        assert t[m[k]] == Elem(k, items[k]);
      }
    }
    PermutedBindings(t, s', items');
  }

  lemma ReplaceExact<D>(s: seq<Elem<D>>, m: map<uint64, int>, h: nat, e: Elem<D>)
    requires Exact(s, m) && h < |s| && s[h].key == e.key
    ensures Exact(s[h := e], m) && ExactBut(s[h := e], m, h)
  {
    var t := s[h := e];
    forall i | 0 <= i < |t|
      ensures Indexed(t, m, i)
    {
      assert Indexed(s, m, i);
    }
    forall k | k in m
      ensures Points(t, m, k)
    {
      assert Points(s, m, k);
    }
    ExactIsExactBut(t, m, h);
  }

  lemma ReplaceBinds<D>(s: seq<Elem<D>>, m: map<uint64, int>, items: map<uint64, D>, h: nat, e: Elem<D>,
                        s': seq<Elem<D>>, m': map<uint64, int>)
    requires Exact(s, m) && Bindings(s, items) && h < |s| && s[h].key == e.key
    requires Exact(s', m') && multiset(s') == multiset(s[h := e])
    ensures Bindings(s', items[e.key := e.data])
  {
    var t, items' := s[h := e], items[e.key := e.data];
    assert Indexed(s, m, h) && BoundAt(s, items, h) && t[h] == e;
    forall i | 0 <= i < |t|
      ensures BoundAt(t, items', i)
    {
      assert Indexed(s, m, i) && BoundAt(s, items, i);
    }
    forall k | k in items'
      ensures Present(t, items', k)
    {
      if k != e.key {
        IndexFinds(s, m, items, k);
        assert t[m[k]] == Elem(k, items[k]);
      }
    }
    PermutedBindings(t, s', items');
  }

  lemma ReplaceMultiset<D>(s: seq<Elem<D>>, h: nat, e: Elem<D>)
    requires h < |s|
    ensures multiset(s[h := e]) == multiset(s) - multiset{s[h]} + multiset{e}
  {
  }

  /** The last element takes the place of the one at h. */
  function HoleFilled<D>(s: seq<Elem<D>>, h: nat): seq<Elem<D>>
    requires h < |s| - 1
  {
    s[..|s| - 1][h := s[|s| - 1]]
  }

  /** When removing the element at h leaves heap order, given that the moved element only ever sinks. */
  predicate RemovalKeepsOrder<D>(cmp: Compare<D>, s: seq<Elem<D>>, h: nat)
    requires h < |s|
  {
    h == 0 || h == |s| - 1 || cmp(s[Parent(h)], s[|s| - 1]) <= 0
  }

  /** The condition can fail: in this heap the last element, 3, would be put below 10 when 11 is removed. */
  lemma RemovalCanBreakOrder()
    ensures var s := [Elem(0, 0), Elem(1, 10), Elem(2, 1), Elem(3, 11), Elem(4, 12), Elem(5, 2), Elem(6, 3)];
            var cmp := (a: Elem<int>, b: Elem<int>) => a.data - b.data;
            TotalPreorder(cmp) && Ordered(cmp, s) && !RemovalKeepsOrder(cmp, s, 3)
  {
    var s := [Elem(0, 0), Elem(1, 10), Elem(2, 1), Elem(3, 11), Elem(4, 12), Elem(5, 2), Elem(6, 3)];
    assert Parent(1) == Parent(2) == 0 && Parent(3) == Parent(4) == 1 && Parent(5) == Parent(6) == 2;
  }

  lemma HoleFilledMultiset<D>(s: seq<Elem<D>>, h: nat)
    requires h < |s| - 1
    ensures multiset(HoleFilled(s, h)) == multiset(s) - multiset{s[h]}
  {
    var last := |s| - 1;
    assert s == s[..last] + [s[last]];
    assert multiset(s) == multiset(s[..last]) + multiset{s[last]};
  }

  lemma HoleFilledExact<D>(s: seq<Elem<D>>, m: map<uint64, int>, h: nat)
    requires Exact(s, m) && h < |s| - 1
    ensures ExactBut(HoleFilled(s, h), m - {s[h].key}, h)
  {
    var t, m' := HoleFilled(s, h), m - {s[h].key};
    assert Indexed(s, m, h) && Indexed(s, m, |s| - 1);
    forall i | 0 <= i < |t| && i != h
      ensures Indexed(t, m', i) && t[i].key != t[h].key
    {
      assert Indexed(s, m, i);
    }
    forall k | k in m' && k != t[h].key
      ensures Points(t, m', k)
    {
      assert Points(s, m, k);
    }
  }

  lemma HoleFilledOrder<D(!new)>(cmp: Compare<D>, s: seq<Elem<D>>, h: nat)
    requires TotalPreorder(cmp) && Ordered(cmp, s) && h < |s| - 1
    ensures OrderedBut(cmp, HoleFilled(s, h), h)
    ensures NotAboveParent(cmp, HoleFilled(s, h), h) <==> RemovalKeepsOrder(cmp, s, h)
  {
    DropLastOrdered(cmp, s);
    ReplaceOne(cmp, s[..|s| - 1], h, s[|s| - 1]);
  }

  /** The element at h is taken out, before the moved element sinks. */
  function TakenOut<D>(s: seq<Elem<D>>, h: nat): seq<Elem<D>>
    requires h < |s|
  {
    if h == |s| - 1 then s[..h] else HoleFilled(s, h)
  }

  lemma TakenOutMultiset<D>(s: seq<Elem<D>>, h: nat)
    requires h < |s|
    ensures multiset(TakenOut(s, h)) == multiset(s) - multiset{s[h]}
  {
    if h == |s| - 1 {
      assert s == s[..h] + [s[h]];
    } else {
      HoleFilledMultiset(s, h);
    }
  }

  lemma TakenOutIndex<D>(s: seq<Elem<D>>, m: map<uint64, int>, h: nat)
    requires Exact(s, m) && h < |s|
    ensures h == |s| - 1 ==> Exact(TakenOut(s, h), m - {s[h].key})
    ensures h < |s| - 1 ==> ExactBut(TakenOut(s, h), m - {s[h].key}, h)
  {
    if h < |s| - 1 {
      HoleFilledExact(s, m, h);
    } else {
      var t, m' := TakenOut(s, h), m - {s[h].key};
      assert Indexed(s, m, h);
      forall i | 0 <= i < |t|
        ensures Indexed(t, m', i)
      {
        assert Indexed(s, m, i);
      }
      forall k | k in m'
        ensures Points(t, m', k)
      {
        assert Points(s, m, k);
      }
    }
  }

  lemma TakenOutBinds<D>(s: seq<Elem<D>>, m: map<uint64, int>, items: map<uint64, D>, h: nat,
                         s': seq<Elem<D>>, m': map<uint64, int>)
    requires Exact(s, m) && Bindings(s, items) && h < |s|
    requires Exact(s', m') && multiset(s') == multiset(TakenOut(s, h))
    ensures Bindings(s', items - {s[h].key})
  {
    var t, items' := TakenOut(s, h), items - {s[h].key};
    assert Indexed(s, m, h);
    forall i | 0 <= i < |t|
      ensures BoundAt(t, items', i)
    {
      var j := if i == h then |s| - 1 else i;
      assert t[i] == s[j] && Indexed(s, m, j) && BoundAt(s, items, j);
    }
    forall k | k in items'
      ensures Present(t, items', k)
    {
      IndexFinds(s, m, items, k);
      assert t[if m[k] == |s| - 1 then h else m[k]] == s[m[k]];
    }
    PermutedBindings(t, s', items');
  }

  lemma TakenOutOrder<D(!new)>(cmp: Compare<D>, s: seq<Elem<D>>, h: nat)
    requires TotalPreorder(cmp) && Ordered(cmp, s) && h < |s|
    ensures h == |s| - 1 ==> Ordered(cmp, TakenOut(s, h))
    ensures h < |s| - 1 ==> OrderedBut(cmp, TakenOut(s, h), h)
    ensures h < |s| - 1 ==> (NotAboveParent(cmp, TakenOut(s, h), h) <==> RemovalKeepsOrder(cmp, s, h))
  {
    if h < |s| - 1 {
      HoleFilledOrder(cmp, s, h);
    } else {
      DropLastOrdered(cmp, s);
    }
  }

  class Heap<D(0, !new)> {
    var elems: array?<Elem<D>>
    var elems_num: nat
    const cmp: Compare<D>
    const key_index: HashMap?
    ghost var Items: map<uint64, D>

    ghost function S(): seq<Elem<D>>
      reads this, elems
      requires elems == null ==> elems_num == 0
      requires elems != null ==> elems_num <= elems.Length
    {
      if elems == null then [] else elems[..elems_num]
    }

    ghost predicate Shape()
      reads this, elems, key_index
    {
      && TotalPreorder(cmp)
      && (elems == null ==> elems_num == 0)
      && (elems != null ==> elems_num <= elems.Length)
      && (key_index != null ==> key_index.Valid())
    }

    /** The direct option: the index is exact and Items is what the heap holds. */
    ghost predicate Valid()
      reads this, elems, key_index
    {
      && Shape()
      && (key_index != null ==> Exact(S(), key_index.Model) && Bindings(S(), Items))
    }

    ghost predicate IsHeap()
      requires Shape()
      reads this, elems, key_index
    {
      Ordered(cmp, S())
    }

    constructor (cmp: Compare<D>, direct: bool, hash: uint64 -> uint32)
      requires TotalPreorder(cmp)
      ensures Valid() && IsHeap() && S() == [] && Items == map[]
      ensures elems == null && this.cmp == cmp && (direct <==> key_index != null)
      ensures key_index != null ==> fresh(key_index)
    {
      this.elems, this.elems_num, this.cmp, this.Items := null, 0, cmp, map[];
      if direct {
        var index := new HashMap(512, hash);
        this.key_index := index;
      } else {
        this.key_index := null;
      }
    }

    ghost function M(): map<uint64, int>
      reads this, key_index
    {
      if key_index == null then map[] else key_index.Model
    }

    method Swap(index_1: nat, index_2: nat)
      requires Shape() && index_1 < elems_num && index_2 < elems_num && index_1 != index_2
      modifies elems, key_index
      ensures Shape() && S() == Swapped(old(S()), index_1, index_2)
      ensures key_index != null ==>
                M() == old(M())[old(S()[index_2].key) := index_1][old(S()[index_1].key) := index_2]
    {
      elems[index_1], elems[index_2] := elems[index_2], elems[index_1];
      if key_index != null {
        key_index.Set(elems[index_1].key, index_1);
        key_index.Set(elems[index_2].key, index_2);
      }
    }

    method BubbleUp(start: nat) returns (index: nat)
      requires Shape() && start < elems_num
      requires key_index != null ==> ExactBut(S(), M(), start)
      modifies elems, key_index
      ensures Shape() && index <= start
      ensures Travelled(key_index != null, old(S()), old(M()), start, S(), M(), index)
      ensures NotAboveParent(cmp, S(), index)
      ensures index != start && OrderedBut(cmp, old(S()), start) ==> Ordered(cmp, S())
    {
      ghost var s0, m0 := S(), M();
      ghost var s, m := s0, m0;
      index := start;
      while index != 0
        invariant Shape() && index <= start && s == S() && m == M()
        invariant Travelled(key_index != null, s0, m0, start, s, m, index)
        invariant Rising(cmp, s0, start, s, index)
      {
        if cmp(elems[(index - 1) / 2], elems[index]) <= 0 {
          break;
        }
        Swap((index - 1) / 2, index);
        RiseStep(cmp, key_index != null, s0, m0, start, s, m, index, M());
        s, m := S(), M();
        index := (index - 1) / 2;
      }
      RisingDone(cmp, s0, start, s, index);
    }

    method LesserChild(index: nat) returns (child: nat)
      requires Shape() && 2 * index + 1 < elems_num
      ensures LeastChild(cmp, S(), index, child)
    {
      var left := 2 * index + 1;
      var right := 2 * index + 2;
      child := if right >= elems_num || cmp(elems[left], elems[right]) <= 0 then left else right;
      ChildrenOf(cmp, S(), index, child);
    }

    method BubbleDown(start: nat) returns (index: nat)
      requires Shape() && start < elems_num
      requires key_index != null ==> ExactBut(S(), M(), start)
      modifies elems, key_index
      ensures Shape() && start <= index
      ensures Travelled(key_index != null, old(S()), old(M()), start, S(), M(), index)
      ensures OrderedBut(cmp, old(S()), start) ==>
                (Ordered(cmp, S()) <==> NotAboveParent(cmp, old(S()), start))
    {
      ghost var s0, m0 := S(), M();
      ghost var s, m := s0, m0;
      index := start;
      while 2 * index + 1 < elems_num
        invariant Shape() && start <= index < elems_num && s == S() && m == M()
        invariant elems_num == old(elems_num)
        invariant Travelled(key_index != null, s0, m0, start, s, m, index)
        invariant Sinking(cmp, s0, start, s, index)
        decreases elems_num - index
      {
        var child := LesserChild(index);
        if cmp(elems[index], elems[child]) <= 0 {
          NotAboveLeastChild(cmp, s, index, child);
          break;
        }
        Swap(index, child);
        SinkStep(cmp, key_index != null, s0, m0, start, s, m, index, child, M());
        s, m := S(), M();
        index := child;
      }
      if 2 * index + 1 >= elems_num { NoChildren(cmp, s, index); }
      SinkDone(cmp, s0, start, s, index);
    }

    /** Where the index says the element with this key is. */
    ghost function Position(key: uint64): (i: nat)
      requires Valid() && key_index != null && key in Items
      reads this, elems, key_index
      ensures i < |S()| && S()[i] == Elem(key, Items[key])
    {
      IndexFinds(S(), M(), Items, key);
      M()[key]
    }

    predicate Empty()
      reads this
    {
      elems_num == 0
    }

    method FindMin() returns (min: Elem<D>)
      requires Valid() && !Empty()
      ensures min == S()[0]
      ensures IsHeap() ==> forall e :: e in S() ==> cmp(min, e) <= 0
    {
      min := elems[0];
      if Ordered(cmp, S()) {
        forall i | 0 <= i < |S()|
          ensures cmp(min, S()[i]) <= 0
        {
          RootIsLeast(cmp, S(), i);
        }
      }
    }

    method EnsureFreeSpace()
      requires Shape()
      modifies this`elems
      ensures Shape() && S() == old(S())
      ensures elems != null && elems_num < elems.Length
      ensures elems == old(elems) || fresh(elems)
    {
      if elems == null {
        elems := new Elem<D>[32];
      } else if elems_num == elems.Length {
        var alloc := Max(elems.Length + 1, elems.Length * 3 / 2);
        var grown := new Elem<D>[alloc];
        forall i | 0 <= i < elems_num {
          grown[i] := elems[i];
        }
        elems := grown;
      }
    }

    method Insert(elem: Elem<D>)
      requires Valid()
      requires key_index != null ==> elem.key !in Items
      modifies this, elems, key_index
      ensures Valid() && (old(IsHeap()) ==> IsHeap())
      ensures multiset(S()) == old(multiset(S())) + multiset{elem}
      ensures key_index != null ==> Items == old(Items)[elem.key := elem.data]
      ensures elems == old(elems) || fresh(elems)
    {
      ghost var s, m := S(), M();
      if key_index != null { AppendExactBut(s, m, Items, elem); }
      EnsureFreeSpace();
      Append(elem);
      if key_index != null { InsertBinds(s, m, Items, elem, S(), M()); }
      Items := Items[elem.key := elem.data];
    }

    method SetIndex(key: uint64, index: nat)
      requires Shape() && key_index != null
      modifies key_index
      ensures Shape() && S() == old(S()) && M() == old(M())[key := index]
    {
      key_index.Set(key, index);
    }

    /** Stores the element behind the last one and lets it rise. */
    method Append(elem: Elem<D>)
      requires Shape() && elems != null && elems_num < elems.Length
      requires key_index != null ==> ExactBut(S() + [elem], M(), |S()|)
      modifies this`elems_num, elems, key_index
      ensures Shape() && (key_index != null ==> Exact(S(), M()))
      ensures multiset(S()) == multiset(old(S()) + [elem])
      ensures Ordered(cmp, old(S())) ==> Ordered(cmp, S())
    {
      ghost var s, m := S(), M();
      elems[elems_num] := elem;
      elems_num := elems_num + 1;
      assert S() == s + [elem] && M() == m;
      var index := BubbleUp(elems_num - 1);
      AppendedRises(cmp, key_index != null, s, elem, m, S(), M(), index);
      if index == elems_num - 1 && key_index != null {
        SetIndex(elem.key, index);
      }
    }

    method UpdateDirect(elem: Elem<D>)
      requires Valid() && key_index != null
      requires elem.key in Items
      modifies this, elems, key_index
      ensures Valid() && (old(IsHeap()) ==> IsHeap())
      ensures multiset(S()) == old(multiset(S())) - multiset{Elem(elem.key, old(Items)[elem.key])} + multiset{elem}
      ensures Items == old(Items)[elem.key := elem.data]
      ensures elems == old(elems)
    {
      ghost var s, m := S(), M();
      IndexFinds(s, m, Items, elem.key);
      var index := key_index.Get(elem.key);
      ReplaceExact(s, m, index, elem);
      ReplaceMultiset(s, index, elem);
      Replace(index, elem);
      ReplaceBinds(s, m, Items, index, elem, S(), M());
      Items := Items[elem.key := elem.data];
    }

    /** Overwrites one element, lets it rise and, if it did not move, lets it sink. */
    method Replace(index: nat, elem: Elem<D>)
      requires Shape() && index < elems_num
      requires key_index != null ==> Exact(S()[index := elem], M()) && ExactBut(S()[index := elem], M(), index)
      modifies elems, key_index
      ensures Shape() && (key_index != null ==> Exact(S(), M()))
      ensures multiset(S()) == multiset(old(S())[index := elem])
      ensures Ordered(cmp, old(S())) ==> Ordered(cmp, S())
    {
      ghost var s := S()[index := elem];
      if Ordered(cmp, S()) { ReplaceOne(cmp, S(), index, elem); }
      elems[index] := elem;
      assert S() == s;
      var risen := BubbleUp(index);
      if index == risen {
        var sunk := BubbleDown(index);
      }
    }

    method RemoveMin()
      requires Valid() && !Empty()
      modifies this, elems, key_index
      ensures Valid() && (old(IsHeap()) ==> IsHeap())
      ensures multiset(S()) == old(multiset(S())) - multiset{old(S()[0])}
      ensures key_index != null ==> Items == old(Items) - {old(S()[0]).key}
      ensures elems == old(elems)
    {
      ghost var s, m := S(), M();
      TakenOutMultiset(s, 0);
      TakeOut(0);
      ghost var t, n := S(), M();
      if key_index != null { TakenOutBinds(s, m, Items, 0, t, n); }
      Items := Items - {s[0].key};
      assert S() == t && M() == n;
    }

    method RemoveDirect(key: uint64)
      requires Valid() && key_index != null
      requires key in Items
      modifies this, elems, key_index
      ensures Valid()
      ensures multiset(S()) == old(multiset(S())) - multiset{Elem(key, old(Items)[key])}
      ensures Items == old(Items) - {key}
      ensures elems == old(elems)
      ensures old(IsHeap()) ==> (IsHeap() <==> RemovalKeepsOrder(cmp, old(S()), old(Position(key))))
    {
      ghost var s, m := S(), M();
      IndexFinds(s, m, Items, key);
      var index := key_index.Get(key);
      TakenOutMultiset(s, index);
      TakeOut(index);
      TakenOutBinds(s, m, Items, index, S(), M());
      Items := Items - {key};
    }

    /** What remove_min (for the root) and remove_direct do once they know the position. */
    method TakeOut(index: nat)
      requires Shape() && index < elems_num
      requires key_index != null ==> Exact(S(), M())
      modifies this`elems_num, elems, key_index
      ensures Shape() && (key_index != null ==> Exact(S(), M()))
      ensures multiset(S()) == multiset(TakenOut(old(S()), index))
      ensures Ordered(cmp, old(S())) ==> (Ordered(cmp, S()) <==> RemovalKeepsOrder(cmp, old(S()), index))
    {
      ghost var s, m := S(), M();
      if Ordered(cmp, s) { TakenOutOrder(cmp, s, index); }
      if key_index != null {
        TakenOutIndex(s, m, index);
        key_index.Remove(elems[index].key);
      }
      elems_num := elems_num - 1;
      if index != elems_num {
        assert S()[index := elems[elems_num]] == TakenOut(s, index);
        MoveLastInto(index);
      } else {
        assert S() == TakenOut(s, index);
      }
    }

    /** Fills the hole with the element just cut off the end, which then only sinks. */
    method MoveLastInto(index: nat)
      requires Shape() && elems != null && index < elems_num < elems.Length
      requires key_index != null ==> ExactBut(S()[index := elems[elems_num]], M(), index)
      modifies elems, key_index
      ensures Shape() && (key_index != null ==> Exact(S(), M()))
      ensures multiset(S()) == multiset(old(S()[index := elems[elems_num]]))
      ensures OrderedBut(cmp, old(S()[index := elems[elems_num]]), index) ==>
                (Ordered(cmp, S()) <==> NotAboveParent(cmp, old(S()[index := elems[elems_num]]), index))
    {
      ghost var s := S()[index := elems[elems_num]];
      elems[index] := elems[elems_num];
      assert S() == s;
      var sunk := BubbleDown(index);
      if index == sunk && key_index != null {
        SetMakesExact(s, M(), index);
        key_index.Set(elems[index].key, index);
      }
    }

    method Clear()
      requires Valid()
      modifies this, key_index
      ensures Valid() && IsHeap() && S() == [] && Items == map[]
    {
      elems := null;
      elems_num := 0;
      if key_index != null {
        key_index.Clear();
      }
      Items := map[];
    }
  }

  // ----- A queue of what is due

  /** Nothing is due later than something that is not. */
  ghost predicate DueFirst<D(!new)>(cmp: Compare<D>, due: Elem<D> -> bool) {
    forall a, b :: cmp(a, b) <= 0 && due(b) ==> due(a)
  }

  ghost predicate Least<D>(cmp: Compare<D>, e: Elem<D>, left: multiset<Elem<D>>) {
    forall x :: x in left ==> cmp(e, x) <= 0
  }

  /** What has been taken is due, in order, and not above anything that is left. */
  ghost predicate TakenInOrder<D>(cmp: Compare<D>, due: Elem<D> -> bool, taken: seq<Elem<D>>, left: multiset<Elem<D>>) {
    forall n {:trigger Unfolded(n)} :: n == |taken| && Unfolded(n) ==>
      && (forall i, j :: 0 <= i < j < n ==> cmp(taken[i], taken[j]) <= 0)
      && (forall i :: 0 <= i < n ==> due(taken[i]) && Least(cmp, taken[i], left))
  }

  lemma TakeOne<D>(cmp: Compare<D>, due: Elem<D> -> bool, taken: seq<Elem<D>>, left: multiset<Elem<D>>, min: Elem<D>)
    requires TakenInOrder(cmp, due, taken, left)
    requires min in left && due(min) && Least(cmp, min, left)
    ensures TakenInOrder(cmp, due, taken + [min], left - multiset{min})
    ensures (left - multiset{min}) + multiset(taken + [min]) == left + multiset(taken)
  {
    assert Unfolded(|taken|);
    var rest := left - multiset{min};
    assert left == rest + multiset{min};
    assert forall x :: x in rest ==> x in left;
  }

  /** Takes what is due from the front of the queue, at most max elements: they come in order, none that is left
      precedes one of them, and if fewer than max are taken nothing that is left is due. */
  method TakeDue<D(0,!new)>(heap: Heap<D>, due: Elem<D> -> bool, max: nat) returns (taken: seq<Elem<D>>)
    requires heap.Valid() && heap.IsHeap() && DueFirst(heap.cmp, due)
    modifies heap, heap.elems, heap.key_index
    ensures heap.Valid() && heap.IsHeap()
    ensures multiset(heap.S()) + multiset(taken) == old(multiset(heap.S())) && |taken| <= max
    ensures forall i, j :: 0 <= i < j < |taken| ==> heap.cmp(taken[i], taken[j]) <= 0
    ensures forall i :: 0 <= i < |taken| ==> due(taken[i]) && Least(heap.cmp, taken[i], multiset(heap.S()))
    ensures |taken| < max ==> forall e :: e in heap.S() ==> !due(e)
  {
    taken := [];
    while |taken| < max && !heap.Empty()
      invariant heap.Valid() && heap.IsHeap() && |taken| <= max
      invariant heap.elems == old(heap.elems)
      invariant multiset(heap.S()) + multiset(taken) == old(multiset(heap.S()))
      invariant TakenInOrder(heap.cmp, due, taken, multiset(heap.S()))
      decreases max - |taken|
    {
      var min := heap.FindMin();
      if !due(min) {
        break;
      }
      assert Least(heap.cmp, min, multiset(heap.S()));
      TakeOne(heap.cmp, due, taken, multiset(heap.S()), min);
      heap.RemoveMin();
      taken := taken + [min];
    }
    assert Unfolded(|taken|);
  }
}
