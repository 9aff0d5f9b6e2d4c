/** The chained hashset: nodes linked by next pointers from an array of slots. */
module Hashset {
  import opened Ctypes
  import Algodefs

  class Node<T> {
    var next: Node?<T>
    const hash: uint32
    const data: T

    constructor (hash: uint32, data: T, next: Node?<T>)
      ensures this.hash == hash && this.data == data && this.next == next
    {
      this.hash, this.data, this.next := hash, data, next;
    }
  }

  // ----- Chains as values

  type Chains<T> = seq<seq<Node<T>>>

  function Nth<T>(c: seq<Node<T>>, i: nat): Node?<T> {
    if i < |c| then c[i] else null
  }

  ghost predicate At<T>(chains: Chains<T>, s: int, i: int) {
    0 <= s < |chains| && 0 <= i < |chains[s]|
  }

  ghost predicate Chain<T>(chains: Chains<T>, s: int) {
    0 <= s < |chains|
  }

  ghost predicate NoDup<T>(c: seq<Node<T>>) {
    forall i, j :: 0 <= i < j < |c| ==> c[i] != c[j]
  }

  ghost predicate Lives<T>(home: map<Node<T>, nat>, n: Node<T>) {
    n in home
  }

  ghost predicate Among<T>(nodes: set<Node<T>>, n: Node<T>) {
    n in nodes
  }

  /** The pointers spell out the chains: heads are the slots, next the next pointers, and home says in which
      chain each node is. */
  ghost predicate Linked<T>(heads: seq<Node?<T>>, next: map<Node<T>, Node?<T>>, chains: Chains<T>,
                            home: map<Node<T>, nat>) {
    && |heads| == |chains|
    && (forall s {:trigger Chain(chains, s)} :: Chain(chains, s) ==> heads[s] == Nth(chains[s], 0) && NoDup(chains[s]))
    && (forall s, i {:trigger At(chains, s, i)} :: At(chains, s, i) ==>
          && chains[s][i] in home && home[chains[s][i]] == s
          && chains[s][i] in next && next[chains[s][i]] == Nth(chains[s], i + 1))
    && (forall n {:trigger Lives(home, n)} :: n in home ==> home[n] < |chains| && n in chains[home[n]])
  }

  lemma InSomeChain<T(!new)>(heads: seq<Node?<T>>, next: map<Node<T>, Node?<T>>, chains: Chains<T>, home: map<Node<T>, nat>)
    requires Linked(heads, next, chains, home)
    ensures forall n :: n in home ==> exists s :: 0 <= s < |chains| && n in chains[s]
  {
    forall n | n in home
      ensures exists s :: 0 <= s < |chains| && n in chains[s]
    {
      assert Lives(home, n);
    }
  }

  /** The next pointers in the heap. */
  ghost function NextOf<T>(nodes: set<Node<T>>): map<Node<T>, Node?<T>>
    reads nodes
  {
    map n | n in nodes :: n.next
  }

  function Without<T>(c: seq<Node<T>>, i: nat): seq<Node<T>>
    requires i < |c|
  {
    c[..i] + c[i + 1..]
  }

  lemma WithoutFacts<T>(c: seq<Node<T>>, i: nat)
    requires i < |c| && NoDup(c)
    ensures NoDup(Without(c, i))
    ensures forall n :: n in Without(c, i) <==> n in c && n != c[i]
  {
    var d := Without(c, i);
    forall n | n in c && n != c[i]
      ensures n in d
    {
      var j :| 0 <= j < |c| && c[j] == n;
      assert d[if j < i then j else j - 1] == n;
    }
    forall j | 0 <= j < |d|
      ensures d[j] in c && d[j] != c[i]
    {
      assert d[j] == c[if j < i then j else j + 1];
    }
  }

  /** The heads and next pointers after the node at (s, i) has been taken out of its chain. */
  function UnlinkedHeads<T>(heads: seq<Node?<T>>, chains: Chains<T>, s: nat, i: nat): seq<Node?<T>>
    requires s < |heads| == |chains| && i < |chains[s]|
  {
    if i == 0 then heads[s := Nth(chains[s], 1)] else heads
  }

  function UnlinkedNext<T>(next: map<Node<T>, Node?<T>>, chains: Chains<T>, s: nat, i: nat): map<Node<T>, Node?<T>>
    requires s < |chains| && i < |chains[s]|
  {
    (if i == 0 then next else next[chains[s][i - 1] := Nth(chains[s], i + 1)]) - {chains[s][i]}
  }

  lemma Unlink<T>(heads: seq<Node?<T>>, next: map<Node<T>, Node?<T>>, chains: Chains<T>, home: map<Node<T>, nat>,
                  s: nat, i: nat)
    requires Linked(heads, next, chains, home) && At(chains, s, i)
    ensures Linked(UnlinkedHeads(heads, chains, s, i), UnlinkedNext(next, chains, s, i),
                   chains[s := Without(chains[s], i)], home - {chains[s][i]})
  {
    var c, n := chains[s], chains[s][i];
    var chains', home' := chains[s := Without(c, i)], home - {n};
    var heads', next' := UnlinkedHeads(heads, chains, s, i), UnlinkedNext(next, chains, s, i);
    assert Chain(chains, s);
    WithoutFacts(c, i);
    forall t | Chain(chains', t)
      ensures heads'[t] == Nth(chains'[t], 0) && NoDup(chains'[t])
    {
      assert Chain(chains, t);
    }
    forall t, j | At(chains', t, j)
      ensures chains'[t][j] in home' && home'[chains'[t][j]] == t
      ensures chains'[t][j] in next' && next'[chains'[t][j]] == Nth(chains'[t], j + 1)
    {
      var j' := if t == s && j >= i then j + 1 else j;
      assert At(chains, t, j') && chains'[t][j] == chains[t][j'];
      assert i > 0 ==> At(chains, s, i - 1);
    }
    forall m | m in home'
      ensures home'[m] < |chains'| && m in chains'[home'[m]]
    {
      assert Lives(home, m);
    }
  }

  lemma Prepend<T>(heads: seq<Node?<T>>, next: map<Node<T>, Node?<T>>, chains: Chains<T>, home: map<Node<T>, nat>,
                   s: nat, n: Node<T>)
    requires Linked(heads, next, chains, home) && s < |chains| && n !in home
    ensures Linked(heads[s := n], next[n := heads[s]], chains[s := [n] + chains[s]], home[n := s])
  {
    var chains', home' := chains[s := [n] + chains[s]], home[n := s];
    var heads', next' := heads[s := n], next[n := heads[s]];
    assert Chain(chains, s);
    forall j | 0 <= j < |chains[s]|
      ensures chains[s][j] != n
    {
      assert At(chains, s, j);
    }
    forall t | Chain(chains', t)
      ensures heads'[t] == Nth(chains'[t], 0) && NoDup(chains'[t])
    {
      assert Chain(chains, t);
    }
    forall t, j | At(chains', t, j)
      ensures chains'[t][j] in home' && home'[chains'[t][j]] == t
      ensures chains'[t][j] in next' && next'[chains'[t][j]] == Nth(chains'[t], j + 1)
    {
      if t == s && j == 0 {
      } else {
        assert At(chains, t, if t == s then j - 1 else j);
      }
    }
    forall m | m in home'
      ensures home'[m] < |chains'| && m in chains'[home'[m]]
    {
      if m != n { assert Lives(home, m); }
      if m == n { assert ([n] + chains[s])[0] == n; }
    }
  }

  // ----- Growth

  /** Each node is in the chain its hash selects among k slots. */
  ghost predicate Placed<T>(home: map<Node<T>, nat>, k: nat)
    requires k > 0
  {
    forall n {:trigger Lives(home, n)} :: n in home ==> home[n] == n.hash % k
  }

  /** While chain s is being relinked from k to k' slots and its node j is next: a node not visited yet may still
      be where k slots put it, every other is where k' slots want it. */
  ghost predicate Relinking<T>(chains: Chains<T>, home: map<Node<T>, nat>, k: nat, k': nat, s: nat, j: nat)
    requires 0 < k <= k' && s < |chains| && j <= |chains[s]|
  {
    forall n {:trigger Lives(home, n)} :: n in home ==>
      || home[n] == n.hash % k'
      || (home[n] == n.hash % k && (home[n] > s || (home[n] == s && n in chains[s][j..])))
  }

  /** The pointer assignments of one move: the node goes to the head of chain d, then its predecessor skips it. */
  function MovedHeads<T>(heads: seq<Node?<T>>, chains: Chains<T>, s: nat, j: nat, d: nat): seq<Node?<T>>
    requires s < |heads| == |chains| && j < |chains[s]| && d < |heads|
  {
    var h := heads[d := chains[s][j]];
    if j == 0 then h[s := Nth(chains[s], 1)] else h
  }

  function MovedNext<T>(heads: seq<Node?<T>>, next: map<Node<T>, Node?<T>>, chains: Chains<T>, s: nat, j: nat, d: nat):
      map<Node<T>, Node?<T>>
    requires s < |heads| == |chains| && j < |chains[s]| && d < |heads|
  {
    var m := next[chains[s][j] := heads[d]];
    if j == 0 then m else m[chains[s][j - 1] := Nth(chains[s], j + 1)]
  }

  function MovedChains<T>(chains: Chains<T>, s: nat, j: nat, d: nat): Chains<T>
    requires s < |chains| && j < |chains[s]| && d < |chains|
  {
    var c := chains[s := Without(chains[s], j)];
    c[d := [chains[s][j]] + c[d]]
  }

  lemma Move<T>(heads: seq<Node?<T>>, next: map<Node<T>, Node?<T>>, chains: Chains<T>, home: map<Node<T>, nat>,
                s: nat, j: nat, d: nat)
    requires Linked(heads, next, chains, home) && At(chains, s, j) && d < |chains| && d != s
    ensures Linked(MovedHeads(heads, chains, s, j, d), MovedNext(heads, next, chains, s, j, d),
                   MovedChains(chains, s, j, d), home[chains[s][j] := d])
  {
    var n := chains[s][j];
    Unlink(heads, next, chains, home, s, j);
    var heads1, next1, chains1, home1 :=
      UnlinkedHeads(heads, chains, s, j), UnlinkedNext(next, chains, s, j), chains[s := Without(chains[s], j)], home - {n};
    Prepend(heads1, next1, chains1, home1, d, n);
    assert heads1[d := n] == MovedHeads(heads, chains, s, j, d);
    assert home1[n := d] == home[n := d];
    if j > 0 {
      assert Chain(chains, s);
      assert chains[s][j - 1] != n;
    }
    assert next1[n := heads1[d]] == MovedNext(heads, next, chains, s, j, d);
  }

  lemma MoveAdvances<T>(heads: seq<Node?<T>>, next: map<Node<T>, Node?<T>>, chains: Chains<T>, home: map<Node<T>, nat>,
                        k: nat, k': nat, s: nat, j: nat)
    requires Linked(heads, next, chains, home) && At(chains, s, j) && 0 < k <= k' == |chains|
    requires Relinking(chains, home, k, k', s, j) && chains[s][j].hash % k' != s
    ensures var d := chains[s][j].hash % k';
            var c := MovedChains(chains, s, j, d);
            j <= |c[s]| && Relinking(c, home[chains[s][j] := d], k, k', s, j)
  {
    var n := chains[s][j];
    var d := n.hash % k';
    var c := MovedChains(chains, s, j, d);
    assert c[s] == Without(chains[s], j);
    assert c[s][j..] == chains[s][j + 1..];
    assert chains[s][j..] == [n] + chains[s][j + 1..];
    forall m | m in home[n := d]
      ensures
        var h := home[n := d];
        || h[m] == m.hash % k'
        || (h[m] == m.hash % k && (h[m] > s || (h[m] == s && m in c[s][j..])))
    {
      if m != n { assert Lives(home, m); }
    }
  }

  lemma StayAdvances<T>(heads: seq<Node?<T>>, next: map<Node<T>, Node?<T>>, chains: Chains<T>, home: map<Node<T>, nat>,
                        k: nat, k': nat, s: nat, j: nat)
    requires Linked(heads, next, chains, home) && At(chains, s, j) && 0 < k <= k' == |chains|
    requires Relinking(chains, home, k, k', s, j) && chains[s][j].hash % k' == s
    ensures Relinking(chains, home, k, k', s, j + 1)
  {
    assert chains[s][j..] == [chains[s][j]] + chains[s][j + 1..];
    forall m | m in home
      ensures
        || home[m] == m.hash % k'
        || (home[m] == m.hash % k && (home[m] > s || (home[m] == s && m in chains[s][j + 1..])))
    {
      assert Lives(home, m);
    }
  }

  /** The next chain is up, or all are done. */
  lemma ChainDone<T>(heads: seq<Node?<T>>, next: map<Node<T>, Node?<T>>, chains: Chains<T>, home: map<Node<T>, nat>,
                     k: nat, k': nat, s: nat)
    requires Linked(heads, next, chains, home) && 0 < k < k' == |chains| && s < k
    requires Relinking(chains, home, k, k', s, |chains[s]|)
    ensures Relinking(chains, home, k, k', s + 1, 0)
    ensures s + 1 == k ==> Placed(home, k')
  {
    forall m | m in home
      ensures
        || home[m] == m.hash % k'
        || (home[m] == m.hash % k && (home[m] > s + 1 || (home[m] == s + 1 && m in chains[s + 1][0..])))
    {
      assert Lives(home, m);
    }
  }

  function NoHeads<T>(n: nat): (h: seq<Node?<T>>)
    ensures |h| == n && forall i :: 0 <= i < n ==> h[i] == null
  {
    seq(n, _ => null)
  }

  function NoChains<T>(n: nat): (c: Chains<T>)
    ensures |c| == n && forall i :: 0 <= i < n ==> c[i] == []
  {
    seq(n, _ => [])
  }

  lemma GrowthStarts<T>(heads: seq<Node?<T>>, next: map<Node<T>, Node?<T>>, chains: Chains<T>, home: map<Node<T>, nat>,
                        k': nat)
    requires Linked(heads, next, chains, home) && 0 < |chains| < k' && Placed(home, |chains|)
    ensures var more := k' - |chains|;
            var chains' := chains + NoChains(more);
            && Linked(heads + NoHeads(more), next, chains', home)
            && Relinking(chains', home, |chains|, k', 0, 0)
  {
    var more := k' - |chains|;
    var chains', heads' := chains + NoChains(more), heads + NoHeads(more);
    forall t | Chain(chains', t)
      ensures heads'[t] == Nth(chains'[t], 0) && NoDup(chains'[t])
    {
      if t < |chains| { assert Chain(chains, t); }
    }
    forall t, j | At(chains', t, j)
      ensures At(chains, t, j) && chains'[t] == chains[t]
    {
    }
    forall m | m in home
      ensures home[m] < |chains| && m in chains'[home[m]] && home[m] == m.hash % |chains|
    {
      assert Lives(home, m);
    }
  }

  // ----- The set

  ghost predicate Equivalence<T(!new)>(cmp: (T, T) -> int) {
    && (forall a :: cmp(a, a) == 0)
    && (forall a, b :: cmp(a, b) == 0 ==> cmp(b, a) == 0)
    && (forall a, b, c :: cmp(a, b) == 0 && cmp(b, c) == 0 ==> cmp(a, c) == 0)
  }

  /** The load factor 4/5 in integer division. */
  function CriticalLoad(num_slots: nat): nat {
    num_slots * 4 / 5
  }

  /** One growth step makes room for one more entry. */
  lemma GrowthMakesRoom(num_data: nat, k: nat, k': nat)
    requires k >= 2 && num_data < CriticalLoad(k) && k' >= Max(k + 1, k * 3 / 2)
    ensures num_data + 1 < CriticalLoad(k')
  {
  }

  lemma PlacedWithout<T>(home: map<Node<T>, nat>, k: nat, n: Node<T>)
    requires k > 0 && Placed(home, k)
    ensures Placed(home - {n}, k)
  {
    forall m | m in home - {n}
      ensures home[m] == m.hash % k
    {
      assert Lives(home, m);
    }
  }

  lemma PlacedWith<T>(home: map<Node<T>, nat>, k: nat, n: Node<T>)
    requires k > 0 && Placed(home, k)
    ensures Placed(home[n := n.hash % k], k)
  {
    forall m | m in home[n := n.hash % k]
      ensures home[n := n.hash % k][m] == m.hash % k
    {
      if m != n { assert Lives(home, m); }
    }
  }

  class HashSet<T(!new)> {
    var slots: array<Node?<T>>
    var num_slots: nat
    var num_data: nat
    const hash: T -> uint32
    const cmp: (T, T) -> int
    ghost var chains: Chains<T>
    ghost var home: map<Node<T>, nat>

    ghost function Nodes(): set<Node<T>>
      reads this
    {
      home.Keys
    }

    /** The test that search, insert and remove apply to a node. */
    predicate Same(n: Node<T>, data: T) {
      n.hash == hash(data) && cmp(n.data, data) == 0
    }

    /** Every node caches the hash of its data, and no two nodes are the same entry. */
    ghost predicate Entries(nodes: set<Node<T>>) {
      && (forall n {:trigger Among(nodes, n)} :: n in nodes ==> n.hash == hash(n.data))
      && (forall n, m {:trigger Among(nodes, n), Among(nodes, m)} ::
            n in nodes && m in nodes && Same(n, m.data) ==> n == m)
    }

    ghost predicate Shape()
      reads this, slots, Nodes()
    {
      && Equivalence(cmp)
      && Linked(slots[..], NextOf(Nodes()), chains, home)
      && Entries(Nodes())
    }

    ghost predicate Valid()
      reads this, slots, Nodes()
    {
      && Shape()
      && num_slots == slots.Length >= 2
      && Placed(home, num_slots)
      && num_data == |Nodes()| < num_slots * 4 / 5
    }

    constructor (init_size: nat, hash: T -> uint32, cmp: (T, T) -> int)
      requires Equivalence(cmp)
      ensures Valid() && Nodes() == {} && this.hash == hash && this.cmp == cmp
      ensures Algodefs.LeastPrime(init_size, num_slots) && fresh(slots)
    {
      var nslots := Algodefs.NextPrime(init_size);
      this.num_data, this.num_slots := 0, nslots;
      this.slots := new Node?<T>[nslots](_ => null);
      this.hash, this.cmp := hash, cmp;
      this.chains, this.home := seq(nslots, _ => []), map[];
      new;
      assert NextOf(Nodes()) == map[];
    }

    /** The walk along one chain. */
    method Find(data: T) returns (slot: nat, entry: Node?<T>, ghost i: nat)
      requires Valid()
      ensures slot == hash(data) % num_slots < |chains| && i <= |chains[slot]| && entry == Nth(chains[slot], i)
      ensures entry != null ==> entry in Nodes() && Same(entry, data)
      ensures entry == null ==> forall n :: n in Nodes() ==> !Same(n, data)
    {
      slot := hash(data) % num_slots;
      i := 0;
      assert Chain(chains, slot);
      entry := slots[slot];
      while entry != null
        invariant i <= |chains[slot]| && entry == Nth(chains[slot], i)
        invariant forall j :: 0 <= j < i ==> !Same(chains[slot][j], data)
        decreases |chains[slot]| - i
      {
        assert At(chains, slot, i);
        if entry.hash == hash(data) && cmp(entry.data, data) == 0 {
          return;
        }
        entry := entry.next;
        i := i + 1;
      }
      forall n | n in Nodes()
        ensures !Same(n, data)
      {
        assert Lives(home, n) && Among(Nodes(), n);
      }
    }

    /** Returns the data of the entry, here the entry itself. */
    method Search(data: T) returns (entry: Node?<T>)
      requires Valid()
      ensures entry != null ==> entry in Nodes() && Same(entry, data)
      ensures entry == null <==> forall n :: n in Nodes() ==> !Same(n, data)
    {
      var slot, found, i := Find(data);
      entry := found;
    }

    ghost predicate MustGrow()
      reads this
    {
      num_data + 1 >= CriticalLoad(num_slots)
    }

    /** Enlarges the slot array and relinks every chain in place. */
    method Grow(reallocOk: bool) returns (ok: bool)
      requires Valid() && MustGrow()
      modifies this`slots, this`num_slots, this`chains, this`home, slots, Nodes()
      ensures Valid() && Nodes() == old(Nodes())
      ensures ok <==> reallocOk
      ensures ok ==> !MustGrow() && num_slots > old(num_slots)
      ensures ok ==> Algodefs.LeastPrime(Max(old(num_slots) + 1, old(num_slots) * 3 / 2), num_slots)
      ensures !ok ==> unchanged(this) && unchanged(slots)
      ensures slots == old(slots) || fresh(slots)
    {
      var inc_slots := Algodefs.NextPrime(Max(num_slots + 1, num_slots * 3 / 2));
      GrowthMakesRoom(num_data, num_slots, inc_slots);
      if !reallocOk {
        return false;
      }
      GrowTo(inc_slots);
      ok := true;
    }

    method GrowTo(inc_slots: nat)
      requires Valid() && inc_slots > num_slots && num_data < CriticalLoad(inc_slots)
      modifies this`slots, this`num_slots, this`chains, this`home, slots, Nodes()
      ensures Valid() && Nodes() == old(Nodes()) && num_slots == inc_slots && fresh(slots)
    {
      Enlarge(inc_slots);
      RelinkAll(inc_slots);
      ghost var heads, next := slots[..], NextOf(Nodes());
      num_slots := inc_slots;
      assert slots[..] == heads && NextOf(Nodes()) == next;
    }

    method RelinkAll(inc_slots: nat)
      requires Shape() && 0 < num_slots < inc_slots == slots.Length
      requires Relinking(chains, home, num_slots, inc_slots, 0, 0)
      modifies this`chains, this`home, slots, Nodes()
      ensures Shape() && Nodes() == old(Nodes()) && Placed(home, inc_slots)
    {
      var slot := 0;
      while slot < num_slots
        invariant 0 <= slot <= num_slots
        invariant Shape() && Nodes() == old(Nodes())
        invariant Relinking(chains, home, num_slots, inc_slots, slot, 0)
        invariant slot == num_slots ==> Placed(home, inc_slots)
      {
        RelinkSlot(slot, inc_slots);
        slot := slot + 1;
      }
    }

    /** The reallocation: the new slots are empty. */
    method Enlarge(inc_slots: nat)
      requires Valid() && inc_slots > num_slots
      modifies this`slots, this`chains
      ensures Shape() && slots.Length == inc_slots && fresh(slots)
      ensures Relinking(chains, home, num_slots, inc_slots, 0, 0)
    {
      ghost var heads, c := slots[..], chains;
      GrowthStarts(heads, NextOf(Nodes()), c, home, inc_slots);
      var grown := new Node?<T>[inc_slots](_ => null);
      forall i | 0 <= i < num_slots {
        grown[i] := slots[i];
      }
      slots := grown;
      chains := chains + NoChains(inc_slots - num_slots);
      assert slots[..] == heads + NoHeads(inc_slots - |c|);
    }

    method RelinkSlot(slot: nat, inc_slots: nat)
      requires Shape() && slot < num_slots < inc_slots == slots.Length && num_slots > 0
      requires Relinking(chains, home, num_slots, inc_slots, slot, 0)
      modifies this`chains, this`home, slots, Nodes()
      ensures Shape() && Nodes() == old(Nodes())
      ensures Relinking(chains, home, num_slots, inc_slots, slot + 1, 0)
      ensures slot + 1 == num_slots ==> Placed(home, inc_slots)
    {
      assert Chain(chains, slot);
      var prev: Node?<T> := null;
      var curr_entry := slots[slot];
      ghost var j := 0;
      while curr_entry != null
        invariant Shape() && Nodes() == old(Nodes())
        invariant slot < |chains| == inc_slots && j <= |chains[slot]|
        invariant curr_entry == Nth(chains[slot], j)
        invariant prev == if j == 0 then null else chains[slot][j - 1]
        invariant Relinking(chains, home, num_slots, inc_slots, slot, j)
        decreases |chains[slot]| - j
      {
        assert At(chains, slot, j) && curr_entry in Nodes();
        assert j > 0 ==> At(chains, slot, j - 1) && prev in Nodes();
        var new_slot := curr_entry.hash % inc_slots;
        if slot != new_slot {
          curr_entry := MoveEntry(slot, prev, curr_entry, new_slot, j);
        } else {
          StayAdvances(slots[..], NextOf(Nodes()), chains, home, num_slots, inc_slots, slot, j);
          prev := curr_entry;
          curr_entry := curr_entry.next;
          j := j + 1;
        }
      }
      ChainDone(slots[..], NextOf(Nodes()), chains, home, num_slots, inc_slots, slot);
    }

    /** Puts one entry at the head of another chain and closes the gap it leaves. */
    method MoveEntry(slot: nat, prev: Node?<T>, curr_entry: Node<T>, new_slot: nat, ghost j: nat)
        returns (tmp: Node?<T>)
      requires Shape() && At(chains, slot, j) && curr_entry == chains[slot][j]
      requires prev == if j == 0 then null else chains[slot][j - 1]
      requires 0 < num_slots <= slots.Length && new_slot == curr_entry.hash % slots.Length && slot != new_slot
      requires Relinking(chains, home, num_slots, slots.Length, slot, j)
      modifies this`chains, this`home, slots, prev, curr_entry
      ensures Shape() && Nodes() == old(Nodes())
      ensures |chains| == old(|chains|) && chains[slot] == Without(old(chains[slot]), j)
      ensures Relinking(chains, home, num_slots, slots.Length, slot, j)
      ensures tmp == Nth(chains[slot], j)
      ensures j > 0 ==> chains[slot][j - 1] == prev
    {
      ghost var heads, next, c, h := slots[..], NextOf(Nodes()), chains, home;
      Move(heads, next, c, h, slot, j, new_slot);
      MoveAdvances(heads, next, c, h, num_slots, slots.Length, slot, j);
      assert Chain(c, slot) && (j > 0 ==> At(c, slot, j - 1));
      assert curr_entry.next == Nth(c[slot], j + 1);
      tmp := curr_entry.next;
      curr_entry.next := slots[new_slot];
      slots[new_slot] := curr_entry;
      if prev == null {
        slots[slot] := tmp;
      } else {
        assert prev != curr_entry;
        prev.next := tmp;
      }
      home := home[curr_entry := new_slot];
      chains := MovedChains(chains, slot, j, new_slot);
      assert Nodes() == h.Keys;
      assert slots[..] == MovedHeads(heads, c, slot, j, new_slot);
      forall n | n in h.Keys
        ensures n.next == MovedNext(heads, next, c, slot, j, new_slot)[n]
      {
      }
      assert NextOf(h.Keys) == MovedNext(heads, next, c, slot, j, new_slot);
    }

    lemma EntriesWithout(nodes: set<Node<T>>, n: Node<T>)
      requires Entries(nodes)
      ensures Entries(nodes - {n})
    {
      forall m | m in nodes - {n}
        ensures m.hash == hash(m.data)
      {
        assert Among(nodes, m);
      }
      forall m, m' | m in nodes - {n} && m' in nodes - {n} && Same(m, m'.data)
        ensures m == m'
      {
        assert Among(nodes, m) && Among(nodes, m');
      }
    }

    lemma EntriesWith(nodes: set<Node<T>>, n: Node<T>)
      requires Equivalence(cmp) && Entries(nodes) && n.hash == hash(n.data)
      requires forall m :: m in nodes ==> !Same(m, n.data)
      ensures Entries(nodes + {n})
    {
      forall m | m in nodes + {n}
        ensures m.hash == hash(m.data)
      {
        if m != n { assert Among(nodes, m); }
      }
      forall m, m' | m in nodes + {n} && m' in nodes + {n} && Same(m, m'.data)
        ensures m == m'
      {
        if m != n { assert Among(nodes, m); }
        if m' != n { assert Among(nodes, m'); }
      }
    }

    /** Adds data unless an equal entry is there. An allocation may fail before or after growth. */
    method Insert(data: T, reallocOk: bool, mallocOk: bool) returns (entry: Node?<T>)
      requires Valid()
      modifies this`slots, this`num_slots, this`num_data, this`chains, this`home, slots, Nodes()
      ensures Valid()
      ensures if exists n :: n in old(Nodes()) && Same(n, data) then
                entry in old(Nodes()) && Same(entry, data) && Nodes() == old(Nodes()) && unchanged(this)
              else if (old(MustGrow()) && !reallocOk) || !mallocOk then
                entry == null && Nodes() == old(Nodes())
              else
                && entry != null && fresh(entry) && entry.data == data && entry.hash == hash(data)
                && Nodes() == old(Nodes()) + {entry}
      ensures forall n :: n in old(Nodes()) && Same(n, data) ==> n == entry
      ensures slots == old(slots) || fresh(slots)
      ensures num_slots == old(num_slots) ||
              (old(num_data) + 1 >= old(num_slots) * 4 / 5 &&
               Algodefs.LeastPrime(Max(old(num_slots) + 1, old(num_slots) * 3 / 2), num_slots))
    {
      var slot, found, i := Find(data);
      if found != null {
        assert Among(Nodes(), found);
        forall n | n in Nodes() && Same(n, data)
          ensures n == found
        {
          assert Among(Nodes(), n) && Same(n, found.data);
        }
        return found;
      }
      if num_data + 1 >= CriticalLoad(num_slots) {
        var ok := Grow(reallocOk);
        if !ok {
          return null;
        }
        slot := hash(data) % num_slots;
      }
      if !mallocOk {
        return null;
      }
      entry := Link(slot, data);
    }

    method Link(slot: nat, data: T) returns (entry: Node<T>)
      requires Valid() && !MustGrow() && slot == hash(data) % num_slots
      requires forall n :: n in Nodes() ==> !Same(n, data)
      modifies this`num_data, this`chains, this`home, slots
      ensures Valid()
      ensures fresh(entry) && entry.data == data && entry.hash == hash(data)
      ensures Nodes() == old(Nodes()) + {entry}
    {
      entry := new Node(hash(data), data, slots[slot]);
      PlacedWith(home, num_slots, entry);
      PutFirst(slot, entry);
      ghost var heads, next := slots[..], NextOf(Nodes());
      num_data := num_data + 1;
      assert slots[..] == heads && NextOf(Nodes()) == next;
    }

    /** Lets the slot point to a new entry that points to the old head of the chain. */
    method PutFirst(slot: nat, entry: Node<T>)
      requires Shape() && slot < slots.Length && entry !in Nodes() && entry.next == slots[slot]
      requires entry.hash == hash(entry.data) && forall n :: n in Nodes() ==> !Same(n, entry.data)
      modifies this`chains, this`home, slots
      ensures Shape() && home == old(home)[entry := slot]
    {
      ghost var heads, next, c, h := slots[..], NextOf(Nodes()), chains, home;
      Prepend(heads, next, c, h, slot, entry);
      EntriesWith(Nodes(), entry);
      slots[slot] := entry;
      chains := chains[slot := [entry] + chains[slot]];
      home := home[entry := slot];
      assert Nodes() == h.Keys + {entry};
      assert slots[..] == heads[slot := entry];
      assert NextOf(Nodes()) == next[entry := heads[slot]];
    }

    /** Closes the gap that an entry leaves in its chain; prev is the entry before it, if any. */
    method UnlinkEntry(slot: nat, prev: Node?<T>, entry: Node<T>, ghost j: nat)
      requires Valid() && At(chains, slot, j) && chains[slot][j] == entry
      requires prev == if j == 0 then null else chains[slot][j - 1]
      modifies this`num_data, this`chains, this`home, slots, prev
      ensures Valid() && Nodes() == old(Nodes()) - {entry}
      ensures home == old(home) - {entry}
      ensures chains == old(chains)[slot := Without(old(chains)[slot], j)]
    {
      assert entry in Nodes();
      PlacedWithout(home, num_slots, entry);
      Bypass(slot, prev, entry, j);
      ghost var heads, next := slots[..], NextOf(Nodes());
      num_data := num_data - 1;
      assert slots[..] == heads && NextOf(Nodes()) == next;
    }

    /** Lets the slot, or the entry before, point past an entry. */
    method Bypass(slot: nat, prev: Node?<T>, entry: Node<T>, ghost j: nat)
      requires Shape() && At(chains, slot, j) && chains[slot][j] == entry
      requires prev == if j == 0 then null else chains[slot][j - 1]
      modifies this`chains, this`home, slots, prev
      ensures Shape() && home == old(home) - {entry}
      ensures chains == old(chains)[slot := Without(old(chains)[slot], j)]
    {
      ghost var heads, next, c, h := slots[..], NextOf(Nodes()), chains, home;
      Unlink(heads, next, c, h, slot, j);
      EntriesWithout(Nodes(), entry);
      assert Chain(c, slot) && (j > 0 ==> At(c, slot, j - 1) && prev != entry);
      assert entry.next == Nth(c[slot], j + 1);
      if prev == null {
        slots[slot] := entry.next;
      } else {
        prev.next := entry.next;
      }
      chains := chains[slot := Without(chains[slot], j)];
      home := home - {entry};
      assert Nodes() == h.Keys - {entry};
      assert slots[..] == UnlinkedHeads(heads, c, slot, j);
      assert NextOf(Nodes()) == UnlinkedNext(next, c, slot, j);
    }

    method Remove(data: T)
      requires Valid()
      modifies this`num_data, this`chains, this`home, slots, Nodes()
      ensures Valid()
      ensures Nodes() == set n | n in old(Nodes()) && !Same(n, data)
    {
      var slot := hash(data) % num_slots;
      assert Chain(chains, slot);
      var entry := slots[slot];
      var prev_entry: Node?<T> := null;
      ghost var j := 0;
      while entry != null
        invariant j <= |chains[slot]| && entry == Nth(chains[slot], j)
        invariant prev_entry == if j == 0 then null else chains[slot][j - 1]
        invariant forall i :: 0 <= i < j ==> !Same(chains[slot][i], data)
        decreases |chains[slot]| - j
      {
        assert At(chains, slot, j) && (j > 0 ==> At(chains, slot, j - 1));
        if entry.hash == hash(data) && cmp(entry.data, data) == 0 {
          assert Among(Nodes(), entry);
          forall n | n in Nodes() && Same(n, data)
            ensures n == entry
          {
            assert Among(Nodes(), n) && Same(n, entry.data);
          }
          UnlinkEntry(slot, prev_entry, entry, j);
          return;
        }
        prev_entry := entry;
        entry := entry.next;
        j := j + 1;
      }
      forall n | n in Nodes()
        ensures !Same(n, data)
      {
        assert Lives(home, n) && Among(Nodes(), n);
      }
    }

    method Clear()
      requires Valid()
      modifies this`num_data, this`chains, this`home, slots, Nodes()
      ensures Valid() && Nodes() == {}
    {
      var slot := 0;
      while slot < num_slots
        invariant 0 <= slot <= num_slots && Valid() && Nodes() <= old(Nodes())
        invariant forall s :: 0 <= s < slot ==> chains[s] == []
      {
        while slots[slot] != null
          invariant Valid() && Nodes() <= old(Nodes())
          invariant forall s :: 0 <= s < slot ==> chains[s] == []
          decreases |chains[slot]|
        {
          assert Chain(chains, slot) && At(chains, slot, 0);
          UnlinkEntry(slot, null, slots[slot], 0);
        }
        assert Chain(chains, slot);
        slot := slot + 1;
      }
      InSomeChain(slots[..], NextOf(Nodes()), chains, home);
      assert Nodes() == {};
      num_data := 0;
    }
  }

  // ----- The iterator

  const ITER_START: int := -1
  const ITER_FINISH: int := -2

  /** The nodes of chain s from position i on, and those of all chains behind it. */
  ghost function Unvisited<T>(chains: Chains<T>, home: map<Node<T>, nat>, s: int, i: nat): set<Node<T>> {
    set n | n in home && (home[n] > s || (home[n] == s && 0 <= s < |chains| && i <= |chains[s]| && n in chains[s][i..]))
  }

  /** The end of chain s; before the first chain there is nothing. */
  ghost function End<T>(chains: Chains<T>, s: int): nat {
    if 0 <= s < |chains| then |chains[s]| else 0
  }

  lemma UnvisitedStep<T>(heads: seq<Node?<T>>, next: map<Node<T>, Node?<T>>, chains: Chains<T>,
                         home: map<Node<T>, nat>, s: nat, i: nat)
    requires Linked(heads, next, chains, home) && At(chains, s, i)
    ensures chains[s][i] in Unvisited(chains, home, s, i)
    ensures Unvisited(chains, home, s, i + 1) == Unvisited(chains, home, s, i) - {chains[s][i]}
  {
    var c := chains[s];
    assert Chain(chains, s);
    assert c[i..] == [c[i]] + c[i + 1..];
    forall j | i + 1 <= j < |c|
      ensures c[j] != c[i]
    {
    }
  }

  lemma UnvisitedNextChain<T>(heads: seq<Node?<T>>, next: map<Node<T>, Node?<T>>, chains: Chains<T>,
                              home: map<Node<T>, nat>, s: int)
    requires Linked(heads, next, chains, home) && -1 <= s < |chains|
    ensures s + 1 < |chains| ==> Unvisited(chains, home, s, End(chains, s)) == Unvisited(chains, home, s + 1, 0)
    ensures s + 1 == |chains| ==> Unvisited(chains, home, s, End(chains, s)) == {}
    ensures s == -1 ==> Unvisited(chains, home, s, End(chains, s)) == home.Keys
  {
    forall n | n in home
      ensures home[n] < |chains| && n in chains[home[n]]
    {
      assert Lives(home, n);
    }
    if s + 1 < |chains| { assert chains[s + 1][0..] == chains[s + 1]; }
  }

  /** Removing a node already visited leaves what is unvisited. */
  lemma UnvisitedWithout<T>(heads: seq<Node?<T>>, next: map<Node<T>, Node?<T>>, chains: Chains<T>,
                            home: map<Node<T>, nat>, s: nat, i: nat)
    requires Linked(heads, next, chains, home) && At(chains, s, i)
    ensures Unvisited(chains[s := Without(chains[s], i)], home - {chains[s][i]}, s, i) == Unvisited(chains, home, s, i + 1)
  {
    var c := chains[s];
    assert Chain(chains, s) && home[c[i]] == s;
    assert Without(c, i)[i..] == c[i + 1..];
  }

  class Iterator<T(!new)> {
    const hashset: HashSet<T>
    var slot: int
    var entry: Node?<T>
    ghost var pos: nat

    constructor (hashset: HashSet<T>)
      requires hashset.Valid()
      ensures this.hashset == hashset && Valid() && Ahead() == hashset.Nodes()
    {
      this.hashset, this.slot, this.entry, this.pos := hashset, ITER_START, null, 0;
      new;
      UnvisitedNextChain(hashset.slots[..], NextOf(hashset.Nodes()), hashset.chains, hashset.home, -1);
    }

    ghost predicate Valid()
      reads this, hashset, hashset.slots, hashset.Nodes()
    {
      && hashset.Valid()
      && ITER_FINISH <= slot < hashset.num_slots
      && (Current() ==> At(hashset.chains, slot, pos) && hashset.chains[slot][pos] == entry)
    }

    /** The iterator stands on an entry. */
    ghost predicate Current()
      reads this
    {
      slot >= 0 && entry != null
    }

    /** The nodes still to be visited. */
    ghost function Ahead(): set<Node<T>>
      reads this, hashset
    {
      if slot == ITER_FINISH then {}
      else Unvisited(hashset.chains, hashset.home, slot, if Current() then pos + 1 else End(hashset.chains, slot))
    }

    method Next() returns (r: Node?<T>)
      requires Valid()
      modifies this
      ensures Valid()
      ensures r == null <==> old(Ahead()) == {}
      ensures r != null ==> r in old(Ahead()) && Ahead() == old(Ahead()) - {r} && Current() && entry == r
      ensures r == null ==> Ahead() == {}
    {
      if slot == ITER_FINISH {
        return null;
      }
      ghost var heads, next, c, h := hashset.slots[..], NextOf(hashset.Nodes()), hashset.chains, hashset.home;
      if slot != ITER_START && entry != null && entry.next != null {
        UnvisitedStep(heads, next, c, h, slot, pos + 1);
        entry := entry.next;
        pos := pos + 1;
        return entry;
      }
      r := SeekChain();
    }

    /** Goes to the head of the next chain that is not empty. */
    method SeekChain() returns (r: Node?<T>)
      requires hashset.Valid() && -1 <= slot < hashset.num_slots
      modifies this
      ensures Valid()
      ensures var ahead := old(Unvisited(hashset.chains, hashset.home, slot, End(hashset.chains, slot)));
              if r == null then ahead == Ahead() == {}
              else r in ahead && Ahead() == ahead - {r} && Current() && entry == r
    {
      ghost var heads, next, c, h := hashset.slots[..], NextOf(hashset.Nodes()), hashset.chains, hashset.home;
      ghost var ahead := Unvisited(c, h, slot, End(c, slot));
      while true
        invariant -1 <= slot < hashset.num_slots && Unvisited(c, h, slot, End(c, slot)) == ahead
        decreases hashset.num_slots - slot
      {
        UnvisitedNextChain(heads, next, c, h, slot);
        slot := slot + 1;
        if slot == hashset.num_slots {
          slot := ITER_FINISH;
          return null;
        }
        assert Chain(c, slot);
        if hashset.slots[slot] != null {
          UnvisitedStep(heads, next, c, h, slot, 0);
          StandOn(hashset.slots[slot], 0);
          return entry;
        }
      }
    }

    /** Removes the entry just visited; at the head of a chain the iterator steps back one slot. */
    method Remove()
      requires Valid() && Current()
      modifies this, hashset`num_data, hashset`chains, hashset`home, hashset.slots, hashset.Nodes()
      ensures Valid()
      ensures hashset.Nodes() == old(hashset.Nodes()) - {old(entry)}
      ensures Ahead() == old(Ahead())
    {
      if hashset.slots[slot] == entry {
        RemoveHead();
      } else {
        RemoveInside();
      }
    }

    /** Goes on to the next entry, having removed the current one if that is wanted. */
    method Leave(remove: bool) returns (r: Node?<T>)
      requires Valid() && Current()
      modifies this, hashset`num_data, hashset`chains, hashset`home, hashset.slots, hashset.Nodes()
      ensures Valid()
      ensures hashset.Nodes() == if remove then old(hashset.Nodes()) - {old(entry)} else old(hashset.Nodes())
      ensures if r == null then old(Ahead()) == Ahead() == {}
              else r in old(Ahead()) && Ahead() == old(Ahead()) - {r} && Current() && entry == r
    {
      if remove {
        Remove();
      }
      r := Next();
    }

    method RemoveHead()
      requires Valid() && Current() && hashset.slots[slot] == entry
      modifies this, hashset`num_data, hashset`chains, hashset`home, hashset.slots
      ensures Valid()
      ensures hashset.Nodes() == old(hashset.Nodes()) - {old(entry)}
      ensures Ahead() == old(Ahead())
    {
      assert Chain(hashset.chains, slot);
      UnvisitedWithout(hashset.slots[..], NextOf(hashset.Nodes()), hashset.chains, hashset.home, slot, 0);
      hashset.UnlinkEntry(slot, null, entry, 0);
      UnvisitedNextChain(hashset.slots[..], NextOf(hashset.Nodes()), hashset.chains, hashset.home, slot - 1);
      slot, entry := slot - 1, null;
    }

    method RemoveInside()
      requires Valid() && Current() && hashset.slots[slot] != entry
      modifies this, hashset`num_data, hashset`chains, hashset`home, hashset.slots, hashset.Nodes()
      ensures Valid()
      ensures hashset.Nodes() == old(hashset.Nodes()) - {old(entry)}
      ensures Ahead() == old(Ahead())
    {
      var prev_entry := Predecessor();
      ghost var c, h, p, ahead := hashset.chains, hashset.home, pos, Ahead();
      ghost var c', h' := c[slot := Without(c[slot], p)], h - {entry};
      UnvisitedWithout(hashset.slots[..], NextOf(hashset.Nodes()), c, h, slot, p);
      hashset.UnlinkEntry(slot, prev_entry, entry, p);
      assert hashset.chains == c' && hashset.home == h' && c'[slot][p - 1] == prev_entry;
      StandOn(prev_entry, p - 1);
    }

    method StandOn(node: Node<T>, ghost at: nat)
      requires hashset.Valid() && At(hashset.chains, slot, at) && hashset.chains[slot][at] == node
      requires slot < hashset.num_slots
      modifies this`entry, this`pos
      ensures Valid() && Current() && entry == node
      ensures Ahead() == Unvisited(hashset.chains, hashset.home, slot, at + 1)
    {
      entry, pos := node, at;
    }

    /** Walks from the head of the chain to the entry before the current one. */
    method Predecessor() returns (prev_entry: Node<T>)
      requires Valid() && Current() && hashset.slots[slot] != entry
      ensures pos > 0 && prev_entry == hashset.chains[slot][pos - 1] && prev_entry in hashset.Nodes()
    {
      ghost var c := hashset.chains[slot];
      assert Chain(hashset.chains, slot) && pos > 0;
      prev_entry := hashset.slots[slot];
      ghost var j: nat := 0;
      while prev_entry.next != entry
        invariant j < pos && prev_entry == c[j]
        decreases pos - j
      {
        assert At(hashset.chains, slot, j);
        prev_entry := prev_entry.next;
        j := j + 1;
      }
      assert At(hashset.chains, slot, j);
    }
  }

  /** A walk over all nodes: those visited, the current one and those ahead make up all, and of the nodes
      visited exactly the ones that satisfy p are gone. */
  ghost predicate Walking<T(!new)>(all: set<Node<T>>, nodes: set<Node<T>>, ahead: set<Node<T>>, current: Node?<T>,
                                   visited: seq<Node<T>>, p: T -> bool) {
    && NoDup(visited)
    && ahead <= nodes <= all
    && current !in ahead && (if current == null then ahead == {} else current in nodes)
    && (forall n {:trigger Among(all, n)} :: n in all ==> (n in visited <==> n !in ahead && n != current))
    && (forall n {:trigger Among(all, n)} :: n in all ==> (n in nodes <==> n !in visited || !p(n.data)))
    && (forall n :: n in visited ==> n in all)
  }

  lemma WalkStarts<T(!new)>(all: set<Node<T>>, ahead: set<Node<T>>, current: Node?<T>, p: T -> bool)
    requires if current == null then all == ahead == {} else current in all && ahead == all - {current}
    ensures Walking(all, all, ahead, current, [], p)
  {
  }

  lemma WalkStep<T(!new)>(all: set<Node<T>>, nodes: set<Node<T>>, ahead: set<Node<T>>, current: Node<T>,
                          visited: seq<Node<T>>, p: T -> bool, ahead': set<Node<T>>, current': Node?<T>)
    requires Walking(all, nodes, ahead, current, visited, p)
    requires if current' == null then ahead == ahead' == {} else current' in ahead && ahead' == ahead - {current'}
    ensures Walking(all, if p(current.data) then nodes - {current} else nodes, ahead', current', visited + [current], p)
  {
    assert Among(all, current);
    var v, nodes' := visited + [current], if p(current.data) then nodes - {current} else nodes;
    assert v[|visited|] == current;
    forall n | n in all
      ensures n in v <==> n in visited || n == current
    {
    }
    forall n | n in all
      ensures n in v <==> n !in ahead' && n != current'
      ensures n in nodes' <==> n !in v || !p(n.data)
    {
      assert Among(all, n);
    }
    forall n | n in v
      ensures n in all
    {
      assert n in visited || n == current;
    }
  }

  lemma WalkEnds<T(!new)>(all: set<Node<T>>, nodes: set<Node<T>>, visited: seq<Node<T>>, p: T -> bool)
    requires Walking(all, nodes, {}, null, visited, p)
    ensures nodes == set n | n in all && !p(n.data)
    ensures NoDup(visited) && (set n | n in visited) == all
  {
    forall n | n in all
      ensures n in visited && (n in nodes <==> !p(n.data))
    {
      assert Among(all, n);
    }
  }

  /** The walk that removes entries as it goes: every entry is visited exactly once, and those that satisfy p go. */
  method RemoveWhere<T(!new)>(hs: HashSet<T>, p: T -> bool) returns (visited: seq<Node<T>>)
    requires hs.Valid()
    modifies hs`num_data, hs`chains, hs`home, hs.slots, hs.Nodes()
    ensures hs.Valid()
    ensures hs.Nodes() == set n | n in old(hs.Nodes()) && !p(n.data)
    ensures NoDup(visited) && (set n | n in visited) == old(hs.Nodes())
  {
    ghost var all := hs.Nodes();
    visited := [];
    var iter := new Iterator(hs);
    var entry := iter.Next();
    ghost var nodes, ahead := all, iter.Ahead();
    WalkStarts(all, ahead, entry, p);
    while entry != null
      invariant fresh(iter) && iter.hashset == hs && iter.Valid() && hs.slots == old(hs.slots)
      invariant nodes == hs.Nodes() && ahead == iter.Ahead()
      invariant entry != null ==> iter.Current() && iter.entry == entry
      invariant Walking(all, nodes, ahead, entry, visited, p)
      decreases |ahead| + if entry == null then 0 else 1
    {
      var current: Node<T> := entry;
      entry := iter.Leave(p(current.data));
      WalkStep(all, nodes, ahead, current, visited, p, iter.Ahead(), entry);
      visited := visited + [current];
      nodes, ahead := hs.Nodes(), iter.Ahead();
    }
    WalkEnds(all, nodes, visited, p);
  }
}
