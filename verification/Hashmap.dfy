/** The map from 64-bit keys to ints: slots that hold growable entry arrays. */
module Hashmap {
  import opened Ctypes
  import Algodefs

  datatype Entry = Entry(key: uint64, value: int)

  type Table = seq<seq<Entry>>

  datatype Place = Place(slot: nat, index: nat)

  predicate At(t: Table, s: int, i: int) {
    0 <= s < |t| && 0 <= i < |t[s]|
  }

  ghost predicate Located(where: map<uint64, Place>, k: uint64) {
    k in where
  }

  /** The table is the map m: where gives the one place of every key, and there is no other entry. */
  ghost predicate Represents(t: Table, m: map<uint64, int>, where: map<uint64, Place>) {
    && (forall s, i {:trigger At(t, s, i)} :: At(t, s, i) ==>
          Located(where, t[s][i].key) && where[t[s][i].key] == Place(s, i))
    && (forall k {:trigger Located(where, k)} :: Located(where, k) <==> k in m)
    && (forall k {:trigger Located(where, k)} :: Located(where, k) ==>
          && At(t, where[k].slot, where[k].index)
          && t[where[k].slot][where[k].index] == Entry(k, m[k]))
  }

  /** Every entry lies in the slot its hash selects among n slots. */
  ghost predicate Placed(t: Table, hash: uint64 -> uint32, n: nat)
    requires n > 0
  {
    forall s, i {:trigger At(t, s, i)} :: At(t, s, i) ==> hash(t[s][i].key) % n == s
  }

  function Append(t: Table, s: nat, e: Entry): Table
    requires s < |t|
  {
    t[s := t[s] + [e]]
  }

  /** The value of entry i is replaced. */
  function Overwrite(t: Table, s: nat, i: nat, value: int): Table
    requires At(t, s, i)
  {
    t[s := t[s][i := Entry(t[s][i].key, value)]]
  }

  /** The last entry of the slot takes the place of entry i. */
  function SwapRemove(t: Table, s: nat, i: nat): Table
    requires At(t, s, i)
  {
    t[s := t[s][i := t[s][|t[s]| - 1]][..|t[s]| - 1]]
  }

  /** The number of entries stored. */
  function Total(t: Table): nat {
    if t == [] then 0 else |t[0]| + Total(t[1..])
  }

  lemma {:induction false} TotalUpdate(t: Table, s: nat, c: seq<Entry>)
    requires s < |t|
    ensures Total(t[s := c]) == Total(t) - |t[s]| + |c|
  {
    if s == 0 {
      assert t[s := c][1..] == t[1..];
    } else {
      assert t[s := c][1..] == t[1..][s - 1 := c];
      TotalUpdate(t[1..], s - 1, c);
    }
  }

  lemma {:induction false} TotalEmpty(t: Table)
    requires forall s :: 0 <= s < |t| ==> t[s] == []
    ensures Total(t) == 0
  {
    if t != [] { TotalEmpty(t[1..]); }
  }

  lemma {:induction false} TotalEnlarged(t: Table, t': Table)
    requires forall s :: 0 <= s < |t'| ==> t'[s] == []
    ensures Total(t + t') == Total(t)
  {
    if t == [] {
      TotalEmpty(t');
      assert t + t' == t';
    } else {
      TotalEnlarged(t[1..], t');
      assert (t + t')[1..] == t[1..] + t';
    }
  }

  lemma {:induction false} TotalPositive(t: Table) returns (s: nat)
    requires Total(t) > 0
    ensures s < |t| && t[s] != []
  {
    if t[0] != [] {
      s := 0;
    } else {
      s := TotalPositive(t[1..]);
      s := s + 1;
    }
  }

  /** The entry count is the number of keys bound, since no key is stored twice. */
  lemma {:induction false} TotalIsKeyCount(t: Table, m: map<uint64, int>, where: map<uint64, Place>)
    requires Represents(t, m, where)
    ensures Total(t) == |m|
    decreases Total(t)
  {
    if Total(t) == 0 {
      forall k | k in m
        ensures false
      {
        assert Located(where, k);
        TotalUpdate(t, where[k].slot, []);
      }
      assert m == map[];
    } else {
      var s := TotalPositive(t);
      assert At(t, s, 0);
      var where' := SwapRemoveUnbinds(t, m, where, s, 0);
      TotalUpdate(t, s, SwapRemove(t, s, 0)[s]);
      RemoveCount(m, t[s][0].key);
      TotalIsKeyCount(SwapRemove(t, s, 0), m - {t[s][0].key}, where');
    }
  }

  lemma AppendBinds(t: Table, m: map<uint64, int>, where: map<uint64, Place>, s: nat, e: Entry)
      returns (where': map<uint64, Place>)
    requires Represents(t, m, where) && s < |t| && e.key !in m
    ensures Represents(Append(t, s, e), m[e.key := e.value], where')
  {
    where' := where[e.key := Place(s, |t[s]|)];
    var t' := Append(t, s, e);
    forall a, b {:trigger At(t', a, b)} | At(t', a, b)
      ensures (a == s && b == |t[s]| && t'[a][b] == e) || (At(t, a, b) && t'[a][b] == t[a][b])
    {
    }
    forall k {:trigger Located(where', k)}
      ensures Located(where', k) <==> k == e.key || Located(where, k)
    {
    }
  }

  lemma OverwriteBinds(t: Table, m: map<uint64, int>, where: map<uint64, Place>, s: nat, i: nat, value: int)
    requires Represents(t, m, where) && At(t, s, i)
    ensures Represents(Overwrite(t, s, i, value), m[t[s][i].key := value], where)
  {
    var t' := Overwrite(t, s, i, value);
    assert forall a, b {:trigger At(t, a, b)} {:trigger At(t', a, b)} :: At(t', a, b) ==> At(t, a, b) && t'[a][b].key == t[a][b].key;
  }

  lemma RemoveCount(m: map<uint64, int>, key: uint64)
    requires key in m
    ensures |m - {key}| == |m| - 1
  {
    assert m.Keys == (m - {key}).Keys + {key};
    assert |m| == |m.Keys| && |m - {key}| == |(m - {key}).Keys|;
  }

  lemma SwapRemoveUnbinds(t: Table, m: map<uint64, int>, where: map<uint64, Place>, s: nat, i: nat)
      returns (where': map<uint64, Place>)
    requires Represents(t, m, where) && At(t, s, i)
    ensures Represents(SwapRemove(t, s, i), m - {t[s][i].key}, where')
  {
    var t' := SwapRemove(t, s, i);
    var key, last := t[s][i].key, t[s][|t[s]| - 1].key;
    assert At(t, s, |t[s]| - 1);
    where' := where[last := Place(s, i)] - {key};
    forall a, b {:trigger At(t', a, b)} | At(t', a, b)
      ensures At(t, a, b)
      ensures a != s || b != i ==> t'[a][b] == t[a][b]
      ensures a == s && b == i ==> t'[a][b] == t[s][|t[s]| - 1] && last != key
    {
    }
    assert Located(where, last);
    forall k {:trigger Located(where', k)}
      ensures Located(where', k) <==> k != key && Located(where, k)
    {
    }
  }

  lemma AppendPlaced(t: Table, hash: uint64 -> uint32, e: Entry)
    requires |t| > 0 && Placed(t, hash, |t|)
    ensures Placed(Append(t, hash(e.key) % |t|, e), hash, |t|)
  {
    var s := hash(e.key) % |t|;
    var t' := Append(t, s, e);
    forall a, b {:trigger At(t', a, b)} | At(t', a, b)
      ensures hash(t'[a][b].key) % |t| == a
    {
      assert (a == s && b == |t[s]|) || At(t, a, b);
    }
  }

  lemma SwapRemovePlaced(t: Table, hash: uint64 -> uint32, n: nat, s: nat, i: nat)
    requires n > 0 && Placed(t, hash, n) && At(t, s, i)
    ensures Placed(SwapRemove(t, s, i), hash, n)
  {
    var t' := SwapRemove(t, s, i);
    assert At(t, s, |t[s]| - 1);
    forall a, b {:trigger At(t', a, b)} | At(t', a, b)
      ensures hash(t'[a][b].key) % n == a
    {
      assert At(t, a, b);
    }
  }

  /** Moving an entry to the end of another slot changes no binding. */
  lemma MoveKeeps(t: Table, m: map<uint64, int>, where: map<uint64, Place>, s: nat, i: nat, d: nat)
      returns (where': map<uint64, Place>)
    requires Represents(t, m, where) && At(t, s, i) && d < |t| && d != s
    ensures Represents(SwapRemove(Append(t, d, t[s][i]), s, i), m, where')
  {
    var e := t[s][i];
    var removed := SwapRemoveUnbinds(t, m, where, s, i);
    where' := AppendBinds(SwapRemove(t, s, i), m - {e.key}, removed, d, e);
    assert SwapRemove(Append(t, d, e), s, i) == Append(SwapRemove(t, s, i), d, e);
    assert (m - {e.key})[e.key := e.value] == m;
  }

  /** While slot s is being rehashed from n slots to all of t and entry i is next: entries not yet
      visited may still be where n slots put them, all others are where the grown table wants them. */
  ghost predicate Rehashing(t: Table, hash: uint64 -> uint32, n: nat, s: nat, i: nat)
    requires 0 < n <= |t|
  {
    forall a, b {:trigger At(t, a, b)} :: At(t, a, b) ==>
      || hash(t[a][b].key) % |t| == a
      || (hash(t[a][b].key) % n == a < n && (a > s || (a == s && b >= i)))
  }

  lemma MoveTotal(t: Table, s: nat, i: nat, d: nat)
    requires At(t, s, i) && d < |t| && d != s
    ensures Total(SwapRemove(Append(t, d, t[s][i]), s, i)) == Total(t)
  {
    var t1 := Append(t, d, t[s][i]);
    TotalUpdate(t, d, t1[d]);
    TotalUpdate(t1, s, SwapRemove(t1, s, i)[s]);
  }

  /** Right after the slot array has been enlarged nothing has been visited. */
  lemma EnlargedStartsRehashing(t: Table, more: nat, m: map<uint64, int>, where: map<uint64, Place>,
                                hash: uint64 -> uint32)
    requires |t| > 0 && Represents(t, m, where) && Placed(t, hash, |t|)
    ensures Represents(t + seq(more, _ => []), m, where)
    ensures Rehashing(t + seq(more, _ => []), hash, |t|, 0, 0)
  {
    var t' := t + seq(more, _ => []);
    forall a, b {:trigger At(t', a, b)} | At(t', a, b)
      ensures At(t, a, b) && t'[a][b] == t[a][b]
    {
    }
    forall a, b {:trigger At(t, a, b)} | At(t, a, b)
      ensures At(t', a, b) && t'[a][b] == t[a][b]
    {
    }
  }

  lemma MoveAdvances(t: Table, hash: uint64 -> uint32, n: nat, s: nat, i: nat, d: nat)
    requires 0 < n <= |t| && Rehashing(t, hash, n, s, i)
    requires At(t, s, i) && s < n && d == hash(t[s][i].key) % |t| && d != s
    ensures Rehashing(SwapRemove(Append(t, d, t[s][i]), s, i), hash, n, s, i)
  {
    var t' := SwapRemove(Append(t, d, t[s][i]), s, i);
    assert At(t, s, |t[s]| - 1);
    forall a, b {:trigger At(t', a, b)} | At(t', a, b)
      ensures
        || hash(t'[a][b].key) % |t'| == a
        || (hash(t'[a][b].key) % n == a < n && (a > s || (a == s && b >= i)))
    {
      assert (a == d && b == |t[d]| && t'[a][b] == t[s][i]) || At(t, a, b);
    }
  }

  /** One move of the rehashing loop. */
  lemma RehashMove(t: Table, m: map<uint64, int>, where: map<uint64, Place>, hash: uint64 -> uint32,
                   n: nat, s: nat, i: nat)
      returns (where': map<uint64, Place>)
    requires Represents(t, m, where) && 0 < n <= |t| && Rehashing(t, hash, n, s, i)
    requires At(t, s, i) && s < n && hash(t[s][i].key) % |t| != s
    ensures var t' := SwapRemove(Append(t, hash(t[s][i].key) % |t|, t[s][i]), s, i);
            Represents(t', m, where') && Rehashing(t', hash, n, s, i) && Total(t') == Total(t)
  {
    var d := hash(t[s][i].key) % |t|;
    where' := MoveKeeps(t, m, where, s, i, d);
    MoveAdvances(t, hash, n, s, i, d);
    MoveTotal(t, s, i, d);
  }

  lemma RehashingDone(t: Table, hash: uint64 -> uint32, n: nat)
    requires 0 < n <= |t| && Rehashing(t, hash, n, n, 0)
    ensures Placed(t, hash, |t|)
  {
  }

  class HashMap {
    var slots: Table
    var num_slots: nat
    var num_data: nat
    const hash: uint64 -> uint32
    ghost var Model: map<uint64, int>
    ghost var where: map<uint64, Place>

    ghost predicate Valid()
      reads this
    {
      && num_slots == |slots| > 0
      && Represents(slots, Model, where)
      && Placed(slots, hash, num_slots)
      && num_data == Total(slots)
      && num_data < 5 * num_slots
    }

    constructor (init_size: nat, hash: uint64 -> uint32)
      ensures Valid() && Model == map[]
      ensures Algodefs.LeastPrime(init_size, num_slots)
      ensures this.hash == hash
    {
      var n := Algodefs.NextPrime(init_size);
      this.num_data := 0;
      this.num_slots := n;
      this.slots := seq(n, _ => []);
      this.hash := hash;
      this.Model := map[];
      this.where := map[];
      new;
      TotalEmpty(slots);
    }

    /** The scan of one slot shared by get, set and remove. */
    method Find(key: uint64) returns (s: nat, i: nat)
      requires Valid()
      ensures s == hash(key) % num_slots && i <= |slots[s]|
      ensures key in Model <==> i < |slots[s]|
      ensures key in Model ==> slots[s][i] == Entry(key, Model[key])
    {
      assert key in Model <==> Located(where, key);
      s := hash(key) % num_slots;
      i := 0;
      while i < |slots[s]| && slots[s][i].key != key
        invariant 0 <= i <= |slots[s]|
        invariant forall j :: 0 <= j < i ==> slots[s][j].key != key
      {
        i := i + 1;
      }
      assert i < |slots[s]| ==> At(slots, s, i);
    }

    method Get(key: uint64) returns (value: int)
      requires Valid()
      ensures value == if key in Model then Model[key] else FAIL
    {
      var s, i := Find(key);
      value := if i < |slots[s]| then slots[s][i].value else FAIL;
    }

    method Set(key: uint64, value: int)
      requires Valid()
      modifies this
      ensures Valid()
      ensures Model == old(Model)[key := value]
      ensures num_slots >= old(num_slots)
      ensures num_slots == old(num_slots) ||
              (old(num_data) + 1 == 5 * old(num_slots) &&
               Algodefs.LeastPrime(Max(old(num_slots) + 1, old(num_slots) * 3 / 2), num_slots))
    {
      var s, i := Find(key);
      if i < |slots[s]| {
        OverwriteBinds(slots, Model, where, s, i, value);
        TotalUpdate(slots, s, Overwrite(slots, s, i, value)[s]);
        slots := Overwrite(slots, s, i, value);
        Model := Model[key := value];
        assert forall a, b {:trigger At(slots, a, b)} :: At(slots, a, b) ==> At(old(slots), a, b);
      } else {
        AppendPlaced(slots, hash, Entry(key, value));
        where := AppendBinds(slots, Model, where, s, Entry(key, value));
        TotalUpdate(slots, s, slots[s] + [Entry(key, value)]);
        slots := Append(slots, s, Entry(key, value));
        Model := Model[key := value];
        num_data := num_data + 1;
        if num_data >= num_slots * 5 {
          Grow();
        }
      }
    }

    /** Rehashes inside the slot array that has just been enlarged. */
    method Grow()
      requires num_slots == |slots| > 0
      requires Represents(slots, Model, where) && Placed(slots, hash, num_slots)
      requires num_data == Total(slots) && num_data <= 5 * num_slots
      modifies this`slots, this`num_slots, this`where
      ensures Valid()
      ensures num_slots > old(num_slots)
      ensures Algodefs.LeastPrime(Max(old(num_slots) + 1, old(num_slots) * 3 / 2), num_slots)
    {
      var inc_slots := Algodefs.NextPrime(Max(num_slots + 1, num_slots * 3 / 2));
      TotalEnlarged(slots, seq(inc_slots - num_slots, _ => []));
      EnlargedStartsRehashing(slots, inc_slots - num_slots, Model, where, hash);
      slots := slots + seq(inc_slots - num_slots, _ => []);
      var s := 0;
      while s < num_slots
        invariant num_slots == old(num_slots) && 0 <= s <= num_slots < inc_slots == |slots|
        invariant Represents(slots, Model, where) && Total(slots) == num_data
        invariant Rehashing(slots, hash, num_slots, s, 0)
      {
        RehashSlot(s, inc_slots);
        s := s + 1;
      }
      RehashingDone(slots, hash, num_slots);
      num_slots := inc_slots;
    }

    /** The inner loop: moves every entry of slot s that belongs elsewhere. */
    method RehashSlot(s: nat, inc_slots: nat)
      requires s < num_slots < inc_slots == |slots|
      requires Represents(slots, Model, where) && Rehashing(slots, hash, num_slots, s, 0)
      modifies this`slots, this`where
      ensures |slots| == inc_slots && Total(slots) == old(Total(slots))
      ensures Represents(slots, Model, where) && Rehashing(slots, hash, num_slots, s + 1, 0)
    {
      var i := 0;
      while i < |slots[s]|
        invariant inc_slots == |slots| && 0 <= i <= |slots[s]|
        invariant Total(slots) == old(Total(slots))
        invariant Represents(slots, Model, where)
        invariant Rehashing(slots, hash, num_slots, s, i)
        decreases |slots[s]| - i
      {
        var new_slot := hash(slots[s][i].key) % inc_slots;
        if s != new_slot {
          where := RehashMove(slots, Model, where, hash, num_slots, s, i);
          slots := Append(slots, new_slot, slots[s][i]);
          slots := SwapRemove(slots, s, i);
        } else {
          i := i + 1;
        }
      }
    }

    method Remove(key: uint64)
      requires Valid()
      modifies this`slots, this`num_data, this`Model, this`where
      ensures Valid()
      ensures Model == old(Model) - {key}
    {
      var s, i := Find(key);
      if i < |slots[s]| {
        where := SwapRemoveUnbinds(slots, Model, where, s, i);
        SwapRemovePlaced(slots, hash, num_slots, s, i);
        TotalUpdate(slots, s, SwapRemove(slots, s, i)[s]);
        slots := SwapRemove(slots, s, i);
        Model := Model - {key};
        num_data := num_data - 1;
      } else {
        assert Model - {key} == Model;
      }
    }

    method Clear()
      requires Valid()
      modifies this`slots, this`num_data, this`Model, this`where
      ensures Valid() && Model == map[]
    {
      for i := 0 to num_slots
        invariant num_slots == |slots|
        invariant forall j :: 0 <= j < i ==> slots[j] == []
      {
        slots := slots[i := []];
      }
      TotalEmpty(slots);
      num_data := 0;
      Model := map[];
      where := map[];
    }
  }
}
