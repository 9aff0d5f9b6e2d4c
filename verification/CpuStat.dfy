/** The agent's history of processor counters and the shares computed from it. */
module CpuStat {
  import opened Ctypes

  const STATES: nat := 8
  const MAX_COLLECTOR_HISTORY: nat := 15 * 60 + 1

  /** A counter for each state. */
  type Counters = s: seq<uint64> | |s| == STATES witness [0, 0, 0, 0, 0, 0, 0, 0]

  const ZEROS: Counters := [0, 0, 0, 0, 0, 0, 0, 0]

  /** What was sampled, or nothing if the counters could not be read. */
  type Sample = Option<Counters>

  // ----- The history as a window

  function Push(window: seq<Sample>, x: Sample): seq<Sample> {
    if |window| < MAX_COLLECTOR_HISTORY then window + [x] else window[1..] + [x]
  }

  function PushAll(window: seq<Sample>, xs: seq<Sample>): seq<Sample> {
    if xs == [] then window else Push(PushAll(window, xs[..|xs| - 1]), xs[|xs| - 1])
  }

  function Latest(xs: seq<Sample>): seq<Sample> {
    if |xs| <= 901 then xs else xs[|xs| - 901..]
  }

  lemma PushLatest(xs: seq<Sample>, x: Sample)
    ensures Push(Latest(xs), x) == Latest(xs + [x])
  {
  }

  /** After any number of updates the window holds the last 901 samples, or all if there are fewer, in order. */
  lemma {:induction false} HoldsLatest(xs: seq<Sample>)
    ensures PushAll([], xs) == Latest(xs)
  {
    if xs != [] {
      var n := |xs| - 1;
      HoldsLatest(xs[..n]);
      PushLatest(xs[..n], xs[n]);
      assert xs[..n] + [xs[n]] == xs;
    }
  }

  // ----- The share of a state

  /** How many samples back from the last one the average goes. */
  function Back(window: seq<Sample>, time: nat): nat
    requires window != []
  {
    Min(|window| - 1, time)
  }

  /** The oldest sample that could be read, from position i on. */
  function Oldest(window: seq<Sample>, i: nat): (b: nat)
    requires i < |window| && window[|window| - 1].Some?
    ensures i <= b < |window| && window[b].Some?
    ensures forall j :: i <= j < b ==> window[j].None?
    decreases |window| - i
  {
    if window[i].Some? then i else Oldest(window, i + 1)
  }

  /** The difference of two counters in 64-bit arithmetic. */
  function Minus(a: uint64, b: uint64): uint64 {
    (a - b) % TWO_TO_64
  }

  /** The differences of the first n states added up in 64-bit arithmetic. */
  function Total(curr: seq<uint64>, base: seq<uint64>, n: nat): uint64
    requires n <= |curr| && n <= |base|
  {
    if n == 0 then 0 else (Total(curr, base, n - 1) + Minus(curr[n - 1], base[n - 1])) % TWO_TO_64
  }

  function Percent(counter: uint64, total: uint64): real {
    if total == 0 then 0.0 else 100.0 * counter as real / total as real
  }

  /** The sample that the last one is compared with; a sample on its own is compared with zeros. */
  function Base(window: seq<Sample>, time: nat): Counters
    requires window != [] && window[|window| - 1].Some?
  {
    if |window| == 1 then ZEROS else window[Oldest(window, |window| - 1 - Back(window, time))].value
  }

  /** The share of a state, or none if the last sample could not be read. */
  function Share(window: seq<Sample>, state: nat, time: nat): Option<real>
    requires state < STATES
  {
    if window == [] then Some(0.0)
    else if window[|window| - 1].None? then None
    else
      var curr, base := window[|window| - 1].value, Base(window, time);
      Some(Percent(Minus(curr[state], base[state]), Total(curr, base, STATES)))
  }

  /** No counter runs backwards. */
  ghost predicate Nondecreasing(window: seq<Sample>) {
    forall i, j :: 0 <= i < j < |window| && window[i].Some? && window[j].Some? ==>
      forall k :: 0 <= k < STATES ==> window[i].value[k] <= window[j].value[k]
  }

  function Sum(s: seq<uint64>, n: nat): (r: nat)
    requires n <= |s|
  {
    if n == 0 then 0 else Sum(s, n - 1) + s[n - 1]
  }

  /** Without overflow the total is the difference of the sums, and no state exceeds it. */
  lemma {:induction false} TotalIsExact(curr: seq<uint64>, base: seq<uint64>, n: nat)
    requires n <= |curr| && n <= |base| && Sum(curr, n) < TWO_TO_64
    requires forall k :: 0 <= k < n ==> base[k] <= curr[k]
    ensures Sum(base, n) <= Sum(curr, n) && Total(curr, base, n) == Sum(curr, n) - Sum(base, n)
    ensures forall k :: 0 <= k < n ==> Minus(curr[k], base[k]) == curr[k] - base[k] <= Total(curr, base, n)
  {
    if n > 0 { TotalIsExact(curr, base, n - 1); }
  }

  function Shares(curr: seq<uint64>, base: seq<uint64>, total: uint64, n: nat): real
    requires n <= |curr| && n <= |base|
  {
    if n == 0 then 0.0 else Shares(curr, base, total, n - 1) + Percent(Minus(curr[n - 1], base[n - 1]), total)
  }

  lemma {:induction false} SharesOfTotal(curr: seq<uint64>, base: seq<uint64>, total: uint64, n: nat)
    requires n <= |curr| && n <= |base| && Sum(curr, n) < TWO_TO_64 && total > 0
    requires forall k :: 0 <= k < n ==> base[k] <= curr[k]
    ensures Shares(curr, base, total, n) == Percent(Total(curr, base, n), total)
  {
    if n > 0 {
      TotalIsExact(curr, base, n);
      SharesOfTotal(curr, base, total, n - 1);
      TotalIsExact(curr, base, n - 1);
      PercentAdds(Total(curr, base, n - 1), Minus(curr[n - 1], base[n - 1]), total);
    }
  }

  lemma QuotientIs(x: real, n: real, t: real)
    requires t > 0.0 && x * t == n
    ensures n / t == x
  {
  }

  lemma RealOrder(x: real, y: real, t: real)
    requires t > 0.0 && x < y
    ensures x * t < y * t
  {
  }

  lemma QuotientBetween(n: real, t: real, top: real)
    requires t > 0.0 && 0.0 <= n <= top * t
    ensures 0.0 <= n / t <= top
  {
    var x := n / t;
    assert x * t == n;
    if x < 0.0 { RealOrder(x, 0.0, t); }
    if x > top { RealOrder(top, x, t); }
  }

  lemma PercentAdds(a: uint64, b: uint64, total: uint64)
    requires total > 0 && a + b < TWO_TO_64
    ensures Percent(a, total) + Percent(b, total) == Percent(a + b, total)
  {
    var t, x, y := total as real, Percent(a, total), Percent(b, total);
    assert x * t == 100.0 * a as real && y * t == 100.0 * b as real;
    QuotientIs(x + y, 100.0 * (a + b) as real, t);
  }

  lemma PercentInRange(counter: uint64, total: uint64)
    requires counter <= total
    ensures 0.0 <= Percent(counter, total) <= 100.0
  {
    if total > 0 { QuotientBetween(100.0 * counter as real, total as real, 100.0); }
  }

  lemma BaseIsBelow(window: seq<Sample>, time: nat)
    requires window != [] && window[|window| - 1].Some? && Nondecreasing(window)
    ensures var curr, base := window[|window| - 1].value, Base(window, time);
            forall k :: 0 <= k < STATES ==> base[k] <= curr[k]
  {
  }

  /** For counters that never run backwards the shares are percentages, and unless nothing has been counted since
      the base sample they add up to 100. */
  lemma SharesArePercentages(window: seq<Sample>, state: nat, time: nat)
    requires state < STATES && window != [] && window[|window| - 1].Some? && Nondecreasing(window)
    requires Sum(window[|window| - 1].value, STATES) < TWO_TO_64
    ensures var share := Share(window, state, time); share.Some? && 0.0 <= share.value <= 100.0
    ensures var curr, base := window[|window| - 1].value, Base(window, time);
            var total := Total(curr, base, STATES);
            total > 0 ==> Shares(curr, base, total, STATES) == 100.0
  {
    BaseIsBelow(window, time);
    PercentagesOf(window[|window| - 1].value, Base(window, time), state);
  }

  lemma PercentagesOf(curr: Counters, base: Counters, state: nat)
    requires state < STATES && Sum(curr, STATES) < TWO_TO_64 && forall k :: 0 <= k < STATES ==> base[k] <= curr[k]
    ensures var total := Total(curr, base, STATES);
            && 0.0 <= Percent(Minus(curr[state], base[state]), total) <= 100.0
            && (total > 0 ==> Shares(curr, base, total, STATES) == 100.0)
  {
    var total := Total(curr, base, STATES);
    TotalIsExact(curr, base, STATES);
    PercentInRange(Minus(curr[state], base[state]), total);
    if total > 0 {
      SharesOfTotal(curr, base, total, STATES);
      WholeIsHundred(total);
    }
  }

  lemma WholeIsHundred(total: uint64)
    requires total > 0
    ensures Percent(total, total) == 100.0
  {
    QuotientIs(100.0, 100.0 * total as real, total as real);
  }

  /** What part of the whole counts is, in percent; of nothing every part is zero. */
  predicate IsPercentage(percentage: real, counts: int, whole: int) {
    if whole == 0 then percentage == 0.0 else percentage * whole as real == 100.0 * counts as real
  }

  /** b is the oldest sample that could be read of the last one and those taken at most so many seconds before it. */
  ghost predicate IsOldest(window: seq<Sample>, seconds: nat, b: nat) {
    && b < |window| && window[b].Some?
    && |window| - 1 - b <= seconds
    && forall j :: 0 <= j < b && |window| - 1 - j <= seconds ==> window[j].None?
  }

  /** The answer to a query. With one sample it is the part of the state in all that has been counted, with more the
      part in what has been counted since the oldest sample of the period; all counting is in 64-bit arithmetic, which
      is exact as long as no counter runs backwards and their sum is a 64-bit number. */
  ghost predicate IsShare(window: seq<Sample>, state: nat, seconds: nat, result: Option<real>)
    requires state < 8
  {
    var n := |window|;
    if n == 0 then result == Some(0.0)
    else if window[n - 1].None? then result == None
    else
      && result.Some?
      && var last := window[n - 1].value;
         if n == 1 then IsPercentage(result.value, last[state], Sum(last, |last|) % TWO_TO_64)
         else exists b: nat :: IsOldest(window, seconds, b) &&
                var base := window[b].value;
                IsPercentage(result.value, (last[state] - base[state]) % TWO_TO_64,
                             (Sum(last, |last|) - Sum(base, |base|)) % TWO_TO_64)
  }

  lemma SumWraps(x: int, y: int)
    ensures (x % TWO_TO_64 + y % TWO_TO_64) % TWO_TO_64 == (x + y) % TWO_TO_64
  {
  }

  /** Differences added up in 64-bit arithmetic are the difference of the sums in 64-bit arithmetic. */
  lemma {:induction false} TotalWraps(curr: seq<uint64>, base: seq<uint64>, n: nat)
    requires n <= |curr| && n <= |base|
    ensures Total(curr, base, n) == (Sum(curr, n) - Sum(base, n)) % TWO_TO_64
  {
    if n > 0 {
      TotalWraps(curr, base, n - 1);
      SumWraps(Sum(curr, n - 1) - Sum(base, n - 1), curr[n - 1] as int - base[n - 1]);
    }
  }

  lemma NoSum(n: nat)
    requires n <= STATES
    ensures Sum(ZEROS, n) == 0
  {
    if n > 0 { NoSum(n - 1); }
  }

  lemma PercentIs(counter: uint64, total: uint64, counts: int, whole: int)
    requires counter == counts && total == whole
    ensures IsPercentage(Percent(counter, total), counts, whole)
  {
  }

  lemma ShareBetween(curr: Counters, base: Counters, state: nat)
    requires state < STATES
    ensures IsPercentage(Percent(Minus(curr[state], base[state]), Total(curr, base, STATES)),
                         (curr[state] - base[state]) % TWO_TO_64, (Sum(curr, |curr|) - Sum(base, |base|)) % TWO_TO_64)
  {
    var n := |curr|;
    TotalWraps(curr, base, n);
    PercentIs(Minus(curr[state], base[state]), Total(curr, base, n),
              (curr[state] - base[state]) % TWO_TO_64, (Sum(curr, n) - Sum(base, n)) % TWO_TO_64);
  }

  lemma ShareAlone(curr: Counters, state: nat)
    requires state < STATES
    ensures IsPercentage(Percent(Minus(curr[state], 0), Total(curr, ZEROS, STATES)), curr[state], Sum(curr, |curr|) % TWO_TO_64)
  {
    NoSum(|ZEROS|);
    ShareBetween(curr, ZEROS, state);
  }

  /** What is computed is the share that the query asks for. */
  lemma ShareIsShare(window: seq<Sample>, state: nat, time: nat)
    requires state < STATES
    ensures IsShare(window, state, time, Share(window, state, time))
  {
    var n := |window|;
    if n == 1 && window[0].Some? {
      ShareAlone(window[0].value, state);
    } else if n > 1 && window[n - 1].Some? {
      var b := Oldest(window, n - 1 - Back(window, time));
      assert IsOldest(window, time, b);
      ShareBetween(window[n - 1].value, window[b].value, state);
    }
  }

  // ----- The ring

  class History {
    const h_counter: array2<uint64>
    const h_status: array<bool>
    var h_first: nat
    var h_count: nat

    ghost predicate Sized() {
      h_counter.Length0 == STATES && h_counter.Length1 == h_status.Length == MAX_COLLECTOR_HISTORY
    }

    ghost predicate Valid()
      reads this
    {
      && Sized()
      && h_first < MAX_COLLECTOR_HISTORY && h_count <= MAX_COLLECTOR_HISTORY
    }

    /** The index of the k-th oldest sample. */
    ghost function Index(k: nat): (i: nat)
      requires Valid() && k <= MAX_COLLECTOR_HISTORY
      reads this
      ensures i < MAX_COLLECTOR_HISTORY
    {
      if h_first + k >= MAX_COLLECTOR_HISTORY then h_first + k - MAX_COLLECTOR_HISTORY else h_first + k
    }

    ghost function Column(i: nat): (c: Counters)
      requires Sized() && i < MAX_COLLECTOR_HISTORY
      reads h_counter
      ensures forall k :: 0 <= k < STATES ==> c[k] == h_counter[k, i]
    {
      seq(STATES, k requires 0 <= k < STATES && Sized() && i < MAX_COLLECTOR_HISTORY reads h_counter => h_counter[k, i])
    }

    ghost function At(i: nat): Sample
      requires Sized() && i < MAX_COLLECTOR_HISTORY
      reads h_counter, h_status
    {
      if h_status[i] then Some(Column(i)) else None
    }

    ghost function Window(): (w: seq<Sample>)
      requires Valid()
      reads this, h_counter, h_status
      ensures |w| == h_count && forall k :: 0 <= k < h_count ==> w[k] == At(Index(k))
    {
      seq(h_count, k requires 0 <= k < h_count && Valid() reads this, h_counter, h_status => At(Index(k)))
    }

    constructor ()
      ensures Valid() && Window() == [] && fresh(h_counter) && fresh(h_status)
    {
      h_counter := new uint64[STATES, MAX_COLLECTOR_HISTORY];
      h_status := new bool[MAX_COLLECTOR_HISTORY];
      h_first, h_count := 0, 0;
    }

    method UpdateCpuCounters(counter: Sample)
      requires Valid()
      modifies this, h_counter, h_status
      ensures Valid() && Window() == Push(old(Window()), counter)
    {
      var index := h_first + h_count;
      if MAX_COLLECTOR_HISTORY <= index {
        index := index - MAX_COLLECTOR_HISTORY;
      }
      if MAX_COLLECTOR_HISTORY > h_count {
        h_count := h_count + 1;
      } else {
        h_first := h_first + 1;
        if MAX_COLLECTOR_HISTORY == h_first {
          h_first := 0;
        }
      }
      Store(index, counter);
      assert index == Index(h_count - 1);
      ghost var full := old(h_count) == MAX_COLLECTOR_HISTORY;
      forall k | 0 <= k < h_count - 1
        ensures Window()[k] == old(Window())[if full then k + 1 else k]
      {
        var i := Index(k);
        assert i == if full then old(Index(k + 1)) else old(Index(k));
        assert At(i) == old(At(i));
      }
      assert Window() == Push(old(Window()), counter);
    }

    method Store(index: nat, counter: Sample)
      requires Valid() && index < MAX_COLLECTOR_HISTORY
      modifies h_counter, h_status
      ensures At(index) == counter
      ensures forall i :: 0 <= i < MAX_COLLECTOR_HISTORY && i != index ==> At(i) == old(At(i))
    {
      if counter.Some? {
        var i := 0;
        while i < STATES
          invariant i <= STATES && h_status[..] == old(h_status[..])
          invariant forall k :: 0 <= k < i ==> h_counter[k, index] == counter.value[k]
          invariant forall k, j :: 0 <= k < STATES && 0 <= j < MAX_COLLECTOR_HISTORY && j != index ==>
                      h_counter[k, j] == old(h_counter[k, j])
        {
          h_counter[i, index] := counter.value[i];
          i := i + 1;
        }
        h_status[index] := true;
        assert Column(index) == counter.value;
      } else {
        h_status[index] := false;
      }
      forall i | 0 <= i < MAX_COLLECTOR_HISTORY && i != index
        ensures At(i) == old(At(i))
      {
        assert Column(i) == old(Column(i)) && h_status[i] == old(h_status[i]);
      }
    }

    /** The share of a state over a minute, five minutes or fifteen, or none for the failure result. */
    method GetCpustat(state: int, mode: int) returns (result: Option<real>)
      requires Valid()
      ensures result == if 0 <= state < STATES && 0 <= mode <= 2
                        then Share(Window(), state, if mode == 0 then 60 else if mode == 1 then 300 else 900)
                        else None
      ensures if state < 0 || state > 7 || mode < 0 || mode > 2 then result == None
              else IsShare(Window(), state, if mode == 0 then 60 else if mode == 1 then 300 else 900, result)
    {
      if 0 > state || state >= STATES {
        return None;
      }
      var time: nat;
      match mode {
        case 0 => time := 60;
        case 1 => time := 5 * 60;
        case 2 => time := 15 * 60;
        case _ => return None;
      }
      ShareIsShare(Window(), state, time);
      result := ShareOver(state, time);
    }

    method ShareOver(state: nat, time: nat) returns (result: Option<real>)
      requires Valid() && state < STATES
      ensures result == Share(Window(), state, time)
    {
      if h_count == 0 {
        return Some(0.0);
      }
      var idx_curr := h_first + h_count - 1;
      if MAX_COLLECTOR_HISTORY <= idx_curr {
        idx_curr := idx_curr - MAX_COLLECTOR_HISTORY;
      }
      if !h_status[idx_curr] {
        return None;
      }
      if h_count == 1 {
        result := OnlyShare(idx_curr, state, time);
      } else {
        result := ShareSince(idx_curr, state, time);
      }
    }

    method OnlyShare(idx_curr: nat, state: nat, ghost time: nat) returns (result: Option<real>)
      requires Valid() && state < STATES && h_count == 1 && idx_curr == Index(0) && At(idx_curr).Some?
      ensures result == Share(Window(), state, time)
    {
      var total := SumCounters(idx_curr);
      var counter := h_counter[state, idx_curr];
      assert counter == Minus(Column(idx_curr)[state], ZEROS[state]);
      result := Some(Percent(counter, total));
    }

    method ShareSince(idx_curr: nat, state: nat, time: nat) returns (result: Option<real>)
      requires Valid() && state < STATES && h_count > 1 && idx_curr == Index(h_count - 1) && At(idx_curr).Some?
      ensures result == Share(Window(), state, time)
    {
      var idx_base := FindBase(idx_curr, time);
      var total := SumDifferences(idx_curr, idx_base);
      result := Some(Percent(Minus(h_counter[state, idx_curr], h_counter[state, idx_base]), total));
      assert Base(Window(), time) == Column(idx_base);
    }

    method FindBase(idx_curr: nat, time: nat) returns (idx_base: nat)
      requires Valid() && h_count > 1 && idx_curr == Index(h_count - 1) && At(idx_curr).Some?
      ensures var w := Window(); idx_base == Index(Oldest(w, |w| - 1 - Back(w, time)))
    {
      ghost var w, k := Window(), h_count - 1 - Min(h_count - 1, time);
      var at := idx_curr - Min(h_count - 1, time);
      if 0 > at {
        at := at + MAX_COLLECTOR_HISTORY;
      }
      idx_base := at;
      ghost var b := Oldest(w, k);
      while !h_status[idx_base]
        invariant k <= b < h_count && idx_base == Index(k)
        decreases b - k
      {
        assert w[k].None?;
        idx_base := idx_base + 1;
        if MAX_COLLECTOR_HISTORY == idx_base {
          idx_base := idx_base - MAX_COLLECTOR_HISTORY;
        }
        k := k + 1;
      }
      assert w[k].Some?;
    }

    method SumCounters(idx: nat) returns (total: uint64)
      requires Valid() && idx < MAX_COLLECTOR_HISTORY && At(idx).Some?
      ensures total == Total(At(idx).value, ZEROS, STATES)
    {
      ghost var c := Column(idx);
      var i := 0;
      total := 0;
      while i < STATES
        invariant i <= STATES && total == Total(c, ZEROS, i)
      {
        assert h_counter[i, idx] == Minus(c[i], ZEROS[i]);
        total := (total + h_counter[i, idx]) % TWO_TO_64;
        i := i + 1;
      }
    }

    method SumDifferences(idx_curr: nat, idx_base: nat) returns (total: uint64)
      requires Valid() && idx_curr < MAX_COLLECTOR_HISTORY && idx_base < MAX_COLLECTOR_HISTORY
      requires At(idx_curr).Some? && At(idx_base).Some?
      ensures total == Total(At(idx_curr).value, At(idx_base).value, STATES)
    {
      ghost var curr, base := Column(idx_curr), Column(idx_base);
      var i := 0;
      total := 0;
      while i < STATES
        invariant i <= STATES && total == Total(curr, base, i)
      {
        total := (total + Minus(h_counter[i, idx_curr], h_counter[i, idx_base])) % TWO_TO_64;
        i := i + 1;
      }
    }
  }
}
