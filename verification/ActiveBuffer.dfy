/** The agent's bounded buffer of values that wait to be sent. */
module ActiveBuffer {
  import opened Ctypes

  /** What only some kinds of checks know of a value; what is not given is zero. */
  datatype Details = Details(mtime: int, timestamp: int, source: Option<string>, severity: int, logeventid: int)

  const NO_DETAILS := Details(0, 0, None, 0, 0)

  /** A buffered value; stamp is the time it was buffered, persistent values must not be overwritten. */
  datatype Element = Element(host: string, key: string, value: Option<string>, lastlogsize: nat, stamp: int,
                             persistent: bool, details: Details)

  /** size and sendEvery are CONFIG_BUFFER_SIZE and CONFIG_BUFFER_SEND. */
  datatype Config = Config(size: nat, sendEvery: int)

  datatype State = State(buf: seq<Element>, pcount: nat, lastsent: int, firstError: int)

  predicate SameItem(a: Element, b: Element) {
    a.host == b.host && a.key == b.key
  }

  // ----- One step

  /** It is time to send: there is something to send, and the buffer is full enough or old enough. */
  predicate Due(cfg: Config, st: State, now: int) {
    && st.buf != []
    && !(cfg.size / 2 > st.pcount && cfg.size > |st.buf| && cfg.sendEvery > now - st.lastsent)
  }

  function Sent(cfg: Config, st: State, now: int, delivered: bool): State {
    if !Due(cfg, st, now) then st
    else if delivered then State([], 0, now, 0)
    else st.(firstError := if st.firstError == 0 then now else st.firstError)
  }

  /** The first element of the same item, or the length. */
  function FirstSame(buf: seq<Element>, e: Element): (i: nat)
    ensures i <= |buf|
    ensures i < |buf| ==> SameItem(buf[i], e)
    ensures forall j :: 0 <= j < i ==> !SameItem(buf[j], e)
  {
    if buf == [] || SameItem(buf[0], e) then 0 else 1 + FirstSame(buf[1..], e)
  }

  /** The first element that is not persistent, or the length. */
  function FirstVolatile(buf: seq<Element>): (i: nat)
    ensures i <= |buf|
    ensures i < |buf| ==> !buf[i].persistent
    ensures forall j :: 0 <= j < i ==> buf[j].persistent
  {
    if buf == [] || !buf[0].persistent then 0 else 1 + FirstVolatile(buf[1..])
  }

  /** Which element of a full buffer makes room for e. */
  function Victim(buf: seq<Element>, e: Element): nat {
    if !e.persistent && FirstSame(buf, e) < |buf| then FirstSame(buf, e) else FirstVolatile(buf)
  }

  function RemoveAt<T>(s: seq<T>, i: nat): seq<T> {
    if i < |s| then s[..i] + s[i + 1..] else s
  }

  predicate Refused(cfg: Config, st: State, e: Element) {
    e.persistent && cfg.size / 2 <= st.pcount
  }

  function Admitted(cfg: Config, st: State, e: Element): State {
    var kept := if |st.buf| < cfg.size then st.buf else RemoveAt(st.buf, Victim(st.buf, e));
    st.(buf := kept + [e], pcount := st.pcount + if e.persistent then 1 else 0)
  }

  /** One of the three reasons to send: the oldest values have waited long enough, the buffer is full, or half of it
      may be persistent. */
  predicate Pressing(cfg: Config, st: State, now: int) {
    && |st.buf| > 0
    && (now - st.lastsent >= cfg.sendEvery || |st.buf| >= cfg.size || st.pcount >= cfg.size / 2)
  }

  /** Sending does something exactly when there is a reason for it. */
  lemma SendsWhenPressing(cfg: Config, st: State, now: int, delivered: bool)
    ensures Pressing(cfg, st, now) && delivered ==> Sent(cfg, st, now, delivered) == State([], 0, now, 0)
    ensures Pressing(cfg, st, now) && !delivered ==>
              Sent(cfg, st, now, delivered)
              == State(st.buf, st.pcount, st.lastsent, if st.firstError == 0 then now else st.firstError)
    ensures !Pressing(cfg, st, now) ==> Sent(cfg, st, now, delivered) == st
  {
  }

  /** The value at v of a full buffer makes room for e: a value that is not persistent replaces the oldest value of its item; if
      there is none, and for a persistent value, the oldest that is not persistent goes. */
  ghost predicate GivesWay(buf: seq<Element>, e: Element, v: nat)
    requires v < |buf|
  {
    if !e.persistent && exists j :: 0 <= j < |buf| && buf[j].host == e.host && buf[j].key == e.key then
      && buf[v].host == e.host && buf[v].key == e.key
      && forall j :: 0 <= j < v ==> buf[j].host != e.host || buf[j].key != e.key
    else
      !buf[v].persistent && forall j :: 0 <= j < v ==> buf[j].persistent
  }

  /** A value goes behind the buffered ones, in a full buffer after the one that gives way is taken out. */
  ghost predicate PutIn(size: nat, before: seq<Element>, e: Element, after: seq<Element>) {
    if |before| < size then after == before + [e]
    else exists v: nat :: v < |before| && GivesWay(before, e, v) && after == before[..v] + before[v + 1..] + [e]
  }

  lemma VictimGivesWay(buf: seq<Element>, e: Element)
    requires Victim(buf, e) < |buf|
    ensures GivesWay(buf, e, Victim(buf, e))
  {
    forall j | 0 <= j < |buf|
      ensures SameItem(buf[j], e) <==> buf[j].host == e.host && buf[j].key == e.key
    {
    }
  }

  /** Which value makes room, and what is refused. */
  lemma AdmittedPutsIn(cfg: Config, st: State, e: Element)
    requires |st.buf| >= cfg.size ==> Victim(st.buf, e) < |st.buf|
    ensures PutIn(cfg.size, st.buf, e, Admitted(cfg, st, e).buf)
  {
    if |st.buf| >= cfg.size { VictimGivesWay(st.buf, e); }
  }

  // ----- What every reachable buffer satisfies

  function Persistent(buf: seq<Element>): (n: nat)
    ensures n <= |buf|
  {
    if buf == [] then 0 else (if buf[0].persistent then 1 else 0) + Persistent(buf[1..])
  }

  lemma {:induction false} PersistentConcat(a: seq<Element>, b: seq<Element>)
    ensures Persistent(a + b) == Persistent(a) + Persistent(b)
  {
    if a == [] {
      assert a + b == b;
    } else {
      PersistentConcat(a[1..], b);
      assert (a + b)[1..] == a[1..] + b;
    }
  }

  lemma PersistentRemoveAt(buf: seq<Element>, i: nat)
    requires i < |buf|
    ensures Persistent(RemoveAt(buf, i)) == Persistent(buf) - if buf[i].persistent then 1 else 0
  {
    var front, back := buf[..i], buf[i..];
    assert buf == front + back && back[1..] == buf[i + 1..];
    PersistentConcat(front, back);
    PersistentConcat(front, back[1..]);
  }

  lemma {:induction false} AllPersistent(buf: seq<Element>)
    requires FirstVolatile(buf) == |buf|
    ensures Persistent(buf) == |buf|
  {
    if buf != [] { AllPersistent(buf[1..]); }
  }

  /** lost is the number of persistent elements displaced since the buffer was last emptied. */
  ghost predicate Bounded(cfg: Config, st: State, lost: nat) {
    && cfg.size >= 2
    && |st.buf| <= cfg.size
    && st.pcount == Persistent(st.buf) + lost
    && st.pcount <= cfg.size / 2
  }

  /** The eviction scans end inside the buffer. */
  lemma VictimInside(cfg: Config, st: State, lost: nat, e: Element)
    requires Bounded(cfg, st, lost) && |st.buf| == cfg.size
    ensures Victim(st.buf, e) < |st.buf|
    ensures st.buf[Victim(st.buf, e)].persistent ==> !e.persistent && SameItem(st.buf[Victim(st.buf, e)], e)
  {
    if FirstVolatile(st.buf) == |st.buf| { AllPersistent(st.buf); }
  }

  /** What Admitted adds to lost. */
  function Displaced(cfg: Config, st: State, e: Element): nat {
    if |st.buf| == cfg.size && Victim(st.buf, e) < |st.buf| && st.buf[Victim(st.buf, e)].persistent then 1 else 0
  }

  lemma AdmittedBounded(cfg: Config, st: State, lost: nat, e: Element)
    requires Bounded(cfg, st, lost) && !Refused(cfg, st, e)
    ensures Bounded(cfg, Admitted(cfg, st, e), lost + Displaced(cfg, st, e))
  {
    if |st.buf| == cfg.size {
      VictimInside(cfg, st, lost, e);
      PersistentRemoveAt(st.buf, Victim(st.buf, e));
      PersistentConcat(RemoveAt(st.buf, Victim(st.buf, e)), [e]);
    } else {
      PersistentConcat(st.buf, [e]);
    }
  }

  // ----- Whole runs

  /** The value accepted as number newer overwrote the one accepted as number victim. */
  datatype Eviction = Eviction(victim: nat, newer: nat)

  /** A state with its past: all values accepted, in order, the numbers of those delivered and of those buffered,
      the delivered batches, and the evictions from a full buffer. */
  datatype History = History(st: State, accepted: seq<Element>, sent: seq<nat>, live: seq<nat>,
                             batches: seq<seq<Element>>, evictions: seq<Eviction>, lost: nat)

  datatype Op = SendBuffer(now: int, delivered: bool) | ProcessValue(e: Element, now: int, delivered: bool)

  function Sending(cfg: Config, h: History, now: int, delivered: bool): History {
    var st := Sent(cfg, h.st, now, delivered);
    if Due(cfg, h.st, now) && delivered then
      h.(st := st, sent := h.sent + h.live, live := [], batches := h.batches + [h.st.buf], lost := 0)
    else h.(st := st)
  }

  function Admitting(cfg: Config, h: History, e: Element): History {
    var full, v, i := |h.st.buf| >= cfg.size, Victim(h.st.buf, e), |h.accepted|;
    h.(st := Admitted(cfg, h.st, e), accepted := h.accepted + [e],
       live := (if full then RemoveAt(h.live, v) else h.live) + [i],
       evictions := h.evictions + (if full && v < |h.live| then [Eviction(h.live[v], i)] else []),
       lost := h.lost + Displaced(cfg, h.st, e))
  }

  function Step(cfg: Config, h: History, op: Op): History {
    match op
    case SendBuffer(now, delivered) => Sending(cfg, h, now, delivered)
    case ProcessValue(e, now, delivered) =>
      var g := Sending(cfg, h, now, delivered);
      if Refused(cfg, g.st, e) then g else Admitting(cfg, g, e)
  }

  function Start(now: int): History {
    History(State([], 0, now, 0), [], [], [], [], [], 0)
  }

  function Run(cfg: Config, h: History, ops: seq<Op>): History {
    if ops == [] then h else Step(cfg, Run(cfg, h, ops[..|ops| - 1]), ops[|ops| - 1])
  }

  function Flatten(batches: seq<seq<Element>>): seq<Element> {
    if batches == [] then [] else Flatten(batches[..|batches| - 1]) + batches[|batches| - 1]
  }

  ghost predicate Increasing(s: seq<nat>) {
    forall a, b :: 0 <= a < b < |s| ==> s[a] < s[b]
  }

  ghost predicate Numbers(s: seq<nat>, accepted: seq<Element>, values: seq<Element>) {
    && |s| == |values|
    && forall a :: 0 <= a < |s| ==> s[a] < |accepted| && accepted[s[a]] == values[a]
  }

  /** The values with increasing numbers are a subsequence of what was accepted. */
  ghost predicate InOrder(h: History) {
    && Increasing(h.sent + h.live)
    && Numbers(h.sent, h.accepted, Flatten(h.batches))
    && Numbers(h.live, h.accepted, h.st.buf)
  }

  predicate Kept(h: History, i: nat) {
    i in h.sent || i in h.live
  }

  ghost predicate Evicted(h: History, i: nat) {
    exists k :: 0 <= k < |h.evictions| && h.evictions[k].victim == i
  }

  /** A persistent value is only overwritten by a later value of the same item that is not persistent. */
  ghost predicate Fair(accepted: seq<Element>, ev: Eviction) {
    && ev.victim < ev.newer < |accepted|
    && (accepted[ev.victim].persistent ==>
          !accepted[ev.newer].persistent && SameItem(accepted[ev.victim], accepted[ev.newer]))
  }

  ghost predicate SomePersistentVictim(h: History) {
    exists k :: 0 <= k < |h.evictions| && h.evictions[k].victim < |h.accepted| && h.accepted[h.evictions[k].victim].persistent
  }

  ghost predicate AllKeptOrEvicted(h: History) {
    forall i :: 0 <= i < |h.accepted| ==> (Kept(h, i) <==> !Evicted(h, i))
  }

  ghost predicate AllFair(h: History) {
    forall k :: 0 <= k < |h.evictions| ==> Fair(h.accepted, h.evictions[k])
  }

  /** Nothing is lost or doubled: each accepted value is delivered, buffered or evicted, and only one of these. */
  ghost predicate Conserving(h: History) {
    && AllKeptOrEvicted(h)
    && AllFair(h)
    && (h.lost > 0 ==> SomePersistentVictim(h))
  }

  ghost predicate Sound(cfg: Config, h: History) {
    Bounded(cfg, h.st, h.lost) && InOrder(h) && Conserving(h)
  }

  lemma SendingKeepsOrder(cfg: Config, h: History, now: int, delivered: bool)
    requires InOrder(h)
    ensures InOrder(Sending(cfg, h, now, delivered))
  {
    var g := Sending(cfg, h, now, delivered);
    if Due(cfg, h.st, now) && delivered {
      assert g.batches[..|g.batches| - 1] == h.batches;
      assert g.sent + g.live == h.sent + h.live;
    }
  }

  lemma SendingConserves(cfg: Config, h: History, now: int, delivered: bool)
    requires Conserving(h)
    ensures Conserving(Sending(cfg, h, now, delivered))
  {
    var g := Sending(cfg, h, now, delivered);
    forall i | 0 <= i < |g.accepted|
      ensures Kept(g, i) <==> !Evicted(g, i)
    {
      assert Kept(g, i) <==> Kept(h, i);
      assert Evicted(g, i) <==> Evicted(h, i);
    }
  }

  lemma IncreasingRemoveAt(s: seq<nat>, i: nat)
    requires Increasing(s) && i < |s|
    ensures Increasing(RemoveAt(s, i))
    ensures forall x :: x in RemoveAt(s, i) <==> x in s && x != s[i]
  {
    var t := RemoveAt(s, i);
    forall a | 0 <= a < |t|
      ensures t[a] == s[if a < i then a else a + 1] && t[a] != s[i]
    {
    }
    forall x | x in s && x != s[i]
      ensures x in t
    {
      var a :| 0 <= a < |s| && s[a] == x;
      assert t[if a < i then a else a - 1] == x;
    }
  }

  lemma NumbersRemoveAt(s: seq<nat>, accepted: seq<Element>, values: seq<Element>, i: nat)
    requires Numbers(s, accepted, values) && i < |s|
    ensures Numbers(RemoveAt(s, i), accepted, RemoveAt(values, i))
  {
    var t, v := RemoveAt(s, i), RemoveAt(values, i);
    forall a | 0 <= a < |t|
      ensures t[a] < |accepted| && accepted[t[a]] == v[a]
    {
      assert t[a] == s[if a < i then a else a + 1] && v[a] == values[if a < i then a else a + 1];
    }
  }

  lemma NumbersAppend(s: seq<nat>, accepted: seq<Element>, values: seq<Element>, e: Element)
    requires Numbers(s, accepted, values)
    ensures Numbers(s, accepted + [e], values)
    ensures Numbers(s + [|accepted|], accepted + [e], values + [e])
    ensures Increasing(s) ==> Increasing(s + [|accepted|])
  {
  }

  lemma Below(h: History)
    requires InOrder(h)
    ensures forall x :: x in h.sent + h.live ==> x < |h.accepted|
  {
  }

  lemma IncreasingAppend(s: seq<nat>, n: nat)
    requires Increasing(s) && forall x :: x in s ==> x < n
    ensures Increasing(s + [n])
  {
    forall a | 0 <= a < |s|
      ensures s[a] < n
    {
      assert s[a] in s;
    }
  }

  lemma RemoveAtBehind<T>(a: seq<T>, b: seq<T>, i: nat)
    requires i < |b|
    ensures RemoveAt(a + b, |a| + i) == a + RemoveAt(b, i) && (a + b)[|a| + i] == b[i]
  {
  }

  lemma AdmittingKeepsOrder(cfg: Config, h: History, e: Element)
    requires InOrder(h) && (|h.st.buf| >= cfg.size ==> Victim(h.st.buf, e) < |h.st.buf|)
    ensures InOrder(Admitting(cfg, h, e))
  {
    NumbersAppend(h.sent, h.accepted, Flatten(h.batches), e);
    if |h.st.buf| >= cfg.size {
      var v := Victim(h.st.buf, e);
      Below(h);
      EvictingIncreases(h.sent, h.live, v, |h.accepted|);
      NumbersRemoveAt(h.live, h.accepted, h.st.buf, v);
      NumbersAppend(RemoveAt(h.live, v), h.accepted, RemoveAt(h.st.buf, v), e);
    } else {
      Below(h);
      IncreasingAppend(h.sent + h.live, |h.accepted|);
      assert h.sent + (h.live + [|h.accepted|]) == (h.sent + h.live) + [|h.accepted|];
      NumbersAppend(h.live, h.accepted, h.st.buf, e);
    }
  }

  lemma EvictingIncreases(sent: seq<nat>, live: seq<nat>, v: nat, n: nat)
    requires Increasing(sent + live) && v < |live| && forall x :: x in sent + live ==> x < n
    ensures Increasing(sent + (RemoveAt(live, v) + [n]))
  {
    var all, i := sent + live, |sent| + v;
    RemoveAtBehind(sent, live, v);
    IncreasingRemoveAt(all, i);
    IncreasingAppend(RemoveAt(all, i), n);
    assert sent + (RemoveAt(live, v) + [n]) == (sent + RemoveAt(live, v)) + [n];
  }

  lemma AdmittingConserves(cfg: Config, h: History, e: Element)
    requires Bounded(cfg, h.st, h.lost) && InOrder(h) && Conserving(h)
    ensures Conserving(Admitting(cfg, h, e))
  {
    var g, v := Admitting(cfg, h, e), Victim(h.st.buf, e);
    Below(h);
    if |h.st.buf| < cfg.size {
      forall i | 0 <= i < |g.accepted|
        ensures Kept(g, i) <==> !Evicted(g, i)
      {
        KeptAfterAppend(h, g, i);
      }
      EvictionsAfter(h, g, e, []);
    } else {
      VictimInside(cfg, h.st, h.lost, e);
      AllKeptAfterEviction(h, g, v);
      EvictionsAfter(h, g, e, [Eviction(h.live[v], |h.accepted|)]);
    }
  }

  /** What holds of the evictions still holds with one more accepted value and at most one more eviction. */
  lemma EvictionsAfter(h: History, g: History, e: Element, more: seq<Eviction>)
    requires AllFair(h) && (h.lost > 0 ==> SomePersistentVictim(h))
    requires g.accepted == h.accepted + [e] && g.evictions == h.evictions + more && |more| <= 1
    requires more != [] ==> Fair(g.accepted, more[0]) && more[0].victim < |h.accepted|
    ensures AllFair(g)
    ensures h.lost > 0 || (more != [] && g.accepted[more[0].victim].persistent) ==> SomePersistentVictim(g)
  {
    forall k | 0 <= k < |g.evictions|
      ensures Fair(g.accepted, g.evictions[k])
    {
      if k < |h.evictions| { assert Fair(h.accepted, h.evictions[k]); }
    }
    if h.lost > 0 {
      var k :| 0 <= k < |h.evictions| && h.evictions[k].victim < |h.accepted| && h.accepted[h.evictions[k].victim].persistent;
      assert g.evictions[k] == h.evictions[k];
    }
    if more != [] { assert g.evictions[|h.evictions|] == more[0]; }
  }

  lemma AllKeptAfterEviction(h: History, g: History, v: nat)
    requires InOrder(h) && Conserving(h) && v < |h.live| && |g.accepted| == |h.accepted| + 1
    requires g.sent == h.sent && g.live == RemoveAt(h.live, v) + [|h.accepted|]
    requires g.evictions == h.evictions + [Eviction(h.live[v], |h.accepted|)]
    ensures AllKeptOrEvicted(g)
  {
    var all := h.sent + h.live;
    IncreasingRemoveAt(all, |h.sent| + v);
    RemoveAtBehind(h.sent, h.live, v);
    forall i | 0 <= i < |g.accepted|
      ensures Kept(g, i) <==> !Evicted(g, i)
    {
      KeptAfterEviction(h, g, v, i);
    }
  }

  lemma KeptAfterAppend(h: History, g: History, i: nat)
    requires Conserving(h) && i <= |h.accepted| && g.evictions == h.evictions
    requires g.sent == h.sent && g.live == h.live + [|h.accepted|]
    ensures Kept(g, i) <==> !Evicted(g, i)
  {
    if i < |h.accepted| {
      assert Evicted(g, i) <==> Evicted(h, i);
    } else {
      assert g.live[|h.live|] == i;
      assert !Evicted(g, i);
    }
  }

  lemma KeptAfterEviction(h: History, g: History, v: nat, i: nat)
    requires Conserving(h) && i <= |h.accepted| && v < |h.live| && h.live[v] < |h.accepted|
    requires g.sent == h.sent && g.live == RemoveAt(h.live, v) + [|h.accepted|]
    requires g.evictions == h.evictions + [Eviction(h.live[v], |h.accepted|)]
    requires forall x :: x in h.sent + RemoveAt(h.live, v) <==> x in h.sent + h.live && x != h.live[v]
    ensures Kept(g, i) <==> !Evicted(g, i)
  {
    var n := |h.evictions|;
    assert Evicted(g, i) <==> Evicted(h, i) || i == h.live[v] by {
      if Evicted(h, i) {
        var k :| 0 <= k < n && h.evictions[k].victim == i;
        assert g.evictions[k].victim == i;
      }
      if i == h.live[v] { assert g.evictions[n].victim == i; }
    }
    if i < |h.accepted| {
      assert Kept(h, i) <==> i in h.sent + h.live;
      assert Kept(g, i) <==> i in h.sent + RemoveAt(h.live, v);
    } else {
      assert g.live[|g.live| - 1] == i;
      assert !Evicted(h, i);
    }
  }

  lemma SendingKeepsSound(cfg: Config, h: History, now: int, delivered: bool)
    requires Sound(cfg, h)
    ensures Sound(cfg, Sending(cfg, h, now, delivered))
  {
    SendingKeepsOrder(cfg, h, now, delivered);
    SendingConserves(cfg, h, now, delivered);
    assert Bounded(cfg, Sending(cfg, h, now, delivered).st, Sending(cfg, h, now, delivered).lost);
  }

  lemma AdmittingKeepsSound(cfg: Config, h: History, e: Element)
    requires Sound(cfg, h) && !Refused(cfg, h.st, e)
    ensures Sound(cfg, Admitting(cfg, h, e))
  {
    if |h.st.buf| >= cfg.size { VictimInside(cfg, h.st, h.lost, e); }
    AdmittedBounded(cfg, h.st, h.lost, e);
    AdmittingKeepsOrder(cfg, h, e);
    AdmittingConserves(cfg, h, e);
    SoundFrom(cfg, Admitting(cfg, h, e), Admitted(cfg, h.st, e), h.lost + Displaced(cfg, h.st, e));
  }

  lemma SoundFrom(cfg: Config, g: History, st: State, lost: nat)
    requires g.st == st && g.lost == lost && Bounded(cfg, st, lost) && InOrder(g) && Conserving(g)
    ensures Sound(cfg, g)
  {
  }

  lemma ProcessingKeepsSound(cfg: Config, h: History, e: Element, now: int, delivered: bool)
    requires Sound(cfg, h)
    ensures Sound(cfg, Step(cfg, h, ProcessValue(e, now, delivered)))
  {
    var g := Sending(cfg, h, now, delivered);
    SendingKeepsSound(cfg, h, now, delivered);
    if Refused(cfg, g.st, e) {
      assert Step(cfg, h, ProcessValue(e, now, delivered)) == g;
    } else {
      assert Step(cfg, h, ProcessValue(e, now, delivered)) == Admitting(cfg, g, e);
      AdmittingKeepsSound(cfg, g, e);
    }
  }

  lemma StepKeepsSound(cfg: Config, h: History, op: Op)
    requires Sound(cfg, h)
    ensures Sound(cfg, Step(cfg, h, op))
  {
    match op {
      case SendBuffer(now, delivered) => SendingKeepsSound(cfg, h, now, delivered);
      case ProcessValue(e, now, delivered) => ProcessingKeepsSound(cfg, h, e, now, delivered);
    }
  }

  /** Over any run with any outcomes of sending: delivered and buffered values are in arrival order, and every
      accepted value is delivered, buffered or fairly evicted. */
  lemma {:induction false} RunIsSound(cfg: Config, now: int, ops: seq<Op>)
    requires cfg.size >= 2
    ensures Sound(cfg, Run(cfg, Start(now), ops))
  {
    if ops != [] {
      RunIsSound(cfg, now, ops[..|ops| - 1]);
      StepKeepsSound(cfg, Run(cfg, Start(now), ops[..|ops| - 1]), ops[|ops| - 1]);
    }
  }

  /** A is obtained from b by leaving out elements. */
  ghost predicate Subsequence(a: seq<Element>, b: seq<Element>) {
    if a == [] then true
    else if b == [] then false
    else if a[|a| - 1] == b[|b| - 1] && Subsequence(a[..|a| - 1], b[..|b| - 1]) then true
    else Subsequence(a, b[..|b| - 1])
  }

  lemma {:induction false} NumberedIsSubsequence(s: seq<nat>, b: seq<Element>, a: seq<Element>)
    requires Increasing(s) && Numbers(s, b, a)
    ensures Subsequence(a, b)
    decreases |b|
  {
    if a != [] {
      var i, j := |a| - 1, |b| - 1;
      forall k | 0 <= k < i
        ensures s[k] < j
      {
        assert s[k] < s[i];
      }
      if s[i] == j {
        NumberedIsSubsequence(s[..i], b[..j], a[..i]);
      } else {
        NumberedIsSubsequence(s, b[..j], a);
      }
    }
  }

  /** What the server has got followed by what is buffered is a subsequence of the accepted values. */
  lemma DeliveredInOrder(cfg: Config, now: int, ops: seq<Op>)
    requires cfg.size >= 2
    ensures var h := Run(cfg, Start(now), ops);
            Subsequence(Flatten(h.batches) + h.st.buf, h.accepted)
  {
    RunIsSound(cfg, now, ops);
    var h := Run(cfg, Start(now), ops);
    NumberedIsSubsequence(h.sent + h.live, h.accepted, Flatten(h.batches) + h.st.buf);
  }

  /** An accepted persistent value is delivered or buffered exactly once, unless a later value of its item that is
      not persistent evicted it. */
  lemma PersistentSurvives(cfg: Config, now: int, ops: seq<Op>, i: nat)
    requires cfg.size >= 2
    requires var h := Run(cfg, Start(now), ops); i < |h.accepted| && h.accepted[i].persistent
    ensures var h := Run(cfg, Start(now), ops);
            if Kept(h, i) then exists a :: 0 <= a < |h.sent + h.live| && (h.sent + h.live)[a] == i &&
                                 forall b :: 0 <= b < |h.sent + h.live| && (h.sent + h.live)[b] == i ==> b == a
            else exists k :: 0 <= k < |h.evictions| && h.evictions[k].victim == i &&
                             var j := h.evictions[k].newer;
                             i < j < |h.accepted| && !h.accepted[j].persistent && SameItem(h.accepted[i], h.accepted[j])
  {
    RunIsSound(cfg, now, ops);
    var h := Run(cfg, Start(now), ops);
    if Kept(h, i) {
      assert i in h.sent + h.live;
    } else {
      assert Evicted(h, i);
      var k :| 0 <= k < |h.evictions| && h.evictions[k].victim == i;
      assert Fair(h.accepted, h.evictions[k]);
    }
  }

  /** The counter of persistent values never falls below their number, never exceeds half the buffer, and is exact
      if and only if no persistent value has been overwritten since the buffer was last emptied. */
  lemma CountersBounded(cfg: Config, now: int, ops: seq<Op>)
    requires cfg.size >= 2
    ensures var h := Run(cfg, Start(now), ops);
            && |h.st.buf| <= cfg.size
            && Persistent(h.st.buf) <= h.st.pcount <= cfg.size / 2
            && (Persistent(h.st.buf) == h.st.pcount <==> h.lost == 0)
            && (!SomePersistentVictim(h) ==> h.lost == 0)
  {
    RunIsSound(cfg, now, ops);
  }

  lemma RunOneMore(cfg: Config, h: History, ops: seq<Op>, op: Op)
    ensures Run(cfg, h, ops + [op]) == Step(cfg, Run(cfg, h, ops), op)
  {
    assert (ops + [op])[..|ops|] == ops;
  }

  /** How a step that fails to send and accepts e changes the state. */
  lemma StepWithoutSending(cfg: Config, h: History, e: Element)
    requires !Refused(cfg, h.st, e) && h.st.firstError == 0
    ensures Step(cfg, h, ProcessValue(e, 0, false)).st == Admitted(cfg, h.st, e)
  {
  }

  /** The counter can exceed the number: in a buffer of two, a persistent value is overwritten by one of its item. */
  lemma CounterCanExceed(p: Element, v: Element)
    requires p.persistent && !v.persistent && SameItem(p, v)
    ensures var cfg := Config(2, 5);
            var ops := [] + [ProcessValue(p, 0, false)] + [ProcessValue(v, 0, false)] + [ProcessValue(v, 0, false)];
            var st := Run(cfg, Start(0), ops).st;
            st.buf == [v, v] && Persistent(st.buf) == 0 && st.pcount == 1
  {
    var cfg := Config(2, 5);
    var op1, op2 := ProcessValue(p, 0, false), ProcessValue(v, 0, false);
    var h0 := Run(cfg, Start(0), []);
    RunOneMore(cfg, Start(0), [], op1);
    StepWithoutSending(cfg, h0, p);
    var h1 := Run(cfg, Start(0), [] + [op1]);
    assert h1.st == State([p], 1, 0, 0);
    RunOneMore(cfg, Start(0), [] + [op1], op2);
    StepWithoutSending(cfg, h1, v);
    var h2 := Run(cfg, Start(0), [] + [op1] + [op2]);
    assert h2.st == State([p, v], 1, 0, 0);
    RunOneMore(cfg, Start(0), [] + [op1] + [op2], op2);
    StepWithoutSending(cfg, h2, v);
    assert FirstSame([p, v], v) == 0 && RemoveAt([p, v], 0) == [v];
    assert Persistent([v, v]) == Persistent([v, v][1..]) == Persistent([v, v][1..][1..]) == 0;
  }

  // ----- When values are sent

  /** What an operation does about sending at a time: it does not try, it sends, or it fails to send. */
  datatype Attempt = Idle | Success(at: int) | Failure(at: int)

  function AttemptOf(cfg: Config, st: State, op: Op): Attempt {
    if !Pressing(cfg, st, op.now) then Idle
    else if op.delivered then Success(op.now)
    else Failure(op.now)
  }

  /** What each operation of a run does, in the state that the operations before it have left. */
  function Attempts(cfg: Config, start: int, ops: seq<Op>): (o: seq<Attempt>)
    ensures |o| == |ops|
  {
    if ops == [] then []
    else
      var n := |ops| - 1;
      Attempts(cfg, start, ops[..n]) + [AttemptOf(cfg, Run(cfg, Start(start), ops[..n]).st, ops[n])]
  }

  ghost predicate SuccessBetween(o: seq<Attempt>, i: int, k: int) {
    exists j :: 0 <= j < |o| && i < j < k && o[j].Success?
  }

  /** e is the time of the first failure since the last success, or zero if there is none; a failure at time zero
      cannot be told from none. */
  ghost predicate FirstError(o: seq<Attempt>, e: int) {
    if e == 0 then
      forall k :: 0 <= k < |o| && o[k].Failure? && o[k].at != 0 ==> SuccessBetween(o, k, |o|)
    else
      exists k :: 0 <= k < |o| && o[k] == Failure(e) && !SuccessBetween(o, k, |o|) &&
                  forall i :: 0 <= i < k && o[i].Failure? && o[i].at != 0 ==> SuccessBetween(o, i, k)
  }

  /** t is the time of the last success, or of the start if there is none. */
  ghost predicate LastSuccess(o: seq<Attempt>, start: int, t: int) {
    || (t == start && !SuccessBetween(o, -1, |o|))
    || exists k :: 0 <= k < |o| && o[k] == Success(t) && !SuccessBetween(o, k, |o|)
  }

  lemma BetweenGrows(o: seq<Attempt>, x: Attempt, i: int, k: int)
    ensures k <= |o| ==> (SuccessBetween(o + [x], i, k) <==> SuccessBetween(o, i, k))
    ensures i < |o| ==> (SuccessBetween(o + [x], i, |o| + 1) <==> SuccessBetween(o, i, |o|) || x.Success?)
  {
    var p := o + [x];
    assert p[|o|] == x;
    if j :| 0 <= j < |o| && i < j < k && o[j].Success? { assert p[j].Success?; }
    if j :| 0 <= j < |o| && i < j < |o| && o[j].Success? { assert p[j].Success?; }
  }

  lemma FirstErrorGrows(o: seq<Attempt>, x: Attempt, e: int)
    requires FirstError(o, e)
    ensures FirstError(o + [x], match x case Success(_) => 0 case Idle => e case Failure(at) => if e == 0 then at else e)
  {
    var p, n := o + [x], |o|;
    assert p[n] == x;
    forall i, k
      ensures k <= n ==> (SuccessBetween(p, i, k) <==> SuccessBetween(o, i, k))
      ensures i < n ==> (SuccessBetween(p, i, n + 1) <==> SuccessBetween(o, i, n) || x.Success?)
    {
      BetweenGrows(o, x, i, k);
    }
    if e != 0 && !x.Success? {
      var k :| 0 <= k < n && o[k] == Failure(e) && !SuccessBetween(o, k, n) &&
               forall i :: 0 <= i < k && o[i].Failure? && o[i].at != 0 ==> SuccessBetween(o, i, k);
      assert p[k] == Failure(e) && !SuccessBetween(p, k, n + 1);
      assert forall i :: 0 <= i < k && p[i].Failure? && p[i].at != 0 ==> SuccessBetween(p, i, k);
    }
    assert !SuccessBetween(p, n, n + 1);
  }

  lemma LastSuccessGrows(o: seq<Attempt>, x: Attempt, start: int, t: int)
    requires LastSuccess(o, start, t)
    ensures LastSuccess(o + [x], start, if x.Success? then x.at else t)
  {
    var p, n := o + [x], |o|;
    assert p[n] == x && !SuccessBetween(p, n, n + 1);
    BetweenGrows(o, x, -1, n);
    if !x.Success? && !(t == start && !SuccessBetween(o, -1, n)) {
      var k :| 0 <= k < n && o[k] == Success(t) && !SuccessBetween(o, k, n);
      BetweenGrows(o, x, k, n);
      assert p[k] == Success(t);
    }
  }

  /** What an operation does to the times: only a success starts a new batch, and only a failure an error. */
  lemma StepTimes(cfg: Config, h: History, op: Op)
    ensures var g, x := Step(cfg, h, op), AttemptOf(cfg, h.st, op);
            && g.st.firstError == (match x case Success(_) => 0 case Idle => h.st.firstError
                                   case Failure(at) => if h.st.firstError == 0 then at else h.st.firstError)
            && g.st.lastsent == (if x.Success? then x.at else h.st.lastsent)
            && g.batches == h.batches + (if x.Success? then [h.st.buf] else [])
  {
    SendsWhenPressing(cfg, h.st, op.now, op.delivered);
  }

  /** After any run first_error is the time of the first failure since the last success, and lastsent that of the
      last success. */
  lemma {:induction false} TimesAreThoseOfTheRun(cfg: Config, start: int, ops: seq<Op>)
    ensures var st, o := Run(cfg, Start(start), ops).st, Attempts(cfg, start, ops);
            FirstError(o, st.firstError) && LastSuccess(o, start, st.lastsent)
  {
    if ops != [] {
      var n := |ops| - 1;
      var h, o := Run(cfg, Start(start), ops[..n]), Attempts(cfg, start, ops[..n]);
      TimesAreThoseOfTheRun(cfg, start, ops[..n]);
      StepTimes(cfg, h, ops[n]);
      FirstErrorGrows(o, AttemptOf(cfg, h.st, ops[n]), h.st.firstError);
      LastSuccessGrows(o, AttemptOf(cfg, h.st, ops[n]), start, h.st.lastsent);
    }
  }

  /** Nothing waits longer than it has to: if sending works, then after an operation that only sends, what is still
      buffered is new enough and leaves room. */
  lemma NothingOverdue(cfg: Config, start: int, ops: seq<Op>, now: int)
    ensures var h, g := Run(cfg, Start(start), ops), Run(cfg, Start(start), ops + [SendBuffer(now, true)]);
            || (g.st.buf == [] && g.st.lastsent == now && h.st.buf != [] && g.batches == h.batches + [h.st.buf])
            || (g == h && (h.st.buf == [] || (now - h.st.lastsent < cfg.sendEvery && |h.st.buf| < cfg.size &&
                                              h.st.pcount < cfg.size / 2)))
  {
    var h := Run(cfg, Start(start), ops);
    RunOneMore(cfg, Start(start), ops, SendBuffer(now, true));
    SendsWhenPressing(cfg, h.st, now, true);
  }

  /** What a run does with one more value: it refuses exactly a persistent value that finds the counter at half the
      buffer, and puts in every other. */
  lemma AcceptsAllOthers(cfg: Config, start: int, ops: seq<Op>, e: Element, now: int, delivered: bool)
    requires cfg.size >= 2
    ensures var h, g := Run(cfg, Start(start), ops), Run(cfg, Start(start), ops + [ProcessValue(e, now, delivered)]);
            var st := Sent(cfg, h.st, now, delivered);
            if e.persistent && st.pcount >= cfg.size / 2 then g.accepted == h.accepted && g.st == st
            else
              && g.accepted == h.accepted + [e] && PutIn(cfg.size, st.buf, e, g.st.buf)
              && g.st.pcount == st.pcount + if e.persistent then 1 else 0
  {
    var h := Run(cfg, Start(start), ops);
    RunIsSound(cfg, start, ops);
    RunOneMore(cfg, Start(start), ops, ProcessValue(e, now, delivered));
    SendingKeepsSound(cfg, h, now, delivered);
    var g := Sending(cfg, h, now, delivered);
    if |g.st.buf| == cfg.size { VictimInside(cfg, g.st, g.lost, e); }
    AdmittedPutsIn(cfg, g.st, e);
  }

  // ----- The buffer in place

  class Buffer {
    const cfg: Config
    const data: array<Element>
    var count: nat
    var pcount: nat
    var lastsent: int
    var first_error: int
    ghost var lost: nat

    ghost function Now(): State
      requires count <= data.Length
      reads this, data
    {
      State(data[..count], pcount, lastsent, first_error)
    }

    /** lost counts the persistent elements overwritten since the buffer was last emptied. */
    ghost predicate Valid()
      reads this, data
    {
      && data.Length == cfg.size && count <= data.Length
      && Bounded(cfg, Now(), lost)
    }

    constructor (cfg: Config, now: int)
      requires cfg.size >= 2
      ensures Valid() && this.cfg == cfg && Now() == Start(now).st && fresh(data)
    {
      this.cfg := cfg;
      this.data := new Element[cfg.size](_ => Element("", "", None, 0, 0, false, NO_DETAILS));
      this.count, this.pcount, this.lastsent, this.first_error, this.lost := 0, 0, now, 0, 0;
    }

    /** Sending fails only if it is attempted. */
    method SendBuffer(now: int, delivered: bool) returns (ok: bool)
      requires Valid()
      modifies this
      ensures Valid() && Now() == Sent(cfg, old(Now()), now, delivered)
      ensures ok <==> delivered || !Due(cfg, old(Now()), now)
      ensures old(count) == 0 || (now - old(lastsent) < cfg.sendEvery && old(count) < cfg.size &&
                                  old(pcount) < cfg.size / 2) ==>
                ok && Now() == old(Now())
      ensures old(count) > 0 && (now - old(lastsent) >= cfg.sendEvery || old(count) == cfg.size ||
                                 old(pcount) >= cfg.size / 2) ==>
                if delivered then ok && count == 0 && pcount == 0 && lastsent == now && first_error == 0
                else && !ok && count == old(count) && pcount == old(pcount) && lastsent == old(lastsent)
                     && first_error == if old(first_error) == 0 then now else old(first_error)
    {
      ok := true;
      if count == 0 {
        return;
      }
      if cfg.size / 2 > pcount && cfg.size > count && cfg.sendEvery > now - lastsent {
        return;
      }
      ok := delivered;
      if ok {
        count, pcount, lastsent, first_error := 0, 0, now, 0;
        lost := 0;
      } else if first_error == 0 {
        first_error := now;
      }
    }

    method ProcessValue(el: Element, now: int, delivered: bool) returns (accepted: bool)
      requires Valid()
      modifies this, data
      ensures Valid()
      ensures var st := Sent(cfg, old(Now()), now, delivered);
              && (accepted <==> !Refused(cfg, st, el))
              && Now() == if accepted then Admitted(cfg, st, el) else st
      ensures var st := Sent(cfg, old(Now()), now, delivered);
              && (accepted <==> !el.persistent || st.pcount < cfg.size / 2)
              && (if accepted then PutIn(cfg.size, st.buf, el, Now().buf) else Now().buf == st.buf)
              && pcount == st.pcount + (if accepted && el.persistent then 1 else 0)
              && lastsent == st.lastsent && first_error == st.firstError
    {
      var sent := SendBuffer(now, delivered);
      if el.persistent && cfg.size / 2 <= pcount {
        return false;
      }
      ghost var st := Now();
      AdmittedBounded(cfg, st, lost, el);
      if count == cfg.size { VictimInside(cfg, st, lost, el); }
      AdmittedPutsIn(cfg, st, el);
      PutLast(el);
      if el.persistent {
        pcount := pcount + 1;
      }
      lost := lost + Displaced(cfg, st, el);
      assert Now() == Admitted(cfg, st, el);
      accepted := true;
    }

    /** Appends a value, in a full buffer in place of the victim. */
    method PutLast(el: Element)
      requires count <= data.Length == cfg.size && 0 < cfg.size
      requires count == cfg.size ==> Victim(data[..count], el) < count
      modifies this`count, data
      ensures count <= data.Length && data[..count] == Admitted(cfg, old(Now()), el).buf
    {
      if cfg.size > count {
        data[count] := el;
        count := count + 1;
      } else {
        var i := FindVictim(el);
        ShiftDown(i);
        data[cfg.size - 1] := el;
      }
    }

    method FindVictim(el: Element) returns (i: nat)
      requires count <= data.Length && Victim(data[..count], el) < count
      ensures i == Victim(data[..count], el)
    {
      i := count;
      if !el.persistent {
        i := 0;
        while i < count && !SameItem(data[i], el)
          invariant 0 <= i <= count
          invariant forall j :: 0 <= j < i ==> !SameItem(data[j], el)
        {
          i := i + 1;
        }
        FirstSameIs(data[..count], el, i);
      }
      if el.persistent || i == count {
        i := 0;
        while i < count && data[i].persistent
          invariant 0 <= i <= count
          invariant forall j :: 0 <= j < i ==> data[j].persistent
        {
          i := i + 1;
        }
        FirstVolatileIs(data[..count], i);
      }
    }

    /** Moves the elements behind i one place down. */
    method ShiftDown(i: nat)
      requires i < count == data.Length
      modifies data
      ensures data[..count - 1] == RemoveAt(old(data[..count]), i)
    {
      forall j | i <= j < data.Length - 1 {
        data[j] := data[j + 1];
      }
    }
  }

  lemma FirstSameIs(buf: seq<Element>, e: Element, i: nat)
    requires i <= |buf| && (forall j :: 0 <= j < i ==> !SameItem(buf[j], e)) && (i < |buf| ==> SameItem(buf[i], e))
    ensures FirstSame(buf, e) == i
  {
  }

  lemma FirstVolatileIs(buf: seq<Element>, i: nat)
    requires i <= |buf| && (forall j :: 0 <= j < i ==> buf[j].persistent) && (i < |buf| ==> !buf[i].persistent)
    ensures FirstVolatile(buf) == i
  {
  }
}
