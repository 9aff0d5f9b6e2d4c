/** Following a log file that only grows, over any number of checks: every matching line reaches the server or the
    buffer exactly once and in order. */
module LogRuns {
  import opened Ctypes
  import opened ActiveBuffer
  import opened LogFile

  // ----- Files that only grow

  function Seen(w: World): nat {
    if w.file.Some? then |w.file.value| else 0
  }

  /** Reading i is not later than reading j. */
  predicate Before(i: nat, j: nat) {
    i <= j
  }

  /** Each reading finds a prefix of file, never shorter than the one before. */
  ghost predicate Growing(world: nat -> World, file: seq<byte>) {
    && Worlds(world)
    && forall i, j {:trigger Before(i, j)} :: Before(i, j) ==>
         && world(i).file.Some? && world(i).file.value <= file
         && Seen(world(i)) <= Seen(world(j))
  }

  ghost predicate TornAt(w: World, u: Units, at: nat) {
    && w.file.Some? && Usable(w)
    && Torn(Filled(w.file.value, at, w.stale), u, Available(w.file.value, at))
  }

  /** No reading from the start of a unit finds a torn line end. */
  ghost predicate Untorn(world: nat -> World, u: Units) {
    forall i, at: nat {:trigger TornAt(world(i), u, at)} :: Aligned(u, at) ==> !TornAt(world(i), u, at)
  }

  /** Files of whole units have no torn line ends; files of single bytes always are such files. */
  lemma WholeIsUntorn(world: nat -> World, u: Units)
    requires forall i :: Aligned(u, Seen(world(i)))
    ensures Untorn(world, u)
  {
    forall i, at: nat | Aligned(u, at)
      ensures !TornAt(world(i), u, at)
    {
      if world(i).file.Some? { WholeAvailable(world(i).file.value, u, at); }
    }
  }

  lemma WholeAvailable(file: seq<byte>, u: Units, at: nat)
    requires Aligned(u, |file|) && Aligned(u, at)
    ensures Aligned(u, Available(file, at))
  {
    if at <= |file| { AlignedSum(u, |file| - at, at); }
    BufferAligned(u);
  }

  lemma BufferAligned(u: Units)
    ensures Aligned(u, MAX_BUFFER_LEN)
  {
    assert MAX_BUFFER_LEN == 4 * 16384;
  }

  lemma UnitsMore(u: Units, e: nat, n: nat)
    requires Aligned(u, e) && n in {e, e + Size(u), e + 2 * Size(u)}
    ensures Aligned(u, n)
  {
    AlignedSum(u, e, Size(u));
    AlignedSum(u, e + Size(u), Size(u));
  }

  lemma LineLengthAligned(buf: seq<byte>, u: Units, nbytes: nat)
    requires nbytes <= |buf|
    ensures Aligned(u, LineLength(buf, u, nbytes))
  {
    FirstEndAligned(buf, u, nbytes, 0);
    UnitsMore(u, FirstEnd(buf, u, nbytes, 0), LineLength(buf, u, nbytes));
  }

  lemma FilledFrom(f: seq<byte>, file: seq<byte>, at: nat, stale: seq<byte>, n: nat)
    requires |stale| == MAX_BUFFER_LEN && f <= file && n <= Available(f, at)
    ensures n > 0 ==> at + n <= |f| && Filled(f, at, stale)[..n] == file[at..at + n]
  {
    if n > 0 {
      var buf := Filled(f, at, stale);
      forall i | 0 <= i < n
        ensures buf[i] == file[at + i]
      {
        assert f[at + i] == file[at + i];
      }
      assert buf[..n] == file[at..at + n];
    }
  }

  lemma ChunkFollows(f: seq<byte>, file: seq<byte>, at: nat, stale: seq<byte>, u: Units)
    requires |stale| == MAX_BUFFER_LEN && f <= file && Aligned(u, at)
    requires !Torn(Filled(f, at, stale), u, Available(f, at))
    ensures var n := Chunk(f, at, stale, u);
            && n <= Available(f, at) && Aligned(u, at + n)
            && (n > 0 ==> at + n <= |f| && Filled(f, at, stale)[..n] == file[at..at + n])
  {
    var buf, nbytes := Filled(f, at, stale), Available(f, at);
    LineLengthInside(buf, u, nbytes);
    LineLengthAligned(buf, u, nbytes);
    var n := LineLength(buf, u, nbytes);
    AlignedSum(u, at, n);
    FilledFrom(f, file, at, stale, n);
  }

  lemma SkippingReads(w: World, file: seq<byte>, lastlogsize: nat, u: Units)
    requires Usable(w) && w.file.Some? && w.file.value <= file
    requires Aligned(u, Seen(w)) && !TornAt(w, u, Seen(w))
    ensures Reading(w, lastlogsize, u, true) == AtEnd(Seen(w))
  {
    ChunkFollows(w.file.value, file, Seen(w), w.stale, u);
  }

  lemma NextLineReads(w: World, file: seq<byte>, at: nat, u: Units)
    requires Usable(w) && w.file.Some? && w.file.value <= file && at <= Seen(w)
    requires Aligned(u, at) && !TornAt(w, u, at)
    ensures var n := Chunk(w.file.value, at, w.stale, u);
            && Aligned(u, at + n) && at + n <= Seen(w)
            && Reading(w, at, u, false) == if n == 0 then AtEnd(at) else Text(at, at + n, file[at..at + n])
  {
    ChunkFollows(w.file.value, file, at, w.stale, u);
  }

  /** What a reading from the start of a unit yields is the part of the file that begins there. */
  lemma ReadingFollows(w: World, file: seq<byte>, lastlogsize: nat, u: Units, skip: bool)
    requires Usable(w) && w.file.Some? && w.file.value <= file && lastlogsize <= Seen(w)
    requires var at := if skip then Seen(w) else lastlogsize; Aligned(u, at) && !TornAt(w, u, at)
    ensures var start := if skip then Seen(w) else lastlogsize;
            match Reading(w, lastlogsize, u, skip)
            case Unreadable => false
            case AtEnd(at) => at == start
            case Text(from, to, bytes) =>
              start == from < to <= Seen(w) && bytes == file[from..to] && Aligned(u, to) && !skip
  {
    if skip {
      SkippingReads(w, file, lastlogsize, u);
    } else {
      NextLineReads(w, file, lastlogsize, u);
    }
  }

  // ----- One check

  /** The lines follow each other without gap or overlap, and none is empty. */
  ghost predicate Tiles(chunks: seq<Span>, from: nat, to: nat) {
    if chunks == [] then from == to
    else chunks[0].from == from < chunks[0].to && Tiles(chunks[1..], chunks[0].to, to)
  }

  lemma {:induction false} TilesConcat(a: seq<Span>, b: seq<Span>, from: nat, mid: nat, to: nat)
    requires Tiles(a, from, mid) && Tiles(b, mid, to)
    ensures Tiles(a + b, from, to)
  {
    if a == [] {
      assert a + b == b;
    } else {
      TilesConcat(a[1..], b, a[0].to, mid, to);
      assert (a + b)[1..] == a[1..] + b;
    }
  }

  function Bytes(file: seq<byte>, c: Span): seq<byte> {
    if c.from <= c.to <= |file| then file[c.from..c.to] else []
  }

  /** What the buffer should get for these lines; the time of buffering is left out. */
  function Values(m: Metric, file: seq<byte>, chunks: seq<Span>): seq<Element> {
    if chunks == [] then []
    else
      var c, rest := chunks[|chunks| - 1], chunks[..|chunks| - 1];
      var item := m.matches(Bytes(file, c));
      Values(m, file, rest) + if item.Some? then [Offered(m, item.value, c.to, 0)] else []
  }

  lemma {:induction false} ValuesConcat(m: Metric, file: seq<byte>, a: seq<Span>, b: seq<Span>)
    ensures Values(m, file, a + b) == Values(m, file, a) + Values(m, file, b)
  {
    if b == [] {
      assert a + b == a;
    } else {
      ValuesConcat(m, file, a, b[..|b| - 1]);
      assert (a + b)[..|a + b| - 1] == a + b[..|b| - 1];
    }
  }

  /** A value of the metric's item. */
  predicate Own(m: Metric, e: Element) {
    e.host == m.host && e.key == m.key
  }

  /** The values among es that belong to the metric's item; the time of buffering is left out. */
  function OfItem(m: Metric, es: seq<Element>): seq<Element> {
    if es == [] then []
    else
      var e := es[|es| - 1];
      OfItem(m, es[..|es| - 1]) + if Own(m, e) then [e.(stamp := 0)] else []
  }

  lemma OfItemAppend(m: Metric, es: seq<Element>, e: Element)
    ensures OfItem(m, es + [e]) ==
            OfItem(m, es) + if Own(m, e) then [e.(stamp := 0)] else []
  {
    assert (es + [e])[..|es|] == es;
  }

  lemma {:induction false} RunFront(cfg: Config, h: History, op: Op, ops: seq<Op>)
    ensures Run(cfg, h, [op] + ops) == Run(cfg, Step(cfg, h, op), ops)
  {
    var all := [op] + ops;
    if ops == [] {
      assert all[..|all| - 1] == [] && all[|all| - 1] == op;
    } else {
      RunFront(cfg, h, op, ops[..|ops| - 1]);
      assert all[..|all| - 1] == [op] + ops[..|ops| - 1];
    }
  }

  /** Offering a line's value: the buffer accepts it once or refuses it. */
  lemma OfferSteps(m: Metric, cfg: Config, h: History, w: World, item: string, to: nat)
    ensures var e := Offered(m, item, to, w.now);
            var g := Step(cfg, h, ProcessValue(e, w.now, w.delivered));
            && g.st == Process(cfg, h.st, e, w.now, w.delivered)
            && OfItem(m, g.accepted) ==
               OfItem(m, h.accepted) + if Refuses(cfg, h.st, e, w) then [] else [Offered(m, item, to, 0)]
  {
    OfItemAppend(m, h.accepted, Offered(m, item, to, w.now));
  }

  lemma ValuesFront(m: Metric, file: seq<byte>, c: Span, rest: seq<Span>)
    ensures var item := m.matches(Bytes(file, c));
            Values(m, file, [c] + rest) ==
            (if item.Some? then [Offered(m, item.value, c.to, 0)] else []) + Values(m, file, rest)
  {
    ValuesConcat(m, file, [c], rest);
    assert [c][..0] == [];
  }

  /** The lines that match, in order. */
  function Matching(m: Metric, file: seq<byte>, chunks: seq<Span>): seq<Span> {
    if chunks == [] then []
    else
      var c := chunks[|chunks| - 1];
      Matching(m, file, chunks[..|chunks| - 1]) +
      if c.from <= c.to <= |file| && m.matches(file[c.from..c.to]).Some? then [c] else []
  }

  /** The value of a line: what matching its bytes gives, with the position behind it, not to be lost. */
  predicate IsValueOf(m: Metric, file: seq<byte>, c: Span, e: Element) {
    && c.from <= c.to <= |file|
    && e.host == m.host && e.key == m.key
    && e.value.Some? && e.value == m.matches(file[c.from..c.to])
    && e.lastlogsize == c.to && e.persistent
    && e.details == Details(0, 0, None, 0, 0)
  }

  /** One value for each line. */
  ghost predicate AreValuesOf(m: Metric, file: seq<byte>, lines: seq<Span>, es: seq<Element>) {
    |es| == |lines| && forall i :: 0 <= i < |es| ==> IsValueOf(m, file, lines[i], es[i])
  }

  ghost predicate Inside(file: seq<byte>, chunks: seq<Span>) {
    forall i :: 0 <= i < |chunks| ==> chunks[i].from <= chunks[i].to <= |file|
  }

  lemma {:induction false} ValuesAreOfLines(m: Metric, file: seq<byte>, chunks: seq<Span>)
    requires Inside(file, chunks)
    ensures AreValuesOf(m, file, Matching(m, file, chunks), Values(m, file, chunks))
  {
    if chunks != [] { ValuesAreOfLines(m, file, chunks[..|chunks| - 1]); }
  }

  lemma {:induction false} TilesInside(file: seq<byte>, chunks: seq<Span>, from: nat, to: nat)
    requires Tiles(chunks, from, to) && to <= |file|
    ensures Inside(file, chunks) && from <= to
  {
    if chunks != [] { TilesInside(file, chunks[1..], chunks[0].to, to); }
  }

  /** The buffer is now st, and since before the buffer has accepted just the matching lines. */
  ghost predicate Fed(m: Metric, file: seq<byte>, before: seq<Element>, g: History, st: State, chunks: seq<Span>) {
    g.st == st && OfItem(m, g.accepted) == before + Values(m, file, chunks)
  }

  /** The buffer the check ends with is the one its offers lead to, and what it accepted are the matching lines. */
  ghost predicate Feeds(m: Metric, cfg: Config, file: seq<byte>, h: History, o: Outcome) {
    Fed(m, file, OfItem(m, h.accepted), Run(cfg, h, o.ops), o.final.st, o.chunks)
  }

  lemma FedMore(m: Metric, file: seq<byte>, before: seq<Element>, one: seq<Element>, g: History, st: State, c: Span,
                chunks: seq<Span>)
    requires Fed(m, file, before + one, g, st, chunks)
    requires var item := m.matches(Bytes(file, c)); one == if item.Some? then [Offered(m, item.value, c.to, 0)] else []
    ensures Fed(m, file, before, g, st, [c] + chunks)
  {
    var values := Values(m, file, chunks);
    ValuesFront(m, file, c, chunks);
    assert before + (one + values) == (before + one) + values;
  }

  lemma FeedsSkipped(m: Metric, cfg: Config, file: seq<byte>, h: History, c: Span, o: Outcome)
    requires Feeds(m, cfg, file, h, o) && m.matches(Bytes(file, c)).None?
    ensures Feeds(m, cfg, file, h, Consumed(c, [], o))
  {
    var before := OfItem(m, h.accepted);
    assert before + [] == before && [] + o.ops == o.ops;
    FedMore(m, file, before, [], Run(cfg, h, o.ops), o.final.st, c, o.chunks);
  }

  lemma FeedsAccepted(m: Metric, cfg: Config, file: seq<byte>, h: History, w: World, c: Span, o: Outcome)
    requires m.matches(Bytes(file, c)).Some?
    requires var e := Offered(m, m.matches(Bytes(file, c)).value, c.to, w.now);
             && !Refuses(cfg, h.st, e, w)
             && Feeds(m, cfg, file, Step(cfg, h, ProcessValue(e, w.now, w.delivered)), o)
    ensures var e := Offered(m, m.matches(Bytes(file, c)).value, c.to, w.now);
            Feeds(m, cfg, file, h, Consumed(c, [ProcessValue(e, w.now, w.delivered)], o))
  {
    var item := m.matches(Bytes(file, c)).value;
    var op := ProcessValue(Offered(m, item, c.to, w.now), w.now, w.delivered);
    var g, before, one := Step(cfg, h, op), OfItem(m, h.accepted), [Offered(m, item, c.to, 0)];
    OfferSteps(m, cfg, h, w, item, c.to);
    RunFront(cfg, h, op, o.ops);
    FedMore(m, file, before, one, Run(cfg, g, o.ops), o.final.st, c, o.chunks);
  }

  /** A refusal leaves a matching line for later: it begins at lastlogsize, and the buffer is too full of persistent
      values to take it. */
  ghost predicate LeftBehind(m: Metric, cfg: Config, w: World, f: Final) {
    && Usable(w)
    && var line := Reading(w, f.lastlogsize, m.units, false);
       && line.Text? && line.from == f.lastlogsize
       && m.matches(line.bytes).Some?
       && f.st.pcount >= cfg.size / 2
  }

  /** A refusal ends the check at the first byte of the line that the last reading found. */
  ghost predicate StopsBefore(m: Metric, cfg: Config, world: nat -> World, k: nat, o: Outcome) {
    o.final.refused ==> o.calls > 0 && LeftBehind(m, cfg, world(k + o.calls - 1), o.final)
  }

  /** The consumed lines follow on from start to where lastlogsize is left, inside what has been seen. */
  ghost predicate Covers(m: Metric, world: nat -> World, k: nat, start: nat, o: Outcome) {
    && o.final.supported && !o.final.skip
    && Tiles(o.chunks, start, o.final.lastlogsize)
    && o.final.lastlogsize <= Seen(world(k + o.calls)) && Aligned(m.units, o.final.lastlogsize)
  }

  /** What the readings from the k-th on come to when they begin at start with the buffer h. */
  ghost predicate Follows(m: Metric, cfg: Config, world: nat -> World, file: seq<byte>, k: nat, start: nat,
                          h: History, o: Outcome) {
    forall i {:trigger Unfolded(i)} :: i == k && Unfolded(i) ==>
      && Covers(m, world, i, start, o)
      && Feeds(m, cfg, file, h, o)
      && StopsBefore(m, cfg, world, i, o)
  }

  lemma FollowsNothing(m: Metric, cfg: Config, world: nat -> World, file: seq<byte>, k: nat, start: nat, h: History,
                       calls: nat)
    requires start <= Seen(world(k + calls)) && Aligned(m.units, start)
    ensures Follows(m, cfg, world, file, k, start, h, Outcome(Final(start, false, true, false, h.st), [], [], calls))
  {
  }

  lemma FollowsRefusal(m: Metric, cfg: Config, world: nat -> World, file: seq<byte>, k: nat, start: nat, h: History,
                       item: string, to: nat)
    requires start <= Seen(world(k + 1)) && Aligned(m.units, start)
    requires var w := world(k);
             var e := Offered(m, item, to, w.now);
             && Refuses(cfg, h.st, e, w)
             && LeftBehind(m, cfg, w, Final(start, false, true, true, Process(cfg, h.st, e, w.now, w.delivered)))
    ensures var w := world(k);
            var e := Offered(m, item, to, w.now);
            Follows(m, cfg, world, file, k, start, h,
                    Outcome(Final(start, false, true, true, Process(cfg, h.st, e, w.now, w.delivered)), [],
                            [ProcessValue(e, w.now, w.delivered)], 1))
  {
    var w := world(k);
    var op := ProcessValue(Offered(m, item, to, w.now), w.now, w.delivered);
    OfferSteps(m, cfg, h, w, item, to);
    RunOneMore(cfg, h, [], op);
    assert [] + [op] == [op];
  }

  lemma CoversMore(m: Metric, world: nat -> World, k: nat, c: Span, ops: seq<Op>, o: Outcome)
    requires Covers(m, world, k + 1, c.to, o) && c.from < c.to
    ensures Covers(m, world, k, c.from, Consumed(c, ops, o))
  {
    assert ([c] + o.chunks)[1..] == o.chunks;
  }

  lemma StopsLater(m: Metric, cfg: Config, world: nat -> World, k: nat, c: Span, ops: seq<Op>, o: Outcome)
    requires StopsBefore(m, cfg, world, k + 1, o)
    ensures StopsBefore(m, cfg, world, k, Consumed(c, ops, o))
  {
    assert k + (o.calls + 1) - 1 == k + 1 + o.calls - 1;
  }

  lemma FollowsFrom(m: Metric, cfg: Config, world: nat -> World, file: seq<byte>, k: nat, start: nat, h: History,
                    o: Outcome)
    requires Covers(m, world, k, start, o) && Feeds(m, cfg, file, h, o) && StopsBefore(m, cfg, world, k, o)
    ensures Follows(m, cfg, world, file, k, start, h, o)
  {
  }

  lemma FollowsSkipped(m: Metric, cfg: Config, world: nat -> World, file: seq<byte>, k: nat, c: Span, h: History,
                       o: Outcome)
    requires Follows(m, cfg, world, file, k + 1, c.to, h, o)
    requires c.from < c.to && m.matches(Bytes(file, c)).None?
    ensures Follows(m, cfg, world, file, k, c.from, h, Consumed(c, [], o))
  {
    assert Unfolded(k + 1);
    CoversMore(m, world, k, c, [], o);
    FeedsSkipped(m, cfg, file, h, c, o);
    StopsLater(m, cfg, world, k, c, [], o);
    FollowsFrom(m, cfg, world, file, k, c.from, h, Consumed(c, [], o));
  }

  lemma FollowsAccepted(m: Metric, cfg: Config, world: nat -> World, file: seq<byte>, k: nat, c: Span, h: History,
                        item: string, o: Outcome)
    requires c.from < c.to && m.matches(Bytes(file, c)) == Some(item)
    requires var w := world(k);
             var e := Offered(m, item, c.to, w.now);
             && !Refuses(cfg, h.st, e, w)
             && Follows(m, cfg, world, file, k + 1, c.to, Step(cfg, h, ProcessValue(e, w.now, w.delivered)), o)
    ensures var w := world(k);
            var e := Offered(m, item, c.to, w.now);
            Follows(m, cfg, world, file, k, c.from, h, Consumed(c, [ProcessValue(e, w.now, w.delivered)], o))
  {
    var w := world(k);
    var op := ProcessValue(Offered(m, item, c.to, w.now), w.now, w.delivered);
    assert Unfolded(k + 1);
    CoversMore(m, world, k, c, [op], o);
    FeedsAccepted(m, cfg, file, h, w, c, o);
    StopsLater(m, cfg, world, k, c, [op], o);
    FollowsFrom(m, cfg, world, file, k, c.from, h, Consumed(c, [op], o));
  }

  lemma {:induction false} WalkFollows(m: Metric, cfg: Config, world: nat -> World, file: seq<byte>, k: nat,
                                       lastlogsize: nat, skip: bool, h: History, s: nat, p: nat)
    requires Growing(world, file) && Untorn(world, m.units) && (p == 0 || p < 4 * m.limit)
    requires lastlogsize <= Seen(world(k)) && Aligned(m.units, if skip then Seen(world(k)) else lastlogsize)
    ensures Follows(m, cfg, world, file, k, if skip then Seen(world(k)) else lastlogsize, h,
                    Walk(m, cfg, world, k, lastlogsize, skip, h.st, s, p))
    decreases Budget(m, p), 1
  {
    var w := world(k);
    assert Before(k, k + 1);
    ReadingFollows(w, file, lastlogsize, m.units, skip);
    match Reading(w, lastlogsize, m.units, skip) {
      case AtEnd(at) => FollowsNothing(m, cfg, world, file, k, at, h, 1);
      case Text(from, to, bytes) =>
        assert bytes == Bytes(file, Span(from, to));
        TakeFollows(m, cfg, world, file, k, Span(from, to), h, s, p);
    }
  }

  lemma {:induction false} TakeFollows(m: Metric, cfg: Config, world: nat -> World, file: seq<byte>, k: nat, c: Span,
                                       h: History, s: nat, p: nat)
    requires Growing(world, file) && Untorn(world, m.units) && (p == 0 || p < 4 * m.limit)
    requires Aligned(m.units, c.from) && Aligned(m.units, c.to) && c.to <= Seen(world(k + 1))
    requires Reading(world(k), c.from, m.units, false) == Text(c.from, c.to, Bytes(file, c)) && c.from < c.to
    ensures Follows(m, cfg, world, file, k, c.from, h,
                    Take(m, cfg, world, k, c.from, c.from, c.to, m.matches(Bytes(file, c)), h.st, s, p))
    decreases Budget(m, p), 0
  {
    var w := world(k);
    match m.matches(Bytes(file, c)) {
      case None => PassedOver(m, cfg, world, file, k, c, h, s, p + 1);
      case Some(item) =>
        if Refuses(cfg, h.st, Offered(m, item, c.to, w.now), w) {
          RefusedLine(m, cfg, w, c, h, item, file);
          FollowsRefusal(m, cfg, world, file, k, c.from, h, item, c.to);
        } else {
          TakenUp(m, cfg, world, file, k, c, h, item, s + 1, p + 1);
        }
    }
  }

  lemma RefusedLine(m: Metric, cfg: Config, w: World, c: Span, h: History, item: string, file: seq<byte>)
    requires Usable(w) && m.matches(Bytes(file, c)) == Some(item)
    requires Reading(w, c.from, m.units, false) == Text(c.from, c.to, Bytes(file, c))
    requires Refuses(cfg, h.st, Offered(m, item, c.to, w.now), w)
    ensures var e := Offered(m, item, c.to, w.now);
            LeftBehind(m, cfg, w, Final(c.from, false, true, true, Process(cfg, h.st, e, w.now, w.delivered)))
  {
  }

  lemma {:induction false} PassedOver(m: Metric, cfg: Config, world: nat -> World, file: seq<byte>, k: nat, c: Span,
                                      h: History, s: nat, p: nat)
    requires Growing(world, file) && Untorn(world, m.units) && p > 0
    requires c.from < c.to <= Seen(world(k + 1)) && Aligned(m.units, c.to) && m.matches(Bytes(file, c)).None?
    ensures Follows(m, cfg, world, file, k, c.from, h,
                    Consumed(c, [], Continue(m, cfg, world, k, c.to, h.st, s, p)))
    decreases Budget(m, p), 3
  {
    ContinueFollows(m, cfg, world, file, k, c.to, h, s, p);
    FollowsSkipped(m, cfg, world, file, k, c, h, Continue(m, cfg, world, k, c.to, h.st, s, p));
  }

  lemma {:induction false} TakenUp(m: Metric, cfg: Config, world: nat -> World, file: seq<byte>, k: nat, c: Span,
                                   h: History, item: string, s: nat, p: nat)
    requires Growing(world, file) && Untorn(world, m.units) && p > 0
    requires c.from < c.to <= Seen(world(k + 1)) && Aligned(m.units, c.to) && m.matches(Bytes(file, c)) == Some(item)
    requires var w := world(k); !Refuses(cfg, h.st, Offered(m, item, c.to, w.now), w)
    ensures var w := world(k);
            var e := Offered(m, item, c.to, w.now);
            Follows(m, cfg, world, file, k, c.from, h,
                    Consumed(c, [ProcessValue(e, w.now, w.delivered)],
                             Continue(m, cfg, world, k, c.to, Process(cfg, h.st, e, w.now, w.delivered), s, p)))
    decreases Budget(m, p), 3
  {
    var w := world(k);
    var g := Step(cfg, h, ProcessValue(Offered(m, item, c.to, w.now), w.now, w.delivered));
    OfferSteps(m, cfg, h, w, item, c.to);
    ContinueFollows(m, cfg, world, file, k, c.to, g, s, p);
    FollowsAccepted(m, cfg, world, file, k, c, h, item, Continue(m, cfg, world, k, c.to, g.st, s, p));
  }

  lemma {:induction false} ContinueFollows(m: Metric, cfg: Config, world: nat -> World, file: seq<byte>, k: nat,
                                           lastlogsize: nat, h: History, s: nat, p: nat)
    requires Growing(world, file) && Untorn(world, m.units) && p > 0
    requires lastlogsize <= Seen(world(k + 1)) && Aligned(m.units, lastlogsize)
    ensures Follows(m, cfg, world, file, k + 1, lastlogsize, h, Continue(m, cfg, world, k, lastlogsize, h.st, s, p))
    decreases Budget(m, p), 2
  {
    if s < m.limit && p < 4 * m.limit {
      WalkFollows(m, cfg, world, file, k + 1, lastlogsize, false, h, s, p);
    } else {
      FollowsNothing(m, cfg, world, file, k + 1, lastlogsize, h, 0);
    }
  }

  /** One check of a file that only grows: the lines it consumes tile the file from where it starts up to the new
      lastlogsize, the buffer accepts exactly the matching ones, in order, and a refused line is left for later. */
  lemma CheckFollows(m: Metric, cfg: Config, world: nat -> World, file: seq<byte>, lastlogsize: nat, skip: bool,
                     h: History)
    requires Growing(world, file) && Untorn(world, m.units)
    requires lastlogsize <= Seen(world(0)) && Aligned(m.units, if skip then Seen(world(0)) else lastlogsize)
    ensures var o := Walk(m, cfg, world, 0, lastlogsize, skip, h.st, 0, 0);
            && Covers(m, world, 0, if skip then Seen(world(0)) else lastlogsize, o)
            && Feeds(m, cfg, file, h, o)
            && StopsBefore(m, cfg, world, 0, o)
            && AreValuesOf(m, file, Matching(m, file, o.chunks), Values(m, file, o.chunks))
  {
    WalkFollows(m, cfg, world, file, 0, lastlogsize, skip, h, 0, 0);
    assert Unfolded(0);
    var o := Walk(m, cfg, world, 0, lastlogsize, skip, h.st, 0, 0);
    SeenInside(world, file, o.calls);
    TilesInside(file, o.chunks, if skip then Seen(world(0)) else lastlogsize, o.final.lastlogsize);
    ValuesAreOfLines(m, file, o.chunks);
  }

  lemma SeenInside(world: nat -> World, file: seq<byte>, i: nat)
    requires Growing(world, file)
    ensures Seen(world(i)) <= |file|
  {
    assert Before(i, i);
  }

  // ----- Why a check ends

  /** The value of its item that reports the metric as not supported. */
  predicate IsComplaint(m: Metric, lastlogsize: nat, now: int, e: Element) {
    e == Element(m.host, m.key, None, lastlogsize, now, false, Details(0, 0, None, 0, 0))
  }

  /** Not even one unit of the file is behind at. */
  predicate EndReached(w: World, u: Units, at: nat) {
    w.file.Some? && at <= |w.file.value| < at + Size(u)
  }

  /** The last reading failed, and the complaint about it is the last value in the buffer; or the buffer refused a value
      for being half persistent; or one of the two limits or the end of the file is reached. */
  ghost predicate EndsFor(m: Metric, cfg: Config, world: nat -> World, k: nat, s: nat, p: nat, o: Outcome) {
    var f, last := o.final, k + o.calls - 1;
    if !f.supported then
      && o.calls > 0 && world(last).file.None? && |o.ops| > 0 && |f.st.buf| > 0
      && var w, e := world(last), f.st.buf[|f.st.buf| - 1];
         IsComplaint(m, f.lastlogsize, w.now, e) && o.ops[|o.ops| - 1] == ProcessValue(e, w.now, w.delivered)
    else
      || (f.refused && f.st.pcount >= cfg.size / 2)
      || s + |o.ops| >= m.limit || p + |o.chunks| >= 4 * m.limit
      || (o.calls > 0 && EndReached(world(last), m.units, f.lastlogsize))
  }

  /** The operation offers a value of the metric's item with the time and the sending outcome of the j-th reading. */
  ghost predicate OfReading(m: Metric, w: World, op: Op) {
    op.ProcessValue? && op.now == op.e.stamp == w.now && op.delivered == w.delivered && Own(m, op.e)
  }

  ghost predicate OfSomeReading(m: Metric, world: nat -> World, k: nat, n: nat, op: Op) {
    exists j :: k <= j < k + n && OfReading(m, world(j), op)
  }

  ghost predicate OfReadings(m: Metric, world: nat -> World, k: nat, n: nat, ops: seq<Op>) {
    forall i :: 0 <= i < |ops| ==> OfSomeReading(m, world, k, n, ops[i])
  }

  lemma EndsForLater(m: Metric, cfg: Config, world: nat -> World, k: nat, s: nat, p: nat, c: Span, ops: seq<Op>,
                     o: Outcome)
    requires EndsFor(m, cfg, world, k + 1, s + |ops|, p + 1, o)
    ensures EndsFor(m, cfg, world, k, s, p, Consumed(c, ops, o))
  {
    assert k + 1 + o.calls - 1 == k + (o.calls + 1) - 1;
  }

  lemma OfReadingsLater(m: Metric, world: nat -> World, k: nat, n: nat, first: seq<Op>, ops: seq<Op>)
    requires OfReadings(m, world, k + 1, n, ops) && |first| <= 1
    requires forall i :: 0 <= i < |first| ==> OfReading(m, world(k), first[i])
    ensures OfReadings(m, world, k, n + 1, first + ops)
  {
    var all := first + ops;
    forall i | 0 <= i < |all|
      ensures OfSomeReading(m, world, k, n + 1, all[i])
    {
      if i < |first| {
        assert OfReading(m, world(k), all[i]);
      } else {
        assert OfSomeReading(m, world, k + 1, n, ops[i - |first|]);
      }
    }
  }

  lemma {:induction false} WalkEnds(m: Metric, cfg: Config, world: nat -> World, k: nat, lastlogsize: nat, skip: bool,
                                    st: State, s: nat, p: nat)
    requires Worlds(world) && (p == 0 || p < 4 * m.limit)
    ensures var o := Walk(m, cfg, world, k, lastlogsize, skip, st, s, p);
            EndsFor(m, cfg, world, k, s, p, o) && OfReadings(m, world, k, o.calls, o.ops)
    decreases Budget(m, p), 1
  {
    var w := world(k);
    match Reading(w, lastlogsize, m.units, skip) {
      case Unreadable =>
        assert OfReading(m, world(k), ProcessValue(Complaint(m, lastlogsize, w.now), w.now, w.delivered));
      case AtEnd(at) =>
        var at := Origin(w.file.value, lastlogsize, skip);
        LineLengthInside(Filled(w.file.value, at, w.stale), m.units, Available(w.file.value, at));
      case Text(from, to, bytes) =>
        TakeEnds(m, cfg, world, k, lastlogsize, from, to, m.matches(bytes), st, s, p);
    }
  }

  lemma {:induction false} TakeEnds(m: Metric, cfg: Config, world: nat -> World, k: nat, lastlogsize: nat,
                                    from: nat, to: nat, item: Option<string>, st: State, s: nat, p: nat)
    requires Worlds(world) && (p == 0 || p < 4 * m.limit)
    ensures var o := Take(m, cfg, world, k, lastlogsize, from, to, item, st, s, p);
            EndsFor(m, cfg, world, k, s, p, o) && OfReadings(m, world, k, o.calls, o.ops)
    decreases Budget(m, p), 0
  {
    match item {
      case None => GoingOnEnds(m, cfg, world, k, Span(from, to), [], st, s, p + 1);
      case Some(value) =>
        var w := world(k);
        var e := Offered(m, value, to, w.now);
        var op := ProcessValue(e, w.now, w.delivered);
        assert OfReading(m, w, op);
        if Refuses(cfg, st, e, w) {
          assert OfSomeReading(m, world, k, 1, op);
        } else {
          GoingOnEnds(m, cfg, world, k, Span(from, to), [op], Process(cfg, st, e, w.now, w.delivered), s, p + 1);
        }
    }
  }

  lemma ConsumedEnds(m: Metric, cfg: Config, world: nat -> World, k: nat, c: Span, first: seq<Op>, s: nat, p: nat,
                     o: Outcome)
    requires |first| <= 1 && forall i :: 0 <= i < |first| ==> OfReading(m, world(k), first[i])
    requires EndsFor(m, cfg, world, k + 1, s + |first|, p + 1, o) && OfReadings(m, world, k + 1, o.calls, o.ops)
    ensures var e := Consumed(c, first, o);
            EndsFor(m, cfg, world, k, s, p, e) && OfReadings(m, world, k, e.calls, e.ops)
  {
    EndsForLater(m, cfg, world, k, s, p, c, first, o);
    OfReadingsLater(m, world, k, o.calls, first, o.ops);
  }

  lemma {:induction false} ContinueEnds(m: Metric, cfg: Config, world: nat -> World, k: nat, to: nat, st: State,
                                        s: nat, p: nat)
    requires Worlds(world) && p > 0
    ensures var o := Continue(m, cfg, world, k, to, st, s, p);
            EndsFor(m, cfg, world, k + 1, s, p, o) && OfReadings(m, world, k + 1, o.calls, o.ops)
    decreases Budget(m, p), 2
  {
    if s < m.limit && p < 4 * m.limit { WalkEnds(m, cfg, world, k + 1, to, false, st, s, p); }
  }

  lemma {:induction false} GoingOnEnds(m: Metric, cfg: Config, world: nat -> World, k: nat, c: Span, first: seq<Op>,
                                       st: State, s: nat, p: nat)
    requires Worlds(world) && p > 0 && |first| <= 1
    requires forall i :: 0 <= i < |first| ==> OfReading(m, world(k), first[i])
    ensures var o := Consumed(c, first, Continue(m, cfg, world, k, c.to, st, s + |first|, p));
            EndsFor(m, cfg, world, k, s, p - 1, o) && OfReadings(m, world, k, o.calls, o.ops)
    decreases Budget(m, p), 3
  {
    ContinueEnds(m, cfg, world, k, c.to, st, s + |first|, p);
    ConsumedEnds(m, cfg, world, k, c, first, s, p - 1, Continue(m, cfg, world, k, c.to, st, s + |first|, p));
  }

  /** A check only ends for one of these reasons, and each value it offers has the time of its reading. */
  lemma CheckEnds(m: Metric, cfg: Config, world: nat -> World, lastlogsize: nat, skip: bool, st: State)
    requires Worlds(world)
    ensures var o := Walk(m, cfg, world, 0, lastlogsize, skip, st, 0, 0);
            EndsFor(m, cfg, world, 0, 0, 0, o) && OfReadings(m, world, 0, o.calls, o.ops)
  {
    WalkEnds(m, cfg, world, 0, lastlogsize, skip, st, 0, 0);
  }

  // ----- How much a check reads

  /** Whatever the file holds, a check consumes at most 4 * limit lines and offers at most limit values, or one of
      each if the limit is zero. */
  lemma NoFlood(m: Metric, cfg: Config, world: nat -> World, lastlogsize: nat, skip: bool, st: State)
    requires Worlds(world)
    ensures var o := Walk(m, cfg, world, 0, lastlogsize, skip, st, 0, 0);
            && |o.chunks| <= (if m.limit == 0 then 1 else 4 * m.limit)
            && |o.ops| <= (if m.limit == 0 then 1 else m.limit)
            && o.calls <= |o.chunks| + 1
  {
    WalkBounded(m, cfg, world, 0, lastlogsize, skip, st, 0, 0);
  }

  function MayRead(m: Metric, p: nat): nat {
    if p < 4 * m.limit then 4 * m.limit - p else 1
  }

  function MayOffer(m: Metric, s: nat): nat {
    if s < m.limit then m.limit - s else 1
  }

  lemma {:induction false} WalkBounded(m: Metric, cfg: Config, world: nat -> World, k: nat, lastlogsize: nat, skip: bool,
                                       st: State, s: nat, p: nat)
    requires Worlds(world) && (p == 0 || p < 4 * m.limit)
    ensures var o := Walk(m, cfg, world, k, lastlogsize, skip, st, s, p);
            |o.chunks| <= MayRead(m, p) && |o.ops| <= MayOffer(m, s) && o.calls <= |o.chunks| + 1
    decreases Budget(m, p), 1
  {
    var w := world(k);
    match Reading(w, lastlogsize, m.units, skip) {
      case Text(from, to, bytes) =>
        TakeBounded(m, cfg, world, k, lastlogsize, from, to, m.matches(bytes), st, s, p);
      case _ =>
    }
  }

  lemma {:induction false} TakeBounded(m: Metric, cfg: Config, world: nat -> World, k: nat, lastlogsize: nat,
                                       from: nat, to: nat, item: Option<string>, st: State, s: nat, p: nat)
    requires Worlds(world) && (p == 0 || p < 4 * m.limit)
    ensures var o := Take(m, cfg, world, k, lastlogsize, from, to, item, st, s, p);
            |o.chunks| <= MayRead(m, p) && |o.ops| <= MayOffer(m, s) && o.calls <= |o.chunks| + 1
    decreases Budget(m, p), 0
  {
    var w := world(k);
    var st' := if item.None? then st else Process(cfg, st, Offered(m, item.value, to, w.now), w.now, w.delivered);
    var s' := if item.None? then s else s + 1;
    if p + 1 < 4 * m.limit && s' < m.limit { WalkBounded(m, cfg, world, k + 1, to, false, st', s', p + 1); }
  }

  // ----- Any number of checks

  /** What happens to the buffer before a check, and the check's readings. */
  datatype Round = Round(before: seq<Op>, world: nat -> World)

  /** The metric and the buffer between two checks, and all lines consumed. */
  datatype Course = Course(lastlogsize: nat, skip: bool, h: History, chunks: seq<Span>)

  ghost function Checked(m: Metric, cfg: Config, c: Course, r: Round): Course
    requires Worlds(r.world)
  {
    var h := Run(cfg, c.h, r.before);
    var o := Walk(m, cfg, r.world, 0, c.lastlogsize, c.skip, h.st, 0, 0);
    Course(o.final.lastlogsize, o.final.skip, Run(cfg, h, o.ops), c.chunks + o.chunks)
  }

  ghost function Rounds(m: Metric, cfg: Config, c: Course, rounds: seq<Round>): Course
    requires forall r :: r in rounds ==> Worlds(r.world)
  {
    if rounds == [] then c
    else
      var last := |rounds| - 1;
      Checked(m, cfg, Rounds(m, cfg, c, rounds[..last]), rounds[last])
  }

  /** Other checks put no values of this metric's item into the buffer. */
  predicate Foreign(m: Metric, ops: seq<Op>) {
    forall op :: op in ops && op.ProcessValue? ==> !Own(m, op.e)
  }

  ghost predicate Proper(m: Metric, file: seq<byte>, r: Round) {
    Growing(r.world, file) && Untorn(r.world, m.units) && Foreign(m, r.before)
  }

  /** The file grows from check to check as well. */
  ghost predicate Later(a: Round, b: Round) {
    forall i :: Seen(a.world(i)) <= Seen(b.world(0))
  }

  ghost predicate SeenUpTo(r: Round, at: nat) {
    exists i :: at <= Seen(r.world(i))
  }

  ghost predicate AllProper(m: Metric, file: seq<byte>, rounds: seq<Round>) {
    && (forall a :: 0 <= a < |rounds| ==> Proper(m, file, rounds[a]))
    && (forall a, b :: 0 <= a < b < |rounds| ==> Later(rounds[a], rounds[b]))
  }

  /** Where the first check begins. */
  function Beginning(lastlogsize: nat, skip: bool, first: Round): nat {
    if skip then Seen(first.world(0)) else lastlogsize
  }

  ghost predicate MayBegin(m: Metric, lastlogsize: nat, skip: bool, first: Round) {
    lastlogsize <= Seen(first.world(0)) && Aligned(m.units, Beginning(lastlogsize, skip, first))
  }

  lemma {:induction false} ForeignAdds(m: Metric, cfg: Config, h: History, ops: seq<Op>)
    requires Foreign(m, ops)
    ensures OfItem(m, Run(cfg, h, ops).accepted) == OfItem(m, h.accepted)
  {
    if ops != [] {
      var op, before := ops[|ops| - 1], ops[..|ops| - 1];
      ForeignAdds(m, cfg, h, before);
      if op.ProcessValue? { OfItemAppend(m, Run(cfg, h, before).accepted, op.e); }
    }
  }

  lemma {:induction false} RunKeepsSound(cfg: Config, h: History, ops: seq<Op>)
    requires Sound(cfg, h)
    ensures Sound(cfg, Run(cfg, h, ops))
  {
    if ops != [] {
      RunKeepsSound(cfg, h, ops[..|ops| - 1]);
      StepKeepsSound(cfg, Run(cfg, h, ops[..|ops| - 1]), ops[|ops| - 1]);
    }
  }

  /** All lines so far tile the file from start, and the buffer has accepted exactly the matching ones. */
  ghost predicate Complete(m: Metric, file: seq<byte>, start: nat, c: Course) {
    && Tiles(c.chunks, start, c.lastlogsize)
    && OfItem(m, c.h.accepted) == Values(m, file, c.chunks)
  }

  lemma CheckCompletes(m: Metric, cfg: Config, file: seq<byte>, start: nat, c: Course, r: Round)
    requires Proper(m, file, r) && c.lastlogsize <= Seen(r.world(0))
    requires Aligned(m.units, if c.skip then Seen(r.world(0)) else c.lastlogsize)
    requires if c.chunks == [] && OfItem(m, c.h.accepted) == [] then start == Beginning(c.lastlogsize, c.skip, r)
             else !c.skip && Complete(m, file, start, c)
    ensures var d := Checked(m, cfg, c, r);
            && Complete(m, file, start, d) && !d.skip && Aligned(m.units, d.lastlogsize)
            && SeenUpTo(r, d.lastlogsize)
  {
    var h := Run(cfg, c.h, r.before);
    ForeignAdds(m, cfg, c.h, r.before);
    CheckFollows(m, cfg, r.world, file, c.lastlogsize, c.skip, h);
    var o := Walk(m, cfg, r.world, 0, c.lastlogsize, c.skip, h.st, 0, 0);
    ValuesConcat(m, file, c.chunks, o.chunks);
    if c.chunks == [] {
      assert c.chunks + o.chunks == o.chunks;
    }
    TilesConcat(c.chunks, o.chunks, start, if c.skip then start else c.lastlogsize, o.final.lastlogsize);
  }

  /** Any number of checks: the lines tile the file, and the accepted values of the item are those of the matching
      lines. */
  lemma RoundsComplete(m: Metric, cfg: Config, file: seq<byte>, c: Course, rounds: seq<Round>)
    requires rounds != [] && AllProper(m, file, rounds)
    requires c.chunks == [] && OfItem(m, c.h.accepted) == [] && MayBegin(m, c.lastlogsize, c.skip, rounds[0])
    ensures var d := Rounds(m, cfg, c, rounds);
            && Complete(m, file, Beginning(c.lastlogsize, c.skip, rounds[0]), d)
            && !d.skip && Aligned(m.units, d.lastlogsize)
            && SeenUpTo(rounds[|rounds| - 1], d.lastlogsize)
            && AreValuesOf(m, file, Matching(m, file, d.chunks), OfItem(m, d.h.accepted))
  {
    RoundsTile(m, cfg, file, c, rounds);
    var d, last := Rounds(m, cfg, c, rounds), rounds[|rounds| - 1];
    var i :| d.lastlogsize <= Seen(last.world(i));
    SeenInside(last.world, file, i);
    TilesInside(file, d.chunks, Beginning(c.lastlogsize, c.skip, rounds[0]), d.lastlogsize);
    ValuesAreOfLines(m, file, d.chunks);
  }

  lemma {:induction false} RoundsTile(m: Metric, cfg: Config, file: seq<byte>, c: Course, rounds: seq<Round>)
    requires rounds != [] && AllProper(m, file, rounds)
    requires c.chunks == [] && OfItem(m, c.h.accepted) == [] && MayBegin(m, c.lastlogsize, c.skip, rounds[0])
    ensures var d := Rounds(m, cfg, c, rounds);
            && Complete(m, file, Beginning(c.lastlogsize, c.skip, rounds[0]), d)
            && !d.skip && Aligned(m.units, d.lastlogsize)
            && SeenUpTo(rounds[|rounds| - 1], d.lastlogsize)
  {
    var last := |rounds| - 1;
    var before, start := rounds[..last], Beginning(c.lastlogsize, c.skip, rounds[0]);
    assert forall a :: 0 <= a < |rounds| ==> Proper(m, file, rounds[a]);
    if last == 0 {
      CheckCompletes(m, cfg, file, start, c, rounds[0]);
    } else {
      RoundsTile(m, cfg, file, c, before);
      var d := Rounds(m, cfg, c, before);
      assert Later(rounds[last - 1], rounds[last]);
      CheckCompletes(m, cfg, file, start, d, rounds[last]);
    }
  }

  lemma AllBelow(s: seq<nat>, last: nat)
    requires Increasing(s) && (s != [] ==> s[|s| - 1] < last || (s[|s| - 1] != last && forall a :: 0 <= a < |s| ==> s[a] <= last))
    ensures forall a :: 0 <= a < |s| ==> s[a] < last
    ensures last !in s
  {
    forall a | 0 <= a < |s|
      ensures s[a] < last
    {
      if a < |s| - 1 { assert s[a] < s[|s| - 1]; }
    }
  }

  lemma PresentBefore(m: Metric, s: seq<nat>, accepted: seq<Element>)
    requires s != [] && s[|s| - 1] + 1 == |accepted|
    requires forall i :: 0 <= i < |accepted| && Own(m, accepted[i]) ==> i in s
    ensures var rest := accepted[..|accepted| - 1];
            forall i :: 0 <= i < |rest| && Own(m, rest[i]) ==> i in s[..|s| - 1]
  {
    var rest, n := accepted[..|accepted| - 1], |s| - 1;
    forall i | 0 <= i < |rest| && Own(m, rest[i])
      ensures i in s[..n]
    {
      assert accepted[i] == rest[i];
      var a :| 0 <= a < |s| && s[a] == i;
      assert s[..n][a] == i;
    }
  }

  lemma NumbersBefore(s: seq<nat>, accepted: seq<Element>, values: seq<Element>)
    requires Increasing(s) && Numbers(s, accepted, values) && s != [] && s[|s| - 1] + 1 == |accepted|
    ensures var n := |s| - 1;
            Increasing(s[..n]) && Numbers(s[..n], accepted[..|accepted| - 1], values[..n])
  {
    var n := |s| - 1;
    assert forall a :: 0 <= a < n ==> s[a] < s[n];
  }

  /** If all values of the item have been delivered or are still buffered, they are there once each and in order. */
  lemma {:induction false} NoneMissing(m: Metric, s: seq<nat>, accepted: seq<Element>, values: seq<Element>)
    requires Increasing(s) && Numbers(s, accepted, values)
    requires forall i :: 0 <= i < |accepted| && Own(m, accepted[i]) ==> i in s
    ensures OfItem(m, values) == OfItem(m, accepted)
    decreases |accepted|
  {
    if accepted != [] {
      var last, n := |accepted| - 1, |s| - 1;
      var rest := accepted[..last];
      if s != [] && s[n] == last {
        PresentBefore(m, s, accepted);
        NumbersBefore(s, accepted, values);
        NoneMissing(m, s[..n], rest, values[..n]);
      } else {
        AllBelow(s, last);
        NoneMissing(m, s, rest, values);
      }
    }
  }

  /** The item's values are all persistent. */
  ghost predicate OwnPersistent(m: Metric, es: seq<Element>) {
    forall i :: 0 <= i < |es| && Own(m, es[i]) ==> es[i].persistent
  }

  ghost predicate AllPersist(es: seq<Element>) {
    forall i :: 0 <= i < |es| ==> es[i].persistent
  }

  lemma AllPersistAppend(es: seq<Element>, e: Element)
    ensures AllPersist(es + [e]) <==> AllPersist(es) && e.persistent
  {
    assert (es + [e])[|es|] == e;
    assert forall i :: 0 <= i < |es| ==> (es + [e])[i] == es[i];
  }

  lemma OwnPersistentAppend(m: Metric, es: seq<Element>, e: Element)
    ensures OwnPersistent(m, es + [e]) <==> OwnPersistent(m, es) && (Own(m, e) ==> e.persistent)
  {
    assert (es + [e])[|es|] == e;
    assert forall i :: 0 <= i < |es| ==> (es + [e])[i] == es[i];
  }

  lemma {:induction false} OfItemPersistent(m: Metric, es: seq<Element>)
    ensures OwnPersistent(m, es) <==> AllPersist(OfItem(m, es))
  {
    if es != [] {
      var rest, e := es[..|es| - 1], es[|es| - 1];
      OfItemPersistent(m, rest);
      assert es == rest + [e];
      OwnPersistentAppend(m, rest, e);
      AllPersistAppend(OfItem(m, rest), e.(stamp := 0));
      OfItemAppend(m, rest, e);
      assert OfItem(m, rest) + [] == OfItem(m, rest);
    }
  }

  lemma {:induction false} ValuesPersist(m: Metric, file: seq<byte>, chunks: seq<Span>)
    ensures AllPersist(Values(m, file, chunks))
  {
    if chunks != [] { ValuesPersist(m, file, chunks[..|chunks| - 1]); }
  }

  lemma {:induction false} RoundsKeepSound(m: Metric, cfg: Config, c: Course, rounds: seq<Round>)
    requires Sound(cfg, c.h) && forall r :: r in rounds ==> Worlds(r.world)
    ensures Sound(cfg, Rounds(m, cfg, c, rounds).h)
  {
    if rounds != [] {
      var last := |rounds| - 1;
      RoundsKeepSound(m, cfg, c, rounds[..last]);
      var d, r := Rounds(m, cfg, c, rounds[..last]), rounds[last];
      var h := Run(cfg, d.h, r.before);
      RunKeepsSound(cfg, d.h, r.before);
      RunKeepsSound(cfg, h, Walk(m, cfg, r.world, 0, d.lastlogsize, d.skip, h.st, 0, 0).ops);
    }
  }

  lemma OwnValuesKept(m: Metric, cfg: Config, h: History)
    requires Sound(cfg, h) && OwnPersistent(m, h.accepted)
    ensures forall i :: 0 <= i < |h.accepted| && Own(m, h.accepted[i]) ==> i in h.sent + h.live
  {
    forall i | 0 <= i < |h.accepted| && Own(m, h.accepted[i])
      ensures i in h.sent + h.live
    {
      forall k | 0 <= k < |h.evictions|
        ensures h.evictions[k].victim != i
      {
        assert Fair(h.accepted, h.evictions[k]);
      }
      assert Kept(h, i);
    }
  }

  /** Any number of checks of a file that only grows, with any sending outcomes and any values of other items in
      between: the lines consumed tile the file from where the first check began up to lastlogsize, and the values
      of the item that the server has got or that are still buffered are the matching ones of these lines, each
      once and in order. */
  lemma LinesArriveOnce(m: Metric, cfg: Config, file: seq<byte>, lastlogsize: nat, skip: bool, now: int,
                        rounds: seq<Round>)
    requires cfg.size >= 2 && rounds != [] && AllProper(m, file, rounds) && MayBegin(m, lastlogsize, skip, rounds[0])
    ensures forall r :: r in rounds ==> Worlds(r.world)
    ensures var d := Rounds(m, cfg, Course(lastlogsize, skip, Start(now), []), rounds);
            && Tiles(d.chunks, Beginning(lastlogsize, skip, rounds[0]), d.lastlogsize)
            && AreValuesOf(m, file, Matching(m, file, d.chunks), OfItem(m, Flatten(d.h.batches) + d.h.st.buf))
  {
    forall r | r in rounds
      ensures Worlds(r.world)
    {
      var a :| 0 <= a < |rounds| && rounds[a] == r;
      assert Proper(m, file, rounds[a]);
    }
    var c := Course(lastlogsize, skip, Start(now), []);
    var d := Rounds(m, cfg, c, rounds);
    RoundsComplete(m, cfg, file, c, rounds);
    RunIsSound(cfg, now, []);
    RoundsKeepSound(m, cfg, c, rounds);
    ValuesPersist(m, file, d.chunks);
    OfItemPersistent(m, d.h.accepted);
    OwnValuesKept(m, cfg, d.h);
    Arrived(m, d.h);
  }

  lemma Arrived(m: Metric, h: History)
    requires InOrder(h)
    requires forall i :: 0 <= i < |h.accepted| && Own(m, h.accepted[i]) ==>
               i in h.sent + h.live
    ensures OfItem(m, Flatten(h.batches) + h.st.buf) == OfItem(m, h.accepted)
  {
    NoneMissing(m, h.sent + h.live, h.accepted, Flatten(h.batches) + h.st.buf);
  }

  // ----- One check on the buffer itself

  /** What the server has got or is still buffered of the metric's item. */
  function Got(m: Metric, h: History): seq<Element> {
    OfItem(m, Flatten(h.batches) + h.st.buf)
  }

  lemma FollowedOnce(m: Metric, cfg: Config, file: seq<byte>, h: History, g: History, chunks: seq<Span>)
    requires Sound(cfg, h) && Sound(cfg, g) && OwnPersistent(m, h.accepted)
    requires OfItem(m, g.accepted) == OfItem(m, h.accepted) + Values(m, file, chunks)
    ensures OwnPersistent(m, g.accepted) && Got(m, g) == Got(m, h) + Values(m, file, chunks)
  {
    ValuesPersist(m, file, chunks);
    OfItemPersistent(m, h.accepted);
    OfItemPersistent(m, g.accepted);
    OwnValuesKept(m, cfg, h);
    OwnValuesKept(m, cfg, g);
    Arrived(m, h);
    Arrived(m, g);
  }

  /** One check of a file that only grows. The history h leads to the buffer as it is, and all values of the item in
      it are persistent; the check continues it by ops. The lines tile the file up to the new lastlogsize, and what
      the server has got or is buffered of the item grows by the values of the matching ones. */
  method FollowLog(check: LogCheck, world: nat -> World, ghost file: seq<byte>, ghost h: History)
      returns (send_err: bool, ghost ops: seq<Op>, ghost lines: seq<Span>)
    requires check.buffer.Valid() && check.supported
    requires Growing(world, file) && Untorn(world, check.m.units) && check.lastlogsize <= Seen(world(0))
    requires Aligned(check.m.units, if check.skip_old_data then Seen(world(0)) else check.lastlogsize)
    requires Sound(check.buffer.cfg, h) && h.st == check.buffer.Now() && OwnPersistent(check.m, h.accepted)
    modifies check, check.buffer, check.buffer.data
    ensures check.buffer.Valid() && check.supported && !check.skip_old_data
    ensures check.lastlogsize <= |file| && Aligned(check.m.units, check.lastlogsize)
    ensures Tiles(lines, if old(check.skip_old_data) then Seen(world(0)) else old(check.lastlogsize), check.lastlogsize)
    ensures var m, g := check.m, Run(check.buffer.cfg, h, ops);
            && Sound(check.buffer.cfg, g) && g.st == check.buffer.Now() && OwnPersistent(m, g.accepted)
            && exists news :: Got(m, g) == Got(m, h) + news && AreValuesOf(m, file, Matching(m, file, lines), news)
    ensures send_err ==> check.buffer.pcount >= check.buffer.cfg.size / 2
  {
    ghost var m, cfg := check.m, check.buffer.cfg;
    ghost var o := Walk(m, cfg, world, 0, check.lastlogsize, check.skip_old_data, h.st, 0, 0);
    CheckFollows(m, cfg, world, file, check.lastlogsize, check.skip_old_data, h);
    ops, lines := o.ops, o.chunks;
    RunKeepsSound(cfg, h, ops);
    FollowedOnce(m, cfg, file, h, Run(cfg, h, ops), lines);
    SeenInside(world, file, o.calls);
    send_err := check.Check(world);
    assert check.Left(send_err) == o.final;
  }
}
