/** Reading a log file line by line and its coupling to the send buffer. */
module LogFile {
  import opened Ctypes
  import opened ActiveBuffer

  // ----- Splitting a buffer at the first line end

  /** The size of a character unit and the order of its bytes. */
  datatype Units = Single | Double(big: bool) | Quad(big: bool)

  function Size(u: Units): (n: nat)
    ensures n > 0
  {
    match u
    case Single => 1
    case Double(_) => 2
    case Quad(_) => 4
  }

  /** What n bytes have beyond whole units. */
  function Rest(u: Units, n: nat): (r: nat)
    ensures r < Size(u) && r <= n
  {
    match u
    case Single => 0
    case Double(_) => n % 2
    case Quad(_) => n % 4
  }

  predicate Aligned(u: Units, n: nat) {
    Rest(u, n) == 0
  }

  lemma AlignedSum(u: Units, a: nat, b: nat)
    requires Aligned(u, b)
    ensures Rest(u, a + b) == Rest(u, a)
  {
    match u {
      case Single =>
      case Double(_) => ModOfSum(a, b / 2, 2);
      case Quad(_) => ModOfSum(a, b / 4, 4);
    }
  }

  lemma ModOfSum(a: nat, q: nat, d: nat)
    requires d > 0
    ensures (a + d * q) % d == a % d
  {
    var k, r := a / d, a % d;
    assert a + d * q == d * (k + q) + r;
    QuotientAndRest(a + d * q, d, k + q, r);
  }

  lemma QuotientAndRest(n: nat, d: nat, q: nat, r: nat)
    requires n == d * q + r && r < d
    ensures n % d == r
  {
    var k := n / d;
    assert n == d * k + n % d;
    MulOrder(d, k, q + 1);
    MulOrder(d, q, k + 1);
  }

  function Code(u: Units, c: byte): (s: seq<byte>)
    ensures |s| == Size(u)
  {
    match u
    case Single => [c]
    case Double(big) => if big then [0, c] else [c, 0]
    case Quad(big) => if big then [0, 0, 0, c] else [c, 0, 0, 0]
  }

  const CR: byte := 13
  const LF: byte := 10

  /** The unit at byte position i is the character c. */
  predicate Is(buf: seq<byte>, u: Units, i: nat, c: byte) {
    i + Size(u) <= |buf| && buf[i..i + Size(u)] == Code(u, c)
  }

  /** The byte position of the first line end, looking from position i, or of what is no whole unit. */
  function FirstEnd(buf: seq<byte>, u: Units, nbytes: nat, i: nat): (e: nat)
    ensures e >= i && (i <= nbytes ==> e <= nbytes)
    decreases nbytes - i
  {
    if i + Size(u) <= nbytes && !Is(buf, u, i, LF) && !Is(buf, u, i, CR) then FirstEnd(buf, u, nbytes, i + Size(u)) else i
  }

  /** The length of the first line with its end, a CR and LF counting as one end. Of the buffer only nbytes have
      been read, but the look behind a CR may take in bytes that have not. */
  function LineLength(buf: seq<byte>, u: Units, nbytes: nat): (n: nat)
    ensures nbytes <= |buf| ==> n <= |buf|
  {
    var e, z := FirstEnd(buf, u, nbytes, 0), Size(u);
    if e + z > nbytes then e
    else if Is(buf, u, e, LF) then e + z
    else if e + z < nbytes && Is(buf, u, e + z, LF) then e + 2 * z
    else e + z
  }

  /** What the unit at n, which no line end precedes, means for the line. */
  lemma ScanStep(s: seq<byte>, u: Units, nbytes: nat, n: nat)
    requires FirstEnd(s, u, nbytes, 0) == FirstEnd(s, u, nbytes, n) && n <= nbytes
    ensures var z := Size(u);
            if n + z > nbytes then LineLength(s, u, nbytes) == n
            else if Is(s, u, n, LF) then LineLength(s, u, nbytes) == n + z
            else if Is(s, u, n, CR) then
              LineLength(s, u, nbytes) == if n + z < nbytes && Is(s, u, n + z, LF) then n + 2 * z else n + z
            else FirstEnd(s, u, nbytes, 0) == FirstEnd(s, u, nbytes, n + z)
  {
  }

  /** The scan for the line end. */
  method ScanLine(buf: array<byte>, nbytes: nat, u: Units) returns (n: nat)
    requires nbytes <= buf.Length
    ensures n == LineLength(buf[..], u, nbytes)
  {
    var szbyte := Size(u);
    ghost var s := buf[..];
    n := 0;
    while n + szbyte <= nbytes
      invariant n <= nbytes && FirstEnd(s, u, nbytes, 0) == FirstEnd(s, u, nbytes, n)
      decreases nbytes - n
    {
      ScanStep(s, u, nbytes, n);
      if Matches(buf, u, n, LF) {
        n := n + szbyte;
        return;
      }
      if Matches(buf, u, n, CR) {
        if n + szbyte < nbytes && Matches(buf, u, n + szbyte, LF) {
          n := n + szbyte;
        }
        n := n + szbyte;
        return;
      }
      n := n + szbyte;
    }
    ScanStep(s, u, nbytes, n);
  }

  /** The comparison of one unit in the buffer with a character. */
  predicate Matches(buf: array<byte>, u: Units, i: nat, c: byte)
    reads buf
    ensures Matches(buf, u, i, c) <==> Is(buf[..], u, i, c)
  {
    assert i + Size(u) <= buf.Length ==> buf[..][i..i + Size(u)] == buf[i..i + Size(u)];
    i + Size(u) <= buf.Length && buf[i..i + Size(u)] == Code(u, c)
  }

  lemma {:induction false} FirstEndAligned(buf: seq<byte>, u: Units, nbytes: nat, i: nat)
    requires Aligned(u, i) && i <= nbytes
    ensures Aligned(u, FirstEnd(buf, u, nbytes, i)) && FirstEnd(buf, u, nbytes, i) <= nbytes
    ensures var e := FirstEnd(buf, u, nbytes, i);
            e + Size(u) <= nbytes ==> Is(buf, u, e, LF) || Is(buf, u, e, CR)
    decreases nbytes - i
  {
    if i + Size(u) <= nbytes && !Is(buf, u, i, LF) && !Is(buf, u, i, CR) {
      AlignedSum(u, i, Size(u));
      FirstEndAligned(buf, u, nbytes, i + Size(u));
    }
  }

  /** No unit before the line end that is found is one. */
  lemma {:induction false} FirstEndIsFirst(buf: seq<byte>, u: Units, nbytes: nat, i: nat, j: nat)
    requires i <= j < FirstEnd(buf, u, nbytes, i) && Aligned(u, j - i)
    ensures !Is(buf, u, j, LF) && !Is(buf, u, j, CR)
    decreases nbytes - i
  {
    if j > i {
      AlignedSum(u, j - i - Size(u), Size(u));
      FirstEndIsFirst(buf, u, nbytes, i + Size(u), j);
    }
  }

  /** A torn line end: the last whole unit is the first line end and a CR, what follows it is a part of a unit, and
      bytes behind those read complete it to a LF. */
  predicate Torn(buf: seq<byte>, u: Units, nbytes: nat) {
    var part, e := Rest(u, nbytes), FirstEnd(buf, u, nbytes, 0);
    && part != 0
    && e + Size(u) == nbytes - part
    && !Is(buf, u, e, LF)
    && Is(buf, u, e + Size(u), LF)
  }

  /** A line is empty only if not even one unit has been read, and it ends inside what has been read unless its end
      is torn. */
  lemma LineLengthInside(buf: seq<byte>, u: Units, nbytes: nat)
    requires nbytes <= |buf|
    ensures LineLength(buf, u, nbytes) > 0 <==> nbytes >= Size(u)
    ensures LineLength(buf, u, nbytes) > nbytes <==> Torn(buf, u, nbytes)
  {
    FirstEndAligned(buf, u, nbytes, 0);
    var e, z := FirstEnd(buf, u, nbytes, 0), Size(u);
    LastWholeUnit(nbytes, e, u);
  }

  lemma LastWholeUnit(nbytes: nat, e: nat, u: Units)
    requires Aligned(u, e)
    ensures var z := Size(u);
            e + z < nbytes < e + 2 * z <==> Rest(u, nbytes) != 0 && e + z == nbytes - Rest(u, nbytes)
  {
    var z := Size(u);
    if e + z <= nbytes {
      var d := nbytes - e - z;
      AlignedSum(u, z, e);
      AlignedSum(u, d, e + z);
      if d < z { BelowUnit(u, d); }
    }
  }

  lemma BelowUnit(u: Units, d: nat)
    requires d < Size(u)
    ensures Rest(u, d) == d
  {
  }

  /** Unless its end is torn, the line only depends on what has been read. */
  lemma LineLengthOfRead(buf: seq<byte>, u: Units, nbytes: nat)
    requires nbytes <= |buf| && LineLength(buf, u, nbytes) <= nbytes
    ensures LineLength(buf, u, nbytes) == LineLength(buf[..nbytes], u, nbytes)
  {
    PrefixFirstEnd(buf, u, nbytes, 0);
    var e, z := FirstEnd(buf, u, nbytes, 0), Size(u);
    if e + z <= nbytes { PrefixIs(buf, u, nbytes, e); }
    if e + 2 * z <= nbytes { PrefixIs(buf, u, nbytes, e + z); }
  }

  lemma PrefixIs(buf: seq<byte>, u: Units, nbytes: nat, i: nat)
    requires i + Size(u) <= nbytes <= |buf|
    ensures forall c: byte :: Is(buf, u, i, c) <==> Is(buf[..nbytes], u, i, c)
  {
    assert buf[..nbytes][i..i + Size(u)] == buf[i..i + Size(u)];
  }

  lemma {:induction false} PrefixFirstEnd(buf: seq<byte>, u: Units, nbytes: nat, i: nat)
    requires nbytes <= |buf|
    ensures FirstEnd(buf[..nbytes], u, nbytes, i) == FirstEnd(buf, u, nbytes, i)
    decreases nbytes - i
  {
    if i + Size(u) <= nbytes {
      PrefixIs(buf, u, nbytes, i);
      if !Is(buf, u, i, LF) && !Is(buf, u, i, CR) { PrefixFirstEnd(buf, u, nbytes, i + Size(u)); }
    }
  }

  /** Three bytes of a UTF-16 line end in a buffer that still holds a zero: four bytes are reported as read. */
  lemma TornLineOverruns()
    ensures LineLength([13, 0, 10, 0], Double(false), 3) == 4
  {
    var buf: seq<byte> := [13, 0, 10, 0];
    assert buf[0..2] == [13, 0] && buf[2..4] == [10, 0];
  }

  // ----- Reading one line of a log file

  /** What the outside contributes to one reading: the file (None if it cannot be found, opened or read), what the buffer
      stack holds, the time, and whether sending succeeds. */
  datatype World = World(file: Option<seq<byte>>, stale: seq<byte>, now: int, delivered: bool)

  const MAX_BUFFER_LEN: nat := 65536

  predicate Usable(w: World) {
    |w.stale| == MAX_BUFFER_LEN
  }

  function Available(file: seq<byte>, offset: nat): nat {
    if offset >= |file| then 0
    else if |file| - offset > MAX_BUFFER_LEN then MAX_BUFFER_LEN
    else |file| - offset
  }

  /** The stack buffer after the file has been read into it. */
  function Filled(file: seq<byte>, offset: nat, stale: seq<byte>): (buf: seq<byte>)
    requires |stale| == MAX_BUFFER_LEN
    ensures |buf| == MAX_BUFFER_LEN
  {
    var n := Available(file, offset);
    if n == 0 then stale else file[offset..offset + n] + stale[n..]
  }

  function Chunk(file: seq<byte>, offset: nat, stale: seq<byte>, u: Units): nat
    requires |stale| == MAX_BUFFER_LEN
  {
    LineLength(Filled(file, offset, stale), u, Available(file, offset))
  }

  /** Where reading starts: at the end of what is there, or at the start of a file that has shrunk. */
  function Origin(file: seq<byte>, lastlogsize: nat, skip: bool): nat {
    if skip then |file| else if |file| < lastlogsize then 0 else lastlogsize
  }

  method ZbxRead(buf: array<byte>, file: seq<byte>, offset: nat, u: Units) returns (n: nat)
    requires buf.Length == MAX_BUFFER_LEN
    modifies buf
    ensures buf[..] == Filled(file, offset, old(buf[..]))
    ensures n == Chunk(file, offset, old(buf[..]), u)
  {
    var nbytes := Available(file, offset);
    forall i | 0 <= i < nbytes {
      buf[i] := file[offset + i];
    }
    assert buf[..] == Filled(file, offset, old(buf[..]));
    if nbytes == 0 {
      FirstEndAligned(buf[..], u, 0, 0);
      return 0;
    }
    n := ScanLine(buf, nbytes, u);
  }

  /** What one reading gives: nothing if the file cannot be opened, the position if its end is reached, or a line. */
  datatype Line = Unreadable | AtEnd(at: nat) | Text(from: nat, to: nat, bytes: seq<byte>)

  function Reading(w: World, lastlogsize: nat, u: Units, skip: bool): Line
    requires Usable(w)
  {
    if w.file.None? then Unreadable
    else
      var at := Origin(w.file.value, lastlogsize, skip);
      var n := Chunk(w.file.value, at, w.stale, u);
      if n == 0 then AtEnd(at) else Text(at, at + n, Filled(w.file.value, at, w.stale)[..n])
  }

  /** Reads one line at lastlogsize. */
  method ProcessLog(w: World, lastlogsize: nat, u: Units, skip: bool)
      returns (ok: bool, newsize: nat, value: Option<seq<byte>>)
    requires Usable(w)
    ensures match Reading(w, lastlogsize, u, skip)
            case Unreadable => !ok && value.None?
            case AtEnd(at) => ok && newsize == at && value.None?
            case Text(_, to, bytes) => ok && newsize == to && value == Some(bytes)
  {
    newsize, value := lastlogsize, None;
    if w.file.None? {
      return false, newsize, value;
    }
    var file := w.file.value;
    if skip {
      newsize := |file|;
    }
    if |file| < newsize {
      newsize := 0;
    }
    var buffer := new byte[MAX_BUFFER_LEN](i requires 0 <= i < |w.stale| => w.stale[i]);
    assert buffer[..] == w.stale;
    var nbytes := ZbxRead(buffer, file, newsize, u);
    if nbytes != 0 {
      newsize := newsize + nbytes;
      value := Some(buffer[..nbytes]);
    }
    ok := true;
  }

  /** Three bytes of a UTF-16 line end and zeros on the stack: the line read is longer than the file, so the next
      reading takes the file to have shrunk and finds the same line again. */
  lemma TornLineIsReadAgain(w: World)
    requires w.file == Some([13, 0, 10]) && w.stale == seq(MAX_BUFFER_LEN, _ => 0)
    ensures var line := Reading(w, 0, Double(false), false);
            line == Text(0, 4, [13, 0, 10, 0]) && Reading(w, line.to, Double(false), false) == line
  {
    var u, buf := Double(false), Filled(w.file.value, 0, w.stale);
    assert buf[..4] == [13, 0, 10, 0];
    assert buf[0..2] == [13, 0] && buf[2..4] == [10, 0];
    assert FirstEnd(buf, u, 3, 0) == 0;
  }

  // ----- The log[] check

  /** A metric: which item it feeds, how lines match, and maxlines_persec * refresh. */
  datatype Metric = Metric(host: string, key: string, units: Units, matches: seq<byte> -> Option<string>, limit: nat)

  datatype Span = Span(from: nat, to: nat)

  /** What a check leaves in the metric and the buffer, and whether it met a refusal. */
  datatype Final = Final(lastlogsize: nat, skip: bool, supported: bool, refused: bool, st: State)

  /** A whole check: its end, the lines consumed, what was handed to the buffer, and the number of readings. */
  datatype Outcome = Outcome(final: Final, chunks: seq<Span>, ops: seq<Op>, calls: nat)

  function Consumed(c: Span, ops: seq<Op>, o: Outcome): Outcome {
    Outcome(o.final, [c] + o.chunks, ops + o.ops, o.calls + 1)
  }

  function Offered(m: Metric, item: string, to: nat, now: int): Element {
    Element(m.host, m.key, Some(item), to, now, true, NO_DETAILS)
  }

  /** The value that reports a metric as not supported. */
  function Complaint(m: Metric, lastlogsize: nat, now: int): Element {
    Element(m.host, m.key, None, lastlogsize, now, false, NO_DETAILS)
  }

  function Process(cfg: Config, st: State, e: Element, now: int, delivered: bool): State {
    var sent := Sent(cfg, st, now, delivered);
    if Refused(cfg, sent, e) then sent else Admitted(cfg, sent, e)
  }

  predicate Refuses(cfg: Config, st: State, e: Element, w: World) {
    Refused(cfg, Sent(cfg, st, w.now, w.delivered), e)
  }

  ghost predicate Worlds(world: nat -> World) {
    forall i {:trigger Usable(world(i))} :: Usable(world(i))
  }

  /** How many more lines a check may read after p; the first is always read. */
  function Budget(m: Metric, p: nat): nat {
    if p == 0 then 4 * m.limit + 1 else if p < 4 * m.limit then 4 * m.limit - p else 0
  }

  /** The readings of one check from the k-th on, after p lines of which s matched. */
  ghost function Walk(m: Metric, cfg: Config, world: nat -> World, k: nat, lastlogsize: nat, skip: bool, st: State,
                      s: nat, p: nat): Outcome
    requires Worlds(world) && (p == 0 || p < 4 * m.limit)
    decreases Budget(m, p), 1
  {
    var w := world(k);
    match Reading(w, lastlogsize, m.units, skip)
    case Unreadable =>
      var e := Complaint(m, lastlogsize, w.now);
      Outcome(Final(lastlogsize, skip, false, false, Process(cfg, st, e, w.now, w.delivered)), [],
              [ProcessValue(e, w.now, w.delivered)], 1)
    case AtEnd(at) => Outcome(Final(at, false, true, false, st), [], [], 1)
    case Text(from, to, bytes) => Take(m, cfg, world, k, lastlogsize, from, to, m.matches(bytes), st, s, p)
  }

  /** What a line leads to; item is what matching it gives. */
  ghost function Take(m: Metric, cfg: Config, world: nat -> World, k: nat, lastlogsize: nat, from: nat, to: nat,
                      item: Option<string>, st: State, s: nat, p: nat): Outcome
    requires Worlds(world) && (p == 0 || p < 4 * m.limit)
    decreases Budget(m, p), 0
  {
    match item
    case None => Consumed(Span(from, to), [], Continue(m, cfg, world, k, to, st, s, p + 1))
    case Some(value) =>
      var w := world(k);
      var e := Offered(m, value, to, w.now);
      var op, st' := ProcessValue(e, w.now, w.delivered), Process(cfg, st, e, w.now, w.delivered);
      if Refuses(cfg, st, e, w) then Outcome(Final(lastlogsize, false, true, true, st'), [], [op], 1)
      else Consumed(Span(from, to), [op], Continue(m, cfg, world, k, to, st', s + 1, p + 1))
  }

  /** The check goes on unless it has done enough. */
  ghost function Continue(m: Metric, cfg: Config, world: nat -> World, k: nat, lastlogsize: nat, st: State,
                          s: nat, p: nat): Outcome
    requires Worlds(world) && p > 0
    decreases Budget(m, p), 2
  {
    if s >= m.limit || p >= 4 * m.limit then Outcome(Final(lastlogsize, false, true, false, st), [], [], 0)
    else Walk(m, cfg, world, k + 1, lastlogsize, false, st, s, p)
  }

  /** The rest of the check comes to o. */
  ghost predicate EndsIn(m: Metric, cfg: Config, world: nat -> World, k: nat, lastlogsize: nat, skip: bool, st: State,
                         s: nat, p: nat, o: Final) {
    && Worlds(world) && (p == 0 || p < 4 * m.limit)
    && forall i {:trigger Unfolded(i)} :: i == k && Unfolded(i) ==>
         Walk(m, cfg, world, i, lastlogsize, skip, st, s, p).final == o
  }

  /** The same after p lines: there may be no further reading. */
  ghost predicate GoesOn(m: Metric, cfg: Config, world: nat -> World, k: nat, lastlogsize: nat, st: State,
                         s: nat, p: nat, o: Final) {
    && Worlds(world) && p > 0
    && forall i {:trigger Unfolded(i)} :: i == k && Unfolded(i) ==>
         Continue(m, cfg, world, i, lastlogsize, st, s, p).final == o
  }

  lemma DoneEnough(m: Metric, cfg: Config, world: nat -> World, k: nat, lastlogsize: nat, st: State, s: nat, p: nat,
                   o: Final)
    requires GoesOn(m, cfg, world, k, lastlogsize, st, s, p, o) && (s >= m.limit || p >= 4 * m.limit)
    ensures o == Final(lastlogsize, false, true, false, st)
  {
    assert Unfolded(k);
  }

  lemma ReadsOn(m: Metric, cfg: Config, world: nat -> World, k: nat, lastlogsize: nat, st: State, s: nat, p: nat, o: Final)
    requires GoesOn(m, cfg, world, k, lastlogsize, st, s, p, o) && s < m.limit && p < 4 * m.limit
    ensures EndsIn(m, cfg, world, k + 1, lastlogsize, false, st, s, p, o)
  {
    assert Unfolded(k);
  }

  /** One reading, as far as the end of the check goes. */
  lemma WalkTurn(m: Metric, cfg: Config, world: nat -> World, k: nat, lastlogsize: nat, skip: bool, st: State,
                 s: nat, p: nat, o: Final)
    requires EndsIn(m, cfg, world, k, lastlogsize, skip, st, s, p, o)
    ensures var w := world(k);
            match Reading(w, lastlogsize, m.units, skip)
            case Unreadable =>
              var e := Complaint(m, lastlogsize, w.now);
              o == Final(lastlogsize, skip, false, false, Process(cfg, st, e, w.now, w.delivered))
            case AtEnd(at) => o == Final(at, false, true, false, st)
            case Text(_, to, bytes) =>
              var item := m.matches(bytes);
              if item.None? then GoesOn(m, cfg, world, k, to, st, s, p + 1, o)
              else
                var e := Offered(m, item.value, to, w.now);
                var st' := Process(cfg, st, e, w.now, w.delivered);
                if Refuses(cfg, st, e, w) then o == Final(lastlogsize, false, true, true, st')
                else GoesOn(m, cfg, world, k, to, st', s + 1, p + 1, o)
  {
    assert Unfolded(k);
    match Reading(world(k), lastlogsize, m.units, skip) {
      case Text(from, to, bytes) =>
        var taken := Take(m, cfg, world, k, lastlogsize, from, to, m.matches(bytes), st, s, p);
        assert taken.final == o;
      case _ =>
    }
  }

  /** A file that cannot be read makes the metric unsupported, and a value without text says so in the buffer. */
  lemma FailedReading(m: Metric, cfg: Config, world: nat -> World, lastlogsize: nat, skip: bool, st: State, lost: nat)
    requires Worlds(world) && world(0).file.None? && Bounded(cfg, st, lost)
    ensures var w, f := world(0), Walk(m, cfg, world, 0, lastlogsize, skip, st, 0, 0).final;
            && !f.supported && !f.refused && f.lastlogsize == lastlogsize && f.skip == skip
            && var e := Element(m.host, m.key, None, lastlogsize, w.now, false, Details(0, 0, None, 0, 0));
               PutIn(cfg.size, Sent(cfg, st, w.now, w.delivered).buf, e, f.st.buf)
  {
    var w := world(0);
    var sent, e := Sent(cfg, st, w.now, w.delivered), Complaint(m, lastlogsize, w.now);
    var lost' := if sent.buf == [] then sent.pcount else lost;
    assert Bounded(cfg, sent, lost');
    if |sent.buf| == cfg.size { VictimInside(cfg, sent, lost', e); }
    AdmittedPutsIn(cfg, sent, e);
  }

  class LogCheck {
    const m: Metric
    const buffer: Buffer
    var lastlogsize: nat
    var skip_old_data: bool
    var supported: bool

    constructor (m: Metric, buffer: Buffer, lastlogsize: nat, skip_old_data: bool)
      ensures this.m == m && this.buffer == buffer && this.lastlogsize == lastlogsize
      ensures this.skip_old_data == skip_old_data && supported
    {
      this.m, this.buffer := m, buffer;
      this.lastlogsize, this.skip_old_data, this.supported := lastlogsize, skip_old_data, true;
    }

    ghost function Left(refused: bool): Final
      requires buffer.Valid()
      reads this, buffer, buffer.data
    {
      Final(lastlogsize, skip_old_data, supported, refused, buffer.Now())
    }

    /** One check of the metric. */
    method Check(world: nat -> World) returns (send_err: bool)
      requires Worlds(world) && buffer.Valid() && supported
      modifies this, buffer, buffer.data
      ensures buffer.Valid()
      ensures Left(send_err) ==
              Walk(m, buffer.cfg, world, 0, old(lastlogsize), old(skip_old_data), old(buffer.Now()), 0, 0).final
      ensures world(0).file.None? ==>
                && !supported && !send_err && lastlogsize == old(lastlogsize) && skip_old_data == old(skip_old_data)
                && var e := Element(m.host, m.key, None, lastlogsize, world(0).now, false, Details(0, 0, None, 0, 0));
                   PutIn(buffer.cfg.size, Sent(buffer.cfg, old(buffer.Now()), world(0).now, world(0).delivered).buf,
                         e, buffer.Now().buf)
    {
      if world(0).file.None? {
        FailedReading(m, buffer.cfg, world, lastlogsize, skip_old_data, buffer.Now(), buffer.lost);
      }
      ghost var o := Walk(m, buffer.cfg, world, 0, lastlogsize, skip_old_data, buffer.Now(), 0, 0).final;
      send_err := CheckTo(world, o);
    }

    method CheckTo(world: nat -> World, ghost o: Final) returns (send_err: bool)
      requires buffer.Valid() && supported
      requires EndsIn(m, buffer.cfg, world, 0, lastlogsize, skip_old_data, buffer.Now(), 0, 0, o)
      modifies this, buffer, buffer.data
      ensures buffer.Valid()
      ensures Left(send_err) == o
    {
      var k, s_count, p_count, done := 0, 0, 0, false;
      send_err := false;
      while !done
        invariant buffer.Valid()
        invariant if done then Left(send_err) == o
                  else supported &&
                       EndsIn(m, buffer.cfg, world, k, lastlogsize, skip_old_data, buffer.Now(), s_count, p_count, o)
        decreases if done then 0 else 4 * m.limit + 2 - p_count
      {
        done, send_err, s_count, p_count := TurnOn(world, k, s_count, p_count, o);
        k := k + 1;
      }
    }

    /** One turn of the loop, which ends the check if it has done enough. */
    method TurnOn(world: nat -> World, k: nat, s: nat, p: nat, ghost o: Final)
        returns (done: bool, send_err: bool, s_count: nat, p_count: nat)
      requires buffer.Valid() && supported
      requires EndsIn(m, buffer.cfg, world, k, lastlogsize, skip_old_data, buffer.Now(), s, p, o)
      modifies this, buffer, buffer.data
      ensures buffer.Valid()
      ensures done ==> Left(send_err) == o
      ensures !done ==>
                && supported && p_count == p + 1 < 4 * m.limit
                && EndsIn(m, buffer.cfg, world, k + 1, lastlogsize, skip_old_data, buffer.Now(), s_count, p_count, o)
    {
      var matched;
      done, send_err, matched := Turn(world, k, s, p, o);
      s_count, p_count := s, p;
      if done {
        return;
      }
      if matched {
        s_count := s_count + 1;
      }
      p_count := p_count + 1;
      done := Enough(world, k, s_count, p_count, o);
    }

    /** The two limits. */
    method Enough(world: nat -> World, k: nat, s_count: nat, p_count: nat, ghost o: Final) returns (done: bool)
      requires buffer.Valid() && supported && !skip_old_data
      requires GoesOn(m, buffer.cfg, world, k, lastlogsize, buffer.Now(), s_count, p_count, o)
      ensures if done then Left(false) == o
              else
                && p_count < 4 * m.limit
                && EndsIn(m, buffer.cfg, world, k + 1, lastlogsize, false, buffer.Now(), s_count, p_count, o)
    {
      ghost var st := buffer.Now();
      if s_count >= m.limit || p_count >= 4 * m.limit {
        DoneEnough(m, buffer.cfg, world, k, lastlogsize, st, s_count, p_count, o);
        done := true;
      } else {
        ReadsOn(m, buffer.cfg, world, k, lastlogsize, st, s_count, p_count, o);
        done := false;
      }
    }

    /** Reads one line and, if it matches, offers it to the buffer. */
    method Turn(world: nat -> World, k: nat, ghost s: nat, ghost p: nat, ghost o: Final)
        returns (done: bool, send_err: bool, matched: bool)
      requires buffer.Valid() && supported
      requires EndsIn(m, buffer.cfg, world, k, lastlogsize, skip_old_data, buffer.Now(), s, p, o)
      modifies this, buffer, buffer.data
      ensures buffer.Valid()
      ensures done ==> Left(send_err) == o
      ensures !done ==>
                && supported && !skip_old_data && !send_err
                && GoesOn(m, buffer.cfg, world, k, lastlogsize, buffer.Now(), if matched then s + 1 else s, p + 1, o)
    {
      var w := world(k);
      WalkTurn(m, buffer.cfg, world, k, lastlogsize, skip_old_data, buffer.Now(), s, p, o);
      send_err, matched := false, false;
      var ok, newsize, value := ProcessLog(w, lastlogsize, m.units, skip_old_data);
      if !ok {
        supported := false;
        var noted := buffer.ProcessValue(Complaint(m, lastlogsize, w.now), w.now, w.delivered);
        return true, false, false;
      }
      skip_old_data := false;
      if value.None? {
        lastlogsize := newsize;
        return true, false, false;
      }
      var item := m.matches(value.value);
      if item.Some? {
        var accepted := buffer.ProcessValue(Offered(m, item.value, newsize, w.now), w.now, w.delivered);
        send_err, matched := !accepted, true;
      }
      done := send_err;
      if !send_err {
        lastlogsize := newsize;
      }
    }
  }
}
