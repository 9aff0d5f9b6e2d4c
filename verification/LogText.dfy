/** How the text of a log file in each encoding is split into lines. */
module LogText {
  import opened Ctypes
  import opened LogFile

  type Char = c: nat | c < 0x1_0000_0000

  const NL: Char := 10
  const RET: Char := 13

  /** A character as it stands in a file. */
  function Unit(u: Units, c: Char): (s: seq<byte>)
    ensures |s| == Size(u)
  {
    match u
    case Single => [c % 0x100]
    case Double(true) => [c / 0x100 % 0x100, c % 0x100]
    case Double(false) => [c % 0x100, c / 0x100 % 0x100]
    case Quad(true) => [c / 0x100_0000, c / 0x1_0000 % 0x100, c / 0x100 % 0x100, c % 0x100]
    case Quad(false) => [c % 0x100, c / 0x100 % 0x100, c / 0x1_0000 % 0x100, c / 0x100_0000]
  }

  /** Whether the encoding has the character. */
  predicate Fits(u: Units, c: Char) {
    match u
    case Single => c < 0x100
    case Double(_) => c < 0x1_0000
    case Quad(_) => true
  }

  predicate AllFit(u: Units, t: seq<Char>) {
    forall i :: 0 <= i < |t| ==> Fits(u, t[i])
  }

  function Encode(u: Units, t: seq<Char>): seq<byte> {
    if t == [] then [] else Encode(u, t[..|t| - 1]) + Unit(u, t[|t| - 1])
  }

  /** A line end is recognised in every encoding, and nothing else is taken for one. */
  lemma UnitIs(u: Units, c: Char, b: byte)
    requires Fits(u, c) && b < 0x100
    ensures Unit(u, c) == Code(u, b) <==> c == b
  {
    match u {
      case Single =>
      case Double(big) => HighAndLow(c);
      case Quad(big) => HighAndLow(c); HighAndLow(c / 0x1_0000); assert c / 0x1_0000 / 0x100 == c / 0x100_0000;
    }
  }

  lemma HighAndLow(c: Char)
    ensures c % 0x100 + 0x100 * (c / 0x100 % 0x100) + 0x1_0000 * (c / 0x1_0000) == c
  {
  }

  lemma {:induction false} EncodePrefix(u: Units, t: seq<Char>, i: nat)
    requires i <= |t|
    ensures Encode(u, t[..i]) <= Encode(u, t)
    ensures i < |t| ==> |Encode(u, t[..i])| + Size(u) <= |Encode(u, t)|
  {
    var n := |t| - 1;
    if i <= n {
      EncodePrefix(u, t[..n], i);
      assert t[..n][..i] == t[..i];
    } else {
      assert t[..i] == t;
    }
  }

  /** Where the i-th character begins. */
  function Position(u: Units, t: seq<Char>, i: nat): nat
    requires i <= |t|
  {
    |Encode(u, t[..i])|
  }

  lemma UnitInside(u: Units, t: seq<Char>, i: nat)
    requires i < |t|
    ensures var p := Position(u, t, i);
            && p + Size(u) == Position(u, t, i + 1) <= |Encode(u, t)|
            && Encode(u, t)[p..p + Size(u)] == Unit(u, t[i])
  {
    assert t[..i + 1][..i] == t[..i];
    EncodePrefix(u, t, i + 1);
  }

  lemma SliceOfPrefix(buf: seq<byte>, text: seq<byte>, p: nat, n: nat)
    requires text <= buf && p + n <= |text|
    ensures buf[p..p + n] == text[p..p + n]
  {
  }

  /** The i-th character of a text in a buffer. */
  lemma UnitAt(u: Units, t: seq<Char>, i: nat, buf: seq<byte>, b: byte)
    requires i < |t| && AllFit(u, t) && Encode(u, t) <= buf && b < 0x100
    ensures var p := Position(u, t, i);
            && p + Size(u) == Position(u, t, i + 1) <= |Encode(u, t)|
            && (Is(buf, u, p, b) <==> t[i] == b)
  {
    var p := Position(u, t, i);
    UnitInside(u, t, i);
    SliceOfPrefix(buf, Encode(u, t), p, Size(u));
    UnitIs(u, t[i], b);
  }

  predicate NoLineEnd(t: seq<Char>) {
    NL !in t && RET !in t
  }

  /** What can end a line that b follows: LF, CR LF, a CR that no LF follows, or the end of what has been read. */
  predicate IsLineEnd(e: seq<Char>, b: seq<Char>) {
    || e == [NL]
    || e == [RET, NL]
    || (e == [RET] && (b == [] || b[0] != NL))
    || (e == [] && b == [])
  }

  lemma EndOrNot(buf: seq<byte>, u: Units, nbytes: nat, p: nat)
    requires p + Size(u) <= nbytes
    ensures FirstEnd(buf, u, nbytes, p) ==
            if Is(buf, u, p, LF) || Is(buf, u, p, CR) then p else FirstEnd(buf, u, nbytes, p + Size(u))
  {
  }

  lemma FirstEndStep(u: Units, t: seq<Char>, buf: seq<byte>, i: nat)
    requires i < |t| && AllFit(u, t) && Encode(u, t) <= buf
    ensures var nbytes, p := |Encode(u, t)|, Position(u, t, i);
            FirstEnd(buf, u, nbytes, p) ==
            if t[i] in {NL, RET} then p else FirstEnd(buf, u, nbytes, Position(u, t, i + 1))
  {
    UnitAt(u, t, i, buf, LF);
    UnitAt(u, t, i, buf, CR);
    EndOrNot(buf, u, |Encode(u, t)|, Position(u, t, i));
  }

  lemma {:induction false} FirstEndOfText(u: Units, t: seq<Char>, buf: seq<byte>, i: nat, n: nat)
    requires i <= n <= |t| && AllFit(u, t) && Encode(u, t) <= buf
    requires (forall j :: i <= j < n ==> t[j] !in {NL, RET}) && (n < |t| ==> t[n] in {NL, RET})
    ensures FirstEnd(buf, u, |Encode(u, t)|, Position(u, t, i)) == Position(u, t, n)
    decreases n - i
  {
    if i < |t| {
      FirstEndStep(u, t, buf, i);
    } else {
      assert t[..i] == t;
    }
    if i < n { FirstEndOfText(u, t, buf, i + 1, n); }
  }

  /** How many characters the line end at n takes. */
  function EndLength(t: seq<Char>, n: nat): nat {
    if n >= |t| then 0 else if t[n] == RET && n + 1 < |t| && t[n + 1] == NL then 2 else 1
  }

  /** The line length for a first line end at e; lf and pair tell whether a LF stands there and behind. */
  lemma LineEndsAt(buf: seq<byte>, u: Units, nbytes: nat, e: nat, lf: bool, pair: bool)
    requires FirstEnd(buf, u, nbytes, 0) == e && e + Size(u) <= nbytes
    requires lf == Is(buf, u, e, LF) && pair == (e + Size(u) < nbytes && Is(buf, u, e + Size(u), LF))
    ensures LineLength(buf, u, nbytes) == if !lf && pair then e + 2 * Size(u) else e + Size(u)
  {
  }

  lemma LineOfLast(u: Units, t: seq<Char>, buf: seq<byte>, n: nat)
    requires n + 1 == |t| && AllFit(u, t) && Encode(u, t) <= buf && t[n] in {NL, RET}
    requires FirstEnd(buf, u, |Encode(u, t)|, 0) == Position(u, t, n)
    ensures LineLength(buf, u, |Encode(u, t)|) == Position(u, t, n + 1)
  {
    assert t[..n + 1] == t;
    UnitAt(u, t, n, buf, LF);
    LineEndsAt(buf, u, |Encode(u, t)|, Position(u, t, n), t[n] == NL, false);
  }

  lemma LineOfMore(u: Units, t: seq<Char>, buf: seq<byte>, n: nat)
    requires n + 1 < |t| && AllFit(u, t) && Encode(u, t) <= buf && t[n] in {NL, RET}
    requires FirstEnd(buf, u, |Encode(u, t)|, 0) == Position(u, t, n)
    ensures LineLength(buf, u, |Encode(u, t)|) == Position(u, t, n + EndLength(t, n))
  {
    UnitAt(u, t, n, buf, LF);
    UnitAt(u, t, n + 1, buf, LF);
    LineEndsAt(buf, u, |Encode(u, t)|, Position(u, t, n), t[n] == NL, t[n + 1] == NL);
  }

  lemma LineOfText(u: Units, t: seq<Char>, buf: seq<byte>, n: nat)
    requires n <= |t| && AllFit(u, t) && Encode(u, t) <= buf
    requires (forall j :: 0 <= j < n ==> t[j] !in {NL, RET}) && (n < |t| ==> t[n] in {NL, RET})
    ensures LineLength(buf, u, |Encode(u, t)|) == Position(u, t, n + EndLength(t, n))
  {
    assert t[..0] == [];
    FirstEndOfText(u, t, buf, 0, n);
    if n == |t| {
      assert t[..n] == t;
    } else if n + 1 == |t| {
      LineOfLast(u, t, buf, n);
    } else {
      LineOfMore(u, t, buf, n);
    }
  }

  lemma LineAndEnd(u: Units, t: seq<Char>, buf: seq<byte>, n: nat)
    requires n <= |t| && AllFit(u, t) && Encode(u, t) <= buf
    requires (forall j :: 0 <= j < n ==> t[j] !in {NL, RET}) && (n < |t| ==> t[n] in {NL, RET})
    ensures var line := Encode(u, t[..n + EndLength(t, n)]);
            LineLength(buf, u, |Encode(u, t)|) == |line| && line <= buf
  {
    LineOfText(u, t, buf, n);
    EncodePrefix(u, t, n + EndLength(t, n));
  }

  lemma Parts(a: seq<Char>, e: seq<Char>, b: seq<Char>)
    requires IsLineEnd(e, b)
    ensures var t, n := a + e + b, |a|;
            && t[..n + EndLength(t, n)] == a + e && t[..|t|] == t
            && (forall j :: 0 <= j < n ==> t[j] == a[j])
            && (n < |t| ==> t[n] in {NL, RET})
  {
    var t, n := a + e + b, |a|;
    assert n < |t| ==> t[n] == e[0];
    if |e| == 1 && b != [] { assert t[n + 1] == b[0]; }
    if |e| == 2 { assert t[n + 1] == e[1]; }
    assert EndLength(t, n) == |e|;
  }

  /** Of a text in any encoding the first line is what stands before the first line end, and this end. */
  lemma FirstLineOfText(u: Units, a: seq<Char>, e: seq<Char>, b: seq<Char>, buf: seq<byte>)
    requires NoLineEnd(a) && IsLineEnd(e, b) && AllFit(u, a + e + b) && Encode(u, a + e + b) <= buf
    ensures LineLength(buf, u, |Encode(u, a + e + b)|) == |Encode(u, a + e)|
    ensures Encode(u, a + e) <= buf
  {
    Parts(a, e, b);
    LineAndEnd(u, a + e + b, buf, |a|);
  }

  lemma FillsWith(f: seq<byte>, at: nat, stale: seq<byte>, text: seq<byte>)
    requires |stale| == MAX_BUFFER_LEN && at < |f| && f[at..Min(|f|, at + 65536)] == text
    ensures Available(f, at) == |text| && text <= Filled(f, at, stale)
  {
  }

  lemma ReadsLine(w: World, u: Units, at: nat, text: seq<byte>, line: seq<byte>)
    requires Usable(w) && w.file.Some? && at < |w.file.value| && |line| > 0 && Available(w.file.value, at) == |text|
    requires var buf := Filled(w.file.value, at, w.stale); line <= buf && LineLength(buf, u, |text|) == |line|
    ensures Reading(w, at, u, false) == Text(at, at + |line|, line)
  {
  }

  /** At most 64 KiB are read at a time, and of these the first line is taken. */
  lemma ReadsFirstLine(w: World, u: Units, at: nat, a: seq<Char>, e: seq<Char>, b: seq<Char>)
    requires Usable(w) && w.file.Some? && at < |w.file.value|
    requires NoLineEnd(a) && IsLineEnd(e, b) && AllFit(u, a + e + b) && a + e != []
    requires var f := w.file.value; f[at..Min(|f|, at + 65536)] == Encode(u, a + e + b)
    ensures Reading(w, at, u, false) == Text(at, at + |Encode(u, a + e)|, Encode(u, a + e))
  {
    var text, line, buf := Encode(u, a + e + b), Encode(u, a + e), Filled(w.file.value, at, w.stale);
    FillsWith(w.file.value, at, w.stale, text);
    FirstLineOfText(u, a, e, b, buf);
    EncodePrefix(u, a + e, 0);
    ReadsLine(w, u, at, text, line);
  }

  /** A file that is shorter than what has been read of it is read from its start, and data is skipped by going to
      the end. */
  lemma ShrunkIsReadAnew(w: World, u: Units, lastlogsize: nat, skip: bool)
    requires Usable(w) && w.file.Some?
    ensures |w.file.value| < lastlogsize && !skip ==> Reading(w, lastlogsize, u, skip) == Reading(w, 0, u, false)
    ensures skip ==> Reading(w, lastlogsize, u, skip) == AtEnd(|w.file.value|)
  {
    if skip { LineLengthInside(Filled(w.file.value, |w.file.value|, w.stale), u, 0); }
  }
}
