/** The permuting option scanner: a resumable scan that moves the options of argv in front of the operands. */
module Getopt {
  import opened Ctypes

  const EOF: int := -1
  const BAD_OPTION: int := 0
  const REQUIRED: nat := 1

  /** kind is has_arg & 0xf; exact and joined are its bits 0x10 and 0x20; flag names the variable that is set. */
  datatype LongOption = LongOption(name: string, kind: nat, exact: bool, joined: bool, flag: Option<nat>, val: int)

  /** signed says whether the platform's char is. */
  datatype Config = Config(optstring: string, longopts: Option<seq<LongOption>>, signed: bool)

  /** A character as the int that a call returns. */
  function Code(cfg: Config, c: char): int {
    if cfg.signed && 128 <= c as int < 256 then c as int - 256 else c as int
  }

  /** PERMUTE mode, and no option that would look like the end of the scan. */
  predicate Permuting(cfg: Config) {
    && (cfg.optstring != "" ==> cfg.optstring[0] != '-' && cfg.optstring[0] != '+')
    && (forall c :: c in cfg.optstring ==> Code(cfg, c) != EOF)
    && (cfg.longopts.Some? ==> forall o :: o in cfg.longopts.value ==> o.val != EOF)
  }

  // ----- What one element means

  predicate NonOption(s: string) {
    s == "" || s[0] != '-' || |s| == 1
  }

  predicate IsLong(cfg: Config, s: string)
    requires !NonOption(s)
  {
    cfg.longopts.Some? && s[1] == '-'
  }

  /** What a call reports: its return value, optarg and longind. */
  datatype Report = Report(code: int, arg: Option<string>, longind: int)

  /** What a call changes besides: zbx_optopt, or the variable that the flag of a long option names. */
  datatype Effect = NoEffect | Complains(c: int) | Stores(variable: nat, val: int)

  datatype Event = Event(report: Report, effect: Effect)

  datatype Globals = Globals(optopt: int, variables: map<nat, int>)

  function Affected(g: Globals, e: Effect): Globals {
    match e
    case NoEffect => g
    case Complains(c) => g.(optopt := c)
    case Stores(v, val) => g.(variables := g.variables[v := val])
  }

  function AllAffected(g: Globals, events: seq<Event>): Globals {
    if events == [] then g else Affected(AllAffected(g, events[..|events| - 1]), events[|events| - 1].effect)
  }

  function Reports(events: seq<Event>): (reports: seq<Report>)
    ensures |reports| == |events|
  {
    seq(|events|, i requires 0 <= i < |events| => events[i].report)
  }

  datatype Kind = Unknown | Plain | OptionalArg | RequiredArg

  /** The first occurrence of c. */
  function StrChr(s: string, c: char): (r: Option<nat>)
    ensures r.Some? ==> r.value < |s| && s[r.value] == c && forall i :: 0 <= i < r.value ==> s[i] != c
    ensures r.None? ==> c !in s
  {
    if s == "" then None
    else if s[0] == c then Some(0)
    else match StrChr(s[1..], c)
      case None => None
      case Some(i) => Some(i + 1)
  }

  function KindOf(optstring: string, c: char): Kind {
    match StrChr(optstring, c)
    case None => Unknown
    case Some(i) =>
      if c == ':' then Unknown
      else if i + 1 < |optstring| && optstring[i + 1] == ':' then
        if i + 2 < |optstring| && optstring[i + 2] == ':' then OptionalArg else RequiredArg
      else Plain
  }

  function MissingArgument(optstring: string): int {
    if optstring != "" && optstring[0] == ':' then ':' as int else BAD_OPTION
  }

  /** The outcome of reading one option: what is reported, the characters left of a cluster,
      and whether the next element was taken as the argument. */
  datatype Step = Step(event: Event, chars: string, takes: bool)

  /** One character of a cluster; next is what follows the element. */
  function ShortStep(cfg: Config, chars: string, next: seq<string>): (st: Step)
    requires chars != ""
    ensures st.takes ==> next != [] && st.chars == ""
    ensures |st.chars| < |chars|
  {
    var c, rest := chars[0], chars[1..];
    match KindOf(cfg.optstring, c)
    case Unknown => Step(Event(Report(BAD_OPTION, None, -1), Complains(Code(cfg, c))), rest, false)
    case Plain => Step(Event(Report(Code(cfg, c), None, -1), NoEffect), rest, false)
    case OptionalArg => Step(Event(Report(Code(cfg, c), if rest != "" then Some(rest) else None, -1), NoEffect), "", false)
    case RequiredArg =>
      if rest != "" then Step(Event(Report(Code(cfg, c), Some(rest), -1), NoEffect), "", false)
      else if next == [] then Step(Event(Report(MissingArgument(cfg.optstring), None, -1), Complains(Code(cfg, c))), "", false)
      else Step(Event(Report(Code(cfg, c), Some(next[0]), -1), NoEffect), "", true)
  }

  datatype Lookup = NotFound | Rejected | Found(index: nat)

  /** The indices of the long options whose name starts with the key. */
  function Matching(opts: seq<LongOption>, key: string): (m: seq<nat>)
    ensures forall j :: 0 <= j < |m| ==> m[j] < |opts| && key <= opts[m[j]].name
  {
    if opts == [] then []
    else
      var last := |opts| - 1;
      Matching(opts[..last], key) + if key <= opts[last].name then [last] else []
  }

  lemma MatchingStep(opts: seq<LongOption>, key: string, p: nat)
    requires p < |opts|
    ensures Matching(opts[..p + 1], key) == Matching(opts[..p], key) + if key <= opts[p].name then [p] else []
  {
    assert opts[..p + 1][..p] == opts[..p];
  }

  function FirstNamed(opts: seq<LongOption>, key: string): (r: Option<nat>)
    ensures r.Some? ==> r.value < |opts| && opts[r.value].name == key
    ensures r.Some? ==> forall i :: 0 <= i < r.value ==> opts[i].name != key
    ensures r.None? ==> forall i :: 0 <= i < |opts| ==> opts[i].name != key
  {
    if opts == [] then None
    else if opts[0].name == key then Some(0)
    else match FirstNamed(opts[1..], key)
      case None => None
      case Some(i) => Some(i + 1)
  }

  /** An exact name wins; otherwise the key must abbreviate one name only, and no name that forbids it. */
  function LookUp(opts: seq<LongOption>, key: string): (r: Lookup)
    ensures r.Found? ==> r.index < |opts| && key <= opts[r.index].name
  {
    match FirstNamed(opts, key)
    case Some(i) => Found(i)
    case None =>
      var m := Matching(opts, key);
      if m == [] then NotFound
      else if |m| > 1 || opts[m[0]].exact then Rejected
      else Found(m[0])
  }

  /** What the search among the first p options has found: no exact name, pfound the first match, ambig whether there
      are more, and needexact whether a match may not be abbreviated. */
  ghost predicate Looking(opts: seq<LongOption>, key: string, p: nat, pfound: Option<nat>, ambig: bool, needexact: bool) {
    && p <= |opts|
    && forall i {:trigger Unfolded(i)} :: i == p && Unfolded(i) ==>
         var m := Matching(opts[..i], key);
         && (forall j :: 0 <= j < i ==> opts[j].name != key)
         && pfound == (if m == [] then None else Some(m[0]))
         && (ambig <==> |m| > 1)
         && (needexact ==> m != [])
         && (|m| == 1 ==> (needexact <==> opts[m[0]].exact))
  }

  lemma LookingStarts(opts: seq<LongOption>, key: string)
    ensures Looking(opts, key, 0, None, false, false)
  {
  }

  lemma LookingPast(opts: seq<LongOption>, key: string, p: nat, pfound: Option<nat>, ambig: bool, needexact: bool)
    requires p < |opts| && Looking(opts, key, p, pfound, ambig, needexact) && !(key <= opts[p].name)
    ensures Looking(opts, key, p + 1, pfound, ambig, needexact)
  {
    assert Unfolded(p);
    MatchingStep(opts, key, p);
    assert key != opts[p].name;
  }

  lemma LookingAbbreviated(opts: seq<LongOption>, key: string, p: nat, pfound: Option<nat>, ambig: bool, needexact: bool)
    requires p < |opts| && Looking(opts, key, p, pfound, ambig, needexact)
    requires key <= opts[p].name && key != opts[p].name
    ensures Looking(opts, key, p + 1, if pfound.None? then Some(p) else pfound, ambig || pfound.Some?,
                    needexact || opts[p].exact)
  {
    assert Unfolded(p);
    MatchingStep(opts, key, p);
  }

  lemma LookingExact(opts: seq<LongOption>, key: string, p: nat, pfound: Option<nat>, ambig: bool, needexact: bool)
    requires p < |opts| && Looking(opts, key, p, pfound, ambig, needexact) && key == opts[p].name
    ensures LookUp(opts, key) == Found(p)
  {
    assert Unfolded(p);
    NamedAt(opts, key, p);
  }

  /** One option examined: an exact name ends the search, another match counts, and the rest is passed by. */
  lemma LookingStep(opts: seq<LongOption>, key: string, p: nat, pfound: Option<nat>, ambig: bool, needexact: bool)
    requires p < |opts| && Looking(opts, key, p, pfound, ambig, needexact)
    ensures var found := key <= opts[p].name;
            if found && |key| == |opts[p].name| then LookUp(opts, key) == Found(p)
            else Looking(opts, key, p + 1, if found && pfound.None? then Some(p) else pfound,
                         ambig || (found && pfound.Some?), needexact || (found && opts[p].exact))
  {
    SameName(key, opts[p].name);
    if key == opts[p].name {
      LookingExact(opts, key, p, pfound, ambig, needexact);
    } else if key <= opts[p].name {
      LookingAbbreviated(opts, key, p, pfound, ambig, needexact);
    } else {
      LookingPast(opts, key, p, pfound, ambig, needexact);
    }
  }

  lemma SameName(key: string, name: string)
    ensures key <= name && |key| == |name| <==> key == name
  {
  }

  lemma NamedAt(opts: seq<LongOption>, key: string, p: nat)
    requires p < |opts| && forall j :: 0 <= j < p ==> opts[j].name != key
    ensures opts[p].name == key ==> FirstNamed(opts, key) == Some(p)
  {
  }

  lemma LookingEnds(opts: seq<LongOption>, key: string, pfound: Option<nat>, ambig: bool, needexact: bool)
    requires Looking(opts, key, |opts|, pfound, ambig, needexact)
    ensures LookUp(opts, key) ==
            if needexact || ambig then Rejected else if pfound.None? then NotFound else Found(pfound.value)
  {
    assert Unfolded(|opts|);
    assert opts[..|opts|] == opts;
  }

  /** The length of the name in front of '=' or '#'. */
  function NameLength(s: string): (n: nat)
    ensures n <= |s|
    ensures forall i :: 0 <= i < n ==> s[i] != '=' && s[i] != '#'
    ensures n < |s| ==> s[n] == '=' || s[n] == '#'
  {
    if s == "" || s[0] == '=' || s[0] == '#' then 0 else 1 + NameLength(s[1..])
  }

  /** A whole long option; text is the element without its two dashes. */
  function LongStep(cfg: Config, text: string, next: seq<string>): (st: Step)
    requires cfg.longopts.Some?
    ensures st.takes ==> next != []
    ensures st.chars == ""
  {
    var opts := cfg.longopts.value;
    var n := NameLength(text);
    match LookUp(opts, text[..n])
    case NotFound => Step(Event(Report(BAD_OPTION, None, -1), NoEffect), "", false)
    case Rejected => Step(Event(Report(BAD_OPTION, None, -1), NoEffect), "", false)
    case Found(i) =>
      var o := opts[i];
      var code := if o.flag.Some? then 0 else o.val;
      var effect := if o.flag.Some? then Stores(o.flag.value, o.val) else NoEffect;
      if n < |text| && o.kind == 0 then Step(Event(Report(BAD_OPTION, None, -1), NoEffect), "", false)
      else if n + 1 < |text| then Step(Event(Report(code, Some(text[n + 1..]), i), effect), "", false)
      else if o.kind != REQUIRED then Step(Event(Report(code, None, i), effect), "", false)
      else if next == [] || o.joined then Step(Event(Report(MissingArgument(cfg.optstring), None, -1), NoEffect), "", false)
      else Step(Event(Report(code, Some(next[0]), i), effect), "", true)
  }

  // ----- What the whole command line means

  /** The options with their arguments, the operands, and the reports, each in the order of the command line. */
  datatype Plan = Plan(opts: seq<string>, rest: seq<string>, events: seq<Event>)

  function After(opts: seq<string>, nons: seq<string>, p: Plan): Plan {
    Plan(opts + p.opts, nons + p.rest, p.events)
  }

  function Reported(e: Event, p: Plan): Plan {
    Plan(p.opts, p.rest, [e] + p.events)
  }

  /** Reads the elements a; chars are the characters still unread of the cluster a[0], if it has been entered. */
  function Scan(cfg: Config, a: seq<string>, chars: string): Plan
    requires chars != "" ==> a != []
    decreases |a|, if chars != "" then |chars| else if a == [] then 0 else |a[0]|
  {
    if chars != "" then
      var st := ShortStep(cfg, chars, a[1..]);
      Reported(st.event, if st.chars != "" then Scan(cfg, a, st.chars) else Next(cfg, a, st.takes))
    else if a == [] then Plan([], [], [])
    else if NonOption(a[0]) then After([], [a[0]], Scan(cfg, a[1..], ""))
    else if a[0] == "--" then Plan([a[0]], a[1..], [])
    else if IsLong(cfg, a[0]) then
      var st := LongStep(cfg, a[0][2..], a[1..]);
      Reported(st.event, Next(cfg, a, st.takes))
    else Scan(cfg, a, a[0][1..])
  }

  /** Leaves the element a[0], and its argument a[1] if it took one. */
  function Next(cfg: Config, a: seq<string>, takes: bool): Plan
    requires a != [] && (takes ==> |a| > 1)
    decreases |a|, 0
  {
    if takes then After(a[..2], [], Scan(cfg, a[2..], "")) else After(a[..1], [], Scan(cfg, a[1..], ""))
  }

  // ----- The partition

  /** a is a merge of x and y that keeps the order of each. */
  ghost predicate Merges(a: seq<string>, x: seq<string>, y: seq<string>) {
    if a == [] then x == [] && y == []
    else
      || (x != [] && x[0] == a[0] && Merges(a[1..], x[1..], y))
      || (y != [] && y[0] == a[0] && Merges(a[1..], x, y[1..]))
  }

  lemma {:induction false} MergesRest(a: seq<string>)
    ensures Merges(a, [], a)
  {
    if a != [] { MergesRest(a[1..]); }
  }

  lemma {:induction false} MergesPrefix(o: seq<string>, a: seq<string>, x: seq<string>, y: seq<string>)
    requires Merges(a, x, y)
    ensures Merges(o + a, o + x, y)
  {
    if o == [] {
      assert o + a == a && o + x == x;
    } else {
      MergesPrefix(o[1..], a, x, y);
      assert (o + a)[1..] == o[1..] + a && (o + x)[1..] == o[1..] + x;
    }
  }

  /** The plan of a command line is a stable partition of it. */
  lemma {:induction false} ScanIsStable(cfg: Config, a: seq<string>, chars: string)
    requires chars != "" ==> a != []
    ensures Merges(a, Scan(cfg, a, chars).opts, Scan(cfg, a, chars).rest)
    decreases |a|, if chars != "" then |chars| else if a == [] then 0 else |a[0]|
  {
    if chars != "" {
      var st := ShortStep(cfg, chars, a[1..]);
      if st.chars != "" {
        ScanIsStable(cfg, a, st.chars);
      } else {
        NextIsStable(cfg, a, st.takes);
      }
    } else if a == [] {
    } else if NonOption(a[0]) {
      ScanIsStable(cfg, a[1..], "");
      var p := Scan(cfg, a[1..], "");
      assert ([a[0]] + p.rest)[1..] == p.rest && [] + p.opts == p.opts;
    } else if a[0] == "--" {
      MergesRest(a[1..]);
    } else if IsLong(cfg, a[0]) {
      NextIsStable(cfg, a, LongStep(cfg, a[0][2..], a[1..]).takes);
    } else {
      ScanIsStable(cfg, a, a[0][1..]);
    }
  }

  lemma {:induction false} NextIsStable(cfg: Config, a: seq<string>, takes: bool)
    requires a != [] && (takes ==> |a| > 1)
    ensures Merges(a, Next(cfg, a, takes).opts, Next(cfg, a, takes).rest)
    decreases |a|, 0
  {
    var k := if takes then 2 else 1;
    ScanIsStable(cfg, a[k..], "");
    var p := Scan(cfg, a[k..], "");
    MergesPrefix(a[..k], a[k..], p.opts, p.rest);
    assert a[..k] + a[k..] == a && [] + p.rest == p.rest;
  }

  /** The first k of the rest are operands; if there are more, they are all that followed a "--". */
  ghost predicate OperandsThenTail(a: seq<string>, opts: seq<string>, rest: seq<string>, k: nat) {
    && k <= |rest| <= |a|
    && (forall s :: s in rest[..k] ==> NonOption(s))
    && (k < |rest| ==> opts != [] && opts[|opts| - 1] == "--" && rest[k..] == a[|a| - (|rest| - k)..])
  }

  /** The same, as a name. */
  ghost predicate TailFrom(a: seq<string>, opts: seq<string>, rest: seq<string>, k: nat) {
    forall i {:trigger Unfolded(i)} :: i == k && Unfolded(i) ==> OperandsThenTail(a, opts, rest, i)
  }

  lemma TailAfterOption(a: seq<string>, n: nat, opts: seq<string>, rest: seq<string>, k: nat)
    requires n <= |a| && TailFrom(a[n..], opts, rest, k)
    ensures TailFrom(a, a[..n] + opts, [] + rest, k)
  {
    assert Unfolded(k);
    var m := |rest| - k;
    if m > 0 { assert a[|a| - m..] == a[n..][|a| - n - m..]; }
    assert [] + rest == rest;
  }

  lemma TailAfterOperand(a: seq<string>, opts: seq<string>, rest: seq<string>, k: nat)
    requires a != [] && NonOption(a[0]) && TailFrom(a[1..], opts, rest, k)
    ensures TailFrom(a, [] + opts, [a[0]] + rest, k + 1)
  {
    assert Unfolded(k);
    var all, m := [a[0]] + rest, |rest| - k;
    assert all[..k + 1] == [a[0]] + rest[..k] && all[k + 1..] == rest[k..] && [] + opts == opts;
    if m > 0 { assert a[|a| - m..] == a[1..][|a| - 1 - m..]; }
  }

  lemma TailAfterDashes(a: seq<string>)
    requires a != [] && a[0] == "--"
    ensures TailFrom(a, [a[0]], a[1..], 0)
  {
    var tail := a[1..];
    assert tail[0..] == tail && a[|a| - |tail|..] == tail;
  }

  lemma TailOfNothing()
    ensures TailFrom([], [], [], 0)
  {
  }

  lemma {:induction false} LeavesOperands(cfg: Config, a: seq<string>, chars: string) returns (k: nat)
    requires chars != "" ==> a != []
    ensures var p := Scan(cfg, a, chars); TailFrom(a, p.opts, p.rest, k)
    decreases |a|, if chars != "" then |chars| else if a == [] then 0 else |a[0]|
  {
    k := 0;
    if chars != "" {
      var st := ShortStep(cfg, chars, a[1..]);
      if st.chars != "" {
        k := LeavesOperands(cfg, a, st.chars);
      } else {
        k := NextLeavesOperands(cfg, a, st.takes);
      }
    } else if a == [] {
      TailOfNothing();
    } else if NonOption(a[0]) {
      k := LeavesOperands(cfg, a[1..], "");
      var p := Scan(cfg, a[1..], "");
      TailAfterOperand(a, p.opts, p.rest, k);
      k := k + 1;
    } else if a[0] == "--" {
      TailAfterDashes(a);
    } else if IsLong(cfg, a[0]) {
      k := NextLeavesOperands(cfg, a, LongStep(cfg, a[0][2..], a[1..]).takes);
    } else {
      k := LeavesOperands(cfg, a, a[0][1..]);
    }
  }

  lemma {:induction false} NextLeavesOperands(cfg: Config, a: seq<string>, takes: bool) returns (k: nat)
    requires a != [] && (takes ==> |a| > 1)
    ensures var p := Next(cfg, a, takes); TailFrom(a, p.opts, p.rest, k)
    decreases |a|, 0
  {
    var n := if takes then 2 else 1;
    k := LeavesOperands(cfg, a[n..], "");
    var p := Scan(cfg, a[n..], "");
    TailAfterOption(a, n, p.opts, p.rest, k);
  }

  /** What a scan leaves over are operands, and behind them, if there was a "--", everything that followed it. */
  lemma RestAreOperands(cfg: Config, a: seq<string>, chars: string) returns (k: nat)
    requires chars != "" ==> a != []
    ensures var p := Scan(cfg, a, chars); OperandsThenTail(a, p.opts, p.rest, k)
  {
    k := LeavesOperands(cfg, a, chars);
    assert Unfolded(k);
  }

  // ----- The scanner

  /** Swaps two adjacent blocks. */
  function BlocksSwapped(v: seq<string>, f: nat, l: nat, o: nat): (w: seq<string>)
    requires f <= l <= o <= |v|
    ensures |w| == |v|
  {
    v[..f] + v[l..o] + v[f..l] + v[o..]
  }

  function Rev(s: seq<string>): (r: seq<string>)
    ensures |r| == |s|
  {
    if s == [] then [] else Rev(s[1..]) + [s[0]]
  }

  lemma {:induction false} RevAt(s: seq<string>, k: nat)
    requires k < |s|
    ensures Rev(s)[k] == s[|s| - 1 - k]
  {
    if k < |s| - 1 { RevAt(s[1..], k); }
  }

  lemma RevOfTwo(x: seq<string>, y: seq<string>)
    ensures Rev(x + y) == Rev(y) + Rev(x)
  {
    forall k | 0 <= k < |x| + |y|
      ensures Rev(x + y)[k] == (Rev(y) + Rev(x))[k]
    {
      RevAt(x + y, k);
      if k < |y| { RevAt(y, k); } else { RevAt(x, k - |y|); }
    }
  }

  lemma RevTwice(s: seq<string>)
    ensures Rev(Rev(s)) == s
  {
    forall k | 0 <= k < |s|
      ensures Rev(Rev(s))[k] == s[k]
    {
      RevAt(Rev(s), k);
      RevAt(s, |s| - 1 - k);
    }
  }

  function Reversed(v: seq<string>, lo: nat, hi: nat): (w: seq<string>)
    requires lo <= hi <= |v|
    ensures |w| == |v|
  {
    v[..lo] + Rev(v[lo..hi]) + v[hi..]
  }

  lemma ReversedAt(v: seq<string>, lo: nat, hi: nat, k: nat)
    requires lo <= hi <= |v| && k < |v|
    ensures Reversed(v, lo, hi)[k] == v[if lo <= k < hi then lo + hi - 1 - k else k]
  {
    if lo <= k < hi { RevAt(v[lo..hi], k - lo); }
  }

  lemma ReversedBlock(a: seq<string>, x: seq<string>, b: seq<string>)
    ensures Reversed(a + x + b, |a|, |a| + |x|) == a + Rev(x) + b
  {
    var v, n := a + x + b, |a| + |x|;
    FrontAndBack(a + x, b);
    FrontAndBack(a, x);
    assert v[..|a|] == v[..n][..|a|];
    assert v[|a|..n] == v[..n][|a|..];
  }

  lemma FrontAndBack(a: seq<string>, b: seq<string>)
    ensures (a + b)[..|a|] == a && (a + b)[|a|..] == b
  {
  }

  lemma Regrouped(a: seq<string>, x: seq<string>, y: seq<string>, b: seq<string>)
    ensures a + x + y + b == a + (x + y) + b == a + x + (y + b) == (a + x) + y + b
  {
  }

  lemma ReversedWhole(a: seq<string>, x: seq<string>, y: seq<string>, b: seq<string>)
    ensures Reversed(a + x + y + b, |a|, |a| + |x| + |y|) == a + Rev(y) + Rev(x) + b
  {
    Regrouped(a, x, y, b);
    ReversedBlock(a, x + y, b);
    RevOfTwo(x, y);
    Regrouped(a, Rev(y), Rev(x), b);
  }

  lemma ReversedFirst(a: seq<string>, x: seq<string>, y: seq<string>, b: seq<string>)
    ensures Reversed(a + Rev(x) + y + b, |a|, |a| + |x|) == a + x + y + b
  {
    Regrouped(a, Rev(x), y, b);
    ReversedBlock(a, Rev(x), y + b);
    RevTwice(x);
    Regrouped(a, x, y, b);
  }

  lemma ReversedSecond(a: seq<string>, x: seq<string>, y: seq<string>, b: seq<string>)
    ensures Reversed(a + x + Rev(y) + b, |a| + |x|, |a| + |x| + |y|) == a + x + y + b
  {
    ReversedBlock(a + x, Rev(y), b);
    RevTwice(y);
  }

  /** Reversing two adjacent blocks as one and then each by itself swaps them and keeps the order inside each. */
  lemma ThreeReversals(a: seq<string>, x: seq<string>, y: seq<string>, b: seq<string>)
    ensures var f, m, o := |a|, |a| + |y|, |a| + |x| + |y|;
            Reversed(Reversed(Reversed(a + x + y + b, f, o), f, m), m, o) == a + y + x + b
  {
    ReversedWhole(a, x, y, b);
    ReversedFirst(a, y, Rev(x), b);
    ReversedSecond(a, y, x, b);
  }

  lemma ExchangeSwapsBlocks(v: seq<string>, v1: seq<string>, v2: seq<string>, v3: seq<string>,
                            f: nat, l: nat, o: nat)
    requires f <= l <= o <= |v| == |v1| == |v2|
    requires v1 == Reversed(v, f, o) && v2 == Reversed(v1, f, f + (o - l)) && v3 == Reversed(v2, f + (o - l), o)
    ensures v3 == BlocksSwapped(v, f, l, o)
  {
    FourParts(v, f, l, o);
    ThreeReversals(v[..f], v[f..l], v[l..o], v[o..]);
  }

  lemma FourParts(v: seq<string>, f: nat, l: nat, o: nat)
    requires f <= l <= o <= |v|
    ensures v == v[..f] + v[f..l] + v[l..o] + v[o..]
  {
    assert v[..f] + v[f..l] == v[..l];
    assert v[..l] + v[l..o] == v[..o];
  }

  /** Where v is while the scan of orig is under way: the options found so far surround the operands skipped so far. */
  ghost predicate Layout(v: seq<string>, orig: seq<string>, opts: seq<string>, nons: seq<string>,
                         f: nat, l: nat, o: nat) {
    && 1 <= f <= l <= o <= |v| == |orig|
    && (forall i {:trigger Unfolded(i)} :: i == o && Unfolded(i) ==>
          && v[..f] + v[l..i] == [orig[0]] + opts
          && v[f..l] == nons
          && v[i..] == orig[i..])
  }

  lemma LayoutTakes(v: seq<string>, orig: seq<string>, opts: seq<string>, nons: seq<string>,
                    f: nat, l: nat, o: nat, o': nat)
    requires Layout(v, orig, opts, nons, f, l, o) && o <= o' <= |v|
    ensures Layout(v, orig, opts + orig[o..o'], nons, f, l, o')
  {
    assert Unfolded(o);
    assert v[o..o'] == orig[o..o'] by {
      assert v[o..o'] == v[o..][..o' - o] && orig[o..o'] == orig[o..][..o' - o];
    }
    assert v[l..o'] == v[l..o] + v[o..o'];
    assert v[..f] + v[l..o'] == (v[..f] + v[l..o]) + orig[o..o'];
    assert v[o'..] == v[o..][o' - o..] && orig[o'..] == orig[o..][o' - o..];
  }

  /** Exchanging brings the options together. */
  lemma LayoutExchanged(v: seq<string>, orig: seq<string>, opts: seq<string>, nons: seq<string>,
                        f: nat, l: nat, o: nat)
    requires Layout(v, orig, opts, nons, f, l, o)
    ensures Layout(BlocksSwapped(v, f, l, o), orig, opts, nons, f + (o - l), o, o)
  {
    assert Unfolded(o);
    var w, m := BlocksSwapped(v, f, l, o), f + (o - l);
    assert w[..m] == v[..f] + v[l..o] && w[m..o] == v[f..l] && w[o..] == v[o..] && w[o..o] == [];
    assert w[..m] + w[o..o] == w[..m];
  }

  lemma StartLayout(v: seq<string>, orig: seq<string>)
    requires v == orig && |orig| > 0
    ensures Layout(v, orig, [], [], 1, 1, 1)
  {
    assert v[..1] + v[1..1] == [orig[0]] + [];
  }

  lemma LayoutSettles(v: seq<string>, orig: seq<string>, opts: seq<string>, nons: seq<string>, f: nat, o: nat)
    requires Layout(v, orig, opts, nons, f, o, o)
    ensures v[..f] == [orig[0]] + opts && v[f..] == nons + orig[o..]
  {
    assert Unfolded(o);
    assert v[o..o] == [] && v[..f] + [] == v[..f];
    assert v[f..] == v[f..o] + v[o..];
  }

  /** Skipping an operand right behind the operands skipped before. */
  lemma LayoutSkips(v: seq<string>, orig: seq<string>, opts: seq<string>, nons: seq<string>, f: nat, o: nat)
    requires Layout(v, orig, opts, nons, f, o, o) && o < |v|
    ensures v[o] == orig[o]
    ensures Layout(v, orig, opts, nons + [orig[o]], f, o + 1, o + 1)
  {
    assert Unfolded(o);
    assert v[o] == v[o..][0] == orig[o..][0];
    assert v[f..o + 1] == v[f..o] + [v[o]];
    assert v[o + 1..] == v[o..][1..] && orig[o + 1..] == orig[o..][1..];
    assert v[..f] + v[o + 1..o + 1] == v[..f] + v[o..o];
  }

  lemma DashesPlan(cfg: Config, orig: seq<string>, opts: seq<string>, nons: seq<string>, o: nat)
    requires o < |orig| && orig[o] == "--"
    ensures After(opts, nons, Scan(cfg, orig[o..], "")) == Plan(opts + ["--"], nons + orig[o + 1..], [])
  {
    var a := orig[o..];
    assert a[0] == "--" && a[1..] == orig[o + 1..];
  }

  /** A "--" moved in front of the skipped operands ends the plan: the rest stays behind them. */
  lemma DashesEnd(cfg: Config, v: seq<string>, orig: seq<string>, opts: seq<string>, nons: seq<string>, f: nat, o: nat)
    requires Layout(v, orig, opts, nons, f, o, o) && o < |orig| && orig[o] == "--"
    ensures var w, p := BlocksSwapped(v, f, o, o + 1), After(opts, nons, Scan(cfg, orig[o..], ""));
            && p.events == []
            && w[..f + 1] == [orig[0]] + p.opts && w[f + 1..] == p.rest
            && (f == o ==> w == v)
  {
    DashesPlan(cfg, orig, opts, nons, o);
    assert orig[o..o + 1] == ["--"];
    LayoutTakes(v, orig, opts, nons, f, o, o, o + 1);
    LayoutExchanged(v, orig, opts + ["--"], nons, f, o, o + 1);
    LayoutSettles(BlocksSwapped(v, f, o, o + 1), orig, opts + ["--"], nons, f + 1, o + 1);
  }

  /** What lies ahead has not been moved. */
  lemma LayoutAhead(v: seq<string>, orig: seq<string>, opts: seq<string>, nons: seq<string>, f: nat, l: nat, o: nat)
    requires Layout(v, orig, opts, nons, f, l, o) && o < |v|
    ensures v[o] == orig[o] == orig[o..][0] && v[o + 1..] == orig[o + 1..] == orig[o..][1..]
  {
    assert Unfolded(o);
    assert v[o] == v[o..][0] && v[o + 1..] == v[o..][1..];
  }

  /** An option element is either one long option or a cluster. */
  lemma EnterElement(cfg: Config, a: seq<string>)
    requires a != [] && !NonOption(a[0]) && a[0] != "--"
    ensures IsLong(cfg, a[0]) ==>
              && |a[0]| > 2
              && var st := LongStep(cfg, a[0][2..], a[1..]);
                 Scan(cfg, a, "") == Reported(st.event, Next(cfg, a, st.takes))
    ensures !IsLong(cfg, a[0]) ==> Scan(cfg, a, "") == Scan(cfg, a, a[0][1..])
  {
  }

  lemma SkipKeepsPlan(cfg: Config, orig: seq<string>, opts: seq<string>, nons: seq<string>, o: nat)
    requires o < |orig| && NonOption(orig[o])
    ensures After(opts, nons + [orig[o]], Scan(cfg, orig[o + 1..], "")) == After(opts, nons, Scan(cfg, orig[o..], ""))
  {
    var a, p := orig[o..], Scan(cfg, orig[o + 1..], "");
    assert a[0] == orig[o] && a[1..] == orig[o + 1..];
    assert Scan(cfg, a, "") == After([], [a[0]], p);
    assert [] + p.opts == p.opts;
    assert nons + ([a[0]] + p.rest) == (nons + [a[0]]) + p.rest;
  }

  /** Taking the step st from the element at o keeps the plan but for the event it reports. */
  lemma StepKeepsPlan(cfg: Config, orig: seq<string>, opts: seq<string>, nons: seq<string>, o: nat, takes: bool)
    requires o < |orig| && (takes ==> o + 1 < |orig|)
    ensures var o' := o + if takes then 2 else 1;
            After(opts + orig[o..o'], nons, Scan(cfg, orig[o'..], "")) == After(opts, nons, Next(cfg, orig[o..], takes))
  {
    var a, o' := orig[o..], o + if takes then 2 else 1;
    var p := Scan(cfg, orig[o'..], "");
    assert a[o' - o..] == orig[o'..] && a[..o' - o] == orig[o..o'];
    assert opts + (orig[o..o'] + p.opts) == (opts + orig[o..o']) + p.opts;
    assert [] + p.rest == p.rest;
  }

  /** The element at which the scan goes on after one character of the cluster at o. */
  function AfterShort(o: nat, st: Step): nat {
    if st.chars != "" then o else if st.takes then o + 2 else o + 1
  }

  lemma ShortKeepsPlan(cfg: Config, orig: seq<string>, opts: seq<string>, nons: seq<string>, o: nat, chars: string)
    requires o < |orig| && chars != ""
    ensures var st := ShortStep(cfg, chars, orig[o + 1..]);
            var o' := AfterShort(o, st);
            && o' <= |orig|
            && After(opts, nons, Scan(cfg, orig[o..], chars)) ==
               Reported(st.event, After(opts + orig[o..o'], nons, Scan(cfg, orig[o'..], st.chars)))
  {
    assert orig[o..][1..] == orig[o + 1..];
    var st := ShortStep(cfg, chars, orig[o + 1..]);
    if st.chars == "" {
      StepKeepsPlan(cfg, orig, opts, nons, o, st.takes);
    } else {
      assert opts + orig[o..o] == opts;
    }
  }

  lemma {:induction false} ReportsAreNotEof(cfg: Config, a: seq<string>, chars: string)
    requires Permuting(cfg) && (chars != "" ==> a != [])
    ensures forall e :: e in Scan(cfg, a, chars).events ==> e.report.code != EOF
    decreases |a|, if chars != "" then |chars| else if a == [] then 0 else |a[0]|
  {
    if chars != "" {
      var st := ShortStep(cfg, chars, a[1..]);
      if st.chars != "" {
        ReportsAreNotEof(cfg, a, st.chars);
      } else {
        ReportsAreNotEof(cfg, a[if st.takes then 2 else 1..], "");
      }
    } else if a == [] {
    } else if NonOption(a[0]) {
      ReportsAreNotEof(cfg, a[1..], "");
    } else if a[0] == "--" {
    } else if IsLong(cfg, a[0]) {
      var st := LongStep(cfg, a[0][2..], a[1..]);
      ReportsAreNotEof(cfg, a[if st.takes then 2 else 1..], "");
    } else {
      ReportsAreNotEof(cfg, a, a[0][1..]);
    }
  }

  /** The first n events have been reported, and the call that reports the next one, if any, has been made. */
  ghost predicate Reporting(g0: Globals, events: seq<Event>, n: nat, reports: seq<Report>, g: Globals,
                            code: int, optarg: Option<string>, longind: int) {
    && n <= |events|
    && forall i {:trigger Unfolded(i)} :: i == n && Unfolded(i) ==>
         && reports == Reports(events[..i])
         && if i < |events| then
              Report(code, optarg, longind) == events[i].report && g == AllAffected(g0, events[..i + 1])
            else g == AllAffected(g0, events)
  }

  lemma FirstReport(g0: Globals, events: seq<Event>, g: Globals, code: int, optarg: Option<string>, longind: int)
    requires if events == [] then g == g0
             else Report(code, optarg, longind) == events[0].report && g == Affected(g0, events[0].effect)
    ensures Reporting(g0, events, 0, [], g, code, optarg, longind)
  {
    if events != [] { assert events[..1][..0] == []; }
  }

  lemma NextReport(g0: Globals, events: seq<Event>, n: nat, reports: seq<Report>, g: Globals,
                   code: int, optarg: Option<string>, longind: int,
                   g': Globals, code': int, optarg': Option<string>, longind': int)
    requires n < |events| && Reporting(g0, events, n, reports, g, code, optarg, longind)
    requires if n + 1 == |events| then g' == g
             else Report(code', optarg', longind') == events[n + 1].report && g' == Affected(g, events[n + 1].effect)
    ensures Reporting(g0, events, n + 1, reports + [Report(code, optarg, longind)], g', code', optarg', longind')
  {
    assert Unfolded(n);
    assert reports + [events[n].report] == Reports(events[..n + 1]);
    if n + 1 == |events| {
      assert events[..n + 1] == events;
    } else {
      assert events[..n + 2][..n + 1] == events[..n + 1];
    }
  }

  lemma EventsLeft(events: seq<Event>, n: nat)
    requires n < |events|
    ensures var left := events[n + 1..];
            if n + 1 == |events| then left == [] else left != [] && left[0] == events[n + 1] && left[1..] == events[n + 2..]
  {
  }

  lemma LastReport(g0: Globals, events: seq<Event>, reports: seq<Report>, g: Globals,
                   code: int, optarg: Option<string>, longind: int)
    requires Reporting(g0, events, |events|, reports, g, code, optarg, longind)
    ensures reports == Reports(events) && g == AllAffected(g0, events)
  {
    assert Unfolded(|events|);
    assert events[..|events|] == events;
  }

  class Scanner {
    const argv: array<string>
    const cfg: Config
    var optind: nat
    var nextchar: string
    var first_nonopt: nat
    var last_nonopt: nat
    var optarg: Option<string>
    var longind: int
    var globals: Globals
    ghost const orig: seq<string>
    ghost var opts: seq<string>
    ghost var nons: seq<string>
    ghost var finished: bool

    ghost predicate Valid()
      reads this, argv
    {
      && Permuting(cfg)
      && |orig| == argv.Length > 0
      && (finished || if optind == 0 then argv[..] == orig else Scanning())
    }

    ghost predicate Scanning()
      reads this, argv
    {
      && Layout(argv[..], orig, opts, nons, first_nonopt, last_nonopt, optind)
      && (nextchar != "" ==> optind < |orig| && !NonOption(orig[optind]) && !IsLong(cfg, orig[optind]))
    }

    /** What the whole scan will have done, with the reports that are still to come. */
    ghost function Outlook(): Plan
      requires Valid() && !finished
      reads this, argv
    {
      if optind == 0 then Scan(cfg, orig[1..], "") else After(opts, nons, Scan(cfg, orig[optind..], nextchar))
    }

    /** The end of the scan: argv is rearranged and optind is the index of the first operand. */
    ghost predicate Rearranged(p: Plan)
      requires |orig| > 0
      reads this, argv
    {
      argv[..] == [orig[0]] + p.opts + p.rest && optind == 1 + |p.opts|
    }

    constructor (argv: array<string>, cfg: Config)
      requires Permuting(cfg) && argv.Length > 0
      ensures Valid() && !finished && this.argv == argv && this.cfg == cfg
      ensures Outlook() == Scan(cfg, argv[1..], "") && orig == argv[..] && globals == Globals(BAD_OPTION, map[])
    {
      this.argv, this.cfg, this.optind := argv, cfg, 0;
      this.orig, this.opts, this.nons, this.finished := argv[..], [], [], false;
      this.nextchar, this.first_nonopt, this.last_nonopt := "", 0, 0;
      this.optarg, this.longind, this.globals := None, -1, Globals(BAD_OPTION, map[]);
    }

    method ReverseRange(lo: nat, hi: nat)
      requires lo <= hi <= argv.Length
      modifies argv
      ensures argv[..] == Reversed(old(argv[..]), lo, hi)
    {
      var first, last := lo, hi - 1;
      while first < last
        invariant lo <= first && last < hi && first + last == lo + hi - 1 && first <= last + 2
        invariant forall k :: 0 <= k < argv.Length ==>
                    argv[k] == old(argv[if lo <= k < first || last < k < hi then lo + hi - 1 - k else k])
      {
        argv[first], argv[last] := argv[last], argv[first];
        first, last := first + 1, last - 1;
      }
      ghost var v := old(argv[..]);
      forall k | 0 <= k < argv.Length
        ensures argv[k] == Reversed(v, lo, hi)[k]
      {
        ReversedAt(v, lo, hi, k);
      }
    }

    /** Exchanges the skipped operands with the options that follow them, by three reversals. */
    method Exchange()
      requires first_nonopt <= last_nonopt <= optind <= argv.Length
      modifies argv, this`first_nonopt, this`last_nonopt
      ensures argv[..] == BlocksSwapped(old(argv[..]), old(first_nonopt), old(last_nonopt), optind)
      ensures first_nonopt == old(first_nonopt) + (optind - old(last_nonopt)) && last_nonopt == optind
    {
      ghost var v, f, l, o := argv[..], first_nonopt, last_nonopt, optind;
      ReverseRange(first_nonopt, optind);
      ghost var v1 := argv[..];
      var first := first_nonopt;
      first_nonopt := first_nonopt + (optind - last_nonopt);
      assert argv[..] == v1;
      ReverseRange(first, first_nonopt);
      ghost var v2 := argv[..];
      last_nonopt := optind;
      assert argv[..] == v2;
      ReverseRange(first_nonopt, last_nonopt);
      ExchangeSwapsBlocks(v, v1, v2, argv[..], f, l, o);
    }

    /** One call: reports the next option, or the end. */
    method GetOpt() returns (code: int)
      requires Valid() && !finished
      modifies this, argv
      ensures Valid()
      ensures var p := old(Outlook());
              if p.events == [] then
                code == EOF && finished && Rearranged(p) && globals == old(globals)
              else
                && !finished && Report(code, optarg, longind) == p.events[0].report
                && globals == Affected(old(globals), p.events[0].effect)
                && Outlook() == Plan(p.opts, p.rest, p.events[1..])
    {
      longind := -1;
      optarg := None;
      Initialize();
      var done := Enter();
      if done {
        finished := true;
        return EOF;
      }
      if cfg.longopts.Some? && argv[optind][1] == '-' {
        code := ReportLong();
      } else {
        code := ReportShort();
      }
    }

    /** Goes to the next option element unless a cluster is being read. */
    method Enter() returns (done: bool)
      requires Valid() && !finished && optind > 0
      modifies argv, this`first_nonopt, this`last_nonopt, this`optind, this`nextchar, this`nons, this`opts
      ensures done ==> old(Outlook()).events == [] && Rearranged(old(Outlook()))
      ensures !done ==>
                && 0 < optind < |orig| && argv[optind] == orig[optind] && !NonOption(orig[optind])
                && Layout(argv[..], orig, opts, nons, first_nonopt, last_nonopt, optind)
                && if IsLong(cfg, orig[optind]) then
                     orig[optind] != "--" && After(opts, nons, Scan(cfg, orig[optind..], "")) == old(Outlook())
                   else nextchar != "" && After(opts, nons, Scan(cfg, orig[optind..], nextchar)) == old(Outlook())
    {
      done := false;
      if nextchar == "" {
        done := Advance();
        if done {
          return;
        }
        EnterElement(cfg, orig[optind..]);
        LayoutAhead(argv[..], orig, opts, nons, first_nonopt, last_nonopt, optind);
        var dashes := if cfg.longopts.Some? && argv[optind][1] == '-' then 2 else 1;
        nextchar := argv[optind][dashes..];
      } else {
        LayoutAhead(argv[..], orig, opts, nons, first_nonopt, last_nonopt, optind);
      }
    }

    /** The first call of a scan. */
    method Initialize()
      requires Valid() && !finished
      modifies this`first_nonopt, this`last_nonopt, this`optind, this`nextchar, this`opts, this`nons
      ensures Valid() && optind > 0 && Outlook() == old(Outlook())
    {
      if optind == 0 {
        first_nonopt, last_nonopt, optind := 1, 1, 1;
        nextchar, opts, nons := "", [], [];
        StartLayout(argv[..], orig);
        AfterNothing(Scan(cfg, orig[1..], ""));
      }
    }

    static lemma AfterNothing(p: Plan)
      ensures After([], [], p) == p
    {
    }

    /** A long option and its effect on the scan. */
    method ReportLong() returns (code: int)
      requires Permuting(cfg) && |orig| == argv.Length && 0 < optind < |orig|
      requires Layout(argv[..], orig, opts, nons, first_nonopt, last_nonopt, optind)
      requires !NonOption(orig[optind]) && IsLong(cfg, orig[optind]) && orig[optind] != "--"
      requires optarg == None && longind == -1 && !finished
      modifies this`optind, this`nextchar, this`optarg, this`longind, this`globals, this`opts
      ensures Valid() && optind > 0
      ensures var p := old(After(opts, nons, Scan(cfg, orig[optind..], "")));
              && p.events != [] && Report(code, optarg, longind) == p.events[0].report
              && globals == Affected(old(globals), p.events[0].effect)
              && Outlook() == Plan(p.opts, p.rest, p.events[1..])
    {
      ghost var o, a := optind, orig[optind..];
      LayoutAhead(argv[..], orig, opts, nons, first_nonopt, last_nonopt, optind);
      EnterElement(cfg, a);
      ghost var st := LongStep(cfg, a[0][2..], a[1..]);
      ghost var next := if st.takes then o + 2 else o + 1;
      LayoutTakes(argv[..], orig, opts, nons, first_nonopt, last_nonopt, o, next);
      StepKeepsPlan(cfg, orig, opts, nons, o, st.takes);
      code := LongOption();
      assert optind == next;
      opts := opts + orig[o..next];
    }

    /** One character of a cluster and its effect on the scan. */
    method ReportShort() returns (code: int)
      requires Permuting(cfg) && |orig| == argv.Length && 0 < optind && nextchar != ""
      requires Scanning()
      requires optarg == None && longind == -1 && !finished
      modifies this`optind, this`nextchar, this`optarg, this`globals, this`opts
      ensures Valid() && optind > 0
      ensures var p := old(After(opts, nons, Scan(cfg, orig[optind..], nextchar)));
              && p.events != [] && Report(code, optarg, longind) == p.events[0].report
              && globals == Affected(old(globals), p.events[0].effect)
              && Outlook() == Plan(p.opts, p.rest, p.events[1..])
    {
      ghost var o, a := optind, orig[optind..];
      LayoutAhead(argv[..], orig, opts, nons, first_nonopt, last_nonopt, optind);
      ghost var st := ShortStep(cfg, nextchar, a[1..]);
      ghost var next := AfterShort(o, st);
      LayoutTakes(argv[..], orig, opts, nons, first_nonopt, last_nonopt, o, next);
      ShortKeepsPlan(cfg, orig, opts, nons, o, nextchar);
      code := ShortOption();
      assert optind == next;
      opts := opts + orig[o..next];
    }

    /** Calls GetOpt until the end: argv is a stable partition of what it was, and the reports are
        those of a scan that permutes nothing. */
    method ScanAll() returns (reports: seq<Report>)
      requires Valid() && !finished
      modifies this, argv
      ensures reports == Reports(old(Outlook()).events)
      ensures globals == AllAffected(old(globals), old(Outlook()).events)
      ensures Rearranged(old(Outlook()))
    {
      reports := [];
      ghost var p, g, n := Outlook(), globals, 0;
      if optind == 0 { ReportsAreNotEof(cfg, orig[1..], ""); } else { ReportsAreNotEof(cfg, orig[optind..], nextchar); }
      var code := GetOpt();
      FirstReport(g, p.events, globals, code, optarg, longind);
      while code != EOF
        invariant Valid() && n <= |p.events|
        invariant forall e :: e in p.events ==> e.report.code != EOF
        invariant Reporting(g, p.events, n, reports, globals, code, optarg, longind)
        invariant n < |p.events| ==> code == p.events[n].report.code
        invariant if n == |p.events| then code == EOF && Rearranged(p)
                  else !finished && Outlook() == Plan(p.opts, p.rest, p.events[n + 1..])
        decreases |p.events| - n
      {
        ghost var told, g1, code1, optarg1, longind1 := reports, globals, code, optarg, longind;
        EventsLeft(p.events, n);
        reports := reports + [Report(code, optarg, longind)];
        code := GetOpt();
        NextReport(g, p.events, n, told, g1, code1, optarg1, longind1, globals, code, optarg, longind);
        n := n + 1;
      }
      LastReport(g, p.events, reports, globals, code, optarg, longind);
    }

    /** The skip to the next option element: gathers the options found so far in front of the operands, passes
        further operands, and stops at "--" or at the end. In PERMUTE mode the element it stops at is never an operand. */
    method Advance() returns (done: bool)
      requires Valid() && !finished && optind > 0 && nextchar == ""
      modifies argv, this`first_nonopt, this`last_nonopt, this`optind, this`nons, this`opts
      ensures done ==> old(Outlook()).events == [] && Rearranged(old(Outlook()))
      ensures !done ==>
                && Scanning() && optind > 0
                && optind < |orig| && !NonOption(orig[optind]) && orig[optind] != "--"
                && After(opts, nons, Scan(cfg, orig[optind..], "")) == old(Outlook())
    {
      ghost var p := Outlook();
      SkipOperands();
      if optind != argv.Length && argv[optind] == "--" {
        EndOfOptions();
      }
      done := optind == argv.Length;
      if done {
        SettledWhole(argv[..], orig[0], p, first_nonopt);
        if first_nonopt != last_nonopt {
          optind := first_nonopt;
        }
      }
    }

    /** The first operand position holds, everything before it is options. */
    ghost predicate Settled(p: Plan)
      requires |orig| > 0
      reads this, argv
    {
      && 1 <= first_nonopt <= argv.Length
      && argv[..first_nonopt] == [orig[0]] + p.opts
      && argv[first_nonopt..] == p.rest
    }

    static lemma SettledWhole(v: seq<string>, program: string, p: Plan, f: nat)
      requires f <= |v| && v[..f] == [program] + p.opts && v[f..] == p.rest
      ensures v == [program] + p.opts + p.rest && f == 1 + |p.opts|
    {
      assert v == v[..f] + v[f..];
    }

    method SkipOperands()
      requires Valid() && !finished && optind > 0 && nextchar == ""
      modifies argv, this`first_nonopt, this`last_nonopt, this`optind, this`nons
      ensures Layout(argv[..], orig, opts, nons, first_nonopt, optind, optind) && last_nonopt == optind
      ensures After(opts, nons, Scan(cfg, orig[optind..], "")) == old(Outlook())
      ensures optind < |orig| ==> argv[optind] == orig[optind] && !NonOption(orig[optind])
      ensures optind == |orig| ==> old(Outlook()).events == [] && Settled(old(Outlook()))
    {
      Gather();
      while optind < argv.Length && NonOption(argv[optind])
        invariant Layout(argv[..], orig, opts, nons, first_nonopt, optind, optind)
        invariant After(opts, nons, Scan(cfg, orig[optind..], "")) == old(Outlook())
      {
        LayoutSkips(argv[..], orig, opts, nons, first_nonopt, optind);
        SkipKeepsPlan(cfg, orig, opts, nons, optind);
        nons := nons + [orig[optind]];
        optind := optind + 1;
      }
      last_nonopt := optind;
      if optind < |orig| {
        LayoutSkips(argv[..], orig, opts, nons, first_nonopt, optind);
      } else {
        LayoutSettles(argv[..], orig, opts, nons, first_nonopt, optind);
        assert opts + [] == opts && nons + [] == nons;
      }
    }

    /** Takes a "--" like an option, then everything behind it like operands. */
    method EndOfOptions()
      requires |orig| == argv.Length && optind < |orig| && orig[optind] == "--" && last_nonopt == optind
      requires Layout(argv[..], orig, opts, nons, first_nonopt, optind, optind)
      modifies argv, this`first_nonopt, this`last_nonopt, this`optind
      ensures optind == last_nonopt == argv.Length
      ensures var p := old(After(opts, nons, Scan(cfg, orig[optind..], "")));
              p.events == [] && Settled(p)
    {
      DashesEnd(cfg, argv[..], orig, opts, nons, first_nonopt, optind);
      optind := optind + 1;
      if first_nonopt != last_nonopt && last_nonopt != optind {
        Exchange();
      } else if first_nonopt == last_nonopt {
        first_nonopt := optind;
      }
      last_nonopt := argv.Length;
      optind := argv.Length;
    }

    method Gather()
      requires Valid() && !finished && optind > 0
      modifies argv, this`first_nonopt, this`last_nonopt
      ensures Layout(argv[..], orig, opts, nons, first_nonopt, optind, optind)
    {
      ghost var v, f, l := argv[..], first_nonopt, last_nonopt;
      LayoutExchanged(v, orig, opts, nons, f, l, optind);
      if first_nonopt != last_nonopt && last_nonopt != optind {
        Exchange();
      } else if last_nonopt != optind {
        first_nonopt := optind;
        assert BlocksSwapped(v, f, l, optind) == v;
      } else {
        assert BlocksSwapped(v, f, l, optind) == v;
      }
    }

    /** The loop over the long options; ambiguity and options that may not be abbreviated matter only
        when no name is exact. */
    method FindLong(key: string) returns (pfound: Option<nat>, rejected: bool)
      requires cfg.longopts.Some?
      ensures rejected <==> LookUp(cfg.longopts.value, key) == Rejected
      ensures !rejected ==>
                LookUp(cfg.longopts.value, key) == if pfound.None? then NotFound else Found(pfound.value)
    {
      var opts := cfg.longopts.value;
      var exact, ambig, needexact := false, false, false;
      pfound := None;
      var p := 0;
      LookingStarts(opts, key);
      while p < |opts|
        invariant 0 <= p <= |opts| && !exact
        invariant Looking(opts, key, p, pfound, ambig, needexact)
      {
        LookingStep(opts, key, p, pfound, ambig, needexact);
        if key <= opts[p].name {
          if opts[p].exact { needexact := true; }
          if |key| == |opts[p].name| {
            pfound, exact := Some(p), true;
            break;
          } else if pfound.None? {
            pfound := Some(p);
          } else {
            ambig := true;
          }
        }
        p := p + 1;
      }
      if !exact { LookingEnds(opts, key, pfound, ambig, needexact); }
      rejected := !exact && (needexact || ambig);
    }

    method LongOption() returns (code: int)
      requires cfg.longopts.Some? && optind < argv.Length && |argv[optind]| > 2
      requires optarg == None && longind == -1
      modifies this`optind, this`nextchar, this`optarg, this`longind, this`globals
      ensures var st := LongStep(cfg, old(argv[optind])[2..], old(argv[optind + 1..]));
              && Report(code, optarg, longind) == st.event.report
              && globals == Affected(old(globals), st.event.effect)
              && optind == old(optind) + (if st.takes then 2 else 1)
      ensures nextchar == ""
    {
      var text := argv[optind][2..];
      var n := NameLength(text);
      nextchar := "";
      var pfound, rejected := FindLong(text[..n]);
      optind := optind + 1;
      if rejected || pfound.None? {
        return BAD_OPTION;
      }
      var o := cfg.longopts.value[pfound.value];
      var have_arg := n < |text|;
      if have_arg && o.kind != 0 {
        have_arg := n + 1 < |text|;
      }
      if have_arg {
        if o.kind != 0 {
          optarg := Some(text[n + 1..]);
        } else {
          return BAD_OPTION;
        }
      } else if o.kind == REQUIRED {
        if optind < argv.Length && !o.joined {
          optarg := Some(argv[optind]);
          optind := optind + 1;
        } else {
          return MissingArgument(cfg.optstring);
        }
      }
      longind := pfound.value;
      if o.flag.Some? {
        globals := globals.(variables := globals.variables[o.flag.value := o.val]);
        return 0;
      }
      return o.val;
    }

    method ShortOption() returns (code: int)
      requires optind < argv.Length && nextchar != "" && optarg == None
      modifies this`optind, this`nextchar, this`optarg, this`globals
      ensures var st := ShortStep(cfg, old(nextchar), old(argv[optind + 1..]));
              && Report(code, optarg, -1) == st.event.report && nextchar == st.chars
              && globals == Affected(old(globals), st.event.effect)
              && optind == old(optind) + (if st.chars != "" then 0 else if st.takes then 2 else 1)
    {
      var optstring := cfg.optstring;
      var c := nextchar[0];
      nextchar := nextchar[1..];
      var temp := StrChr(optstring, c);
      if nextchar == "" {
        optind := optind + 1;
      }
      if temp.None? || c == ':' {
        globals := globals.(optopt := Code(cfg, c));
        return BAD_OPTION;
      }
      code := Code(cfg, c);
      var t := temp.value;
      if t + 1 < |optstring| && optstring[t + 1] == ':' {
        if t + 2 < |optstring| && optstring[t + 2] == ':' {
          if nextchar != "" {
            optarg := Some(nextchar);
            optind := optind + 1;
          }
        } else {
          if nextchar != "" {
            optarg := Some(nextchar);
            optind := optind + 1;
          } else if optind == argv.Length {
            globals := globals.(optopt := Code(cfg, c));
            code := MissingArgument(optstring);
          } else {
            optarg := Some(argv[optind]);
            optind := optind + 1;
          }
        }
        nextchar := "";
      }
    }
  }

  lemma RearrangedParts(v: seq<string>, head: string, p: Plan)
    requires v == [head] + p.opts + p.rest
    ensures v[1..1 + |p.opts|] == p.opts && v[1 + |p.opts|..] == p.rest
  {
  }

  /** A whole scan from optind = 0: what precedes optind are the options, their arguments and "--", what follows
      are the operands, both in their original order, and reports and effects are those of the unpermuted command
      line. */
  method ParseCommandLine(argv: array<string>, cfg: Config)
      returns (optind: nat, reports: seq<Report>, globals: Globals)
    requires Permuting(cfg) && argv.Length > 0
    modifies argv
    ensures 1 <= optind <= argv.Length && argv[0] == old(argv[0])
    ensures Merges(old(argv[1..]), argv[1..optind], argv[optind..])
    ensures var p := Scan(cfg, old(argv[1..]), "");
            && argv[1..optind] == p.opts && argv[optind..] == p.rest
            && reports == Reports(p.events) && globals == AllAffected(Globals(BAD_OPTION, map[]), p.events)
  {
    ghost var p := Scan(cfg, argv[1..], "");
    ScanIsStable(cfg, argv[1..], "");
    var scanner := new Scanner(argv, cfg);
    reports := scanner.ScanAll();
    optind, globals := scanner.optind, scanner.globals;
    RearrangedParts(argv[..], scanner.orig[0], p);
    assert argv[1..optind] == argv[..][1..optind] && argv[optind..] == argv[..][optind..];
    assert |argv[..]| == 1 + |p.opts| + |p.rest|;
  }
}
