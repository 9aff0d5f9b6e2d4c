/** What command lines are written like, and that the option scanner reads them so: a declaration of the short options
    is rendered as an option string, a list of options, arguments and operands as a command line. */
module GetoptForms {
  import opened Ctypes
  import opened Getopt

  // ----- The declaration of the short options

  datatype Arity = NoArgument | Required | Optional

  datatype Declaration = Declaration(c: char, arity: Arity)

  /** quiet is the leading colon, which makes a missing argument a ':'. */
  datatype Format = Format(quiet: bool, decls: seq<Declaration>)

  function Colons(arity: Arity): string {
    match arity
    case NoArgument => ""
    case Required => ":"
    case Optional => "::"
  }

  function Rendered(decls: seq<Declaration>): string {
    if decls == [] then "" else [decls[0].c] + Colons(decls[0].arity) + Rendered(decls[1..])
  }

  ghost predicate Describes(f: Format, cfg: Config) {
    && (forall k :: 0 <= k < |f.decls| ==> f.decls[k].c != ':')
    && cfg.optstring == (if f.quiet then ":" else "") + Rendered(f.decls)
  }

  /** How c is declared, for the first time. */
  function Declared(decls: seq<Declaration>, c: char): Option<Arity> {
    if decls == [] then None
    else if decls[0].c == c then Some(decls[0].arity)
    else Declared(decls[1..], c)
  }

  predicate TakesArgument(a: Option<Arity>) {
    a == Some(Required) || a == Some(Optional)
  }

  function KindOfArity(a: Option<Arity>): Kind {
    match a
    case None => Unknown
    case Some(NoArgument) => Plain
    case Some(Required) => RequiredArg
    case Some(Optional) => OptionalArg
  }

  lemma KindPast(s: string, c: char)
    requires s != "" && s[0] != c
    ensures KindOf(s, c) == KindOf(s[1..], c)
  {
    var t := s[1..];
    match StrChr(t, c) {
      case None =>
      case Some(i) => assert s[i + 1..] == t[i..];
    }
  }

  lemma KindPastColons(arity: Arity, s: string, c: char)
    requires c != ':'
    ensures KindOf(Colons(arity) + s, c) == KindOf(s, c)
  {
    var t := Colons(arity) + s;
    match arity {
      case NoArgument => assert t == s;
      case Required => KindPast(t, c); assert t[1..] == s;
      case Optional => KindPast(t, c); KindPast(t[1..], c); assert t[1..][1..] == s;
    }
  }

  lemma KindHere(d: Declaration, s: string)
    requires d.c != ':' && (s != "" ==> s[0] != ':')
    ensures KindOf([d.c] + Colons(d.arity) + s, d.c) == KindOfArity(Some(d.arity))
  {
    var t := [d.c] + Colons(d.arity) + s;
    assert t[0] == d.c;
    match d.arity {
      case NoArgument => assert t[1..] == s;
      case Required => assert t[1] == ':' && t[2..] == s;
      case Optional => assert t[1] == ':' && t[2] == ':';
    }
  }

  lemma {:induction false} KindIsRendered(decls: seq<Declaration>, c: char)
    requires c != ':' && forall k :: 0 <= k < |decls| ==> decls[k].c != ':'
    ensures KindOf(Rendered(decls), c) == KindOfArity(Declared(decls, c))
  {
    if decls != [] {
      var d, rest := decls[0], Rendered(decls[1..]);
      assert |decls| > 1 ==> rest[0] == decls[1].c;
      if d.c == c {
        KindHere(d, rest);
      } else {
        var s := [d.c] + Colons(d.arity) + rest;
        KindPast(s, c);
        assert s[1..] == Colons(d.arity) + rest;
        KindPastColons(d.arity, rest, c);
        KindIsRendered(decls[1..], c);
      }
    }
  }

  lemma {:induction false} ColonIsNotDeclared(decls: seq<Declaration>)
    requires forall k :: 0 <= k < |decls| ==> decls[k].c != ':'
    ensures Declared(decls, ':') == None
  {
    if decls != [] { ColonIsNotDeclared(decls[1..]); }
  }

  /** The option string says of each character how it is declared. */
  lemma KindIsDeclared(f: Format, cfg: Config, c: char)
    requires Describes(f, cfg)
    ensures KindOf(cfg.optstring, c) == KindOfArity(Declared(f.decls, c))
  {
    if c == ':' {
      ColonIsNotDeclared(f.decls);
    } else {
      KindIsRendered(f.decls, c);
      if f.quiet {
        KindPast(cfg.optstring, c);
        assert cfg.optstring[1..] == Rendered(f.decls);
      } else {
        assert cfg.optstring == Rendered(f.decls);
      }
    }
  }

  lemma MissingIsQuiet(f: Format, cfg: Config)
    requires Describes(f, cfg)
    ensures MissingArgument(cfg.optstring) == if f.quiet then ':' as int else BAD_OPTION
  {
    if !f.quiet && f.decls != [] { assert cfg.optstring[0] == f.decls[0].c; }
  }

  /** A character is reported as itself where char is unsigned, and as the number with the same low byte that a signed
      char holds where it is not. */
  lemma CodeIsChar(cfg: Config, c: char)
    requires c as int < 256
    ensures if cfg.signed then -128 <= Code(cfg, c) < 128 && (c as int - Code(cfg, c)) % 256 == 0
            else Code(cfg, c) == c as int
  {
  }

  // ----- The long options

  /** The key stands for the long option i: it is its name, or it abbreviates its name, which may be abbreviated, and
      no other one. */
  ghost predicate StandsFor(opts: seq<LongOption>, key: string, i: nat) {
    && i < |opts|
    && if opts[i].name == key then forall j :: 0 <= j < i ==> opts[j].name != key
       else
         && key <= opts[i].name && !opts[i].exact
         && forall j :: 0 <= j < |opts| && j != i ==> !(key <= opts[j].name)
  }

  lemma {:induction false} MatchingAll(opts: seq<LongOption>, key: string)
    ensures var m := Matching(opts, key);
            && (forall i :: i in m <==> 0 <= i < |opts| && key <= opts[i].name)
            && (forall a, b :: 0 <= a < b < |m| ==> m[a] < m[b])
  {
    if opts != [] { MatchingAll(opts[..|opts| - 1], key); }
  }

  lemma OneMatch(m: seq<nat>, i: nat)
    requires i in m && (forall a, b :: 0 <= a < b < |m| ==> m[a] < m[b]) && forall j :: j in m ==> j == i
    ensures m == [i]
  {
    var last := |m| - 1;
    assert m[0] in m && m[last] in m;
    assert last == 0;
  }

  /** The search finds what the key stands for. */
  lemma LookUpFinds(opts: seq<LongOption>, key: string, i: nat)
    ensures LookUp(opts, key) == Found(i) <==> StandsFor(opts, key, i)
  {
    var m := Matching(opts, key);
    MatchingAll(opts, key);
    if FirstNamed(opts, key) == None {
      if StandsFor(opts, key, i) {
        OneMatch(m, i);
      } else if m == [i] {
        assert i in m;
        forall j | 0 <= j < |opts| && j != i
          ensures !(key <= opts[j].name)
        {
          assert j !in m;
        }
      }
    }
  }

  lemma {:induction false} NameEnds(key: string, more: string)
    requires '=' !in key && '#' !in key && (more != "" ==> more[0] == '=' || more[0] == '#')
    ensures NameLength(key + more) == |key|
  {
    if key == "" {
      assert key + more == more;
    } else {
      NameEnds(key[1..], more);
      assert (key + more)[1..] == key[1..] + more && (key + more)[0] == key[0];
    }
  }

  // ----- Command lines

  /** What a command line consists of. flags are characters declared without argument or not at all; mark is "=", "#"
      or nothing; i is the index of the long option that key stands for. */
  datatype Item =
    | Operand(text: string)
    | Flags(flags: string)
    | Glued(flags: string, c: char, arg: string)
    | Apart(flags: string, c: char, arg: string)
    | Bare(flags: string, c: char)
    | Long(i: nat, key: string, mark: string)
    | LongGlued(i: nat, key: string, mark: string, arg: string)
    | LongApart(i: nat, key: string, mark: string, arg: string)
    | LongRefused(i: nat, key: string, mark: string, arg: string)
    | LongUnjoined(i: nat, key: string, mark: string)
    | LongUnknown(key: string, mark: string, arg: string)

  /** How a command line ends: regularly, with "--" and what follows it, or with an option that lacks its argument. */
  datatype Ending = AllRead | Dashes(tail: seq<string>) | Lacking(flags: string, c: char) | LongLacking(i: nat, key: string, mark: string)

  function Short(text: string): seq<string> {
    ["-" + text]
  }

  function LongElement(text: string): seq<string> {
    ["--" + text]
  }

  function Elements(item: Item): seq<string> {
    match item
    case Operand(text) => [text]
    case Flags(flags) => Short(flags)
    case Glued(flags, c, arg) => Short(flags + ([c] + arg))
    case Apart(flags, c, arg) => Short(flags + [c]) + [arg]
    case Bare(flags, c) => Short(flags + [c])
    case Long(_, key, mark) => LongElement(key + mark)
    case LongGlued(_, key, mark, arg) => LongElement(key + (mark + arg))
    case LongApart(_, key, mark, arg) => LongElement(key + mark) + [arg]
    case LongRefused(_, key, mark, arg) => LongElement(key + (mark + arg))
    case LongUnjoined(_, key, mark) => LongElement(key + mark)
    case LongUnknown(key, mark, arg) => LongElement(key + (mark + arg))
  }

  function EndElements(end: Ending): seq<string> {
    match end
    case AllRead => []
    case Dashes(tail) => ["--"] + tail
    case Lacking(flags, c) => Short(flags + [c])
    case LongLacking(_, key, mark) => LongElement(key + mark)
  }

  function CommandLine(items: seq<Item>, end: Ending): seq<string> {
    if items == [] then EndElements(end) else Elements(items[0]) + CommandLine(items[1..], end)
  }

  ghost predicate AreFlags(f: Format, flags: string) {
    forall k :: 0 <= k < |flags| ==> !TakesArgument(Declared(f.decls, flags[k]))
  }

  /** The text of a cluster, which is no long option and does not make a "--". */
  predicate IsCluster(cfg: Config, text: string) {
    text != "" && text != "-" && (cfg.longopts.Some? ==> text[0] != '-')
  }

  predicate IsMark(mark: string) {
    mark == "=" || mark == "#"
  }

  predicate IsKey(cfg: Config, key: string, more: string) {
    cfg.longopts.Some? && '=' !in key && '#' !in key && key + more != ""
  }

  ghost predicate IsNamed(cfg: Config, i: nat, key: string, more: string) {
    IsKey(cfg, key, more) && StandsFor(cfg.longopts.value, key, i)
  }

  function OptionAt(cfg: Config, i: nat): LongOption {
    if cfg.longopts.Some? && i < |cfg.longopts.value| then cfg.longopts.value[i] else LongOption("", 0, false, false, None, 0)
  }

  ghost predicate Proper(f: Format, cfg: Config, item: Item) {
    match item
    case Operand(text) => text == "" || text[0] != '-' || text == "-"
    case Flags(flags) => AreFlags(f, flags) && IsCluster(cfg, flags)
    case Glued(flags, c, arg) =>
      && AreFlags(f, flags) && IsCluster(cfg, flags + ([c] + arg))
      && TakesArgument(Declared(f.decls, c)) && arg != ""
    case Apart(flags, c, _) =>
      AreFlags(f, flags) && IsCluster(cfg, flags + [c]) && Declared(f.decls, c) == Some(Required)
    case Bare(flags, c) =>
      AreFlags(f, flags) && IsCluster(cfg, flags + [c]) && Declared(f.decls, c) == Some(Optional)
    case Long(i, key, mark) =>
      && IsNamed(cfg, i, key, mark) && OptionAt(cfg, i).kind != 1
      && (mark == "" || (IsMark(mark) && OptionAt(cfg, i).kind != 0))
    case LongGlued(i, key, mark, arg) =>
      IsNamed(cfg, i, key, mark + arg) && OptionAt(cfg, i).kind != 0 && IsMark(mark) && arg != ""
    case LongApart(i, key, mark, _) =>
      && IsNamed(cfg, i, key, mark) && (mark == "" || IsMark(mark))
      && OptionAt(cfg, i).kind == 1 && !OptionAt(cfg, i).joined
    case LongRefused(i, key, mark, arg) =>
      IsNamed(cfg, i, key, mark + arg) && OptionAt(cfg, i).kind == 0 && IsMark(mark)
    case LongUnjoined(i, key, mark) =>
      && IsNamed(cfg, i, key, mark) && (mark == "" || IsMark(mark))
      && OptionAt(cfg, i).kind == 1 && OptionAt(cfg, i).joined
    case LongUnknown(key, mark, arg) =>
      && IsKey(cfg, key, mark + arg) && (IsMark(mark) || (mark == "" && arg == ""))
      && forall i :: !StandsFor(cfg.longopts.value, key, i)
  }

  ghost predicate ProperEnd(f: Format, cfg: Config, end: Ending) {
    match end
    case AllRead => true
    case Dashes(_) => true
    case Lacking(flags, c) =>
      AreFlags(f, flags) && IsCluster(cfg, flags + [c]) && Declared(f.decls, c) == Some(Required)
    case LongLacking(i, key, mark) =>
      && IsNamed(cfg, i, key, mark) && (mark == "" || IsMark(mark))
      && OptionAt(cfg, i).kind == 1 && !OptionAt(cfg, i).joined
  }

  // ----- What is reported of them

  function Ok(code: int, arg: Option<string>): Event {
    Event(Report(code, arg, -1), NoEffect)
  }

  /** An unknown character is an error and is noted. */
  function FlagEvent(f: Format, cfg: Config, c: char): Event {
    if Declared(f.decls, c) == None then Event(Report(BAD_OPTION, None, -1), Complains(Code(cfg, c)))
    else Ok(Code(cfg, c), None)
  }

  function FlagEvents(f: Format, cfg: Config, flags: string): seq<Event> {
    if flags == "" then [] else [FlagEvent(f, cfg, flags[0])] + FlagEvents(f, cfg, flags[1..])
  }

  /** A long option is reported by its value, or by zero if the value is stored. */
  function LongEvent(cfg: Config, i: nat, arg: Option<string>): Event {
    var o := OptionAt(cfg, i);
    match o.flag
    case None => Event(Report(o.val, arg, i), NoEffect)
    case Some(v) => Event(Report(0, arg, i), Stores(v, o.val))
  }

  function MissingCode(f: Format): int {
    if f.quiet then ':' as int else BAD_OPTION
  }

  function Events(f: Format, cfg: Config, item: Item): seq<Event> {
    match item
    case Operand(_) => []
    case Flags(flags) => FlagEvents(f, cfg, flags)
    case Glued(flags, c, arg) => FlagEvents(f, cfg, flags) + [Ok(Code(cfg, c), Some(arg))]
    case Apart(flags, c, arg) => FlagEvents(f, cfg, flags) + [Ok(Code(cfg, c), Some(arg))]
    case Bare(flags, c) => FlagEvents(f, cfg, flags) + [Ok(Code(cfg, c), None)]
    case Long(i, _, _) => [LongEvent(cfg, i, None)]
    case LongGlued(i, _, _, arg) => [LongEvent(cfg, i, Some(arg))]
    case LongApart(i, _, _, arg) => [LongEvent(cfg, i, Some(arg))]
    case LongRefused(_, _, _, _) => [Ok(BAD_OPTION, None)]
    case LongUnjoined(_, _, _) => [Ok(MissingCode(f), None)]
    case LongUnknown(_, _, _) => [Ok(BAD_OPTION, None)]
  }

  function EndEvents(f: Format, cfg: Config, end: Ending): seq<Event> {
    match end
    case Lacking(flags, c) =>
      FlagEvents(f, cfg, flags) + [Event(Report(MissingCode(f), None, -1), Complains(Code(cfg, c)))]
    case LongLacking(_, _, _) => [Ok(MissingCode(f), None)]
    case _ => []
  }

  function AllEvents(f: Format, cfg: Config, items: seq<Item>, end: Ending): seq<Event> {
    if items == [] then EndEvents(f, cfg, end) else Events(f, cfg, items[0]) + AllEvents(f, cfg, items[1..], end)
  }

  /** The elements that are options, arguments or the "--". */
  function Options(items: seq<Item>, end: Ending): seq<string> {
    if items == [] then if end.Dashes? then ["--"] else EndElements(end)
    else (if items[0].Operand? then [] else Elements(items[0])) + Options(items[1..], end)
  }

  function Operands(items: seq<Item>, end: Ending): seq<string> {
    if items == [] then if end.Dashes? then end.tail else []
    else (if items[0].Operand? then [items[0].text] else []) + Operands(items[1..], end)
  }

  // ----- Reading them

  /** Reading goes on with what is left of the cluster a[0], or behind it. */
  function Onward(cfg: Config, a: seq<string>, chars: string): Plan
    requires a != []
  {
    if chars == "" then Next(cfg, a, false) else Scan(cfg, a, chars)
  }

  lemma FlagStep(f: Format, cfg: Config, a: seq<string>, chars: string)
    requires Describes(f, cfg) && a != [] && chars != "" && !TakesArgument(Declared(f.decls, chars[0]))
    ensures Scan(cfg, a, chars) == Reported(FlagEvent(f, cfg, chars[0]), Onward(cfg, a, chars[1..]))
  {
    KindIsDeclared(f, cfg, chars[0]);
  }

  lemma Prepended(e: Event, es: seq<Event>, more: seq<Event>)
    ensures [e] + (es + more) == ([e] + es) + more
  {
  }

  lemma {:induction false} FlagsAreRead(f: Format, cfg: Config, a: seq<string>, flags: string, more: string)
    requires Describes(f, cfg) && a != [] && AreFlags(f, flags)
    ensures var p := Onward(cfg, a, more);
            Onward(cfg, a, flags + more) == Plan(p.opts, p.rest, FlagEvents(f, cfg, flags) + p.events)
  {
    if flags == "" {
      assert flags + more == more;
      assert [] + Onward(cfg, a, more).events == Onward(cfg, a, more).events;
    } else {
      var chars := flags + more;
      FlagsAreRead(f, cfg, a, flags[1..], more);
      assert chars[1..] == flags[1..] + more && chars[0] == flags[0];
      FlagStep(f, cfg, a, chars);
      Prepended(FlagEvent(f, cfg, flags[0]), FlagEvents(f, cfg, flags[1..]), Onward(cfg, a, more).events);
    }
  }

  /** The last option of a cluster, which has an argument or could have one. */
  lemma LastIsRead(f: Format, cfg: Config, a: seq<string>, c: char, arg: string)
    requires Describes(f, cfg) && a != [] && TakesArgument(Declared(f.decls, c))
    ensures var p := Scan(cfg, a, [c] + arg);
            if arg != "" then p == Reported(Ok(Code(cfg, c), Some(arg)), Next(cfg, a, false))
            else if Declared(f.decls, c) == Some(Optional) then p == Reported(Ok(Code(cfg, c), None), Next(cfg, a, false))
            else if |a| > 1 then p == Reported(Ok(Code(cfg, c), Some(a[1])), Next(cfg, a, true))
            else p == Reported(Event(Report(MissingCode(f), None, -1), Complains(Code(cfg, c))), Next(cfg, a, false))
  {
    var chars := [c] + arg;
    assert chars[0] == c && chars[1..] == arg;
    KindIsDeclared(f, cfg, c);
    MissingIsQuiet(f, cfg);
  }

  lemma ClusterIsEntered(cfg: Config, text: string, rest: seq<string>)
    requires IsCluster(cfg, text)
    ensures var a := Short(text) + rest;
            && a[0] == "-" + text && a[1..] == rest
            && Scan(cfg, a, "") == Scan(cfg, a, text)
  {
    var a := Short(text) + rest;
    assert a[0][1] == text[0] && a[0][1..] == text;
    EnterElement(cfg, a);
  }

  lemma NextIs(cfg: Config, e: seq<string>, rest: seq<string>)
    requires |e| == 1 || |e| == 2
    ensures var p := Scan(cfg, rest, "");
            Next(cfg, e + rest, |e| == 2) == Plan(e + p.opts, p.rest, p.events)
  {
    var a, p := e + rest, Scan(cfg, rest, "");
    assert a[..|e|] == e && a[|e|..] == rest && [] + p.rest == p.rest;
  }

  /** A cluster that ends with the option c. */
  lemma ClusterIsRead(f: Format, cfg: Config, flags: string, c: char, arg: string, rest: seq<string>)
    requires Describes(f, cfg) && AreFlags(f, flags) && IsCluster(cfg, flags + ([c] + arg))
    ensures var a := Short(flags + ([c] + arg)) + rest;
            var p := Scan(cfg, a, [c] + arg);
            Scan(cfg, a, "") == Plan(p.opts, p.rest, FlagEvents(f, cfg, flags) + p.events)
  {
    ClusterIsEntered(cfg, flags + ([c] + arg), rest);
    FlagsAreRead(f, cfg, Short(flags + ([c] + arg)) + rest, flags, [c] + arg);
  }

  /** The plan of an item followed by p. */
  function With(f: Format, cfg: Config, item: Item, p: Plan): Plan {
    Plan((if item.Operand? then [] else Elements(item)) + p.opts, (if item.Operand? then [item.text] else []) + p.rest,
         Events(f, cfg, item) + p.events)
  }

  lemma Appended(es: seq<Event>, e: Event, more: seq<Event>)
    ensures es + ([e] + more) == (es + [e]) + more
  {
  }

  /** A cluster whose last option is reported by the event last, with the elements e for both. */
  lemma ClusterIsLeft(f: Format, cfg: Config, flags: string, c: char, arg: string, e: seq<string>, rest: seq<string>,
                      last: Event)
    requires Describes(f, cfg) && AreFlags(f, flags) && IsCluster(cfg, flags + ([c] + arg))
    requires |e| == 1 || |e| == 2
    requires e[0] == "-" + (flags + ([c] + arg))
    requires Scan(cfg, e + rest, [c] + arg) == Reported(last, Next(cfg, e + rest, |e| == 2))
    ensures var p := Scan(cfg, rest, "");
            Scan(cfg, e + rest, "") == Plan(e + p.opts, p.rest, (FlagEvents(f, cfg, flags) + [last]) + p.events)
  {
    var p := Scan(cfg, rest, "");
    assert e + rest == Short(flags + ([c] + arg)) + (e[1..] + rest);
    ClusterIsRead(f, cfg, flags, c, arg, e[1..] + rest);
    NextIs(cfg, e, rest);
    Appended(FlagEvents(f, cfg, flags), last, p.events);
  }

  lemma FlagsItem(f: Format, cfg: Config, item: Item, rest: seq<string>)
    requires Describes(f, cfg) && item.Flags? && Proper(f, cfg, item)
    ensures Scan(cfg, Elements(item) + rest, "") == With(f, cfg, item, Scan(cfg, rest, ""))
  {
    ClusterIsEntered(cfg, item.flags, rest);
    FlagsAreRead(f, cfg, Short(item.flags) + rest, item.flags, "");
    assert item.flags + "" == item.flags;
    NextIs(cfg, Short(item.flags), rest);
  }

  lemma GluedItem(f: Format, cfg: Config, item: Item, rest: seq<string>)
    requires Describes(f, cfg) && item.Glued? && Proper(f, cfg, item)
    ensures Scan(cfg, Elements(item) + rest, "") == With(f, cfg, item, Scan(cfg, rest, ""))
  {
    LastIsRead(f, cfg, Elements(item) + rest, item.c, item.arg);
    ClusterIsLeft(f, cfg, item.flags, item.c, item.arg, Elements(item), rest, Ok(Code(cfg, item.c), Some(item.arg)));
  }

  lemma ApartItem(f: Format, cfg: Config, item: Item, rest: seq<string>)
    requires Describes(f, cfg) && item.Apart? && Proper(f, cfg, item)
    ensures Scan(cfg, Elements(item) + rest, "") == With(f, cfg, item, Scan(cfg, rest, ""))
  {
    assert [item.c] + "" == [item.c];
    LastIsRead(f, cfg, Elements(item) + rest, item.c, "");
    ClusterIsLeft(f, cfg, item.flags, item.c, "", Elements(item), rest, Ok(Code(cfg, item.c), Some(item.arg)));
  }

  lemma BareItem(f: Format, cfg: Config, item: Item, rest: seq<string>)
    requires Describes(f, cfg) && item.Bare? && Proper(f, cfg, item)
    ensures Scan(cfg, Elements(item) + rest, "") == With(f, cfg, item, Scan(cfg, rest, ""))
  {
    assert [item.c] + "" == [item.c];
    LastIsRead(f, cfg, Elements(item) + rest, item.c, "");
    ClusterIsLeft(f, cfg, item.flags, item.c, "", Elements(item), rest, Ok(Code(cfg, item.c), None));
  }

  lemma LongIsEntered(cfg: Config, text: string, rest: seq<string>)
    requires cfg.longopts.Some? && text != ""
    ensures var a, st := LongElement(text) + rest, LongStep(cfg, text, rest);
            Scan(cfg, a, "") == Reported(st.event, Next(cfg, a, st.takes))
  {
    var a := LongElement(text) + rest;
    assert a[0] == "--" + text && a[0][2..] == text && a[1..] == rest && a[0][0] == '-' && a[0][1] == '-';
    EnterElement(cfg, a);
  }

  /** What is done with a long option, by its kind and what follows the key. */
  lemma LongIsRead(f: Format, cfg: Config, i: nat, key: string, mark: string, arg: string, next: seq<string>)
    requires Describes(f, cfg) && IsNamed(cfg, i, key, mark + arg) && (IsMark(mark) || (mark == "" && arg == ""))
    ensures var o, st := OptionAt(cfg, i), LongStep(cfg, key + (mark + arg), next);
            if o.kind == 0 && mark != "" then st == Step(Ok(BAD_OPTION, None), "", false)
            else if arg != "" then st == Step(LongEvent(cfg, i, Some(arg)), "", false)
            else if o.kind != 1 then st == Step(LongEvent(cfg, i, None), "", false)
            else if o.joined || next == [] then st == Step(Ok(MissingCode(f), None), "", false)
            else st == Step(LongEvent(cfg, i, Some(next[0])), "", true)
  {
    var text := key + (mark + arg);
    NameEnds(key, mark + arg);
    LookUpFinds(cfg.longopts.value, key, i);
    MissingIsQuiet(f, cfg);
    assert text[..|key|] == key;
    if mark != "" { assert text[|key| + 1..] == arg; }
  }

  lemma UnknownIsRead(cfg: Config, key: string, mark: string, arg: string, next: seq<string>)
    requires IsKey(cfg, key, mark + arg) && (IsMark(mark) || (mark == "" && arg == ""))
    requires forall i :: !StandsFor(cfg.longopts.value, key, i)
    ensures LongStep(cfg, key + (mark + arg), next) == Step(Ok(BAD_OPTION, None), "", false)
  {
    var text, found := key + (mark + arg), LookUp(cfg.longopts.value, key);
    NameEnds(key, mark + arg);
    assert text[..|key|] == key;
    if found.Found? { LookUpFinds(cfg.longopts.value, key, found.index); }
  }

  /** A long option in one element. */
  lemma LongItem(f: Format, cfg: Config, item: Item, rest: seq<string>)
    requires Describes(f, cfg) && Proper(f, cfg, item)
    requires item.Long? || item.LongGlued? || item.LongRefused? || item.LongUnjoined? || item.LongUnknown?
    ensures Scan(cfg, Elements(item) + rest, "") == With(f, cfg, item, Scan(cfg, rest, ""))
  {
    var arg := if item.Long? || item.LongUnjoined? then "" else item.arg;
    assert item.mark + "" == item.mark;
    if item.LongUnknown? {
      UnknownIsRead(cfg, item.key, item.mark, arg, rest);
    } else {
      LongIsRead(f, cfg, item.i, item.key, item.mark, arg, rest);
    }
    LongIsEntered(cfg, item.key + (item.mark + arg), rest);
    NextIs(cfg, Elements(item), rest);
  }

  lemma LongApartItem(f: Format, cfg: Config, item: Item, rest: seq<string>)
    requires Describes(f, cfg) && item.LongApart? && Proper(f, cfg, item)
    ensures Scan(cfg, Elements(item) + rest, "") == With(f, cfg, item, Scan(cfg, rest, ""))
  {
    var more := [item.arg] + rest;
    assert item.mark + "" == item.mark && Elements(item) + rest == LongElement(item.key + item.mark) + more;
    LongIsRead(f, cfg, item.i, item.key, item.mark, "", more);
    LongIsEntered(cfg, item.key + item.mark, more);
    NextIs(cfg, Elements(item), rest);
  }

  lemma OperandItem(f: Format, cfg: Config, item: Item, rest: seq<string>)
    requires item.Operand? && Proper(f, cfg, item)
    ensures Scan(cfg, Elements(item) + rest, "") == With(f, cfg, item, Scan(cfg, rest, ""))
  {
    var a, p := Elements(item) + rest, Scan(cfg, rest, "");
    assert a[0] == item.text && a[1..] == rest && [] + p.events == p.events;
  }

  lemma ItemIsRead(f: Format, cfg: Config, item: Item, rest: seq<string>)
    requires Describes(f, cfg) && Proper(f, cfg, item)
    ensures Scan(cfg, Elements(item) + rest, "") == With(f, cfg, item, Scan(cfg, rest, ""))
  {
    match item {
      case Operand(_) => OperandItem(f, cfg, item, rest);
      case Flags(_) => FlagsItem(f, cfg, item, rest);
      case Glued(_, _, _) => GluedItem(f, cfg, item, rest);
      case Apart(_, _, _) => ApartItem(f, cfg, item, rest);
      case Bare(_, _) => BareItem(f, cfg, item, rest);
      case LongApart(_, _, _, _) => LongApartItem(f, cfg, item, rest);
      case _ => LongItem(f, cfg, item, rest);
    }
  }

  lemma EndIsRead(f: Format, cfg: Config, end: Ending)
    requires Describes(f, cfg) && ProperEnd(f, cfg, end)
    ensures Scan(cfg, EndElements(end), "") == Plan(Options([], end), Operands([], end), EndEvents(f, cfg, end))
  {
    var a := EndElements(end);
    assert a + [] == a;
    match end {
      case AllRead =>
      case Dashes(tail) => assert a[0] == "--" && a[1..] == tail;
      case Lacking(flags, c) =>
        assert [c] + "" == [c];
        LastIsRead(f, cfg, a, c, "");
        ClusterIsLeft(f, cfg, flags, c, "", a, [], Event(Report(MissingCode(f), None, -1), Complains(Code(cfg, c))));
      case LongLacking(i, key, mark) =>
        assert mark + "" == mark;
        LongIsRead(f, cfg, i, key, mark, "", []);
        LongIsEntered(cfg, key + mark, []);
        NextIs(cfg, a, []);
    }
  }

  ghost predicate AllProper(f: Format, cfg: Config, items: seq<Item>, end: Ending) {
    (forall k :: 0 <= k < |items| ==> Proper(f, cfg, items[k])) && ProperEnd(f, cfg, end)
  }

  /** A command line is read as it is written. */
  lemma {:induction false} CommandLineIsRead(f: Format, cfg: Config, items: seq<Item>, end: Ending)
    requires Describes(f, cfg) && AllProper(f, cfg, items, end)
    ensures Scan(cfg, CommandLine(items, end), "") ==
            Plan(Options(items, end), Operands(items, end), AllEvents(f, cfg, items, end))
  {
    if items == [] {
      EndIsRead(f, cfg, end);
    } else {
      CommandLineIsRead(f, cfg, items[1..], end);
      ItemIsRead(f, cfg, items[0], CommandLine(items[1..], end));
    }
  }

  // ----- Every command line is written so

  /** How many characters of the text are flags. */
  function FlagCount(f: Format, text: string): (n: nat)
    ensures n <= |text| && AreFlags(f, text[..n])
    ensures n < |text| ==> TakesArgument(Declared(f.decls, text[n]))
  {
    if text == "" || TakesArgument(Declared(f.decls, text[0])) then 0
    else
      var n := FlagCount(f, text[1..]);
      assert text[..n + 1] == [text[0]] + text[1..][..n];
      n + 1
  }

  /** a begins with what is written of the item. */
  ghost predicate Begins(f: Format, cfg: Config, a: seq<string>, item: Item) {
    Proper(f, cfg, item) && Elements(item) <= a && Elements(item) != []
  }

  /** a begins with an item, or is an ending. */
  ghost predicate Written(f: Format, cfg: Config, a: seq<string>, item: Option<Item>, end: Ending) {
    if item.Some? then Begins(f, cfg, a, item.value) else ProperEnd(f, cfg, end) && EndElements(end) == a
  }

  lemma LastIsWritten(f: Format, cfg: Config, a: seq<string>, flags: string, c: char, arg: string)
      returns (item: Option<Item>, end: Ending)
    requires a != [] && a[0] == "-" + (flags + ([c] + arg)) && IsCluster(cfg, flags + ([c] + arg))
    requires AreFlags(f, flags) && TakesArgument(Declared(f.decls, c))
    ensures Written(f, cfg, a, item, end)
  {
    item, end := None, AllRead;
    assert [c] + "" == [c];
    if arg != "" {
      item := Some(Glued(flags, c, arg));
    } else if Declared(f.decls, c) == Some(Optional) {
      item := Some(Bare(flags, c));
    } else if |a| > 1 {
      item := Some(Apart(flags, c, a[1]));
    } else {
      end := Lacking(flags, c);
    }
  }

  lemma ClusterIsWritten(f: Format, cfg: Config, a: seq<string>, text: string) returns (item: Option<Item>, end: Ending)
    requires a != [] && a[0] == "-" + text && IsCluster(cfg, text)
    ensures Written(f, cfg, a, item, end)
  {
    var n := FlagCount(f, text);
    if n == |text| {
      assert text[..n] == text;
      item, end := Some(Flags(text)), AllRead;
    } else {
      assert text == text[..n] + ([text[n]] + text[n + 1..]);
      item, end := LastIsWritten(f, cfg, a, text[..n], text[n], text[n + 1..]);
    }
  }

  lemma NamedIsWritten(f: Format, cfg: Config, a: seq<string>, i: nat, key: string, mark: string, arg: string)
      returns (item: Option<Item>, end: Ending)
    requires a != [] && a[0] == "--" + (key + (mark + arg))
    requires IsNamed(cfg, i, key, mark + arg) && (IsMark(mark) || (mark == "" && arg == ""))
    ensures Written(f, cfg, a, item, end)
  {
    item, end := None, AllRead;
    var o := OptionAt(cfg, i);
    assert mark + "" == mark;
    if o.kind == 0 && mark != "" {
      item := Some(LongRefused(i, key, mark, arg));
    } else if arg != "" {
      item := Some(LongGlued(i, key, mark, arg));
    } else if o.kind != 1 {
      item := Some(Long(i, key, mark));
    } else if o.joined {
      item := Some(LongUnjoined(i, key, mark));
    } else if |a| > 1 {
      item := Some(LongApart(i, key, mark, a[1]));
    } else {
      end := LongLacking(i, key, mark);
    }
  }

  lemma LongIsWritten(f: Format, cfg: Config, a: seq<string>, text: string) returns (item: Option<Item>, end: Ending)
    requires a != [] && a[0] == "--" + text && text != "" && cfg.longopts.Some?
    ensures Written(f, cfg, a, item, end)
  {
    var n := NameLength(text);
    var key := text[..n];
    var mark, arg := if n < |text| then [text[n]] else "", if n < |text| then text[n + 1..] else "";
    assert text == key + (mark + arg);
    if i :| StandsFor(cfg.longopts.value, key, i) {
      item, end := NamedIsWritten(f, cfg, a, i, key, mark, arg);
    } else {
      item, end := Some(LongUnknown(key, mark, arg)), AllRead;
    }
  }

  /** Every command line is written in this way, so that the scan is known for all of them. */
  lemma {:induction false} AllAreWritten(f: Format, cfg: Config, a: seq<string>) returns (items: seq<Item>, end: Ending)
    ensures AllProper(f, cfg, items, end) && CommandLine(items, end) == a
  {
    var item: Option<Item> := None;
    items, end := [], AllRead;
    if a != [] {
      var s := a[0];
      if NonOption(s) {
        item := Some(Operand(s));
      } else if s == "--" {
        end := Dashes(a[1..]);
      } else if cfg.longopts.Some? && s[1] == '-' {
        assert s == "--" + s[2..];
        item, end := LongIsWritten(f, cfg, a, s[2..]);
      } else {
        assert s == "-" + s[1..];
        item, end := ClusterIsWritten(f, cfg, a, s[1..]);
      }
    }
    if item.Some? {
      var rest := a[|Elements(item.value)|..];
      items, end := AllAreWritten(f, cfg, rest);
      assert ([item.value] + items)[1..] == items;
      items := [item.value] + items;
    }
  }

  // ----- What the reports leave behind

  /** zbx_optopt is the character of the last complaint. */
  lemma {:induction false} LastComplaintStays(g: Globals, events: seq<Event>, k: nat)
    requires k < |events| && events[k].effect.Complains?
    requires forall j :: k < j < |events| ==> !events[j].effect.Complains?
    ensures AllAffected(g, events).optopt == events[k].effect.c
  {
    var n := |events| - 1;
    if k < n { LastComplaintStays(g, events[..n], k); }
  }

  lemma {:induction false} WithoutComplaint(g: Globals, events: seq<Event>)
    requires forall j :: 0 <= j < |events| ==> !events[j].effect.Complains?
    ensures AllAffected(g, events).optopt == g.optopt
  {
    if events != [] { WithoutComplaint(g, events[..|events| - 1]); }
  }

  predicate StoresIn(e: Event, v: nat) {
    e.effect.Stores? && e.effect.variable == v
  }

  /** The variable of a flag has the value that was last stored in it. */
  lemma {:induction false} LastStoreStays(g: Globals, events: seq<Event>, k: nat, v: nat)
    requires k < |events| && StoresIn(events[k], v)
    requires forall j :: k < j < |events| ==> !StoresIn(events[j], v)
    ensures var h := AllAffected(g, events); v in h.variables && h.variables[v] == events[k].effect.val
  {
    var n := |events| - 1;
    if k < n {
      LastStoreStays(g, events[..n], k, v);
      assert !StoresIn(events[n], v);
    }
  }

  lemma {:induction false} WithoutStore(g: Globals, events: seq<Event>, v: nat)
    requires forall j :: 0 <= j < |events| ==> !StoresIn(events[j], v)
    ensures var h := AllAffected(g, events);
            if v in g.variables then v in h.variables && h.variables[v] == g.variables[v] else v !in h.variables
  {
    if events != [] {
      var n := |events| - 1;
      WithoutStore(g, events[..n], v);
      assert !StoresIn(events[n], v);
    }
  }

  /** A written command line is parsed into just the options and operands that it was written from. */
  method ParseWritten(argv: array<string>, cfg: Config, ghost f: Format, ghost items: seq<Item>, ghost end: Ending)
      returns (optind: nat, reports: seq<Report>, globals: Globals)
    requires Permuting(cfg) && argv.Length > 0 && Describes(f, cfg) && AllProper(f, cfg, items, end)
    requires argv[1..] == CommandLine(items, end)
    modifies argv
    ensures 1 <= optind <= argv.Length && argv[0] == old(argv[0])
    ensures argv[1..optind] == Options(items, end) && argv[optind..] == Operands(items, end)
    ensures reports == Reports(AllEvents(f, cfg, items, end))
    ensures globals == AllAffected(Globals(0, map[]), AllEvents(f, cfg, items, end))
  {
    CommandLineIsRead(f, cfg, items, end);
    optind, reports, globals := ParseCommandLine(argv, cfg);
  }
}
