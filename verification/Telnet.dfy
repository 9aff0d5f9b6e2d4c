/** Line ends as the telnet protocol and as Unix write them. */
module Telnet {
  import opened Ctypes

  const CR: char := '\r'
  const LF: char := '\n'
  const NUL: char := '\0'

  // ----- The conversions on values

  /** What the conversion makes of the characters at i and i + 1, and how many of them it takes. */
  function Front(s: seq<char>, i: nat): (r: (seq<char>, nat))
    requires i < |s|
    ensures 1 <= r.1 <= |s| - i && |r.0| <= 1
  {
    if i + 1 < |s| && s[i] == CR && s[i + 1] == LF then ([LF], 2)
    else if i + 1 < |s| && s[i] == CR && s[i + 1] == NUL then ([], 2)
    else if i + 1 < |s| && s[i] == LF && s[i + 1] == CR then ([LF], 2)
    else if s[i] == CR then ([LF], 1)
    else ([s[i]], 1)
  }

  function ToUnix(s: seq<char>): seq<char> {
    if s == [] then [] else Front(s, 0).0 + ToUnix(s[Front(s, 0).1..])
  }

  function ToTelnet(s: seq<char>): seq<char> {
    if s == [] then []
    else ToTelnet(s[..|s| - 1]) + if s[|s| - 1] == LF then [CR, LF] else [s[|s| - 1]]
  }

  // ----- What they promise

  lemma {:induction false} ToUnixHasNoCR(s: seq<char>)
    ensures CR !in ToUnix(s) && |ToUnix(s)| <= |s|
  {
    if s != [] { ToUnixHasNoCR(s[Front(s, 0).1..]); }
  }

  /** The conversion leaves a text alone exactly if it has no CR. */
  lemma {:induction false} ToUnixFixes(s: seq<char>)
    ensures ToUnix(s) == s <==> CR !in s
  {
    if CR !in s {
      if s != [] {
        assert CR !in s[1..];
        ToUnixFixes(s[1..]);
        assert s == [s[0]] + s[1..];
      }
    } else {
      ToUnixHasNoCR(s);
    }
  }

  lemma ToUnixIdempotent(s: seq<char>)
    ensures ToUnix(ToUnix(s)) == ToUnix(s)
  {
    ToUnixHasNoCR(s);
    ToUnixFixes(ToUnix(s));
  }

  function Lines(s: seq<char>): (n: nat)
    ensures n <= |s|
  {
    if s == [] then 0 else Lines(s[..|s| - 1]) + if s[|s| - 1] == LF then 1 else 0
  }

  /** One character more for each line end, so at most twice as many. */
  lemma {:induction false} ToTelnetLength(s: seq<char>)
    ensures |ToTelnet(s)| == |s| + Lines(s) <= 2 * |s|
  {
    if s != [] { ToTelnetLength(s[..|s| - 1]); }
  }

  /** Every CR is followed by a LF, and every LF preceded by a CR. */
  predicate OnTheWire(s: seq<char>) {
    && (forall i :: 0 <= i < |s| && s[i] == CR ==> i + 1 < |s| && s[i + 1] == LF)
    && (forall i :: 0 <= i < |s| && s[i] == LF ==> i > 0 && s[i - 1] == CR)
  }

  lemma {:induction false} ToTelnetOnTheWire(s: seq<char>)
    requires CR !in s
    ensures OnTheWire(ToTelnet(s))
  {
    if s != [] {
      var t := s[..|s| - 1];
      assert CR !in t;
      ToTelnetOnTheWire(t);
      var a := ToTelnet(t);
      forall i | 0 <= i < |a| && a[i] == CR
        ensures i + 1 < |a| && ToTelnet(s)[i + 1] == LF
      {
      }
    }
  }

  lemma {:induction false} ToTelnetConcat(a: seq<char>, b: seq<char>)
    ensures ToTelnet(a + b) == ToTelnet(a) + ToTelnet(b)
  {
    if b == [] {
      assert a + b == a;
    } else {
      var c := b[..|b| - 1];
      ToTelnetConcat(a, c);
      assert (a + b)[..|a + b| - 1] == a + c;
    }
  }

  /** Converting a CR-free text to the telnet form and back gives it again, whatever follows it. So the echo of a
      command, line by line, starts with the command as it was before it was converted. */
  lemma {:induction false} RoundTripFollowedBy(s: seq<char>, rest: seq<char>)
    requires CR !in s
    ensures ToUnix(ToTelnet(s) + rest) == s + ToUnix(rest)
  {
    if s == [] {
      assert ToTelnet(s) + rest == rest;
    } else {
      var t, first := s[1..], if s[0] == LF then [CR, LF] else [s[0]];
      assert s == [s[0]] + t;
      RoundTripFollowedBy(t, rest);
      ToTelnetFront(s, first);
      FrontIs(s[0], ToTelnet(t) + rest);
      Associative(first, ToTelnet(t), rest);
      Associative([s[0]], t, ToUnix(rest));
    }
  }

  lemma ToTelnetFront(s: seq<char>, first: seq<char>)
    requires s != [] && first == if s[0] == LF then [CR, LF] else [s[0]]
    ensures ToTelnet(s) == first + ToTelnet(s[1..])
  {
    var c, rest := s[0], s[1..];
    assert s == [c] + rest;
    ToTelnetOne(c);
    ToTelnetConcat([c], rest);
  }

  lemma ToTelnetOne(c: char)
    ensures ToTelnet([c]) == if c == LF then [CR, LF] else [c]
  {
    assert [c][..0] == [];
    assert ToTelnet([]) == [];
  }

  lemma FrontIs(c: char, rest: seq<char>)
    requires c != CR
    ensures ToUnix((if c == LF then [CR, LF] else [c]) + rest) == [c] + ToUnix(rest)
  {
    var all := (if c == LF then [CR, LF] else [c]) + rest;
    assert Front(all, 0).0 == [c] && all[Front(all, 0).1..] == rest;
  }

  /** The round trip gives the text back exactly if it has no CR. */
  lemma RoundTrip(s: seq<char>)
    ensures ToUnix(ToTelnet(s)) == s <==> CR !in s
  {
    if CR !in s {
      RoundTripFollowedBy(s, []);
      assert ToTelnet(s) + [] == ToTelnet(s);
    } else {
      ToUnixHasNoCR(ToTelnet(s));
    }
  }

  lemma Associative(a: seq<char>, b: seq<char>, c: seq<char>)
    ensures (a + b) + c == a + (b + c)
  {
  }

  /** With i characters of s read, done is what they have been converted to. */
  ghost predicate Converted(s: seq<char>, i: nat, done: seq<char>) {
    i <= |s| && forall v {:trigger Unfolded(v)} :: v == i && Unfolded(v) ==> ToUnix(s) == done + ToUnix(s[v..])
  }

  lemma ConvertedNone(s: seq<char>)
    ensures Converted(s, 0, [])
  {
    assert s[0..] == s;
  }

  lemma ConvertedAll(s: seq<char>, done: seq<char>)
    requires Converted(s, |s|, done)
    ensures done == ToUnix(s)
  {
    assert Unfolded(|s|);
    assert s[|s|..] == [];
  }

  lemma ConvertedMore(s: seq<char>, i: nat, done: seq<char>)
    requires i < |s| && Converted(s, i, done)
    ensures var next := Front(s, i); Converted(s, i + next.1, done + next.0)
  {
    assert Unfolded(i);
    var next := Front(s, i);
    assert next == Front(s[i..], 0);
    var rest := s[i + next.1..];
    assert s[i..][next.1..] == rest;
    Associative(done, next.0, ToUnix(rest));
  }

  // ----- What becomes of each kind of line end

  /** A CR-free text is kept, whatever follows, unless its last LF is followed by a CR. */
  lemma {:induction false} CleanPrefix(a: seq<char>, b: seq<char>)
    requires CR !in a && (a != [] && a[|a| - 1] == LF && b != [] ==> b[0] != CR)
    ensures ToUnix(a + b) == a + ToUnix(b)
  {
    if a == [] {
      assert a + b == b;
    } else {
      var c, t := a[0], a[1..];
      assert a == [c] + t;
      CleanPrefix(t, b);
      Associative([c], t, b);
      KeepsFirst(c, t + b);
      Associative([c], t, ToUnix(b));
    }
  }

  lemma KeepsFirst(c: char, b: seq<char>)
    requires c != CR && (c == LF && b != [] ==> b[0] != CR)
    ensures ToUnix([c] + b) == [c] + ToUnix(b)
  {
    FrontGives([c] + b, [c], b);
  }

  /** The conversion, one step unfolded. */
  lemma FrontGives(s: seq<char>, out: seq<char>, rest: seq<char>)
    requires s != [] && Front(s, 0).0 == out && s[Front(s, 0).1..] == rest
    ensures ToUnix(s) == out + ToUnix(rest)
  {
  }

  /** CR LF becomes LF. */
  lemma ConvertsCrLf(a: seq<char>, b: seq<char>)
    requires CR !in a && (a != [] ==> a[|a| - 1] != LF)
    ensures ToUnix(a + [CR, LF] + b) == a + [LF] + ToUnix(b)
  {
    var c := [CR, LF] + b;
    assert c[2..] == b;
    Associative(a, [CR, LF], b);
    CleanPrefix(a, c);
    FrontGives(c, [LF], b);
    Associative(a, [LF], ToUnix(b));
  }

  /** CR NUL disappears. */
  lemma ConvertsCrNul(a: seq<char>, b: seq<char>)
    requires CR !in a && (a != [] ==> a[|a| - 1] != LF)
    ensures ToUnix(a + [CR, NUL] + b) == a + ToUnix(b)
  {
    var c := [CR, NUL] + b;
    assert c[2..] == b;
    Associative(a, [CR, NUL], b);
    CleanPrefix(a, c);
    FrontGives(c, [], b);
    Associative(a, [], ToUnix(b));
    assert a + [] == a;
  }

  /** LF CR becomes LF. */
  lemma ConvertsLfCr(a: seq<char>, b: seq<char>)
    requires CR !in a
    ensures ToUnix(a + [LF, CR] + b) == a + [LF] + ToUnix(b)
  {
    var c := [LF, CR] + b;
    assert c[2..] == b;
    Associative(a, [LF, CR], b);
    CleanPrefix(a, c);
    FrontGives(c, [LF], b);
    Associative(a, [LF], ToUnix(b));
  }

  /** Any other CR becomes LF. */
  lemma ConvertsLoneCr(a: seq<char>, b: seq<char>)
    requires CR !in a && (a != [] ==> a[|a| - 1] != LF) && (b != [] ==> b[0] != LF && b[0] != NUL)
    ensures ToUnix(a + [CR] + b) == a + [LF] + ToUnix(b)
  {
    var c := [CR] + b;
    assert c[1..] == b;
    Associative(a, [CR], b);
    CleanPrefix(a, c);
    FrontGives(c, [LF], b);
    Associative(a, [LF], ToUnix(b));
  }

  // ----- The conversions in place

  /** Converts the first offset characters in place; no character is overwritten before it has been read. */
  method ConvertTelnetToUnixEol(buf: array<char>, offset: nat) returns (newOffset: nat)
    requires offset <= buf.Length
    modifies buf
    ensures newOffset <= offset
    ensures buf[..newOffset] == ToUnix(old(buf[..offset]))
    ensures buf[offset..] == old(buf[offset..])
  {
    ghost var s, done := buf[..offset], [];
    var i := 0;
    newOffset := 0;
    ConvertedNone(s);
    while i < offset
      invariant newOffset <= i <= offset
      invariant forall j :: i <= j < buf.Length ==> buf[j] == old(buf[j])
      invariant buf[..newOffset] == done && Converted(s, i, done)
    {
      ConvertedMore(s, i, done);
      done := done + Front(s, i).0;
      if i + 1 < offset && buf[i] == CR && buf[i + 1] == LF {
        buf[newOffset] := LF;
        newOffset := newOffset + 1;
        i := i + 1;
      } else if i + 1 < offset && buf[i] == CR && buf[i + 1] == NUL {
        i := i + 1;
      } else if i + 1 < offset && buf[i] == LF && buf[i + 1] == CR {
        buf[newOffset] := LF;
        newOffset := newOffset + 1;
        i := i + 1;
      } else if buf[i] == CR {
        buf[newOffset] := LF;
        newOffset := newOffset + 1;
      } else {
        buf[newOffset] := buf[i];
        newOffset := newOffset + 1;
      }
      i := i + 1;
    }
    ConvertedAll(s, done);
  }

  method ConvertUnixToTelnetEol(buf: array<char>, offset: nat, out: array<char>) returns (outOffset: nat)
    requires offset <= buf.Length && 2 * offset <= out.Length && out != buf
    modifies out
    ensures outOffset <= 2 * offset
    ensures out[..outOffset] == ToTelnet(buf[..offset])
    ensures out[outOffset..] == old(out[outOffset..])
  {
    outOffset := 0;
    var i := 0;
    while i < offset
      invariant i <= offset && outOffset <= 2 * i
      invariant out[..outOffset] == ToTelnet(buf[..i])
      invariant out[outOffset..] == old(out[outOffset..])
    {
      ghost var done := out[..outOffset];
      assert buf[..i + 1][..i] == buf[..i];
      if buf[i] != LF {
        out[outOffset] := buf[i];
        outOffset := outOffset + 1;
        assert out[..outOffset] == done + [buf[i]];
      } else {
        out[outOffset] := CR;
        outOffset := outOffset + 1;
        out[outOffset] := LF;
        outOffset := outOffset + 1;
        assert out[..outOffset] == done + [CR, LF];
      }
      i := i + 1;
    }
  }

  lemma Prepared(command: seq<char>, lf: seq<char>, sent: seq<char>)
    requires lf == ToUnix(command) && sent == ToTelnet(lf) + [CR, LF]
    ensures OnTheWire(sent) && forall reply :: ToUnix(sent + reply) == lf + [LF] + ToUnix(reply)
  {
    ToUnixHasNoCR(command);
    var line := lf + [LF];
    assert line[..|lf|] == lf;
    ToTelnetOnTheWire(line);
    forall reply
      ensures ToUnix(sent + reply) == lf + [LF] + ToUnix(reply)
    {
      RoundTripFollowedBy(line, reply);
    }
  }

  /** How a command is prepared: as it is echoed after conversion, and as it is sent. */
  method PrepareCommand(command: seq<char>) returns (lf: seq<char>, sent: seq<char>)
    ensures lf == ToUnix(command) && OnTheWire(sent)
    ensures forall reply :: ToUnix(sent + reply) == lf + [LF] + ToUnix(reply)
  {
    var command_lf := new char[|command| + 1];
    forall i | 0 <= i < |command| {
      command_lf[i] := command[i];
    }
    assert command_lf[..|command|] == command;
    var offset_lf := ConvertTelnetToUnixEol(command_lf, |command|);
    var command_crlf := new char[offset_lf * 2 + 1];
    var offset_crlf := ConvertUnixToTelnetEol(command_lf, offset_lf, command_crlf);
    lf := command_lf[..offset_lf];
    sent := command_crlf[..offset_crlf] + [CR, LF];
    Prepared(command, lf, sent);
  }
}
