/**
  Raw strings over several lines: the lexer reads line by line, and hands on a mode (lib/r_lexer.ml).
*/
module RawLines {
  import opened Strings
  import opened Wrappers
  import opened RawString
  import opened OpenLines

  /** A string that a line leaves open goes on with the next line, under the same end mark. */
  lemma {:induction false} OpenStringGoesOn(closing: string, prev: string, line: string)
    requires closing != "" && !Occurs(closing, line) && (line != "" || prev != "")
    ensures LexOpen(InRawString(closing, prev), line) == Lexed([STRING(prev + line)], InRawString(closing, ""), |line|)
  {
    forall m | 0 < m <= |line|
      ensures !EndsWith(line[..m], closing)
    {
      EndsWithIsOccurs(closing, line, m);
    }
    assert Read(closing, prev, line) == Reading(STRING(prev + line), InRawString(closing, ""), |line|);
    assert line[|line|..] == "";
    NothingIsLeft(InRawString(closing, ""));
  }

  /** When the line ends before the bracket, what stands there comes out twice, no end mark is remembered, and the first
      byte of the next line that is not empty ends the string. */
  lemma UnfinishedDelimiterEndsAtOnce(prefix: string, delim: string, line: string)
    requires !HoldsBracket(delim) && prefix + delim != "" && line != ""
    ensures
      LexFirst(RawPrefix(prefix), delim) ==
        Lexed([STRING(prefix + delim), STRING(prefix + delim)], InRawString("", ""), |delim|)
    ensures LexOpen(InRawString("", ""), "") == Lexed([], InRawString("", ""), 0)
    ensures LexOpen(InRawString("", ""), line) == Lexed([STRING(line[..1])], Normal, 1)
  {
    UnfinishedDelimiter(prefix, delim);
    NothingIsLeft(InRawString("", ""));
    FirstByteCloses(line);
  }

  /** What a string that closes consists of, and how far behind its first byte read it ends; a line end counts
      for a byte. */
  datatype Closed = Closed(text: string, consumed: nat)

  function ClosedAt(r: Reading): Option<Closed> {
    if r.mode.Normal? then Some(Closed(TextOf(r.token), r.consumed)) else None
  }

  function BehindLine(text: string, line: string, rest: Option<Closed>): Option<Closed> {
    if rest.None? then None else Some(Closed(text + "\n" + rest.value.text, |line| + 1 + rest.value.consumed))
  }

  /** Line after line, each in the mode that the one before it hands on, until the string closes. */
  function ReadLines(mode: Mode, lines: seq<string>): Option<Closed>
    requires !mode.Normal?
    decreases |lines|
  {
    if lines == [] then None
    else
      var out := LexOpen(mode, lines[0]);
      if out.mode.Normal? then Some(Closed(TextsOf(out.tokens), out.consumed))
      else BehindLine(TextsOf(out.tokens), lines[0], ReadLines(out.mode, lines[1..]))
  }

  /** The first of the lines begins with the delimiter. */
  function ReadLinesStart(prefix: string, lines: seq<string>): Option<Closed>
    requires lines != []
  {
    var out := LexFirst(RawPrefix(prefix), lines[0]);
    if out.mode.Normal? then Some(Closed(TextsOf(out.tokens), out.consumed))
    else BehindLine(TextsOf(out.tokens), lines[0], ReadLines(out.mode, lines[1..]))
  }

  /** A line of a raw string has the text of its one token; that the end of the line is read once more adds nothing. */
  lemma {:induction false} ReadLinesUnfold(closing: string, prev: string, lines: seq<string>)
    requires lines != []
    ensures
      var r := Read(closing, prev, lines[0]);
      ReadLines(InRawString(closing, prev), lines) ==
        if r.mode.Normal? then ClosedAt(r) else BehindLine(TextOf(r.token), lines[0], ReadLines(r.mode, lines[1..]))
  {
    var r := Read(closing, prev, lines[0]);
    TextsOfOne(r.token);
    if !r.mode.Normal? {
      assert lines[0][r.consumed..] == "";
      NothingIsLeft(r.mode);
    }
  }

  /** Likewise for the first line, if the bracket is on it. */
  lemma {:induction false} ReadLinesStartUnfold(prefix: string, lines: seq<string>)
    requires lines != [] && HoldsBracket(lines[0])
    ensures
      var r := ReadStart(prefix, lines[0]);
      ReadLinesStart(prefix, lines) ==
        if r.mode.Normal? then ClosedAt(r) else BehindLine(TextOf(r.token), lines[0], ReadLines(r.mode, lines[1..]))
  {
    var r := ReadStart(prefix, lines[0]);
    TextsOfOne(r.token);
    if !r.mode.Normal? {
      assert lines[0][r.consumed..] == "";
      NothingIsLeft(r.mode);
    }
  }

  ghost predicate AreLines(lines: seq<string>) {
    lines != [] && forall i :: 0 <= i < |lines| ==> '\n' !in lines[i]
  }

  lemma CloseEndIs(closing: string, s: string, n: nat, m: nat)
    requires n < m <= |s| && EndsWith(s[..m], closing)
    requires forall k :: n < k < m ==> !EndsWith(s[..k], closing)
    ensures CloseEnd(closing, s, n) == Some(m)
  {
    var r := CloseEnd(closing, s, n);
    assert r.Some?;
  }

  lemma NoCloseEnd(closing: string, s: string, n: nat)
    requires n <= |s| && forall k :: n < k <= |s| ==> !EndsWith(s[..k], closing)
    ensures CloseEnd(closing, s, n) == None
  {
    var r := CloseEnd(closing, s, n);
  }

  /** An end mark without a line end does not straddle one. */
  lemma EndsBehindLine(closing: string, line: string, rest: string, n: nat)
    requires closing != "" && '\n' !in closing && |line| < n <= |line| + 1 + |rest|
    ensures
      var k := n - (|line| + 1);
      EndsWith((line + "\n" + rest)[..n], closing) <==> k > 0 && EndsWith(rest[..k], closing)
  {
    var s, k := line + "\n" + rest, n - (|line| + 1);
    assert s[..n] == line + "\n" + rest[..k];
    if |closing| <= k {
      assert s[..n][n - |closing|..] == rest[..k][k - |closing|..];
    } else if |closing| <= n {
      assert s[..n][n - |closing|..][|line| - (n - |closing|)] == '\n';
    }
  }

  /** The first end of a string in two parts with a line end between them. */
  lemma CloseEndBehindLine(closing: string, line: string, rest: string)
    requires closing != "" && '\n' !in closing
    ensures
      CloseEnd(closing, line + "\n" + rest, 0) ==
        match CloseEnd(closing, line, 0)
        case Some(m) => Some(m)
        case None =>
          match CloseEnd(closing, rest, 0)
          case Some(m) => Some(|line| + 1 + m)
          case None => None
  {
    var s, first, second := line + "\n" + rest, CloseEnd(closing, line, 0), CloseEnd(closing, rest, 0);
    forall k | 0 < k <= |line|
      ensures s[..k] == line[..k]
    {
    }
    forall k | |line| < k <= |s|
      ensures EndsWith(s[..k], closing) <==> k > |line| + 1 && EndsWith(rest[..k - (|line| + 1)], closing)
    {
      EndsBehindLine(closing, line, rest, k);
    }
    if first.Some? {
      CloseEndIs(closing, s, 0, first.value);
    } else if second.Some? {
      CloseEndIs(closing, s, 0, |line| + 1 + second.value);
    } else {
      NoCloseEnd(closing, s, 0);
    }
  }

  lemma JoinCons(line: string, rest: seq<string>)
    requires rest != []
    ensures Join([line] + rest, '\n') == line + "\n" + Join(rest, '\n')
  {
    assert ([line] + rest)[1..] == rest;
  }

  lemma ClosedRead(closing: string, prev: string, s: string)
    ensures ClosedAt(Read(closing, prev, s)) ==
      match CloseEnd(closing, s, 0)
      case Some(m) => Some(Closed(prev + s[..m], m))
      case None => None
  {
  }

  /** Reading one line and then, unless the string closes there, the rest. */
  lemma ReadBehindLine(closing: string, prev: string, line: string, rest: string)
    requires closing != "" && '\n' !in closing
    ensures
      var r := Read(closing, prev, line);
      ClosedAt(Read(closing, prev, line + "\n" + rest)) ==
        if r.mode.Normal? then ClosedAt(r) else BehindLine(TextOf(r.token), line, ClosedAt(Read(closing, "", rest)))
  {
    CloseEndBehindLine(closing, line, rest);
    ClosedRead(closing, prev, line + "\n" + rest);
    ClosedRead(closing, "", rest);
    if CloseEnd(closing, line, 0).Some? {
      ClosedRead(closing, prev, line);
      SliceOfFirst(line, "\n" + rest, CloseEnd(closing, line, 0).value);
      assert line + ("\n" + rest) == line + "\n" + rest;
    } else {
      OpenLine(closing, prev, line);
      if CloseEnd(closing, rest, 0).Some? {
        TextsJoin(prev, line, rest, CloseEnd(closing, rest, 0).value);
      }
    }
  }

  lemma OpenLine(closing: string, prev: string, line: string)
    requires CloseEnd(closing, line, 0).None?
    ensures Read(closing, prev, line).mode.InRawString? && TextOf(Read(closing, prev, line).token) == prev + line
  {
  }

  lemma SliceOfFirst(a: string, b: string, m: nat)
    requires m <= |a|
    ensures (a + b)[..m] == a[..m]
  {
  }

  lemma TextsJoin(prev: string, line: string, rest: string, m: nat)
    requires m <= |rest|
    ensures prev + (line + "\n" + rest)[..|line| + 1 + m] == prev + line + "\n" + ("" + rest[..m])
  {
    assert (line + "\n" + rest)[..|line| + 1 + m] == line + "\n" + rest[..m];
  }

  /** Under an end mark without a line end, reading line by line closes where reading all at once does, and with the
      same text. */
  lemma {:induction false} ReadLinesIsRead(closing: string, prev: string, lines: seq<string>)
    requires closing != "" && '\n' !in closing && AreLines(lines)
    ensures ReadLines(InRawString(closing, prev), lines) == ClosedAt(Read(closing, prev, Join(lines, '\n')))
    decreases |lines|
  {
    var line, rest := lines[0], lines[1..];
    assert lines == [line] + rest;
    ReadLinesUnfold(closing, prev, lines);
    if rest != [] {
      JoinCons(line, rest);
      ReadBehindLine(closing, prev, line, Join(rest, '\n'));
      ReadLinesIsRead(closing, "", rest);
    }
  }

  lemma {:induction false} BracketAtIs(s: string, n: nat, d: nat)
    requires n <= d <= |s| && (forall i :: n <= i < d ==> !IsBracket(s[i])) && (d < |s| ==> IsBracket(s[d]))
    ensures BracketAt(s, n) == d
  {
    var r := BracketAt(s, n);
  }

  function Shifted(c: Option<Closed>, n: nat): Option<Closed> {
    if c.None? then None else Some(c.value.(consumed := n + c.value.consumed))
  }

  /** The end mark and the text so far, once the bracket is read. */
  function EndMark(s: string, d: nat): string
    requires d < |s| && IsBracket(s[d])
  {
    [ClosingBracket(s[d])] + s[..d] + "\""
  }

  /** The text so far. */
  function TextTo(prefix: string, s: string, d: nat): string
    requires d < |s|
  {
    prefix + s[..d] + [s[d]]
  }

  lemma StartGoesOn(prefix: string, s: string, d: nat)
    requires BracketAt(s, 0) == d < |s|
    ensures
      var r := Read(EndMark(s, d), TextTo(prefix, s, d), s[d + 1..]);
      ReadStart(prefix, s) == r.(consumed := d + 1 + r.consumed)
  {
  }

  lemma StartIsRead(prefix: string, s: string, d: nat)
    requires BracketAt(s, 0) == d < |s|
    ensures ClosedAt(ReadStart(prefix, s)) == Shifted(ClosedAt(Read(EndMark(s, d), TextTo(prefix, s, d), s[d + 1..])), d + 1)
  {
    StartGoesOn(prefix, s, d);
  }

  lemma ShiftedBehindLine(text: string, line: string, rest: Option<Closed>, n: nat)
    requires n <= |line|
    ensures BehindLine(text, line, rest) == Shifted(BehindLine(text, line[n..], rest), n)
  {
  }

  lemma StartIsReadLines(prefix: string, lines: seq<string>, d: nat)
    requires AreLines(lines) && BracketAt(lines[0], 0) == d < |lines[0]|
    ensures
      var line := lines[0];
      ReadLinesStart(prefix, lines) ==
        Shifted(ReadLines(InRawString(EndMark(line, d), TextTo(prefix, line, d)), [line[d + 1..]] + lines[1..]), d + 1)
  {
    var line, cut := lines[0], [lines[0][d + 1..]] + lines[1..];
    var closing, text := EndMark(line, d), TextTo(prefix, line, d);
    assert cut[1..] == lines[1..] && cut[0] == line[d + 1..];
    ReadLinesStartUnfold(prefix, lines);
    StartGoesOn(prefix, line, d);
    ReadLinesUnfold(closing, text, cut);
    var r := Read(closing, text, cut[0]);
    if !r.mode.Normal? {
      ShiftedBehindLine(TextOf(r.token), line, ReadLines(r.mode, lines[1..]), d + 1);
    }
  }

  lemma StartOfLines(prefix: string, lines: seq<string>, d: nat)
    requires AreLines(lines) && BracketAt(lines[0], 0) == d < |lines[0]|
    ensures
      var line := lines[0];
      ClosedAt(ReadStart(prefix, Join(lines, '\n'))) ==
        Shifted(ClosedAt(Read(EndMark(line, d), TextTo(prefix, line, d), Join([line[d + 1..]] + lines[1..], '\n'))), d + 1)
  {
    var line, all, cut := lines[0], Join(lines, '\n'), Join([lines[0][d + 1..]] + lines[1..], '\n');
    CutFirstLine(lines, d);
    BracketStays(prefix, line, cut, d);
    StartIsRead(prefix, all, d);
  }

  /** With its bracket on the first line, a raw string over several lines is read as if they were one. */
  lemma {:induction false} BracketOnFirstLine(prefix: string, lines: seq<string>)
    requires AreLines(lines) && HoldsBracket(lines[0])
    ensures ReadLinesStart(prefix, lines) == ClosedAt(ReadStart(prefix, Join(lines, '\n')))
  {
    var line, d := lines[0], BracketAt(lines[0], 0);
    var cut := [line[d + 1..]] + lines[1..];
    assert AreLines(cut) by {
      CutFirstLine(lines, d);
    }
    StartOfLines(prefix, lines, d);
    StartIsReadLines(prefix, lines, d);
    ReadLinesIsRead(EndMark(line, d), TextTo(prefix, line, d), cut);
  }

  lemma BracketStays(prefix: string, line: string, rest: string, d: nat)
    requires BracketAt(line, 0) == d < |line|
    ensures
      var all := line[..d + 1] + rest;
      && BracketAt(all, 0) == d && all[d + 1..] == rest
      && EndMark(all, d) == EndMark(line, d) && TextTo(prefix, all, d) == TextTo(prefix, line, d)
  {
    var all := line[..d + 1] + rest;
    BracketAtIs(all, 0, d);
    assert all[..d] == line[..d];
  }

  /** Cutting bytes off the first line cuts them off the text. */
  lemma CutFirstLine(lines: seq<string>, d: nat)
    requires AreLines(lines) && d < |lines[0]|
    ensures
      var cut := [lines[0][d + 1..]] + lines[1..];
      && AreLines(cut)
      && Join(lines, '\n') == lines[0][..d + 1] + Join(cut, '\n')
  {
    var line, rest := lines[0], lines[1..];
    assert lines == [line] + rest;
    assert line == line[..d + 1] + line[d + 1..];
    if rest != [] {
      JoinCons(line, rest);
      JoinCons(line[d + 1..], rest);
    }
  }

  /** The first byte that is not a line end closes the string. */
  ghost predicate ClosesAtFirst(c: Option<Closed>, all: string) {
    match c
    case None => forall i :: 0 <= i < |all| ==> all[i] == '\n'
    case Some(c) => 0 < c.consumed <= |all| && forall i :: 0 <= i < c.consumed - 1 ==> all[i] == '\n'
  }

  lemma BehindEmptyLine(c: Option<Closed>, rest: string)
    requires ClosesAtFirst(c, rest)
    ensures ClosesAtFirst(BehindLine("", "", c), "" + "\n" + rest)
  {
  }

  /** Without a bracket there is no end mark, and the first byte of the lines below ends the string. */
  lemma {:induction false} EndsAtFirstByte(lines: seq<string>)
    requires forall i :: 0 <= i < |lines| ==> '\n' !in lines[i]
    ensures ClosesAtFirst(ReadLines(InRawString("", ""), lines), Join(lines, '\n'))
    decreases |lines|
  {
    if lines != [] {
      var line, rest := lines[0], lines[1..];
      assert lines == [line] + rest;
      if rest != [] {
        JoinCons(line, rest);
      }
      ReadLinesUnfold("", "", lines);
      if line != "" {
        FirstByteCloses(line);
      } else {
        NothingToRead();
        EndsAtFirstByte(rest);
        BehindEmptyLine(ReadLines(InRawString("", ""), rest), Join(rest, '\n'));
      }
    }
  }

  lemma FirstByteCloses(line: string)
    requires line != ""
    ensures Read("", "", line) == Reading(STRING(line[..1]), Normal, 1)
  {
    assert EndsWith(line[..1], "");
    assert "" + line[..1] == line[..1];
  }

  lemma NothingToRead()
    ensures Read("", "", "") == Reading(EOF, InRawString("", ""), 0)
  {
  }

  /** A string that closes has an end mark behind its bracket. */
  lemma ClosesBehindBracket(prefix: string, s: string)
    requires ReadStart(prefix, s).mode.Normal?
    ensures BracketAt(s, 0) < |s| && ReadStart(prefix, s).consumed >= BracketAt(s, 0) + 3
  {
    var d := BracketAt(s, 0);
    StartIsRead(prefix, s, d);
    EndsBehindMark(EndMark(s, d), s[d + 1..]);
  }

  lemma EndsBehindMark(closing: string, s: string)
    ensures CloseEnd(closing, s, 0).Some? ==> CloseEnd(closing, s, 0).value >= |closing|
  {
  }

  /** Whatever the tokens of the first line, they hand on no end mark. */
  lemma HandsOnNoEndMark(prefix: string, line: string)
    requires !HoldsBracket(line)
    ensures LexFirst(RawPrefix(prefix), line).mode == InRawString("", "")
  {
    NoBracketBefore(line, 0);
    NothingIsLeft(InRawString("", ""));
    if prefix + line != "" {
      UnfinishedDelimiter(prefix, line);
    }
  }

  lemma NoBracketOnFirstLine(prefix: string, lines: seq<string>)
    requires AreLines(lines) && !HoldsBracket(lines[0])
    ensures
      var byLine, atOnce := ReadLinesStart(prefix, lines), ClosedAt(ReadStart(prefix, Join(lines, '\n')));
      byLine != atOnce || (byLine.None? && atOnce.None?)
  {
    var line, rest, all := lines[0], lines[1..], Join(lines, '\n');
    assert lines == [line] + rest;
    NoBracketBefore(line, 0);
    HandsOnNoEndMark(prefix, line);
    EndsAtFirstByte(rest);
    if rest != [] {
      JoinCons(line, rest);
      BracketBehindLineEnds(line, Join(rest, '\n'), ReadLines(InRawString("", ""), rest));
    }
    if ReadStart(prefix, all).mode.Normal? {
      ClosesBehindBracket(prefix, all);
    }
  }

  lemma BracketBehindLineEnds(line: string, rest: string, c: Option<Closed>)
    requires !HoldsBracket(line) && ClosesAtFirst(c, rest)
    ensures
      var all := line + "\n" + rest;
      BracketAt(all, 0) >= if c.Some? then |line| + c.value.consumed else |all|
  {
    var all := line + "\n" + rest;
    var d := BracketAt(all, 0);
    assert all[|line|] == '\n';
    forall i | 0 <= i < if c.Some? then |line| + c.value.consumed else |all|
      ensures !IsBracket(all[i])
    {
      if i > |line| {
        assert all[i] == rest[i - (|line| + 1)];
      }
    }
  }

  /** A raw string over several lines, which closes in one way of reading or the other, closes at the same place and
      with the same text, whether it is read line by line or all at once, exactly when its bracket is on the first
      line. */
  lemma LinesReadAsOneIff(prefix: string, lines: seq<string>)
    requires AreLines(lines)
    requires ReadLinesStart(prefix, lines).Some? || ReadStart(prefix, Join(lines, '\n')).mode.Normal?
    ensures ReadLinesStart(prefix, lines) == ClosedAt(ReadStart(prefix, Join(lines, '\n'))) <==> HoldsBracket(lines[0])
  {
    if HoldsBracket(lines[0]) {
      BracketOnFirstLine(prefix, lines);
    } else {
      NoBracketOnFirstLine(prefix, lines);
    }
  }
}
