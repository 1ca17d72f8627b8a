/**
  Strings that a line leaves open: what `lex_line` makes of them up to the end of the line, and what it hands on to the
  next line (lib/r_lexer.ml).  A token may hold bytes of the line above, and the opening of a string may come out
  twice or, on its own line, not at all; the lemmas say when.
*/
module OpenLines {
  import opened Wrappers
  import opened RawString

  // ------------------------------------------------------------------------- quotes

  /** How far a quoted string reaches from `n` on, with its quote; what is behind a backslash does not end it. */
  function QuoteEnd(quote: char, s: string, n: nat): (r: Option<nat>)
    requires n <= |s|
    ensures r.Some? ==> n < r.value <= |s| && s[r.value - 1] == quote
    decreases |s| - n
  {
    if n == |s| then None
    else if s[n] == '\\' && n + 1 < |s| then QuoteEnd(quote, s, n + 2)
    else if s[n] == quote then Some(n + 1)
    else QuoteEnd(quote, s, n + 1)
  }

  /** An odd number of backslashes stands directly before. */
  predicate IsEscaped(s: string, i: nat)
    requires i < |s|
  {
    i > 0 && s[i - 1] == '\\' && !IsEscaped(s, i - 1)
  }

  /** A quoted string ends exactly with the first quote that is not escaped. */
  lemma {:induction false} QuoteEndIs(quote: char, s: string, n: nat)
    requires n <= |s| && quote != '\\' && (n < |s| ==> !IsEscaped(s, n))
    ensures
      match QuoteEnd(quote, s, n)
      case Some(m) => s[m - 1] == quote && !IsEscaped(s, m - 1) && forall i :: n <= i < m - 1 ==> s[i] != quote || IsEscaped(s, i)
      case None => forall i :: n <= i < |s| ==> s[i] != quote || IsEscaped(s, i)
    decreases |s| - n
  {
    if n < |s| {
      if s[n] == '\\' && n + 1 < |s| {
        assert IsEscaped(s, n + 1);
        QuoteEndIs(quote, s, n + 2);
      } else if s[n] != quote {
        QuoteEndIs(quote, s, n + 1);
      }
    }
  }

  lemma QuoteEndIff(quote: char, s: string, m: nat)
    requires m < |s| && quote != '\\'
    ensures QuoteEnd(quote, s, 0) == Some(m + 1) <==>
              s[m] == quote && !IsEscaped(s, m) && forall i :: 0 <= i < m ==> s[i] != quote || IsEscaped(s, i)
  {
    QuoteEndIs(quote, s, 0);
  }

  /** Whatever has been read before on other lines, a line in a quoted string is read up to that quote, or in full. */
  lemma {:induction false} QuotedLine(prev: string, s: string, m: nat)
    requires m < |s|
    ensures
      && (ReadSingleQuote(prev, s) == Reading(STRING(prev + s[..m + 1]), Normal, m + 1) <==>
            s[m] == '\'' && !IsEscaped(s, m) && forall i :: 0 <= i < m ==> s[i] != '\'' || IsEscaped(s, i))
      && (ReadDoubleQuote(prev, s) == Reading(STRING(prev + s[..m + 1]), Normal, m + 1) <==>
            s[m] == '"' && !IsEscaped(s, m) && forall i :: 0 <= i < m ==> s[i] != '"' || IsEscaped(s, i))
  {
    QuoteEndIff('\'', s, m);
    QuoteEndIff('"', s, m);
  }

  function ReadSingleQuote(prev: string, s: string): Reading {
    match QuoteEnd('\'', s, 0)
    case Some(m) => Reading(STRING(prev + s[..m]), Normal, m)
    case None =>
      if s == "" then Reading(EOF, InSingleQuote(prev), 0)
      else Reading(STRING(prev + s), InSingleQuote(""), |s|)
  }

  function ReadDoubleQuote(prev: string, s: string): Reading {
    match QuoteEnd('"', s, 0)
    case Some(m) => Reading(STRING(prev + s[..m]), Normal, m)
    case None =>
      if s == "" && prev == "" then Reading(EOF, InDoubleQuote(""), 0)
      else Reading(STRING(prev + s), InDoubleQuote(""), |s|)
  }

  // --------------------------------------------------------------------- the loop of `lex_line`

  /** The tokens up to the end of the string, or of the line. */
  datatype Lexed = Lexed(tokens: seq<Token>, mode: Mode, consumed: nat)

  /** The next token within a string. */
  function ReadOn(mode: Mode, s: string): Reading
    requires !mode.Normal?
  {
    match mode
    case InSingleQuote(prev) => ReadSingleQuote(prev, s)
    case InDoubleQuote(prev) => ReadDoubleQuote(prev, s)
    case InRawString(closing, prev) => Read(closing, prev, s)
  }

  /** What stands in front of a string, and is read before it. */
  datatype Opening = SingleQuote | DoubleQuote | RawPrefix(text: string)

  function TextBefore(opening: Opening): string {
    match opening
    case SingleQuote => "'"
    case DoubleQuote => "\""
    case RawPrefix(text) => text
  }

  function ReadFirst(opening: Opening, s: string): Reading {
    match opening
    case SingleQuote => ReadSingleQuote("'", s)
    case DoubleQuote => ReadDoubleQuote("\"", s)
    case RawPrefix(text) => ReadStart(text, s)
  }

  /** Token after token, each in the mode that the one before it leaves, until there is none or the string closes. */
  function LexOpen(mode: Mode, s: string): Lexed
    requires !mode.Normal?
    decreases |s|, |mode.prev|
  {
    var r := ReadOn(mode, s);
    if r.token.EOF? then Lexed([], r.mode, 0)
    else if r.mode.Normal? then Lexed([r.token], Normal, r.consumed)
    else Behind(r, LexOpen(r.mode, s[r.consumed..]))
  }

  function Behind(r: Reading, rest: Lexed): Lexed {
    Lexed([r.token] + rest.tokens, rest.mode, r.consumed + rest.consumed)
  }

  /** Likewise, for a line that goes on with `s` behind the opening. */
  function LexFirst(opening: Opening, s: string): Lexed {
    var r := ReadFirst(opening, s);
    if r.token.EOF? then Lexed([], r.mode, 0)
    else if r.mode.Normal? then Lexed([r.token], Normal, r.consumed)
    else Behind(r, LexOpen(r.mode, s[r.consumed..]))
  }

  function TextOf(t: Token): string {
    if t.STRING? then t.text else ""
  }

  function TextsOf(tokens: seq<Token>): string {
    if tokens == [] then "" else TextOf(tokens[0]) + TextsOf(tokens[1..])
  }

  // ------------------------------------------------------------------ which bytes the tokens hold

  function Remembered(mode: Mode): string {
    if mode.Normal? then "" else mode.prev
  }

  lemma NothingIsLeft(mode: Mode)
    requires !mode.Normal? && mode.prev == ""
    ensures LexOpen(mode, "") == Lexed([], mode, 0)
  {
    if mode.InRawString? {
      assert CloseEnd(mode.closing, "", 0) == None;
    }
  }

  /** A whole line and what the line above left over go into the tokens of a string that stays open; only a single
      quote with nothing to read is put off again. */
  lemma OpenLine(mode: Mode, s: string)
    requires !mode.Normal? && !ReadOn(mode, s).mode.Normal?
    ensures
      var out := LexOpen(mode, s);
      && out.consumed == |s|
      && TextsOf(out.tokens) + Remembered(out.mode) == mode.prev + s
      && out.mode == if mode.InSingleQuote? && s == "" then mode else mode.(prev := "")
  {
    var r := ReadOn(mode, s);
    if !r.token.EOF? {
      assert s[r.consumed..] == "";
      NothingIsLeft(r.mode);
    }
  }

  /** The tokens on a line hold what the line above left over and the bytes read, and nothing else but what is left over
      for the next line. */
  lemma TokensHold(mode: Mode, s: string)
    requires !mode.Normal?
    ensures
      var out := LexOpen(mode, s);
      && out.consumed <= |s| && (!out.mode.Normal? ==> out.consumed == |s|)
      && TextsOf(out.tokens) + Remembered(out.mode) == mode.prev + s[..out.consumed]
  {
    if ReadOn(mode, s).mode.Normal? {
      assert TextsOf([ReadOn(mode, s).token]) == TextOf(ReadOn(mode, s).token);
    } else {
      OpenLine(mode, s);
    }
  }

  ghost predicate HoldsBracket(line: string) {
    exists i :: 0 <= i < |line| && IsBracket(line[i])
  }

  /** A string at whose opening the tokens go wrong: an opening single quote at the end of its line, or a raw string
      whose line ends before its bracket. */
  ghost predicate EndsTooSoon(opening: Opening, s: string) {
    match opening
    case SingleQuote => s == ""
    case DoubleQuote => false
    case RawPrefix(text) => !HoldsBracket(s) && text + s != ""
  }

  lemma {:induction false} NoBracketBefore(s: string, n: nat)
    requires n <= |s| && !HoldsBracket(s)
    ensures BracketAt(s, n) == |s|
  {
  }

  /** A raw string whose line ends before its bracket comes out twice, and is closed by whatever comes first below. */
  lemma UnfinishedDelimiter(prefix: string, delim: string)
    requires !HoldsBracket(delim) && prefix + delim != ""
    ensures
      LexFirst(RawPrefix(prefix), delim) ==
        Lexed([STRING(prefix + delim), STRING(prefix + delim)], InRawString("", ""), |delim|)
  {
    NoBracketBefore(delim, 0);
    var text := prefix + delim;
    assert ReadStart(prefix, delim) == Reading(STRING(text), InRawString("", text), |delim|);
    assert delim[|delim|..] == "";
    RepeatsPrefix(text);
  }

  lemma RepeatsPrefix(text: string)
    requires text != ""
    ensures LexOpen(InRawString("", text), "") == Lexed([STRING(text)], InRawString("", ""), 0)
  {
    assert CloseEnd("", "", 0) == None;
    assert text + "" == text;
    assert ReadOn(InRawString("", text), "") == Reading(STRING(text), InRawString("", ""), 0);
    NothingIsLeft(InRawString("", ""));
  }

  lemma TextsOfOne(t: Token)
    ensures TextsOf([t]) == TextOf(t)
  {
  }

  lemma TextsOfTwo(text: string)
    ensures TextsOf([STRING(text), STRING(text)]) == text + text
  {
    assert [STRING(text), STRING(text)][1..] == [STRING(text)];
    TextsOfOne(STRING(text));
  }

  /** Otherwise one token holds it all, and nothing is put off. */
  lemma FirstReading(opening: Opening, s: string)
    requires !EndsTooSoon(opening, s)
    ensures
      var r := ReadFirst(opening, s);
      && r.consumed <= |s| && (!r.mode.Normal? ==> r.consumed == |s| && r.mode.prev == "")
      && TextOf(r.token) == TextBefore(opening) + s[..r.consumed]
  {
  }

  /** The line of the opening is in the tokens, byte by byte, exactly when the string does not end too soon; and only a
      single quote is ever put off to the next line. */
  lemma {:induction false} FirstLineTilesIff(opening: Opening, s: string)
    ensures
      var out := LexFirst(opening, s);
      && out.consumed <= |s|
      && (TextsOf(out.tokens) == TextBefore(opening) + s[..out.consumed] <==> !EndsTooSoon(opening, s))
      && (Remembered(out.mode) != "" <==> opening.SingleQuote? && s == "")
  {
    var r := ReadFirst(opening, s);
    if EndsTooSoon(opening, s) {
      if opening.RawPrefix? {
        UnfinishedDelimiter(opening.text, s);
        TextsOfTwo(opening.text + s);
      }
    } else {
      FirstReading(opening, s);
      TextsOfOne(r.token);
      if !r.mode.Normal? {
        assert s[r.consumed..] == "";
        NothingIsLeft(r.mode);
      }
    }
  }

  // --------------------------------------------------------------------- the lines below

  /** The lines below, each in the mode that the one above it hands on, as far as the string goes. */
  function LexLines(mode: Mode, lines: seq<string>): (out: seq<Lexed>)
    requires !mode.Normal?
    ensures |out| <= |lines|
    decreases |lines|
  {
    if lines == [] then []
    else
      var first := LexOpen(mode, lines[0]);
      [first] + if first.mode.Normal? then [] else LexLines(first.mode, lines[1..])
  }

  /** The tokens of each line hold just the bytes that were read of it. */
  ghost predicate EachTiles(out: seq<Lexed>, lines: seq<string>) {
    && |out| <= |lines|
    && forall i :: 0 <= i < |out| ==> Tiles(out[i], lines[i])
  }

  ghost predicate Tiles(out: Lexed, line: string) {
    out.consumed <= |line| && TextsOf(out.tokens) == line[..out.consumed]
  }

  lemma {:induction false} LinesBelowTile(mode: Mode, lines: seq<string>)
    requires !mode.Normal? && mode.prev == ""
    ensures EachTiles(LexLines(mode, lines), lines)
    decreases |lines|
  {
    if lines != [] {
      var first := LexOpen(mode, lines[0]);
      LineTiles(mode, lines[0]);
      if !first.mode.Normal? {
        LinesBelowTile(first.mode, lines[1..]);
        TilesCons(first, LexLines(first.mode, lines[1..]), lines);
      }
    }
  }

  lemma LineTiles(mode: Mode, line: string)
    requires !mode.Normal? && mode.prev == ""
    ensures
      var out := LexOpen(mode, line);
      Tiles(out, line) && Remembered(out.mode) == ""
  {
    TokensHold(mode, line);
    if !ReadOn(mode, line).mode.Normal? {
      OpenLine(mode, line);
    }
  }

  lemma TilesCons(first: Lexed, out: seq<Lexed>, lines: seq<string>)
    requires lines != [] && Tiles(first, lines[0]) && EachTiles(out, lines[1..])
    ensures EachTiles([first] + out, lines)
  {
  }

  function LinesBelow(first: Lexed, lines: seq<string>): seq<Lexed> {
    if first.mode.Normal? then [] else LexLines(first.mode, lines)
  }

  /** On every line of a string the tokens hold just the bytes that were read, exactly when it does not end too soon. */
  lemma {:induction false} LinesTileIff(opening: Opening, s: string, lines: seq<string>)
    ensures
      var first := LexFirst(opening, s);
      && first.consumed <= |s|
      && (TextsOf(first.tokens) == TextBefore(opening) + s[..first.consumed] && EachTiles(LinesBelow(first, lines), lines)
          <==> !EndsTooSoon(opening, s))
  {
    var first := LexFirst(opening, s);
    FirstLineTilesIff(opening, s);
    if !first.mode.Normal? && first.mode.prev == "" {
      LinesBelowTile(first.mode, lines);
    }
  }

  lemma ClosesAtSecond(prev: string, s: string)
    requires |s| >= 2 && s[0] != '\\' && s[0] != '\'' && s[1] == '\''
    ensures LexOpen(InSingleQuote(prev), s) == Lexed([STRING(prev + s[..2])], Normal, 2)
  {
    assert QuoteEnd('\'', s, 1) == Some(2);
  }

  /** An opening single quote at the end of its line has no token there. */
  lemma QuoteIsPutOff()
    ensures LexFirst(SingleQuote, "") == Lexed([], InSingleQuote("'"), 0)
  {
  }

  /** The prefix of a raw string at the end of its line has two. */
  lemma PrefixComesTwice(prefix: string)
    requires prefix != ""
    ensures LexFirst(RawPrefix(prefix), "") == Lexed([STRING(prefix), STRING(prefix)], InRawString("", ""), 0)
  {
    UnfinishedDelimiter(prefix, "");
    assert prefix + "" == prefix;
  }

  /** Below such a quote, the line `a' r"` begins with a token of three bytes, of which it holds two. */
  lemma TokenHoldsQuoteAbove(line: string)
    requires line == "a' r\""
    ensures LexOpen(InSingleQuote("'"), line) == Lexed([STRING("'a'")], Normal, 2)
  {
    ClosesAtSecond("'", line);
    assert "'" + line[..2] == "'a'";
  }
}
