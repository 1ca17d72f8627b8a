/**
  Syntax highlighting (lib/r_highlight.ml): ranges are gathered token by token, and within glue strings by
  lexing the interpolated expressions again; then they are sorted, clipped and merged.

  `TokenStyles` says byte by byte what the colours should be; the ranges are proved to paint just that.
*/
module RHighlight {
  import opened Numbers
  import opened Wrappers
  import opened StyledRanges
  import opened Normalizing
  import RawString
  import OpenLines

  // ---------------------------------------------------------------- tokens and glue

  datatype Token = IDENT(name: string) | LEFT_PAREN | STRING(text: string) | OTHER(lexeme: string, style: Style)

  function Lexeme(t: Token): string {
    match t
    case IDENT(name) => name
    case LEFT_PAREN => "("
    case STRING(text) => text
    case OTHER(lexeme, _) => lexeme
  }

  function StyleOfToken(t: Token): Style {
    match t
    case IDENT(_) => Ident
    case LEFT_PAREN => Bracket
    case STRING(_) => StringStyle
    case OTHER(_, style) => style
  }

  function TotalLength(tokens: seq<Token>): nat {
    if tokens == [] then 0 else |Lexeme(tokens[0])| + TotalLength(tokens[1..])
  }

  ghost predicate NoEmptyLexeme(tokens: seq<Token>) {
    forall i :: 0 <= i < |tokens| ==> Lexeme(tokens[i]) != ""
  }

  /** Lexing from the initial mode. */
  type LexLine = string -> seq<Token>

  /** A double quote that is not behind a backslash. */
  predicate IsBareQuote(s: string, i: nat)
    requires i < |s|
  {
    s[i] == '"' && (i == 0 || s[i - 1] != '\\')
  }

  ghost predicate NoBareQuote(s: string) {
    forall i :: 0 <= i < |s| ==> !IsBareQuote(s, i)
  }

  /** Likewise within a double-quoted string, up to `end`. */
  ghost predicate Escaped(s: string, end: nat)
    requires end <= |s|
  {
    forall i :: 1 <= i < end ==> !IsBareQuote(s, i)
  }

  predicate Quoted(s: string) {
    |s| >= 2 && s[0] == '"'
  }

  predicate HasClose(s: string)
    requires Quoted(s)
  {
    s[|s| - 1] == '"'
  }

  function InnerEnd(s: string): nat
    requires Quoted(s)
  {
    if HasClose(s) then |s| - 1 else |s|
  }

  ghost predicate TidyString(s: string) {
    Quoted(s) ==> Escaped(s, InnerEnd(s))
  }

  /** The strings of glue calls end at their first bare quote, as the lexer reads them. */
  ghost predicate Tidy(tokens: seq<Token>) {
    tokens == [] || ((StartsGlue(tokens) ==> TidyString(tokens[2].text)) && Tidy(tokens[1..]))
  }

  /** What cannot begin a raw string, for want of a bare quote, is lexed into lexemes that are not empty and have no more
      bytes together. */
  ghost predicate WellBehaved(lex: LexLine) {
    forall s: string {:trigger lex(s)} :: NoBareQuote(s) ==> NoEmptyLexeme(lex(s)) && TotalLength(lex(s)) <= |s| && Tidy(lex(s))
  }

  predicate IsGlue(f: string) {
    f == "glue" || f == "str_glue"
  }

  predicate StartsGlue(tokens: seq<Token>) {
    |tokens| >= 3 && tokens[0].IDENT? && IsGlue(tokens[0].name) && tokens[1].LEFT_PAREN? && tokens[2].STRING?
  }

  predicate StartsCall(tokens: seq<Token>) {
    |tokens| >= 2 && tokens[0].IDENT? && tokens[1].LEFT_PAREN?
  }

  lemma TotalOfGlue(tokens: seq<Token>)
    requires StartsGlue(tokens)
    ensures TotalLength(tokens) == |tokens[0].name| + 1 + |tokens[2].text| + TotalLength(tokens[3..])
  {
    assert tokens[1..][1..] == tokens[2..] && tokens[2..][1..] == tokens[3..];
    assert TotalLength(tokens[2..]) == |tokens[2].text| + TotalLength(tokens[3..]);
    assert TotalLength(tokens[1..]) == 1 + TotalLength(tokens[2..]);
  }

  lemma TidyBehindGlue(tokens: seq<Token>)
    requires StartsGlue(tokens) && Tidy(tokens)
    ensures TidyString(tokens[2].text) && Tidy(tokens[3..])
  {
    assert tokens[1..][1..] == tokens[2..] && tokens[2..][1..] == tokens[3..];
    assert Tidy(tokens[1..]);
    assert Tidy(tokens[2..]);
  }

  /** An expression within a string has no bare quote: the first byte of it is behind a brace. */
  lemma ExpressionHasNoBareQuote(s: string, end: nat, pos: nat, close: nat)
    requires pos < close < end <= |s| && s[pos] == '{'
    ensures Escaped(s, end) ==> NoBareQuote(s[pos + 1..close])
  {
    var expr := s[pos + 1..close];
    forall i | Escaped(s, end) && 0 <= i < |expr|
      ensures !IsBareQuote(expr, i)
    {
      assert !IsBareQuote(s, pos + 1 + i);
    }
  }

  /** Where the brace that is open `depth` times at `pos` closes, before `end`. */
  function FindClose(s: string, end: nat, depth: nat, pos: nat): (r: Option<nat>)
    requires end <= |s| && depth >= 1
    ensures r.Some? ==> pos <= r.value < end && s[r.value] == '}'
    decreases end - pos
  {
    if pos >= end then None
    else if s[pos] == '{' then FindClose(s, end, depth + 1, pos + 1)
    else if s[pos] == '}' then if depth == 1 then Some(pos) else FindClose(s, end, depth - 1, pos + 1)
    else FindClose(s, end, depth, pos + 1)
  }

  /** How often a character occurs. */
  function Occurrences(c: char, s: string): nat {
    if s == "" then 0 else (if s[0] == c then 1 else 0) + Occurrences(c, s[1..])
  }

  /** From `pos` on, up to and with `c`, braces close once for each of `depth` and each that opens. */
  predicate Balances(s: string, depth: nat, pos: nat, c: nat)
    requires pos <= c < |s|
  {
    Occurrences('}', s[pos..c + 1]) == Occurrences('{', s[pos..c + 1]) + depth
  }

  lemma {:induction false} BalancesStep(s: string, depth: nat, pos: nat, c: nat)
    requires pos <= c < |s|
    ensures c == pos ==> (Balances(s, depth, pos, c) <==> (s[pos] == '}' && depth == 1) || (s[pos] != '}' && s[pos] != '{' && depth == 0))
    ensures c > pos && s[pos] == '{' ==> (Balances(s, depth, pos, c) <==> Balances(s, depth + 1, pos + 1, c))
    ensures c > pos && s[pos] == '}' && depth > 0 ==> (Balances(s, depth, pos, c) <==> Balances(s, depth - 1, pos + 1, c))
    ensures c > pos && s[pos] != '{' && s[pos] != '}' ==> (Balances(s, depth, pos, c) <==> Balances(s, depth, pos + 1, c))
  {
    assert s[pos..c + 1][1..] == s[pos + 1..c + 1];
    assert s[pos..c + 1][0] == s[pos];
  }

  ghost predicate FirstToBalance(s: string, end: nat, depth: nat, pos: nat, c: nat)
    requires end <= |s|
  {
    pos <= c < end && Balances(s, depth, pos, c) && forall i :: pos <= i < c ==> !Balances(s, depth, pos, i)
  }

  /** The brace found is the first with which the braces balance, those within counted; there is none exactly when they
      never do. */
  lemma {:induction false} FindCloseIff(s: string, end: nat, depth: nat, pos: nat)
    requires end <= |s| && depth >= 1
    ensures
      match FindClose(s, end, depth, pos)
      case Some(c) => FirstToBalance(s, end, depth, pos, c)
      case None => forall c :: pos <= c < end ==> !Balances(s, depth, pos, c)
    decreases end - pos
  {
    if pos < end {
      var next := if s[pos] == '{' then depth + 1 else if s[pos] == '}' then depth - 1 else depth;
      forall c | pos <= c < end
        ensures c == pos ==> (Balances(s, depth, pos, c) <==> s[pos] == '}' && depth == 1)
        ensures c > pos ==> (Balances(s, depth, pos, c) <==> Balances(s, next, pos + 1, c))
      {
        BalancesStep(s, depth, pos, c);
      }
      if next > 0 {
        FindCloseIff(s, end, next, pos + 1);
      }
    }
  }

  /** The brace that closes what is open at `pos`, if there is one. */
  ghost function CloseOf(s: string, end: nat, pos: nat): (r: Option<nat>)
    requires end <= |s|
    ensures r.Some? ==> FirstToBalance(s, end, 1, pos, r.value)
  {
    if exists c :: FirstToBalance(s, end, 1, pos, c) then var c :| FirstToBalance(s, end, 1, pos, c); Some(c) else None
  }

  /** So it is exactly the first behind which one more brace has closed than opened. */
  lemma FindCloseIsFirst(s: string, end: nat, pos: nat)
    requires end <= |s|
    ensures FindClose(s, end, 1, pos) == CloseOf(s, end, pos)
    ensures forall c: nat :: FindClose(s, end, 1, pos) == Some(c) <==> FirstToBalance(s, end, 1, pos, c)
    ensures FindClose(s, end, 1, pos) == None <==> forall c :: pos <= c < end ==> !Balances(s, 1, pos, c)
  {
    FindCloseIff(s, end, 1, pos);
    var r := FindClose(s, end, 1, pos);
    forall c: nat | r.Some? && FirstToBalance(s, end, 1, pos, c)
      ensures c == r.value
    {
      assert !(c < r.value) && !(r.value < c);
    }
  }

  function FindBrace(s: string, end: nat, p: nat): (r: nat)
    requires p <= end <= |s|
    ensures p <= r <= end
    ensures forall i :: p <= i < r ==> s[i] != '{' && s[i] != '}'
    ensures r < end ==> s[r] == '{' || s[r] == '}'
    decreases end - p
  {
    if p >= end || s[p] == '{' || s[p] == '}' then p else FindBrace(s, end, p + 1)
  }

  /** What the parser of a glue string does at `pos`: a stretch of string up to `next`, or an expression between
      its braces at `pos` and `close`. */
  datatype Piece = Text(next: nat) | Expression(close: nat)

  function NextPiece(s: string, end: nat, pos: nat): (p: Piece)
    requires pos < end <= |s|
    ensures p.Text? ==> pos < p.next <= end
    ensures p.Expression? ==> pos < p.close < end && s[pos] == '{' && (Escaped(s, end) ==> NoBareQuote(s[pos + 1..p.close]))
  {
    if s[pos] == '{' && pos + 1 < end && s[pos + 1] == '{' then Text(pos + 2)
    else if s[pos] == '{' then
      match FindClose(s, end, 1, pos + 1)
      case None => Text(end)
      case Some(close) =>
        ExpressionHasNoBareQuote(s, end, pos, close);
        Expression(close)
    else if s[pos] == '}' && pos + 1 < end && s[pos + 1] == '}' then Text(pos + 2)
    else if s[pos] == '}' then Text(pos + 1)
    else Text(FindBrace(s, end, pos))
  }

  function Shift(ranges: seq<StyledRange>, offset: int): seq<StyledRange> {
    seq(|ranges|, i requires 0 <= i < |ranges| =>
      ranges[i].(startByte := ranges[i].startByte + offset, endByte := ranges[i].endByte + offset))
  }

  function Reverse(ranges: seq<StyledRange>): seq<StyledRange> {
    seq(|ranges|, i requires 0 <= i < |ranges| => ranges[|ranges| - 1 - i])
  }

  /** `ranges_for_tokens`, the first token starting at byte `pos`. */
  function RangesFrom(lex: LexLine, pos: nat, tokens: seq<Token>): seq<StyledRange>
    requires WellBehaved(lex) && Tidy(tokens)
    decreases TotalLength(tokens), 1, |tokens|, 1
  {
    if tokens == [] then []
    else if StartsGlue(tokens) then GlueCallRanges(lex, pos, tokens)
    else
      var next := pos + |Lexeme(tokens[0])|;
      [StyledRange(pos, next, FirstStyle(tokens))] + RangesFrom(lex, next, tokens[1..])
  }

  function FirstStyle(tokens: seq<Token>): Style
    requires tokens != []
  {
    if StartsCall(tokens) then Function else StyleOfToken(tokens[0])
  }

  function GlueCallRanges(lex: LexLine, pos: nat, tokens: seq<Token>): seq<StyledRange>
    requires WellBehaved(lex) && Tidy(tokens) && StartsGlue(tokens)
    decreases TotalLength(tokens), 1, |tokens|, 0
  {
    TotalOfGlue(tokens);
    TidyBehindGlue(tokens);
    var next, s := pos + |tokens[0].name|, tokens[2].text;
    [StyledRange(pos, next, Function), StyledRange(next, next + 1, Bracket)]
    + GlueStringRanges(lex, next + 1, s) + RangesFrom(lex, next + 1 + |s|, tokens[3..])
  }

  function RangesForTokens(lex: LexLine, tokens: seq<Token>): seq<StyledRange>
    requires WellBehaved(lex) && Tidy(tokens)
    decreases TotalLength(tokens), 2
  {
    RangesFrom(lex, 0, tokens)
  }

  /** The ranges of a glue string that starts at byte `start`.  They come in reverse order when the closing quote
      is there. */
  function GlueStringRanges(lex: LexLine, start: nat, s: string): seq<StyledRange>
    requires WellBehaved(lex) && TidyString(s)
    decreases |s|, 0, |s| + 1, 1
  {
    if !Quoted(s) then [StyledRange(start, start + |s|, StringStyle)]
    else MergeRanges(QuotedRanges(lex, start, s))
  }

  function QuotedRanges(lex: LexLine, start: nat, s: string): seq<StyledRange>
    requires WellBehaved(lex) && TidyString(s) && Quoted(s)
    decreases |s|, 0, |s| + 1, 0
  {
    Quotes(start, |s|, ParseGlue(lex, start, s, InnerEnd(s), 1), HasClose(s))
  }

  function Quotes(start: nat, length: nat, inside: seq<StyledRange>, hasClose: bool): seq<StyledRange> {
    var inner := [StyledRange(start, start + 1, StringStyle)] + inside;
    if hasClose then [StyledRange(start + length - 1, start + length, StringStyle)] + Reverse(inner) else inner
  }

  /** The ranges between the quotes, in order; the source gathers them in reverse. */
  function ParseGlue(lex: LexLine, start: nat, s: string, end: nat, pos: nat): seq<StyledRange>
    requires WellBehaved(lex) && 1 <= pos && end <= |s| && Escaped(s, end)
    decreases |s|, 0, |s| - pos
  {
    if pos >= end then []
    else match NextPiece(s, end, pos)
      case Text(next) => [StyledRange(start + pos, start + next, StringStyle)] + ParseGlue(lex, start, s, end, next)
      case Expression(close) =>
        Braced(start + pos, start + close, ExpressionRanges(lex, start + pos + 1, s[pos + 1..close]), ParseGlue(lex, start, s, end, close + 1))
  }

  /** The ranges of an expression between its braces, and of what follows. */
  function Braced(lo: int, hi: int, inside: seq<StyledRange>, rest: seq<StyledRange>): seq<StyledRange> {
    [StyledRange(lo, lo + 1, Bracket)] + inside + [StyledRange(hi, hi + 1, Bracket)] + rest
  }

  function ExpressionRanges(lex: LexLine, offset: nat, expr: string): seq<StyledRange>
    requires WellBehaved(lex) && NoBareQuote(expr)
    decreases |expr|, 3
  {
    Shift(NormalizeRanges(|expr|, RangesForTokens(lex, lex(expr))), offset)
  }

  // -------------------------------------------------------------- the colour of each byte

  function Run(style: Style, n: nat): (r: seq<Style>)
    ensures |r| == n
  {
    seq(n, _ => style)
  }

  function Pad(styles: seq<Style>, n: nat): (r: seq<Style>)
    requires |styles| <= n
    ensures |r| == n
  {
    styles + Run(Plain, n - |styles|)
  }

  /** The colour of every byte of the tokens. */
  ghost function TokenStyles(lex: LexLine, tokens: seq<Token>): (styles: seq<Style>)
    requires WellBehaved(lex) && Tidy(tokens)
    ensures |styles| == TotalLength(tokens)
    decreases TotalLength(tokens), 1, |tokens|, 1
  {
    if tokens == [] then []
    else if |tokens| >= 3 && tokens[0] in {IDENT("glue"), IDENT("str_glue")} && tokens[1] == LEFT_PAREN && tokens[2].STRING? then
      GlueCallStyles(lex, tokens)
    else Run(ColourOfFirst(tokens), |Lexeme(tokens[0])|) + TokenStyles(lex, tokens[1..])
  }

  /** A name is that of a function if a parenthesis follows. */
  ghost function ColourOfFirst(tokens: seq<Token>): Style
    requires tokens != []
  {
    match tokens[0]
    case IDENT(_) => if |tokens| > 1 && tokens[1] == LEFT_PAREN then Function else Ident
    case LEFT_PAREN => Bracket
    case STRING(_) => StringStyle
    case OTHER(_, style) => style
  }

  ghost function GlueCallStyles(lex: LexLine, tokens: seq<Token>): (styles: seq<Style>)
    requires WellBehaved(lex) && Tidy(tokens) && StartsGlue(tokens)
    ensures |styles| == TotalLength(tokens)
    decreases TotalLength(tokens), 1, |tokens|, 0
  {
    TotalOfGlue(tokens);
    TidyBehindGlue(tokens);
    Run(Function, |tokens[0].name|) + [Bracket] + GlueStyles(lex, tokens[2].text) + TokenStyles(lex, tokens[3..])
  }

  /** A glue string is coloured as a string, quotes and all, but for the expressions in single braces. */
  ghost function GlueStyles(lex: LexLine, s: string): (styles: seq<Style>)
    requires WellBehaved(lex) && TidyString(s)
    ensures |styles| == |s|
    decreases |s|, 0, |s| + 1, 1
  {
    if |s| < 2 || s[0] != '"' then Run(StringStyle, |s|) else QuotedStyles(lex, s)
  }

  ghost function QuotedStyles(lex: LexLine, s: string): (styles: seq<Style>)
    requires WellBehaved(lex) && TidyString(s) && Quoted(s)
    ensures |styles| == |s|
    decreases |s|, 0, |s| + 1, 0
  {
    var end := if s[|s| - 1] == '"' then |s| - 1 else |s|;
    [StringStyle] + InnerStyles(lex, s, end, 1) + Run(StringStyle, |s| - end)
  }

  ghost function InnerStyles(lex: LexLine, s: string, end: nat, pos: nat): (styles: seq<Style>)
    requires WellBehaved(lex) && 1 <= pos <= end <= |s| && Escaped(s, end)
    ensures |styles| == end - pos
    decreases |s|, 0, |s| - pos, 1
  {
    if pos >= end then []
    else if s[pos] == '{' then BraceStyles(lex, s, end, pos)
    else [StringStyle] + InnerStyles(lex, s, end, pos + 1)
  }

  /** A doubled brace and one that is never closed belong to the string. */
  ghost function BraceStyles(lex: LexLine, s: string, end: nat, pos: nat): (styles: seq<Style>)
    requires WellBehaved(lex) && 1 <= pos < end <= |s| && Escaped(s, end) && s[pos] == '{'
    ensures |styles| == end - pos
    decreases |s|, 0, |s| - pos, 0
  {
    if pos + 1 < end && s[pos + 1] == '{' then
      Run(StringStyle, 2) + InnerStyles(lex, s, end, pos + 2)
    else
      match CloseOf(s, end, pos + 1)
      case None => Run(StringStyle, end - pos)
      case Some(close) =>
        ExpressionHasNoBareQuote(s, end, pos, close);
        [Bracket] + ExpressionStyles(lex, s[pos + 1..close]) + [Bracket] + InnerStyles(lex, s, end, close + 1)
  }

  ghost function ExpressionStyles(lex: LexLine, expr: string): (styles: seq<Style>)
    requires WellBehaved(lex) && NoBareQuote(expr)
    ensures |styles| == |expr|
    decreases |expr|, 3
  {
    Pad(TokenStyles(lex, lex(expr)), |expr|)
  }

  // ---------------------------------------------------------------- painting, in any order

  ghost predicate Apart(a: StyledRange, b: StyledRange) {
    a.endByte <= b.startByte || b.endByte <= a.startByte
  }

  ghost predicate Covered(ranges: seq<StyledRange>, byte: int) {
    exists i :: 0 <= i < |ranges| && Covers(ranges[i], byte)
  }

  /** The range is not empty and lies where `styles` has its style throughout. */
  ghost predicate RightlyPaints(r: StyledRange, lo: int, styles: seq<Style>) {
    && lo <= r.startByte < r.endByte <= lo + |styles|
    && forall k :: 0 <= k < |styles| && r.startByte <= lo + k < r.endByte ==> styles[k] == r.style
  }

  /** In whatever order they come, the ranges cover the bytes from `lo` on without gap or overlap and give each
      of them its style. */
  ghost predicate Paints(ranges: seq<StyledRange>, lo: int, styles: seq<Style>) {
    && (forall i {:trigger RightlyPaints(ranges[i], lo, styles)} :: 0 <= i < |ranges| ==> RightlyPaints(ranges[i], lo, styles))
    && AllApart(ranges)
    && (forall byte :: lo <= byte < lo + |styles| ==> Covered(ranges, byte))
  }

  lemma PaintsRun(lo: int, style: Style, n: nat)
    requires n > 0
    ensures Paints([StyledRange(lo, lo + n, style)], lo, Run(style, n))
  {
    var r := StyledRange(lo, lo + n, style);
    forall byte | lo <= byte < lo + n
      ensures Covered([r], byte)
    {
      assert Covers([r][0], byte);
    }
  }

  lemma PaintsNothing(lo: int)
    ensures Paints([], lo, [])
  {
  }

  lemma RightlyPaintsWider(r: StyledRange, lo: int, before: seq<Style>, styles: seq<Style>, after: seq<Style>)
    requires RightlyPaints(r, lo + |before|, styles)
    ensures RightlyPaints(r, lo, before + styles + after)
  {
  }

  lemma CoveredByPart(a: seq<StyledRange>, b: seq<StyledRange>, byte: int)
    ensures Covered(a + b, byte) <==> Covered(a, byte) || Covered(b, byte)
  {
    if Covered(a, byte) {
      var i :| 0 <= i < |a| && Covers(a[i], byte);
      assert Covers((a + b)[i], byte);
    }
    if Covered(b, byte) {
      var i :| 0 <= i < |b| && Covers(b[i], byte);
      assert Covers((a + b)[|a| + i], byte);
    }
    if Covered(a + b, byte) {
      var i :| 0 <= i < |a + b| && Covers((a + b)[i], byte);
      assert if i < |a| then Covers(a[i], byte) else Covers(b[i - |a|], byte);
    }
  }

  /** Painting one stretch after another. */
  lemma PaintsConcat(a: seq<StyledRange>, b: seq<StyledRange>, lo: int, s: seq<Style>, t: seq<Style>)
    requires Paints(a, lo, s) && Paints(b, lo + |s|, t)
    ensures Paints(a + b, lo, s + t)
  {
    forall i | 0 <= i < |a + b|
      ensures RightlyPaints((a + b)[i], lo, s + t)
    {
      if i < |a| {
        RightlyPaintsWider(a[i], lo, [], s, t);
        assert [] + s + t == s + t;
      } else {
        RightlyPaintsWider(b[i - |a|], lo, s, t, []);
        assert s + t + [] == s + t;
      }
    }
    forall i, j | 0 <= i < j < |a + b|
      ensures Apart((a + b)[i], (a + b)[j])
    {
      if j < |a| {
        assert Apart(a[i], a[j]);
      } else if i >= |a| {
        assert Apart(b[i - |a|], b[j - |a|]);
      } else {
        assert RightlyPaints(a[i], lo, s) && RightlyPaints(b[j - |a|], lo + |s|, t);
      }
    }
    forall byte | lo <= byte < lo + |s + t|
      ensures Covered(a + b, byte)
    {
      CoveredByPart(a, b, byte);
    }
  }

  lemma PaintsReverse(ranges: seq<StyledRange>, lo: int, styles: seq<Style>)
    requires Paints(ranges, lo, styles)
    ensures Paints(Reverse(ranges), lo, styles)
  {
    var n := |ranges|;
    forall i, j | 0 <= i < j < n
      ensures Apart(Reverse(ranges)[i], Reverse(ranges)[j])
    {
      assert Apart(ranges[n - 1 - j], ranges[n - 1 - i]);
    }
    forall byte | lo <= byte < lo + |styles|
      ensures Covered(Reverse(ranges), byte)
    {
      assert Covered(ranges, byte);
      var i :| 0 <= i < n && Covers(ranges[i], byte);
      assert Covers(Reverse(ranges)[n - 1 - i], byte);
    }
  }

  lemma PaintsShift(ranges: seq<StyledRange>, lo: int, styles: seq<Style>, offset: int)
    requires Paints(ranges, lo, styles)
    ensures Paints(Shift(ranges, offset), lo + offset, styles)
  {
    var shifted := Shift(ranges, offset);
    forall i | 0 <= i < |shifted|
      ensures RightlyPaints(shifted[i], lo + offset, styles)
    {
      assert RightlyPaints(ranges[i], lo, styles);
    }
    forall i, j | 0 <= i < j < |shifted|
      ensures Apart(shifted[i], shifted[j])
    {
      assert Apart(ranges[i], ranges[j]);
    }
    forall byte | lo + offset <= byte < lo + offset + |styles|
      ensures Covered(shifted, byte)
    {
      assert Covered(ranges, byte - offset);
      var i :| 0 <= i < |ranges| && Covers(ranges[i], byte - offset);
      assert Covers(shifted[i], byte);
    }
  }

  /** Joining two ranges that touch does not change what is painted. */
  lemma PaintsJoin(a: seq<StyledRange>, x: StyledRange, y: StyledRange, b: seq<StyledRange>, lo: int, styles: seq<Style>)
    requires Paints(a + [x] + ([y] + b), lo, styles)
    requires x.style == y.style && x.endByte == y.startByte
    ensures Paints(a + [x.(endByte := y.endByte)] + b, lo, styles)
  {
    var z := x.(endByte := y.endByte);
    var was, now := a + [x] + ([y] + b), a + [z] + b;
    assert was[|a|] == x && was[|a| + 1] == y;
    assert RightlyPaints(was[|a|], lo, styles) && RightlyPaints(was[|a| + 1], lo, styles);
    JoinKeepsOthers(a, x, y, b, lo, styles);
    forall byte | lo <= byte < lo + |styles|
      ensures Covered(now, byte)
    {
      assert Covered(was, byte);
      CoveredByPart(a + [x], [y] + b, byte);
      CoveredByPart(a, [x], byte);
      CoveredByPart([y], b, byte);
      CoveredByPart(a + [z], b, byte);
      CoveredByPart(a, [z], byte);
      assert Covered([z], byte) <== Covered([x], byte) || Covered([y], byte) by {
        assert Covers(z, byte) ==> Covers([z][0], byte);
      }
    }
  }

  lemma JoinKeepsOthers(a: seq<StyledRange>, x: StyledRange, y: StyledRange, b: seq<StyledRange>, lo: int, styles: seq<Style>)
    requires Paints(a + [x] + ([y] + b), lo, styles)
    requires x.style == y.style && x.endByte == y.startByte
    ensures
      var z := x.(endByte := y.endByte);
      var now := a + [z] + b;
      && (forall i :: 0 <= i < |now| ==> i == |a| || RightlyPaints(now[i], lo, styles))
      && (forall i, j :: 0 <= i < j < |now| ==> Apart(now[i], now[j]))
  {
    var z := x.(endByte := y.endByte);
    var was, now := a + [x] + ([y] + b), a + [z] + b;
    assert was[|a|] == x && was[|a| + 1] == y;
    forall i | 0 <= i < |now| && i != |a|
      ensures RightlyPaints(now[i], lo, styles) && Apart(now[i], z) && Apart(z, now[i])
    {
      var k := if i < |a| then i else i + 1;
      assert was[k] == now[i];
      assert RightlyPaints(was[k], lo, styles);
      assert if k < |a| then Apart(was[k], x) else Apart(x, was[k]);
      assert if k < |a| then Apart(was[k], y) else Apart(y, was[k]);
    }
    forall i, j | 0 <= i < j < |now|
      ensures Apart(now[i], now[j])
    {
      var k, m := if i < |a| then i else i + 1, if j < |a| then j else j + 1;
      if i != |a| && j != |a| {
        assert was[k] == now[i] && was[m] == now[j];
        assert Apart(was[k], was[m]);
      }
    }
  }

  lemma {:induction false} MergeOntoPaints(acc: seq<StyledRange>, ranges: seq<StyledRange>, lo: int, styles: seq<Style>)
    requires Paints(acc + ranges, lo, styles)
    ensures Paints(MergeOnto(acc, ranges), lo, styles)
    decreases |ranges|
  {
    if ranges == [] {
      assert acc + ranges == acc;
    } else {
      var last, r := |acc| - 1, ranges[0];
      var acc' := JoinLast(acc, r);
      if acc != [] && acc[last].style == r.style && acc[last].endByte == r.startByte {
        assert acc + ranges == acc[..last] + [acc[last]] + ([r] + ranges[1..]);
        PaintsJoin(acc[..last], acc[last], r, ranges[1..], lo, styles);
      } else {
        assert acc + ranges == acc' + ranges[1..];
      }
      MergeOntoPaints(acc', ranges[1..], lo, styles);
    }
  }

  lemma {:induction false} InsertIsSplice(r: StyledRange, sorted: seq<StyledRange>) returns (k: nat)
    ensures k <= |sorted| && Insert(r, sorted) == sorted[..k] + [r] + sorted[k..]
  {
    if sorted == [] || !SortsBefore(sorted[0], r) {
      k := 0;
    } else {
      var k' := InsertIsSplice(r, sorted[1..]);
      k := k' + 1;
    }
  }

  /** The first range that covers a byte is the only one. */
  lemma {:induction false} PaintedStyle(ranges: seq<StyledRange>, lo: int, styles: seq<Style>, byte: int)
    requires forall i :: 0 <= i < |ranges| ==> RightlyPaints(ranges[i], lo, styles)
    requires Covered(ranges, byte) && lo <= byte < lo + |styles|
    ensures StyleOf(ranges, byte) == styles[byte - lo]
  {
    assert RightlyPaints(ranges[0], lo, styles);
    if !Covers(ranges[0], byte) {
      var i :| 0 <= i < |ranges| && Covers(ranges[i], byte);
      assert Covers(ranges[1..][i - 1], byte);
      PaintedStyle(ranges[1..], lo, styles, byte);
    }
  }

  /** A painting says for each byte which of its ranges gives the style, however it is sorted. */
  lemma SortedPaintedStyle(ranges: seq<StyledRange>, lo: int, styles: seq<Style>, byte: int)
    requires Paints(ranges, lo, styles)
    ensures StyleOf(Sort(ranges), byte) == if lo <= byte < lo + |styles| then styles[byte - lo] else Plain
  {
    var sorted := Sort(ranges);
    SortSorts(ranges);
    forall i | 0 <= i < |sorted|
      ensures RightlyPaints(sorted[i], lo, styles)
    {
      assert sorted[i] in multiset(sorted);
      assert sorted[i] in ranges;
    }
    if lo <= byte < lo + |styles| {
      assert Covered(ranges, byte);
      var i :| 0 <= i < |ranges| && Covers(ranges[i], byte);
      assert ranges[i] in multiset(sorted);
      var j :| 0 <= j < |sorted| && sorted[j] == ranges[i];
      assert Covered(sorted, byte);
      PaintedStyle(sorted, lo, styles, byte);
    } else {
      NoneCovers(sorted, byte);
    }
  }

  /** Once sorted, a painting tiles its bytes without gap or overlap. */
  lemma SortedPaintingTiles(ranges: seq<StyledRange>, lo: int, styles: seq<Style>)
    requires Paints(ranges, lo, styles)
    ensures Tiles(Sort(ranges), lo, lo + |styles|)
  {
    SortSorts(ranges);
    SortPaints(ranges, lo, styles);
    SortedTiles(Sort(ranges), lo, styles);
  }

  lemma {:induction false} SortPaints(ranges: seq<StyledRange>, lo: int, styles: seq<Style>)
    requires Paints(ranges, lo, styles)
    ensures Paints(Sort(ranges), lo, styles)
  {
    SortKeepsApart(ranges);
    var sorted := Sort(ranges);
    SortSorts(ranges);
    forall i | 0 <= i < |sorted|
      ensures RightlyPaints(sorted[i], lo, styles)
    {
      assert sorted[i] in multiset(sorted);
      assert sorted[i] in ranges;
    }
    forall byte | lo <= byte < lo + |styles|
      ensures Covered(sorted, byte)
    {
      assert Covered(ranges, byte);
      var i :| 0 <= i < |ranges| && Covers(ranges[i], byte);
      assert ranges[i] in multiset(sorted);
      var j :| 0 <= j < |sorted| && sorted[j] == ranges[i];
      assert Covers(sorted[j], byte);
    }
  }

  ghost predicate AllApart(ranges: seq<StyledRange>) {
    forall i, j {:trigger Apart(ranges[i], ranges[j])} :: 0 <= i < j < |ranges| ==> Apart(ranges[i], ranges[j])
  }

  lemma InsertKeepsApart(r: StyledRange, rest: seq<StyledRange>, k: nat)
    requires AllApart(rest) && k <= |rest|
    requires forall i :: 0 <= i < |rest| ==> Apart(rest[i], r)
    ensures AllApart(rest[..k] + [r] + rest[k..])
  {
    var all := rest[..k] + [r] + rest[k..];
    forall i, j | 0 <= i < j < |all|
      ensures Apart(all[i], all[j])
    {
      var m, n := if i < k then i else i - 1, if j < k then j else j - 1;
      assert i != k ==> all[i] == rest[m];
      assert j != k ==> all[j] == rest[n];
    }
  }

  lemma {:induction false} SortKeepsApart(ranges: seq<StyledRange>)
    requires AllApart(ranges)
    ensures AllApart(Sort(ranges))
  {
    if ranges != [] {
      var last := |ranges| - 1;
      var r, rest := ranges[last], Sort(ranges[..last]);
      SortKeepsApart(ranges[..last]);
      SortSorts(ranges[..last]);
      forall i | 0 <= i < |rest|
        ensures Apart(rest[i], r)
      {
        assert rest[i] in multiset(rest);
        assert rest[i] in ranges[..last];
      }
      var k := InsertIsSplice(r, rest);
      InsertKeepsApart(r, rest, k);
    }
  }

  lemma {:induction false} SortedTiles(sorted: seq<StyledRange>, lo: int, styles: seq<Style>)
    requires Sorted(sorted) && Paints(sorted, lo, styles)
    ensures Tiles(sorted, lo, lo + |styles|)
    decreases |sorted|
  {
    if sorted == [] {
      assert |styles| > 0 ==> Covered(sorted, lo);
    } else {
      var r := sorted[0];
      assert RightlyPaints(r, lo, styles);
      assert Covered(sorted, lo);
      var i :| 0 <= i < |sorted| && Covers(sorted[i], lo);
      assert RightlyPaints(sorted[i], lo, styles);
      assert i > 0 ==> SortsBefore(sorted[0], sorted[i]);
      var n := r.endByte - lo;
      PaintsRest(sorted, lo, styles);
      SortedTiles(sorted[1..], r.endByte, styles[n..]);
    }
  }

  lemma PaintsRest(sorted: seq<StyledRange>, lo: int, styles: seq<Style>)
    requires Sorted(sorted) && Paints(sorted, lo, styles) && sorted != [] && sorted[0].startByte == lo
    ensures 0 < sorted[0].endByte - lo <= |styles|
    ensures Paints(sorted[1..], sorted[0].endByte, styles[sorted[0].endByte - lo..])
  {
    var r, rest := sorted[0], sorted[1..];
    var n := r.endByte - lo;
    assert RightlyPaints(r, lo, styles);
    forall i | 0 <= i < |rest|
      ensures RightlyPaints(rest[i], r.endByte, styles[n..])
    {
      assert RightlyPaints(sorted[i + 1], lo, styles);
      assert Apart(r, sorted[i + 1]) && SortsBefore(r, sorted[i + 1]);
    }
    forall byte | r.endByte <= byte < r.endByte + |styles[n..]|
      ensures Covered(rest, byte)
    {
      assert Covered(sorted, byte);
      var i :| 0 <= i < |sorted| && Covers(sorted[i], byte);
      assert Covers(rest[i - 1], byte);
    }
  }

  /** A tiling is a painting. */
  lemma {:induction false} TilingPaints(ranges: seq<StyledRange>, lo: int, styles: seq<Style>)
    requires Tiles(ranges, lo, lo + |styles|)
    requires forall byte :: lo <= byte < lo + |styles| ==> StyleOf(ranges, byte) == styles[byte - lo]
    ensures Paints(ranges, lo, styles)
  {
    TilesBounds(ranges, lo, lo + |styles|);
    forall i | 0 <= i < |ranges|
      ensures RightlyPaints(ranges[i], lo, styles)
    {
      forall k | 0 <= k < |styles| && ranges[i].startByte <= lo + k < ranges[i].endByte
        ensures styles[k] == ranges[i].style
      {
        OnlyOneCovers(ranges, i, lo + k);
      }
    }
    forall byte | lo <= byte < lo + |styles|
      ensures Covered(ranges, byte)
    {
      TilesCover(ranges, lo, lo + |styles|, byte);
    }
  }

  lemma {:induction false} OnlyOneCovers(ranges: seq<StyledRange>, i: nat, byte: int)
    requires StyledRanges.InOrder(ranges) && i < |ranges| && Covers(ranges[i], byte)
    ensures StyleOf(ranges, byte) == ranges[i].style
  {
    if i > 0 {
      OnlyOneCovers(ranges[1..], i - 1, byte);
    }
  }

  /** Once sorted, a painting is harmless exactly when none of its ranges begins behind the text. */
  lemma PaintingIsHarmlessIff(textLen: nat, ranges: seq<StyledRange>, styles: seq<Style>)
    requires Paints(ranges, 0, styles)
    ensures Harmless(textLen, 0, Sort(ranges)) <==> NoneBehind(ranges, textLen)
  {
    assert multiset(Sort(ranges)) == multiset(ranges) by {
      SortSorts(ranges);
    }
    SortedPaintingTiles(ranges, 0, styles);
    TilingIsHarmless(textLen, Sort(ranges), ranges, |styles|);
  }

  lemma TilingIsHarmless(textLen: nat, sorted: seq<StyledRange>, ranges: seq<StyledRange>, hi: int)
    requires Tiles(sorted, 0, hi) && multiset(sorted) == multiset(ranges)
    ensures Harmless(textLen, 0, sorted) <==> NoneBehind(ranges, textLen)
  {
    TilingIsHarmlessIff(textLen, sorted, 0, hi);
    assert forall r :: r in ranges <==> r in multiset(ranges);
    assert forall r :: r in sorted <==> r in multiset(sorted);
  }

  /** The style of a byte of a text whose first bytes have `styles`. */
  function StyleOrPlain(styles: seq<Style>, byte: nat): Style {
    if byte < |styles| then styles[byte] else Plain
  }

  /** Normalizing a painting, which may be longer or shorter than the text, keeps its styles. */
  lemma NormalizeKeepsPainting(textLen: nat, ranges: seq<StyledRange>, styles: seq<Style>)
    requires Paints(ranges, 0, styles)
    ensures
      var out := NormalizeRanges(textLen, ranges);
      && (forall byte :: 0 <= byte < textLen ==> StyleOf(out, byte) == StyleOrPlain(styles, byte))
      && Ascending(out)
      && (Tiles(out, 0, textLen) && Maximal(out) <==> NoneBehind(ranges, textLen))
  {
    NormalizeSpec(textLen, ranges);
    PaintingIsHarmlessIff(textLen, ranges, styles);
    forall byte | 0 <= byte < textLen
      ensures StyleOf(NormalizeRanges(textLen, ranges), byte) == StyleOrPlain(styles, byte)
    {
      SortedPaintedStyle(ranges, 0, styles, byte);
    }
  }

  lemma NoneIsBehind(textLen: nat, ranges: seq<StyledRange>, styles: seq<Style>)
    requires Paints(ranges, 0, styles) && |styles| <= textLen
    ensures NoneBehind(ranges, textLen)
  {
    forall r | r in ranges
      ensures r.startByte <= textLen
    {
      var i :| 0 <= i < |ranges| && ranges[i] == r;
      assert RightlyPaints(ranges[i], 0, styles);
    }
  }

  /** Normalizing a painting of the first bytes of a text paints the rest plain. */
  lemma NormalizePaints(textLen: nat, ranges: seq<StyledRange>, styles: seq<Style>)
    requires Paints(ranges, 0, styles) && |styles| <= textLen
    ensures Paints(NormalizeRanges(textLen, ranges), 0, Pad(styles, textLen))
  {
    NoneIsBehind(textLen, ranges, styles);
    NormalizeKeepsPainting(textLen, ranges, styles);
    TilingPaints(NormalizeRanges(textLen, ranges), 0, Pad(styles, textLen));
  }

  // ----------------------------------------------- the ranges paint the colours, at any depth

  lemma RunThenRest(lo: int, style: Style, n: nat, rest: seq<StyledRange>, styles: seq<Style>)
    requires n > 0 && Paints(rest, lo + n, styles)
    ensures Paints([StyledRange(lo, lo + n, style)] + rest, lo, Run(style, n) + styles)
  {
    PaintsRun(lo, style, n);
    PaintsConcat([StyledRange(lo, lo + n, style)], rest, lo, Run(style, n), styles);
  }

  /** A function name, a bracket, a string, and the rest. */
  lemma CallThenRest(lo: int, n: nat, g: seq<StyledRange>, gs: seq<Style>, rest: seq<StyledRange>, styles: seq<Style>)
    requires n > 0 && Paints(g, lo + n + 1, gs) && Paints(rest, lo + n + 1 + |gs|, styles)
    ensures Paints([StyledRange(lo, lo + n, Function), StyledRange(lo + n, lo + n + 1, Bracket)] + g + rest, lo,
                   Run(Function, n) + [Bracket] + gs + styles)
  {
    PaintsConcat(g, rest, lo + n + 1, gs, styles);
    RunThenRest(lo + n, Bracket, 1, g + rest, gs + styles);
    RunThenRest(lo, Function, n, [StyledRange(lo + n, lo + n + 1, Bracket)] + (g + rest), Run(Bracket, 1) + (gs + styles));
    assert [StyledRange(lo, lo + n, Function)] + ([StyledRange(lo + n, lo + n + 1, Bracket)] + (g + rest))
        == [StyledRange(lo, lo + n, Function), StyledRange(lo + n, lo + n + 1, Bracket)] + g + rest;
    assert Run(Function, n) + (Run(Bracket, 1) + (gs + styles)) == Run(Function, n) + [Bracket] + gs + styles;
  }

  /** An expression in its braces, and the rest. */
  lemma BracedThenRest(lo: int, hi: int, inside: seq<StyledRange>, colours: seq<Style>, rest: seq<StyledRange>, styles: seq<Style>)
    requires Paints(inside, lo + 1, colours) && hi == lo + 1 + |colours| && Paints(rest, hi + 1, styles)
    ensures Paints(Braced(lo, hi, inside, rest), lo, [Bracket] + colours + [Bracket] + styles)
  {
    var open, shut := [StyledRange(lo, lo + 1, Bracket)], [StyledRange(hi, hi + 1, Bracket)];
    RunThenRest(hi, Bracket, 1, rest, styles);
    PaintsConcat(inside, shut + rest, lo + 1, colours, Run(Bracket, 1) + styles);
    RunThenRest(lo, Bracket, 1, inside + (shut + rest), colours + (Run(Bracket, 1) + styles));
    assert open + (inside + (shut + rest)) == open + inside + shut + rest;
    assert Run(Bracket, 1) + (colours + (Run(Bracket, 1) + styles)) == [Bracket] + colours + [Bracket] + styles;
  }

  /** The inside of a string with its quotes: merged in order, or in reverse order when the closing quote is there. */
  lemma QuotesPaint(lo: nat, n: nat, inside: seq<StyledRange>, styles: seq<Style>, hasClose: bool)
    requires Paints(inside, lo + 1, styles) && n == 1 + |styles| + if hasClose then 1 else 0
    ensures Paints(MergeRanges(Quotes(lo, n, inside, hasClose)), lo, [StringStyle] + styles + Run(StringStyle, if hasClose then 1 else 0))
  {
    var inner := [StyledRange(lo, lo + 1, StringStyle)] + inside;
    RunThenRest(lo, StringStyle, 1, inside, styles);
    assert Run(StringStyle, 1) == [StringStyle];
    if hasClose {
      var hi := lo + 1 + |styles|;
      var close := [StyledRange(hi, hi + 1, StringStyle)];
      PaintsRun(hi, StringStyle, 1);
      PaintsConcat(inner, close, lo, [StringStyle] + styles, Run(StringStyle, 1));
      PaintsReverse(inner + close, lo, [StringStyle] + styles + Run(StringStyle, 1));
      assert Reverse(inner + close) == close + Reverse(inner);
      MergePaints(close + Reverse(inner), lo, [StringStyle] + styles + Run(StringStyle, 1));
    } else {
      MergePaints(inner, lo, [StringStyle] + styles);
      assert [StringStyle] + styles + Run(StringStyle, 0) == [StringStyle] + styles;
    }
  }

  lemma MergePaints(ranges: seq<StyledRange>, lo: int, styles: seq<Style>)
    requires Paints(ranges, lo, styles)
    ensures Paints(MergeRanges(ranges), lo, styles)
  {
    assert [] + ranges == ranges;
    MergeOntoPaints([], ranges, lo, styles);
  }

  lemma {:induction false} RangesPaint(lex: LexLine, pos: nat, tokens: seq<Token>)
    requires WellBehaved(lex) && Tidy(tokens) && NoEmptyLexeme(tokens)
    ensures Paints(RangesFrom(lex, pos, tokens), pos, TokenStyles(lex, tokens))
    decreases TotalLength(tokens), 1, |tokens|, 1
  {
    if tokens == [] {
      PaintsNothing(pos);
    } else if StartsGlue(tokens) {
      GlueCallPaints(lex, pos, tokens);
    } else {
      assert Lexeme(tokens[0]) != "";
      RangesPaint(lex, pos + |Lexeme(tokens[0])|, tokens[1..]);
      TokenThenRest(lex, pos, tokens);
    }
  }

  lemma TokenThenRest(lex: LexLine, pos: nat, tokens: seq<Token>)
    requires WellBehaved(lex) && Tidy(tokens) && tokens != [] && !StartsGlue(tokens) && Lexeme(tokens[0]) != ""
    requires Paints(RangesFrom(lex, pos + |Lexeme(tokens[0])|, tokens[1..]), pos + |Lexeme(tokens[0])|, TokenStyles(lex, tokens[1..]))
    ensures Paints(RangesFrom(lex, pos, tokens), pos, TokenStyles(lex, tokens))
  {
    var n := |Lexeme(tokens[0])|;
    RunThenRest(pos, FirstStyle(tokens), n, RangesFrom(lex, pos + n, tokens[1..]), TokenStyles(lex, tokens[1..]));
  }

  lemma {:induction false} GlueCallPaints(lex: LexLine, pos: nat, tokens: seq<Token>)
    requires WellBehaved(lex) && Tidy(tokens) && NoEmptyLexeme(tokens) && StartsGlue(tokens)
    ensures Paints(GlueCallRanges(lex, pos, tokens), pos, GlueCallStyles(lex, tokens))
    decreases TotalLength(tokens), 1, |tokens|, 0
  {
    TotalOfGlue(tokens);
    TidyBehindGlue(tokens);
    var n, s := |tokens[0].name|, tokens[2].text;
    assert Lexeme(tokens[0]) != "" && Lexeme(tokens[2]) != "";
    GluePaints(lex, pos + n + 1, s);
    RangesPaint(lex, pos + n + 1 + |s|, tokens[3..]);
    CallThenRest(pos, n, GlueStringRanges(lex, pos + n + 1, s), GlueStyles(lex, s),
                 RangesFrom(lex, pos + n + 1 + |s|, tokens[3..]), TokenStyles(lex, tokens[3..]));
  }

  lemma {:induction false} GluePaints(lex: LexLine, start: nat, s: string)
    requires WellBehaved(lex) && TidyString(s) && s != ""
    ensures Paints(GlueStringRanges(lex, start, s), start, GlueStyles(lex, s))
    decreases |s|, 0, |s| + 1
  {
    if Quoted(s) {
      ParsePaints(lex, start, s, InnerEnd(s), 1);
      QuotesPaint(start, |s|, ParseGlue(lex, start, s, InnerEnd(s), 1), InnerStyles(lex, s, InnerEnd(s), 1), HasClose(s));
    } else {
      PaintsRun(start, StringStyle, |s|);
    }
  }

  lemma UnfoldText(lex: LexLine, start: nat, s: string, end: nat, pos: nat)
    requires WellBehaved(lex) && 1 <= pos < end <= |s| && Escaped(s, end) && NextPiece(s, end, pos).Text?
    ensures
      var next := NextPiece(s, end, pos).next;
      ParseGlue(lex, start, s, end, pos) == [StyledRange(start + pos, start + next, StringStyle)] + ParseGlue(lex, start, s, end, next)
  {
  }

  lemma UnfoldExpression(lex: LexLine, start: nat, s: string, end: nat, pos: nat)
    requires WellBehaved(lex) && 1 <= pos < end <= |s| && Escaped(s, end) && NextPiece(s, end, pos).Expression?
    ensures
      var close := NextPiece(s, end, pos).close;
      ParseGlue(lex, start, s, end, pos) ==
        Braced(start + pos, start + close, ExpressionRanges(lex, start + pos + 1, s[pos + 1..close]), ParseGlue(lex, start, s, end, close + 1))
  {
  }

  lemma {:induction false} UnfoldBraces(lex: LexLine, s: string, end: nat, pos: nat, close: nat)
    requires WellBehaved(lex) && 1 <= pos < end <= |s| && Escaped(s, end) && s[pos] == '{'
    requires CloseOf(s, end, pos + 1) == Some(close) && !(pos + 1 < end && s[pos + 1] == '{')
    ensures NoBareQuote(s[pos + 1..close])
    ensures
      InnerStyles(lex, s, end, pos) ==
        [Bracket] + ExpressionStyles(lex, s[pos + 1..close]) + [Bracket] + InnerStyles(lex, s, end, close + 1)
  {
    ExpressionHasNoBareQuote(s, end, pos, close);
  }

  lemma {:induction false} UnfoldExpressionStyle(lex: LexLine, s: string, end: nat, pos: nat)
    requires WellBehaved(lex) && 1 <= pos < end <= |s| && Escaped(s, end) && NextPiece(s, end, pos).Expression?
    ensures
      var close := NextPiece(s, end, pos).close;
      InnerStyles(lex, s, end, pos) ==
        [Bracket] + ExpressionStyles(lex, s[pos + 1..close]) + [Bracket] + InnerStyles(lex, s, end, close + 1)
  {
    FindCloseIsFirst(s, end, pos + 1);
    UnfoldBraces(lex, s, end, pos, NextPiece(s, end, pos).close);
  }

  lemma UnfoldStyle(lex: LexLine, s: string, end: nat, pos: nat)
    requires WellBehaved(lex) && 1 <= pos < end <= |s| && Escaped(s, end) && s[pos] != '{'
    ensures InnerStyles(lex, s, end, pos) == [StringStyle] + InnerStyles(lex, s, end, pos + 1)
  {
  }

  /** Bytes other than opening braces are coloured as string. */
  lemma {:induction false} PlainInside(lex: LexLine, s: string, end: nat, pos: nat, next: nat)
    requires WellBehaved(lex) && 1 <= pos <= next <= end <= |s| && Escaped(s, end)
    requires forall i :: pos <= i < next ==> s[i] != '{'
    ensures InnerStyles(lex, s, end, pos) == Run(StringStyle, next - pos) + InnerStyles(lex, s, end, next)
    decreases next - pos
  {
    if pos < next {
      UnfoldStyle(lex, s, end, pos);
      PlainInside(lex, s, end, pos + 1, next);
      RunLonger(next - pos, InnerStyles(lex, s, end, next));
    } else {
      NoRun(InnerStyles(lex, s, end, next));
    }
  }

  lemma RunLonger(n: nat, styles: seq<Style>)
    requires n > 0
    ensures [StringStyle] + (Run(StringStyle, n - 1) + styles) == Run(StringStyle, n) + styles
  {
  }

  lemma NoRun(styles: seq<Style>)
    ensures Run(StringStyle, 0) + styles == styles
  {
  }

  /** What the parser takes as string at once is coloured as string. */
  lemma TextIsString(lex: LexLine, s: string, end: nat, pos: nat)
    requires WellBehaved(lex) && 1 <= pos < end <= |s| && Escaped(s, end) && NextPiece(s, end, pos).Text?
    ensures
      var next := NextPiece(s, end, pos).next;
      InnerStyles(lex, s, end, pos) == Run(StringStyle, next - pos) + InnerStyles(lex, s, end, next)
  {
    if s[pos] == '{' {
      OpenTextIsString(lex, s, end, pos);
    } else {
      PlainInside(lex, s, end, pos, NextPiece(s, end, pos).next);
    }
  }

  lemma {:induction false} OpenTextIsString(lex: LexLine, s: string, end: nat, pos: nat)
    requires WellBehaved(lex) && 1 <= pos < end <= |s| && Escaped(s, end) && s[pos] == '{' && NextPiece(s, end, pos).Text?
    ensures
      var next := NextPiece(s, end, pos).next;
      InnerStyles(lex, s, end, pos) == Run(StringStyle, next - pos) + InnerStyles(lex, s, end, next)
  {
    assert CloseOf(s, end, pos + 1) == FindClose(s, end, 1, pos + 1) by {
      FindCloseIsFirst(s, end, pos + 1);
    }
  }

  lemma {:induction false} ParsePaints(lex: LexLine, start: nat, s: string, end: nat, pos: nat)
    requires WellBehaved(lex) && 1 <= pos <= end <= |s| && Escaped(s, end)
    ensures Paints(ParseGlue(lex, start, s, end, pos), start + pos, InnerStyles(lex, s, end, pos))
    decreases |s|, 0, |s| - pos
  {
    if pos == end {
      PaintsNothing(start + pos);
    } else {
      match NextPiece(s, end, pos)
      case Text(next) =>
        ParsePaints(lex, start, s, end, next);
        TextThenRest(lex, start, s, end, pos);
      case Expression(close) =>
        ExpressionPaints(lex, s[pos + 1..close], start + pos + 1);
        ParsePaints(lex, start, s, end, close + 1);
        ExpressionThenRest(lex, start, s, end, pos, close);
    }
  }

  lemma {:induction false} TextThenRest(lex: LexLine, start: nat, s: string, end: nat, pos: nat)
    requires WellBehaved(lex) && 1 <= pos < end <= |s| && Escaped(s, end) && NextPiece(s, end, pos).Text?
    requires
      var next := NextPiece(s, end, pos).next;
      Paints(ParseGlue(lex, start, s, end, next), start + next, InnerStyles(lex, s, end, next))
    ensures Paints(ParseGlue(lex, start, s, end, pos), start + pos, InnerStyles(lex, s, end, pos))
  {
    var next := NextPiece(s, end, pos).next;
    UnfoldText(lex, start, s, end, pos);
    TextIsString(lex, s, end, pos);
    RunThenRest(start + pos, StringStyle, next - pos, ParseGlue(lex, start, s, end, next), InnerStyles(lex, s, end, next));
  }

  lemma {:induction false} ExpressionThenRest(lex: LexLine, start: nat, s: string, end: nat, pos: nat, close: nat)
    requires WellBehaved(lex) && 1 <= pos < end <= |s| && Escaped(s, end) && NextPiece(s, end, pos) == Expression(close)
    requires Paints(ExpressionRanges(lex, start + pos + 1, s[pos + 1..close]), start + pos + 1, ExpressionStyles(lex, s[pos + 1..close]))
    requires Paints(ParseGlue(lex, start, s, end, close + 1), start + close + 1, InnerStyles(lex, s, end, close + 1))
    ensures Paints(ParseGlue(lex, start, s, end, pos), start + pos, InnerStyles(lex, s, end, pos))
  {
    ParsedBraces(lex, start, s, end, pos, close, ExpressionStyles(lex, s[pos + 1..close]), InnerStyles(lex, s, end, close + 1));
    UnfoldExpressionStyle(lex, s, end, pos);
  }

  lemma ParsedBraces(lex: LexLine, start: nat, s: string, end: nat, pos: nat, close: nat, colours: seq<Style>, styles: seq<Style>)
    requires WellBehaved(lex) && 1 <= pos < end <= |s| && Escaped(s, end) && NextPiece(s, end, pos) == Expression(close)
    requires |colours| == close - (pos + 1)
    requires Paints(ExpressionRanges(lex, start + pos + 1, s[pos + 1..close]), start + pos + 1, colours)
    requires Paints(ParseGlue(lex, start, s, end, close + 1), start + close + 1, styles)
    ensures Paints(ParseGlue(lex, start, s, end, pos), start + pos, [Bracket] + colours + [Bracket] + styles)
  {
    BracedThenRest(start + pos, start + close, ExpressionRanges(lex, start + pos + 1, s[pos + 1..close]), colours,
                   ParseGlue(lex, start, s, end, close + 1), styles);
    UnfoldExpression(lex, start, s, end, pos);
  }

  lemma {:induction false} ExpressionPaints(lex: LexLine, expr: string, offset: nat)
    requires WellBehaved(lex) && NoBareQuote(expr)
    ensures Paints(ExpressionRanges(lex, offset, expr), offset, ExpressionStyles(lex, expr))
    decreases |expr|, 3
  {
    RangesPaint(lex, 0, lex(expr));
    NormalizePaints(|expr|, RangesForTokens(lex, lex(expr)), TokenStyles(lex, lex(expr)));
    PaintsShift(NormalizeRanges(|expr|, RangesForTokens(lex, lex(expr))), 0, ExpressionStyles(lex, expr), offset);
  }

  /** Highlighting a line of `textLen` bytes: every byte has the colour that `TokenStyles` gives it, and what the tokens
      leave over is plain - whatever the nesting of braces and of glue calls within them.  The ranges are one tiling
      of the line by maximal runs exactly when none was gathered that begins behind the end of the line. */
  lemma HighlightSpec(lex: LexLine, tokens: seq<Token>, textLen: nat)
    requires WellBehaved(lex) && Tidy(tokens) && NoEmptyLexeme(tokens)
    ensures
      var ranges := RangesForTokens(lex, tokens);
      var out := NormalizeRanges(textLen, ranges);
      && (forall byte :: 0 <= byte < textLen ==> StyleOf(out, byte) == StyleOrPlain(TokenStyles(lex, tokens), byte))
      && Ascending(out)
      && (Tiles(out, 0, textLen) && Maximal(out) <==> NoneBehind(ranges, textLen))
      && (TotalLength(tokens) <= textLen ==> NoneBehind(ranges, textLen))
  {
    var ranges := RangesForTokens(lex, tokens);
    RangesPaint(lex, 0, tokens);
    NormalizeKeepsPainting(textLen, ranges, TokenStyles(lex, tokens));
    if TotalLength(tokens) <= textLen {
      NoneIsBehind(textLen, ranges, TokenStyles(lex, tokens));
    }
  }

  /** An empty line outside of R has one token without any bytes; it is highlighted as nothing. */
  lemma EmptyLine(lex: LexLine, style: Style)
    requires WellBehaved(lex)
    ensures NormalizeRanges(0, RangesForTokens(lex, [OTHER("", style)])) == []
  {
    var r := StyledRange(0, 0, style);
    assert [OTHER("", style)][1..] == [];
    assert RangesFrom(lex, 0, [OTHER("", style)]) == [r] + RangesFrom(lex, 0, []);
    assert [r][..0] == [] && [r][1..] == [];
    assert Sort([r]) == [r];
    assert Clip(0, 0, [r]) == [];
  }

  function PastTheLineTokens(): seq<Token> {
    [STRING("'a'"), OTHER(" ", Plain), STRING("r\""), STRING("r\"")]
  }

  lemma {:induction false} NoNamesIsTidy(tokens: seq<Token>)
    requires forall i :: 0 <= i < |tokens| ==> !tokens[i].IDENT?
    ensures Tidy(tokens)
  {
    if tokens != [] {
      NoNamesIsTidy(tokens[1..]);
    }
  }

  /** The line `a' r"` below a line that ends in an opening single quote: the quote is in the first token, and the
      prefix at the end of the line comes twice, so that the last token begins behind the end of the line.  The list of
      ranges then runs past it, and the whole line is coloured by the others. */
  lemma RangesCanRunPastTheLine(lex: LexLine, line: string)
    requires WellBehaved(lex) && line == "a' r\""
    ensures
      var above := OpenLines.LexFirst(OpenLines.SingleQuote, "");
      && above == OpenLines.Lexed([], RawString.InSingleQuote("'"), 0)
      && OpenLines.LexOpen(above.mode, line) == OpenLines.Lexed([RawString.STRING("'a'")], RawString.Normal, 2)
      && line[2..5] == " r\""
      && OpenLines.LexFirst(OpenLines.RawPrefix("r\""), line[5..]).tokens == [RawString.STRING("r\""), RawString.STRING("r\"")]
    ensures Tidy(PastTheLineTokens())
    ensures
      var ranges := RangesForTokens(lex, PastTheLineTokens());
      && ranges == [StyledRange(0, 3, StringStyle), StyledRange(3, 4, Plain), StyledRange(4, 6, StringStyle), StyledRange(6, 8, StringStyle)]
      && NormalizeRanges(|line|, ranges) ==
           [StyledRange(0, 3, StringStyle), StyledRange(3, 4, Plain), StyledRange(4, 5, StringStyle), StyledRange(5, 6, Plain)]
      && !NoneBehind(ranges, |line|)
  {
    PastTheLineLexes(line);
    PastTheLine(lex);
    ClipPastTheLine();
  }

  lemma PastTheLineLexes(line: string)
    requires line == "a' r\""
    ensures
      var above := OpenLines.LexFirst(OpenLines.SingleQuote, "");
      && above == OpenLines.Lexed([], RawString.InSingleQuote("'"), 0)
      && OpenLines.LexOpen(above.mode, line) == OpenLines.Lexed([RawString.STRING("'a'")], RawString.Normal, 2)
      && line[2..5] == " r\""
      && OpenLines.LexFirst(OpenLines.RawPrefix("r\""), line[5..]).tokens == [RawString.STRING("r\""), RawString.STRING("r\"")]
  {
    OpenLines.QuoteIsPutOff();
    OpenLines.TokenHoldsQuoteAbove(line);
    OpenLines.PrefixComesTwice("r\"");
    assert line[5..] == "";
  }

  lemma PastTheLine(lex: LexLine)
    requires WellBehaved(lex)
    ensures Tidy(PastTheLineTokens())
    ensures RangesForTokens(lex, PastTheLineTokens())
         == [StyledRange(0, 3, StringStyle), StyledRange(3, 4, Plain), StyledRange(4, 6, StringStyle), StyledRange(6, 8, StringStyle)]
  {
    var a, b, c := STRING("'a'"), OTHER(" ", Plain), STRING("r\"");
    NoNamesIsTidy([a, b, c, c]);
    assert [a, b, c, c][1..] == [b, c, c] && [b, c, c][1..] == [c, c] && [c, c][1..] == [c] && [c][1..] == [];
    assert RangesFrom(lex, 6, [c]) == [StyledRange(6, 8, StringStyle)];
    assert RangesFrom(lex, 4, [c, c]) == [StyledRange(4, 6, StringStyle)] + [StyledRange(6, 8, StringStyle)];
    assert RangesFrom(lex, 3, [b, c, c]) == [StyledRange(3, 4, Plain)] + [StyledRange(4, 6, StringStyle), StyledRange(6, 8, StringStyle)];
  }

  lemma ClipPastTheLine()
    ensures NormalizeRanges(5, [StyledRange(0, 3, StringStyle), StyledRange(3, 4, Plain), StyledRange(4, 6, StringStyle), StyledRange(6, 8, StringStyle)])
         == [StyledRange(0, 3, StringStyle), StyledRange(3, 4, Plain), StyledRange(4, 5, StringStyle), StyledRange(5, 6, Plain)]
  {
    var a, b, c, d := StyledRange(0, 3, StringStyle), StyledRange(3, 4, Plain), StyledRange(4, 6, StringStyle), StyledRange(6, 8, StringStyle);
    var cut, gap := StyledRange(4, 5, StringStyle), StyledRange(5, 6, Plain);
    SortedFour(a, b, c, d);
    ClipFour(a, b, c, d);
    MergeFour(a, b, cut, gap);
  }

  lemma SortedFour(a: StyledRange, b: StyledRange, c: StyledRange, d: StyledRange)
    requires a.startByte < b.startByte < c.startByte < d.startByte
    ensures Sort([a, b, c, d]) == [a, b, c, d]
  {
    assert [a, b, c, d][..3] == [a, b, c];
    assert [a, b, c][..2] == [a, b] && [a, b][..1] == [a] && [a][..0] == [];
    InsertLast(d, [a, b, c]);
    InsertLast(c, [a, b]);
    InsertLast(b, [a]);
    assert Sort([a]) == [a];
    assert Sort([a, b]) == [a, b];
    assert Sort([a, b, c]) == [a, b, c];
  }

  lemma {:induction false} InsertLast(r: StyledRange, sorted: seq<StyledRange>)
    requires forall i :: 0 <= i < |sorted| ==> sorted[i].startByte < r.startByte
    ensures Insert(r, sorted) == sorted + [r]
  {
    if sorted != [] {
      InsertLast(r, sorted[1..]);
    }
  }

  lemma ClipFour(a: StyledRange, b: StyledRange, c: StyledRange, d: StyledRange)
    requires a == StyledRange(0, 3, StringStyle) && b == StyledRange(3, 4, Plain)
    requires c == StyledRange(4, 6, StringStyle) && d == StyledRange(6, 8, StringStyle)
    ensures Clip(5, 0, [a, b, c, d]) == [a, b, StyledRange(4, 5, StringStyle), StyledRange(5, 6, Plain)]
  {
    var cut, gap := StyledRange(4, 5, StringStyle), StyledRange(5, 6, Plain);
    assert [a, b, c, d][1..] == [b, c, d] && [b, c, d][1..] == [c, d] && [c, d][1..] == [d] && [d][1..] == [];
    assert Clip(5, 5, [d]) == [gap];
    assert Clip(5, 4, [c, d]) == [cut, gap];
    assert Clip(5, 3, [b, c, d]) == [b, cut, gap];
  }

  lemma MergeFour(a: StyledRange, b: StyledRange, c: StyledRange, d: StyledRange)
    requires a.style != b.style && b.style != c.style && c.style != d.style
    ensures MergeRanges([a, b, c, d]) == [a, b, c, d]
  {
    assert [a, b, c, d][1..] == [b, c, d] && [b, c, d][1..] == [c, d] && [c, d][1..] == [d] && [d][1..] == [];
    assert JoinLast([], a) == [a] && JoinLast([a], b) == [a, b] && JoinLast([a, b], c) == [a, b, c];
    assert JoinLast([a, b, c], d) == [a, b, c, d];
    assert MergeOnto([a, b, c], [d]) == MergeOnto([a, b, c, d], []);
    assert MergeOnto([a, b], [c, d]) == MergeOnto([a, b, c], [d]);
    assert MergeOnto([a], [b, c, d]) == MergeOnto([a, b], [c, d]);
  }

  /** The ranges of a glue string, once sorted, tile exactly its bytes. */
  lemma GlueTiles(lex: LexLine, start: nat, s: string)
    requires WellBehaved(lex) && TidyString(s) && s != ""
    ensures Tiles(Sort(GlueStringRanges(lex, start, s)), start, start + |s|)
  {
    GluePaints(lex, start, s);
    SortedPaintingTiles(GlueStringRanges(lex, start, s), start, GlueStyles(lex, s));
  }

  lemma TokensTile(lex: LexLine, tokens: seq<Token>)
    requires WellBehaved(lex) && Tidy(tokens) && NoEmptyLexeme(tokens)
    ensures Tiles(Sort(RangesForTokens(lex, tokens)), 0, TotalLength(tokens))
  {
    RangesPaint(lex, 0, tokens);
    SortedPaintingTiles(RangesForTokens(lex, tokens), 0, TokenStyles(lex, tokens));
  }
}
