/**
  Raw strings: the shell mode writes a command into one behind a guard that it searches for (lib/shell_mode.ml), and
  the lexer reads raw strings back (lib/r_lexer.ml).
*/
module RawString {
  import opened Strings
  import opened Wrappers

  // ------------------------------------------------------------------------- writing

  function Dashes(n: nat): string {
    seq(n, _ => '-')
  }

  /** What ends a raw string. */
  function Closing(n: nat): string {
    ")" + Dashes(n) + "\""
  }

  /** The search ends, because a guard longer than the text cannot occur in it. */
  function SafeGuard(text: string, n: nat): string
    decreases |text| - n
  {
    if |text| >= |Closing(n)| && OccursFrom(Closing(n), text, 0) then SafeGuard(text, n + 1) else Dashes(n)
  }

  /** A command as an R raw string. */
  function Quote(text: string): string {
    var guard := SafeGuard(text, 1);
    "r\"" + guard + "(" + text + ")" + guard + "\""
  }

  ghost predicate Occurs(closing: string, text: string) {
    exists i: nat :: OccursAt(closing, text, i)
  }

  /** The guard is the shortest, from `n` dashes on, behind which the text is safe. */
  lemma {:induction false} SafeGuardIsShortest(text: string, n: nat)
    ensures
      var m := |SafeGuard(text, n)|;
      && SafeGuard(text, n) == Dashes(m) && n <= m
      && !Occurs(Closing(m), text)
      && forall k :: n <= k < m ==> Occurs(Closing(k), text)
    decreases |text| - n
  {
    OccursFromIff(Closing(n), text, 0);
    if |text| >= |Closing(n)| && OccursFrom(Closing(n), text, 0) {
      SafeGuardIsShortest(text, n + 1);
    }
  }

  // ------------------------------------------------------------------------- reading

  datatype Token = EOF | STRING(text: string)

  datatype Mode = Normal | InSingleQuote(prev: string) | InDoubleQuote(prev: string) | InRawString(closing: string, prev: string)

  /** What was read, the mode for what follows, and how much of the input that took. */
  datatype Reading = Reading(token: Token, mode: Mode, consumed: nat)

  predicate EndsWith(s: string, closing: string) {
    |closing| <= |s| && s[|s| - |closing|..] == closing
  }

  /** Where the first stretch of more than `n` bytes of `s` ends that ends with `closing`. */
  function CloseEnd(closing: string, s: string, n: nat): (r: Option<nat>)
    requires n <= |s|
    ensures r.Some? ==> n < r.value <= |s| && EndsWith(s[..r.value], closing)
    ensures forall m :: n < m <= |s| && (r.Some? ==> m < r.value) ==> !EndsWith(s[..m], closing)
    decreases |s| - n
  {
    if n == |s| then None
    else if EndsWith(s[..n + 1], closing) then Some(n + 1)
    else CloseEnd(closing, s, n + 1)
  }

  function Read(closing: string, prev: string, s: string): Reading {
    match CloseEnd(closing, s, 0)
    case Some(m) => Reading(STRING(prev + s[..m]), Normal, m)
    case None =>
      if s == "" && prev == "" then Reading(EOF, InRawString(closing, prev), 0)
      else Reading(STRING(prev + s), InRawString(closing, ""), |s|)
  }

  predicate IsBracket(c: char) {
    c == '(' || c == '[' || c == '{'
  }

  function ClosingBracket(c: char): char
    requires IsBracket(c)
  {
    match c
    case '(' => ')'
    case '[' => ']'
    case '{' => '}'
  }

  /** How many bytes of `s`, from `n` on, come before a bracket. */
  function BracketAt(s: string, n: nat): (r: nat)
    requires n <= |s|
    ensures n <= r <= |s| && (r < |s| ==> IsBracket(s[r]))
    ensures forall i :: n <= i < r ==> !IsBracket(s[i])
    decreases |s| - n
  {
    if n == |s| || IsBracket(s[n]) then n else BracketAt(s, n + 1)
  }

  /** Reading on behind `prefix`, the letter and the quote. */
  function ReadStart(prefix: string, s: string): Reading {
    var d := BracketAt(s, 0);
    if d == |s| then Reading(STRING(prefix + s), InRawString("", prefix + s), |s|)
    else
      var r := Read([ClosingBracket(s[d])] + s[..d] + "\"", prefix + s[..d] + [s[d]], s[d + 1..]);
      r.(consumed := d + 1 + r.consumed)
  }

  /** The lexer's buffer. */
  class Lexbuf {
    const input: string
    var pos: nat

    predicate Valid()
      reads this
    {
      pos <= |input|
    }

    function Rest(): string
      reads this
      requires Valid()
    {
      input[pos..]
    }

    constructor (input: string)
      ensures Valid() && this.input == input && pos == 0
    {
      this.input, pos := input, 0;
    }

    method Next() returns (c: Option<char>)
      requires Valid()
      modifies this
      ensures Valid()
      ensures old(Rest()) == "" ==> c == None && pos == old(pos)
      ensures old(Rest()) != "" ==> c == Some(old(Rest())[0]) && pos == old(pos) + 1 && Rest() == old(Rest())[1..]
    {
      if pos == |input| {
        return None;
      }
      c := Some(input[pos]);
      pos := pos + 1;
    }
  }

  lemma ReadCloses(closing: string, prev: string, s: string, n: nat)
    requires n < |s| && CloseEnd(closing, s, 0) == CloseEnd(closing, s, n)
    ensures if EndsWith(s[..n + 1], closing) then Read(closing, prev, s) == Reading(STRING(prev + s[..n + 1]), Normal, n + 1)
            else CloseEnd(closing, s, 0) == CloseEnd(closing, s, n + 1)
  {
  }

  lemma ReadEnds(closing: string, prev: string, s: string)
    requires CloseEnd(closing, s, 0) == CloseEnd(closing, s, |s|)
    ensures Read(closing, prev, s) ==
      if s == "" && prev == "" then Reading(EOF, InRawString(closing, prev), 0)
      else Reading(STRING(prev + s), InRawString(closing, ""), |s|)
  {
  }

  /** One round of the loop of `read_raw_string`: of `s`, `current` has been read. */
  method ReadLoop(closing: string, prev: string, current: string, buf: Lexbuf, ghost s: string) returns (token: Token, mode: Mode)
    requires buf.Valid() && |current| <= |s| && current == s[..|current|] && buf.Rest() == s[|current|..]
    requires CloseEnd(closing, s, 0) == CloseEnd(closing, s, |current|)
    modifies buf
    ensures buf.Valid() && buf.pos + |current| >= old(buf.pos)
    ensures Reading(token, mode, buf.pos + |current| - old(buf.pos)) == Read(closing, prev, s)
    decreases |s| - |current|
  {
    ghost var n := |current|;
    var c := buf.Next();
    if c.Some? {
      var current' := current + [c.value];
      NextSlice(s, n);
      ReadCloses(closing, prev, s, n);
      if EndsWith(current', closing) {
        return STRING(prev + current'), Normal;
      }
      token, mode := ReadLoop(closing, prev, current', buf, s);
    } else {
      assert current == s;
      ReadEnds(closing, prev, s);
      if current == "" && prev == "" {
        return EOF, InRawString(closing, prev);
      }
      return STRING(prev + current), InRawString(closing, "");
    }
  }

  lemma NextSlice(s: string, n: nat)
    requires n < |s|
    ensures s[n..][0] == s[n] && s[..n] + [s[n]] == s[..n + 1] && s[n..][1..] == s[n + 1..]
  {
  }

  method ReadRawString(closing: string, prev: string, buf: Lexbuf) returns (token: Token, mode: Mode)
    requires buf.Valid()
    modifies buf
    ensures buf.Valid() && buf.pos >= old(buf.pos)
    ensures Reading(token, mode, buf.pos - old(buf.pos)) == Read(closing, prev, old(buf.Rest()))
  {
    token, mode := ReadLoop(closing, prev, "", buf, buf.Rest());
  }

  /** One round of the loop of `read_raw_string_start`: of `s`, `delim` has been read. */
  method GetDelim(prefix: string, delim: string, buf: Lexbuf, ghost s: string) returns (token: Token, mode: Mode)
    requires buf.Valid() && |delim| <= |s| && delim == s[..|delim|] && buf.Rest() == s[|delim|..]
    requires BracketAt(s, 0) == BracketAt(s, |delim|)
    modifies buf
    ensures buf.Valid() && buf.pos + |delim| >= old(buf.pos)
    ensures Reading(token, mode, buf.pos + |delim| - old(buf.pos)) == ReadStart(prefix, s)
    decreases |s| - |delim|
  {
    var c := buf.Next();
    if c.None? {
      assert delim == s;
      return STRING(prefix + delim), InRawString("", prefix + delim);
    }
    NextSlice(s, |delim|);
    if IsBracket(c.value) {
      token, mode := ReadRawString([ClosingBracket(c.value)] + delim + "\"", prefix + delim + [c.value], buf);
    } else {
      token, mode := GetDelim(prefix, delim + [c.value], buf, s);
    }
  }

  method ReadRawStringStart(prefix: string, buf: Lexbuf) returns (token: Token, mode: Mode)
    requires buf.Valid()
    modifies buf
    ensures buf.Valid() && buf.pos >= old(buf.pos)
    ensures Reading(token, mode, buf.pos - old(buf.pos)) == ReadStart(prefix, old(buf.Rest()))
  {
    token, mode := GetDelim(prefix, "", buf, buf.Rest());
  }

  // ----------------------------------------------------------------- what is written is read back

  lemma EndsWithIsOccurs(closing: string, s: string, m: nat)
    requires m <= |s|
    ensures EndsWith(s[..m], closing) <==> |closing| <= m && OccursAt(closing, s, m - |closing|)
  {
    if |closing| <= m {
      assert s[..m][m - |closing|..] == s[m - |closing|..m];
    }
  }

  /** The end mark neither begins within a text and ends within the end mark behind it, nor ends early otherwise. */
  lemma NoStraddling(text: string, rest: string, n: nat, i: nat)
    requires OccursAt(Closing(n), text + Closing(n) + rest, i)
    ensures i + |Closing(n)| <= |text| || i >= |text|
  {
    var closing := Closing(n);
    var s, last := text + closing + rest, i + |closing| - 1;
    assert s[last] == s[i..i + |closing|][|closing| - 1] == '"';
    assert forall k :: |text| <= k < |text| + |closing| ==> s[k] == closing[k - |text|];
    assert forall k :: 0 <= k < |closing| - 1 ==> closing[k] != '"';
  }

  lemma OccursIn(text: string, rest: string, n: nat, i: nat)
    requires i + |Closing(n)| <= |text|
    ensures OccursAt(Closing(n), text + Closing(n) + rest, i) <==> OccursAt(Closing(n), text, i)
  {
    assert (text + Closing(n) + rest)[i..i + |Closing(n)|] == text[i..i + |Closing(n)|];
  }

  /** Behind `n` dashes, the reader stops right behind the end mark that follows the text if and only if the text does
      not hold that end mark itself. */
  lemma StopsAtEndMarkIff(text: string, rest: string, n: nat)
    ensures
      CloseEnd(Closing(n), text + Closing(n) + rest, 0) == Some(|text| + |Closing(n)|) <==> !Occurs(Closing(n), text)
  {
    var closing := Closing(n);
    var s := text + closing + rest;
    var end := |text| + |closing|;
    var r := CloseEnd(closing, s, 0);
    assert s[|text|..end] == closing;
    EndsWithIsOccurs(closing, s, end);
    assert r.Some? && r.value <= end;
    EndsWithIsOccurs(closing, s, r.value);
    NoStraddling(text, rest, n, r.value - |closing|);
    if r.value < end {
      OccursIn(text, rest, n, r.value - |closing|);
      assert OccursAt(closing, text, r.value - |closing|);
    }
    if Occurs(closing, text) {
      var i: nat :| OccursAt(closing, text, i);
      OccursIn(text, rest, n, i);
      EndsWithIsOccurs(closing, s, i + |closing|);
      assert r.value <= i + |closing|;
    }
  }

  lemma {:induction false} NoBracketInDashes(n: nat, text: string, i: nat)
    requires i <= n
    ensures BracketAt(Dashes(n) + "(" + text, i) == n
    decreases n - i
  {
    if i < n {
      NoBracketInDashes(n, text, i + 1);
    }
  }

  lemma StartsRawString(prefix: string, n: nat, s: string)
    ensures
      var r := Read(Closing(n), prefix + Dashes(n) + "(", s);
      ReadStart(prefix, Dashes(n) + "(" + s) == r.(consumed := n + 1 + r.consumed)
  {
    var all := Dashes(n) + "(" + s;
    NoBracketInDashes(n, s, 0);
    assert all[..n] == Dashes(n) && all[n] == '(' && all[n + 1..] == s;
    assert [')'] + Dashes(n) + "\"" == Closing(n);
  }

  /** A command between `n` dashes. */
  function Literal(text: string, n: nat): string {
    "r\"" + Dashes(n) + "(" + text + Closing(n)
  }

  lemma LiteralBehindPrefix(text: string, rest: string, n: nat)
    ensures (Literal(text, n) + rest)[2..] == Dashes(n) + "(" + (text + Closing(n) + rest)
    ensures "r\"" + Dashes(n) + "(" + (text + Closing(n) + rest)[..|text| + |Closing(n)|] == Literal(text, n)
  {
    assert (text + Closing(n) + rest)[..|text| + |Closing(n)|] == text + Closing(n);
  }

  /** Behind any number of dashes, the lexer reads the literal back as one token and goes on with what follows if and
      only if the end mark does not occur in the text. */
  lemma LiteralReadsBackIff(text: string, rest: string, n: nat)
    ensures ReadStart("r\"", (Literal(text, n) + rest)[2..]) == Reading(STRING(Literal(text, n)), Normal, |Literal(text, n)| - 2)
            <==> !Occurs(Closing(n), text)
  {
    var s := text + Closing(n) + rest;
    StopsAtEndMarkIff(text, rest, n);
    StartsRawString("r\"", n, s);
    LiteralBehindPrefix(text, rest, n);
    ReadsWholeIff(Closing(n), "r\"" + Dashes(n) + "(", s, |text| + |Closing(n)|);
  }

  lemma ReadsWholeIff(closing: string, prev: string, s: string, m: nat)
    requires m <= |s|
    ensures Read(closing, prev, s) == Reading(STRING(prev + s[..m]), Normal, m) <==> CloseEnd(closing, s, 0) == Some(m)
  {
  }

  /** Whatever the command and whatever follows: the lexer reads the quoted command back as one token, between whose
      brackets stands the command, and goes on with what follows; and no guard of fewer dashes would do. */
  lemma QuoteReadsBack(text: string, rest: string)
    ensures
      var n := |SafeGuard(text, 1)|;
      && n >= 1 && Quote(text) == Literal(text, n)
      && ReadStart("r\"", (Quote(text) + rest)[2..]) == Reading(STRING(Quote(text)), Normal, |Quote(text)| - 2)
      && forall k :: 1 <= k < n ==>
           ReadStart("r\"", (Literal(text, k) + rest)[2..]) != Reading(STRING(Literal(text, k)), Normal, |Literal(text, k)| - 2)
  {
    var n := |SafeGuard(text, 1)|;
    SafeGuardIsShortest(text, 1);
    QuoteIsLiteral(text);
    LiteralReadsBackIff(text, rest, n);
    forall k | 1 <= k < n
      ensures ReadStart("r\"", (Literal(text, k) + rest)[2..]) != Reading(STRING(Literal(text, k)), Normal, |Literal(text, k)| - 2)
    {
      LiteralReadsBackIff(text, rest, k);
    }
  }

  lemma QuoteIsLiteral(text: string)
    ensures Quote(text) == Literal(text, |SafeGuard(text, 1)|)
  {
    SafeGuardIsShortest(text, 1);
    var guard := SafeGuard(text, 1);
    assert "r\"" + guard + "(" + text + ")" + guard + "\"" == "r\"" + guard + "(" + text + (")" + guard + "\"");
  }

  // ---------------------------------------------------------------- any delimiter and any bracket

  predicate Matches(open: char, close: char) {
    (open == '(' && close == ')') || (open == '[' && close == ']') || (open == '{' && close == '}')
  }

  /** The end mark is first read where it was written exactly when it does not occur, in text and end mark, any earlier. */
  lemma FirstEndIff(closing: string, text: string, rest: string)
    requires closing != ""
    ensures CloseEnd(closing, text + closing + rest, 0) == Some(|text| + |closing|) <==>
              !Occurs(closing, (text + closing)[..|text| + |closing| - 1])
  {
    var s, end := text + closing + rest, |text| + |closing|;
    var early := (text + closing)[..end - 1];
    assert s[..end - 1] == early;
    assert s[|text|..end] == closing;
    EndsWithIsOccurs(closing, s, end);
    forall m | 0 < m < end
      ensures EndsWith(s[..m], closing) <==> |closing| <= m && OccursAt(closing, early, m - |closing|)
    {
      EndsWithIsOccurs(closing, s, m);
      EarlyIsEarly(closing, s, early, m);
    }
    if Occurs(closing, early) {
      var i: nat :| OccursAt(closing, early, i);
      assert EndsWith(s[..i + |closing|], closing);
    }
  }

  lemma EarlyIsEarly(closing: string, s: string, early: string, m: nat)
    requires m <= |early| <= |s| && s[..|early|] == early
    ensures |closing| <= m ==> (OccursAt(closing, s, m - |closing|) <==> OccursAt(closing, early, m - |closing|))
  {
    if |closing| <= m {
      assert s[..|early|][m - |closing|..m] == s[m - |closing|..m];
    }
  }

  lemma {:induction false} BracketBehind(delim: string, open: char, rest: string, n: nat)
    requires n <= |delim| && IsBracket(open) && forall i :: 0 <= i < |delim| ==> !IsBracket(delim[i])
    ensures BracketAt(delim + [open] + rest, n) == |delim|
    decreases |delim| - n
  {
    if n < |delim| {
      BracketBehind(delim, open, rest, n + 1);
    }
  }

  lemma ReadsBehindBracket(prefix: string, delim: string, open: char, close: char, rest: string)
    requires Matches(open, close) && forall i :: 0 <= i < |delim| ==> !IsBracket(delim[i])
    ensures
      var r := Read([close] + delim + "\"", prefix + delim + [open], rest);
      ReadStart(prefix, delim + [open] + rest) == r.(consumed := |delim| + 1 + r.consumed)
  {
    var s := delim + [open] + rest;
    BracketBehind(delim, open, rest, 0);
    assert s[..|delim|] == delim && s[|delim|] == open && s[|delim| + 1..] == rest;
  }

  /** Whatever the delimiter and the bracket, and whatever follows: a raw string is read back as one token, up to its end mark
      of the matching bracket, the delimiter and the quote, exactly when that does not occur any earlier. */
  lemma {:induction false} AnyLiteralReadsBackIff(prefix: string, delim: string, open: char, close: char, text: string, rest: string)
    requires Matches(open, close) && forall i :: 0 <= i < |delim| ==> !IsBracket(delim[i])
    ensures
      var closing := [close] + delim + "\"";
      var literal := delim + [open] + (text + closing);
      ReadStart(prefix, literal + rest) == Reading(STRING(prefix + literal), Normal, |literal|) <==>
        !Occurs(closing, (text + closing)[..|text| + |closing| - 1])
  {
    var closing := [close] + delim + "\"";
    var literal, s := delim + [open] + (text + closing), text + closing + rest;
    assert literal + rest == delim + [open] + s;
    ReadsBehindBracket(prefix, delim, open, close, s);
    FirstEndIff(closing, text, rest);
    ReadsWholeIff(closing, prefix + delim + [open], s, |text| + |closing|);
    WholeLiteral(prefix, delim + [open], text + closing, rest);
    assert prefix + delim + [open] == prefix + (delim + [open]);
  }

  lemma WholeLiteral(prefix: string, head: string, body: string, rest: string)
    ensures prefix + head + (body + rest)[..|body|] == prefix + (head + body)
  {
    assert (body + rest)[..|body|] == body;
  }
}
