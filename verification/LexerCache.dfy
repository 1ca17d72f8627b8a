/**
  Incremental lexing (lib/lexer_cache.ml), for any lexer that carries a mode from line to line.
*/
module LexerCache {
  import opened UnicodeString

  datatype Lexer<Token, !Mode> = Lexer(
    initialMode: Mode,
    lexLine: (Mode, string) -> (seq<Token>, Mode),
    lexAsDefault: string -> Token)

  datatype Entry<Token, Mode> = Entry(text: string, tokens: seq<Token>, startMode: Mode, endMode: Mode)

  function LexEntry<T, M>(lexer: Lexer<T, M>, mode: M, line: Line): Entry<T, M> {
    var (tokens, endMode) := lexer.lexLine(mode, Text(line));
    Entry(Text(line), tokens, mode, endMode)
  }

  function CreateFrom<T, M>(lexer: Lexer<T, M>, mode: M, lines: seq<Line>): (cache: seq<Entry<T, M>>)
    ensures |cache| == |lines|
  {
    if lines == [] then []
    else
      var entry := LexEntry(lexer, mode, lines[0]);
      [entry] + CreateFrom(lexer, entry.endMode, lines[1..])
  }

  function Create<T, M>(lexer: Lexer<T, M>, lines: seq<Line>): seq<Entry<T, M>> {
    CreateFrom(lexer, lexer.initialMode, lines)
  }

  function MakeAllDefault<T, M>(lexer: Lexer<T, M>, lines: seq<Line>): seq<Entry<T, M>> {
    seq(|lines|, i requires 0 <= i < |lines| =>
      Entry(Text(lines[i]), [lexer.lexAsDefault(Text(lines[i]))], lexer.initialMode, lexer.initialMode))
  }

  /** The loop of `update`: entries before the change are kept; from the change on lines are lexed again until
      the lexer is back in its initial mode where it was there before; the rest is kept. */
  function UpdateFrom<T, M(==)>(lexer: Lexer<T, M>, startLine: int, endLine: int, i: nat, mode: M,
                                lines: seq<Line>, cache: seq<Entry<T, M>>): seq<Entry<T, M>>
    decreases |lines|
  {
    if lines == [] then []
    else if i < startLine then
      if cache == [] then []
      else [cache[0]] + UpdateFrom(lexer, startLine, endLine, i + 1, cache[0].endMode, lines[1..], cache[1..])
    else if i > endLine && mode == lexer.initialMode && cache != [] && cache[0].startMode == lexer.initialMode then cache
    else
      var entry := LexEntry(lexer, mode, lines[0]);
      [entry] + UpdateFrom(lexer, startLine, endLine, i + 1, entry.endMode, lines[1..], if cache == [] then [] else cache[1..])
  }

  function Update<T, M(==)>(lexer: Lexer<T, M>, startLine: int, endLine: int, lines: seq<Line>, cache: seq<Entry<T, M>>): seq<Entry<T, M>> {
    if |lines| != |cache| then Create(lexer, lines)
    else UpdateFrom(lexer, startLine, endLine, 0, lexer.initialMode, lines, cache)
  }

  /** Full lexing, told line by line: each line has its text, begins in the mode in which the line above ends - the first
      one in the mode given - and has the tokens and the end that the lexer makes of it in that mode. */
  ghost predicate IsLexingFrom<T, M>(lexer: Lexer<T, M>, mode: M, lines: seq<Line>, cache: seq<Entry<T, M>>) {
    && |cache| == |lines|
    && forall k {:trigger cache[k]} :: 0 <= k < |lines| ==>
         && cache[k].text == Text(lines[k])
         && cache[k].startMode == (if k == 0 then mode else cache[k - 1].endMode)
         && (cache[k].tokens, cache[k].endMode) == lexer.lexLine(cache[k].startMode, Text(lines[k]))
  }

  ghost predicate IsLexing<T, M>(lexer: Lexer<T, M>, lines: seq<Line>, cache: seq<Entry<T, M>>) {
    IsLexingFrom(lexer, lexer.initialMode, lines, cache)
  }

  lemma {:induction false} CreateFromLexes<T, M>(lexer: Lexer<T, M>, mode: M, lines: seq<Line>)
    ensures IsLexingFrom(lexer, mode, lines, CreateFrom(lexer, mode, lines))
  {
    if lines != [] {
      var cache := CreateFrom(lexer, mode, lines);
      var rest := cache[1..];
      CreateFromLexes(lexer, cache[0].endMode, lines[1..]);
      assert rest == CreateFrom(lexer, cache[0].endMode, lines[1..]);
      forall k {:trigger cache[k]} | 1 <= k < |lines|
        ensures cache[k] == rest[k - 1] && lines[k] == lines[1..][k - 1]
        ensures k > 1 ==> cache[k - 1] == rest[k - 2]
      {
      }
    }
  }

  /** There is one such cache. */
  lemma {:induction false} LexingIsUnique<T, M>(lexer: Lexer<T, M>, mode: M, lines: seq<Line>, cache: seq<Entry<T, M>>)
    requires IsLexingFrom(lexer, mode, lines, cache)
    ensures cache == CreateFrom(lexer, mode, lines)
  {
    if lines != [] {
      forall k | 0 <= k < |lines| - 1
        ensures cache[1..][k] == cache[k + 1]
      {
      }
      LexingIsUnique(lexer, cache[0].endMode, lines[1..], cache[1..]);
    }
  }

  /** `create` lexes in full, and what it makes is all that full lexing can be. */
  lemma CreateIsLexing<T, M>(lexer: Lexer<T, M>, lines: seq<Line>, cache: seq<Entry<T, M>>)
    ensures IsLexing(lexer, lines, cache) <==> cache == Create(lexer, lines)
  {
    CreateFromLexes(lexer, lexer.initialMode, lines);
    if IsLexing(lexer, lines, cache) {
      LexingIsUnique(lexer, lexer.initialMode, lines, cache);
    }
  }

  /** The lines have the same text except where they changed. */
  ghost predicate SameOutside(was: seq<Line>, lines: seq<Line>, startLine: int, endLine: int) {
    |was| == |lines| && forall i :: 0 <= i < |lines| && !(startLine <= i <= endLine) ==> Text(was[i]) == Text(lines[i])
  }

  lemma {:induction false} SameTextSameCache<T, M>(lexer: Lexer<T, M>, mode: M, was: seq<Line>, lines: seq<Line>)
    requires |was| == |lines| && forall i :: 0 <= i < |lines| ==> Text(was[i]) == Text(lines[i])
    ensures CreateFrom(lexer, mode, was) == CreateFrom(lexer, mode, lines)
  {
    if lines != [] {
      SameTextSameCache(lexer, LexEntry(lexer, mode, lines[0]).endMode, was[1..], lines[1..]);
    }
  }

  /** From line `i` on, `cacheMode` being the mode in which the cache starts and `mode` the one now reached;
      before the change they are the same. */
  lemma {:induction false} UpdateFromIsCreate<T, M>(
      lexer: Lexer<T, M>, startLine: int, endLine: int, i: nat, mode: M, cacheMode: M, was: seq<Line>, lines: seq<Line>)
    requires |was| == |lines|
    requires forall k :: 0 <= k < |lines| && !(startLine <= i + k <= endLine) ==> Text(was[k]) == Text(lines[k])
    requires i <= startLine ==> mode == cacheMode
    ensures UpdateFrom(lexer, startLine, endLine, i, mode, lines, CreateFrom(lexer, cacheMode, was)) == CreateFrom(lexer, mode, lines)
    decreases |lines|
  {
    if lines != [] {
      var cache := CreateFrom(lexer, cacheMode, was);
      var entry := LexEntry(lexer, mode, lines[0]);
      assert cache[1..] == CreateFrom(lexer, cache[0].endMode, was[1..]);
      if i > endLine && i >= startLine && mode == lexer.initialMode && cache[0].startMode == lexer.initialMode {
        SameTextSameCache(lexer, mode, was, lines);
      } else {
        UpdateFromIsCreate(lexer, startLine, endLine, i + 1, entry.endMode, cache[0].endMode, was[1..], lines[1..]);
      }
    }
  }

  /** Incremental equals full: updating the cache of the old text gives the cache of the new text, for every
      lexer, when the text changed only within the lines named. */
  lemma UpdateIsCreate<T, M>(lexer: Lexer<T, M>, startLine: int, endLine: int, was: seq<Line>, lines: seq<Line>)
    requires |was| == |lines| ==> SameOutside(was, lines, startLine, endLine)
    ensures Update(lexer, startLine, endLine, lines, Create(lexer, was)) == Create(lexer, lines)
    ensures IsLexing(lexer, lines, Update(lexer, startLine, endLine, lines, Create(lexer, was)))
  {
    CreateIsLexing(lexer, lines, Create(lexer, lines));
    if |was| == |lines| {
      UpdateFromIsCreate(lexer, startLine, endLine, 0, lexer.initialMode, lexer.initialMode, was, lines);
    }
  }
}
