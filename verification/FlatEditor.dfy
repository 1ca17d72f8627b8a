/**
  The editor without lines: one flat text with one cursor, on which every key is told in a few words.  The editor of
  `TextEditor` refines it, key by key and over whole sessions.
*/
module FlatEditor {
  import opened Numbers
  import opened Wrappers
  import opened UnicodeString
  import opened Strings
  import opened LexerCache
  import opened TextEditor

  datatype FlatText = FlatText(content: seq<Atom>, cursor: nat)

  function Abstract(d: Document): FlatText
    requires d.cursorLine <= |d.lines|
  {
    FlatText(Content(d), TextEditor.Offset(d))
  }

  // ------------------------------------------------------------------ the keys on flat text

  /** Where the line begins that `at` is in. */
  function LineStart(content: seq<Atom>, at: nat): (r: nat)
    requires at <= |content|
    ensures r <= at
  {
    if at == 0 || content[at - 1] == Newline then at else LineStart(content, at - 1)
  }

  function LineEnd(content: seq<Atom>, at: nat): (r: nat)
    requires at <= |content|
    ensures at <= r <= |content|
    decreases |content| - at
  {
    if at == |content| || content[at] == Newline then at else LineEnd(content, at + 1)
  }

  function Splice(f: FlatText, lo: nat, hi: nat, mid: seq<Atom>, cursor: nat): FlatText
    requires lo <= hi <= |f.content|
  {
    FlatText(f.content[..lo] + mid + f.content[hi..], cursor)
  }

  function Letters(s: seq<Glyph>): (fs: seq<Atom>)
    ensures |fs| == |s|
  {
    if s == [] then [] else [Letter(s[0])] + Letters(s[1..])
  }

  /** What a text adds: its clusters, or nothing if it is not valid. */
  function AtomsOf(segment: Segment, s: string): seq<Atom> {
    match segment(s)
    case None => []
    case Some(cs) => Letters(cs)
  }

  /** Lines become atoms with a line end between them. */
  function AtomsOfLines(segment: Segment, parts: seq<string>): seq<Atom>
    requires parts != []
  {
    if |parts| == 1 then AtomsOf(segment, parts[0])
    else AtomsOf(segment, parts[0]) + [Newline] + AtomsOfLines(segment, parts[1..])
  }

  /** A visible ASCII character is one cluster; anything else is left to the segmenter. */
  function InsertFlat(segment: Segment, f: FlatText, s: string): FlatText
    requires f.cursor <= |f.content|
  {
    if |s| == 1 && ' ' <= s[0] <= '~' then Splice(f, f.cursor, f.cursor, [Letter(Cluster(s, 1))], f.cursor + 1)
    else match segment(s)
      case None => f
      case Some(cs) => Splice(f, f.cursor, f.cursor, Letters(cs), f.cursor + 1)
  }

  function EraseFlat(f: FlatText): FlatText
    requires f.cursor <= |f.content|
  {
    if f.cursor == 0 then f else Splice(f, f.cursor - 1, f.cursor, [], f.cursor - 1)
  }

  /** The bytes behind the cursor, up to the end of their cluster; none at the end of a line. */
  function Next(f: FlatText): string
    requires f.cursor <= |f.content|
  {
    if f.cursor < |f.content| && f.content[f.cursor].Letter? then f.content[f.cursor].glyph.text else ""
  }

  function Previous(f: FlatText): string
    requires f.cursor <= |f.content|
  {
    if 0 < f.cursor && f.content[f.cursor - 1].Letter? then f.content[f.cursor - 1].glyph.text else ""
  }

  predicate AtEndOfLine(f: FlatText)
    requires f.cursor <= |f.content|
  {
    f.cursor == |f.content| || f.content[f.cursor] == Newline
  }

  function Partner(s: string): Option<string> {
    if s == "(" then Some(")") else if s == "[" then Some("]") else if s == "{" then Some("}")
    else if s == "'" then Some("'") else if s == "\"" then Some("\"") else None
  }

  /** A closing bracket or a quote moves over the same one.  An opening bracket or a quote brings its partner at the end of
      a line and before a closing bracket, a space or a tab. */
  function TypeFlat(segment: Segment, f: FlatText, s: string): FlatText
    requires f.cursor <= |f.content|
  {
    if s in {")", "]", "}", "'", "\""} && !AtEndOfLine(f) && Next(f) == s then f.(cursor := f.cursor + 1)
    else if Partner(s).Some? && (AtEndOfLine(f) || Next(f) in {")", "]", "}", " ", "\t"}) then
      Splice(f, f.cursor, f.cursor, [Letter(Cluster(s, 1)), Letter(Cluster(Partner(s).value, 1))], f.cursor + 1)
    else InsertFlat(segment, f, s)
  }

  /** Between a bracket or quote and its partner, or a cluster that begins with that, Backspace takes both. */
  predicate WithinPair(f: FlatText)
    requires f.cursor <= |f.content|
  {
    && Previous(f) != "" && Next(f) != ""
    && Partner(Previous(f)[..1]) == Some(Next(f)[..1])
  }

  function BackspaceFlat(f: FlatText): FlatText
    requires f.cursor <= |f.content|
  {
    if WithinPair(f) then Splice(f, f.cursor - 1, f.cursor + 1, [], f.cursor - 1) else EraseFlat(f)
  }

  /** The first bytes of a text, line by line; the cursor goes behind them. */
  function PasteFlat(segment: Segment, f: FlatText, text: string): FlatText
    requires f.cursor <= |f.content|
  {
    var atoms := AtomsPasted(segment, text);
    Splice(f, f.cursor, f.cursor, atoms, f.cursor + |atoms|)
  }

  function AtomsPasted(segment: Segment, text: string): seq<Atom> {
    AtomsOfLines(segment, Split(text[..Min(5120, |text|)], '\n'))
  }

  /** Places of the cursor's line, or behind it, are replaced. */
  function CompleteFlat(segment: Segment, f: FlatText, startPos: int, endPos: int, text: string): FlatText
    requires f.cursor <= |f.content|
  {
    var start := LineStart(f.content, f.cursor);
    CompleteAt(segment, f, start, LineEnd(f.content, f.cursor) - start, startPos, endPos, text)
  }

  function CompleteAt(segment: Segment, f: FlatText, start: nat, length: nat, startPos: int, endPos: int, text: string): FlatText
    requires start + length <= |f.content|
  {
    var from, to, atoms := Max(0, startPos), Max(Max(0, startPos), endPos), AtomsOf(segment, text);
    Splice(f, start + Min(from, length), start + Min(to, length), atoms, start + from + |atoms|)
  }

  function PressFlat(segment: Segment, f: FlatText, k: Key): FlatText
    requires f.cursor <= |f.content|
  {
    var n, at := |f.content|, f.cursor;
    match k
    case Type(s) => TypeFlat(segment, f, s)
    case Backspace => BackspaceFlat(f)
    case Insert(s) => InsertFlat(segment, f, s)
    case Erase => EraseFlat(f)
    case Enter => Splice(f, at, at, [Newline], at + 1)
    case Delete => if at == n then f else Splice(f, at, at + 1, [], at)
    case Clear =>
      var start := LineStart(f.content, at);
      if start == at then EraseFlat(f) else Splice(f, start, at, [], start)
    case Paste(text) => PasteFlat(segment, f, text)
    case Left => f.(cursor := if at == 0 then 0 else at - 1)
    case Right => f.(cursor := if at == n then n else at + 1)
    case Complete(i, j, text) => CompleteFlat(segment, f, i, j, text)
  }

  // ------------------------------------------------------------------- the cursor in both

  lemma {:induction false} LettersAreFlatLine(l: Line)
    ensures Letters(l) == FlatLine(l)
  {
    if l != [] {
      LettersAreFlatLine(l[1..]);
      assert l == [l[0]] + l[1..];
    }
  }

  /** Around the cursor the flat text looks as the line does. */
  lemma AroundCursor(d: Document)
    requires Valid(d)
    ensures
      var f := Abstract(d);
      && f.cursor <= |f.content|
      && (AtEndOfLine(f) <==> AtLineEnd(d))
      && Next(f) == (if CharAt(d).Some? then CharAt(d).value.text else "")
      && Previous(f) == (if CharBefore(d).Some? then CharBefore(d).value.text else "")
  {
    CutAtCursor(d);
    NextIsAhead(d);
    PreviousIsBefore(d);
  }

  lemma NextIsAhead(d: Document)
    requires Valid(d) && Abstract(d).cursor <= |Content(d)| && Content(d)[Abstract(d).cursor..] == FromCursor(d)
    ensures
      var f := Abstract(d);
      && (AtEndOfLine(f) <==> AtLineEnd(d))
      && Next(f) == (if CharAt(d).Some? then CharAt(d).value.text else "")
  {
    var f, rest := Abstract(d), CurrentLine(d)[d.cursorPos..];
    if f.cursor < |f.content| {
      assert f.content[f.cursor] == FromCursor(d)[0];
    }
    if AtLineEnd(d) {
      assert rest == [];
      assert FromCursor(d) == Behind(d.lines[d.cursorLine + 1..]);
    } else {
      assert FromCursor(d)[0] == Letter(rest[0]);
    }
  }

  lemma PreviousIsBefore(d: Document)
    requires Valid(d) && Abstract(d).cursor <= |Content(d)| && Content(d)[..Abstract(d).cursor] == UpToCursor(d)
    ensures Previous(Abstract(d)) == (if CharBefore(d).Some? then CharBefore(d).value.text else "")
  {
    var f, n := Abstract(d), d.cursorLine;
    if f.cursor > 0 {
      assert f.content[f.cursor - 1] == UpToCursor(d)[|UpToCursor(d)| - 1];
    }
    if d.cursorPos > 0 {
      assert UpToCursor(d)[|UpToCursor(d)| - 1] == Letter(CurrentLine(d)[..d.cursorPos][d.cursorPos - 1]);
    } else {
      assert UpToCursor(d) == Ahead(d.lines[..n]);
      if n > 0 {
        AheadStep(d.lines, n - 1);
      }
    }
  }

  lemma {:induction false} StartsAt(content: seq<Atom>, start: nat, at: nat)
    requires start <= at <= |content| && (start == 0 || content[start - 1] == Newline)
    requires forall i :: start <= i < at ==> content[i] != Newline
    ensures LineStart(content, at) == start
    decreases at
  {
    if start < at {
      StartsAt(content, start, at - 1);
    }
  }

  lemma {:induction false} EndsAt(content: seq<Atom>, at: nat, end: nat)
    requires at <= end <= |content| && (end == |content| || content[end] == Newline)
    requires forall i :: at <= i < end ==> content[i] != Newline
    ensures LineEnd(content, at) == end
    decreases end - at
  {
    if at < end {
      EndsAt(content, at + 1, end);
    }
  }

  /** The line of the cursor lies in the flat text where the line ends say. */
  lemma LineInText(d: Document)
    requires Valid(d)
    ensures
      var f := Abstract(d);
      && f.cursor <= |f.content|
      && LineStart(f.content, f.cursor) == f.cursor - d.cursorPos
      && LineEnd(f.content, f.cursor) == f.cursor - d.cursorPos + |CurrentLine(d)|
  {
    var f, l, n := Abstract(d), CurrentLine(d), d.cursorLine;
    CutAtCursor(d);
    var start := f.cursor - d.cursorPos;
    forall i | start <= i < start + |l|
      ensures i < |f.content| && f.content[i] != Newline
    {
      AroundCursorAt(d, i - start);
    }
    AroundCursorAt(d, 0);
    AroundCursorAt(d, |l|);
    StartsAt(f.content, start, f.cursor);
    EndsAt(f.content, f.cursor, start + |l|);
  }

  /** What stands at the i-th place of the line. */
  lemma AroundCursorAt(d: Document, i: nat)
    requires Valid(d) && i <= |CurrentLine(d)|
    ensures
      var content, at := Content(d), Abstract(d).cursor - d.cursorPos + i;
      && 0 <= at <= |content|
      && (i < |CurrentLine(d)| ==> at < |content| && content[at] != Newline)
      && (i == |CurrentLine(d)| && at < |content| ==> content[at] == Newline)
      && (i == 0 && at > 0 ==> content[at - 1] == Newline)
  {
    var d' := d.(cursorPos := i);
    CutAtCursor(d');
    AroundCursor(d');
    if i == 0 && d.cursorLine > 0 {
      AheadStep(d.lines, d.cursorLine - 1);
      assert UpToCursor(d') == Ahead(d.lines[..d.cursorLine]);
      assert Content(d)[Abstract(d').cursor - 1] == UpToCursor(d')[|UpToCursor(d')| - 1];
    }
  }

  // --------------------------------------------------------------------- key by key

  /** `d'` is what the key makes of the flat text. */
  ghost predicate Shows(d': Document, f: FlatText) {
    d'.cursorLine <= |d'.lines| && Abstract(d') == f
  }

  lemma FromSplice(d: Document, d': Document, lo: nat, hi: nat, mid: seq<Atom>, cursor: nat)
    requires Valid(d) && Spliced(d, d', lo, hi, mid, cursor)
    ensures Shows(d', Splice(Abstract(d), lo, hi, mid, cursor))
  {
  }

  lemma InsertIsFlat<T, M>(lexer: Lexer<T, M>, segment: Segment, e: Editor<T, M>, s: string)
    requires Valid(e.doc) && Abstract(e.doc).cursor <= |Content(e.doc)|
    ensures Shows(InsertChar(lexer, segment, e, s).doc, InsertFlat(segment, Abstract(e.doc), s))
  {
    var typed := Typed(segment, s);
    if typed.Some? {
      var at := Abstract(e.doc).cursor;
      InsertEffect(e.doc, typed.value);
      LettersAreFlatLine(typed.value);
      FromSplice(e.doc, InsertEdit(e.doc, typed.value).doc, at, at, FlatLine(typed.value), at + 1);
      assert |s| == 1 && ' ' <= s[0] <= '~' ==> Letters([Cluster(s, 1)]) == [Letter(Cluster(s, 1))];
    }
  }

  lemma EraseIsFlat<T, M>(lexer: Lexer<T, M>, e: Editor<T, M>)
    requires Valid(e.doc) && Abstract(e.doc).cursor <= |Content(e.doc)|
    ensures Shows(DeleteChar(lexer, e).doc, EraseFlat(Abstract(e.doc)))
  {
    var at := Abstract(e.doc).cursor;
    DeleteEffect(e.doc);
    if at > 0 {
      FromSplice(e.doc, DeleteEdit(e.doc).doc, at - 1, at, [], at - 1);
    }
  }

  lemma RightIsFlat(d: Document)
    requires Valid(d) && Abstract(d).cursor <= |Content(d)|
    ensures
      var f := Abstract(d);
      Abstract(MoveRight(d)) == f.(cursor := if f.cursor == |f.content| then f.cursor else f.cursor + 1)
  {
    MoveRightEffect(d);
  }

  lemma OneOf(text: string)
    ensures |text| == 1 && text[0] in {')', ']', '}', ' ', '\t'} <==> text in {")", "]", "}", " ", "\t"}
  {
    assert |text| == 1 ==> text == [text[0]];
  }

  lemma PartnerIsCloser(s: string)
    ensures Partner(s).Some? <==> Pairs(s)
    ensures Pairs(s) ==> |s| == 1 && Partner(s) == Some([Closer(s[0])])
  {
  }

  /** Both conditions of typing, told on the flat text. */
  lemma TypingConditions(d: Document, s: string)
    requires Valid(d)
    ensures
      var f := Abstract(d);
      && f.cursor <= |f.content|
      && (Skips(d, s) <==> s in {")", "]", "}", "'", "\""} && !AtEndOfLine(f) && Next(f) == s)
      && (ShouldAutoPair(d) <==> AtEndOfLine(f) || Next(f) in {")", "]", "}", " ", "\t"})
  {
    AroundCursor(d);
    if CharAt(d).Some? {
      OneOf(CharAt(d).value.text);
    }
  }

  lemma PairIsFlat<T, M>(lexer: Lexer<T, M>, segment: Segment, e: Editor<T, M>, s: string)
    requires Valid(e.doc) && Pairs(s) && !Skips(e.doc, s) && ShouldAutoPair(e.doc)
    ensures
      var f := Abstract(e.doc);
      && f.cursor <= |f.content|
      && Shows(UserInputChar(lexer, segment, e, s).doc,
               Splice(f, f.cursor, f.cursor, [Letter(Cluster(s, 1)), Letter(Cluster([Closer(s[0])], 1))], f.cursor + 1))
  {
    var d, c, z: Glyph := e.doc, Cluster(s, 1), Cluster([Closer(s[0])], 1);
    CutAtCursor(d);
    TypedPair(lexer, segment, e, s);
    LineSplice(d, d.cursorPos, d.cursorPos, [c, z], d.cursorPos + 1);
    assert FlatLine([c, z]) == [Letter(c), Letter(z)];
    var at := Abstract(d).cursor;
    FromSplice(d, WithTyped(d, [c, z], 1), at, at, [Letter(c), Letter(z)], at + 1);
  }

  lemma TypesPlainly<T, M>(lexer: Lexer<T, M>, segment: Segment, e: Editor<T, M>, s: string)
    requires Valid(e.doc) && !Skips(e.doc, s) && !(Pairs(s) && ShouldAutoPair(e.doc))
    ensures UserInputChar(lexer, segment, e, s) == InsertChar(lexer, segment, e, s)
  {
  }

  lemma TypesOver<T, M>(lexer: Lexer<T, M>, segment: Segment, e: Editor<T, M>, s: string)
    requires Valid(e.doc) && Skips(e.doc, s)
    ensures UserInputChar(lexer, segment, e, s).doc == MoveRight(e.doc)
  {
  }

  lemma TypeIsFlat<T, M>(lexer: Lexer<T, M>, segment: Segment, e: Editor<T, M>, s: string)
    requires Valid(e.doc) && Abstract(e.doc).cursor <= |Content(e.doc)|
    ensures Shows(UserInputChar(lexer, segment, e, s).doc, TypeFlat(segment, Abstract(e.doc), s))
  {
    TypingConditions(e.doc, s);
    PartnerIsCloser(s);
    if Skips(e.doc, s) {
      TypesOver(lexer, segment, e, s);
      RightIsFlat(e.doc);
    } else if Pairs(s) && ShouldAutoPair(e.doc) {
      PairIsFlat(lexer, segment, e, s);
    } else {
      TypesPlainly(lexer, segment, e, s);
      InsertIsFlat(lexer, segment, e, s);
    }
  }

  lemma PairConditions(d: Document)
    requires Valid(d)
    ensures
      var f := Abstract(d);
      && f.cursor <= |f.content|
      && (WithinPair(f) <==> !AtLineStart(d) && !AtLineEnd(d) && BetweenPair(d))
  {
    AroundCursor(d);
    if !AtLineStart(d) && !AtLineEnd(d) {
      var b, a := CharBefore(d).value.text, CharAt(d).value.text;
      assert b[..1] == [b[0]] && a[..1] == [a[0]];
    }
  }

  lemma TwoErased(f: FlatText)
    requires 0 < f.cursor < |f.content|
    ensures EraseFlat(EraseFlat(f.(cursor := f.cursor + 1))) == Splice(f, f.cursor - 1, f.cursor + 1, [], f.cursor - 1)
  {
    var once := f.content[..f.cursor] + [] + f.content[f.cursor + 1..];
    assert once[..f.cursor - 1] == f.content[..f.cursor - 1] && once[f.cursor..] == f.content[f.cursor + 1..];
  }

  lemma BackspaceIsFlat<T, M>(lexer: Lexer<T, M>, e: Editor<T, M>)
    requires Valid(e.doc) && Abstract(e.doc).cursor <= |Content(e.doc)|
    ensures Shows(UserInputDelete(lexer, e).doc, BackspaceFlat(Abstract(e.doc)))
  {
    PairConditions(e.doc);
    if WithinPair(Abstract(e.doc)) {
      var e1 := e.(doc := MoveRight(e.doc));
      RightIsFlat(e.doc);
      EraseIsFlat(lexer, e1);
      EraseIsFlat(lexer, DeleteChar(lexer, e1));
      TwoErased(Abstract(e.doc));
    } else {
      EraseIsFlat(lexer, e);
    }
  }

  lemma {:induction false} LinesAreAtoms(segment: Segment, parts: seq<string>, lines: seq<Line>)
    requires parts != [] && |lines| == |parts|
    requires forall i :: 0 <= i < |parts| ==> lines[i] == match segment(parts[i]) case Some(l) => l case None => []
    ensures Flat(lines) == AtomsOfLines(segment, parts)
  {
    LettersAreFlatLine(lines[0]);
    assert lines[0] == [] ==> FlatLine(lines[0]) == [];
    if |parts| > 1 {
      LinesAreAtoms(segment, parts[1..], lines[1..]);
    }
  }

  lemma {:induction false} PastedAreAtoms(segment: Segment, text: string)
    ensures Flat(PastedLines(segment, text)) == AtomsPasted(segment, text)
  {
    var kept := text[..Min(5120, |text|)];
    assert kept == if |text| > MAX_PASTE then text[..MAX_PASTE] else text;
    LinesAreAtoms(segment, Split(kept, '\n'), PastedLines(segment, text));
  }

  lemma {:induction false} PasteIsFlat(segment: Segment, d: Document, text: string)
    requires Valid(d) && Abstract(d).cursor <= |Content(d)|
    ensures Shows(PasteEdit(d, PastedLines(segment, text)).doc, PasteFlat(segment, Abstract(d), text))
  {
    var lines, at := PastedLines(segment, text), Abstract(d).cursor;
    PastedAreAtoms(segment, text);
    PasteEffect(d, lines);
    FromSplice(d, PasteEdit(d, lines).doc, at, at, Flat(lines), at + |Flat(lines)|);
  }

  lemma ClearIsFlat<T, M>(lexer: Lexer<T, M>, segment: Segment, e: Editor<T, M>)
    requires Valid(e.doc) && Abstract(e.doc).cursor <= |Content(e.doc)|
    ensures Shows(DeleteBeforeCursor(lexer, e).doc, PressFlat(segment, Abstract(e.doc), Clear))
  {
    var d, at := e.doc, Abstract(e.doc).cursor;
    LineInText(d);
    if AtLineStart(d) {
      EraseIsFlat(lexer, e);
    } else {
      ClearEffect(d);
      FromSplice(d, ClearEdit(d).doc, at - d.cursorPos, at, [], at - d.cursorPos);
    }
  }

  lemma AddedAreAtoms(segment: Segment, text: string)
    ensures
      var added := match segment(text) case Some(cs) => cs case None => [];
      FlatLine(added) == AtomsOf(segment, text) && |added| == |AtomsOf(segment, text)|
  {
    if segment(text).Some? {
      LettersAreFlatLine(segment(text).value);
    }
  }

  lemma {:induction false} CompleteIsFlat(segment: Segment, d: Document, startPos: int, endPos: int, text: string)
    requires Valid(d) && Abstract(d).cursor <= |Content(d)|
    ensures
      var added := match segment(text) case Some(cs) => cs case None => [];
      Shows(ReplaceRangeEdit(d, startPos, endPos, added).doc, CompleteFlat(segment, Abstract(d), startPos, endPos, text))
  {
    var added := match segment(text) case Some(cs) => cs case None => [];
    LineInText(d);
    AddedAreAtoms(segment, text);
    ReplacedInLine(segment, d, startPos, endPos, text, added);
    CompleteFlatIs(segment, Abstract(d), TextEditor.Offset(d) - d.cursorPos, |CurrentLine(d)|, startPos, endPos, text);
  }

  lemma {:induction false} CompleteFlatIs(segment: Segment, f: FlatText, start: nat, length: nat, startPos: int, endPos: int, text: string)
    requires f.cursor <= |f.content| && LineStart(f.content, f.cursor) == start && LineEnd(f.content, f.cursor) == start + length
    ensures CompleteFlat(segment, f, startPos, endPos, text) == CompleteAt(segment, f, start, length, startPos, endPos, text)
  {
  }

  lemma {:induction false} ReplacedInLine(segment: Segment, d: Document, startPos: int, endPos: int, text: string, added: Line)
    requires Valid(d) && TextEditor.Offset(d) - d.cursorPos + |CurrentLine(d)| <= |Content(d)|
    requires FlatLine(added) == AtomsOf(segment, text)
    ensures
      Shows(ReplaceRangeEdit(d, startPos, endPos, added).doc,
            CompleteAt(segment, Abstract(d), TextEditor.Offset(d) - d.cursorPos, |CurrentLine(d)|, startPos, endPos, text))
  {
    ReplaceRangeEffect(d, startPos, endPos, added);
    SplicedInLine(segment, d, ReplaceRangeEdit(d, startPos, endPos, added).doc, startPos, endPos, text, FlatLine(added), |CurrentLine(d)|);
  }

  lemma {:induction false} SplicedInLine(segment: Segment, d: Document, d': Document, startPos: int, endPos: int, text: string,
                                         atoms: seq<Atom>, n: nat)
    requires Valid(d) && d.cursorPos <= TextEditor.Offset(d) && TextEditor.Offset(d) - d.cursorPos + n <= |Content(d)|
    requires atoms == AtomsOf(segment, text)
    requires
      var base := TextEditor.Offset(d) - d.cursorPos;
      var from: nat := if startPos < 0 then 0 else startPos;
      var to: nat := if endPos < from then from else endPos;
      Spliced(d, d', base + Min(from, n), base + Min(to, n), atoms, base + from + |atoms|)
    ensures Shows(d', CompleteAt(segment, Abstract(d), TextEditor.Offset(d) - d.cursorPos, n, startPos, endPos, text))
  {
    FromReplacement(segment, Abstract(d), Abstract(d'), startPos, endPos, text, TextEditor.Offset(d) - d.cursorPos, n, atoms);
  }

  lemma {:induction false} FromReplacement(segment: Segment, f: FlatText, f': FlatText, startPos: int, endPos: int, text: string,
                                           base: nat, n: nat, atoms: seq<Atom>)
    requires base + n <= |f.content| && atoms == AtomsOf(segment, text)
    requires
      var from: nat := if startPos < 0 then 0 else startPos;
      var to: nat := if endPos < from then from else endPos;
      && f'.content == f.content[..base + Min(from, n)] + atoms + f.content[base + Min(to, n)..]
      && f'.cursor == base + from + |atoms|
    ensures f' == CompleteAt(segment, f, base, n, startPos, endPos, text)
  {
  }

  lemma DeleteIsFlat<T, M>(lexer: Lexer<T, M>, segment: Segment, e: Editor<T, M>)
    requires Valid(e.doc) && Abstract(e.doc).cursor <= |Content(e.doc)|
    ensures Shows(DeleteCharAfterCursor(lexer, e).doc, PressFlat(segment, Abstract(e.doc), Delete))
  {
    var d, at := e.doc, Abstract(e.doc).cursor;
    DeleteCharAfterCursorEffect(lexer, e);
    if at < |Content(d)| {
      FromSplice(d, DeleteCharAfterCursor(lexer, e).doc, at, at + 1, [], at);
    }
  }

  lemma EnterIsFlat(segment: Segment, d: Document)
    requires Valid(d) && Abstract(d).cursor <= |Content(d)|
    ensures Shows(NewlineEdit(d).doc, PressFlat(segment, Abstract(d), Enter))
  {
    var at := Abstract(d).cursor;
    NewlineEffect(d);
    FromSplice(d, NewlineEdit(d).doc, at, at, [Newline], at + 1);
  }

  /** Every key does to the lines what it does to the flat text. */
  lemma PressIsFlat<T, M>(lexer: Lexer<T, M>, segment: Segment, e: Editor<T, M>, k: Key)
    requires Valid(e.doc)
    ensures Abstract(e.doc).cursor <= |Content(e.doc)|
    ensures Shows(Press(lexer, segment, e, k).doc, PressFlat(segment, Abstract(e.doc), k))
  {
    CutAtCursor(e.doc);
    match k
    case Type(s) => TypeIsFlat(lexer, segment, e, s);
    case Backspace => BackspaceIsFlat(lexer, e);
    case Insert(s) => InsertIsFlat(lexer, segment, e, s);
    case Erase => EraseIsFlat(lexer, e);
    case Enter => EnterIsFlat(segment, e.doc);
    case Delete => DeleteIsFlat(lexer, segment, e);
    case Clear => ClearIsFlat(lexer, segment, e);
    case Paste(text) => PasteIsFlat(segment, e.doc, text);
    case Left => MoveLeftEffect(e.doc);
    case Right => RightIsFlat(e.doc);
    case Complete(i, j, text) => CompleteIsFlat(segment, e.doc, i, j, text);
  }

  // ------------------------------------------------------------------------- sessions

  function PressAll(segment: Segment, f: FlatText, keys: seq<Key>): FlatText
    decreases |keys|
  {
    if keys == [] || f.cursor > |f.content| then f else PressAll(segment, PressFlat(segment, f, keys[0]), keys[1..])
  }

  /** Whatever keys are pressed, the lines show what the same keys make of the flat text. */
  lemma {:induction false} SessionIsFlat<T, M>(lexer: Lexer<T, M>, segment: Segment, e: Editor<T, M>, keys: seq<Key>, t: Editor<T, M>)
    requires Session(lexer, segment, e, keys, t) && e.doc.cursorLine <= |e.doc.lines|
    ensures Shows(t.doc, PressAll(segment, Abstract(e.doc), keys))
    decreases |keys|
  {
    if keys != [] {
      PressIsFlat(lexer, segment, e, keys[0]);
      SessionIsFlat(lexer, segment, Press(lexer, segment, e, keys[0]), keys[1..], t);
    }
  }

  // ---------------------------------------------------------------------- what a paste spells

  function Spelled(atoms: seq<Atom>): string {
    if atoms == [] then ""
    else (match atoms[0] case Newline => "\n" case Letter(g) => g.text) + Spelled(atoms[1..])
  }

  lemma {:induction false} SpelledConcat(a: seq<Atom>, b: seq<Atom>)
    ensures Spelled(a + b) == Spelled(a) + Spelled(b)
  {
    if a == [] {
      assert a + b == b;
    } else {
      assert (a + b)[1..] == a[1..] + b;
      SpelledConcat(a[1..], b);
    }
  }

  lemma {:induction false} LettersSpell(l: Line)
    ensures Spelled(Letters(l)) == Text(l)
  {
    if l != [] {
      LettersSpell(l[1..]);
      assert Letters(l)[1..] == Letters(l[1..]);
    }
  }

  /** The segmenter neither adds bytes nor leaves any out. */
  ghost predicate KeepsBytes(segment: Segment) {
    forall s: string {:trigger segment(s)} :: segment(s).Some? ==> Text(segment(s).value) == s
  }

  function ValidPart(segment: Segment, s: string): string {
    if segment(s).Some? then s else ""
  }

  function ValidParts(segment: Segment, parts: seq<string>): (r: seq<string>)
    ensures |r| == |parts|
  {
    if parts == [] then [] else [ValidPart(segment, parts[0])] + ValidParts(segment, parts[1..])
  }

  lemma PartSpells(segment: Segment, s: string)
    requires KeepsBytes(segment)
    ensures Spelled(AtomsOf(segment, s)) == ValidPart(segment, s)
  {
    if segment(s).Some? {
      LettersSpell(segment(s).value);
    }
  }

  lemma {:induction false} LinesSpell(segment: Segment, parts: seq<string>)
    requires KeepsBytes(segment) && parts != []
    ensures Spelled(AtomsOfLines(segment, parts)) == Join(ValidParts(segment, parts), '\n')
  {
    PartSpells(segment, parts[0]);
    if |parts| > 1 {
      LinesSpell(segment, parts[1..]);
      SpelledConcat(AtomsOf(segment, parts[0]) + [Newline], AtomsOfLines(segment, parts[1..]));
      SpelledConcat(AtomsOf(segment, parts[0]), [Newline]);
      assert Spelled([Newline]) == "\n";
    }
  }

  ghost predicate NothingInvalid(segment: Segment, parts: seq<string>) {
    forall i :: 0 <= i < |parts| ==> segment(parts[i]).Some? || parts[i] == ""
  }

  /** Dropping a part that is not empty makes the text shorter. */
  lemma {:induction false} ValidPartsJoinIff(segment: Segment, parts: seq<string>)
    ensures |Join(ValidParts(segment, parts), '\n')| <= |Join(parts, '\n')|
    ensures Join(ValidParts(segment, parts), '\n') == Join(parts, '\n') <==> NothingInvalid(segment, parts)
    ensures NothingInvalid(segment, parts) <==> |Join(ValidParts(segment, parts), '\n')| == |Join(parts, '\n')|
  {
    if parts != [] {
      var rest := parts[1..];
      ValidPartsJoinIff(segment, rest);
      assert ValidParts(segment, parts)[1..] == ValidParts(segment, rest);
      assert NothingInvalid(segment, parts) <==> (segment(parts[0]).Some? || parts[0] == "") && NothingInvalid(segment, rest) by {
        assert parts == [parts[0]] + rest;
      }
    }
  }

  /** A paste splices in, at the cursor, atoms that spell the first 5120 bytes of the text, except for the lines of it that
      are not valid text; of these nothing is left.  So it spells those bytes exactly when no such line is lost, which
      may be the last one, if the cut goes through a character. */
  lemma {:induction false} PasteSpells<T, M>(lexer: Lexer<T, M>, segment: Segment, e: Editor<T, M>, text: string) returns (atoms: seq<Atom>)
    requires Valid(e.doc) && KeepsBytes(segment)
    ensures
      var d, d' := e.doc, InsertPaste(lexer, segment, e, text).doc;
      Spliced(d, d', TextEditor.Offset(d), TextEditor.Offset(d), atoms, TextEditor.Offset(d) + |atoms|)
    ensures
      var kept := text[..Min(5120, |text|)];
      var parts := Split(kept, '\n');
      && Spelled(atoms) == Join(ValidParts(segment, parts), '\n')
      && (Spelled(atoms) == kept <==> forall i :: 0 <= i < |parts| ==> segment(parts[i]).Some? || parts[i] == "")
  {
    var kept := text[..Min(5120, |text|)];
    var parts := Split(kept, '\n');
    atoms := AtomsPasted(segment, text);
    PastedAreAtoms(segment, text);
    PasteEffect(e.doc, PastedLines(segment, text));
    LinesSpell(segment, parts);
    JoinSplit(kept, '\n');
    ValidPartsJoinIff(segment, parts);
  }

  /** A line that is not valid text once it is cut leaves nothing. */
  lemma {:induction false} CutLineIsLost<T, M>(lexer: Lexer<T, M>, segment: Segment, e: Editor<T, M>, text: string, kept: string)
    requires Valid(e.doc) && kept == text[..Min(5120, |text|)] && '\n' !in kept && segment(kept).None?
    ensures Content(InsertPaste(lexer, segment, e, text).doc) == Content(e.doc)
  {
    SplitWithout(kept, '\n');
    CutAtCursor(e.doc);
    PasteIsFlat(segment, e.doc, text);
    assert AtomsPasted(segment, text) == [];
  }

  /** 5119 times the letter a, and a letter of two bytes. */
  const LONG_TEXT: string := seq(5119, _ => 'a') + [0xC3 as char, 0xA9 as char]

  /** Of that text, which is valid, a paste leaves nothing: its last character is cut in two. */
  lemma {:induction false} LongPasteIsLost<T, M>(lexer: Lexer<T, M>, segment: Segment, e: Editor<T, M>)
    requires Valid(e.doc) && segment(LONG_TEXT).Some? && segment(LONG_TEXT[..5120]).None?
    ensures Content(InsertPaste(lexer, segment, e, LONG_TEXT).doc) == Content(e.doc)
  {
    LongTextIsOneLine();
    CutLineIsLost(lexer, segment, e, LONG_TEXT, LONG_TEXT[..5120]);
  }

  lemma LongTextIsOneLine()
    ensures |LONG_TEXT| == 5121 && '\n' !in LONG_TEXT[..5120]
  {
    assert forall i :: 0 <= i < 5121 ==> LONG_TEXT[i] != '\n';
  }
}
