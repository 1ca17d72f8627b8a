/**
  The line editor (lib/text_editor.ml).  The text is a list of lines and a cursor (line, number of
  clusters); to the user it is one flat text with one cursor, and every primitive is proved to act on
  that flat text.  `Document` holds what the primitives change by hand, `Editor` adds what follows it:
  the cache of tokens and the memory of vertical movement.
*/
module TextEditor {
  import opened Numbers
  import opened Wrappers
  import opened UnicodeString
  import opened Strings
  import opened LexerCache
  import opened FrontendTypes

  /** How typed bytes fall into clusters (`None`: not valid text). */
  type Segment = string -> Option<Line>

  datatype Document = Document(lines: seq<Line>, cursorLine: nat, cursorPos: nat)

  /** A new document, and the first and last line to be lexed again. */
  datatype Edit = Edit(doc: Document, startLine: int, endLine: int)

  ghost predicate Valid(d: Document) {
    d.cursorLine < |d.lines| && d.cursorPos <= |d.lines[d.cursorLine]|
  }

  function CurrentLine(d: Document): Line
    requires d.cursorLine < |d.lines|
  {
    d.lines[d.cursorLine]
  }

  predicate AtLineStart(d: Document) {
    d.cursorPos == 0
  }

  predicate AtLineEnd(d: Document)
    requires d.cursorLine < |d.lines|
  {
    d.cursorPos >= |CurrentLine(d)|
  }

  function CharAt(d: Document): Option<Glyph>
    requires d.cursorLine < |d.lines|
  {
    if AtLineEnd(d) then None else Some(CurrentLine(d)[d.cursorPos])
  }

  function CharBefore(d: Document): Option<Glyph>
    requires Valid(d)
  {
    if d.cursorPos == 0 then None else Some(CurrentLine(d)[d.cursorPos - 1])
  }

  // ------------------------------------------------------------------ primitives

  /** The line at the cursor becomes the lines `mid`; the cursor goes to line `line` at `pos`. */
  function ReplaceLine(d: Document, mid: seq<Line>, line: nat, pos: nat): Document
    requires d.cursorLine < |d.lines|
  {
    Document(d.lines[..d.cursorLine] + mid + d.lines[d.cursorLine + 1..], line, pos)
  }

  predicate IsSingleAsciiWidth1(s: string) {
    |s| == 1 && 0x20 <= s[0] as int < 0x7f
  }

  /** What typing `s` adds: `Unicode_string.insert_string`, where new clusters do not merge with the ones
      around them. */
  function Typed(segment: Segment, s: string): Option<Line> {
    if IsSingleAsciiWidth1(s) then Some([Cluster(s, 1)]) else segment(s)
  }

  function InsertEdit(d: Document, cs: Line): Edit
    requires Valid(d)
  {
    var l := CurrentLine(d);
    Edit(ReplaceLine(d, [l[..d.cursorPos] + cs + l[d.cursorPos..]], d.cursorLine, d.cursorPos + 1), d.cursorLine, d.cursorLine)
  }

  function DeleteEdit(d: Document): (r: Edit)
    requires Valid(d) && !(AtLineStart(d) && d.cursorLine == 0)
    ensures Valid(r.doc)
  {
    var l := CurrentLine(d);
    if AtLineStart(d) then
      var n := d.cursorLine - 1;
      Edit(Document(d.lines[..n] + [d.lines[n] + l] + d.lines[n + 2..], n, |d.lines[n]|), n, n + 1)
    else
      Edit(ReplaceLine(d, [l[..d.cursorPos - 1] + l[d.cursorPos..]], d.cursorLine, d.cursorPos - 1), d.cursorLine, d.cursorLine)
  }

  function NewlineEdit(d: Document): (r: Edit)
    requires Valid(d)
    ensures Valid(r.doc)
  {
    var l := CurrentLine(d);
    Edit(ReplaceLine(d, [l[..d.cursorPos], l[d.cursorPos..]], d.cursorLine + 1, 0), d.cursorLine, d.cursorLine + 1)
  }

  const MAX_PASTE: nat := 5 * 1024

  /** Pasted bytes that are not valid text are dropped, line by line. */
  function PastedLines(segment: Segment, text: string): (ls: seq<Line>)
    ensures ls != []
  {
    var parts := Split(if |text| > MAX_PASTE then text[..MAX_PASTE] else text, '\n');
    seq(|parts|, i requires 0 <= i < |parts| => match segment(parts[i]) case Some(l) => l case None => [])
  }

  /** The lines that a paste of `pasted` between `before` and `after` makes. */
  function Woven(before: Line, pasted: seq<Line>, after: Line): (mid: seq<Line>)
    requires pasted != []
    ensures |mid| == |pasted|
  {
    var last := |pasted| - 1;
    if last == 0 then [before + pasted[0] + after]
    else [before + pasted[0]] + pasted[1..last] + [pasted[last] + after]
  }

  function PasteEdit(d: Document, pasted: seq<Line>): (r: Edit)
    requires Valid(d) && pasted != []
    ensures Valid(r.doc)
  {
    var l, last := CurrentLine(d), |pasted| - 1;
    Edit(ReplaceLine(d, Woven(l[..d.cursorPos], pasted, l[d.cursorPos..]), d.cursorLine + last,
                     if last == 0 then d.cursorPos + |pasted[0]| else |pasted[last]|),
         d.cursorLine, d.cursorLine + last)
  }

  function ClearEdit(d: Document): (r: Edit)
    requires Valid(d)
    ensures Valid(r.doc)
  {
    Edit(ReplaceLine(d, [CurrentLine(d)[d.cursorPos..]], d.cursorLine, 0), d.cursorLine, d.cursorLine)
  }

  /** `replace_range`: bounds may be any integers; invalid text replaces by nothing. */
  function ReplaceRangeEdit(d: Document, startPos: int, endPos: int, added: Line): Edit
    requires Valid(d)
  {
    var l := CurrentLine(d);
    var from: nat := if startPos < 0 then 0 else startPos;
    var to: nat := if endPos < from then from else endPos;
    Edit(ReplaceLine(d, [l[..Min(from, |l|)] + added + l[Min(to, |l|)..]], d.cursorLine, from + |added|),
         d.cursorLine, d.cursorLine)
  }

  function MoveLeft(d: Document): (d': Document)
    requires Valid(d)
    ensures Valid(d')
  {
    if !AtLineStart(d) then d.(cursorPos := d.cursorPos - 1)
    else if d.cursorLine != 0 then d.(cursorLine := d.cursorLine - 1, cursorPos := |d.lines[d.cursorLine - 1]|)
    else d
  }

  function MoveRight(d: Document): (d': Document)
    requires Valid(d)
    ensures Valid(d')
  {
    if !AtLineEnd(d) then d.(cursorPos := d.cursorPos + 1)
    else if d.cursorLine < |d.lines| - 1 then d.(cursorLine := d.cursorLine + 1, cursorPos := 0)
    else d
  }

  predicate SameCursor(a: Document, b: Document) {
    a.cursorLine == b.cursorLine && a.cursorPos == b.cursorPos
  }

  // ---------------------------------------------------------------- the flat text

  datatype Atom = Newline | Letter(glyph: Glyph)

  function FlatLine(l: Line): (fs: seq<Atom>)
    ensures |fs| == |l|
  {
    seq(|l|, i requires 0 <= i < |l| => Letter(l[i]))
  }

  function Flat(lines: seq<Line>): seq<Atom> {
    if lines == [] then []
    else if |lines| == 1 then FlatLine(lines[0])
    else FlatLine(lines[0]) + [Newline] + Flat(lines[1..])
  }

  function Ahead(lines: seq<Line>): seq<Atom> {
    if lines == [] then [] else FlatLine(lines[0]) + [Newline] + Ahead(lines[1..])
  }

  function Behind(lines: seq<Line>): seq<Atom> {
    if lines == [] then [] else [Newline] + FlatLine(lines[0]) + Behind(lines[1..])
  }

  function Content(d: Document): seq<Atom> {
    Flat(d.lines)
  }

  /** The one number that says where the cursor is in the flat text. */
  function Offset(d: Document): nat
    requires d.cursorLine <= |d.lines|
  {
    |Ahead(d.lines[..d.cursorLine])| + d.cursorPos
  }

  lemma FlatLineConcat(a: Line, b: Line)
    ensures FlatLine(a + b) == FlatLine(a) + FlatLine(b)
  {
  }

  lemma {:induction false} FlatCons(l: Line, rest: seq<Line>)
    ensures Flat([l] + rest) == FlatLine(l) + Behind(rest)
    decreases |rest|
  {
    if rest == [] {
      assert [l] + rest == [l];
      assert FlatLine(l) + [] == FlatLine(l);
    } else {
      assert ([l] + rest)[1..] == rest;
      FlatCons(rest[0], rest[1..]);
      assert [rest[0]] + rest[1..] == rest;
    }
  }

  lemma {:induction false} FlatAhead(a: seq<Line>, b: seq<Line>)
    requires b != []
    ensures Flat(a + b) == Ahead(a) + Flat(b)
  {
    if a == [] {
      assert a + b == b;
      assert [] + Flat(b) == Flat(b);
    } else {
      assert (a + b)[1..] == a[1..] + b;
      FlatAhead(a[1..], b);
    }
  }

  lemma {:induction false} BehindConcat(a: seq<Line>, b: seq<Line>)
    ensures Behind(a + b) == Behind(a) + Behind(b)
  {
    if a == [] {
      assert a + b == b;
      assert [] + Behind(b) == Behind(b);
    } else {
      assert (a + b)[1..] == a[1..] + b;
      BehindConcat(a[1..], b);
    }
  }

  lemma {:induction false} AheadConcat(a: seq<Line>, b: seq<Line>)
    ensures Ahead(a + b) == Ahead(a) + Ahead(b)
  {
    if a == [] {
      assert a + b == b;
      assert [] + Ahead(b) == Ahead(b);
    } else {
      assert (a + b)[1..] == a[1..] + b;
      AheadConcat(a[1..], b);
    }
  }

  /** The flat text around a block of lines. */
  lemma FlatBlock(before: seq<Line>, mid: seq<Line>, after: seq<Line>)
    requires mid != []
    ensures Flat(before + mid + after) == Ahead(before) + Flat(mid) + Behind(after)
  {
    FlatAhead(before, mid + after);
    FlatThenBehind(mid, after);
    assert before + mid + after == before + (mid + after);
    AtomsAssociate(Ahead(before), Flat(mid), Behind(after));
  }

  lemma AtomsAssociate(a: seq<Atom>, b: seq<Atom>, c: seq<Atom>)
    ensures a + (b + c) == a + b + c
  {
  }

  lemma FlatThenBehind(mid: seq<Line>, after: seq<Line>)
    requires mid != []
    ensures Flat(mid + after) == Flat(mid) + Behind(after)
  {
    assert mid == [mid[0]] + mid[1..];
    assert mid + after == [mid[0]] + (mid[1..] + after);
    FlatCons(mid[0], mid[1..] + after);
    FlatCons(mid[0], mid[1..]);
    BehindConcat(mid[1..], after);
    AtomsAssociate(FlatLine(mid[0]), Behind(mid[1..]), Behind(after));
  }

  /** The flat text cut at the cursor. */
  ghost function UpToCursor(d: Document): seq<Atom>
    requires Valid(d)
  {
    Ahead(d.lines[..d.cursorLine]) + FlatLine(CurrentLine(d)[..d.cursorPos])
  }

  ghost function FromCursor(d: Document): seq<Atom>
    requires Valid(d)
  {
    FlatLine(CurrentLine(d)[d.cursorPos..]) + Behind(d.lines[d.cursorLine + 1..])
  }

  lemma CutAtCursor(d: Document)
    requires Valid(d)
    ensures Content(d) == UpToCursor(d) + FromCursor(d)
    ensures Offset(d) == |UpToCursor(d)| <= |Content(d)|
    ensures Content(d)[..Offset(d)] == UpToCursor(d) && Content(d)[Offset(d)..] == FromCursor(d)
  {
    var n, l := d.cursorLine, CurrentLine(d);
    assert d.lines == d.lines[..n] + [l] + d.lines[n + 1..];
    FlatBlock(d.lines[..n], [l], d.lines[n + 1..]);
    FlatLineConcat(l[..d.cursorPos], l[d.cursorPos..]);
    assert l == l[..d.cursorPos] + l[d.cursorPos..];
  }

  // --------------------------------------------- the primitives on the flat text

  /** `d'` has the text of `d` with the atoms from `lo` to `hi` replaced by `mid`, and the cursor at `cursor`. */
  ghost predicate Spliced(d: Document, d': Document, lo: int, hi: int, mid: seq<Atom>, cursor: int)
    requires Valid(d)
  {
    && d'.cursorLine < |d'.lines|
    && 0 <= lo <= hi <= |Content(d)|
    && Content(d') == Content(d)[..lo] + mid + Content(d)[hi..]
    && Offset(d') == cursor
  }

  lemma ReplaceLineEffect(d: Document, mid: seq<Line>, k: nat, pos: nat)
    requires Valid(d) && k < |mid|
    ensures
      var d' := ReplaceLine(d, mid, d.cursorLine + k, pos);
      && d'.cursorLine < |d'.lines| && CurrentLine(d') == mid[k]
      && Content(d') == Ahead(d.lines[..d.cursorLine]) + Flat(mid) + Behind(d.lines[d.cursorLine + 1..])
      && Offset(d') == |Ahead(d.lines[..d.cursorLine])| + |Ahead(mid[..k])| + pos
  {
    var n := d.cursorLine;
    var d' := ReplaceLine(d, mid, n + k, pos);
    FlatBlock(d.lines[..n], mid, d.lines[n + 1..]);
    assert d'.lines[..n + k] == d.lines[..n] + mid[..k];
    AheadConcat(d.lines[..n], mid[..k]);
  }

  /** The flat text cut at any place of the current line. */
  lemma CutAt(d: Document, i: nat)
    requires Valid(d) && i <= |CurrentLine(d)|
    ensures
      var at := Offset(d) - d.cursorPos + i;
      && 0 <= at <= |Content(d)|
      && Content(d)[..at] == Ahead(d.lines[..d.cursorLine]) + FlatLine(CurrentLine(d)[..i])
      && Content(d)[at..] == FlatLine(CurrentLine(d)[i..]) + Behind(d.lines[d.cursorLine + 1..])
  {
    CutAtCursor(d.(cursorPos := i));
  }

  lemma FlatOne(line: Line)
    ensures Flat([line]) == FlatLine(line) && Ahead([line][..0]) == []
  {
  }

  lemma Assemble(content: seq<Atom>, lo: nat, hi: nat, a: seq<Atom>, b: seq<Atom>, mid: seq<Atom>, c: seq<Atom>, z: seq<Atom>)
    requires lo <= hi <= |content| && content[..lo] == a + b && content[hi..] == c + z
    ensures content[..lo] + mid + content[hi..] == a + (b + mid + c) + z
  {
  }

  /** A change within the current line, told on the flat text. */
  lemma LineSplice(d: Document, i: nat, j: nat, cs: Line, pos: nat)
    requires Valid(d) && i <= j <= |CurrentLine(d)|
    ensures
      var l := CurrentLine(d);
      var base := Offset(d) - d.cursorPos;
      Spliced(d, ReplaceLine(d, [l[..i] + cs + l[j..]], d.cursorLine, pos), base + i, base + j, FlatLine(cs), base + pos)
  {
    var l, base := CurrentLine(d), Offset(d) - d.cursorPos;
    var line := l[..i] + cs + l[j..];
    ReplaceLineEffect(d, [line], 0, pos);
    FlatOne(line);
    FlatLineConcat(l[..i] + cs, l[j..]);
    FlatLineConcat(l[..i], cs);
    CutAt(d, i);
    CutAt(d, j);
    Assemble(Content(d), base + i, base + j, Ahead(d.lines[..d.cursorLine]), FlatLine(l[..i]), FlatLine(cs),
             FlatLine(l[j..]), Behind(d.lines[d.cursorLine + 1..]));
  }

  /** Typing splices the new clusters in at the cursor; the cursor ends behind them exactly when they are one. */
  lemma InsertEffect(d: Document, cs: Line)
    requires Valid(d)
    ensures
      var d' := InsertEdit(d, cs).doc;
      && Spliced(d, d', Offset(d), Offset(d), FlatLine(cs), Offset(d) + 1)
      && (Offset(d') == Offset(d) + |FlatLine(cs)| <==> |cs| == 1)
      && (cs != [] ==> Valid(d'))
  {
    LineSplice(d, d.cursorPos, d.cursorPos, cs, d.cursorPos + 1);
  }

  /** Backspace removes the atom before the cursor, which may be the end of a line. */
  lemma DeleteEffect(d: Document)
    requires Valid(d)
    ensures Offset(d) == 0 <==> AtLineStart(d) && d.cursorLine == 0
    ensures Offset(d) > 0 ==> Spliced(d, DeleteEdit(d).doc, Offset(d) - 1, Offset(d), [], Offset(d) - 1)
  {
    if d.cursorPos > 0 {
      var l := CurrentLine(d);
      LineSplice(d, d.cursorPos - 1, d.cursorPos, [], d.cursorPos - 1);
      assert l[..d.cursorPos - 1] + [] + l[d.cursorPos..] == l[..d.cursorPos - 1] + l[d.cursorPos..];
    } else if d.cursorLine > 0 {
      MergeEffect(d);
    } else {
      assert Ahead(d.lines[..0]) == [];
    }
  }

  lemma AheadStep(lines: seq<Line>, n: nat)
    requires n < |lines|
    ensures Ahead(lines[..n + 1]) == Ahead(lines[..n]) + FlatLine(lines[n]) + [Newline]
  {
    assert lines[..n + 1] == lines[..n] + [lines[n]];
    AheadConcat(lines[..n], [lines[n]]);
    assert Ahead([lines[n]]) == FlatLine(lines[n]) + [Newline] + Ahead([]);
  }

  lemma MergeContent(d: Document)
    requires Valid(d) && d.cursorPos == 0 && d.cursorLine > 0
    ensures
      var n, d' := d.cursorLine - 1, DeleteEdit(d).doc;
      && Content(d') == Ahead(d.lines[..n]) + (FlatLine(d.lines[n]) + FlatLine(CurrentLine(d))) + Behind(d.lines[n + 2..])
      && Offset(d') == |Ahead(d.lines[..n])| + |d.lines[n]|
  {
    var n, l := d.cursorLine - 1, CurrentLine(d);
    var merged := d.lines[n] + l;
    FlatBlock(d.lines[..n], [merged], d.lines[n + 2..]);
    FlatOne(merged);
    FlatLineConcat(d.lines[n], l);
    assert DeleteEdit(d).doc.lines[..n] == d.lines[..n];
  }

  lemma MergeCut(d: Document)
    requires Valid(d) && d.cursorPos == 0 && d.cursorLine > 0
    ensures
      var n := d.cursorLine - 1;
      && 0 < Offset(d) <= |Content(d)|
      && Offset(d) - 1 == |Ahead(d.lines[..n])| + |d.lines[n]|
      && Content(d)[..Offset(d) - 1] == Ahead(d.lines[..n]) + FlatLine(d.lines[n])
      && Content(d)[Offset(d)..] == FlatLine(CurrentLine(d)) + Behind(d.lines[n + 2..])
  {
    var n, l := d.cursorLine - 1, CurrentLine(d);
    AheadStep(d.lines, n);
    CutAt(d, 0);
    assert l[0..] == l && l[..0] == [];
    assert Content(d)[..Offset(d) - 1] == Content(d)[..Offset(d)][..Offset(d) - 1];
  }

  lemma MergeEffect(d: Document)
    requires Valid(d) && d.cursorPos == 0 && d.cursorLine > 0
    ensures Offset(d) > 0 && Spliced(d, DeleteEdit(d).doc, Offset(d) - 1, Offset(d), [], Offset(d) - 1)
  {
    var n := d.cursorLine - 1;
    MergeContent(d);
    MergeCut(d);
    Assemble(Content(d), Offset(d) - 1, Offset(d), Ahead(d.lines[..n]), FlatLine(d.lines[n]), [],
             FlatLine(CurrentLine(d)), Behind(d.lines[n + 2..]));
    assert FlatLine(d.lines[n]) + [] + FlatLine(CurrentLine(d)) == FlatLine(d.lines[n]) + FlatLine(CurrentLine(d));
  }

  /** Enter splices in a line end. */
  lemma NewlineEffect(d: Document)
    requires Valid(d)
    ensures Spliced(d, NewlineEdit(d).doc, Offset(d), Offset(d), [Newline], Offset(d) + 1)
  {
    var l, p := CurrentLine(d), d.cursorPos;
    var mid := [l[..p], l[p..]];
    ReplaceLineEffect(d, mid, 1, 0);
    AheadStep(mid, 0);
    assert mid[..0] == [] && mid[1..] == [l[p..]];
    assert Flat(mid) == FlatLine(l[..p]) + [Newline] + FlatLine(l[p..]);
    CutAt(d, p);
    Assemble(Content(d), Offset(d), Offset(d), Ahead(d.lines[..d.cursorLine]), FlatLine(l[..p]), [Newline],
             FlatLine(l[p..]), Behind(d.lines[d.cursorLine + 1..]));
  }

  /** Pasting splices the pasted lines in and leaves the cursor behind them. */
  lemma PasteEffect(d: Document, pasted: seq<Line>)
    requires Valid(d) && pasted != []
    ensures Spliced(d, PasteEdit(d, pasted).doc, Offset(d), Offset(d), Flat(pasted), Offset(d) + |Flat(pasted)|)
  {
    var l, p, last := CurrentLine(d), d.cursorPos, |pasted| - 1;
    if last == 0 {
      LineSplice(d, p, p, pasted[0], p + |pasted[0]|);
    } else {
      PasteManyEffect(d, pasted);
    }
  }

  lemma {:induction false} PasteManyEffect(d: Document, pasted: seq<Line>)
    requires Valid(d) && |pasted| > 1
    ensures Spliced(d, PasteEdit(d, pasted).doc, Offset(d), Offset(d), Flat(pasted), Offset(d) + |Flat(pasted)|)
  {
    var l, p, last := CurrentLine(d), d.cursorPos, |pasted| - 1;
    ReplaceLineEffect(d, Woven(l[..p], pasted, l[p..]), last, |pasted[last]|);
    WovenFlat(l[..p], pasted, l[p..]);
    SplicedAtCursor(d, PasteEdit(d, pasted).doc, Flat(pasted));
  }

  lemma SplicedAtCursor(d: Document, d': Document, mid: seq<Atom>)
    requires Valid(d) && d'.cursorLine < |d'.lines| && Offset(d') == Offset(d) + |mid|
    requires
      var l, p := CurrentLine(d), d.cursorPos;
      Content(d') == Ahead(d.lines[..d.cursorLine]) + (FlatLine(l[..p]) + mid + FlatLine(l[p..])) + Behind(d.lines[d.cursorLine + 1..])
    ensures Spliced(d, d', Offset(d), Offset(d), mid, Offset(d) + |mid|)
  {
    var l, p := CurrentLine(d), d.cursorPos;
    CutAt(d, p);
    Assemble(Content(d), Offset(d), Offset(d), Ahead(d.lines[..d.cursorLine]), FlatLine(l[..p]), mid,
             FlatLine(l[p..]), Behind(d.lines[d.cursorLine + 1..]));
  }

  lemma WovenFlat(before: Line, pasted: seq<Line>, after: Line)
    requires |pasted| > 1
    ensures
      var mid, last := Woven(before, pasted, after), |pasted| - 1;
      && Flat(mid) == FlatLine(before) + Flat(pasted) + FlatLine(after)
      && |Ahead(mid[..last])| + |pasted[last]| == |FlatLine(before)| + |Flat(pasted)|
  {
    var last := |pasted| - 1;
    var mid := Woven(before, pasted, after);
    assert mid == mid[..last] + [pasted[last] + after];
    assert pasted == pasted[..last] + [pasted[last]];
    FlatAhead(mid[..last], [pasted[last] + after]);
    FlatAhead(pasted[..last], [pasted[last]]);
    FlatLineConcat(pasted[last], after);
    FlatLineConcat(before, pasted[0]);
    assert mid[..last][1..] == pasted[..last][1..];
  }

  lemma MoveLeftEffect(d: Document)
    requires Valid(d)
    ensures Content(MoveLeft(d)) == Content(d)
    ensures Offset(MoveLeft(d)) == if Offset(d) == 0 then 0 else Offset(d) - 1
  {
    if d.cursorPos == 0 {
      if d.cursorLine > 0 {
        AheadStep(d.lines, d.cursorLine - 1);
      } else {
        assert Ahead(d.lines[..0]) == [];
      }
    }
  }

  lemma MoveRightEffect(d: Document)
    requires Valid(d)
    ensures Content(MoveRight(d)) == Content(d)
    ensures Offset(MoveRight(d)) == if Offset(d) == |Content(d)| then Offset(d) else Offset(d) + 1
    ensures SameCursor(d, MoveRight(d)) <==> Offset(d) == |Content(d)|
  {
    CutAtCursor(d);
    if AtLineEnd(d) {
      if d.cursorLine < |d.lines| - 1 {
        AheadStep(d.lines, d.cursorLine);
        assert FromCursor(d) == Behind(d.lines[d.cursorLine + 1..]);
      } else {
        assert FromCursor(d) == [];
      }
    }
  }

  /** Clearing to the start of the line. */
  lemma ClearEffect(d: Document)
    requires Valid(d)
    ensures Spliced(d, ClearEdit(d).doc, Offset(d) - d.cursorPos, Offset(d), [], Offset(d) - d.cursorPos)
  {
    LineSplice(d, 0, d.cursorPos, [], 0);
    var l := CurrentLine(d);
    assert l[..0] + [] + l[d.cursorPos..] == l[d.cursorPos..];
  }

  /** The bounds are taken within the line; the cursor ends behind the new text, which lies within the line
      exactly when the range starts there. */
  lemma ReplaceRangeEffect(d: Document, startPos: int, endPos: int, added: Line)
    requires Valid(d)
    ensures
      var n, base := |CurrentLine(d)|, Offset(d) - d.cursorPos;
      var from: nat := if startPos < 0 then 0 else startPos;
      var to: nat := if endPos < from then from else endPos;
      var d' := ReplaceRangeEdit(d, startPos, endPos, added).doc;
      && Spliced(d, d', base + Min(from, n), base + Min(to, n), FlatLine(added), base + from + |added|)
      && (Valid(d') <==> from <= n)
  {
    var n := |CurrentLine(d)|;
    var from: nat := if startPos < 0 then 0 else startPos;
    var to: nat := if endPos < from then from else endPos;
    LineSplice(d, Min(from, n), Min(to, n), added, from + |added|);
  }

  // ------------------------------------------------------------------- the editor

  datatype Mode = Normal | Readline | Shell | Ai | HistorySearch

  datatype Editor<T, M> = Editor(doc: Document, lexCache: seq<Entry<T, M>>, mode: Mode)

  function LexerUpdate<T, M(==)>(lexer: Lexer<T, M>, e: Editor<T, M>, edit: Edit): Editor<T, M> {
    Editor(edit.doc,
           if e.mode.Normal? || e.mode.HistorySearch?
           then Update(lexer, edit.startLine, edit.endLine, edit.doc.lines, e.lexCache)
           else MakeAllDefault(lexer, edit.doc.lines),
           e.mode)
  }

  function InsertChar<T, M(==)>(lexer: Lexer<T, M>, segment: Segment, e: Editor<T, M>, s: string): (e': Editor<T, M>)
    requires Valid(e.doc)
    ensures IsSingleAsciiWidth1(s) ==> Valid(e'.doc)
  {
    match Typed(segment, s)
    case None => e
    case Some(cs) => LexerUpdate(lexer, e, InsertEdit(e.doc, cs))
  }

  function DeleteChar<T, M(==)>(lexer: Lexer<T, M>, e: Editor<T, M>): (e': Editor<T, M>)
    requires Valid(e.doc)
    ensures Valid(e'.doc)
  {
    if AtLineStart(e.doc) && e.doc.cursorLine == 0 then e else LexerUpdate(lexer, e, DeleteEdit(e.doc))
  }

  function InsertNewline<T, M(==)>(lexer: Lexer<T, M>, e: Editor<T, M>): Editor<T, M>
    requires Valid(e.doc)
  {
    LexerUpdate(lexer, e, NewlineEdit(e.doc))
  }

  function InsertPaste<T, M(==)>(lexer: Lexer<T, M>, segment: Segment, e: Editor<T, M>, text: string): Editor<T, M>
    requires Valid(e.doc)
  {
    LexerUpdate(lexer, e, PasteEdit(e.doc, PastedLines(segment, text)))
  }

  function DeleteBeforeCursor<T, M(==)>(lexer: Lexer<T, M>, e: Editor<T, M>): Editor<T, M>
    requires Valid(e.doc)
  {
    if AtLineStart(e.doc) then DeleteChar(lexer, e) else LexerUpdate(lexer, e, ClearEdit(e.doc))
  }

  function DeleteCharAfterCursor<T, M(==)>(lexer: Lexer<T, M>, e: Editor<T, M>): Editor<T, M>
    requires Valid(e.doc)
  {
    var moved := MoveRight(e.doc);
    if SameCursor(e.doc, moved) then e else DeleteChar(lexer, e.(doc := moved))
  }

  function ReplaceRange<T, M(==)>(lexer: Lexer<T, M>, segment: Segment, e: Editor<T, M>, startPos: int, endPos: int, text: string): Editor<T, M>
    requires Valid(e.doc)
  {
    LexerUpdate(lexer, e, ReplaceRangeEdit(e.doc, startPos, endPos, match segment(text) case Some(cs) => cs case None => []))
  }

  /** Delete (Ctrl-D) removes the atom behind the cursor and leaves the cursor where it is. */
  lemma DeleteCharAfterCursorEffect<T, M>(lexer: Lexer<T, M>, e: Editor<T, M>)
    requires Valid(e.doc)
    ensures
      var d, d' := e.doc, DeleteCharAfterCursor(lexer, e).doc;
      if Offset(d) == |Content(d)| then d' == d else Spliced(d, d', Offset(d), Offset(d) + 1, [], Offset(d))
  {
    MoveRightEffect(e.doc);
    DeleteEffect(MoveRight(e.doc));
    CutAtCursor(e.doc);
  }

  // ----------------------------------------------------------------- the cache follows

  /** What keys do to the text in Normal mode; `Insert` and `Erase` are what typing and backspace do where brackets
      are not paired, and what indents a new line. */
  datatype Key =
    | Type(s: string) | Backspace | Insert(s: string) | Erase | Enter | Delete | Clear | Paste(text: string) | Left | Right
    | Complete(startPos: int, endPos: int, text: string)

  function Press<T, M(==)>(lexer: Lexer<T, M>, segment: Segment, e: Editor<T, M>, k: Key): Editor<T, M>
    requires Valid(e.doc)
  {
    match k
    case Type(s) => UserInputChar(lexer, segment, e, s)
    case Backspace => UserInputDelete(lexer, e)
    case Insert(s) => InsertChar(lexer, segment, e, s)
    case Erase => DeleteChar(lexer, e)
    case Enter => InsertNewline(lexer, e)
    case Delete => DeleteCharAfterCursor(lexer, e)
    case Clear => DeleteBeforeCursor(lexer, e)
    case Paste(text) => InsertPaste(lexer, segment, e, text)
    case Left => e.(doc := MoveLeft(e.doc))
    case Right => e.(doc := MoveRight(e.doc))
    case Complete(i, j, text) => ReplaceRange(lexer, segment, e, i, j, text)
  }

  ghost predicate CacheFollows<T, M>(lexer: Lexer<T, M>, e: Editor<T, M>) {
    IsLexing(lexer, e.doc.lines, e.lexCache)
  }

  /** The edit tells the lexer where it changed lines, unless their number tells already. */
  ghost predicate Touches(d: Document, edit: Edit) {
    |d.lines| == |edit.doc.lines| ==> SameOutside(d.lines, edit.doc.lines, edit.startLine, edit.endLine)
  }

  lemma OneLineTouches(d: Document, line: Line, pos: nat)
    requires d.cursorLine < |d.lines|
    ensures Touches(d, Edit(ReplaceLine(d, [line], d.cursorLine, pos), d.cursorLine, d.cursorLine))
  {
  }

  lemma DeleteTouches(d: Document)
    requires Valid(d) && !(AtLineStart(d) && d.cursorLine == 0)
    ensures Touches(d, DeleteEdit(d))
  {
  }

  lemma InsertTouches(d: Document, cs: Line)
    requires Valid(d)
    ensures Touches(d, InsertEdit(d, cs))
  {
    OneLineTouches(d, CurrentLine(d)[..d.cursorPos] + cs + CurrentLine(d)[d.cursorPos..], d.cursorPos + 1);
  }

  lemma PasteTouches(d: Document, pasted: seq<Line>)
    requires Valid(d) && pasted != []
    ensures Touches(d, PasteEdit(d, pasted))
  {
    if |pasted| == 1 {
      OneLineTouches(d, CurrentLine(d)[..d.cursorPos] + pasted[0] + CurrentLine(d)[d.cursorPos..], d.cursorPos + |pasted[0]|);
    }
  }

  lemma ReplaceRangeTouches(d: Document, startPos: int, endPos: int, added: Line)
    requires Valid(d)
    ensures Touches(d, ReplaceRangeEdit(d, startPos, endPos, added))
  {
    var l := CurrentLine(d);
    var from: nat := if startPos < 0 then 0 else startPos;
    var to: nat := if endPos < from then from else endPos;
    OneLineTouches(d, l[..Min(from, |l|)] + added + l[Min(to, |l|)..], from + |added|);
  }

  lemma LexerUpdateFollows<T, M>(lexer: Lexer<T, M>, e: Editor<T, M>, edit: Edit)
    requires e.mode.Normal? && CacheFollows(lexer, e) && Touches(e.doc, edit)
    ensures CacheFollows(lexer, LexerUpdate(lexer, e, edit))
  {
    CreateIsLexing(lexer, e.doc.lines, e.lexCache);
    UpdateIsCreate(lexer, edit.startLine, edit.endLine, e.doc.lines, edit.doc.lines);
  }

  lemma DeleteCharFollows<T, M>(lexer: Lexer<T, M>, e: Editor<T, M>)
    requires Valid(e.doc) && e.mode.Normal? && CacheFollows(lexer, e)
    ensures CacheFollows(lexer, DeleteChar(lexer, e))
  {
    if !(AtLineStart(e.doc) && e.doc.cursorLine == 0) {
      DeleteTouches(e.doc);
      LexerUpdateFollows(lexer, e, DeleteEdit(e.doc));
    }
  }

  lemma InsertCharFollows<T, M>(lexer: Lexer<T, M>, segment: Segment, e: Editor<T, M>, s: string)
    requires Valid(e.doc) && e.mode.Normal? && CacheFollows(lexer, e)
    ensures CacheFollows(lexer, InsertChar(lexer, segment, e, s)) && InsertChar(lexer, segment, e, s).mode.Normal?
  {
    if Typed(segment, s).Some? {
      InsertTouches(e.doc, Typed(segment, s).value);
      LexerUpdateFollows(lexer, e, InsertEdit(e.doc, Typed(segment, s).value));
    }
  }

  /** Typing, with brackets and quotes paired or skipped. */
  lemma UserInputFollows<T, M>(lexer: Lexer<T, M>, segment: Segment, e: Editor<T, M>, s: string)
    requires Valid(e.doc) && e.mode.Normal? && CacheFollows(lexer, e)
    ensures CacheFollows(lexer, UserInputChar(lexer, segment, e, s)) && UserInputChar(lexer, segment, e, s).mode.Normal?
  {
    InsertCharFollows(lexer, segment, e, s);
    if Pairs(s) {
      var e1 := InsertChar(lexer, segment, e, s);
      InsertCharFollows(lexer, segment, e1, [Closer(s[0])]);
      TypesOneOf(lexer, segment, e, s);
    }
  }

  /** The four things that typing may do. */
  lemma TypesOneOf<T, M>(lexer: Lexer<T, M>, segment: Segment, e: Editor<T, M>, s: string)
    requires Valid(e.doc) && Pairs(s)
    ensures
      var t, e1 := UserInputChar(lexer, segment, e, s), InsertChar(lexer, segment, e, s);
      && Valid(e1.doc)
      && var e2 := InsertChar(lexer, segment, e1, [Closer(s[0])]);
      && Valid(e2.doc)
      && (t == e.(doc := MoveRight(e.doc)) || t == e1 || t == StepBack(e2))
  {
    assert s == "'" || s == "\"" ==> s == [Closer(s[0])];
  }

  /** Backspace, which may take a pair. */
  lemma UserDeleteFollows<T, M>(lexer: Lexer<T, M>, e: Editor<T, M>)
    requires Valid(e.doc) && e.mode.Normal? && CacheFollows(lexer, e)
    ensures CacheFollows(lexer, UserInputDelete(lexer, e)) && UserInputDelete(lexer, e).mode.Normal?
  {
    DeleteCharFollows(lexer, e);
    var e1 := e.(doc := MoveRight(e.doc));
    DeleteCharFollows(lexer, e1);
    DeleteCharFollows(lexer, DeleteChar(lexer, e1));
  }

  /** In Normal mode every key leaves the cache equal to a full lexing of the text. */
  lemma PressFollows<T, M>(lexer: Lexer<T, M>, segment: Segment, e: Editor<T, M>, k: Key)
    requires Valid(e.doc) && e.mode.Normal? && CacheFollows(lexer, e)
    ensures CacheFollows(lexer, Press(lexer, segment, e, k)) && Press(lexer, segment, e, k).mode.Normal?
  {
    var d := e.doc;
    match k
    case Type(s) => UserInputFollows(lexer, segment, e, s);
    case Backspace => UserDeleteFollows(lexer, e);
    case Insert(s) => InsertCharFollows(lexer, segment, e, s);
    case Erase => DeleteCharFollows(lexer, e);
    case Enter => LexerUpdateFollows(lexer, e, NewlineEdit(d));
    case Delete =>
      if !SameCursor(d, MoveRight(d)) {
        DeleteCharFollows(lexer, e.(doc := MoveRight(d)));
      }
    case Clear =>
      if AtLineStart(d) {
        DeleteCharFollows(lexer, e);
      } else {
        OneLineTouches(d, CurrentLine(d)[d.cursorPos..], 0);
        LexerUpdateFollows(lexer, e, ClearEdit(d));
      }
    case Paste(text) =>
      PasteTouches(d, PastedLines(segment, text));
      LexerUpdateFollows(lexer, e, PasteEdit(d, PastedLines(segment, text)));
    case Left =>
    case Right =>
    case Complete(i, j, text) =>
      var added := match segment(text) case Some(cs) => cs case None => [];
      ReplaceRangeTouches(d, i, j, added);
      LexerUpdateFollows(lexer, e, ReplaceRangeEdit(d, i, j, added));
  }

  /** `t` is reached from `e` by the keys, the cursor being in the text before each of them. */
  ghost predicate Session<T, M>(lexer: Lexer<T, M>, segment: Segment, e: Editor<T, M>, keys: seq<Key>, t: Editor<T, M>)
    decreases |keys|
  {
    if keys == [] then t == e
    else Valid(e.doc) && Session(lexer, segment, Press(lexer, segment, e, keys[0]), keys[1..], t)
  }

  /** Whatever is typed in Normal mode, the cache is what lexing the whole text would give. */
  lemma {:induction false} SessionFollows<T, M>(lexer: Lexer<T, M>, segment: Segment, e: Editor<T, M>, keys: seq<Key>, t: Editor<T, M>)
    requires Session(lexer, segment, e, keys, t) && e.mode.Normal? && CacheFollows(lexer, e)
    ensures CacheFollows(lexer, t)
    decreases |keys|
  {
    if keys != [] {
      PressFollows(lexer, segment, e, keys[0]);
      SessionFollows(lexer, segment, Press(lexer, segment, e, keys[0]), keys[1..], t);
    }
  }

  // ------------------------------------------------------------- where nothing is lexed

  /** Each line is one token in the initial mode. */
  ghost predicate AllDefault<T, M>(lexer: Lexer<T, M>, e: Editor<T, M>) {
    && |e.lexCache| == |e.doc.lines|
    && forall k :: 0 <= k < |e.lexCache| ==>
         e.lexCache[k] == Entry(Text(e.doc.lines[k]), [lexer.lexAsDefault(Text(e.doc.lines[k]))], lexer.initialMode, lexer.initialMode)
  }

  lemma InsertCharStaysDefault<T, M>(lexer: Lexer<T, M>, segment: Segment, e: Editor<T, M>, s: string)
    requires Valid(e.doc) && e.mode in {Readline, Shell, Ai} && AllDefault(lexer, e)
    ensures InsertChar(lexer, segment, e, s).mode == e.mode && AllDefault(lexer, InsertChar(lexer, segment, e, s))
  {
  }

  lemma DeleteCharStaysDefault<T, M>(lexer: Lexer<T, M>, e: Editor<T, M>)
    requires Valid(e.doc) && e.mode in {Readline, Shell, Ai} && AllDefault(lexer, e)
    ensures DeleteChar(lexer, e).mode == e.mode && AllDefault(lexer, DeleteChar(lexer, e))
  {
  }

  lemma UserInputStaysDefault<T, M>(lexer: Lexer<T, M>, segment: Segment, e: Editor<T, M>, s: string)
    requires Valid(e.doc) && e.mode in {Readline, Shell, Ai} && AllDefault(lexer, e)
    ensures UserInputChar(lexer, segment, e, s).mode == e.mode && AllDefault(lexer, UserInputChar(lexer, segment, e, s))
  {
    InsertCharStaysDefault(lexer, segment, e, s);
    if Pairs(s) {
      InsertCharStaysDefault(lexer, segment, InsertChar(lexer, segment, e, s), [Closer(s[0])]);
      TypesOneOf(lexer, segment, e, s);
    }
  }

  lemma UserDeleteStaysDefault<T, M>(lexer: Lexer<T, M>, e: Editor<T, M>)
    requires Valid(e.doc) && e.mode in {Readline, Shell, Ai} && AllDefault(lexer, e)
    ensures UserInputDelete(lexer, e).mode == e.mode && AllDefault(lexer, UserInputDelete(lexer, e))
  {
    var e1 := e.(doc := MoveRight(e.doc));
    DeleteCharStaysDefault(lexer, e);
    DeleteCharStaysDefault(lexer, e1);
    DeleteCharStaysDefault(lexer, DeleteChar(lexer, e1));
  }

  lemma PressStaysDefault<T, M>(lexer: Lexer<T, M>, segment: Segment, e: Editor<T, M>, k: Key)
    requires Valid(e.doc) && e.mode in {Readline, Shell, Ai} && AllDefault(lexer, e)
    ensures Press(lexer, segment, e, k).mode == e.mode && AllDefault(lexer, Press(lexer, segment, e, k))
  {
    match k
    case Type(s) => UserInputStaysDefault(lexer, segment, e, s);
    case Backspace => UserDeleteStaysDefault(lexer, e);
    case Delete => DeleteCharStaysDefault(lexer, e.(doc := MoveRight(e.doc)));
    case Insert(s) => InsertCharStaysDefault(lexer, segment, e, s);
    case _ => DeleteCharStaysDefault(lexer, e);
  }

  /** In the other modes that take text, every line stays one token, whatever is typed. */
  lemma {:induction false} SessionStaysDefault<T, M>(lexer: Lexer<T, M>, segment: Segment, e: Editor<T, M>, keys: seq<Key>, t: Editor<T, M>)
    requires Session(lexer, segment, e, keys, t) && e.mode in {Readline, Shell, Ai} && AllDefault(lexer, e)
    ensures AllDefault(lexer, t)
    decreases |keys|
  {
    if keys != [] {
      PressStaysDefault(lexer, segment, e, keys[0]);
      SessionStaysDefault(lexer, segment, Press(lexer, segment, e, keys[0]), keys[1..], t);
    }
  }

  lemma UserInputStaysIff<T, M>(lexer: Lexer<T, M>, segment: Segment, e: Editor<T, M>, s: string)
    requires Valid(e.doc)
    ensures Valid(UserInputChar(lexer, segment, e, s).doc) <==> !(Typed(segment, s) == Some([]) && AtLineEnd(e.doc))
  {
    if Pairs(s) {
      assert IsSingleAsciiWidth1(s) && IsSingleAsciiWidth1([Closer(s[0])]);
    }
  }

  /** The cursor stays in the text, except when nothing is typed at the end of a line, or when a completion
      starts behind it. */
  lemma CursorStaysInTextIff<T, M>(lexer: Lexer<T, M>, segment: Segment, e: Editor<T, M>, k: Key)
    requires Valid(e.doc)
    ensures Valid(Press(lexer, segment, e, k).doc) <==>
              && !((k.Type? || k.Insert?) && Typed(segment, k.s) == Some([]) && AtLineEnd(e.doc))
              && !(k.Complete? && k.startPos > |CurrentLine(e.doc)|)
  {
    match k {
      case Type(s) =>
        UserInputStaysIff(lexer, segment, e, s);
      case Complete(i, j, text) =>
        ReplaceRangeEffect(e.doc, i, j, match segment(text) case Some(cs) => cs case None => []);
      case _ =>
    }
  }

  // ------------------------------------------------------------------- brackets

  function Closer(c: char): char {
    if c == '(' then ')' else if c == '[' then ']' else if c == '{' then '}' else c
  }

  predicate ShouldAutoPair(d: Document)
    requires d.cursorLine < |d.lines|
  {
    match CharAt(d)
    case None => true
    case Some(c) => |c.text| == 1 && c.text[0] in {')', ']', '}', ' ', '\t'}
  }

  function UserInputChar<T, M(==)>(lexer: Lexer<T, M>, segment: Segment, e: Editor<T, M>, s: string): Editor<T, M>
    requires Valid(e.doc)
  {
    if s in {"[", "{", "("} then
      if !ShouldAutoPair(e.doc) then InsertChar(lexer, segment, e, s)
      else StepBack(InsertChar(lexer, segment, InsertChar(lexer, segment, e, s), [Closer(s[0])]))
    else if s in {"]", "}", ")"} then
      if Skips(e.doc, s) then e.(doc := MoveRight(e.doc)) else InsertChar(lexer, segment, e, s)
    else if s in {"'", "\""} then
      if Skips(e.doc, s) then e.(doc := MoveRight(e.doc))
      else if ShouldAutoPair(e.doc) then StepBack(InsertChar(lexer, segment, InsertChar(lexer, segment, e, s), s))
      else InsertChar(lexer, segment, e, s)
    else InsertChar(lexer, segment, e, s)
  }

  /** A closing bracket or a quote is typed over the same one. */
  predicate Skips(d: Document, s: string)
    requires d.cursorLine < |d.lines|
  {
    s in {"]", "}", ")", "'", "\""} && CharAt(d).Some? && CharAt(d).value.text == s
  }

  /** Brackets and quotes that may bring their partner. */
  predicate Pairs(s: string) {
    s in {"[", "{", "(", "'", "\""}
  }

  function StepBack<T, M>(e: Editor<T, M>): Editor<T, M>
    requires Valid(e.doc)
  {
    e.(doc := MoveLeft(e.doc))
  }

  /** The bytes on both sides of the cursor open and close the same sort of bracket or quote. */
  predicate BetweenPair(d: Document)
    requires Valid(d) && !AtLineStart(d) && !AtLineEnd(d)
  {
    var b, a := CharBefore(d).value.text[0], CharAt(d).value.text[0];
    b in {'(', '[', '{', '"', '\''} && a == Closer(b)
  }

  function UserInputDelete<T, M(==)>(lexer: Lexer<T, M>, e: Editor<T, M>): Editor<T, M>
    requires Valid(e.doc)
  {
    if AtLineStart(e.doc) || AtLineEnd(e.doc) then DeleteChar(lexer, e)
    else if BetweenPair(e.doc) then DeleteChar(lexer, DeleteChar(lexer, e.(doc := MoveRight(e.doc))))
    else DeleteChar(lexer, e)
  }

  /** The cluster at the cursor is longer than a byte and begins with the byte that closes `c`: a bracket with
      a combining mark. */
  predicate FalseCloser(d: Document, c: char)
    requires d.cursorLine < |d.lines|
  {
    CharAt(d).Some? && |CharAt(d).value.text| > 1 && CharAt(d).value.text[0] == Closer(c)
  }

  /** The current line with `cs` typed in at its cursor, the cursor `k` clusters further on. */
  function WithTyped(d: Document, cs: Line, k: nat): Document
    requires Valid(d)
  {
    ReplaceLine(d, [CurrentLine(d)[..d.cursorPos] + cs + CurrentLine(d)[d.cursorPos..]], d.cursorLine, d.cursorPos + k)
  }

  lemma LineWithTyped(d: Document, cs: Line, k: nat)
    requires Valid(d) && k <= |cs|
    ensures
      var t := WithTyped(d, cs, k);
      && Valid(t)
      && CurrentLine(t) == CurrentLine(d)[..d.cursorPos] + cs + CurrentLine(d)[d.cursorPos..]
      && t.lines[..d.cursorLine] == d.lines[..d.cursorLine]
      && t.lines[d.cursorLine + 1..] == d.lines[d.cursorLine + 1..]
  {
  }

  lemma TypeMore(d: Document, cs: Line, c: Glyph)
    requires Valid(d)
    ensures InsertEdit(WithTyped(d, cs, |cs|), [c]).doc == WithTyped(d, cs + [c], |cs| + 1)
  {
    LineWithTyped(d, cs, |cs|);
    var l, p := CurrentLine(d), d.cursorPos;
    var line := CurrentLine(WithTyped(d, cs, |cs|));
    assert line[..p + |cs|] == l[..p] + cs && line[p + |cs|..] == l[p..];
    assert l[..p] + cs + [c] + l[p..] == l[..p] + (cs + [c]) + l[p..];
  }

  lemma DeleteTyped(d: Document, cs: Line, k: nat)
    requires Valid(d) && 0 < k <= |cs|
    ensures Valid(WithTyped(d, cs, k)) && !AtLineStart(WithTyped(d, cs, k))
    ensures DeleteEdit(WithTyped(d, cs, k)).doc == WithTyped(d, cs[..k - 1] + cs[k..], k - 1)
  {
    LineWithTyped(d, cs, k);
    var l, p := CurrentLine(d), d.cursorPos;
    var line := CurrentLine(WithTyped(d, cs, k));
    assert line[..p + k - 1] + line[p + k..] == l[..p] + (cs[..k - 1] + cs[k..]) + l[p..];
  }

  lemma NothingTyped(d: Document)
    requires Valid(d)
    ensures WithTyped(d, [], 0) == d
  {
    var l := CurrentLine(d);
    assert l[..d.cursorPos] + [] + l[d.cursorPos..] == l;
    assert d.lines[..d.cursorLine] + [l] + d.lines[d.cursorLine + 1..] == d.lines;
  }

  /** What typing a bracket or quote that may bring its partner makes of the text, unless it is skipped. */
  lemma {:induction false} TypedPair<T, M>(lexer: Lexer<T, M>, segment: Segment, e: Editor<T, M>, s: string)
    requires Valid(e.doc) && Pairs(s) && !Skips(e.doc, s)
    ensures
      var c, z: Glyph := Cluster(s, 1), Cluster([Closer(s[0])], 1);
      UserInputChar(lexer, segment, e, s).doc ==
        if ShouldAutoPair(e.doc) then WithTyped(e.doc, [c, z], 1) else WithTyped(e.doc, [c], 1)
  {
    if ShouldAutoPair(e.doc) {
      TypedBoth(lexer, segment, e, s);
      TypesOneOf(lexer, segment, e, s);
    }
  }

  lemma {:induction false} TypedBoth<T, M>(lexer: Lexer<T, M>, segment: Segment, e: Editor<T, M>, s: string)
    requires Valid(e.doc) && Pairs(s)
    ensures
      var e1 := InsertChar(lexer, segment, e, s);
      && Valid(e1.doc)
      && var e2 := InsertChar(lexer, segment, e1, [Closer(s[0])]);
      && Valid(e2.doc)
      && StepBack(e2).doc == WithTyped(e.doc, [Cluster(s, 1), Cluster([Closer(s[0])], 1)], 1)
  {
    var c, z: Glyph := Cluster(s, 1), Cluster([Closer(s[0])], 1);
    TypeMore(e.doc, [c], z);
    assert [c] + [z] == [c, z];
    LineWithTyped(e.doc, [c, z], 2);
  }

  lemma TypedOther<T, M>(lexer: Lexer<T, M>, segment: Segment, e: Editor<T, M>, s: string)
    requires Valid(e.doc) && IsSingleAsciiWidth1(s) && !Pairs(s) && !Skips(e.doc, s)
    ensures UserInputChar(lexer, segment, e, s).doc == WithTyped(e.doc, [Cluster(s, 1)], 1)
  {
  }

  lemma DeleteCharDoc<T, M>(lexer: Lexer<T, M>, e: Editor<T, M>)
    requires Valid(e.doc) && !AtLineStart(e.doc)
    ensures DeleteChar(lexer, e).doc == DeleteEdit(e.doc).doc
  {
  }

  /** Between the two one backspace takes both away. */
  lemma BackspaceInPair<T, M>(lexer: Lexer<T, M>, d: Document, t: Editor<T, M>, c: Glyph, z: Glyph)
    requires Valid(d) && t.doc == WithTyped(d, [c, z], 1)
    requires c.text[0] in {'(', '[', '{', '"', '\''} && z.text[0] == Closer(c.text[0])
    ensures Valid(t.doc) && UserInputDelete(lexer, t).doc == d
  {
    LineWithTyped(d, [c, z], 1);
    LineWithTyped(d, [c, z], 2);
    assert MoveRight(t.doc) == WithTyped(d, [c, z], 2);
    BothTaken(lexer, d, t.(doc := MoveRight(t.doc)), c, z);
  }

  lemma BothTaken<T, M>(lexer: Lexer<T, M>, d: Document, t: Editor<T, M>, c: Glyph, z: Glyph)
    requires Valid(d) && t.doc == WithTyped(d, [c, z], 2)
    ensures Valid(t.doc) && DeleteChar(lexer, DeleteChar(lexer, t)).doc == d
  {
    DeleteTyped(d, [c, z], 2);
    assert [c, z][..1] + [c, z][2..] == [c];
    DeleteCharDoc(lexer, t);
    var t' := DeleteChar(lexer, t);
    DeleteTyped(d, [c], 1);
    assert [c][..0] + [c][1..] == [];
    DeleteCharDoc(lexer, t');
    NothingTyped(d);
  }

  /** Behind a lone character, backspace takes what follows too if the two look like a pair. */
  lemma BackspaceBehind<T, M>(lexer: Lexer<T, M>, d: Document, t: Editor<T, M>, c: Glyph)
    requires Valid(d) && t.doc == WithTyped(d, [c], 1)
    ensures Valid(t.doc)
    ensures UserInputDelete(lexer, t).doc == d <==> !LooksClosed(d, c.text[0])
  {
    LineWithTyped(d, [c], 1);
    DeleteTyped(d, [c], 1);
    assert [c][..0] + [c][1..] == [];
    NothingTyped(d);
    if LooksClosed(d, c.text[0]) {
      BackspaceTakesTwo(lexer, d, t, c);
    } else {
      DeleteCharDoc(lexer, t);
    }
  }

  /** What follows the cursor begins like the partner of `c`. */
  predicate LooksClosed(d: Document, c: char)
    requires d.cursorLine < |d.lines|
  {
    c in {'(', '[', '{', '"', '\''} && CharAt(d).Some? && CharAt(d).value.text[0] == Closer(c)
  }

  lemma BackspaceTakesTwo<T, M>(lexer: Lexer<T, M>, d: Document, t: Editor<T, M>, c: Glyph)
    requires Valid(d) && t.doc == WithTyped(d, [c], 1) && Valid(t.doc) && LooksClosed(d, c.text[0])
    ensures |CurrentLine(UserInputDelete(lexer, t).doc)| == |CurrentLine(d)| - 1
  {
    LineWithTyped(d, [c], 1);
    var t1 := t.(doc := MoveRight(t.doc));
    DeleteCharDoc(lexer, t1);
    var t2 := DeleteChar(lexer, t1);
    DeleteCharDoc(lexer, t2);
  }

  /** Typing over a closing bracket or a quote only moves the cursor, and backspace removes what was there before. */
  lemma {:induction false} BackspaceBehindSkipped<T, M>(lexer: Lexer<T, M>, segment: Segment, e: Editor<T, M>, s: string)
    requires Valid(e.doc) && Skips(e.doc, s)
    ensures UserInputChar(lexer, segment, e, s) == e.(doc := MoveRight(e.doc))
    ensures |CurrentLine(UserInputDelete(lexer, e.(doc := MoveRight(e.doc))).doc)| < |CurrentLine(e.doc)|
  {
    var t := e.(doc := MoveRight(e.doc));
    DeleteCharDoc(lexer, t);
    if !AtLineEnd(t.doc) && BetweenPair(t.doc) {
      var t1 := t.(doc := MoveRight(t.doc));
      DeleteCharDoc(lexer, t1);
      DeleteCharDoc(lexer, DeleteChar(lexer, t1));
    }
  }

  /** Backspace undoes a character just typed, its partner and all, exactly when it was not typed over the same one
      and the cursor did not stand before its partner with a combining mark. */
  lemma BackspaceUndoesTypingIff<T, M>(lexer: Lexer<T, M>, segment: Segment, e: Editor<T, M>, s: string)
    requires Valid(e.doc) && IsSingleAsciiWidth1(s)
    ensures Valid(UserInputChar(lexer, segment, e, s).doc)
    ensures UserInputDelete(lexer, UserInputChar(lexer, segment, e, s)).doc == e.doc <==>
            !Skips(e.doc, s) && !(Pairs(s) && FalseCloser(e.doc, s[0]))
  {
    var c, z: Glyph := Cluster(s, 1), Cluster([Closer(s[0])], 1);
    var t := UserInputChar(lexer, segment, e, s);
    if Skips(e.doc, s) {
      BackspaceBehindSkipped(lexer, segment, e, s);
    } else if !Pairs(s) {
      TypedOther(lexer, segment, e, s);
      BackspaceBehind(lexer, e.doc, t, c);
      PairsByFirst(s);
    } else {
      TypedPair(lexer, segment, e, s);
      if ShouldAutoPair(e.doc) {
        BackspaceInPair(lexer, e.doc, t, c, z);
      } else {
        BackspaceBehind(lexer, e.doc, t, c);
        LoneCloserIsFalse(e.doc, s);
      }
    }
  }

  /** A partner behind the cursor that is neither skipped nor lets brackets be paired carries a mark. */
  lemma LoneCloserIsFalse(d: Document, s: string)
    requires Valid(d) && Pairs(s) && !Skips(d, s) && !ShouldAutoPair(d)
    ensures LooksClosed(d, s[0]) <==> FalseCloser(d, s[0])
  {
    PairsByFirst(s);
    assert s == [s[0]];
    if CharAt(d).Some? {
      var text := CharAt(d).value.text;
      assert |text| == 1 ==> text == [text[0]];
    }
  }

  lemma PairsByFirst(s: string)
    requires |s| == 1
    ensures Pairs(s) <==> s[0] in {'(', '[', '{', '"', '\''}
  {
    assert s == [s[0]];
  }

  /** In Normal mode the undo is complete: text, cursor and cache. */
  lemma BackspaceUndoesTyping<T, M>(lexer: Lexer<T, M>, segment: Segment, e: Editor<T, M>, s: string)
    requires Valid(e.doc) && IsSingleAsciiWidth1(s) && !Skips(e.doc, s) && !(Pairs(s) && FalseCloser(e.doc, s[0]))
    requires e.mode.Normal? && CacheFollows(lexer, e)
    ensures Valid(UserInputChar(lexer, segment, e, s).doc)
    ensures UserInputDelete(lexer, UserInputChar(lexer, segment, e, s)) == e
  {
    BackspaceUndoesTypingIff(lexer, segment, e, s);
    UserInputFollows(lexer, segment, e, s);
    UserDeleteFollows(lexer, UserInputChar(lexer, segment, e, s));
    CreateIsLexing(lexer, e.doc.lines, e.lexCache);
    CreateIsLexing(lexer, e.doc.lines, UserInputDelete(lexer, UserInputChar(lexer, segment, e, s)).lexCache);
  }

  /** A closing bracket with an acute accent, in three bytes. */
  const ACCENTED: Glyph := Cluster([')', 0xCC as char, 0x81 as char], 1)

  /** Backspace right after an opening bracket was typed before that: the line is empty afterwards. */
  lemma BackspaceTakesTheMark<T, M>(lexer: Lexer<T, M>, segment: Segment, e: Editor<T, M>)
    requires e.doc == Document([[ACCENTED]], 0, 0)
    ensures Valid(UserInputChar(lexer, segment, e, "(").doc)
    ensures CurrentLine(UserInputDelete(lexer, UserInputChar(lexer, segment, e, "(")).doc) == []
  {
    var t := UserInputChar(lexer, segment, e, "(");
    TypedPair(lexer, segment, e, "(");
    LineWithTyped(e.doc, [Cluster("(", 1)], 1);
    BackspaceTakesTwo(lexer, e.doc, t, Cluster("(", 1));
  }
}
