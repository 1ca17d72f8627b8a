/**
  Laying out Markdown text (lib/md_layout.ml): styled runs are broken into words at spaces, words are wrapped
  greedily under two prefixes, and table columns are capped to share a budget.
*/
module MdLayout {
  import opened Numbers
  import opened Strings

  datatype Emphasis = Emphasis(italic: bool, bold: bool, strike: bool)

  datatype Role = Body | Heading(level: int) | Quote | CodeSpan | Link(dest: string) | Marker

  datatype Style = Style(role: Role, emphasis: Emphasis)

  datatype Span = Span(style: Style, text: string)

  /** The display width of text. */
  type Measure = string -> nat

  function Plain(text: string): Span {
    Span(Style(Body, Emphasis(false, false, false)), text)
  }

  function WidthOfSpans(measure: Measure, spans: seq<Span>): nat {
    if spans == [] then 0
    else
      var last := |spans| - 1;
      WidthOfSpans(measure, spans[..last]) + measure(spans[last].text)
  }

  lemma {:induction false} WidthOfConcat(measure: Measure, a: seq<Span>, b: seq<Span>)
    ensures WidthOfSpans(measure, a + b) == WidthOfSpans(measure, a) + WidthOfSpans(measure, b)
  {
    if b == [] {
      assert a + b == a;
    } else {
      var last := |b| - 1;
      assert (a + b)[..|a + b| - 1] == a + b[..last];
      WidthOfConcat(measure, a, b[..last]);
    }
  }

  // ------------------------------------------------------------------------- words

  datatype WordBase = WordBase(pieces: seq<Span>, width: nat)

  /** A word is never without pieces. */
  type Word = w: WordBase | w.pieces != [] witness WordBase([Plain("x")], 1)

  /** The finished words, and the pieces and the width of the word under construction. */
  datatype Breaking = Breaking(words: seq<Word>, pieces: seq<Span>, width: nat)

  function Flush(b: Breaking): Breaking {
    Breaking(if b.pieces == [] then b.words else b.words + [WordBase(b.pieces, b.width)], [], 0)
  }

  function AddPart(measure: Measure, b: Breaking, style: Style, part: string, spaceBefore: bool): Breaking {
    var b := if spaceBefore then Flush(b) else b;
    if part == "" then b else Breaking(b.words, b.pieces + [Span(style, part)], b.width + measure(part))
  }

  /** The first `n` parts of a run have been added. */
  function AddParts(measure: Measure, b: Breaking, style: Style, parts: seq<string>, n: nat): Breaking
    requires n <= |parts|
  {
    if n == 0 then b else AddPart(measure, AddParts(measure, b, style, parts, n - 1), style, parts[n - 1], n > 1)
  }

  function AddRun(measure: Measure, b: Breaking, run: Span): Breaking {
    var parts := Split(run.text, ' ');
    AddParts(measure, b, run.style, parts, |parts|)
  }

  function AddRuns(measure: Measure, runs: seq<Span>): Breaking {
    if runs == [] then Breaking([], [], 0)
    else
      var last := |runs| - 1;
      AddRun(measure, AddRuns(measure, runs[..last]), runs[last])
  }

  function WordsOf(measure: Measure, runs: seq<Span>): seq<Word> {
    Flush(AddRuns(measure, runs)).words
  }

  method WordsOfRuns(measure: Measure, runs: seq<Span>) returns (words: seq<Word>)
    ensures words == WordsOf(measure, runs)
  {
    words := [];
    var cur: seq<Span>, curWidth: nat := [], 0;
    for k := 0 to |runs|
      invariant Breaking(words, cur, curWidth) == AddRuns(measure, runs[..k])
    {
      var style, parts := runs[k].style, Split(runs[k].text, ' ');
      for i := 0 to |parts|
        invariant Breaking(words, cur, curWidth) == AddParts(measure, AddRuns(measure, runs[..k]), style, parts, i)
      {
        if i > 0 {
          if cur != [] {
            words := words + [WordBase(cur, curWidth)];
          }
          cur, curWidth := [], 0;
        }
        if parts[i] != "" {
          cur, curWidth := cur + [Span(style, parts[i])], curWidth + measure(parts[i]);
        }
      }
      assert runs[..k + 1][..k] == runs[..k];
    }
    assert runs[..|runs|] == runs;
    if cur != [] {
      words := words + [WordBase(cur, curWidth)];
    }
  }

  // ----------------------------------------------- what the words are, character by character

  datatype StyledChar = StyledChar(style: Style, c: char)

  function Chars(style: Style, text: string): seq<StyledChar> {
    seq(|text|, i requires 0 <= i < |text| => StyledChar(style, text[i]))
  }

  function CharsOf(spans: seq<Span>): seq<StyledChar> {
    if spans == [] then []
    else
      var last := |spans| - 1;
      CharsOf(spans[..last]) + Chars(spans[last].style, spans[last].text)
  }

  datatype Scanned = Scanned(words: seq<seq<StyledChar>>, cur: seq<StyledChar>)

  function EndWord(s: Scanned): Scanned {
    if s.cur == [] then s else Scanned(s.words + [s.cur], [])
  }

  function Step(s: Scanned, c: StyledChar): Scanned {
    if c.c == ' ' then EndWord(s) else Scanned(s.words, s.cur + [c])
  }

  function Scan(s: Scanned, chars: seq<StyledChar>): Scanned
    decreases |chars|
  {
    if chars == [] then s
    else Scan(Step(s, chars[0]), chars[1..])
  }

  /** The words of a text: the stretches between its spaces that are not empty. */
  function Breaks(chars: seq<StyledChar>): seq<seq<StyledChar>> {
    EndWord(Scan(Scanned([], []), chars)).words
  }

  function Texts(words: seq<Word>): seq<seq<StyledChar>> {
    seq(|words|, i requires 0 <= i < |words| => CharsOf(words[i].pieces))
  }

  lemma {:induction false} ScanConcat(s: Scanned, a: seq<StyledChar>, b: seq<StyledChar>)
    ensures Scan(s, a + b) == Scan(Scan(s, a), b)
    decreases |a|
  {
    if a == [] {
      assert a + b == b;
    } else {
      assert (a + b)[1..] == a[1..] + b;
      ScanConcat(Step(s, a[0]), a[1..], b);
    }
  }

  lemma {:induction false} ScanSpaceless(s: Scanned, chars: seq<StyledChar>)
    requires forall i :: 0 <= i < |chars| ==> chars[i].c != ' '
    ensures Scan(s, chars) == Scanned(s.words, s.cur + chars)
    decreases |chars|
  {
    if chars == [] {
      assert s.cur + chars == s.cur;
    } else {
      ScanSpaceless(Scanned(s.words, s.cur + [chars[0]]), chars[1..]);
      assert s.cur + [chars[0]] + chars[1..] == s.cur + chars;
    }
  }

  function Abstract(b: Breaking): Scanned {
    Scanned(Texts(b.words), CharsOf(b.pieces))
  }

  /** What every step keeps: pieces are not empty, and widths are what the pieces measure. */
  ghost predicate Sound(measure: Measure, pieces: seq<Span>, width: nat) {
    && width == WidthOfSpans(measure, pieces)
    && forall i :: 0 <= i < |pieces| ==> pieces[i].text != "" && ' ' !in pieces[i].text
  }

  ghost predicate AllSound(measure: Measure, words: seq<Word>) {
    forall i :: 0 <= i < |words| ==> Sound(measure, words[i].pieces, words[i].width)
  }

  ghost predicate Kept(measure: Measure, b: Breaking) {
    AllSound(measure, b.words) && Sound(measure, b.pieces, b.width)
  }

  lemma FlushEndsWord(measure: Measure, b: Breaking)
    requires Kept(measure, b)
    ensures Kept(measure, Flush(b)) && Abstract(Flush(b)) == EndWord(Abstract(b))
  {
    if b.pieces != [] {
      assert CharsOf(b.pieces) != [];
      assert Texts(b.words + [WordBase(b.pieces, b.width)]) == Texts(b.words) + [CharsOf(b.pieces)];
    }
  }

  function Space(style: Style, present: bool): seq<StyledChar> {
    if present then [StyledChar(style, ' ')] else []
  }

  lemma {:induction false} SoundSnoc(measure: Measure, pieces: seq<Span>, width: nat, piece: Span)
    requires Sound(measure, pieces, width) && piece.text != "" && ' ' !in piece.text
    ensures Sound(measure, pieces + [piece], width + measure(piece.text))
    ensures CharsOf(pieces + [piece]) == CharsOf(pieces) + Chars(piece.style, piece.text)
  {
    assert (pieces + [piece])[..|pieces|] == pieces;
  }

  lemma {:induction false} AddPartKeeps(measure: Measure, b: Breaking, style: Style, part: string, spaceBefore: bool)
    requires Kept(measure, b) && ' ' !in part
    ensures Kept(measure, AddPart(measure, b, style, part, spaceBefore))
  {
    var flushed := if spaceBefore then Flush(b) else b;
    FlushEndsWord(measure, b);
    if part != "" {
      SoundSnoc(measure, flushed.pieces, flushed.width, Span(style, part));
    }
  }

  lemma {:induction false} AddPartScans(measure: Measure, b: Breaking, style: Style, part: string, spaceBefore: bool)
    requires Kept(measure, b) && ' ' !in part
    ensures Abstract(AddPart(measure, b, style, part, spaceBefore)) == Scan(Abstract(b), Space(style, spaceBefore) + Chars(style, part))
  {
    var flushed := if spaceBefore then Flush(b) else b;
    FlushEndsWord(measure, b);
    ScanConcat(Abstract(b), Space(style, spaceBefore), Chars(style, part));
    assert Scan(Abstract(b), Space(style, spaceBefore)) == Abstract(flushed);
    ScanSpaceless(Abstract(flushed), Chars(style, part));
    if part != "" {
      SoundSnoc(measure, flushed.pieces, flushed.width, Span(style, part));
    } else {
      assert CharsOf(flushed.pieces) + Chars(style, part) == CharsOf(flushed.pieces);
    }
  }

  lemma {:induction false} JoinSnoc(parts: seq<string>, part: string, sep: char)
    requires parts != []
    ensures Join(parts + [part], sep) == Join(parts, sep) + [sep] + part
  {
    assert (parts + [part])[1..] == parts[1..] + [part];
    if |parts| > 1 {
      JoinSnoc(parts[1..], part, sep);
    }
  }

  lemma {:induction false} AddPartsScans(measure: Measure, b: Breaking, style: Style, parts: seq<string>, n: nat)
    requires Kept(measure, b) && n <= |parts|
    requires forall i :: 0 <= i < |parts| ==> ' ' !in parts[i]
    ensures
      var b' := AddParts(measure, b, style, parts, n);
      Kept(measure, b') && Abstract(b') == Scan(Abstract(b), Chars(style, Join(parts[..n], ' ')))
  {
    if n > 0 {
      AddPartsScans(measure, b, style, parts, n - 1);
      AddPartKeeps(measure, AddParts(measure, b, style, parts, n - 1), style, parts[n - 1], n > 1);
      AddPartScans(measure, AddParts(measure, b, style, parts, n - 1), style, parts[n - 1], n > 1);
      var before := Chars(style, Join(parts[..n - 1], ' '));
      var after := Space(style, n > 1) + Chars(style, parts[n - 1]);
      ScanConcat(Abstract(b), before, after);
      CharsJoined(style, parts, n);
    }
  }

  lemma CharsJoined(style: Style, parts: seq<string>, n: nat)
    requires 0 < n <= |parts|
    ensures Chars(style, Join(parts[..n], ' '))
         == Chars(style, Join(parts[..n - 1], ' ')) + (Space(style, n > 1) + Chars(style, parts[n - 1]))
  {
    assert parts[..n] == parts[..n - 1] + [parts[n - 1]];
    if n > 1 {
      JoinSnoc(parts[..n - 1], parts[n - 1], ' ');
    }
  }

  lemma {:induction false} AddRunsScans(measure: Measure, runs: seq<Span>)
    ensures
      var b := AddRuns(measure, runs);
      Kept(measure, b) && Abstract(b) == Scan(Scanned([], []), CharsOf(runs))
  {
    if runs != [] {
      var last := |runs| - 1;
      AddRunsScans(measure, runs[..last]);
      var parts := Split(runs[last].text, ' ');
      AddPartsScans(measure, AddRuns(measure, runs[..last]), runs[last].style, parts, |parts|);
      assert parts[..|parts|] == parts;
      JoinSplit(runs[last].text, ' ');
      ScanConcat(Scanned([], []), CharsOf(runs[..last]), Chars(runs[last].style, runs[last].text));
    }
  }

  /** The words are the stretches between the spaces of the styled text, wherever its runs begin and end; none of
      their pieces is empty or holds a space, and each is as wide as its pieces. */
  lemma WordsAreTheBreaks(measure: Measure, runs: seq<Span>)
    ensures Texts(WordsOf(measure, runs)) == Breaks(CharsOf(runs))
    ensures AllSound(measure, WordsOf(measure, runs))
  {
    AddRunsScans(measure, runs);
    FlushEndsWord(measure, AddRuns(measure, runs));
  }

  // ---------------------------------------------------------------------- wrapping

  /** The columns words take up with single spaces between them. */
  function LineWidth(ws: seq<Word>): nat {
    if ws == [] then 0
    else if |ws| == 1 then ws[0].width
    else
      var last := |ws| - 1;
      LineWidth(ws[..last]) + 1 + ws[last].width
  }

  /** How far the line reaches that holds `w` columns and at least a word, from word `i` on. */
  function Fill(words: seq<Word>, avail: int, i: nat, w: nat): (end: nat)
    requires i <= |words|
    ensures i <= end <= |words|
    decreases |words| - i
  {
    if i == |words| || w + 1 + words[i].width > avail then i else Fill(words, avail, i + 1, w + 1 + words[i].width)
  }

  /** The words of each line, from word `start` on. */
  function Groups(words: seq<Word>, firstAvail: int, contAvail: int, start: nat): seq<seq<Word>>
    requires start <= |words|
    decreases |words| - start
  {
    if start == |words| then []
    else
      var end := Fill(words, firstAvail, start + 1, words[start].width);
      [words[start..end]] + Groups(words, contAvail, contAvail, end)
  }

  function Spaced(ws: seq<Word>): seq<Span> {
    if ws == [] then []
    else if |ws| == 1 then ws[0].pieces
    else
      var last := |ws| - 1;
      Spaced(ws[..last]) + [Plain(" ")] + ws[last].pieces
  }

  function Lines(groups: seq<seq<Word>>, firstPrefix: seq<Span>, contPrefix: seq<Span>): seq<seq<Span>> {
    seq(|groups|, i requires 0 <= i < |groups| => (if i == 0 then firstPrefix else contPrefix) + Spaced(groups[i]))
  }

  /** What leads a line, and how many columns that leaves to its words. */
  datatype Room = Room(firstPrefix: seq<Span>, contPrefix: seq<Span>, firstAvail: int, contAvail: int) {
    function Avail(lineIdx: nat): int {
      if lineIdx == 0 then firstAvail else contAvail
    }

    function Prefix(lineIdx: nat): seq<Span> {
      if lineIdx == 0 then firstPrefix else contPrefix
    }
  }

  function RoomFor(measure: Measure, width: int, firstPrefix: seq<Span>, contPrefix: seq<Span>): Room {
    Room(firstPrefix, contPrefix, width - WidthOfSpans(measure, firstPrefix), width - WidthOfSpans(measure, contPrefix))
  }

  function AllGroups(words: seq<Word>, room: Room): seq<seq<Word>> {
    Groups(words, room.firstAvail, room.contAvail, 0)
  }

  /** Without words there is one line, the first prefix alone. */
  function Wrapped(words: seq<Word>, room: Room): seq<seq<Span>> {
    var groups := AllGroups(words, room);
    if groups == [] then [room.firstPrefix] else Lines(groups, room.firstPrefix, room.contPrefix)
  }

  lemma SpacedSnoc(words: seq<Word>, start: nat, k: nat)
    requires start < k < |words|
    ensures Spaced(words[start..k + 1]) == Spaced(words[start..k]) + [Plain(" ")] + words[k].pieces
    ensures LineWidth(words[start..k + 1]) == LineWidth(words[start..k]) + 1 + words[k].width
  {
    assert words[start..k + 1][..k - start] == words[start..k];
  }

  lemma LinesSnoc(groups: seq<seq<Word>>, group: seq<Word>, firstPrefix: seq<Span>, contPrefix: seq<Span>)
    ensures Lines(groups + [group], firstPrefix, contPrefix) ==
            Lines(groups, firstPrefix, contPrefix) + [(if groups == [] then firstPrefix else contPrefix) + Spaced(group)]
  {
  }

  lemma {:induction false} SpacedNotEmpty(ws: seq<Word>)
    requires ws != []
    ensures Spaced(ws) != []
  {
  }

  /** How far the wrapping has come: the finished lines, and the spans and the width of the current line. */
  datatype Progress = Progress(lines: seq<seq<Span>>, cur: seq<Span>, curWidth: nat)

  function Place(room: Room, p: Progress, w: Word): Progress {
    if p.cur == [] then Progress(p.lines, w.pieces, p.curWidth + w.width)
    else if p.curWidth + 1 + w.width > room.Avail(|p.lines|) then
      Progress(p.lines + [room.Prefix(|p.lines|) + p.cur], w.pieces, w.width)
    else Progress(p.lines, p.cur + [Plain(" ")] + w.pieces, p.curWidth + 1 + w.width)
  }

  function PlaceFirst(room: Room, words: seq<Word>, n: nat): Progress
    requires n <= |words|
  {
    if n == 0 then Progress([], [], 0) else Place(room, PlaceFirst(room, words, n - 1), words[n - 1])
  }

  function Close(room: Room, p: Progress): seq<seq<Span>> {
    if p.cur != [] || p.lines == [] then p.lines + [room.Prefix(|p.lines|) + p.cur] else p.lines
  }

  /** Word `k` is next: `groups` are the lines done, and the current line began at word `start`. */
  ghost predicate Underway(room: Room, words: seq<Word>, p: Progress, groups: seq<seq<Word>>, start: nat, k: nat) {
    && start <= k <= |words|
    && (start == k ==> k == 0 && groups == [])
    && p.curWidth == LineWidth(words[start..k])
    && p.cur == Spaced(words[start..k])
    && p.lines == Lines(groups, room.firstPrefix, room.contPrefix)
    && (start < k ==> Fill(words, room.Avail(|groups|), start + 1, words[start].width) == Fill(words, room.Avail(|groups|), k, p.curWidth))
    && Groups(words, room.firstAvail, room.contAvail, 0) == groups + Groups(words, room.Avail(|groups|), room.contAvail, start)
  }

  lemma Started(room: Room, words: seq<Word>, p: Progress, groups: seq<seq<Word>>, start: nat, k: nat)
    requires Underway(room, words, p, groups, start, k)
    ensures p.cur != [] <==> start < k
    ensures |p.lines| == |groups|
  {
    if start < k {
      SpacedNotEmpty(words[start..k]);
    }
  }

  lemma GoOn(room: Room, words: seq<Word>, p: Progress, groups: seq<seq<Word>>, start: nat, k: nat)
    requires Underway(room, words, p, groups, start, k) && start < k < |words|
    requires p.curWidth + 1 + words[k].width <= room.Avail(|groups|)
    ensures Underway(room, words, Progress(p.lines, p.cur + [Plain(" ")] + words[k].pieces, p.curWidth + 1 + words[k].width), groups, start, k + 1)
  {
    SpacedSnoc(words, start, k);
  }

  lemma Break(room: Room, words: seq<Word>, p: Progress, groups: seq<seq<Word>>, start: nat, k: nat)
    requires Underway(room, words, p, groups, start, k) && start < k < |words|
    requires p.curWidth + 1 + words[k].width > room.Avail(|groups|)
    ensures Underway(room, words, Progress(p.lines + [room.Prefix(|groups|) + p.cur], words[k].pieces, words[k].width),
                     groups + [words[start..k]], k, k + 1)
  {
    GroupsStep(words, room.Avail(|groups|), room.contAvail, groups, start, k);
    LinesSnoc(groups, words[start..k], room.firstPrefix, room.contPrefix);
    assert words[k..k + 1] == [words[k]];
  }

  lemma {:induction false} PlaceFirstUnderway(room: Room, words: seq<Word>, k: nat) returns (groups: seq<seq<Word>>, start: nat)
    requires k <= |words|
    ensures Underway(room, words, PlaceFirst(room, words, k), groups, start, k)
  {
    groups, start := [], 0;
    if k > 0 {
      var p := PlaceFirst(room, words, k - 1);
      groups, start := PlaceFirstUnderway(room, words, k - 1);
      Started(room, words, p, groups, start, k - 1);
      if p.cur == [] {
        assert words[0..1] == [words[0]];
      } else if p.curWidth + 1 + words[k - 1].width > room.Avail(|groups|) {
        Break(room, words, p, groups, start, k - 1);
        groups, start := groups + [words[start..k - 1]], k - 1;
      } else {
        GoOn(room, words, p, groups, start, k - 1);
      }
    }
  }

  lemma GroupsStep(words: seq<Word>, avail: int, contAvail: int, groups: seq<seq<Word>>, start: nat, end: nat)
    requires start < end <= |words| && end == Fill(words, avail, start + 1, words[start].width)
    ensures groups + Groups(words, avail, contAvail, start) == groups + [words[start..end]] + Groups(words, contAvail, contAvail, end)
  {
  }

  /** Placing word after word gives the greedy lines. */
  lemma PlacingIsGreedy(room: Room, words: seq<Word>)
    ensures Close(room, PlaceFirst(room, words, |words|)) == Wrapped(words, room)
  {
    var p := PlaceFirst(room, words, |words|);
    var groups, start := PlaceFirstUnderway(room, words, |words|);
    Started(room, words, p, groups, start, |words|);
    if start < |words| {
      LinesSnoc(groups, words[start..|words|], room.firstPrefix, room.contPrefix);
      GroupsStep(words, room.Avail(|groups|), room.contAvail, groups, start, |words|);
      assert Groups(words, room.firstAvail, room.contAvail, 0) == groups + [words[start..|words|]];
    } else {
      assert Groups(words, room.firstAvail, room.contAvail, 0) == [];
      assert room.firstPrefix + [] == room.firstPrefix;
    }
  }

  method WrapWords(measure: Measure, width: int, firstPrefix: seq<Span>, contPrefix: seq<Span>, words: seq<Word>)
    returns (lines: seq<seq<Span>>)
    ensures lines == Wrapped(words, RoomFor(measure, width, firstPrefix, contPrefix))
    ensures measure(" ") == 1 && AllSound(measure, words) ==> ShortestWrapping(measure, width, firstPrefix, contPrefix, words, lines)
  {
    var room := RoomFor(measure, width, firstPrefix, contPrefix);
    lines := [];
    var cur: seq<Span>, curWidth: nat, lineIdx: nat := [], 0, 0;
    for k := 0 to |words|
      invariant Progress(lines, cur, curWidth) == PlaceFirst(room, words, k) && lineIdx == |lines|
    {
      var started := cur != [];
      var sep := if started then 1 else 0;
      if started && curWidth + sep + words[k].width > room.Avail(lineIdx) {
        lines := lines + [room.Prefix(lineIdx) + cur];
        lineIdx := lineIdx + 1;
        cur, curWidth := [], 0;
      }
      if cur != [] {
        cur, curWidth := cur + [Plain(" ")], curWidth + 1;
      }
      cur, curWidth := cur + words[k].pieces, curWidth + words[k].width;
      assert [] + words[k].pieces == words[k].pieces;
    }
    PlacingIsGreedy(room, words);
    if cur != [] || lineIdx == 0 {
      lines := lines + [room.Prefix(lineIdx) + cur];
    }
    if measure(" ") == 1 && AllSound(measure, words) {
      WrappedIsShortest(measure, width, firstPrefix, contPrefix, words);
    }
  }

  // --------------------------------------------------- greedy wrapping is a layout, and a shortest one

  function Concat(groups: seq<seq<Word>>): seq<Word> {
    if groups == [] then [] else groups[0] + Concat(groups[1..])
  }

  ghost predicate LineOk(ws: seq<Word>, avail: int) {
    ws != [] && (LineWidth(ws) <= avail || |ws| == 1)
  }

  /** Lines of the words, in order, none empty, each within its room or a single word. */
  ghost predicate Layout(groups: seq<seq<Word>>, words: seq<Word>, firstAvail: int, contAvail: int) {
    && Concat(groups) == words
    && forall i :: 0 <= i < |groups| ==> LineOk(groups[i], if i == 0 then firstAvail else contAvail)
  }

  /** `Fill` reaches as far as the room allows. */
  lemma {:induction false} FillIsFurthest(words: seq<Word>, avail: int, start: nat, i: nat)
    requires start < i <= |words| && (i == start + 1 || LineWidth(words[start..i]) <= avail)
    ensures
      var end := Fill(words, avail, i, LineWidth(words[start..i]));
      && (end == start + 1 || LineWidth(words[start..end]) <= avail)
      && (end < |words| ==> LineWidth(words[start..end + 1]) > avail)
    decreases |words| - i
  {
    if i < |words| {
      SpacedSnoc(words, start, i);
      if LineWidth(words[start..i + 1]) <= avail {
        FillIsFurthest(words, avail, start, i + 1);
      }
    }
  }

  lemma FirstFill(words: seq<Word>, avail: int, start: nat)
    requires start < |words|
    ensures
      var end := Fill(words, avail, start + 1, words[start].width);
      && LineOk(words[start..end], avail)
      && (end < |words| ==> LineWidth(words[start..end + 1]) > avail)
  {
    assert words[start..start + 1] == [words[start]];
    FillIsFurthest(words, avail, start, start + 1);
  }

  lemma {:induction false} GroupsIsLayout(words: seq<Word>, firstAvail: int, contAvail: int, start: nat)
    requires start <= |words|
    ensures Layout(Groups(words, firstAvail, contAvail, start), words[start..], firstAvail, contAvail)
    decreases |words| - start
  {
    if start < |words| {
      var end := Fill(words, firstAvail, start + 1, words[start].width);
      FirstFill(words, firstAvail, start);
      GroupsIsLayout(words, contAvail, contAvail, end);
      LayoutCons(words[start..end], Groups(words, contAvail, contAvail, end), words[end..], firstAvail, contAvail);
      assert words[start..end] + words[end..] == words[start..];
    }
  }

  lemma LayoutCons(group: seq<Word>, groups: seq<seq<Word>>, words: seq<Word>, firstAvail: int, contAvail: int)
    requires LineOk(group, firstAvail) && Layout(groups, words, contAvail, contAvail)
    ensures Layout([group] + groups, group + words, firstAvail, contAvail)
  {
    assert ([group] + groups)[1..] == groups;
  }

  lemma {:induction false} LessAfter(words: seq<Word>, a: nat, c: nat, d: nat)
    requires a < c <= d <= |words|
    ensures LineWidth(words[a..c]) <= LineWidth(words[a..d])
    decreases d - c
  {
    if c < d {
      SpacedSnoc(words, a, d - 1);
      LessAfter(words, a, c, d - 1);
    }
  }

  lemma {:induction false} LessBefore(words: seq<Word>, a: nat, b: nat, c: nat)
    requires a <= b < c <= |words|
    ensures LineWidth(words[b..c]) <= LineWidth(words[a..c])
    decreases c
  {
    if b < c - 1 {
      SpacedSnoc(words, b, c - 1);
      SpacedSnoc(words, a, c - 1);
      LessBefore(words, a, b, c - 1);
    } else {
      assert words[b..c] == [words[b]];
      if a < b {
        SpacedSnoc(words, a, b);
      }
    }
  }

  /** Greedy filling that starts no earlier than a line of another layout ends no earlier than that line. */
  lemma FillStaysAhead(words: seq<Word>, avail: int, behind: nat, start: nat, reached: nat)
    requires behind <= start < |words| && behind < reached <= |words| && LineOk(words[behind..reached], avail)
    ensures reached <= Fill(words, avail, start + 1, words[start].width)
  {
    var end := Fill(words, avail, start + 1, words[start].width);
    if end < reached {
      FirstFill(words, avail, start);
      LessAfter(words, start, end + 1, reached);
      LessBefore(words, behind, start, reached);
    }
  }

  lemma {:induction false} GreedyIsShortest(words: seq<Word>, firstAvail: int, contAvail: int, behind: nat, start: nat, groups: seq<seq<Word>>)
    requires behind <= start <= |words| && Layout(groups, words[behind..], firstAvail, contAvail)
    ensures |Groups(words, firstAvail, contAvail, start)| <= |groups|
    decreases |groups|
  {
    if start < |words| {
      assert groups != [];
      var reached := behind + |groups[0]|;
      LayoutTail(words, firstAvail, contAvail, behind, groups);
      FillStaysAhead(words, firstAvail, behind, start, reached);
      var end := Fill(words, firstAvail, start + 1, words[start].width);
      GreedyIsShortest(words, contAvail, contAvail, reached, end, groups[1..]);
    }
  }

  lemma LayoutTail(words: seq<Word>, firstAvail: int, contAvail: int, behind: nat, groups: seq<seq<Word>>)
    requires behind <= |words| && groups != [] && Layout(groups, words[behind..], firstAvail, contAvail)
    ensures
      var reached := behind + |groups[0]|;
      && behind < reached <= |words|
      && LineOk(words[behind..reached], firstAvail)
      && Layout(groups[1..], words[reached..], contAvail, contAvail)
  {
    var n := |groups[0]|;
    assert LineOk(groups[0], firstAvail);
    assert words[behind..][..n] == words[behind..behind + n] == groups[0];
    assert words[behind..][n..] == words[behind + n..] == Concat(groups[1..]);
    forall i | 0 <= i < |groups[1..]|
      ensures LineOk(groups[1..][i], contAvail)
    {
      assert groups[1..][i] == groups[i + 1];
    }
  }

  /** The lines keep the words in order, fit the room their prefix leaves or hold one word, and no layout with the
      same two rooms has fewer lines. */
  lemma WrappingIsShortestLayout(words: seq<Word>, firstAvail: int, contAvail: int)
    ensures
      var groups := Groups(words, firstAvail, contAvail, 0);
      && Layout(groups, words, firstAvail, contAvail)
      && forall other :: Layout(other, words, firstAvail, contAvail) ==> |groups| <= |other|
  {
    GreedyIsLayout(words, firstAvail, contAvail);
    forall other | Layout(other, words, firstAvail, contAvail)
      ensures |Groups(words, firstAvail, contAvail, 0)| <= |other|
    {
      NoLayoutIsShorter(words, firstAvail, contAvail, other);
    }
  }

  // -------------------------------------------------------------- what the lines show

  lemma {:induction false} SpacedWidth(measure: Measure, ws: seq<Word>)
    requires measure(" ") == 1 && AllSound(measure, ws)
    ensures WidthOfSpans(measure, Spaced(ws)) == LineWidth(ws)
  {
    if |ws| > 1 {
      var last := |ws| - 1;
      SpacedWidth(measure, ws[..last]);
      assert Sound(measure, ws[last].pieces, ws[last].width);
      WidthOfConcat(measure, Spaced(ws[..last]), [Plain(" ")]);
      WidthOfConcat(measure, Spaced(ws[..last]) + [Plain(" ")], ws[last].pieces);
      assert [Plain(" ")][..0] == [];
    }
  }

  lemma {:induction false} GroupOfWords(groups: seq<seq<Word>>, i: nat)
    requires i < |groups|
    ensures forall w <- groups[i] :: w in Concat(groups)
  {
    if i > 0 {
      GroupOfWords(groups[1..], i - 1);
    }
  }

  lemma WrappedLine(words: seq<Word>, room: Room, i: nat)
    requires i < |AllGroups(words, room)|
    ensures |Wrapped(words, room)| == |AllGroups(words, room)|
    ensures Wrapped(words, room)[i] == room.Prefix(i) + Spaced(AllGroups(words, room)[i])
  {
  }

  /** On the screen, prefix included, a line is no wider than `width` unless it holds a single word. */
  lemma LinesFit(measure: Measure, runs: seq<Span>, width: int, firstPrefix: seq<Span>, contPrefix: seq<Span>, i: nat)
    requires measure(" ") == 1
    requires i < |AllGroups(WordsOf(measure, runs), RoomFor(measure, width, firstPrefix, contPrefix))|
    ensures
      var words, room := WordsOf(measure, runs), RoomFor(measure, width, firstPrefix, contPrefix);
      && |Wrapped(words, room)| == |AllGroups(words, room)|
      && Wrapped(words, room)[i] == room.Prefix(i) + Spaced(AllGroups(words, room)[i])
      && (WidthOfSpans(measure, Wrapped(words, room)[i]) <= width || |AllGroups(words, room)[i]| == 1)
  {
    var words, room := WordsOf(measure, runs), RoomFor(measure, width, firstPrefix, contPrefix);
    WordsAreTheBreaks(measure, runs);
    WrappedFits(measure, words, room, width, i);
  }

  lemma WrappedFits(measure: Measure, words: seq<Word>, room: Room, width: int, i: nat)
    requires measure(" ") == 1 && AllSound(measure, words) && i < |AllGroups(words, room)|
    requires room == RoomFor(measure, width, room.firstPrefix, room.contPrefix)
    ensures |Wrapped(words, room)| == |AllGroups(words, room)|
    ensures Wrapped(words, room)[i] == room.Prefix(i) + Spaced(AllGroups(words, room)[i])
    ensures WidthOfSpans(measure, Wrapped(words, room)[i]) <= width || |AllGroups(words, room)[i]| == 1
  {
    WrappedLine(words, room, i);
    WrappingIsShortestLayout(words, room.firstAvail, room.contAvail);
    var groups := AllGroups(words, room);
    GroupIsSound(measure, groups, i);
    assert LineOk(groups[i], if i == 0 then room.firstAvail else room.contAvail);
    LineFits(measure, groups[i], room.Prefix(i), width);
  }

  lemma {:induction false} GroupIsSound(measure: Measure, groups: seq<seq<Word>>, i: nat)
    requires i < |groups| && AllSound(measure, Concat(groups))
    ensures AllSound(measure, groups[i])
  {
    GroupOfWords(groups, i);
    forall j | 0 <= j < |groups[i]|
      ensures Sound(measure, groups[i][j].pieces, groups[i][j].width)
    {
      assert groups[i][j] in Concat(groups);
    }
  }

  lemma LineFits(measure: Measure, group: seq<Word>, prefix: seq<Span>, width: int)
    requires measure(" ") == 1 && AllSound(measure, group)
    requires LineOk(group, width - WidthOfSpans(measure, prefix))
    ensures WidthOfSpans(measure, prefix + Spaced(group)) <= width || |group| == 1
  {
    SpacedWidth(measure, group);
    WidthOfConcat(measure, prefix, Spaced(group));
  }

  // ------------------------------------------------- the same on the screen, in columns

  function LineOnScreen(firstPrefix: seq<Span>, contPrefix: seq<Span>, groups: seq<seq<Word>>, i: nat): seq<Span>
    requires i < |groups|
  {
    (if i == 0 then firstPrefix else contPrefix) + Spaced(groups[i])
  }

  /** The words in order, on lines of which each, with its prefix and single spaces, has at most `width` columns or
      holds one word. */
  ghost predicate Division(measure: Measure, width: int, firstPrefix: seq<Span>, contPrefix: seq<Span>, words: seq<Word>, groups: seq<seq<Word>>) {
    && Concat(groups) == words
    && forall i :: 0 <= i < |groups| ==>
         && groups[i] != []
         && (WidthOfSpans(measure, LineOnScreen(firstPrefix, contPrefix, groups, i)) <= width || |groups[i]| == 1)
  }

  /** `lines` shows such a division, than which none has fewer lines. */
  ghost predicate ShortestWrapping(measure: Measure, width: int, firstPrefix: seq<Span>, contPrefix: seq<Span>, words: seq<Word>, lines: seq<seq<Span>>) {
    exists groups ::
      && Division(measure, width, firstPrefix, contPrefix, words, groups)
      && ShowsGroups(firstPrefix, contPrefix, groups, lines)
      && forall other :: Division(measure, width, firstPrefix, contPrefix, words, other) ==> |groups| <= |other|
  }

  /** Without words there is a line all the same. */
  ghost predicate ShowsGroups(firstPrefix: seq<Span>, contPrefix: seq<Span>, groups: seq<seq<Word>>, lines: seq<seq<Span>>) {
    if groups == [] then lines == [firstPrefix]
    else |lines| == |groups| && forall i :: 0 <= i < |groups| ==> lines[i] == LineOnScreen(firstPrefix, contPrefix, groups, i)
  }

  lemma LineWidthOnScreen(measure: Measure, prefix: seq<Span>, ws: seq<Word>)
    requires measure(" ") == 1 && AllSound(measure, ws)
    ensures WidthOfSpans(measure, prefix + Spaced(ws)) == WidthOfSpans(measure, prefix) + LineWidth(ws)
  {
    SpacedWidth(measure, ws);
    WidthOfConcat(measure, prefix, Spaced(ws));
  }

  lemma {:induction false} DivisionIsLayout(measure: Measure, width: int, firstPrefix: seq<Span>, contPrefix: seq<Span>, words: seq<Word>,
                                            room: Room, groups: seq<seq<Word>>)
    requires measure(" ") == 1 && AllSound(measure, words) && room == RoomFor(measure, width, firstPrefix, contPrefix)
    ensures Division(measure, width, firstPrefix, contPrefix, words, groups) <==> Layout(groups, words, room.firstAvail, room.contAvail)
  {
    if Concat(groups) == words {
      forall i | 0 <= i < |groups|
        ensures WidthOfSpans(measure, LineOnScreen(firstPrefix, contPrefix, groups, i)) ==
                  WidthOfSpans(measure, if i == 0 then firstPrefix else contPrefix) + LineWidth(groups[i])
      {
        GroupIsSound(measure, groups, i);
        LineWidthOnScreen(measure, if i == 0 then firstPrefix else contPrefix, groups[i]);
      }
    }
  }

  lemma {:induction false} WrappedShows(words: seq<Word>, room: Room)
    ensures ShowsGroups(room.firstPrefix, room.contPrefix, AllGroups(words, room), Wrapped(words, room))
  {
    forall i | 0 <= i < |AllGroups(words, room)|
      ensures |Wrapped(words, room)| == |AllGroups(words, room)|
      ensures Wrapped(words, room)[i] == LineOnScreen(room.firstPrefix, room.contPrefix, AllGroups(words, room), i)
    {
      WrappedLine(words, room, i);
    }
  }

  lemma {:induction false} NoLayoutIsShorter(words: seq<Word>, firstAvail: int, contAvail: int, other: seq<seq<Word>>)
    requires Layout(other, words, firstAvail, contAvail)
    ensures |Groups(words, firstAvail, contAvail, 0)| <= |other|
  {
    assert words[0..] == words;
    GreedyIsShortest(words, firstAvail, contAvail, 0, 0, other);
  }

  lemma {:induction false} GreedyIsLayout(words: seq<Word>, firstAvail: int, contAvail: int)
    ensures Layout(Groups(words, firstAvail, contAvail, 0), words, firstAvail, contAvail)
  {
    assert words[0..] == words;
    GroupsIsLayout(words, firstAvail, contAvail, 0);
  }

  lemma {:induction false} GreedyDivides(measure: Measure, width: int, firstPrefix: seq<Span>, contPrefix: seq<Span>, words: seq<Word>, room: Room)
    requires measure(" ") == 1 && AllSound(measure, words) && room == RoomFor(measure, width, firstPrefix, contPrefix)
    ensures Division(measure, width, firstPrefix, contPrefix, words, AllGroups(words, room))
  {
    GreedyIsLayout(words, room.firstAvail, room.contAvail);
    DivisionIsLayout(measure, width, firstPrefix, contPrefix, words, room, AllGroups(words, room));
  }

  lemma {:induction false} NoDivisionIsShorter(measure: Measure, width: int, firstPrefix: seq<Span>, contPrefix: seq<Span>, words: seq<Word>,
                                               room: Room, other: seq<seq<Word>>)
    requires measure(" ") == 1 && AllSound(measure, words) && room == RoomFor(measure, width, firstPrefix, contPrefix)
    requires Division(measure, width, firstPrefix, contPrefix, words, other)
    ensures |AllGroups(words, room)| <= |other|
  {
    DivisionIsLayout(measure, width, firstPrefix, contPrefix, words, room, other);
    NoLayoutIsShorter(words, room.firstAvail, room.contAvail, other);
  }

  lemma {:induction false} WrappedIsShortest(measure: Measure, width: int, firstPrefix: seq<Span>, contPrefix: seq<Span>, words: seq<Word>)
    requires measure(" ") == 1 && AllSound(measure, words)
    ensures ShortestWrapping(measure, width, firstPrefix, contPrefix, words, Wrapped(words, RoomFor(measure, width, firstPrefix, contPrefix)))
  {
    var room := RoomFor(measure, width, firstPrefix, contPrefix);
    WrappedShows(words, room);
    GreedyDivides(measure, width, firstPrefix, contPrefix, words, room);
    forall other | Division(measure, width, firstPrefix, contPrefix, words, other)
      ensures |AllGroups(words, room)| <= |other|
    {
      NoDivisionIsShorter(measure, width, firstPrefix, contPrefix, words, room, other);
    }
  }

  /** What can be seen of a text: its characters but for the spaces. */
  function Ink(chars: seq<StyledChar>): seq<StyledChar> {
    if chars == [] then []
    else
      var last := |chars| - 1;
      if chars[last].c == ' ' then Ink(chars[..last]) else Ink(chars[..last]) + [chars[last]]
  }

  lemma {:induction false} InkConcat(a: seq<StyledChar>, b: seq<StyledChar>)
    ensures Ink(a + b) == Ink(a) + Ink(b)
  {
    if b == [] {
      assert a + b == a;
    } else {
      var last := |b| - 1;
      assert (a + b)[..|a + b| - 1] == a + b[..last];
      InkConcat(a, b[..last]);
    }
  }

  lemma CharsSnoc(spans: seq<Span>, span: Span)
    ensures CharsOf(spans + [span]) == CharsOf(spans) + Chars(span.style, span.text)
  {
    assert (spans + [span])[..|spans|] == spans;
  }

  lemma Assoc(a: seq<StyledChar>, b: seq<StyledChar>, c: seq<StyledChar>)
    ensures (a + b) + c == a + (b + c)
  {
  }

  lemma {:induction false} CharsConcat(a: seq<Span>, b: seq<Span>)
    ensures CharsOf(a + b) == CharsOf(a) + CharsOf(b)
  {
    if b == [] {
      assert a + b == a;
    } else {
      CharsConcat(a, b[..|b| - 1]);
      CharsConcatSnoc(a, b[..|b| - 1], b[|b| - 1]);
      assert b == b[..|b| - 1] + [b[|b| - 1]];
    }
  }

  lemma CharsConcatSnoc(a: seq<Span>, before: seq<Span>, span: Span)
    requires CharsOf(a + before) == CharsOf(a) + CharsOf(before)
    ensures CharsOf(a + (before + [span])) == CharsOf(a) + CharsOf(before + [span])
  {
    CharsSnoc(before, span);
    CharsSnoc(a + before, span);
    Assoc(CharsOf(a), CharsOf(before), Chars(span.style, span.text));
    assert a + (before + [span]) == a + before + [span];
  }

  function InkOfWords(words: seq<seq<StyledChar>>): seq<StyledChar> {
    if words == [] then []
    else
      var last := |words| - 1;
      InkOfWords(words[..last]) + Ink(words[last])
  }

  lemma {:induction false} InkOfWordsConcat(a: seq<seq<StyledChar>>, b: seq<seq<StyledChar>>)
    ensures InkOfWords(a + b) == InkOfWords(a) + InkOfWords(b)
  {
    if b == [] {
      assert a + b == a;
    } else {
      var last := |b| - 1;
      assert (a + b)[..|a + b| - 1] == a + b[..last];
      InkOfWordsConcat(a, b[..last]);
    }
  }

  lemma EndWordKeepsInk(s: Scanned)
    ensures InkOfWords(EndWord(s).words) + Ink(EndWord(s).cur) == InkOfWords(s.words) + Ink(s.cur)
  {
    if s.cur != [] {
      assert (s.words + [s.cur])[..|s.words|] == s.words;
    }
  }

  lemma {:induction false} StepKeepsInk(s: Scanned, c: StyledChar)
    ensures InkSoFar(Step(s, c)) == InkSoFar(s) + Ink([c])
  {
    EndWordKeepsInk(s);
    InkConcat(s.cur, [c]);
    assert [c][..0] == [];
  }

  /** All that has been seen so far. */
  function InkSoFar(s: Scanned): seq<StyledChar> {
    InkOfWords(s.words) + Ink(s.cur)
  }

  lemma {:induction false} ScanKeepsInk(s: Scanned, chars: seq<StyledChar>)
    ensures InkSoFar(Scan(s, chars)) == InkSoFar(s) + Ink(chars)
    decreases |chars|
  {
    if chars == [] {
      assert InkSoFar(s) + [] == InkSoFar(s);
    } else {
      StepKeepsInk(s, chars[0]);
      ScanKeepsInk(Step(s, chars[0]), chars[1..]);
      InkOfFirst(chars);
    }
  }

  lemma InkOfFirst(chars: seq<StyledChar>)
    requires chars != []
    ensures Ink(chars) == Ink([chars[0]]) + Ink(chars[1..])
  {
    InkConcat([chars[0]], chars[1..]);
    assert chars == [chars[0]] + chars[1..];
  }

  lemma BreaksKeepInk(chars: seq<StyledChar>)
    ensures InkOfWords(Breaks(chars)) == Ink(chars)
  {
    var t := Scan(Scanned([], []), chars);
    ScanKeepsInk(Scanned([], []), chars);
    EndWordKeepsInk(t);
    assert InkOfWords(EndWord(t).words) + [] == InkOfWords(EndWord(t).words);
  }

  lemma {:induction false} SpacedInk(ws: seq<Word>)
    ensures Ink(CharsOf(Spaced(ws))) == InkOfWords(Texts(ws))
  {
    if ws != [] {
      var last := |ws| - 1;
      SpacedInk(ws[..last]);
      assert Texts(ws)[..last] == Texts(ws[..last]);
      if last > 0 {
        InkBehindSpace(Spaced(ws[..last]), ws[last].pieces);
      } else {
        assert Texts(ws[..last]) == [];
      }
    }
  }

  lemma {:induction false} InkBehindSpace(before: seq<Span>, pieces: seq<Span>)
    ensures Ink(CharsOf(before + [Plain(" ")] + pieces)) == Ink(CharsOf(before)) + Ink(CharsOf(pieces))
  {
    InkOfBoth(before + [Plain(" ")], pieces);
    InkOfBoth(before, [Plain(" ")]);
    SpaceHasNoInk();
    assert Ink(CharsOf(before)) + [] == Ink(CharsOf(before));
  }

  lemma SpaceHasNoInk()
    ensures Ink(CharsOf([Plain(" ")])) == []
  {
    assert [Plain(" ")][..0] == [];
    var chars := CharsOf([Plain(" ")]);
    assert |chars| == 1 && chars[0].c == ' ' && chars[..0] == [];
  }

  function AllSpaced(groups: seq<seq<Word>>): seq<Span> {
    if groups == [] then [] else Spaced(groups[0]) + AllSpaced(groups[1..])
  }

  lemma {:induction false} InkOfBoth(a: seq<Span>, b: seq<Span>)
    ensures Ink(CharsOf(a + b)) == Ink(CharsOf(a)) + Ink(CharsOf(b))
  {
    CharsConcat(a, b);
    InkConcat(CharsOf(a), CharsOf(b));
  }

  lemma TextsOfBoth(a: seq<Word>, b: seq<Word>)
    ensures InkOfWords(Texts(a + b)) == InkOfWords(Texts(a)) + InkOfWords(Texts(b))
  {
    assert Texts(a + b) == Texts(a) + Texts(b);
    InkOfWordsConcat(Texts(a), Texts(b));
  }

  lemma {:induction false} AllSpacedInk(groups: seq<seq<Word>>)
    ensures Ink(CharsOf(AllSpaced(groups))) == InkOfWords(Texts(Concat(groups)))
  {
    if groups != [] {
      AllSpacedInk(groups[1..]);
      SpacedInk(groups[0]);
      InkOfBoth(Spaced(groups[0]), AllSpaced(groups[1..]));
      TextsOfBoth(groups[0], Concat(groups[1..]));
    }
  }

  /** Breaking and wrapping lose, add, move or restyle nothing that can be seen: after their prefixes the lines show
      the characters of the runs, each in its style and in order. */
  lemma ParagraphKeepsInk(measure: Measure, runs: seq<Span>, firstAvail: int, contAvail: int)
    ensures Ink(CharsOf(AllSpaced(Groups(WordsOf(measure, runs), firstAvail, contAvail, 0)))) == Ink(CharsOf(runs))
  {
    var words := WordsOf(measure, runs);
    WrappingIsShortestLayout(words, firstAvail, contAvail);
    AllSpacedInk(Groups(words, firstAvail, contAvail, 0));
    WordsAreTheBreaks(measure, runs);
    BreaksKeepInk(CharsOf(runs));
  }

  // ------------------------------------------------------------------------- tables

  function Total(natural: seq<nat>): nat {
    if natural == [] then 0 else natural[0] + Total(natural[1..])
  }

  function TotalCapped(natural: seq<nat>, cap: nat): nat {
    if natural == [] then 0 else Min(natural[0], cap) + TotalCapped(natural[1..], cap)
  }

  function Widest(natural: seq<nat>): nat {
    if natural == [] then 0 else Max(natural[0], Widest(natural[1..]))
  }

  function FindCap(natural: seq<nat>, avail: int, c: nat): nat {
    if c <= 1 then 1 else if TotalCapped(natural, c) <= avail then c else FindCap(natural, avail, c - 1)
  }

  /** The cap on the columns of a table (in `render_table`). */
  function ColumnCap(natural: seq<nat>, avail: int): nat {
    if Total(natural) <= avail then Widest(natural) else FindCap(natural, avail, Widest(natural))
  }

  lemma {:induction false} CapGrows(natural: seq<nat>, c: nat, d: nat)
    requires c <= d
    ensures TotalCapped(natural, c) <= TotalCapped(natural, d)
  {
    if natural != [] {
      CapGrows(natural[1..], c, d);
    }
  }

  lemma {:induction false} WideCapIsNone(natural: seq<nat>, c: nat)
    requires Widest(natural) <= c
    ensures TotalCapped(natural, c) == Total(natural)
  {
    if natural != [] {
      WideCapIsNone(natural[1..], c);
    }
  }

  lemma {:induction false} FindCapFits(natural: seq<nat>, avail: int, c: nat)
    ensures 1 <= FindCap(natural, avail, c) <= Max(c, 1)
    ensures FindCap(natural, avail, c) == 1 || TotalCapped(natural, FindCap(natural, avail, c)) <= avail
  {
    if c > 1 && TotalCapped(natural, c) > avail {
      FindCapFits(natural, avail, c - 1);
    }
  }

  lemma {:induction false} LargerDoesNotFit(natural: seq<nat>, avail: int, c: nat, d: nat)
    requires FindCap(natural, avail, c) < d <= c
    ensures TotalCapped(natural, d) > avail
  {
    if d < c {
      LargerDoesNotFit(natural, avail, c - 1, d);
    }
  }

  /** Columns that fit are left alone.  Otherwise no larger cap would fit, and with this one the columns fit unless
      they do not even at one column of screen each. */
  lemma CapIsLargest(natural: seq<nat>, avail: int)
    ensures
      var cap := ColumnCap(natural, avail);
      && (Total(natural) <= avail ==> TotalCapped(natural, cap) == Total(natural))
      && (Total(natural) > avail ==>
            && (TotalCapped(natural, cap) <= avail <==> TotalCapped(natural, 1) <= avail)
            && forall d: nat :: cap < d ==> TotalCapped(natural, d) > avail)
  {
    var cap, widest := ColumnCap(natural, avail), Widest(natural);
    WideCapIsNone(natural, widest);
    if Total(natural) > avail {
      FindCapFits(natural, avail, widest);
      CapGrows(natural, 1, cap);
      forall d: nat | cap < d
        ensures TotalCapped(natural, d) > avail
      {
        if d <= widest {
          LargerDoesNotFit(natural, avail, widest, d);
        } else {
          WideCapIsNone(natural, d);
        }
      }
    }
  }
}
