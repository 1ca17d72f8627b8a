/**
  Packing the matches of a history search into a budget of rows (lib/search_pager.ml): the selected entry
  unfolds, every other one gets a row.
*/
module SearchPager {
  import opened Numbers
  import opened Strings

  datatype Row = Row(entryIndex: nat, line: string, first: bool, hiddenLines: nat)

  const MIN_CONTEXT := 3

  function LinesOf(text: string): seq<string> {
    Split(text, '\n')
  }

  /** The rows of an entry that has `height` rows on the screen. */
  function Block(texts: seq<string>, i: nat, height: nat): (rows: seq<Row>)
    requires i < |texts| && height <= |LinesOf(texts[i])|
    ensures |rows| == height
  {
    var lines := LinesOf(texts[i]);
    seq(height, j requires 0 <= j < height =>
      Row(i, lines[j], j == 0, if j == height - 1 then |lines| - height else 0))
  }

  /** How many rows the selected entry gets: all it needs, but it leaves room for `MIN_CONTEXT` others. */
  function SelectedHeight(maxRows: int, selected: nat, texts: seq<string>): (h: nat)
    requires selected < |texts|
    ensures 1 <= h <= |LinesOf(texts[selected])|
  {
    Min(|LinesOf(texts[selected])|, Max(1, maxRows - Min(MIN_CONTEXT, |texts| - 1)))
  }

  function WindowStart(maxRows: int, selected: nat, texts: seq<string>): nat
    requires selected < |texts|
  {
    Max(0, selected - (maxRows - SelectedHeight(maxRows, selected, texts)))
  }

  /** How many entries are shown besides the selected one. */
  function Others(maxRows: int, selected: nat, texts: seq<string>): int
    requires selected < |texts|
  {
    Min(|texts| - 1, maxRows - SelectedHeight(maxRows, selected, texts))
  }

  predicate Selects(texts: seq<string>, selected: nat, height: nat) {
    selected < |texts| && 1 <= height <= |LinesOf(texts[selected])|
  }

  function Height(height: nat, selected: nat, texts: seq<string>, i: nat): (h: nat)
    requires Selects(texts, selected, height) && i < |texts|
    ensures 1 <= h <= |LinesOf(texts[i])|
  {
    if i == selected then height else 1
  }

  /** The blocks of the entries from `from` up to `to`. */
  function Blocks(height: nat, selected: nat, texts: seq<string>, start: nat, end: nat): seq<Row>
    requires Selects(texts, selected, height) && start <= end <= |texts|
    decreases end
  {
    if start == end then []
    else Blocks(height, selected, texts, start, end - 1) + Block(texts, end - 1, Height(height, selected, texts, end - 1))
  }

  /** The rows are the blocks of the selected entry and of exactly as many others as there are or as there is room
      for, at consecutive indices. */
  method ViewRows(maxRows: int, selected: int, texts: seq<string>) returns (rows: seq<Row>)
    requires texts != [] && maxRows > 0 ==> 0 <= selected < |texts|
    ensures texts == [] || maxRows <= 0 ==> rows == []
    ensures texts != [] && maxRows > 0 ==>
      var start := WindowStart(maxRows, selected, texts);
      var end := start + 1 + Others(maxRows, selected, texts);
      && start <= selected < end <= |texts|
      && rows == Blocks(SelectedHeight(maxRows, selected, texts), selected, texts, start, end)
      && |rows| == SelectedHeight(maxRows, selected, texts) + Others(maxRows, selected, texts) <= maxRows
  {
    var n := |texts|;
    rows := [];
    if n == 0 || maxRows <= 0 {
      return;
    }
    var selectedHeight := Min(|LinesOf(texts[selected])|, Max(1, maxRows - Min(MIN_CONTEXT, n - 1)));
    var windowStart := Max(0, selected - (maxRows - selectedHeight));
    var budget, i := maxRows, windowStart;
    while budget > 0 && i < n
      invariant windowStart <= i <= n
      invariant budget == maxRows - (i - windowStart) - (if i > selected then selectedHeight - 1 else 0) >= 0
      invariant rows == Blocks(selectedHeight, selected, texts, windowStart, i)
    {
      var entryLines := LinesOf(texts[i]);
      var height := if i == selected then Min(selectedHeight, budget) else 1;
      var block := seq(height, j requires 0 <= j < height =>
        Row(i, entryLines[j], j == 0, if j == height - 1 then |entryLines| - height else 0));
      assert height == Height(selectedHeight, selected, texts, i);
      assert block == Block(texts, i, Height(selectedHeight, selected, texts, i));
      rows := rows + block;
      budget := budget - height;
      i := i + 1;
    }
    WindowEnds(maxRows, selected, texts, i);
    BlockStands(selectedHeight, selected, texts, windowStart, i);
  }

  lemma WindowEnds(maxRows: int, selected: nat, texts: seq<string>, i: nat)
    requires selected < |texts| && maxRows > 0
    requires
      var start, height := WindowStart(maxRows, selected, texts), SelectedHeight(maxRows, selected, texts);
      && start <= i <= |texts|
      && var budget := maxRows - (i - start) - (if i > selected then height - 1 else 0);
      && budget >= 0 && (budget == 0 || i == |texts|)
    ensures WindowStart(maxRows, selected, texts) <= selected < i
    ensures i == WindowStart(maxRows, selected, texts) + 1 + Others(maxRows, selected, texts)
  {
  }

  // --------------------------------------------------------------- what can be seen

  function ShownRows(rows: seq<Row>, i: nat): nat {
    if rows == [] then 0
    else
      var last := |rows| - 1;
      ShownRows(rows[..last], i) + if rows[last].entryIndex == i then 1 else 0
  }

  function HiddenLines(rows: seq<Row>, i: nat): nat {
    if rows == [] then 0
    else
      var last := |rows| - 1;
      HiddenLines(rows[..last], i) + if rows[last].entryIndex == i then rows[last].hiddenLines else 0
  }

  lemma {:induction false} CountConcat(a: seq<Row>, b: seq<Row>, i: nat)
    ensures ShownRows(a + b, i) == ShownRows(a, i) + ShownRows(b, i)
    ensures HiddenLines(a + b, i) == HiddenLines(a, i) + HiddenLines(b, i)
  {
    if b == [] {
      assert a + b == a;
    } else {
      var last := |b| - 1;
      assert (a + b)[..|a + b| - 1] == a + b[..last];
      CountConcat(a, b[..last], i);
    }
  }

  lemma {:induction false} CountBlock(rows: seq<Row>, i: nat)
    requires forall j :: 0 <= j < |rows| ==> rows[j].entryIndex == i
    requires forall j :: 0 <= j < |rows| ==> rows[j].hiddenLines == 0
    ensures ShownRows(rows, i) == |rows| && HiddenLines(rows, i) == 0
  {
    if rows != [] {
      CountBlock(rows[..|rows| - 1], i);
    }
  }

  lemma {:induction false} CountElsewhere(rows: seq<Row>, i: nat)
    requires forall j :: 0 <= j < |rows| ==> rows[j].entryIndex != i
    ensures ShownRows(rows, i) == 0 && HiddenLines(rows, i) == 0
  {
    if rows != [] {
      CountElsewhere(rows[..|rows| - 1], i);
    }
  }

  lemma BlockAccounts(texts: seq<string>, i: nat, height: nat)
    requires i < |texts| && 1 <= height <= |LinesOf(texts[i])|
    ensures ShownRows(Block(texts, i, height), i) == height
    ensures HiddenLines(Block(texts, i, height), i) == |LinesOf(texts[i])| - height
  {
    var rows := Block(texts, i, height);
    CountBlock(rows[..height - 1], i);
  }

  lemma BlockCounts(texts: seq<string>, k: nat, height: nat, i: nat)
    requires k < |texts| && 1 <= height <= |LinesOf(texts[k])|
    ensures ShownRows(Block(texts, k, height), i) == if i == k then height else 0
    ensures HiddenLines(Block(texts, k, height), i) == if i == k then |LinesOf(texts[k])| - height else 0
  {
    if i == k {
      BlockAccounts(texts, k, height);
    } else {
      CountElsewhere(Block(texts, k, height), i);
    }
  }

  /** Of every visible entry, the rows shown and the lines said to be hidden make up its text. */
  lemma {:induction false} EveryLineIsAccountedFor(height: nat, selected: nat, texts: seq<string>, start: nat, end: nat, i: nat)
    requires Selects(texts, selected, height) && start <= end <= |texts| && i < |texts|
    ensures
      var rows := Blocks(height, selected, texts, start, end);
      && ShownRows(rows, i) == (if start <= i < end then Height(height, selected, texts, i) else 0)
      && (start <= i < end ==> ShownRows(rows, i) + HiddenLines(rows, i) == |LinesOf(texts[i])|)
      && (!(start <= i < end) ==> HiddenLines(rows, i) == 0)
    decreases end
  {
    if start < end {
      EveryLineIsAccountedFor(height, selected, texts, start, end - 1, i);
      var block := Block(texts, end - 1, Height(height, selected, texts, end - 1));
      CountConcat(Blocks(height, selected, texts, start, end - 1), block, i);
      BlockCounts(texts, end - 1, Height(height, selected, texts, end - 1), i);
    }
  }

  /** The block of the selected entry stands in the rows in one piece, from its first line on; it has all the lines
      if and only if that leaves room for the others it has to leave room for. */
  lemma {:induction false} SelectedBlockIsComplete(maxRows: int, selected: nat, texts: seq<string>)
    requires selected < |texts| && maxRows > 0
    ensures
      var start, height := WindowStart(maxRows, selected, texts), SelectedHeight(maxRows, selected, texts);
      var end := start + 1 + Others(maxRows, selected, texts);
      && start <= selected < end <= |texts|
      && StandsAt(texts, selected, height, Blocks(height, selected, texts, start, end), selected - start)
      && (height == |LinesOf(texts[selected])| <==> |LinesOf(texts[selected])| <= Max(1, maxRows - Min(3, |texts| - 1)))
  {
    var start, height := WindowStart(maxRows, selected, texts), SelectedHeight(maxRows, selected, texts);
    var end := start + 1 + Others(maxRows, selected, texts);
    SelectedIsVisible(maxRows, selected, texts);
    WholeBlockIff(maxRows, selected, texts);
    assert StandsAt(texts, selected, height, Blocks(height, selected, texts, start, end), selected - start) by {
      BlockStands(height, selected, texts, start, end);
    }
  }

  lemma {:induction false} WholeBlockIff(maxRows: int, selected: nat, texts: seq<string>)
    requires selected < |texts|
    ensures
      var all := |LinesOf(texts[selected])|;
      SelectedHeight(maxRows, selected, texts) == all <==> all <= Max(1, maxRows - Min(3, |texts| - 1))
  {
  }

  /** The rows from `at` on are the first `height` lines of the entry. */
  ghost predicate StandsAt(texts: seq<string>, i: nat, height: nat, rows: seq<Row>, at: nat)
    requires i < |texts| && height <= |LinesOf(texts[i])|
  {
    && at + height <= |rows|
    && forall j :: 0 <= j < height ==> rows[at + j] == Block(texts, i, height)[j]
  }

  lemma {:induction false} SelectedIsVisible(maxRows: int, selected: nat, texts: seq<string>)
    requires selected < |texts| && maxRows > 0
    ensures
      var start := WindowStart(maxRows, selected, texts);
      start <= selected < start + 1 + Others(maxRows, selected, texts) <= |texts|
  {
  }

  lemma {:induction false} BlockStands(height: nat, selected: nat, texts: seq<string>, start: nat, end: nat)
    requires Selects(texts, selected, height) && start <= selected < end <= |texts|
    ensures
      var rows := Blocks(height, selected, texts, start, end);
      |rows| == end - start - 1 + height && StandsAt(texts, selected, height, rows, selected - start)
    decreases end
  {
    if selected < end - 1 {
      BlockStands(height, selected, texts, start, end - 1);
    } else {
      OneRowEach(height, selected, texts, start, selected);
    }
  }

  lemma {:induction false} OneRowEach(height: nat, selected: nat, texts: seq<string>, start: nat, end: nat)
    requires Selects(texts, selected, height) && start <= end <= selected
    ensures |Blocks(height, selected, texts, start, end)| == end - start
    decreases end
  {
    if start < end {
      OneRowEach(height, selected, texts, start, end - 1);
    }
  }

  /** However long the selected text is, alternatives stay visible: three, or all there are, or all there is room for
      beside one row of it. */
  lemma AlternativesStayVisible(maxRows: int, selected: nat, texts: seq<string>)
    requires selected < |texts| && maxRows > 0
    ensures Others(maxRows, selected, texts) >= Min(Min(3, |texts| - 1), maxRows - 1)
  {
  }

  // --------------------------------------------------------------------- what the rows read

  function LinesShown(block: seq<Row>): (lines: seq<string>)
    ensures |lines| == |block|
  {
    seq(|block|, j requires 0 <= j < |block| => block[j].line)
  }

  /** The rows show entry `i`: the first is marked as such, and their lines with as many more as the last says are hidden
      read like the text. */
  ghost predicate ShowsEntry(block: seq<Row>, i: nat, text: string) {
    && block != []
    && (forall j :: 0 <= j < |block| ==>
          && block[j].entryIndex == i && (block[j].first <==> j == 0) && '\n' !in block[j].line
          && (j < |block| - 1 ==> block[j].hiddenLines == 0))
    && (exists hidden: seq<string> ::
          && |hidden| == block[|block| - 1].hiddenLines
          && Join(LinesShown(block) + hidden, '\n') == text)
  }

  lemma BlockShows(texts: seq<string>, i: nat, height: nat)
    requires i < |texts| && 1 <= height <= |LinesOf(texts[i])|
    ensures ShowsEntry(Block(texts, i, height), i, texts[i])
  {
    var lines, block := LinesOf(texts[i]), Block(texts, i, height);
    assert LinesShown(block) + lines[height..] == lines;
    JoinSplit(texts[i], '\n');
  }

  lemma StandingIsSlice(texts: seq<string>, i: nat, height: nat, rows: seq<Row>, at: nat)
    requires i < |texts| && height <= |LinesOf(texts[i])| && StandsAt(texts, i, height, rows, at)
    ensures at + height <= |rows| && rows[at..at + height] == Block(texts, i, height)
  {
    forall j | 0 <= j < height
      ensures rows[at..at + height][j] == Block(texts, i, height)[j]
    {
      assert rows[at + j] == Block(texts, i, height)[j];
    }
  }

  /** The block of any visible entry stands somewhere in the rows, in the order of the entries. */
  lemma {:induction false} EachStands(height: nat, selected: nat, texts: seq<string>, start: nat, end: nat, i: nat)
    requires Selects(texts, selected, height) && start <= i < end <= |texts|
    ensures
      var at := i - start + if selected < i && start <= selected then height - 1 else 0;
      StandsAt(texts, i, Height(height, selected, texts, i), Blocks(height, selected, texts, start, end), at)
    decreases end
  {
    if i < end - 1 {
      EachStands(height, selected, texts, start, end - 1, i);
    } else {
      BlocksBefore(height, selected, texts, start, i);
    }
  }

  lemma {:induction false} BlocksBefore(height: nat, selected: nat, texts: seq<string>, start: nat, end: nat)
    requires Selects(texts, selected, height) && start <= end <= |texts|
    ensures |Blocks(height, selected, texts, start, end)| == end - start + if start <= selected < end then height - 1 else 0
    decreases end
  {
    if start < end {
      BlocksBefore(height, selected, texts, start, end - 1);
    }
  }

  /** Every visible entry can be read from the rows: the selected one from its rows, the others from one each, one below the
      other in order. */
  lemma {:induction false} EveryEntryIsShown(height: nat, selected: nat, texts: seq<string>, start: nat, end: nat, i: nat)
    requires Selects(texts, selected, height) && start <= selected < end <= |texts| && start <= i < end
    ensures
      var at := i - start + if selected < i then height - 1 else 0;
      var rows, n := Blocks(height, selected, texts, start, end), if i == selected then height else 1;
      at + n <= |rows| && ShowsEntry(rows[at..at + n], i, texts[i])
  {
    var at := i - start + if selected < i then height - 1 else 0;
    EachStands(height, selected, texts, start, end, i);
    StandingIsSlice(texts, i, Height(height, selected, texts, i), Blocks(height, selected, texts, start, end), at);
    BlockShows(texts, i, Height(height, selected, texts, i));
  }
}
