/**
  Where a position in the text is on the screen, and the other way round (lib/frontend_types.ml).
  A position is a line and a number of clusters in it; a place is a terminal row and a column.
*/
module FrontendTypes {
  import opened Wrappers
  import opened UnicodeString

  datatype Position = Position(line: nat, col: nat)
  datatype Place = Place(row: nat, col: nat)

  function WrapLines(width: int, lines: seq<Line>): seq<Line> {
    if lines == [] then [] else Wrap(lines[0], width) + WrapLines(width, lines[1..])
  }

  function RowsBefore(width: int, lines: seq<Line>, n: nat): nat
    requires n <= |lines|
  {
    if n == 0 then 0 else |Wrap(lines[0], width)| + RowsBefore(width, lines[1..], n - 1)
  }

  /** The row of one line that holds cluster `col`; the end of the line belongs to its last row. */
  function FindRow(rows: seq<Line>, col: nat): Place {
    if rows == [] then Place(0, 0)
    else if col < |rows[0]| || (col == |rows[0]| && |rows| == 1) then Place(0, PrefixWidth(rows[0], col))
    else
      var p := FindRow(rows[1..], col - |rows[0]|);
      Place(p.row + 1, p.col)
  }

  function InternalToTerminal(width: int, lines: seq<Line>, p: Position): Place
    requires p.line < |lines|
  {
    var q := FindRow(Wrap(lines[p.line], width), p.col);
    Place(RowsBefore(width, lines, p.line) + q.row, q.col)
  }

  function SumGraphemes(rows: seq<Line>, n: nat): nat {
    if n == 0 || rows == [] then 0 else |rows[0]| + SumGraphemes(rows[1..], n - 1)
  }

  /** The cluster of one line at a column of one of its rows. */
  function ColumnInRow(rows: seq<Line>, row: nat, displayCol: int): nat {
    SumGraphemes(rows, row) + GraphemeAtWidth(if row < |rows| then rows[row] else [], displayCol)
  }

  /** `None` where the source fails: a row below the last one. */
  function TerminalToInternal(width: int, lines: seq<Line>, row: nat, displayCol: int): Option<Position> {
    if lines == [] then None
    else
      var rows := Wrap(lines[0], width);
      if row < |rows| || (|lines| == 1 && row == |rows|) then Some(Position(0, ColumnInRow(rows, row, displayCol)))
      else if row < |rows| then None
      else
        match TerminalToInternal(width, lines[1..], row - |rows|, displayCol)
        case None => None
        case Some(p) => Some(Position(p.line + 1, p.col))
  }

  predicate ValidPosition(lines: seq<Line>, p: Position) {
    p.line < |lines| && p.col <= |lines[p.line]|
  }

  predicate Before(p: Position, q: Position) {
    p.line < q.line || (p.line == q.line && p.col < q.col)
  }

  predicate PlaceBefore(a: Place, b: Place) {
    a.row < b.row || (a.row == b.row && a.col < b.col)
  }

  // --------------------------------------------------------------- rows of one line

  /** What the conversions need of the rows of a line: they are the line, and only the last may be empty. */
  ghost predicate RowsOf(rows: seq<Line>, l: Line) {
    rows != [] && Concat(rows) == l && forall k :: 0 <= k < |rows| - 1 ==> rows[k] != []
  }

  lemma WrapGivesRows(l: Line, width: int)
    ensures RowsOf(Wrap(l, width), l)
  {
    if width > 0 {
      WrapIsLayout(l, width);
      if l != [] {
        WrapFromRowsNotEmpty(l, width, 0);
        assert Wrap(l, width)[..|WrapFrom(l, width, 0)|] == WrapFrom(l, width, 0);
      }
    } else {
      assert [l][1..] == [];
      assert Concat([l]) == l + Concat([l][1..]) == l;
    }
  }

  lemma RowsOfTail(rows: seq<Line>, l: Line)
    requires RowsOf(rows, l) && |rows| > 1
    ensures RowsOf(rows[1..], l[|rows[0]|..])
    ensures |rows[0]| <= |l| && l[..|rows[0]|] == rows[0] && rows[0] != []
  {
    assert l == rows[0] + Concat(rows[1..]);
  }

  lemma OnlyRow(rows: seq<Line>, l: Line)
    requires RowsOf(rows, l) && |rows| == 1
    ensures rows[0] == l
  {
    assert rows[1..] == [];
    assert l == rows[0] + Concat(rows[1..]);
  }

  /** Asking for the width of a prefix gives the prefix back, unless a zero-width cluster follows it. */
  lemma {:induction false} GraphemeAtPrefix(l: Line, k: nat)
    requires k <= |l|
    ensures GraphemeAtWidth(l, Width(l[..k])) >= k
    ensures GraphemeAtWidth(l, Width(l[..k])) == k <==> k == |l| || l[k].width > 0
  {
    GraphemeAtWidthIsLongest(l, Width(l[..k]));
    var i := GraphemeAtWidth(l, Width(l[..k]));
    if i < k {
      WidthSlice(l, i + 1, k);
    }
    if k < |l| {
      WidthStep(l, k);
      if k < i {
        WidthSlice(l, k + 1, i);
      }
    }
  }

  /** Round trip on the rows of one line, with its exact condition. */
  lemma {:induction false} RowRoundTrip(rows: seq<Line>, l: Line, col: nat)
    requires RowsOf(rows, l) && col <= |l|
    ensures
      var q := FindRow(rows, col);
      && q.row < |rows|
      && (ColumnInRow(rows, q.row, q.col) == col <==> col == |l| || l[col].width > 0)
    decreases |rows|
  {
    if |rows| == 1 {
      OnlyRow(rows, l);
      GraphemeAtPrefix(l, col);
      assert l[..|l|] == l;
    } else {
      RowsOfTail(rows, l);
      if col < |rows[0]| {
        GraphemeAtPrefix(rows[0], col);
        assert rows[0][col] == l[col];
      } else {
        RowRoundTrip(rows[1..], l[|rows[0]|..], col - |rows[0]|);
      }
    }
  }

  lemma PartOfTail(l: Line, n: nat, c: nat, d: nat)
    requires n <= c <= d <= |l|
    ensures l[n..][c - n..d - n] == l[c..d]
  {
  }

  lemma {:induction false} RowIsMonotonic(rows: seq<Line>, l: Line, c: nat, d: nat)
    requires RowsOf(rows, l) && c <= d <= |l|
    ensures
      var p, q := FindRow(rows, c), FindRow(rows, d);
      && (p == q || PlaceBefore(p, q))
      && (p == q ==> Width(l[c..d]) == 0)
    decreases |rows|
  {
    if |rows| == 1 {
      OnlyRow(rows, l);
      WidthSlice(l, c, d);
      assert l[..|l|] == l;
    } else {
      RowsOfTail(rows, l);
      if d < |rows[0]| {
        WidthSlice(rows[0], c, d);
        assert rows[0][c..d] == l[c..d];
      } else if c >= |rows[0]| {
        var n := |rows[0]|;
        RowIsMonotonic(rows[1..], l[n..], c - n, d - n);
        PartOfTail(l, n, c, d);
      }
    }
  }

  // ---------------------------------------------------------------- the whole text

  lemma {:induction false} DownOneLine(width: int, lines: seq<Line>, p: Position)
    requires 0 < p.line < |lines|
    ensures
      var q := InternalToTerminal(width, lines[1..], Position(p.line - 1, p.col));
      InternalToTerminal(width, lines, p) == Place(q.row + |Wrap(lines[0], width)|, q.col)
  {
  }

  lemma {:induction false} SkipOneLine(width: int, lines: seq<Line>, row: nat, displayCol: int)
    requires |lines| > 1
    ensures
      var n := |Wrap(lines[0], width)|;
      var rest := TerminalToInternal(width, lines[1..], row, displayCol);
      TerminalToInternal(width, lines, row + n, displayCol) ==
        if rest.None? then None else Some(Position(rest.value.line + 1, rest.value.col))
  {
  }

  predicate ComesBack(width: int, lines: seq<Line>, p: Position)
    requires p.line < |lines|
  {
    var q := InternalToTerminal(width, lines, p);
    TerminalToInternal(width, lines, q.row, q.col) == Some(p)
  }

  lemma FirstLineComesBackIff(width: int, lines: seq<Line>, col: nat)
    requires lines != [] && col <= |lines[0]|
    ensures ComesBack(width, lines, Position(0, col)) <==> col == |lines[0]| || lines[0][col].width > 0
  {
    var rows := Wrap(lines[0], width);
    WrapGivesRows(lines[0], width);
    RowRoundTrip(rows, lines[0], col);
    var q := FindRow(rows, col);
    assert InternalToTerminal(width, lines, Position(0, col)) == q;
    assert TerminalToInternal(width, lines, q.row, q.col) == Some(Position(0, ColumnInRow(rows, q.row, q.col)));
  }

  lemma {:induction false} LaterLineComesBackIff(width: int, lines: seq<Line>, p: Position)
    requires 0 < p.line < |lines|
    ensures ComesBack(width, lines, p) <==> ComesBack(width, lines[1..], Position(p.line - 1, p.col))
  {
    var n, q' := |Wrap(lines[0], width)|, InternalToTerminal(width, lines[1..], Position(p.line - 1, p.col));
    assert InternalToTerminal(width, lines, p) == Place(q'.row + n, q'.col) by {
      DownOneLine(width, lines, p);
    }
    SkipOneLine(width, lines, q'.row, q'.col);
  }

  /** The cursor survives the way to the screen and back, for every width and every text: exactly when it is
      at the end of its line or before a cluster that can be seen. */
  lemma {:induction false} RoundTripIff(width: int, lines: seq<Line>, p: Position)
    requires ValidPosition(lines, p)
    ensures ComesBack(width, lines, p) <==> p.col == |lines[p.line]| || lines[p.line][p.col].width > 0
    decreases p.line
  {
    if p.line == 0 {
      FirstLineComesBackIff(width, lines, p.col);
    } else {
      LaterLineComesBackIff(width, lines, p);
      RoundTripIff(width, lines[1..], Position(p.line - 1, p.col));
    }
  }

  /** A tab, which has no width, at the start of a line: the cursor before it comes back behind it. */
  lemma TabDoesNotComeBack()
    ensures
      var lines: seq<Line> := [[Cluster("\t", 0)]];
      && InternalToTerminal(80, lines, Position(0, 0)) == Place(0, 0)
      && TerminalToInternal(80, lines, 0, 0) == Some(Position(0, 1))
  {
    var tab: Glyph := Cluster("\t", 0);
    var l: Line := [tab];
    assert l[0..1] == l && l[..0] == [] && l[1..] == [];
    assert FindEnd(l, 80, 1, 0) == 1;
    assert WrapFrom(l, 80, 1) == [] && WrapFrom(l, 80, 0) == [l[0..1]];
    assert Width(l) == 0;
    assert Wrap(l, 80) == [l];
    assert GraphemeAtWidth(l, 0) == 1 + GraphemeAtWidth([], 0);
  }

  predicate AllPositive(lines: seq<Line>) {
    forall i, j :: 0 <= i < |lines| && 0 <= j < |lines[i]| ==> lines[i][j].width >= 1
  }

  lemma RoundTrip(width: int, lines: seq<Line>, p: Position)
    requires ValidPosition(lines, p) && AllPositive(lines)
    ensures
      var q := InternalToTerminal(width, lines, p);
      TerminalToInternal(width, lines, q.row, q.col) == Some(p)
  {
    RoundTripIff(width, lines, p);
  }

  lemma {:induction false} RowsBeforeStep(width: int, lines: seq<Line>, n: nat)
    requires n < |lines|
    ensures RowsBefore(width, lines, n + 1) == RowsBefore(width, lines, n) + |Wrap(lines[n], width)|
  {
    if n > 0 {
      RowsBeforeStep(width, lines[1..], n - 1);
    }
  }

  lemma {:induction false} RowsBeforeMonotonic(width: int, lines: seq<Line>, m: nat, n: nat)
    requires m <= n <= |lines|
    ensures RowsBefore(width, lines, m) <= RowsBefore(width, lines, n)
    decreases n - m
  {
    if m < n {
      RowsBeforeStep(width, lines, n - 1);
      RowsBeforeMonotonic(width, lines, m, n - 1);
    }
  }

  /** A later position is never shown earlier, and at the same place only if nothing that can be seen lies
      between the two. */
  lemma PlacesAreOrdered(width: int, lines: seq<Line>, p: Position, q: Position)
    requires ValidPosition(lines, p) && ValidPosition(lines, q) && Before(p, q)
    ensures
      var a, b := InternalToTerminal(width, lines, p), InternalToTerminal(width, lines, q);
      PlaceBefore(a, b) || (a == b && p.line == q.line && Width(lines[p.line][p.col..q.col]) == 0)
  {
    WrapGivesRows(lines[p.line], width);
    var rows := Wrap(lines[p.line], width);
    if p.line == q.line {
      RowIsMonotonic(rows, lines[p.line], p.col, q.col);
    } else {
      RowRoundTrip(rows, lines[p.line], p.col);
      RowsBeforeStep(width, lines, p.line);
      RowsBeforeMonotonic(width, lines, p.line + 1, q.line);
    }
  }

  /** With positive widths the way to the screen is strictly increasing. */
  lemma PlacesAreStrictlyOrdered(width: int, lines: seq<Line>, p: Position, q: Position)
    requires ValidPosition(lines, p) && ValidPosition(lines, q) && Before(p, q) && AllPositive(lines)
    ensures PlaceBefore(InternalToTerminal(width, lines, p), InternalToTerminal(width, lines, q))
  {
    PlacesAreOrdered(width, lines, p, q);
    if p.line == q.line {
      var l := lines[p.line];
      assert l[p.col..q.col][0].width >= 1;
    }
  }

  // -------------------------------------------------- the end of a line on the screen

  /** Before a visible cluster the cursor is within its row; the end of the line is behind the last row. */
  lemma {:induction false} ColumnInRows(rows: seq<Line>, l: Line, width: nat, col: nat)
    requires RowsOf(rows, l) && col <= |l| && 0 < width
    requires forall k :: 0 <= k < |rows| ==> rows[k] == [] || Fits(rows[k], width)
    ensures col < |l| && l[col].width > 0 ==> FindRow(rows, col).col < width
    ensures col == |l| ==> FindRow(rows, col).col == Width(rows[|rows| - 1])
    decreases |rows|
  {
    if |rows| == 1 {
      OnlyRow(rows, l);
      assert l[..|l|] == l;
      if col < |l| {
        InsideFittingRow(l, width, col);
      }
    } else {
      RowsOfTail(rows, l);
      if col < |rows[0]| {
        InsideFittingRow(rows[0], width, col);
        assert rows[0][col] == l[col];
      } else {
        ColumnInRows(rows[1..], l[|rows[0]|..], width, col - |rows[0]|);
      }
    }
  }

  lemma InsideFittingRow(row: Line, width: nat, col: nat)
    requires col < |row| && Fits(row, width) && 0 < width
    ensures row[col].width > 0 ==> Width(row[..col]) < width
  {
    WidthStep(row, col);
    WidthSlice(row, col + 1, |row|);
    assert row[..|row|] == row;
    assert |row| == 1 ==> row[..col] == [];
  }

  /** A cursor at the end of its line or before a cluster that can be seen is on the screen, except at the end of a line
      whose last row is full although the line as a whole is no multiple of the width. */
  lemma CursorOnScreenIff(width: int, lines: seq<Line>, p: Position)
    requires ValidPosition(lines, p) && width > 0
    requires p.col == |lines[p.line]| || lines[p.line][p.col].width > 0
    ensures
      var l := lines[p.line];
      var rows := WrapFrom(l, width, 0);
      InternalToTerminal(width, lines, p).col < width <==>
        p.col < |l| || l == [] || NeedsEmptyRow(l, width) || Width(rows[|rows| - 1]) < width
  {
    var l := lines[p.line];
    WrapGivesRows(l, width);
    WrapIsLayout(l, width);
    ColumnInRows(Wrap(l, width), l, width, p.col);
    LastRowIs(l, width);
  }

  lemma LastRowIs(l: Line, width: int)
    requires width > 0
    ensures
      var rows, all := WrapFrom(l, width, 0), Wrap(l, width);
      all[|all| - 1] == if l == [] || NeedsEmptyRow(l, width) then [] else rows[|rows| - 1]
  {
  }

  /** Four wide clusters and a narrow one in five columns: the empty row for the cursor is missing, and the end of the line
      is outside the screen. */
  lemma EndOffScreen()
    ensures
      var a, b: Glyph := Cluster("w", 2), Cluster("n", 1);
      InternalToTerminal(5, [[a, a, a, a, b]], Position(0, 5)) == Place(1, 5)
  {
    var a, b: Glyph := Cluster("w", 2), Cluster("n", 1);
    var l: Line := [a, a, a, a, b];
    assert FindEnd(l, 5, 2, 4) == 2 && FindEnd(l, 5, 1, 2) == 2 && FindEnd(l, 5, 0, 0) == 2;
    assert FindEnd(l, 5, 5, 5) == 5 && FindEnd(l, 5, 4, 4) == 5 && FindEnd(l, 5, 3, 2) == 5 && FindEnd(l, 5, 2, 0) == 5;
    assert WrapFrom(l, 5, 5) == [] && WrapFrom(l, 5, 2) == [l[2..5]];
    assert l[0..2] == [a, a] && l[2..5] == [a, a, b];
    WidthOfNine(l);
    var rows: seq<Line> := [[a, a], [a, a, b]];
    assert Wrap(l, 5) == rows;
    assert rows[1..] == [[a, a, b]] && [a, a, b][..3] == [a, a, b];
    assert Width([a, a, b]) == 5 by {
      assert [a, a, b][1..] == [a, b] && [a, b][1..] == [b] && [b][1..] == [];
    }
    assert FindRow(rows, 5) == Place(1, 5);
  }

  lemma WidthOfNine(l: Line)
    requires |l| == 5 && l[0].width == l[1].width == l[2].width == l[3].width == 2 && l[4].width == 1
    ensures Width(l) == 9
  {
    WidthStep(l, 0);
    WidthStep(l, 1);
    WidthStep(l, 2);
    WidthStep(l, 3);
    WidthStep(l, 4);
    assert l[..5] == l;
  }

  // --------------------------------------------------------- landing on a given row

  /** The last row that shows a part of its line. */
  predicate LastOfItsLine(width: int, lines: seq<Line>, row: nat)
    requires row < |WrapLines(width, lines)|
  {
    var n := |Wrap(lines[0], width)|;
    if row < n then row == n - 1 else LastOfItsLine(width, lines[1..], row - n)
  }

  /** Aiming at column `col` of row `r` ends on the widest prefix that is not wider, except that the end of a
      row which is not the last of its line is the start of the next row. */
  lemma {:induction false} AimInLine(rows: seq<Line>, l: Line, r: nat, col: nat)
    requires RowsOf(rows, l) && r < |rows|
    ensures
      var c := ColumnInRow(rows, r, col);
      && c <= |l|
      && FindRow(rows, c) == if col < Width(rows[r]) || r == |rows| - 1
                             then Place(r, Width(rows[r][..GraphemeAtWidth(rows[r], col)]))
                             else Place(r + 1, 0)
    decreases |rows|
  {
    var g := GraphemeAtWidth(rows[r], col);
    GraphemeAtWidthIsLongest(rows[r], col);
    EndIffNotWider(rows[r], col);
    if |rows| == 1 {
      OnlyRow(rows, l);
    } else {
      RowsOfTail(rows, l);
      if r > 0 {
        AimInLine(rows[1..], l[|rows[0]|..], r - 1, col);
      } else if g == |rows[0]| {
        StartOfRows(rows[1..]);
      }
    }
  }

  lemma EndIffNotWider(l: Line, col: nat)
    ensures GraphemeAtWidth(l, col) == |l| <==> Width(l) <= col
  {
    GraphemeAtWidthIsLongest(l, col);
    var g := GraphemeAtWidth(l, col);
    assert l[..|l|] == l;
    if g < |l| {
      WidthSlice(l, g + 1, |l|);
    }
  }

  lemma StartOfRows(rows: seq<Line>)
    requires rows != [] && forall k :: 0 <= k < |rows| - 1 ==> rows[k] != []
    ensures FindRow(rows, 0) == Place(0, 0)
  {
    assert rows[0][..0] == [];
  }

  lemma FirstLineLanding(width: int, lines: seq<Line>, row: nat, col: nat)
    requires lines != [] && row < |Wrap(lines[0], width)|
    ensures RowAt(width, lines, row) == Wrap(lines[0], width)[row]
    ensures
      var rows := Wrap(lines[0], width);
      var p := Position(0, ColumnInRow(rows, row, col));
      && TerminalToInternal(width, lines, row, col) == Some(p) && ValidPosition(lines, p)
      && InternalToTerminal(width, lines, p) == FindRow(rows, p.col)
  {
    WrapGivesRows(lines[0], width);
    AimInLine(Wrap(lines[0], width), lines[0], row, col);
  }

  function RowAt(width: int, lines: seq<Line>, row: nat): Line
    requires row < |WrapLines(width, lines)|
  {
    var rows := Wrap(lines[0], width);
    if row < |rows| then rows[row] else RowAt(width, lines[1..], row - |rows|)
  }

  lemma {:induction false} RowAtIsRow(width: int, lines: seq<Line>, row: nat)
    requires row < |WrapLines(width, lines)|
    ensures RowAt(width, lines, row) == WrapLines(width, lines)[row]
    decreases lines
  {
    var n := |Wrap(lines[0], width)|;
    if row >= n {
      RowAtIsRow(width, lines[1..], row - n);
    }
  }

  ghost predicate LandsWell(width: int, lines: seq<Line>, row: nat, col: nat)
    requires row < |WrapLines(width, lines)|
  {
    var p := TerminalToInternal(width, lines, row, col);
    && p.Some? && ValidPosition(lines, p.value)
    && InternalToTerminal(width, lines, p.value) ==
         PlaceAimedAt(RowAt(width, lines, row), LastOfItsLine(width, lines, row), row, col)
  }

  function PlaceAimedAt(r: Line, last: bool, row: nat, col: nat): Place {
    if col < Width(r) || last then Place(row, Width(r[..GraphemeAtWidth(r, col)])) else Place(row + 1, 0)
  }

  /** Where a place on the screen leads: to a valid position, which is shown on the row aimed at exactly when
      the column lies within the row or the row is the last of its line. */
  lemma {:induction false} Landing(width: int, lines: seq<Line>, row: nat, col: nat)
    requires row < |WrapLines(width, lines)|
    ensures LandsWell(width, lines, row, col)
    decreases |lines|
  {
    var n := |Wrap(lines[0], width)|;
    WrapGivesRows(lines[0], width);
    if row < n {
      FirstLineLanding(width, lines, row, col);
      AimInLine(Wrap(lines[0], width), lines[0], row, col);
    } else {
      Landing(width, lines[1..], row - n, col);
      LandingBelow(width, lines, row, col);
    }
  }

  lemma LandingBelow(width: int, lines: seq<Line>, row: nat, col: nat)
    requires lines != [] && |Wrap(lines[0], width)| <= row < |WrapLines(width, lines)|
    requires LandsWell(width, lines[1..], row - |Wrap(lines[0], width)|, col)
    ensures LandsWell(width, lines, row, col)
  {
    var n := |Wrap(lines[0], width)|;
    RowBelow(width, lines, row);
    var p := TerminalToInternal(width, lines[1..], row - n, col).value;
    SkipOneLine(width, lines, row - n, col);
    PositionBelow(width, lines, p);
    PlaceBelow(RowAt(width, lines, row), LastOfItsLine(width, lines, row), row, col, n);
  }

  lemma PlaceBelow(r: Line, last: bool, row: nat, col: nat, n: nat)
    requires n <= row
    ensures
      var q := PlaceAimedAt(r, last, row - n, col);
      PlaceAimedAt(r, last, row, col) == Place(q.row + n, q.col)
  {
  }

  lemma RowBelow(width: int, lines: seq<Line>, row: nat)
    requires lines != [] && |Wrap(lines[0], width)| <= row < |WrapLines(width, lines)|
    ensures
      var n := |Wrap(lines[0], width)|;
      && |lines| > 1
      && row - n < |WrapLines(width, lines[1..])|
      && RowAt(width, lines, row) == RowAt(width, lines[1..], row - n)
      && LastOfItsLine(width, lines, row) == LastOfItsLine(width, lines[1..], row - n)
  {
  }

  lemma PositionBelow(width: int, lines: seq<Line>, p: Position)
    requires |lines| > 1 && ValidPosition(lines[1..], p)
    ensures
      var q := InternalToTerminal(width, lines[1..], p);
      && ValidPosition(lines, Position(p.line + 1, p.col))
      && InternalToTerminal(width, lines, Position(p.line + 1, p.col)) == Place(q.row + |Wrap(lines[0], width)|, q.col)
  {
    DownOneLine(width, lines, Position(p.line + 1, p.col));
  }
}
