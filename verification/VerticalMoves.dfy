/**
  Moving the cursor by screen rows (`move_up` and `move_down` of lib/text_editor.ml).  The column aimed at is
  remembered from the first move of a run of vertical keys on, so that short rows on the way do not change it.  When
  the keys call these functions is the subject of `VerticalKeys`.
*/
module VerticalMoves {
  import opened Numbers
  import opened Wrappers
  import opened UnicodeString
  import opened FrontendTypes

  datatype Walker = Walker(at: Position, afterVertical: bool, persistentCol: nat)

  /** What the two functions know of a screen: its height, where a position is shown, and where row and column lead. */
  datatype Screen = Screen(height: nat, place: Position -> Place, aim: (nat, nat) -> Position)

  // -------------------------------------------------------------- the two functions

  /** The column aimed at. */
  function Target(s: Screen, w: Walker): nat {
    if w.afterVertical then w.persistentCol else s.place(w.at).col
  }

  /** The cursor goes to row `row`; the key that made it go is remembered as vertical. */
  function Go(s: Screen, w: Walker, row: nat): Walker {
    Walker(s.aim(row, Target(s, w)), true, Target(s, w))
  }

  /** On the first row the cursor stays. */
  function MoveUp(s: Screen, w: Walker): Walker {
    var row := s.place(w.at).row;
    if row > 0 then Go(s, w, row - 1) else w.(afterVertical := true)
  }

  function MoveDown(s: Screen, w: Walker): Walker {
    var row := s.place(w.at).row;
    if row < s.height - 1 then Go(s, w, row + 1) else w.(afterVertical := true)
  }

  function Ups(s: Screen, w: Walker, k: nat): Walker {
    if k == 0 then w else MoveUp(s, Ups(s, w, k - 1))
  }

  function Downs(s: Screen, w: Walker, k: nat): Walker {
    if k == 0 then w else MoveDown(s, Downs(s, w, k - 1))
  }

  /** The row is reached by column `target`. */
  predicate Welcoming(s: Screen, row: nat, target: nat) {
    s.place(s.aim(row, target)).row == row
  }

  /** On row `row`, at its place for column `target`, which is remembered. */
  predicate OnTrack(s: Screen, w: Walker, row: nat, target: nat) {
    row < s.height && s.place(w.at).row == row && w.at == s.aim(row, target) && Target(s, w) == target
  }

  lemma {:induction false} UpsKeepTrack(s: Screen, w: Walker, row: nat, target: nat, k: nat)
    requires OnTrack(s, w, row, target) && k <= row
    requires forall r :: row - k <= r < row ==> Welcoming(s, r, target)
    ensures OnTrack(s, Ups(s, w, k), row - k, target)
  {
    if k > 0 {
      UpsKeepTrack(s, w, row, target, k - 1);
      assert Welcoming(s, row - k, target);
    }
  }

  lemma {:induction false} DownsKeepTrack(s: Screen, w: Walker, row: nat, target: nat, k: nat)
    requires OnTrack(s, w, row, target) && row + k < s.height
    requires forall r :: row < r <= row + k ==> Welcoming(s, r, target)
    ensures OnTrack(s, Downs(s, w, k), row + k, target)
  {
    if k > 0 {
      DownsKeepTrack(s, w, row, target, k - 1);
      assert Welcoming(s, row + k, target);
    }
  }

  /** As many Downs as Ups bring the cursor back to where it was, if the rows above are welcoming and the
      cursor is where its own row and column lead to. */
  lemma UpsThenDowns(s: Screen, w: Walker, row: nat, target: nat, k: nat)
    requires OnTrack(s, w, row, target) && k <= row
    requires forall r :: row - k <= r < row ==> Welcoming(s, r, target)
    ensures OnTrack(s, Ups(s, w, k), row - k, target)
    ensures Downs(s, Ups(s, w, k), k).at == w.at
  {
    UpsKeepTrack(s, w, row, target, k);
    DownsKeepTrack(s, Ups(s, w, k), row - k, target, k);
  }

  // ------------------------------------------------------------ the screen of a text

  /** The position that row `row` has for column `target`; the column is cut to the width of the row. */
  function Aim(width: int, lines: seq<Line>, row: nat, target: nat): Position {
    var rows := WrapLines(width, lines);
    if row < |rows| then
      match TerminalToInternal(width, lines, row, Min(target, Width(rows[row])))
      case Some(p) => p
      case None => Position(0, 0)
    else Position(0, 0)
  }

  function ScreenOf(width: int, lines: seq<Line>): Screen {
    Screen(|WrapLines(width, lines)|,
           (p: Position) => if p.line < |lines| then InternalToTerminal(width, lines, p) else Place(0, 0),
           (row: nat, target: nat) => Aim(width, lines, row, target))
  }

  lemma {:induction false} CursorIsOnScreen(width: int, lines: seq<Line>, p: Position)
    requires ValidPosition(lines, p)
    ensures InternalToTerminal(width, lines, p).row < |WrapLines(width, lines)|
    ensures
      var q := InternalToTerminal(width, lines, p);
      q.col <= Width(RowAt(width, lines, q.row))
    decreases p.line
  {
    if p.line == 0 {
      WrapGivesRows(lines[0], width);
      CursorIsInRow(Wrap(lines[0], width), lines[0], p.col);
    } else {
      CursorIsOnScreen(width, lines[1..], Position(p.line - 1, p.col));
      DownOneLine(width, lines, p);
    }
  }

  lemma {:induction false} CursorIsInRow(rows: seq<Line>, l: Line, col: nat)
    requires RowsOf(rows, l) && col <= |l|
    ensures FindRow(rows, col).row < |rows|
    ensures FindRow(rows, col).col <= Width(rows[FindRow(rows, col).row])
    decreases |rows|
  {
    if |rows| == 1 {
      OnlyRow(rows, l);
      WidthSlice(l, col, |l|);
      assert l[..|l|] == l;
    } else {
      RowsOfTail(rows, l);
      if col < |rows[0]| {
        WidthSlice(rows[0], col, |rows[0]|);
        assert rows[0][..|rows[0]|] == rows[0];
      } else {
        CursorIsInRow(rows[1..], l[|rows[0]|..], col - |rows[0]|);
      }
    }
  }

  /** A move goes to the row it is meant for exactly when the column aimed at lies within the row or the row is the
      last of its line; otherwise the cursor ends on the row below it, so that moving up need not move. */
  lemma WelcomingIff(width: int, lines: seq<Line>, row: nat, target: nat)
    requires row < |WrapLines(width, lines)|
    ensures
      var s, p := ScreenOf(width, lines), Aim(width, lines, row, target);
      var within := target < Width(RowAt(width, lines, row)) || LastOfItsLine(width, lines, row);
      && ValidPosition(lines, p)
      && (Welcoming(s, row, target) <==> within)
      && (!within ==> s.place(p) == Place(row + 1, 0))
      && s.place(p).col <= target
  {
    var r, last := RowAt(width, lines, row), LastOfItsLine(width, lines, row);
    AimLands(width, lines, row, target);
    PlaceAimedAtIff(r, last, row, target);
  }

  /** Below an empty line, a row of two columns out of three, because the wide cluster behind it has no room there: from
      column 2 of the next row, moving up goes to the start of that very row. */
  lemma UpStaysOnRow()
    ensures
      var a, b, c, wide: Glyph := Cluster("a", 1), Cluster("b", 1), Cluster("c", 1), Cluster("w", 2);
      var lines: seq<Line> := [[], [a, b, wide, c]];
      var s, w := ScreenOf(3, lines), Walker(Position(1, 3), false, 0);
      && WrapLines(3, lines) == [[], [a, b], [wide, c]]
      && s.place(w.at) == Place(2, 2)
      && MoveUp(s, w).at == Position(1, 2) && s.place(Position(1, 2)) == Place(2, 0)
  {
    var a, b, c, wide: Glyph := Cluster("a", 1), Cluster("b", 1), Cluster("c", 1), Cluster("w", 2);
    var l: Line := [a, b, wide, c];
    IncompleteRow(l);
    BelowEmptyLine(l);
    var lines: seq<Line> := [[], l];
    DownOneLine(3, lines, Position(1, 3));
    DownOneLine(3, lines, Position(1, 2));
    SkipOneLine(3, lines, 1 - 1, 2);
  }

  lemma BelowEmptyLine(l: Line)
    ensures
      var lines: seq<Line> := [[], l];
      lines[1..] == [l] && Wrap([], 3) == [[]] && WrapLines(3, lines) == [[]] + WrapLines(3, [l])
  {
  }

  lemma IncompleteRow(l: Line)
    requires |l| == 4 && l[0].width == l[1].width == l[3].width == 1 && l[2].width == 2
    ensures WrapLines(3, [l]) == [[l[0], l[1]], [l[2], l[3]]]
    ensures InternalToTerminal(3, [l], Position(0, 3)) == Place(1, 2)
    ensures InternalToTerminal(3, [l], Position(0, 2)) == Place(1, 0)
    ensures TerminalToInternal(3, [l], 0, 2) == Some(Position(0, 2))
    ensures Width([l[0], l[1]]) == 2
  {
    WrapOfIncomplete(l);
    var a, b, wide, c := l[0], l[1], l[2], l[3];
    var rows: seq<Line> := [[a, b], [wide, c]];
    assert [l][1..] == [] && rows + [] == rows;
    assert rows[1..] == [[wide, c]] && l[2..] == [wide, c];
    assert [wide, c][..1] == [wide] && [wide, c][..0] == [] && Width([wide]) == 2;
    assert FindRow(rows, 3) == Place(1, 2) && FindRow(rows, 2) == Place(1, 0);
    assert GraphemeAtWidth([a, b], 2) == 2 by { assert [a, b][1..] == [b] && [b][1..] == []; }
  }

  lemma WrapOfIncomplete(l: Line)
    requires |l| == 4 && l[0].width == l[1].width == l[3].width == 1 && l[2].width == 2
    ensures Wrap(l, 3) == [[l[0], l[1]], [l[2], l[3]]]
  {
    assert FindEnd(l, 3, 2, 2) == 2 && FindEnd(l, 3, 1, 1) == 2 && FindEnd(l, 3, 0, 0) == 2;
    assert FindEnd(l, 3, 4, 3) == 4 && FindEnd(l, 3, 3, 2) == 4 && FindEnd(l, 3, 2, 0) == 4;
    assert l[0..2] == [l[0], l[1]] && l[2..4] == [l[2], l[3]];
    assert WrapFrom(l, 3, 4) == [];
    assert WrapFrom(l, 3, 2) == [l[2..4]];
    assert l == [l[0], l[1]] + [l[2], l[3]];
    assert Width(l) == 5 by {
      WidthStep(l, 0);
      WidthStep(l, 1);
      WidthStep(l, 2);
      WidthStep(l, 3);
      assert l[..4] == l;
    }
  }

  /** What `Aim` finds, and where it is shown. */
  lemma {:induction false} AimLands(width: int, lines: seq<Line>, row: nat, target: nat)
    requires row < |WrapLines(width, lines)|
    ensures
      var r, p := RowAt(width, lines, row), Aim(width, lines, row, target);
      && ValidPosition(lines, p)
      && TerminalToInternal(width, lines, row, Min(target, Width(r))) == Some(p)
      && InternalToTerminal(width, lines, p) == PlaceAimedAt(r, LastOfItsLine(width, lines, row), row, Min(target, Width(r)))
  {
    RowAtIsRow(width, lines, row);
    Landing(width, lines, row, Min(target, Width(RowAt(width, lines, row))));
  }

  lemma PlaceAimedAtIff(r: Line, last: bool, row: nat, target: nat)
    ensures
      var q := PlaceAimedAt(r, last, row, Min(target, Width(r)));
      && (q.row == row <==> target < Width(r) || last)
      && (q.row != row ==> q == Place(row + 1, 0))
      && q.col <= target
  {
    GraphemeAtWidthIsLongest(r, Min(target, Width(r)));
  }

  /** Neither function leaves the text. */
  lemma MovesStayInText(width: int, lines: seq<Line>, w: Walker)
    requires ValidPosition(lines, w.at)
    ensures ValidPosition(lines, MoveUp(ScreenOf(width, lines), w).at)
    ensures ValidPosition(lines, MoveDown(ScreenOf(width, lines), w).at)
  {
    UpStaysInText(width, lines, w);
    DownStaysInText(width, lines, w);
  }

  lemma {:induction false} UpStaysInText(width: int, lines: seq<Line>, w: Walker)
    requires ValidPosition(lines, w.at)
    ensures ValidPosition(lines, MoveUp(ScreenOf(width, lines), w).at)
  {
    var s := ScreenOf(width, lines);
    CursorIsOnScreen(width, lines, w.at);
    if s.place(w.at).row > 0 {
      AimStaysInText(width, lines, s.place(w.at).row - 1, Target(s, w));
    }
  }

  lemma AimStaysInText(width: int, lines: seq<Line>, row: nat, target: nat)
    requires row < |WrapLines(width, lines)|
    ensures ValidPosition(lines, Aim(width, lines, row, target))
  {
    AimLands(width, lines, row, target);
  }

  lemma DownStaysInText(width: int, lines: seq<Line>, w: Walker)
    requires ValidPosition(lines, w.at)
    ensures ValidPosition(lines, MoveDown(ScreenOf(width, lines), w).at)
  {
    var s := ScreenOf(width, lines);
    CursorIsOnScreen(width, lines, w.at);
    if s.place(w.at).row < s.height - 1 {
      AimStaysInText(width, lines, s.place(w.at).row + 1, Target(s, w));
    }
  }

  /** A cursor that has just been moved by other means is where its own row and column lead to. */
  lemma CursorIsOnTrack(width: int, lines: seq<Line>, w: Walker)
    requires ValidPosition(lines, w.at) && AllPositive(lines) && !w.afterVertical
    ensures
      var s := ScreenOf(width, lines);
      OnTrack(s, w, s.place(w.at).row, Target(s, w))
  {
    RoundTrip(width, lines, w.at);
    CursorIsOnScreen(width, lines, w.at);
    var q := InternalToTerminal(width, lines, w.at);
    AimLands(width, lines, q.row, q.col);
  }

  /** k Ups and k Downs restore the cursor, across short and wrapped lines, when the rows in between are wide
      enough for its column or the last of their lines. */
  lemma {:induction false} UpsThenDownsRestore(width: int, lines: seq<Line>, w: Walker, k: nat)
    requires ValidPosition(lines, w.at) && AllPositive(lines) && !w.afterVertical
    requires
      var q := InternalToTerminal(width, lines, w.at);
      && k <= q.row < |WrapLines(width, lines)|
      && (forall r {:trigger RowAt(width, lines, r)} :: q.row - k <= r < q.row ==>
            q.col < Width(RowAt(width, lines, r)) || LastOfItsLine(width, lines, r))
    ensures
      var s, q := ScreenOf(width, lines), InternalToTerminal(width, lines, w.at);
      && s.place(Ups(s, w, k).at).row == q.row - k
      && Downs(s, Ups(s, w, k), k).at == w.at
  {
    var s, q := ScreenOf(width, lines), InternalToTerminal(width, lines, w.at);
    CursorIsOnTrack(width, lines, w);
    forall r | q.row - k <= r < q.row
      ensures Welcoming(s, r, q.col)
    {
      assert q.col < Width(RowAt(width, lines, r)) || LastOfItsLine(width, lines, r);
      WelcomingIff(width, lines, r, q.col);
    }
    UpsThenDowns(s, w, q.row, q.col, k);
  }

  // ---------------------------------------------------------- clusters of one column

  predicate UnitWidths(l: Line) {
    forall i :: 0 <= i < |l| ==> l[i].width == 1
  }

  predicate AllUnit(lines: seq<Line>) {
    forall i :: 0 <= i < |lines| ==> UnitWidths(lines[i])
  }

  lemma {:induction false} UnitWidth(l: Line)
    requires UnitWidths(l)
    ensures Width(l) == |l|
  {
    if l != [] {
      UnitWidth(l[1..]);
    }
  }

  /** With one column to a cluster, every row but the last is full, and the last too when `rest` rows hold
      exactly what is left. */
  lemma {:induction false} UnitRowsAreFull(l: Line, width: nat, start: nat, rest: nat)
    requires UnitWidths(l) && 0 < width && start <= |l|
    ensures forall k :: 0 <= k < |WrapFrom(l, width, start)| - 1 ==> Width(WrapFrom(l, width, start)[k]) == width
    ensures |l| - start == width * rest ==>
              forall k :: 0 <= k < |WrapFrom(l, width, start)| ==> Width(WrapFrom(l, width, start)[k]) == width
    decreases |l| - start
  {
    if start < |l| {
      var end := FindEnd(l, width, start, 0);
      assert l[start..start] == [];
      FindEndIsMaximal(l, width, start, start);
      UnitWidth(l[start..end]);
      if end < |l| {
        UnitWidth(l[start..end + 1]);
        assert end == start + width;
        UnitRowsAreFull(l, width, end, if rest == 0 then 0 else rest - 1);
        OneRowLess(|l| - start, width, rest);
      } else {
        OneRowLess(|l| - start, width, rest);
        assert WrapFrom(l, width, |l|) == [];
      }
    }
  }

  lemma OneRowLess(n: nat, width: nat, rest: nat)
    requires 0 < n && 0 < width
    ensures n == width * rest ==> rest > 0 && n - width == width * (rest - 1) && width <= n
  {
  }

  lemma UnitRowsAreFullOrLast(l: Line, width: int, r: nat)
    requires UnitWidths(l) && width > 0 && r < |Wrap(l, width)| - 1
    ensures Width(Wrap(l, width)[r]) == width
  {
    UnitWidth(l);
    if l != [] {
      var m := |l| / width;
      if NeedsEmptyRow(l, width) {
        ExactMultiple(|l|, width);
      }
      UnitRowsAreFull(l, width, 0, m);
      assert Wrap(l, width)[r] == WrapFrom(l, width, 0)[r];
    }
  }

  lemma ExactMultiple(n: nat, width: nat)
    requires width > 0 && n % width == 0
    ensures n == width * (n / width)
  {
  }

  lemma {:induction false} UnitRowsWelcome(width: int, lines: seq<Line>, row: nat, target: nat)
    requires AllUnit(lines) && row < |WrapLines(width, lines)| && (width > 0 ==> target < width)
    ensures target < Width(RowAt(width, lines, row)) || LastOfItsLine(width, lines, row)
    decreases |lines|
  {
    var n := |Wrap(lines[0], width)|;
    if row < n {
      if row < n - 1 {
        UnitRowsAreFullOrLast(lines[0], width, row);
      }
    } else {
      UnitRowsWelcome(width, lines[1..], row - n, target);
    }
  }

  lemma {:induction false} UnitCursorIsInside(width: int, lines: seq<Line>, p: Position)
    requires ValidPosition(lines, p) && AllUnit(lines) && width > 0
    ensures InternalToTerminal(width, lines, p).col < width
    decreases p.line
  {
    if p.line == 0 {
      UnitCursorInLine(lines[0], width, p.col);
    } else {
      UnitCursorIsInside(width, lines[1..], Position(p.line - 1, p.col));
      DownOneLine(width, lines, p);
    }
  }

  /** The end of a line that fills its last row is on the empty row behind it. */
  lemma UnitCursorInLine(l: Line, width: int, col: nat)
    requires UnitWidths(l) && width > 0 && col <= |l|
    ensures FindRow(Wrap(l, width), col).col < width
  {
    var rows := Wrap(l, width);
    WrapGivesRows(l, width);
    WrapIsLayout(l, width);
    var last := rows[|rows| - 1];
    LastRowHasRoom(l, width);
    forall k | 0 <= k < |rows|
      ensures UnitWidths(rows[k])
    {
      RowsAreUnit(rows, l, k);
    }
    forall k | 0 <= k < |rows|
      ensures |rows[k]| <= width
    {
      UnitWidth(rows[k]);
    }
    UnitWidth(last);
    InsideItsRow(rows, l, width, col);
  }

  lemma {:induction false} RowsAreUnit(rows: seq<Line>, l: Line, k: nat)
    requires RowsOf(rows, l) && UnitWidths(l) && k < |rows|
    ensures UnitWidths(rows[k])
    decreases |rows|
  {
    if |rows| == 1 {
      OnlyRow(rows, l);
    } else {
      RowsOfTail(rows, l);
      if k > 0 {
        RowsAreUnit(rows[1..], l[|rows[0]|..], k - 1);
      }
    }
  }

  lemma {:induction false} InsideItsRow(rows: seq<Line>, l: Line, width: nat, col: nat)
    requires RowsOf(rows, l) && col <= |l| && 0 < width
    requires forall k :: 0 <= k < |rows| ==> UnitWidths(rows[k]) && |rows[k]| <= width
    requires |rows[|rows| - 1]| < width
    ensures FindRow(rows, col).col < width
    decreases |rows|
  {
    if |rows| == 1 {
      OnlyRow(rows, l);
      UnitWidth(rows[0][..col]);
    } else {
      RowsOfTail(rows, l);
      if col < |rows[0]| {
        UnitWidth(rows[0][..col]);
      } else {
        InsideItsRow(rows[1..], l[|rows[0]|..], width, col - |rows[0]|);
      }
    }
  }

  lemma LastRowHasRoom(l: Line, width: int)
    requires UnitWidths(l) && width > 0
    ensures Width(Wrap(l, width)[|Wrap(l, width)| - 1]) < width
  {
    if l != [] && !NeedsEmptyRow(l, width) {
      UnitWidth(l);
      LastRowIsShort(l, width, 0, |l| / width, |l| % width);
    }
  }

  /** What does not fill its rows leaves room on the last. */
  lemma {:induction false} LastRowIsShort(l: Line, width: nat, start: nat, full: nat, rest: nat)
    requires UnitWidths(l) && start < |l| && 0 < rest < width
    requires |l| - start == width * full + rest
    ensures
      var rows := WrapFrom(l, width, start);
      Width(rows[|rows| - 1]) < width
    decreases |l| - start
  {
    var end := FindEnd(l, width, start, 0);
    assert l[start..start] == [];
    FindEndIsMaximal(l, width, start, start);
    UnitWidth(l[start..end]);
    if end < |l| {
      UnitWidth(l[start..end + 1]);
      assert full > 0;
      assert width * full == width * (full - 1) + width;
      LastRowIsShort(l, width, end, full - 1, rest);
    } else {
      assert WrapFrom(l, width, |l|) == [];
      NotAFullRow(|l| - start, width, full, rest);
    }
  }

  lemma NotAFullRow(n: nat, width: nat, full: nat, rest: nat)
    requires n == width * full + rest && 0 < rest < width && n <= width
    ensures n < width
  {
  }

  /** On text without wide clusters both functions go exactly one row, to the column aimed at or the end of the
      row, whatever column below the width is remembered. */
  lemma UnitMovesGoOneRow(width: int, lines: seq<Line>, w: Walker, row: nat)
    requires ValidPosition(lines, w.at) && AllUnit(lines) && row < |WrapLines(width, lines)|
    requires w.afterVertical && width > 0 ==> w.persistentCol < width
    ensures
      var s := ScreenOf(width, lines);
      s.place(Go(s, w, row).at) == Place(row, Min(Target(s, w), |RowAt(width, lines, row)|))
  {
    var s := ScreenOf(width, lines);
    var target := Target(s, w);
    if width > 0 {
      UnitCursorIsInside(width, lines, w.at);
    }
    UnitRowsWelcome(width, lines, row, target);
    UnitAim(width, lines, row, target);
  }

  lemma UnitAim(width: int, lines: seq<Line>, row: nat, target: nat)
    requires AllUnit(lines) && row < |WrapLines(width, lines)|
    requires target < Width(RowAt(width, lines, row)) || LastOfItsLine(width, lines, row)
    ensures ScreenOf(width, lines).place(Aim(width, lines, row, target)) == Place(row, Min(target, |RowAt(width, lines, row)|))
  {
    UnitRow(width, lines, row);
    AimLands(width, lines, row, target);
    UnitPlaceAimedAt(RowAt(width, lines, row), LastOfItsLine(width, lines, row), row, target);
  }

  lemma UnitPlaceAimedAt(r: Line, last: bool, row: nat, target: nat)
    requires UnitWidths(r) && (target < Width(r) || last)
    ensures PlaceAimedAt(r, last, row, Min(target, Width(r))) == Place(row, Min(target, |r|))
  {
    UnitWidth(r);
    var col := Min(target, Width(r));
    GraphemeAtWidthIsLongest(r, col);
    var g := GraphemeAtWidth(r, col);
    UnitWidth(r[..g]);
    if g < |r| {
      UnitWidth(r[..g + 1]);
    }
  }

  lemma {:induction false} UnitRow(width: int, lines: seq<Line>, row: nat)
    requires AllUnit(lines) && row < |WrapLines(width, lines)|
    ensures UnitWidths(RowAt(width, lines, row))
    decreases |lines|
  {
    var rows := Wrap(lines[0], width);
    WrapGivesRows(lines[0], width);
    if row < |rows| {
      RowsAreUnit(rows, lines[0], row);
    } else {
      UnitRow(width, lines[1..], row - |rows|);
    }
  }

  /** ... and k Ups followed by k Downs always bring the cursor back. */
  lemma {:induction false} UnitUpsThenDownsRestore(width: int, lines: seq<Line>, w: Walker, k: nat)
    requires ValidPosition(lines, w.at) && AllUnit(lines) && !w.afterVertical
    requires k <= InternalToTerminal(width, lines, w.at).row
    ensures
      var s := ScreenOf(width, lines);
      && s.place(Ups(s, w, k).at).row == s.place(w.at).row - k
      && Downs(s, Ups(s, w, k), k).at == w.at
  {
    var q := InternalToTerminal(width, lines, w.at);
    CursorIsOnScreen(width, lines, w.at);
    if width > 0 {
      UnitCursorIsInside(width, lines, w.at);
    }
    forall r {:trigger RowAt(width, lines, r)} | q.row - k <= r < q.row
      ensures q.col < Width(RowAt(width, lines, r)) || LastOfItsLine(width, lines, r)
    {
      UnitRowsWelcome(width, lines, r, q.col);
    }
    UpsThenDownsRestore(width, lines, w, k);
  }
}
