/**
  The Up and Down keys (lib/normal_mode.ml, `shift_history` of lib/mode_common.ml, `universal_corrections` of
  lib/update.ml).  In Normal mode they move the cursor, but on the first and the last line and while the history is
  being leafed through they go to the history; in shell and AI mode they always do.
*/
module VerticalKeys {
  import opened Numbers
  import opened Wrappers
  import opened UnicodeString
  import opened FrontendTypes
  import opened VerticalMoves

  datatype RecallBase = RecallBase(lines: seq<Line>, normal: bool)

  /** What the history recalls: a text of at least one line, and whether it was submitted in Normal mode. */
  type Recall = r: RecallBase | r.lines != [] witness RecallBase([[]], true)

  /** `flipping` is set from the key that recalled the text to the next one. */
  datatype Input = Input(lines: seq<Line>, cursor: Walker, normal: bool, flipping: bool)

  /** The history answers, or has nothing to offer; the key is remembered as vertical in any case. */
  function ShiftHistory(i: Input, answer: Option<Recall>): Input {
    match answer
    case None => i.(cursor := i.cursor.(afterVertical := true), flipping := false)
    case Some(r) =>
      var last := |r.lines| - 1;
      Input(r.lines, Walker(Position(last, |r.lines[last]|), true, i.cursor.persistentCol), r.normal, true)
  }

  /** The screen on which a text is shown. */
  type View = seq<Line> -> Screen

  function ViewOf(width: int): View {
    (lines: seq<Line>) => ScreenOf(width, lines)
  }

  function UpKey(view: View, i: Input, older: Option<Recall>): Input {
    if !i.normal || i.cursor.at.line == 0 || i.flipping then ShiftHistory(i, older)
    else i.(cursor := MoveUp(view(i.lines), i.cursor))
  }

  function DownKey(view: View, i: Input, newer: Option<Recall>): Input {
    if !i.normal || i.cursor.at.line >= |i.lines| - 1 || i.flipping then ShiftHistory(i, newer)
    else i.(cursor := MoveDown(view(i.lines), i.cursor))
  }

  /** `k` Ups, the history answering the j-th with `older(j)` if it is asked. */
  function UpKeys(view: View, i: Input, older: nat -> Option<Recall>, k: nat): Input {
    if k == 0 then i else UpKey(view, UpKeys(view, i, older, k - 1), older(k - 1))
  }

  function DownKeys(view: View, i: Input, newer: nat -> Option<Recall>, k: nat): Input {
    if k == 0 then i else DownKey(view, DownKeys(view, i, newer, k - 1), newer(k - 1))
  }

  ghost predicate ValidInput(i: Input) {
    ValidPosition(i.lines, i.cursor.at)
  }

  /** Whatever the history answers, the cursor is within the text. */
  lemma KeysStayInText(width: int, i: Input, answer: Option<Recall>)
    requires ValidInput(i)
    ensures ValidInput(UpKey(ViewOf(width), i, answer)) && ValidInput(DownKey(ViewOf(width), i, answer))
  {
    MovesStayInText(width, i.lines, i.cursor);
  }

  predicate NotBehind(p: Position, q: Position) {
    p.line < q.line || (p.line == q.line && p.col <= q.col)
  }

  /** A key on the first or last line, while leafing, or outside of Normal mode goes to the history.  What that recalls replaces
      the text and the mode, with the cursor behind everything, and is leafed through with the next key; if it has nothing,
      text, cursor and mode stay. */
  lemma KeysAskHistory(view: View, i: Input, answer: Option<Recall>, up: bool)
    requires ValidInput(i)
    requires !i.normal || i.flipping || i.cursor.at.line == if up then 0 else |i.lines| - 1
    ensures
      var i' := if up then UpKey(view, i, answer) else DownKey(view, i, answer);
      match answer
      case None => i'.lines == i.lines && i'.cursor.at == i.cursor.at && i'.normal == i.normal && !i'.flipping
      case Some(r) =>
        && i'.lines == r.lines && i'.normal == r.normal && i'.flipping
        && ValidInput(i') && forall p :: ValidPosition(r.lines, p) ==> NotBehind(p, i'.cursor.at)
  {
  }

  // ------------------------------------------------------------------ lines and rows

  /** The first row of the last line. */
  function LastLineRow(width: int, lines: seq<Line>): nat
    requires lines != []
  {
    RowsBefore(width, lines, |lines| - 1)
  }

  /** The last row of the first line. */
  function FirstLineEnd(width: int, lines: seq<Line>): int
    requires lines != []
  {
    |Wrap(lines[0], width)| - 1
  }

  lemma RowTellsLine(width: int, lines: seq<Line>, p: Position)
    requires ValidPosition(lines, p)
    ensures
      var row := InternalToTerminal(width, lines, p).row;
      && (p.line == 0 <==> row <= FirstLineEnd(width, lines))
      && (p.line == |lines| - 1 <==> LastLineRow(width, lines) <= row)
  {
    WrapGivesRows(lines[p.line], width);
    CursorIsInRow(Wrap(lines[p.line], width), lines[p.line], p.col);
    RowsBeforeStep(width, lines, p.line);
    RowsBeforeStep(width, lines, 0);
    if p.line > 0 {
      RowsBeforeMonotonic(width, lines, 1, p.line);
    }
    if p.line < |lines| - 1 {
      RowsBeforeMonotonic(width, lines, p.line + 1, |lines| - 1);
    }
  }

  lemma {:induction false} AllRows(width: int, lines: seq<Line>)
    ensures RowsBefore(width, lines, |lines|) == |WrapLines(width, lines)|
  {
    if lines != [] {
      AllRows(width, lines[1..]);
    }
  }

  lemma LinesInOrder(width: int, lines: seq<Line>)
    requires |lines| > 1
    ensures FirstLineEnd(width, lines) < LastLineRow(width, lines) < |WrapLines(width, lines)|
  {
    RowsBeforeStep(width, lines, 0);
    RowsBeforeMonotonic(width, lines, 1, |lines| - 1);
    RowsBeforeStep(width, lines, |lines| - 1);
    AllRows(width, lines);
  }

  // ----------------------------------------------------- keys on a screen, without a history

  /** Above row `first` and below row `last` there is nowhere to go. */
  function StepUp(s: Screen, first: int, w: Walker): Walker {
    if s.place(w.at).row <= first then w.(afterVertical := true) else MoveUp(s, w)
  }

  function StepDown(s: Screen, last: nat, w: Walker): Walker {
    if last <= s.place(w.at).row then w.(afterVertical := true) else MoveDown(s, w)
  }

  function StepsUp(s: Screen, first: int, w: Walker, k: nat): Walker {
    if k == 0 then w else StepUp(s, first, StepsUp(s, first, w, k - 1))
  }

  function StepsDown(s: Screen, last: nat, w: Walker, k: nat): Walker {
    if k == 0 then w else StepDown(s, last, StepsDown(s, last, w, k - 1))
  }

  lemma {:induction false} StepsUpKeepTrack(s: Screen, first: nat, w: Walker, row: nat, target: nat, k: nat)
    requires OnTrack(s, w, row, target) && first < row
    requires forall r :: first <= r < row ==> Welcoming(s, r, target)
    ensures OnTrack(s, StepsUp(s, first, w, k), Max(row - k, first), target)
    ensures k > 0 ==> StepsUp(s, first, w, k).afterVertical
  {
    if k > 0 {
      StepsUpKeepTrack(s, first, w, row, target, k - 1);
      if row - k >= first {
        assert Welcoming(s, row - k, target);
      }
    }
  }

  lemma {:induction false} StepsDownKeepTrack(s: Screen, last: nat, w: Walker, row: nat, target: nat, k: nat)
    requires OnTrack(s, w, row, target) && w.afterVertical && last < s.height
    requires forall r :: row < r <= last ==> Welcoming(s, r, target)
    ensures
      var w' := StepsDown(s, last, w, k);
      OnTrack(s, w', if last <= row then row else Min(row + k, last), target) && w'.afterVertical
  {
    if k > 0 {
      StepsDownKeepTrack(s, last, w, row, target, k - 1);
      if row + k <= last {
        assert Welcoming(s, row + k, target);
      }
    }
  }

  /** Coming back from below the first stop: exactly when the way down stops where the way up began. */
  lemma StepsRestoreIff(s: Screen, first: nat, last: nat, w: Walker, row: nat, target: nat, k: nat)
    requires OnTrack(s, w, row, target) && first < row && last < s.height && k > 0
    requires forall r: nat :: r < row || r <= last ==> Welcoming(s, r, target)
    ensures StepsDown(s, last, StepsUp(s, first, w, k), k).at == w.at <==> row == last || (row < last && k <= row - first)
  {
    StepsUpKeepTrack(s, first, w, row, target, k);
    StepsDownKeepTrack(s, last, StepsUp(s, first, w, k), Max(row - k, first), target, k);
  }

  /** Aiming at a row never leads above it. */
  ghost predicate NeverAbove(s: Screen) {
    forall row: nat, target: nat :: row < s.height ==> s.place(s.aim(row, target)).row >= row
  }

  lemma {:induction false} StepsDownGoDown(s: Screen, last: nat, w: Walker, k: nat)
    requires NeverAbove(s) && last < s.height
    ensures
      var row, row' := s.place(w.at).row, s.place(StepsDown(s, last, w, k).at).row;
      row <= row' && (row < last && k > 0 ==> row < row')
  {
    if k > 0 {
      StepsDownGoDown(s, last, w, k - 1);
    }
  }

  // --------------------------------------------------------------------- k Ups and k Downs

  const SILENT: nat -> Option<Recall> := _ => None

  /** A position in Normal mode that the history has not just filled in. */
  ghost predicate InNormalMode(i: Input) {
    ValidInput(i) && i.normal && !i.flipping
  }

  /** What the keys need to know of a screen: its rows tell the first and the last line, and moves stay in the text. */
  ghost predicate Laid(s: Screen, lines: seq<Line>, first: int, last: nat) {
    && (forall p: Position {:trigger s.place(p)} :: ValidPosition(lines, p) ==>
          (p.line == 0 <==> s.place(p).row <= first) && (p.line == |lines| - 1 <==> last <= s.place(p).row))
    && (forall w: Walker {:trigger MoveUp(s, w)} :: ValidPosition(lines, w.at) ==> ValidPosition(lines, MoveUp(s, w).at))
    && (forall w: Walker {:trigger MoveDown(s, w)} :: ValidPosition(lines, w.at) ==> ValidPosition(lines, MoveDown(s, w).at))
  }

  lemma {:induction false} TextIsLaid(width: int, lines: seq<Line>)
    requires lines != []
    ensures Laid(ScreenOf(width, lines), lines, FirstLineEnd(width, lines), LastLineRow(width, lines))
  {
    var s := ScreenOf(width, lines);
    forall p | ValidPosition(lines, p)
      ensures (p.line == 0 <==> s.place(p).row <= FirstLineEnd(width, lines))
      ensures (p.line == |lines| - 1 <==> LastLineRow(width, lines) <= s.place(p).row)
    {
      RowTellsLine(width, lines, p);
    }
    forall w: Walker | ValidPosition(lines, w.at)
      ensures ValidPosition(lines, MoveUp(s, w).at) && ValidPosition(lines, MoveDown(s, w).at)
    {
      MovesStayInText(width, lines, w);
    }
  }

  lemma {:induction false} SilentUps(view: View, i: Input, first: int, last: nat, k: nat)
    requires InNormalMode(i) && Laid(view(i.lines), i.lines, first, last)
    ensures UpKeys(view, i, SILENT, k) == i.(cursor := StepsUp(view(i.lines), first, i.cursor, k))
    ensures InNormalMode(UpKeys(view, i, SILENT, k))
  {
    if k > 0 {
      SilentUps(view, i, first, last, k - 1);
      var i1 := UpKeys(view, i, SILENT, k - 1);
      assert i1.cursor.at.line == 0 <==> view(i.lines).place(i1.cursor.at).row <= first;
    }
  }

  lemma {:induction false} SilentDowns(view: View, i: Input, first: int, last: nat, k: nat)
    requires InNormalMode(i) && Laid(view(i.lines), i.lines, first, last)
    ensures DownKeys(view, i, SILENT, k) == i.(cursor := StepsDown(view(i.lines), last, i.cursor, k))
    ensures InNormalMode(DownKeys(view, i, SILENT, k))
  {
    if k > 0 {
      SilentDowns(view, i, first, last, k - 1);
      var i1 := DownKeys(view, i, SILENT, k - 1);
      assert i1.cursor.at.line == |i.lines| - 1 <==> last <= view(i.lines).place(i1.cursor.at).row;
    }
  }

  lemma TextIsNeverAbove(width: int, lines: seq<Line>)
    ensures NeverAbove(ScreenOf(width, lines))
  {
    var s := ScreenOf(width, lines);
    forall row: nat, target: nat | row < s.height
      ensures s.place(s.aim(row, target)).row >= row
    {
      WelcomingIff(width, lines, row, target);
    }
  }

  lemma UnitWelcome(width: int, lines: seq<Line>, row: nat, target: nat)
    requires AllUnit(lines) && row < |WrapLines(width, lines)| && (width > 0 ==> target < width)
    ensures Welcoming(ScreenOf(width, lines), row, target)
  {
    UnitRowsWelcome(width, lines, row, target);
    WelcomingIff(width, lines, row, target);
  }

  /** As keys, with nothing in the history, k Ups and k Downs bring the cursor back exactly when there is one line, or the
      cursor is on the first row of the last line, or it is above that and below the first line by at least k rows: not
      on the first line, and not further down on the last one, where the last Down goes to the history. */
  lemma {:induction false} KeysRestoreIff(width: int, i: Input, k: nat)
    requires InNormalMode(i) && !i.cursor.afterVertical && AllUnit(i.lines) && k > 0
    ensures i.lines != []
    ensures
      var row := InternalToTerminal(width, i.lines, i.cursor.at).row;
      var first, last := FirstLineEnd(width, i.lines), LastLineRow(width, i.lines);
      DownKeys(ViewOf(width), UpKeys(ViewOf(width), i, SILENT, k), SILENT, k).cursor.at == i.cursor.at <==>
        |i.lines| == 1 || (first < row && (row == last || (row < last && k <= row - first)))
  {
    var s, w := ScreenOf(width, i.lines), i.cursor;
    var first, last := FirstLineEnd(width, i.lines), LastLineRow(width, i.lines);
    TextIsLaid(width, i.lines);
    SilentUps(ViewOf(width), i, first, last, k);
    SilentDowns(ViewOf(width), UpKeys(ViewOf(width), i, SILENT, k), first, last, k);
    RowTellsLine(width, i.lines, w.at);
    if |i.lines| == 1 {
      OneLineStays(s, first, last, w, k);
    } else if s.place(w.at).row <= first {
      LinesInOrder(width, i.lines);
      FirstLineStays(s, first, w, k);
      TextIsNeverAbove(width, i.lines);
      StepsDownGoDown(s, last, w.(afterVertical := true), k);
    } else {
      LinesInOrder(width, i.lines);
      OnTrackHere(width, i, last);
      StepsRestoreIff(s, first, last, w, s.place(w.at).row, Target(s, w), k);
    }
  }

  lemma OnTrackHere(width: int, i: Input, last: nat)
    requires ValidInput(i) && !i.cursor.afterVertical && AllUnit(i.lines) && last < |WrapLines(width, i.lines)|
    ensures
      var s, w := ScreenOf(width, i.lines), i.cursor;
      var row, target := s.place(w.at).row, Target(s, w);
      OnTrack(s, w, row, target) && forall r: nat :: r < row || r <= last ==> Welcoming(s, r, target)
  {
    var s, w := ScreenOf(width, i.lines), i.cursor;
    var row, target := s.place(w.at).row, Target(s, w);
    CursorIsOnTrack(width, i.lines, w);
    CursorIsOnScreen(width, i.lines, w.at);
    if width > 0 {
      UnitCursorIsInside(width, i.lines, w.at);
    }
    forall r: nat | r < row || r <= last
      ensures Welcoming(s, r, target)
    {
      UnitWelcome(width, i.lines, r, target);
    }
  }

  lemma {:induction false} FirstLineStays(s: Screen, first: int, w: Walker, k: nat)
    requires s.place(w.at).row <= first
    ensures StepsUp(s, first, w, k) == if k == 0 then w else w.(afterVertical := true)
  {
    if k > 0 {
      FirstLineStays(s, first, w, k - 1);
    }
  }

  lemma {:induction false} LastLineStays(s: Screen, last: nat, w: Walker, k: nat)
    requires last <= s.place(w.at).row
    ensures StepsDown(s, last, w, k) == if k == 0 then w else w.(afterVertical := true)
  {
    if k > 0 {
      LastLineStays(s, last, w, k - 1);
    }
  }

  lemma OneLineStays(s: Screen, first: int, last: nat, w: Walker, k: nat)
    requires last <= s.place(w.at).row <= first
    ensures StepsDown(s, last, StepsUp(s, first, w, k), k).at == w.at
  {
    FirstLineStays(s, first, w, k);
    LastLineStays(s, last, StepsUp(s, first, w, k), k);
  }

  // ------------------------------------------------------- keys that leave the history alone

  lemma NotAsked(view: View, i: Input, first: int, last: nat, answer: Option<Recall>)
    requires InNormalMode(i) && Laid(view(i.lines), i.lines, first, last)
    ensures view(i.lines).place(i.cursor.at).row > first ==> UpKey(view, i, answer) == UpKey(view, i, None)
    ensures view(i.lines).place(i.cursor.at).row < last ==> DownKey(view, i, answer) == DownKey(view, i, None)
  {
  }

  /** The input is `i` but for the cursor, which is on row `row`. */
  ghost predicate OnRow(view: View, i: Input, i': Input, row: int) {
    InNormalMode(i') && i'.lines == i.lines && view(i.lines).place(i'.cursor.at).row == row
  }

  /** Ups below the first line are not answered by the history. */
  lemma {:induction false} UpsLeaveHistoryAlone(view: View, i: Input, older: nat -> Option<Recall>, first: int, last: nat, row: nat, k: nat)
    requires Laid(view(i.lines), i.lines, first, last) && k <= row - first
    requires forall j: nat :: j < k ==> OnRow(view, i, UpKeys(view, i, SILENT, j), row - j)
    ensures UpKeys(view, i, older, k) == UpKeys(view, i, SILENT, k)
  {
    if k > 0 {
      UpsLeaveHistoryAlone(view, i, older, first, last, row, k - 1);
      assert OnRow(view, i, UpKeys(view, i, SILENT, k - 1), row - (k - 1));
      NotAsked(view, UpKeys(view, i, SILENT, k - 1), first, last, older(k - 1));
    }
  }

  /** Neither are Downs above the last line. */
  lemma {:induction false} DownsLeaveHistoryAlone(view: View, i: Input, newer: nat -> Option<Recall>, first: int, last: nat, row: nat, k: nat)
    requires Laid(view(i.lines), i.lines, first, last) && row + k <= last
    requires forall j: nat :: j < k ==> OnRow(view, i, DownKeys(view, i, SILENT, j), row + j)
    ensures DownKeys(view, i, newer, k) == DownKeys(view, i, SILENT, k)
  {
    if k > 0 {
      DownsLeaveHistoryAlone(view, i, newer, first, last, row, k - 1);
      assert OnRow(view, i, DownKeys(view, i, SILENT, k - 1), row + (k - 1));
      NotAsked(view, DownKeys(view, i, SILENT, k - 1), first, last, newer(k - 1));
    }
  }

  /** From no lower than the first row of the last line, k Ups that end no higher than the last row of the first one, and k
      Downs, bring the cursor back whatever the history would answer: it is not asked. */
  lemma KeysRestoreWhateverHistory(width: int, i: Input, older: nat -> Option<Recall>, newer: nat -> Option<Recall>, k: nat)
    requires InNormalMode(i) && !i.cursor.afterVertical && AllUnit(i.lines)
    requires
      var row := InternalToTerminal(width, i.lines, i.cursor.at).row;
      row <= LastLineRow(width, i.lines) && k <= row - FirstLineEnd(width, i.lines)
    ensures
      var i' := DownKeys(ViewOf(width), UpKeys(ViewOf(width), i, older, k), newer, k);
      i'.cursor.at == i.cursor.at && i'.lines == i.lines && InNormalMode(i')
  {
    if k > 0 {
      var s, first, last := ScreenOf(width, i.lines), FirstLineEnd(width, i.lines), LastLineRow(width, i.lines);
      RowTellsLine(width, i.lines, i.cursor.at);
      WrapGivesRows(i.lines[0], width);
      LinesInOrder(width, i.lines);
      TextIsLaid(width, i.lines);
      OnTrackHere(width, i, last);
      ThereAndBack(ViewOf(width), i, older, newer, first, last, k);
    }
  }

  lemma UpsTrack(view: View, i: Input, older: nat -> Option<Recall>, first: nat, last: nat, row: nat, target: nat, k: nat)
    requires InNormalMode(i) && Laid(view(i.lines), i.lines, first, last) && 0 < k <= row - first
    requires OnTrack(view(i.lines), i.cursor, row, target)
    requires forall r :: first <= r < row ==> Welcoming(view(i.lines), r, target)
    ensures
      var i' := UpKeys(view, i, older, k);
      && InNormalMode(i') && i'.lines == i.lines && i'.cursor.afterVertical
      && OnTrack(view(i.lines), i'.cursor, row - k, target)
  {
    forall j: nat | j <= k
      ensures OnRow(view, i, UpKeys(view, i, SILENT, j), row - j)
    {
      SilentUps(view, i, first, last, j);
      StepsUpKeepTrack(view(i.lines), first, i.cursor, row, target, j);
    }
    UpsLeaveHistoryAlone(view, i, older, first, last, row, k);
    SilentUps(view, i, first, last, k);
    StepsUpKeepTrack(view(i.lines), first, i.cursor, row, target, k);
  }

  lemma DownsTrack(view: View, i: Input, newer: nat -> Option<Recall>, first: int, last: nat, row: nat, target: nat, k: nat)
    requires InNormalMode(i) && Laid(view(i.lines), i.lines, first, last) && row + k <= last < view(i.lines).height
    requires OnTrack(view(i.lines), i.cursor, row, target) && i.cursor.afterVertical
    requires forall r :: row < r <= last ==> Welcoming(view(i.lines), r, target)
    ensures
      var i' := DownKeys(view, i, newer, k);
      InNormalMode(i') && i'.lines == i.lines && OnTrack(view(i.lines), i'.cursor, row + k, target)
  {
    forall j: nat | j <= k
      ensures OnRow(view, i, DownKeys(view, i, SILENT, j), row + j)
    {
      SilentDowns(view, i, first, last, j);
      StepsDownKeepTrack(view(i.lines), last, i.cursor, row, target, j);
    }
    DownsLeaveHistoryAlone(view, i, newer, first, last, row, k);
    SilentDowns(view, i, first, last, k);
    StepsDownKeepTrack(view(i.lines), last, i.cursor, row, target, k);
  }

  lemma {:induction false} ThereAndBack(view: View, i: Input, older: nat -> Option<Recall>, newer: nat -> Option<Recall>, first: nat, last: nat, k: nat)
    requires InNormalMode(i) && Laid(view(i.lines), i.lines, first, last) && last < view(i.lines).height && k > 0
    requires
      var s := view(i.lines);
      var row, target := s.place(i.cursor.at).row, Target(s, i.cursor);
      && OnTrack(s, i.cursor, row, target) && row <= last && k <= row - first
      && forall r: nat :: r < row || r <= last ==> Welcoming(s, r, target)
    ensures
      var i' := DownKeys(view, UpKeys(view, i, older, k), newer, k);
      i'.cursor.at == i.cursor.at && i'.lines == i.lines && InNormalMode(i')
  {
    var s := view(i.lines);
    var row, target := s.place(i.cursor.at).row, Target(s, i.cursor);
    UpsTrack(view, i, older, first, last, row, target, k);
    DownsTrack(view, UpKeys(view, i, older, k), newer, first, last, row - k, target, k);
  }

  // --------------------------------------------------------------- the remembered column

  /** Aiming at two columns, the first of which is on the screen, leads to the same position exactly when the row cuts
      both to the same column. */
  lemma AimsAgreeIff(width: int, lines: seq<Line>, row: nat, a: nat, b: nat)
    requires AllUnit(lines) && row < |WrapLines(width, lines)| && (width > 0 ==> a < width)
    ensures
      var n := |RowAt(width, lines, row)|;
      Aim(width, lines, row, a) == Aim(width, lines, row, b) <==> Min(a, n) == Min(b, n)
  {
    var n := |RowAt(width, lines, row)|;
    var s, p, q := ScreenOf(width, lines), Aim(width, lines, row, a), Aim(width, lines, row, b);
    AimLands(width, lines, row, a);
    AimLands(width, lines, row, b);
    UnitRowsWelcome(width, lines, row, a);
    UnitAim(width, lines, row, a);
    UnitRow(width, lines, row);
    UnitWidth(RowAt(width, lines, row));
    if b < Width(RowAt(width, lines, row)) || LastOfItsLine(width, lines, row) {
      UnitAim(width, lines, row, b);
      if Min(a, n) == Min(b, n) {
        RoundTrip(width, lines, p);
        RoundTrip(width, lines, q);
      }
    } else {
      WelcomingIff(width, lines, row, b);
      UnitRowsWelcome(width, lines, row, a);
    }
  }

  /** Below the first line there are rows, and above the last. */
  lemma RowsBeyond(width: int, lines: seq<Line>, p: Position)
    requires ValidPosition(lines, p) && |lines| > 1
    ensures
      var row := InternalToTerminal(width, lines, p).row;
      && row < |WrapLines(width, lines)|
      && (p.line == 0 ==> row + 1 < |WrapLines(width, lines)|)
      && (p.line == |lines| - 1 ==> 0 < row)
  {
    RowTellsLine(width, lines, p);
    LinesInOrder(width, lines);
    CursorIsOnScreen(width, lines, p);
    WrapGivesRows(lines[0], width);
  }

  /** A key that the history does not answer, and then the other one: it moves by the column of an earlier run. */
  lemma AfterFailedUp(view: View, i: Input, newer: Option<Recall>)
    requires i.normal && !i.flipping && i.cursor.at.line == 0 && |i.lines| > 1
    requires view(i.lines).place(i.cursor.at).row < view(i.lines).height - 1
    ensures
      var s := view(i.lines);
      var row := s.place(i.cursor.at).row + 1;
      && DownKey(view, i, newer).cursor.at == s.aim(row, Target(s, i.cursor))
      && DownKey(view, UpKey(view, i, None), newer).cursor.at == s.aim(row, i.cursor.persistentCol)
  {
  }

  lemma AfterFailedDown(view: View, i: Input, older: Option<Recall>)
    requires i.normal && !i.flipping && i.cursor.at.line == |i.lines| - 1 > 0
    requires view(i.lines).place(i.cursor.at).row > 0
    ensures
      var s := view(i.lines);
      var row := s.place(i.cursor.at).row - 1;
      && UpKey(view, i, older).cursor.at == s.aim(row, Target(s, i.cursor))
      && UpKey(view, DownKey(view, i, None), older).cursor.at == s.aim(row, i.cursor.persistentCol)
  {
  }

  /** When Up on the first line finds nothing in the history, the Down after it counts as the second key of a run: it goes
      where Down alone would have gone exactly when the row below cuts the column of an earlier run, which is in force
      still, and the column of the cursor to the same one. */
  lemma DownAfterFailedUpIff(width: int, i: Input, newer: Option<Recall>)
    requires InNormalMode(i) && !i.cursor.afterVertical && AllUnit(i.lines)
    requires i.cursor.at.line == 0 && |i.lines| > 1
    ensures
      var q := InternalToTerminal(width, i.lines, i.cursor.at);
      && q.row + 1 < |WrapLines(width, i.lines)|
      && var n := |RowAt(width, i.lines, q.row + 1)|;
      && ScreenOf(width, i.lines).place(DownKey(ViewOf(width), i, newer).cursor.at) == Place(q.row + 1, Min(q.col, n))
      && (DownKey(ViewOf(width), UpKey(ViewOf(width), i, None), newer).cursor.at == DownKey(ViewOf(width), i, newer).cursor.at <==>
            Min(i.cursor.persistentCol, n) == Min(q.col, n))
  {
    var q := InternalToTerminal(width, i.lines, i.cursor.at);
    RowsBeyond(width, i.lines, i.cursor.at);
    if width > 0 {
      UnitCursorIsInside(width, i.lines, i.cursor.at);
    }
    AfterFailedUp(ViewOf(width), i, newer);
    UnitMovesGoOneRow(width, i.lines, i.cursor, q.row + 1);
    AimsAgreeIff(width, i.lines, q.row + 1, q.col, i.cursor.persistentCol);
  }

  /** Likewise for Down on the last line and the Up after it. */
  lemma UpAfterFailedDownIff(width: int, i: Input, older: Option<Recall>)
    requires InNormalMode(i) && !i.cursor.afterVertical && AllUnit(i.lines)
    requires i.cursor.at.line == |i.lines| - 1 && |i.lines| > 1
    ensures
      var q := InternalToTerminal(width, i.lines, i.cursor.at);
      && 0 < q.row < |WrapLines(width, i.lines)|
      && var n := |RowAt(width, i.lines, q.row - 1)|;
      && ScreenOf(width, i.lines).place(UpKey(ViewOf(width), i, older).cursor.at) == Place(q.row - 1, Min(q.col, n))
      && (UpKey(ViewOf(width), DownKey(ViewOf(width), i, None), older).cursor.at == UpKey(ViewOf(width), i, older).cursor.at <==>
            Min(i.cursor.persistentCol, n) == Min(q.col, n))
  {
    var q := InternalToTerminal(width, i.lines, i.cursor.at);
    RowsBeyond(width, i.lines, i.cursor.at);
    if width > 0 {
      UnitCursorIsInside(width, i.lines, i.cursor.at);
    }
    AfterFailedDown(ViewOf(width), i, older);
    UnitMovesGoOneRow(width, i.lines, i.cursor, q.row - 1);
    AimsAgreeIff(width, i.lines, q.row - 1, q.col, i.cursor.persistentCol);
  }

  // ----------------------------------------------------------------------- two failures

  /** An empty line and one of two rows, in two columns: Up twice from the end, and Down twice, ends a row higher. */
  lemma KeysNeedNotRestore(i: Input, a: Glyph)
    requires a.width == 1 && i == Input([[], [a, a, a]], Walker(Position(1, 3), false, 0), true, false)
    ensures DownKeys(ViewOf(2), UpKeys(ViewOf(2), i, SILENT, 2), SILENT, 2).cursor.at != i.cursor.at
  {
    var l: Line := [a, a, a];
    assert i.lines[1..] == [l] && i.lines[0] == [] && Wrap([], 2) == [[]];
    assert RowsBefore(2, i.lines, 1) == 1 + RowsBefore(2, [l], 0) == 1;
    ThreeInTwo(l);
    KeysRestoreIff(2, i, 2);
  }

  lemma ThreeInTwo(l: Line)
    requires |l| == 3 && l[0].width == l[1].width == l[2].width == 1
    ensures FindRow(Wrap(l, 2), 3) == Place(1, 1)
  {
    assert FindEnd(l, 2, 2, 2) == 2 && FindEnd(l, 2, 1, 1) == 2 && FindEnd(l, 2, 0, 0) == 2;
    assert FindEnd(l, 2, 3, 1) == 3 && FindEnd(l, 2, 2, 0) == 3;
    assert WrapFrom(l, 2, 3) == [] && WrapFrom(l, 2, 2) == [l[2..3]];
    UnitWidth(l);
    var rows: seq<Line> := [l[0..2], l[2..3]];
    assert Wrap(l, 2) == rows;
    assert rows[1..] == [l[2..3]] && l[2..3][..1] == [l[2]];
    assert Width([l[2]]) == 1;
  }

  /** Two lines of one cluster, the column of an earlier run being 0: from the end of the first, Up and Down end before the
      cluster of the second, while Down alone goes behind it. */
  lemma OldColumnInForce(i: Input, a: Glyph, width: int)
    requires a.width == 1 && width > 1 && i == Input([[a], [a]], Walker(Position(0, 1), false, 0), true, false)
    ensures DownKey(ViewOf(width), UpKey(ViewOf(width), i, None), None).cursor.at != DownKey(ViewOf(width), i, None).cursor.at
  {
    var l: Line := [a];
    assert i.lines[1..] == [l] && [l][1..] == [];
    OneInMany(l, width);
    RowsBeyond(width, i.lines, i.cursor.at);
    DownAfterFailedUpIff(width, i, None);
  }

  lemma OneInMany(l: Line, width: int)
    requires |l| == 1 && l[0].width == 1 && width > 1
    ensures Wrap(l, width) == [l] && FindRow([l], 1) == Place(0, 1)
  {
    UnitWidth(l);
    assert l[0..1] == l && l[..1] == l;
    assert FindEnd(l, width, 1, 1) == 1 && FindEnd(l, width, 0, 0) == 1;
    assert WrapFrom(l, width, 1) == [];
    assert 1 % width == 1;
  }
}
