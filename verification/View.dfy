/**
  Painting a highlighted line (`wrap_styled_line` of lib/view.ml).  The painter cuts a line into rows in
  one pass over its clusters, without asking `Unicode_string.wrap`, on whose rows the cursor moves.
*/
module View {
  import opened UnicodeString
  import opened StyledRanges

  /** `add_segment`, with the row in reading order. */
  function AddSegment(row: seq<StyledRange>, style: Style, startByte: int, endByte: int): seq<StyledRange> {
    if startByte == endByte then row else JoinLast(row, StyledRange(startByte, endByte, style))
  }

  function AdvanceRanges(byte: int, ranges: seq<StyledRange>): seq<StyledRange> {
    if ranges != [] && ranges[0].endByte <= byte then AdvanceRanges(byte, ranges[1..]) else ranges
  }

  function StyleAt(byte: int, ranges: seq<StyledRange>): Style {
    if ranges != [] && Covers(ranges[0], byte) then ranges[0].style else Plain
  }

  // ------------------------------------------------------------- rows of the painter

  predicate FlushBefore(row: Line, c: Glyph, width: nat) {
    Width(row) == width || (Width(row) > 0 && Width(row) + c.width > width)
  }

  /** The rows the painter makes of the clusters from the `i`-th on, with `row` already begun. */
  function PaintedRows(l: Line, width: nat, i: nat, row: Line): seq<Line>
    requires i <= |l|
    decreases |l| - i
  {
    if i == |l| then if row != [] then [row] else []
    else if FlushBefore(row, l[i], width) then [row] + PaintCluster(l, width, i, [])
    else PaintCluster(l, width, i, row)
  }

  function PaintCluster(l: Line, width: nat, i: nat, row: Line): seq<Line>
    requires i < |l|
    decreases |l| - i, 0
  {
    var row' := row + [l[i]];
    if Width(row') > width then [row'] + PaintedRows(l, width, i + 1, []) else PaintedRows(l, width, i + 1, row')
  }

  /** No zero-width cluster meets a row that is exactly full, and no over-wide cluster a row of nothing but
      zero-width clusters.  `i` runs over the line and `row` holds what the current row has so far. */
  predicate Unambiguous(l: Line, width: nat, i: nat, row: Line)
    requires i <= |l|
    decreases |l| - i
  {
    i == |l| ||
    var w := Width(row);
    && !(w == width && l[i].width == 0)
    && !(row != [] && w == 0 && l[i].width > width)
    && (if w + l[i].width <= width then Unambiguous(l, width, i + 1, row + [l[i]])
        else if row == [] then Unambiguous(l, width, i + 1, [])
        else if l[i].width > width then Unambiguous(l, width, i + 1, [])
        else Unambiguous(l, width, i + 1, [l[i]]))
  }

  predicate PositiveWidths(l: Line) {
    forall i :: 0 <= i < |l| ==> l[i].width >= 1
  }

  lemma {:induction false} PositiveIsUnambiguous(l: Line, width: nat, i: nat, row: Line)
    requires width > 0 && i <= |l|
    requires PositiveWidths(l) && PositiveWidths(row)
    ensures Unambiguous(l, width, i, row)
    decreases |l| - i
  {
    if i < |l| {
      if Width(row) + l[i].width <= width {
        PositiveIsUnambiguous(l, width, i + 1, row + [l[i]]);
      } else if row == [] || l[i].width > width {
        PositiveIsUnambiguous(l, width, i + 1, []);
      } else {
        PositiveIsUnambiguous(l, width, i + 1, [l[i]]);
      }
    }
  }

  // --------------------------------------------------------- the two wrappers agree

  /** `Wrap`'s rows from the `i`-th cluster on, with `row` already begun. */
  function WrapRest(l: Line, width: nat, i: nat, row: Line): seq<Line>
    requires i <= |l|
    decreases |l| - i, |row|
  {
    if i == |l| then if row != [] then [row] else []
    else if Width(row) + l[i].width <= width then WrapRest(l, width, i + 1, row + [l[i]])
    else if row == [] then [[l[i]]] + WrapRest(l, width, i + 1, [])
    else [row] + WrapRest(l, width, i, [])
  }

  lemma {:induction false} WrapRestIsWrap(l: Line, width: nat, start: nat, i: nat)
    requires start <= i <= |l|
    requires FindEnd(l, width, start, 0) == FindEnd(l, width, i, Width(l[start..i]))
    requires Width(l[start..i]) <= width
    ensures WrapRest(l, width, i, l[start..i]) == WrapFrom(l, width, start)
    decreases |l| - i, i - start
  {
    var row := l[start..i];
    if i < |l| {
      var c := l[i];
      assert l[start..i + 1] == row + [c];
      WidthConcat(row, [c]);
      assert l[i..i] == [] && l[i + 1..i + 1] == [];
      if Width(row) + c.width <= width {
        WrapRestIsWrap(l, width, start, i + 1);
      } else if row == [] {
        WrapRestIsWrap(l, width, i + 1, i + 1);
        assert l[i..i + 1] == [c];
      } else {
        WrapRestIsWrap(l, width, i, i);
      }
    } else if start < |l| {
      assert WrapFrom(l, width, |l|) == [];
    }
  }

  lemma {:induction false} FirstRowGoesOn(l: Line, width: nat, i: nat, row: Line)
    requires i <= |l| && row != []
    ensures WrapRest(l, width, i, row) != [] && |WrapRest(l, width, i, row)[0]| >= |row|
    decreases |l| - i
  {
    if i < |l| && Width(row) + l[i].width <= width {
      FirstRowGoesOn(l, width, i + 1, row + [l[i]]);
    }
  }

  /** Painter and wrapper make the same rows exactly when neither of the two ambiguous situations arises. */
  lemma {:induction false} RowsAgreeIff(l: Line, width: nat, i: nat, row: Line)
    requires width > 0 && i <= |l| && Width(row) <= width
    ensures PaintedRows(l, width, i, row) == WrapRest(l, width, i, row) <==> Unambiguous(l, width, i, row)
    decreases |l| - i
  {
    if i < |l| {
      var c, w := l[i], Width(row);
      WidthConcat(row, [c]);
      assert Width([c]) == c.width && [] + [c] == [c];
      var painted, wrapped := PaintedRows(l, width, i, row), WrapRest(l, width, i, row);
      if w == width && c.width == 0 {
        FirstRowGoesOn(l, width, i + 1, row + [c]);
        assert painted[0] == row && |wrapped[0]| > |row|;
      } else if row != [] && w == 0 && c.width > width {
        assert painted == PaintCluster(l, width, i, row);
        assert Width(row + [c]) > width;
        assert painted[0] == row + [c] && wrapped[0] == row;
      } else if w + c.width <= width {
        RowsAgreeIff(l, width, i + 1, row + [c]);
      } else if row == [] {
        RowsAgreeIff(l, width, i + 1, []);
        SameTail([c], PaintedRows(l, width, i + 1, []), WrapRest(l, width, i + 1, []));
      } else {
        RowsAgreeAfterFlush(l, width, i, row);
      }
    }
  }

  lemma SameTail(row: Line, a: seq<Line>, b: seq<Line>)
    ensures [row] + a == [row] + b <==> a == b
  {
    assert ([row] + a)[1..] == a && ([row] + b)[1..] == b;
  }

  lemma {:induction false} RowsAgreeAfterFlush(l: Line, width: nat, i: nat, row: Line)
    requires width > 0 && i < |l| && Width(row) <= width
    requires row != [] && Width(row) + l[i].width > width && Width(row) > 0
    ensures PaintedRows(l, width, i, row) == WrapRest(l, width, i, row) <==> Unambiguous(l, width, i, row)
    decreases |l| - i, 0
  {
    var c := l[i];
    assert Width([c]) == c.width && [] + [c] == [c];
    SameTail(row, PaintCluster(l, width, i, []), WrapRest(l, width, i, []));
    if c.width > width {
      RowsAgreeIff(l, width, i + 1, []);
      SameTail([c], PaintedRows(l, width, i + 1, []), WrapRest(l, width, i + 1, []));
    } else {
      RowsAgreeIff(l, width, i + 1, [c]);
    }
  }

  // ---------------------------------------------------------------- one painted row

  /** `row` paints exactly the bytes of `chunk`, which starts at byte `start`: without gap or overlap, by
      runs that could not be longer, each cluster in the style of the range that holds its first byte. */
  ghost predicate Paints(row: seq<StyledRange>, ranges: seq<StyledRange>, chunk: Line, start: nat) {
    && Tiles(row, start, start + |Text(chunk)|)
    && Maximal(row)
    && forall i, byte :: 0 <= i < |chunk| && start + Offset(chunk, i) <= byte < start + Offset(chunk, i + 1) ==>
         StyleOf(row, byte) == StyleOf(ranges, start + Offset(chunk, i))
  }

  lemma PaintsNothing(ranges: seq<StyledRange>, start: nat)
    ensures Paints([], ranges, [], start)
  {
  }

  /** One more cluster in the row. */
  lemma {:induction false} PaintsOneMore(row: seq<StyledRange>, ranges: seq<StyledRange>, chunk: Line, start: nat, c: Glyph)
    requires Paints(row, ranges, chunk, start)
    ensures
      var mid := start + |Text(chunk)|;
      Paints(AddSegment(row, StyleOf(ranges, mid), mid, mid + |c.text|), ranges, chunk + [c], start)
  {
    var mid := start + |Text(chunk)|;
    var hi := mid + |c.text|;
    var row', chunk' := AddSegment(row, StyleOf(ranges, mid), mid, hi), chunk + [c];
    JoinLastTiles(row, StyleOf(ranges, mid), start, mid, hi);
    OffsetEnds(chunk);
    OffsetEnds(chunk');
    OffsetStep(chunk', |chunk|);
    assert chunk'[..|chunk|] == chunk[..|chunk|];
    forall i, byte | 0 <= i < |chunk'| && start + Offset(chunk', i) <= byte < start + Offset(chunk', i + 1)
      ensures StyleOf(row', byte) == StyleOf(ranges, start + Offset(chunk', i))
    {
      if i < |chunk| {
        assert chunk'[..i] == chunk[..i] && chunk'[..i + 1] == chunk[..i + 1];
        OffsetStep(chunk, i);
      }
    }
  }

  // --------------------------------------------------------------- the whole line

  ghost function StartOfRow(chunks: seq<Line>, k: nat): nat
    requires k <= |chunks|
  {
    |Text(Concat(chunks[..k]))|
  }

  /** Row for row, `rows` paint the bytes of `chunks`. */
  ghost predicate PaintsAll(rows: seq<seq<StyledRange>>, ranges: seq<StyledRange>, chunks: seq<Line>) {
    && |rows| == |chunks|
    && forall k :: 0 <= k < |rows| ==> Paints(rows[k], ranges, chunks[k], StartOfRow(chunks, k))
  }

  lemma {:induction false} PaintsAllAppend(rows: seq<seq<StyledRange>>, ranges: seq<StyledRange>, chunks: seq<Line>, row: seq<StyledRange>, chunk: Line)
    requires PaintsAll(rows, ranges, chunks)
    requires Paints(row, ranges, chunk, StartOfRow(chunks, |chunks|))
    ensures PaintsAll(rows + [row], ranges, chunks + [chunk])
    ensures StartOfRow(chunks + [chunk], |chunks| + 1) == StartOfRow(chunks, |chunks|) + |Text(chunk)|
  {
    forall k | 0 <= k < |rows| + 1
      ensures Paints((rows + [row])[k], ranges, (chunks + [chunk])[k], StartOfRow(chunks + [chunk], k))
    {
      assert (chunks + [chunk])[..k] == chunks[..k];
    }
    assert (chunks + [chunk])[..|chunks| + 1] == chunks[..|chunks|] + [chunk];
    ConcatAppend(chunks[..|chunks|], [chunk]);
    assert Concat([chunk]) == chunk + Concat([chunk][1..]) == chunk;
    TextConcat(Concat(chunks[..|chunks|]), chunk);
  }

  /** Ranges that end at or before a byte are of no use for it or any later byte. */
  lemma {:induction false} AdvanceKeepsStyles(byte: int, ranges: seq<StyledRange>)
    requires Ascending(ranges)
    ensures
      var rest := AdvanceRanges(byte, ranges);
      && Ascending(rest)
      && (forall b :: byte <= b ==> StyleOf(rest, b) == StyleOf(ranges, b))
      && StyleAt(byte, rest) == StyleOf(ranges, byte)
  {
    if ranges != [] && ranges[0].endByte <= byte {
      AdvanceKeepsStyles(byte, ranges[1..]);
    } else if ranges != [] && byte < ranges[0].startByte {
      NoneBefore(ranges[1..], byte);
    }
  }

  lemma {:induction false} NoneBefore(ranges: seq<StyledRange>, byte: int)
    requires forall i :: 0 <= i < |ranges| ==> byte < ranges[i].startByte
    ensures StyleOf(ranges, byte) == Plain
  {
    if ranges != [] {
      NoneBefore(ranges[1..], byte);
    }
  }

  function Sum(ws: seq<nat>): nat {
    if ws == [] then 0 else ws[0] + Sum(ws[1..])
  }

  lemma {:induction false} SumIsWidth(l: Line, ws: seq<nat>)
    requires |ws| == |l| && forall i :: 0 <= i < |l| ==> ws[i] == l[i].width
    ensures Sum(ws) == Width(l)
  {
    if l != [] {
      SumIsWidth(l[1..], ws[1..]);
    }
  }

  /** The rows that `Wrap` promises the cursor, as the painter makes them. */
  ghost function AllPaintedRows(l: Line, width: nat): seq<Line> {
    PaintedRows(l, width, 0, []) + if NeedsEmptyRow(l, width) then [[]] else []
  }

  lemma PaintedRowsStep(l: Line, width: nat, i: nat, row: Line)
    requires i < |l| && width > 0 && Width(row) <= width
    ensures
      var flushed := FlushBefore(row, l[i], width);
      var row1 := (if flushed then [] else row) + [l[i]];
      && Width(row1) == (if flushed then 0 else Width(row)) + l[i].width
      && PaintedRows(l, width, i, row) ==
           (if flushed then [row] else []) +
           (if Width(row1) > width then [row1] + PaintedRows(l, width, i + 1, []) else PaintedRows(l, width, i + 1, row1))
  {
    WidthConcat(row, [l[i]]);
    assert Width([l[i]]) == l[i].width && [] + [l[i]] == [l[i]];
  }

  lemma Regroup(before: seq<Line>, l: Line, width: nat, i: nat, row: Line)
    requires i < |l| && width > 0 && Width(row) <= width
    ensures
      var flushed := FlushBefore(row, l[i], width);
      var row1 := (if flushed then [] else row) + [l[i]];
      var mid := before + if flushed then [row] else [];
      before + PaintedRows(l, width, i, row) ==
        if Width(row1) > width then (mid + [row1]) + PaintedRows(l, width, i + 1, [])
        else mid + PaintedRows(l, width, i + 1, row1)
  {
    PaintedRowsStep(l, width, i, row);
  }

  /** The painter of a line in progress: `done` rows are finished, `row` is begun. */
  class Painter {
    var done: seq<seq<StyledRange>>
    var row: seq<StyledRange>
    var rowWidth: nat
    var active: seq<StyledRange>
    const ranges: seq<StyledRange>
    ghost var doneChunks: seq<Line>
    ghost var chunk: Line

    ghost predicate Valid()
      reads this
    {
      && Ascending(active)
      && rowWidth == Width(chunk)
      && (row == [] <==> chunk == [])
      && PaintsAll(done, ranges, doneChunks)
      && Paints(row, ranges, chunk, StartOfRow(doneChunks, |doneChunks|))
      && (forall b :: Position() <= b ==> StyleOf(active, b) == StyleOf(ranges, b))
    }

    /** The first byte that is not painted yet. */
    ghost function Position(): nat
      reads this
    {
      StartOfRow(doneChunks, |doneChunks|) + |Text(chunk)|
    }

    constructor (ranges: seq<StyledRange>)
      requires Ascending(ranges)
      ensures Valid() && doneChunks == [] && chunk == [] && this.ranges == ranges
    {
      this.ranges := ranges;
      done, row, rowWidth, active, doneChunks, chunk := [], [], 0, ranges, [], [];
    }

    method FlushRow()
      requires Valid()
      modifies this
      ensures Valid()
      ensures doneChunks == old(doneChunks) + [old(chunk)] && chunk == []
      ensures Position() == old(Position())
    {
      PaintsAllAppend(done, ranges, doneChunks, row, chunk);
      done := done + [row];
      row := [];
      rowWidth := 0;
      doneChunks, chunk := doneChunks + [chunk], [];
      PaintsNothing(ranges, StartOfRow(doneChunks, |doneChunks|));
    }

    method PaintOne(startByte: nat, endByte: nat, clusterWidth: nat, ghost c: Glyph)
      requires Valid() && startByte == Position() && endByte == startByte + |c.text| && clusterWidth == c.width
      modifies this`row, this`rowWidth, this`active, this`chunk
      ensures Valid()
      ensures chunk == old(chunk) + [c] && Position() == endByte
    {
      AdvanceKeepsStyles(startByte, active);
      PaintsOneMore(row, ranges, chunk, StartOfRow(doneChunks, |doneChunks|), c);
      JoinLastTiles(row, StyleOf(ranges, startByte), StartOfRow(doneChunks, |doneChunks|), startByte, endByte);
      WidthConcat(chunk, [c]);
      TextConcat(chunk, [c]);
      assert Width([c]) == c.width && Text([c]) == c.text;
      active := AdvanceRanges(startByte, active);
      row := AddSegment(row, StyleAt(startByte, active), startByte, endByte);
      rowWidth := rowWidth + clusterWidth;
      chunk := chunk + [c];
    }

    /** Makes room for a cluster. */
    method MakeRoom(width: nat, clusterWidth: nat, ghost c: Glyph)
      requires Valid() && 0 < width && clusterWidth == c.width
      modifies this
      ensures Valid() && Position() == old(Position())
      ensures doneChunks == old(doneChunks) + if FlushBefore(old(chunk), c, width) then [old(chunk)] else []
      ensures chunk == if FlushBefore(old(chunk), c, width) then [] else old(chunk)
    {
      if rowWidth == width {
        FlushRow();
      }
      if rowWidth > 0 && rowWidth + clusterWidth > width {
        FlushRow();
      }
    }

    /** One turn of the loop. */
    method TakeCluster(t: Packed, i: nat, width: nat, ghost l: Line)
      requires Valid() && t == Pack(l) && i < |l| && 0 < width
      requires Width(chunk) <= width && Position() == Offset(l, i)
      modifies this
      ensures Valid() && Width(chunk) <= width && Position() == Offset(l, i + 1)
      ensures doneChunks + PaintedRows(l, width, i + 1, chunk) == old(doneChunks) + PaintedRows(l, width, i, old(chunk))
    {
      Regroup(doneChunks, l, width, i, chunk);
      MakeRoom(width, t.widths[i], l[i]);
      ByteRangeAtIsCluster(l, i);
      OffsetStep(l, i);
      var range := ByteRangeAt(t, i);
      PaintOne(range.0, range.1, t.widths[i], l[i]);
      if rowWidth > width {
        FlushRow();
      }
    }

    /** The end of the loop. */
    method Finish()
      requires Valid()
      modifies this
      ensures Valid()
      ensures doneChunks == old(doneChunks) + if old(chunk) == [] then [] else [old(chunk)]
    {
      if row != [] {
        FlushRow();
      }
    }
  }

  method WrapStyledLine(width: int, t: Packed, ranges: seq<StyledRange>, ghost l: Line) returns (rows: seq<seq<StyledRange>>)
    requires t == Pack(l) && Ascending(ranges)
    ensures width <= 0 ==> rows == [ranges]
    ensures width > 0 && l == [] ==> rows == [[]]
    ensures width > 0 && l != [] ==> PaintsAll(rows, ranges, AllPaintedRows(l, width))
  {
    if width <= 0 {
      return [ranges];
    }
    TextOfNonEmpty(l);
    if |t.bytes| == 0 {
      return [[]];
    }
    SumIsWidth(l, t.widths);
    var totalWidth := Sum(t.widths);
    rows := PaintLoop(width, t, ranges, l);
    if totalWidth > 0 && totalWidth % width == 0 {
      ghost var chunks := PaintedRows(l, width, 0, []);
      PaintsNothing(ranges, StartOfRow(chunks, |chunks|));
      PaintsAllAppend(rows, ranges, chunks, [], []);
      rows := rows + [[]];
    } else {
      assert AllPaintedRows(l, width) == PaintedRows(l, width, 0, []);
    }
  }

  lemma TextOfNonEmpty(l: Line)
    ensures Text(l) == "" <==> l == []
  {
  }

  method PaintLoop(width: nat, t: Packed, ranges: seq<StyledRange>, ghost l: Line) returns (rows: seq<seq<StyledRange>>)
    requires t == Pack(l) && Ascending(ranges) && width > 0
    ensures PaintsAll(rows, ranges, PaintedRows(l, width, 0, []))
  {
    OffsetEnds(l);
    var p := new Painter(ranges);
    for i := 0 to |t.offsets|
      invariant p.Valid() && fresh(p)
      invariant Width(p.chunk) <= width
      invariant p.Position() == Offset(l, i)
      invariant p.doneChunks + PaintedRows(l, width, i, p.chunk) == PaintedRows(l, width, 0, [])
    {
      p.TakeCluster(t, i, width, l);
    }
    p.Finish();
    rows := p.done;
  }

  /** The painter shows the very rows on which the cursor moves, exactly when no zero-width cluster meets a
      full row and no over-wide cluster a row of zero-width clusters. */
  lemma PainterFollowsWrapIff(l: Line, width: nat)
    requires width > 0 && l != []
    ensures AllPaintedRows(l, width) == Wrap(l, width) <==> Unambiguous(l, width, 0, [])
  {
    RowsAgreeIff(l, width, 0, []);
    assert l[0..0] == [];
    WrapRestIsWrap(l, width, 0, 0);
    var tail: seq<Line> := if NeedsEmptyRow(l, width) then [[]] else [];
    SameInit(PaintedRows(l, width, 0, []), WrapFrom(l, width, 0), tail);
  }

  lemma SameInit(a: seq<Line>, b: seq<Line>, tail: seq<Line>)
    ensures a + tail == b + tail <==> a == b
  {
    if a + tail == b + tail {
      assert |a| == |b|;
      assert (a + tail)[..|a|] == a && (b + tail)[..|b|] == b;
    }
  }

  /** Lines without zero-width clusters are always painted on the cursor's rows. */
  lemma PainterFollowsWrap(l: Line, width: nat)
    requires width > 0 && l != [] && PositiveWidths(l)
    ensures AllPaintedRows(l, width) == Wrap(l, width)
  {
    PositiveIsUnambiguous(l, width, 0, []);
    PainterFollowsWrapIff(l, width);
  }

  /** A tab, which has no width, after a full row of two: the cursor sees one row of three clusters and the
      empty row for the end of the line, the painter begins a second row for the tab. */
  lemma {:induction false} PainterCanDiffer()
    ensures
      var l: Line := [Cluster("a", 1), Cluster("b", 1), Cluster("\t", 0)];
      Wrap(l, 2) == [l, []] && AllPaintedRows(l, 2) == [l[..2], l[2..], []]
  {
    var a, b, c: Glyph := Cluster("a", 1), Cluster("b", 1), Cluster("\t", 0);
    var l: Line := [a, b, c];
    WidthOfOne(a);
    WidthOfOne(b);
    WidthOfOne(c);
    WidthConcat([a], [b]);
    WidthConcat([a, b], [c]);
    assert [a] + [b] == [a, b] && [a, b] + [c] == l && [] + [a] == [a] && [] + [c] == [c];
    assert FindEnd(l, 2, 2, 2) == 3;
    assert l[0..3] == l;
    assert PaintedRows(l, 2, 3, [c]) == [[c]];
    assert PaintedRows(l, 2, 2, [a, b]) == [[a, b]] + [[c]];
    assert PaintedRows(l, 2, 1, [a]) == PaintedRows(l, 2, 2, [a, b]);
  }

  lemma WidthOfOne(c: Glyph)
    ensures Width([c]) == c.width
  {
  }
}
