/** Byte ranges with a style: what the highlighter produces and the painter consumes
    (lib/r_highlight.ml, lib/view.ml). */
module StyledRanges {
  datatype Style =
    | Plain | Number | StringStyle | Comment | Keyword | Constant | Operator | Ident | Function | Bracket | Error

  datatype StyledRange = StyledRange(startByte: int, endByte: int, style: Style)

  predicate Covers(r: StyledRange, byte: int) {
    r.startByte <= byte < r.endByte
  }

  /** The style of the first range that covers the byte; `Plain` when none does. */
  function StyleOf(ranges: seq<StyledRange>, byte: int): Style {
    if ranges == [] then Plain
    else if Covers(ranges[0], byte) then ranges[0].style
    else StyleOf(ranges[1..], byte)
  }

  /** Ranges one after the other, without overlap. */
  ghost predicate InOrder(ranges: seq<StyledRange>) {
    && (forall i :: 0 <= i < |ranges| ==> ranges[i].startByte <= ranges[i].endByte)
    && (forall i, j :: 0 <= i < j < |ranges| ==> ranges[i].endByte <= ranges[j].startByte)
  }

  /** Ranges with their starts in order; they may overlap. */
  ghost predicate Ascending(ranges: seq<StyledRange>) {
    forall i, j :: 0 <= i < j < |ranges| ==> ranges[i].startByte <= ranges[j].startByte
  }

  /** Ranges that are not empty and follow each other without gap or overlap from `lo` to `hi`. */
  ghost predicate Tiles(ranges: seq<StyledRange>, lo: int, hi: int) {
    if ranges == [] then lo == hi
    else ranges[0].startByte == lo < ranges[0].endByte && Tiles(ranges[1..], ranges[0].endByte, hi)
  }

  /** No range could be joined with the one after it. */
  ghost predicate Maximal(ranges: seq<StyledRange>) {
    forall i :: 0 <= i < |ranges| - 1 ==> ranges[i].style != ranges[i + 1].style
  }

  lemma {:induction false} TilesAppend(a: seq<StyledRange>, b: seq<StyledRange>, lo: int, mid: int, hi: int)
    requires Tiles(a, lo, mid) && Tiles(b, mid, hi)
    ensures Tiles(a + b, lo, hi)
  {
    if a == [] {
      assert a + b == b;
    } else {
      assert (a + b)[1..] == a[1..] + b;
      TilesAppend(a[1..], b, a[0].endByte, mid, hi);
    }
  }

  lemma {:induction false} TilesBounds(ranges: seq<StyledRange>, lo: int, hi: int)
    requires Tiles(ranges, lo, hi)
    ensures lo <= hi && (lo == hi <==> ranges == [])
    ensures forall i :: 0 <= i < |ranges| ==> lo <= ranges[i].startByte < ranges[i].endByte <= hi
    ensures ranges != [] ==> ranges[|ranges| - 1].endByte == hi
    ensures InOrder(ranges)
  {
    if ranges != [] {
      TilesBounds(ranges[1..], ranges[0].endByte, hi);
    }
  }

  /** Two tilings by maximal runs that give every byte the same style are the same list: tiling, maximality
      and the style of each byte say all there is to say about a highlighted line. */
  lemma {:induction false} MaximalTilingIsUnique(a: seq<StyledRange>, b: seq<StyledRange>, lo: int, hi: int)
    requires Tiles(a, lo, hi) && Tiles(b, lo, hi) && Maximal(a) && Maximal(b)
    requires forall byte :: lo <= byte < hi ==> StyleOf(a, byte) == StyleOf(b, byte)
    ensures a == b
  {
    TilesBounds(a, lo, hi);
    TilesBounds(b, lo, hi);
    if a != [] {
      assert StyleOf(a, lo) == a[0].style && StyleOf(b, lo) == b[0].style;
      if a[0].endByte < b[0].endByte {
        RunEnds(a, b, lo, hi);
        assert false;
      } else if b[0].endByte < a[0].endByte {
        RunEnds(b, a, lo, hi);
        assert false;
      }
      forall byte | a[0].endByte <= byte < hi
        ensures StyleOf(a[1..], byte) == StyleOf(b[1..], byte)
      {
        assert StyleOf(a, byte) == StyleOf(b, byte);
      }
      MaximalTilingIsUnique(a[1..], b[1..], a[0].endByte, hi);
      assert a == [a[0]] + a[1..] && b == [b[0]] + b[1..];
    }
  }

  /** A maximal run does not end where a run of the same style goes on. */
  lemma RunEnds(a: seq<StyledRange>, b: seq<StyledRange>, lo: int, hi: int)
    requires a != [] && b != [] && Tiles(a, lo, hi) && Tiles(b, lo, hi) && Maximal(a)
    requires a[0].style == b[0].style && a[0].endByte < b[0].endByte
    ensures exists byte :: lo <= byte < hi && StyleOf(a, byte) != StyleOf(b, byte)
  {
    TilesBounds(a, lo, hi);
    TilesBounds(b, lo, hi);
    var byte := a[0].endByte;
    assert Tiles(a[1..], byte, hi);
    assert a[1].startByte == byte;
    assert StyleOf(a, byte) == StyleOf(a[1..], byte) == a[1].style;
    assert StyleOf(b, byte) == b[0].style;
  }

  /** Adds a range at the end, or makes the last one longer if it has the same style and ends there. */
  function JoinLast(row: seq<StyledRange>, r: StyledRange): seq<StyledRange> {
    var last := |row| - 1;
    if row != [] && row[last].style == r.style && row[last].endByte == r.startByte
    then row[..last] + [row[last].(endByte := r.endByte)]
    else row + [r]
  }

  lemma {:induction false} StyleOfAppend(a: seq<StyledRange>, b: seq<StyledRange>, byte: int)
    ensures StyleOf(a + b, byte) == if exists i :: 0 <= i < |a| && Covers(a[i], byte) then StyleOf(a, byte) else StyleOf(b, byte)
  {
    if a == [] {
      assert a + b == b;
    } else {
      assert (a + b)[1..] == a[1..] + b;
      StyleOfAppend(a[1..], b, byte);
      assert forall i :: 1 <= i < |a| && Covers(a[i], byte) ==> Covers(a[1..][i - 1], byte);
      assert forall i :: 0 <= i < |a[1..]| && Covers(a[1..][i], byte) ==> Covers(a[i + 1], byte);
    }
  }

  /** Every byte of a tiling is covered. */
  lemma {:induction false} TilesCover(ranges: seq<StyledRange>, lo: int, hi: int, byte: int)
    requires Tiles(ranges, lo, hi) && lo <= byte < hi
    ensures exists i :: 0 <= i < |ranges| && Covers(ranges[i], byte)
  {
    if !Covers(ranges[0], byte) {
      TilesCover(ranges[1..], ranges[0].endByte, hi, byte);
      var i :| 0 <= i < |ranges[1..]| && Covers(ranges[1..][i], byte);
      assert Covers(ranges[i + 1], byte);
    }
  }

  lemma AppendTiles(row: seq<StyledRange>, style: Style, lo: int, mid: int, hi: int)
    requires Tiles(row, lo, mid) && mid < hi
    ensures
      var row' := row + [StyledRange(mid, hi, style)];
      && Tiles(row', lo, hi)
      && (forall byte :: lo <= byte < hi ==> StyleOf(row', byte) == if byte < mid then StyleOf(row, byte) else style)
  {
    var seg := StyledRange(mid, hi, style);
    TilesAppend(row, [seg], lo, mid, hi);
    TilesBounds(row, lo, mid);
    forall byte | lo <= byte < hi
      ensures StyleOf(row + [seg], byte) == if byte < mid then StyleOf(row, byte) else style
    {
      StyleOfAppend(row, [seg], byte);
      if byte < mid {
        TilesCover(row, lo, mid, byte);
      }
    }
  }

  /** Joining extends the tiling, keeps the runs maximal and the earlier bytes as they were. */
  lemma JoinLastTiles(row: seq<StyledRange>, style: Style, lo: int, mid: int, hi: int)
    requires Tiles(row, lo, mid) && Maximal(row) && mid < hi
    ensures
      var row' := JoinLast(row, StyledRange(mid, hi, style));
      && Tiles(row', lo, hi) && Maximal(row') && row' != []
      && (forall byte :: lo <= byte < hi ==> StyleOf(row', byte) == if byte < mid then StyleOf(row, byte) else style)
  {
    var last := |row| - 1;
    TilesBounds(row, lo, mid);
    if row != [] && row[last].style == style {
      LastGrows(row, style, lo, mid, hi);
    } else {
      AppendTiles(row, style, lo, mid, hi);
    }
  }

  lemma LastGrows(row: seq<StyledRange>, style: Style, lo: int, mid: int, hi: int)
    requires Tiles(row, lo, mid) && mid < hi && row != [] && row[|row| - 1].style == style
    ensures
      var last := |row| - 1;
      var row' := row[..last] + [StyledRange(row[last].startByte, hi, style)];
      && Tiles(row', lo, hi)
      && (forall byte :: lo <= byte < hi ==> StyleOf(row', byte) == if byte < mid then StyleOf(row, byte) else style)
  {
    var last := |row| - 1;
    TilesBounds(row, lo, mid);
    TilesInit(row, lo, mid);
    AppendTiles(row[..last], style, lo, row[last].startByte, hi);
    AppendTiles(row[..last], style, lo, row[last].startByte, mid);
    assert row == row[..last] + [StyledRange(row[last].startByte, mid, style)];
  }

  lemma {:induction false} TilesInit(ranges: seq<StyledRange>, lo: int, hi: int)
    requires Tiles(ranges, lo, hi) && ranges != []
    ensures Tiles(ranges[..|ranges| - 1], lo, ranges[|ranges| - 1].startByte)
  {
    if |ranges| > 1 {
      TilesInit(ranges[1..], ranges[0].endByte, hi);
      assert ranges[..|ranges| - 1][1..] == ranges[1..][..|ranges| - 2];
    }
  }
}
