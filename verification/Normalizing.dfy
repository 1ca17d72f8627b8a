/**
  Normalizing the ranges of a line (`merge_ranges` and `normalize_ranges` of lib/r_highlight.ml): they are sorted,
  clipped to the text, the gaps between them filled, and neighbours of one style joined.
*/
module Normalizing {
  import opened Numbers
  import opened StyledRanges

  // ------------------------------------------------------------- sorting and merging

  predicate SortsBefore(a: StyledRange, b: StyledRange) {
    a.startByte < b.startByte || (a.startByte == b.startByte && a.endByte <= b.endByte)
  }

  /** Stable insertion: behind everything that does not sort after it. */
  function Insert(r: StyledRange, sorted: seq<StyledRange>): seq<StyledRange> {
    if sorted == [] || !SortsBefore(sorted[0], r) then [r] + sorted
    else [sorted[0]] + Insert(r, sorted[1..])
  }

  /** `List.sort`, which keeps equal elements in their order. */
  function Sort(ranges: seq<StyledRange>): seq<StyledRange> {
    if ranges == [] then [] else
      var last := |ranges| - 1;
      Insert(ranges[last], Sort(ranges[..last]))
  }

  function MergeOnto(acc: seq<StyledRange>, ranges: seq<StyledRange>): seq<StyledRange>
    decreases |ranges|
  {
    if ranges == [] then acc else MergeOnto(JoinLast(acc, ranges[0]), ranges[1..])
  }

  function MergeRanges(ranges: seq<StyledRange>): seq<StyledRange> {
    MergeOnto([], ranges)
  }

  function Gap(from: int, to: int): seq<StyledRange> {
    if from < to then [StyledRange(from, to, Plain)] else []
  }

  /** The loop of `normalize_ranges` over sorted ranges, from `pos` on. */
  function Clip(textLen: nat, pos: int, sorted: seq<StyledRange>): seq<StyledRange>
    decreases |sorted|
  {
    if sorted == [] then Gap(pos, textLen)
    else
      var r := sorted[0];
      var startByte, endByte := Max(pos, Max(0, r.startByte)), Min(textLen, r.endByte);
      Gap(pos, startByte) +
        if endByte <= startByte then Clip(textLen, pos, sorted[1..])
        else [StyledRange(startByte, endByte, r.style)] + Clip(textLen, endByte, sorted[1..])
  }

  function NormalizeRanges(textLen: nat, ranges: seq<StyledRange>): seq<StyledRange> {
    MergeRanges(Clip(textLen, 0, Sort(ranges)))
  }

  // ------------------------------------------------------- what normalizing achieves

  ghost predicate Sorted(ranges: seq<StyledRange>) {
    forall i, j :: 0 <= i < j < |ranges| ==> SortsBefore(ranges[i], ranges[j])
  }

  lemma {:induction false} InsertSorts(r: StyledRange, sorted: seq<StyledRange>)
    requires Sorted(sorted)
    ensures Sorted(Insert(r, sorted))
    ensures multiset(Insert(r, sorted)) == multiset(sorted) + multiset{r}
  {
    if sorted != [] {
      assert sorted == [sorted[0]] + sorted[1..];
      if SortsBefore(sorted[0], r) {
        InsertSorts(r, sorted[1..]);
        var rest := Insert(r, sorted[1..]);
        forall j | 0 <= j < |rest|
          ensures SortsBefore(sorted[0], rest[j])
        {
          assert rest[j] in multiset(rest);
        }
      }
    }
  }

  /** By their first bytes, and with the same first byte by their last ones. */
  ghost predicate InByteOrder(ranges: seq<StyledRange>) {
    forall i, j :: 0 <= i < j < |ranges| ==>
      || ranges[i].startByte < ranges[j].startByte
      || (ranges[i].startByte == ranges[j].startByte && ranges[i].endByte <= ranges[j].endByte)
  }

  lemma {:induction false} SortSorts(ranges: seq<StyledRange>)
    ensures Sorted(Sort(ranges))
    ensures multiset(Sort(ranges)) == multiset(ranges)
  {
    if ranges != [] {
      var last := |ranges| - 1;
      SortSorts(ranges[..last]);
      InsertSorts(ranges[last], Sort(ranges[..last]));
      assert ranges == ranges[..last] + [ranges[last]];
    }
  }

  lemma {:induction false} SortOrdersBytes(ranges: seq<StyledRange>)
    ensures InByteOrder(Sort(ranges)) && multiset(Sort(ranges)) == multiset(ranges)
  {
    SortSorts(ranges);
    assert forall i, j :: 0 <= i < j < |Sort(ranges)| ==> SortsBefore(Sort(ranges)[i], Sort(ranges)[j]);
  }

  lemma {:induction false} NoneCovers(ranges: seq<StyledRange>, byte: int)
    requires forall i :: 0 <= i < |ranges| ==> !Covers(ranges[i], byte)
    ensures StyleOf(ranges, byte) == Plain
  {
    if ranges != [] {
      NoneCovers(ranges[1..], byte);
    }
  }

  // --------------------------------------------------------------- the style of every byte

  ghost predicate NoneEmpty(ranges: seq<StyledRange>) {
    forall i :: 0 <= i < |ranges| ==> ranges[i].startByte < ranges[i].endByte
  }

  /** In or out of the text, overlapping or not: each byte of the text keeps the style of the first range that
      covers it. */
  lemma {:induction false} ClipKeepsStyle(textLen: nat, pos: int, sorted: seq<StyledRange>, byte: int)
    requires Sorted(sorted) && 0 <= pos <= byte < textLen
    ensures StyleOf(Clip(textLen, pos, sorted), byte) == StyleOf(sorted, byte)
    decreases |sorted|
  {
    if sorted != [] {
      var r := sorted[0];
      var startByte, endByte := Max(pos, Max(0, r.startByte)), Min(textLen, r.endByte);
      var rest := if endByte <= startByte then Clip(textLen, pos, sorted[1..])
                  else [StyledRange(startByte, endByte, r.style)] + Clip(textLen, endByte, sorted[1..]);
      BehindGap(pos, startByte, rest, byte);
      if byte < startByte {
        NoneCovers(sorted, byte);
      } else if endByte <= startByte {
        ClipKeepsStyle(textLen, pos, sorted[1..], byte);
      } else if endByte <= byte {
        ClipKeepsStyle(textLen, endByte, sorted[1..], byte);
      }
    }
  }

  lemma BehindGap(from: int, to: int, rest: seq<StyledRange>, byte: int)
    requires from <= byte
    ensures StyleOf(Gap(from, to) + rest, byte) == if byte < to then Plain else StyleOf(rest, byte)
  {
    if from < to {
      assert (Gap(from, to) + rest)[1..] == rest;
    } else {
      assert Gap(from, to) + rest == rest;
    }
  }

  /** Not empty, with their starts in order from `pos` on. */
  ghost predicate Shaped(ranges: seq<StyledRange>, pos: int) {
    NoneEmpty(ranges) && Ascending(ranges) && forall i :: 0 <= i < |ranges| ==> pos <= ranges[i].startByte
  }

  lemma PutBefore(first: seq<StyledRange>, rest: seq<StyledRange>, pos: int, next: int)
    requires |first| <= 1 && Shaped(first, pos) && Shaped(rest, next)
    requires pos <= next && forall i :: 0 <= i < |first| ==> first[i].startByte <= next
    ensures Shaped(first + rest, pos)
  {
  }

  lemma {:induction false} ClipShape(textLen: nat, pos: int, sorted: seq<StyledRange>)
    requires 0 <= pos <= textLen
    ensures
      var out := Clip(textLen, pos, sorted);
      Shaped(out, pos) && if out == [] then pos == textLen else out[0].startByte == pos
    decreases |sorted|
  {
    if sorted != [] {
      var r := sorted[0];
      var startByte, endByte := Max(pos, Max(0, r.startByte)), Min(textLen, r.endByte);
      if endByte <= startByte {
        ClipShape(textLen, pos, sorted[1..]);
        PutBefore(Gap(pos, startByte), Clip(textLen, pos, sorted[1..]), pos, pos);
      } else {
        var run, rest := [StyledRange(startByte, endByte, r.style)], Clip(textLen, endByte, sorted[1..]);
        ClipShape(textLen, endByte, sorted[1..]);
        PutBefore(run, rest, startByte, endByte);
        PutBefore(Gap(pos, startByte), run + rest, pos, startByte);
      }
    }
  }

  /** Joining two ranges that touch changes the style of no byte. */
  lemma {:induction false} JoinKeepsStyle(a: seq<StyledRange>, x: StyledRange, y: StyledRange, b: seq<StyledRange>, byte: int)
    requires x.style == y.style && x.startByte <= x.endByte == y.startByte <= y.endByte
    ensures StyleOf(a + [x.(endByte := y.endByte)] + b, byte) == StyleOf(a + [x] + ([y] + b), byte)
  {
    var z := x.(endByte := y.endByte);
    if a == [] {
      assert (a + [z] + b)[1..] == b;
      assert (a + [x] + ([y] + b))[1..] == [y] + b;
      assert ([y] + b)[1..] == b;
    } else {
      assert (a + [z] + b)[1..] == a[1..] + [z] + b;
      assert (a + [x] + ([y] + b))[1..] == a[1..] + [x] + ([y] + b);
      JoinKeepsStyle(a[1..], x, y, b, byte);
    }
  }

  predicate Joins(acc: seq<StyledRange>, r: StyledRange) {
    acc != [] && acc[|acc| - 1].style == r.style && acc[|acc| - 1].endByte == r.startByte
  }

  /** One turn of merging: nothing but a join of two neighbours, if anything. */
  lemma JoinLastCases(acc: seq<StyledRange>, ranges: seq<StyledRange>)
    requires ranges != []
    ensures
      var r, rest := ranges[0], ranges[1..];
      if Joins(acc, r) then
        var a, x := acc[..|acc| - 1], acc[|acc| - 1];
        acc + ranges == a + [x] + ([r] + rest) && JoinLast(acc, r) + rest == a + [x.(endByte := r.endByte)] + rest
      else JoinLast(acc, r) + rest == acc + ranges
  {
  }

  lemma {:induction false} MergeKeepsStyle(acc: seq<StyledRange>, ranges: seq<StyledRange>, byte: int)
    requires NoneEmpty(acc + ranges)
    ensures StyleOf(MergeOnto(acc, ranges), byte) == StyleOf(acc + ranges, byte)
    decreases |ranges|
  {
    if ranges == [] {
      assert acc + ranges == acc;
    } else {
      JoinLastCases(acc, ranges);
      StaysNotEmpty(acc, ranges);
      MergeKeepsStyle(JoinLast(acc, ranges[0]), ranges[1..], byte);
      if Joins(acc, ranges[0]) {
        assert (acc + ranges)[|acc| - 1] == acc[|acc| - 1] && (acc + ranges)[|acc|] == ranges[0];
        JoinKeepsStyle(acc[..|acc| - 1], acc[|acc| - 1], ranges[0], ranges[1..], byte);
      }
    }
  }

  lemma StaysNotEmpty(acc: seq<StyledRange>, ranges: seq<StyledRange>)
    requires ranges != [] && NoneEmpty(acc + ranges)
    ensures NoneEmpty(JoinLast(acc, ranges[0]) + ranges[1..])
  {
    var all, now := acc + ranges, JoinLast(acc, ranges[0]) + ranges[1..];
    forall i | 0 <= i < |now|
      ensures now[i].startByte < now[i].endByte
    {
      if Joins(acc, ranges[0]) {
        assert all[|acc| - 1] == acc[|acc| - 1] && all[|acc|] == ranges[0];
        assert i != |acc| - 1 ==> now[i] == all[if i < |acc| then i else i + 1];
      } else {
        assert now[i] == all[i];
      }
    }
  }

  lemma {:induction false} MergeAscends(acc: seq<StyledRange>, ranges: seq<StyledRange>)
    requires Ascending(acc + ranges)
    ensures Ascending(MergeOnto(acc, ranges))
    decreases |ranges|
  {
    if ranges == [] {
      assert acc + ranges == acc;
    } else {
      StaysAscending(acc, ranges);
      MergeAscends(JoinLast(acc, ranges[0]), ranges[1..]);
    }
  }

  lemma StaysAscending(acc: seq<StyledRange>, ranges: seq<StyledRange>)
    requires ranges != [] && Ascending(acc + ranges)
    ensures Ascending(JoinLast(acc, ranges[0]) + ranges[1..])
  {
    var all, now := acc + ranges, JoinLast(acc, ranges[0]) + ranges[1..];
    var skip := if Joins(acc, ranges[0]) then |acc| else |all|;
    forall i | 0 <= i < |now|
      ensures now[i].startByte == all[if i < skip then i else i + 1].startByte
    {
    }
  }

  // ------------------------------------------------------------------- when the text is tiled

  /** Whatever clipping leaves empty begins no later than where the ranges before it reach.  (An empty range within
      the text that nothing before it reaches is harmful, and so is one that begins behind the end of the text.) */
  predicate Harmless(textLen: nat, pos: int, sorted: seq<StyledRange>)
    decreases |sorted|
  {
    if sorted == [] then true
    else
      var startByte, endByte := Max(pos, Max(0, sorted[0].startByte)), Min(textLen, sorted[0].endByte);
      if endByte <= startByte then startByte == pos && Harmless(textLen, pos, sorted[1..])
      else Harmless(textLen, endByte, sorted[1..])
  }

  /** How far ranges reach within the text, from `pos` on. */
  function Reach(textLen: nat, pos: int, ranges: seq<StyledRange>): int
    decreases |ranges|
  {
    if ranges == [] then pos else Reach(textLen, Max(pos, Min(textLen, ranges[0].endByte)), ranges[1..])
  }

  predicate HasBytes(textLen: nat, r: StyledRange) {
    Max(0, r.startByte) < Min(textLen, r.endByte)
  }

  /** Range by range: each has a byte of the text or begins no later than where the ranges before it reach. */
  ghost predicate EachHarmless(textLen: nat, pos: int, sorted: seq<StyledRange>) {
    forall i {:trigger sorted[i]} :: 0 <= i < |sorted| ==>
      HasBytes(textLen, sorted[i]) || sorted[i].startByte <= Reach(textLen, pos, sorted[..i])
  }

  lemma {:induction false} HarmlessIff(textLen: nat, pos: int, sorted: seq<StyledRange>)
    requires 0 <= pos <= textLen
    ensures Harmless(textLen, pos, sorted) <==> EachHarmless(textLen, pos, sorted)
    decreases |sorted|
  {
    if sorted != [] {
      var startByte, endByte := Max(pos, Max(0, sorted[0].startByte)), Min(textLen, sorted[0].endByte);
      var next := Max(pos, endByte);
      EachHarmlessStep(textLen, pos, sorted);
      HarmlessIff(textLen, next, sorted[1..]);
    }
  }

  lemma EachHarmlessStep(textLen: nat, pos: int, sorted: seq<StyledRange>)
    requires sorted != []
    ensures EachHarmless(textLen, pos, sorted) <==>
      && (HasBytes(textLen, sorted[0]) || sorted[0].startByte <= pos)
      && EachHarmless(textLen, Max(pos, Min(textLen, sorted[0].endByte)), sorted[1..])
  {
    var next := Max(pos, Min(textLen, sorted[0].endByte));
    assert sorted[..0] == [];
    forall i | 1 <= i < |sorted|
      ensures Reach(textLen, pos, sorted[..i]) == Reach(textLen, next, sorted[1..][..i - 1])
    {
      assert sorted[..i][1..] == sorted[1..][..i - 1];
    }
    if EachHarmless(textLen, pos, sorted) {
      forall i | 0 <= i < |sorted[1..]|
        ensures HasBytes(textLen, sorted[1..][i]) || sorted[1..][i].startByte <= Reach(textLen, next, sorted[1..][..i])
      {
        assert sorted[1..][i] == sorted[i + 1];
      }
    }
  }

  lemma {:induction false} TilesRest(a: seq<StyledRange>, b: seq<StyledRange>, lo: int, mid: int, hi: int)
    requires Tiles(a, lo, mid)
    ensures Tiles(a + b, lo, hi) <==> Tiles(b, mid, hi)
  {
    if a == [] {
      assert a + b == b;
    } else {
      assert (a + b)[1..] == a[1..] + b;
      TilesRest(a[1..], b, a[0].endByte, mid, hi);
    }
  }

  lemma GapTiles(from: int, to: int)
    requires from <= to
    ensures Tiles(Gap(from, to), from, to)
  {
  }

  /** Clipping tiles the rest of the text exactly when the ranges are harmless. */
  lemma {:induction false} ClipTilesIff(textLen: nat, pos: int, sorted: seq<StyledRange>)
    requires 0 <= pos <= textLen
    ensures Tiles(Clip(textLen, pos, sorted), pos, textLen) <==> Harmless(textLen, pos, sorted)
    decreases |sorted|
  {
    if sorted == [] {
      GapTiles(pos, textLen);
    } else {
      var r := sorted[0];
      var startByte, endByte := Max(pos, Max(0, r.startByte)), Min(textLen, r.endByte);
      GapTiles(pos, startByte);
      if endByte <= startByte {
        var rest := Clip(textLen, pos, sorted[1..]);
        ClipTilesIff(textLen, pos, sorted[1..]);
        ClipShape(textLen, pos, sorted[1..]);
        TilesRest(Gap(pos, startByte), rest, pos, startByte, textLen);
        assert startByte == pos ==> Gap(pos, startByte) + rest == rest;
      } else {
        var run := [StyledRange(startByte, endByte, r.style)];
        ClipTilesIff(textLen, endByte, sorted[1..]);
        TilesRest(run, Clip(textLen, endByte, sorted[1..]), startByte, endByte, textLen);
        TilesRest(Gap(pos, startByte), run + Clip(textLen, endByte, sorted[1..]), pos, startByte, textLen);
      }
    }
  }

  lemma {:induction false} JoinTilesIff(a: seq<StyledRange>, x: StyledRange, y: StyledRange, b: seq<StyledRange>, lo: int, hi: int)
    requires x.startByte < x.endByte == y.startByte < y.endByte
    ensures Tiles(a + [x.(endByte := y.endByte)] + b, lo, hi) <==> Tiles(a + [x] + ([y] + b), lo, hi)
  {
    var z := x.(endByte := y.endByte);
    if a == [] {
      assert (a + [z] + b)[1..] == b;
      assert (a + [x] + ([y] + b))[1..] == [y] + b;
      assert ([y] + b)[1..] == b;
    } else {
      assert (a + [z] + b)[1..] == a[1..] + [z] + b;
      assert (a + [x] + ([y] + b))[1..] == a[1..] + [x] + ([y] + b);
      JoinTilesIff(a[1..], x, y, b, a[0].endByte, hi);
    }
  }

  /** Merging neither makes nor spoils a tiling. */
  lemma {:induction false} MergeTilesIff(acc: seq<StyledRange>, ranges: seq<StyledRange>, lo: int, hi: int)
    requires NoneEmpty(acc + ranges)
    ensures Tiles(MergeOnto(acc, ranges), lo, hi) <==> Tiles(acc + ranges, lo, hi)
    decreases |ranges|
  {
    if ranges == [] {
      assert acc + ranges == acc;
    } else {
      JoinLastCases(acc, ranges);
      StaysNotEmpty(acc, ranges);
      MergeTilesIff(JoinLast(acc, ranges[0]), ranges[1..], lo, hi);
      if Joins(acc, ranges[0]) {
        assert (acc + ranges)[|acc| - 1] == acc[|acc| - 1] && (acc + ranges)[|acc|] == ranges[0];
        JoinTilesIff(acc[..|acc| - 1], acc[|acc| - 1], ranges[0], ranges[1..], lo, hi);
      }
    }
  }

  /** Merging keeps a tiling with the style of every byte, and makes its runs maximal. */
  lemma {:induction false} MergeOntoTiles(acc: seq<StyledRange>, ranges: seq<StyledRange>, lo: int, mid: int, hi: int)
    requires Tiles(acc, lo, mid) && Maximal(acc) && Tiles(ranges, mid, hi)
    ensures
      var out := MergeOnto(acc, ranges);
      && Tiles(out, lo, hi) && Maximal(out)
      && (forall byte :: lo <= byte < hi ==> StyleOf(out, byte) == if byte < mid then StyleOf(acc, byte) else StyleOf(ranges, byte))
    decreases |ranges|
  {
    if ranges != [] {
      var r := ranges[0];
      JoinLastTiles(acc, r.style, lo, mid, r.endByte);
      assert r == StyledRange(mid, r.endByte, r.style);
      TilesBounds(ranges[1..], r.endByte, hi);
      MergeOntoTiles(JoinLast(acc, r), ranges[1..], lo, r.endByte, hi);
    }
  }

  /** Whatever the ranges: each byte of the text has the style of the first range, in sorted order, that covers it,
      and is `Plain` where there is none, and the painter, which wants the starts in order, can read the result.  It is
      the one tiling of the text by maximal runs exactly when the ranges are harmless. */
  lemma NormalizeSpec(textLen: nat, ranges: seq<StyledRange>)
    ensures
      var out := NormalizeRanges(textLen, ranges);
      && (forall byte :: 0 <= byte < textLen ==> StyleOf(out, byte) == StyleOf(Sort(ranges), byte))
      && Ascending(out)
      && (Tiles(out, 0, textLen) <==> Harmless(textLen, 0, Sort(ranges)))
      && (Harmless(textLen, 0, Sort(ranges)) ==> Maximal(out))
  {
    var sorted := Sort(ranges);
    var clipped := Clip(textLen, 0, sorted);
    SortSorts(ranges);
    ClipShape(textLen, 0, sorted);
    assert [] + clipped == clipped;
    forall byte | 0 <= byte < textLen
      ensures StyleOf(MergeOnto([], clipped), byte) == StyleOf(sorted, byte)
    {
      MergeKeepsStyle([], clipped, byte);
      ClipKeepsStyle(textLen, 0, sorted, byte);
    }
    MergeAscends([], clipped);
    MergeTilesIff([], clipped, 0, textLen);
    ClipTilesIff(textLen, 0, sorted);
    if Harmless(textLen, 0, sorted) {
      MergeOntoTiles([], clipped, 0, 0, textLen);
    }
  }

  /** Ranges that tile some bytes from the first on are harmless exactly when none begins behind the text. */
  lemma {:induction false} TilingIsHarmlessIff(textLen: nat, sorted: seq<StyledRange>, lo: nat, hi: int)
    requires Tiles(sorted, lo, hi)
    ensures Harmless(textLen, Min(lo, textLen), sorted) <==> NoneBehind(sorted, textLen)
    decreases |sorted|
  {
    if sorted != [] {
      TilingIsHarmlessIff(textLen, sorted[1..], sorted[0].endByte, hi);
      assert NoneBehind(sorted, textLen) <==> sorted[0].startByte <= textLen && NoneBehind(sorted[1..], textLen) by {
        assert sorted == [sorted[0]] + sorted[1..];
      }
    }
  }

  /** A range may begin at the end of the text, but not after it. */
  predicate NoneBehind(ranges: seq<StyledRange>, textLen: nat) {
    forall r :: r in ranges ==> r.startByte <= textLen
  }

  /** An empty range: the text before it is in the list twice. */
  lemma EmptyRangesBreakTheTiling()
    ensures NormalizeRanges(5, [StyledRange(3, 3, Number)]) == [StyledRange(0, 3, Plain), StyledRange(0, 5, Plain)]
  {
    var r := StyledRange(3, 3, Number);
    assert [r][..0] == [];
    assert Sort([r]) == [r];
    assert [r][1..] == [];
    assert Clip(5, 0, []) == [StyledRange(0, 5, Plain)];
    assert Clip(5, 0, [r]) == [StyledRange(0, 3, Plain)] + [StyledRange(0, 5, Plain)];
    var a, b := StyledRange(0, 3, Plain), StyledRange(0, 5, Plain);
    assert [a, b][1..] == [b] && [b][1..] == [];
    assert JoinLast([], a) == [a] && JoinLast([a], b) == [a, b];
    assert MergeOnto([a], [b]) == MergeOnto([a, b], []);
  }
}
