/**
  Display text (lib/unicode_string.ml): a line is a sequence of grapheme clusters, each with its bytes
  and its display width.  How bytes fall into clusters and how wide a cluster is are given from
  outside.  The second half of the file relates the packed representation (bytes, offsets, widths)
  to this view.
*/
module UnicodeString {
  import opened Wrappers

  /** The characters of `text` stand for bytes. */
  datatype Cluster = Cluster(text: string, width: nat)

  type Glyph = c: Cluster | c.text != "" witness Cluster(" ", 1)

  type Line = seq<Glyph>

  function Width(l: Line): nat {
    if l == [] then 0 else l[0].width + Width(l[1..])
  }

  function Text(l: Line): string {
    if l == [] then "" else l[0].text + Text(l[1..])
  }

  function Concat(ls: seq<Line>): Line {
    if ls == [] then [] else ls[0] + Concat(ls[1..])
  }

  /** The width of the first `n` clusters, of all of them when there are fewer. */
  function PrefixWidth(l: Line, n: nat): nat {
    Width(if n <= |l| then l[..n] else l)
  }

  /** How many clusters lie wholly within the first `target` columns. */
  function GraphemeAtWidth(l: Line, target: int): (i: nat)
    ensures i <= |l|
  {
    if l == [] || l[0].width > target then 0 else 1 + GraphemeAtWidth(l[1..], target - l[0].width)
  }

  lemma {:induction false} WidthConcat(a: Line, b: Line)
    ensures Width(a + b) == Width(a) + Width(b)
  {
    if a == [] {
      assert a + b == b;
    } else {
      assert (a + b)[1..] == a[1..] + b;
      WidthConcat(a[1..], b);
    }
  }

  lemma {:induction false} TextConcat(a: Line, b: Line)
    ensures Text(a + b) == Text(a) + Text(b)
  {
    if a == [] {
      assert a + b == b;
    } else {
      assert (a + b)[1..] == a[1..] + b;
      TextConcat(a[1..], b);
    }
  }

  lemma {:induction false} ConcatAppend(ls: seq<Line>, ms: seq<Line>)
    ensures Concat(ls + ms) == Concat(ls) + Concat(ms)
  {
    if ls == [] {
      assert ls + ms == ms;
    } else {
      assert (ls + ms)[1..] == ls[1..] + ms;
      ConcatAppend(ls[1..], ms);
    }
  }

  lemma WidthStep(l: Line, i: nat)
    requires i < |l|
    ensures Width(l[..i + 1]) == Width(l[..i]) + l[i].width
  {
    assert l[..i + 1] == l[..i] + [l[i]];
    WidthConcat(l[..i], [l[i]]);
  }

  lemma WidthSlice(l: Line, i: nat, j: nat)
    requires i <= j <= |l|
    ensures Width(l[..j]) == Width(l[..i]) + Width(l[i..j])
  {
    assert l[..j] == l[..i] + l[i..j];
    WidthConcat(l[..i], l[i..j]);
  }

  /** `GraphemeAtWidth` is the length of the longest prefix that fits in `target` columns. */
  lemma {:induction false} GraphemeAtWidthIsLongest(l: Line, target: nat)
    ensures
      var i := GraphemeAtWidth(l, target);
      && Width(l[..i]) <= target
      && (i < |l| ==> Width(l[..i + 1]) > target)
  {
    if l != [] && l[0].width <= target {
      var i := GraphemeAtWidth(l, target);
      GraphemeAtWidthIsLongest(l[1..], target - l[0].width);
      assert l[..i] == [l[0]] + l[1..][..i - 1];
      WidthConcat([l[0]], l[1..][..i - 1]);
      if i < |l| {
        assert l[..i + 1] == [l[0]] + l[1..][..i];
        WidthConcat([l[0]], l[1..][..i]);
      }
    } else if l != [] {
      assert l[..1] == [l[0]];
    }
  }

  // -------------------------------------------------------------------- wrapping

  /** How far the row that holds `w` columns reaches, from the `i`-th cluster on. */
  function FindEnd(l: Line, width: nat, i: nat, w: nat): (end: nat)
    requires i <= |l|
    ensures i <= end <= |l|
    decreases |l| - i
  {
    if i == |l| || w + l[i].width > width then i else FindEnd(l, width, i + 1, w + l[i].width)
  }

  /** The rows from cluster `start` on. */
  function WrapFrom(l: Line, width: nat, start: nat): (rows: seq<Line>)
    requires start <= |l|
    ensures |rows| == 0 <==> start == |l|
    decreases |l| - start
  {
    if start == |l| then []
    else
      var end := FindEnd(l, width, start, 0);
      if end == start then [l[start..start + 1]] + WrapFrom(l, width, start + 1)
      else [l[start..end]] + WrapFrom(l, width, end)
  }

  lemma {:induction false} WrapFromRowsNotEmpty(l: Line, width: nat, start: nat)
    requires start <= |l|
    ensures forall k :: 0 <= k < |WrapFrom(l, width, start)| ==> WrapFrom(l, width, start)[k] != []
    decreases |l| - start
  {
    if start < |l| {
      var end := FindEnd(l, width, start, 0);
      WrapFromRowsNotEmpty(l, width, if end == start then start + 1 else end);
    }
  }

  /** An empty row follows a line that fills its rows, for the cursor to stand on. */
  predicate NeedsEmptyRow(l: Line, width: int) {
    width > 0 && Width(l) > 0 && Width(l) % width == 0
  }

  function Wrap(l: Line, width: int): (rows: seq<Line>)
    ensures rows != []
  {
    if width <= 0 then [l]
    else if l == [] then [[]]
    else WrapFrom(l, width, 0) + if NeedsEmptyRow(l, width) then [[]] else []
  }

  /** A row that may be shown: it fits, or is one cluster that cannot fit anywhere. */
  predicate Fits(row: Line, width: nat) {
    Width(row) <= width || |row| == 1
  }

  /** `rows` shows the whole of `l` in order. */
  ghost predicate Layout(rows: seq<Line>, l: Line, width: nat) {
    Concat(rows) == l && forall k :: 0 <= k < |rows| ==> Fits(rows[k], width)
  }

  lemma OneMoreCluster(l: Line, start: nat, i: nat)
    requires start <= i < |l|
    ensures Width(l[start..i + 1]) == Width(l[start..i]) + l[i].width
  {
    assert l[start..i + 1] == l[start..i] + [l[i]];
    WidthConcat(l[start..i], [l[i]]);
  }

  lemma {:induction false} FindEndIsMaximal(l: Line, width: nat, start: nat, i: nat)
    requires start <= i <= |l| && Width(l[start..i]) <= width
    ensures
      var end := FindEnd(l, width, i, Width(l[start..i]));
      && Width(l[start..end]) <= width
      && (end < |l| ==> Width(l[start..end + 1]) > width)
    decreases |l| - i
  {
    if i < |l| {
      OneMoreCluster(l, start, i);
      if Width(l[start..i]) + l[i].width <= width {
        FindEndIsMaximal(l, width, start, i + 1);
      }
    }
  }

  /** Wrapping loses nothing, keeps the order, and every row fits or is a single over-wide cluster. */
  lemma {:induction false} WrapFromIsLayout(l: Line, width: nat, start: nat)
    requires start <= |l|
    ensures Layout(WrapFrom(l, width, start), l[start..], width)
    decreases |l| - start
  {
    if start < |l| {
      var end := FindEnd(l, width, start, 0);
      assert l[start..start] == [];
      FindEndIsMaximal(l, width, start, start);
      var next := if end == start then start + 1 else end;
      WrapFromIsLayout(l, width, next);
      assert l[start..] == l[start..next] + l[next..];
      var rows := WrapFrom(l, width, start);
      assert rows[1..] == WrapFrom(l, width, next);
    }
  }

  lemma WrapIsLayout(l: Line, width: nat)
    requires width > 0
    ensures Layout(Wrap(l, width), l, width)
  {
    if l == [] {
      NoText([[]]);
    } else {
      WrapFromIsLayout(l, width, 0);
      assert l[0..] == l;
      if NeedsEmptyRow(l, width) {
        ConcatAppend(WrapFrom(l, width, 0), [[]]);
        NoText([[]]);
        assert l + [] == l;
      } else {
        assert Wrap(l, width) == WrapFrom(l, width, 0);
      }
    }
  }

  lemma NoText(rows: seq<Line>)
    requires rows == [[]]
    ensures Concat(rows) == []
  {
    assert rows[1..] == [];
    assert Concat(rows) == rows[0] + Concat(rows[1..]);
  }

  lemma WidthOfPart(l: Line, i: nat, j: nat, m: nat, n: nat)
    requires i <= j <= m <= n <= |l|
    ensures Width(l[j..m]) <= Width(l[i..n])
  {
    assert l[i..n] == l[i..j] + l[j..m] + l[m..n];
    WidthConcat(l[i..j] + l[j..m], l[m..n]);
    WidthConcat(l[i..j], l[j..m]);
  }

  /** Where the row that starts at cluster `start` ends. */
  function RowEnd(l: Line, width: nat, start: nat): (next: nat)
    requires start < |l|
    ensures start < next <= |l|
  {
    var end := FindEnd(l, width, start, 0);
    if end == start then start + 1 else end
  }

  /** No admissible row that starts at or before `start` reaches further than the greedy row. */
  lemma GreedyRowReachesFurthest(l: Line, width: nat, behind: nat, start: nat, reached: nat)
    requires behind <= start < |l| && behind <= reached <= |l|
    requires Fits(l[behind..reached], width)
    ensures reached <= RowEnd(l, width, start)
  {
    var end, next := FindEnd(l, width, start, 0), RowEnd(l, width, start);
    if reached > next {
      assert l[start..start] == [];
      FindEndIsMaximal(l, width, start, start);
      WidthOfPart(l, behind, start, end + 1, reached);
      assert false;
    }
  }

  /** No layout has fewer rows than greedy wrapping, not even one that starts with clusters that greedy
      wrapping has already dealt with. */
  lemma {:induction false} GreedyIsShortest(l: Line, width: nat, start: nat, behind: nat, rows: seq<Line>)
    requires behind <= start <= |l|
    requires Layout(rows, l[behind..], width)
    ensures |WrapFrom(l, width, start)| <= |rows|
    decreases |rows|
  {
    if start < |l| {
      assert rows != [];
      var reached := behind + |rows[0]|;
      SplitFirst(l, behind, rows);
      GreedyRowReachesFurthest(l, width, behind, start, reached);
      var next := RowEnd(l, width, start);
      GreedyIsShortest(l, width, next, reached, rows[1..]);
    }
  }

  lemma SplitFirst(l: Line, behind: nat, rows: seq<Line>)
    requires behind <= |l| && rows != [] && Concat(rows) == l[behind..]
    ensures behind + |rows[0]| <= |l|
    ensures rows[0] == l[behind..behind + |rows[0]|]
    ensures Concat(rows[1..]) == l[behind + |rows[0]|..]
  {
    var n := |rows[0]|;
    assert rows[0] == l[behind..][..n] && Concat(rows[1..]) == l[behind..][n..];
  }

  /** Apart from the empty row for the cursor, `Wrap` uses the fewest rows of any layout. */
  lemma WrapIsShortest(l: Line, width: nat, rows: seq<Line>)
    requires width > 0 && l != []
    requires Layout(rows, l, width)
    ensures |Wrap(l, width)| <= |rows| + (if NeedsEmptyRow(l, width) then 1 else 0)
  {
    assert l[0..] == l;
    GreedyIsShortest(l, width, 0, 0, rows);
  }

  // ------------------------------------------------- bytes, offsets and widths

  /** The record that stands for a line at run time. */
  datatype Packed = Packed(bytes: string, offsets: seq<nat>, widths: seq<nat>)

  /** Where the `i`-th cluster starts. */
  function Offset(l: Line, i: nat): nat
    requires i <= |l|
  {
    |Text(l[..i])|
  }

  /** The start of a cluster cuts the bytes between clusters. */
  lemma SplitText(l: Line, i: nat)
    requires i <= |l|
    ensures Offset(l, i) <= |Text(l)|
    ensures Text(l)[..Offset(l, i)] == Text(l[..i])
    ensures Text(l)[Offset(l, i)..] == Text(l[i..])
  {
    TextConcat(l[..i], l[i..]);
    assert l == l[..i] + l[i..];
  }

  ghost function Pack(l: Line): Packed {
    Packed(Text(l), seq(|l|, i requires 0 <= i < |l| => Offset(l, i)), seq(|l|, i requires 0 <= i < |l| => l[i].width))
  }

  lemma OffsetSlice(l: Line, i: nat, j: nat)
    requires i <= j <= |l|
    ensures Offset(l, j) == Offset(l, i) + |Text(l[i..j])|
    ensures Offset(l, j) <= |Text(l)|
    ensures Text(l)[Offset(l, i)..Offset(l, j)] == Text(l[i..j])
  {
    SplitText(l, j);
    SplitText(l[..j], i);
    assert l[..j][..i] == l[..i] && l[..j][i..] == l[i..j];
  }

  lemma OffsetStep(l: Line, i: nat)
    requires i < |l|
    ensures Offset(l, i + 1) == Offset(l, i) + |l[i].text|
    ensures Offset(l, i) < Offset(l, i + 1) <= |Text(l)|
    ensures Text(l)[Offset(l, i)..Offset(l, i + 1)] == l[i].text
  {
    OffsetSlice(l, i, i + 1);
    assert l[i..i + 1] == [l[i]];
    assert Text([l[i]]) == l[i].text + Text([l[i]][1..]) == l[i].text;
  }

  lemma OffsetEnds(l: Line)
    ensures Offset(l, 0) == 0 && Offset(l, |l|) == |Text(l)|
  {
    assert l[..|l|] == l && l[..0] == [];
  }

  /** Different lines have different records: nothing is lost by packing. */
  lemma {:induction false} PackInjective(a: Line, b: Line)
    requires Pack(a) == Pack(b)
    ensures a == b
  {
    assert |a| == |Pack(a).offsets| == |b|;
    forall i | 0 <= i < |a|
      ensures a[i] == b[i]
    {
      OffsetStep(a, i);
      OffsetStep(b, i);
      assert a[i].width == Pack(a).widths[i] == b[i].width;
      assert Offset(a, i) == Pack(a).offsets[i] == Offset(b, i);
      if i + 1 < |a| {
        assert Offset(a, i + 1) == Pack(a).offsets[i + 1] == Offset(b, i + 1);
      } else {
        OffsetEnds(a);
        OffsetEnds(b);
      }
    }
  }

  /** `byte_range_at`. */
  function ByteRangeAt(t: Packed, i: nat): (nat, nat)
    requires i < |t.offsets|
  {
    (t.offsets[i], if i + 1 < |t.offsets| then t.offsets[i + 1] else |t.bytes|)
  }

  lemma ByteRangeAtIsCluster(l: Line, i: nat)
    requires i < |l|
    ensures ByteRangeAt(Pack(l), i) == (Offset(l, i), Offset(l, i + 1))
  {
    OffsetEnds(l);
  }

  /** One width for each offset, and offsets in order within the bytes. */
  predicate Shaped(t: Packed) {
    && |t.offsets| == |t.widths|
    && (forall i :: 0 <= i < |t.offsets| ==> t.offsets[i] <= |t.bytes|)
    && (forall i, j :: 0 <= i < j < |t.offsets| ==> t.offsets[i] <= t.offsets[j])
  }

  function Sub(t: Packed, start: int, len: int): Packed
    requires Shaped(t)
  {
    if start < 0 || len <= 0 || start >= |t.offsets| then Packed("", [], [])
    else
      var n := if len < |t.offsets| - start then len else |t.offsets| - start;
      var first := t.offsets[start];
      var stop := if start + n >= |t.offsets| then |t.bytes| else t.offsets[start + n];
      Packed(t.bytes[first..stop],
             seq(n, i requires 0 <= i < n => t.offsets[start + i] - first),
             t.widths[start..start + n])
  }

  lemma PackedShape(l: Line)
    ensures Shaped(Pack(l))
  {
    forall i, j | 0 <= i <= j < |l|
      ensures Offset(l, i) <= Offset(l, j) <= |Text(l)|
    {
      OffsetSlice(l, i, j);
      OffsetSlice(l, j, |l|);
    }
  }

  /** `sub` on the record cuts out the clusters asked for, for every start and length. */
  lemma SubCutsClusters(l: Line, start: int, len: int)
    ensures Shaped(Pack(l))
    ensures
      Sub(Pack(l), start, len) ==
        if start < 0 || len <= 0 || start >= |l| then Pack([])
        else Pack(l[start..if len < |l| - start then start + len else |l|])
  {
    PackedShape(l);
    if !(start < 0 || len <= 0 || start >= |l|) {
      SubCutsInside(l, start, if len < |l| - start then start + len else |l|, Sub(Pack(l), start, len));
    }
  }

  lemma SubCutsInside(l: Line, start: nat, stop: nat, t: Packed)
    requires start < stop <= |l| && Shaped(Pack(l)) && t == Sub(Pack(l), start, stop - start)
    ensures t == Pack(l[start..stop])
  {
    SubOffsets(l, start, stop);
    SubBytes(l, start, stop);
    PackEquals(l[start..stop], t);
  }

  lemma SubBytes(l: Line, start: nat, stop: nat)
    requires start < stop <= |l| && Shaped(Pack(l))
    ensures Sub(Pack(l), start, stop - start).bytes == Text(l[start..stop])
  {
    OffsetSlice(l, start, stop);
    OffsetEnds(l);
  }

  lemma PackEquals(l: Line, t: Packed)
    requires t.bytes == Text(l) && |t.offsets| == |t.widths| == |l|
    requires forall i :: 0 <= i < |l| ==> t.offsets[i] == Offset(l, i)
    requires forall i :: 0 <= i < |l| ==> t.widths[i] == l[i].width
    ensures t == Pack(l)
  {
    assert t.offsets == Pack(l).offsets && t.widths == Pack(l).widths;
  }

  lemma SubOffsets(l: Line, start: nat, stop: nat)
    requires start <= stop <= |l|
    ensures forall i :: 0 <= i < stop - start ==> Offset(l, start + i) - Offset(l, start) == Offset(l[start..stop], i)
  {
    forall i | 0 <= i < stop - start
      ensures Offset(l, start + i) - Offset(l, start) == Offset(l[start..stop], i)
    {
      OffsetSlice(l, start, start + i);
      assert l[start..stop][..i] == l[start..start + i];
    }
  }

  // ------------------------------------------------------------ in-place editing

  function Inserted(l: Line, pos: nat, c: Glyph): Line
    requires pos <= |l|
  {
    l[..pos] + [c] + l[pos..]
  }

  function Removed(l: Line, pos: nat): Line
    requires pos < |l|
  {
    l[..pos] + l[pos + 1..]
  }

  lemma TextInserted(l: Line, pos: nat, c: Glyph)
    requires pos <= |l|
    ensures Text(Inserted(l, pos, c)) == Text(l[..pos]) + c.text + Text(l[pos..])
  {
    TextConcat(l[..pos] + [c], l[pos..]);
    TextConcat(l[..pos], [c]);
    assert Text([c]) == c.text + Text([c][1..]) == c.text;
  }

  lemma TextRemoved(l: Line, pos: nat)
    requires pos < |l|
    ensures Text(Removed(l, pos)) == Text(l[..pos]) + Text(l[pos + 1..])
  {
    TextConcat(l[..pos], l[pos + 1..]);
  }

  lemma OffsetInserted(l: Line, pos: nat, c: Glyph, i: nat)
    requires pos <= |l| && i <= |l| + 1
    ensures Offset(Inserted(l, pos, c), i) == if i <= pos then Offset(l, i) else Offset(l, i - 1) + |c.text|
  {
    var m := Inserted(l, pos, c);
    if i <= pos {
      assert m[..i] == l[..i];
    } else {
      assert m[..i] == Inserted(l[..i - 1], pos, c);
      TextInserted(l[..i - 1], pos, c);
      SplitText(l[..i - 1], pos);
    }
  }

  lemma OffsetRemoved(l: Line, pos: nat, i: nat)
    requires pos < |l| && i < |l|
    ensures Offset(Removed(l, pos), i) == if i <= pos then Offset(l, i) else Offset(l, i + 1) - |l[pos].text|
  {
    var m := Removed(l, pos);
    if i <= pos {
      assert m[..i] == l[..i];
    } else {
      assert m[..i] == Removed(l[..i + 1], pos);
      TextRemoved(l[..i + 1], pos);
      OffsetStep(l[..i + 1], pos);
      SplitText(l[..i + 1], pos + 1);
    }
  }

  /** The fast path of insertion: one byte of width one, without looking at the clusters again. */
  method InsertAsciiWidth1(t: Packed, pos: nat, c: char, ghost l: Line) returns (r: Packed)
    requires t == Pack(l)
    ensures
      var p := if pos < |l| then pos else |l|;
      r == Pack(Inserted(l, p, Cluster([c], 1)))
  {
    var len := |t.offsets|;
    var pos := if pos < len then pos else len;
    var bytePos := if pos == len then |t.bytes| else t.offsets[pos];
    OffsetEnds(l);
    SplitText(l, pos);
    var newOffsets := new nat[len + 1];
    forall i | 0 <= i < pos { newOffsets[i] := t.offsets[i]; }
    newOffsets[pos] := bytePos;
    for i := pos to len
      invariant forall k :: 0 <= k < pos ==> newOffsets[k] == t.offsets[k]
      invariant newOffsets[pos] == bytePos
      invariant forall k :: pos < k <= i ==> newOffsets[k] == t.offsets[k - 1] + 1
    {
      newOffsets[i + 1] := t.offsets[i] + 1;
    }
    r := Packed(t.bytes[..bytePos] + [c] + t.bytes[bytePos..], newOffsets[..], t.widths[..pos] + [1] + t.widths[pos..]);
    PackInserted(l, pos, Cluster([c], 1), r);
  }

  lemma PackInserted(l: Line, pos: nat, c: Glyph, t: Packed)
    requires pos <= |l| && c.width == 1 && |c.text| == 1
    requires t.bytes == Text(l[..pos]) + c.text + Text(l[pos..])
    requires |t.offsets| == |l| + 1
    requires t.widths == Pack(l).widths[..pos] + [1] + Pack(l).widths[pos..]
    requires forall i {:trigger t.offsets[i]} :: 0 <= i <= |l| ==>
               t.offsets[i] == if i <= pos then Offset(l, i) else Offset(l, i - 1) + 1
    ensures t == Pack(Inserted(l, pos, c))
  {
    TextInserted(l, pos, c);
    forall i | 0 <= i <= |l|
      ensures t.offsets[i] == Offset(Inserted(l, pos, c), i)
    {
      OffsetInserted(l, pos, c, i);
    }
    PackEquals(Inserted(l, pos, c), t);
  }

  lemma PackRemoved(l: Line, pos: nat, t: Packed)
    requires pos < |l| && |l[pos].text| == 1
    requires t.bytes == Text(l[..pos]) + Text(l[pos + 1..])
    requires |t.offsets| == |l| - 1
    requires t.widths == Pack(l).widths[..pos] + Pack(l).widths[pos + 1..]
    requires forall i {:trigger t.offsets[i]} :: 0 <= i < |l| - 1 ==>
               t.offsets[i] == if i < pos then Offset(l, i) else Offset(l, i + 1) - 1
    ensures t == Pack(Removed(l, pos))
  {
    TextRemoved(l, pos);
    OffsetStep(l, pos);
    forall i | 0 <= i < |l| - 1
      ensures t.offsets[i] == Offset(Removed(l, pos), i)
    {
      OffsetRemoved(l, pos, i);
    }
    PackEquals(Removed(l, pos), t);
  }

  lemma BytesAround(l: Line, pos: nat)
    requires pos < |l|
    ensures
      var start, stop := ByteRangeAt(Pack(l), pos).0, ByteRangeAt(Pack(l), pos).1;
      && start <= stop <= |Text(l)|
      && Text(l)[..start] + Text(l)[stop..] == Text(l[..pos]) + Text(l[pos + 1..])
  {
    ByteRangeAtIsCluster(l, pos);
    OffsetStep(l, pos);
    SplitText(l, pos);
    SplitText(l, pos + 1);
  }

  lemma OffsetBehind(l: Line, pos: nat, i: nat)
    requires pos < i < |l| && |l[pos].text| == 1
    ensures Offset(l, i) >= 1
  {
    OffsetStep(l, pos);
    OffsetSlice(l, pos + 1, i);
  }

  /** The fast path of deletion: a cluster of one byte and width one. */
  method DeleteAscii(t: Packed, pos: nat, ghost l: Line) returns (r: Packed)
    requires t == Pack(l) && pos < |l| && |l[pos].text| == 1
    ensures r == Pack(Removed(l, pos))
  {
    var len := |t.offsets|;
    BytesAround(l, pos);
    var start, stop := ByteRangeAt(t, pos).0, ByteRangeAt(t, pos).1;
    var newOffsets := new nat[len - 1];
    forall i | 0 <= i < pos { newOffsets[i] := t.offsets[i]; }
    for i := pos + 1 to len
      invariant forall k :: 0 <= k < pos ==> newOffsets[k] == t.offsets[k]
      invariant forall k :: pos <= k < i - 1 ==> newOffsets[k] == t.offsets[k + 1] - 1
    {
      OffsetBehind(l, pos, i);
      newOffsets[i - 1] := t.offsets[i] - 1;
    }
    r := Packed(t.bytes[..start] + t.bytes[stop..], newOffsets[..], t.widths[..pos] + t.widths[pos + 1..]);
    PackRemoved(l, pos, r);
  }

  /** One ASCII byte of width one. */
  ghost predicate IsPlain(c: Glyph) {
    c.width == 1 && |c.text| == 1 && c.text[0] as int < 0x80
  }

  /** Deletion of a cluster.  `segment` stands for `of_string`; it has to find the remaining clusters
      again where it is asked to. */
  method Delete(t: Packed, pos: int, segment: string -> Option<Packed>, ghost l: Line) returns (r: Packed)
    requires t == Pack(l)
    requires 0 <= pos < |l| && !IsPlain(l[pos]) ==> segment(Text(Removed(l, pos))) == Some(Pack(Removed(l, pos)))
    ensures r == Pack(if 0 <= pos < |l| then Removed(l, pos) else l)
  {
    if pos < 0 || pos >= |t.offsets| {
      return t;
    }
    ByteRangeAtIsCluster(l, pos);
    OffsetStep(l, pos);
    var start, stop := ByteRangeAt(t, pos).0, ByteRangeAt(t, pos).1;
    if t.widths[pos] == 1 && stop - start == 1 && t.bytes[start] as int < 0x80 {
      r := DeleteAscii(t, pos, l);
    } else {
      TextRemoved(l, pos);
      SplitText(l, pos);
      SplitText(l, pos + 1);
      var again := segment(t.bytes[..start] + t.bytes[stop..]);
      r := if again.Some? then again.value else t;
    }
  }
}
