/**
 The byte stream inside the IDAT chunks: for each scanline in order, a filter byte and the
 filtered bytes. Compression is a pipe that hands the same bytes to the other side.
 */
module ImageStream {
  import opened Octets
  import opened Filtering

  /** A scanline: its bytes without the filter byte, and whether it is the first of a pass. */
  datatype Line = Line(bytes: nat, top: bool)

  /** The scanlines of an image in the order of the stream. */
  datatype Layout = Layout(bpp: nat, lines: seq<Line>)
  {
    /** Inside a pass all scanlines are equally long. */
    ghost predicate Valid() {
      && bpp > 0
      && forall k {:trigger lines[k].top} :: 0 <= k < |lines| && !lines[k].top ==> k > 0 && lines[k - 1].bytes == lines[k].bytes
    }
  }

  /** Where the k-th scanline starts in the stream. */
  function Offset(l: Layout, k: nat): (at: nat)
    requires k <= |l.lines|
  {
    if k == 0 then 0 else Offset(l, k - 1) + 1 + l.lines[k - 1].bytes
  }

  /** The first scanlines of an image, each with the right number of bytes. */
  ghost predicate WellSized(l: Layout, rows: seq<seq<byte>>) {
    |rows| <= |l.lines| && forall i :: 0 <= i < |rows| ==> |rows[i]| == l.lines[i].bytes
  }

  ghost predicate ValidFilters(filters: seq<nat>) {
    forall i :: 0 <= i < |filters| ==> filters[i] <= 4
  }

  /** The row that the filters of line k see above it: zeros at the top of a pass. */
  function Above(l: Layout, rows: seq<seq<byte>>, k: nat): (above: seq<byte>)
    requires l.Valid() && k < |l.lines| && k <= |rows| && WellSized(l, rows)
    ensures |above| == l.lines[k].bytes
  {
    if l.lines[k].top then Zeros(l.lines[k].bytes) else rows[k - 1]
  }

  /** What the encoder emits for one scanline. */
  function CodeLine(l: Layout, above: seq<byte>, row: seq<byte>, filter: nat): (s: seq<byte>)
    requires l.bpp > 0 && |row| == |above| && filter <= 4
    ensures |s| == 1 + |row| && s[0] == filter
  {
    [filter] + FilterRow(filter, l.bpp, above, row)
  }

  /** What the encoder emits for the first scanlines, given the filter it chose for each. */
  function Code(l: Layout, rows: seq<seq<byte>>, filters: seq<nat>): (s: seq<byte>)
    requires l.Valid() && WellSized(l, rows) && |filters| == |rows| && ValidFilters(filters)
    ensures |s| == Offset(l, |rows|)
  {
    if |rows| == 0 then []
    else
      var k := |rows| - 1;
      Code(l, rows[..k], filters[..k]) + CodeLine(l, Above(l, rows[..k], k), rows[k], filters[k])
  }

  lemma OneMoreRow(l: Layout, rows: seq<seq<byte>>, row: seq<byte>)
    requires WellSized(l, rows) && |rows| < |l.lines| && |row| == l.lines[|rows|].bytes
    ensures WellSized(l, rows + [row])
  {
    forall i | 0 <= i < |rows| + 1
      ensures |(rows + [row])[i]| == l.lines[i].bytes
    {
      assert (rows + [row])[i] == if i < |rows| then rows[i] else row;
    }
  }

  lemma CodeSnoc(l: Layout, rows: seq<seq<byte>>, row: seq<byte>, filters: seq<nat>, filter: nat)
    requires l.Valid() && WellSized(l, rows) && |filters| == |rows| && ValidFilters(filters) && filter <= 4
    requires |rows| < |l.lines| && |row| == l.lines[|rows|].bytes
    ensures WellSized(l, rows + [row]) && ValidFilters(filters + [filter])
    ensures Code(l, rows + [row], filters + [filter])
         == Code(l, rows, filters) + CodeLine(l, Above(l, rows, |rows|), row, filter)
  {
    OneMoreRow(l, rows, row);
    hide CodeLine, WellSized;
    var k := |rows|;
    assert (rows + [row])[k] == row && (filters + [filter])[k] == filter;
    assert (rows + [row])[..k] == rows && (filters + [filter])[..k] == filters;
  }

  datatype Decoded = Rows(rows: seq<seq<byte>>) | TooShort | BadFilter

  /** What the decoder makes of the scanline that starts at a place in the stream. */
  function UncodeLine(l: Layout, above: seq<byte>, stream: seq<byte>, at: nat): (d: Decoded)
    requires l.bpp > 0
    ensures d.Rows? ==> at + 1 + |above| <= |stream| && |d.rows| == 1 && |d.rows[0]| == |above|
  {
    if at >= |stream| then TooShort
    else if stream[at] > 4 then BadFilter
    else if at + 1 + |above| > |stream| then TooShort
    else Rows([DefilterRow(stream[at], l.bpp, above, stream[at + 1..at + 1 + |above|])])
  }

  /** What the decoder makes of the first k scanlines of a stream. */
  function Uncode(l: Layout, stream: seq<byte>, k: nat): (d: Decoded)
    requires l.Valid() && k <= |l.lines|
    ensures d.Rows? ==> |d.rows| == k && WellSized(l, d.rows) && Offset(l, k) <= |stream|
  {
    if k == 0 then Rows([])
    else
      var d := Uncode(l, stream, k - 1);
      if !d.Rows? then d
      else
        var last := UncodeLine(l, Above(l, d.rows, k - 1), stream, Offset(l, k - 1));
        if last.Rows? then Rows(d.rows + last.rows) else last
  }

  lemma UncodeSnoc(l: Layout, stream: seq<byte>, rows: seq<seq<byte>>)
    requires l.Valid() && |rows| < |l.lines| && Uncode(l, stream, |rows|) == Rows(rows)
    ensures var last := UncodeLine(l, Above(l, rows, |rows|), stream, Offset(l, |rows|));
      Uncode(l, stream, |rows| + 1) == if last.Rows? then Rows(rows + last.rows) else last
  {
    hide UncodeLine, Above, WellSized;
  }

  /** The scanlines decoded first do not change when more are decoded, and an error stays. */
  lemma {:induction false} UncodePrefix(l: Layout, stream: seq<byte>, j: nat, k: nat)
    requires l.Valid() && j <= k <= |l.lines|
    ensures !Uncode(l, stream, j).Rows? ==> Uncode(l, stream, k) == Uncode(l, stream, j)
    ensures Uncode(l, stream, k).Rows? ==> Uncode(l, stream, j) == Rows(Uncode(l, stream, k).rows[..j])
  {
    hide UncodeLine, Above, WellSized;
    if j < k {
      UncodePrefix(l, stream, j, k - 1);
    } else if Uncode(l, stream, k).Rows? {
      var rows := Uncode(l, stream, k).rows;
      assert rows[..j] == rows;
    }
  }

  lemma UncodeLineOfCode(l: Layout, above: seq<byte>, row: seq<byte>, filter: nat, stream: seq<byte>, at: nat)
    requires l.bpp > 0 && |row| == |above| && filter <= 4
    requires at + 1 + |row| <= |stream| && stream[at..at + 1 + |row|] == CodeLine(l, above, row, filter)
    ensures UncodeLine(l, above, stream, at) == Rows([row])
  {
    var s := CodeLine(l, above, row, filter);
    assert stream[at] == s[0] == filter;
    assert stream[at + 1..at + 1 + |row|] == s[1..] == FilterRow(filter, l.bpp, above, row);
    DefilterUndoesFilter(filter, l.bpp, above, row);
  }

  /** A stream that starts with the code of some scanlines decodes to those scanlines,
      whatever filters were chosen and whatever follows. */
  lemma {:induction false} UncodeOfCode(l: Layout, rows: seq<seq<byte>>, filters: seq<nat>, stream: seq<byte>)
    requires l.Valid() && WellSized(l, rows) && |filters| == |rows| && ValidFilters(filters)
    requires Code(l, rows, filters) <= stream
    ensures Uncode(l, stream, |rows|) == Rows(rows)
    decreases |rows|, 1
  {
    hide Code, CodeLine, UncodeLine;
    if |rows| > 0 {
      var k := |rows| - 1;
      var rows', filters' := rows[..k], filters[..k];
      assert WellSized(l, rows') && |rows[k]| == l.lines[k].bytes;
      assert rows == rows' + [rows[k]] && filters == filters' + [filters[k]];
      CodeSnoc(l, rows', rows[k], filters', filters[k]);
      UncodeOfCodeStep(l, rows', rows[k], filters', filters[k], stream);
    }
  }

  lemma {:induction false} UncodeOfCodeStep(l: Layout, rows: seq<seq<byte>>, row: seq<byte>, filters: seq<nat>, filter: nat,
                                            stream: seq<byte>)
    requires l.Valid() && WellSized(l, rows) && |filters| == |rows| && ValidFilters(filters) && filter <= 4
    requires |rows| < |l.lines| && |row| == l.lines[|rows|].bytes
    requires Code(l, rows, filters) + CodeLine(l, Above(l, rows, |rows|), row, filter) <= stream
    ensures Uncode(l, stream, |rows| + 1) == Rows(rows + [row])
    decreases |rows|, 2
  {
    hide Code, CodeLine, UncodeLine, WellSized, ValidFilters;
    var s := Code(l, rows, filters);
    var above := Above(l, rows, |rows|);
    PrefixParts(s, CodeLine(l, above, row, filter), stream);
    UncodeOfCode(l, rows, filters, stream);
    UncodeLineOfCode(l, above, row, filter, stream, |s|);
  }

  lemma PrefixParts(s: seq<byte>, t: seq<byte>, stream: seq<byte>)
    requires s + t <= stream
    ensures s <= stream && |s| + |t| <= |stream| && stream[|s|..|s| + |t|] == t
  {
    assert s <= s + t;
    assert stream[|s|..|s| + |t|] == (s + t)[|s|..];
  }

  /** The filter bytes of a stream. */
  function FiltersOf(l: Layout, stream: seq<byte>, k: nat): (filters: seq<nat>)
    requires k <= |l.lines| && Offset(l, k) <= |stream|
    ensures |filters| == k
  {
    if k == 0 then [] else FiltersOf(l, stream, k - 1) + [stream[Offset(l, k - 1)] as nat]
  }

  lemma CodeLineOfUncode(l: Layout, above: seq<byte>, stream: seq<byte>, at: nat)
    requires l.bpp > 0 && UncodeLine(l, above, stream, at).Rows?
    ensures stream[at] <= 4
    ensures CodeLine(l, above, UncodeLine(l, above, stream, at).rows[0], stream[at]) == stream[at..at + 1 + |above|]
  {
    var n := |above|;
    FilterUndoesDefilter(stream[at], l.bpp, above, stream[at + 1..at + 1 + n]);
    assert stream[at..at + 1 + n] == [stream[at]] + stream[at + 1..at + 1 + n];
  }

  /** Conversely, a stream that the decoder accepts is the code of what it decodes to. */
  lemma {:induction false} CodeOfUncode(l: Layout, stream: seq<byte>, k: nat)
    requires l.Valid() && k <= |l.lines| && Uncode(l, stream, k).Rows?
    ensures ValidFilters(FiltersOf(l, stream, k))
    ensures Code(l, Uncode(l, stream, k).rows, FiltersOf(l, stream, k)) == stream[..Offset(l, k)]
  {
    if k > 0 {
      CodeOfUncode(l, stream, k - 1);
      CodeOfUncodeStep(l, stream, k, Uncode(l, stream, k - 1).rows, FiltersOf(l, stream, k - 1));
    }
  }

  lemma CodeOfUncodeStep(l: Layout, stream: seq<byte>, k: nat, rows: seq<seq<byte>>, filters: seq<nat>)
    requires l.Valid() && 0 < k <= |l.lines| && Uncode(l, stream, k).Rows?
    requires Uncode(l, stream, k - 1) == Rows(rows)
    requires filters == FiltersOf(l, stream, k - 1) && ValidFilters(filters)
    requires Code(l, rows, filters) == stream[..Offset(l, k - 1)]
    ensures ValidFilters(FiltersOf(l, stream, k))
    ensures Code(l, Uncode(l, stream, k).rows, FiltersOf(l, stream, k)) == stream[..Offset(l, k)]
  {
    hide Code, CodeLine, UncodeLine, WellSized;
    var at := Offset(l, k - 1);
    var above := Above(l, rows, k - 1);
    var last := UncodeLine(l, above, stream, at).rows[0];
    CodeLineOfUncode(l, above, stream, at);
    CodeSnoc(l, rows, last, filters, stream[at]);
    assert Uncode(l, stream, k).rows == rows + [last];
    assert stream[..at] + stream[at..at + 1 + |above|] == stream[..at + 1 + |above|];
  }
}
