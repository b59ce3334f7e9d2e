/**
 Encoding the pixels of an image: scanline by scanline, each is gathered, converted to
 big-endian, filtered against the one above it and handed to the compressor.
 */
module Encoder {
  import opened Octets
  import opened Filtering
  import opened FilterChoice
  import opened ImageStream

  /** Where the pixels start in a scanline buffer; the filter byte goes just before them. */
  const PIXELS := 16
  /** What a scanline buffer has beyond the longest scanline. */
  const SLACK := 32

  /** Every filter is the best one for its scanline. */
  ghost predicate AllBest(l: Layout, choices: nat, rows: seq<seq<byte>>, filters: seq<nat>) {
    && l.Valid() && WellSized(l, rows) && |filters| == |rows|
    && forall k :: 0 <= k < |rows| ==> BestAt(l, choices, rows, filters, k)
  }

  ghost predicate BestAt(l: Layout, choices: nat, rows: seq<seq<byte>>, filters: seq<nat>, k: nat)
    requires l.Valid() && WellSized(l, rows) && |filters| == |rows| && k < |rows|
  {
    IsBest(choices, l.bpp, Above(l, rows, k), rows[k], filters[k])
  }

  lemma AllBestMeansSized(l: Layout, choices: nat, rows: seq<seq<byte>>, filters: seq<nat>)
    requires AllBest(l, choices, rows, filters)
    ensures WellSized(l, rows) && |filters| == |rows| && l.Valid() && l.bpp > 0
  {
  }

  lemma OneMoreBest(l: Layout, choices: nat, rows: seq<seq<byte>>, filters: seq<nat>, row: seq<byte>, filter: nat)
    requires AllBest(l, choices, rows, filters) && |rows| < |l.lines| && |row| == l.lines[|rows|].bytes
    requires IsBest(choices, l.bpp, Above(l, rows, |rows|), row, filter)
    ensures AllBest(l, choices, rows + [row], filters + [filter])
  {
    OneMoreRow(l, rows, row);
    var rows', filters' := rows + [row], filters + [filter];
    forall k | 0 <= k < |rows'| ensures BestAt(l, choices, rows', filters', k) {
      assert k < |rows| ==> BestAt(l, choices, rows, filters, k);
      assert rows'[k] == if k < |rows| then rows[k] else row;
      assert Above(l, rows', k) == Above(l, rows, k);
      hide IsBest, Above, WellSized;
    }
  }

  /** What the previous buffer holds when no enabled filter looks at it does not matter. */
  lemma SameAgainstAbove(choices: nat, bpp: nat, held: seq<byte>, above: seq<byte>, row: seq<byte>, filter: nat)
    requires bpp > 0 && |held| == |above| == |row|
    requires NeedsPrevious(choices) ==> held == above
    requires IsBest(choices, bpp, held, row, filter)
    ensures IsBest(choices, bpp, above, row, filter)
    ensures FilterRow(filter, bpp, held, row) == FilterRow(filter, bpp, above, row)
  {
    hide IsBest, NeedsPrevious;
    if !NeedsPrevious(choices) {
      ChosenNeedsPrevious(choices, bpp, held, row, filter);
      BestIgnoresPrevious(choices, bpp, held, above, row, filter);
      FilterIgnoresPrevious(filter, bpp, held, above, row);
    }
  }

  lemma CodeLineIs(l: Layout, above: seq<byte>, row: seq<byte>, filter: nat)
    requires l.bpp > 0 && |row| == |above| && filter <= 4
    ensures CodeLine(l, above, row, filter) == [filter] + FilterRow(filter, l.bpp, above, row)
  {
    hide FilterRow;
  }

  /** The part of the encoder that turns scanlines into the bytes of the stream. */
  class ScanlineEncoder {
    const l: Layout
    const choices: nat
    var scanline: array<byte>
    var prevScanline: array<byte>
    const filteredScanline: array<byte>
    /** What the compressor has been given. */
    var stream: seq<byte>
    /** The scanlines encoded so far, unfiltered, and their filters. */
    ghost var rows: seq<seq<byte>>
    ghost var filters: seq<nat>

    ghost predicate Buffers()
      reads this
    {
      && scanline != prevScanline && scanline != filteredScanline && prevScanline != filteredScanline
      && scanline.Length == prevScanline.Length == filteredScanline.Length
      && forall k :: 0 <= k < |l.lines| ==> l.lines[k].bytes + 1 + PIXELS <= scanline.Length
    }

    ghost predicate Progress()
      reads this
    {
      && l.Valid() && ValidChoices(choices) && AllBest(l, choices, rows, filters) && ValidFilters(filters)
      && stream == Code(l, rows, filters)
    }

    /** The previous buffer holds the scanline above the next one, unless that starts a pass. */
    ghost predicate Remembers()
      reads this, prevScanline
    {
      |rows| < |l.lines| && !l.lines[|rows|].top ==>
        && 0 < |rows|
        && PIXELS + l.lines[|rows|].bytes <= prevScanline.Length
        && prevScanline[PIXELS..PIXELS + l.lines[|rows|].bytes] == rows[|rows| - 1]
    }

    ghost predicate Valid()
      reads this, prevScanline
    {
      Buffers() && Progress() && Remembers()
    }

    constructor (l: Layout, choices: nat, longest: nat)
      requires l.Valid() && ValidChoices(choices)
      requires forall k :: 0 <= k < |l.lines| ==> l.lines[k].bytes + 1 <= longest
      ensures Valid() && this.l == l && this.choices == choices && rows == []
      ensures fresh(scanline) && fresh(prevScanline) && fresh(filteredScanline)
    {
      this.l, this.choices := l, choices;
      var size := longest + SLACK;
      scanline := new byte[size](_ => 0);
      prevScanline := new byte[size](_ => 0);
      filteredScanline := new byte[size](_ => 0);
      stream, rows, filters := [], [], [];
      new;
      if |l.lines| > 0 {
        assert !l.lines[0].top ==> 0 > 0;
      }
    }

    /** Filters the scanline in the buffer, of n bytes, and hands it to the compressor; the
        buffers change places, for the previous scanline is always the unfiltered one. */
    method EncodeScanline(n: nat, first: bool)
      requires Valid() && |rows| < |l.lines|
      requires 0 < n == l.lines[|rows|].bytes && first == l.lines[|rows|].top
      modifies this, scanline, prevScanline, filteredScanline
      ensures Valid() && rows == old(rows) + [old(scanline[PIXELS..PIXELS + n])]
      ensures scanline == old(prevScanline) && prevScanline == old(scanline)
    {
      hide IsBest, Code, CodeLine, FilterRow, Enabled, ValidFilters, ValidChoices, Layout.Valid, AllBest, WellSized, NeedsPrevious;
      AllBestMeansSized(l, choices, rows, filters);
      ghost var row, above := scanline[PIXELS..PIXELS + n], Above(l, rows, |rows|);
      var needs := NeedsPrevious(choices);
      if first && needs {
        ClearPrevious(n);
      }
      ghost var held := prevScanline[PIXELS..PIXELS + n];
      assert needs ==> held == above;
      var filter := GetBestFilter(prevScanline, scanline, PIXELS, n + 1, l.bpp, choices);
      SameAgainstAbove(choices, l.bpp, held, above, row, filter);
      var emitted := Emit(n, filter);
      CodeLineIs(l, above, row, filter);
      assert scanline[PIXELS..PIXELS + n] == row;
      CodeSnoc(l, rows, row, filters, filter);
      OneMoreBest(l, choices, rows, filters, row, filter);
      stream := stream + emitted;
      rows, filters := rows + [row], filters + [filter];
      scanline, prevScanline := prevScanline, scanline;
    }

    /** Zeros stand above the first scanline of a pass. */
    method ClearPrevious(n: nat)
      requires Buffers() && PIXELS + n + 1 <= prevScanline.Length
      modifies prevScanline
      ensures prevScanline[PIXELS..PIXELS + n] == Zeros(n)
    {
      forall i | 0 <= i < n + 1 {
        prevScanline[PIXELS + i] := 0;
      }
    }

    /** Puts the filter byte before the filtered bytes, or before the scanline itself. */
    method Emit(n: nat, filter: nat) returns (emitted: seq<byte>)
      requires Buffers() && l.bpp > 0 && 0 < n && PIXELS + n <= scanline.Length && filter <= 4
      modifies scanline, filteredScanline
      ensures scanline[PIXELS..PIXELS + n] == old(scanline[PIXELS..PIXELS + n])
      ensures emitted == [filter]
        + FilterRow(filter, l.bpp, prevScanline[PIXELS..PIXELS + n], old(scanline[PIXELS..PIXELS + n]))
    {
      ghost var row, held := scanline[PIXELS..PIXELS + n], prevScanline[PIXELS..PIXELS + n];
      if filter == FILTER_NONE {
        NoneIsIdentity(l.bpp, held, row);
        scanline[PIXELS - 1] := filter;
        emitted := scanline[PIXELS - 1..PIXELS + n];
        assert emitted == [filter] + scanline[PIXELS..PIXELS + n];
      } else {
        filteredScanline[PIXELS - 1] := filter;
        var status := FilterScanline(filteredScanline, prevScanline, scanline, PIXELS, n + 1, l.bpp, filter);
        assert filteredScanline[..PIXELS][PIXELS - 1] == filter;
        emitted := filteredScanline[PIXELS - 1..PIXELS + n];
        assert emitted == [filter] + filteredScanline[PIXELS..PIXELS + n];
      }
    }
  }
}
