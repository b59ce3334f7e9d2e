/**
 The five PNG scanline filters (sections 9.2 to 9.4 of ISO/IEC 15948), as the encoder
 applies them and as the decoder undoes them, in place and from left to right.
 */
module Filtering {
  import opened Octets

  const FILTER_NONE := 0
  const FILTER_SUB := 1
  const FILTER_UP := 2
  const FILTER_AVERAGE := 3
  const FILTER_PAETH := 4

  datatype Status = Ok | EInternal | EFilter

  function Paeth(a: byte, b: byte, c: byte): byte {
    var p := a + b - c;
    var pa := Abs(p - a);
    var pb := Abs(p - b);
    var pc := Abs(p - c);
    if pa <= pb && pa <= pc then a else if pb <= pc then b else c
  }

  /** The byte one pixel to the left of position i, or 0 in the first pixel. */
  function Before(row: seq<byte>, i: nat, bpp: nat): byte
    requires bpp > 0 && i < |row| + bpp
  {
    if i >= bpp then row[i - bpp] else 0
  }

  /** What a filter predicts from the bytes to the left, above, and above left. */
  function Predict(filter: nat, a: byte, b: byte, c: byte): byte {
    if filter == FILTER_SUB then a
    else if filter == FILTER_UP then b
    else if filter == FILTER_AVERAGE then (a + b) / 2
    else if filter == FILTER_PAETH then Paeth(a, b, c)
    else 0
  }

  /** The prediction for position i of a row, of which only the first i bytes matter. */
  function PredictAt(filter: nat, bpp: nat, prev: seq<byte>, row: seq<byte>, i: nat): byte
    requires bpp > 0 && i <= |row| && i < |prev|
  {
    Predict(filter, Before(row, i, bpp), prev[i], Before(prev, i, bpp))
  }

  /** The filtered form of a row, each byte computed from the unfiltered row. */
  function FilterRow(filter: nat, bpp: nat, prev: seq<byte>, row: seq<byte>): (r: seq<byte>)
    requires bpp > 0 && |row| <= |prev|
    ensures |r| == |row|
  {
    seq(|row|, i requires 0 <= i < |row| => Sub8(row[i], PredictAt(filter, bpp, prev, row, i)))
  }

  /** The row that a decoder rebuilds, each byte computed from the bytes rebuilt before it. */
  function DefilterRow(filter: nat, bpp: nat, prev: seq<byte>, coded: seq<byte>): (r: seq<byte>)
    requires bpp > 0 && |coded| <= |prev|
    ensures |r| == |coded|
  {
    if |coded| == 0 then []
    else
      var n := |coded| - 1;
      var r := DefilterRow(filter, bpp, prev, coded[..n]);
      r + [Add8(coded[n], PredictAt(filter, bpp, prev, r, n))]
  }

  /** The equation that a rebuilt row satisfies at each of its bytes. */
  ghost predicate Rebuilds(filter: nat, bpp: nat, prev: seq<byte>, coded: seq<byte>, row: seq<byte>)
  {
    && bpp > 0
    && |row| == |coded| <= |prev|
    && forall i :: 0 <= i < |row| ==> row[i] == Add8(coded[i], PredictAt(filter, bpp, prev, row, i))
  }

  /** The rebuilt row satisfies the equation at each byte. */
  lemma {:induction false} DefilterRebuilds(filter: nat, bpp: nat, prev: seq<byte>, coded: seq<byte>)
    requires bpp > 0 && |coded| <= |prev|
    ensures Rebuilds(filter, bpp, prev, coded, DefilterRow(filter, bpp, prev, coded))
  {
    if |coded| > 0 {
      var n := |coded| - 1;
      DefilterRebuilds(filter, bpp, prev, coded[..n]);
      var r, row := DefilterRow(filter, bpp, prev, coded[..n]), DefilterRow(filter, bpp, prev, coded);
      forall i | 0 <= i < |row|
        ensures row[i] == Add8(coded[i], PredictAt(filter, bpp, prev, row, i))
      {
        assert Before(row, i, bpp) == Before(r, i, bpp);
        if i < n {
          assert r[i] == Add8(coded[..n][i], PredictAt(filter, bpp, prev, r, i));
        }
      }
    }
  }

  /** And it is the only row that does. */
  lemma {:induction false} RebuildsIsDefilter(filter: nat, bpp: nat, prev: seq<byte>, coded: seq<byte>, row: seq<byte>)
    requires Rebuilds(filter, bpp, prev, coded, row)
    ensures row == DefilterRow(filter, bpp, prev, coded)
  {
    if |coded| > 0 {
      var n := |coded| - 1;
      forall i | 0 <= i < n
        ensures row[..n][i] == Add8(coded[..n][i], PredictAt(filter, bpp, prev, row[..n], i))
      {
        assert row[i] == Add8(coded[i], PredictAt(filter, bpp, prev, row, i));
      }
      RebuildsIsDefilter(filter, bpp, prev, coded[..n], row[..n]);
      assert row == row[..n] + [row[n]];
      assert Before(row, n, bpp) == Before(row[..n], n, bpp);
    }
  }

  /** Defiltering undoes filtering, for every filter, pixel size, width and previous row. */
  lemma DefilterUndoesFilter(filter: nat, bpp: nat, prev: seq<byte>, row: seq<byte>)
    requires bpp > 0 && |row| <= |prev|
    ensures DefilterRow(filter, bpp, prev, FilterRow(filter, bpp, prev, row)) == row
  {
    var coded := FilterRow(filter, bpp, prev, row);
    assert Rebuilds(filter, bpp, prev, coded, row);
    RebuildsIsDefilter(filter, bpp, prev, coded, row);
  }

  /** And filtering undoes defiltering: no two rows of bytes decode to the same row. */
  lemma FilterUndoesDefilter(filter: nat, bpp: nat, prev: seq<byte>, coded: seq<byte>)
    requires bpp > 0 && |coded| <= |prev|
    ensures FilterRow(filter, bpp, prev, DefilterRow(filter, bpp, prev, coded)) == coded
  {
    var row := DefilterRow(filter, bpp, prev, coded);
    DefilterRebuilds(filter, bpp, prev, coded);
    forall i | 0 <= i < |row|
      ensures Sub8(row[i], PredictAt(filter, bpp, prev, row, i)) == coded[i]
    {
      assert row[i] == Add8(coded[i], PredictAt(filter, bpp, prev, row, i));
    }
  }

  /** Filters that predict alike along the rebuilt row rebuild the same row. */
  lemma SamePredictions(filter: nat, bpp: nat, prev: seq<byte>, bpp': nat, prev': seq<byte>, coded: seq<byte>, row: seq<byte>)
    requires bpp > 0 && bpp' > 0 && |coded| <= |prev| && |coded| <= |prev'|
    requires row == DefilterRow(filter, bpp, prev, coded)
    requires forall i :: 0 <= i < |row| ==> PredictAt(filter, bpp', prev', row, i) == PredictAt(filter, bpp, prev, row, i)
    ensures row == DefilterRow(filter, bpp', prev', coded)
  {
    DefilterRebuilds(filter, bpp, prev, coded);
    assert Rebuilds(filter, bpp, prev, coded, row);
    RebuildsIsDefilter(filter, bpp', prev', coded, row);
  }

  /** The None and Sub filters do not look at the previous row. */
  lemma PreviousRowUnused(filter: nat, bpp: nat, prev: seq<byte>, prev': seq<byte>, coded: seq<byte>)
    requires bpp > 0 && |coded| <= |prev| && |coded| <= |prev'| && filter <= FILTER_SUB
    ensures DefilterRow(filter, bpp, prev, coded) == DefilterRow(filter, bpp, prev', coded)
  {
    SamePredictions(filter, bpp, prev, bpp, prev', coded, DefilterRow(filter, bpp, prev, coded));
  }

  lemma FilterIgnoresPrevious(filter: nat, bpp: nat, prev: seq<byte>, prev': seq<byte>, row: seq<byte>)
    requires bpp > 0 && |row| <= |prev| && |row| <= |prev'| && filter <= FILTER_SUB
    ensures FilterRow(filter, bpp, prev, row) == FilterRow(filter, bpp, prev', row)
  {
    hide Paeth;
    assert forall i :: 0 <= i < |row| ==> PredictAt(filter, bpp, prev, row, i) == PredictAt(filter, bpp, prev', row, i);
  }

  /** The Up filter predicts the same whatever the pixel size. */
  lemma UpIgnoresPixelSize(bpp: nat, bpp': nat, prev: seq<byte>, coded: seq<byte>)
    requires bpp > 0 && bpp' > 0 && |coded| <= |prev|
    ensures DefilterRow(FILTER_UP, bpp, prev, coded) == DefilterRow(FILTER_UP, bpp', prev, coded)
  {
    SamePredictions(FILTER_UP, bpp, prev, bpp', prev, coded, DefilterRow(FILTER_UP, bpp, prev, coded));
  }

  // ---------------------------------------------------------------------------------
  // The loops over byte arrays. A C pointer into a buffer is an array and an offset.

  /** Writes the filtered form of a scanline; a None filter writes nothing, the caller then
      emits the scanline itself. The width counts the filter byte. */
  method FilterScanline(filtered: array<byte>, prev: array<byte>, scanline: array<byte>, at: nat,
                        scanlineWidth: nat, bpp: nat, filter: nat) returns (status: Status)
    requires bpp > 0
    requires at + scanlineWidth <= Min(Min(filtered.Length, prev.Length), scanline.Length) + 1
    requires filtered != prev && filtered != scanline
    modifies filtered
    ensures status == if scanlineWidth <= 1 then EInternal else if filter > 4 then EFilter else Ok
    ensures status != Ok || filter == FILTER_NONE ==> filtered[..] == old(filtered[..])
    ensures status == Ok && filter != FILTER_NONE ==>
      && filtered[..at] == old(filtered[..at])
      && filtered[at..at + scanlineWidth - 1]
         == FilterRow(filter, bpp, prev[at..at + scanlineWidth - 1], scanline[at..at + scanlineWidth - 1])
      && filtered[at + scanlineWidth - 1..] == old(filtered[at + scanlineWidth - 1..])
  {
    hide Paeth;
    if scanlineWidth <= 1 {
      return EInternal;
    }
    if filter > 4 {
      return EFilter;
    }
    if filter == FILTER_NONE {
      return Ok;
    }
    var width := scanlineWidth - 1;
    ghost var row, above := scanline[at..at + width], prev[at..at + width];
    var i := 0;
    while i < width
      invariant 0 <= i <= width
      invariant row == scanline[at..at + width] && above == prev[at..at + width]
      invariant forall k :: 0 <= k < i ==> filtered[at + k] == FilterRow(filter, bpp, above, row)[k]
      invariant forall k :: 0 <= k < at || at + i <= k < filtered.Length ==> filtered[k] == old(filtered[k])
    {
      var a, c := 0, 0;
      if i >= bpp {
        a, c := scanline[at + i - bpp], prev[at + i - bpp];
      }
      var b := prev[at + i];
      var x := scanline[at + i];
      if filter == FILTER_SUB {
        x := Sub8(x, a);
      } else if filter == FILTER_UP {
        x := Sub8(x, b);
      } else if filter == FILTER_AVERAGE {
        var avg: int := (a as int + b as int) / 2;
        x := Sub8(x, avg);
      } else if filter == FILTER_PAETH {
        x := Sub8(x, Paeth(a, b, c));
      }
      assert a == Before(row, i, bpp) && b == above[i] && c == Before(above, i, bpp);
      filtered[at + i] := x;
      i := i + 1;
    }
    status := Ok;
  }

  /** Adds the row above, byte by byte. */
  method DefilterUp(bytes: nat, row: array<byte>, prev: array<byte>)
    requires bytes <= row.Length && bytes <= prev.Length && row != prev
    modifies row
    ensures row[..bytes] == DefilterRow(FILTER_UP, 1, prev[..bytes], old(row[..bytes]))
    ensures row[bytes..] == old(row[bytes..])
  {
    ghost var coded, above := row[..bytes], prev[..bytes];
    var i := 0;
    while i < bytes
      invariant 0 <= i <= bytes
      invariant prev[..bytes] == above
      invariant forall k :: 0 <= k < i ==> row[k] == Add8(coded[k], above[k])
      invariant forall k :: i <= k < row.Length ==> row[k] == old(row[k])
    {
      row[i] := Add8(row[i], prev[i]);
      i := i + 1;
    }
    assert Rebuilds(FILTER_UP, 1, above, coded, row[..bytes]);
    RebuildsIsDefilter(FILTER_UP, 1, above, coded, row[..bytes]);
  }

  /** The portable loop: rebuilds a row in place, reading back the bytes it has just written.
      Its caller has already dealt with the Up filter. */
  method DefilterScalar(prev: array<byte>, scanline: array<byte>, width: nat, bpp: nat, filter: nat)
    requires bpp > 0 && width <= prev.Length && width <= scanline.Length && prev != scanline
    requires filter != FILTER_UP
    modifies scanline
    ensures scanline[..width] == DefilterRow(filter, bpp, prev[..width], old(scanline[..width]))
    ensures scanline[width..] == old(scanline[width..])
  {
    hide Paeth;
    ghost var coded, above := scanline[..width], prev[..width];
    var i := 0;
    while i < width
      invariant 0 <= i <= width
      invariant prev[..width] == above
      invariant forall k :: 0 <= k < i ==>
        scanline[k] == Add8(coded[k], PredictAt(filter, bpp, above, scanline[..width], k))
      invariant forall k :: i <= k < scanline.Length ==> scanline[k] == old(scanline[k])
    {
      var a, c := 0, 0;
      if i >= bpp {
        a, c := scanline[i - bpp], prev[i - bpp];
      }
      var b := prev[i];
      var x := scanline[i];
      if filter == FILTER_SUB {
        x := Add8(x, a);
      } else if filter == FILTER_AVERAGE {
        var avg: int := (a as int + b as int) / 2;
        x := Add8(x, avg);
      } else if filter == FILTER_PAETH {
        x := Add8(x, Paeth(a, b, c));
      }
      ghost var before := scanline[..width];
      scanline[i] := x;
      assert forall k :: 0 <= k <= i ==> Before(scanline[..width], k, bpp) == Before(before, k, bpp);
      i := i + 1;
    }
    assert Rebuilds(filter, bpp, above, coded, scanline[..width]);
    RebuildsIsDefilter(filter, bpp, above, coded, scanline[..width]);
  }
}
