/**
 The part of the decoder that turns the bytes of the stream into scanlines. The first
 filter byte is read alone; every further read is offset by one byte, a scanline together
 with the filter byte of the next. Rows of 16-bit samples are converted to host order
 before they are defiltered, against a previous row that already is in host order.
 */
module Decoder {
  import opened Octets
  import opened Filtering
  import opened SimdDefilter
  import opened ByteOrder
  import opened ImageStream

  datatype Simd = Portable | Sse2 | Neon

  /** What a scanline buffer has beyond the longest scanline; vector code may touch it. */
  const SLACK := 32

  /** Undoes the filter of a scanline in place, by the loop of the platform. */
  method DefilterScanline(simd: Simd, prev: array<byte>, scanline: array<byte>, scanlineWidth: nat, bpp: nat, filter: nat)
    returns (status: Status)
    requires bpp > 0 && prev != scanline && 0 < scanlineWidth
    requires scanlineWidth + SLACK <= prev.Length && scanlineWidth + SLACK <= scanline.Length
    requires (bpp == 3 || bpp == 4) ==> (scanlineWidth - 1) % bpp == 0
    modifies scanline
    ensures status == Ok || (status == EFilter && filter > 4)
    ensures status == Ok ==>
      scanline[..scanlineWidth - 1] == DefilterRow(filter, bpp, prev[..scanlineWidth - 1], old(scanline[..scanlineWidth - 1]))
  {
    hide Paeth;
    var width := scanlineWidth - 1;
    if filter == FILTER_NONE {
      NothingToUndo(filter, bpp, prev[..width], scanline[..width]);
      return Ok;
    }
    if simd != Portable && filter != FILTER_UP && (bpp == 3 || bpp == 4) {
      if !Vectorized(filter) {
        return EFilter;
      }
      if simd == Sse2 {
        if bpp == 4 { SseDefilter4(filter, width, scanline, prev); } else { SseDefilter3(filter, width, scanline, prev); }
      } else {
        if bpp == 4 { NeonDefilter4(filter, width, scanline, prev); } else { NeonDefilter3(filter, width, scanline, prev); }
      }
      return Ok;
    }
    if filter == FILTER_UP {
      UpIgnoresPixelSize(1, bpp, prev[..width], scanline[..width]);
      DefilterUp(width, scanline, prev);
      return Ok;
    }
    DefilterScalar(prev, scanline, width, bpp, filter);
    status := Ok;
  }

  /** Predicting 0 leaves every byte as it is. */
  lemma NothingToUndo(filter: nat, bpp: nat, prev: seq<byte>, coded: seq<byte>)
    requires bpp > 0 && |coded| <= |prev| && filter == FILTER_NONE
    ensures DefilterRow(filter, bpp, prev, coded) == coded
  {
    RebuildsIsDefilter(filter, bpp, prev, coded, coded);
  }

  /** Defiltering a converted row against what the previous buffer holds is converting the
      row that the stream encodes: at the top of a pass the buffer is cleared only for
      filters that look at it. */
  lemma DefilterConverted(swap: bool, host: Endian, filter: nat, bpp: nat, above: seq<byte>, held: seq<byte>, coded: seq<byte>)
    requires bpp > 0 && |above| == |held| == |coded|
    requires swap ==> bpp % 2 == 0 && |coded| % 2 == 0
    requires filter > FILTER_SUB ==> held == Order(swap, host, above)
    ensures DefilterRow(filter, bpp, held, Order(swap, host, coded))
         == Order(swap, host, DefilterRow(filter, bpp, above, coded))
  {
    if filter <= FILTER_SUB {
      PreviousRowUnused(filter, bpp, held, Order(swap, host, above), Order(swap, host, coded));
    }
    if swap {
      ReorderCommutes(host, filter, bpp, above, coded);
    }
  }

  function Order(swap: bool, host: Endian, s: seq<byte>): (r: seq<byte>)
    ensures |r| == |s|
  {
    if swap then Reorder(host, s) else s
  }

  /** Vector loops need whole pixels, and byte swapping whole samples. */
  ghost predicate WholePixels(l: Layout, swap: bool) {
    forall k :: 0 <= k < |l.lines| ==>
      && ((l.bpp == 3 || l.bpp == 4) ==> l.lines[k].bytes % l.bpp == 0)
      && (swap ==> l.bpp % 2 == 0 && l.lines[k].bytes % 2 == 0)
  }

  /** The scanline after the first k, when its bytes are all there. */
  lemma NextRow(l: Layout, stream: seq<byte>, rows: seq<seq<byte>>, filter: nat, coded: seq<byte>)
    requires l.Valid() && |rows| < |l.lines| && Uncode(l, stream, |rows|) == Rows(rows)
    requires Offset(l, |rows|) + 1 + |coded| <= |stream| && |coded| == l.lines[|rows|].bytes
    requires filter == stream[Offset(l, |rows|)] <= 4
    requires coded == stream[Offset(l, |rows|) + 1..Offset(l, |rows|) + 1 + |coded|]
    ensures Uncode(l, stream, |rows| + 1) == Rows(rows + [DefilterRow(filter, l.bpp, Above(l, rows, |rows|), coded)])
  {
    hide DefilterRow, Uncode, Offset, UncodeLine, Above, WellSized, Layout.Valid;
    BppPositive(l);
    UncodeSnoc(l, stream, rows);
    UncodeLineIs(l, Above(l, rows, |rows|), stream, Offset(l, |rows|));
  }

  lemma UncodeLineIs(l: Layout, above: seq<byte>, stream: seq<byte>, at: nat)
    requires l.bpp > 0 && at + 1 + |above| <= |stream| && stream[at] <= 4
    ensures UncodeLine(l, above, stream, at) == Rows([DefilterRow(stream[at], l.bpp, above, stream[at + 1..at + 1 + |above|])])
  {
    hide DefilterRow;
  }

  /** The scanline after the first k, when bytes are missing. */
  lemma MissingBytes(l: Layout, stream: seq<byte>, rows: seq<seq<byte>>)
    requires l.Valid() && |rows| < |l.lines| && Uncode(l, stream, |rows|) == Rows(rows)
    requires Offset(l, |rows|) < |stream| && stream[Offset(l, |rows|)] <= 4
    requires Offset(l, |rows|) + 1 + l.lines[|rows|].bytes > |stream|
    ensures Uncode(l, stream, |l.lines|) == TooShort
  {
    UncodeSnoc(l, stream, rows);
    UncodePrefix(l, stream, |rows| + 1, |l.lines|);
    hide DefilterRow, Uncode, Offset;
  }

  /** The next filter byte is missing or wrong. */
  lemma NoNextFilter(l: Layout, stream: seq<byte>, rows: seq<seq<byte>>)
    requires l.Valid() && |rows| < |l.lines| && Uncode(l, stream, |rows|) == Rows(rows)
    requires Offset(l, |rows|) >= |stream| || stream[Offset(l, |rows|)] > 4
    ensures Uncode(l, stream, |l.lines|) == if Offset(l, |rows|) >= |stream| then TooShort else BadFilter
  {
    UncodeSnoc(l, stream, rows);
    UncodePrefix(l, stream, |rows| + 1, |l.lines|);
    hide DefilterRow, Uncode, Offset;
  }

  /** The bytes of the scanline are missing, or the filter byte after it is missing or wrong. */
  lemma NextFilterMissing(l: Layout, stream: seq<byte>, rows: seq<seq<byte>>, next: nat)
    requires l.Valid() && |rows| + 1 < |l.lines| && Uncode(l, stream, |rows|) == Rows(rows)
    requires Offset(l, |rows|) < |stream| && stream[Offset(l, |rows|)] <= 4
    requires next == Offset(l, |rows| + 1) && (next >= |stream| || stream[next] > 4)
    ensures Uncode(l, stream, |l.lines|) == if next >= |stream| then TooShort else BadFilter
  {
    hide Uncode, DefilterRow, Layout.Valid, Offset, Above, WellSized;
    var at, n, k := Offset(l, |rows|), l.lines[|rows|].bytes, |rows|;
    OffsetSnoc(l, k);
    BppPositive(l);
    if next > |stream| {
      MissingBytes(l, stream, rows);
    } else {
      var coded := stream[at + 1..next];
      var rows' := rows + [DefilterRow(stream[at], l.bpp, Above(l, rows, k), coded)];
      NextRow(l, stream, rows, stream[at], coded);
      NoNextFilter(l, stream, rows');
    }
  }

  class ScanlineDecoder {
    const l: Layout
    const swap: bool
    const host: Endian
    const simd: Simd
    /** What the decompressor produces, and how much of it has been read. */
    const stream: seq<byte>
    var pos: nat
    /** The filter of the next scanline. */
    var filter: nat
    var scanline: array<byte>
    var prevScanline: array<byte>
    /** The scanlines decoded so far, in the byte order of the stream. */
    ghost var rows: seq<seq<byte>>

    ghost predicate Buffers()
      reads this`scanline, this`prevScanline
    {
      && l.Valid() && WholePixels(l, swap)
      && scanline != prevScanline && scanline.Length == prevScanline.Length
      && forall k :: 0 <= k < |l.lines| ==> l.lines[k].bytes + 1 + SLACK <= scanline.Length
    }

    /** The rows so far are what the stream encodes, and its next filter byte has been read. */
    ghost predicate Progress()
      reads this`pos, this`filter, this`rows
    {
      && l.Valid() && |rows| <= |l.lines| && Uncode(l, stream, |rows|) == Rows(rows)
      && (|rows| < |l.lines| ==>
            Offset(l, |rows|) < |stream| && pos == Offset(l, |rows|) + 1 && filter == stream[Offset(l, |rows|)] <= 4)
    }

    ghost predicate Remembers()
      reads this, prevScanline
    {
      |rows| < |l.lines| && !l.lines[|rows|].top ==>
        && 0 < |rows|
        && l.lines[|rows|].bytes <= prevScanline.Length
        && prevScanline[..l.lines[|rows|].bytes] == Order(swap, host, rows[|rows| - 1])
    }

    ghost predicate Valid()
      reads this, prevScanline
    {
      Buffers() && Progress() && Remembers()
    }

    constructor (l: Layout, swap: bool, host: Endian, simd: Simd, stream: seq<byte>, longest: nat)
      requires l.Valid() && WholePixels(l, swap)
      requires forall k :: 0 <= k < |l.lines| ==> l.lines[k].bytes + 1 <= longest
      ensures Buffers() && rows == [] && pos == 0 && this.l == l && this.swap == swap && this.host == host
      ensures this.simd == simd && this.stream == stream
      ensures fresh(scanline) && fresh(prevScanline)
    {
      this.l, this.swap, this.host, this.simd, this.stream := l, swap, host, simd, stream;
      var size := longest + SLACK;
      scanline := new byte[size](_ => 0);
      prevScanline := new byte[size](_ => 0);
      pos, filter, rows := 0, 0, [];
    }

    /** Takes bytes from the decompressor; an exhausted stream is an error. */
    method ReadScanlineBytes(len: nat) returns (ok: bool)
      requires pos <= |stream| && len <= scanline.Length
      modifies this`pos, scanline
      ensures ok <==> old(pos) + len <= |stream|
      ensures ok ==> pos == old(pos) + len && scanline[..len] == stream[old(pos)..old(pos) + len]
    {
      if pos + len > |stream| {
        return false;
      }
      forall i | 0 <= i < len {
        scanline[i] := stream[pos + i];
      }
      pos := pos + len;
      ok := true;
    }

    /** Reads the first filter byte. */
    method Start() returns (d: Decoded)
      requires Buffers() && rows == [] && pos == 0 && 0 < |l.lines|
      modifies this
      ensures d.Rows? ==> d.rows == [] && Valid()
      ensures !d.Rows? ==> Uncode(l, stream, |l.lines|) == d
      ensures rows == [] && scanline == old(scanline) && prevScanline == old(prevScanline)
    {
      UncodePrefix(l, stream, 1, |l.lines|);
      assert Offset(l, 0) == 0 && Uncode(l, stream, 0) == Rows([]);
      if |stream| == 0 {
        return TooShort;
      }
      filter := stream[0];
      pos := 1;
      if filter > 4 {
        return BadFilter;
      }
      d := Rows([]);
    }

    /** The scanline just read is in the buffer, in the byte order of memory. */
    ghost predicate Loaded()
      reads this, scanline
    {
      && Buffers() && Progress() && 0 < |rows|
      && l.lines[|rows| - 1].bytes <= scanline.Length
      && scanline[..l.lines[|rows| - 1].bytes] == Order(swap, host, rows[|rows| - 1])
    }

    /** Reads the next scanline of n bytes, and the filter byte of the one after it. */
    method Fetch(n: nat, final: bool) returns (d: Decoded, nextFilter: nat)
      requires Buffers() && Progress() && |rows| < |l.lines|
      requires n == l.lines[|rows|].bytes && final == (|rows| + 1 == |l.lines|)
      modifies this`pos, scanline
      ensures !d.Rows? ==> Uncode(l, stream, |l.lines|) == d
      ensures d.Rows? ==>
        && Offset(l, |rows|) + 1 + n <= |stream|
        && scanline[..n] == stream[Offset(l, |rows|) + 1..Offset(l, |rows|) + 1 + n]
      ensures d.Rows? && !final ==>
        && Offset(l, |rows| + 1) < |stream|
        && pos == Offset(l, |rows| + 1) + 1 && nextFilter == stream[Offset(l, |rows| + 1)] <= 4
    {
      hide DefilterRow, UncodeLine, Layout.Valid, Above, Uncode;
      ghost var at := Offset(l, |rows|);
      nextFilter := 0;
      if final {
        var ok := ReadScanlineBytes(n);
        if !ok {
          MissingBytes(l, stream, rows);
          return TooShort, 0;
        }
        return Rows([]), 0;
      }
      var ok := ReadScanlineBytes(n + 1);
      if !ok {
        NextFilterMissing(l, stream, rows, at + 1 + n);
        return TooShort, 0;
      }
      nextFilter := scanline[n];
      assert nextFilter == scanline[..n + 1][n] == stream[at + 1 + n];
      assert scanline[..n] == scanline[..n + 1][..n] == stream[at + 1..at + 1 + n];
      if nextFilter > 4 {
        NextFilterMissing(l, stream, rows, at + 1 + n);
        return BadFilter, 0;
      }
      d := Rows([]);
    }

    /** Reads and rebuilds the next scanline of n bytes. */
    method ReadScanline(n: nat, first: bool, final: bool) returns (d: Decoded)
      requires Valid() && |rows| < |l.lines|
      requires n == l.lines[|rows|].bytes && first == l.lines[|rows|].top && final == (|rows| + 1 == |l.lines|)
      modifies this`pos, this`filter, this`rows, scanline, prevScanline
      ensures !d.Rows? ==> Uncode(l, stream, |l.lines|) == d
      ensures d.Rows? ==> Loaded() && |rows| == old(|rows|) + 1 && old(rows) == rows[..|rows| - 1]
    {
      hide DefilterRow, UncodeLine, Reorder, Layout.Valid, Uncode, Order, Offset, WellSized;
      ghost var above := Above(l, rows, |rows|);
      BppPositive(l);
      var nextFilter;
      d, nextFilter := Fetch(n, final);
      if !d.Rows? {
        return;
      }
      ghost var coded := scanline[..n];
      ghost var row := DefilterRow(filter, l.bpp, above, coded);
      NextRow(l, stream, rows, filter, coded);
      Rebuild(n, first, above, coded);
      filter := nextFilter;
      rows := rows + [row];
      d := Rows([]);
    }

    /** Undoes the filter of the n bytes in the buffer. */
    method Rebuild(n: nat, first: bool, ghost above: seq<byte>, ghost coded: seq<byte>)
      requires l.bpp > 0 && scanline != prevScanline && filter <= 4
      requires n + 1 + SLACK <= scanline.Length && n + 1 + SLACK <= prevScanline.Length
      requires |above| == |coded| == n && scanline[..n] == coded
      requires (l.bpp == 3 || l.bpp == 4) ==> n % l.bpp == 0
      requires swap ==> l.bpp % 2 == 0 && n % 2 == 0
      requires if first then above == Zeros(n) else prevScanline[..n] == Order(swap, host, above)
      modifies scanline, prevScanline
      ensures scanline[..n] == Order(swap, host, DefilterRow(filter, l.bpp, above, coded))
    {
      hide DefilterRow, Reorder;
      if first && filter > FILTER_SUB {
        forall i | 0 <= i < n + 1 {
          prevScanline[i] := 0;
        }
        ZerosConverted(swap, host, n);
        assert prevScanline[..n] == Zeros(n);
      }
      ghost var held := prevScanline[..n];
      if swap {
        assert scanline[0..0 + n] == coded;
        ReorderInPlace(host, scanline, 0, n);
        assert scanline[..n] == scanline[0..0 + n];
      }
      assert scanline[..n] == Order(swap, host, coded);
      DefilterConverted(swap, host, filter, l.bpp, above, held, coded);
      var status := DefilterScanline(simd, prevScanline, scanline, n + 1, l.bpp, filter);
    }

    lemma ProgressIsValid()
      requires Progress()
      ensures l.Valid() && |rows| <= |l.lines|
    {
    }

    /** The buffers change places: the previous scanline is always the defiltered one. */
    method Exchange()
      requires Loaded()
      modifies this`scanline, this`prevScanline
      ensures Valid() && scanline == old(prevScanline) && prevScanline == old(scanline)
    {
      hide Order, Layout.Valid, Progress;
      ProgressIsValid();
      SameBytes(l, |rows|);
      scanline, prevScanline := prevScanline, scanline;
    }
  }

  lemma SameBytes(l: Layout, k: nat)
    requires l.Valid()
    ensures k < |l.lines| && !l.lines[k].top ==> k > 0 && l.lines[k - 1].bytes == l.lines[k].bytes
  {
  }

  lemma ZerosConverted(swap: bool, host: Endian, n: nat)
    ensures Order(swap, host, Zeros(n)) == Zeros(n)
  {
  }

  lemma OffsetSnoc(l: Layout, k: nat)
    requires k < |l.lines|
    ensures Offset(l, k + 1) == Offset(l, k) + 1 + l.lines[k].bytes
  {
  }

  lemma BppPositive(l: Layout)
    requires l.Valid()
    ensures l.bpp > 0
  {
  }
}
