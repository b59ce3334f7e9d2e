/**
 The decoder's loop over an image, from the filtered stream to pixels.
 */
module ImageDecoder {
  import opened Octets
  import opened ByteOrder
  import opened Header
  import opened Adam7
  import opened Scanlines
  import opened Interlace
  import opened ImageStream
  import opened ImageGeometry
  import opened ImageEncoder
  import opened Decoder
  import opened WireFormat

  datatype DecodeStatus = Decoded | EImageOverflow | EOutputSize | EIdatTooShort | EBadFilter

  predicate Swaps(h: Ihdr, raw: bool) {
    h.bitDepth == 16 && !raw
  }

  lemma Multiples(b: nat, w: nat)
    requires b in {1, 2, 3, 4, 6, 8}
    ensures (b == 3 ==> (b * w) % 3 == 0) && (b == 4 ==> (b * w) % 4 == 0)
    ensures b % 2 == 0 ==> (b * w) % 2 == 0
  {
    Threes(w);
    Fours(w);
    Even(b / 2, w);
  }

  lemma Threes(w: nat)
    ensures (3 * w) % 3 == 0
  {
  }

  lemma Fours(w: nat)
    ensures (4 * w) % 4 == 0
  {
  }

  lemma Even(c: nat, w: nat)
    ensures (2 * c) * w % 2 == 0
  {
    assert (2 * c) * w == 2 * (c * w);
  }

  lemma LayoutHasWholePixels(h: Ihdr, raw: bool)
    requires ValidIhdr(h)
    ensures WholePixels(LayoutOf(h), Swaps(h, raw))
  {
    PixelSizes(h);
    hide ValidIhdr, BytesPerPixel, PixelBits, PlaceAt, LayoutOf;
    forall k | 0 <= k < Total(h)
      ensures (BytesPerPixel(h) == 3 || BytesPerPixel(h) == 4) ==> LineBytes(h, k) % BytesPerPixel(h) == 0
      ensures Swaps(h, raw) ==> BytesPerPixel(h) % 2 == 0 && LineBytes(h, k) % 2 == 0
    {
      RowBytesIs(h, Columns(h, k));
      hide RowBytes;
      Multiples(BytesPerPixel(h), Columns(h, k));
    }
  }

  // ---------------------------------------------------------------------------- one row

  /** Writes the first n bytes of a scanline to the row of the image at a place: whole rows
      are copied, others go through the row buffer and are scattered. */
  method PutRow(h: Ihdr, pass: nat, line: array<byte>, rowBuf: array<byte>, out: array<byte>, at: nat)
    requires ValidIhdr(h) && PixelsAreValid(h) && pass < 7 && line != out && rowBuf != out && line != rowBuf
    requires RowBytes(h, Sub(h, pass).width) <= line.Length && RowBytes(h, h.width) <= rowBuf.Length
    requires at + RowBytes(h, h.width) <= out.Length && (WholeRow(h, pass) ==> Sub(h, pass).width == h.width)
    modifies rowBuf, out
    ensures WrittenTo(h, pass, line[..RowBytes(h, Sub(h, pass).width)],
                      old(out[at..at + RowBytes(h, h.width)]), out[at..at + RowBytes(h, h.width)])
    ensures out[..at] == old(out[..at]) && out[at + RowBytes(h, h.width)..] == old(out[at + RowBytes(h, h.width)..])
  {
    var n, m := RowBytes(h, Sub(h, pass).width), RowBytes(h, h.width);
    if WholeRow(h, pass) {
      CopyBytes(out, at, line, 0, n);
      assert line[0..0 + n] == line[..n];
      return;
    }
    RowIsWidest(h, pass);
    CopyBytes(rowBuf, 0, line, 0, n);
    assert rowBuf[..n] == rowBuf[0..0 + n] == line[0..0 + n] == line[..n];
    LinePixels(h, pass, line[..n], out[at..at + m]);
    PixelSizes(h);
    if h.bitDepth < 8 {
      ScatterPacked(h.bitDepth, pass, Sub(h, pass).width, h.width, rowBuf, n, out, at, m);
    } else {
      ScatterWhole(h.bitDepth, BytesPerPixel(h), pass, Sub(h, pass).width, h.width, rowBuf, n, out, at, m);
    }
  }

  /** The scanlines of the stream in the byte order of memory. */
  function LinesOf(h: Ihdr, raw: bool, host: Endian, rows: seq<seq<byte>>): (lines: seq<seq<byte>>)
    ensures |lines| == |rows|
    ensures forall k :: 0 <= k < |rows| ==> lines[k] == Wire(h, raw, host, rows[k])
  {
    seq(|rows|, k requires 0 <= k < |rows| => Wire(h, raw, host, rows[k]))
  }

  lemma LinesFitToo(h: Ihdr, raw: bool, host: Endian, rows: seq<seq<byte>>)
    requires ValidIhdr(h) && WellSized(LayoutOf(h), rows)
    ensures LinesFit(h, LinesOf(h, raw, host, rows))
  {
    hide ValidIhdr, LineBytes, LayoutOf, Wire;
    var lines := LinesOf(h, raw, host, rows);
    forall i | 0 <= i < |lines| ensures |lines[i]| == LineBytes(h, i) {
      assert lines[i] == Wire(h, raw, host, rows[i]);
    }
  }

  /** What is painted does not depend on the scanlines still to come. */
  lemma PaintedSoFar(h: Ihdr, lines: seq<seq<byte>>, more: seq<seq<byte>>, before: seq<byte>, now: seq<byte>)
    requires ValidIhdr(h) && PaintedTo(h, lines, |lines|, before, now)
    requires LinesFit(h, more) && |lines| <= |more| && more[..|lines|] == lines
    ensures PaintedTo(h, more, |lines|, before, now)
  {
    forall x, y | 0 <= x < h.width && 0 <= y < h.height
      ensures PixelPainted(h, more, |lines|, before, now, x, y)
    {
      assert PixelPainted(h, lines, |lines|, before, now, x, y);
      hide ValidIhdr, PixelAt, LinePixel, Painted, IsImage, LinesFit, PaintedTo;
      var i := LineIndex(h, x, y);
      assert i < |lines| ==> lines[i] == more[..|lines|][i] == more[i];
    }
  }

  /** Other rows of the image stay when one is written. */
  lemma OtherRowsStay(h: Ihdr, before: seq<byte>, after: seq<byte>, r: nat)
    requires IsImage(h, before) && IsImage(h, after) && |after| == |before| && r < h.height
    requires RowStart(h, r) + RowBytes(h, h.width) <= |before|
    requires after[..RowStart(h, r)] == before[..RowStart(h, r)]
    requires after[RowStart(h, r) + RowBytes(h, h.width)..] == before[RowStart(h, r) + RowBytes(h, h.width)..]
    ensures forall y :: 0 <= y < h.height && y != r ==> ImageRow(h, after, y) == ImageRow(h, before, y)
  {
    hide RowStart, RowBytes, IsImage;
    forall y | 0 <= y < h.height && y != r
      ensures ImageRow(h, after, y) == ImageRow(h, before, y)
    {
      var m, s, t := RowBytes(h, h.width), RowStart(h, r), RowStart(h, y);
      RowInImage(h, before, y);
      if y < r {
        RowsApart(h, y, r);
        SubSlice(after, 0, s, t, m, after[..s]);
        SubSlice(before, 0, s, t, m, before[..s]);
      } else {
        RowsApart(h, r, y);
        var e := s + m;
        SubSlice(after, e, |after| - e, t - e, m, after[e..]);
        SubSlice(before, e, |after| - e, t - e, m, before[e..]);
      }
    }
  }

  lemma RowInImage(h: Ihdr, img: seq<byte>, y: nat)
    requires y < h.height && IsImage(h, img)
    ensures RowStart(h, y) + RowBytes(h, h.width) <= |img|
  {
    RowStartFits(h, y, |img|);
  }

  // -------------------------------------------------------------------------- all rows

  lemma UnderCursor(h: Ihdr, dec: ScanlineDecoder, ri: RowInfo, last: nat)
    requires ValidIhdr(h) && dec.Valid() && dec.l == LayoutOf(h) && ri.Valid(h) && IsLastPass(h, last)
    requires |dec.rows| == ri.Visited(h) && |dec.rows| < Total(h)
    ensures ri.pass < 7 && PlaceAt(h, |dec.rows|) == Place(ri.pass, ri.scanlineIdx)
    ensures ri.rowNum == RowNumber(h, PlaceAt(h, |dec.rows|)) < h.height
    ensures |dec.rows| < |dec.l.lines| == Total(h)
    ensures dec.l.lines[|dec.rows|] == Line(RowBytes(h, Sub(h, ri.pass).width), ri.scanlineIdx == 0)
    ensures RowBytes(h, Sub(h, ri.pass).width) <= dec.scanline.Length
    ensures dec.scanline != dec.prevScanline
    ensures WholeRow(h, ri.pass) ==> Sub(h, ri.pass).width == h.width
    ensures (|dec.rows| + 1 == Total(h)) == (ri.scanlineIdx == Sub(h, ri.pass).height - 1 && ri.pass == last)
  {
    LineFacts(h, Place(ri.pass, ri.scanlineIdx));
    RowNumberInImage(h, Place(ri.pass, ri.scanlineIdx));
    if WholeRow(h, ri.pass) {
      WholeRowColumns(h, |dec.rows|, 0);
    }
    LastLine(h, Place(ri.pass, ri.scanlineIdx), last);
    hide ValidIhdr, RowBytes, Sub, Index, Live, RowNumber;
  }

  /** The last scanline is the last of the last pass. */
  lemma LastLine(h: Ihdr, at: Place, last: nat)
    requires Live(h, at) && IsLastPass(h, last)
    ensures (Index(h, at) + 1 == Total(h)) == (at.line == Sub(h, at.pass).height - 1 && at.pass == last)
  {
    hide Sub;
    NothingAfter(h, last, 7);
    if at.pass < last {
      LinesBeforeMonotone(h, at.pass + 1, last);
      LinesBeforeMonotone(h, last + 1, 7);
    }
  }

  /** Writes the k-th scanline to its row; the other rows, and whatever follows the image in
      the buffer, stay. */
  method PaintRow(h: Ihdr, pass: nat, rowNum: nat, line: array<byte>, rowBuf: array<byte>, out: array<byte>, size: nat, ghost k: nat)
    requires ValidIhdr(h) && PixelsAreValid(h) && line != out && rowBuf != out && line != rowBuf
    requires k < Total(h) && pass == PlaceAt(h, k).pass && rowNum == RowNumber(h, PlaceAt(h, k)) < h.height
    requires RowBytes(h, Sub(h, pass).width) <= line.Length && RowBytes(h, h.width) <= rowBuf.Length
    requires WholeRow(h, pass) ==> Sub(h, pass).width == h.width
    requires size <= out.Length && IsImage(h, out[..size])
    modifies rowBuf, out
    ensures IsImage(h, out[..size]) && out[size..] == old(out[size..])
    ensures WrittenTo(h, pass, line[..RowBytes(h, Sub(h, pass).width)],
                      RowOfLine(h, old(out[..size]), k), RowOfLine(h, out[..size], k))
    ensures forall y :: 0 <= y < h.height && y != rowNum ==> ImageRow(h, out[..size], y) == ImageRow(h, old(out[..size]), y)
  {
    hide ValidIhdr, PixelsAreValid, Sub, RowBytes, IsImage, RowNumber, RowOfLine, WrittenTo, RowStart, PlaceAt, ImageRow;
    var m, ioffset := RowBytes(h, h.width), RowStart(h, rowNum);
    ghost var all, now := out[..], out[..size];
    RowInImage(h, now, rowNum);
    SubSlice(all, 0, size, ioffset, m, now);
    PutRow(h, pass, line, rowBuf, out, ioffset);
    ghost var next := out[..size];
    FrontOf(all, out[..], size, ioffset, m, now, next);
    ImageSize(h, now, next);
    RowUnder(h, now, k, rowNum, ioffset, now[ioffset..ioffset + m]);
    RowUnder(h, next, k, rowNum, ioffset, next[ioffset..ioffset + m]);
    OtherRowsStay(h, now, next, rowNum);
  }

  /** Decodes the scanline under the cursor and writes it to its row of the image. */
  method DecodeRow(h: Ihdr, raw: bool, host: Endian, dec: ScanlineDecoder, ri: RowInfo, rowBuf: array<byte>, out: array<byte>,
                   last: nat, size: nat, ghost before: seq<byte>) returns (d: ImageStream.Decoded)
    requires ValidIhdr(h) && PixelsAreValid(h) && dec.Valid() && dec.l == LayoutOf(h) && ri.Valid(h) && IsLastPass(h, last)
    requires dec.swap == Swaps(h, raw) && dec.host == host
    requires |dec.rows| == ri.Visited(h) && |dec.rows| < Total(h)
    requires out != dec.scanline && out != dec.prevScanline && rowBuf != dec.scanline && rowBuf != dec.prevScanline && rowBuf != out
    requires RowBytes(h, h.width) <= rowBuf.Length && size <= out.Length && IsImage(h, out[..size])
    requires PaintedTo(h, LinesOf(h, raw, host, dec.rows), |dec.rows|, before, out[..size])
    modifies dec, dec.scanline, dec.prevScanline, rowBuf, out
    ensures !d.Rows? ==> Uncode(dec.l, dec.stream, Total(h)) == d
    ensures d.Rows? ==> dec.Valid() && |dec.rows| == old(|dec.rows|) + 1
    ensures d.Rows? ==> dec.scanline == old(dec.prevScanline) && dec.prevScanline == old(dec.scanline)
    ensures out[size..] == old(out[size..])
    ensures d.Rows? ==> IsImage(h, out[..size]) && PaintedTo(h, LinesOf(h, raw, host, dec.rows), |dec.rows|, before, out[..size])
  {
    hide ValidIhdr, PixelsAreValid, Sub, RowBytes, IsImage, RowNumber, RowOfLine, WrittenTo, Wire, PaintedTo, LayoutOf, RowStart;
    hide Live, Index, PlaceAt, ScanlineDecoder.Valid, ScanlineDecoder.Loaded, RowInfo.Valid, RowInfo.Visited, IsLastPass;
    hide LinesOf, Uncode, Swaps;
    ghost var k, rows, now := |dec.rows|, dec.rows, out[..size];
    UnderCursor(h, dec, ri, last);
    var n := RowBytes(h, Sub(h, ri.pass).width);
    d := dec.ReadScanline(n, ri.scanlineIdx == 0, ri.scanlineIdx == Sub(h, ri.pass).height - 1 && ri.pass == last);
    if !d.Rows? {
      return;
    }
    LoadedLine(h, raw, host, dec, k);
    PaintRow(h, ri.pass, ri.rowNum, dec.scanline, rowBuf, out, size, k);
    PaintNext(h, raw, host, rows, dec.rows, dec.scanline[..n], before, now, out[..size]);
    dec.Exchange();
  }

  /** A change inside the first part of a buffer is a change of that part only. */
  lemma FrontOf(a: seq<byte>, b: seq<byte>, size: nat, s: nat, m: nat, now: seq<byte>, next: seq<byte>)
    requires |a| == |b| && s + m <= size <= |a| && now == a[..size] && next == b[..size]
    requires b[..s] == a[..s] && b[s + m..] == a[s + m..]
    ensures next[..s] == now[..s] && next[s + m..] == now[s + m..] && next[s..s + m] == b[s..s + m]
    ensures b[size..] == a[size..]
  {
    assert next[..s] == b[..s] && now[..s] == a[..s];
    assert next[s + m..] == b[s + m..][..size - s - m] && now[s + m..] == a[s + m..][..size - s - m];
    assert b[size..] == b[s + m..][size - s - m..] && a[size..] == a[s + m..][size - s - m..];
  }

  lemma ImageSize(h: Ihdr, a: seq<byte>, b: seq<byte>)
    requires IsImage(h, a) && |a| == |b|
    ensures IsImage(h, b)
  {
  }

  lemma RowUnder(h: Ihdr, img: seq<byte>, k: nat, r: nat, at: nat, row: seq<byte>)
    requires IsImage(h, img) && k < Total(h) && r == RowNumber(h, PlaceAt(h, k)) < h.height && at == RowStart(h, r)
    requires at + RowBytes(h, h.width) <= |img| && row == img[at..at + RowBytes(h, h.width)]
    ensures row == RowOfLine(h, img, k)
  {
    hide RowStart, RowBytes, IsImage, RowNumber, PlaceAt;
  }

  /** The scanline in the buffer, in the byte order of memory. */
  lemma LoadedLine(h: Ihdr, raw: bool, host: Endian, dec: ScanlineDecoder, k: nat)
    requires ValidIhdr(h) && dec.Loaded() && dec.l == LayoutOf(h) && dec.swap == Swaps(h, raw) && dec.host == host
    requires |dec.rows| == k + 1
    ensures k < Total(h) && WellSized(LayoutOf(h), dec.rows)
    ensures RowBytes(h, Sub(h, PlaceAt(h, k).pass).width) <= dec.scanline.Length
    ensures dec.scanline[..RowBytes(h, Sub(h, PlaceAt(h, k).pass).width)] == LinesOf(h, raw, host, dec.rows)[k]
  {
    hide ValidIhdr, RowBytes, Sub, PlaceAt;
    assert LinesOf(h, raw, host, dec.rows)[k] == Wire(h, raw, host, dec.rows[k]);
  }

  /** One more scanline is painted. */
  lemma PaintNext(h: Ihdr, raw: bool, host: Endian, rows: seq<seq<byte>>, more: seq<seq<byte>>, line: seq<byte>,
                  before: seq<byte>, now: seq<byte>, next: seq<byte>)
    requires ValidIhdr(h) && PixelsAreValid(h) && WellSized(LayoutOf(h), more) && |more| == |rows| + 1 && more[..|rows|] == rows
    requires PaintedTo(h, LinesOf(h, raw, host, rows), |rows|, before, now) && IsImage(h, now) && IsImage(h, next)
    requires |rows| < Total(h) && line == LinesOf(h, raw, host, more)[|rows|]
    requires WrittenTo(h, PlaceAt(h, |rows|).pass, line, RowOfLine(h, now, |rows|), RowOfLine(h, next, |rows|))
    requires forall y :: 0 <= y < h.height && y != RowNumber(h, PlaceAt(h, |rows|)) ==> ImageRow(h, next, y) == ImageRow(h, now, y)
    ensures PaintedTo(h, LinesOf(h, raw, host, more), |more|, before, next)
  {
    hide ValidIhdr, PixelsAreValid, RowBytes, IsImage, RowNumber, RowOfLine, WrittenTo, Wire, PaintedTo, LayoutOf, PlaceAt, ImageRow;
    LinesFitToo(h, raw, host, more);
    var lines, lines' := LinesOf(h, raw, host, rows), LinesOf(h, raw, host, more);
    assert lines'[..|rows|] == lines by {
      assert forall i :: 0 <= i < |rows| ==> more[i] == more[..|rows|][i] == rows[i];
    }
    PaintedSoFar(h, lines, lines', before, now);
    PaintStep(h, lines', |rows|, before, now, next);
  }

  lemma BuffersApart(dec: ScanlineDecoder)
    requires dec.Valid()
    ensures dec.scanline != dec.prevScanline
  {
  }

  /** Nothing is painted yet. */
  lemma NothingPainted(h: Ihdr, raw: bool, host: Endian, img: seq<byte>)
    requires ValidIhdr(h) && IsImage(h, img)
    ensures PaintedTo(h, LinesOf(h, raw, host, []), 0, img, img)
  {
    var lines := LinesOf(h, raw, host, []);
    forall x, y | 0 <= x < h.width && 0 <= y < h.height
      ensures PixelPainted(h, lines, 0, img, img, x, y)
    {
      hide ValidIhdr, IsImage;
    }
  }

  /** Decodes all scanlines. */
  method DecodeRows(h: Ihdr, raw: bool, host: Endian, dec: ScanlineDecoder, ri: RowInfo, rowBuf: array<byte>, out: array<byte>,
                    last: nat, size: nat) returns (d: ImageStream.Decoded)
    requires ValidIhdr(h) && PixelsAreValid(h) && dec.Valid() && dec.l == LayoutOf(h) && ri.Valid(h) && IsLastPass(h, last)
    requires dec.swap == Swaps(h, raw) && dec.host == host && dec.rows == [] && ri.Visited(h) == 0
    requires out != dec.scanline && out != dec.prevScanline && rowBuf != dec.scanline && rowBuf != dec.prevScanline && rowBuf != out
    requires RowBytes(h, h.width) <= rowBuf.Length && size <= out.Length && IsImage(h, out[..size])
    modifies dec, dec.scanline, dec.prevScanline, rowBuf, out, ri
    ensures !d.Rows? ==> Uncode(dec.l, dec.stream, Total(h)) == d
    ensures d.Rows? ==> dec.Valid() && |dec.rows| == Total(h)
    ensures d.Rows? ==> PaintedTo(h, LinesOf(h, raw, host, dec.rows), Total(h), old(out[..size]), out[..size])
    ensures out[size..] == old(out[size..])
  {
    hide ValidIhdr, PixelsAreValid, Sub, RowBytes, IsImage, PaintedTo, LayoutOf, RowNumber, Index, LinesOf, Swaps, Uncode;
    hide ScanlineDecoder.Valid, Live, RowInfo.Valid, RowInfo.Visited, IsLastPass;
    ghost var before := out[..size];
    NothingPainted(h, raw, host, before);
    BuffersApart(dec);
    CursorInside(h, ri);
    d := Rows([]);
    var eoi := false;
    while !eoi
      invariant dec.Valid() && ri.Valid(h) && IsImage(h, out[..size]) && d.Rows?
      invariant || (dec.scanline == old(dec.scanline) && dec.prevScanline == old(dec.prevScanline))
                || (dec.scanline == old(dec.prevScanline) && dec.prevScanline == old(dec.scanline))
      invariant |dec.rows| == if eoi then Total(h) else ri.Visited(h)
      invariant !eoi ==> |dec.rows| < Total(h)
      invariant PaintedTo(h, LinesOf(h, raw, host, dec.rows), |dec.rows|, before, out[..size])
      invariant out[size..] == old(out[size..])
      decreases Total(h) - |dec.rows|
    {
      d := DecodeRow(h, raw, host, dec, ri, rowBuf, out, last, size, before);
      if !d.Rows? {
        return;
      }
      eoi := ri.Update(h, last);
      CursorInside(h, ri);
    }
  }

  lemma LinesToDecode(h: Ihdr)
    requires ValidIhdr(h)
    ensures 0 < Total(h)
  {
    FirstPassNotEmpty(h);
    LinesBeforeMonotone(h, 1, 7);
  }

  lemma DecodedRows(dec: ScanlineDecoder)
    requires dec.Valid() && |dec.rows| == |dec.l.lines|
    ensures dec.l.Valid() && Uncode(dec.l, dec.stream, |dec.l.lines|) == Rows(dec.rows)
  {
  }

  /** The rows that the stream encodes are painted over the image at the front of a buffer. */
  ghost predicate Paints(h: Ihdr, raw: bool, host: Endian, stream: seq<byte>, size: nat, before: seq<byte>, after: seq<byte>)
    requires ValidIhdr(h) && LayoutOf(h).Valid()
  {
    var d := Uncode(LayoutOf(h), stream, Total(h));
    && size <= |before| == |after| && after[size..] == before[size..] && d.Rows?
    && PaintedTo(h, LinesOf(h, raw, host, d.rows), Total(h), before[..size], after[..size])
  }

  /**
   In numbers: the rows are what the filter bytes make of the stream, and the image then has their
   samples, where what was in the buffer before makes no difference.
   */
  ghost predicate DecodesInNumbers(h: Ihdr, raw: bool, host: Endian, stream: seq<byte>, rows: seq<seq<byte>>,
                                   before: seq<byte>, after: seq<byte>)
  {
    var size := h.height * RowSize(h, h.width);
    && size <= |before| == |after| && after[size..] == before[size..] && StreamLaw(h, stream, rows)
    && (Overwritten(h, before[..size]) ==> SameSamples(h, raw, host, rows, after[..size]))
  }

  lemma PaintsInNumbers(h: Ihdr, raw: bool, host: Endian, stream: seq<byte>, size: nat, before: seq<byte>, after: seq<byte>)
    requires ValidIhdr(h) && LayoutOf(h).Valid() && size == h.height * RowBytes(h, h.width)
    requires Paints(h, raw, host, stream, size, before, after)
    ensures DecodesInNumbers(h, raw, host, stream, Uncode(LayoutOf(h), stream, Total(h)).rows, before, after)
  {
    var rows := Uncode(LayoutOf(h), stream, Total(h)).rows;
    hide ValidIhdr, RowBytes, RowSize, PaintedTo, LayoutOf, Uncode, LinesOf, Layout.Valid, WellSized, StreamLaw, SameSamples, Overwritten, LinesFit;
    HeaderNumbers(h);
    UncodeInNumbers(h, stream, rows);
    if Overwritten(h, before[..size]) {
      RowsFit(h, rows);
      PaintedInNumbers(h, raw, host, rows, LinesOf(h, raw, host, rows), before[..size], after[..size]);
    }
  }

  lemma RowsFit(h: Ihdr, rows: seq<seq<byte>>)
    requires ValidIhdr(h) && WellSized(LayoutOf(h), rows)
    ensures LinesFit(h, rows)
  {
    hide ValidIhdr, LineBytes;
  }

  /** Decodes an image from a filtered stream. The result is decided by what the stream
      encodes: too few bytes and filter bytes above 4 are errors, and otherwise the buffer is
      painted with the decoded scanlines. */
  method DecodeImage(h: Ihdr, raw: bool, host: Endian, simd: Simd, stream: seq<byte>, out: array<byte>)
    returns (status: DecodeStatus, ghost rows: seq<seq<byte>>)
    requires ValidIhdr(h)
    modifies out
    ensures LayoutOf(h).Valid()
    ensures status == Decoded ==> DecodesInNumbers(h, raw, host, stream, rows, old(out[..]), out[..])
    ensures status == EImageOverflow <==> ScanlineWidth(h, h.width) > U32_MAX
    ensures status == EOutputSize <==> ScanlineWidth(h, h.width) <= U32_MAX && out.Length < h.height * RowBytes(h, h.width)
    ensures status == EIdatTooShort ==> Uncode(LayoutOf(h), stream, Total(h)) == TooShort
    ensures status == EBadFilter ==> Uncode(LayoutOf(h), stream, Total(h)) == BadFilter
    ensures status == Decoded ==> Paints(h, raw, host, stream, h.height * RowBytes(h, h.width), old(out[..]), out[..])
  {
    LayoutIsValid(h);
    rows := [];
    if ScanlineWidth(h, h.width) > U32_MAX {
      return EImageOverflow, [];
    }
    var size := h.height * RowBytes(h, h.width);
    if out.Length < size {
      return EOutputSize, [];
    }
    PassesFit(h);
    assert IsImage(h, out[..size]);
    hide ValidIhdr, Sub, RowBytes, IsImage, PaintedTo, LayoutOf, Uncode, LinesOf, Layout.Valid;
    ghost var before := out[..];
    var d;
    d := DecodeStream(h, raw, host, simd, stream, out, size);
    assert out[..][..size] == out[..size] && before[..size] == old(out[..size]);
    assert out[..][size..] == out[size..] && before[size..] == old(out[size..]);
    match d {
      case Rows(_) =>
        status := Decoded;
        rows := Uncode(LayoutOf(h), stream, Total(h)).rows;
        PaintsInNumbers(h, raw, host, stream, size, before, out[..]);
      case TooShort => status := EIdatTooShort;
      case BadFilter => status := EBadFilter;
    }
  }

  /** The same, once the sizes are known to be right. */
  method DecodeStream(h: Ihdr, raw: bool, host: Endian, simd: Simd, stream: seq<byte>, out: array<byte>, size: nat)
    returns (d: ImageStream.Decoded)
    requires ValidIhdr(h) && FitsInMemory(h) && LayoutOf(h).Valid() && size <= out.Length && IsImage(h, out[..size])
    modifies out
    ensures d.Rows? == Uncode(LayoutOf(h), stream, Total(h)).Rows?
    ensures !d.Rows? ==> Uncode(LayoutOf(h), stream, Total(h)) == d
    ensures d.Rows? ==>
      var rows := Uncode(LayoutOf(h), stream, Total(h)).rows;
      PaintedTo(h, LinesOf(h, raw, host, rows), Total(h), old(out[..size]), out[..size])
    ensures out[size..] == old(out[size..])
  {
    hide ValidIhdr, PixelsAreValid, Sub, RowBytes, IsImage, PaintedTo, LayoutOf, Swaps, Uncode, LinesOf, WholePixels;
    hide Layout.Valid, ScanlineDecoder.Valid, FitsInMemory, IsWidest, IsLastPass, RowInfo.Valid, RowInfo.Visited;
    var ok, widest, last := CalculateSubimages(h);
    ValidPixels(h);
    LinesWithin(h, widest);
    LayoutHasWholePixels(h, raw);
    LinesToDecode(h);
    var dec := new ScanlineDecoder(LayoutOf(h), Swaps(h, raw), host, simd, stream, LongestLine(h, widest));
    var rowBuf := new byte[RowBytes(h, h.width)](_ => 0);
    var ri := new RowInfo();
    ri.Start(h);
    d := dec.Start();
    if d.Rows? {
      d := DecodeRows(h, raw, host, dec, ri, rowBuf, out, last, size);
      if d.Rows? {
        DecodedRows(dec);
      }
    }
  }

  function LongestLine(h: Ihdr, widest: nat): nat
    requires widest < 7
  {
    ScanlineWidth(h, Sub(h, widest).width)
  }
}
