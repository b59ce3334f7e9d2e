/**
 How the scanlines of the stream and the pixels of the image correspond.
 */
module ImageGeometry {
  import opened Octets
  import opened ByteOrder
  import opened Header
  import opened Adam7
  import opened Scanlines
  import opened Interlace
  import opened ImageStream

  /** The number of bytes of the k-th scanline, without its filter byte. */
  function LineBytes(h: Ihdr, k: nat): nat
    requires k < Total(h)
  {
    RowBytes(h, Sub(h, PlaceAt(h, k).pass).width)
  }

  /** The number of pixels of the k-th scanline. */
  function Columns(h: Ihdr, k: nat): nat
    requires k < Total(h)
  {
    Sub(h, PlaceAt(h, k).pass).width
  }

  ghost predicate LinesFit(h: Ihdr, lines: seq<seq<byte>>) {
    |lines| <= Total(h) && forall i :: 0 <= i < |lines| ==> |lines[i]| == LineBytes(h, i)
  }

  function LayoutOf(h: Ihdr): (l: Layout)
    requires ValidIhdr(h)
    ensures l.bpp == BytesPerPixel(h) && |l.lines| == Total(h)
    ensures forall k :: 0 <= k < Total(h) ==> l.lines[k] == Line(LineBytes(h, k), PlaceAt(h, k).line == 0)
  {
    Layout(BytesPerPixel(h), seq(Total(h), k requires 0 <= k < Total(h) => Line(LineBytes(h, k), PlaceAt(h, k).line == 0)))
  }

  /** Inside a pass, the scanline before this one is the one above it. */
  lemma LineAbove(h: Ihdr, k: nat)
    requires k < Total(h) && PlaceAt(h, k).line > 0
    ensures k > 0 && PlaceAt(h, k - 1) == Place(PlaceAt(h, k).pass, PlaceAt(h, k).line - 1)
  {
    var at := PlaceAt(h, k);
    var above := Place(at.pass, at.line - 1);
    assert Live(h, above) && Index(h, above) == k - 1;
    IndexDeterminesPlace(h, above, at);
  }

  lemma SameBytesAbove(h: Ihdr, k: nat)
    requires k < Total(h) && PlaceAt(h, k).line > 0
    ensures k > 0 && LineBytes(h, k - 1) == LineBytes(h, k)
  {
    LineAbove(h, k);
  }

  lemma PixelHasBytes(h: Ihdr)
    requires ValidIhdr(h)
    ensures BytesPerPixel(h) > 0
  {
    PixelSizes(h);
  }

  lemma LayoutIsValid(h: Ihdr)
    requires ValidIhdr(h)
    ensures LayoutOf(h).Valid()
  {
    hide ValidIhdr, BytesPerPixel, PixelBits, LineBytes, PlaceAt, LayoutOf;
    PixelHasBytes(h);
    var l := LayoutOf(h);
    forall k | 0 <= k < |l.lines| && !l.lines[k].top
      ensures k > 0 && l.lines[k - 1].bytes == l.lines[k].bytes
    {
      SameBytesAbove(h, k);
    }
  }

  // ------------------------------------------------------------------- rows and pixels

  /** Samples travel big-endian; only the raw format leaves them so in memory. */
  function Wire(h: Ihdr, raw: bool, host: Endian, line: seq<byte>): (r: seq<byte>)
    ensures |r| == |line|
  {
    if h.bitDepth == 16 && !raw then Reorder(host, line) else line
  }

  lemma WireTwice(h: Ihdr, raw: bool, host: Endian, line: seq<byte>)
    ensures Wire(h, raw, host, Wire(h, raw, host, line)) == line
  {
    ReorderTwice(host, line);
  }

  /** Scanlines that are whole rows of the image are copied, the others interlaced. */
  predicate WholeRow(h: Ihdr, pass: nat) {
    !h.Interlaced() || pass == 6
  }

  function XOf(h: Ihdr, pass: nat, c: nat): nat
    requires pass < 7
  {
    if h.Interlaced() then X(pass, c) else c
  }

  /** The scanline of a pixel, and its column there. */
  function PlaceOf(h: Ihdr, x: nat, y: nat): Place {
    if h.Interlaced() then Place(PassOf(x, y), LineOf(x, y)) else Place(0, y)
  }

  function ColOf(h: Ihdr, x: nat, y: nat): nat {
    if h.Interlaced() then ColumnOf(x, y) else x
  }

  /** Every pixel of the image is on exactly one scanline, at one column. */
  lemma PixelHasPlace(h: Ihdr, x: nat, y: nat)
    requires x < h.width && y < h.height
    ensures Live(h, PlaceOf(h, x, y)) && RowNumber(h, PlaceOf(h, x, y)) == y
    ensures ColOf(h, x, y) < Sub(h, PlaceOf(h, x, y).pass).width && XOf(h, PlaceOf(h, x, y).pass, ColOf(h, x, y)) == x
  {
    if h.Interlaced() {
      Partition(h, x, y, PassOf(x, y), ColumnOf(x, y), LineOf(x, y));
    }
  }

  /** The position in the stream of the scanline of a pixel. */
  function LineIndex(h: Ihdr, x: nat, y: nat): (i: nat)
    requires x < h.width && y < h.height
    ensures i < Total(h) && PlaceAt(h, i) == PlaceOf(h, x, y) && RowNumber(h, PlaceAt(h, i)) == y
    ensures ColOf(h, x, y) < Columns(h, i) && XOf(h, PlaceAt(h, i).pass, ColOf(h, x, y)) == x
  {
    PixelHasPlace(h, x, y);
    hide Sub, PlaceOf, ColOf, XOf, X, Y;
    var at := PlaceOf(h, x, y);
    IndexDeterminesPlace(h, at, at);
    Index(h, at)
  }

  lemma PlaceHasPixel(h: Ihdr, at: Place, c: nat)
    requires Live(h, at) && c < Sub(h, at.pass).width
    ensures var x, y := XOf(h, at.pass, c), RowNumber(h, at);
      x < h.width && y < h.height && PlaceOf(h, x, y) == at && ColOf(h, x, y) == c
  {
    if h.Interlaced() {
      SizesAreCounts(h, at.pass, c, at.line);
      Partition(h, X(at.pass, c), Y(at.pass, at.line), at.pass, c, at.line);
    } else {
      OnlyPassZero(h, at);
    }
  }

  lemma ColumnsInside(h: Ihdr, pass: nat)
    requires pass < 7 && h.Interlaced()
    ensures Inside(pass, Sub(h, pass).width, h.width)
  {
    forall c | 0 <= c < Sub(h, pass).width ensures X(pass, c) < h.width {
      SizesAreCounts(h, pass, c, 0);
    }
  }

  predicate PixelsAreValid(h: Ihdr) {
    ValidPixel(h.bitDepth, BytesPerPixel(h))
  }

  lemma ValidPixels(h: Ihdr)
    requires ValidIhdr(h)
    ensures PixelsAreValid(h)
  {
    PixelSizes(h);
  }

  /** A row of the right size has all its pixels. */
  lemma RowHasPixels(h: Ihdr, row: seq<byte>, width: nat)
    requires ValidIhdr(h) && PixelsAreValid(h) && |row| == RowBytes(h, width)
    ensures HasPixels(h.bitDepth, BytesPerPixel(h), row, width)
  {
    RowBytesIs(h, width);
    forall x | 0 <= x < width ensures HasPixel(h.bitDepth, BytesPerPixel(h), row, x) {
      if h.bitDepth < 8 {
        Samples.RowHasSamples(h.bitDepth, width, x);
      } else {
        PixelsApart(BytesPerPixel(h), x, width);
      }
    }
  }

  lemma {:induction false} RowFits(n: nat, height: nat, r: nat)
    requires r < height
    ensures r * n + n <= height * n
  {
    PixelsApart(n, r, height);
  }

  /** An image buffer: rows of n bytes, one after the other. */
  ghost predicate IsImage(h: Ihdr, img: seq<byte>) {
    |img| == h.height * RowBytes(h, h.width)
  }

  /** Where a row starts in the image buffer. */
  function RowStart(h: Ihdr, r: nat): nat {
    r * RowBytes(h, h.width)
  }

  lemma RowStartFits(h: Ihdr, r: nat, size: nat)
    requires r < h.height && size == h.height * RowBytes(h, h.width)
    ensures RowStart(h, r) + RowBytes(h, h.width) <= size
  {
    RowFits(RowBytes(h, h.width), h.height, r);
  }

  lemma RowsApart(h: Ihdr, r: nat, t: nat)
    requires r < t
    ensures RowStart(h, r) + RowBytes(h, h.width) <= RowStart(h, t)
  {
    PixelsApart(RowBytes(h, h.width), r, t);
  }

  function ImageRow(h: Ihdr, img: seq<byte>, r: nat): (row: seq<byte>)
    requires IsImage(h, img) && r < h.height
    ensures |row| == RowBytes(h, h.width)
  {
    RowStartFits(h, r, |img|);
    img[RowStart(h, r)..RowStart(h, r) + RowBytes(h, h.width)]
  }

  /** A pixel of the image. */
  function PixelAt(h: Ihdr, img: seq<byte>, x: nat, y: nat): seq<int>
    requires ValidIhdr(h) && IsImage(h, img) && x < h.width && y < h.height
  {
    ValidPixels(h);
    RowHasPixels(h, ImageRow(h, img, y), h.width);
    Pixel(h.bitDepth, BytesPerPixel(h), ImageRow(h, img, y), x)
  }

  /** A pixel of the k-th scanline. */
  function LinePixel(h: Ihdr, k: nat, line: seq<byte>, c: nat): seq<int>
    requires ValidIhdr(h) && k < Total(h) && |line| == LineBytes(h, k) && c < Columns(h, k)
  {
    ValidPixels(h);
    RowHasPixels(h, line, Columns(h, k));
    Pixel(h.bitDepth, BytesPerPixel(h), line, c)
  }

  // ------------------------------------------------------------------------- encoding

  /** A scanline as the encoder takes it from a row of the image. */
  ghost predicate TakenFrom(h: Ihdr, pass: nat, line: seq<byte>, row: seq<byte>)
    requires PixelsAreValid(h) && pass < 7
  {
    && |line| == RowBytes(h, Sub(h, pass).width)
    && if WholeRow(h, pass) then line == row
       else Gathered(h.bitDepth, BytesPerPixel(h), pass, Sub(h, pass).width, line, row)
  }

  /** The row of the image that the k-th scanline belongs to. */
  function RowOfLine(h: Ihdr, img: seq<byte>, k: nat): (row: seq<byte>)
    requires k < Total(h) && IsImage(h, img)
    ensures |row| == RowBytes(h, h.width)
  {
    RowNumberInImage(h, PlaceAt(h, k));
    ImageRow(h, img, RowNumber(h, PlaceAt(h, k)))
  }

  /** The rows of a stream picture an image: each, in memory order, was taken from its row. */
  ghost predicate Pictures(h: Ihdr, raw: bool, host: Endian, rows: seq<seq<byte>>, img: seq<byte>)
    requires PixelsAreValid(h) && IsImage(h, img)
  {
    && |rows| <= Total(h)
    && forall k :: 0 <= k < |rows| ==>
         TakenFrom(h, PlaceAt(h, k).pass, Wire(h, raw, host, rows[k]), RowOfLine(h, img, k))
  }

  /** Column for column, the scanline has the pixels of the row. */
  lemma TakenPixel(h: Ihdr, k: nat, line: seq<byte>, row: seq<byte>, c: nat)
    requires ValidIhdr(h) && PixelsAreValid(h) && k < Total(h) && |row| == RowBytes(h, h.width)
    requires TakenFrom(h, PlaceAt(h, k).pass, line, row) && c < Columns(h, k)
    ensures var bpp, x := BytesPerPixel(h), XOf(h, PlaceAt(h, k).pass, c);
      |line| == LineBytes(h, k) && HasPixel(h.bitDepth, bpp, row, x)
      && LinePixel(h, k, line, c) == Pixel(h.bitDepth, bpp, row, x)
  {
    RowHasPixels(h, line, Columns(h, k));
    RowHasPixels(h, row, h.width);
    if WholeRow(h, PlaceAt(h, k).pass) {
      WholeRowColumns(h, k, c);
    }
    hide ValidIhdr, BytesPerPixel, RowBytes, Pixel, HasPixel, Sub, X;
  }

  /** On a whole row, column c is column c of the image. */
  lemma WholeRowColumns(h: Ihdr, k: nat, c: nat)
    requires k < Total(h) && WholeRow(h, PlaceAt(h, k).pass)
    ensures Columns(h, k) == h.width && XOf(h, PlaceAt(h, k).pass, c) == c
  {
    if !h.Interlaced() {
      OnlyPassZero(h, PlaceAt(h, k));
    }
  }

  // ------------------------------------------------------------------------- decoding

  /** A row of the image after a scanline was written to it. */
  ghost predicate WrittenTo(h: Ihdr, pass: nat, line: seq<byte>, before: seq<byte>, after: seq<byte>)
    requires PixelsAreValid(h) && pass < 7
  {
    && |after| == |before| == RowBytes(h, h.width)
    && if WholeRow(h, pass) then after == line
       else Scattered(h.bitDepth, BytesPerPixel(h), pass, Sub(h, pass).width, h.width, line, before, after)
  }

  /** What a pixel of the image becomes when the pixel of a scanline is written to it: only
      small samples of interlaced passes keep what was there, or-ed. */
  function Painted(h: Ihdr, pass: nat, before: seq<int>, pixel: seq<int>): seq<int> {
    if WholeRow(h, pass) then pixel else Deposited(h.bitDepth, before, pixel)
  }

  /** The image after the first k scanlines were written: the pixels on those scanlines are
      painted, the others are as before. */
  ghost predicate PaintedTo(h: Ihdr, lines: seq<seq<byte>>, k: nat, before: seq<byte>, now: seq<byte>)
    requires ValidIhdr(h)
  {
    && IsImage(h, before) && IsImage(h, now) && LinesFit(h, lines) && k <= |lines|
    && forall x, y :: 0 <= x < h.width && 0 <= y < h.height ==> PixelPainted(h, lines, k, before, now, x, y)
  }

  ghost predicate PixelPainted(h: Ihdr, lines: seq<seq<byte>>, k: nat, before: seq<byte>, now: seq<byte>, x: nat, y: nat)
    requires ValidIhdr(h) && IsImage(h, before) && IsImage(h, now) && LinesFit(h, lines) && k <= |lines|
    requires x < h.width && y < h.height
  {
    hide ValidIhdr, PlaceOf, ColOf, XOf, X, Y, LineBytes, Columns, IsImage;
    var i := LineIndex(h, x, y);
    PixelAt(h, now, x, y) ==
      if i < k then Painted(h, PlaceAt(h, i).pass, PixelAt(h, before, x, y), LinePixel(h, i, lines[i], ColOf(h, x, y)))
      else PixelAt(h, before, x, y)
  }

  /** Two scanlines that hold the same pixel are the same. */
  lemma OneLinePerPixel(h: Ihdr, k: nat, c: nat)
    requires k < Total(h) && c < Columns(h, k)
    ensures var x, y := XOf(h, PlaceAt(h, k).pass, c), RowNumber(h, PlaceAt(h, k));
      x < h.width && y < h.height && LineIndex(h, x, y) == k && ColOf(h, x, y) == c
  {
    var at := PlaceAt(h, k);
    PlaceHasPixel(h, at, c);
    hide Sub, XOf, RowNumber, PlaceOf, ColOf;
    IndexDeterminesPlace(h, at, PlaceAt(h, LineIndex(h, XOf(h, at.pass, c), RowNumber(h, at))));
  }

  /** The pixels of row y that the k-th scanline does not hold stay when it is written. */
  lemma UntouchedPixel(h: Ihdr, k: nat, line: seq<byte>, before: seq<byte>, after: seq<byte>, x: nat, y: nat)
    requires ValidIhdr(h) && PixelsAreValid(h) && k < Total(h) && x < h.width && y < h.height
    requires WrittenTo(h, PlaceAt(h, k).pass, line, before, after)
    requires RowNumber(h, PlaceAt(h, k)) == y && LineIndex(h, x, y) != k
    ensures HasPixel(h.bitDepth, BytesPerPixel(h), before, x) && HasPixel(h.bitDepth, BytesPerPixel(h), after, x)
    ensures Pixel(h.bitDepth, BytesPerPixel(h), after, x) == Pixel(h.bitDepth, BytesPerPixel(h), before, x)
  {
    RowHasPixels(h, before, h.width);
    RowHasPixels(h, after, h.width);
    var pass := PlaceAt(h, k).pass;
    if WholeRow(h, pass) {
      WholeRowColumns(h, k, x);
      OneLinePerPixel(h, k, x);
      assert false;
    }
    forall c | 0 <= c < Columns(h, k) ensures X(pass, c) != x {
      OneLinePerPixel(h, k, c);
    }
    hide ValidIhdr, BytesPerPixel, RowBytes, Pixel, HasPixel, Sub, X, RowNumber, LineIndex;
  }

  /** The pixels that it holds are painted. */
  lemma TouchedPixel(h: Ihdr, k: nat, line: seq<byte>, before: seq<byte>, after: seq<byte>, c: nat)
    requires ValidIhdr(h) && PixelsAreValid(h) && k < Total(h) && c < Columns(h, k) && |line| == LineBytes(h, k)
    requires WrittenTo(h, PlaceAt(h, k).pass, line, before, after)
    ensures var bpp, x := BytesPerPixel(h), XOf(h, PlaceAt(h, k).pass, c);
      HasPixel(h.bitDepth, bpp, before, x) && HasPixel(h.bitDepth, bpp, after, x)
      && Pixel(h.bitDepth, bpp, after, x)
         == Painted(h, PlaceAt(h, k).pass, Pixel(h.bitDepth, bpp, before, x), LinePixel(h, k, line, c))
  {
    RowHasPixels(h, before, h.width);
    RowHasPixels(h, after, h.width);
    RowHasPixels(h, line, Columns(h, k));
    OneLinePerPixel(h, k, c);
    if WholeRow(h, PlaceAt(h, k).pass) {
      WholeRowColumns(h, k, c);
    }
    hide ValidIhdr, BytesPerPixel, RowBytes, Pixel, HasPixel, Sub, X, RowNumber, LineIndex, Deposited;
  }

  /** Writing the next scanline to its row paints its pixels and no others. */
  lemma PaintStep(h: Ihdr, lines: seq<seq<byte>>, k: nat, before: seq<byte>, now: seq<byte>, next: seq<byte>)
    requires ValidIhdr(h) && PixelsAreValid(h) && PaintedTo(h, lines, k, before, now) && k < |lines| && IsImage(h, next)
    requires WrittenTo(h, PlaceAt(h, k).pass, lines[k], RowOfLine(h, now, k), RowOfLine(h, next, k))
    requires forall y :: 0 <= y < h.height && y != RowNumber(h, PlaceAt(h, k)) ==> ImageRow(h, next, y) == ImageRow(h, now, y)
    ensures PaintedTo(h, lines, k + 1, before, next)
  {
    var k' := k + 1;
    forall x, y | 0 <= x < h.width && 0 <= y < h.height
      ensures PixelPainted(h, lines, k', before, next, x, y)
    {
      assert PixelPainted(h, lines, k, before, now, x, y);
      PaintPixel(h, lines, k, before, now, next, x, y);
    }
  }

  lemma PaintPixel(h: Ihdr, lines: seq<seq<byte>>, k: nat, before: seq<byte>, now: seq<byte>, next: seq<byte>, x: nat, y: nat)
    requires ValidIhdr(h) && PixelsAreValid(h) && IsImage(h, before) && IsImage(h, now) && IsImage(h, next)
    requires LinesFit(h, lines) && k < |lines| && x < h.width && y < h.height
    requires WrittenTo(h, PlaceAt(h, k).pass, lines[k], RowOfLine(h, now, k), RowOfLine(h, next, k))
    requires y != RowNumber(h, PlaceAt(h, k)) ==> ImageRow(h, next, y) == ImageRow(h, now, y)
    requires PixelPainted(h, lines, k, before, now, x, y)
    ensures PixelPainted(h, lines, k + 1, before, next, x, y)
  {
    hide ValidIhdr, Sub, X, Y, RowBytes, Pixel, HasPixel, LineBytes, Columns, BytesPerPixel, IsImage, LinePixel, XOf, ColOf, RowNumber, WrittenTo, Painted;
    var i := LineIndex(h, x, y);
    if y == RowNumber(h, PlaceAt(h, k)) {
      if i == k {
        TouchedPixel(h, k, lines[k], RowOfLine(h, now, k), RowOfLine(h, next, k), ColOf(h, x, y));
      } else {
        UntouchedPixel(h, k, lines[k], RowOfLine(h, now, k), RowOfLine(h, next, k), x, y);
      }
    }
  }

  lemma ZeroRowPixel(depth: nat, bpp: nat, row: seq<byte>, x: nat)
    requires ValidPixel(depth, bpp) && HasPixel(depth, bpp, row, x) && depth < 8
    requires forall i :: 0 <= i < |row| ==> row[i] == 0
    ensures Pixel(depth, bpp, row, x) == [0]
  {
    Samples.ZeroSamples(row, depth, x);
  }

  lemma DepositOnZero(depth: nat, bpp: nat, line: seq<byte>, c: nat)
    requires ValidPixel(depth, bpp) && HasPixel(depth, bpp, line, c) && depth < 8
    ensures Deposited(depth, [0], Pixel(depth, bpp, line, c)) == Pixel(depth, bpp, line, c)
  {
    Samples.OrZero(Samples.SampleAt(line, depth, c));
  }

  lemma ZeroImageRow(h: Ihdr, img: seq<byte>, y: nat)
    requires IsImage(h, img) && y < h.height && forall i :: 0 <= i < |img| ==> img[i] == 0
    ensures forall i :: 0 <= i < |ImageRow(h, img, y)| ==> ImageRow(h, img, y)[i] == 0
  {
    RowStartFits(h, y, |img|);
    hide RowStart, RowBytes, IsImage;
  }

  /** Painting a zeroed image leaves the pixels of the scanlines themselves. */
  lemma PaintedOnZero(h: Ihdr, pass: nat, img: seq<byte>, x: nat, y: nat, k: nat, line: seq<byte>, c: nat)
    requires ValidIhdr(h) && IsImage(h, img) && x < h.width && y < h.height
    requires forall i :: 0 <= i < |img| ==> img[i] == 0
    requires k < Total(h) && |line| == LineBytes(h, k) && c < Columns(h, k)
    ensures Painted(h, pass, PixelAt(h, img, x, y), LinePixel(h, k, line, c)) == LinePixel(h, k, line, c)
  {
    ValidPixels(h);
    RowHasPixels(h, ImageRow(h, img, y), h.width);
    RowHasPixels(h, line, Columns(h, k));
    ZeroImageRow(h, img, y);
    hide ValidIhdr, Pixel, HasPixel, BytesPerPixel, RowBytes, IsImage, ImageRow, Columns, LineBytes;
    if h.bitDepth < 8 {
      ZeroRowPixel(h.bitDepth, BytesPerPixel(h), ImageRow(h, img, y), x);
      DepositOnZero(h.bitDepth, BytesPerPixel(h), line, c);
    }
  }

  /** Scanlines that picture an image, written to a zeroed buffer, give back every pixel. */
  lemma PicturesComeBack(h: Ihdr, raw: bool, host: Endian, rows: seq<seq<byte>>, lines: seq<seq<byte>>,
                         img: seq<byte>, zero: seq<byte>, out: seq<byte>)
    requires ValidIhdr(h) && PixelsAreValid(h) && IsImage(h, img) && |rows| == |lines| == Total(h)
    requires Pictures(h, raw, host, rows, img)
    requires forall k :: 0 <= k < |rows| ==> lines[k] == Wire(h, raw, host, rows[k])
    requires forall i :: 0 <= i < |zero| ==> zero[i] == 0
    requires PaintedTo(h, lines, Total(h), zero, out)
    ensures forall x, y :: 0 <= x < h.width && 0 <= y < h.height ==> PixelAt(h, out, x, y) == PixelAt(h, img, x, y)
  {
    forall x, y | 0 <= x < h.width && 0 <= y < h.height
      ensures PixelAt(h, out, x, y) == PixelAt(h, img, x, y)
    {
      assert PixelPainted(h, lines, Total(h), zero, out, x, y);
      var i, c := LineIndex(h, x, y), ColOf(h, x, y);
      assert lines[i] == Wire(h, raw, host, rows[i]);
      hide ValidIhdr, Sub, X, Y, RowBytes, Pixel, HasPixel, Columns, BytesPerPixel, IsImage, XOf, ColOf, Wire, Painted;
      PaintedOnZero(h, PlaceAt(h, i).pass, zero, x, y, i, lines[i], c);
      TakenPixel(h, i, lines[i], RowOfLine(h, img, i), c);
    }
  }
}
