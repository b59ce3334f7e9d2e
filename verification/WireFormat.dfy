/**
 What the bytes of a filtered stream and the bytes of an image in memory say, in numbers: which
 sample of which pixel stands where, and what each filter byte does to the bytes behind it. The
 tables are those of the PNG specification (sections 8.2, 9.2 and 7.2 of ISO/IEC 15948), not
 those of the program.
 */
module WireFormat {
  import opened Octets
  import opened Filtering
  import opened ByteOrder
  import opened Header
  import opened Adam7
  import opened Scanlines
  import opened Interlace
  import opened ImageStream
  import opened ImageGeometry
  import Samples

  // ---- Filters ----

  function Distance(a: int, b: int): int {
    if a < b then b - a else a - b
  }

  /** Of left, above and corner the one nearest to left + above - corner, in this order at a tie. */
  predicate Nearest(left: int, above: int, corner: int, n: int) {
    var p := left + above - corner;
    || (n == left && Distance(p, left) <= Distance(p, above) && Distance(p, left) <= Distance(p, corner))
    || (n == above && Distance(p, above) < Distance(p, left) && Distance(p, above) <= Distance(p, corner))
    || (n == corner && Distance(p, corner) < Distance(p, left) && Distance(p, corner) < Distance(p, above))
  }

  /** What a byte is, given the filter byte of its scanline, its coded form and its neighbours. */
  ghost predicate Undone(filter: int, coded: int, left: int, above: int, corner: int, x: int) {
    match filter
    case 0 => x == coded
    case 1 => x == (coded + left) % 256
    case 2 => x == (coded + above) % 256
    case 3 => x == (coded + (left + above) / 2) % 256
    case 4 => exists n :: Nearest(left, above, corner, n) && x == (coded + n) % 256
    case _ => false
  }

  /** The neighbours are those one pixel away, or 0 in the first pixel. */
  ghost predicate ByteLaw(filter: int, bpp: nat, above: seq<byte>, coded: seq<byte>, row: seq<byte>, i: nat)
    requires bpp > 0 && i < |row| == |coded| == |above|
  {
    var left, corner := if i < bpp then 0 else row[i - bpp], if i < bpp then 0 else above[i - bpp];
    Undone(filter, coded[i], left, above[i], corner, row[i])
  }

  /** A scanline and its coded form, given the one above it. */
  ghost predicate LineLaw(filter: int, bpp: nat, above: seq<byte>, coded: seq<byte>, row: seq<byte>) {
    bpp > 0 && |row| == |coded| == |above| && forall i :: 0 <= i < |row| ==> ByteLaw(filter, bpp, above, coded, row, i)
  }

  lemma Wraps(x: byte, y: byte)
    ensures Add8(x, y) == (x + y) % 256
  {
  }

  lemma PaethIsNearest(a: byte, b: byte, c: byte)
    ensures Nearest(a, b, c, Paeth(a, b, c))
  {
  }

  lemma UndoneByAdding(filter: nat, coded: byte, a: byte, b: byte, c: byte)
    requires filter <= 4
    ensures Undone(filter, coded, a, b, c, Add8(coded, Predict(filter, a, b, c)))
  {
    Wraps(coded, Predict(filter, a, b, c));
    hide Add8;
    if filter == 4 {
      PaethIsNearest(a, b, c);
      hide Nearest, Paeth;
      assert Add8(coded, Paeth(a, b, c)) == (coded + Paeth(a, b, c)) % 256;
    }
  }

  lemma RebuiltLaw(filter: nat, bpp: nat, above: seq<byte>, coded: seq<byte>, row: seq<byte>)
    requires Rebuilds(filter, bpp, above, coded, row) && |above| == |row| && filter <= 4
    ensures LineLaw(filter, bpp, above, coded, row)
  {
    hide Predict, Undone;
    forall i | 0 <= i < |row|
      ensures ByteLaw(filter, bpp, above, coded, row, i)
    {
      assert row[i] == Add8(coded[i], PredictAt(filter, bpp, above, row, i));
      UndoneByAdding(filter, coded[i], Before(row, i, bpp), above[i], Before(above, i, bpp));
    }
  }

  // ---- Sizes ----

  /** The number of samples of a pixel. */
  function SamplesOf(colorType: nat): nat {
    match colorType case 2 => 3 case 4 => 2 case 6 => 4 case _ => 1
  }

  /** The headers there are: which depths go with which color type. */
  predicate Permitted(h: Ihdr) {
    && 1 <= h.width <= 2147483647 && 1 <= h.height <= 2147483647
    && match h.colorType {
       case 0 => h.bitDepth in {1, 2, 4, 8, 16}
       case 3 => h.bitDepth in {1, 2, 4, 8}
       case 2 => h.bitDepth in {8, 16}
       case 4 => h.bitDepth in {8, 16}
       case 6 => h.bitDepth in {8, 16}
       case _ => false
    }
    && h.compressionMethod == 0 && h.filterMethod == 0 && h.interlaceMethod in {0, 1}
  }

  /** The bytes of a row of so many pixels. */
  function RowSize(h: Ihdr, width: nat): nat {
    (SamplesOf(h.colorType) * h.bitDepth * width + 7) / 8
  }

  /** The distance between a byte and the one it is predicted from. */
  function PixelSize(h: Ihdr): nat {
    if h.bitDepth < 8 then 1 else SamplesOf(h.colorType) * h.bitDepth / 8
  }

  lemma HeaderNumbers(h: Ihdr)
    ensures ValidIhdr(h) <==> Permitted(h)
    ensures ValidIhdr(h) ==> BytesPerPixel(h) == PixelSize(h) > 0 && forall width :: RowBytes(h, width) == RowSize(h, width)
  {
  }

  /** What is wrong with a header, in the order in which it is looked at. */
  lemma HeaderErrors(h: Ihdr, maxWidth: nat, maxHeight: nat)
    ensures var e := CheckIhdr(h, maxWidth, maxHeight);
      var wide, high := 1 <= h.width <= 2147483647, 1 <= h.height <= 2147483647;
      var fits := wide && high && h.width <= maxWidth && h.height <= maxHeight;
      var color := h.colorType in {0, 2, 3, 4, 6};
      var depth := h.bitDepth in {1, 2, 4, 8, 16} && (h.colorType == 3 ==> h.bitDepth != 16)
                   && (h.colorType in {2, 4, 6} ==> h.bitDepth >= 8);
      && (e == EWidth <==> !wide)
      && (e == EHeight <==> wide && !high)
      && (e == EUserWidth <==> wide && high && h.width > maxWidth)
      && (e == EUserHeight <==> wide && high && h.width <= maxWidth && h.height > maxHeight)
      && (e == EColorType <==> fits && !color)
      && (e == EBitDepth <==> fits && color && !depth)
      && (e == ECompressionMethod <==> fits && color && depth && h.compressionMethod != 0)
      && (e == EFilterMethod <==> fits && color && depth && h.compressionMethod == 0 && h.filterMethod != 0)
      && (e == EInterlaceMethod <==>
            fits && color && depth && h.compressionMethod == 0 && h.filterMethod == 0 && h.interlaceMethod > 1)
  {
  }

  /** A row is too long if it takes 4294967295 bytes and more, without its filter byte. */
  lemma TooLongInNumbers(h: Ihdr)
    requires ValidIhdr(h)
    ensures ScanlineWidth(h, h.width) > U32_MAX <==> RowSize(h, h.width) >= 4294967295
  {
    HeaderNumbers(h);
    RowBytesIs(h, h.width);
    hide RowSize, RowBytes, ScanlineWidth;
  }

  lemma PixelSizeIs(h: Ihdr)
    requires ValidIhdr(h)
    ensures BytesPerPixel(h) == PixelSize(h)
  {
    HeaderNumbers(h);
  }

  // ---- Samples ----

  /** The i-th sample of a scanline: packed from the left, or big-endian. */
  function WireSample(depth: nat, row: seq<byte>, i: nat): int
    requires depth in {1, 2, 4, 8, 16} && (i + 1) * depth <= 8 * |row|
  {
    match depth
    case 1 => row[i / 8] as int / [128, 64, 32, 16, 8, 4, 2, 1][i % 8] % 2
    case 2 => row[i / 4] as int / [64, 16, 4, 1][i % 4] % 4
    case 4 => row[i / 2] as int / [16, 1][i % 2] % 16
    case 8 => row[i] as int
    case _ => 256 * row[2 * i] as int + row[2 * i + 1] as int
  }

  /** And of a row in memory, where samples of two bytes are the host's own, unless the format is raw. */
  function MemorySample(raw: bool, host: Endian, depth: nat, row: seq<byte>, i: nat): int
    requires depth in {1, 2, 4, 8, 16} && (i + 1) * depth <= 8 * |row|
  {
    if depth == 16 && !raw && host == Little then row[2 * i] as int + 256 * row[2 * i + 1] as int
    else WireSample(depth, row, i)
  }

  /** One bit more of a mask of ones. */
  lemma MaskStep(x: nat, m: nat)
    ensures BitAnd(x, 2 * m + 1) == 2 * BitAnd(x / 2, m) + x % 2
  {
    assert (2 * m + 1) / 2 == m && (2 * m + 1) % 2 == 1;
  }

  lemma LowBits(x: nat)
    ensures BitAnd(x, 1) == x % 2 && BitAnd(x, 3) == x % 4 && BitAnd(x, 15) == x % 16
  {
    hide BitAnd;
    Samples.MaskZero(x / 2);
    MaskStep(x, 0);
    MaskStep(x, 1);
    MaskStep(x / 2, 0);
    Samples.MaskZero(x / 4);
    assert x / 2 / 2 == x / 4 && x / 4 / 2 == x / 8 && x / 8 / 2 == x / 16;
    MaskStep(x, 7);
    MaskStep(x / 2, 3);
    MaskStep(x / 4, 1);
    MaskStep(x / 8, 0);
    Samples.MaskZero(x / 16);
  }

  lemma ShiftStep(x: nat, n: nat)
    requires n > 0
    ensures ShiftRight(x, n) == ShiftRight(x / 2, n - 1)
  {
  }

  lemma Shifts(x: nat)
    ensures ShiftRight(x, 0) == x && ShiftRight(x, 1) == x / 2 && ShiftRight(x, 2) == x / 4 && ShiftRight(x, 3) == x / 8
    ensures ShiftRight(x, 4) == x / 16 && ShiftRight(x, 5) == x / 32 && ShiftRight(x, 6) == x / 64 && ShiftRight(x, 7) == x / 128
  {
    assert x / 2 / 2 == x / 4 && x / 4 / 2 == x / 8 && x / 8 / 2 == x / 16;
    assert x / 16 / 2 == x / 32 && x / 32 / 2 == x / 64 && x / 64 / 2 == x / 128;
  }

  lemma FieldNumber(b: nat, s: nat, d: nat)
    requires s <= 7 && d in {1, 2, 4}
    ensures Samples.Field(b, s, d) == b / [1, 2, 4, 8, 16, 32, 64, 128][s] % (if d == 1 then 2 else if d == 2 then 4 else 16)
  {
    Pow2Table();
    Shifts(b);
    LowBits(ShiftRight(b, s));
    hide BitAnd, ShiftRight, Pow2;
  }

  lemma PackedSample(depth: nat, row: seq<byte>, i: nat)
    requires depth in {1, 2, 4} && (i + 1) * depth <= 8 * |row|
    ensures Samples.Packed(depth) && Samples.HasSample(row, depth, i) && Samples.SampleAt(row, depth, i) == WireSample(depth, row, i)
  {
    FieldNumber(row[Samples.ByteOf(depth, i)], Samples.ShiftOf(depth, i), depth);
    hide Samples.Field;
  }

  // ---- Places ----

  /** The pass of a pixel, by its place in a square of eight by eight. */
  const FIGURE: seq<seq<nat>> :=
    [[0, 5, 3, 5, 1, 5, 3, 5],
     [6, 6, 6, 6, 6, 6, 6, 6],
     [4, 5, 4, 5, 4, 5, 4, 5],
     [6, 6, 6, 6, 6, 6, 6, 6],
     [2, 5, 3, 5, 2, 5, 3, 5],
     [6, 6, 6, 6, 6, 6, 6, 6],
     [4, 5, 4, 5, 4, 5, 4, 5],
     [6, 6, 6, 6, 6, 6, 6, 6]]

  function PassAt(h: Ihdr, x: nat, y: nat): (pass: nat)
    ensures pass < 7
  {
    if h.interlaceMethod == 1 then FIGURE[y % 8][x % 8] else 0
  }

  /** The number of scanlines of a pass, which has none if the image is too narrow for its first column. */
  function RowsOf(h: Ihdr, pass: nat): nat
    requires pass < 7
  {
    if h.interlaceMethod != 1 then (if pass == 0 then h.height else 0)
    else
      var first, step := [0, 0, 4, 0, 2, 0, 1][pass], [8, 8, 8, 4, 4, 2, 2][pass];
      if h.width <= [0, 4, 0, 2, 0, 1, 0][pass] || h.height <= first then 0 else (h.height - first + step - 1) / step
  }

  function RowsBefore(h: Ihdr, pass: nat): nat
    requires pass <= 7
  {
    if pass == 0 then 0 else RowsBefore(h, pass - 1) + RowsOf(h, pass - 1)
  }

  /** The scanline that holds a pixel, counted through the stream, and the pixel's place there. */
  function RowAt(h: Ihdr, x: nat, y: nat): nat {
    var pass := PassAt(h, x, y);
    if h.interlaceMethod == 1 then RowsBefore(h, pass) + y / [8, 8, 8, 4, 4, 2, 2][pass] else y
  }

  function ColumnAt(h: Ihdr, x: nat, y: nat): nat {
    if h.interlaceMethod == 1 then x / [8, 8, 4, 4, 2, 2, 1][PassAt(h, x, y)] else x
  }

  lemma SmallModuli(n: nat)
    ensures n % 2 == n % 8 % 2 && n % 4 == n % 8 % 4
  {
    var q, r := n / 8, n % 8;
    OfFour(n, 2 * q + (if r >= 4 then 1 else 0), if r >= 4 then r - 4 else r);
    OfTwo(n, 4 * q + (if r < 2 then 0 else if r < 4 then 1 else if r < 6 then 2 else 3),
      if r < 2 then r else if r < 4 then r - 2 else if r < 6 then r - 4 else r - 6);
  }

  lemma FigureIsPassOf(h: Ihdr, x: nat, y: nat)
    requires h.Interlaced()
    ensures PassAt(h, x, y) == PassOf(x, y)
  {
    SmallModuli(x);
    SmallModuli(y);
    var c, r := x % 8, y % 8;
    assert FIGURE[r][c] == if r % 2 == 1 then 6 else if c % 2 == 1 then 5 else if r % 4 == 2 then 4
      else if c % 4 == 2 then 3 else if r == 4 then 2 else if c == 4 then 1 else 0;
  }

  lemma RowsAreLines(h: Ihdr, pass: nat)
    requires pass < 7 && h.width > 0 && h.height > 0 && h.interlaceMethod <= 1
    ensures RowsOf(h, pass) == Lines(h, pass)
  {
    if pass == 0 {
    } else if pass == 1 {
    } else if pass == 2 {
    } else if pass == 3 {
    } else if pass == 4 {
    } else if pass == 5 {
    }
  }

  lemma {:induction false} RowsBeforeAreLines(h: Ihdr, pass: nat)
    requires pass <= 7 && h.width > 0 && h.height > 0 && h.interlaceMethod <= 1
    ensures RowsBefore(h, pass) == LinesBefore(h, pass)
  {
    hide RowsOf, Lines;
    if pass > 0 {
      RowsBeforeAreLines(h, pass - 1);
      RowsAreLines(h, pass - 1);
    }
  }

  lemma ColumnsInNumbers(x: nat, y: nat)
    ensures ColumnOf(x, y) == x / [8, 8, 4, 4, 2, 2, 1][PassOf(x, y)]
    ensures LineOf(x, y) == y / [8, 8, 8, 4, 4, 2, 2][PassOf(x, y)]
  {
  }

  lemma IndexInNumbers(h: Ihdr, at: Place)
    requires ValidIhdr(h) && Live(h, at)
    ensures Index(h, at) == RowsBefore(h, at.pass) + at.line && (!h.Interlaced() ==> at.pass == 0 && RowsBefore(h, 0) == 0)
  {
    RowsBeforeAreLines(h, at.pass);
    if !h.Interlaced() {
      OnlyPassZero(h, at);
    }
  }

  lemma LineIndexIs(h: Ihdr, x: nat, y: nat)
    requires x < h.width && y < h.height
    ensures Live(h, PlaceOf(h, x, y)) && LineIndex(h, x, y) == Index(h, PlaceOf(h, x, y)) < Total(h)
  {
    hide Sub, PassOf, LinesBefore, PlaceOf;
    PixelHasPlace(h, x, y);
  }

  /** These are the place and the column of the pixel. */
  lemma PlaceInNumbers(h: Ihdr, x: nat, y: nat)
    requires ValidIhdr(h) && x < h.width && y < h.height
    ensures RowAt(h, x, y) == LineIndex(h, x, y) < Total(h) && ColumnAt(h, x, y) == ColOf(h, x, y)
  {
    hide LineIndex, Sub, PassOf, ColumnOf, LineOf, LinesBefore, RowsBefore, PassAt, Live, ValidIhdr, Index;
    LineIndexIs(h, x, y);
    IndexInNumbers(h, PlaceOf(h, x, y));
    if h.Interlaced() {
      FigureIsPassOf(h, x, y);
      ColumnsInNumbers(x, y);
    }
  }

  // ---- Pixels ----

  /** The bytes of a row of the image. */
  function MemoryRow(h: Ihdr, img: seq<byte>, y: nat): (row: seq<byte>)
    requires (y + 1) * RowSize(h, h.width) <= |img|
  {
    img[y * RowSize(h, h.width)..(y + 1) * RowSize(h, h.width)]
  }

  /** The samples of a row, pixel by pixel. */
  function SampleIndex(h: Ihdr, column: nat, channel: nat): nat {
    column * SamplesOf(h.colorType) + channel
  }

  /** A sample of a pixel is the same number in its scanline and in memory. */
  ghost predicate SameSample(h: Ihdr, raw: bool, host: Endian, rows: seq<seq<byte>>, img: seq<byte>, x: nat, y: nat, channel: nat)
    requires Permitted(h)
  {
    var k, i, j := RowAt(h, x, y), SampleIndex(h, ColumnAt(h, x, y), channel), SampleIndex(h, x, channel);
    && k < |rows| && (i + 1) * h.bitDepth <= 8 * |rows[k]|
    && (y + 1) * RowSize(h, h.width) <= |img| && (j + 1) * h.bitDepth <= 8 * RowSize(h, h.width)
    && WireSample(h.bitDepth, rows[k], i) == MemorySample(raw, host, h.bitDepth, MemoryRow(h, img, y), j)
  }

  /** And so for all of them. */
  ghost predicate SameSamples(h: Ihdr, raw: bool, host: Endian, rows: seq<seq<byte>>, img: seq<byte>) {
    && Permitted(h)
    && forall x, y, channel :: 0 <= x < h.width && 0 <= y < h.height && 0 <= channel < SamplesOf(h.colorType) ==>
         SameSample(h, raw, host, rows, img, x, y, channel)
  }

  lemma PixelParts(n: nat, bytes: nat, x: nat, channel: nat, size: nat)
    requires 1 <= n <= 4 && bytes in {1, 2} && channel < n && (x + 1) * (n * bytes) <= size
    ensures var j := x * n + channel;
      && x * (n * bytes) + bytes * channel == bytes * j && (j + 1) * (8 * bytes) <= 8 * size
      && bytes * j + bytes <= x * (n * bytes) + n * bytes
  {
    if bytes == 1 {
    } else if n == 1 {
    } else if n == 2 {
    } else if n == 3 {
    } else {
    }
  }

  /** The sample, from the bytes of the pixel. */
  function FromPixel(depth: nat, pixel: seq<int>, channel: nat): int
    requires |pixel| > if depth < 8 then 0 else if depth == 16 then 2 * channel + 1 else channel
  {
    if depth < 8 then pixel[0]
    else if depth == 16 then 256 * pixel[2 * channel] + pixel[2 * channel + 1]
    else pixel[channel]
  }

  lemma WholeSample(n: nat, bytes: nat, row: seq<byte>, x: nat, channel: nat)
    requires 1 <= n <= 4 && bytes in {1, 2} && channel < n && Start(n * bytes, x) + n * bytes <= |row|
    ensures var j, p := x * n + channel, row[Start(n * bytes, x)..Start(n * bytes, x) + n * bytes];
      && (j + 1) * (8 * bytes) <= 8 * |row| && |p| > bytes * channel + bytes - 1
      && row[bytes * j] == p[bytes * channel] && (bytes == 2 ==> row[2 * j + 1] == p[2 * channel + 1])
  {
    assert Start(n * bytes, x) + n * bytes == (x + 1) * (n * bytes);
    PixelParts(n, bytes, x, channel, |row|);
    var start, j := Start(n * bytes, x), x * n + channel;
    assert start + bytes * channel == bytes * j;
    Within(row, start, n * bytes, bytes * channel);
    if bytes == 2 {
      Within(row, start, n * bytes, 2 * channel + 1);
    }
  }

  lemma Within(row: seq<byte>, start: nat, size: nat, k: nat)
    requires start + size <= |row| && k < size
    ensures row[start..start + size][k] == row[start + k]
  {
  }

  lemma IndexIs(h: Ihdr, x: nat, channel: nat)
    ensures SampleIndex(h, x, channel) == x * SamplesOf(h.colorType) + channel
  {
  }

  lemma SizesInBytes(h: Ihdr)
    requires Permitted(h) && h.bitDepth >= 8
    ensures h.bitDepth == 8 ==> PixelSize(h) == SamplesOf(h.colorType) * 1
    ensures h.bitDepth == 16 ==> PixelSize(h) == SamplesOf(h.colorType) * 2
    ensures h.bitDepth in {8, 16} && 1 <= SamplesOf(h.colorType) <= 4
  {
  }

  lemma RowByteFromPixel(h: Ihdr, row: seq<byte>, x: nat, channel: nat)
    requires Permitted(h) && channel < SamplesOf(h.colorType) && ValidPixel(h.bitDepth, PixelSize(h)) && h.bitDepth >= 8
    requires HasPixel(h.bitDepth, PixelSize(h), row, x)
    ensures var j, p := SampleIndex(h, x, channel), Pixel(h.bitDepth, PixelSize(h), row, x);
      && (j + 1) * h.bitDepth <= 8 * |row|
      && |p| > (if h.bitDepth < 8 then 0 else if h.bitDepth == 16 then 2 * channel + 1 else channel)
      && WireSample(h.bitDepth, row, j) == FromPixel(h.bitDepth, p, channel)
      && (h.bitDepth == 16 ==> row[2 * j] as int == p[2 * channel] && row[2 * j + 1] as int == p[2 * channel + 1])
  {
    hide Permitted, PixelSize, SamplesOf, SampleIndex, Start;
    SizesInBytes(h);
    IndexIs(h, x, channel);
    if h.bitDepth == 8 {
      WholeSample(SamplesOf(h.colorType), 1, row, x, channel);
    } else {
      WholeSample(SamplesOf(h.colorType), 2, row, x, channel);
    }
  }

  lemma RowSampleFromPixel(h: Ihdr, row: seq<byte>, x: nat, channel: nat)
    requires Permitted(h) && channel < SamplesOf(h.colorType) && ValidPixel(h.bitDepth, PixelSize(h))
    requires HasPixel(h.bitDepth, PixelSize(h), row, x)
    ensures var j, p := SampleIndex(h, x, channel), Pixel(h.bitDepth, PixelSize(h), row, x);
      && (j + 1) * h.bitDepth <= 8 * |row|
      && |p| > (if h.bitDepth < 8 then 0 else if h.bitDepth == 16 then 2 * channel + 1 else channel)
      && WireSample(h.bitDepth, row, j) == FromPixel(h.bitDepth, p, channel)
      && (h.bitDepth == 16 ==> row[2 * j] as int == p[2 * channel] && row[2 * j + 1] as int == p[2 * channel + 1])
  {
    if h.bitDepth < 8 {
      assert SamplesOf(h.colorType) == 1;
      IndexIs(h, x, channel);
      PackedSample(h.bitDepth, row, x);
      hide WireSample, SampleIndex;
    } else {
      hide Permitted, PixelSize, SamplesOf, SampleIndex, Pixel, HasPixel, WireSample;
      RowByteFromPixel(h, row, x, channel);
    }
  }

  /** Pairs of bytes change places between a stream and a little-endian host, and nothing else does. */
  lemma OnTheWire(h: Ihdr, raw: bool, host: Endian, row: seq<byte>, j: nat)
    requires Permitted(h) && (j + 1) * h.bitDepth <= 8 * |row|
    ensures |Wire(h, raw, host, row)| == |row|
    ensures MemorySample(raw, host, h.bitDepth, Wire(h, raw, host, row), j) == WireSample(h.bitDepth, row, j)
  {
    if h.bitDepth == 16 && !raw && host == Little {
      assert (2 * j) % 2 == 0 && (2 * j + 1) % 2 == 1;
    }
  }

  lemma SameRow(h: Ihdr, img: seq<byte>, y: nat)
    requires ValidIhdr(h) && IsImage(h, img) && y < h.height
    ensures (y + 1) * RowSize(h, h.width) <= |img| && MemoryRow(h, img, y) == ImageRow(h, img, y)
  {
    HeaderNumbers(h);
    RowStartFits(h, y, |img|);
    hide RowSize, RowBytes;
    assert (y + 1) * RowSize(h, h.width) == y * RowSize(h, h.width) + RowSize(h, h.width);
  }

  /** Equal pixels have equal samples. */
  lemma SamplesOfEqualPixels(h: Ihdr, raw: bool, host: Endian, line: seq<byte>, row: seq<byte>, c: nat, x: nat, channel: nat)
    requires Permitted(h) && channel < SamplesOf(h.colorType) && ValidPixel(h.bitDepth, PixelSize(h))
    requires HasPixel(h.bitDepth, PixelSize(h), line, c) && HasPixel(h.bitDepth, PixelSize(h), row, x)
    requires Pixel(h.bitDepth, PixelSize(h), line, c) == Pixel(h.bitDepth, PixelSize(h), row, x)
    ensures var i, j := SampleIndex(h, c, channel), SampleIndex(h, x, channel);
      && (i + 1) * h.bitDepth <= 8 * |line| && (j + 1) * h.bitDepth <= 8 * |row|
      && MemorySample(raw, host, h.bitDepth, line, i) == MemorySample(raw, host, h.bitDepth, row, j)
  {
    RowSampleFromPixel(h, line, c, channel);
    RowSampleFromPixel(h, row, x, channel);
    hide Pixel, HasPixel, WireSample, PixelSize, SamplesOf, SampleIndex;
  }

  lemma PixelsInRows(h: Ihdr, img: seq<byte>, x: nat, y: nat, k: nat, line: seq<byte>, c: nat)
    requires ValidIhdr(h) && IsImage(h, img) && x < h.width && y < h.height
    requires k < Total(h) && |line| == LineBytes(h, k) && c < Columns(h, k)
    ensures ValidPixel(h.bitDepth, BytesPerPixel(h))
    ensures HasPixel(h.bitDepth, BytesPerPixel(h), line, c) && HasPixel(h.bitDepth, BytesPerPixel(h), ImageRow(h, img, y), x)
    ensures LinePixel(h, k, line, c) == Pixel(h.bitDepth, BytesPerPixel(h), line, c)
    ensures PixelAt(h, img, x, y) == Pixel(h.bitDepth, BytesPerPixel(h), ImageRow(h, img, y), x)
  {
    ValidPixels(h);
    RowHasPixels(h, ImageRow(h, img, y), h.width);
    RowHasPixels(h, line, Columns(h, k));
    hide ValidIhdr, IsImage, RowBytes, BytesPerPixel, Pixel, HasPixel, Columns, LineBytes, ImageRow;
  }

  lemma SampleCarriesOver(h: Ihdr, raw: bool, host: Endian, rows: seq<seq<byte>>, img: seq<byte>, x: nat, y: nat, channel: nat)
    requires ValidIhdr(h) && IsImage(h, img) && LinesFit(h, rows) && |rows| == Total(h) && x < h.width && y < h.height
    requires channel < SamplesOf(h.colorType)
    requires var k := LineIndex(h, x, y);
      PixelAt(h, img, x, y) == LinePixel(h, k, Wire(h, raw, host, rows[k]), ColOf(h, x, y))
    ensures Permitted(h) && SameSample(h, raw, host, rows, img, x, y, channel)
  {
    hide LineIndex, ColOf, RowAt, ColumnAt, Wire, IsImage, RowSize, RowBytes, Columns, LineBytes, ValidIhdr, Permitted, PixelSize, BytesPerPixel;
    hide SamplesOf, SampleIndex, PixelAt, LinePixel, ImageRow, Pixel, HasPixel, WireSample, MemorySample, MemoryRow;
    HeaderNumbers(h);
    PlaceInNumbers(h, x, y);
    SameRow(h, img, y);
    var k, c := RowAt(h, x, y), ColumnAt(h, x, y);
    var line, row := Wire(h, raw, host, rows[k]), ImageRow(h, img, y);
    PixelsInRows(h, img, x, y, k, line, c);
    SamplesOfEqualPixels(h, raw, host, line, row, c, x, channel);
    OnTheWire(h, raw, host, rows[k], SampleIndex(h, c, channel));
  }

  /** What an encoder takes from an image has the image's samples. */
  lemma PicturesInNumbers(h: Ihdr, raw: bool, host: Endian, rows: seq<seq<byte>>, img: seq<byte>)
    requires ValidIhdr(h) && PixelsAreValid(h) && IsImage(h, img) && Pictures(h, raw, host, rows, img)
    requires LinesFit(h, rows) && |rows| == Total(h)
    ensures SameSamples(h, raw, host, rows, img)
  {
    HeaderNumbers(h);
    forall x, y, channel | 0 <= x < h.width && 0 <= y < h.height && 0 <= channel < SamplesOf(h.colorType)
      ensures SameSample(h, raw, host, rows, img, x, y, channel)
    {
      var k, c := LineIndex(h, x, y), ColOf(h, x, y);
      assert TakenFrom(h, PlaceAt(h, k).pass, Wire(h, raw, host, rows[k]), RowOfLine(h, img, k));
      hide ValidIhdr, PixelsAreValid, TakenFrom, Wire, Pixel, HasPixel, RowBytes, Columns, LineBytes, ColOf, IsImage, SameSample;
      TakenPixel(h, k, Wire(h, raw, host, rows[k]), RowOfLine(h, img, k), c);
      SampleCarriesOver(h, raw, host, rows, img, x, y, channel);
    }
  }

  /** Where what was in the buffer before makes no difference. */
  ghost predicate Overwritten(h: Ihdr, before: seq<byte>) {
    h.bitDepth >= 8 || h.interlaceMethod == 0 || forall i :: 0 <= i < |before| ==> before[i] == 0
  }

  lemma PaintedIsLine(h: Ihdr, before: seq<byte>, x: nat, y: nat, k: nat, line: seq<byte>, c: nat)
    requires ValidIhdr(h) && IsImage(h, before) && Overwritten(h, before) && x < h.width && y < h.height
    requires k < Total(h) && |line| == LineBytes(h, k) && c < Columns(h, k)
    ensures Painted(h, PlaceAt(h, k).pass, PixelAt(h, before, x, y), LinePixel(h, k, line, c)) == LinePixel(h, k, line, c)
  {
    hide PixelAt, LinePixel, ValidIhdr, IsImage, Columns, LineBytes, PlaceAt;
    if h.bitDepth < 8 && h.interlaceMethod != 0 {
      PaintedOnZero(h, PlaceAt(h, k).pass, before, x, y, k, line, c);
    }
  }

  /** What a decoder paints has the samples of the scanlines. */
  lemma PaintedInNumbers(h: Ihdr, raw: bool, host: Endian, rows: seq<seq<byte>>, lines: seq<seq<byte>>, before: seq<byte>, out: seq<byte>)
    requires ValidIhdr(h) && LinesFit(h, rows) && |rows| == |lines| == Total(h) && Overwritten(h, before)
    requires forall k :: 0 <= k < |rows| ==> lines[k] == Wire(h, raw, host, rows[k])
    requires PaintedTo(h, lines, Total(h), before, out)
    ensures SameSamples(h, raw, host, rows, out)
  {
    HeaderNumbers(h);
    forall x, y, channel | 0 <= x < h.width && 0 <= y < h.height && 0 <= channel < SamplesOf(h.colorType)
      ensures SameSample(h, raw, host, rows, out, x, y, channel)
    {
      assert PixelPainted(h, lines, Total(h), before, out, x, y);
      var k, c := LineIndex(h, x, y), ColOf(h, x, y);
      hide ValidIhdr, Overwritten, Wire, Columns, LineBytes, ColOf, IsImage, SameSample, PixelAt, LinePixel, Painted;
      PaintedIsLine(h, before, x, y, k, lines[k], c);
      SampleCarriesOver(h, raw, host, rows, out, x, y, channel);
    }
  }

  // ---- The whole stream ----

  function ColumnsOf(h: Ihdr, pass: nat): nat
    requires pass < 7
  {
    if h.interlaceMethod != 1 then (if pass == 0 then h.width else 0)
    else
      var first, step := [0, 4, 0, 2, 0, 1, 0][pass], [8, 8, 4, 4, 2, 2, 1][pass];
      if h.width <= first then 0 else (h.width - first + step - 1) / step
  }

  /** Where a scanline starts: each has a filter byte in front. */
  function StartOf(rows: seq<seq<byte>>, k: nat): nat
    requires k <= |rows|
  {
    if k == 0 then 0 else StartOf(rows, k - 1) + 1 + |rows[k - 1]|
  }

  /** A scanline stands at a place in the stream as its filter byte says. */
  ghost predicate Stands(stream: seq<byte>, at: nat, bpp: nat, above: seq<byte>, row: seq<byte>) {
    && at + 1 + |row| <= |stream| && stream[at] <= 4
    && LineLaw(stream[at], bpp, above, stream[at + 1..at + 1 + |row|], row)
  }

  /** The scanline above, which is nothing for the first of a pass. */
  function RowAbove(rows: seq<seq<byte>>, k: nat, first: bool): seq<byte>
    requires k < |rows|
  {
    if first || k == 0 then Zeros(|rows[k]|) else rows[k - 1]
  }

  ghost predicate ScanlineLaw(h: Ihdr, stream: seq<byte>, rows: seq<seq<byte>>, pass: nat, r: nat)
    requires pass < 7
  {
    var k := RowsBefore(h, pass) + r;
    && k < |rows| && |rows[k]| == RowSize(h, ColumnsOf(h, pass))
    && Stands(stream, StartOf(rows, k), PixelSize(h), RowAbove(rows, k, r == 0), rows[k])
  }

  ghost predicate StreamLaw(h: Ihdr, stream: seq<byte>, rows: seq<seq<byte>>) {
    && |rows| == RowsBefore(h, 7)
    && forall pass, r :: 0 <= pass < 7 && 0 <= r < RowsOf(h, pass) ==> ScanlineLaw(h, stream, rows, pass, r)
  }

  lemma {:induction false} StartIsOffset(l: Layout, rows: seq<seq<byte>>, k: nat)
    requires WellSized(l, rows) && k <= |rows|
    ensures StartOf(rows, k) == Offset(l, k)
  {
    if k > 0 {
      StartIsOffset(l, rows, k - 1);
    }
  }

  /** The code of a scanline stands at its place in the code of all. */
  lemma {:induction false} CodeAt(l: Layout, rows: seq<seq<byte>>, filters: seq<nat>, k: nat)
    requires l.Valid() && WellSized(l, rows) && |filters| == |rows| && ValidFilters(filters) && k < |rows|
    ensures WellSized(l, rows[..k]) && Offset(l, k) + 1 + |rows[k]| <= |Code(l, rows, filters)|
    ensures Code(l, rows, filters)[Offset(l, k)..Offset(l, k) + 1 + |rows[k]|] == CodeLine(l, Above(l, rows[..k], k), rows[k], filters[k])
    decreases |rows|
  {
    hide CodeLine, Above, Layout.Valid;
    var n := |rows| - 1;
    if k < n {
      CodeAt(l, rows[..n], filters[..n], k);
      assert rows[..n][..k] == rows[..k];
    }
  }

  lemma FilteredLine(filter: nat, bpp: nat, above: seq<byte>, row: seq<byte>)
    requires bpp > 0 && |row| == |above| && filter <= 4
    ensures LineLaw(filter, bpp, above, FilterRow(filter, bpp, above, row), row)
  {
    var coded := FilterRow(filter, bpp, above, row);
    forall i | 0 <= i < |row|
      ensures row[i] == Add8(coded[i], PredictAt(filter, bpp, above, row, i))
    {
      AddBack(row[i], PredictAt(filter, bpp, above, row, i));
    }
    RebuiltLaw(filter, bpp, above, coded, row);
  }

  lemma AddBack(x: byte, y: byte)
    ensures Add8(Sub8(x, y), y) == x
  {
  }

  lemma ColumnsAreWidth(h: Ihdr, pass: nat)
    requires pass < 7 && h.interlaceMethod <= 1
    ensures ColumnsOf(h, pass) == Sub(h, pass).width
  {
    if pass == 0 {
    } else if pass == 1 {
    } else if pass == 2 {
    } else if pass == 3 {
    } else if pass == 4 {
    } else if pass == 5 {
    }
  }

  lemma LiveInNumbers(h: Ihdr, pass: nat, r: nat)
    requires ValidIhdr(h) && pass < 7 && r < RowsOf(h, pass)
    ensures Live(h, Place(pass, r)) && ColumnsOf(h, pass) == Sub(h, pass).width
    ensures RowBytes(h, Sub(h, pass).width) == RowSize(h, ColumnsOf(h, pass))
  {
    HeaderNumbers(h);
    hide RowSize, RowBytes, BytesPerPixel, PixelSize;
    RowsAreLines(h, pass);
    ColumnsAreWidth(h, pass);
    hide Sub, RowsOf, ColumnsOf;
  }

  /** The scanlines of the program's layout. */
  lemma LineInNumbers(h: Ihdr, pass: nat, r: nat)
    requires ValidIhdr(h) && pass < 7 && r < RowsOf(h, pass)
    ensures var k := RowsBefore(h, pass) + r;
      k < Total(h) && LayoutOf(h).lines[k] == Line(RowSize(h, ColumnsOf(h, pass)), r == 0)
  {
    hide ValidIhdr, RowSize, RowBytes, Sub, RowsBefore, RowsOf, ColumnsOf, Live, Index, PlaceAt;
    LiveInNumbers(h, pass, r);
    IndexInNumbers(h, Place(pass, r));
    IndexDeterminesPlace(h, Place(pass, r), Place(pass, r));
  }

  lemma StandsThere(stream: seq<byte>, at: nat, bpp: nat, above: seq<byte>, row: seq<byte>, filter: nat, s: seq<byte>)
    requires bpp > 0 && filter <= 4 && |above| == |row| && s == [filter] + FilterRow(filter, bpp, above, row)
    requires at + |s| <= |stream| && stream[at..at + |s|] == s
    ensures Stands(stream, at, bpp, above, row)
  {
    hide LineLaw, FilterRow;
    assert stream[at] == s[0] && stream[at + 1..at + 1 + |row|] == s[1..] == FilterRow(filter, bpp, above, row);
    FilteredLine(filter, bpp, above, row);
  }

  lemma AboveInNumbers(l: Layout, rows: seq<seq<byte>>, k: nat)
    requires l.Valid() && WellSized(l, rows) && k < |rows|
    ensures WellSized(l, rows[..k]) && |rows[k]| == l.lines[k].bytes && l.bpp > 0
    ensures Above(l, rows[..k], k) == RowAbove(rows, k, l.lines[k].top)
  {
  }

  lemma SliceOfPrefix(s: seq<byte>, stream: seq<byte>, at: nat, n: nat)
    requires s <= stream && at + n <= |s|
    ensures stream[at..at + n] == s[at..at + n]
  {
  }

  /** In terms of the layout. */
  lemma LineFromCode(l: Layout, rows: seq<seq<byte>>, filters: seq<nat>, stream: seq<byte>, k: nat)
    requires l.Valid() && WellSized(l, rows) && |filters| == |rows| && ValidFilters(filters) && k < |rows|
    requires Code(l, rows, filters) <= stream
    ensures |rows[k]| == l.lines[k].bytes && Stands(stream, StartOf(rows, k), l.bpp, RowAbove(rows, k, l.lines[k].top), rows[k])
  {
    AboveInNumbers(l, rows, k);
    CodeAt(l, rows, filters, k);
    StartIsOffset(l, rows, k);
    hide Layout.Valid, WellSized, Above, Code, Stands, Offset, StartOf, RowAbove, FilterRow;
    SliceOfPrefix(Code(l, rows, filters), stream, Offset(l, k), 1 + |rows[k]|);
    StandsThere(stream, Offset(l, k), l.bpp, Above(l, rows[..k], k), rows[k], filters[k],
      CodeLine(l, Above(l, rows[..k], k), rows[k], filters[k]));
  }

  lemma LawOf(h: Ihdr, l: Layout, rows: seq<seq<byte>>, filters: seq<nat>, stream: seq<byte>, pass: nat, r: nat, k: nat)
    requires l.Valid() && WellSized(l, rows) && |filters| == |rows| && ValidFilters(filters) && Code(l, rows, filters) <= stream
    requires pass < 7 && k == RowsBefore(h, pass) + r && k < |rows| && k < |l.lines|
    requires l.bpp == PixelSize(h) && l.lines[k] == Line(RowSize(h, ColumnsOf(h, pass)), r == 0)
    ensures ScanlineLaw(h, stream, rows, pass, r)
  {
    hide Layout.Valid, WellSized, ValidFilters, Code, RowSize, PixelSize, RowsBefore, Stands, ColumnsOf, StartOf, RowAbove;
    LineFromCode(l, rows, filters, stream, k);
  }

  lemma CodeLawAt(h: Ihdr, rows: seq<seq<byte>>, filters: seq<nat>, stream: seq<byte>, pass: nat, r: nat)
    requires ValidIhdr(h) && LayoutOf(h).Valid() && WellSized(LayoutOf(h), rows) && |filters| == |rows| == Total(h) && ValidFilters(filters)
    requires Code(LayoutOf(h), rows, filters) <= stream && pass < 7 && r < RowsOf(h, pass)
    ensures ScanlineLaw(h, stream, rows, pass, r)
  {
    hide ValidIhdr, LayoutOf, Layout.Valid, WellSized, ValidFilters, Code, RowSize, PixelSize, RowsBefore, ColumnsOf, BytesPerPixel, RowsOf, ScanlineLaw;
    hide LineBytes, PlaceAt;
    PixelSizeIs(h);
    LineInNumbers(h, pass, r);
    LawOf(h, LayoutOf(h), rows, filters, stream, pass, r, RowsBefore(h, pass) + r);
  }

  /** What an encoder emits is as the filter bytes say. */
  lemma CodeInNumbers(h: Ihdr, rows: seq<seq<byte>>, filters: seq<nat>, stream: seq<byte>)
    requires ValidIhdr(h) && LayoutOf(h).Valid() && WellSized(LayoutOf(h), rows) && |filters| == |rows| == Total(h) && ValidFilters(filters)
    requires Code(LayoutOf(h), rows, filters) <= stream
    ensures StreamLaw(h, stream, rows)
  {
    hide LayoutOf, Layout.Valid, WellSized, ValidFilters, Code, ScanlineLaw;
    RowsBeforeAreLines(h, 7);
    forall pass, r | 0 <= pass < 7 && 0 <= r < RowsOf(h, pass)
      ensures ScanlineLaw(h, stream, rows, pass, r)
    {
      CodeLawAt(h, rows, filters, stream, pass, r);
    }
  }

  /** And so is what a decoder accepts. */
  lemma UncodeInNumbers(h: Ihdr, stream: seq<byte>, rows: seq<seq<byte>>)
    requires ValidIhdr(h) && LayoutOf(h).Valid() && Uncode(LayoutOf(h), stream, Total(h)) == Rows(rows)
    ensures StreamLaw(h, stream, rows) && WellSized(LayoutOf(h), rows)
  {
    var l := LayoutOf(h);
    hide LayoutOf, Layout.Valid, ValidIhdr, Code;
    CodeOfUncode(l, stream, Total(h));
    CodeInNumbers(h, rows, FiltersOf(l, stream, Total(h)), stream);
  }
}
