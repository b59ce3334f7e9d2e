/**
 The encoder's loop over an image: from pixels to the filtered stream.
 */
module ImageEncoder {
  import opened Octets
  import Filtering
  import opened FilterChoice
  import opened ByteOrder
  import opened Header
  import opened Adam7
  import opened Scanlines
  import opened Interlace
  import opened ImageStream
  import opened ImageGeometry
  import opened Encoder
  import opened WireFormat

  datatype EncodeStatus = Encoded | ENoPlte | EOverflow | EBufSize

  /**
   The filters that are used: unless the caller chose them, none for what is not compressed, for
   palette indices and for small samples; and only None is no filter at all.
   */
  function UsedFilters(h: Ihdr, choices: nat, optimize: bool, level: int): (used: nat)
    ensures ValidChoices(choices) ==> ValidChoices(used)
  {
    var c := if optimize && (level == 0 || h.colorType == INDEXED || h.bitDepth < 8) then 0 else choices;
    if c == Flag(Filtering.FILTER_NONE) then 0 else c
  }

  /** Then no row is filtered; otherwise the filters are the best of those the caller chose. */
  lemma FiltersInUse(h: Ihdr, choices: nat, optimize: bool, level: int, bpp: nat, prev: seq<byte>, row: seq<byte>, best: nat)
    requires bpp > 0 && |row| <= |prev|
    ensures IsBest(UsedFilters(h, choices, optimize, level), bpp, prev, row, best) <==>
      if optimize && (level == 0 || h.colorType == INDEXED || h.bitDepth < 8) then best == Filtering.FILTER_NONE
      else IsBest(choices, bpp, prev, row, best)
  {
    hide IsBest;
    NoneAloneIsNoFilter(bpp, prev, row, best);
  }

  lemma LineFacts(h: Ihdr, at: Place)
    requires ValidIhdr(h) && Live(h, at)
    ensures Index(h, at) < Total(h) && PlaceAt(h, Index(h, at)) == at
    ensures LayoutOf(h).lines[Index(h, at)] == Line(RowBytes(h, Sub(h, at.pass).width), at.line == 0)
    ensures 0 < RowBytes(h, Sub(h, at.pass).width) <= RowBytes(h, h.width)
  {
    IndexDeterminesPlace(h, at, at);
    RowIsWidest(h, at.pass);
    RowBytesIs(h, Sub(h, at.pass).width);
  }

  /** The pixels of a whole scanline are in a row, and in the scanline buffer. */
  lemma LinePixels(h: Ihdr, pass: nat, line: seq<byte>, row: seq<byte>)
    requires ValidIhdr(h) && PixelsAreValid(h) && pass < 7
    requires |line| == RowBytes(h, Sub(h, pass).width) && |row| == RowBytes(h, h.width)
    ensures HasPixels(h.bitDepth, BytesPerPixel(h), line, Sub(h, pass).width)
    ensures HasPixels(h.bitDepth, BytesPerPixel(h), row, h.width)
    ensures h.Interlaced() ==> Inside(pass, Sub(h, pass).width, h.width)
  {
    RowHasPixels(h, line, Sub(h, pass).width);
    RowHasPixels(h, row, h.width);
    if h.Interlaced() {
      ColumnsInside(h, pass);
    }
  }

  /** Takes the pixels of a pass from the row of the image at a place, into the scanline buffer. */
  method TakeRow(h: Ihdr, pass: nat, line: array<byte>, img: array<byte>, at: nat)
    requires ValidIhdr(h) && PixelsAreValid(h) && pass < 7 && line != img
    requires PIXELS + RowBytes(h, Sub(h, pass).width) + 1 <= line.Length
    requires at + RowBytes(h, h.width) <= img.Length && (WholeRow(h, pass) ==> Sub(h, pass).width == h.width)
    modifies line
    ensures TakenFrom(h, pass, line[PIXELS..PIXELS + RowBytes(h, Sub(h, pass).width)], img[at..at + RowBytes(h, h.width)])
  {
    var n, m := RowBytes(h, Sub(h, pass).width), RowBytes(h, h.width);
    ghost var row := img[at..at + m];
    if WholeRow(h, pass) {
      CopyBytes(line, PIXELS, img, at, n);
      return;
    }
    LinePixels(h, pass, line[PIXELS..PIXELS + n], row);
    var depth, bpp, columns := h.bitDepth, BytesPerPixel(h), Sub(h, pass).width;
    PixelSizes(h);
    if depth < 8 {
      PackedFit(depth, pass, columns, h.width, line[PIXELS..PIXELS + n], row);
      GatherPacked(depth, pass, columns, line, PIXELS, n, img, at, m);
    } else {
      GatherWhole(depth, bpp, pass, columns, h.width, line, PIXELS, n, img, at, m);
    }
  }

  lemma PackedFit(depth: nat, pass: nat, columns: nat, width: nat, line: seq<byte>, row: seq<byte>)
    requires Samples.Packed(depth) && depth < 8 && pass < 7 && Inside(pass, columns, width)
    requires HasPixels(depth, 1, line, columns) && HasPixels(depth, 1, row, width)
    ensures forall c :: 0 <= c < columns ==>
      Samples.ByteOf(depth, c) < |line| && Samples.ByteOf(depth, X(pass, c)) < |row|
  {
    forall c | 0 <= c < columns
      ensures Samples.ByteOf(depth, c) < |line| && Samples.ByteOf(depth, X(pass, c)) < |row|
    {
      assert HasPixel(depth, 1, line, c) && HasPixel(depth, 1, row, X(pass, c));
    }
  }

  lemma OneMorePicture(h: Ihdr, raw: bool, host: Endian, rows: seq<seq<byte>>, row: seq<byte>, img: seq<byte>)
    requires PixelsAreValid(h) && IsImage(h, img) && Pictures(h, raw, host, rows, img) && |rows| < Total(h)
    requires TakenFrom(h, PlaceAt(h, |rows|).pass, Wire(h, raw, host, row), RowOfLine(h, img, |rows|))
    ensures Pictures(h, raw, host, rows + [row], img)
  {
    var rows' := rows + [row];
    hide TakenFrom, Wire;
    forall k | 0 <= k < |rows'|
      ensures TakenFrom(h, PlaceAt(h, k).pass, Wire(h, raw, host, rows'[k]), RowOfLine(h, img, k))
    {
      assert rows'[k] == if k < |rows| then rows[k] else row;
    }
  }

  lemma RowToTake(h: Ihdr, k: nat, pass: nat, rowNum: nat, img: seq<byte>)
    requires ValidIhdr(h) && IsImage(h, img) && k < Total(h)
    requires PlaceAt(h, k).pass == pass && RowNumber(h, PlaceAt(h, k)) == rowNum
    ensures WholeRow(h, pass) ==> Sub(h, pass).width == h.width
    ensures rowNum < h.height && RowStart(h, rowNum) + RowBytes(h, h.width) <= |img|
    ensures img[RowStart(h, rowNum)..RowStart(h, rowNum) + RowBytes(h, h.width)] == RowOfLine(h, img, k)
  {
    RowNumberInImage(h, PlaceAt(h, k));
    if WholeRow(h, pass) {
      WholeRowColumns(h, k, 0);
    }
    RowStartFits(h, rowNum, |img|);
    hide ValidIhdr, Sub, RowBytes, IsImage, RowNumber, RowStart;
  }

  /** Fills the scanline buffer with the pixels of the k-th scanline, in big-endian order. */
  method PrepareLine(h: Ihdr, raw: bool, host: Endian, pass: nat, rowNum: nat, line: array<byte>, img: array<byte>, ghost k: nat)
    requires ValidIhdr(h) && PixelsAreValid(h) && IsImage(h, img[..]) && line != img
    requires k < Total(h) && PlaceAt(h, k).pass == pass && RowNumber(h, PlaceAt(h, k)) == rowNum
    requires PIXELS + RowBytes(h, Sub(h, pass).width) + 1 <= line.Length
    modifies line
    ensures TakenFrom(h, pass, Wire(h, raw, host, line[PIXELS..PIXELS + RowBytes(h, Sub(h, pass).width)]), RowOfLine(h, img[..], k))
  {
    hide ValidIhdr, PixelsAreValid, Sub, RowBytes, IsImage, RowNumber, TakenFrom, RowStart, PlaceAt, Wire;
    ghost var pic := img[..];
    RowToTake(h, k, pass, rowNum, pic);
    var n, m := RowBytes(h, Sub(h, pass).width), RowBytes(h, h.width);
    var ioffset := RowStart(h, rowNum);
    assert img[ioffset..ioffset + m] == pic[ioffset..ioffset + m];
    TakeRow(h, pass, line, img, ioffset);
    ToBigEndian(h, raw, host, line, n);
  }

  /** The n bytes of the scanline in the buffer, in the byte order of the stream. */
  method ToBigEndian(h: Ihdr, raw: bool, host: Endian, line: array<byte>, n: nat)
    requires PIXELS + n <= line.Length
    modifies line
    ensures Wire(h, raw, host, line[PIXELS..PIXELS + n]) == old(line[PIXELS..PIXELS + n])
  {
    WireTwice(h, raw, host, line[PIXELS..PIXELS + n]);
    if h.bitDepth == 16 && !raw {
      ReorderInPlace(host, line, PIXELS, n);
    }
  }

  lemma BuffersApart(enc: ScanlineEncoder)
    requires enc.Valid()
    ensures enc.scanline != enc.prevScanline && enc.scanline != enc.filteredScanline && enc.prevScanline != enc.filteredScanline
  {
  }

  lemma UnderCursor(h: Ihdr, enc: ScanlineEncoder, ri: RowInfo)
    requires ValidIhdr(h) && enc.Valid() && enc.l == LayoutOf(h) && ri.Valid(h)
    requires |enc.rows| == ri.Visited(h) && |enc.rows| < Total(h)
    ensures ri.pass < 7 && PlaceAt(h, |enc.rows|) == Place(ri.pass, ri.scanlineIdx)
    ensures ri.rowNum == RowNumber(h, PlaceAt(h, |enc.rows|))
    ensures |enc.rows| < |enc.l.lines|
    ensures enc.l.lines[|enc.rows|] == Line(RowBytes(h, Sub(h, ri.pass).width), ri.scanlineIdx == 0)
    ensures 0 < RowBytes(h, Sub(h, ri.pass).width) && RowBytes(h, Sub(h, ri.pass).width) + 1 + PIXELS <= enc.scanline.Length
    ensures enc.scanline != enc.prevScanline && enc.scanline != enc.filteredScanline
  {
    LineFacts(h, Place(ri.pass, ri.scanlineIdx));
    hide ValidIhdr, RowBytes, Sub, Index, Live;
  }

  /** Encodes the scanline under the cursor. */
  method EncodeRow(h: Ihdr, raw: bool, host: Endian, enc: ScanlineEncoder, ri: RowInfo, img: array<byte>)
    requires ValidIhdr(h) && PixelsAreValid(h) && enc.Valid() && enc.l == LayoutOf(h) && ri.Valid(h)
    requires |enc.rows| == ri.Visited(h) && |enc.rows| < Total(h) && IsImage(h, img[..])
    requires img != enc.scanline && img != enc.prevScanline && img != enc.filteredScanline
    requires Pictures(h, raw, host, enc.rows, img[..])
    modifies enc, enc.scanline, enc.prevScanline, enc.filteredScanline
    ensures enc.Valid() && |enc.rows| == old(|enc.rows|) + 1 && Pictures(h, raw, host, enc.rows, img[..])
    ensures enc.scanline == old(enc.prevScanline) && enc.prevScanline == old(enc.scanline)
  {
    hide ValidIhdr, PixelsAreValid, Sub, RowBytes, IsImage, RowNumber, RowOfLine, TakenFrom, Wire, Pictures, LayoutOf;
    hide Live, Index, PlaceAt, ScanlineEncoder.Valid, RowInfo.Valid, RowInfo.Visited;
    ghost var k, rows, pic := |enc.rows|, enc.rows, img[..];
    UnderCursor(h, enc, ri);
    var n := RowBytes(h, Sub(h, ri.pass).width);
    PrepareLine(h, raw, host, ri.pass, ri.rowNum, enc.scanline, img, k);
    ghost var row := enc.scanline[PIXELS..PIXELS + n];
    enc.EncodeScanline(n, ri.scanlineIdx == 0);
    assert img[..] == pic;
    OneMorePicture(h, raw, host, rows, row, pic);
  }

  lemma CursorInside(h: Ihdr, ri: RowInfo)
    requires ValidIhdr(h) && ri.Valid(h)
    ensures ri.Visited(h) < Total(h)
  {
    LineFacts(h, Place(ri.pass, ri.scanlineIdx));
  }

  lemma NoPictureYet(h: Ihdr, raw: bool, host: Endian, img: seq<byte>)
    requires PixelsAreValid(h) && IsImage(h, img)
    ensures Pictures(h, raw, host, [], img)
  {
  }

  /** Encodes all scanlines. */
  method EncodeRows(h: Ihdr, raw: bool, host: Endian, enc: ScanlineEncoder, ri: RowInfo, img: array<byte>, last: nat)
    requires ValidIhdr(h) && PixelsAreValid(h) && enc.Valid() && enc.l == LayoutOf(h) && ri.Valid(h) && IsLastPass(h, last)
    requires enc.rows == [] && ri.Visited(h) == 0 && IsImage(h, img[..])
    requires img != enc.scanline && img != enc.prevScanline && img != enc.filteredScanline
    modifies enc, enc.scanline, enc.prevScanline, enc.filteredScanline, ri
    ensures enc.Valid() && |enc.rows| == Total(h) && Pictures(h, raw, host, enc.rows, img[..])
  {
    hide ValidIhdr, PixelsAreValid, Sub, RowBytes, Pictures, IsImage, LayoutOf, RowNumber, Index;
    hide ScanlineEncoder.Valid, Live, RowInfo.Valid, RowInfo.Visited, IsLastPass;
    ghost var pic := img[..];
    NoPictureYet(h, raw, host, pic);
    BuffersApart(enc);
    CursorInside(h, ri);
    var eoi := false;
    while !eoi
      invariant enc.Valid() && ri.Valid(h) && img[..] == pic
      invariant || (enc.scanline == old(enc.scanline) && enc.prevScanline == old(enc.prevScanline))
                || (enc.scanline == old(enc.prevScanline) && enc.prevScanline == old(enc.scanline))
      invariant |enc.rows| == if eoi then Total(h) else ri.Visited(h)
      invariant !eoi ==> |enc.rows| < Total(h)
      invariant Pictures(h, raw, host, enc.rows, pic)
      decreases Total(h) - |enc.rows|
    {
      EncodeRow(h, raw, host, enc, ri, img);
      eoi := ri.Update(h, last);
      CursorInside(h, ri);
    }
  }

  /** Encodes an image: fails if it needs a palette and there is none, if a row is too long to
      count or the buffer has the wrong size, and otherwise emits the code of scanlines that
      picture the image, each filtered with the best of the filters in use. */
  method EncodeImage(h: Ihdr, hasPlte: bool, raw: bool, host: Endian, choices: nat, optimize: bool, level: int, img: array<byte>)
    returns (status: EncodeStatus, stream: seq<byte>, ghost rows: seq<seq<byte>>, ghost filters: seq<nat>)
    requires ValidIhdr(h) && ValidChoices(choices)
    ensures status == ENoPlte <==> h.colorType == INDEXED && !hasPlte
    ensures status == EOverflow <==> (h.colorType == INDEXED ==> hasPlte) && ScanlineWidth(h, h.width) > U32_MAX
    ensures status == EBufSize <==>
      (h.colorType == INDEXED ==> hasPlte) && ScanlineWidth(h, h.width) <= U32_MAX && !IsImage(h, img[..])
    ensures status == Encoded ==>
      && LayoutOf(h).Valid() && PixelsAreValid(h) && FitsInMemory(h) && |rows| == Total(h)
      && AllBest(LayoutOf(h), UsedFilters(h, choices, optimize, level), rows, filters) && ValidFilters(filters)
      && stream == Code(LayoutOf(h), rows, filters)
      && Pictures(h, raw, host, rows, img[..])
    ensures status == Encoded ==> StreamLaw(h, stream, rows) && SameSamples(h, raw, host, rows, img[..])
  {
    if h.colorType == INDEXED && !hasPlte {
      return ENoPlte, [], [], [];
    }
    if ScanlineWidth(h, h.width) > U32_MAX {
      return EOverflow, [], [], [];
    }
    if img.Length != h.height * RowBytes(h, h.width) {
      return EBufSize, [], [], [];
    }
    var size, widest, last := CalculateSubimages(h);
    PassesFit(h);
    LayoutIsValid(h);
    ValidPixels(h);
    LinesWithin(h, widest);
    assert IsImage(h, img[..]);
    var used := UsedFilters(h, choices, optimize, level);
    hide ValidIhdr, PixelsAreValid, Sub, RowBytes, Pictures, IsImage, LayoutOf, ValidFilters, AllBest, Code, UsedFilters, ValidChoices;
    hide FitsInMemory, StreamLaw, SameSamples, Layout.Valid;
    var enc := new ScanlineEncoder(LayoutOf(h), used, ScanlineWidth(h, Sub(h, widest).width));
    var ri := new RowInfo();
    ri.Start(h);
    EncodeRows(h, raw, host, enc, ri, img, last);
    status, stream, rows, filters := Encoded, enc.stream, enc.rows, enc.filters;
    EncodedInNumbers(h, raw, host, used, rows, filters, stream, img[..]);
  }

  lemma EncodedInNumbers(h: Ihdr, raw: bool, host: Endian, used: nat, rows: seq<seq<byte>>, filters: seq<nat>, stream: seq<byte>,
                         img: seq<byte>)
    requires ValidIhdr(h) && LayoutOf(h).Valid() && PixelsAreValid(h) && |rows| == Total(h) && IsImage(h, img)
    requires AllBest(LayoutOf(h), used, rows, filters) && ValidFilters(filters)
    requires stream == Code(LayoutOf(h), rows, filters) && Pictures(h, raw, host, rows, img)
    ensures StreamLaw(h, stream, rows) && SameSamples(h, raw, host, rows, img)
  {
    AllBestMeansSized(LayoutOf(h), used, rows, filters);
    hide ValidIhdr, PixelsAreValid, LineBytes, Code, Pictures, IsImage, ValidFilters, Layout.Valid, AllBest, StreamLaw, SameSamples;
    CodeInNumbers(h, rows, filters, stream);
    PicturesInNumbers(h, raw, host, rows, img);
  }

  lemma PassesFit(h: Ihdr)
    requires ValidIhdr(h) && ScanlineWidth(h, h.width) <= U32_MAX
    ensures FitsInMemory(h)
  {
    forall p | 0 <= p < 7 && !Sub(h, p).Empty() ensures ScanlineWidth(h, Sub(h, p).width) <= U32_MAX {
      RowIsWidest(h, p);
      RowBytesIs(h, Sub(h, p).width);
      RowBytesIs(h, h.width);
    }
  }

  lemma LinesWithin(h: Ihdr, widest: nat)
    requires ValidIhdr(h) && IsWidest(h, widest)
    ensures forall k :: 0 <= k < Total(h) ==> LayoutOf(h).lines[k].bytes + 1 <= ScanlineWidth(h, Sub(h, widest).width)
  {
    forall k | 0 <= k < Total(h)
      ensures LayoutOf(h).lines[k].bytes + 1 <= ScanlineWidth(h, Sub(h, widest).width)
    {
      RowBytesIs(h, Sub(h, PlaceAt(h, k).pass).width);
    }
  }
}
