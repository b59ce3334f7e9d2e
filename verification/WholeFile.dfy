/**
 A whole file: an encoder writes an image and everything it holds besides, and a decoder reads
 it all back. Deflate and inflate are a pipe that stands for any compressed form of the image.
 */
module WholeFile {
  import opened Octets
  import opened Chunks
  import opened Header
  import opened Metadata
  import opened Scanlines
  import opened ByteOrder
  import opened FilterChoice
  import opened ImageStream
  import opened ImageGeometry
  import Printing
  import FF = FileFormat
  import WF = WireFormat
  import opened LongChunks
  import Encoder
  import E = ImageEncoder
  import D = Decoder
  import ID = ImageDecoder
  import R = MetadataRoundTrip
  import P = RoundTrip
  import F = FileRoundTrip
  import W = ChunkWriter
  import MW = MetadataWriter
  import IW = IdatWriter
  import IR = IdatReader
  import S = ChunkSource
  import CR = ChunkReader

  // ---- Writing ----

  lemma OffsetsGrow(l: Layout, k: nat, n: nat)
    requires k <= n <= |l.lines|
    ensures Offset(l, k) <= Offset(l, n)
  {
    if k < n {
      OffsetsGrow(l, k, n - 1);
    }
  }

  lemma NextOffset(l: Layout, k: nat)
    requires k < |l.lines|
    ensures Offset(l, k + 1) == Offset(l, k) + 1 + l.lines[k].bytes
  {
  }

  /** Each filtered scanline is handed to deflate with its filter byte in front. */
  method Compress(iw: IW.IdatWriter, l: Layout, stream: seq<byte>)
    requires iw.Valid() && |stream| == Offset(l, |l.lines|)
    modifies iw`availOut, iw`done, iw.pipe, iw.writer, iw.writer.Buf(), iw.writer.outPng
    ensures iw.Valid() && iw.pipe.given == old(iw.pipe.given) + stream
    ensures iw.pipe.made + iw.pipe.rest == old(iw.pipe.made + iw.pipe.rest)
    ensures iw.writer.streamBuf != old(iw.writer.streamBuf) ==> fresh(iw.writer.streamBuf)
    ensures iw.writer.outPng != old(iw.writer.outPng) ==> fresh(iw.writer.outPng)
  {
    hide IW.IdatWriter.Valid, Offset;
    assert Offset(l, 0) == 0 by {
      FirstOffset(l);
    }
    var at, k := 0, 0;
    while k < |l.lines|
      invariant k <= |l.lines| && at == Offset(l, k) && at <= |stream| && iw.Valid()
      invariant iw.pipe.given == old(iw.pipe.given) + stream[..at]
      invariant iw.pipe.made + iw.pipe.rest == old(iw.pipe.made + iw.pipe.rest)
      invariant iw.writer.streamBuf != old(iw.writer.streamBuf) ==> fresh(iw.writer.streamBuf)
      invariant iw.writer.outPng != old(iw.writer.outPng) ==> fresh(iw.writer.outPng)
    {
      NextOffset(l, k);
      OffsetsGrow(l, k + 1, |l.lines|);
      var next := at + 1 + l.lines[k].bytes;
      iw.WriteIdatBytes(stream[at..next]);
      assert stream[..next] == stream[..at] + stream[at..next];
      at, k := next, k + 1;
    }
    assert stream[..at] == stream;
  }

  lemma FirstOffset(l: Layout)
    ensures Offset(l, 0) == 0
  {
  }

  /** What stands behind the image data in the end. */
  ghost function Ending(h: Ihdr, held: R.Held): seq<byte>
    requires R.Admitted(h, held)
  {
    R.OthersFit(h, held);
    Stream(R.StoredUnknowns(held, AfterIdat)) + IEND_BYTES
  }

  /** What a file takes at most. */
  ghost function SizeOf(h: Ihdr, held: R.Held, compressed: seq<byte>): nat
    requires R.Admitted(h, held)
  {
    MW.SizeBefore(h, held) + 2 * |compressed| + 32768 + |Ending(h, held)|
  }

  lemma EndingFits(h: Ihdr, held: R.Held)
    requires R.Admitted(h, held)
    ensures R.Fit(R.StoredUnknowns(held, AfterIdat))
    ensures Ending(h, held) == Stream(R.StoredUnknowns(held, AfterIdat)) + IEND_BYTES && |IEND_BYTES| == 12
  {
    R.OthersFit(h, held);
  }

  /** The chunks before the image data, and the image data, which deflate is given whole. */
  method WriteFront(w: W.Writer, data: array<byte>, h: Ihdr, held: R.Held, l: Layout, stream: seq<byte>, compressed: seq<byte>)
    returns (ok: bool, pipe: IW.Deflater, ghost payloads: seq<seq<byte>>)
    requires R.Admitted(h, held) && NoneWraps(held.splts) && w.Valid() && (w.streaming || w.internalBuffer)
    requires w.bytesEncoded + MW.SizeBefore(h, held) + 2 * |compressed| + 32768 <= W.MAX_REQUIRED
    requires data.Length >= 1024 && data != w.streamBuf && data != w.outPng && |stream| == Offset(l, |l.lines|)
    modifies w, w.streamBuf, w.outPng, data
    ensures w.Valid() && fresh(pipe) && (ok <==> R.AllFit(h, held))
    ensures ok ==> payloads != [] && IW.Bounded(payloads) && IW.Concat(payloads) == compressed
    ensures ok ==> pipe.finished && pipe.given == stream && pipe.made == compressed
    ensures ok ==> w.Output() == old(w.Output()) + MW.Expected(h, held) + IW.IdatStream(payloads)
    ensures ok ==> |IW.IdatStream(payloads)| <= 2 * |compressed| + 12
    ensures w.streamBuf != old(w.streamBuf) ==> fresh(w.streamBuf)
    ensures w.outPng != old(w.outPng) ==> fresh(w.outPng)
  {
    hide R.Admitted, R.AllFit, MW.Expected, IW.IdatStream, IW.Concat, IW.IdatWriter.Kept, IW.IdatWriter.Valid, IW.Bounded, IW.Full, Offset;
    hide MW.SizeBefore, NoneWraps;
    payloads := [];
    pipe := new IW.Deflater(compressed);
    ok := MW.WriteChunksBeforeIdat(w, h, held, data);
    if ok {
      MW.ExpectedLength(h, held);
      var iw := new IW.IdatWriter(w, pipe);
      Compress(iw, l, stream);
      payloads := iw.FinishIdat();
      IW.FileSize(payloads);
      assert [] + stream == stream && [] + compressed == compressed;
    }
  }

  /** And the chunks behind the image data. */
  method WriteParts(w: W.Writer, data: array<byte>, h: Ihdr, held: R.Held, l: Layout, stream: seq<byte>, compressed: seq<byte>)
    returns (ok: bool, pipe: IW.Deflater, ghost payloads: seq<seq<byte>>)
    requires R.Admitted(h, held) && NoneWraps(held.splts) && w.Valid() && (w.streaming || w.internalBuffer)
    requires w.bytesEncoded + SizeOf(h, held, compressed) <= W.MAX_REQUIRED
    requires data.Length >= 1024 && data != w.streamBuf && data != w.outPng && |stream| == Offset(l, |l.lines|)
    modifies w, w.streamBuf, w.outPng, data
    ensures w.Valid() && (ok <==> R.AllFit(h, held))
    ensures ok ==> payloads != [] && IW.Bounded(payloads) && IW.Concat(payloads) == compressed
    ensures ok ==> pipe.finished && pipe.given == stream && pipe.made == compressed
    ensures ok ==> w.Output() == old(w.Output()) + MW.Expected(h, held) + IW.IdatStream(payloads) + Ending(h, held)
  {
    hide R.Admitted, R.AllFit, MW.Expected, MW.SizeBefore, R.Fit, IW.IdatStream, IW.Concat, IW.Bounded, R.StoredUnknowns, Stream, Offset, NoneWraps, Ending;
    EndingFits(h, held);
    ok, pipe, payloads := WriteFront(w, data, h, held, l, stream, compressed);
    if ok {
      MW.ExpectedLength(h, held);
      MW.WriteChunksAfterIdat(w, held);
    }
  }

  /**
   spng_encode_image, with all that is held and in the end the last chunk. Deflate has then been
   given the filtered stream, and nothing else.
   */
  method WriteFile(w: W.Writer, data: array<byte>, h: Ihdr, held: R.Held, raw: bool, host: Endian,
                   choices: nat, optimize: bool, level: int, img: array<byte>, compressed: seq<byte>)
    returns (ok: bool, pipe: IW.Deflater?, ghost stream: seq<byte>, ghost rows: seq<seq<byte>>, ghost filters: seq<nat>,
             ghost payloads: seq<seq<byte>>)
    requires R.Admitted(h, held) && NoneWraps(held.splts) && ValidChoices(choices)
    requires w.bytesEncoded + SizeOf(h, held, compressed) <= W.MAX_REQUIRED
    requires w.Valid() && (w.streaming || w.internalBuffer)
    requires data.Length >= 1024 && data != w.streamBuf && data != w.outPng
    requires img != data && img != w.streamBuf && img != w.outPng
    modifies w, w.streamBuf, w.outPng, data
    ensures ValidIhdr(h)
    ensures ok <==> Encodable(h, held, img[..])
    ensures ok ==> P.Encodes(h, raw, host, E.UsedFilters(h, choices, optimize, level), img[..], stream, rows, filters)
    ensures ok ==> FitsInMemory(h) && payloads != [] && IW.Bounded(payloads) && IW.Concat(payloads) == compressed
    ensures ok ==> pipe != null && pipe.finished && pipe.given == stream && pipe.made == compressed
    ensures ok ==> R.AllFit(h, held) && w.Valid()
    ensures ok ==> w.Output() == old(w.Output()) + MW.Expected(h, held) + IW.IdatStream(payloads) + Ending(h, held)
    ensures ok ==> WF.StreamLaw(h, stream, rows) && WF.SameSamples(h, raw, host, rows, img[..])
    ensures ok && old(w.Output()) == [] ==> FF.Begins(w.Output(), h) && F.InLetters(w.Output(), h, held)
  {
    hide FF.Begins, F.InLetters, WF.StreamLaw, WF.SameSamples, R.Admitted, R.AllFit, MW.Expected, R.Fit, IW.IdatStream, IW.Concat, IW.Bounded, P.Encodes, ValidIhdr, ValidChoices, FitsInMemory;
    hide ScanlineWidth, IsImage, LayoutOf, E.UsedFilters, R.StoredUnknowns, Printing.Representable, Offset, SizeOf, Ending, NoneWraps;
    R.AdmittedFacts(h, held);
    payloads, pipe := [], null;
    var given;
    ok, given, rows, filters := Filtered(h, TPlte in held.stored, raw, host, choices, optimize, level, img);
    stream := given;
    if ok {
      ghost var picture := img[..];
      ok, pipe, payloads := WriteParts(w, data, h, held, LayoutOf(h), given, compressed);
      assert img[..] == picture;
      if ok {
        P.EncodesInNumbers(h, raw, host, E.UsedFilters(h, choices, optimize, level), picture, given, rows, filters);
        FileInLetters(h, held, IW.IdatStream(payloads), Ending(h, held));
      }
    }
  }

  lemma FileInLetters(h: Ihdr, held: R.Held, image: seq<byte>, ending: seq<byte>)
    requires R.Admitted(h, held) && R.AllFit(h, held)
    ensures var file := [] + MW.Expected(h, held) + image + ending;
      FF.Begins(file, h) && F.InLetters(file, h, held)
  {
    hide FF.Begins, F.InLetters, R.Admitted, R.AllFit, MW.Expected;
    assert [] + MW.Expected(h, held) + image + ending == MW.Expected(h, held) + (image + ending);
    F.WrittenBegins(h, held, image + ending);
    F.AllInLetters(h, held, image + ending);
  }

  /** When the encoder does not refuse: indices have a palette, rows and chunks are not too long, the image has its size. */
  ghost predicate Encodable(h: Ihdr, held: R.Held, img: seq<byte>)
    requires R.Admitted(h, held)
  {
    && (h.colorType == INDEXED ==> TPlte in held.stored) && R.AllFit(h, held)
    && ScanlineWidth(h, h.width) <= U32_MAX && IsImage(h, img)
  }

  /** What deflate is given. */
  method Filtered(h: Ihdr, hasPlte: bool, raw: bool, host: Endian, choices: nat, optimize: bool, level: int, img: array<byte>)
    returns (ok: bool, stream: seq<byte>, ghost rows: seq<seq<byte>>, ghost filters: seq<nat>)
    requires ValidIhdr(h) && ValidChoices(choices)
    ensures ok <==> (h.colorType == INDEXED ==> hasPlte) && ScanlineWidth(h, h.width) <= U32_MAX && IsImage(h, img[..])
    ensures ok ==> P.Encodes(h, raw, host, E.UsedFilters(h, choices, optimize, level), img[..], stream, rows, filters)
    ensures ok ==> FitsInMemory(h) && |stream| == Offset(LayoutOf(h), |LayoutOf(h).lines|)
  {
    hide P.Encodes, ValidIhdr, ValidChoices, FitsInMemory, ScanlineWidth, IsImage, LayoutOf, E.UsedFilters, Offset;
    var status;
    status, stream, rows, filters := E.EncodeImage(h, hasPlte, raw, host, choices, optimize, level, img);
    ok := status == E.Encoded;
    if ok {
      AreEncoded(h, raw, host, E.UsedFilters(h, choices, optimize, level), img[..], stream, rows, filters);
    }
  }

  /** The file as a new writer leaves it, or as its callback was given it. */
  method WriteOut(h: Ihdr, held: R.Held, raw: bool, host: Endian, choices: nat, optimize: bool, level: int,
                  img: array<byte>, compressed: seq<byte>, streaming: bool)
    returns (ok: bool, file: seq<byte>, pipe: IW.Deflater?, ghost rows: seq<seq<byte>>, ghost filters: seq<nat>,
             ghost payloads: seq<seq<byte>>)
    requires R.Admitted(h, held) && NoneWraps(held.splts) && ValidChoices(choices)
    requires SizeOf(h, held, compressed) <= W.MAX_REQUIRED
    ensures ValidIhdr(h)
    ensures ok <==> Encodable(h, held, img[..])
    ensures ok ==> pipe != null && pipe.finished && pipe.made == compressed
    ensures ok ==> P.Encodes(h, raw, host, E.UsedFilters(h, choices, optimize, level), img[..], pipe.given, rows, filters)
    ensures ok ==> FitsInMemory(h) && payloads != [] && IW.Bounded(payloads) && IW.Concat(payloads) == compressed
    ensures ok ==> R.AllFit(h, held) && file == MW.Expected(h, held) + IW.IdatStream(payloads) + Ending(h, held)
  {
    hide R.Admitted, R.StoredUnknowns, MW.Expected, R.AllFit, R.Fit, IW.IdatStream, IW.Concat, IW.Bounded, Ending, SizeOf, NoneWraps;
    hide P.Encodes, ValidIhdr, ValidChoices, ScanlineWidth, IsImage, FitsInMemory, E.UsedFilters, Encodable;
    var data := new byte[1024];
    var w := new W.Writer(streaming, true);
    ghost var stream;
    ok, pipe, stream, rows, filters, payloads := WriteFile(w, data, h, held, raw, host, choices, optimize, level, img, compressed);
    file := [];
    if ok {
      file := w.Output();
      assert [] + MW.Expected(h, held) == MW.Expected(h, held);
    }
  }

  lemma AreEncoded(h: Ihdr, raw: bool, host: Endian, used: nat, img: seq<byte>, stream: seq<byte>, rows: seq<seq<byte>>, filters: seq<nat>)
    requires ValidIhdr(h) && LayoutOf(h).Valid() && PixelsAreValid(h) && |rows| == Total(h) && IsImage(h, img)
    requires Encoder.AllBest(LayoutOf(h), used, rows, filters) && ValidFilters(filters)
    requires stream == Code(LayoutOf(h), rows, filters) && Pictures(h, raw, host, rows, img)
    ensures P.Encodes(h, raw, host, used, img, stream, rows, filters)
    ensures |stream| == Offset(LayoutOf(h), |LayoutOf(h).lines|)
  {
    P.StreamLength(h, raw, host, used, img, stream, rows, filters);
  }

  // ---- Reading ----

  /** The decoder is at work on image data that it was given whole. */
  ghost predicate Unpacking(r: CR.Reader, idat: IR.IdatReader, run: seq<seq<byte>>, post: seq<byte>, stream: seq<byte>, at: nat)
    reads r, r.src, idat, idat.pipe
  {
    && r.state == CR.Decoding && r.Inv() && idat.src == r.src && idat.Valid() && IR.InRun(r.src, run, post)
    && idat.whole == idat.pipe.coded && at <= |stream| && idat.pipe.rest == stream[at..]
  }

  /** So many bytes more. */
  method Unpack(r: CR.Reader, idat: IR.IdatReader, n: nat, ghost stream: seq<byte>, ghost at: nat, ghost run: seq<seq<byte>>, ghost post: seq<byte>)
    returns (piece: seq<byte>, ghost run': seq<seq<byte>>)
    requires Unpacking(r, idat, run, post, stream, at) && IR.Ends(post) && at + n <= |stream|
    modifies idat.src, idat.pipe, idat`input
    ensures piece == stream[at..at + n] && Unpacking(r, idat, run', post, stream, at + n)
  {
    hide IR.RunHere, IR.Following, CR.Reader.Kept, Crc;
    var status;
    status, piece, run' := idat.ReadScanlineBytes(n, run, post);
    assert stream[at..] == piece + idat.pipe.rest;
    assert piece == stream[at..][..n] && idat.pipe.rest == stream[at..][n..];
  }

  /** The first filter byte alone, then every scanline with the filter byte of the next. */
  method Decompress(r: CR.Reader, idat: IR.IdatReader, l: Layout, ghost stream: seq<byte>, ghost run: seq<seq<byte>>, ghost post: seq<byte>)
    returns (got: seq<byte>, ghost run': seq<seq<byte>>)
    requires Unpacking(r, idat, run, post, stream, 0) && IR.Ends(post) && |stream| == Offset(l, |l.lines|) && |l.lines| > 0
    modifies idat.src, idat.pipe, idat`input
    ensures got == stream && Unpacking(r, idat, run', post, stream, |stream|)
  {
    hide Unpacking, Offset, IR.Ends;
    FirstOffset(l);
    NextOffset(l, 0);
    OffsetsGrow(l, 1, |l.lines|);
    got, run' := Unpack(r, idat, 1, stream, 0, run, post);
    var k := 0;
    while k < |l.lines|
      invariant k <= |l.lines| && |got| == (if k < |l.lines| then Offset(l, k) + 1 else Offset(l, k)) <= |stream|
      invariant got == stream[..|got|] && Unpacking(r, idat, run', post, stream, |got|)
    {
      NextOffset(l, k);
      OffsetsGrow(l, k + 1, |l.lines|);
      var n := l.lines[k].bytes;
      if k + 1 < |l.lines| {
        n := n + 1;
        NextOffset(l, k + 1);
        OffsetsGrow(l, k + 2, |l.lines|);
      }
      var piece;
      piece, run' := Unpack(r, idat, n, stream, |got|, run', post);
      assert stream[..|got| + n] == got + piece;
      got := got + piece;
      k := k + 1;
    }
    assert stream[..|stream|] == stream;
  }

  /** Everything that was held has come back, also from behind the image data. */
  ghost predicate AllBack(h: Ihdr, held: R.Held, k: R.Kept)
    requires Printing.Representable(held.v)
  {
    && (forall t :: Small(t) ==> (t in k.m.stored <==> t in held.stored))
    && (forall t :: Small(t) && t in held.stored ==> R.Same(h, k.m.v, held.v, t))
    && k.exif == (if TExif in held.stored then held.exif else [])
    && k.splts == (if TSplt in held.stored then held.splts else [])
    && k.unknowns == R.UnknownsRead(held) + R.At(held.unknowns, AfterIdat, AfterIdat)
  }

  lemma AllIsBack(h: Ihdr, held: R.Held, before: R.Kept, k: R.Kept)
    requires Printing.Representable(held.v) && R.ReadBack(h, held, before)
    requires k.m.v == before.m.v && k.exif == before.exif && k.splts == before.splts && k.m.stored == k.m.file
    requires forall t :: Small(t) ==> (t in k.m.file <==> t in before.m.file)
    requires k.unknowns == before.unknowns + R.At(held.unknowns, AfterIdat, AfterIdat)
    ensures AllBack(h, held, k)
  {
    hide Small, R.Same, R.At, R.UnknownsRead;
  }

  lemma StoredIsFile(h: Ihdr, held: R.Held, k: R.Kept)
    requires Printing.Representable(held.v) && R.ReadBack(h, held, k)
    ensures k.m.stored == k.m.file
  {
  }

  /** The file holds all this, and the decoder has room for it. */
  ghost predicate Readable(r: CR.Reader, h: Ihdr, held: R.Held, payloads: seq<seq<byte>>)
    requires R.Admitted(h, held)
    reads r, r.src
  {
    && R.Consistent(h, held) && R.UnknownsOk(held.unknowns, AfterIdat) && R.AllFit(h, held)
    && (h.colorType == INDEXED ==> TPlte in held.stored)
    && payloads != [] && IW.Bounded(payloads)
    && r.src.file == MW.Expected(h, held) + IW.IdatStream(payloads) + Ending(h, held)
    && F.Ready(r, h, R.BeforeIdat(h, held), R.StoredUnknowns(held, AfterIdat))
  }

  lemma ReadableFacts(r: CR.Reader, h: Ihdr, held: R.Held, payloads: seq<seq<byte>>)
    requires R.Admitted(h, held) && Readable(r, h, held, payloads)
    ensures IW.Bounded(payloads)
    ensures F.Closes(Ending(h, held), h, held) && IR.Ends(Ending(h, held))
    ensures F.CutUp(IW.IdatStream(payloads) + Ending(h, held), payloads, Ending(h, held))
    ensures F.Holds(r.src.file, h, held, IW.IdatStream(payloads) + Ending(h, held))
    ensures F.Ready(r, h, R.BeforeIdat(h, held), R.StoredUnknowns(held, AfterIdat)) && r.keepUnknown
    ensures CR.Number(R.BeforeIdat(h, held)) + CR.Number(R.StoredUnknowns(held, AfterIdat)) <= r.countLimit
    ensures CR.Costs(R.BeforeIdat(h, held)) + CR.Costs(R.StoredUnknowns(held, AfterIdat)) <= r.cacheLimit
  {
    hide R.Admitted, R.Consistent, R.BeforeIdat, R.StoredUnknowns, MW.Expected, IW.IdatStream, Stream, Bytes, CR.Costs, CR.Number, CR.IdatNext;
    hide FitsInMemory, CheckIhdr, R.UnknownsOk, R.Fit, IW.Bounded, CR.Reader.Inv;
    EndingFits(h, held);
    F.ClosedEnds(Ending(h, held), h, held);
    hide IR.Ends;
    F.StartsWithIdat(IW.IdatStream(payloads) + Ending(h, held), payloads, Ending(h, held));
    assert r.src.file == MW.Expected(h, held) + (IW.IdatStream(payloads) + Ending(h, held));
  }

  /** What inflate was made for is in the chunks, and it is to produce the stream. */
  ghost predicate Packed(pipe: IR.Inflater, payloads: seq<seq<byte>>, stream: seq<byte>)
    reads pipe
  {
    pipe.coded == IW.Concat(payloads) && pipe.coded != [] && pipe.eaten == [] && pipe.rest == stream
  }

  /** The decoder up to the first byte that inflate is to give. */
  method StartReading(r: CR.Reader, pipe: IR.Inflater, ghost stream: seq<byte>, ghost h: Ihdr, ghost held: R.Held, ghost payloads: seq<seq<byte>>)
    returns (idat: IR.IdatReader, ghost run: seq<seq<byte>>)
    requires R.Admitted(h, held) && Readable(r, h, held, payloads) && Packed(pipe, payloads, stream)
    modifies r, r.src, pipe
    ensures Unpacking(r, idat, run, Ending(h, held), stream, 0) && r.h == h && fresh(idat) && idat.pipe == pipe
    ensures Printing.Representable(held.v) && R.ReadBack(h, held, r.Now())
    ensures r.usage <= CR.Costs(R.BeforeIdat(h, held)) && r.count <= CR.Number(R.BeforeIdat(h, held))
  {
    hide R.Admitted, Readable, F.Closes, F.CutUp, F.Holds, F.Ready, R.BeforeIdat, R.StoredUnknowns, R.ReadBack, IW.IdatStream, IW.Concat;
    hide IR.Ends, IR.RunHere, IR.Following, CR.Costs, CR.Number, CR.Reader.Kept, Crc, Ending, Printing.Representable, R.AllValid;
    ReadableFacts(r, h, held, payloads);
    ghost var post := Ending(h, held);
    idat := F.OpenImageData(r, pipe, h, held, IW.IdatStream(payloads) + post, R.StoredUnknowns(held, AfterIdat), payloads, post);
    var status;
    status, run := idat.ReadIdatBytes(payloads, post);
    assert stream[0..] == stream;
  }

  /** spng_decode_image, and then the rest of the file. */
  method ReadFile(r: CR.Reader, pipe: IR.Inflater, ghost stream: seq<byte>, raw: bool, host: Endian, simd: D.Simd, out: array<byte>,
                  ghost h: Ihdr, ghost held: R.Held, ghost payloads: seq<seq<byte>>,
                  ghost used: nat, ghost img: seq<byte>, ghost rows: seq<seq<byte>>, ghost filters: seq<nat>)
    requires R.Admitted(h, held) && Readable(r, h, held, payloads) && Packed(pipe, payloads, stream)
    requires ValidIhdr(h) && P.Encodes(h, raw, host, used, img, stream, rows, filters)
    requires ScanlineWidth(h, h.width) <= U32_MAX && out[..] == Zeros(|img|)
    modifies r, r.src, pipe, out
    ensures P.SamePixels(h, out[..], img)
    ensures r.state == CR.Ended && r.Inv() && r.h == h && r.src.bytesRead == |r.src.file|
    ensures Printing.Representable(held.v) && AllBack(h, held, r.Now())
  {
    hide R.Admitted, Readable, F.Closes, F.CutUp, F.Holds, F.Ready, R.BeforeIdat, R.StoredUnknowns, R.ReadBack, IW.IdatStream, IW.Concat;
    hide IR.Ends, IR.RunHere, CR.Costs, CR.Number, CR.Reader.Inv, Ending, Printing.Representable, P.Encodes, P.SamePixels, AllBack;
    hide ValidIhdr, ScanlineWidth, LayoutOf, Offset, R.Same, Small;
    ReadableFacts(r, h, held, payloads);
    P.StreamLength(h, raw, host, used, img, stream, rows, filters);
    ID.LinesToDecode(h);
    var idat;
    ghost var run;
    idat, run := StartReading(r, pipe, stream, h, held, payloads);
    ghost var before := r.Now();
    var got;
    got, run := Decompress(r, idat, LayoutOf(r.h), stream, run, Ending(h, held));
    P.DecodeEncoded(r.h, raw, host, simd, got, out, used, img, rows, filters);
    StoredIsFile(h, held, before);
    var f := F.ReadTheEnd(r, h, held, run, Ending(h, held));
    AllIsBack(h, held, before, r.Now());
  }

  /** A decoder that accepts the header and has room for the chunks. */
  ghost predicate Accommodates(h: Ihdr, held: R.Held, maxWidth: nat, maxHeight: nat, cacheLimit: nat, countLimit: nat)
    requires R.Admitted(h, held)
  {
    && CheckIhdr(h, maxWidth, maxHeight) == IhdrOk
    && CR.Number(R.BeforeIdat(h, held)) + CR.Number(R.StoredUnknowns(held, AfterIdat)) <= countLimit
    && CR.Costs(R.BeforeIdat(h, held)) + CR.Costs(R.StoredUnknowns(held, AfterIdat)) <= cacheLimit
  }

  /** A decoder that keeps unknown chunks, with its source set. */
  method NewReader(file: seq<byte>, streaming: bool, critical: S.Action, ancillary: S.Action,
                   maxWidth: nat, maxHeight: nat, cacheLimit: nat, countLimit: nat, strict: bool) returns (r: CR.Reader)
    ensures fresh(r) && fresh(r.src) && r.src.file == file && r.keepUnknown && r.state == CR.Input && r.Inv()
    ensures r.maxWidth == maxWidth && r.maxHeight == maxHeight && r.cacheLimit == cacheLimit && r.countLimit == countLimit
    ensures r.exif == [] && r.splts == [] && r.unknowns == []
  {
    var src := new S.Source(streaming, file, critical, ancillary);
    r := new CR.Reader(src, maxWidth, maxHeight, cacheLimit, countLimit, true, strict);
  }

  lemma IsReadable(r: CR.Reader, h: Ihdr, held: R.Held, payloads: seq<seq<byte>>)
    requires R.Admitted(h, held) && R.Consistent(h, held) && R.UnknownsOk(held.unknowns, AfterIdat)
    requires R.AllFit(h, held) && (h.colorType == INDEXED ==> TPlte in held.stored)
    requires payloads != [] && IW.Bounded(payloads) && FitsInMemory(h)
    requires r.src.file == MW.Expected(h, held) + IW.IdatStream(payloads) + Ending(h, held)
    requires r.keepUnknown && r.state == CR.Input && r.Inv() && r.exif == [] && r.splts == [] && r.unknowns == []
    requires Accommodates(h, held, r.maxWidth, r.maxHeight, r.cacheLimit, r.countLimit)
    ensures Readable(r, h, held, payloads)
  {
    hide R.Admitted, R.Consistent, R.BeforeIdat, R.StoredUnknowns, R.UnknownsOk, MW.Expected, R.AllFit, R.Fit, IW.IdatStream, IW.Bounded;
    hide CR.Costs, CR.Number, Ending, FitsInMemory, CheckIhdr, CR.Reader.Inv;
  }

  lemma ConsistentIsEncodable(h: Ihdr, held: R.Held, img: seq<byte>)
    requires R.Admitted(h, held) && R.Consistent(h, held)
    ensures NoneWraps(held.splts) && R.AllFit(h, held)
    ensures Encodable(h, held, img) <==>
      (h.colorType == INDEXED ==> TPlte in held.stored) && ScanlineWidth(h, h.width) <= U32_MAX && IsImage(h, img)
  {
    hide R.AllFit, ScanlineWidth, IsImage, R.UnknownsOk, SpltSettable, EntryFits;
    R.ConsistentFits(h, held);
    assert forall i :: 0 <= i < |held.splts| ==> SpltOk(held.splts[i]);
  }

  /**
   The main result about files. Whatever image an encoder is given, in whatever format and with
   whatever filters, and whatever it holds besides, if that is consistent: the file it writes, to
   a buffer or a stream and with any compressed form of the image cut into chunks, is read to its
   end by a decoder with room for it, from a buffer or a stream and whatever it does about
   checksums; and the decoder then has every pixel, the header, every value, the exif data, the
   palettes and all unknown chunks. All that passes between deflate and inflate is in the file.
   Writing fails only for palette indices without a palette, rows that need more than 32 bits to
   count, and image buffers of the wrong size.
   */
  method WriteThenRead(h: Ihdr, held: R.Held, raw: bool, host: Endian, choices: nat, optimize: bool, level: int,
                       img: array<byte>, compressed: seq<byte>, streamOut: bool, streamIn: bool,
                       critical: S.Action, ancillary: S.Action, simd: D.Simd,
                       maxWidth: nat, maxHeight: nat, cacheLimit: nat, countLimit: nat, strict: bool)
    returns (ok: bool, out: array<byte>, r: CR.Reader)
    requires R.Admitted(h, held) && R.Consistent(h, held) && R.UnknownsOk(held.unknowns, AfterIdat)
    requires ValidChoices(choices) && compressed != [] && SizeOf(h, held, compressed) <= W.MAX_REQUIRED
    requires Accommodates(h, held, maxWidth, maxHeight, cacheLimit, countLimit)
    ensures ok <==> (h.colorType == INDEXED ==> TPlte in held.stored) && ScanlineWidth(h, h.width) <= U32_MAX && IsImage(h, img[..])
    ensures ok ==> P.SamePixels(h, out[..], img[..])
    ensures ok ==> r.state == CR.Ended && r.Inv() && r.h == h && r.src.bytesRead == |r.src.file|
    ensures ok ==> Printing.Representable(held.v) && AllBack(h, held, r.Now())
  {
    hide R.Admitted, R.Consistent, R.BeforeIdat, R.StoredUnknowns, R.UnknownsOk, MW.Expected, R.AllFit, R.Fit, IW.IdatStream, IW.Concat, IW.Bounded;
    hide CR.Costs, CR.Number, Ending, Printing.Representable, P.Encodes, P.SamePixels, AllBack, ValidIhdr, ValidChoices, ScanlineWidth;
    hide IsImage, FitsInMemory, CheckIhdr, E.UsedFilters, Accommodates, Readable, CR.Reader.Inv, RowBytes, SizeOf, Encodable, NoneWraps;
    R.AdmittedFacts(h, held);
    ConsistentIsEncodable(h, held, img[..]);
    var file, deflate;
    ghost var rows, filters, payloads;
    ok, file, deflate, rows, filters, payloads := WriteOut(h, held, raw, host, choices, optimize, level, img, compressed, streamOut);
    r := NewReader(file, streamIn, critical, ancillary, maxWidth, maxHeight, cacheLimit, countLimit, strict);
    out := new byte[img.Length](_ => 0);
    if ok {
      assert out[..] == Zeros(|img[..]|);
      IsReadable(r, h, held, payloads);
      var inflate := new IR.Inflater.OfDeflated(deflate);
      ReadFile(r, inflate, deflate.given, raw, host, simd, out, h, held, payloads,
        E.UsedFilters(h, choices, optimize, level), img[..], rows, filters);
    }
  }
}
