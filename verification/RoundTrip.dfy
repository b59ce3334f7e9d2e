/**
 The encoder and the decoder together: decoding what the encoder emits gives back the image.
 */
module RoundTrip {
  import opened Octets
  import opened FilterChoice
  import opened ByteOrder
  import opened Header
  import opened Scanlines
  import opened ImageStream
  import opened ImageGeometry
  import opened Encoder
  import opened ImageEncoder
  import opened Decoder
  import opened ImageDecoder
  import opened WireFormat

  /** The stream is the code of the rows of the image, each with the best of the filters in use. */
  ghost predicate Encodes(h: Ihdr, raw: bool, host: Endian, used: nat, img: seq<byte>, stream: seq<byte>,
                          rows: seq<seq<byte>>, filters: seq<nat>)
    requires ValidIhdr(h)
  {
    && LayoutOf(h).Valid() && PixelsAreValid(h) && |rows| == Total(h) && IsImage(h, img)
    && AllBest(LayoutOf(h), used, rows, filters) && ValidFilters(filters)
    && stream == Code(LayoutOf(h), rows, filters) && Pictures(h, raw, host, rows, img)
  }

  lemma StreamLength(h: Ihdr, raw: bool, host: Endian, used: nat, img: seq<byte>, stream: seq<byte>,
                     rows: seq<seq<byte>>, filters: seq<nat>)
    requires ValidIhdr(h) && Encodes(h, raw, host, used, img, stream, rows, filters)
    ensures |LayoutOf(h).lines| == Total(h) && |stream| == Offset(LayoutOf(h), Total(h))
  {
  }

  /** In numbers: the filter bytes say how the rows stand in the stream, and the rows have the samples of the image. */
  lemma EncodesInNumbers(h: Ihdr, raw: bool, host: Endian, used: nat, img: seq<byte>, stream: seq<byte>,
                         rows: seq<seq<byte>>, filters: seq<nat>)
    requires ValidIhdr(h) && Encodes(h, raw, host, used, img, stream, rows, filters)
    ensures StreamLaw(h, stream, rows) && SameSamples(h, raw, host, rows, img)
  {
    hide ValidIhdr, LayoutOf, Pictures, Code, AllBest, PixelsAreValid, ValidFilters, Layout.Valid, IsImage, StreamLaw, SameSamples;
    EncodedInNumbers(h, raw, host, used, rows, filters, stream, img);
  }

  ghost predicate SamePixels(h: Ihdr, a: seq<byte>, b: seq<byte>) {
    && ValidIhdr(h) && PixelsAreValid(h) && IsImage(h, a) && IsImage(h, b)
    && forall x, y :: 0 <= x < h.width && 0 <= y < h.height ==> PixelAt(h, a, x, y) == PixelAt(h, b, x, y)
  }

  /** Such a stream, decoded into a zeroed buffer, gives back every pixel. */
  method DecodeEncoded(h: Ihdr, raw: bool, host: Endian, simd: Simd, stream: seq<byte>, out: array<byte>,
                       ghost used: nat, ghost img: seq<byte>, ghost rows: seq<seq<byte>>, ghost filters: seq<nat>)
    requires ValidIhdr(h) && Encodes(h, raw, host, used, img, stream, rows, filters)
    requires ScanlineWidth(h, h.width) <= U32_MAX && out[..] == Zeros(|img|)
    modifies out
    ensures SamePixels(h, out[..], img)
  {
    hide ValidIhdr, PaintedTo, LayoutOf, Uncode, LinesOf, PixelAt, Pictures, Code, AllBest, PixelsAreValid, WellSized;
    hide ValidFilters, Layout.Valid;
    ghost var l, zero := LayoutOf(h), out[..];
    AllBestMeansSized(l, used, rows, filters);
    UncodeOfCode(l, rows, filters, stream);
    var decoded;
    ghost var back;
    decoded, back := DecodeImage(h, raw, host, simd, stream, out);
    assert zero[..out.Length] == zero && out[..][..out.Length] == out[..];
    PicturesComeBack(h, raw, host, rows, LinesOf(h, raw, host, rows), img, zero, out[..]);
  }

  /** Encode an image, whatever its header, its pixels and the enabled filters, and decode the
      stream in the same format into a zeroed buffer, with any of the defilter loops: every
      pixel comes back. It fails only for palette indices without a palette, rows that need
      more than 32 bits to count, and image buffers of the wrong size. */
  method EncodeThenDecode(h: Ihdr, hasPlte: bool, raw: bool, host: Endian, choices: nat, optimize: bool, level: int,
                          simd: Simd, img: array<byte>) returns (ok: bool, out: array<byte>)
    requires ValidIhdr(h) && ValidChoices(choices)
    ensures ok <==> (h.colorType == INDEXED ==> hasPlte) && ScanlineWidth(h, h.width) <= U32_MAX && IsImage(h, img[..])
    ensures ok ==> SamePixels(h, out[..], img[..])
  {
    hide ValidIhdr, ValidChoices, LayoutOf, Pictures, Code, AllBest, PixelsAreValid, ValidFilters, Layout.Valid, UsedFilters, SamePixels;
    var encoded, stream;
    ghost var rows, filters;
    encoded, stream, rows, filters := EncodeImage(h, hasPlte, raw, host, choices, optimize, level, img);
    out := new byte[h.height * RowBytes(h, h.width)](_ => 0);
    if encoded != Encoded {
      return false, out;
    }
    assert out[..] == Zeros(img.Length);
    DecodeEncoded(h, raw, host, simd, stream, out, UsedFilters(h, choices, optimize, level), img[..], rows, filters);
    ok := true;
  }
}
