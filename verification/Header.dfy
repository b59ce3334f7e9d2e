/**
 The image header, the checks a decoder makes on it, and the sizes derived from it.
 */
module Header {
  import opened Octets

  const U32_MAX: int := 0xffff_ffff

  const GRAYSCALE := 0
  const TRUECOLOR := 2
  const INDEXED := 3
  const GRAYSCALE_ALPHA := 4
  const TRUECOLOR_ALPHA := 6

  datatype Ihdr = Ihdr(width: nat, height: nat, bitDepth: nat, colorType: nat,
                       compressionMethod: nat, filterMethod: nat, interlaceMethod: nat)
  {
    predicate Interlaced() {
      interlaceMethod == 1
    }
  }

  datatype IhdrStatus = IhdrOk | EWidth | EHeight | EUserWidth | EUserHeight | EBitDepth | EColorType
                      | ECompressionMethod | EFilterMethod | EInterlaceMethod

  predicate DepthFits(colorType: nat, depth: nat) {
    if colorType == GRAYSCALE then depth in {1, 2, 4, 8, 16}
    else if colorType == INDEXED then depth in {1, 2, 4, 8}
    else depth in {8, 16}
  }

  function CheckIhdr(h: Ihdr, maxWidth: nat, maxHeight: nat): IhdrStatus {
    if h.width > PNG_MAX || h.width == 0 then EWidth
    else if h.height > PNG_MAX || h.height == 0 then EHeight
    else if h.width > maxWidth then EUserWidth
    else if h.height > maxHeight then EUserHeight
    else if h.colorType !in {GRAYSCALE, TRUECOLOR, INDEXED, GRAYSCALE_ALPHA, TRUECOLOR_ALPHA} then EColorType
    else if !DepthFits(h.colorType, h.bitDepth) then EBitDepth
    else if h.compressionMethod != 0 then ECompressionMethod
    else if h.filterMethod != 0 then EFilterMethod
    else if h.interlaceMethod > 1 then EInterlaceMethod
    else IhdrOk
  }

  predicate ValidIhdr(h: Ihdr) {
    CheckIhdr(h, PNG_MAX, PNG_MAX) == IhdrOk
  }

  function Channels(colorType: nat): nat {
    if colorType == TRUECOLOR then 3
    else if colorType == GRAYSCALE_ALPHA then 2
    else if colorType == TRUECOLOR_ALPHA then 4
    else if colorType == GRAYSCALE || colorType == INDEXED then 1
    else 0
  }

  function PixelBits(h: Ihdr): nat {
    Channels(h.colorType) * h.bitDepth
  }

  /** The distance in bytes between a sample and its left neighbour, at least 1. */
  function BytesPerPixel(h: Ihdr): nat {
    if h.bitDepth < 8 then 1 else Channels(h.colorType) * (h.bitDepth / 8)
  }

  /** The width in bytes of a scanline of so many pixels, with its filter byte. */
  function ScanlineWidth(h: Ihdr, width: nat): nat {
    (PixelBits(h) * width + 15) / 8
  }

  /** The same without the filter byte. */
  function RowBytes(h: Ihdr, width: nat): nat {
    (PixelBits(h) * width + 7) / 8
  }

  /** The pixel sizes that occur. */
  lemma PixelSizes(h: Ihdr)
    requires ValidIhdr(h)
    ensures h.bitDepth < 8 ==> h.bitDepth in {1, 2, 4} && PixelBits(h) == h.bitDepth && BytesPerPixel(h) == 1
    ensures h.bitDepth >= 8 ==> PixelBits(h) == 8 * BytesPerPixel(h)
    ensures BytesPerPixel(h) in {1, 2, 3, 4, 6, 8}
    ensures h.bitDepth == 16 ==> BytesPerPixel(h) in {2, 4, 6, 8}
  {
  }

  /** From 8 bits on, a row is a whole number of pixels; below, it is rounded up to a byte. */
  lemma RowBytesIs(h: Ihdr, width: nat)
    requires ValidIhdr(h)
    ensures ScanlineWidth(h, width) == RowBytes(h, width) + 1
    ensures h.bitDepth >= 8 ==> RowBytes(h, width) == BytesPerPixel(h) * width
    ensures h.bitDepth < 8 ==> RowBytes(h, width) == (h.bitDepth * width + 7) / 8
    ensures width > 0 ==> RowBytes(h, width) > 0
  {
    PixelSizes(h);
    hide PixelBits, BytesPerPixel, ValidIhdr;
    var bits, bytes := PixelBits(h), BytesPerPixel(h);
    if h.bitDepth >= 8 {
      EightTimes(bytes, width);
      assert bits * width == (8 * bytes) * width;
    }
    if width > 0 {
      AtLeastOnce(bits, width);
    }
  }

  lemma EightTimes(a: nat, b: nat)
    ensures (8 * a) * b == 8 * (a * b)
  {
  }

  lemma AtLeastOnce(a: nat, b: nat)
    requires a > 0 && b > 0
    ensures a * b > 0
  {
  }

  lemma TimesMonotone(a: nat, b: nat, c: nat)
    requires b <= c
    ensures a * b <= a * c
  {
  }

  lemma RowBytesMonotone(h: Ihdr, narrow: nat, wide: nat)
    requires narrow <= wide
    ensures RowBytes(h, narrow) <= RowBytes(h, wide)
  {
    TimesMonotone(PixelBits(h), narrow, wide);
  }
}
