/**
 Moving pixels between a row of the image and a scanline of a pass: the encoder gathers
 every delta-th pixel, the decoder scatters them. Pixels of 8 bits and more are copied as
 bytes; smaller samples are shifted, masked and or-ed into place.
 */
module Interlace {
  import opened Octets
  import opened Samples
  import opened Adam7

  predicate ValidPixel(depth: nat, bpp: nat) {
    bpp > 0 && (depth < 8 ==> Packed(depth))
  }

  /** Where the bytes of a pixel start in its row. */
  function Start(bpp: nat, x: nat): nat {
    x * bpp
  }

  /** A row is long enough to hold the pixel at a column. */
  predicate HasPixel(depth: nat, bpp: nat, row: seq<byte>, x: nat)
    requires ValidPixel(depth, bpp)
  {
    if depth < 8 then HasSample(row, depth, x) else Start(bpp, x) + bpp <= |row|
  }

  /** A pixel: its one sample below 8 bits, its bytes otherwise. */
  function Pixel(depth: nat, bpp: nat, row: seq<byte>, x: nat): seq<int>
    requires ValidPixel(depth, bpp) && HasPixel(depth, bpp, row, x)
  {
    if depth < 8 then [SampleAt(row, depth, x)] else row[Start(bpp, x)..Start(bpp, x) + bpp]
  }

  ghost predicate HasPixels(depth: nat, bpp: nat, row: seq<byte>, width: nat)
    requires ValidPixel(depth, bpp)
  {
    forall x :: 0 <= x < width ==> HasPixel(depth, bpp, row, x)
  }

  /** The columns of a pass lie inside a row of the given width. */
  ghost predicate Inside(pass: nat, columns: nat, width: nat)
    requires pass < 7
  {
    forall c :: 0 <= c < columns ==> X(pass, c) < width
  }

  /** The scanline holds the pixels of the pass, taken from the row. */
  ghost predicate Gathered(depth: nat, bpp: nat, pass: nat, columns: nat, line: seq<byte>, row: seq<byte>)
    requires ValidPixel(depth, bpp) && pass < 7
  {
    forall c :: 0 <= c < columns ==>
      && HasPixel(depth, bpp, line, c) && HasPixel(depth, bpp, row, X(pass, c))
      && Pixel(depth, bpp, line, c) == Pixel(depth, bpp, row, X(pass, c))
  }

  /** What a scattered pixel becomes: small samples are or-ed into the row. */
  function Deposited(depth: nat, before: seq<int>, pixel: seq<int>): seq<int> {
    if depth < 8 && |before| == 1 && |pixel| == 1 && before[0] >= 0 && pixel[0] >= 0
    then [BitOr(before[0], pixel[0])] else pixel
  }

  /** The row after the pixels of a scanline were scattered over it: the pixels of the pass
      are deposited, all others stay. */
  ghost predicate Scattered(depth: nat, bpp: nat, pass: nat, columns: nat, width: nat, line: seq<byte>, before: seq<byte>, after: seq<byte>)
    requires ValidPixel(depth, bpp) && pass < 7
  {
    && |after| == |before|
    && HasPixels(depth, bpp, before, width) && HasPixels(depth, bpp, after, width)
    && HasPixels(depth, bpp, line, columns) && Inside(pass, columns, width)
    && (forall c :: 0 <= c < columns ==>
          Pixel(depth, bpp, after, X(pass, c))
          == Deposited(depth, Pixel(depth, bpp, before, X(pass, c)), Pixel(depth, bpp, line, c)))
    && (forall x :: 0 <= x < width && (forall c :: 0 <= c < columns ==> X(pass, c) != x) ==>
         Pixel(depth, bpp, after, x) == Pixel(depth, bpp, before, x))
  }

  lemma XGrows(pass: nat, c: nat, d: nat)
    requires pass < 7
    ensures c < d ==> X(pass, c) < X(pass, d)
    ensures c <= X(pass, c)
  {
    if pass == 0 || pass == 1 {
    } else if pass == 2 || pass == 3 {
    } else if pass == 4 || pass == 5 {
    }
  }

  /** One more column: the next pixel of the scanline is deposited at its place in the row. */
  lemma ScatterStep(depth: nat, bpp: nat, pass: nat, k: nat, width: nat, line: seq<byte>, before: seq<byte>, now: seq<byte>, next: seq<byte>)
    requires ValidPixel(depth, bpp) && pass < 7 && Scattered(depth, bpp, pass, k, width, line, before, now)
    requires X(pass, k) < width && HasPixel(depth, bpp, line, k)
    requires |next| == |now| && HasPixels(depth, bpp, next, width)
    requires forall x :: 0 <= x < width ==>
      Pixel(depth, bpp, next, x) == if x == X(pass, k) then Deposited(depth, Pixel(depth, bpp, now, x), Pixel(depth, bpp, line, k)) else Pixel(depth, bpp, now, x)
    ensures Scattered(depth, bpp, pass, k + 1, width, line, before, next)
  {
    forall c | 0 <= c < k ensures X(pass, c) != X(pass, k) {
      XGrows(pass, c, k);
    }
    hide X, Pixel, HasPixel, Deposited;
    forall c | 0 <= c < k + 1
      ensures Pixel(depth, bpp, next, X(pass, c))
           == Deposited(depth, Pixel(depth, bpp, before, X(pass, c)), Pixel(depth, bpp, line, c))
    {
      if c == k {
        assert Pixel(depth, bpp, now, X(pass, k)) == Pixel(depth, bpp, before, X(pass, k));
      }
    }
    forall x | 0 <= x < width && forall c :: 0 <= c < k + 1 ==> X(pass, c) != x
      ensures Pixel(depth, bpp, next, x) == Pixel(depth, bpp, before, x)
    {
      assert X(pass, k) != x;
    }
  }

  // --------------------------------------------------------------- samples below 8 bits

  /** The first k samples of a pass are in the scanline, the rest of it is still zero. */
  ghost predicate PackedTo(depth: nat, pass: nat, k: nat, line: seq<byte>, row: seq<byte>)
    requires Packed(depth) && depth < 8 && pass < 7
  {
    && (forall j :: 0 <= j < k ==>
          && HasSample(line, depth, j) && HasSample(row, depth, X(pass, j))
          && SampleAt(line, depth, j) == SampleAt(row, depth, X(pass, j)))
    && (forall j: nat :: k <= j && HasSample(line, depth, j) ==> SampleAt(line, depth, j) == 0)
  }

  lemma PackedStep(depth: nat, pass: nat, k: nat, line: seq<byte>, line': seq<byte>, row: seq<byte>)
    requires Packed(depth) && depth < 8 && pass < 7 && PackedTo(depth, pass, k, line, row)
    requires HasSample(line, depth, k) && HasSample(row, depth, X(pass, k))
    requires SampleSet(line, line', depth, k, SampleAt(row, depth, X(pass, k)))
    ensures PackedTo(depth, pass, k + 1, line', row)
  {
    OrZero(SampleAt(row, depth, X(pass, k)));
    assert forall j: nat :: HasSample(line', depth, j) ==> HasSample(line, depth, j);
    hide ByteOf, ShiftOf, SampleAt, X, BitOr;
  }

  lemma NothingPacked(depth: nat, pass: nat, line: seq<byte>, row: seq<byte>)
    requires Packed(depth) && depth < 8 && pass < 7 && line == Zeros(|line|)
    ensures PackedTo(depth, pass, 0, line, row)
  {
    forall j: nat | HasSample(line, depth, j)
      ensures SampleAt(line, depth, j) == 0
    {
      ZeroSamples(line, depth, j);
    }
  }

  method ClearLine(line: array<byte>, off: nat, n: nat)
    requires off + n + 1 <= line.Length
    modifies line
    ensures line[off..off + n] == Zeros(n) && line[..off] == old(line[..off])
  {
    forall i | off <= i < off + n + 1 {
      line[i] := 0;
    }
  }

  /** Gathers small samples: a zeroed scanline of n bytes receives them one by one. */
  method GatherPacked(depth: nat, pass: nat, columns: nat, line: array<byte>, off: nat, n: nat, row: array<byte>, at: nat, m: nat)
    requires Packed(depth) && depth < 8 && pass < 7 && line != row
    requires off + n + 1 <= line.Length && at + m <= row.Length
    requires forall c :: 0 <= c < columns ==> ByteOf(depth, c) < n && ByteOf(depth, X(pass, c)) < m
    modifies line
    ensures Gathered(depth, 1, pass, columns, line[off..off + n], row[at..at + m])
    ensures line[..off] == old(line[..off])
  {
    ghost var src := row[at..at + m];
    var k, q, shift := 0, 0, 8 - depth;
    assert q == ByteOf(depth, k) && shift == ShiftOf(depth, k);
    hide ByteOf, ShiftOf, SampleAt, X, BitOr, PackedTo, SampleSet, Gathered;
    ClearLine(line, off, n);
    ghost var dst := line[off..off + n];
    NothingPacked(depth, pass, dst, src);
    while k < columns
      invariant 0 <= k <= columns && q == ByteOf(depth, k) && shift == ShiftOf(depth, k)
      invariant src == row[at..at + m] && dst == line[off..off + n] && line[..off] == old(line[..off])
      invariant PackedTo(depth, pass, k, dst, src)
    {
      var sample := ReadSample(row, at, m, depth, X(pass, k));
      ghost var before := dst;
      dst := OrSample(line, off, n, depth, k, q, shift, sample, before);
      PackedStep(depth, pass, k, before, dst, src);
      var next := NextPlace(depth, q, shift, k);
      q, shift := next.0, next.1;
      k := k + 1;
    }
    PackedAll(depth, pass, columns, dst, src);
  }

  lemma PackedAll(depth: nat, pass: nat, columns: nat, line: seq<byte>, row: seq<byte>)
    requires Packed(depth) && depth < 8 && pass < 7 && PackedTo(depth, pass, columns, line, row)
    ensures Gathered(depth, 1, pass, columns, line, row)
  {
  }

  lemma SampleDeposited(depth: nat, before: seq<byte>, after: seq<byte>, k: nat, line: seq<byte>, c: nat, width: nat)
    requires Packed(depth) && depth < 8 && HasSample(before, depth, k) && HasSample(line, depth, c) && HasPixels(depth, 1, before, width)
    requires SampleSet(before, after, depth, k, SampleAt(line, depth, c))
    ensures HasPixels(depth, 1, after, width)
    ensures forall x :: 0 <= x < width ==>
      Pixel(depth, 1, after, x) == if x == k
        then Deposited(depth, Pixel(depth, 1, before, x), Pixel(depth, 1, line, c)) else Pixel(depth, 1, before, x)
  {
    hide ByteOf, ShiftOf, SampleAt, BitOr;
    forall x | 0 <= x < width
      ensures HasPixel(depth, 1, after, x)
      ensures Pixel(depth, 1, after, x) == if x == k
        then Deposited(depth, Pixel(depth, 1, before, x), Pixel(depth, 1, line, c)) else Pixel(depth, 1, before, x)
    {
      assert HasPixel(depth, 1, before, x);
    }
  }

  /** Scatters small samples: each is taken from the scanline in turn and or-ed into the row. */
  method ScatterPacked(depth: nat, pass: nat, columns: nat, width: nat, line: array<byte>, n: nat, row: array<byte>, at: nat, m: nat)
    requires Packed(depth) && depth < 8 && pass < 7 && line != row && Inside(pass, columns, width)
    requires n <= line.Length && at + m <= row.Length
    requires HasPixels(depth, 1, line[..n], columns) && HasPixels(depth, 1, row[at..at + m], width)
    modifies row
    ensures Scattered(depth, 1, pass, columns, width, line[..n], old(row[at..at + m]), row[at..at + m])
    ensures row[..at] == old(row[..at]) && row[at + m..] == old(row[at + m..])
  {
    ghost var before, src := row[at..at + m], line[0..n];
    assert src == line[..n];
    var iter := new SampleIter(depth);
    var k := 0;
    ghost var now := before;
    assert Scattered(depth, 1, pass, 0, width, src, before, now);
    hide ByteOf, ShiftOf, SampleAt, X, BitOr, Scattered, SampleSet, Pixel, Deposited;
    while k < columns
      invariant 0 <= k <= columns
      invariant iter.Valid() && iter.taken == k && iter.depth == depth && fresh(iter)
      invariant src == line[0..n] && row[..at] == old(row[..at]) && row[at + m..] == old(row[at + m..])
      invariant now == row[at..at + m] && HasPixels(depth, 1, now, width)
      invariant Scattered(depth, 1, pass, k, width, src, before, now)
    {
      assert HasPixel(depth, 1, src, k) && HasPixel(depth, 1, now, X(pass, k));
      var sample := iter.GetSample(line, 0, n);
      ghost var next := OrSampleAt(row, at, m, depth, X(pass, k), sample, now);
      SampleDeposited(depth, now, next, X(pass, k), src, k, width);
      ScatterStep(depth, 1, pass, k, width, src, before, now, next);
      now := next;
      k := k + 1;
    }
  }

  // --------------------------------------------------------------- pixels of whole bytes

  lemma {:induction false} PixelsApart(bpp: nat, x: nat, y: nat)
    requires x < y
    ensures Start(bpp, x) + bpp <= Start(bpp, y)
  {
    if x + 1 < y {
      PixelsApart(bpp, x, y - 1);
    }
    assert y * bpp == (y - 1) * bpp + bpp;
  }

  /** Two rows that differ in one stretch only have the same slices elsewhere. */
  lemma SliceElsewhere(before: seq<byte>, after: seq<byte>, lo: nat, hi: nat, b: nat, e: nat)
    requires lo <= hi <= |before| == |after| && b <= e <= |before| && (e <= lo || hi <= b)
    requires forall i :: 0 <= i < |before| && !(lo <= i < hi) ==> after[i] == before[i]
    ensures after[b..e] == before[b..e]
  {
  }

  /** One row is another with one pixel replaced. */
  ghost predicate PixelSet(depth: nat, bpp: nat, before: seq<byte>, after: seq<byte>, x: nat, px: seq<int>)
    requires depth >= 8 && bpp > 0
  {
    && |after| == |before|
    && forall y: nat :: HasPixel(depth, bpp, before, y) ==>
         && HasPixel(depth, bpp, after, y)
         && Pixel(depth, bpp, after, y) == if y == x then px else Pixel(depth, bpp, before, y)
  }

  /** Copies pixel u of one row to place x of another; no other pixel of that row changes. */
  method StorePixel(depth: nat, bpp: nat, dst: array<byte>, off: nat, n: nat, x: nat, src: array<byte>, at: nat, m: nat, u: nat,
                    ghost before: seq<byte>, ghost from: seq<byte>) returns (ghost after: seq<byte>)
    requires depth >= 8 && bpp > 0 && dst != src && off + n <= dst.Length && at + m <= src.Length
    requires before == dst[off..off + n] && from == src[at..at + m]
    requires HasPixel(depth, bpp, before, x) && HasPixel(depth, bpp, from, u)
    modifies dst
    ensures after == dst[off..off + n] && PixelSet(depth, bpp, before, after, x, Pixel(depth, bpp, from, u))
    ensures dst[..off] == old(dst[..off]) && dst[off + n..] == old(dst[off + n..])
  {
    hide Start;
    var to, start := Start(bpp, x), Start(bpp, u);
    CopyBytes(dst, off + to, src, at + start, bpp);
    after := dst[off..off + n];
    SubSlice(src[..], at, m, start, bpp, from);
    SubSlice(dst[..], off, n, to, bpp, after);
    assert forall i :: 0 <= i < n && !(to <= i < to + bpp) ==> after[i] == dst[off + i] == before[i];
    PixelStored(depth, bpp, before, after, x, Pixel(depth, bpp, from, u));
  }

  lemma SubSlice(s: seq<byte>, at: nat, n: nat, start: nat, len: nat, part: seq<byte>)
    requires at + n <= |s| && start + len <= n && part == s[at..at + n]
    ensures part[start..start + len] == s[at + start..at + start + len]
  {
    var a, b := part[start..start + len], s[at + start..at + start + len];
    assert forall i :: 0 <= i < len ==> a[i] == part[start + i] == s[at + (start + i)] == b[i];
  }

  method CopyBytes(dst: array<byte>, d: nat, src: array<byte>, s: nat, n: nat)
    requires dst != src && d + n <= dst.Length && s + n <= src.Length
    modifies dst
    ensures dst[d..d + n] == src[s..s + n]
    ensures forall i :: 0 <= i < dst.Length && !(d <= i < d + n) ==> dst[i] == old(dst[i])
  {
    forall i | 0 <= i < n {
      dst[d + i] := src[s + i];
    }
  }

  lemma PixelStored(depth: nat, bpp: nat, before: seq<byte>, after: seq<byte>, x: nat, px: seq<int>)
    requires depth >= 8 && bpp > 0 && |before| == |after| && HasPixel(depth, bpp, before, x)
    requires after[Start(bpp, x)..Start(bpp, x) + bpp] == px
    requires forall i :: 0 <= i < |before| && !(Start(bpp, x) <= i < Start(bpp, x) + bpp) ==> after[i] == before[i]
    ensures PixelSet(depth, bpp, before, after, x, px)
  {
    hide Start;
    forall y: nat | HasPixel(depth, bpp, before, y) && y != x
      ensures Pixel(depth, bpp, after, y) == Pixel(depth, bpp, before, y)
    {
      if y < x {
        PixelsApart(bpp, y, x);
      } else {
        PixelsApart(bpp, x, y);
      }
      SliceElsewhere(before, after, Start(bpp, x), Start(bpp, x) + bpp, Start(bpp, y), Start(bpp, y) + bpp);
    }
  }

  /** One more pixel of the pass is in the scanline. */
  lemma GatherStep(depth: nat, bpp: nat, pass: nat, k: nat, columns: nat, line: seq<byte>, line': seq<byte>, row: seq<byte>)
    requires depth >= 8 && bpp > 0 && pass < 7 && Gathered(depth, bpp, pass, k, line, row)
    requires HasPixels(depth, bpp, line, columns) && k < columns && HasPixel(depth, bpp, row, X(pass, k))
    requires PixelSet(depth, bpp, line, line', k, Pixel(depth, bpp, row, X(pass, k)))
    ensures HasPixels(depth, bpp, line', columns) && Gathered(depth, bpp, pass, k + 1, line', row)
  {
    hide HasPixel, Pixel, X;
    forall c | 0 <= c < columns ensures HasPixel(depth, bpp, line', c) {
      assert HasPixel(depth, bpp, line, c);
    }
    forall c | 0 <= c < k + 1
      ensures HasPixel(depth, bpp, line', c) && Pixel(depth, bpp, line', c) == Pixel(depth, bpp, row, X(pass, c))
    {
      assert HasPixel(depth, bpp, line, c);
    }
  }

  /** Gathers whole pixels. */
  method GatherWhole(depth: nat, bpp: nat, pass: nat, columns: nat, width: nat, line: array<byte>, off: nat, n: nat, row: array<byte>, at: nat, m: nat)
    requires depth >= 8 && bpp > 0 && pass < 7 && line != row && Inside(pass, columns, width)
    requires off + n <= line.Length && at + m <= row.Length
    requires HasPixels(depth, bpp, line[off..off + n], columns) && HasPixels(depth, bpp, row[at..at + m], width)
    modifies line
    ensures Gathered(depth, bpp, pass, columns, line[off..off + n], row[at..at + m])
    ensures line[..off] == old(line[..off])
  {
    ghost var src, dst := row[at..at + m], line[off..off + n];
    hide X, Pixel, HasPixel, PixelSet;
    var k := 0;
    while k < columns
      invariant 0 <= k <= columns
      invariant src == row[at..at + m] && dst == line[off..off + n] && line[..off] == old(line[..off])
      invariant HasPixels(depth, bpp, dst, columns) && HasPixels(depth, bpp, src, width)
      invariant Gathered(depth, bpp, pass, k, dst, src)
    {
      assert HasPixel(depth, bpp, dst, k) && HasPixel(depth, bpp, src, X(pass, k));
      ghost var before := dst;
      dst := StorePixel(depth, bpp, line, off, n, k, row, at, m, X(pass, k), before, src);
      GatherStep(depth, bpp, pass, k, columns, before, dst, src);
      k := k + 1;
    }
  }

  lemma PixelDeposited(depth: nat, bpp: nat, before: seq<byte>, after: seq<byte>, k: nat, line: seq<byte>, c: nat, width: nat)
    requires depth >= 8 && bpp > 0 && HasPixel(depth, bpp, line, c) && HasPixels(depth, bpp, before, width)
    requires PixelSet(depth, bpp, before, after, k, Pixel(depth, bpp, line, c))
    ensures HasPixels(depth, bpp, after, width)
    ensures forall x :: 0 <= x < width ==>
      Pixel(depth, bpp, after, x) == if x == k
        then Deposited(depth, Pixel(depth, bpp, before, x), Pixel(depth, bpp, line, c)) else Pixel(depth, bpp, before, x)
  {
    hide HasPixel, Pixel;
  }

  /** Scatters whole pixels. */
  method ScatterWhole(depth: nat, bpp: nat, pass: nat, columns: nat, width: nat, line: array<byte>, n: nat, row: array<byte>, at: nat, m: nat)
    requires depth >= 8 && bpp > 0 && pass < 7 && line != row && Inside(pass, columns, width)
    requires n <= line.Length && at + m <= row.Length
    requires HasPixels(depth, bpp, line[..n], columns) && HasPixels(depth, bpp, row[at..at + m], width)
    modifies row
    ensures Scattered(depth, bpp, pass, columns, width, line[..n], old(row[at..at + m]), row[at..at + m])
    ensures row[..at] == old(row[..at]) && row[at + m..] == old(row[at + m..])
  {
    ghost var before, src := row[at..at + m], line[0..n];
    assert src == line[..n];
    var k := 0;
    ghost var now := before;
    assert Scattered(depth, bpp, pass, 0, width, src, before, now);
    hide X, Scattered, Pixel, HasPixel, Deposited, PixelSet;
    while k < columns
      invariant 0 <= k <= columns
      invariant src == line[0..n] && row[..at] == old(row[..at]) && row[at + m..] == old(row[at + m..])
      invariant now == row[at..at + m] && HasPixels(depth, bpp, now, width)
      invariant Scattered(depth, bpp, pass, k, width, src, before, now)
    {
      assert HasPixel(depth, bpp, src, k) && HasPixel(depth, bpp, now, X(pass, k));
      ghost var next := StorePixel(depth, bpp, row, at, m, X(pass, k), line, 0, n, k, now, src);
      PixelDeposited(depth, bpp, now, next, X(pass, k), src, k, width);
      ScatterStep(depth, bpp, pass, k, width, src, before, now, next);
      now := next;
      k := k + 1;
    }
  }
}
