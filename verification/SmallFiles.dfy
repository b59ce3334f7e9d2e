/**
 Files byte by byte, as the PNG specification has them: one that is read to its image data, one
 in which a chunk stands in the wrong place, and one with a chunk that is not what its name says.
 */
module SmallFiles {
  import opened Octets
  import opened Chunks
  import opened Header
  import opened Metadata
  import opened Scanlines
  import opened LongChunks
  import FF = FileFormat
  import F = FileRoundTrip
  import MW = MetadataWriter
  import R = MetadataRoundTrip
  import CR = ChunkReader
  import S = ChunkSource

  // ---- The bytes ----

  const SIGNATURE_BYTES: seq<byte> := [137, 80, 78, 71, 13, 10, 26, 10]
  /** One pixel of three samples of 8 bits. */
  const HEADER_BYTES: seq<byte> := [0, 0, 0, 13, 73, 72, 68, 82, 0, 0, 0, 1, 0, 0, 0, 1, 8, 2, 0, 0, 0, 144, 119, 83, 222]
  /** A gamma of 1/2.2. */
  const GAMMA_BYTES: seq<byte> := [0, 0, 0, 4, 103, 65, 77, 65, 0, 0, 177, 143, 11, 252, 97, 5]
  /** A palette of one color. */
  const PALETTE_BYTES: seq<byte> := [0, 0, 0, 3, 80, 76, 84, 69, 255, 0, 0, 25, 226, 9, 55]
  /** Four bytes that are no exif data. */
  const EXIF_BYTES: seq<byte> := [0, 0, 0, 4, 101, 88, 73, 102, 1, 2, 3, 4, 68, 78, 43, 254]
  /** The first bytes of image data. */
  const IMAGE_BYTES: seq<byte> := [0, 0, 0, 0, 73, 68, 65, 84]

  // ---- Their CRCs ----

  lemma FoldFour(c: word, s: seq<byte>, c1: word, c2: word, c3: word, last: word)
    requires |s| == 4 && CrcByte(c, s[0]) == c1 && CrcByte(c1, s[1]) == c2 && CrcByte(c2, s[2]) == c3 && CrcByte(c3, s[3]) == last
    ensures CrcFold(c, s) == last
  {
    hide CrcByte;
    assert s[1..][0] == s[1] && s[1..][1..] == s[2..] && s[2..][0] == s[2] && s[2..][1..] == s[3..] && s[3..][0] == s[3];
    assert s[3..][1..] == [];
    assert CrcFold(c3, s[3..]) == last;
    assert CrcFold(c2, s[2..]) == last;
    assert CrcFold(c1, s[1..]) == last;
  }

  lemma FoldOne(c: word, b: byte, last: word)
    requires CrcByte(c, b) == last
    ensures CrcFold(c, [b]) == last
  {
    hide CrcByte;
    assert [b][1..] == [];
  }

  lemma HeaderSteps0()
    ensures CrcByte(0xffffffff, 73) == 0x22fde946 && CrcByte(0x22fde946, 72) == 0xe79ad0ee
    ensures CrcByte(0xe79ad0ee, 68) == 0x36e4d026 && CrcByte(0x36e4d026, 82) == 0x575e51f5
  {
  }

  lemma HeaderSteps1()
    ensures CrcByte(0x575e51f5, 0) == 0xcd8058c2 && CrcByte(0xcd8058c2, 0) == 0x75a723c4
    ensures CrcByte(0x75a723c4, 0) == 0x9c7ca18a && CrcByte(0x9c7ca18a, 1) == 0x7af62609
  {
  }

  lemma HeaderSteps2()
    ensures CrcByte(0x7af62609, 0) == 0x79a64e82 && CrcByte(0x79a64e82, 0) == 0x03cf4442
    ensures CrcByte(0x03cf4442, 0) == 0x98d1eff8 && CrcByte(0x98d1eff8, 1) == 0xc4f99b57
  {
  }

  lemma HeaderSteps3()
    ensures CrcByte(0xc4f99b57, 8) == 0xfb10b5fe && CrcByte(0xfb10b5fe, 2) == 0xb4f0ae82
    ensures CrcByte(0xb4f0ae82, 0) == 0x030212a2 && CrcByte(0x030212a2, 0) == 0x38dbc0d6
    ensures CrcByte(0x38dbc0d6, 0) == 0x6f88ac21
  {
  }

  lemma HeaderCrc()
    ensures Crc(0, [73, 72, 68, 82, 0, 0, 0, 1, 0, 0, 0, 1, 8, 2, 0, 0, 0]) == 0x907753de
  {
    hide CrcByte, CrcFold;
    HeaderSteps0();
    FoldFour(0xffffffff, [73, 72, 68, 82], 0x22fde946, 0xe79ad0ee, 0x36e4d026, 0x575e51f5);
    HeaderSteps1();
    FoldFour(0x575e51f5, [0, 0, 0, 1], 0xcd8058c2, 0x75a723c4, 0x9c7ca18a, 0x7af62609);
    HeaderSteps2();
    FoldFour(0x7af62609, [0, 0, 0, 1], 0x79a64e82, 0x03cf4442, 0x98d1eff8, 0xc4f99b57);
    HeaderSteps3();
    FoldFour(0xc4f99b57, [8, 2, 0, 0], 0xfb10b5fe, 0xb4f0ae82, 0x030212a2, 0x38dbc0d6);
    FoldAppend(0xffffffff, [73, 72, 68, 82], [0, 0, 0, 1]);
    assert [73, 72, 68, 82] + [0, 0, 0, 1] == [73, 72, 68, 82, 0, 0, 0, 1];
    FoldAppend(0xffffffff, [73, 72, 68, 82, 0, 0, 0, 1], [0, 0, 0, 1]);
    assert [73, 72, 68, 82, 0, 0, 0, 1] + [0, 0, 0, 1] == [73, 72, 68, 82, 0, 0, 0, 1, 0, 0, 0, 1];
    FoldAppend(0xffffffff, [73, 72, 68, 82, 0, 0, 0, 1, 0, 0, 0, 1], [8, 2, 0, 0]);
    assert [73, 72, 68, 82, 0, 0, 0, 1, 0, 0, 0, 1] + [8, 2, 0, 0] == [73, 72, 68, 82, 0, 0, 0, 1, 0, 0, 0, 1, 8, 2, 0, 0];
    FoldOne(0x38dbc0d6, 0, 0x6f88ac21);
    FoldAppend(0xffffffff, [73, 72, 68, 82, 0, 0, 0, 1, 0, 0, 0, 1, 8, 2, 0, 0], [0]);
    assert [73, 72, 68, 82, 0, 0, 0, 1, 0, 0, 0, 1, 8, 2, 0, 0] + [0] == [73, 72, 68, 82, 0, 0, 0, 1, 0, 0, 0, 1, 8, 2, 0, 0, 0];
  }

  lemma GammaSteps0()
    ensures CrcByte(0xffffffff, 103) == 0xfe2be489 && CrcByte(0xfe2be489, 65) == 0x95416166
    ensures CrcByte(0x95416166, 77) == 0xac29b821 && CrcByte(0xac29b821, 65) == 0x4d1e48e0
  {
  }

  lemma GammaSteps1()
    ensures CrcByte(0x4d1e48e0, 0) == 0xa047fc30 && CrcByte(0xa047fc30, 0) == 0x26797750
    ensures CrcByte(0x26797750, 177) == 0xd72bab99 && CrcByte(0xd72bab99, 143) == 0xf4039efa
  {
  }

  lemma GammaCrc()
    ensures Crc(0, [103, 65, 77, 65, 0, 0, 177, 143]) == 0x0bfc6105
  {
    hide CrcByte, CrcFold;
    GammaSteps0();
    FoldFour(0xffffffff, [103, 65, 77, 65], 0xfe2be489, 0x95416166, 0xac29b821, 0x4d1e48e0);
    GammaSteps1();
    FoldFour(0x4d1e48e0, [0, 0, 177, 143], 0xa047fc30, 0x26797750, 0xd72bab99, 0xf4039efa);
    FoldAppend(0xffffffff, [103, 65, 77, 65], [0, 0, 177, 143]);
    assert [103, 65, 77, 65] + [0, 0, 177, 143] == [103, 65, 77, 65, 0, 0, 177, 143];
  }

  lemma PaletteSteps0()
    ensures CrcByte(0xffffffff, 80) == 0x46964186 && CrcByte(0x46964186, 76) == 0x7bf7bdef
    ensures CrcByte(0x7bf7bdef, 84) == 0x5cc89db9 && CrcByte(0x5cc89db9, 69) == 0xb45776aa
  {
  }

  lemma PaletteSteps1()
    ensures CrcByte(0xb45776aa, 255) == 0x1bb5f20d && CrcByte(0x1bb5f20d, 0) == 0x7eaac94f
    ensures CrcByte(0x7eaac94f, 0) == 0xe61df6c8
  {
  }

  lemma PaletteCrc()
    ensures Crc(0, [80, 76, 84, 69, 255, 0, 0]) == 0x19e20937
  {
    hide CrcByte, CrcFold;
    PaletteSteps0();
    FoldFour(0xffffffff, [80, 76, 84, 69], 0x46964186, 0x7bf7bdef, 0x5cc89db9, 0xb45776aa);
    PaletteSteps1();
    FoldOne(0xb45776aa, 255, 0x1bb5f20d);
    FoldOne(0x1bb5f20d, 0, 0x7eaac94f);
    FoldOne(0x7eaac94f, 0, 0xe61df6c8);
    FoldAppend(0xffffffff, [80, 76, 84, 69], [255]);
    assert [80, 76, 84, 69] + [255] == [80, 76, 84, 69, 255];
    FoldAppend(0xffffffff, [80, 76, 84, 69, 255], [0]);
    assert [80, 76, 84, 69, 255] + [0] == [80, 76, 84, 69, 255, 0];
    FoldAppend(0xffffffff, [80, 76, 84, 69, 255, 0], [0]);
    assert [80, 76, 84, 69, 255, 0] + [0] == [80, 76, 84, 69, 255, 0, 0];
  }

  lemma ExifSteps0()
    ensures CrcByte(0xffffffff, 101) == 0x102585a5 && CrcByte(0x102585a5, 88) == 0xc31cab24
    ensures CrcByte(0xc31cab24, 73) == 0x33c0014e && CrcByte(0x33c0014e, 102) == 0x358668fb
  {
  }

  lemma ExifSteps1()
    ensures CrcByte(0x358668fb, 1) == 0x5d5d9d6a && CrcByte(0x5d5d9d6a, 2) == 0x4334b4f7
    ensures CrcByte(0x4334b4f7, 3) == 0xba9302b1 && CrcByte(0xba9302b1, 4) == 0xbbb1d401
  {
  }

  lemma ExifCrc()
    ensures Crc(0, [101, 88, 73, 102, 1, 2, 3, 4]) == 0x444e2bfe
  {
    hide CrcByte, CrcFold;
    ExifSteps0();
    FoldFour(0xffffffff, [101, 88, 73, 102], 0x102585a5, 0xc31cab24, 0x33c0014e, 0x358668fb);
    ExifSteps1();
    FoldFour(0x358668fb, [1, 2, 3, 4], 0x5d5d9d6a, 0x4334b4f7, 0xba9302b1, 0xbbb1d401);
    FoldAppend(0xffffffff, [101, 88, 73, 102], [1, 2, 3, 4]);
    assert [101, 88, 73, 102] + [1, 2, 3, 4] == [101, 88, 73, 102, 1, 2, 3, 4];
  }

  // ---- The chunks they are ----

  const HEADER := Ihdr(1, 1, 8, TRUECOLOR, 0, 0, 0)
  const GAMMA := Chunk(GAMA, [0, 0, 177, 143])
  const PALETTE := Chunk(PLTE, [255, 0, 0])
  const NO_EXIF := Chunk(EXIF, [1, 2, 3, 4])

  lemma HeaderIsChunk()
    ensures ValidIhdr(HEADER) && CheckIhdr(HEADER, 1, 1) == IhdrOk && |MW.PrintIhdr(HEADER)| == 13
    ensures SIGNATURE + Bytes(Chunk(IHDR, MW.PrintIhdr(HEADER))) == SIGNATURE_BYTES + HEADER_BYTES
  {
    HeaderCrc();
    hide Crc;
    assert MW.PrintIhdr(HEADER) == [0, 0, 0, 1, 0, 0, 0, 1, 8, 2, 0, 0, 0];
    assert IHDR + MW.PrintIhdr(HEADER) == [73, 72, 68, 82, 0, 0, 0, 1, 0, 0, 0, 1, 8, 2, 0, 0, 0];
  }

  lemma GammaIsChunk()
    ensures GAMMA.Valid() && Bytes(GAMMA) == GAMMA_BYTES && TypeOf(GAMMA.kind) == TGama
  {
    GammaCrc();
    hide Crc, TypeOf;
    assert GAMA + GAMMA.data == [103, 65, 77, 65, 0, 0, 177, 143];
    R.KindOfBack(TGama);
  }

  lemma PaletteIsChunk()
    ensures PALETTE.Valid() && Bytes(PALETTE) == PALETTE_BYTES && TypeOf(PALETTE.kind) == TPlte
  {
    PaletteCrc();
    hide Crc, TypeOf;
    assert PLTE + PALETTE.data == [80, 76, 84, 69, 255, 0, 0];
    R.KindOfBack(TPlte);
  }

  lemma ExifIsChunk()
    ensures NO_EXIF.Valid() && Bytes(NO_EXIF) == EXIF_BYTES && TypeOf(NO_EXIF.kind) == TExif && !ExifOk(NO_EXIF.data)
  {
    ExifCrc();
    hide Crc, TypeOf;
    assert EXIF + NO_EXIF.data == [101, 88, 73, 102, 1, 2, 3, 4];
    R.ExifType();
    assert NO_EXIF.data[..4][0] == 1;
  }

  lemma ImageComes()
    ensures CR.IdatNext(IMAGE_BYTES)
  {
    assert IMAGE_BYTES[4..8] == IDAT;
  }

  lemma ItFits()
    ensures FitsInMemory(HEADER)
  {
    assert ScanlineWidth(HEADER, 1) <= U32_MAX;
  }

  /** The header has been read, and its CRC is right. */
  lemma HeaderDone(r: CR.Reader, file: seq<byte>, rest: seq<byte>)
    requires file == SIGNATURE_BYTES + HEADER_BYTES + rest && r.src.file == file && r.HeaderRead()
    ensures r.h == HEADER && r.src.InChunk() && r.src.left == 0 && r.src.Intact() && r.src.bytesRead == 29
    ensures |file| >= 33 && file[33..] == rest
  {
    HeaderIsChunk();
    hide Bytes, ReadU32, Crc, CR.IhdrOf, MW.PrintIhdr;
    F.HeaderFirst(file, HEADER, rest);
    assert r.src.kind + file[16..29] == IHDR + MW.PrintIhdr(HEADER);
  }

  /** What the two chunks come to. */
  const WITH_GAMMA := R.NOTHING.(m := Meta({TGama}, {TGama}, NO_VALUES.(gama := 45455)))
  const WITH_PALETTE := R.NOTHING.(m := Meta({TPlte}, {TPlte}, NO_VALUES.(plteCount := 1, plte := [Rgb(255, 0, 0)])))

  lemma GammaAccepted()
    ensures ValidIhdr(HEADER) && R.Accept(HEADER, false, R.NOTHING, GAMMA) == R.Accepted(WITH_GAMMA)
  {
    GammaIsChunk();
    hide TypeOf;
    assert GAMMA.data[..4] == GAMMA.data;
  }

  lemma PaletteAccepted()
    ensures ValidIhdr(HEADER) && R.Accept(HEADER, false, R.NOTHING, PALETTE) == R.Accepted(WITH_PALETTE)
  {
    PaletteIsChunk();
    hide TypeOf, Pow2;
    assert PALETTE.data[..3] == PALETTE.data;
    assert ReadPlte(PALETTE.data, 1) == [Rgb(255, 0, 0)];
  }

  // ---- Reading them ----

  /** A file that starts with this header, read that far. */
  ghost predicate Opened(r: CR.Reader, rest: seq<byte>)
    reads r, r.src
  {
    && r.state == CR.GotIhdr && r.Inv() && r.h == HEADER && r.Now() == R.NOTHING && r.usage == 0 && r.count == 0
    && r.keepUnknown && !r.strict && r.cacheLimit == 1000 && r.countLimit == 10
    && r.src.Intact() && r.src.bytesRead + 4 <= |r.src.file| && r.src.file[r.src.bytesRead + 4..] == rest
  }

  method Open(rest: seq<byte>, streaming: bool, critical: S.Action, ancillary: S.Action) returns (r: CR.Reader)
    ensures fresh(r) && fresh(r.src) && r.src.file == SIGNATURE_BYTES + HEADER_BYTES + rest && Opened(r, rest)
  {
    hide Bytes, ReadU32, Crc, CR.IhdrOf, CheckIhdr, FitsInMemory, ValidIhdr, MW.PrintIhdr, CR.Reader.GoesWrong, CR.Reader.Promised, CR.Reader.Kept, S.Source.InChunk;
    HeaderIsChunk();
    ItFits();
    var file := SIGNATURE_BYTES + HEADER_BYTES + rest;
    F.HeaderFirst(file, HEADER, rest);
    var src := new S.Source(streaming, file, critical, ancillary);
    r := new CR.Reader(src, 1, 1, 1000, 10, true, false);
    var f := r.ReadChunks(true, [], []);
    HeaderDone(r, file, rest);
  }

  lemma OneComes(r: CR.Reader, c: Chunk, kept: R.Kept, tail: seq<byte>)
    requires c.Valid() && |c.data| <= 4 && Opened(r, Bytes(c) + tail) && c.kind != IDAT
    requires ValidIhdr(HEADER) && R.Accept(HEADER, false, R.NOTHING, c) == R.Accepted(kept) && kept.m.v.plteCount <= 256
    ensures R.Kinds([c]) && ValidIhdr(r.h) && r.m.v.plteCount <= 256
    ensures r.Coming([c], tail) && r.Goal([c]) == R.Accepted(kept)
  {
    hide R.Accept, Bytes, Crc, S.Source.Intact, ValidIhdr;
    assert [c][1..] == [] && Stream([c]) == Bytes(c) + Stream([c][1..]);
    assert Stream([c]) + tail == Bytes(c) + tail;
    CR.ReadOnIsReadAll(HEADER, false, r.prevWasIdat, R.NOTHING, [c]);
    R.OneAccepted(HEADER, false, R.NOTHING, c, kept);
    CR.CostsStep([c]);
    hide CR.Costs, CR.Number, Stream, R.ReadAll, CR.ReadOn;
    CR.NoCosts();
  }

  lemma GammaPromised(r: CR.Reader)
    requires Opened(r, GAMMA_BYTES + IMAGE_BYTES)
    ensures R.Kinds([GAMMA]) && ValidIhdr(r.h) && r.m.v.plteCount <= 256
    ensures r.Promised([GAMMA], IMAGE_BYTES) && r.Goal([GAMMA]) == R.Accepted(WITH_GAMMA)
  {
    GammaIsChunk();
    ImageComes();
    GammaAccepted();
    hide R.Accept, Bytes, TypeOf, CR.IdatNext, CR.Reader.ComingIf;
    OneComes(r, GAMMA, WITH_GAMMA, IMAGE_BYTES);
  }

  /** Signature, header, gamma and image data: the size, the color type and the gamma are read from them. */
  method ReadGamma(streaming: bool, critical: S.Action, ancillary: S.Action) returns (r: CR.Reader)
    ensures r.src.file == SIGNATURE_BYTES + HEADER_BYTES + (GAMMA_BYTES + IMAGE_BYTES)
    ensures r.state == CR.FirstIdat && r.h == Ihdr(1, 1, 8, 2, 0, 0, 0)
    ensures r.m.stored == {TGama} && r.m.v.gama == 45455
  {
    hide CR.Reader.Promised, CR.Reader.Goal, CR.Reader.AtTail, CR.Reader.Inv, CR.Reader.Kept, S.Source.Intact;
    r := Open(GAMMA_BYTES + IMAGE_BYTES, streaming, critical, ancillary);
    GammaPromised(r);
    var f := r.ReadChunks(false, [GAMMA], IMAGE_BYTES);
  }

  lemma ThenMisplaced(r: CR.Reader, chunks: seq<Chunk>, tail: seq<byte>, kept: R.Kept, c: Chunk)
    requires r.Coming(chunks, tail) && CR.Whole(tail) && CR.HeadOf(tail) == c && Small(TypeOf(c.kind))
    requires ValidIhdr(r.h) && r.m.v.plteCount <= 256 && R.Kinds(chunks) && r.Goal(chunks) == R.Accepted(kept)
    requires CR.ErrorIn(r.h, r.state == CR.Trailing, kept, c) != NoError
    ensures r.GoesWrong(chunks, tail)
  {
    hide CR.Reader.Coming, CR.Whole, CR.HeadOf, CR.ErrorIn, CR.Reader.Goal, ValidIhdr, TypeOf, CR.Costs, CR.Number;
  }

  lemma PaletteThenWrong(r: CR.Reader, tail: seq<byte>)
    requires tail == GAMMA_BYTES + IMAGE_BYTES && Opened(r, PALETTE_BYTES + tail)
    ensures R.Kinds([PALETTE]) && ValidIhdr(r.h) && r.m.v.plteCount <= 256
    ensures CR.Whole(tail) && CR.HeadOf(tail) == GAMMA && CR.RestOf(tail) == IMAGE_BYTES
    ensures r.GoesWrong([PALETTE], tail) && r.Goal([PALETTE]) == R.Accepted(WITH_PALETTE)
    ensures CR.MisplacedIn(false, WITH_PALETTE, GAMMA)
  {
    hide R.Accept, Bytes, TypeOf, CR.Whole, CR.HeadOf, CR.RestOf, CR.ErrorIn, CR.Reader.Coming, CR.Reader.Goal, CR.Reader.GoesWrong, CR.MisplacedIn, ValidIhdr, Opened;
    PaletteIsChunk();
    GammaIsChunk();
    PaletteAccepted();
    CR.ChunkIsWhole(GAMMA, IMAGE_BYTES);
    OneComes(r, PALETTE, WITH_PALETTE, tail);
    GammaIsMisplaced();
    IsOpened(r, PALETTE_BYTES + tail);
    ThenMisplaced(r, [PALETTE], tail, WITH_PALETTE, GAMMA);
  }

  lemma IsOpened(r: CR.Reader, rest: seq<byte>)
    requires Opened(r, rest)
    ensures r.h == HEADER && r.state == CR.GotIhdr
  {
  }

  lemma GammaIsMisplaced()
    ensures CR.MisplacedIn(false, WITH_PALETTE, GAMMA) && CR.ErrorIn(HEADER, false, WITH_PALETTE, GAMMA) == EChunkPos
  {
    GammaIsChunk();
    hide TypeOf, FF.DataError;
  }

  lemma ImagePromised(r: CR.Reader)
    requires r.state == CR.GotIhdr && r.h == HEADER && r.Coming([], IMAGE_BYTES)
    ensures ValidIhdr(r.h) && r.m.v.plteCount <= 256 && r.Promised([], IMAGE_BYTES) && r.Goal([]) == R.Accepted(r.Now())
  {
    ImageComes();
    hide CR.IdatNext, CR.Reader.ComingIf, ValidIhdr;
    r.ComingFacts([], IMAGE_BYTES);
  }

  /** Signature, header, palette, gamma and image data: a gamma behind the palette is not taken, and everything else is. */
  method ReadMisplaced(streaming: bool, critical: S.Action, ancillary: S.Action) returns (r: CR.Reader)
    ensures r.src.file == SIGNATURE_BYTES + HEADER_BYTES + (PALETTE_BYTES + (GAMMA_BYTES + IMAGE_BYTES))
    ensures r.state == CR.FirstIdat && r.h == Ihdr(1, 1, 8, 2, 0, 0, 0)
    ensures r.m.stored == {TPlte} && r.m.v.plte == [Rgb(255, 0, 0)] && r.m.v.gama == 0
  {
    hide CR.Reader.Promised, CR.Reader.Coming, CR.Reader.Goal, CR.Reader.GoesWrong, CR.Reader.AtTail, CR.Reader.Inv, CR.Reader.Kept, S.Source.Intact;
    hide CR.Whole, CR.HeadOf, CR.RestOf, CR.ErrorIn, CR.MisplacedIn;
    r := Open(PALETTE_BYTES + (GAMMA_BYTES + IMAGE_BYTES), streaming, critical, ancillary);
    PaletteThenWrong(r, GAMMA_BYTES + IMAGE_BYTES);
    GammaIsChunk();
    var f := r.ReadRound([PALETTE], GAMMA_BYTES + IMAGE_BYTES);
    ImagePromised(r);
    f := r.ReadChunks(false, [], IMAGE_BYTES);
  }

  /** Signature, header and such exif data: they are passed over, and their four bytes stay in the cache usage. */
  method DroppedExif(streaming: bool, critical: S.Action, ancillary: S.Action) returns (r: CR.Reader)
    ensures r.src.file == SIGNATURE_BYTES + HEADER_BYTES + EXIF_BYTES
    ensures r.state == CR.GotIhdr && r.m.stored == {} && r.splts == [] && r.unknowns == [] && r.usage == 4
  {
    hide Bytes, CR.Reader.GoesWrong, CR.Reader.Promised, CR.Reader.Coming, CR.Reader.Kept, CR.Whole, CR.HeadOf, CR.RestOf, ExifOk, CR.ErrorIn, TypeOf, CR.Reader.Goal, Opened;
    ExifIsChunk();
    r := Open(EXIF_BYTES, streaming, critical, ancillary);
    ExifComesNext(r);
    IsOpened(r, EXIF_BYTES);
    var f := r.ReadRound([], EXIF_BYTES);
  }

  lemma ExifComesNext(r: CR.Reader)
    requires Opened(r, EXIF_BYTES)
    ensures CR.Whole(EXIF_BYTES) && CR.HeadOf(EXIF_BYTES) == NO_EXIF && r.GoesWrong([], EXIF_BYTES)
    ensures ValidIhdr(r.h) && r.m.v.plteCount <= 256 && r.Goal([]) == R.Accepted(R.NOTHING) && CR.Costs([]) == 0
    ensures !r.strict && r.usage == 0 && r.Inv()
  {
    ExifIsChunk();
    hide Bytes, CR.Reader.GoesWrong, CR.Whole, CR.HeadOf, CR.RestOf, ExifOk, TypeOf, S.Source.Intact, ValidIhdr;
    assert Bytes(NO_EXIF) + [] == EXIF_BYTES;
    r.ThenWrong(NO_EXIF, []);
    r.NothingComing(EXIF_BYTES);
    CR.NoCosts();
  }
}
