/**
 The layout of a PNG datastream: a signature, then chunks of a length, a type, data and a
 CRC (sections 5.2 to 5.4 of the PNG specification).
 */
module Chunks {
  import opened Octets

  type word = x: int | 0 <= x < 0x1_0000_0000

  // ---- The CRC of section 5.5, as a fold over bytes ----

  function CrcBit(c: bv32): bv32 {
    if c & 1 == 1 then 0xedb88320 ^ (c >> 1) else c >> 1
  }

  function CrcByte(c: word, b: byte): word {
    CrcBit(CrcBit(CrcBit(CrcBit(CrcBit(CrcBit(CrcBit(CrcBit((c as bv32) ^ (b as bv32))))))))) as int
  }

  function CrcFold(c: word, data: seq<byte>): word
    decreases |data|
  {
    if data == [] then c else CrcFold(CrcByte(c, data[0]), data[1..])
  }

  function Complement(c: word): word {
    0xffff_ffff - c
  }

  /** crc32(crc, data, |data|): the register is complemented on the way in and out. */
  function Crc(crc: word, data: seq<byte>): word {
    Complement(CrcFold(Complement(crc), data))
  }

  lemma {:induction false} FoldAppend(c: word, a: seq<byte>, b: seq<byte>)
    ensures CrcFold(CrcFold(c, a), b) == CrcFold(c, a + b)
    decreases |a|
  {
    hide CrcByte;
    if a == [] {
      assert a + b == b;
    } else {
      assert (a + b)[1..] == a[1..] + b && (a + b)[0] == a[0];
      FoldAppend(CrcByte(c, a[0]), a[1..], b);
    }
  }

  /** A CRC may be accumulated piece by piece. */
  lemma CrcAppend(crc: word, a: seq<byte>, b: seq<byte>)
    ensures Crc(Crc(crc, a), b) == Crc(crc, a + b)
  {
    hide CrcFold;
    FoldAppend(Complement(crc), a, b);
  }

  lemma CrcOfNothing()
    ensures Crc(0, []) == 0
  {
  }

  // ---- Big-endian words ----

  function U32(x: word): (s: seq<byte>)
    ensures |s| == 4
  {
    [x / 0x100_0000, x / 0x1_0000 % 0x100, x / 0x100 % 0x100, x % 0x100]
  }

  function ReadU32(s: seq<byte>): word
    requires |s| >= 4
  {
    0x100_0000 * s[0] as int + 0x1_0000 * s[1] as int + 0x100 * s[2] as int + s[3] as int
  }

  function U16(x: int): (s: seq<byte>)
    requires 0 <= x < 0x1_0000
    ensures |s| == 2
  {
    [x / 0x100, x % 0x100]
  }

  function ReadU16(s: seq<byte>): (x: int)
    requires |s| >= 2
    ensures 0 <= x < 0x1_0000
  {
    0x100 * s[0] as int + s[1] as int
  }

  lemma ReadU32Back(x: word, rest: seq<byte>)
    ensures ReadU32(U32(x) + rest) == x
  {
    var s := U32(x) + rest;
    assert s[0] == U32(x)[0] && s[1] == U32(x)[1] && s[2] == U32(x)[2] && s[3] == U32(x)[3];
    Quotients(x);
  }

  lemma Quotients(x: int)
    ensures x / 0x1_0000 == 0x100 * (x / 0x100_0000) + x / 0x1_0000 % 0x100
    ensures x / 0x100 == 0x100 * (x / 0x1_0000) + x / 0x100 % 0x100
  {
    assert x / 0x100_0000 == x / 0x1_0000 / 0x100;
    assert x / 0x1_0000 == x / 0x100 / 0x100;
  }

  lemma ReadU16Back(x: int, rest: seq<byte>)
    requires 0 <= x < 0x1_0000
    ensures ReadU16(U16(x) + rest) == x
  {
  }

  // ---- Chunks ----

  datatype Chunk = Chunk(kind: seq<byte>, data: seq<byte>) {
    predicate Valid() {
      |kind| == 4 && |data| <= PNG_MAX
    }
  }

  function CrcOf(chunk: Chunk): word {
    Crc(0, chunk.kind + chunk.data)
  }

  function Bytes(chunk: Chunk): (s: seq<byte>)
    requires chunk.Valid()
    ensures |s| == |chunk.data| + 12
  {
    U32(|chunk.data|) + chunk.kind + chunk.data + U32(CrcOf(chunk))
  }

  function Stream(chunks: seq<Chunk>): seq<byte>
    requires forall i :: 0 <= i < |chunks| ==> chunks[i].Valid()
  {
    if chunks == [] then [] else Bytes(chunks[0]) + Stream(chunks[1..])
  }

  lemma {:induction false} StreamAppend(a: seq<Chunk>, b: seq<Chunk>)
    requires forall i :: 0 <= i < |a| ==> a[i].Valid()
    requires forall i :: 0 <= i < |b| ==> b[i].Valid()
    ensures Stream(a + b) == Stream(a) + Stream(b)
  {
    hide Bytes;
    if a == [] {
      assert a + b == b;
    } else {
      assert (a + b)[1..] == a[1..] + b && (a + b)[0] == a[0];
      StreamAppend(a[1..], b);
    }
  }

  /** A byte string is the stream of at most one list of chunks. */
  lemma {:induction false} StreamDetermines(a: seq<Chunk>, b: seq<Chunk>)
    requires forall i :: 0 <= i < |a| ==> a[i].Valid()
    requires forall i :: 0 <= i < |b| ==> b[i].Valid()
    requires Stream(a) == Stream(b)
    ensures a == b
  {
    hide U32, Crc;
    if a != [] && b != [] {
      var s := Stream(a);
      FirstBytes(a[0], Stream(a[1..]));
      FirstBytes(b[0], Stream(b[1..]));
      assert a[0] == b[0];
      assert Stream(a[1..]) == s[|a[0].data| + 12..] == Stream(b[1..]);
      StreamDetermines(a[1..], b[1..]);
    }
  }

  lemma FirstBytes(c: Chunk, rest: seq<byte>)
    requires c.Valid()
    ensures var s := Bytes(c) + rest;
      && |s| >= 12 + |c.data| && |c.data| == ReadU32(s) && c.kind == s[4..8]
      && c.data == s[8..8 + |c.data|] && ReadU32(s[8 + |c.data|..]) == CrcOf(c)
      && rest == s[|c.data| + 12..]
  {
    hide U32, ReadU32, Crc, CrcOf;
    var s := Bytes(c) + rest;
    var n := |c.data|;
    assert s == U32(n) + (c.kind + c.data + U32(CrcOf(c)) + rest);
    ReadU32Back(n, c.kind + c.data + U32(CrcOf(c)) + rest);
    assert s[8 + n..] == U32(CrcOf(c)) + rest;
    ReadU32Back(CrcOf(c), rest);
  }

  /** The types, as the four letters of their names. */
  const IHDR: seq<byte> := [73, 72, 68, 82]
  const PLTE: seq<byte> := [80, 76, 84, 69]
  const IDAT: seq<byte> := [73, 68, 65, 84]
  const IEND: seq<byte> := [73, 69, 78, 68]
  const TRNS: seq<byte> := [116, 82, 78, 83]
  const CHRM: seq<byte> := [99, 72, 82, 77]
  const GAMA: seq<byte> := [103, 65, 77, 65]
  const ICCP: seq<byte> := [105, 67, 67, 80]
  const SBIT: seq<byte> := [115, 66, 73, 84]
  const SRGB: seq<byte> := [115, 82, 71, 66]
  const TEXT: seq<byte> := [116, 69, 88, 116]
  const ZTXT: seq<byte> := [122, 84, 88, 116]
  const ITXT: seq<byte> := [105, 84, 88, 116]
  const BKGD: seq<byte> := [98, 75, 71, 68]
  const HIST: seq<byte> := [104, 73, 83, 84]
  const PHYS: seq<byte> := [112, 72, 89, 115]
  const SPLT: seq<byte> := [115, 80, 76, 84]
  const TIME: seq<byte> := [116, 73, 77, 69]
  const OFFS: seq<byte> := [111, 70, 70, 115]
  const EXIF: seq<byte> := [101, 88, 73, 102]
  const SIGNATURE: seq<byte> := [137, 80, 78, 71, 13, 10, 26, 10]

  /** Bit 5 of the first letter clear. */
  predicate Critical(kind: seq<byte>)
    requires |kind| == 4
  {
    kind[0] as int / 32 % 2 == 0
  }

  const IEND_BYTES: seq<byte> := [0, 0, 0, 0, 73, 69, 78, 68, 174, 66, 96, 130]

  lemma IendSteps()
    ensures CrcByte(0xffffffff, 73) == 0x22fde946 && CrcByte(0x22fde946, 69) == 0x992bac53
    ensures CrcByte(0x992bac53, 78) == 0x639f4775 && CrcByte(0x639f4775, 68) == 0x51bd9f7d
  {
  }

  /** The fixed bytes of the last chunk are those of an empty IEND, CRC included. */
  lemma IendIsChunk()
    ensures Bytes(Chunk(IEND, [])) == IEND_BYTES
  {
    IendSteps();
    hide CrcByte;
    var s := IEND + [];
    assert s == [73, 69, 78, 68] && s[1..] == [69, 78, 68] && s[1..][1..] == [78, 68] && s[1..][1..][1..] == [68];
    assert s[1..][1..][1..][1..] == [];
    assert CrcFold(0xffff_ffff, s) == 0x51bd9f7d;
    assert Crc(0, s) == 0xae426082;
  }
}
