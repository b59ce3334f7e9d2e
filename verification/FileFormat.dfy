/**
 The chunks of a file in letters and numbers: under which name each kind of chunk stands in a file,
 which bytes of its data are which field, which data are refused, and in which place (sections 5.6
 and 11 of ISO/IEC 15948, and the eXIf and oFFs extensions).
 */
module FileFormat {
  import opened Octets
  import opened Chunks
  import opened Header
  import opened Metadata
  import opened Printing
  import opened LongChunks

  // ---- Names ----

  ghost predicate Spells(kind: seq<byte>, name: string) {
    |kind| == |name| && forall i :: 0 <= i < |kind| ==> kind[i] as int == name[i] as int
  }

  /** The name of a kind that has one of its own. */
  function Name(t: Type): string {
    match t
    case TIhdr => "IHDR" case TPlte => "PLTE" case TIdat => "IDAT" case TIend => "IEND"
    case TChrm => "cHRM" case TGama => "gAMA" case TSbit => "sBIT" case TSrgb => "sRGB"
    case TBkgd => "bKGD" case TTrns => "tRNS" case THist => "hIST" case TPhys => "pHYs"
    case TTime => "tIME" case TOffs => "oFFs" case TExif => "eXIf" case TIccp => "iCCP"
    case TSplt => "sPLT" case TText => "tEXt" case TUnknown => ""
  }

  lemma Spelled(kind: seq<byte>, letters: seq<byte>, name: string)
    requires Spells(letters, name)
    ensures Spells(kind, name) <==> kind == letters
  {
  }

  lemma Spellings()
    ensures Spells(IHDR, "IHDR") && Spells(PLTE, "PLTE") && Spells(IDAT, "IDAT") && Spells(IEND, "IEND")
    ensures Spells(CHRM, "cHRM") && Spells(GAMA, "gAMA") && Spells(SBIT, "sBIT") && Spells(SRGB, "sRGB")
    ensures Spells(BKGD, "bKGD") && Spells(TRNS, "tRNS") && Spells(HIST, "hIST") && Spells(PHYS, "pHYs")
    ensures Spells(TIME, "tIME") && Spells(OFFS, "oFFs") && Spells(EXIF, "eXIf") && Spells(ICCP, "iCCP")
    ensures Spells(SPLT, "sPLT") && Spells(TEXT, "tEXt") && Spells(ZTXT, "zTXt") && Spells(ITXT, "iTXt")
  {
  }

  lemma CriticalNames(kind: seq<byte>, t: Type)
    requires |kind| == 4 && t in {TIhdr, TPlte, TIdat, TIend}
    ensures TypeOf(kind) == t <==> Spells(kind, Name(t))
  {
    Spellings();
    hide Spells;
    Spelled(kind, IHDR, "IHDR");
    Spelled(kind, PLTE, "PLTE");
    Spelled(kind, IDAT, "IDAT");
    Spelled(kind, IEND, "IEND");
  }

  lemma ColorNames(kind: seq<byte>, t: Type)
    requires |kind| == 4 && t in {TChrm, TGama, TSbit, TSrgb, TIccp}
    ensures TypeOf(kind) == t <==> Spells(kind, Name(t))
  {
    Spellings();
    hide Spells;
    Spelled(kind, CHRM, "cHRM");
    Spelled(kind, GAMA, "gAMA");
    Spelled(kind, SBIT, "sBIT");
    Spelled(kind, SRGB, "sRGB");
    Spelled(kind, ICCP, "iCCP");
  }

  lemma PaletteNames(kind: seq<byte>, t: Type)
    requires |kind| == 4 && t in {TBkgd, TTrns, THist, TSplt}
    ensures TypeOf(kind) == t <==> Spells(kind, Name(t))
  {
    Spellings();
    hide Spells;
    Spelled(kind, BKGD, "bKGD");
    Spelled(kind, TRNS, "tRNS");
    Spelled(kind, HIST, "hIST");
    Spelled(kind, SPLT, "sPLT");
  }

  lemma OtherNames(kind: seq<byte>, t: Type)
    requires |kind| == 4 && t in {TPhys, TTime, TOffs, TExif}
    ensures TypeOf(kind) == t <==> Spells(kind, Name(t))
  {
    Spellings();
    hide Spells;
    Spelled(kind, PHYS, "pHYs");
    Spelled(kind, TIME, "tIME");
    Spelled(kind, OFFS, "oFFs");
    Spelled(kind, EXIF, "eXIf");
  }

  /** Whatever chunk there is to be read, the decoder takes it for what its name says. */
  lemma Names(kind: seq<byte>, t: Type)
    requires |kind| == 4 && t !in {TText, TUnknown}
    ensures TypeOf(kind) == t <==> Spells(kind, Name(t))
  {
    hide TypeOf, Spells, Name;
    if t in {TIhdr, TPlte, TIdat, TIend} {
      CriticalNames(kind, t);
    } else if t in {TChrm, TGama, TSbit, TSrgb, TIccp} {
      ColorNames(kind, t);
    } else if t in {TBkgd, TTrns, THist, TSplt} {
      PaletteNames(kind, t);
    } else {
      OtherNames(kind, t);
    }
  }

  lemma TextNames(kind: seq<byte>)
    requires |kind| == 4
    ensures TypeOf(kind) == TText <==> Spells(kind, "tEXt") || Spells(kind, "zTXt") || Spells(kind, "iTXt")
  {
    Spellings();
    hide Spells;
    Spelled(kind, TEXT, "tEXt");
    Spelled(kind, ZTXT, "zTXt");
    Spelled(kind, ITXT, "iTXt");
  }

  /** A chunk is critical if its name starts with a capital letter. */
  lemma Capitals(kind: seq<byte>)
    requires |kind| == 4
    ensures 'A' as int <= kind[0] as int <= 'Z' as int ==> Critical(kind)
    ensures 'a' as int <= kind[0] as int <= 'z' as int ==> !Critical(kind)
  {
  }

  // ---- Fields ----

  function Two(d: seq<byte>, i: nat): int
    requires i + 2 <= |d|
  {
    256 * d[i] as int + d[i + 1] as int
  }

  function Four(d: seq<byte>, i: nat): int
    requires i + 4 <= |d|
  {
    16777216 * d[i] as int + 65536 * d[i + 1] as int + 256 * d[i + 2] as int + d[i + 3] as int
  }

  function SignedFour(d: seq<byte>, i: nat): int
    requires i + 4 <= |d|
  {
    if Four(d, i) >= 2147483648 then Four(d, i) - 4294967296 else Four(d, i)
  }

  /** How long the data is, given the color type and the number of palette entries. */
  predicate RightLength(colorType: nat, entries: nat, t: Type, n: nat) {
    match t
    case TPlte => n % 3 == 0 && 3 <= n <= 768
    case TChrm => n == 32
    case TGama => n == 4
    case TSbit => n == (match colorType case 0 => 1 case 4 => 2 case 6 => 4 case _ => 3)
    case TSrgb => n == 1
    case TBkgd => n == (match colorType case 3 => 1 case 0 => 2 case 4 => 2 case _ => 6)
    case TTrns => (match colorType case 0 => n == 2 case 2 => n == 6 case 3 => 0 < n <= entries case _ => false)
    case THist => 0 < n && (n == 2 * entries || n == 2 * entries + 1)
    case TPhys => n == 9
    case TTime => n == 7
    case TOffs => n == 9
    case _ => false
  }

  /** The fields that the data gives. */
  ghost predicate Says(colorType: nat, t: Type, d: seq<byte>, v: Values) {
    && RightLength(colorType, v.plteCount, t, |d|)
    && match t
       case TPlte => 3 * v.plteCount == |d| && |v.plte| == v.plteCount
                     && forall i :: 0 <= i < v.plteCount ==> v.plte[i] == Rgb(d[3 * i], d[3 * i + 1], d[3 * i + 2])
       case TChrm => |v.chrm| == 8 && forall i :: 0 <= i < 8 ==> v.chrm[i] == Four(d, 4 * i)
       case TGama => v.gama == Four(d, 0)
       case TSbit =>
         (match colorType
          case 0 => v.sbit.gray == d[0]
          case 4 => v.sbit.gray == d[0] && v.sbit.alpha == d[1]
          case 6 => v.sbit.red == d[0] && v.sbit.green == d[1] && v.sbit.blue == d[2] && v.sbit.alpha == d[3]
          case _ => v.sbit.red == d[0] && v.sbit.green == d[1] && v.sbit.blue == d[2])
       case TSrgb => v.srgb == d[0]
       case TBkgd =>
         (match colorType
          case 3 => v.bkgd.index == d[0]
          case 0 => v.bkgd.gray == Two(d, 0)
          case 4 => v.bkgd.gray == Two(d, 0)
          case _ => v.bkgd.red == Two(d, 0) && v.bkgd.green == Two(d, 2) && v.bkgd.blue == Two(d, 4))
       case TTrns =>
         (match colorType
          case 0 => v.trns.gray == Two(d, 0)
          case 2 => v.trns.red == Two(d, 0) && v.trns.green == Two(d, 2) && v.trns.blue == Two(d, 4)
          case _ => v.trns.alphas == d)
       case THist => |v.hist| >= v.plteCount && forall i :: 0 <= i < v.plteCount ==> v.hist[i] == Two(d, 2 * i)
       case TPhys => v.phys.x == Four(d, 0) && v.phys.y == Four(d, 4) && v.phys.unit == d[8]
       case TTime => v.time == Time(Two(d, 0), d[2], d[3], d[4], d[5], d[6])
       case TOffs => v.offs.x == SignedFour(d, 0) && v.offs.y == SignedFour(d, 4) && v.offs.unit == d[8]
       case _ => false
  }

  // ---- Files ----

  /** The signature, and the header chunk up to its CRC. */
  ghost predicate Begins(file: seq<byte>, h: Ihdr) {
    && |file| >= 33 && file[..16] == [137, 80, 78, 71, 13, 10, 26, 10, 0, 0, 0, 13, 73, 72, 68, 82]
    && Four(file, 16) == h.width && Four(file, 20) == h.height && file[24] as int == h.bitDepth && file[25] as int == h.colorType
    && file[26] == 0 && file[27] == 0 && file[28] as int == h.interlaceMethod
  }

  /** A chunk stands there, under its name. */
  ghost predicate HoldsAt(file: seq<byte>, at: nat, name: string, data: seq<byte>) {
    && at + 12 + |data| <= |file| && Four(file, at) == |data| && Spells(file[at + 4..at + 8], name)
    && file[at + 8..at + 8 + |data|] == data
  }

  ghost predicate Holds(file: seq<byte>, name: string, data: seq<byte>) {
    exists at :: HoldsAt(file, at, name, data)
  }

  lemma ChunkHolds(pre: seq<byte>, c: Chunk, post: seq<byte>, name: string)
    requires c.Valid() && Spells(c.kind, name)
    ensures Holds(pre + Bytes(c) + post, name, c.data)
  {
    hide Bytes, Spells, ReadU32, CrcOf, Four;
    FirstBytes(c, post);
    var file, s, at := pre + Bytes(c) + post, Bytes(c) + post, |pre|;
    assert file == pre + s;
    assert file[at..] == s && file[at + 4..at + 8] == s[4..8] && file[at + 8..at + 8 + |c.data|] == s[8..8 + |c.data|];
    WordAt(file, at);
    assert HoldsAt(file, at, name, c.data);
  }

  // ---- Refusals ----

  /** Bits of significance: at least one, and no more than there are. */
  predicate Significant(d: seq<byte>, depth: nat) {
    forall i :: 0 <= i < |d| ==> 1 <= d[i] as int <= depth
  }

  /** What is wrong with data of the right length. */
  function ContentError(h: Ihdr, palette: bool, entries: nat, t: Type, d: seq<byte>): Error
    requires RightLength(h.colorType, entries, t, |d|)
  {
    match t
    case TPlte =>
      if h.colorType == 3 && |d| > 3 * [0, 2, 4, 8, 16, 32, 64, 128, 256][Min(h.bitDepth, 8)] then EChunkSize else NoError
    case TChrm => if exists i :: 0 <= i < 8 && Four(d, 4 * i) > 2147483647 then EChrm else NoError
    case TGama => if 1 <= Four(d, 0) <= 2147483647 then NoError else EGama
    case TSbit => if Significant(d, if h.colorType == 3 then 8 else h.bitDepth) then NoError else ESbit
    case TSrgb => if d[0] as int <= 3 then NoError else ESrgb
    case TBkgd =>
      if h.colorType != 3 then NoError else if !palette then EBkgdNoPlte
      else if d[0] as int < entries then NoError else EBkgdIndex
    case TTrns => if h.colorType == 3 && !palette then ETrnsNoPlte else NoError
    case TPhys => if Four(d, 0) <= 2147483647 && Four(d, 4) <= 2147483647 && d[8] as int <= 1 then NoError else EPhys
    case TTime =>
      if 1 <= d[2] as int <= 12 && 1 <= d[3] as int <= 31 && d[4] as int <= 23 && d[5] as int <= 59 && d[6] as int <= 60
      then NoError else ETime
    case TOffs => if d[8] as int <= 1 then NoError else EOffs
    case _ => NoError
  }

  /** What is wrong with data of any length but none; alpha values for pixels that have alpha are refused for that. */
  function DataError(h: Ihdr, palette: bool, entries: nat, t: Type, d: seq<byte>): Error {
    if t == TTrns && h.colorType in {4, 6} then ETrnsColorType
    else if !RightLength(h.colorType, entries, t, |d|) then EChunkSize
    else ContentError(h, palette, entries, t, d)
  }

  lemma PaletteSizes(depth: nat)
    requires depth <= 8
    ensures Pow2(depth) == [1, 2, 4, 8, 16, 32, 64, 128, 256][depth]
  {
    Pow2Table();
    hide Pow2;
  }

  /** Parsing refuses exactly these, for these reasons, and otherwise the fields are what the bytes say. */
  lemma ParsedInNumbers(h: Ihdr, file: set<Type>, v: Values, t: Type, d: seq<byte>)
    requires ValidIhdr(h) && Small(t) && 0 < |d| <= 768 && v.plteCount <= 256
    ensures var p := Parse(h, file, v, t, |d|, d);
      && p.error == DataError(h, TPlte in file, v.plteCount, t, d)
      && (p.error == NoError ==> Says(h.colorType, t, d, p.v))
  {
    match t
    case TPlte => PlteInNumbers(h, v, d);
    case TChrm => ChrmInNumbers(v, d);
    case TGama =>
    case TSbit => SbitInNumbers(h, v, d);
    case TSrgb =>
    case TBkgd =>
    case TTrns =>
    case THist => HistInNumbers(v, d);
    case TPhys =>
    case TTime =>
    case TOffs =>
  }

  lemma PlteInNumbers(h: Ihdr, v: Values, d: seq<byte>)
    requires ValidIhdr(h) && 0 < |d| <= 768
    ensures var p := ParsePlte(h, v, |d|, d);
      && p.error == DataError(h, true, v.plteCount, TPlte, d)
      && (p.error == NoError ==> Says(h.colorType, TPlte, d, p.v))
  {
    PaletteSizes(Min(h.bitDepth, 8));
    hide Pow2;
  }

  lemma WordAt(d: seq<byte>, i: nat)
    requires i + 4 <= |d|
    ensures ReadU32(d[i..]) == Four(d, i)
  {
  }

  lemma ChrmInNumbers(v: Values, d: seq<byte>)
    requires 0 < |d| <= 768
    ensures var p := ParseChrm(v, |d|, d);
      && p.error == (if |d| != 32 then EChunkSize else if exists i :: 0 <= i < 8 && Four(d, 4 * i) > 2147483647 then EChrm else NoError)
      && (p.error == NoError ==> |p.v.chrm| == 8 && forall i :: 0 <= i < 8 ==> p.v.chrm[i] == Four(d, 4 * i))
  {
    hide ReadU32, Four;
    if |d| == 32 {
      var c := ParseChrm(v, |d|, d).v.chrm;
      forall i | 0 <= i < 8
        ensures c[i] == Four(d, 4 * i)
      {
        WordAt(d, 4 * i);
      }
    }
  }

  lemma SbitInNumbers(h: Ihdr, v: Values, d: seq<byte>)
    requires ValidIhdr(h) && 0 < |d| <= 768
    ensures var p := ParseSbit(h, v, |d|, d);
      && p.error == DataError(h, true, v.plteCount, TSbit, d)
      && (p.error == NoError ==> Says(h.colorType, TSbit, d, p.v))
  {
  }

  lemma HistInNumbers(v: Values, d: seq<byte>)
    requires 0 < |d| <= 768 && v.plteCount <= 256
    ensures var p := ParseHist(v, |d|, d);
      && p.error == (if |d| == 2 * v.plteCount || |d| == 2 * v.plteCount + 1 then NoError else EChunkSize)
      && (p.error == NoError ==> |p.v.hist| == v.plteCount && forall i :: 0 <= i < v.plteCount ==> p.v.hist[i] == Two(d, 2 * i))
  {
  }

  /** Data longer than any small chunk are refused. */
  lemma LongIsRefused(h: Ihdr, file: set<Type>, v: Values, t: Type, length: nat, d: seq<byte>)
    requires ValidIhdr(h) && Small(t) && length > 768 == |d| && v.plteCount <= 256
    ensures Parse(h, file, v, t, length, d).error == if t == TTrns && h.colorType in {4, 6} then ETrnsColorType else EChunkSize
  {
    hide Pow2;
  }

  /** What is wrong with the place of a chunk, given the kinds seen before it and whether the image data have been. */
  function PlaceError(after: bool, seen: set<Type>, t: Type): Error {
    if t == TPlte then (if seen !! {TTrns, THist, TBkgd} then NoError else EChunkPos)
    else if t == THist && TPlte !in seen then EHistNoPlte
    else if t in {TChrm, TGama, TSbit, TSrgb} && TPlte in seen then EChunkPos
    else if t != TTime && after then EChunkPos
    else if t in seen then EDup(t)
    else NoError
  }

  /** Why a small chunk is refused: it is empty, in the wrong place, a duplicate, or its data are wrong. */
  function Refusal(h: Ihdr, after: bool, m: Meta, t: Type, data: seq<byte>): Error {
    if data == [] then EChunkSize
    else if PlaceError(after, m.file, t) != NoError then PlaceError(after, m.file, t)
    else DataError(h, TPlte in m.file, m.v.plteCount, t, data)
  }

  lemma PlacedInWords(after: bool, file: set<Type>, t: Type)
    requires Small(t)
    ensures Placed(after, file, t) == PlaceError(after, file, t)
  {
  }

  lemma TooLong(h: Ihdr, palette: bool, entries: nat, t: Type, data: seq<byte>)
    requires |data| > 768 && entries <= 256
    ensures DataError(h, palette, entries, t, data) == if t == TTrns && h.colorType in {4, 6} then ETrnsColorType else EChunkSize
  {
  }

  /**
   Exactly these chunks are refused, for these reasons. A chunk in the wrong place changes nothing
   at all, one that is refused for its data no flag; a chunk that is accepted is kept, and the
   fields are what its bytes say.
   */
  lemma ReadInNumbers(h: Ihdr, after: bool, m: Meta, t: Type, data: seq<byte>)
    requires ValidIhdr(h) && Small(t) && m.v.plteCount <= 256
    ensures var o := ReadSmall(h, after, m, t, |data|, data[..Min(|data|, 768)]);
      && o.error == Refusal(h, after, m, t, data)
      && (o.error != NoError ==> o.m.stored == m.stored && o.m.file == m.file)
      && (data == [] || PlaceError(after, m.file, t) != NoError ==> o.m == m)
      && (o.error == NoError ==> o.m.stored == m.stored + {t} && o.m.file == m.file + {t} && Says(h.colorType, t, data, o.m.v))
  {
    PlacedInWords(after, m.file, t);
    if |data| > 768 {
      LongIsRefused(h, m.file, m.v, t, |data|, data[..768]);
      TooLong(h, TPlte in m.file, m.v.plteCount, t, data);
    } else if data != [] {
      assert data[..Min(|data|, 768)] == data;
      ParsedInNumbers(h, m.file, m.v, t, data);
    }
    hide Parse, DataError, Placed, PlaceError, Says, ValidIhdr;
  }

  /** The data that is written for a value that passes its check says what the value is. */
  lemma PrintedInNumbers(h: Ihdr, v: Values, t: Type)
    requires ValidIhdr(h) && Small(t) && Representable(v) && Printable(h, v, t) && (t == THist ==> v.plteCount > 0)
    ensures Says(h.colorType, t, Print(h, v, t), v)
  {
    var d := Print(h, v, t);
    ParsePrinted(h, {TPlte}, v, v, t);
    ParsedInNumbers(h, {TPlte}, v, t, d);
    SaysTheSame(h, v, t, d);
    hide Parse, Says, Print, Printable, Keep, ValidIhdr, Representable;
  }

  lemma SaysTheSame(h: Ihdr, v: Values, t: Type, d: seq<byte>)
    requires Representable(v) && Small(t)
    ensures Says(h.colorType, t, d, Keep(h, v, v, t)) ==> Says(h.colorType, t, d, v)
  {
    hide Two, Four, SignedFour;
  }

  // ---- The chunks of any length ----

  /** A name: printable Latin-1, without a space in front, behind or after another. */
  ghost predicate IsName(s: seq<byte>) {
    && 1 <= |s| <= 79 && s[0] != 32 && s[|s| - 1] != 32
    && (forall i :: 0 <= i < |s| ==> 32 <= s[i] as int <= 126 || 161 <= s[i] as int)
    && (forall i :: 0 <= i < |s| - 1 ==> s[i] == 32 ==> s[i + 1] != 32)
  }

  ghost predicate EntrySays(d: seq<byte>, at: nat, depth: byte, e: SpltEntry)
    requires at + (if depth == 16 then 10 else 6) <= |d|
  {
    if depth == 16 then
      e.red == Two(d, at) && e.green == Two(d, at + 2) && e.blue == Two(d, at + 4) && e.alpha == Two(d, at + 6)
      && e.frequency == Two(d, at + 8)
    else
      e.red == d[at] as int && e.green == d[at + 1] as int && e.blue == d[at + 2] as int && e.alpha == d[at + 3] as int
      && e.frequency == Two(d, at + 4)
  }

  ghost predicate EntriesSay(d: seq<byte>, at: nat, depth: byte, e: seq<SpltEntry>) {
    var size := if depth == 16 then 10 else 6;
    && at + |e| * size == |d|
    && forall k :: 0 <= k < |e| ==> at + k * size + size <= |d| && EntrySays(d, at + k * size, depth, e[k])
  }

  /** A suggested palette: a name, a zero, the depth and the entries. */
  ghost predicate PaletteSays(d: seq<byte>, s: Splt) {
    var n := |s.name|;
    && IsName(s.name) && s.depth in {8, 16} && s.entries != [] && |d| >= n + 2
    && d[..n] == s.name && d[n] == 0 && d[n + 1] == s.depth && EntriesSay(d, n + 2, s.depth, s.entries)
  }

  lemma EntryInNumbers(depth: byte, d: seq<byte>)
    requires |d| >= EntrySize(depth)
    ensures EntrySize(depth) == (if depth == 16 then 10 else 6) && EntrySays(d, 0, depth, ReadEntry(depth, d))
  {
  }

  lemma EntryShifted(d: seq<byte>, n: nat, at: nat, depth: byte, e: SpltEntry)
    requires n <= |d| && at + (if depth == 16 then 10 else 6) <= |d| - n
    ensures EntrySays(d[n..], at, depth, e) <==> EntrySays(d, n + at, depth, e)
  {
  }

  lemma {:induction false} EntriesInNumbers(depth: byte, d: seq<byte>, n: nat)
    requires |d| == n * EntrySize(depth)
    ensures EntriesSay(d, 0, depth, ReadEntries(depth, d, n))
    decreases n
  {
    hide ReadEntry, EntrySays;
    if n > 0 {
      var size := EntrySize(depth);
      var rest, e := d[size..], ReadEntries(depth, d, n);
      EntriesInNumbers(depth, rest, n - 1);
      EntryInNumbers(depth, d);
      forall k | 0 <= k < n
        ensures k * size + size <= |d| && EntrySays(d, k * size, depth, e[k])
      {
        if k > 0 {
          assert k * size == size + (k - 1) * size;
          assert EntrySays(rest, 0 + (k - 1) * size, depth, ReadEntries(depth, rest, n - 1)[k - 1]);
          EntryShifted(d, size, (k - 1) * size, depth, e[k]);
        }
      }
    }
  }

  lemma EntriesFurther(d: seq<byte>, n: nat, depth: byte, e: seq<SpltEntry>)
    requires n <= |d| && EntriesSay(d[n..], 0, depth, e)
    ensures EntriesSay(d, n, depth, e)
  {
    hide EntrySays;
    var size := if depth == 16 then 10 else 6;
    forall k | 0 <= k < |e|
      ensures n + k * size + size <= |d| && EntrySays(d, n + k * size, depth, e[k])
    {
      assert EntrySays(d[n..], 0 + k * size, depth, e[k]);
      EntryShifted(d, n, k * size, depth, e[k]);
    }
  }

  lemma Divided(n: nat, depth: byte)
    requires n % EntrySize(depth) == 0
    ensures n / EntrySize(depth) * EntrySize(depth) == n
  {
  }

  /** A palette that is accepted is what its bytes say, and no other has its name. */
  lemma PaletteInNumbers(kept: seq<Splt>, d: seq<byte>)
    requires ParseSplt(kept, d).error == NoError
    ensures PaletteSays(d, ParseSplt(kept, d).splt)
    ensures forall j :: 0 <= j < |kept| ==> kept[j].name != ParseSplt(kept, d).splt.name
  {
    hide ReadEntries, EntrySize, EntriesSay, FirstNul;
    var k := FirstNul(d, Min(|d|, 80));
    var depth, rest := d[k + 1], d[k + 2..];
    SpltEntries(kept, d);
    Divided(|rest|, depth);
    EntriesInNumbers(depth, rest, |rest| / EntrySize(depth));
    EntriesFurther(d, k + 2, depth, ReadEntries(depth, rest, |rest| / EntrySize(depth)));
  }

  /** Why a palette is refused: n is where its name ends. */
  lemma PaletteErrors(kept: seq<Splt>, d: seq<byte>, n: nat)
    requires n <= |d| && n <= 80 && (forall i :: 0 <= i < n ==> d[i] != 0) && (n == 80 || n == |d| || d[n] == 0)
    ensures ParseSplt(kept, d).error ==
      if n == 80 || n == |d| || !IsName(d[..n]) then ESpltName
      else if exists j :: 0 <= j < |kept| && kept[j].name == d[..n] then ESpltDupName
      else if |d| <= n + 2 then EChunkSize
      else if d[n + 1] != 8 && d[n + 1] != 16 then ESpltDepth
      else if (|d| - n - 2) % (if d[n + 1] == 16 then 10 else 6) != 0 then EChunkSize
      else NoError
  {
    hide ReadEntries;
    NulIsThere(d, n);
    NameIsKeyword(d[..n]);
    hide FirstNul, KeywordOk, IsName;
  }

  lemma NulIsThere(d: seq<byte>, n: nat)
    requires n <= |d| && n <= 80 && (forall i :: 0 <= i < n ==> d[i] != 0) && (n == 80 || n == |d| || d[n] == 0)
    ensures FirstNul(d, Min(|d|, 80)) == n
  {
    hide FirstNul;
    var k := FirstNul(d, Min(|d|, 80));
    assert k < Min(|d|, 80) ==> d[k] == 0;
  }

  lemma NameIsKeyword(s: seq<byte>)
    ensures KeywordOk(s) <==> IsName(s)
  {
  }

  /** And what is written for a palette in range says what it is. */
  lemma WrittenPaletteInNumbers(s: Splt)
    requires SpltOk(s)
    ensures PaletteSays(PrintSplt(s), s)
  {
    hide SpltOk, PrintSplt, ParseSplt, PaletteSays;
    SpltBack([], s);
    PaletteInNumbers([], PrintSplt(s));
  }

  /** Exif data start with II, 42 and 0, or with MM, 0 and 42. */
  lemma ExifInLetters(d: seq<byte>)
    ensures ExifOk(d) <==>
      |d| >= 4 && ((Spells(d[..2], "II") && d[2] == 42 && d[3] == 0) || (Spells(d[..2], "MM") && d[2] == 0 && d[3] == 42))
  {
    if |d| >= 4 {
      assert d[..4] == [d[0], d[1], d[2], d[3]] && d[..2] == [d[0], d[1]];
    }
  }
}
