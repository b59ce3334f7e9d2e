/**
 What a decoder keeps of the chunks around the image data: the checks it makes on each
 kind of chunk, in the order it makes them, and what it has overwritten when one fails.
 */
module Metadata {
  import opened Octets
  import opened Chunks
  import opened Header

  type u16 = x: int | 0 <= x < 0x1_0000

  datatype Rgb = Rgb(red: byte, green: byte, blue: byte)
  datatype Sbit = Sbit(gray: byte, red: byte, green: byte, blue: byte, alpha: byte)
  datatype Bkgd = Bkgd(gray: u16, red: u16, green: u16, blue: u16, index: byte)
  datatype Trns = Trns(gray: u16, red: u16, green: u16, blue: u16, alphas: seq<byte>)
  datatype Phys = Phys(x: word, y: word, unit: byte)
  datatype Time = Time(year: u16, month: byte, day: byte, hour: byte, minute: byte, second: byte)
  datatype Offs = Offs(x: int, y: int, unit: byte)
  datatype SpltEntry = SpltEntry(red: u16, green: u16, blue: u16, alpha: u16, frequency: u16)
  datatype Splt = Splt(name: seq<byte>, depth: byte, entries: seq<SpltEntry>)
  datatype Location = AfterIhdr | AfterPlte | AfterIdat
  datatype Unknown = Unknown(kind: seq<byte>, data: seq<byte>, location: Location)

  /** The chunk types the decoder tells apart; TText stands for tEXt, zTXt and iTXt. */
  datatype Type = TIhdr | TPlte | TIdat | TIend | TChrm | TGama | TSbit | TSrgb | TBkgd | TTrns | THist
                | TPhys | TTime | TOffs | TExif | TIccp | TText | TSplt | TUnknown

  function TypeOf(kind: seq<byte>): Type {
    if kind == IDAT then TIdat else if kind == PLTE then TPlte else if kind == IEND then TIend
    else if kind == IHDR then TIhdr else if kind == CHRM then TChrm else if kind == GAMA then TGama
    else if kind == SBIT then TSbit else if kind == SRGB then TSrgb else if kind == BKGD then TBkgd
    else if kind == TRNS then TTrns else if kind == HIST then THist else if kind == PHYS then TPhys
    else if kind == TIME then TTime else if kind == OFFS then TOffs else if kind == EXIF then TExif
    else if kind == ICCP then TIccp else if kind in {TEXT, ZTXT, ITXT} then TText
    else if kind == SPLT then TSplt else TUnknown
  }

  predicate Small(t: Type) {
    t in {TPlte, TChrm, TGama, TSbit, TSrgb, TBkgd, TTrns, THist, TPhys, TTime, TOffs}
  }

  datatype Error = NoError | EChunkPos | EChunkSize | EDup(t: Type) | EChrm | EGama | ESbit | ESrgb
                 | EBkgdNoPlte | EBkgdIndex | ETrnsNoPlte | ETrnsColorType | EHistNoPlte
                 | EPhys | ETime | EOffs | EExif | ESpltName | ESpltDupName | ESpltDepth | EOther

  /** The plte struct is its number of entries and those entries that were filled in. */
  datatype Values = Values(
    plteCount: nat, plte: seq<Rgb>, chrm: seq<word>, gama: word, sbit: Sbit, srgb: byte, bkgd: Bkgd, trns: Trns,
    hist: seq<u16>, phys: Phys, time: Time, offs: Offs)

  /** `file` is what was seen in the file, `stored` what of it is kept. */
  datatype Meta = Meta(stored: set<Type>, file: set<Type>, v: Values)

  const NO_VALUES := Values(0, [], [], 0, Sbit(0, 0, 0, 0, 0), 0, Bkgd(0, 0, 0, 0, 0),
                            Trns(0, 0, 0, 0, []), [], Phys(0, 0, 0), Time(0, 0, 0, 0, 0, 0), Offs(0, 0, 0))

  // ---- Checks ----

  predicate PlteOk(h: Ihdr, n: nat) {
    n != 0 && n <= 256 && (h.colorType == INDEXED ==> n <= Pow2(h.bitDepth))
  }

  predicate Within(bits: byte, depth: nat) {
    0 < bits as int <= depth
  }

  predicate SbitOk(h: Ihdr, s: Sbit) {
    if h.colorType == GRAYSCALE then Within(s.gray, h.bitDepth)
    else if h.colorType == TRUECOLOR || h.colorType == INDEXED then
      var depth := if h.colorType == INDEXED then 8 else h.bitDepth;
      Within(s.red, depth) && Within(s.green, depth) && Within(s.blue, depth)
    else if h.colorType == GRAYSCALE_ALPHA then Within(s.gray, h.bitDepth) && Within(s.alpha, h.bitDepth)
    else if h.colorType == TRUECOLOR_ALPHA then
      && Within(s.red, h.bitDepth) && Within(s.green, h.bitDepth)
      && Within(s.blue, h.bitDepth) && Within(s.alpha, h.bitDepth)
    else true
  }

  predicate PhysOk(p: Phys) {
    p.unit as int <= 1 && p.x <= PNG_MAX && p.y <= PNG_MAX
  }

  predicate TimeOk(t: Time) {
    && 1 <= t.month as int <= 12 && 1 <= t.day as int <= 31 && t.hour as int <= 23
    && t.minute as int <= 59 && t.second as int <= 60
  }

  function Signed(x: word): int {
    if x < 0x8000_0000 then x else x - 0x1_0000_0000
  }

  function Unsigned(x: int): word
    requires -0x8000_0000 <= x < 0x8000_0000
  {
    if x < 0 then x + 0x1_0000_0000 else x
  }

  // ---- Reading the small chunks ----

  /** The checks on position and duplicates. `after` says the image data has been passed. */
  function Placed(after: bool, file: set<Type>, t: Type): Error {
    match t
    case TPlte => if TTrns in file || THist in file || TBkgd in file then EChunkPos else NoError
    case TChrm | TGama | TSbit | TSrgb =>
      if TPlte in file then EChunkPos else if after then EChunkPos
      else if t in file then EDup(t) else NoError
    case TBkgd | TTrns | TPhys | TOffs =>
      if after then EChunkPos else if t in file then EDup(t) else NoError
    case THist =>
      if TPlte !in file then EHistNoPlte else if after then EChunkPos
      else if t in file then EDup(t) else NoError
    case TTime => if t in file then EDup(t) else NoError
    case _ => NoError
  }

  function ReadPlte(data: seq<byte>, n: nat): (p: seq<Rgb>)
    requires |data| >= 3 * n
    ensures |p| == n
  {
    seq(n, i requires 0 <= i < n => Rgb(data[3 * i], data[3 * i + 1], data[3 * i + 2]))
  }

  function ReadHist(data: seq<byte>, n: nat): (s: seq<u16>)
    requires |data| >= 2 * n
    ensures |s| == n
  {
    seq(n, i requires 0 <= i < n => ReadU16(data[2 * i..]))
  }

  datatype Parsed = Parsed(error: Error, v: Values)

  /** The number of entries is overwritten before it is checked. */
  function ParsePlte(h: Ihdr, v: Values, length: nat, data: seq<byte>): Parsed
    requires |data| == Min(length, 768)
  {
    if length % 3 != 0 then Parsed(EChunkSize, v)
    else if !PlteOk(h, length / 3) then Parsed(EChunkSize, v.(plteCount := length / 3))
    else Parsed(NoError, v.(plteCount := length / 3, plte := ReadPlte(data, length / 3)))
  }

  function ParseChrm(v: Values, length: nat, data: seq<byte>): Parsed
    requires |data| == Min(length, 768)
  {
    if length != 32 then Parsed(EChunkSize, v)
    else
      var c: seq<word> := seq(8, i requires 0 <= i < 8 => ReadU32(data[4 * i..]));
      Parsed(if exists i :: 0 <= i < 8 && c[i] > PNG_MAX then EChrm else NoError, v.(chrm := c))
  }

  function ParseGama(v: Values, length: nat, data: seq<byte>): Parsed
    requires |data| == Min(length, 768)
  {
    if length != 4 then Parsed(EChunkSize, v)
    else
      var g := ReadU32(data);
      Parsed(if g == 0 || g > PNG_MAX then EGama else NoError, v.(gama := g))
  }

  function SbitLength(h: Ihdr): nat {
    if h.colorType == GRAYSCALE then 1
    else if h.colorType == TRUECOLOR || h.colorType == INDEXED then 3
    else if h.colorType == GRAYSCALE_ALPHA then 2 else 4
  }

  function ParseSbit(h: Ihdr, v: Values, length: nat, data: seq<byte>): Parsed
    requires |data| == Min(length, 768) && ValidIhdr(h)
  {
    if length != SbitLength(h) then Parsed(EChunkSize, v)
    else
      var s := v.sbit;
      var s := if h.colorType == GRAYSCALE then s.(gray := data[0])
               else if h.colorType == TRUECOLOR || h.colorType == INDEXED then
                 s.(red := data[0], green := data[1], blue := data[2])
               else if h.colorType == GRAYSCALE_ALPHA then s.(gray := data[0], alpha := data[1])
               else s.(red := data[0], green := data[1], blue := data[2], alpha := data[3]);
      Parsed(if SbitOk(h, s) then NoError else ESbit, v.(sbit := s))
  }

  function ParseSrgb(v: Values, length: nat, data: seq<byte>): Parsed
    requires |data| == Min(length, 768)
  {
    if length != 1 then Parsed(EChunkSize, v)
    else Parsed(if data[0] as int > 3 then ESrgb else NoError, v.(srgb := data[0]))
  }

  function ParseBkgd(h: Ihdr, file: set<Type>, v: Values, length: nat, data: seq<byte>): Parsed
    requires |data| == Min(length, 768)
  {
    if h.colorType == GRAYSCALE || h.colorType == GRAYSCALE_ALPHA then
      if length != 2 then Parsed(EChunkSize, v)
      else Parsed(NoError, v.(bkgd := v.bkgd.(gray := ReadU16(data))))
    else if h.colorType == TRUECOLOR || h.colorType == TRUECOLOR_ALPHA then
      if length != 6 then Parsed(EChunkSize, v)
      else Parsed(NoError, v.(bkgd := v.bkgd.(
        red := ReadU16(data), green := ReadU16(data[2..]), blue := ReadU16(data[4..]))))
    else if h.colorType == INDEXED then
      if length != 1 then Parsed(EChunkSize, v)
      else if TPlte !in file then Parsed(EBkgdNoPlte, v)
      else Parsed(if data[0] as int >= v.plteCount then EBkgdIndex else NoError,
        v.(bkgd := v.bkgd.(index := data[0])))
    else Parsed(NoError, v)
  }

  function ParseTrns(h: Ihdr, file: set<Type>, v: Values, length: nat, data: seq<byte>): Parsed
    requires |data| == Min(length, 768) && v.plteCount <= 256
  {
    if h.colorType == GRAYSCALE then
      if length != 2 then Parsed(EChunkSize, v)
      else Parsed(NoError, v.(trns := v.trns.(gray := ReadU16(data))))
    else if h.colorType == TRUECOLOR then
      if length != 6 then Parsed(EChunkSize, v)
      else Parsed(NoError, v.(trns := v.trns.(
        red := ReadU16(data), green := ReadU16(data[2..]), blue := ReadU16(data[4..]))))
    else if h.colorType == INDEXED then
      if length > v.plteCount then Parsed(EChunkSize, v)
      else if TPlte !in file then Parsed(ETrnsNoPlte, v)
      else Parsed(NoError, v.(trns := v.trns.(alphas := data[..length])))
    else Parsed(ETrnsColorType, v)
  }

  function ParseHist(v: Values, length: nat, data: seq<byte>): Parsed
    requires |data| == Min(length, 768) && v.plteCount <= 256
  {
    if length / 2 != v.plteCount then Parsed(EChunkSize, v)
    else Parsed(NoError, v.(hist := ReadHist(data, length / 2)))
  }

  function ParsePhys(v: Values, length: nat, data: seq<byte>): Parsed
    requires |data| == Min(length, 768)
  {
    if length != 9 then Parsed(EChunkSize, v)
    else
      var p := Phys(ReadU32(data), ReadU32(data[4..]), data[8]);
      Parsed(if PhysOk(p) then NoError else EPhys, v.(phys := p))
  }

  /** The time is checked before it is stored, unlike the rest. */
  function ParseTime(v: Values, length: nat, data: seq<byte>): Parsed
    requires |data| == Min(length, 768)
  {
    if length != 7 then Parsed(EChunkSize, v)
    else
      var t := Time(ReadU16(data), data[2], data[3], data[4], data[5], data[6]);
      if TimeOk(t) then Parsed(NoError, v.(time := t)) else Parsed(ETime, v)
  }

  function ParseOffs(v: Values, length: nat, data: seq<byte>): Parsed
    requires |data| == Min(length, 768)
  {
    if length != 9 then Parsed(EChunkSize, v)
    else
      var o := Offs(Signed(ReadU32(data)), Signed(ReadU32(data[4..])), data[8]);
      Parsed(if o.unit as int > 1 then EOffs else NoError, v.(offs := o))
  }

  function Parse(h: Ihdr, file: set<Type>, v: Values, t: Type, length: nat, data: seq<byte>): Parsed
    requires |data| == Min(length, 768) && v.plteCount <= 256 && Small(t) && ValidIhdr(h)
  {
    match t
    case TPlte => ParsePlte(h, v, length, data)
    case TChrm => ParseChrm(v, length, data)
    case TGama => ParseGama(v, length, data)
    case TSbit => ParseSbit(h, v, length, data)
    case TSrgb => ParseSrgb(v, length, data)
    case TBkgd => ParseBkgd(h, file, v, length, data)
    case TTrns => ParseTrns(h, file, v, length, data)
    case THist => ParseHist(v, length, data)
    case TPhys => ParsePhys(v, length, data)
    case TTime => ParseTime(v, length, data)
    case TOffs => ParseOffs(v, length, data)
  }

  datatype Outcome = Outcome(error: Error, m: Meta)

  /** One small chunk: the flags are set when all checks have passed, the values before. */
  function ReadSmall(h: Ihdr, after: bool, m: Meta, t: Type, length: nat, data: seq<byte>): Outcome
    requires |data| == Min(length, 768) && m.v.plteCount <= 256 && Small(t) && ValidIhdr(h)
  {
    if length == 0 then Outcome(EChunkSize, m)
    else if Placed(after, m.file, t) != NoError then Outcome(Placed(after, m.file, t), m)
    else
      var p := Parse(h, m.file, m.v, t, length, data);
      if p.error != NoError then Outcome(p.error, m.(v := p.v))
      else Outcome(NoError, Meta(m.stored + {t}, m.file + {t}, p.v))
  }

  // ---- What is stored is valid ----

  predicate ValueOk(h: Ihdr, v: Values, t: Type) {
    match t
    case TPlte => PlteOk(h, v.plteCount) && |v.plte| == v.plteCount
    case TChrm => |v.chrm| == 8 && forall i :: 0 <= i < 8 ==> v.chrm[i] <= PNG_MAX
    case TGama => 0 < v.gama <= PNG_MAX
    case TSbit => SbitOk(h, v.sbit)
    case TSrgb => v.srgb as int <= 3
    case TBkgd => h.colorType == INDEXED ==> v.bkgd.index as int < v.plteCount
    case TTrns =>
      && h.colorType in {GRAYSCALE, TRUECOLOR, INDEXED}
      && (h.colorType == INDEXED ==> 0 < |v.trns.alphas| <= v.plteCount)
    case THist => |v.hist| == v.plteCount
    case TPhys => PhysOk(v.phys)
    case TTime => TimeOk(v.time)
    case TOffs => v.offs.unit as int <= 1
    case _ => true
  }

  /** These are only stored once there is a palette. */
  predicate NeedsPlte(h: Ihdr, t: Type) {
    t == THist || (h.colorType == INDEXED && (t == TBkgd || t == TTrns))
  }

  /** The invariant of the reader. */
  ghost predicate Sound(h: Ihdr, m: Meta) {
    && m.stored <= m.file && (TPlte in m.file ==> TPlte in m.stored)
    && m.v.plteCount <= 256
    && (forall t :: t in m.stored ==> ValueOk(h, m.v, t))
    && (forall t :: t in m.stored && NeedsPlte(h, t) ==> TPlte in m.stored)
  }

  /** A palette whose number of entries does not pass its check. */
  predicate PlteFails(h: Ihdr, t: Type, length: nat) {
    t == TPlte && length % 3 == 0 && !PlteOk(h, length / 3)
  }

  /** Parsing changes the value of its own kind alone, and a palette that passes to a valid one. */
  lemma ParseTouches(h: Ihdr, file: set<Type>, v: Values, t: Type, length: nat, data: seq<byte>)
    requires |data| == Min(length, 768) && v.plteCount <= 256 && Small(t) && ValidIhdr(h) && length > 0
    ensures var p := Parse(h, file, v, t, length, data);
      && (t != TPlte ==> p.v.plte == v.plte && p.v.plteCount == v.plteCount)
      && (p.error == NoError ==> ValueOk(h, p.v, t) && p.v.plteCount <= 256)
      && (t == TPlte && p.error != NoError ==> p.v == v.(plteCount := if PlteFails(h, t, length) then length / 3 else v.plteCount))
      && (p.error == NoError && NeedsPlte(h, t) && t != THist ==> TPlte in file)
      && (forall u :: u != t && (u in {TTrns, THist, TBkgd} ==> t != TPlte) ==>
            (ValueOk(h, v, u) ==> ValueOk(h, p.v, u)))
  {
    hide ReadU32, ReadU16, Pow2, ValidIhdr;
  }

  /**
   A small chunk, accepted or not, keeps the invariant, though most values are overwritten
   before they are checked; only a palette that fails its check may not.
   */
  lemma ReadSmallKeeps(h: Ihdr, after: bool, m: Meta, t: Type, length: nat, data: seq<byte>)
    requires |data| == Min(length, 768) && Small(t) && ValidIhdr(h) && Sound(h, m)
    ensures var o := ReadSmall(h, after, m, t, length, data);
      && (o.error == NoError || t != TPlte ==> Sound(h, o.m)) && m.stored <= o.m.stored && m.file <= o.m.file
      && o.m.stored <= m.stored + {t} && (o.error == NoError ==> t in o.m.stored)
  {
    if length > 0 {
      ParseTouches(h, m.file, m.v, t, length, data);
    }
    hide Parse, ValueOk, ValidIhdr;
  }

  /**
   What a palette chunk that is refused leaves: its number of entries, if that is what was
   wrong. The invariant is then lost exactly if there was a palette or the number is above
   256; a chunk that is refused for its position or a length that is no multiple of three
   leaves everything.
   */
  lemma RefusedPalette(h: Ihdr, after: bool, m: Meta, length: nat, data: seq<byte>)
    requires |data| == Min(length, 768) && ValidIhdr(h) && Sound(h, m)
    requires ReadSmall(h, after, m, TPlte, length, data).error != NoError
    ensures var o, n := ReadSmall(h, after, m, TPlte, length, data), length / 3;
      var overwritten := Placed(after, m.file, TPlte) == NoError && length > 0 && length % 3 == 0;
      && o.m == m.(v := m.v.(plteCount := if overwritten then n else m.v.plteCount))
      && (Sound(h, o.m) <==> !overwritten || (TPlte !in m.stored && n <= 256))
  {
    var o := ReadSmall(h, after, m, TPlte, length, data);
    if length > 0 {
      ParseTouches(h, m.file, m.v, TPlte, length, data);
    }
    hide ReadU32, ReadU16, Pow2, ValidIhdr;
    if TPlte !in m.stored && length / 3 <= 256 {
      StoredWithoutPalette(h, m, o.m);
    }
  }

  /** Without a palette nothing that is stored depends on its number of entries. */
  lemma StoredWithoutPalette(h: Ihdr, m: Meta, m': Meta)
    requires Sound(h, m) && TPlte !in m.stored && m'.v.plteCount <= 256
    requires m' == m.(v := m.v.(plteCount := m'.v.plteCount))
    ensures Sound(h, m')
  {
    hide Pow2, SbitOk;
    forall t | t in m.stored
      ensures ValueOk(h, m'.v, t)
    {
      assert ValueOk(h, m.v, t) && !NeedsPlte(h, t);
    }
  }

  /** A second palette, of 300 entries: the image is left with a palette that is none. */
  lemma SecondPalette(data: seq<byte>) returns (h: Ihdr, m: Meta)
    requires |data| == 768
    ensures ValidIhdr(h) && Sound(h, m) && TPlte in m.stored
    ensures var o := ReadSmall(h, false, m, TPlte, 900, data);
      o.error == EChunkSize && !Sound(h, o.m) && TPlte in o.m.stored && o.m.v.plteCount == 300
  {
    h := Ihdr(1, 1, 8, TRUECOLOR, 0, 0, 0);
    m := Meta({TPlte}, {TPlte}, NO_VALUES.(plteCount := 1, plte := [Rgb(0, 0, 0)]));
    RefusedPalette(h, false, m, 900, data);
  }

  /** Dropping flags keeps the invariant, as long as the palette is not dropped. */
  lemma RollbackKeeps(h: Ihdr, m: Meta, previous: set<Type>)
    requires Sound(h, m) && previous <= m.stored && (TPlte in m.stored ==> TPlte in previous)
    ensures Sound(h, m.(stored := previous))
  {
  }

  /** The chunks of any length change no value of the small ones. */
  lemma FlagKeeps(h: Ihdr, m: Meta, t: Type)
    requires Sound(h, m) && !Small(t)
    ensures Sound(h, m.(stored := m.stored + {t}, file := m.file + {t}))
    ensures Sound(h, m.(file := m.file + {t}))
  {
  }

  /** A small chunk that is accepted has been read to its end. */
  lemma ReadSmallConsumes(h: Ihdr, after: bool, m: Meta, t: Type, length: nat, data: seq<byte>)
    requires |data| == Min(length, 768) && m.v.plteCount <= 256 && Small(t) && ValidIhdr(h)
    requires ReadSmall(h, after, m, t, length, data).error == NoError
    ensures 0 < length <= 768
  {
    hide ReadU32, ReadU16, Pow2;
  }
}
