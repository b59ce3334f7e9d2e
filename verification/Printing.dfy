/**
 The data of the small chunks as the encoder lays it out, and the proof that the decoder
 reads back what was laid out.
 */
module Printing {
  import opened Octets
  import opened Chunks
  import opened Header
  import opened Metadata

  function PrintPlte(p: seq<Rgb>): (s: seq<byte>)
    ensures |s| == 3 * |p|
    decreases |p|
  {
    if p == [] then [] else PrintPlte(p[..|p| - 1]) + [p[|p| - 1].red, p[|p| - 1].green, p[|p| - 1].blue]
  }

  function PrintHist(p: seq<u16>): (s: seq<byte>)
    ensures |s| == 2 * |p|
    decreases |p|
  {
    if p == [] then [] else PrintHist(p[..|p| - 1]) + U16(p[|p| - 1])
  }

  function PrintWords(p: seq<word>): (s: seq<byte>)
    ensures |s| == 4 * |p|
    decreases |p|
  {
    if p == [] then [] else PrintWords(p[..|p| - 1]) + U32(p[|p| - 1])
  }

  /** A value the fields of the structs can hold. A histogram that is set fills its whole array. */
  predicate Representable(v: Values) {
    && |v.chrm| == 8 && |v.hist| == 256 && |v.plte| == v.plteCount <= 256 && |v.trns.alphas| <= 256
    && -0x8000_0000 <= v.offs.x < 0x8000_0000 && -0x8000_0000 <= v.offs.y < 0x8000_0000
  }

  function PrintSbit(h: Ihdr, s: Sbit): seq<byte> {
    if h.colorType == GRAYSCALE then [s.gray]
    else if h.colorType == TRUECOLOR || h.colorType == INDEXED then [s.red, s.green, s.blue]
    else if h.colorType == GRAYSCALE_ALPHA then [s.gray, s.alpha]
    else [s.red, s.green, s.blue, s.alpha]
  }

  function PrintBkgd(h: Ihdr, b: Bkgd): seq<byte> {
    if h.colorType == GRAYSCALE || h.colorType == GRAYSCALE_ALPHA then U16(b.gray)
    else if h.colorType == INDEXED then [b.index]
    else U16(b.red) + U16(b.green) + U16(b.blue)
  }

  function PrintTrns(h: Ihdr, t: Trns): seq<byte> {
    if h.colorType == GRAYSCALE then U16(t.gray)
    else if h.colorType == TRUECOLOR then U16(t.red) + U16(t.green) + U16(t.blue)
    else t.alphas
  }

  function PrintTime(t: Time): seq<byte> {
    U16(t.year) + [t.month, t.day, t.hour, t.minute, t.second]
  }

  function Print(h: Ihdr, v: Values, t: Type): seq<byte>
    requires Representable(v) && Small(t)
  {
    match t
    case TPlte => PrintPlte(v.plte)
    case TChrm => PrintWords(v.chrm)
    case TGama => U32(v.gama)
    case TSbit => PrintSbit(h, v.sbit)
    case TSrgb => [v.srgb]
    case TBkgd => PrintBkgd(h, v.bkgd)
    case TTrns => PrintTrns(h, v.trns)
    case THist => PrintHist(v.hist[..v.plteCount])
    case TPhys => U32(v.phys.x) + U32(v.phys.y) + [v.phys.unit]
    case TTime => PrintTime(v.time)
    case TOffs => U32(Unsigned(v.offs.x)) + U32(Unsigned(v.offs.y)) + [v.offs.unit]
  }

  // ---- What comes back: the parts that the color type gives a meaning ----

  function KeepSbit(h: Ihdr, to: Sbit, s: Sbit): Sbit {
    if h.colorType == GRAYSCALE then to.(gray := s.gray)
    else if h.colorType == TRUECOLOR || h.colorType == INDEXED then to.(red := s.red, green := s.green, blue := s.blue)
    else if h.colorType == GRAYSCALE_ALPHA then to.(gray := s.gray, alpha := s.alpha)
    else to.(red := s.red, green := s.green, blue := s.blue, alpha := s.alpha)
  }

  function KeepBkgd(h: Ihdr, to: Bkgd, b: Bkgd): Bkgd {
    if h.colorType == GRAYSCALE || h.colorType == GRAYSCALE_ALPHA then to.(gray := b.gray)
    else if h.colorType == INDEXED then to.(index := b.index)
    else to.(red := b.red, green := b.green, blue := b.blue)
  }

  function KeepTrns(h: Ihdr, to: Trns, t: Trns): Trns {
    if h.colorType == GRAYSCALE then to.(gray := t.gray)
    else if h.colorType == TRUECOLOR then to.(red := t.red, green := t.green, blue := t.blue)
    else to.(alphas := t.alphas)
  }

  /** Of a histogram, as many frequencies as there are palette entries. */
  function Keep(h: Ihdr, to: Values, v: Values, t: Type): Values
    requires Representable(v)
  {
    match t
    case TPlte => to.(plteCount := v.plteCount, plte := v.plte)
    case TChrm => to.(chrm := v.chrm)
    case TGama => to.(gama := v.gama)
    case TSbit => to.(sbit := KeepSbit(h, to.sbit, v.sbit))
    case TSrgb => to.(srgb := v.srgb)
    case TBkgd => to.(bkgd := KeepBkgd(h, to.bkgd, v.bkgd))
    case TTrns => to.(trns := KeepTrns(h, to.trns, v.trns))
    case THist => to.(hist := v.hist[..v.plteCount])
    case TPhys => to.(phys := v.phys)
    case TTime => to.(time := v.time)
    case TOffs => to.(offs := v.offs)
    case _ => to
  }

  // ---- Reading back ----

  lemma {:induction false} PlteAt(p: seq<Rgb>, i: nat)
    requires i < |p|
    ensures var s := PrintPlte(p); Rgb(s[3 * i], s[3 * i + 1], s[3 * i + 2]) == p[i]
    decreases |p|
  {
    var q := p[..|p| - 1];
    if i < |q| {
      PlteAt(q, i);
    }
  }

  lemma PlteBack(p: seq<Rgb>)
    ensures ReadPlte(PrintPlte(p), |p|) == p
  {
    hide PrintPlte;
    forall i | 0 <= i < |p|
      ensures ReadPlte(PrintPlte(p), |p|)[i] == p[i]
    {
      PlteAt(p, i);
    }
  }

  lemma {:induction false} HistAt(p: seq<u16>, i: nat)
    requires i < |p|
    ensures ReadU16(PrintHist(p)[2 * i..]) == p[i]
    decreases |p|
  {
    hide U16, ReadU16;
    var q, last := p[..|p| - 1], p[|p| - 1];
    var a, b := PrintHist(q), PrintHist(p);
    if i < |q| {
      HistAt(q, i);
      SameHead(a[2 * i..], b[2 * i..]);
    } else {
      ReadU16Back(last, []);
      assert b[2 * i..] == U16(last) + [];
    }
  }

  lemma HistBack(p: seq<u16>)
    ensures ReadHist(PrintHist(p), |p|) == p
  {
    hide PrintHist, ReadU16;
    forall i | 0 <= i < |p|
      ensures ReadHist(PrintHist(p), |p|)[i] == p[i]
    {
      HistAt(p, i);
    }
  }

  lemma SameHead(a: seq<byte>, b: seq<byte>)
    requires |a| >= 2 && a <= b
    ensures ReadU16(a) == ReadU16(b)
  {
  }

  lemma {:induction false} WordsBack(p: seq<word>, i: nat)
    requires i < |p|
    ensures ReadU32(PrintWords(p)[4 * i..]) == p[i]
    decreases |p|
  {
    hide U32, ReadU32;
    var q, last := p[..|p| - 1], p[|p| - 1];
    var a, b := PrintWords(q), PrintWords(p);
    if i < |q| {
      WordsBack(q, i);
      SameWord(a[4 * i..], b[4 * i..]);
    } else {
      ReadU32Back(last, []);
      assert b[4 * i..] == U32(last) + [];
    }
  }

  lemma SameWord(a: seq<byte>, b: seq<byte>)
    requires |a| >= 4 && a <= b
    ensures ReadU32(a) == ReadU32(b)
  {
  }

  lemma SignedBack(x: int)
    requires -0x8000_0000 <= x < 0x8000_0000
    ensures Signed(Unsigned(x)) == x
  {
  }

  lemma ThreeU16(a: u16, b: u16, c: u16)
    ensures var s := U16(a) + U16(b) + U16(c);
      |s| == 6 && ReadU16(s) == a && ReadU16(s[2..]) == b && ReadU16(s[4..]) == c
  {
    var s := U16(a) + U16(b) + U16(c);
    ReadU16Back(a, U16(b) + U16(c));
    ReadU16Back(b, U16(c));
    ReadU16Back(c, []);
    assert s == U16(a) + (U16(b) + U16(c)) && s[2..] == U16(b) + U16(c) && s[4..] == U16(c) + [];
  }

  lemma OneU16(a: u16, rest: seq<byte>)
    ensures var s := U16(a) + rest; |s| == 2 + |rest| && ReadU16(s) == a && s[2..] == rest
  {
    ReadU16Back(a, rest);
  }

  lemma TwoWords(a: word, b: word, c: byte)
    ensures var s := U32(a) + U32(b) + [c];
      |s| == 9 && ReadU32(s) == a && ReadU32(s[4..]) == b && s[8] == c
  {
    var s := U32(a) + U32(b) + [c];
    ReadU32Back(a, U32(b) + [c]);
    ReadU32Back(b, [c]);
    assert s == U32(a) + (U32(b) + [c]) && s[4..] == U32(b) + [c];
  }

  /** The values that read back: of a histogram nothing is asked. */
  predicate Printable(h: Ihdr, v: Values, t: Type) {
    t == THist || ValueOk(h, v, t)
  }

  /** Every small chunk reads back, over whatever values were held before. */
  lemma ParsePrinted(h: Ihdr, file: set<Type>, to: Values, v: Values, t: Type)
    requires ValidIhdr(h) && Small(t) && Representable(v) && Printable(h, v, t)
    requires to.plteCount <= 256 && (t == THist ==> v.plteCount > 0)
    requires NeedsPlte(h, t) ==> TPlte in file && to.plteCount == v.plteCount
    ensures var d := Print(h, v, t);
      0 < |d| <= 768 && Parse(h, file, to, t, |d|, d) == Parsed(NoError, Keep(h, to, v, t))
  {
    hide U32, U16, ReadU32, ReadU16, PrintPlte, PrintHist, PrintWords, ReadPlte, ReadHist, ValidIhdr, Pow2, Unsigned, Signed;
    match t {
      case TPlte => ParsePrintedPlte(h, to, v);
      case TChrm => ParsePrintedChrm(to, v);
      case TGama => ReadU32Back(v.gama, []);
        assert U32(v.gama) + [] == U32(v.gama);
      case TSbit =>
      case TSrgb =>
      case TBkgd => ParsePrintedBkgd(h, file, to, v);
      case TTrns => ParsePrintedTrns(h, file, to, v);
      case THist => ParsePrintedHist(to, v);
      case TPhys => TwoWords(v.phys.x, v.phys.y, v.phys.unit);
      case TTime => OneU16(v.time.year, [v.time.month, v.time.day, v.time.hour, v.time.minute, v.time.second]);
      case TOffs =>
        TwoWords(Unsigned(v.offs.x), Unsigned(v.offs.y), v.offs.unit);
        SignedBack(v.offs.x);
        SignedBack(v.offs.y);
    }
  }

  lemma ParsePrintedPlte(h: Ihdr, to: Values, v: Values)
    requires ValueOk(h, v, TPlte)
    ensures var d := PrintPlte(v.plte);
      0 < |d| <= 768 && ParsePlte(h, to, |d|, d) == Parsed(NoError, to.(plteCount := v.plteCount, plte := v.plte))
  {
    hide PrintPlte, ReadPlte, Pow2;
    PlteBack(v.plte);
  }

  lemma ParsePrintedChrm(to: Values, v: Values)
    requires |v.chrm| == 8 && forall i :: 0 <= i < 8 ==> v.chrm[i] <= PNG_MAX
    ensures var d := PrintWords(v.chrm);
      |d| == 32 && ParseChrm(to, |d|, d) == Parsed(NoError, to.(chrm := v.chrm))
  {
    hide PrintWords, ReadU32;
    var d := PrintWords(v.chrm);
    forall i | 0 <= i < 8
      ensures ReadU32(d[4 * i..]) == v.chrm[i]
    {
      WordsBack(v.chrm, i);
    }
    assert seq(8, i requires 0 <= i < 8 => ReadU32(d[4 * i..])) == v.chrm;
  }

  lemma ParsePrintedHist(to: Values, v: Values)
    requires Representable(v) && 0 < v.plteCount == to.plteCount
    ensures var d := PrintHist(v.hist[..v.plteCount]);
      0 < |d| <= 768 && ParseHist(to, |d|, d) == Parsed(NoError, to.(hist := v.hist[..v.plteCount]))
  {
    hide PrintHist, ReadHist;
    HistBack(v.hist[..v.plteCount]);
  }

  lemma ParsePrintedBkgd(h: Ihdr, file: set<Type>, to: Values, v: Values)
    requires ValidIhdr(h) && ValueOk(h, v, TBkgd)
    requires h.colorType == INDEXED ==> TPlte in file && to.plteCount == v.plteCount
    ensures var d := PrintBkgd(h, v.bkgd);
      0 < |d| <= 768 && ParseBkgd(h, file, to, |d|, d) == Parsed(NoError, to.(bkgd := KeepBkgd(h, to.bkgd, v.bkgd)))
  {
    hide U16, ReadU16;
    ThreeU16(v.bkgd.red, v.bkgd.green, v.bkgd.blue);
    OneU16(v.bkgd.gray, []);
    assert U16(v.bkgd.gray) + [] == U16(v.bkgd.gray);
  }

  lemma ParsePrintedTrns(h: Ihdr, file: set<Type>, to: Values, v: Values)
    requires ValidIhdr(h) && ValueOk(h, v, TTrns) && to.plteCount <= 256
    requires h.colorType == INDEXED ==> TPlte in file && to.plteCount == v.plteCount
    ensures var d := PrintTrns(h, v.trns);
      0 < |d| <= 768 && ParseTrns(h, file, to, |d|, d) == Parsed(NoError, to.(trns := KeepTrns(h, to.trns, v.trns)))
  {
    hide U16, ReadU16;
    ThreeU16(v.trns.red, v.trns.green, v.trns.blue);
    OneU16(v.trns.gray, []);
    assert U16(v.trns.gray) + [] == U16(v.trns.gray);
  }
}
