/**
 Every chunk the encoder writes around the image data is accepted by the decoder, passes its
 position and duplicate checks, and gives back what was stored.
 */
module MetadataRoundTrip {
  import opened Octets
  import opened Chunks
  import opened Header
  import opened Metadata
  import opened Printing
  import opened LongChunks

  /** What the decoder has kept so far. */
  datatype Kept = Kept(m: Meta, exif: seq<byte>, splts: seq<Splt>, unknowns: seq<Unknown>)

  const NOTHING := Kept(Meta({}, {}, NO_VALUES), [], [], [])

  datatype Accepted = Accepted(kept: Kept) | Refused

  function Flag(m: Meta, t: Type): Meta {
    m.(stored := m.stored + {t}, file := m.file + {t})
  }

  /** Where an unknown chunk is taken to stand. */
  function Placement(after: bool, file: set<Type>): Location {
    if after then AfterIdat else if TPlte in file then AfterPlte else AfterIhdr
  }

  /** One intact chunk read by a decoder that keeps unknown chunks and is not short of memory. */
  function Accept(h: Ihdr, after: bool, r: Kept, c: Chunk): Accepted
    requires ValidIhdr(h) && r.m.v.plteCount <= 256 && |c.kind| == 4
  {
    var t := TypeOf(c.kind);
    if Small(t) then
      var o := ReadSmall(h, after, r.m, t, |c.data|, c.data[..Min(|c.data|, 768)]);
      if o.error == NoError then Accepted(r.(m := o.m)) else Refused
    else if Critical(c.kind) then Refused
    else if t == TExif then
      if TExif in r.m.file || !ExifOk(c.data) then Refused
      else Accepted(r.(m := Flag(r.m, TExif), exif := c.data))
    else if t == TSplt then
      var p := ParseSplt(r.splts, c.data);
      if after || p.error != NoError then Refused
      else Accepted(r.(m := Flag(r.m, TSplt), splts := r.splts + [p.splt]))
    else if t == TUnknown then
      Accepted(r.(m := Flag(r.m, TUnknown),
        unknowns := r.unknowns + [Unknown(c.kind, c.data, Placement(after, r.m.file))]))
    else Refused
  }

  function ReadAll(h: Ihdr, after: bool, r: Kept, chunks: seq<Chunk>): (a: Accepted)
    requires ValidIhdr(h) && r.m.v.plteCount <= 256 && forall i :: 0 <= i < |chunks| ==> |chunks[i].kind| == 4
    decreases |chunks|
  {
    if chunks == [] then Accepted(r)
    else
      match Accept(h, after, r, chunks[0])
      case Refused => Refused
      case Accepted(next) => if next.m.v.plteCount <= 256 then ReadAll(h, after, next, chunks[1..]) else Refused
  }

  predicate Kinds(chunks: seq<Chunk>) {
    forall i :: 0 <= i < |chunks| ==> |chunks[i].kind| == 4
  }

  lemma {:induction false} ReadAllAppend(h: Ihdr, after: bool, r: Kept, a: seq<Chunk>, b: seq<Chunk>, mid: Kept)
    requires ValidIhdr(h) && r.m.v.plteCount <= 256 && Kinds(a) && Kinds(b)
    requires ReadAll(h, after, r, a) == Accepted(mid) && mid.m.v.plteCount <= 256
    ensures ReadAll(h, after, r, a + b) == ReadAll(h, after, mid, b)
    decreases |a|
  {
    hide Accept, ValidIhdr;
    if a == [] {
      assert a + b == b;
    } else {
      assert (a + b)[0] == a[0] && (a + b)[1..] == a[1..] + b;
      ReadAllAppend(h, after, Accept(h, after, r, a[0]).kept, a[1..], b, mid);
    }
  }

  // ---- What the encoder writes ----

  /** Everything an encoder holds besides the pixels. */
  datatype Held = Held(stored: set<Type>, v: Values, exif: seq<byte>, splts: seq<Splt>, unknowns: seq<Unknown>)

  function KindOf(t: Type): seq<byte>
    requires Small(t)
  {
    match t
    case TPlte => PLTE
    case TChrm => CHRM
    case TGama => GAMA
    case TSbit => SBIT
    case TSrgb => SRGB
    case TBkgd => BKGD
    case TTrns => TRNS
    case THist => HIST
    case TPhys => PHYS
    case TTime => TIME
    case TOffs => OFFS
  }

  lemma KindOfBack(t: Type)
    requires Small(t)
    ensures TypeOf(KindOf(t)) == t && |KindOf(t)| == 4
  {
    var k := KindOf(t);
    assert k[0] == KindOf(t)[0] && k[1] == KindOf(t)[1] && k[2] == KindOf(t)[2] && k[3] == KindOf(t)[3];
  }

  function One(h: Ihdr, held: Held, t: Type): seq<Chunk>
    requires Small(t) && Representable(held.v)
  {
    if t in held.stored then [Chunk(KindOf(t), Print(h, held.v, t))] else []
  }

  function Unknowns(list: seq<Unknown>, location: Location): seq<Chunk> {
    if list == [] then []
    else if list[0].location == location then [Chunk(list[0].kind, list[0].data)] + Unknowns(list[1..], location)
    else Unknowns(list[1..], location)
  }

  function Splts(list: seq<Splt>): seq<Chunk> {
    if list == [] then [] else [SpltChunk(list[0])] + Splts(list[1..])
  }

  /** The palettes and the unknown chunks are only written when their flags are set. */
  function StoredUnknowns(held: Held, location: Location): seq<Chunk> {
    if TUnknown in held.stored then Unknowns(held.unknowns, location) else []
  }

  function StoredSplts(held: Held): seq<Chunk> {
    if TSplt in held.stored then Splts(held.splts) else []
  }

  function StoredExif(held: Held): seq<Chunk> {
    if TExif in held.stored then [Chunk(EXIF, held.exif)] else []
  }

  ghost predicate SpltsOk(list: seq<Splt>) {
    && (forall i :: 0 <= i < |list| ==> SpltOk(list[i]))
    && (forall i, j :: 0 <= i < j < |list| ==> list[i].name != list[j].name)
  }

  /** An unknown chunk must be unknown to the decoder too, and ancillary. */
  predicate UnknownOk(u: Unknown) {
    |u.kind| == 4 && TypeOf(u.kind) == TUnknown && !Critical(u.kind)
  }

  /** What the setter checks of a value. That a later palette fits the others it does not. */
  predicate Settable(h: Ihdr, v: Values, t: Type) {
    match t
    case TTrns => h.colorType in {GRAYSCALE, TRUECOLOR, INDEXED}
    case TBkgd => true
    case THist => true
    case _ => ValueOk(h, v, t)
  }

  /** What the setters see to. */
  ghost predicate Admitted(h: Ihdr, held: Held) {
    && ValidIhdr(h) && Representable(held.v)
    && (forall t :: t in held.stored ==> Settable(h, held.v, t))
    && (forall t :: t in held.stored && NeedsPlte(h, t) ==> TPlte in held.stored)
    && (TExif in held.stored ==> ExifOk(held.exif) && |held.exif| <= PNG_MAX)
    && (forall i :: 0 <= i < |held.splts| ==> SpltSettable(held.splts[i]))
    && (forall i :: 0 <= i < |held.unknowns| ==> UnknownSettable(held.unknowns[i]))
    && (TSplt !in held.stored ==> held.splts == []) && (TUnknown !in held.stored ==> held.unknowns == [])
  }

  predicate UnknownSettable(u: Unknown) {
    |u.kind| == 4 && |u.data| <= PNG_MAX
  }

  /** What is left to the caller. */
  ghost predicate Consistent(h: Ihdr, held: Held) {
    && (h.colorType == INDEXED && TBkgd in held.stored ==> held.v.bkgd.index as int < held.v.plteCount)
    && (h.colorType == INDEXED && TTrns in held.stored ==> 0 < |held.v.trns.alphas| <= held.v.plteCount)
    && SpltsOk(held.splts)
    && UnknownsOk(held.unknowns, AfterIhdr) && UnknownsOk(held.unknowns, AfterPlte)
  }

  ghost predicate Fit(chunks: seq<Chunk>) {
    forall i :: 0 <= i < |chunks| ==> chunks[i].Valid()
  }

  /** No chunk is too long to be written. */
  ghost predicate AllFit(h: Ihdr, held: Held)
    requires Admitted(h, held)
  {
    Fit(BeforeIdat(h, held))
  }

  predicate UnknownsOk(list: seq<Unknown>, location: Location) {
    forall i :: 0 <= i < |list| && list[i].location == location ==> UnknownOk(list[i])
  }

  ghost predicate HeldOk(h: Ihdr, held: Held) {
    Admitted(h, held) && Consistent(h, held)
  }

  /** The chunks between IHDR and the image data, in the order they are written. */
  ghost function BeforeIdat(h: Ihdr, held: Held): seq<Chunk>
    requires Admitted(h, held)
  {
    One(h, held, TChrm) + One(h, held, TGama) + One(h, held, TSbit) + One(h, held, TSrgb)
    + StoredUnknowns(held, AfterIhdr)
    + One(h, held, TPlte) + One(h, held, TBkgd) + One(h, held, THist) + One(h, held, TTrns) + One(h, held, TPhys)
    + StoredSplts(held)
    + One(h, held, TTime) + One(h, held, TOffs)
    + StoredExif(held)
    + StoredUnknowns(held, AfterPlte)
  }

  // ---- Reading the written chunks back ----

  /** a carries of t what v does, as far as the color type gives it a meaning. */
  ghost predicate Same(h: Ihdr, a: Values, v: Values, t: Type)
    requires Representable(v)
  {
    Keep(h, a, v, t) == a
  }

  lemma KeepSame(h: Ihdr, a: Values, v: Values, t: Type)
    requires Representable(v)
    ensures Same(h, Keep(h, a, v, t), v, t)
    ensures forall u :: u != t && Same(h, a, v, u) ==> Same(h, Keep(h, a, v, t), v, u)
  {
  }

  /** The small chunks of `done` have been read back, and no others. */
  ghost predicate Progress(h: Ihdr, held: Held, r: Kept, done: set<Type>) {
    && Representable(held.v) && r.m.v.plteCount <= 256 && r.m.stored == r.m.file
    && (forall t :: Small(t) ==> (t in r.m.file <==> t in held.stored && t in done))
    && (forall t :: Small(t) && t in held.stored && t in done ==> Same(h, r.m.v, held.v, t))
  }

  lemma StepSmall(h: Ihdr, held: Held, r: Kept, done: set<Type>, t: Type) returns (next: Kept)
    requires HeldOk(h, held) && Small(t) && Progress(h, held, r, done) && t !in done
    requires t in {TChrm, TGama, TSbit, TSrgb} ==> TPlte !in done
    requires t in {TBkgd, TTrns, THist} ==> TPlte in done
    requires t == TPlte ==> TBkgd !in done && TTrns !in done && THist !in done
    ensures ReadAll(h, false, r, One(h, held, t)) == Accepted(next)
    ensures Progress(h, held, next, done + {t})
    ensures next == r.(m := next.m)
    ensures TExif in next.m.file <==> TExif in r.m.file
  {
    hide HeldOk, Progress, Keep, ValueOk, ReadAll, Accept, Print, Parse, ValidIhdr, Placed, Representable, NeedsPlte, Small;
    HeldFacts(h, held);
    ProgressFacts(h, held, r, done);
    if t in held.stored {
      SameParts(h, held, r, done, t);
      ParsePrinted(h, r.m.file, r.m.v, held.v, t);
      KindOfBack(t);
      var d := Print(h, held.v, t);
      var v := Keep(h, r.m.v, held.v, t);
      AcceptSmall(h, r, Chunk(KindOf(t), d), t, v);
      next := r.(m := Meta(r.m.stored + {t}, r.m.file + {t}, v));
      ProgressStep(h, held, r, done, t, next);
      ProgressFacts(h, held, next, done + {t});
      OneAccepted(h, false, r, Chunk(KindOf(t), d), next);
    } else {
      next := r;
      NothingRead(h, false, r);
      ProgressSkip(h, held, r, done, t);
    }
  }

  lemma AdmittedFacts(h: Ihdr, held: Held)
    requires Admitted(h, held)
    ensures ValidIhdr(h) && Representable(held.v)
  {
  }

  lemma HeldFacts(h: Ihdr, held: Held)
    requires HeldOk(h, held)
    ensures ValidIhdr(h) && Representable(held.v) && SpltsOk(held.splts) && Admitted(h, held)
    ensures forall t :: t in held.stored ==> Printable(h, held.v, t)
  {
  }

  lemma ProgressFacts(h: Ihdr, held: Held, r: Kept, done: set<Type>)
    requires Progress(h, held, r, done)
    ensures r.m.v.plteCount <= 256
  {
  }

  lemma ProgressStep(h: Ihdr, held: Held, r: Kept, done: set<Type>, t: Type, next: Kept)
    requires HeldOk(h, held) && Small(t) && Progress(h, held, r, done) && t in held.stored && t !in done
    requires next == r.(m := Meta(r.m.stored + {t}, r.m.file + {t}, Keep(h, r.m.v, held.v, t)))
    ensures Progress(h, held, next, done + {t})
    ensures TExif in next.m.file <==> TExif in r.m.file
  {
    KeepSame(h, r.m.v, held.v, t);
    KeepPlte(h, r.m.v, held.v, t);
    hide Keep, Same;
  }

  lemma ProgressSkip(h: Ihdr, held: Held, r: Kept, done: set<Type>, t: Type)
    requires Progress(h, held, r, done) && t !in held.stored
    ensures Progress(h, held, r, done + {t})
  {
    hide Keep, Same;
  }

  lemma KeepPlte(h: Ihdr, a: Values, v: Values, t: Type)
    requires Representable(v)
    ensures Keep(h, a, v, t).plteCount == if t == TPlte then v.plteCount else a.plteCount
  {
  }

  /** With a palette read back, the palette is the one that was held. */
  lemma SameParts(h: Ihdr, held: Held, r: Kept, done: set<Type>, t: Type)
    requires HeldOk(h, held) && Small(t) && Progress(h, held, r, done) && t in held.stored
    requires t in {TBkgd, TTrns, THist} ==> TPlte in done
    requires t in {TChrm, TGama, TSbit, TSrgb} ==> TPlte !in done
    requires t == TPlte ==> TBkgd !in done && TTrns !in done && THist !in done
    requires t !in done
    ensures NeedsPlte(h, t) ==> TPlte in r.m.file && r.m.v.plteCount == held.v.plteCount
    ensures t == THist ==> 0 < held.v.plteCount
    ensures Placed(false, r.m.file, t) == NoError
  {
    assert forall u :: Small(u) && u !in done ==> u !in r.m.file;
    assert Small(TPlte) && Small(TBkgd) && Small(TTrns) && Small(THist);
    if NeedsPlte(h, t) {
      assert ValueOk(h, held.v, TPlte);
    }
  }

  lemma AcceptSmall(h: Ihdr, r: Kept, c: Chunk, t: Type, v: Values)
    requires ValidIhdr(h) && r.m.v.plteCount <= 256 && |c.kind| == 4 && TypeOf(c.kind) == t && Small(t)
    requires 0 < |c.data| <= 768 && Placed(false, r.m.file, t) == NoError
    requires Parse(h, r.m.file, r.m.v, t, |c.data|, c.data) == Parsed(NoError, v)
    ensures Accept(h, false, r, c) == Accepted(r.(m := Meta(r.m.stored + {t}, r.m.file + {t}, v)))
  {
    hide Parse, ValidIhdr;
    assert c.data[..Min(|c.data|, 768)] == c.data;
  }

  lemma OneAccepted(h: Ihdr, after: bool, r: Kept, c: Chunk, next: Kept)
    requires ValidIhdr(h) && r.m.v.plteCount <= 256 && |c.kind| == 4
    requires Accept(h, after, r, c) == Accepted(next) && next.m.v.plteCount <= 256
    ensures ReadAll(h, after, r, [c]) == Accepted(next)
  {
    hide Accept;
    assert [c][1..] == [];
    assert ReadAll(h, after, next, []) == Accepted(next);
  }

  lemma Then(h: Ihdr, after: bool, r: Kept, a: seq<Chunk>, mid: Kept, b: seq<Chunk>, next: Kept)
    requires ValidIhdr(h) && r.m.v.plteCount <= 256 && Kinds(a) && Kinds(b) && mid.m.v.plteCount <= 256
    requires ReadAll(h, after, r, a) == Accepted(mid) && ReadAll(h, after, mid, b) == Accepted(next)
    ensures Kinds(a + b) && ReadAll(h, after, r, a + b) == Accepted(next)
  {
    ReadAllAppend(h, after, r, a, b, mid);
  }

  /** The unknown chunks of one location, in their order, at the location they are taken to be. */
  function At(list: seq<Unknown>, location: Location, to: Location): seq<Unknown> {
    if list == [] then []
    else if list[0].location == location then [list[0].(location := to)] + At(list[1..], location, to)
    else At(list[1..], location, to)
  }

  /** The same up to the flags of chunks that are not small. */
  ghost predicate SameSmall(a: Meta, b: Meta) {
    && a.v == b.v && (a.stored == a.file ==> b.stored == b.file)
    && (forall t :: Small(t) ==> (t in a.file <==> t in b.file))
  }

  lemma {:induction false} UnknownsBack(h: Ihdr, after: bool, r: Kept, list: seq<Unknown>, location: Location) returns (next: Kept)
    requires ValidIhdr(h) && r.m.v.plteCount <= 256 && UnknownsOk(list, location)
    ensures Kinds(Unknowns(list, location)) && ReadAll(h, after, r, Unknowns(list, location)) == Accepted(next)
    ensures SameSmall(r.m, next.m) && next.exif == r.exif && next.splts == r.splts
    ensures TExif in next.m.file <==> TExif in r.m.file
    ensures next.unknowns == r.unknowns + At(list, location, Placement(after, r.m.file))
    decreases |list|
  {
    hide ReadAll, Accept, ValidIhdr, TypeOf, Critical, Placement;
    if list == [] {
      next := r;
      NothingRead(h, after, r);
    } else if list[0].location != location {
      next := UnknownsBack(h, after, r, list[1..], location);
    } else {
      var u := list[0];
      var c := Chunk(u.kind, u.data);
      var mid := AcceptUnknown(h, after, r, u);
      next := UnknownsBack(h, after, mid, list[1..], location);
      OneAccepted(h, after, r, c, mid);
      Then(h, after, r, [c], mid, Unknowns(list[1..], location), next);
      assert r.unknowns + [u.(location := Placement(after, r.m.file))] + At(list[1..], location, Placement(after, r.m.file))
          == next.unknowns;
    }
  }

  lemma AcceptUnknown(h: Ihdr, after: bool, r: Kept, u: Unknown) returns (next: Kept)
    requires ValidIhdr(h) && r.m.v.plteCount <= 256 && UnknownOk(u)
    ensures Accept(h, after, r, Chunk(u.kind, u.data)) == Accepted(next)
    ensures SameSmall(r.m, next.m) && Placement(after, next.m.file) == Placement(after, r.m.file)
    ensures next == r.(m := next.m, unknowns := r.unknowns + [u.(location := Placement(after, r.m.file))])
    ensures TExif in next.m.file <==> TExif in r.m.file
  {
    hide ValidIhdr, TypeOf, Critical;
    next := Accept(h, after, r, Chunk(u.kind, u.data)).kept;
  }

  lemma {:induction false} SpltsBack(h: Ihdr, r: Kept, list: seq<Splt>) returns (next: Kept)
    requires ValidIhdr(h) && r.m.v.plteCount <= 256 && SpltsOk(list)
    requires forall i :: 0 <= i < |list| ==> NewName(r.splts, list[i])
    ensures Kinds(Splts(list)) && ReadAll(h, false, r, Splts(list)) == Accepted(next)
    ensures SameSmall(r.m, next.m) && next.exif == r.exif && next.unknowns == r.unknowns
    ensures TExif in next.m.file <==> TExif in r.m.file
    ensures next.splts == r.splts + list
    decreases |list|
  {
    hide ReadAll, Accept, ValidIhdr, SpltOk, SpltsOk, PrintSplt;
    if list == [] {
      next := r;
      NothingRead(h, false, r);
    } else {
      RestOk(list, r.splts);
      var c := SpltChunk(list[0]);
      var mid := AcceptSplt(h, r, list[0]);
      next := SpltsBack(h, mid, list[1..]);
      OneAccepted(h, false, r, c, mid);
      Then(h, false, r, [c], mid, Splts(list[1..]), next);
      assert r.splts + [list[0]] + list[1..] == r.splts + list;
    }
  }

  lemma RestOk(list: seq<Splt>, kept: seq<Splt>)
    requires SpltsOk(list) && list != []
    requires forall i :: 0 <= i < |list| ==> NewName(kept, list[i])
    ensures SpltsOk(list[1..]) && SpltOk(list[0]) && forall i :: 0 <= i < |list[1..]| ==> SpltOk(list[1..][i])
    ensures NewName(kept, list[0])
    ensures forall i :: 0 <= i < |list[1..]| ==> NewName(kept + [list[0]], list[1..][i])
  {
    hide SpltOk;
    var rest := list[1..];
    assert forall i :: 0 <= i < |rest| ==> rest[i] == list[i + 1];
  }

  lemma SpltType()
    ensures TypeOf(SPLT) == TSplt && |SPLT| == 4 && !Critical(SPLT)
  {
    assert SPLT[0] == 115 && SPLT[1] == 80;
  }

  lemma NothingRead(h: Ihdr, after: bool, r: Kept)
    requires ValidIhdr(h) && r.m.v.plteCount <= 256
    ensures ReadAll(h, after, r, []) == Accepted(r)
  {
  }

  lemma AcceptSplt(h: Ihdr, r: Kept, s: Splt) returns (next: Kept)
    requires ValidIhdr(h) && r.m.v.plteCount <= 256 && SpltOk(s) && NewName(r.splts, s)
    ensures Accept(h, false, r, SpltChunk(s)) == Accepted(next)
    ensures SameSmall(r.m, next.m) && next == r.(m := next.m, splts := r.splts + [s])
    ensures TExif in next.m.file <==> TExif in r.m.file
  {
    hide ValidIhdr, ParseSplt, PrintSplt, SpltOk, TypeOf, Critical;
    SpltBack(r.splts, s);
    SpltType();
    var c := SpltChunk(s);
    next := Accept(h, false, r, c).kept;
  }

  /** From one group of small chunks to the next. */
  ghost predicate Reached(h: Ihdr, held: Held, chunks: seq<Chunk>, r: Kept, done: set<Type>) {
    && ValidIhdr(h) && Kinds(chunks) && ReadAll(h, false, NOTHING, chunks) == Accepted(r)
    && Progress(h, held, r, done)
  }

  lemma ReachSmall(h: Ihdr, held: Held, chunks: seq<Chunk>, r: Kept, done: set<Type>, t: Type) returns (next: Kept)
    requires HeldOk(h, held) && Small(t) && Reached(h, held, chunks, r, done) && t !in done
    requires t in {TChrm, TGama, TSbit, TSrgb} ==> TPlte !in done
    requires t in {TBkgd, TTrns, THist} ==> TPlte in done
    requires t == TPlte ==> TBkgd !in done && TTrns !in done && THist !in done
    ensures Reached(h, held, chunks + One(h, held, t), next, done + {t})
    ensures next == r.(m := next.m)
    ensures TExif in next.m.file <==> TExif in r.m.file
  {
    next := StepSmall(h, held, r, done, t);
    KindOfBack(t);
    hide ReadAll, HeldOk, Print;
    Then(h, false, NOTHING, chunks, r, One(h, held, t), next);
  }

  lemma ProgressKept(h: Ihdr, held: Held, r: Kept, next: Kept, done: set<Type>)
    requires Progress(h, held, r, done) && SameSmall(r.m, next.m)
    ensures Progress(h, held, next, done)
  {
    hide Keep;
  }

  lemma ReachMore(h: Ihdr, held: Held, chunks: seq<Chunk>, r: Kept, done: set<Type>, more: seq<Chunk>, next: Kept)
    requires Reached(h, held, chunks, r, done) && Kinds(more) && ReadAll(h, false, r, more) == Accepted(next)
    requires SameSmall(r.m, next.m)
    ensures Reached(h, held, chunks + more, next, done)
  {
    hide ReadAll;
    ProgressKept(h, held, r, next, done);
    Then(h, false, NOTHING, chunks, r, more, next);
  }

  lemma ReachUnknowns(h: Ihdr, held: Held, chunks: seq<Chunk>, r: Kept, done: set<Type>, location: Location) returns (next: Kept)
    requires HeldOk(h, held) && Reached(h, held, chunks, r, done) && location != AfterIdat
    ensures Reached(h, held, chunks + StoredUnknowns(held, location), next, done)
    ensures next.exif == r.exif && next.splts == r.splts
    ensures next.unknowns == r.unknowns
      + if TUnknown in held.stored then At(held.unknowns, location, Placement(false, r.m.file)) else []
    ensures TExif in next.m.file <==> TExif in r.m.file
  {
    if TUnknown in held.stored {
      next := UnknownsBack(h, false, r, held.unknowns, location);
      hide HeldOk;
      ReachMore(h, held, chunks, r, done, Unknowns(held.unknowns, location), next);
    } else {
      next := r;
      assert chunks + [] == chunks;
    }
  }

  lemma ReachSplts(h: Ihdr, held: Held, chunks: seq<Chunk>, r: Kept, done: set<Type>) returns (next: Kept)
    requires HeldOk(h, held) && Reached(h, held, chunks, r, done) && r.splts == []
    ensures Reached(h, held, chunks + StoredSplts(held), next, done)
    ensures next.exif == r.exif && next.unknowns == r.unknowns
    ensures next.splts == if TSplt in held.stored then held.splts else []
    ensures TExif in next.m.file <==> TExif in r.m.file
  {
    if TSplt in held.stored {
      next := SpltsBack(h, r, held.splts);
      hide HeldOk, SpltsOk;
      ReachMore(h, held, chunks, r, done, Splts(held.splts), next);
    } else {
      next := r;
      assert chunks + [] == chunks;
    }
  }

  lemma ExifType()
    ensures TypeOf(EXIF) == TExif && |EXIF| == 4 && !Critical(EXIF)
  {
    assert EXIF[0] == 101;
  }

  lemma OneKind(c: Chunk)
    requires |c.kind| == 4
    ensures Kinds([c])
  {
  }

  lemma AcceptExif(h: Ihdr, held: Held, chunks: seq<Chunk>, r: Kept, done: set<Type>) returns (next: Kept)
    requires HeldOk(h, held) && Reached(h, held, chunks, r, done) && TExif !in r.m.file && TExif in held.stored
    ensures ValidIhdr(h) && r.m.v.plteCount <= 256 && |EXIF| == 4
    ensures Accept(h, false, r, Chunk(EXIF, held.exif)) == Accepted(next)
    ensures next.m.v.plteCount <= 256 && SameSmall(r.m, next.m)
    ensures next == r.(m := next.m, exif := held.exif)
  {
    hide ExifOk, TypeOf, Critical, ReadAll, Keep, ValidIhdr, SpltsOk, UnknownsOk;
    ExifType();
    next := Accept(h, false, r, Chunk(EXIF, held.exif)).kept;
  }

  lemma ReachExif(h: Ihdr, held: Held, chunks: seq<Chunk>, r: Kept, done: set<Type>) returns (next: Kept)
    requires HeldOk(h, held) && Reached(h, held, chunks, r, done) && TExif !in r.m.file && r.exif == []
    ensures Reached(h, held, chunks + StoredExif(held), next, done)
    ensures next.splts == r.splts && next.unknowns == r.unknowns
    ensures next.exif == if TExif in held.stored then held.exif else []
  {
    hide HeldOk, ExifOk, TypeOf, Critical, ReadAll, Accept, Keep, ValidIhdr, Reached, Kinds;
    if TExif in held.stored {
      var c := Chunk(EXIF, held.exif);
      next := AcceptExif(h, held, chunks, r, done);
      OneAccepted(h, false, r, c, next);
      OneKind(c);
      ReachMore(h, held, chunks, r, done, [c], next);
    } else {
      next := r;
      assert chunks + [] == chunks;
    }
  }

  /** What of the unknown chunks comes back, and where they are then taken to stand. */
  function UnknownsRead(held: Held): seq<Unknown> {
    if TUnknown in held.stored then
      At(held.unknowns, AfterIhdr, AfterIhdr)
      + At(held.unknowns, AfterPlte, if TPlte in held.stored then AfterPlte else AfterIhdr)
    else []
  }

  /** The decoder's state once the chunks before the image data have been read back. */
  ghost predicate ReadBack(h: Ihdr, held: Held, r: Kept)
    requires Representable(held.v)
  {
    && r.m.v.plteCount <= 256 && r.m.stored == r.m.file
    && (forall t :: Small(t) ==> (t in r.m.stored <==> t in held.stored))
    && (forall t :: Small(t) && t in held.stored ==> Same(h, r.m.v, held.v, t))
    && r.exif == (if TExif in held.stored then held.exif else [])
    && r.splts == (if TSplt in held.stored then held.splts else [])
    && r.unknowns == UnknownsRead(held)
  }

  /**
   For every valid header and everything that is consistent, the chunks written before the
   image data are all accepted, and give back every value, the exif data, the palettes in their
   order, and the unknown chunks.
   */
  lemma PrintedReadsBack(h: Ihdr, held: Held) returns (r: Kept)
    requires HeldOk(h, held)
    ensures Kinds(BeforeIdat(h, held)) && ReadAll(h, false, NOTHING, BeforeIdat(h, held)) == Accepted(r)
    ensures ReadBack(h, held, r)
  {
    hide HeldOk, Reached, ReadAll, Keep, ValidIhdr, One, StoredSplts, StoredExif, StoredUnknowns, Kinds, At, Same, Representable, SpltsOk, ValueOk, Placement;
    HeldFacts(h, held);
    var c5, r5 := ReadFirst(h, held);
    var c10, r10 := ReadSecond(h, held, c5, r5);
    var r11 := ReachSplts(h, held, c10, r10, DONE10);
    var c11 := c10 + StoredSplts(held);
    var r12 := ReachSmall(h, held, c11, r11, DONE10, TTime);
    var c12 := c11 + One(h, held, TTime);
    var r13 := ReachSmall(h, held, c12, r12, DONE10 + {TTime}, TOffs);
    var c13 := c12 + One(h, held, TOffs);
    var done13 := DONE10 + {TTime} + {TOffs};
    var r14 := ReachExif(h, held, c13, r13, done13);
    var c14 := c13 + StoredExif(held);
    Palette(h, held, c14, r14, done13);
    r := ReachUnknowns(h, held, c14, r14, done13, AfterPlte);
    Finished(h, held, c14 + StoredUnknowns(held, AfterPlte), r, done13);
  }

  const DONE4: set<Type> := {TChrm, TGama, TSbit, TSrgb}
  const DONE10: set<Type> := {TChrm, TGama, TSbit, TSrgb, TPlte, TBkgd, THist, TTrns, TPhys}

  /** Up to the palette. */
  lemma ReadFirst(h: Ihdr, held: Held) returns (chunks: seq<Chunk>, r: Kept)
    requires HeldOk(h, held)
    ensures chunks == One(h, held, TChrm) + One(h, held, TGama) + One(h, held, TSbit) + One(h, held, TSrgb)
      + StoredUnknowns(held, AfterIhdr)
    ensures Reached(h, held, chunks, r, DONE4) && r.exif == [] && r.splts == [] && TExif !in r.m.file
    ensures r.unknowns == if TUnknown in held.stored then At(held.unknowns, AfterIhdr, AfterIhdr) else []
  {
    hide HeldOk, Reached, ReadAll, Print, Keep, ValidIhdr, One, StoredUnknowns, Kinds, At, Representable, Placement;
    StartReached(h, held);
    HeldFacts(h, held);
    var r1 := ReachSmall(h, held, [], NOTHING, {}, TChrm);
    var c1 := One(h, held, TChrm);
    assert [] + c1 == c1;
    var r2 := ReachSmall(h, held, c1, r1, {} + {TChrm}, TGama);
    var c2 := c1 + One(h, held, TGama);
    var r3 := ReachSmall(h, held, c2, r2, {} + {TChrm} + {TGama}, TSbit);
    var c3 := c2 + One(h, held, TSbit);
    var r4 := ReachSmall(h, held, c3, r3, {} + {TChrm} + {TGama} + {TSbit}, TSrgb);
    var c4 := c3 + One(h, held, TSrgb);
    assert {} + {TChrm} + {TGama} + {TSbit} + {TSrgb} == DONE4;
    NoPalette(h, held, c4, r4, DONE4);
    r := ReachUnknowns(h, held, c4, r4, DONE4, AfterIhdr);
    chunks := c4 + StoredUnknowns(held, AfterIhdr);
    assert [] + r.unknowns == r.unknowns;
  }

  /** From the palette to the physical dimensions. */
  lemma ReadSecond(h: Ihdr, held: Held, before: seq<Chunk>, from: Kept) returns (chunks: seq<Chunk>, r: Kept)
    requires HeldOk(h, held) && Reached(h, held, before, from, DONE4)
    ensures chunks == before + One(h, held, TPlte) + One(h, held, TBkgd) + One(h, held, THist)
      + One(h, held, TTrns) + One(h, held, TPhys)
    ensures Reached(h, held, chunks, r, DONE10)
    ensures r == from.(m := r.m) && (TExif in r.m.file <==> TExif in from.m.file)
  {
    hide HeldOk, Reached, ReadAll, Print, Keep, ValidIhdr, One, Kinds, Representable;
    HeldFacts(h, held);
    var r6 := ReachSmall(h, held, before, from, DONE4, TPlte);
    var c6 := before + One(h, held, TPlte);
    var r7 := ReachSmall(h, held, c6, r6, DONE4 + {TPlte}, TBkgd);
    var c7 := c6 + One(h, held, TBkgd);
    var r8 := ReachSmall(h, held, c7, r7, DONE4 + {TPlte} + {TBkgd}, THist);
    var c8 := c7 + One(h, held, THist);
    var r9 := ReachSmall(h, held, c8, r8, DONE4 + {TPlte} + {TBkgd} + {THist}, TTrns);
    var c9 := c8 + One(h, held, TTrns);
    r := ReachSmall(h, held, c9, r9, DONE4 + {TPlte} + {TBkgd} + {THist} + {TTrns}, TPhys);
    chunks := c9 + One(h, held, TPhys);
    assert DONE4 + {TPlte} + {TBkgd} + {THist} + {TTrns} + {TPhys} == DONE10;
  }

  lemma StartReached(h: Ihdr, held: Held)
    requires HeldOk(h, held)
    ensures Reached(h, held, [], NOTHING, {})
  {
  }

  lemma NoPalette(h: Ihdr, held: Held, chunks: seq<Chunk>, r: Kept, done: set<Type>)
    requires Reached(h, held, chunks, r, done) && TPlte !in done
    ensures Placement(false, r.m.file) == AfterIhdr
  {
    assert Small(TPlte);
  }

  lemma Palette(h: Ihdr, held: Held, chunks: seq<Chunk>, r: Kept, done: set<Type>)
    requires Reached(h, held, chunks, r, done) && TPlte in done
    ensures Placement(false, r.m.file) == if TPlte in held.stored then AfterPlte else AfterIhdr
  {
    assert Small(TPlte);
  }

  lemma Finished(h: Ihdr, held: Held, chunks: seq<Chunk>, r: Kept, done: set<Type>)
    requires Reached(h, held, chunks, r, done)
    requires {TChrm, TGama, TSbit, TSrgb, TPlte, TBkgd, THist, TTrns, TPhys, TTime, TOffs} <= done
    ensures Kinds(chunks) && ReadAll(h, false, NOTHING, chunks) == Accepted(r)
    ensures r.m.v.plteCount <= 256 && r.m.stored == r.m.file
    ensures forall t :: Small(t) ==> (t in r.m.stored <==> t in held.stored)
    ensures forall t :: Small(t) && t in held.stored ==> Same(h, r.m.v, held.v, t)
  {
    hide Keep, ReadAll;
  }

  /** The chunks behind the image data follow on. */
  lemma AfterIdatReadsBack(h: Ihdr, held: Held, r: Kept) returns (next: Kept)
    requires Admitted(h, held) && UnknownsOk(held.unknowns, AfterIdat) && r.m.v.plteCount <= 256
    ensures Kinds(StoredUnknowns(held, AfterIdat))
    ensures ReadAll(h, true, r, StoredUnknowns(held, AfterIdat)) == Accepted(next)
    ensures next.unknowns == r.unknowns + At(held.unknowns, AfterIdat, AfterIdat)
    ensures next.m.v == r.m.v && next.exif == r.exif && next.splts == r.splts
    ensures SameSmall(r.m, next.m)
  {
    if TUnknown in held.stored {
      next := UnknownsBack(h, true, r, held.unknowns, AfterIdat);
    } else {
      next := r;
    }
  }

  /** Of the unknown chunks behind the image data, too, exactly those of an unknown type come back. */
  lemma AfterIdatExactly(h: Ihdr, held: Held, r: Kept)
    requires Admitted(h, held) && AllValid(h, r) && r.m.v.plteCount <= 256
    ensures ValidIhdr(h) && Kinds(StoredUnknowns(held, AfterIdat))
    ensures var a := ReadAll(h, true, r, StoredUnknowns(held, AfterIdat));
      a.Accepted? && a.kept.unknowns == r.unknowns + At(held.unknowns, AfterIdat, AfterIdat) <==> UnknownsOk(held.unknowns, AfterIdat)
  {
    UnknownKinds(held.unknowns, AfterIdat);
    hide AllValid, ReadAll, UnknownsOk, Unknowns, At;
    if UnknownsOk(held.unknowns, AfterIdat) {
      var next := AfterIdatReadsBack(h, held, r);
    } else {
      var a := ReadAll(h, true, r, StoredUnknowns(held, AfterIdat));
      if a.Accepted? && a.kept.unknowns == r.unknowns + At(held.unknowns, AfterIdat, AfterIdat) {
        ReadAllKeeps(h, true, r, StoredUnknowns(held, AfterIdat));
        ValidUnknowns(h, a.kept);
        UnknownsWereOk(held.unknowns, AfterIdat, AfterIdat, a.kept.unknowns);
      }
    }
  }

  lemma ValidUnknowns(h: Ihdr, r: Kept)
    requires AllValid(h, r)
    ensures forall i :: 0 <= i < |r.unknowns| ==> UnknownOk(r.unknowns[i])
  {
  }

  /** An unknown chunk meant to follow the palette keeps its place exactly if there is a palette. */
  lemma PlaceAfterPalette(held: Held)
    requires TUnknown in held.stored
    ensures UnknownsRead(held) == At(held.unknowns, AfterIhdr, AfterIhdr) + At(held.unknowns, AfterPlte, AfterPlte)
      <==> TPlte in held.stored || forall u :: u in held.unknowns ==> u.location != AfterPlte
  {
    var first := At(held.unknowns, AfterIhdr, AfterIhdr);
    var kept, moved := At(held.unknowns, AfterPlte, AfterPlte), At(held.unknowns, AfterPlte, AfterIhdr);
    AtMoved(held.unknowns);
    if TPlte !in held.stored && first + moved == first + kept {
      assert (first + moved)[|first|..] == moved && (first + kept)[|first|..] == kept;
    }
  }

  lemma {:induction false} AtMoved(list: seq<Unknown>)
    ensures At(list, AfterPlte, AfterPlte) == At(list, AfterPlte, AfterIhdr)
      <==> forall u :: u in list ==> u.location != AfterPlte
    ensures (forall u :: u in list ==> u.location != AfterPlte) ==> At(list, AfterPlte, AfterIhdr) == []
  {
    if list != [] {
      AtMoved(list[1..]);
      if list[0].location == AfterPlte {
        assert At(list, AfterPlte, AfterPlte)[0].location != At(list, AfterPlte, AfterIhdr)[0].location;
      }
    }
  }

  // ---- What does not read back ----

  /** Everything the decoder keeps is valid. */
  ghost predicate AllValid(h: Ihdr, r: Kept) {
    && Sound(h, r.m) && SpltsOk(r.splts)
    && forall i :: 0 <= i < |r.unknowns| ==> UnknownOk(r.unknowns[i])
  }

  lemma AcceptKeeps(h: Ihdr, after: bool, r: Kept, c: Chunk)
    requires ValidIhdr(h) && AllValid(h, r) && c.Valid() && Accept(h, after, r, c).Accepted?
    ensures AllValid(h, Accept(h, after, r, c).kept)
  {
    var t := TypeOf(c.kind);
    var next := Accept(h, after, r, c).kept;
    if Small(t) {
      ReadSmallKeeps(h, after, r.m, t, |c.data|, c.data[..Min(|c.data|, 768)]);
      hide *;
    } else {
      FlagKeeps(h, r.m, t);
      hide Sound, TypeOf, Critical, ReadSmall, ParseSplt, SpltOk, ExifOk, ValidIhdr;
      if t == TSplt {
        ParsedIsOk(r.splts, c.data);
      }
    }
  }

  lemma {:induction false} ReadAllKeeps(h: Ihdr, after: bool, r: Kept, chunks: seq<Chunk>)
    requires ValidIhdr(h) && AllValid(h, r) && Fit(chunks) && Kinds(chunks)
    requires r.m.v.plteCount <= 256 && ReadAll(h, after, r, chunks).Accepted?
    ensures AllValid(h, ReadAll(h, after, r, chunks).kept)
    decreases |chunks|
  {
    hide AllValid, Accept, ValidIhdr;
    if chunks != [] {
      AcceptKeeps(h, after, r, chunks[0]);
      ReadAllKeeps(h, after, Accept(h, after, r, chunks[0]).kept, chunks[1..]);
    }
  }

  lemma {:induction false} AtHas(list: seq<Unknown>, location: Location, to: Location, i: nat)
    requires i < |list| && list[i].location == location
    ensures list[i].(location := to) in At(list, location, to)
  {
    if i > 0 {
      AtHas(list[1..], location, to, i - 1);
    }
  }

  lemma UnknownsWereOk(list: seq<Unknown>, location: Location, to: Location, back: seq<Unknown>)
    requires forall u :: u in At(list, location, to) ==> u in back
    requires forall i :: 0 <= i < |back| ==> UnknownOk(back[i])
    ensures UnknownsOk(list, location)
  {
    hide TypeOf, Critical;
    forall i | 0 <= i < |list| && list[i].location == location
      ensures UnknownOk(list[i])
    {
      AtHas(list, location, to, i);
      assert list[i].(location := to) in back;
    }
  }

  /** What came back whole was consistent. */
  lemma BackMeansConsistent(h: Ihdr, held: Held, r: Kept)
    requires Admitted(h, held) && AllValid(h, r) && ReadBack(h, held, r)
    ensures Consistent(h, held)
  {
    hide TypeOf, Critical, SpltOk, SpltSettable, UnknownOk, At, Pow2, SbitOk, KeepSbit, ExifOk, ValidIhdr, UnknownsOk;
    assert Small(TBkgd) && Small(TTrns) && Small(TPlte);
    if TUnknown in held.stored {
      UnknownsWereOk(held.unknowns, AfterIhdr, AfterIhdr, r.unknowns);
      UnknownsWereOk(held.unknowns, AfterPlte, if TPlte in held.stored then AfterPlte else AfterIhdr, r.unknowns);
    } else {
      NoUnknownsOk(held.unknowns);
    }
    if h.colorType == INDEXED && TBkgd in held.stored {
      assert Same(h, r.m.v, held.v, TPlte) && Same(h, r.m.v, held.v, TBkgd) && ValueOk(h, r.m.v, TBkgd);
    }
    if h.colorType == INDEXED && TTrns in held.stored {
      assert Same(h, r.m.v, held.v, TPlte) && Same(h, r.m.v, held.v, TTrns) && ValueOk(h, r.m.v, TTrns);
    }
  }

  lemma NoUnknownsOk(list: seq<Unknown>)
    requires list == []
    ensures UnknownsOk(list, AfterIhdr) && UnknownsOk(list, AfterPlte)
  {
  }

  lemma NothingIsValid(h: Ihdr)
    ensures AllValid(h, NOTHING)
  {
  }

  lemma BothKinds(a: seq<Chunk>, b: seq<Chunk>)
    requires Kinds(a) && Kinds(b)
    ensures Kinds(a + b)
  {
  }

  lemma OneKinds(h: Ihdr, held: Held, t: Type)
    requires Small(t) && Representable(held.v)
    ensures Kinds(One(h, held, t))
  {
    KindOfBack(t);
  }

  lemma WrittenKinds(h: Ihdr, held: Held)
    requires Admitted(h, held)
    ensures Kinds(BeforeIdat(h, held))
  {
    UnknownKinds(held.unknowns, AfterIhdr);
    UnknownKinds(held.unknowns, AfterPlte);
    SpltKinds(held.splts);
    ExifType();
    assert Kinds(StoredUnknowns(held, AfterIhdr)) && Kinds(StoredUnknowns(held, AfterPlte));
    assert Kinds(StoredSplts(held)) && Kinds(StoredExif(held));
    assert Representable(held.v);
    hide Kinds, One, StoredUnknowns, StoredSplts, StoredExif, Representable, Admitted;
    OneKinds(h, held, TChrm);
    OneKinds(h, held, TGama);
    OneKinds(h, held, TSbit);
    OneKinds(h, held, TSrgb);
    OneKinds(h, held, TPlte);
    OneKinds(h, held, TBkgd);
    OneKinds(h, held, THist);
    OneKinds(h, held, TTrns);
    OneKinds(h, held, TPhys);
    OneKinds(h, held, TTime);
    OneKinds(h, held, TOffs);
    var p2 := One(h, held, TChrm) + One(h, held, TGama);
    var p3 := p2 + One(h, held, TSbit);
    var p4 := p3 + One(h, held, TSrgb);
    var p5 := p4 + StoredUnknowns(held, AfterIhdr);
    var p6 := p5 + One(h, held, TPlte);
    var p7 := p6 + One(h, held, TBkgd);
    var p8 := p7 + One(h, held, THist);
    var p9 := p8 + One(h, held, TTrns);
    var p10 := p9 + One(h, held, TPhys);
    var p11 := p10 + StoredSplts(held);
    var p12 := p11 + One(h, held, TTime);
    var p13 := p12 + One(h, held, TOffs);
    var p14 := p13 + StoredExif(held);
    BothKinds(One(h, held, TChrm), One(h, held, TGama));
    BothKinds(p2, One(h, held, TSbit));
    BothKinds(p3, One(h, held, TSrgb));
    BothKinds(p4, StoredUnknowns(held, AfterIhdr));
    BothKinds(p5, One(h, held, TPlte));
    BothKinds(p6, One(h, held, TBkgd));
    BothKinds(p7, One(h, held, THist));
    BothKinds(p8, One(h, held, TTrns));
    BothKinds(p9, One(h, held, TPhys));
    BothKinds(p10, StoredSplts(held));
    BothKinds(p11, One(h, held, TTime));
    BothKinds(p12, One(h, held, TOffs));
    BothKinds(p13, StoredExif(held));
    BothKinds(p14, StoredUnknowns(held, AfterPlte));
  }

  lemma {:induction false} UnknownKinds(list: seq<Unknown>, location: Location)
    requires forall i :: 0 <= i < |list| ==> UnknownSettable(list[i])
    ensures Kinds(Unknowns(list, location)) && Fit(Unknowns(list, location))
  {
    if list != [] {
      UnknownKinds(list[1..], location);
    }
  }

  lemma {:induction false} SpltKinds(list: seq<Splt>)
    ensures Kinds(Splts(list))
  {
    if list != [] {
      SpltType();
      SpltKinds(list[1..]);
    }
  }

  lemma SmallFits(h: Ihdr, v: Values, t: Type)
    requires ValidIhdr(h) && Representable(v) && Small(t)
    ensures |KindOf(t)| == 4 && |Print(h, v, t)| <= 1024
  {
  }

  lemma OneFits(h: Ihdr, held: Held, t: Type)
    requires Admitted(h, held) && Small(t)
    ensures Fit(One(h, held, t))
  {
    hide Print, KindOf, ValidIhdr;
    SmallFits(h, held.v, t);
  }

  lemma {:induction false} SpltsFit(list: seq<Splt>)
    ensures Fit(Splts(list)) <==> forall i :: 0 <= i < |list| ==> SpltLength(list[i]) <= PNG_MAX
  {
    hide PrintSplt, SpltLength;
    if list != [] {
      SpltType();
      SpltsFit(list[1..]);
      FitApart([SpltChunk(list[0])], Splts(list[1..]));
      assert [SpltChunk(list[0])][0].Valid() <==> SpltLength(list[0]) <= PNG_MAX;
      assert forall i :: 0 < i < |list| ==> list[i] == list[1..][i - 1];
    }
  }

  lemma FitApart(a: seq<Chunk>, b: seq<Chunk>)
    ensures Fit(a + b) <==> Fit(a) && Fit(b)
  {
    assert forall i :: 0 <= i < |a| ==> (a + b)[i] == a[i];
    assert forall i :: 0 <= i < |b| ==> (a + b)[|a| + i] == b[i];
  }

  /** Nothing but a palette can be too long for a chunk. */
  lemma FitsExactly(h: Ihdr, held: Held)
    requires Admitted(h, held)
    ensures AllFit(h, held) <==> forall i :: 0 <= i < |held.splts| ==> SpltLength(held.splts[i]) <= PNG_MAX
  {
    OthersFit(h, held);
    SpltsFit(held.splts);
    AllPartsFit(h, held);
    hide AllFit, Splts, Fit, SpltLength;
  }

  /** The parts that always fit. */
  lemma OthersFit(h: Ihdr, held: Held)
    requires Admitted(h, held)
    ensures Representable(held.v) && (forall t :: Small(t) ==> Fit(One(h, held, t))) && Fit(StoredExif(held))
    ensures forall location :: Fit(StoredUnknowns(held, location))
  {
    hide One;
    forall t | Small(t)
      ensures Fit(One(h, held, t))
    {
      OneFits(h, held, t);
    }
    forall location
      ensures Fit(StoredUnknowns(held, location))
    {
      UnknownKinds(held.unknowns, location);
    }
    ExifType();
  }

  lemma AllPartsFit(h: Ihdr, held: Held)
    requires Admitted(h, held) && Representable(held.v)
    requires (forall t :: Small(t) ==> Fit(One(h, held, t))) && Fit(StoredExif(held))
    requires forall location :: Fit(StoredUnknowns(held, location))
    ensures AllFit(h, held) <==> Fit(StoredSplts(held))
  {
    hide One, StoredUnknowns, StoredSplts, StoredExif, Fit, Admitted, Representable;
    var p2 := One(h, held, TChrm) + One(h, held, TGama);
    var p3 := p2 + One(h, held, TSbit);
    var p4 := p3 + One(h, held, TSrgb);
    var p5 := p4 + StoredUnknowns(held, AfterIhdr);
    var p6 := p5 + One(h, held, TPlte);
    var p7 := p6 + One(h, held, TBkgd);
    var p8 := p7 + One(h, held, THist);
    var p9 := p8 + One(h, held, TTrns);
    var p10 := p9 + One(h, held, TPhys);
    var p11 := p10 + StoredSplts(held);
    var p12 := p11 + One(h, held, TTime);
    var p13 := p12 + One(h, held, TOffs);
    var p14 := p13 + StoredExif(held);
    FitApart(One(h, held, TChrm), One(h, held, TGama));
    FitApart(p2, One(h, held, TSbit));
    FitApart(p3, One(h, held, TSrgb));
    FitApart(p4, StoredUnknowns(held, AfterIhdr));
    FitApart(p5, One(h, held, TPlte));
    FitApart(p6, One(h, held, TBkgd));
    FitApart(p7, One(h, held, THist));
    FitApart(p8, One(h, held, TTrns));
    FitApart(p9, One(h, held, TPhys));
    FitApart(p10, StoredSplts(held));
    FitApart(p11, One(h, held, TTime));
    FitApart(p12, One(h, held, TOffs));
    FitApart(p13, StoredExif(held));
    FitApart(p14, StoredUnknowns(held, AfterPlte));
  }

  lemma ConsistentFits(h: Ihdr, held: Held)
    requires HeldOk(h, held)
    ensures Admitted(h, held) && AllFit(h, held)
  {
    FitsExactly(h, held);
    hide AllFit, SpltLength, UnknownsOk;
    assert forall i :: 0 <= i < |held.splts| ==> SpltOk(held.splts[i]);
  }

  /** No chunk is refused by the writer, and the decoder accepts all that is written before the image data, and has it. */
  ghost predicate ComesBack(h: Ihdr, held: Held)
    requires Admitted(h, held)
  {
    WrittenKinds(h, held);
    var a := ReadAll(h, false, NOTHING, BeforeIdat(h, held));
    AllFit(h, held) && a.Accepted? && ReadBack(h, held, a.kept)
  }

  /**
   Main result: of everything the setters admit, exactly what is consistent is written, accepted
   and comes back: every value, the exif data, the palettes in their order, the unknown chunks.
   */
  lemma ReadsBackExactly(h: Ihdr, held: Held)
    requires Admitted(h, held)
    ensures ComesBack(h, held) <==> Consistent(h, held)
  {
    WrittenKinds(h, held);
    hide BeforeIdat, ReadAll, ReadBack, Consistent, AllValid, Fit;
    if Consistent(h, held) {
      var r := PrintedReadsBack(h, held);
      ConsistentFits(h, held);
    } else if ComesBack(h, held) {
      NothingIsValid(h);
      ReadAllKeeps(h, false, NOTHING, BeforeIdat(h, held));
      BackMeansConsistent(h, held, ReadAll(h, false, NOTHING, BeforeIdat(h, held)).kept);
    }
  }

  lemma SmallTypes()
    ensures TypeOf(TRNS) == TTrns && |TRNS| == 4 && TypeOf(BKGD) == TBkgd && |BKGD| == 4
  {
    KindOfBack(TTrns);
    KindOfBack(TBkgd);
  }

  /**
   The setter admits alpha values that are none, or that a palette set later has no entries
   for. Written, they are accepted exactly if there are some, and no more than palette entries.
   */
  lemma AlphasAccepted(h: Ihdr, r: Kept, alphas: seq<byte>)
    requires ValidIhdr(h) && h.colorType == INDEXED && r.m.v.plteCount <= 256
    requires TPlte in r.m.file && TTrns !in r.m.file
    ensures Accept(h, false, r, Chunk(TRNS, alphas)).Accepted? <==> 0 < |alphas| <= r.m.v.plteCount
  {
    hide TypeOf, ValidIhdr;
    SmallTypes();
  }

  /** A background that a palette set later has no entry for is refused, and only that. */
  lemma BackgroundAccepted(h: Ihdr, r: Kept, index: byte)
    requires ValidIhdr(h) && h.colorType == INDEXED && r.m.v.plteCount <= 256
    requires TPlte in r.m.file && TBkgd !in r.m.file
    ensures Accept(h, false, r, Chunk(BKGD, [index])).Accepted? <==> index as int < r.m.v.plteCount
  {
    hide TypeOf, ValidIhdr;
    SmallTypes();
  }

  /** A palette comes back exactly if it has entries in range, not too many, and a name of its own. */
  lemma PaletteAccepted(h: Ihdr, r: Kept, s: Splt)
    requires ValidIhdr(h) && r.m.v.plteCount <= 256 && SpltSettable(s)
    ensures var a := Accept(h, false, r, SpltChunk(s));
      && (SpltChunk(s).Valid() && a.Accepted? <==> s.entries != [] && SpltLength(s) <= PNG_MAX && NewName(r.splts, s))
      && (SpltChunk(s).Valid() && a.Accepted? && a.kept.splts == r.splts + [s] <==> SpltOk(s) && NewName(r.splts, s))
  {
    hide TypeOf, ValidIhdr, Critical, ParseSplt, PrintSplt, SpltOk, SpltSettable;
    SpltType();
    SpltBackExactly(r.splts, s);
    var p := ParseSplt(r.splts, PrintSplt(s));
    var a := Accept(h, false, r, SpltChunk(s));
    if p.error == NoError {
      assert a.kept.splts[|r.splts|] == p.splt;
      ParsedPlain(r.splts, PrintSplt(s));
    }
  }

  lemma ParsedPlain(kept: seq<Splt>, data: seq<byte>)
    ensures ParseSplt(kept, data) == ParsedSplt(ParseSplt(kept, data).error, ParseSplt(kept, data).splt)
  {
  }

  /** A chunk set as unknown comes back as one exactly if its type is unknown, and ancillary. */
  lemma UnknownAccepted(h: Ihdr, after: bool, r: Kept, u: Unknown)
    requires ValidIhdr(h) && r.m.v.plteCount <= 256 && |u.kind| == 4
    ensures var a := Accept(h, after, r, Chunk(u.kind, u.data));
      a.Accepted? && a.kept.unknowns == r.unknowns + [u.(location := Placement(after, r.m.file))] <==> UnknownOk(u)
  {
    hide TypeOf, ValidIhdr, Critical, ParseSplt, ReadSmall;
    var a := Accept(h, after, r, Chunk(u.kind, u.data));
    if a.Accepted? && !UnknownOk(u) {
      assert |a.kept.unknowns| == |r.unknowns|;
    }
  }
}
