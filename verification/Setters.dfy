/**
 The setters of an encoder: each checks what it is given, by itself and against the header
 and the palette of the moment, and replaces what was set before.
 */
module Setters {
  import opened Octets
  import opened Chunks
  import opened Header
  import opened Metadata
  import opened Printing
  import opened LongChunks
  import opened MetadataRoundTrip

  const ZERO_WORDS: seq<word> := [0, 0, 0, 0, 0, 0, 0, 0]
  const ZERO_VALUES := NO_VALUES.(chrm := ZERO_WORDS, hist := seq(256, _ => 0))
  const NOTHING_HELD := Held({}, ZERO_VALUES, [], [], [])
  const SOME_HEADER := Ihdr(1, 1, 8, GRAYSCALE, 0, 0, 0)

  /** The checks of these need a header. */
  const NEED_HEADER: set<Type> := {TPlte, TTrns, TBkgd, THist, TSbit}

  lemma HeaderDoesNotMatter(a: Ihdr, b: Ihdr, held: Held)
    requires Admitted(a, held) && held.stored !! NEED_HEADER && ValidIhdr(b)
    ensures Admitted(b, held)
  {
    hide ValidIhdr, ExifOk, SpltSettable, UnknownSettable, Representable;
    forall t | t in held.stored
      ensures Settable(b, held.v, t) && !NeedsPlte(b, t)
    {
      assert Settable(a, held.v, t) && t !in NEED_HEADER;
    }
  }

  lemma NothingIsAdmitted(h: Ihdr)
    requires ValidIhdr(h)
    ensures Admitted(h, NOTHING_HELD)
  {
  }

  /** One value of a kind of its own, which passes its check. */
  lemma OneMoreValue(h: Ihdr, held: Held, t: Type, v: Values)
    requires Admitted(h, held) && Representable(v) && Settable(h, v, t) && t !in {TSplt, TUnknown, TExif}
    requires forall u :: u in held.stored && u != t ==> (Settable(h, held.v, u) ==> Settable(h, v, u))
    requires NeedsPlte(h, t) ==> TPlte in held.stored
    ensures Admitted(h, held.(stored := held.stored + {t}, v := v))
  {
    hide ValidIhdr, ExifOk, SpltSettable, UnknownSettable, Representable, Settable;
  }

  /** The part of spng_ctx that the setters fill in. */
  class Settings {
    const maxWidth: nat
    const maxHeight: nat
    var hasIhdr: bool
    var h: Ihdr
    var held: Held

    ghost predicate Valid()
      reads this
    {
      && Admitted(h, held) && (!hasIhdr ==> held.stored !! NEED_HEADER)
    }

    constructor (maxWidth: nat, maxHeight: nat)
      ensures Valid() && !hasIhdr && held == NOTHING_HELD
      ensures this.maxWidth == maxWidth && this.maxHeight == maxHeight
    {
      this.maxWidth, this.maxHeight := maxWidth, maxHeight;
      hasIhdr, h, held := false, SOME_HEADER, NOTHING_HELD;
      new;
      NothingIsAdmitted(SOME_HEADER);
    }

    /** spng_set_ihdr: once. */
    method SetIhdr(ihdr: Ihdr) returns (ok: bool)
      requires Valid()
      modifies this`h, this`hasIhdr
      ensures Valid() && (ok <==> !old(hasIhdr) && CheckIhdr(ihdr, maxWidth, maxHeight) == IhdrOk)
      ensures if ok then hasIhdr && h == ihdr else h == old(h) && hasIhdr == old(hasIhdr)
    {
      hide Admitted;
      if hasIhdr || CheckIhdr(ihdr, maxWidth, maxHeight) != IhdrOk {
        return false;
      }
      HeaderDoesNotMatter(h, ihdr, held);
      h, hasIhdr := ihdr, true;
      return true;
    }

    /** A value of a kind of its own takes the place of the one before. */
    method Store(t: Type, v: Values)
      requires Valid() && (t in NEED_HEADER ==> hasIhdr)
      requires Representable(v) && Settable(h, v, t) && t !in {TSplt, TUnknown, TExif}
      requires forall u :: u in held.stored && u != t ==> (Settable(h, held.v, u) ==> Settable(h, v, u))
      requires NeedsPlte(h, t) ==> TPlte in held.stored
      modifies this`held
      ensures Valid() && held == old(held).(stored := old(held).stored + {t}, v := v)
    {
      hide Admitted;
      OneMoreValue(h, held, t, v);
      held := held.(stored := held.stored + {t}, v := v);
    }

    lemma HeldIsRepresentable()
      requires Valid()
      ensures Representable(held.v) && ValidIhdr(h)
    {
    }

    /** spng_set_plte: nothing that was set for another palette is looked at. */
    method SetPlte(plte: seq<Rgb>) returns (ok: bool)
      requires Valid()
      modifies this`held
      ensures Valid() && (ok <==> hasIhdr && PlteOk(h, |plte|))
      ensures held == if !ok then old(held)
        else old(held).(stored := old(held).stored + {TPlte}, v := old(held).v.(plteCount := |plte|, plte := plte))
    {
      hide Admitted, ExifOk, Pow2;
      HeldIsRepresentable();
      if !hasIhdr || !PlteOk(h, |plte|) {
        return false;
      }
      Store(TPlte, held.v.(plteCount := |plte|, plte := plte));
      return true;
    }

    /** spng_set_trns: no more alpha values than palette entries, of the palette of the moment. */
    method SetTrns(trns: Trns) returns (ok: bool)
      requires Valid()
      modifies this`held
      ensures Valid()
      ensures ok <==> hasIhdr && h.colorType in {GRAYSCALE, TRUECOLOR, INDEXED}
                      && (h.colorType == INDEXED ==> TPlte in old(held).stored && |trns.alphas| <= old(held).v.plteCount)
      ensures held == if !ok then old(held)
        else old(held).(stored := old(held).stored + {TTrns}, v := old(held).v.(trns := KeepTrns(h, old(held).v.trns, trns)))
    {
      HeldIsRepresentable();
      hide Admitted, ExifOk, Pow2, ValidIhdr;
      if !hasIhdr || h.colorType !in {GRAYSCALE, TRUECOLOR, INDEXED} {
        return false;
      }
      if h.colorType == INDEXED && (TPlte !in held.stored || |trns.alphas| > held.v.plteCount) {
        return false;
      }
      Store(TTrns, held.v.(trns := KeepTrns(h, held.v.trns, trns)));
      return true;
    }

    /** spng_set_bkgd: an index into the palette of the moment. */
    method SetBkgd(bkgd: Bkgd) returns (ok: bool)
      requires Valid()
      modifies this`held
      ensures Valid()
      ensures ok <==> hasIhdr
                      && (h.colorType == INDEXED ==> TPlte in old(held).stored && bkgd.index as int < old(held).v.plteCount)
      ensures held == if !ok then old(held)
        else old(held).(stored := old(held).stored + {TBkgd}, v := old(held).v.(bkgd := KeepBkgd(h, old(held).v.bkgd, bkgd)))
    {
      HeldIsRepresentable();
      hide Admitted, ExifOk, Pow2, ValidIhdr;
      if !hasIhdr {
        return false;
      }
      if h.colorType == INDEXED && (TPlte !in held.stored || bkgd.index as int >= held.v.plteCount) {
        return false;
      }
      Store(TBkgd, held.v.(bkgd := KeepBkgd(h, held.v.bkgd, bkgd)));
      return true;
    }

    lemma PaletteNeedsHeader()
      requires Valid()
      ensures TPlte in held.stored ==> hasIhdr
    {
    }

    /** spng_set_hist: the whole array, for any palette. */
    method SetHist(hist: seq<u16>) returns (ok: bool)
      requires Valid() && |hist| == 256
      modifies this`held
      ensures Valid() && (ok <==> TPlte in old(held).stored)
      ensures held == if !ok then old(held)
        else old(held).(stored := old(held).stored + {THist}, v := old(held).v.(hist := hist))
    {
      HeldIsRepresentable();
      PaletteNeedsHeader();
      hide Admitted, ExifOk, Pow2, ValidIhdr;
      if TPlte !in held.stored {
        return false;
      }
      Store(THist, held.v.(hist := hist));
      return true;
    }

    /** spng_set_sbit, spng_set_chrm_int, spng_set_gama_int, spng_set_srgb, spng_set_phys, spng_set_time and spng_set_offs. */
    method SetSbit(sbit: Sbit) returns (ok: bool)
      requires Valid()
      modifies this`held
      ensures Valid() && (ok <==> hasIhdr && SbitOk(h, sbit))
      ensures held == if !ok then old(held)
        else old(held).(stored := old(held).stored + {TSbit}, v := old(held).v.(sbit := sbit))
    {
      HeldIsRepresentable();
      hide Admitted, ExifOk, Pow2, ValidIhdr;
      if !hasIhdr || !SbitOk(h, sbit) {
        return false;
      }
      Store(TSbit, held.v.(sbit := sbit));
      return true;
    }

    method SetChrm(chrm: seq<word>) returns (ok: bool)
      requires Valid() && |chrm| == 8
      modifies this`held
      ensures Valid() && (ok <==> forall i :: 0 <= i < 8 ==> chrm[i] <= PNG_MAX)
      ensures held == if !ok then old(held)
        else old(held).(stored := old(held).stored + {TChrm}, v := old(held).v.(chrm := chrm))
    {
      HeldIsRepresentable();
      hide Admitted, ExifOk, Pow2, ValidIhdr;
      if exists i :: 0 <= i < 8 && chrm[i] > PNG_MAX {
        return false;
      }
      Store(TChrm, held.v.(chrm := chrm));
      return true;
    }

    method SetGama(gama: word) returns (ok: bool)
      requires Valid()
      modifies this`held
      ensures Valid() && (ok <==> 0 < gama <= PNG_MAX)
      ensures held == if !ok then old(held)
        else old(held).(stored := old(held).stored + {TGama}, v := old(held).v.(gama := gama))
    {
      HeldIsRepresentable();
      hide Admitted, ExifOk, Pow2, ValidIhdr;
      if gama == 0 || gama > PNG_MAX {
        return false;
      }
      Store(TGama, held.v.(gama := gama));
      return true;
    }

    method SetSrgb(intent: byte) returns (ok: bool)
      requires Valid()
      modifies this`held
      ensures Valid() && (ok <==> intent as int <= 3)
      ensures held == if !ok then old(held)
        else old(held).(stored := old(held).stored + {TSrgb}, v := old(held).v.(srgb := intent))
    {
      HeldIsRepresentable();
      hide Admitted, ExifOk, Pow2, ValidIhdr;
      if intent as int > 3 {
        return false;
      }
      Store(TSrgb, held.v.(srgb := intent));
      return true;
    }

    method SetPhys(phys: Phys) returns (ok: bool)
      requires Valid()
      modifies this`held
      ensures Valid() && (ok <==> PhysOk(phys))
      ensures held == if !ok then old(held)
        else old(held).(stored := old(held).stored + {TPhys}, v := old(held).v.(phys := phys))
    {
      HeldIsRepresentable();
      hide Admitted, ExifOk, Pow2, ValidIhdr;
      if !PhysOk(phys) {
        return false;
      }
      Store(TPhys, held.v.(phys := phys));
      return true;
    }

    method SetTime(time: Time) returns (ok: bool)
      requires Valid()
      modifies this`held
      ensures Valid() && (ok <==> TimeOk(time))
      ensures held == if !ok then old(held)
        else old(held).(stored := old(held).stored + {TTime}, v := old(held).v.(time := time))
    {
      HeldIsRepresentable();
      hide Admitted, ExifOk, Pow2, ValidIhdr;
      if !TimeOk(time) {
        return false;
      }
      Store(TTime, held.v.(time := time));
      return true;
    }

    method SetOffs(offs: Offs) returns (ok: bool)
      requires Valid() && -0x8000_0000 <= offs.x < 0x8000_0000 && -0x8000_0000 <= offs.y < 0x8000_0000
      modifies this`held
      ensures Valid() && (ok <==> offs.unit as int <= 1)
      ensures held == if !ok then old(held)
        else old(held).(stored := old(held).stored + {TOffs}, v := old(held).v.(offs := offs))
    {
      HeldIsRepresentable();
      hide Admitted, ExifOk, Pow2, ValidIhdr;
      if offs.unit as int > 1 {
        return false;
      }
      Store(TOffs, held.v.(offs := offs));
      return true;
    }

    /** spng_set_exif */
    method SetExif(exif: seq<byte>) returns (ok: bool)
      requires Valid()
      modifies this`held
      ensures Valid() && (ok <==> ExifOk(exif) && |exif| <= PNG_MAX)
      ensures held == if !ok then old(held) else old(held).(stored := old(held).stored + {TExif}, exif := exif)
    {
      if !ExifOk(exif) || |exif| > PNG_MAX {
        return false;
      }
      hide ExifOk, Representable, ValidIhdr, Settable;
      ghost var before := held;
      held := held.(stored := held.stored + {TExif}, exif := exif);
      StillSettable(before, TExif);
      return true;
    }

    /** spng_set_splt: names and depths are looked at, entries are not. */
    method SetSplt(list: seq<Splt>) returns (ok: bool)
      requires Valid()
      modifies this`held
      ensures Valid() && (ok <==> list != [] && forall i :: 0 <= i < |list| ==> SpltSettable(list[i]))
      ensures held == if !ok then old(held) else old(held).(stored := old(held).stored + {TSplt}, splts := list)
    {
      hide ExifOk, SpltSettable, Representable, ValidIhdr, Settable;
      if list == [] || exists i :: 0 <= i < |list| && !SpltSettable(list[i]) {
        return false;
      }
      ghost var before := held;
      held := held.(stored := held.stored + {TSplt}, splts := list);
      StillSettable(before, TSplt);
      return true;
    }

    /** spng_set_unknown_chunks: any type will do. */
    method SetUnknownChunks(list: seq<Unknown>) returns (ok: bool)
      requires Valid() && forall i :: 0 <= i < |list| ==> |list[i].kind| == 4
      modifies this`held
      ensures Valid() && (ok <==> list != [] && forall i :: 0 <= i < |list| ==> |list[i].data| <= PNG_MAX)
      ensures held == if !ok then old(held) else old(held).(stored := old(held).stored + {TUnknown}, unknowns := list)
    {
      hide ExifOk, SpltSettable, Representable, ValidIhdr, Settable;
      if list == [] || exists i :: 0 <= i < |list| && |list[i].data| > PNG_MAX {
        return false;
      }
      ghost var before := held;
      held := held.(stored := held.stored + {TUnknown}, unknowns := list);
      StillSettable(before, TUnknown);
      return true;
    }

    /** The types that are no small chunks have no value to check. */
    lemma StillSettable(before: Held, t: Type)
      requires Admitted(h, before) && held.v == before.v && held.stored == before.stored + {t} && t in {TExif, TSplt, TUnknown}
      ensures Representable(held.v) && ValidIhdr(h)
      ensures forall u :: u in held.stored ==> Settable(h, held.v, u)
      ensures forall u :: u in held.stored && NeedsPlte(h, u) ==> TPlte in held.stored
    {
      hide ValidIhdr, Representable;
    }
  }

  // ---- What is admitted and does not come back ----

  datatype Slip =
    | NoAlphas | AlphasOfLargerPalette | BackgroundOfLargerPalette
    | NoEntries | TooManyEntries | SameName | LargeSamples
    | KnownType | CriticalType

  const TWO_COLORS: seq<Rgb> := [Rgb(0, 0, 0), Rgb(255, 255, 255)]
  const ENTRY := SpltEntry(300, 0, 0, 0, 0)

  function Palette(depth: byte, entries: seq<SpltEntry>): Splt {
    Splt([97], depth, entries)
  }

  lemma PalettesAreSettable(depth: byte, entries: seq<SpltEntry>)
    requires depth in {8, 16}
    ensures SpltSettable(Palette(depth, entries))
  {
  }

  /** Ways to hold what will not come back, all of which the setters admit. */
  method NotComingBack(slip: Slip) returns (s: Settings)
    ensures s.Valid() && s.hasIhdr && !ComesBack(s.h, s.held)
  {
    hide Admitted, ComesBack, Pow2, SpltSettable, UnknownsOk;
    s := new Settings(PNG_MAX, PNG_MAX);
    var h := Ihdr(1, 1, 8, INDEXED, 0, 0, 0);
    assert Pow2(8) >= 2 by {
      Pow2Table();
    }
    var ok := s.SetIhdr(h);
    ok := s.SetPlte(TWO_COLORS);
    match slip {
      case NoAlphas =>
        ok := s.SetTrns(Trns(0, 0, 0, 0, []));
      case AlphasOfLargerPalette =>
        ok := s.SetTrns(Trns(0, 0, 0, 0, [7, 8]));
        ok := s.SetPlte([Rgb(0, 0, 0)]);
      case BackgroundOfLargerPalette =>
        ok := s.SetBkgd(Bkgd(0, 0, 0, 0, 1));
        ok := s.SetPlte([Rgb(0, 0, 0)]);
      case NoEntries =>
        PalettesAreSettable(8, []);
        ok := s.SetSplt([Palette(8, [])]);
        assert s.held.splts[0].entries == [];
      case TooManyEntries =>
        var entries := seq(400_000_000, _ => SpltEntry(0, 0, 0, 0, 0));
        PalettesAreSettable(8, entries);
        ok := s.SetSplt([Palette(8, entries)]);
        assert !SpltOk(s.held.splts[0]);
      case SameName =>
        PalettesAreSettable(16, [ENTRY]);
        ok := s.SetSplt([Palette(16, [ENTRY]), Palette(16, [ENTRY])]);
        assert s.held.splts[0].name == s.held.splts[1].name;
      case LargeSamples =>
        PalettesAreSettable(8, [ENTRY]);
        ok := s.SetSplt([Palette(8, [ENTRY])]);
        assert !EntryFits(s.held.splts[0].entries[0]);
      case KnownType =>
        ok := s.SetUnknownChunks([Unknown(GAMA, [], AfterIhdr)]);
        NotUnknown(s.held.unknowns);
      case CriticalType =>
        ok := s.SetUnknownChunks([Unknown(CRITICAL_TYPE, [], AfterIhdr)]);
        NotUnknown(s.held.unknowns);
    }
    ReadsBackExactly(s.h, s.held);
  }

  /** AAAA */
  const CRITICAL_TYPE: seq<byte> := [65, 65, 65, 65]

  lemma NotUnknown(list: seq<Unknown>)
    requires |list| == 1 && list[0].kind in {GAMA, CRITICAL_TYPE} && list[0].location == AfterIhdr
    ensures !UnknownsOk(list, AfterIhdr)
  {
    KindOfBack(TGama);
    assert Critical(CRITICAL_TYPE) && |CRITICAL_TYPE| == 4;
  }
}
