/**
 The chunks the encoder writes before and after the image data, and the image data themselves,
 read by the decoder.
 */
module FileRoundTrip {
  import opened Octets
  import opened Chunks
  import opened Header
  import opened Scanlines
  import opened Metadata
  import opened LongChunks
  import Printing
  import FF = FileFormat
  import R = MetadataRoundTrip
  import MW = MetadataWriter
  import CR = ChunkReader
  import S = ChunkSource
  import IW = IdatWriter
  import IR = IdatReader

  lemma IhdrBack(h: Ihdr)
    requires ValidIhdr(h)
    ensures |MW.PrintIhdr(h)| == 13
    ensures var d := SIGNATURE + Bytes(Chunk(IHDR, MW.PrintIhdr(h)));
      && |d| == 33 && d[..8] == SIGNATURE && ReadU32(d[8..29]) == 13 && d[12..16] == IHDR
      && CR.IhdrOf(d[..29]) == h && d[16..29] == MW.PrintIhdr(h)
      && ReadU32(d[29..]) == CrcOf(Chunk(IHDR, MW.PrintIhdr(h)))
  {
    hide U32, ReadU32, CrcOf;
    var p := MW.PrintIhdr(h);
    var c := Chunk(IHDR, p);
    var d := SIGNATURE + Bytes(c);
    assert Bytes(c) == U32(13) + (IHDR + p + U32(CrcOf(c)));
    ReadU32Back(13, IHDR + p);
    assert d[8..29] == U32(13) + (IHDR + p);
    assert d[12..16] == IHDR;
    assert d[16..29] == p;
    assert d[29..] == U32(CrcOf(c)) + [];
    ReadU32Back(CrcOf(c), []);
    var tail: seq<byte> := [h.bitDepth, h.colorType, h.compressionMethod, h.filterMethod, h.interlaceMethod];
    ReadU32Back(h.width, U32(h.height) + tail);
    ReadU32Back(h.height, tail);
    assert d[..29][16..] == U32(h.width) + (U32(h.height) + tail);
    assert d[..29][20..] == U32(h.height) + tail;
    assert d[24] == tail[0] && d[25] == tail[1] && d[26] == tail[2] && d[27] == tail[3] && d[28] == tail[4];
  }

  /** A header with its CRC, and then something else. */
  lemma HeaderFirst(file: seq<byte>, h: Ihdr, rest: seq<byte>)
    requires ValidIhdr(h) && |MW.PrintIhdr(h)| == 13 && file == SIGNATURE + Bytes(Chunk(IHDR, MW.PrintIhdr(h))) + rest
    ensures |file| >= 33 && CR.IhdrOf(file[..29]) == h
    ensures file[..29][..8] == SIGNATURE && ReadU32(file[..29][8..]) == 13 && file[..29][12..16] == IHDR
    ensures file[16..29] == MW.PrintIhdr(h) && ReadU32(file[29..]) == CrcOf(Chunk(IHDR, MW.PrintIhdr(h)))
    ensures file[33..] == rest
  {
    hide Bytes, ReadU32, CrcOf, CR.IhdrOf, ValidIhdr;
    IhdrBack(h);
    var d := SIGNATURE + Bytes(Chunk(IHDR, MW.PrintIhdr(h)));
    assert file[..29] == d[..29];
    assert file[..29][8..] == d[8..29] && file[..29][12..16] == d[12..16];
    assert file[16..29] == d[16..29];
    assert file[29..33] == d[29..];
    S.Source.SameWord(file[29..], d[29..]);
  }

  /** The first bytes of what is written are those of a PNG file with this header. */
  lemma WrittenBegins(h: Ihdr, held: R.Held, rest: seq<byte>)
    requires R.Admitted(h, held) && R.AllFit(h, held)
    ensures FF.Begins(MW.Expected(h, held) + rest, h)
  {
    hide Stream, Bytes, ReadU32, CrcOf, R.BeforeIdat, R.Admitted, R.AllFit, CR.IhdrOf;
    R.AdmittedFacts(h, held);
    IhdrBack(h);
    MW.ExpectedLength(h, held);
    var file := MW.Expected(h, held) + rest;
    var tail := Stream(R.BeforeIdat(h, held)) + rest;
    assert file == SIGNATURE + Bytes(Chunk(IHDR, MW.PrintIhdr(h))) + tail;
    StartOfFile(file, h, tail);
  }

  lemma StartOfFile(file: seq<byte>, h: Ihdr, rest: seq<byte>)
    requires ValidIhdr(h) && |MW.PrintIhdr(h)| == 13 && file == SIGNATURE + Bytes(Chunk(IHDR, MW.PrintIhdr(h))) + rest
    ensures FF.Begins(file, h)
  {
    hide U32, CrcOf, ReadU32, Bytes, MW.PrintIhdr, CR.IhdrOf;
    HeaderFirst(file, h, rest);
    FirstSixteen(file, h, rest);
    HeaderFields(h, MW.PrintIhdr(h));
    var p := MW.PrintIhdr(h);
    assert file[16..29] == p;
    assert file[16..20] == file[16..29][0..4] && file[20..24] == file[16..29][4..8];
    SameFour(file, 16, p, 0);
    SameFour(file, 20, p, 4);
    assert file[24] == p[8] && file[25] == p[9] && file[26] == p[10] && file[27] == p[11] && file[28] == p[12];
  }

  lemma FirstSixteen(file: seq<byte>, h: Ihdr, rest: seq<byte>)
    requires ValidIhdr(h) && |MW.PrintIhdr(h)| == 13 && file == SIGNATURE + Bytes(Chunk(IHDR, MW.PrintIhdr(h))) + rest
    ensures |file| >= 33 && file[..16] == [137, 80, 78, 71, 13, 10, 26, 10, 0, 0, 0, 13, 73, 72, 68, 82]
  {
    hide CrcOf, ReadU32, MW.PrintIhdr;
    LengthOfHeader();
    hide U32;
    var p := MW.PrintIhdr(h);
    assert Bytes(Chunk(IHDR, p)) == U32(13) + IHDR + (p + U32(CrcOf(Chunk(IHDR, p))));
    assert file[..16] == SIGNATURE + U32(13) + IHDR;
  }

  lemma SameFour(a: seq<byte>, i: nat, b: seq<byte>, j: nat)
    requires i + 4 <= |a| && j + 4 <= |b| && a[i..i + 4] == b[j..j + 4]
    ensures FF.Four(a, i) == FF.Four(b, j)
  {
    var c, d := a[i..i + 4], b[j..j + 4];
    assert c[0] == d[0] && c[1] == d[1] && c[2] == d[2] && c[3] == d[3];
  }

  lemma HeaderFields(h: Ihdr, p: seq<byte>)
    requires ValidIhdr(h) && p == MW.PrintIhdr(h)
    ensures |p| == 13 && FF.Four(p, 0) == h.width && FF.Four(p, 4) == h.height
    ensures p[8..] == [h.bitDepth as byte, h.colorType as byte, 0, 0, h.interlaceMethod as byte]
  {
    var more: seq<byte> := [h.bitDepth, h.colorType, h.compressionMethod, h.filterMethod, h.interlaceMethod];
    assert p == U32(h.width) + (U32(h.height) + more) && p[4..] == U32(h.height) + more && p[8..] == more;
    ReadU32Back(h.width, U32(h.height) + more);
    ReadU32Back(h.height, more);
    FF.WordAt(p, 0);
    FF.WordAt(p, 4);
    hide U32, ReadU32, FF.Four;
    assert p[0..] == p;
  }

  lemma LengthOfHeader()
    ensures U32(13) == [0, 0, 0, 13]
  {
  }

  lemma StreamParts(chunks: seq<Chunk>, i: nat)
    requires R.Fit(chunks) && i < |chunks|
    ensures Stream(chunks) == Stream(chunks[..i]) + Bytes(chunks[i]) + Stream(chunks[i + 1..])
  {
    hide Bytes, Stream;
    var a, b := chunks[..i], chunks[i..];
    assert chunks == a + b && b[0] == chunks[i] && b[1..] == chunks[i + 1..];
    StreamAppend(a, b);
    StreamOf(b);
    Regroup(Stream(a), Bytes(chunks[i]), Stream(b[1..]), [], []);
  }

  lemma StreamOf(chunks: seq<Chunk>)
    requires R.Fit(chunks) && chunks != []
    ensures Stream(chunks) == Bytes(chunks[0]) + Stream(chunks[1..])
  {
  }

  lemma Regroup(a: seq<byte>, b: seq<byte>, c: seq<byte>, pre: seq<byte>, post: seq<byte>)
    ensures a + (b + c) == a + b + c
    ensures pre + (a + b + c) + post == (pre + a) + b + (c + post)
  {
  }

  lemma ChunkInStream(chunks: seq<Chunk>, i: nat, pre: seq<byte>, post: seq<byte>, name: string)
    requires R.Fit(chunks) && i < |chunks| && FF.Spells(chunks[i].kind, name)
    ensures FF.Holds(pre + Stream(chunks) + post, name, chunks[i].data)
  {
    hide Bytes, Stream, FF.Spells, FF.Holds;
    StreamParts(chunks, i);
    Regroup(Stream(chunks[..i]), Bytes(chunks[i]), Stream(chunks[i + 1..]), pre, post);
    FF.ChunkHolds(pre + Stream(chunks[..i]), chunks[i], Stream(chunks[i + 1..]) + post, name);
  }

  lemma OneOfThem(h: Ihdr, held: R.Held, t: Type) returns (i: nat)
    requires R.Admitted(h, held) && Small(t) && t in held.stored
    ensures Printing.Representable(held.v) && i < |R.BeforeIdat(h, held)|
    ensures R.BeforeIdat(h, held)[i] == Chunk(R.KindOf(t), Printing.Print(h, held.v, t))
  {
    R.AdmittedFacts(h, held);
    var c := Chunk(R.KindOf(t), Printing.Print(h, held.v, t));
    hide R.StoredUnknowns, R.StoredSplts, R.StoredExif, R.Admitted, Printing.Print, R.KindOf;
    assert R.One(h, held, t) == [c] && c in [c];
    assert c in R.BeforeIdat(h, held) by {
      hide R.One;
    }
    i :| 0 <= i < |R.BeforeIdat(h, held)| && R.BeforeIdat(h, held)[i] == c;
  }

  /** A value stands in the file, under the name of its kind and in bytes that say what it is. */
  ghost predicate InLettersOne(file: seq<byte>, h: Ihdr, held: R.Held, t: Type)
    requires Printing.Representable(held.v) && Small(t)
  {
    exists data :: FF.Holds(file, FF.Name(t), data)
      && (Printing.Printable(h, held.v, t) && (t == THist ==> held.v.plteCount > 0) ==> FF.Says(h.colorType, t, data, held.v))
  }

  /** And so does everything that is held, the exif data, the palettes and the unknown chunks too. */
  ghost predicate InLetters(file: seq<byte>, h: Ihdr, held: R.Held) {
    && Printing.Representable(held.v)
    && (forall t :: Small(t) && t in held.stored ==> InLettersOne(file, h, held, t))
    && (TExif in held.stored ==> FF.Holds(file, "eXIf", held.exif))
    && (TSplt in held.stored ==> forall i :: 0 <= i < |held.splts| ==> FF.Holds(file, "sPLT", PrintSplt(held.splts[i])))
  }

  lemma OneInLetters(h: Ihdr, held: R.Held, rest: seq<byte>, t: Type)
    requires R.Admitted(h, held) && R.AllFit(h, held) && Small(t) && t in held.stored
    ensures Printing.Representable(held.v) && InLettersOne(MW.Expected(h, held) + rest, h, held, t)
  {
    R.AdmittedFacts(h, held);
    var i := OneOfThem(h, held, t);
    R.KindOfBack(t);
    FF.Names(R.KindOf(t), t);
    hide R.BeforeIdat, R.Admitted, R.AllFit, Stream, Bytes, TypeOf, FF.Spells, FF.Holds, FF.Says, Printing.Print, R.KindOf, MW.Expected, Printing.Printable, ValidIhdr;
    Among(h, held, rest, i, FF.Name(t));
    if Printing.Printable(h, held.v, t) && (t == THist ==> held.v.plteCount > 0) {
      FF.PrintedInNumbers(h, held.v, t);
    }
  }

  /** What is among the chunks stands in the file. */
  lemma Among(h: Ihdr, held: R.Held, rest: seq<byte>, i: nat, name: string)
    requires R.Admitted(h, held) && R.AllFit(h, held) && i < |R.BeforeIdat(h, held)| && FF.Spells(R.BeforeIdat(h, held)[i].kind, name)
    ensures FF.Holds(MW.Expected(h, held) + rest, name, R.BeforeIdat(h, held)[i].data)
  {
    R.AdmittedFacts(h, held);
    MW.ExpectedLength(h, held);
    IhdrBack(h);
    hide R.BeforeIdat, R.Admitted, R.AllFit, Stream, Bytes, FF.Spells, FF.Holds, ValidIhdr, MW.PrintIhdr, ReadU32, CR.IhdrOf, CrcOf;
    ChunkInStream(R.BeforeIdat(h, held), i, SIGNATURE + Bytes(Chunk(IHDR, MW.PrintIhdr(h))), rest, name);
  }

  lemma {:induction false} SpltIn(list: seq<Splt>, i: nat)
    requires i < |list|
    ensures SpltChunk(list[i]) in R.Splts(list)
  {
    hide PrintSplt;
    if i > 0 {
      SpltIn(list[1..], i - 1);
    }
  }

  lemma OthersAmong(h: Ihdr, held: R.Held, c: Chunk) returns (i: nat)
    requires R.Admitted(h, held) && (c in R.StoredSplts(held) || c in R.StoredExif(held))
    ensures i < |R.BeforeIdat(h, held)| && R.BeforeIdat(h, held)[i] == c
  {
    R.AdmittedFacts(h, held);
    hide R.StoredUnknowns, R.StoredSplts, R.StoredExif, R.Admitted, R.One;
    assert c in R.BeforeIdat(h, held);
    i :| 0 <= i < |R.BeforeIdat(h, held)| && R.BeforeIdat(h, held)[i] == c;
  }

  lemma AllInLetters(h: Ihdr, held: R.Held, rest: seq<byte>)
    requires R.Admitted(h, held) && R.AllFit(h, held)
    ensures InLetters(MW.Expected(h, held) + rest, h, held)
  {
    hide R.Admitted, R.AllFit, FF.Holds, FF.Spells, MW.Expected, InLettersOne, PrintSplt, R.BeforeIdat;
    R.AdmittedFacts(h, held);
    FF.Spellings();
    var file := MW.Expected(h, held) + rest;
    forall t | Small(t) && t in held.stored
      ensures InLettersOne(file, h, held, t)
    {
      OneInLetters(h, held, rest, t);
    }
    if TExif in held.stored {
      assert R.StoredExif(held)[0] == Chunk(EXIF, held.exif);
      var i := OthersAmong(h, held, Chunk(EXIF, held.exif));
      Among(h, held, rest, i, "eXIf");
    }
    if TSplt in held.stored {
      forall k | 0 <= k < |held.splts|
        ensures FF.Holds(file, "sPLT", PrintSplt(held.splts[k]))
      {
        SpltIn(held.splts, k);
        var i := OthersAmong(h, held, SpltChunk(held.splts[k]));
        Among(h, held, rest, i, "sPLT");
      }
    }
  }

  /** The order in which the chunks stand between the header and the image data; in two places there are unknown ones. */
  const ORDER: seq<string> :=
    ["cHRM", "gAMA", "sBIT", "sRGB", "", "PLTE", "bKGD", "hIST", "tRNS", "pHYs", "sPLT", "tIME", "oFFs", "eXIf", ""]

  ghost predicate Run(chunks: seq<Chunk>, name: string) {
    name == "" || forall i :: 0 <= i < |chunks| ==> FF.Spells(chunks[i].kind, name)
  }

  /** One run of chunks of each name after the other. */
  ghost predicate InOrder(runs: seq<seq<Chunk>>, names: seq<string>) {
    |runs| == |names| && forall k :: 0 <= k < |runs| ==> Run(runs[k], names[k])
  }

  function Joined(runs: seq<seq<Chunk>>): seq<Chunk> {
    if runs == [] then [] else Joined(runs[..|runs| - 1]) + runs[|runs| - 1]
  }

  /** The chunks before the image data, run by run. */
  ghost function RunsBeforeIdat(h: Ihdr, held: R.Held): seq<seq<Chunk>>
    requires R.Admitted(h, held)
  {
    [R.One(h, held, TChrm),
     R.One(h, held, TGama),
     R.One(h, held, TSbit),
     R.One(h, held, TSrgb),
     R.StoredUnknowns(held, AfterIhdr),
     R.One(h, held, TPlte),
     R.One(h, held, TBkgd),
     R.One(h, held, THist),
     R.One(h, held, TTrns),
     R.One(h, held, TPhys),
     R.StoredSplts(held),
     R.One(h, held, TTime),
     R.One(h, held, TOffs),
     R.StoredExif(held),
     R.StoredUnknowns(held, AfterPlte)]
  }

  lemma OneRun(h: Ihdr, held: R.Held, t: Type)
    requires Printing.Representable(held.v) && Small(t)
    ensures Run(R.One(h, held, t), FF.Name(t))
  {
    R.KindOfBack(t);
    FF.Names(R.KindOf(t), t);
    hide Printing.Print, TypeOf, FF.Spells, R.KindOf;
  }

  lemma {:induction false} SpltRun(list: seq<Splt>)
    ensures Run(R.Splts(list), "sPLT")
  {
    hide FF.Spells, PrintSplt;
    FF.Spellings();
    if list != [] {
      SpltRun(list[1..]);
      assert Run([SpltChunk(list[0])] + R.Splts(list[1..]), "sPLT");
    }
  }

  lemma JoinedOne(runs: seq<seq<Chunk>>, run: seq<Chunk>)
    ensures Joined(runs + [run]) == Joined(runs) + run
  {
    assert (runs + [run])[..|runs|] == runs;
  }

  lemma JoinedRuns(h: Ihdr, held: R.Held)
    requires R.Admitted(h, held)
    ensures Joined(RunsBeforeIdat(h, held)) == R.BeforeIdat(h, held)
  {
    hide R.Admitted, R.One, R.StoredUnknowns, R.StoredSplts, R.StoredExif, Joined;
    R.AdmittedFacts(h, held);
    var runs := RunsBeforeIdat(h, held);
    assert Joined([]) == [] by {
      NothingJoined();
    }
    assert [] + runs[0] == runs[0];
    JoinedOne(runs[..0], runs[0]);
    assert runs[..0] + [runs[0]] == runs[..1];
    JoinedOne(runs[..1], runs[1]);
    assert runs[..1] + [runs[1]] == runs[..2];
    JoinedOne(runs[..2], runs[2]);
    assert runs[..2] + [runs[2]] == runs[..3];
    JoinedOne(runs[..3], runs[3]);
    assert runs[..3] + [runs[3]] == runs[..4];
    JoinedOne(runs[..4], runs[4]);
    assert runs[..4] + [runs[4]] == runs[..5];
    JoinedOne(runs[..5], runs[5]);
    assert runs[..5] + [runs[5]] == runs[..6];
    JoinedOne(runs[..6], runs[6]);
    assert runs[..6] + [runs[6]] == runs[..7];
    JoinedOne(runs[..7], runs[7]);
    assert runs[..7] + [runs[7]] == runs[..8];
    JoinedOne(runs[..8], runs[8]);
    assert runs[..8] + [runs[8]] == runs[..9];
    JoinedOne(runs[..9], runs[9]);
    assert runs[..9] + [runs[9]] == runs[..10];
    JoinedOne(runs[..10], runs[10]);
    assert runs[..10] + [runs[10]] == runs[..11];
    JoinedOne(runs[..11], runs[11]);
    assert runs[..11] + [runs[11]] == runs[..12];
    JoinedOne(runs[..12], runs[12]);
    assert runs[..12] + [runs[12]] == runs[..13];
    JoinedOne(runs[..13], runs[13]);
    assert runs[..13] + [runs[13]] == runs[..14];
    JoinedOne(runs[..14], runs[14]);
    assert runs[..14] + [runs[14]] == runs[..15];
    assert runs[..15] == runs;
  }

  lemma NothingJoined()
    ensures Joined([]) == []
  {
  }

  lemma FirstRuns(h: Ihdr, held: R.Held, k: nat)
    requires R.Admitted(h, held) && k < 8
    ensures Run(RunsBeforeIdat(h, held)[k], ORDER[k])
  {
    hide R.Admitted, R.One, R.Splts, R.KindOf, Run;
    R.AdmittedFacts(h, held);
    OneRun(h, held, TChrm);
    OneRun(h, held, TGama);
    OneRun(h, held, TSbit);
    OneRun(h, held, TSrgb);
    OneRun(h, held, TPlte);
    OneRun(h, held, TBkgd);
    OneRun(h, held, THist);
    RunsOfOthers(held);
  }

  lemma LastRuns(h: Ihdr, held: R.Held, k: nat)
    requires R.Admitted(h, held) && 8 <= k < 15
    ensures Run(RunsBeforeIdat(h, held)[k], ORDER[k])
  {
    hide R.Admitted, R.One, R.Splts, R.KindOf, Run;
    R.AdmittedFacts(h, held);
    OneRun(h, held, TTrns);
    OneRun(h, held, TPhys);
    OneRun(h, held, TTime);
    OneRun(h, held, TOffs);
    RunsOfOthers(held);
  }

  /** And that is their order. */
  lemma WrittenInOrder(h: Ihdr, held: R.Held)
    requires R.Admitted(h, held)
    ensures InOrder(RunsBeforeIdat(h, held), ORDER) && Joined(RunsBeforeIdat(h, held)) == R.BeforeIdat(h, held)
  {
    JoinedRuns(h, held);
    assert |RunsBeforeIdat(h, held)| == |ORDER| == 15;
    hide R.Admitted, R.BeforeIdat, Run, RunsBeforeIdat, Joined;
    forall k | 0 <= k < 15
      ensures Run(RunsBeforeIdat(h, held)[k], ORDER[k])
    {
      if k < 8 {
        FirstRuns(h, held, k);
      } else {
        LastRuns(h, held, k);
      }
    }
  }

  lemma RunsOfOthers(held: R.Held)
    ensures Run(R.StoredSplts(held), "sPLT") && Run(R.StoredExif(held), "eXIf")
    ensures Run(R.StoredUnknowns(held, AfterIhdr), "") && Run(R.StoredUnknowns(held, AfterPlte), "")
  {
    SpltRun(held.splts);
    FF.Spellings();
    hide R.Splts, FF.Spells;
  }

  /** A decoder that has nothing yet, and room for everything the file holds. */
  ghost predicate Ready(r: CR.Reader, h: Ihdr, before: seq<Chunk>, after: seq<Chunk>)
    reads r, r.src
  {
    && r.state == CR.Input && r.Inv() && r.keepUnknown
    && r.exif == [] && r.splts == [] && r.unknowns == []
    && CheckIhdr(h, r.maxWidth, r.maxHeight) == IhdrOk && FitsInMemory(h)
    && CR.Number(before) + CR.Number(after) <= r.countLimit && CR.Costs(before) + CR.Costs(after) <= r.cacheLimit
  }

  lemma ReadyFacts(r: CR.Reader, h: Ihdr, before: seq<Chunk>, after: seq<Chunk>)
    requires Ready(r, h, before, after)
    ensures r.state == CR.Input && r.Inv() && r.keepUnknown && r.Pristine() && r.src.Valid()
    ensures r.exif == [] && r.splts == [] && r.unknowns == []
    ensures CheckIhdr(h, r.maxWidth, r.maxHeight) == IhdrOk && FitsInMemory(h)
    ensures CR.Number(before) <= r.countLimit && CR.Costs(before) <= r.cacheLimit
  {
    hide CR.Number, CR.Costs, CheckIhdr, FitsInMemory;
  }

  /** What the encoder wrote, and then image data. */
  ghost predicate Holds(file: seq<byte>, h: Ihdr, held: R.Held, tail: seq<byte>) {
    && R.HeldOk(h, held) && R.AllFit(h, held) && CR.IdatNext(tail)
    && (h.colorType == INDEXED ==> TPlte in held.stored)
    && file == MW.Expected(h, held) + tail
  }

  lemma FileStarts(file: seq<byte>, h: Ihdr, held: R.Held, tail: seq<byte>)
    requires Holds(file, h, held, tail)
    ensures |file| >= 33 && CR.IhdrOf(file[..29]) == h && ValidIhdr(h)
    ensures file[..29][..8] == SIGNATURE && ReadU32(file[..29][8..]) == 13 && file[..29][12..16] == IHDR
    ensures file[16..29] == MW.PrintIhdr(h) && ReadU32(file[29..]) == CrcOf(Chunk(IHDR, MW.PrintIhdr(h)))
    ensures file[33..] == Stream(R.BeforeIdat(h, held)) + tail
  {
    hide R.Consistent, R.Admitted, Stream, Bytes, ReadU32, CrcOf, R.BeforeIdat, CR.IhdrOf;
    R.HeldFacts(h, held);
    IhdrBack(h);
    var rest := Stream(R.BeforeIdat(h, held)) + tail;
    assert file == SIGNATURE + Bytes(Chunk(IHDR, MW.PrintIhdr(h))) + rest;
    HeaderFirst(file, h, rest);
  }

  lemma HeaderPasses(r: CR.Reader, h: Ihdr, held: R.Held, tail: seq<byte>, before: seq<Chunk>, after: seq<Chunk>)
    requires Holds(r.src.file, h, held, tail) && Ready(r, h, before, after)
    ensures |r.src.file| >= 29 && r.IhdrError(r.src.file[..29]) == CR.Fine
  {
    hide Holds, CheckIhdr, FitsInMemory, ReadU32, CR.IhdrOf, CR.Number, CR.Costs, Stream, Bytes, CrcOf, R.BeforeIdat;
    FileStarts(r.src.file, h, held, tail);
    ReadyFacts(r, h, before, after);
  }

  lemma HoldsFacts(file: seq<byte>, h: Ihdr, held: R.Held, tail: seq<byte>)
    requires Holds(file, h, held, tail)
    ensures R.HeldOk(h, held) && R.Admitted(h, held) && R.Consistent(h, held) && ValidIhdr(h) && Printing.Representable(held.v)
    ensures R.Kinds(R.BeforeIdat(h, held)) && R.Fit(R.BeforeIdat(h, held)) && CR.IdatNext(tail)
    ensures h.colorType == INDEXED ==> TPlte in held.stored
  {
    hide R.BeforeIdat, R.Consistent, ValidIhdr, Printing.Representable;
    R.WrittenKinds(h, held);
    R.AdmittedFacts(h, held);
  }

  lemma HeaderIntact(r: CR.Reader, h: Ihdr, held: R.Held, tail: seq<byte>)
    requires Holds(r.src.file, h, held, tail) && r.HeaderRead()
    ensures r.src.InChunk() && r.src.left == 0 && r.src.Intact() && r.src.bytesRead == 29
    ensures r.src.file[33..] == Stream(R.BeforeIdat(h, held)) + tail && |r.src.file| >= 33 && r.h == h
    ensures r.usage == 0 && r.count == 0 && r.m.v.plteCount == 0 && r.state == CR.GotIhdr && r.m == Meta({}, {}, NO_VALUES)
  {
    hide Holds, Stream, Bytes, ReadU32, Crc, CR.IhdrOf, R.BeforeIdat, R.Admitted;
    FileStarts(r.src.file, h, held, tail);
    assert r.src.kind + r.src.file[16..29] == IHDR + MW.PrintIhdr(h);
  }

  /** With the header read, the chunks are what the decoder can expect. */
  lemma Promise(r: CR.Reader, h: Ihdr, held: R.Held, tail: seq<byte>, back: R.Kept)
    requires Holds(r.src.file, h, held, tail) && r.HeaderRead() && r.h == h && r.Now() == R.NOTHING
    requires R.Admitted(h, held) && r.keepUnknown
    requires CR.Number(R.BeforeIdat(h, held)) <= r.countLimit && CR.Costs(R.BeforeIdat(h, held)) <= r.cacheLimit
    requires ValidIhdr(h) && R.Kinds(R.BeforeIdat(h, held)) && Printing.Representable(held.v)
    requires R.ReadAll(h, false, R.NOTHING, R.BeforeIdat(h, held)) == R.Accepted(back) && R.ReadBack(h, held, back)
    ensures r.Promised(R.BeforeIdat(h, held), tail) && r.Goal(R.BeforeIdat(h, held)) == R.Accepted(back)
  {
    hide Holds, Stream, Bytes, ReadU32, Crc, CR.IhdrOf, CR.Costs, CR.Number, R.ReadAll, CR.ReadOn, R.BeforeIdat, R.Same;
    hide R.Admitted, R.Consistent, ValidIhdr, Printing.Representable, S.Source.InChunk, S.Source.Intact;
    HoldsFacts(r.src.file, h, held, tail);
    HeaderIntact(r, h, held, tail);
    CR.ReadOnIsReadAll(h, false, r.prevWasIdat, R.NOTHING, R.BeforeIdat(h, held));
    assert Small(TPlte);
  }

  /**
   Main result: whatever an encoder holds besides the pixels, if it is consistent, a decoder with
   room for it reads the file up to the image data without an error, and has the header, every
   value, the exif data, the palettes and the unknown chunks, however it treats checksums and
   whether it reads from a buffer or a stream.
   */
  method ReadWhatWasWritten(r: CR.Reader, ghost h: Ihdr, ghost held: R.Held, ghost tail: seq<byte>, ghost after: seq<Chunk>)
    returns (f: CR.Failure)
    requires Holds(r.src.file, h, held, tail) && R.Admitted(h, held) && Ready(r, h, R.BeforeIdat(h, held), after)
    modifies r, r.src
    ensures f == CR.Fine && r.state == CR.FirstIdat && r.Inv() && r.h == h && r.AtTail(tail)
    ensures Printing.Representable(held.v) && R.ReadBack(h, held, r.Now()) && R.AllValid(h, r.Now())
    ensures r.usage <= CR.Costs(R.BeforeIdat(h, held)) && r.count <= CR.Number(R.BeforeIdat(h, held))
  {
    hide Holds, Ready, R.HeldOk, R.Admitted, R.Consistent, R.BeforeIdat, R.ReadAll, R.ReadBack, R.AllValid, CheckIhdr, FitsInMemory;
    hide CR.Costs, CR.Number, CR.Reader.Inv, CR.Reader.Pristine, CR.Reader.AtTail, CR.Reader.Promised, CR.Reader.Goal, CR.Reader.IhdrError, CR.Reader.HeaderRead;
    hide ReadU32, Crc, CR.IhdrOf, Stream, Bytes, Printing.Representable, ValidIhdr;
    ghost var before := R.BeforeIdat(h, held);
    HoldsFacts(r.src.file, h, held, tail);
    ReadyFacts(r, h, before, after);
    HeaderPasses(r, h, held, tail, before, after);
    ghost var back := R.PrintedReadsBack(h, held);
    R.NothingIsValid(h);
    R.ReadAllKeeps(h, false, R.NOTHING, before);
    f := r.ReadChunks(true, [], []);
    HeaderIntactToo(r, h, held, tail);
    Promise(r, h, held, tail, back);
    f := r.ReadChunks(false, before, tail);
    CR.NoCosts();
  }

  lemma HeaderIntactToo(r: CR.Reader, h: Ihdr, held: R.Held, tail: seq<byte>)
    requires Holds(r.src.file, h, held, tail) && r.HeaderRead()
    ensures r.h == h && r.m == Meta({}, {}, NO_VALUES) && r.usage == 0 && r.count == 0 && r.state == CR.GotIhdr
  {
    hide Holds, CR.IhdrOf, R.Admitted, S.Source.InChunk;
    HeaderIntact(r, h, held, tail);
  }

  // ---- The image data, and the end of the file ----

  /** The image data as an encoder cuts it up, and what comes after. */
  ghost predicate CutUp(tail: seq<byte>, payloads: seq<seq<byte>>, post: seq<byte>) {
    && payloads != [] && IW.Bounded(payloads) && IR.Ends(post)
    && tail == IW.IdatStream(payloads) + post
  }

  lemma StartsWithIdat(tail: seq<byte>, payloads: seq<seq<byte>>, post: seq<byte>)
    requires CutUp(tail, payloads, post)
    ensures CR.IdatNext(tail)
  {
    hide Bytes, ReadU32, CrcOf, IW.IdatStream;
    IR.RunStarts(payloads, post);
    FirstBytes(Chunk(IDAT, payloads[0]), IW.IdatStream(payloads[1..]) + post);
  }

  lemma AllTheData(r: CR.Reader, tail: seq<byte>, payloads: seq<seq<byte>>, post: seq<byte>)
    requires CutUp(tail, payloads, post) && r.AtTail(tail)
    ensures r.src.InChunk() && r.src.left == r.src.length && r.src.kind == IDAT
    ensures IR.InRun(r.src, payloads, post)
    ensures IR.Following(r.src.file, r.src.bytesRead, r.src.left) == IW.Concat(payloads)
  {
    hide ReadU32, Crc, CrcOf, Critical, IW.Concat, IR.Following, IW.IdatStream;
    var file, at := r.src.file, r.src.offset;
    IR.RunStarts(payloads, post);
    FirstBytes(Chunk(IDAT, payloads[0]), IW.IdatStream(payloads[1..]) + post);
    hide Bytes;
    assert file[at + 4..at + 8] == file[at..][4..8];
    IR.RestData(file, at, payloads, post);
    DataFollows(file, at);
  }

  lemma DataFollows(file: seq<byte>, at: nat)
    requires at + 8 <= |file| && file[at + 4..at + 8] == IDAT
    ensures IR.IdatData(file, at) == IR.Following(file, at + 8, ReadU32(file[at..]))
  {
  }

  /**
   And then the image data: inflate is given exactly the bytes that deflate produced, however
   the encoder cut them into chunks.
   */
  method OpenImageData(r: CR.Reader, pipe: IR.Inflater, ghost h: Ihdr, ghost held: R.Held, ghost tail: seq<byte>,
                       ghost after: seq<Chunk>, ghost payloads: seq<seq<byte>>, ghost post: seq<byte>) returns (idat: IR.IdatReader)
    requires CutUp(tail, payloads, post) && pipe.eaten == []
    requires Holds(r.src.file, h, held, tail) && R.Admitted(h, held) && Ready(r, h, R.BeforeIdat(h, held), after)
    modifies r, r.src
    ensures r.state == CR.Decoding && r.Inv() && r.h == h
    ensures Printing.Representable(held.v) && R.ReadBack(h, held, r.Now()) && R.AllValid(h, r.Now())
    ensures r.usage <= CR.Costs(R.BeforeIdat(h, held)) && r.count <= CR.Number(R.BeforeIdat(h, held))
    ensures fresh(idat) && idat.src == r.src && idat.pipe == pipe && idat.Valid() && idat.input == []
    ensures idat.whole == IW.Concat(payloads) && IR.InRun(r.src, payloads, post)
  {
    hide Holds, Ready, R.HeldOk, R.Admitted, R.BeforeIdat, R.ReadBack, R.AllValid, Printing.Representable;
    hide CR.Costs, CR.Number, CR.Reader.Inv, CR.Reader.AtTail, CutUp, IW.Concat, IR.Following, IR.RunHere;
    var f := ReadWhatWasWritten(r, h, held, tail, after);
    AllTheData(r, tail, payloads, post);
    r.StartDecoding();
    idat := new IR.IdatReader(r.src, pipe);
  }

  /** What stands behind the image data in the end. */
  ghost predicate Closes(post: seq<byte>, h: Ihdr, held: R.Held)
    requires R.Admitted(h, held)
  {
    && R.UnknownsOk(held.unknowns, AfterIdat) && R.Fit(R.StoredUnknowns(held, AfterIdat))
    && post == Stream(R.StoredUnknowns(held, AfterIdat)) + IEND_BYTES
  }

  lemma {:induction false} UnknownsAreNoIdats(list: seq<Unknown>, location: Location)
    requires R.UnknownsOk(list, location)
    ensures R.Unknowns(list, location) != [] ==> R.Unknowns(list, location)[0].kind != IDAT
  {
    if list != [] {
      CR.IdatType(list[0].kind);
      if list[0].location != location {
        hide TypeOf, Critical;
        UnknownsAreNoIdats(list[1..], location);
      }
    }
  }

  /** Behind the image data comes no more of them. */
  lemma ClosedEnds(post: seq<byte>, h: Ihdr, held: R.Held)
    requires R.Admitted(h, held) && Closes(post, h, held)
    ensures IR.Ends(post)
  {
    hide R.Admitted, R.UnknownsOk, Bytes, ReadU32, Crc, R.Unknowns;
    UnknownsAreNoIdats(held.unknowns, AfterIdat);
    var after := R.StoredUnknowns(held, AfterIdat);
    if after != [] {
      var rest := Stream(after[1..]) + IEND_BYTES;
      assert post == Bytes(after[0]) + rest;
      FirstBytes(after[0], rest);
    } else {
      assert post == IEND_BYTES;
      assert post[4..8] == [73, 69, 78, 68];
    }
  }

  lemma RunValid(run: seq<seq<byte>>)
    requires IW.Bounded(run)
    ensures R.Fit(IW.Idats(run)) && forall i :: 0 <= i < |run| ==> IW.Idats(run)[i].kind == IDAT
  {
  }

  /** At the end of an IDAT chunk: the rest of the run, the other chunks and the last one. */
  lemma EndPromise(r: CR.Reader, h: Ihdr, held: R.Held, run: seq<seq<byte>>, post: seq<byte>, now: R.Kept, next: R.Kept)
    requires R.Admitted(h, held) && Closes(post, h, held) && r.keepUnknown && r.h == h && ValidIhdr(h)
    requires IR.InRun(r.src, run, post) && r.src.left == 0 && r.Now() == now && now.m.v.plteCount <= 256
    requires R.Kinds(R.StoredUnknowns(held, AfterIdat))
    requires R.ReadAll(h, true, now, R.StoredUnknowns(held, AfterIdat)) == R.Accepted(next)
    requires r.count + CR.Number(R.StoredUnknowns(held, AfterIdat)) <= r.countLimit
    requires r.usage + CR.Costs(R.StoredUnknowns(held, AfterIdat)) <= r.cacheLimit
    ensures run != [] && r.PromisedIf(true, true, IW.Idats(run[1..]) + R.StoredUnknowns(held, AfterIdat), IEND_BYTES)
    ensures r.GoalIf(true, true, IW.Idats(run[1..]) + R.StoredUnknowns(held, AfterIdat)) == R.Accepted(next)
  {
    hide R.Admitted, R.UnknownsOk, R.StoredUnknowns, ReadU32, Crc, Bytes, ValidIhdr, R.ReadAll, CR.ReadOn, CR.Costs, CR.Number, IW.Idats, Stream;
    var after := R.StoredUnknowns(held, AfterIdat);
    NoIdatAfter(held);
    IR.RunRest(r.src, run, post);
    IR.InRunAt(r.src, run, post);
    RunValid(run[1..]);
    CR.IdatsSkipped(h, now, IW.Idats(run[1..]), after);
    StreamAppend(IW.Idats(run[1..]), after);
    var all := IW.Idats(run[1..]) + after;
    assert IW.IdatStream(run[1..]) + (Stream(after) + IEND_BYTES) == Stream(all) + IEND_BYTES;
  }

  lemma NoIdatAfter(held: R.Held)
    requires R.UnknownsOk(held.unknowns, AfterIdat)
    ensures R.StoredUnknowns(held, AfterIdat) != [] ==> R.StoredUnknowns(held, AfterIdat)[0].kind != IDAT
  {
    UnknownsAreNoIdats(held.unknowns, AfterIdat);
    hide R.UnknownsOk, R.Unknowns;
  }

  /**
   After the last row, wherever in the run of IDAT chunks that is: the decoder passes over the
   rest of the run, accepts the unknown chunks behind it, and reads the last chunk.
   */
  method ReadTheEnd(r: CR.Reader, ghost h: Ihdr, ghost held: R.Held, ghost run: seq<seq<byte>>, ghost post: seq<byte>)
    returns (f: CR.Failure)
    requires R.Admitted(h, held) && Closes(post, h, held) && r.keepUnknown && r.h == h
    requires r.state == CR.Decoding && r.Inv() && IR.InRun(r.src, run, post)
    requires r.count + CR.Number(R.StoredUnknowns(held, AfterIdat)) <= r.countLimit
    requires r.usage + CR.Costs(R.StoredUnknowns(held, AfterIdat)) <= r.cacheLimit
    modifies r, r.src
    ensures f == CR.Fine && r.state == CR.Ended && r.Inv() && r.h == h && r.src.bytesRead == |r.src.file|
    ensures r.unknowns == old(r.unknowns) + R.At(held.unknowns, AfterIdat, AfterIdat)
    ensures r.m.v == old(r.m.v) && r.exif == old(r.exif) && r.splts == old(r.splts)
    ensures forall t :: Small(t) ==> (t in r.m.file <==> t in old(r.m.file))
    ensures old(r.m.stored == r.m.file) ==> r.m.stored == r.m.file
  {
    hide R.Admitted, Closes, R.StoredUnknowns, IR.RunHere, R.ReadAll, R.UnknownsOk, R.At, CR.Costs, CR.Number, Crc, ReadU32, Stream, Bytes, ValidIhdr;
    hide CR.Reader.PromisedIf, CR.Reader.GoalIf, CR.Reader.Inv;
    ClosesFacts(post, h, held);
    CR.InvFacts(r);
    ghost var now := r.Now();
    IR.RunNotEmpty(r.src, run, post);
    f := r.EndImage();
    CR.InvFacts(r);
    ghost var next := R.AfterIdatReadsBack(h, held, now);
    EndPromise(r, h, held, run, post, now, next);
    f := r.ReadChunks(false, IW.Idats(run[1..]) + R.StoredUnknowns(held, AfterIdat), IEND_BYTES);
  }

  lemma ClosesFacts(post: seq<byte>, h: Ihdr, held: R.Held)
    requires R.Admitted(h, held) && Closes(post, h, held)
    ensures R.UnknownsOk(held.unknowns, AfterIdat) && ValidIhdr(h)
  {
    hide R.UnknownsOk, R.StoredUnknowns, Stream;
    R.AdmittedFacts(h, held);
  }
}
