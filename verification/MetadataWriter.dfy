/**
 Writing the chunks around the image data, with the values laid out in a scratch array.
 */
module MetadataWriter {
  import opened Octets
  import opened Chunks
  import opened Header
  import opened Metadata
  import opened Printing
  import opened LongChunks
  import opened MetadataRoundTrip
  import W = ChunkWriter

  function PrintIhdr(h: Ihdr): seq<byte>
    requires ValidIhdr(h)
  {
    U32(h.width) + U32(h.height)
    + [h.bitDepth, h.colorType, h.compressionMethod, h.filterMethod, h.interlaceMethod]
  }

  /** The loop over the palette. */
  method LayPlte(data: array<byte>, plte: seq<Rgb>)
    requires data.Length >= 1024 && |plte| <= 256
    modifies data
    ensures data[..3 * |plte|] == PrintPlte(plte)
  {
    var i := 0;
    while i < |plte|
      invariant i <= |plte| && data[..3 * i] == PrintPlte(plte[..i])
    {
      ghost var before := data[..3 * i];
      data[i * 3 + 0] := plte[i].red;
      data[i * 3 + 1] := plte[i].green;
      data[i * 3 + 2] := plte[i].blue;
      assert plte[..i + 1][..i] == plte[..i];
      assert data[..3 * (i + 1)] == before + [plte[i].red, plte[i].green, plte[i].blue];
      i := i + 1;
    }
    assert plte[..i] == plte;
  }

  /** The loop over the histogram. */
  method LayHist(data: array<byte>, hist: seq<u16>)
    requires data.Length >= 1024 && |hist| <= 256
    modifies data
    ensures data[..2 * |hist|] == PrintHist(hist)
  {
    hide U16;
    var i := 0;
    while i < |hist|
      invariant i <= |hist| && data[..2 * i] == PrintHist(hist[..i])
    {
      ghost var before := data[..2 * i];
      data[i * 2], data[i * 2 + 1] := U16(hist[i])[0], U16(hist[i])[1];
      assert hist[..i + 1][..i] == hist[..i];
      assert data[..2 * (i + 1)] == before + U16(hist[i]);
      i := i + 1;
    }
    assert hist[..i] == hist;
  }

  /** The data of a small chunk. */
  method Lay(h: Ihdr, v: Values, t: Type, data: array<byte>) returns (bytes: seq<byte>)
    requires ValidIhdr(h) && Representable(v) && Small(t) && data.Length >= 1024
    modifies data
    ensures bytes == Print(h, v, t)
  {
    hide U16, U32, PrintPlte, PrintHist, PrintWords, Pow2;
    if t == TPlte {
      LayPlte(data, v.plte);
      bytes := data[..3 * |v.plte|];
    } else if t == THist {
      LayHist(data, v.hist[..v.plteCount]);
      bytes := data[..2 * v.plteCount];
    } else {
      bytes := Print(h, v, t);
    }
  }

  /** The file that is to be written before the image data. */
  ghost function Expected(h: Ihdr, held: Held): seq<byte>
    requires Admitted(h, held) && AllFit(h, held)
  {
    SIGNATURE + Bytes(Chunk(IHDR, PrintIhdr(h))) + Stream(BeforeIdat(h, held))
  }

  /** What the chunks take of a file. */
  ghost function Size(chunks: seq<Chunk>): nat {
    if chunks == [] then 0 else |chunks[0].data| + 12 + Size(chunks[1..])
  }

  lemma {:induction false} StreamSize(chunks: seq<Chunk>)
    requires Fit(chunks)
    ensures |Stream(chunks)| == Size(chunks)
  {
    hide Bytes;
    if chunks != [] {
      StreamSize(chunks[1..]);
    }
  }

  lemma {:induction false} SizeAppend(a: seq<Chunk>, b: seq<Chunk>)
    ensures Size(a + b) == Size(a) + Size(b)
    decreases |a|
  {
    if a == [] {
      assert a + b == b;
    } else {
      assert (a + b)[0] == a[0] && (a + b)[1..] == a[1..] + b;
      SizeAppend(a[1..], b);
    }
  }

  lemma SizeOne(c: Chunk)
    ensures Size([c]) == |c.data| + 12
  {
    assert [c][1..] == [];
  }

  /** All that comes before the image data. */
  ghost function SizeBefore(h: Ihdr, held: Held): nat
    requires Admitted(h, held)
  {
    33 + Size(BeforeIdat(h, held))
  }

  /** The writer has written these chunks, and there is room for so many bytes more. */
  ghost predicate Wrote(w: W.Writer, start: seq<byte>, chunks: seq<Chunk>, room: nat)
    reads w, w.outPng
  {
    && w.Valid() && (w.streaming || w.internalBuffer) && Fit(chunks)
    && w.Output() == start + Stream(chunks) && w.bytesEncoded + room <= W.MAX_REQUIRED
  }

  lemma StreamOne(c: Chunk)
    requires c.Valid()
    ensures Fit([c]) && Stream([c]) == Bytes(c)
  {
    assert [c][1..] == [];
    assert Stream([c]) == Bytes([c][0]) + Stream([c][1..]);
  }

  lemma StreamMore(a: seq<Chunk>, c: Chunk)
    requires Fit(a) && c.Valid()
    ensures Fit(a + [c]) && Stream(a + [c]) == Stream(a) + Bytes(c)
  {
    StreamOne(c);
    StreamAppend(a, [c]);
  }

  /** One chunk more. */
  method More(w: W.Writer, kind: seq<byte>, data: seq<byte>, ghost start: seq<byte>, ghost chunks: seq<Chunk>, ghost room: nat)
    requires Wrote(w, start, chunks, room + |data| + 12) && Chunk(kind, data).Valid()
    modifies w, w.streamBuf, w.outPng
    ensures Wrote(w, start, chunks + [Chunk(kind, data)], room)
    ensures w.streamBuf != old(w.streamBuf) ==> fresh(w.streamBuf)
    ensures w.outPng != old(w.outPng) ==> fresh(w.outPng)
  {
    hide Bytes, Stream;
    StreamMore(chunks, Chunk(kind, data));
    var status := w.WriteChunk(kind, data);
    assert w.Output() == start + (Stream(chunks) + Bytes(Chunk(kind, data)));
  }

  /** One kind of small chunk, if it is stored. */
  method MoreSmall(w: W.Writer, h: Ihdr, held: Held, t: Type, data: array<byte>,
                   ghost start: seq<byte>, ghost chunks: seq<Chunk>, ghost room: nat)
    requires Admitted(h, held) && Small(t) && data.Length >= 1024
    requires Wrote(w, start, chunks, room + Size(One(h, held, t)))
    requires data != w.streamBuf && data != w.outPng
    modifies w, w.streamBuf, w.outPng, data
    ensures Wrote(w, start, chunks + One(h, held, t), room)
    ensures w.streamBuf != old(w.streamBuf) ==> fresh(w.streamBuf)
    ensures w.outPng != old(w.outPng) ==> fresh(w.outPng)
  {
    hide Bytes, Stream, Print, Wrote, Size;
    AdmittedFacts(h, held);
    KindOfBack(t);
    OneFits(h, held, t);
    if t in held.stored {
      ghost var c := Chunk(KindOf(t), Print(h, held.v, t));
      assert One(h, held, t)[0] == c;
      SizeOne(c);
      var bytes := LayScratch(w, h, held.v, t, data, start, chunks, room + |c.data| + 12);
      More(w, KindOf(t), bytes, start, chunks, room);
    } else {
      assert chunks + [] == chunks;
      NoStream();
    }
  }

  lemma NoStream()
    ensures Stream([]) == [] && Size([]) == 0
  {
  }

  /** Laying out does not touch what was written. */
  method LayScratch(w: W.Writer, h: Ihdr, v: Values, t: Type, data: array<byte>,
                    ghost start: seq<byte>, ghost chunks: seq<Chunk>, ghost room: nat) returns (bytes: seq<byte>)
    requires ValidIhdr(h) && Representable(v) && Small(t) && data.Length >= 1024
    requires Wrote(w, start, chunks, room) && data != w.streamBuf && data != w.outPng
    modifies data
    ensures bytes == Print(h, v, t) && Wrote(w, start, chunks, room)
  {
    hide Print, Stream;
    bytes := Lay(h, v, t, data);
  }

  lemma StreamFront(c: Chunk, rest: seq<Chunk>)
    requires Fit([c] + rest)
    ensures c.Valid() && Fit(rest) && Size([c] + rest) == |c.data| + 12 + Size(rest)
  {
    SizeAppend([c], rest);
    SizeOne(c);
    var all := [c] + rest;
    assert all[0] == c && all[1..] == rest;
    assert forall i :: 0 <= i < |rest| ==> rest[i] == all[i + 1];
  }

  /** write_unknown_chunks */
  method MoreUnknowns(w: W.Writer, list: seq<Unknown>, location: Location,
                      ghost start: seq<byte>, ghost chunks: seq<Chunk>, ghost room: nat)
    requires Fit(Unknowns(list, location))
    requires Wrote(w, start, chunks, room + Size(Unknowns(list, location)))
    modifies w, w.streamBuf, w.outPng
    ensures Wrote(w, start, chunks + Unknowns(list, location), room)
    ensures w.streamBuf != old(w.streamBuf) ==> fresh(w.streamBuf)
    ensures w.outPng != old(w.outPng) ==> fresh(w.outPng)
  {
    hide Stream, Wrote, Unknowns, Size;
    ghost var written: seq<Chunk> := [];
    assert list[0..] == list && chunks + [] == chunks;
    var i := 0;
    while i < |list|
      invariant i <= |list| && written + Unknowns(list[i..], location) == Unknowns(list, location)
      invariant Fit(Unknowns(list[i..], location))
      invariant Wrote(w, start, chunks + written, room + Size(Unknowns(list[i..], location)))
      invariant w.streamBuf != old(w.streamBuf) ==> fresh(w.streamBuf)
      invariant w.outPng != old(w.outPng) ==> fresh(w.outPng)
    {
      UnknownsAt(list, location, i);
      if list[i].location == location {
        ghost var c := Chunk(list[i].kind, list[i].data);
        StreamFront(c, Unknowns(list[i + 1..], location));
        More(w, list[i].kind, list[i].data, start, chunks + written, room + Size(Unknowns(list[i + 1..], location)));
        assert chunks + written + [c] == chunks + (written + [c]);
        written := written + [c];
      } else {
        assert [] + Unknowns(list[i + 1..], location) == Unknowns(list[i + 1..], location);
      }
      i := i + 1;
    }
    NoUnknowns(list[i..], location);
    NoStream();
    assert written + [] == written;
  }

  lemma NoUnknowns(list: seq<Unknown>, location: Location)
    requires list == []
    ensures Unknowns(list, location) == []
  {
  }

  lemma UnknownsAt(list: seq<Unknown>, location: Location, i: nat)
    requires i < |list|
    ensures Unknowns(list[i..], location)
      == (if list[i].location == location then [Chunk(list[i].kind, list[i].data)] else []) + Unknowns(list[i + 1..], location)
  {
    assert list[i..][0] == list[i] && list[i..][1..] == list[i + 1..];
  }

  /** The loop over the entries of a suggested palette. */
  method LaySplt(s: Splt) returns (bytes: seq<byte>)
    ensures bytes == PrintSplt(s)
  {
    hide PrintEntry, PrintEntries, KeywordOk;
    bytes := s.name + [0, s.depth];
    assert s.entries[0..] == s.entries;
    var k := 0;
    while k < |s.entries|
      invariant k <= |s.entries|
      invariant bytes + PrintEntries(s.depth, s.entries[k..]) == PrintSplt(s)
    {
      EntriesAt(s, k);
      bytes := bytes + PrintEntry(s.depth, s.entries[k]);
      k := k + 1;
    }
    NoEntries(s.depth);
    assert s.entries[k..] == [];
    assert bytes + [] == bytes;
  }

  lemma NoEntries(depth: byte)
    ensures PrintEntries(depth, []) == []
  {
  }

  lemma EntriesAt(s: Splt, k: nat)
    requires k < |s.entries|
    ensures PrintEntries(s.depth, s.entries[k..])
      == PrintEntry(s.depth, s.entries[k]) + PrintEntries(s.depth, s.entries[k + 1..])
  {
    assert s.entries[k..][0] == s.entries[k] && s.entries[k..][1..] == s.entries[k + 1..];
  }

  /** The palettes in their order, up to one that is too long. */
  method MoreSplts(w: W.Writer, list: seq<Splt>, ghost start: seq<byte>, ghost chunks: seq<Chunk>, ghost room: nat) returns (ok: bool)
    requires NoneWraps(list) && Wrote(w, start, chunks, room + Size(Splts(list)))
    modifies w, w.streamBuf, w.outPng
    ensures ok <==> Fit(Splts(list))
    ensures w.Valid() && (ok ==> Wrote(w, start, chunks + Splts(list), room))
    ensures w.streamBuf != old(w.streamBuf) ==> fresh(w.streamBuf)
    ensures w.outPng != old(w.outPng) ==> fresh(w.outPng)
  {
    hide Stream, Wrote, Splts, PrintSplt, Size, Fit, HeaderLength, Wraps, SpltLength;
    ghost var written: seq<Chunk> := [];
    assert list[0..] == list && chunks + [] == chunks;
    var i := 0;
    while i < |list|
      invariant i <= |list| && written + Splts(list[i..]) == Splts(list)
      invariant Fit(Splts(list)) <==> Fit(Splts(list[i..]))
      invariant Wrote(w, start, chunks + written, room + Size(Splts(list[i..])))
      invariant w.streamBuf != old(w.streamBuf) ==> fresh(w.streamBuf)
      invariant w.outPng != old(w.outPng) ==> fresh(w.outPng)
    {
      SpltsAt(list, i);
      SpltApart(list[i], Splts(list[i + 1..]));
      HeaderIsExact(list[i]);
      ghost var c := SpltChunk(list[i]);
      if HeaderLength(list[i]) > PNG_MAX {
        IsValid(w, start, chunks + written, room + Size(Splts(list[i..])));
        return false;
      }
      var bytes := LaySplt(list[i]);
      More(w, SPLT, bytes, start, chunks + written, room + Size(Splts(list[i + 1..])));
      assert chunks + written + [c] == chunks + (written + [c]);
      written := written + [c];
      i := i + 1;
    }
    NoSplts(list[i..]);
    NoStream();
    assert written + [] == written;
    IsValid(w, start, chunks + written, room);
    return true;
  }

  lemma IsValid(w: W.Writer, start: seq<byte>, chunks: seq<Chunk>, room: nat)
    requires Wrote(w, start, chunks, room)
    ensures w.Valid()
  {
  }

  lemma SpltApart(s: Splt, rest: seq<Chunk>)
    ensures SpltChunk(s).Valid() <==> SpltLength(s) <= PNG_MAX
    ensures Fit([SpltChunk(s)] + rest) <==> SpltLength(s) <= PNG_MAX && Fit(rest)
    ensures Size([SpltChunk(s)] + rest) == SpltLength(s) + 12 + Size(rest)
  {
    var c := SpltChunk(s);
    SpltType();
    FitApart([c], rest);
    assert [c][0].Valid() <==> SpltLength(s) <= PNG_MAX;
    SizeAppend([c], rest);
    SizeOne(c);
  }

  lemma NoSplts(list: seq<Splt>)
    requires list == []
    ensures Splts(list) == [] && Fit(Splts(list))
  {
  }

  lemma SpltsAt(list: seq<Splt>, i: nat)
    requires i < |list|
    ensures Splts(list[i..]) == [SpltChunk(list[i])] + Splts(list[i + 1..])
  {
    assert list[i..][0] == list[i] && list[i..][1..] == list[i + 1..];
  }

  /** Up to the palette. */
  method WriteFirst(w: W.Writer, h: Ihdr, held: Held, data: array<byte>,
                    ghost start: seq<byte>, ghost chunks: seq<Chunk>, ghost room: nat)
    requires Admitted(h, held) && data.Length >= 1024 && data != w.streamBuf && data != w.outPng
    requires Wrote(w, start, chunks, room + Size(One(h, held, TChrm)) + Size(One(h, held, TGama))
      + Size(One(h, held, TSbit)) + Size(One(h, held, TSrgb)) + Size(StoredUnknowns(held, AfterIhdr)))
    modifies w, w.streamBuf, w.outPng, data
    ensures Wrote(w, start, chunks + One(h, held, TChrm) + One(h, held, TGama) + One(h, held, TSbit) + One(h, held, TSrgb)
      + StoredUnknowns(held, AfterIhdr), room)
    ensures w.streamBuf != old(w.streamBuf) ==> fresh(w.streamBuf)
    ensures w.outPng != old(w.outPng) ==> fresh(w.outPng)
  {
    hide Admitted, Stream, Wrote, One, StoredUnknowns, Size, Fit;
    AdmittedFacts(h, held);
    OthersFit(h, held);
    ghost var u := Size(StoredUnknowns(held, AfterIhdr));
    ghost var c4, c3, c2 := Size(One(h, held, TSrgb)), Size(One(h, held, TSbit)), Size(One(h, held, TGama));
    MoreSmall(w, h, held, TChrm, data, start, chunks, room + u + c4 + c3 + c2);
    ghost var p1 := chunks + One(h, held, TChrm);
    MoreSmall(w, h, held, TGama, data, start, p1, room + u + c4 + c3);
    ghost var p2 := p1 + One(h, held, TGama);
    MoreSmall(w, h, held, TSbit, data, start, p2, room + u + c4);
    ghost var p3 := p2 + One(h, held, TSbit);
    MoreSmall(w, h, held, TSrgb, data, start, p3, room + u);
    ghost var p4 := p3 + One(h, held, TSrgb);
    WriteUnknowns(w, held, AfterIhdr, start, p4, room);
  }

  method WriteUnknowns(w: W.Writer, held: Held, location: Location,
                       ghost start: seq<byte>, ghost chunks: seq<Chunk>, ghost room: nat)
    requires Fit(StoredUnknowns(held, location))
    requires Wrote(w, start, chunks, room + Size(StoredUnknowns(held, location)))
    modifies w, w.streamBuf, w.outPng
    ensures Wrote(w, start, chunks + StoredUnknowns(held, location), room)
    ensures w.streamBuf != old(w.streamBuf) ==> fresh(w.streamBuf)
    ensures w.outPng != old(w.outPng) ==> fresh(w.outPng)
  {
    hide Stream, Wrote;
    if TUnknown !in held.stored {
      NoStream();
      assert chunks + [] == chunks;
      return;
    }
    MoreUnknowns(w, held.unknowns, location, start, chunks, room);
  }

  /** From the palette to the physical dimensions. */
  method WriteSecond(w: W.Writer, h: Ihdr, held: Held, data: array<byte>,
                     ghost start: seq<byte>, ghost chunks: seq<Chunk>, ghost room: nat)
    requires Admitted(h, held) && data.Length >= 1024 && data != w.streamBuf && data != w.outPng
    requires Wrote(w, start, chunks, room + Size(One(h, held, TPlte)) + Size(One(h, held, TBkgd))
      + Size(One(h, held, THist)) + Size(One(h, held, TTrns)) + Size(One(h, held, TPhys)))
    modifies w, w.streamBuf, w.outPng, data
    ensures Wrote(w, start, chunks + One(h, held, TPlte) + One(h, held, TBkgd) + One(h, held, THist)
      + One(h, held, TTrns) + One(h, held, TPhys), room)
    ensures w.streamBuf != old(w.streamBuf) ==> fresh(w.streamBuf)
    ensures w.outPng != old(w.outPng) ==> fresh(w.outPng)
  {
    hide Admitted, Stream, Wrote, One, Size, Fit;
    AdmittedFacts(h, held);
    ghost var c5, c4 := Size(One(h, held, TPhys)), Size(One(h, held, TTrns));
    ghost var c3, c2 := Size(One(h, held, THist)), Size(One(h, held, TBkgd));
    MoreSmall(w, h, held, TPlte, data, start, chunks, room + c5 + c4 + c3 + c2);
    ghost var p1 := chunks + One(h, held, TPlte);
    MoreSmall(w, h, held, TBkgd, data, start, p1, room + c5 + c4 + c3);
    ghost var p2 := p1 + One(h, held, TBkgd);
    MoreSmall(w, h, held, THist, data, start, p2, room + c5 + c4);
    ghost var p3 := p2 + One(h, held, THist);
    MoreSmall(w, h, held, TTrns, data, start, p3, room + c5);
    ghost var p4 := p3 + One(h, held, TTrns);
    MoreSmall(w, h, held, TPhys, data, start, p4, room);
  }

  /** The palettes, the time, the offset, the exif data and the rest of the unknown chunks. */
  method WriteThird(w: W.Writer, h: Ihdr, held: Held, data: array<byte>,
                    ghost start: seq<byte>, ghost chunks: seq<Chunk>, ghost room: nat) returns (ok: bool)
    requires Admitted(h, held) && NoneWraps(held.splts) && data.Length >= 1024 && data != w.streamBuf && data != w.outPng
    requires Wrote(w, start, chunks, room + Size(StoredSplts(held)) + Size(One(h, held, TTime))
      + Size(One(h, held, TOffs)) + Size(StoredExif(held)) + Size(StoredUnknowns(held, AfterPlte)))
    modifies w, w.streamBuf, w.outPng, data
    ensures w.Valid() && (ok <==> Fit(StoredSplts(held)))
    ensures ok ==>
      Wrote(w, start, chunks + StoredSplts(held) + One(h, held, TTime) + One(h, held, TOffs)
        + StoredExif(held) + StoredUnknowns(held, AfterPlte), room)
    ensures w.streamBuf != old(w.streamBuf) ==> fresh(w.streamBuf)
    ensures w.outPng != old(w.outPng) ==> fresh(w.outPng)
  {
    hide Admitted, Stream, Wrote, One, StoredUnknowns, StoredSplts, StoredExif, Size, Fit;
    AdmittedFacts(h, held);
    OthersFit(h, held);
    ghost var c5, c4 := Size(StoredUnknowns(held, AfterPlte)), Size(StoredExif(held));
    ghost var c3, c2 := Size(One(h, held, TOffs)), Size(One(h, held, TTime));
    ok := WriteSplts(w, held, start, chunks, room + c5 + c4 + c3 + c2);
    if !ok {
      return;
    }
    ghost var p1 := chunks + StoredSplts(held);
    MoreSmall(w, h, held, TTime, data, start, p1, room + c5 + c4 + c3);
    ghost var p2 := p1 + One(h, held, TTime);
    MoreSmall(w, h, held, TOffs, data, start, p2, room + c5 + c4);
    ghost var p3 := p2 + One(h, held, TOffs);
    WriteExif(w, held, start, p3, room + c5);
    ghost var p4 := p3 + StoredExif(held);
    WriteUnknowns(w, held, AfterPlte, start, p4, room);
    IsValid(w, start, p4 + StoredUnknowns(held, AfterPlte), room);
  }

  method WriteSplts(w: W.Writer, held: Held, ghost start: seq<byte>, ghost chunks: seq<Chunk>, ghost room: nat) returns (ok: bool)
    requires NoneWraps(held.splts) && Wrote(w, start, chunks, room + Size(StoredSplts(held)))
    modifies w, w.streamBuf, w.outPng
    ensures w.Valid() && (ok <==> Fit(StoredSplts(held)))
    ensures ok ==> Wrote(w, start, chunks + StoredSplts(held), room)
    ensures w.streamBuf != old(w.streamBuf) ==> fresh(w.streamBuf)
    ensures w.outPng != old(w.outPng) ==> fresh(w.outPng)
  {
    hide Stream, Wrote;
    if TSplt !in held.stored {
      NoStream();
      assert chunks + [] == chunks;
      IsValid(w, start, chunks, room);
      return true;
    }
    ok := MoreSplts(w, held.splts, start, chunks, room);
  }

  method WriteExif(w: W.Writer, held: Held, ghost start: seq<byte>, ghost chunks: seq<Chunk>, ghost room: nat)
    requires Fit(StoredExif(held))
    requires Wrote(w, start, chunks, room + Size(StoredExif(held)))
    modifies w, w.streamBuf, w.outPng
    ensures Wrote(w, start, chunks + StoredExif(held), room)
    ensures w.streamBuf != old(w.streamBuf) ==> fresh(w.streamBuf)
    ensures w.outPng != old(w.outPng) ==> fresh(w.outPng)
  {
    hide Stream, Wrote, Bytes;
    if TExif !in held.stored {
      NoStream();
      assert chunks + [] == chunks;
      return;
    }
    assert StoredExif(held)[0].Valid();
    SizeOne(StoredExif(held)[0]);
    More(w, EXIF, held.exif, start, chunks, room);
  }

  /** The sum of what the fifteen parts take. */
  lemma AllLengths(h: Ihdr, held: Held)
    requires Admitted(h, held)
    ensures Representable(held.v)
    ensures Size(BeforeIdat(h, held)) == Size(One(h, held, TChrm)) + Size(One(h, held, TGama))
      + Size(One(h, held, TSbit)) + Size(One(h, held, TSrgb)) + Size(StoredUnknowns(held, AfterIhdr))
      + Size(One(h, held, TPlte)) + Size(One(h, held, TBkgd))
      + Size(One(h, held, THist)) + Size(One(h, held, TTrns)) + Size(One(h, held, TPhys))
      + Size(StoredSplts(held)) + Size(One(h, held, TTime))
      + Size(One(h, held, TOffs)) + Size(StoredExif(held)) + Size(StoredUnknowns(held, AfterPlte))
  {
    hide Admitted, Representable, One, StoredUnknowns, StoredSplts, StoredExif, Size;
    AdmittedFacts(h, held);
    var p1 := One(h, held, TChrm);
    var p2 := p1 + One(h, held, TGama);
    var p3 := p2 + One(h, held, TSbit);
    var p4 := p3 + One(h, held, TSrgb);
    var p5 := p4 + StoredUnknowns(held, AfterIhdr);
    var p6 := p5 + One(h, held, TPlte);
    var p7 := p6 + One(h, held, TBkgd);
    var p8 := p7 + One(h, held, THist);
    var p9 := p8 + One(h, held, TTrns);
    var p10 := p9 + One(h, held, TPhys);
    var p11 := p10 + StoredSplts(held);
    var p12 := p11 + One(h, held, TTime);
    var p13 := p12 + One(h, held, TOffs);
    var p14 := p13 + StoredExif(held);
    SizeAppend(p14, StoredUnknowns(held, AfterPlte));
    SizeAppend(p13, StoredExif(held));
    SizeAppend(p12, One(h, held, TOffs));
    SizeAppend(p11, One(h, held, TTime));
    SizeAppend(p10, StoredSplts(held));
    SizeAppend(p9, One(h, held, TPhys));
    SizeAppend(p8, One(h, held, TTrns));
    SizeAppend(p7, One(h, held, THist));
    SizeAppend(p6, One(h, held, TBkgd));
    SizeAppend(p5, One(h, held, TPlte));
    SizeAppend(p4, StoredUnknowns(held, AfterIhdr));
    SizeAppend(p3, One(h, held, TSrgb));
    SizeAppend(p2, One(h, held, TSbit));
    SizeAppend(p1, One(h, held, TGama));
  }

  /** The signature and the header. */
  method WriteStart(w: W.Writer, h: Ihdr, data: array<byte>, ghost start: seq<byte>, ghost room: nat)
    requires w.Valid() && (w.streaming || w.internalBuffer) && ValidIhdr(h)
    requires start == w.Output() + (SIGNATURE + Bytes(Chunk(IHDR, PrintIhdr(h))))
    requires w.bytesEncoded + 33 + room <= W.MAX_REQUIRED
    requires data != w.streamBuf && data != w.outPng
    modifies w, w.streamBuf, w.outPng
    ensures Wrote(w, start, [], room) && data != w.streamBuf && data != w.outPng
    ensures w.streamBuf != old(w.streamBuf) ==> fresh(w.streamBuf)
    ensures w.outPng != old(w.outPng) ==> fresh(w.outPng)
  {
    hide Bytes, Stream, U32, ValidIhdr, PrintIhdr;
    NoStream();
    IhdrLength(h);
    ghost var before, bytes := w.Output(), Bytes(Chunk(IHDR, PrintIhdr(h)));
    var status := w.WriteData(SIGNATURE);
    status := w.WriteChunk(IHDR, PrintIhdr(h));
    assert before + SIGNATURE + bytes == before + (SIGNATURE + bytes);
    assert start == start + [];
  }

  lemma IhdrLength(h: Ihdr)
    requires ValidIhdr(h)
    ensures |PrintIhdr(h)| == 13 && |SIGNATURE| == 8 && |IHDR| == 4
  {
    hide U32, ValidIhdr;
  }

  lemma ExpectedLength(h: Ihdr, held: Held)
    requires Admitted(h, held) && AllFit(h, held)
    ensures |Expected(h, held)| == SizeBefore(h, held) && Fit(BeforeIdat(h, held))
    ensures Expected(h, held) == SIGNATURE + Bytes(Chunk(IHDR, PrintIhdr(h))) + Stream(BeforeIdat(h, held))
  {
    StreamSize(BeforeIdat(h, held));
  }

  /**
   write_chunks_before_idat: buffered or streamed, these are the bytes that come out. Only a
   palette that is too long for a chunk stops it.
   */
  method WriteChunksBeforeIdat(w: W.Writer, h: Ihdr, held: Held, data: array<byte>) returns (ok: bool)
    requires w.Valid() && (w.streaming || w.internalBuffer) && Admitted(h, held) && NoneWraps(held.splts)
    requires data.Length >= 1024 && data != w.streamBuf && data != w.outPng
    requires w.bytesEncoded + SizeBefore(h, held) <= W.MAX_REQUIRED
    modifies w, w.streamBuf, w.outPng, data
    ensures w.Valid() && (ok <==> AllFit(h, held))
    ensures ok ==> w.Output() == old(w.Output()) + Expected(h, held)
    ensures w.streamBuf != old(w.streamBuf) ==> fresh(w.streamBuf)
    ensures w.outPng != old(w.outPng) ==> fresh(w.outPng)
  {
    hide Admitted, Stream, Bytes, AllFit, PrintIhdr, ValidIhdr, BeforeIdat, Expected, Size;
    AdmittedFacts(h, held);
    IhdrLength(h);
    ghost var before := w.Output();
    ghost var start := before + (SIGNATURE + Bytes(Chunk(IHDR, PrintIhdr(h))));
    WriteStart(w, h, data, start, Size(BeforeIdat(h, held)));
    ok := WriteParts(w, h, held, data, start);
    if ok {
      ExpectedLength(h, held);
      assert w.Output() == start + Stream(BeforeIdat(h, held));
    }
  }

  /** Part by part. */
  method WriteParts(w: W.Writer, h: Ihdr, held: Held, data: array<byte>, ghost start: seq<byte>) returns (ok: bool)
    requires Admitted(h, held) && NoneWraps(held.splts) && data.Length >= 1024 && data != w.streamBuf && data != w.outPng
    requires Wrote(w, start, [], Size(BeforeIdat(h, held)))
    modifies w, w.streamBuf, w.outPng, data
    ensures w.Valid() && (ok <==> AllFit(h, held))
    ensures ok ==> Wrote(w, start, BeforeIdat(h, held), 0)
    ensures w.streamBuf != old(w.streamBuf) ==> fresh(w.streamBuf)
    ensures w.outPng != old(w.outPng) ==> fresh(w.outPng)
  {
    hide Admitted, Stream, One, StoredUnknowns, StoredSplts, StoredExif, AllFit, Representable, BeforeIdat, Size, Fit, Wrote, NoneWraps;
    AllLengths(h, held);
    OthersFit(h, held);
    AllPartsFit(h, held);
    ghost var c1 := Size(StoredSplts(held)) + Size(One(h, held, TTime)) + Size(One(h, held, TOffs))
      + Size(StoredExif(held)) + Size(StoredUnknowns(held, AfterPlte));
    ghost var c2 := Size(One(h, held, TPlte)) + Size(One(h, held, TBkgd))
      + Size(One(h, held, THist)) + Size(One(h, held, TTrns)) + Size(One(h, held, TPhys));
    WriteFirst(w, h, held, data, start, [], c1 + c2);
    ghost var p5 := [] + One(h, held, TChrm) + One(h, held, TGama) + One(h, held, TSbit) + One(h, held, TSrgb)
      + StoredUnknowns(held, AfterIhdr);
    WriteSecond(w, h, held, data, start, p5, c1);
    ghost var p10 := p5 + One(h, held, TPlte) + One(h, held, TBkgd) + One(h, held, THist)
      + One(h, held, TTrns) + One(h, held, TPhys);
    ok := WriteThird(w, h, held, data, start, p10, 0);
    InOrder(h, held);
  }

  lemma InOrder(h: Ihdr, held: Held)
    requires Admitted(h, held)
    ensures Representable(held.v) && BeforeIdat(h, held) ==
      [] + One(h, held, TChrm) + One(h, held, TGama) + One(h, held, TSbit) + One(h, held, TSrgb) + StoredUnknowns(held, AfterIhdr)
      + One(h, held, TPlte) + One(h, held, TBkgd) + One(h, held, THist) + One(h, held, TTrns) + One(h, held, TPhys)
      + StoredSplts(held) + One(h, held, TTime) + One(h, held, TOffs) + StoredExif(held) + StoredUnknowns(held, AfterPlte)
  {
    hide One, StoredUnknowns, StoredSplts, StoredExif, Representable, ValidIhdr;
    AdmittedFacts(h, held);
    assert [] + One(h, held, TChrm) == One(h, held, TChrm);
  }

  /** write_chunks_after_idat; the last chunk is a fixed string of bytes. */
  method WriteChunksAfterIdat(w: W.Writer, held: Held)
    requires w.Valid() && (w.streaming || w.internalBuffer) && Fit(StoredUnknowns(held, AfterIdat))
    requires w.bytesEncoded + |Stream(StoredUnknowns(held, AfterIdat))| + 12 <= W.MAX_REQUIRED
    modifies w, w.streamBuf, w.outPng
    ensures Fit(StoredUnknowns(held, AfterIdat) + [Chunk(IEND, [])])
    ensures w.Valid() && w.Output() == old(w.Output()) + Stream(StoredUnknowns(held, AfterIdat) + [Chunk(IEND, [])])
    ensures w.Output() == old(w.Output()) + (Stream(StoredUnknowns(held, AfterIdat)) + IEND_BYTES)
  {
    hide Stream, Bytes, StoredUnknowns, Size;
    StreamSize(StoredUnknowns(held, AfterIdat));
    ghost var start := w.Output();
    NoStream();
    assert start + [] == start;
    WriteUnknowns(w, held, AfterIdat, start, [], 12);
    ghost var chunks := StoredUnknowns(held, AfterIdat);
    assert [] + chunks == chunks;
    StreamMore(chunks, Chunk(IEND, []));
    IendIsChunk();
    var status := w.WriteData(IEND_BYTES);
    assert start + Stream(chunks) + IEND_BYTES == start + (Stream(chunks) + IEND_BYTES);
  }
}
