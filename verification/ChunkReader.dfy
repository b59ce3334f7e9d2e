/**
 The decoder's chunk loop: it reads the chunks before and after the image data, drops those
 that are damaged or wrong in a way that can be passed over, and keeps within its limits.
 */
module ChunkReader {
  import opened Octets
  import opened Chunks
  import opened Header
  import opened Adam7
  import opened Scanlines
  import opened Metadata
  import opened LongChunks
  import S = ChunkSource
  import FF = FileFormat
  import R = MetadataRoundTrip

  /** Sizes of the structures the cache usage accounts for. */
  const SPLT_SIZE := 96
  const ENTRY_BYTES := 10
  const UNKNOWN_SIZE := 32

  datatype State = Invalid | Input | GotIhdr | FirstIdat | Decoding | Eoi | Trailing | Ended
  datatype Undo = NoUndo | UndoSplt | UndoUnknown | UndoText
  datatype Failure = Fine | Io(cause: S.Status) | Bad(error: Error) | ENoPlte | EUnknownCritical | EChunkLimits
                   | EBadState | ESignature | EIhdrSize | ENoIhdr | EIhdr(status: IhdrStatus) | EOverflow

  /** A chunk whose header has been read, and what was there before it, which it must leave as it was if it is dropped. */
  datatype Snapshot =
    Snapshot(kind: seq<byte>, data: seq<byte>, after: bool, file: set<Type>, stored: set<Type>, splts: seq<Splt>,
             unknowns: seq<Unknown>, usage: nat)

  const NO_CHUNK := Chunk([], [])

  /** A small chunk where none of its kind may be, or no more. */
  ghost predicate MisplacedIn(after: bool, kept: R.Kept, c: Chunk) {
    Small(TypeOf(c.kind)) && FF.PlaceError(after, kept.m.file, TypeOf(c.kind)) != NoError
  }

  /** No chunk has been begun. */
  const AT_FIRST := Snapshot([], [], false, {}, {}, [], [], 0)

  /**
   What a chunk leaves in the cache usage if it is dropped: exif data its length, unless they are not
   the first; a palette its length, if it has been read and found to be wrong; other chunks nothing.
   */
  function LeftBy(was: Snapshot): nat {
    match TypeOf(was.kind)
    case TExif => if TExif in was.file then 0 else |was.data|
    case TSplt => if was.after || ParseSplt(was.splts, was.data).error == NoError then 0 else |was.data|
    case _ => 0
  }

  /** The chunks of which it is left open what they leave. */
  predicate Open(was: Snapshot) {
    TypeOf(was.kind) in {TIccp, TText}
  }

  class Reader {
    const src: S.Source
    const maxWidth: nat
    const maxHeight: nat
    const cacheLimit: nat
    const countLimit: nat
    const keepUnknown: bool
    const strict: bool

    var state: State
    var h: Ihdr
    var m: Meta
    var exif: seq<byte>
    var splts: seq<Splt>
    var unknowns: seq<Unknown>
    var prevStored: set<Type>
    var undo: Undo
    var usage: nat
    var count: nat
    var prevWasIdat: bool
    var firstIdat: nat
    ghost var was: Snapshot
    /** What a dropped chunk leaves behind in the cache usage, or takes from it. */
    ghost var leak: int

    // ---- Invariants ----

    /** Valid values behind every stored flag, and the limits kept. */
    ghost predicate Kept()
      reads this`h, this`m, this`exif, this`usage, this`count
    {
      && ValidIhdr(h) && Sound(h, m) && (TExif in m.stored ==> ExifOk(exif))
      && usage <= cacheLimit && count <= countLimit
    }

    ghost function EntriesBytes(s: Splt): nat {
      |s.entries| * ENTRY_BYTES
    }

    ghost function ErrorOf(c: Chunk): Error
      reads this`h, this`m, this`exif, this`splts, this`unknowns, this`state
    {
      ErrorIn(h, state == Trailing, Now(), c)
    }

    /** A chunk that is refused, with room for what precedes the check that fails. */
    ghost predicate Wrong(c: Chunk)
      reads this`h, this`m, this`exif, this`splts, this`unknowns, this`state, this`usage, this`count
    {
      ErrorOf(c) != NoError && RoomFor(Now(), c, usage, count)
    }

    ghost predicate RoomFor(kept: R.Kept, c: Chunk, used: nat, number: nat)
      reads this`state
    {
      match TypeOf(c.kind)
      case TExif => TExif in kept.m.file || (c.data != [] && number < countLimit && used + |c.data| <= cacheLimit)
      case TSplt => state == Trailing || (c.data != [] && number < countLimit && used + |c.data| + SPLT_SIZE <= cacheLimit)
      case _ => true
    }

    /** A small chunk where none of its kind may be, or no more. */
    ghost predicate Misplaced(t: Type)
      reads this`m, this`state
    {
      Small(t) && FF.PlaceError(state == Trailing, m.file, t) != NoError
    }

    /** Such a chunk is at hand. */
    ghost predicate WrongHere()
      reads this`h, this`m, this`exif, this`splts, this`unknowns, this`state, this`usage, this`count, src`kind, src`bytesRead, src`left
    {
      src.bytesRead + src.left <= |src.file| && Wrong(Chunk(src.kind, Ahead()))
    }

    ghost function ErrorHere(): Error
      reads this`h, this`m, this`exif, this`splts, this`unknowns, this`state, src`kind, src`bytesRead, src`left
    {
      if src.bytesRead + src.left <= |src.file| then ErrorOf(Chunk(src.kind, Ahead())) else NoError
    }

    /** The chunk and the state before it. */
    ghost function Before(c: Chunk): Snapshot
      reads this`m, this`splts, this`unknowns, this`usage, this`state
    {
      Snapshot(c.kind, c.data, state == Trailing, m.file, m.stored, splts, unknowns, usage)
    }

    /** Only a palette is critical, and only the long ones leave something. */
    lemma WrongLeaves(c: Chunk)
      requires Wrong(c) && |c.kind| == 4
      ensures !Open(Before(c)) && (TypeOf(c.kind) == TPlte <==> Critical(c.kind))
      ensures TypeOf(c.kind) !in {TExif, TSplt} ==> LeftBy(Before(c)) == 0 && Small(TypeOf(c.kind))
    {
      hide ExifOk, ParseSplt, FF.Refusal, TypeOf, Critical, RoomFor;
      KindIsSmall(c.kind);
    }

    lemma KindIsSmall(kind: seq<byte>)
      requires |kind| == 4
      ensures Critical(kind) && (Small(TypeOf(kind)) || TypeOf(kind) in {TExif, TSplt}) ==> TypeOf(kind) == TPlte
      ensures TypeOf(kind) == TPlte ==> Critical(kind)
    {
      PlteIsCritical(kind);
      if Critical(kind) {
        assert CHRM[0] == 99 && GAMA[0] == 103 && SBIT[0] == 115 && SRGB[0] == 115 && BKGD[0] == 98 && TRNS[0] == 116;
        assert HIST[0] == 104 && PHYS[0] == 112 && TIME[0] == 116 && OFFS[0] == 111 && EXIF[0] == 101 && SPLT[0] == 115;
      }
    }

    /** The chunk before was intact, or not checked, and next comes such a one. */
    ghost predicate WrongNext(tail: seq<byte>)
      reads this`h, this`m, this`exif, this`splts, this`unknowns, this`state, this`usage, this`count, src
    {
      && src.InChunk() && src.left == 0 && (src.skipCrc || src.Intact()) && src.bytesRead + 4 <= |src.file|
      && src.file[src.bytesRead + 4..] == tail && Whole(tail) && Wrong(HeadOf(tail))
    }

    lemma WrongHeader(tail: seq<byte>)
      requires WrongNext(tail)
      ensures src.bytesRead + 12 <= |src.file| && ReadU32(src.file[src.bytesRead + 4..]) <= PNG_MAX
      ensures (src.skipCrc || src.Intact()) && Whole(tail) && Wrong(HeadOf(tail)) && src.file[src.bytesRead + 4..] == tail
    {
      hide ReadU32, Crc, CrcOf, Wrong, HeadOf, S.Source.InChunk, S.Source.Intact;
    }

    lemma WrongArrives(tail: seq<byte>, at: nat)
      requires Whole(tail) && Wrong(HeadOf(tail)) && src.AtStart(at) && at <= |src.file| && src.file[at..] == tail
      ensures WrongHere() && Taken() == Before(HeadOf(tail)) && StandsAt(tail)
    {
      hide Wrong, Crc, Critical;
      var c := HeadOf(tail);
      WholeParts(tail);
      Tails(src.file, at, tail, |c.data|);
      hide ReadU32;
      assert Ahead() == c.data;
      assert Waiting() == Ahead();
      assert Chunk(src.kind, Ahead()) == c;
    }

    /** The chunk at hand is the first of these bytes. */
    ghost predicate StandsAt(tail: seq<byte>)
      reads src
    {
      && src.kind == HeadOf(tail).kind && src.length == |HeadOf(tail).data| && src.bytesRead + src.left <= |src.file|
      && src.offset <= |src.file| && src.file[src.offset..] == tail
    }

    /** Such a chunk comes next. */
    lemma ThenWrong(c: Chunk, rest: seq<byte>)
      requires state in {GotIhdr, Trailing} && Kept() && keepUnknown && src.InChunk() && src.left == 0 && (src.skipCrc || src.Intact())
      requires c.Valid() && src.bytesRead + 4 <= |src.file| && src.file[src.bytesRead + 4..] == Bytes(c) + rest && Wrong(c)
      ensures var tail := Bytes(c) + rest; Whole(tail) && HeadOf(tail) == c && RestOf(tail) == rest && GoesWrong([], tail)
    {
      hide Bytes, HeadOf, RestOf, Whole, ErrorIn, S.Source.InChunk, S.Source.Intact, ValidIhdr, Coming, Goal, RoomFor;
      ChunkIsWhole(c, rest);
      NoCosts();
      NothingComing(Bytes(c) + rest);
    }

    lemma NothingComing(tail: seq<byte>)
      requires state in {GotIhdr, Trailing} && Kept() && keepUnknown && src.InChunk() && src.left == 0 && (src.skipCrc || src.Intact())
      requires src.bytesRead + 4 <= |src.file| && src.file[src.bytesRead + 4..] == tail
      ensures ValidIhdr(h) && m.v.plteCount <= 256 && Coming([], tail) && Goal([]) == R.Accepted(Now())
    {
      hide Sound, S.Source.InChunk, S.Source.Intact, ValidIhdr, TypeOf, ExifOk;
      PlteFits();
      assert Stream([]) + tail == tail;
    }

    /** How the lists and the cache usage differ from what they were before this chunk. */
    ghost predicate Undoable()
      reads this`undo, this`splts, this`unknowns, this`usage, this`leak, this`was
    {
      match undo
      case NoUndo => splts == was.splts && unknowns == was.unknowns && usage == was.usage + leak
      case UndoText => splts == was.splts && unknowns == was.unknowns
      case UndoSplt =>
        && was.usage + leak >= 0 && splts != [] && splts[..|splts| - 1] == was.splts && unknowns == was.unknowns
        && usage == was.usage + leak + SPLT_SIZE + EntriesBytes(splts[|splts| - 1])
      case UndoUnknown =>
        && was.usage + leak >= 0 && splts == was.splts && unknowns != [] && unknowns[..|unknowns| - 1] == was.unknowns
        && usage == was.usage + leak + UNKNOWN_SIZE + |unknowns[|unknowns| - 1].data|
    }

    /** The flags differ from what they were by at most the one of this chunk. */
    ghost predicate Since(t: Type)
      reads this`prevStored, this`m, this`was
    {
      prevStored == was.stored && prevStored <= m.stored <= prevStored + {t}
    }

    /** What this chunk leaves if it is dropped is what can be told from it and the state before it. */
    ghost predicate Accounted()
      reads this`undo, this`leak, this`was
    {
      !Open(was) ==> undo != UndoText && leak == LeftBy(was)
    }

    /** The chunk whose header has been read, and the state. */
    ghost function Taken(): Snapshot
      reads this`m, this`splts, this`unknowns, this`usage, this`state, src`kind, src`bytesRead, src`left
    {
      Snapshot(src.kind, Waiting(), state == Trailing, m.file, m.stored, splts, unknowns, usage)
    }

    /** As much of the data as there is. */
    ghost function Waiting(): seq<byte>
      reads src`bytesRead, src`left
    {
      if src.bytesRead <= |src.file| then src.file[src.bytesRead..Min(src.bytesRead + src.left, |src.file|)] else []
    }

    /** Inside a chunk that has been begun. */
    ghost predicate Busy()
      reads this`h, this`m, this`exif, this`splts, this`unknowns, this`usage, this`count, this`undo, this`prevStored, this`was, this`leak, src
    {
      src.InChunk() && Kept() && Undoable() && Since(TypeOf(src.kind))
    }

    constructor (src: S.Source, maxWidth: nat, maxHeight: nat, cacheLimit: nat, countLimit: nat, keepUnknown: bool, strict: bool)
      ensures this.src == src && this.maxWidth == maxWidth && this.maxHeight == maxHeight && this.cacheLimit == cacheLimit
      ensures this.countLimit == countLimit && this.keepUnknown == keepUnknown && this.strict == strict
      ensures state == Input && m == Meta({}, {}, NO_VALUES) && exif == [] && splts == [] && unknowns == []
      ensures usage == 0 && count == 0
    {
      this.src, this.maxWidth, this.maxHeight := src, maxWidth, maxHeight;
      this.cacheLimit, this.countLimit, this.keepUnknown, this.strict := cacheLimit, countLimit, keepUnknown, strict;
      state := Input;
      h := Ihdr(0, 0, 0, 0, 0, 0, 0);
      m := Meta({}, {}, NO_VALUES);
      exif, splts, unknowns, prevStored, undo := [], [], [], {}, NoUndo;
      usage, count, prevWasIdat, firstIdat := 0, 0, false, 0;
      was, leak := AT_FIRST, 0;
    }

    // ---- What a chunk should lead to ----

    /** What has been kept so far. */
    ghost function Now(): R.Kept
      reads this`m, this`exif, this`splts, this`unknowns
    {
      R.Kept(m, exif, splts, unknowns)
    }

    /** The data of this chunk, all of which is still to be read. */
    ghost function Ahead(): seq<byte>
      requires src.bytesRead + src.left <= |src.file|
      reads src`bytesRead, src`left
    {
      src.file[src.bytesRead..src.bytesRead + src.left]
    }

    /** The chunk is all there, acceptable, and there is room for it. */
    ghost predicate Welcome()
      reads this`h, this`m, this`exif, this`splts, this`unknowns, this`state, this`usage, this`count, src
    {
      && ValidIhdr(h) && m.v.plteCount <= 256 && |src.kind| == 4 && keepUnknown && state in {GotIhdr, Trailing}
      && src.bytesRead + src.left <= |src.file|
      && count < countLimit && usage + Cost(src.left) <= cacheLimit
      && R.Accept(h, state == Trailing, Now(), Chunk(src.kind, Ahead())).Accepted?
    }

    /** Image data right behind the image data are passed over. */
    ghost predicate Skipped()
      reads this`state, this`prevWasIdat, src
    {
      state == Trailing && prevWasIdat && src.kind == IDAT && src.bytesRead + src.left <= |src.file|
    }

    /** What accepting it comes to. */
    ghost function Then(): R.Kept
      requires Welcome()
      reads this`h, this`m, this`exif, this`splts, this`unknowns, this`state, this`usage, this`count, src
    {
      R.Accept(h, state == Trailing, Now(), Chunk(src.kind, Ahead())).kept
    }

    // ---- Cache usage ----

    /** increase_cache_usage; `false` stands for any of its errors. */
    method IncreaseCache(bytes: nat, newChunk: bool) returns (ok: bool)
      modifies this`usage, this`count
      ensures ok <==> bytes > 0 && (newChunk ==> old(count) < countLimit) && old(usage) + bytes <= cacheLimit
      ensures usage == old(usage) + if ok then bytes else 0
      ensures ok ==> count == old(count) + if newChunk then 1 else 0
    {
      if bytes == 0 {
        return false;
      }
      if newChunk {
        count := count + 1;
        if count > countLimit {
          return false;
        }
      }
      var newUsage := usage + bytes;
      if newUsage > cacheLimit {
        return false;
      }
      usage := newUsage;
      return true;
    }

    /** decrease_cache_usage */
    method DecreaseCache(bytes: nat)
      modifies this`usage
      ensures usage == if bytes == 0 || bytes > old(usage) then old(usage) else old(usage) - bytes
    {
      if bytes != 0 && bytes <= usage {
        usage := usage - bytes;
      }
    }

    /** splt_undo, chunk_undo and text_undo, of which it is left open what it gives back. */
    method RunUndo()
      requires Undoable() && usage <= cacheLimit
      modifies this`usage, this`splts, this`unknowns, this`leak
      ensures splts == was.splts && unknowns == was.unknowns && usage == was.usage + leak <= cacheLimit
      ensures undo != UndoText ==> leak == old(leak)
    {
      match undo {
        case NoUndo =>
        case UndoSplt =>
          var splt := splts[|splts| - 1];
          DecreaseCache(SPLT_SIZE);
          DecreaseCache(|splt.entries| * ENTRY_BYTES);
          splts := splts[..|splts| - 1];
        case UndoUnknown =>
          var chunk := unknowns[|unknowns| - 1];
          DecreaseCache(|chunk.data|);
          DecreaseCache(UNKNOWN_SIZE);
          unknowns := unknowns[..|unknowns| - 1];
        case UndoText =>
          var less: nat :| less <= usage;
          usage := less;
          leak := usage - was.usage;
      }
    }

    /**
     A chunk is dropped, for a bad CRC or a recoverable error. The flags and both lists are as
     they were before it, and so is the cache usage up to what is named by leak.
     */
    method DropChunk(ghost t: Type)
      requires Kept() && Undoable() && Since(t) && t != TPlte
      modifies this`usage, this`splts, this`unknowns, this`m, this`leak
      ensures Kept() && m == old(m).(stored := was.stored)
      ensures splts == was.splts && unknowns == was.unknowns && usage == was.usage + leak
      ensures undo != UndoText ==> leak == old(leak)
    {
      RollbackKeeps(h, m, prevStored);
      RunUndo();
      m := m.(stored := prevStored);
    }

    // ---- One chunk ----

    /** The loop head of read_non_idat_chunks once a header has been read. */
    method BeginChunk(ghost t: Type)
      requires src.InChunk() && Kept() && Undoable() && Since(t) && (src.discard ==> t != TPlte)
      modifies this`usage, this`splts, this`unknowns, this`m, this`undo, this`prevStored, this`was, this`leak, src`discard
      ensures Busy() && undo == NoUndo && leak == 0 && !src.discard
      ensures was == Taken() && prevStored == m.stored
      ensures !old(src.discard) ==> m == old(m) && splts == old(splts) && unknowns == old(unknowns) && usage == old(usage)
      ensures old(src.discard) ==> m == old(m).(stored := old(was).stored)
      ensures old(src.discard) ==> splts == old(was).splts && unknowns == old(was).unknowns
      ensures old(src.discard) && old(undo) != UndoText ==> usage == old(was).usage + old(leak)
    {
      hide Busy, Sound, Kept, TypeOf, S.Source.InChunk, Waiting;
      if src.discard {
        DropChunk(t);
      }
      Begin();
    }

    method Begin()
      requires src.InChunk() && Kept()
      modifies this`undo, this`prevStored, this`was, this`leak, src`discard
      ensures Busy() && undo == NoUndo && leak == 0 && !src.discard
      ensures was == Taken() && prevStored == m.stored
    {
      hide Sound, Kept, TypeOf, Crc, Waiting;
      src.discard := false;
      undo := NoUndo;
      prevStored := m.stored;
      was := Taken();
      leak := 0;
    }

    /** A small chunk of which enough is there, and what reading it comes to. */
    ghost predicate SmallFits()
      reads this, src
    {
      && 0 < src.length && src.bytesRead + Min(src.length, 768) <= |src.file|
      && m.v.plteCount <= 256 && Small(TypeOf(src.kind)) && ValidIhdr(h)
    }

    ghost function SmallOutcome(): Outcome
      requires SmallFits()
      reads this, src
    {
      ReadSmall(h, state == Trailing, m, TypeOf(src.kind), src.length,
        src.file[src.bytesRead..src.bytesRead + Min(src.length, 768)])
    }

    /** The first bytes of a small chunk: none of them is longer than a full palette. */
    method TakeSmall() returns (f: Failure, data: seq<byte>)
      requires src.InChunk() && src.left == src.length
      modifies src`dataOff, src`lastReadSize, src`bytesLeft, src`streamBuf, src`bytesRead, src`left, src`crc
      ensures src.InChunk() && src.bytesRead >= old(src.bytesRead) && (f in {Fine, Bad(EChunkSize)} || f.Io?)
      ensures f.Bad? <==> src.length == 0
      ensures f == Fine ==> src.length > 0 && |data| == Min(src.length, 768) && src.left == src.length - |data|
      ensures f == Fine ==> src.bytesRead <= |src.file| && data == src.file[old(src.bytesRead)..src.bytesRead]
      ensures 0 < src.length && old(src.bytesRead) + Min(src.length, 768) <= |src.file| ==> f == Fine
    {
      hide Crc;
      data := [];
      if src.length == 0 {
        return Bad(EChunkSize), data;
      }
      var take := if src.length > 768 then 768 else src.length;
      var status := src.ReadChunkBytes(take);
      if status != S.Good {
        return Io(status), data;
      }
      return Fine, src.Data(take);
    }

    /** The values and flags after it. A palette that is refused may leave an invalid one. */
    method ApplySmall(t: Type, length: nat, data: seq<byte>) returns (f: Failure)
      requires Kept() && Since(t) && m.stored == prevStored && Small(t) && m.v.plteCount <= 256
      requires |data| == Min(length, 768)
      modifies this`m
      ensures Since(t) && old(m.file) <= m.file && (f == Fine || t != TPlte ==> Kept())
      ensures var o := ReadSmall(h, state == Trailing, old(m), t, length, data);
        m == o.m && f == if o.error == NoError then Fine else Bad(o.error)
      ensures f == Fine ==> length <= 768
    {
      hide Sound;
      ReadSmallKeeps(h, state == Trailing, m, t, length, data);
      ReadSmallExif(h, state == Trailing, m, t, length, data);
      var o := ReadSmall(h, state == Trailing, m, t, length, data);
      if o.error == NoError {
        ReadSmallConsumes(h, state == Trailing, m, t, length, data);
      }
      hide ReadSmall;
      m := o.m;
      return if o.error == NoError then Fine else Bad(o.error);
    }

    lemma PlteFits()
      requires Kept()
      ensures m.v.plteCount <= 256 && ValidIhdr(h)
    {
    }

    /** Still inside the chunk; a palette that was refused may have spoilt the one before. */
    ghost predicate Handled(f: Failure)
      reads this`h, this`m, this`exif, this`splts, this`unknowns, this`usage, this`count, this`undo, this`prevStored, this`was, this`leak, src
    {
      src.InChunk() && (Busy() || (f.Bad? && TypeOf(src.kind) == TPlte))
    }

    /** The small chunks. */
    method SmallChunk() returns (f: Failure)
      requires Busy() && undo == NoUndo && src.left == src.length && Small(TypeOf(src.kind)) && m.stored == prevStored
      modifies this`m, src`dataOff, src`lastReadSize, src`bytesLeft, src`streamBuf, src`bytesRead, src`left, src`crc
      ensures Handled(f) && src.bytesRead >= old(src.bytesRead)
      ensures f in {Fine} || f.Bad? || f.Io?
      ensures f == Fine ==> src.left == 0
      ensures old(m.file) <= m.file
      ensures src.length == 0 ==> f == Bad(EChunkSize) && m == old(m)
      ensures old(SmallFits()) ==>
        var o := old(SmallOutcome()); m == o.m && f == if o.error == NoError then Fine else Bad(o.error)
    {
      hide Kept, Undoable, Since, Crc, TypeOf, ReadSmall, Small;
      PlteFits();
      var t := TypeOf(src.kind);
      var data;
      f, data := TakeSmall();
      if f != Fine {
        return;
      }
      f := ApplySmall(t, src.length, data);
    }

    lemma SmallWrong()
      requires Fresh() && Small(TypeOf(src.kind)) && src.bytesRead + src.left <= |src.file|
      ensures ErrorHere() == FF.Refusal(h, state == Trailing, m, TypeOf(src.kind), Ahead()) && |Ahead()| == src.length
      ensures src.length == 0 ==> ErrorHere() == EChunkSize
      ensures src.length > 0 ==> SmallFits() && SmallOutcome().error == ErrorHere() && (Misplaced(TypeOf(src.kind)) ==> SmallOutcome().m == m)
    {
      hide TypeOf, ReadSmall, ValidIhdr, Small, FF.DataError, FF.PlaceError, Undoable, Since, Taken;
      FreshFacts();
      PlteFits();
      NotLongSmall(TypeOf(src.kind));
      FF.ReadInNumbers(h, state == Trailing, m, TypeOf(src.kind), Ahead());
      assert Ahead()[..Min(src.length, 768)] == src.file[src.bytesRead..src.bytesRead + Min(src.length, 768)];
    }

    lemma NotLongSmall(t: Type)
      requires Small(t)
      ensures t !in {TExif, TSplt, TText, TIccp}
    {
    }

    lemma SmallWelcome()
      requires Welcome() && Small(TypeOf(src.kind)) && src.left == src.length
      ensures SmallFits() && SmallOutcome().error == NoError && Then() == Now().(m := SmallOutcome().m)
    {
      hide TypeOf, ReadSmall, ValidIhdr;
      ReadSmallConsumes(h, state == Trailing, m, TypeOf(src.kind), src.length, Ahead()[..Min(src.length, 768)]);
      assert Ahead()[..Min(src.length, 768)] == Ahead();
    }

    lemma LongWelcome(t: Type)
      requires Welcome() && TypeOf(src.kind) == t && t in {TExif, TIccp, TText, TSplt, TUnknown} && src.left == src.length
      ensures t in {TExif, TSplt, TUnknown} && (t == TSplt ==> state != Trailing) && keepUnknown && Roomy(Cost(src.left))
      ensures t == TExif ==> TExif !in m.file && ExifOk(Ahead()) && src.length > 0
      ensures t == TExif ==> Then() == Now().(m := R.Flag(m, TExif), exif := Ahead())
      ensures t == TSplt ==> ParseSplt(splts, Ahead()).error == NoError && src.length > 0
      ensures t == TSplt ==>
        Then() == Now().(m := R.Flag(m, TSplt), splts := splts + [ParseSplt(splts, Ahead()).splt])
      ensures t == TUnknown ==>
        Then() == Now().(m := R.Flag(m, TUnknown), unknowns := unknowns + [Unknown(src.kind, Ahead(), Place())])
    {
      hide TypeOf, ValidIhdr, Critical;
      if t == TSplt {
        SpltNotEmpty(splts, Ahead());
      }
      hide ParseSplt;
    }

    /** A chunk whose bytes have not been read, with nothing to undo. */
    ghost predicate Unread()
      reads this`h, this`m, this`exif, this`splts, this`unknowns, this`usage, this`count, this`undo, this`prevStored, this`was, this`leak, src
    {
      Busy() && undo == NoUndo && leak == 0 && src.left == src.length && m.stored == prevStored
    }

    /** And the state is still as it was before it. */
    ghost predicate Fresh()
      reads this`state, this`h, this`m, this`exif, this`splts, this`unknowns, this`usage, this`count, this`undo, this`prevStored, this`was, this`leak, src
    {
      Unread() && was == Taken()
    }

    lemma FreshFacts()
      requires Fresh()
      ensures src.InChunk() && src.bytesRead <= |src.file| && src.left == src.length && ValidIhdr(h)
      ensures Unread() && Busy() && undo == NoUndo && leak == 0 && m.stored == prevStored
    {
      src.Position();
    }

    lemma FreshIsTaken()
      requires Fresh()
      ensures was == Taken()
    {
    }

    /** What is known of the chunk at hand and the state before it. */
    lemma TakenFacts(t: Type)
      requires Fresh() && TypeOf(src.kind) == t
      ensures TypeOf(was.kind) == t && was.after == (state == Trailing) && was.file == m.file && was.splts == splts
      ensures src.bytesRead + src.left <= |src.file| ==> was.data == Ahead() && |was.data| == src.length
      ensures t == TExif && WrongHere() ==>
        if TExif in m.file then ErrorHere() == EDup(TExif)
        else Roomy(src.length) && src.length > 0 && !ExifOk(Ahead()) && ErrorHere() == EExif
      ensures t == TSplt && WrongHere() ==>
        if state == Trailing then ErrorHere() == EChunkPos
        else
          && src.length > 0 && Roomy(src.length + SPLT_SIZE)
          && ErrorHere() == ParseSplt(splts, Ahead()).error != NoError
      ensures WrongHere() ==> (t in {TExif, TSplt} || Small(t)) && src.bytesRead + src.left <= |src.file| && ErrorHere() != NoError
      ensures Misplaced(t) ==> Small(t)
    {
      hide Kept, Undoable, Since, TypeOf, ParseSplt, ExifOk, S.Source.InChunk, FF.Refusal;
      if src.bytesRead + src.left <= |src.file| {
        assert Waiting() == Ahead();
      }
    }

    lemma ExifLeaves()
      requires TypeOf(was.kind) == TExif
      ensures LeftBy(was) == if TExif in was.file then 0 else |was.data|
      ensures undo != UndoText && leak == LeftBy(was) ==> Accounted()
    {
      hide TypeOf;
    }

    lemma SpltLeaves()
      requires TypeOf(was.kind) == TSplt
      ensures LeftBy(was) == if was.after || ParseSplt(was.splts, was.data).error == NoError then 0 else |was.data|
      ensures undo != UndoText && leak == LeftBy(was) ==> Accounted()
      ensures was.data == [] ==> LeftBy(was) == 0
    {
      hide TypeOf, ParseSplt;
    }

    lemma NothingLeft(t: Type)
      requires TypeOf(was.kind) == t && (t in {TIccp, TText} || (t !in {TExif, TSplt} && undo != UndoText && leak == 0))
      ensures Accounted()
    {
      hide TypeOf;
    }

    /** The rest of the chunk is there, and so is room for one more that takes so much. */
    ghost predicate Roomy(cost: nat)
      reads this, src
    {
      src.bytesRead + src.left <= |src.file| && count < countLimit && usage + cost <= cacheLimit
    }

    /** A flag for having seen a chunk, or for having kept it. */
    method Mark(t: Type, store: bool)
      requires Kept() && Since(t) && !Small(t) && (store && t == TExif ==> ExifOk(exif))
      modifies this`m
      ensures Kept() && Since(t)
      ensures m == old(m).(file := old(m).file + {t}, stored := old(m).stored + if store then {t} else {})
    {
      FlagKeeps(h, m, t);
      if store {
        m := m.(stored := m.stored + {t}, file := m.file + {t});
      } else {
        m := m.(file := m.file + {t});
      }
    }

    /** Space for exif data, which is not given back when the chunk is dropped. */
    method ReserveExif() returns (ok: bool)
      requires Kept() && Undoable() && undo == NoUndo
      modifies this`usage, this`count, this`leak
      ensures ok ==> Kept() && Undoable() && leak == old(leak) + src.length
      ensures !ok ==> leak == old(leak)
      ensures ok <==> src.length > 0 && old(count) < countLimit && old(usage) + src.length <= cacheLimit
      ensures ok ==> usage == old(usage) + src.length && count == old(count) + 1
    {
      hide Sound;
      ok := IncreaseCache(src.length, true);
      if ok {
        leak := leak + src.length;
      }
    }

    method ExifChunk() returns (f: Failure)
      requires Unread() && TypeOf(src.kind) == TExif
      modifies this`m, this`usage, this`count, this`exif, this`leak
      modifies src`dataOff, src`lastReadSize, src`bytesLeft, src`bytesRead, src`left, src`crc
      ensures f == EChunkLimits || Busy()
      ensures src.InChunk() && src.bytesRead >= old(src.bytesRead)
      ensures f in {Fine, EChunkLimits} || f.Bad? || f.Io?
      ensures old(m.file) <= m.file
      ensures old(TExif !in m.file && src.length > 0 && Roomy(src.length) && ExifOk(Ahead())) ==>
        f == Fine && exif == old(Ahead()) && m == R.Flag(old(m), TExif) && usage == old(usage) + src.length
      ensures f == Fine ==> count == old(count) + 1 && src.left == 0
      ensures f == Fine ==> leak == src.length && old(TExif !in m.file && src.bytesRead + src.left <= |src.file|)
      ensures f.Bad? ==> f in {Bad(EDup(TExif)), Bad(EExif)} && leak == if f == Bad(EExif) then src.length else 0
      ensures f.Bad? ==> if old(TExif in m.file) then f == Bad(EDup(TExif)) else f == Bad(EExif)
      ensures old(TExif in m.file) ==> f.Bad?
      ensures f == Bad(EExif) ==> old(src.bytesRead + src.left <= |src.file|)
      ensures old(TExif !in m.file && Roomy(src.length) && src.length > 0 && !ExifOk(Ahead())) ==> f == Bad(EExif)
    {
      hide Sound, Crc, TypeOf, ExifOk, Undoable, Since, S.Source.InChunk, S.Source.Valid;
      src.Position();
      if TExif in m.file {
        return Bad(EDup(TExif));
      }
      NotStored(h, m, TExif);
      Mark(TExif, false);
      var ok := ReserveExif();
      if !ok {
        return EChunkLimits;
      }
      var status, data := src.ReadChunkBytes2(src.length);
      if status != S.Good {
        return Io(status);
      }
      if !ExifOk(data) {
        return Bad(EExif);
      }
      exif := data;
      Mark(TExif, true);
      return Fine;
    }

    /** Space for an unknown chunk, and its entry, still without data. */
    method BeginUnknown(location: Location) returns (ok: bool)
      requires Kept() && Undoable() && undo == NoUndo && leak == 0
      modifies this`usage, this`count, this`unknowns, this`undo, this`leak
      ensures ok ==> Kept() && Undoable() && undo == UndoUnknown && leak == src.length
      ensures ok ==> unknowns == old(unknowns) + [Unknown(src.kind, [], location)]
      ensures ok <==> old(count) < countLimit && old(usage) + src.length + UNKNOWN_SIZE <= cacheLimit
      ensures ok ==> usage == old(usage) + src.length + 32 && count == old(count) + 1
    {
      hide Sound;
      ok := IncreaseCache(src.length + UNKNOWN_SIZE, true);
      if ok {
        ghost var before := unknowns;
        unknowns := unknowns + [Unknown(src.kind, [], location)];
        undo := UndoUnknown;
        leak := src.length;
        assert unknowns[..|unknowns| - 1] == before;
      }
    }

    method FillUnknown(data: seq<byte>, ghost before: seq<Unknown>)
      requires Kept() && Undoable() && undo == UndoUnknown && leak == |data|
      requires |unknowns| > 0 && unknowns[|unknowns| - 1].data == [] && before == unknowns[..|unknowns| - 1]
      modifies this`unknowns, this`leak
      ensures Kept() && Undoable() && leak == 0
      ensures unknowns == before + [old(unknowns[|unknowns| - 1]).(data := data)]
    {
      hide Sound;
      unknowns := unknowns[|unknowns| - 1 := unknowns[|unknowns| - 1].(data := data)];
      leak := 0;
      assert unknowns[..|unknowns| - 1] == before;
    }

    /** Where an unknown chunk is taken to stand. */
    function Place(): Location
      reads this
    {
      if state == Trailing then AfterIdat else if TPlte in m.file then AfterPlte else AfterIhdr
    }

    /** All the data of an unknown chunk, which may have none. */
    method TakeAll() returns (f: Failure, data: seq<byte>)
      requires src.InChunk() && src.left == src.length
      modifies src`dataOff, src`lastReadSize, src`bytesLeft, src`bytesRead, src`left, src`crc
      ensures src.InChunk() && old(src.bytesRead) <= src.bytesRead <= |src.file| && (f == Fine || f.Io?)
      ensures f == Fine ==> src.left == 0 && src.bytesRead == old(src.bytesRead) + src.length
      ensures f == Fine ==> data == src.file[old(src.bytesRead)..src.bytesRead] && |data| == src.length
      ensures old(src.bytesRead) + src.length <= |src.file| ==> f == Fine
    {
      hide Crc;
      data := [];
      if src.length > 0 {
        var status;
        status, data := src.ReadChunkBytes2(src.length);
        if status != S.Good {
          return Io(status), data;
        }
      }
      return Fine, data;
    }

    method UnknownChunk() returns (f: Failure)
      requires Unread() && TypeOf(src.kind) == TUnknown
      modifies this`m, this`usage, this`count, this`unknowns, this`undo, this`leak
      modifies src`dataOff, src`lastReadSize, src`bytesLeft, src`bytesRead, src`left, src`crc
      ensures f == EChunkLimits || Busy()
      ensures src.InChunk() && src.bytesRead >= old(src.bytesRead)
      ensures f in {Fine, EChunkLimits} || f.Io?
      ensures f == Fine ==> leak == 0 && undo != UndoText
      ensures f == Fine && !keepUnknown ==> unknowns == old(unknowns)
      ensures f == Fine && keepUnknown ==> src.left == 0 && src.bytesRead == old(src.bytesRead) + src.length
      ensures f == Fine && keepUnknown ==>
        unknowns == old(unknowns) + [Unknown(src.kind, src.file[old(src.bytesRead)..src.bytesRead], Place())]
      ensures old(m.file) <= m.file
      ensures old(keepUnknown && Roomy(src.length + UNKNOWN_SIZE)) ==>
        f == Fine && m == R.Flag(old(m), TUnknown) && usage == old(usage) + src.length + UNKNOWN_SIZE
      ensures f == Fine && keepUnknown ==> count == old(count) + 1
    {
      hide Sound, Crc, TypeOf, Kept, Undoable, Since, S.Source.InChunk, S.Source.Valid;
      src.Position();
      Mark(TUnknown, false);
      if !keepUnknown {
        return Fine;
      }
      f := KeepUnknown();
    }

    /** A chunk that is to be kept. */
    method KeepUnknown() returns (f: Failure)
      requires Busy() && undo == NoUndo && leak == 0 && src.left == src.length && TypeOf(src.kind) == TUnknown
      modifies this`m, this`usage, this`count, this`unknowns, this`undo, this`leak
      modifies src`dataOff, src`lastReadSize, src`bytesLeft, src`bytesRead, src`left, src`crc
      ensures f == EChunkLimits || Busy()
      ensures src.InChunk() && src.bytesRead >= old(src.bytesRead)
      ensures f in {Fine, EChunkLimits} || f.Io?
      ensures f == Fine ==> leak == 0 && undo == UndoUnknown && src.left == 0 && src.bytesRead == old(src.bytesRead) + src.length
      ensures f == Fine ==>
        unknowns == old(unknowns) + [Unknown(src.kind, src.file[old(src.bytesRead)..src.bytesRead], Place())]
      ensures old(m.file) <= m.file && Place() == old(Place())
      ensures f == Fine ==> m == R.Flag(old(m), TUnknown) && count == old(count) + 1
      ensures old(Roomy(src.length + UNKNOWN_SIZE)) ==> f == Fine && usage == old(usage) + src.length + 32
    {
      hide Sound, Crc, TypeOf, Kept, Undoable, Since, S.Source.InChunk, S.Source.Valid;
      src.Position();
      ghost var before, place := unknowns, Place();
      var ok := BeginUnknown(Place());
      if !ok {
        return EChunkLimits;
      }
      assert unknowns[..|unknowns| - 1] == before;
      var data;
      f, data := TakeAll();
      if f != Fine {
        return;
      }
      FillUnknown(data, before);
      Mark(TUnknown, true);
      assert Place() == place;
      return Fine;
    }

    /** Space for the data of a palette while it is taken apart, and an entry without contents. */
    method BeginSplt() returns (ok: bool)
      requires Kept() && Undoable() && undo == NoUndo && leak == 0
      modifies this`usage, this`count, this`splts, this`undo, this`leak
      ensures ok ==> Kept() && Undoable() && undo == UndoSplt && leak == src.length
      ensures ok ==> splts == old(splts) + [NO_SPLT]
      ensures ok <==> old(count) < countLimit && old(usage) + src.length + SPLT_SIZE <= cacheLimit
      ensures ok ==> usage == old(usage) + src.length + SPLT_SIZE && count == old(count) + 1
    {
      hide Sound;
      ok := IncreaseCache(src.length + SPLT_SIZE, true);
      if ok {
        ghost var before := splts;
        splts := splts + [NO_SPLT];
        undo := UndoSplt;
        leak := src.length;
        assert splts[..|splts| - 1] == before;
      }
    }

    /** The entries take their place in the cache, and the data gives up its own. */
    method FillSplt(splt: Splt, ghost before: seq<Splt>) returns (ok: bool)
      requires Kept() && Undoable() && undo == UndoSplt && leak == src.length > 0
      requires |splts| > 0 && splts[|splts| - 1] == NO_SPLT && before == splts[..|splts| - 1]
      modifies this`splts, this`usage, this`count, this`leak
      ensures ok ==> Kept() && Undoable() && leak == 0 && splts == before + [splt]
      ensures ok <==> |splt.entries| > 0 && old(usage) + |splt.entries| * ENTRY_BYTES <= cacheLimit
      ensures ok && src.length <= old(usage) ==> usage == old(usage) + 10 * |splt.entries| - src.length
      ensures ok ==> count == old(count)
    {
      hide Sound;
      ok := IncreaseCache(|splt.entries| * ENTRY_BYTES, false);
      if ok {
        splts := splts[|splts| - 1 := splt];
        DecreaseCache(src.length);
        leak := 0;
        assert splts[..|splts| - 1] == before;
      }
    }

    /** The data of a palette, taken apart. */
    method TakeSplt(ghost before: seq<Splt>) returns (f: Failure)
      requires src.InChunk() && src.left == src.length > 0
      requires Kept() && Undoable() && undo == UndoSplt && leak == src.length
      requires |splts| > 0 && splts[|splts| - 1] == NO_SPLT && before == splts[..|splts| - 1]
      modifies this`usage, this`count, this`splts, this`leak
      modifies src`dataOff, src`lastReadSize, src`bytesLeft, src`bytesRead, src`left, src`crc
      ensures src.InChunk() && src.bytesRead >= old(src.bytesRead)
      ensures f in {Fine, EChunkLimits} || f.Bad? || f.Io?
      ensures f != EChunkLimits ==> Kept() && Undoable() && leak == if f == Fine then 0 else src.length
      ensures f == Fine ==> src.left == 0 && src.bytesRead == old(src.bytesRead) + src.length && count == old(count)
      ensures f == Fine || f.Bad? ==> old(src.bytesRead) + src.length <= |src.file|
      ensures old(src.bytesRead) + src.length <= |src.file| ==>
        var p := ParseSplt(before, src.file[old(src.bytesRead)..old(src.bytesRead) + src.length]);
        (f.Bad? <==> p.error != NoError) && (f.Bad? ==> f == Bad(p.error))
      ensures f == Fine ==> var p := ParseSplt(before, src.file[old(src.bytesRead)..src.bytesRead]);
        p.error == NoError && splts == before + [p.splt]
      ensures f == Fine && src.length <= old(usage) ==> usage == old(usage) + 10 * |splts[|splts| - 1].entries| - src.length
      ensures old(src.bytesRead) + src.length <= |src.file| ==>
        var p := ParseSplt(before, src.file[old(src.bytesRead)..old(src.bytesRead) + src.length]);
        p.error == NoError && old(usage) + 2 * src.length <= cacheLimit && src.length <= old(usage) ==>
          f == Fine && usage <= old(usage) + 2 * src.length
    {
      hide Sound, Crc, ParseSplt, Kept, Undoable, S.Source.InChunk, S.Source.Valid;
      src.Position();
      var status, data := src.ReadChunkBytes2(src.length);
      if status != S.Good {
        return Io(status);
      }
      var parsed := ParseSplt(splts[..|splts| - 1], data);
      if parsed.error != NoError {
        return Bad(parsed.error);
      }
      SpltEntries(before, data);
      var ok := FillSplt(parsed.splt, before);
      return if ok then Fine else EChunkLimits;
    }

    method SpltChunk() returns (f: Failure)
      requires Fresh() && TypeOf(src.kind) == TSplt
      modifies this`m, this`usage, this`count, this`splts, this`undo, this`leak
      modifies src`dataOff, src`lastReadSize, src`bytesLeft, src`bytesRead, src`left, src`crc
      ensures f == EChunkLimits || Busy()
      ensures src.InChunk() && src.bytesRead >= old(src.bytesRead)
      ensures f in {Fine, EChunkLimits} || f.Bad? || f.Io?
      ensures f == Fine ==> src.left == 0 && src.bytesRead == old(src.bytesRead) + src.length
      ensures f == Fine || f.Bad? ==> Accounted()
      ensures old(WrongHere()) ==> f == Bad(old(ErrorHere()))
      ensures f == Fine ==> var p := ParseSplt(old(splts), src.file[old(src.bytesRead)..src.bytesRead]);
        p.error == NoError && splts == old(splts) + [p.splt]
      ensures f == Fine ==> usage == old(usage) + 96 + 10 * |splts[|splts| - 1].entries|
      ensures old(m.file) <= m.file
      ensures old(state != Trailing && src.length > 0 && Roomy(Cost(src.length)) && ParseSplt(splts, Ahead()).error == NoError) ==>
        f == Fine && m == R.Flag(old(m), TSplt) && usage <= old(usage) + Cost(src.length)
      ensures f == Fine ==> count == old(count) + 1
    {
      hide Fresh, Busy, Sound, Crc, TypeOf, ParseSplt, Kept, Undoable, Since, S.Source.InChunk, S.Source.Valid, Taken, Waiting, LeftBy, Accounted, WrongHere, ErrorHere;
      FreshFacts();
      TakenFacts(TSplt);
      SpltLeaves();
      if state == Trailing {
        return Bad(EChunkPos);
      }
      if src.length == 0 {
        return Bad(EChunkSize);
      }
      f := KeepSplt();
      if f == Fine || f.Bad? {
        SpltLeaves();
      }
    }

    /** A palette that is to be kept. */
    method KeepSplt() returns (f: Failure)
      requires Unread() && src.length > 0 && TypeOf(src.kind) == TSplt
      modifies this`m, this`usage, this`count, this`splts, this`undo, this`leak
      modifies src`dataOff, src`lastReadSize, src`bytesLeft, src`bytesRead, src`left, src`crc
      ensures f == EChunkLimits || Busy()
      ensures src.InChunk() && src.bytesRead >= old(src.bytesRead)
      ensures f in {Fine, EChunkLimits} || f.Bad? || f.Io?
      ensures f == Fine || f.Bad? ==> undo == UndoSplt && leak == if f == Fine then 0 else src.length
      ensures f == Fine || f.Bad? ==> old(src.bytesRead) + src.length <= |src.file|
      ensures f == Fine ==> src.left == 0 && src.bytesRead == old(src.bytesRead) + src.length && count == old(count) + 1
      ensures f == Fine ==> var p := ParseSplt(old(splts), src.file[old(src.bytesRead)..src.bytesRead]);
        p.error == NoError && splts == old(splts) + [p.splt]
      ensures f == Fine ==> usage == old(usage) + 96 + 10 * |splts[|splts| - 1].entries|
      ensures old(m.file) <= m.file
      ensures f.Bad? ==> ParseSplt(old(splts), src.file[old(src.bytesRead)..old(src.bytesRead) + src.length]).error != NoError
      ensures old(Roomy(src.length + SPLT_SIZE)) ==>
        var p := ParseSplt(old(splts), src.file[old(src.bytesRead)..old(src.bytesRead) + src.length]);
        (f.Bad? <==> p.error != NoError) && (f.Bad? ==> f == Bad(p.error))
      ensures old(Roomy(Cost(src.length)) && ParseSplt(splts, Ahead()).error == NoError) ==>
        f == Fine && m == R.Flag(old(m), TSplt) && usage <= old(usage) + Cost(src.length)
    {
      hide Sound, Crc, TypeOf, ParseSplt, Kept, Undoable, Since, S.Source.InChunk, S.Source.Valid;
      src.Position();
      Mark(TSplt, false);
      ghost var before := splts;
      var ok := BeginSplt();
      if !ok {
        return EChunkLimits;
      }
      assert splts[..|splts| - 1] == before;
      f := TakeSplt(before);
      if f == Fine {
        Mark(TSplt, true);
      }
    }

    /** The cache usage and its count after a chunk of text: anything within the limits. */
    method TakeCache()
      requires Kept() && Undoable() && undo == NoUndo
      modifies this`usage, this`count, this`leak, this`undo
      ensures Kept() && Undoable()
    {
      hide Sound;
      var newCount: nat, newUsage: nat :| count <= newCount <= countLimit && newUsage <= cacheLimit;
      var listed: bool :| true;
      leak := leak + (newUsage - usage);
      count, usage := newCount, newUsage;
      undo := if listed then UndoText else NoUndo;
    }

    /**
     iCCP, tEXt, zTXt and iTXt: how far they are read, what becomes of them and what they take
     of the cache is left open; they touch no value that is modelled.
     */
    method OtherChunk(t: Type) returns (f: Failure)
      requires Unread() && TypeOf(src.kind) == t && t in {TIccp, TText}
      modifies this`m, this`usage, this`count, this`leak, this`undo
      modifies src`dataOff, src`lastReadSize, src`bytesLeft, src`bytesRead, src`left, src`crc
      ensures f == EChunkLimits || Busy()
      ensures src.InChunk() && src.bytesRead >= old(src.bytesRead)
      ensures f in {Fine, EChunkLimits} || f.Bad? || f.Io?
      ensures old(m.file) <= m.file
    {
      hide Sound, Crc, TypeOf, Kept, Undoable, Since, S.Source.InChunk, S.Source.Valid;
      src.Position();
      Mark(t, false);
      TakeCache();
      var peek: nat :| peek <= src.left;
      if peek > 0 {
        var status, data := src.ReadChunkBytes2(peek);
        if status != S.Good {
          return Io(status);
        }
      }
      f :| f in {Fine, EChunkLimits, Bad(EOther)};
      if f == Fine {
        Mark(t, true);
      }
    }

    // ---- The loops ----

    /** An IDAT chunk: the first one ends the loop, those right after the image data are skipped. */
    method IdatChunk() returns (done: bool, f: Failure)
      requires Fresh() && TypeOf(src.kind) == TIdat && state in {GotIhdr, Trailing}
      modifies this`firstIdat
      modifies src`dataOff, src`lastReadSize, src`bytesLeft, src`streamBuf, src`bytesRead, src`left, src`crc
      ensures src.InChunk() && src.bytesRead >= old(src.bytesRead) && Busy()
      ensures !done ==> src.left == 0 && prevWasIdat && state == Trailing
      ensures done ==> f in {Fine, ENoPlte, Bad(EChunkPos)} || f.Io?
      ensures done && f == Fine ==> state == GotIhdr && Fresh() && firstIdat == src.offset
      ensures done && f == Fine ==> HasPalette()
      ensures state == GotIhdr && HasPalette() ==> done && f == Fine
      ensures done && f == Fine ==> unchanged(src)
      ensures if state == GotIhdr then done && f == if HasPalette() then Fine else ENoPlte
              else if prevWasIdat then !done || f.Io? else done && f == Bad(EChunkPos)
      ensures old(Skipped()) ==> !done
    {
      hide Kept, Undoable, Since, TypeOf, Crc;
      src.Position();
      if state == GotIhdr {
        if h.colorType == INDEXED && TPlte !in m.stored {
          return true, ENoPlte;
        }
        firstIdat := src.offset;
        return true, Fine;
      }
      if prevWasIdat {
        var status := src.DiscardChunkBytes(src.length);
        if status != S.Good {
          return true, Io(status);
        }
        return false, Fine;
      }
      return true, Bad(EChunkPos);
    }

    /** The header of an intact last chunk has been read. */
    ghost predicate AtEnd()
      reads src
    {
      src.InChunk() && src.kind == IEND && src.length == 0 && src.left == 0 && src.Intact()
    }

    /** What critical chunks end in that may not be here: a second header, an early or longer end, and unknown ones. */
    ghost function CriticalFailure(t: Type): Failure
      reads this`state, src`length
    {
      match t
      case TIend => if state != Trailing then Bad(EChunkPos) else if src.length > 0 then Bad(EChunkSize) else Fine
      case TIhdr => Bad(EChunkPos)
      case _ => EUnknownCritical
    }

    /** IEND, and the critical chunks that may not be here. */
    method CriticalChunk(t: Type) returns (f: Failure)
      requires Fresh() && TypeOf(src.kind) == t && state in {GotIhdr, Trailing}
      modifies src`dataOff, src`lastReadSize, src`bytesLeft, src`streamBuf, src`bytesRead
      ensures src.Valid() && src.bytesRead >= old(src.bytesRead) && Kept()
      ensures f in {Fine, EUnknownCritical} || f.Bad? || f.Io?
      ensures f == Fine ==> t == TIend && state == Trailing
      ensures if CriticalFailure(t) == Fine then f == Fine || f.Io? else f == CriticalFailure(t)
      ensures f.Bad? ==> Busy()
      ensures t == TIend && state == Trailing && old(AtEnd()) ==> f == Fine && src.bytesRead == old(src.bytesRead) + 4
    {
      hide Kept, Undoable, Since, TypeOf, Crc;
      src.Position();
      if t == TIend {
        if state != Trailing {
          return Bad(EChunkPos);
        }
        if src.length > 0 {
          return Bad(EChunkSize);
        }
        var status := src.ReadAndCheckCrc();
        if status == S.Discard || status == S.Good {
          return Fine;
        }
        return Io(status);
      }
      return if t == TIhdr then Bad(EChunkPos) else EUnknownCritical;
    }

    method ExifStep() returns (f: Failure)
      requires Fresh() && TypeOf(src.kind) == TExif
      modifies this`m, this`usage, this`count, this`exif, this`leak
      modifies src`dataOff, src`lastReadSize, src`bytesLeft, src`bytesRead, src`left, src`crc
      ensures f == EChunkLimits || Busy()
      ensures src.InChunk() && src.bytesRead >= old(src.bytesRead)
      ensures f in {Fine, EChunkLimits} || f.Bad? || f.Io?
      ensures f == Fine || f.Bad? ==> Accounted()
      ensures old(WrongHere()) ==> f == Bad(old(ErrorHere()))
      ensures old(m.file) <= m.file
      ensures old(Welcome()) ==> f == Fine && Now() == old(Then()) && src.left == 0
      ensures old(Welcome()) ==> usage <= old(usage + Cost(src.left)) && count == old(count) + 1
    {
      hide Fresh, Busy, Kept, Undoable, Since, TypeOf, Crc, ParseSplt, Welcome, Then, ExifOk, Cost, S.Source.InChunk, S.Source.Valid, Taken, Waiting, LeftBy, Accounted, WrongHere, ErrorHere;
      FreshFacts();
      TakenFacts(TExif);
      if Welcome() {
        LongWelcome(TExif);
        CostCovers(src.length);
      }
      f := ExifChunk();
      if f == Fine || f.Bad? {
        ExifLeaves();
      }
    }

    method SpltStep() returns (f: Failure)
      requires Fresh() && TypeOf(src.kind) == TSplt
      modifies this`m, this`usage, this`count, this`splts, this`undo, this`leak
      modifies src`dataOff, src`lastReadSize, src`bytesLeft, src`bytesRead, src`left, src`crc
      ensures f == EChunkLimits || Busy()
      ensures src.InChunk() && src.bytesRead >= old(src.bytesRead)
      ensures f in {Fine, EChunkLimits} || f.Bad? || f.Io?
      ensures f == Fine || f.Bad? ==> Accounted()
      ensures old(WrongHere()) ==> f == Bad(old(ErrorHere()))
      ensures old(m.file) <= m.file
      ensures old(Welcome()) ==> f == Fine && Now() == old(Then()) && src.left == 0
      ensures old(Welcome()) ==> usage <= old(usage + Cost(src.left)) && count == old(count) + 1
    {
      hide Fresh, Busy, Kept, Undoable, Since, TypeOf, Crc, ParseSplt, Welcome, Then, ExifOk, Cost, S.Source.InChunk, S.Source.Valid, Taken, Waiting, LeftBy, Accounted, WrongHere, ErrorHere;
      FreshFacts();
      ghost var welcome, at := Welcome(), src.bytesRead;
      ghost var goal, data := Now(), [];
      if welcome {
        LongWelcome(TSplt);
        CostCovers(src.length);
        goal, data := Then(), Ahead();
      }
      hide Roomy, Ahead;
      f := SpltChunk();
      if welcome {
        assert src.file[at..src.bytesRead] == data;
        assert Now() == goal;
      }
    }

    method UnknownStep() returns (f: Failure)
      requires Fresh() && TypeOf(src.kind) == TUnknown
      modifies this`m, this`usage, this`count, this`unknowns, this`undo, this`leak
      modifies src`dataOff, src`lastReadSize, src`bytesLeft, src`bytesRead, src`left, src`crc
      ensures f == EChunkLimits || Busy()
      ensures src.InChunk() && src.bytesRead >= old(src.bytesRead)
      ensures f in {Fine, EChunkLimits} || f.Io?
      ensures f == Fine ==> Accounted()
      ensures old(m.file) <= m.file
      ensures old(Welcome()) ==> f == Fine && Now() == old(Then()) && src.left == 0
      ensures old(Welcome()) ==> usage <= old(usage + Cost(src.left)) && count == old(count) + 1
    {
      hide Fresh, Busy, Kept, Undoable, Since, TypeOf, Crc, ParseSplt, Welcome, Then, ExifOk, Cost, S.Source.InChunk, S.Source.Valid, Taken, Waiting, LeftBy, Accounted, WrongHere;
      FreshFacts();
      TakenFacts(TUnknown);
      ghost var welcome, at := Welcome(), src.bytesRead;
      ghost var goal, data := Now(), [];
      if welcome {
        LongWelcome(TUnknown);
        CostCovers(src.length);
        goal, data := Then(), Ahead();
      }
      hide Roomy, Ahead;
      f := UnknownChunk();
      if f == Fine {
        NothingLeft(TUnknown);
      }
      if welcome {
        assert src.file[at..src.bytesRead] == data;
        assert Now() == goal;
      }
    }

    method DispatchLong(t: Type) returns (f: Failure)
      requires Fresh() && TypeOf(src.kind) == t && t in {TExif, TIccp, TText, TSplt, TUnknown}
      modifies this`m, this`usage, this`count, this`exif, this`splts, this`unknowns, this`undo, this`leak
      modifies src`dataOff, src`lastReadSize, src`bytesLeft, src`bytesRead, src`left, src`crc
      ensures f == EChunkLimits || Busy()
      ensures src.InChunk() && src.bytesRead >= old(src.bytesRead)
      ensures f in {Fine, EChunkLimits} || f.Bad? || f.Io?
      ensures f == Fine || f.Bad? ==> Accounted()
      ensures old(WrongHere()) ==> f == Bad(old(ErrorHere()))
      ensures old(m.file) <= m.file
      ensures old(Welcome()) ==> f == Fine && Now() == old(Then()) && src.left == 0
      ensures old(Welcome()) ==> usage <= old(usage + Cost(src.left)) && count == old(count) + 1
    {
      hide Kept, Undoable, Since, TypeOf, Crc, Welcome, Then, Cost, S.Source.InChunk, S.Source.Valid, Fresh, Busy, Taken, Waiting, LeftBy, Accounted, WrongHere, ErrorHere;
      FreshFacts();
      TakenFacts(t);
      if t == TExif {
        f := ExifStep();
      } else if t == TSplt {
        f := SpltStep();
      } else if t == TUnknown {
        f := UnknownStep();
      } else {
        NotWelcome(t);
        f := OtherChunk(t);
        NothingLeft(t);
      }
    }

    lemma NotWelcome(t: Type)
      requires TypeOf(src.kind) == t && t in {TIccp, TText}
      ensures !Welcome()
    {
      hide TypeOf, Critical;
    }

    /** The chunks of any length; whatever they leave unread is passed over. */
    method LongChunk(t: Type) returns (f: Failure)
      requires Fresh() && TypeOf(src.kind) == t && t in {TExif, TIccp, TText, TSplt, TUnknown}
      modifies this`m, this`usage, this`count, this`exif, this`splts, this`unknowns, this`undo, this`leak
      modifies src`dataOff, src`lastReadSize, src`bytesLeft, src`streamBuf, src`bytesRead, src`left, src`crc
      ensures src.InChunk() && src.bytesRead >= old(src.bytesRead)
      ensures f in {Fine, EChunkLimits} || f.Bad? || f.Io?
      ensures f in {Fine} || f.Bad? ==> Busy() && Accounted()
      ensures old(WrongHere()) ==> f == Bad(old(ErrorHere()))
      ensures f == Fine ==> src.left == 0
      ensures old(m.file) <= m.file
      ensures old(Welcome()) ==> f == Fine && Now() == old(Then())
      ensures old(Welcome()) ==> usage <= old(usage + Cost(src.left)) && count == old(count) + 1
    {
      hide Kept, Undoable, Since, TypeOf, Crc, Welcome, Then, Fresh, Taken, Waiting, LeftBy, Accounted, WrongHere, ErrorHere;
      FreshFacts();
      f := DispatchLong(t);
      if f != Fine {
        return;
      }
      var status := src.DiscardChunkBytes(src.left);
      if status != S.Good {
        return Io(status);
      }
    }

    lemma WelcomeKinds()
      requires Welcome()
      ensures Small(TypeOf(src.kind)) || !Critical(src.kind)
      ensures TypeOf(src.kind) != TIdat && TypeOf(src.kind) != TIend
    {
      hide Critical, TypeOf, ValidIhdr;
      IsCritical(IDAT);
      IdatType(src.kind);
      EndType(src.kind);
    }

    method SmallStep() returns (f: Failure)
      requires Fresh() && Small(TypeOf(src.kind))
      modifies this`m, src`dataOff, src`lastReadSize, src`bytesLeft, src`streamBuf, src`bytesRead, src`left, src`crc
      ensures Handled(f) && src.bytesRead >= old(src.bytesRead)
      ensures f in {Fine} || f.Bad? || f.Io?
      ensures f == Fine ==> src.left == 0
      ensures old(m.file) <= m.file
      ensures old(WrongHere()) ==> f == Bad(old(ErrorHere())) && (old(Misplaced(TypeOf(src.kind))) ==> m == old(m) && exif == old(exif))
      ensures old(Welcome()) ==> f == Fine && Now() == old(Then())
    {
      hide Kept, Undoable, Since, TypeOf, Crc, Welcome, Then, Small, SmallFits, SmallOutcome, Handled, WrongHere, ErrorHere, Misplaced, Fresh;
      FreshFacts();
      TakenFacts(TypeOf(src.kind));
      if WrongHere() {
        SmallWrong();
      }
      if Welcome() {
        SmallWelcome();
      }
      f := SmallChunk();
    }

    /** The body of the loop of read_non_idat_chunks, from the type of the chunk on. */
    method HandleChunk() returns (done: bool, f: Failure)
      requires Fresh() && state in {GotIhdr, Trailing} && !src.discard
      modifies this, src
      ensures state == old(state) && h == old(h) && src.Valid() && src.bytesRead >= old(src.bytesRead)
      ensures !done ==> Busy() && src.left == 0 && !src.discard
      ensures done && f.Bad? ==> Handled(f)
      ensures was == old(was) && (!done || f.Bad? ==> Accounted())
      ensures old(WrongHere()) ==> done && f == Bad(old(ErrorHere())) && (old(Misplaced(TypeOf(src.kind))) ==> m == old(m) && exif == old(exif))
      ensures done && f == Fine ==> Kept() && (state == GotIhdr ==> AtIdat())
      ensures old(m.file) <= m.file && src.discard == old(src.discard)
      ensures old(Welcome()) ==> !done && Now() == old(Then()) && !prevWasIdat
      ensures old(Welcome()) ==> usage <= old(usage + Cost(src.left)) && count <= old(count) + 1
      ensures old(Skipped()) ==> !done && Now() == old(Now()) && prevWasIdat && usage == old(usage) && count == old(count)
      ensures old(TypeOf(src.kind) == TIdat && state == GotIhdr && HasPalette()) ==>
        done && f == Fine && Now() == old(Now()) && unchanged(src)
      ensures state == Trailing && old(AtEnd()) ==>
        done && f == Fine && Now() == old(Now()) && src.bytesRead == old(src.bytesRead) + 4
      ensures var t := old(TypeOf(src.kind));
        !Small(t) && t != TIdat && Critical(old(src.kind)) ==>
          done && if CriticalFailure(t) == Fine then f == Fine || f.Io? else f == CriticalFailure(t)
      ensures old(TypeOf(src.kind) == TIdat) ==>
        if state == GotIhdr then done && f == if HasPalette() then Fine else ENoPlte
        else if old(prevWasIdat) then !done || f.Io? else done && f == Bad(EChunkPos)
      ensures old(TypeOf(src.kind)) in {TIdat, TIend} ==> usage == old(usage) && count == old(count)
      ensures src.offset == old(src.offset) && src.length == old(src.length)
      ensures src.kind == old(src.kind) && src.skipCrc == old(src.skipCrc)
    {
      hide Kept, Undoable, Since, TypeOf, Crc, Critical, Small, Welcome, Then, S.Source.Intact, Handled, Fresh, Busy, Taken, Waiting, LeftBy, Accounted, WrongHere, ErrorHere, Misplaced;
      IdatType(src.kind);
      EndType(src.kind);
      if TypeOf(src.kind) == TIdat {
        IdatFacts();
        done, f := IdatStep();
        return;
      }
      NoIdat();
      prevWasIdat := false;
      f := HandleOther(TypeOf(src.kind));
      done := f != Fine || TypeOf(src.kind) == TIend;
    }

    lemma IdatFacts()
      requires Fresh() && TypeOf(src.kind) == TIdat
      ensures !Welcome() && !WrongHere() && !AtEnd()
    {
      hide TypeOf, Welcome, Crc, FF.Refusal;
      if Welcome() {
        WelcomeKinds();
      }
      IdatType(src.kind);
    }

    lemma NoIdat()
      requires Fresh() && TypeOf(src.kind) != TIdat
      ensures !Skipped() && src.InChunk()
    {
      hide TypeOf, Crc;
      IdatType(src.kind);
    }

    method IdatStep() returns (done: bool, f: Failure)
      requires Fresh() && TypeOf(src.kind) == TIdat && state in {GotIhdr, Trailing}
      modifies this`firstIdat
      modifies src`dataOff, src`lastReadSize, src`bytesLeft, src`streamBuf, src`bytesRead, src`left, src`crc
      ensures src.Valid() && src.bytesRead >= old(src.bytesRead)
      ensures !done ==> Busy() && src.left == 0 && prevWasIdat && state == Trailing
      ensures done ==> f in {Fine, ENoPlte, Bad(EChunkPos)} || f.Io?
      ensures !done || f.Bad? ==> Handled(f) && Accounted()
      ensures done && f == Fine ==> state == GotIhdr && Kept() && AtIdat()
      ensures state == GotIhdr && HasPalette() ==> done && f == Fine && unchanged(src)
      ensures if state == GotIhdr then done && f == if HasPalette() then Fine else ENoPlte
              else if prevWasIdat then !done || f.Io? else done && f == Bad(EChunkPos)
      ensures old(Skipped()) ==> !done
    {
      hide Kept, Undoable, Since, TypeOf, Crc, Handled, Fresh, Taken, Waiting, LeftBy, Accounted;
      FreshFacts();
      TakenFacts(TIdat);
      done, f := IdatChunk();
      NothingLeft(TIdat);
      HandledIfBusy(f);
      if done && f == Fine {
        FreshFacts();
      }
    }

    /** The chunks that are no image data. */
    method HandleOther(t: Type) returns (f: Failure)
      requires Fresh() && state in {GotIhdr, Trailing} && !src.discard && TypeOf(src.kind) == t != TIdat
      modifies this`m, this`usage, this`count, this`exif, this`splts, this`unknowns, this`undo, this`leak
      modifies src`dataOff, src`lastReadSize, src`bytesLeft, src`streamBuf, src`bytesRead, src`left, src`crc
      ensures src.Valid() && src.bytesRead >= old(src.bytesRead) && old(m.file) <= m.file
      ensures f == Fine && t != TIend ==> Busy() && src.left == 0
      ensures f == Fine && t == TIend ==> state == Trailing && Kept()
      ensures f.Bad? ==> Handled(f)
      ensures f == Fine || f.Bad? ==> Accounted()
      ensures old(WrongHere()) ==> f == Bad(old(ErrorHere()))
      ensures old(WrongHere() && Misplaced(TypeOf(src.kind))) ==> m == old(m) && exif == old(exif)
      ensures old(Welcome()) ==> f == Fine && t != TIend && Now() == old(Then())
      ensures old(Welcome()) ==> usage <= old(usage + Cost(src.left)) && count <= old(count) + 1
      ensures state == Trailing && old(AtEnd()) ==>
        f == Fine && t == TIend && Now() == old(Now()) && src.bytesRead == old(src.bytesRead) + 4
      ensures !Small(t) && Critical(src.kind) ==> if CriticalFailure(t) == Fine then f == Fine || f.Io? else f == CriticalFailure(t)
      ensures t == TIend ==> usage == old(usage) && count == old(count)
    {
      hide Kept, Undoable, Since, TypeOf, Crc, Critical, Small, Welcome, Then, S.Source.Intact, Handled, Fresh, Busy, Taken, Waiting, LeftBy, Accounted, WrongHere, ErrorHere, Misplaced;
      FreshFacts();
      TakenFacts(t);
      if Welcome() {
        WelcomeKinds();
      }
      SmallIsKnown(src.kind);
      EndType(src.kind);
      if Small(t) {
        NotLong(t);
        f := SmallStep();
        NothingLeft(t);
        HandledIfBusy(f);
        return;
      }
      if Critical(src.kind) {
        NotLong(t);
        CriticalIsRight();
        f := CriticalChunk(t);
        NothingLeft(t);
        HandledIfBusy(f);
        return;
      }
      f := LongChunk(t);
      HandledIfBusy(f);
    }

    lemma CriticalIsRight()
      requires Fresh() && !Small(TypeOf(src.kind)) && Critical(src.kind)
      ensures !WrongHere()
    {
      hide Critical, TypeOf, FF.Refusal, Kept, Undoable, Since;
      if WrongHere() {
        KindIsSmall(src.kind);
      }
    }

    lemma NotLong(t: Type)
      requires |src.kind| == 4 && TypeOf(src.kind) == t && (Small(t) || Critical(src.kind))
      ensures t !in {TExif, TSplt, TText, TIccp}
    {
      assert EXIF[0] == 101 && SPLT[0] == 115 && ICCP[0] == 105 && TEXT[0] == 116 && ZTXT[0] == 122 && ITXT[0] == 105;
    }

    lemma HandledIfBusy(f: Failure)
      ensures Busy() ==> Handled(f)
      ensures Handled(f) && !f.Bad? ==> Busy()
      ensures Handled(f) ==> src.InChunk() && src.Valid()
    {
    }

    /** At the first image data, with a palette if the image needs one. */
    ghost predicate AtIdat()
      reads this`h, this`m, this`firstIdat, src
    {
      && src.InChunk() && TypeOf(src.kind) == TIdat && src.left == src.length && firstIdat == src.offset
      && HasPalette()
    }

    /** Nothing of the chunk before is to be undone. */
    method BeginLoop(ghost chunks: seq<Chunk>, ghost tail: seq<byte>)
      requires src.InChunk() && src.left == 0 && Kept()
      modifies src`discard, this`undo, this`prevStored, this`was, this`leak
      ensures Busy() && !src.discard && Accounted() && Now() == old(Now())
      ensures old(Coming(chunks, tail)) ==> Coming(chunks, tail)
    {
      hide Kept, Sound, TypeOf, Crc, Stream, ReadOn, ReadU32, Costs, Number;
      src.discard := false;
      undo := NoUndo;
      prevStored := m.stored;
      was := AT_FIRST.(file := m.file, stored := m.stored, splts := splts, unknowns := unknowns, usage := usage);
      leak := 0;
    }

    /** What reading these chunks next comes to. */
    ghost function GoalIf(after: bool, skipping: bool, chunks: seq<Chunk>): R.Accepted
      requires ValidIhdr(h) && m.v.plteCount <= 256 && R.Kinds(chunks)
      reads this`h, this`m, this`exif, this`splts, this`unknowns
    {
      ReadOn(h, after, skipping, Now(), chunks)
    }

    /** The input goes on with these chunks, intact and acceptable one after the other, and there is room for them. */
    ghost predicate ComingIf(after: bool, skipping: bool, chunks: seq<Chunk>, tail: seq<byte>)
      reads this`h, this`m, this`exif, this`splts, this`unknowns, this`usage, this`count, src
    {
      && (forall i :: 0 <= i < |chunks| ==> chunks[i].Valid())
      && keepUnknown && ValidIhdr(h) && m.v.plteCount <= 256
      && src.InChunk() && src.left == 0 && (src.skipCrc || src.Intact())
      && src.bytesRead + 4 <= |src.file| && src.file[src.bytesRead + 4..] == Stream(chunks) + tail
      && count + Number(chunks) <= countLimit && usage + Costs(chunks) <= cacheLimit
      && GoalIf(after, skipping, chunks).Accepted?
    }

    /**
     And then with image data, or behind those with the last chunk. Before the image data the
     palette is among them, if the image needs one.
     */
    ghost predicate PromisedIf(after: bool, skipping: bool, chunks: seq<Chunk>, tail: seq<byte>)
      reads this`h, this`m, this`exif, this`splts, this`unknowns, this`usage, this`count, src
    {
      ComingIf(after, skipping, chunks, tail) && TailStarts(after, tail) && Enough(after, GoalIf(after, skipping, chunks))
    }

    ghost predicate Enough(after: bool, goal: R.Accepted)
      reads this`h
    {
      goal.Accepted? && (!after && h.colorType == INDEXED ==> TPlte in goal.kept.m.stored)
    }

    ghost predicate Coming(chunks: seq<Chunk>, tail: seq<byte>)
      reads this`h, this`m, this`exif, this`splts, this`unknowns, this`state, this`prevWasIdat, this`usage, this`count, src
    {
      state in {GotIhdr, Trailing} && ComingIf(state == Trailing, prevWasIdat, chunks, tail)
    }

    ghost predicate Promised(chunks: seq<Chunk>, tail: seq<byte>)
      reads this`h, this`m, this`exif, this`splts, this`unknowns, this`state, this`prevWasIdat, this`usage, this`count, src
    {
      state in {GotIhdr, Trailing} && PromisedIf(state == Trailing, prevWasIdat, chunks, tail)
    }

    ghost function Goal(chunks: seq<Chunk>): R.Accepted
      requires ValidIhdr(h) && m.v.plteCount <= 256 && R.Kinds(chunks)
      reads this`h, this`m, this`exif, this`splts, this`unknowns, this`state, this`prevWasIdat
    {
      GoalIf(state == Trailing, prevWasIdat, chunks)
    }

    lemma PromisedFacts(chunks: seq<Chunk>, tail: seq<byte>)
      requires Promised(chunks, tail)
      ensures ValidIhdr(h) && m.v.plteCount <= 256 && R.Kinds(chunks) && state in {GotIhdr, Trailing} && keepUnknown
      ensures src.InChunk() && src.left == 0 && (src.skipCrc || src.Intact())
      ensures forall i :: 0 <= i < |chunks| ==> chunks[i].Valid()
      ensures count + Number(chunks) <= countLimit && usage + Costs(chunks) <= cacheLimit
      ensures Enough(state == Trailing, Goal(chunks)) && TailStarts(state == Trailing, tail)
      ensures chunks == [] ==> Goal(chunks) == R.Accepted(Now()) && (state == GotIhdr ==> HasPalette())
    {
      hide ReadU32, Crc, Stream, Number, Costs, TailStarts, S.Source.InChunk, S.Source.Intact, ValidIhdr;
    }

    lemma ComingFacts(chunks: seq<Chunk>, tail: seq<byte>)
      requires Coming(chunks, tail)
      ensures ValidIhdr(h) && m.v.plteCount <= 256 && R.Kinds(chunks) && state in {GotIhdr, Trailing} && keepUnknown
      ensures src.InChunk() && src.left == 0 && (src.skipCrc || src.Intact())
      ensures forall i :: 0 <= i < |chunks| ==> chunks[i].Valid()
      ensures count + Number(chunks) <= countLimit && usage + Costs(chunks) <= cacheLimit
      ensures Goal(chunks).Accepted? && (chunks == [] ==> Goal(chunks) == R.Accepted(Now()))
    {
      hide ReadU32, Crc, Stream, Number, Costs, S.Source.InChunk, S.Source.Intact, ValidIhdr;
    }

    lemma PromisedIsComing(chunks: seq<Chunk>, tail: seq<byte>)
      ensures Promised(chunks, tail) ==> Coming(chunks, tail)
    {
      hide ComingIf, TailStarts, Enough, Goal;
    }

    lemma ComingHeader(chunks: seq<Chunk>, tail: seq<byte>)
      requires Coming(chunks, tail) && (chunks == [] ==> TailStarts(state == Trailing, tail))
      ensures forall i :: 0 <= i < |chunks| ==> chunks[i].Valid()
      ensures src.bytesRead + 12 <= |src.file| && ReadU32(src.file[src.bytesRead + 4..]) <= PNG_MAX
      ensures chunks == [] ==> src.file[src.bytesRead + 4..] == tail
      ensures chunks != [] ==> StartsWith(src.file, src.bytesRead + 4, chunks, tail)
    {
      hide ReadU32, Crc, CrcOf, ReadOn, Number, Costs, ValidIhdr, S.Source.InChunk, S.Source.Intact;
      if chunks != [] {
        FirstBytes(chunks[0], Stream(chunks[1..]) + tail);
        hide Bytes;
        assert Stream(chunks) + tail == Bytes(chunks[0]) + (Stream(chunks[1..]) + tail);
      } else {
        TailHeader(state == Trailing, tail);
        assert Stream(chunks) + tail == tail;
      }
    }

    lemma KeepComing(chunks: seq<Chunk>, tail: seq<byte>, goal: R.Accepted)
      requires forall i :: 0 <= i < |chunks| ==> chunks[i].Valid()
      requires state in {GotIhdr, Trailing} && keepUnknown && ValidIhdr(h) && m.v.plteCount <= 256
      requires src.InChunk() && src.left == 0 && src.Intact()
      requires src.bytesRead + 4 <= |src.file| && src.file[src.bytesRead + 4..] == Stream(chunks) + tail
      requires count + Number(chunks) <= countLimit && usage + Costs(chunks) <= cacheLimit
      requires Goal(chunks) == goal && goal.Accepted?
      ensures Coming(chunks, tail) && Goal(chunks) == goal
    {
      hide ReadOn, Number, Costs, Stream, ValidIhdr, S.Source.InChunk, S.Source.Intact;
    }

    /** At this offset stands the chunk, CRC included. */
    ghost predicate CrcFollows(c: Chunk, at: nat)
      reads src`kind, src`length
    {
      && src.kind == c.kind && src.length == |c.data| && at + 12 + src.length <= |src.file|
      && src.file[at + 8..at + 8 + src.length] == c.data
      && ReadU32(src.file[at + 8 + src.length..]) == CrcOf(c)
    }

    /** Behind the chunk come the others and the tail. */
    ghost predicate TailFollows(chunks: seq<Chunk>, tail: seq<byte>)
      requires forall i :: 0 <= i < |chunks| ==> chunks[i].Valid()
      reads src`offset, src`length
    {
      && chunks != [] && src.offset + 12 + src.length <= |src.file|
      && src.file[src.offset + 12 + src.length..] == Stream(chunks[1..]) + tail
    }

    /** Behind the data of a chunk of the script comes its CRC. */
    lemma StillIntact(c: Chunk)
      requires src.InChunk() && src.left == 0 && CrcFollows(c, src.offset)
      ensures src.Intact() && src.bytesRead + 4 == src.offset + 12 + src.length
    {
      hide ReadU32, Crc;
    }

    /** After the header of the first of them. */
    lemma ScriptChunk(chunks: seq<Chunk>, tail: seq<byte>, at: nat)
      requires chunks != [] && (forall i :: 0 <= i < |chunks| ==> chunks[i].Valid())
      requires src.AtStart(at) && StartsWith(src.file, at, chunks, tail)
      ensures src.kind == chunks[0].kind && src.length == |chunks[0].data|
      ensures src.bytesRead + src.left <= |src.file| && Ahead() == chunks[0].data
      ensures CrcFollows(chunks[0], src.offset) && TailFollows(chunks, tail)
    {
      hide ReadU32, Crc, CrcOf, Stream, Bytes, Critical;
      var c, rest := chunks[0], Stream(chunks[1..]) + tail;
      FirstBytes(c, rest);
      Tails(src.file, at, Bytes(c) + rest, |c.data|);
    }

    /** The first of the chunks will be accepted, or skipped. */
    ghost predicate Ready(chunks: seq<Chunk>, goal: R.Accepted)
      reads this`h, this`m, this`exif, this`splts, this`unknowns, this`state, this`prevWasIdat, this`usage, this`count, src
    {
      && chunks != [] && R.Kinds(chunks[1..]) && ValidIhdr(h)
      && if chunks[0].kind == IDAT then
           && Skipped() && m.v.plteCount <= 256 && ReadOn(h, true, true, Now(), chunks[1..]) == goal
           && count + Number(chunks[1..]) <= countLimit && usage + Costs(chunks[1..]) <= cacheLimit
         else
           && Welcome() && Then().m.v.plteCount <= 256
           && ReadOn(h, state == Trailing, false, Then(), chunks[1..]) == goal
           && count + 1 + Number(chunks[1..]) <= countLimit
           && usage + Cost(src.left) + Costs(chunks[1..]) <= cacheLimit
    }

    lemma ScriptReady(chunks: seq<Chunk>, goal: R.Accepted)
      requires chunks != [] && ValidIhdr(h) && m.v.plteCount <= 256 && state in {GotIhdr, Trailing} && keepUnknown
      requires (forall i :: 0 <= i < |chunks| ==> chunks[i].Valid()) && R.Kinds(chunks) && R.Kinds(chunks[1..])
      requires Goal(chunks) == goal && goal.Accepted?
      requires count + Number(chunks) <= countLimit && usage + Costs(chunks) <= cacheLimit
      requires src.bytesRead + src.left <= |src.file| && src.kind == chunks[0].kind && Ahead() == chunks[0].data
      ensures Ready(chunks, goal)
    {
      hide R.Accept, ReadOn, Costs, Number, ValidIhdr, Cost, S.Source.InChunk, Critical, TypeOf, Welcome, Skipped, Then, Ahead;
      ReadOnStep(h, state == Trailing, prevWasIdat, Now(), chunks);
      CostsStep(chunks);
      if state == Trailing && prevWasIdat && chunks[0].kind == IDAT {
        IsSkipped();
      } else {
        NoIdatAccepted(h, state == Trailing, Now(), chunks[0]);
        IsWelcome(chunks[0]);
      }
    }

    lemma IsSkipped()
      requires state == Trailing && prevWasIdat && src.kind == IDAT && src.bytesRead + src.left <= |src.file|
      ensures Skipped()
    {
    }

    lemma IsWelcome(c: Chunk)
      requires ValidIhdr(h) && m.v.plteCount <= 256 && state in {GotIhdr, Trailing} && keepUnknown && c.Valid()
      requires src.bytesRead + src.left <= |src.file| && src.kind == c.kind && Ahead() == c.data
      requires R.Accept(h, state == Trailing, Now(), c).Accepted?
      requires count < countLimit && usage + Cost(|c.data|) <= cacheLimit
      ensures Welcome() && |c.data| == src.left && Then() == R.Accept(h, state == Trailing, Now(), c).kept
    {
      hide R.Accept, ValidIhdr, Cost, S.Source.InChunk;
      assert Chunk(src.kind, Ahead()) == c;
    }

    /** The header of the first chunk of the script has been read. */
    ghost predicate Offered(chunks: seq<Chunk>, tail: seq<byte>, goal: R.Accepted)
      reads this`h, this`m, this`exif, this`splts, this`unknowns, this`state, this`prevWasIdat, this`usage, this`count, src
    {
      && (forall i :: 0 <= i < |chunks| ==> chunks[i].Valid())
      && state in {GotIhdr, Trailing} && keepUnknown && Ready(chunks, goal) && goal.Accepted?
      && CrcFollows(chunks[0], src.offset) && TailFollows(chunks, tail)
    }

    lemma Offer(chunks: seq<Chunk>, tail: seq<byte>, goal: R.Accepted, at: nat)
      requires chunks != [] && (forall i :: 0 <= i < |chunks| ==> chunks[i].Valid())
      requires src.AtStart(at) && StartsWith(src.file, at, chunks, tail)
      requires ValidIhdr(h) && m.v.plteCount <= 256 && state in {GotIhdr, Trailing} && keepUnknown
      requires Goal(chunks) == goal && goal.Accepted?
      requires count + Number(chunks) <= countLimit && usage + Costs(chunks) <= cacheLimit
      ensures Offered(chunks, tail, goal)
    {
      hide TypeOf, Crc, CrcOf, ReadU32, Stream, Bytes, Critical, ValidIhdr, ReadOn, Ready, Costs, Number, CrcFollows, TailFollows, StartsWith, Ahead;
      ScriptChunk(chunks, tail, at);
      assert forall i :: 0 <= i < |chunks[1..]| ==> chunks[1..][i] == chunks[i + 1];
      ScriptReady(chunks, goal);
    }

    /** The header of the chunk that the tail starts with has been read. */
    ghost predicate AtTail(tail: seq<byte>)
      reads src
    {
      src.AtStart(src.offset) && src.offset <= |src.file| && src.file[src.offset..] == tail
    }

    lemma AtTheTail(after: bool, tail: seq<byte>, at: nat)
      requires TailStarts(after, tail) && src.AtStart(at) && src.file[at..] == tail
      ensures AtTail(tail) && TypeOf(src.kind) in {TIdat, TIend}
      ensures if after then AtEnd() else TypeOf(src.kind) == TIdat
    {
      hide ReadU32, Crc, TypeOf, Critical;
      EndType(src.kind);
      assert src.file[at + 4..at + 8] == src.file[at..][4..8];
      IdatType(src.kind);
      if after {
        EndTail(src.file, at);
        assert src.kind + src.file[at + 8..at + 8] == src.kind;
      }
    }

    /** Before this chunk everything was as it had been before that one, but for the cache usage. */
    ghost predicate GivenBack(dropped: Snapshot)
      reads this`was
    {
      && was.stored == dropped.stored && was.splts == dropped.splts && was.unknowns == dropped.unknowns
      && was.usage == dropped.usage + LeftBy(dropped)
    }

    /** The CRC of the chunk that ends and the header of the next, and what is to be done before that is looked at. */
    method BeginNext() returns (f: Failure)
      requires Busy() && src.left == 0 && !src.discard
      modifies this`usage, this`splts, this`unknowns, this`m, this`undo, this`prevStored, this`was, this`leak, src
      ensures src.Valid() && src.bytesRead >= old(src.bytesRead) && (f == Fine || f.Io?) && m.file == old(m.file) && m.v == old(m.v)
      ensures f == Fine ==> Fresh() && !src.discard && src.AtStart(old(src.bytesRead) + 4) && src.bytesRead == old(src.bytesRead) + 12
      ensures f == Fine && old(src.Dropped() && Accounted() && !Open(was)) ==> GivenBack(old(was))
      ensures old(src.skipCrc || src.Intact()) ==>
        m == old(m) && splts == old(splts) && unknowns == old(unknowns) && usage == old(usage)
      ensures old((src.skipCrc || src.Intact()) && src.bytesRead + 12 <= |src.file| && ReadU32(src.file[src.bytesRead + 4..]) <= PNG_MAX) ==>
        f == Fine
    {
      hide Kept, Undoable, Since, Sound, TypeOf, Crc, ReadU32, Critical, Waiting, LeftBy, Open, S.Source.Intact;
      ghost var t := TypeOf(src.kind);
      PlteIsCritical(src.kind);
      src.Position();
      var status := src.ReadHeader();
      if status != S.Good {
        return Io(status);
      }
      BeginChunk(t);
      return Fine;
    }

    /** What comes next in the script. */
    method NextChunk(ghost chunks: seq<Chunk>, ghost tail: seq<byte>) returns (f: Failure)
      requires Busy() && src.left == 0 && !src.discard
      modifies this`usage, this`splts, this`unknowns, this`m, this`undo, this`prevStored, this`was, this`leak, src
      ensures src.Valid() && src.bytesRead >= old(src.bytesRead) && (f == Fine || f.Io?)
      ensures f == Fine ==> Fresh() && !src.discard && src.bytesRead == old(src.bytesRead) + 12
      ensures old(m.file) == m.file
      ensures f == Fine && old(src.Dropped() && Accounted() && !Open(was)) ==> GivenBack(old(was))
      ensures old(WrongNext(tail)) && chunks == [] ==> f == Fine && WrongHere() && Whole(tail) && StandsAt(tail)
      ensures old(WrongNext(tail)) && chunks == [] ==> was == old(Before(HeadOf(tail))) && Now() == old(Now()) && usage == old(usage)
      ensures old(Promised(chunks, tail)) && chunks == [] ==>
        f == Fine && R.Accepted(Now()) == old(Goal(chunks)) && AtItsEnd(tail)
      ensures old(Promised(chunks, tail)) && chunks == [] ==> usage == old(usage) && count == old(count)
      ensures chunks != [] && old(Coming(chunks, tail)) ==>
        f == Fine && Offered(chunks, tail, old(Goal(chunks))) && usage == old(usage) && count == old(count)
    {
      hide Kept, Busy, Fresh, Undoable, Since, Sound, TypeOf, Crc, CrcOf, ReadU32, Stream, Bytes, Critical, ValidIhdr, ReadOn, Promised, Coming, Enough, Welcome, Then, Costs, Number, Cost, Offered, StartsWith, TailStarts, AtTail, AtEnd, Waiting, Ahead, LeftBy, Open, Accounted, GivenBack, WrongHere, WrongNext, Wrong, Whole, HeadOf, StandsAt, S.Source.Intact, S.Source.AtStart, Taken;
      ghost var at, wrong := src.bytesRead + 4, chunks == [] && WrongNext(tail);
      ghost var going := if chunks == [] then Promised(chunks, tail) else Coming(chunks, tail);
      ghost var goal := R.Refused;
      if going {
        if chunks == [] {
          PromisedFacts(chunks, tail);
          PromisedIsComing(chunks, tail);
        }
        ComingFacts(chunks, tail);
        ComingHeader(chunks, tail);
        goal := Goal(chunks);
      }
      if wrong {
        WrongHeader(tail);
      }
      f := BeginNext();
      if f != Fine {
        return;
      }
      FreshFacts();
      if wrong {
        FreshIsTaken();
        WrongArrives(tail, at);
      }
      if going {
        if chunks == [] {
          AtTheTail(state == Trailing, tail, at);
        } else {
          Offer(chunks, tail, goal, at);
        }
      }
    }

    /** Of what the chunks cost, at most what the rest does not has been spent. */
    ghost predicate Spent(usageBefore: nat, countBefore: nat, chunks: seq<Chunk>, rest: seq<Chunk>)
      reads this`usage, this`count
    {
      usage + Costs(rest) <= usageBefore + Costs(chunks) && count + Number(rest) <= countBefore + Number(chunks)
    }

    /** The last chunk has been read to its end. */
    ghost predicate PastEnd(tail: seq<byte>)
      reads src`bytesRead
    {
      |tail| >= 12 && src.bytesRead + |tail| == |src.file| + 12
    }

    lemma EndPosition(tail: seq<byte>)
      requires AtTail(tail) && AtEnd()
      ensures src.bytesRead == |src.file| - |tail| + 8 && |tail| >= 12
    {
      hide ReadU32, Crc, Critical;
    }

    /** What the first chunk of the script costs. */
    lemma OfferedCost(chunks: seq<Chunk>, tail: seq<byte>, goal: R.Accepted)
      requires Offered(chunks, tail, goal) && src.left == src.length
      ensures if chunks[0].kind == IDAT then Skipped() else Welcome()
      ensures Costs(chunks) == (if chunks[0].kind == IDAT then 0 else Cost(src.left)) + Costs(chunks[1..])
      ensures Number(chunks) == (if chunks[0].kind == IDAT then 0 else 1) + Number(chunks[1..])
    {
      hide ReadOn, Costs, Number, Cost, ReadU32, CrcOf, ValidIhdr, TailFollows, Welcome, Skipped, R.Accept;
      CostsStep(chunks);
    }

    /** One chunk of the script accepted or skipped, the promise holds for the others. */
    lemma Onwards(chunks: seq<Chunk>, tail: seq<byte>, goal: R.Accepted)
      requires chunks != [] && (forall i :: 0 <= i < |chunks| ==> chunks[i].Valid())
      requires CrcFollows(chunks[0], src.offset) && TailFollows(chunks, tail) && src.InChunk() && src.left == 0
      requires state in {GotIhdr, Trailing} && keepUnknown && ValidIhdr(h) && m.v.plteCount <= 256
      requires goal.Accepted?
      requires count + Number(chunks[1..]) <= countLimit && usage + Costs(chunks[1..]) <= cacheLimit
      requires Goal(chunks[1..]) == goal
      ensures Coming(chunks[1..], tail) && Goal(chunks[1..]) == goal
    {
      hide CrcFollows, Crc, ReadOn, Number, Costs, Stream, ValidIhdr, Coming, S.Source.InChunk, S.Source.Intact;
      StillIntact(chunks[0]);
      KeepComing(chunks[1..], tail, goal);
    }

    lemma ChunkEnds()
      requires src.InChunk()
      ensures src.bytesRead + src.left == src.offset + 8 + src.length
    {
      hide Crc;
    }

    /** At the end of the script. */
    ghost predicate AtItsEnd(tail: seq<byte>)
      reads this`h, this`m, this`state, src
    {
      AtTail(tail) && (if state == Trailing then AtEnd() else TypeOf(src.kind) == TIdat && HasPalette())
    }

    /** The chunk of which the header has been read, if it is of the script. */
    method HandleNext(ghost chunks: seq<Chunk>, ghost tail: seq<byte>, ghost goal: R.Accepted) returns (done: bool, f: Failure)
      requires Fresh() && state in {GotIhdr, Trailing} && !src.discard
      modifies this, src
      ensures state == old(state) && h == old(h) && src.Valid() && src.bytesRead >= old(src.bytesRead)
      ensures !done ==> Busy() && src.left == 0 && !src.discard
      ensures done && f.Bad? ==> Handled(f)
      ensures was == old(was) && (!done || f.Bad? ==> Accounted())
      ensures old(WrongHere()) ==> done && f == Bad(old(ErrorHere())) && src.bytesRead + src.left == old(src.bytesRead + src.left)
      ensures old(WrongHere() && Misplaced(TypeOf(src.kind))) ==> m == old(m) && exif == old(exif)
      ensures src.kind == old(src.kind) && src.length == old(src.length) && src.offset == old(src.offset) && src.skipCrc == old(src.skipCrc)
      ensures done && f == Fine ==> Kept() && (state == GotIhdr ==> AtIdat())
      ensures old(m.file) <= m.file
      ensures chunks != [] && old(Offered(chunks, tail, goal)) ==>
        !done && Coming(chunks[1..], tail) && Goal(chunks[1..]) == goal && Spent(old(usage), old(count), chunks, chunks[1..])
      ensures old(AtItsEnd(tail)) ==>
        && done && f == Fine && Now() == old(Now()) && usage == old(usage) && count == old(count)
        && (if state == Trailing then PastEnd(tail) else AtTail(tail))
    {
      hide Kept, Undoable, Since, Sound, TypeOf, Crc, CrcOf, ReadU32, Stream, Bytes, Critical, ValidIhdr, ReadOn, Coming, Welcome, Then, Costs, Number, Cost, CrcFollows, AtTail, AtEnd, Handled, Fresh, Unread, Taken, Waiting, LeftBy, Open, Accounted, WrongHere, ErrorHere, Misplaced, GivenBack, AtIdat, CriticalFailure, Small, S.Source.InChunk;
      FreshFacts();
      ChunkEnds();
      ghost var offered, atItsEnd := chunks != [] && Offered(chunks, tail, goal), AtItsEnd(tail);
      if atItsEnd {
        ItsType(tail);
      }
      if offered {
        OfferedCost(chunks, tail, goal);
      }
      done, f := HandleChunk();
      if f.Bad? {
        HandledIfBusy(f);
        ChunkEnds();
      }
      if offered {
        assert TailFollows(chunks, tail);
        Onwards(chunks, tail, goal);
      }
    }

    lemma ItsType(tail: seq<byte>)
      requires AtItsEnd(tail)
      ensures TypeOf(src.kind) in {TIdat, TIend}
      ensures state == Trailing ==> src.bytesRead == |src.file| - |tail| + 8 && |tail| >= 12
    {
      hide Critical, AtTail, Crc;
      EndType(src.kind);
      if state == Trailing {
        EndPosition(tail);
      }
    }

    /** The loop stops at a wrong chunk, with what has been kept before it. */
    ghost predicate StoppedAt(tail: seq<byte>, kept: R.Kept)
      reads this`m, this`exif, this`was, this`state, src
    {
      && StandsAt(tail) && was.kind == HeadOf(tail).kind && was.data == HeadOf(tail).data && was.after == (state == Trailing)
      && was.file == kept.m.file && was.stored == kept.m.stored && was.splts == kept.splts && was.unknowns == kept.unknowns
      && (MisplacedIn(state == Trailing, kept, HeadOf(tail)) ==> m == kept.m && exif == kept.exif)
    }

    /** One round of the loop. */
    method OneRound(ghost chunks: seq<Chunk>, ghost tail: seq<byte>) returns (done: bool, f: Failure)
      requires Busy() && src.left == 0 && !src.discard && state in {GotIhdr, Trailing}
      modifies this, src
      ensures state == old(state) && h == old(h) && src.Valid()
      ensures src.bytesRead >= old(src.bytesRead) && (f.Bad? || !done ==> src.bytesRead >= old(src.bytesRead) + 12)
      ensures !done ==> Busy() && src.left == 0 && !src.discard
      ensures done && f.Bad? ==> Handled(f)
      ensures !done || f.Bad? ==> Accounted()
      ensures f == Fine || f.Bad? ==> (old(src.Dropped() && Accounted() && !Open(was)) ==> GivenBack(old(was)))
      ensures old(WrongNext(tail)) && chunks == [] ==> done && Whole(tail) && f == Bad(old(ErrorOf(HeadOf(tail))))
      ensures old(WrongNext(tail)) && chunks == [] ==> StoppedAt(tail, old(Now())) && was.usage == old(usage)
      ensures done && f == Fine ==> Kept() && (state == GotIhdr ==> AtIdat())
      ensures old(m.file) <= m.file
      ensures old(Promised(chunks, tail)) && chunks == [] ==>
        && done && f == Fine && R.Accepted(Now()) == old(Goal(chunks)) && Spent(old(usage), old(count), [], [])
        && (if state == Trailing then PastEnd(tail) else AtTail(tail))
      ensures chunks != [] && old(Coming(chunks, tail)) ==>
        && !done && Coming(chunks[1..], tail) && Goal(chunks[1..]) == old(Goal(chunks))
        && Spent(old(usage), old(count), chunks, chunks[1..])
    {
      hide Kept, Busy, Fresh, TypeOf, Crc, Promised, Coming, Costs, Number, AtTail, AtEnd, Handled, LeftBy, Open, Accounted, WrongHere, WrongNext, GivenBack, AtIdat, PastEnd, HasPalette, S.Source.InChunk, S.Source.Intact, S.Source.Dropped, Offered, AtItsEnd, Enough, Whole, HeadOf, StandsAt, StoppedAt, ErrorHere, ErrorOf;
      ghost var going := if chunks == [] then Promised(chunks, tail) else Coming(chunks, tail);
      ghost var goal, wrong, now, head := R.Refused, chunks == [] && WrongNext(tail), Now(), NO_CHUNK;
      ghost var error := NoError;
      if going {
        if chunks == [] {
          PromisedFacts(chunks, tail);
        } else {
          ComingFacts(chunks, tail);
        }
        goal := Goal(chunks);
      }
      if wrong {
        WrongHeader(tail);
        head := HeadOf(tail);
        error := ErrorOf(head);
      }
      f := NextChunk(chunks, tail);
      if f != Fine {
        return true, f;
      }
      ghost var before := was;
      if wrong {
        HereIsHead(tail, now);
        StandsFacts(tail);
      }
      done, f := HandleNext(chunks, tail, goal);
      if wrong {
        Stopped(tail, now);
      }
    }

    /** The error of the chunk at hand is that of the chunk that was to come. */
    lemma HereIsHead(tail: seq<byte>, now: R.Kept)
      requires Fresh() && Whole(tail) && StandsAt(tail) && WrongHere() && was == Before(HeadOf(tail)) && Now() == now
      ensures ErrorHere() == ErrorOf(HeadOf(tail)) && (MisplacedIn(state == Trailing, now, HeadOf(tail)) <==> Misplaced(TypeOf(src.kind)))
    {
      hide Kept, Undoable, Since, TypeOf, ErrorIn, FF.PlaceError, Small, Crc, S.Source.InChunk, HeadOf, Whole;
      FreshIsTaken();
      assert Ahead() == Waiting() == HeadOf(tail).data;
      assert Chunk(src.kind, Ahead()) == HeadOf(tail);
    }

    lemma Stopped(tail: seq<byte>, now: R.Kept)
      requires src.kind == HeadOf(tail).kind && src.length == |HeadOf(tail).data| && src.bytesRead + src.left <= |src.file|
      requires src.offset <= |src.file| && src.file[src.offset..] == tail
      requires was.kind == HeadOf(tail).kind && was.data == HeadOf(tail).data
      requires was.after == (state == Trailing) && was.file == now.m.file && was.stored == now.m.stored
      requires was.splts == now.splts && was.unknowns == now.unknowns
      requires MisplacedIn(state == Trailing, now, HeadOf(tail)) ==> m == now.m && exif == now.exif
      ensures StoppedAt(tail, now)
    {
    }

    lemma StandsFacts(tail: seq<byte>)
      requires StandsAt(tail)
      ensures src.kind == HeadOf(tail).kind && src.length == |HeadOf(tail).data| && src.bytesRead + src.left <= |src.file|
      ensures src.offset <= |src.file| && src.file[src.offset..] == tail
    {
    }

    /** The input goes on with these chunks, and then with one that is refused, if there is room for them all. */
    ghost predicate GoesWrong(chunks: seq<Chunk>, tail: seq<byte>)
      reads this`h, this`m, this`exif, this`splts, this`unknowns, this`state, this`prevWasIdat, this`usage, this`count, src
    {
      Coming(chunks, tail) && WillFail(tail, Goal(chunks), usage + Costs(chunks), count + Number(chunks))
    }

    ghost predicate WillFail(tail: seq<byte>, goal: R.Accepted, used: nat, number: nat)
      reads this`h, this`state
    {
      && goal.Accepted? && Whole(tail) && ErrorIn(h, state == Trailing, goal.kept, HeadOf(tail)) != NoError
      && RoomFor(goal.kept, HeadOf(tail), used, number)
    }

    /** Of the chunks of a script these are left, and will be accepted. */
    ghost predicate OnScript(all: seq<Chunk>, todo: seq<Chunk>, tail: seq<byte>, goal: R.Accepted, usageBefore: nat, countBefore: nat)
      reads this`h, this`m, this`exif, this`splts, this`unknowns, this`state, this`prevWasIdat, this`usage, this`count, src
    {
      && Coming(todo, tail) && GoalIs(todo, goal) && Spent(usageBefore, countBefore, all, todo)
      && |todo| <= |all| && (all == [] ==> usage == usageBefore)
    }

    /** All of them have been accepted. */
    ghost predicate Finished(all: seq<Chunk>, tail: seq<byte>, goal: R.Accepted, usageBefore: nat, countBefore: nat)
      reads this`h, this`m, this`exif, this`splts, this`unknowns, this`state, this`usage, this`count, src
    {
      && R.Accepted(Now()) == goal && (if state == Trailing then PastEnd(tail) else AtTail(tail))
      && Spent(usageBefore, countBefore, all, [])
    }

    /** The one behind them has been refused. */
    ghost predicate Failed(all: seq<Chunk>, tail: seq<byte>, goal: R.Accepted, usageBefore: nat, f: Failure)
      reads this`h, this`m, this`exif, this`was, this`state, src
    {
      && goal.Accepted? && Whole(tail) && f == Bad(ErrorIn(h, state == Trailing, goal.kept, HeadOf(tail)))
      && StoppedAt(tail, goal.kept) && was.usage <= usageBefore + Costs(all) && (all == [] ==> was.usage == usageBefore)
    }

    /** The script ends well, or with a wrong chunk. */
    ghost predicate EndsWell(tail: seq<byte>, goal: R.Accepted)
      reads this`h, this`state
    {
      TailStarts(state == Trailing, tail) && Enough(state == Trailing, goal)
    }

    /** One round of the loop, of a script. */
    method ScriptRound(ghost all: seq<Chunk>, ghost todo: seq<Chunk>, ghost tail: seq<byte>, ghost goal: R.Accepted,
                       ghost usageBefore: nat, ghost countBefore: nat) returns (done: bool, f: Failure)
      requires Busy() && src.left == 0 && !src.discard && state in {GotIhdr, Trailing}
      modifies this, src
      ensures state == old(state) && h == old(h) && src.Valid() && old(m.file) <= m.file
      ensures src.bytesRead >= old(src.bytesRead) && (f.Bad? || !done ==> src.bytesRead >= old(src.bytesRead) + 12)
      ensures !done ==> Busy() && src.left == 0 && !src.discard && src.bytesRead <= |src.file|
      ensures done && f.Bad? ==> Handled(f) && Accounted()
      ensures done && f == Fine ==> Kept() && (state == GotIhdr ==> AtIdat())
      ensures old(OnScript(all, todo, tail, goal, usageBefore, countBefore)) && todo != [] ==>
        !done && OnScript(all, todo[1..], tail, goal, usageBefore, countBefore)
      ensures old(OnScript(all, todo, tail, goal, usageBefore, countBefore) && EndsWell(tail, goal)) && todo == [] ==>
        done && f == Fine && Finished(all, tail, goal, usageBefore, countBefore)
      ensures todo == [] ==>
        (old(OnScript(all, todo, tail, goal, usageBefore, countBefore)
             && WillFail(tail, goal, usageBefore + Costs(all), countBefore + Number(all))) ==>
          done && Failed(all, tail, goal, usageBefore, f))
    {
      hide Kept, Undoable, Since, TypeOf, Crc, Promised, Coming, Goal, AtTail, Handled, Costs, Number, Accounted, WrongNext, Busy, AtIdat, PastEnd, S.Source.InChunk, ValidIhdr, WillFail, EndsWell, ErrorIn, Whole, HeadOf, StoppedAt;
      ghost var onScript := OnScript(all, todo, tail, goal, usageBefore, countBefore);
      if onScript {
        ComingFacts(todo, tail);
        if todo == [] && EndsWell(tail, goal) {
          EndsPromised(tail, goal);
        }
        if todo == [] && WillFail(tail, goal, usageBefore + Costs(all), countBefore + Number(all)) {
          NoCosts();
          FailsNow(tail, goal, usageBefore + Costs(all), countBefore + Number(all));
        }
      }
      done, f := OneRound(todo, tail);
      if !done {
        BusyFacts();
        if onScript && todo != [] {
          ComingFacts(todo[1..], tail);
        }
      }
    }

    lemma EndsPromised(tail: seq<byte>, goal: R.Accepted)
      requires Coming([], tail) && GoalIs([], goal) && EndsWell(tail, goal)
      ensures Promised([], tail)
    {
      hide ComingIf, TailStarts, Enough;
    }

    lemma FailsNow(tail: seq<byte>, goal: R.Accepted, used: nat, number: nat)
      requires Coming([], tail) && GoalIs([], goal) && WillFail(tail, goal, used, number) && usage <= used && count <= number
      ensures goal == R.Accepted(Now()) && Whole(tail) && WrongNext(tail)
      ensures ErrorOf(HeadOf(tail)) == ErrorIn(h, state == Trailing, goal.kept, HeadOf(tail))
    {
      hide ErrorIn, Whole, HeadOf, TypeOf, ReadU32, Crc, S.Source.InChunk, S.Source.Intact, ValidIhdr;
      ComingFacts([], tail);
      assert Stream([]) + tail == tail;
    }

    lemma BusyFacts()
      requires Busy()
      ensures src.InChunk() && Kept() && src.bytesRead <= |src.file|
    {
      src.Position();
    }

    lemma ScriptStarts(chunks: seq<Chunk>, tail: seq<byte>)
      requires Coming(chunks, tail)
      ensures ValidIhdr(h) && m.v.plteCount <= 256 && R.Kinds(chunks)
      ensures OnScript(chunks, chunks, tail, Goal(chunks), usage, count)
    {
      hide ReadOn, Costs, Number, Crc, ReadU32, Stream, ValidIhdr, S.Source.InChunk, S.Source.Intact;
    }

    /** read_non_idat_chunks: every round reads at least the 12 bytes of a CRC and a header. */
    method ReadNonIdatChunks(ghost chunks: seq<Chunk>, ghost tail: seq<byte>) returns (f: Failure)
      requires state in {GotIhdr, Trailing} && src.InChunk() && src.left == 0 && Kept()
      modifies this, src
      ensures state == old(state) && h == old(h) && src.Valid() && src.bytesRead >= old(src.bytesRead)
      ensures f.Bad? ==> Accounted()
      ensures old(GoesWrong(chunks, tail)) ==> Failed(chunks, tail, old(Goal(chunks)), old(usage), f)
      ensures f.Bad? ==> Handled(f) && src.bytesRead >= old(src.bytesRead) + 12
      ensures f == Fine ==> Kept() && (state == GotIhdr ==> AtIdat())
      ensures old(m.file) <= m.file
      ensures old(Promised(chunks, tail)) ==> f == Fine && Finished(chunks, tail, old(Goal(chunks)), old(usage), old(count))
    {
      hide Kept, Undoable, Since, TypeOf, Crc, Promised, Coming, Goal, Handled, Costs, Number, Accounted, Busy, AtIdat, OnScript, S.Source.InChunk, ValidIhdr, GoalIs, EndsWell, WillFail, Failed, Finished;
      ghost var well, wrong := Promised(chunks, tail), GoesWrong(chunks, tail);
      ghost var going, goal, usage0, count0 := well || wrong, R.Refused, usage, count;
      if well {
        PromisedEndsWell(chunks, tail);
      }
      if going {
        ScriptStarts(chunks, tail);
        goal := Goal(chunks);
      }
      BeginLoop(chunks, tail);
      if going {
        ScriptStarts(chunks, tail);
      }
      BusyFacts();
      ghost var todo := chunks;
      while true
        invariant Busy() && src.left == 0 && !src.discard && src.bytesRead <= |src.file|
        invariant state == old(state) && h == old(h) && src.bytesRead >= old(src.bytesRead)
        invariant old(m.file) <= m.file
        invariant going ==> OnScript(chunks, todo, tail, goal, usage0, count0)
        invariant well ==> EndsWell(tail, goal)
        invariant wrong ==> WillFail(tail, goal, usage0 + Costs(chunks), count0 + Number(chunks))
        decreases |src.file| - src.bytesRead
      {
        var done;
        done, f := ScriptRound(chunks, todo, tail, goal, usage0, count0);
        if done {
          return;
        }
        if going {
          todo := todo[1..];
        }
      }
    }

    lemma PromisedEndsWell(chunks: seq<Chunk>, tail: seq<byte>)
      requires Promised(chunks, tail)
      ensures Coming(chunks, tail) && ValidIhdr(h) && m.v.plteCount <= 256 && R.Kinds(chunks) && EndsWell(tail, Goal(chunks))
    {
      PromisedIsComing(chunks, tail);
      PromisedFacts(chunks, tail);
      hide Promised, Coming, Goal, TailStarts, Enough, ValidIhdr;
    }

    ghost predicate GoalIs(chunks: seq<Chunk>, goal: R.Accepted)
      reads this`h, this`m, this`exif, this`splts, this`unknowns, this`state, this`prevWasIdat
    {
      ValidIhdr(h) && m.v.plteCount <= 256 && R.Kinds(chunks) && Goal(chunks) == goal
    }

    // ---- The decoder's states ----

    /** Nothing has been read or kept. */
    ghost predicate Pristine()
      reads this, src
    {
      && src.Valid() && src.bytesRead == 0 && src.left == 0 && !src.skipCrc
      && m == Meta({}, {}, NO_VALUES) && usage == 0 && count == 0
    }

    /**
     The invariant of every state but the invalid one: what is stored is valid, the limits are
     kept, and from the first image data on an indexed image has its palette.
     */
    ghost predicate Inv()
      reads this, src
    {
      match state
      case Invalid => true
      case Input => Pristine()
      case GotIhdr => src.InChunk() && src.left == 0 && Kept()
      case FirstIdat => Kept() && AtIdat()
      case Decoding => src.InChunk() && src.kind == IDAT && Kept() && HasPalette()
      case Eoi => src.InChunk() && src.left == 0 && Kept() && HasPalette()
      case Trailing => src.InChunk() && src.left == 0 && Kept() && HasPalette()
      case Ended => Kept() && HasPalette()
    }

    ghost predicate HasPalette()
      reads this`h, this`m
    {
      h.colorType == INDEXED ==> TPlte in m.stored
    }

    /** read_ihdr: the signature and the header are read in one go. */
    method ReadIhdr() returns (f: Failure)
      requires Pristine()
      modifies src, this`h
      ensures f == Fine ==> src.InChunk() && src.left == 0 && Kept()
      ensures f == if |src.file| < 29 then Io(S.Eof) else IhdrError(src.file[..29])
      ensures f == Fine ==> h == IhdrOf(src.file[..29])
      ensures f == Fine ==> src.bytesRead == 29 && src.offset == 8 && src.length == 13 && src.kind == IHDR && !src.skipCrc
    {
      hide Crc, CheckIhdr, Kept, IhdrOf, ReadU32, S.Source.InChunk, FitsInMemory;
      var status := src.ReadData(29);
      if status != S.Good {
        return Io(status);
      }
      var data := src.Data(29);
      assert data == src.file[..29];
      if data[..8] != SIGNATURE {
        return ESignature;
      }
      if ReadU32(data[8..]) != 13 {
        return EIhdrSize;
      }
      if data[12..16] != IHDR {
        return ENoIhdr;
      }
      src.BeginIhdr(data);
      h := IhdrOf(data);
      var checked := CheckIhdr(h, maxWidth, maxHeight);
      if checked != IhdrOk {
        return EIhdr(checked);
      }
      NothingStored();
      var sizes, widest, last := CalculateSubimages(h);
      return if sizes == SizesOk then Fine else EOverflow;
    }

    /** The checks on the first 29 bytes, in the order they are made. */
    ghost function IhdrError(data: seq<byte>): Failure
      requires |data| == 29
    {
      if data[..8] != SIGNATURE then ESignature
      else if ReadU32(data[8..]) != 13 then EIhdrSize
      else if data[12..16] != IHDR then ENoIhdr
      else
        var checked := CheckIhdr(IhdrOf(data), maxWidth, maxHeight);
        if checked != IhdrOk then EIhdr(checked)
        else if !FitsInMemory(IhdrOf(data)) then EOverflow else Fine
    }

    lemma NothingStored()
      requires CheckIhdr(h, maxWidth, maxHeight) == IhdrOk
      requires m == Meta({}, {}, NO_VALUES) && usage == 0 && count == 0
      ensures Kept() && ValidIhdr(h)
    {
    }

    lemma PlteFlag()
      requires Kept()
      ensures TPlte in m.stored <==> TPlte in m.file
    {
    }

    /** A recoverable error: the rest of the chunk is passed over, and the chunk dropped. */
    method Recover() returns (f: Failure)
      requires Busy() && !Critical(src.kind)
      modifies this`usage, this`splts, this`unknowns, this`m, this`undo, this`leak
      modifies src`dataOff, src`lastReadSize, src`bytesLeft, src`streamBuf, src`bytesRead, src`left, src`crc, src`discard
      ensures src.InChunk() && src.bytesRead >= old(src.bytesRead)
      ensures f == Fine || f.Io?
      ensures f == Fine <==> old(src.bytesRead + src.left) <= |src.file|
      ensures f == Fine ==> src.left == 0 && Kept() && m == old(m).(stored := was.stored)
      ensures f == Fine ==> splts == was.splts && unknowns == was.unknowns && usage == was.usage + leak
      ensures old(undo) != UndoText ==> leak == old(leak)
    {
      hide Kept, Undoable, TypeOf, Crc;
      PlteIsCritical(src.kind);
      src.Position();
      var status := src.DiscardChunkBytes(src.left);
      if status != S.Good {
        return Io(status);
      }
      DropChunk(TypeOf(src.kind));
      src.discard := false;
      undo := NoUndo;
      return Fine;
    }

    /** What the file says the header is has been taken over, and nothing else yet. */
    ghost predicate HeaderRead()
      reads this, src
    {
      && state == GotIhdr && |src.file| >= 29 && h == IhdrOf(src.file[..29]) && src.InChunk() && src.left == 0
      && src.bytesRead == 29 && src.offset == 8 && src.length == 13 && src.kind == IHDR && !src.skipCrc
      && m == Meta({}, {}, NO_VALUES) && usage == 0 && count == 0
    }

    /** read_chunks */
    method ReadChunks(onlyIhdr: bool, ghost chunks: seq<Chunk>, ghost tail: seq<byte>) returns (f: Failure)
      requires Inv()
      modifies this, src
      ensures Inv()
      ensures old(state) == Invalid ==> f == EBadState
      ensures f != Fine ==> state == Invalid
      ensures f == Fine && !onlyIhdr ==>
        state == if old(state) in {Input, GotIhdr, FirstIdat} then FirstIdat else if old(state) == Decoding then Decoding else Ended
      ensures old(state) == Input && |src.file| >= 29 && IhdrError(src.file[..29]) != Fine ==> f == IhdrError(src.file[..29])
      ensures old(state) == Input && onlyIhdr && |src.file| >= 29 && IhdrError(src.file[..29]) == Fine ==> HeaderRead()
      ensures old(state) == Input && onlyIhdr ==> exif == old(exif) && splts == old(splts) && unknowns == old(unknowns)
      ensures old(state == GotIhdr && Promised(chunks, tail)) && !onlyIhdr ==>
        && f == Fine && R.Accepted(Now()) == old(Goal(chunks)) && h == old(h) && AtTail(tail)
        && Spent(old(usage), old(count), chunks, [])
      ensures old(state == Eoi && PromisedIf(true, true, chunks, tail)) && !onlyIhdr ==>
        f == Fine && R.Accepted(Now()) == old(GoalIf(true, true, chunks)) && h == old(h) && PastEnd(tail)
    {
      hide Kept, Crc, Critical, Promised, PromisedIf, Goal, GoalIf, AtTail;
      if state == Invalid {
        return EBadState;
      }
      if state == Input {
        f := ReadIhdr();
        if f != Fine {
          state := Invalid;
          return;
        }
        state := GotIhdr;
      }
      if onlyIhdr {
        return Fine;
      }
      f := ReadOthers(chunks, tail);
    }

    /** What to do after the header, according to the state. */
    method ReadOthers(ghost chunks: seq<Chunk>, ghost tail: seq<byte>) returns (f: Failure)
      requires Inv() && state !in {Invalid, Input}
      modifies this, src
      ensures Inv() && h == old(h)
      ensures f != Fine ==> state == Invalid
      ensures f == Fine ==>
        state == if old(state) in {GotIhdr, FirstIdat} then FirstIdat else if old(state) == Decoding then Decoding else Ended
      ensures old(state == GotIhdr && Promised(chunks, tail)) ==>
        f == Fine && R.Accepted(Now()) == old(Goal(chunks)) && AtTail(tail) && Spent(old(usage), old(count), chunks, [])
      ensures old(state == Eoi && PromisedIf(true, true, chunks, tail)) ==>
        f == Fine && R.Accepted(Now()) == old(GoalIf(true, true, chunks)) && PastEnd(tail)
    {
      hide Kept, Crc, Critical, PromisedIf, GoalIf, AtTail, Costs, Number;
      ghost var promised :=
        (state == GotIhdr && Promised(chunks, tail)) || (state == Eoi && PromisedIf(true, true, chunks, tail));
      ghost var goal := R.Refused;
      if state == Eoi {
        state := Trailing;
        prevWasIdat := true;
      }
      if promised {
        PromisedFacts(chunks, tail);
        goal := Goal(chunks);
      }
      hide Promised, Goal;
      ghost var first := state;
      while state == GotIhdr || state == Trailing
        invariant Inv() && (state == first || (first == GotIhdr && state == FirstIdat) || (first == Trailing && state == Ended))
        invariant h == old(h)
        invariant promised && state == first ==> Promised(chunks, tail) && GoalIs(chunks, goal)
        invariant promised && state == first ==> usage == old(usage) && count == old(count)
        invariant promised && state != first ==> Spent(old(usage), old(count), chunks, [])
        invariant promised && state != first ==>
          R.Accepted(Now()) == goal && if state == FirstIdat then AtTail(tail) else PastEnd(tail)
        decreases state == GotIhdr || state == Trailing, |src.file| - src.bytesRead
      {
        f := ReadRound(chunks, tail);
        if state == Invalid {
          return;
        }
      }
      return Fine;
    }

    /** The chunk with the error is passed over, be it the one that was to come or another. */
    method PassOver(e: Failure, ghost wrong: bool, ghost chunks: seq<Chunk>, ghost tail: seq<byte>, ghost kept: R.Kept,
                    ghost usageBefore: nat) returns (f: Failure)
      requires state in {GotIhdr, Trailing} && (wrong ==> keepUnknown && ErrorIn(h, state == Trailing, kept, HeadOf(tail)) != NoError)
      requires wrong ==> Failed(chunks, tail, R.Accepted(kept), usageBefore, e)
      requires Handled(e) && e.Bad? && Accounted() && !Critical(src.kind)
      modifies this`usage, this`splts, this`unknowns, this`m, this`undo, this`leak
      modifies src`dataOff, src`lastReadSize, src`bytesLeft, src`streamBuf, src`bytesRead, src`left, src`crc, src`discard
      ensures src.InChunk() && src.bytesRead >= old(src.bytesRead)
      ensures f == Fine <==> old(src.bytesRead + src.left) <= |src.file|
      ensures f == Fine ==> src.left == 0 && Kept() && m == old(m).(stored := was.stored)
      ensures f == Fine ==> splts == was.splts && unknowns == was.unknowns && (Open(was) || usage == was.usage + LeftBy(was))
      ensures wrong ==> f == Fine && PassedOver(chunks, tail, kept, usageBefore)
    {
      hide ErrorIn, Whole, HeadOf, PassedOver, StoppedAt, Costs, Kept, Handled, Busy, Accounted, Open, LeftBy, Critical, S.Source.InChunk;
      Recoverable(e);
      ghost var values, data := m, exif;
      if wrong {
        StoppedFacts(tail, kept);
      }
      f := Recover();
      if wrong {
        Passed(chunks, tail, kept, usageBefore, values, data);
      }
    }

    lemma Recoverable(f: Failure)
      requires Handled(f) && Accounted() && !Critical(src.kind)
      ensures Busy() && (!Open(was) ==> undo != UndoText && leak == LeftBy(was))
    {
      hide Kept, Undoable, Since, TypeOf, Critical, LeftBy;
      PlteIsCritical(src.kind);
    }

    lemma BadIsInChunk(f: Failure)
      ensures Handled(f) ==> src.InChunk() && |src.kind| == 4 && src.bytesRead <= |src.file|
    {
    }

    lemma GoesWrongFacts(chunks: seq<Chunk>, tail: seq<byte>)
      requires GoesWrong(chunks, tail)
      ensures ValidIhdr(h) && m.v.plteCount <= 256 && R.Kinds(chunks) && Goal(chunks).Accepted? && Whole(tail) && keepUnknown
      ensures ErrorIn(h, state == Trailing, Goal(chunks).kept, HeadOf(tail)) != NoError
      ensures TypeOf(HeadOf(tail).kind) == TPlte <==> Critical(HeadOf(tail).kind)
    {
      hide Coming, Goal, Whole, HeadOf, TypeOf, Critical, FF.Refusal, ParseSplt, ExifOk, RoomFor, ValidIhdr;
      ComingFacts(chunks, tail);
      KindIsSmall(HeadOf(tail).kind);
    }

    /** A wrong chunk has been passed over, and the input goes on behind it. */
    ghost predicate PassedOver(chunks: seq<Chunk>, tail: seq<byte>, kept: R.Kept, usageBefore: nat)
      reads this`h, this`m, this`exif, this`splts, this`unknowns, this`state, this`prevWasIdat, this`usage, this`count, this`was, src
    {
      && m.stored == kept.m.stored && splts == kept.splts && unknowns == kept.unknowns && usage == was.usage + LeftBy(was)
      && was.kind == HeadOf(tail).kind && was.data == HeadOf(tail).data && was.after == (state == Trailing) && was.file == kept.m.file
      && was.splts == kept.splts && was.usage <= usageBefore + Costs(chunks) && (chunks == [] ==> was.usage == usageBefore)
      && (MisplacedIn(state == Trailing, kept, HeadOf(tail)) ==> Now() == kept && usage == was.usage)
      && Coming([], RestOf(tail))
    }

    lemma Passed(chunks: seq<Chunk>, tail: seq<byte>, kept: R.Kept, usageBefore: nat, values: Meta, data: seq<byte>)
      requires src.kind == HeadOf(tail).kind && src.length == |HeadOf(tail).data| && src.offset <= |src.file| && src.file[src.offset..] == tail
      requires Whole(tail) && Kept() && keepUnknown && state in {GotIhdr, Trailing} && src.InChunk() && src.left == 0
      requires was.kind == HeadOf(tail).kind && was.data == HeadOf(tail).data && was.after == (state == Trailing)
      requires was.file == kept.m.file && was.stored == kept.m.stored && was.splts == kept.splts && was.unknowns == kept.unknowns
      requires m == values.(stored := was.stored) && splts == was.splts && unknowns == was.unknowns && exif == data
      requires MisplacedIn(state == Trailing, kept, HeadOf(tail)) ==> values == kept.m && data == kept.exif
      requires ErrorIn(h, state == Trailing, kept, HeadOf(tail)) != NoError && (Open(was) || usage == was.usage + LeftBy(was))
      requires was.usage <= usageBefore + Costs(chunks) && (chunks == [] ==> was.usage == usageBefore)
      ensures PassedOver(chunks, tail, kept, usageBefore)
    {
      LeavesOf(kept, HeadOf(tail));
      GoesOn(tail);
      hide Kept, LeftBy, Open, Whole, HeadOf, ErrorIn, Coming, Costs, RestOf, S.Source.InChunk;
    }

    lemma FailedKind(chunks: seq<Chunk>, tail: seq<byte>, goal: R.Accepted, usageBefore: nat, f: Failure)
      requires Failed(chunks, tail, goal, usageBefore, f)
      ensures f.Bad? && src.kind == HeadOf(tail).kind && goal.Accepted?
      ensures f == Bad(ErrorIn(h, state == Trailing, goal.kept, HeadOf(tail))) && goal == R.Accepted(goal.kept)
    {
    }

    lemma StoppedFacts(tail: seq<byte>, kept: R.Kept)
      requires StoppedAt(tail, kept)
      ensures src.kind == HeadOf(tail).kind && src.length == |HeadOf(tail).data| && src.bytesRead + src.left <= |src.file|
      ensures src.offset <= |src.file| && src.file[src.offset..] == tail
      ensures was.kind == HeadOf(tail).kind && was.data == HeadOf(tail).data && was.after == (state == Trailing)
      ensures was.file == kept.m.file && was.stored == kept.m.stored && was.splts == kept.splts && was.unknowns == kept.unknowns
      ensures MisplacedIn(state == Trailing, kept, HeadOf(tail)) ==> m == kept.m && exif == kept.exif
    {
    }

    lemma LeavesOf(kept: R.Kept, c: Chunk)
      requires was.kind == c.kind && ErrorIn(h, state == Trailing, kept, c) != NoError
      ensures !Open(was) && (Small(TypeOf(c.kind)) ==> LeftBy(was) == 0)
    {
      hide TypeOf, FF.Refusal, ParseSplt, ExifOk;
    }

    lemma GoesOn(tail: seq<byte>)
      requires src.kind == HeadOf(tail).kind && src.length == |HeadOf(tail).data| && src.offset <= |src.file| && src.file[src.offset..] == tail
      requires Whole(tail) && Kept() && keepUnknown && state in {GotIhdr, Trailing} && src.InChunk() && src.left == 0
      ensures Coming([], RestOf(tail))
    {
      hide ReadU32, Crc, CrcOf, Sound, ValidIhdr, Whole;
      var c := HeadOf(tail);
      WholeParts(tail);
      Tails(src.file, src.offset, tail, |c.data|);
      StillIntact(c);
      PlteFits();
      assert Stream([]) + RestOf(tail) == RestOf(tail);
    }

    /** One round of the loop of read_chunks. */
    method ReadRound(ghost chunks: seq<Chunk>, ghost tail: seq<byte>) returns (f: Failure)
      requires Inv() && (state == GotIhdr || state == Trailing)
      modifies this, src
      ensures Inv()
      ensures f != Fine <==> state == Invalid
      ensures state in {Invalid, old(state), if old(state) == GotIhdr then FirstIdat else Ended}
      ensures state == old(state) ==> |src.file| - src.bytesRead < old(|src.file| - src.bytesRead)
      ensures h == old(h)
      ensures f == Fine && state == old(state) ==>
        m.stored == was.stored && splts == was.splts && unknowns == was.unknowns && (Open(was) || usage == was.usage + LeftBy(was))
      ensures old(GoesWrong(chunks, tail)) ==>
        var goal := old(Goal(chunks));
        && goal.Accepted? && Whole(tail)
        && if strict || TypeOf(HeadOf(tail).kind) == TPlte then f == Bad(ErrorIn(h, old(state) == Trailing, goal.kept, HeadOf(tail)))
           else f == Fine && state == old(state) && PassedOver(chunks, tail, goal.kept, old(usage))
      ensures old(Promised(chunks, tail)) ==>
        && f == Fine && state == (if old(state) == GotIhdr then FirstIdat else Ended)
        && R.Accepted(Now()) == old(Goal(chunks)) && (if state == FirstIdat then AtTail(tail) else PastEnd(tail))
        && Spent(old(usage), old(count), chunks, [])
    {
      hide Kept, Crc, Critical, TypeOf, Promised, Coming, Goal, AtTail, Open, LeftBy, Busy, Handled, Accounted, S.Source.InChunk, AtIdat, Pristine, PastEnd, Spent, Whole, HeadOf, RestOf, ErrorIn, StandsAt, StoppedAt, PassedOver, GoesWrong, Failed;
      ghost var wrong, goal, before := GoesWrong(chunks, tail), R.Refused, usage;
      if wrong {
        GoesWrongFacts(chunks, tail);
        goal := Goal(chunks);
      }
      if Promised(chunks, tail) {
        PromisedFacts(chunks, tail);
      }
      PlteFlag();
      f := ReadNonIdatChunks(chunks, tail);
      if wrong {
        FailedKind(chunks, tail, goal, before, f);
      }
      if f == Fine {
        PlteFlag();
        state := if state == GotIhdr then FirstIdat else Ended;
        return;
      }
      BadIsInChunk(f);
      if f.Bad? && !strict && !Critical(src.kind) {
        f := PassOver(f, wrong, chunks, tail, if goal.Accepted? then goal.kept else R.NOTHING, before);
        if f != Fine {
          state := Invalid;
          return;
        }
        PlteFlag();
        return;
      }
      state := Invalid;
    }

    /** spng_decode_image has prepared the decoding of rows. */
    method StartDecoding()
      requires Inv() && state == FirstIdat
      modifies this`state
      ensures Inv() && state == Decoding
    {
      hide Kept, Crc;
      IdatType(src.kind);
      state := Decoding;
    }

    /**
     After the last row the rest of the IDAT chunk under way is passed over, for zlib may end
     before the chunk does.
     */
    method EndImage() returns (f: Failure)
      requires Inv() && state == Decoding
      modifies this`state
      modifies src`dataOff, src`lastReadSize, src`bytesLeft, src`streamBuf, src`bytesRead, src`left, src`crc
      ensures Inv() && state == if f == Fine then Eoi else Invalid
      ensures f == Fine <==> old(src.bytesRead + src.left) <= |src.file|
      ensures f == Fine ==> src.left == 0 && src.bytesRead == old(src.bytesRead + src.left)
    {
      hide Kept, Crc;
      src.Position();
      state := Eoi;
      if src.left > 0 {
        var status := src.DiscardChunkBytes(src.left);
        if status != S.Good {
          state := Invalid;
          return Io(status);
        }
      }
      return Fine;
    }
  }

  lemma InvFacts(r: Reader)
    requires r.Inv() && r.state in {Decoding, Eoi}
    ensures r.src.InChunk() && r.src.Valid() && r.m.v.plteCount <= 256 && ValidIhdr(r.h)
    ensures r.usage <= r.cacheLimit && r.count <= r.countLimit
  {
  }

  /** The widest image with the deepest pixels passes every check on its header and is refused. */
  method TooWide(r: Reader) returns (f: Failure)
    requires r.Inv() && r.state == Input && r.maxWidth >= PNG_MAX && r.maxHeight >= 1
    requires |r.src.file| >= 29 && r.src.file[..8] == SIGNATURE && ReadU32(r.src.file[8..]) == 13 && r.src.file[12..16] == IHDR
    requires IhdrOf(r.src.file[..29]) == Ihdr(PNG_MAX, 1, 16, TRUECOLOR_ALPHA, 0, 0, 0)
    modifies r, r.src
    ensures f == EOverflow && r.state == Invalid
  {
    hide ReadU32, Crc, Reader.Kept;
    var file := r.src.file;
    assert file[..29][..8] == file[..8] && file[..29][12..16] == file[12..16];
    S.Source.SameWord(file[8..], file[..29][8..12]);
    S.Source.SameWord(file[..29][8..], file[..29][8..12]);
    assert !FitsInMemory(IhdrOf(file[..29])) by {
      assert ScanlineWidth(IhdrOf(file[..29]), PNG_MAX) > U32_MAX;
      assert Sub(IhdrOf(file[..29]), 0) == Subimage(PNG_MAX, 1);
    }
    hide FitsInMemory, IhdrOf;
    f := r.ReadChunks(true, [], []);
  }

  function IhdrOf(data: seq<byte>): Ihdr
    requires |data| == 29
  {
    Ihdr(ReadU32(data[16..]), ReadU32(data[20..]), data[24], data[25], data[26], data[27], data[28])
  }

  lemma SpltNotEmpty(kept: seq<Splt>, data: seq<byte>)
    ensures ParseSplt(kept, data).error == NoError ==> |data| > 0
  {
  }

  lemma CostCovers(length: nat)
    ensures Cost(length) >= length && Cost(length) >= length + UNKNOWN_SIZE
  {
  }

  /** Image data that are skipped cost nothing. */
  function Costs(chunks: seq<Chunk>): nat {
    if chunks == [] then 0
    else (if chunks[0].kind == IDAT then 0 else Cost(|chunks[0].data|)) + Costs(chunks[1..])
  }

  function Number(chunks: seq<Chunk>): nat {
    if chunks == [] then 0 else (if chunks[0].kind == IDAT then 0 else 1) + Number(chunks[1..])
  }

  lemma NoCosts()
    ensures Costs([]) == 0 && Number([]) == 0
  {
  }

  lemma CostsStep(chunks: seq<Chunk>)
    requires chunks != []
    ensures Costs(chunks) == (if chunks[0].kind == IDAT then 0 else Cost(|chunks[0].data|)) + Costs(chunks[1..])
    ensures Number(chunks) == (if chunks[0].kind == IDAT then 0 else 1) + Number(chunks[1..])
  {
  }

  /** Reading on, before or after the image data, where a run of image data is skipped at first. */
  ghost function ReadOn(h: Ihdr, after: bool, skipping: bool, r: R.Kept, chunks: seq<Chunk>): R.Accepted
    requires ValidIhdr(h) && r.m.v.plteCount <= 256 && R.Kinds(chunks)
    decreases |chunks|
  {
    if chunks == [] then R.Accepted(r)
    else if after && skipping && chunks[0].kind == IDAT then ReadOn(h, after, true, r, chunks[1..])
    else
      match R.Accept(h, after, r, chunks[0])
      case Refused => R.Refused
      case Accepted(next) =>
        if next.m.v.plteCount <= 256 then ReadOn(h, after, false, next, chunks[1..]) else R.Refused
  }

  lemma ReadOnStep(h: Ihdr, after: bool, skipping: bool, r: R.Kept, chunks: seq<Chunk>)
    requires ValidIhdr(h) && r.m.v.plteCount <= 256 && R.Kinds(chunks) && chunks != []
    requires ReadOn(h, after, skipping, r, chunks).Accepted?
    ensures after && skipping && chunks[0].kind == IDAT ==>
      ReadOn(h, after, true, r, chunks[1..]) == ReadOn(h, after, skipping, r, chunks)
    ensures !(after && skipping && chunks[0].kind == IDAT) ==>
      var a := R.Accept(h, after, r, chunks[0]);
      && a.Accepted? && a.kept.m.v.plteCount <= 256
      && ReadOn(h, after, false, a.kept, chunks[1..]) == ReadOn(h, after, skipping, r, chunks)
  {
    hide R.Accept, ValidIhdr;
  }

  lemma NoIdatAccepted(h: Ihdr, after: bool, r: R.Kept, c: Chunk)
    requires ValidIhdr(h) && r.m.v.plteCount <= 256 && |c.kind| == 4 && R.Accept(h, after, r, c).Accepted?
    ensures c.kind != IDAT
  {
    hide ValidIhdr, ReadSmall, ParseSplt, ExifOk, Critical;
    IsCritical(IDAT);
  }

  /** Without image data in front it is what the chunks one by one come to. */
  lemma {:induction false} ReadOnIsReadAll(h: Ihdr, after: bool, skipping: bool, r: R.Kept, chunks: seq<Chunk>)
    requires ValidIhdr(h) && r.m.v.plteCount <= 256 && R.Kinds(chunks)
    requires after && skipping && chunks != [] ==> chunks[0].kind != IDAT
    ensures ReadOn(h, after, skipping, r, chunks) == R.ReadAll(h, after, r, chunks)
    decreases |chunks|
  {
    hide R.Accept, ValidIhdr;
    if chunks != [] {
      match R.Accept(h, after, r, chunks[0])
      case Refused =>
      case Accepted(next) =>
        if next.m.v.plteCount <= 256 {
          ReadOnIsReadAll(h, after, false, next, chunks[1..]);
        }
    }
  }

  /** A run of image data in front is skipped. */
  lemma {:induction false} IdatsSkipped(h: Ihdr, r: R.Kept, run: seq<Chunk>, chunks: seq<Chunk>)
    requires ValidIhdr(h) && r.m.v.plteCount <= 256 && R.Kinds(chunks) && (chunks != [] ==> chunks[0].kind != IDAT)
    requires forall i :: 0 <= i < |run| ==> run[i].kind == IDAT
    ensures R.Kinds(run + chunks) && ReadOn(h, true, true, r, run + chunks) == R.ReadAll(h, true, r, chunks)
    ensures Costs(run + chunks) == Costs(chunks) && Number(run + chunks) == Number(chunks)
    decreases |run|
  {
    hide R.Accept, ValidIhdr, R.ReadAll;
    if run == [] {
      assert run + chunks == chunks;
      ReadOnIsReadAll(h, true, true, r, chunks);
    } else {
      IdatsSkipped(h, r, run[1..], chunks);
      var all := run + chunks;
      assert all[0] == run[0] && all[1..] == run[1..] + chunks;
    }
  }

  /** At this offset stands the first of the chunks, with the others and the tail behind it. */
  ghost predicate StartsWith(file: seq<byte>, at: nat, chunks: seq<Chunk>, tail: seq<byte>)
    requires forall i :: 0 <= i < |chunks| ==> chunks[i].Valid()
  {
    at <= |file| && chunks != [] && file[at..] == Bytes(chunks[0]) + (Stream(chunks[1..]) + tail)
  }

  /** These bytes start with a whole chunk. */
  ghost predicate Whole(tail: seq<byte>) {
    && |tail| >= 12 && ReadU32(tail) <= PNG_MAX && |tail| >= 12 + ReadU32(tail)
    && tail[..12 + ReadU32(tail)] == Bytes(Chunk(tail[4..8], tail[8..8 + ReadU32(tail)]))
  }

  function HeadOf(tail: seq<byte>): (c: Chunk)
    ensures Whole(tail) ==> c.Valid()
  {
    if |tail| >= 12 && |tail| >= 12 + ReadU32(tail) then Chunk(tail[4..8], tail[8..8 + ReadU32(tail)]) else NO_CHUNK
  }

  function RestOf(tail: seq<byte>): seq<byte> {
    if |tail| >= 12 && |tail| >= 12 + ReadU32(tail) then tail[12 + ReadU32(tail)..] else []
  }

  lemma WholeParts(tail: seq<byte>)
    requires Whole(tail)
    ensures HeadOf(tail).Valid() && tail == Bytes(HeadOf(tail)) + RestOf(tail)
    ensures ReadU32(tail[8 + |HeadOf(tail).data|..]) == CrcOf(HeadOf(tail))
  {
    hide Bytes, ReadU32, CrcOf;
    assert tail == tail[..12 + ReadU32(tail)] + tail[12 + ReadU32(tail)..];
    FirstBytes(HeadOf(tail), RestOf(tail));
  }

  lemma ChunkIsWhole(c: Chunk, rest: seq<byte>)
    requires c.Valid()
    ensures var tail := Bytes(c) + rest; Whole(tail) && HeadOf(tail) == c && RestOf(tail) == rest
  {
    hide Bytes, ReadU32, CrcOf;
    FirstBytes(c, rest);
    var tail := Bytes(c) + rest;
    assert tail[..12 + |c.data|] == Bytes(c);
  }

  /**
   Why a chunk is refused: exif data that are none or not the first, a wrong palette or one behind
   the image data, or a small chunk that is empty, in the wrong place, a duplicate or wrong in its
   data.
   */
  ghost function ErrorIn(h: Ihdr, after: bool, kept: R.Kept, c: Chunk): Error {
    match TypeOf(c.kind)
    case TExif => if TExif in kept.m.file then EDup(TExif) else if ExifOk(c.data) then NoError else EExif
    case TSplt => if after then EChunkPos else ParseSplt(kept.splts, c.data).error
    case _ => if Small(TypeOf(c.kind)) then FF.Refusal(h, after, kept.m, TypeOf(c.kind), c.data) else NoError
  }

  /** What follows starts like an IDAT chunk. */
  predicate IdatNext(tail: seq<byte>) {
    |tail| >= 8 && tail[4..8] == IDAT && ReadU32(tail) <= PNG_MAX
  }

  /** Before the image data comes an IDAT chunk, and after them in the end the last chunk. */
  predicate TailStarts(after: bool, tail: seq<byte>) {
    if after then IEND_BYTES <= tail else IdatNext(tail)
  }

  lemma TailHeader(after: bool, tail: seq<byte>)
    requires TailStarts(after, tail)
    ensures |tail| >= 8 && ReadU32(tail) <= PNG_MAX && tail[4..8] == if after then IEND else IDAT
  {
    if after {
      assert tail[..12] == IEND_BYTES;
      assert tail[0] == 0 && tail[1] == 0 && tail[2] == 0 && tail[3] == 0;
      assert tail[4..8] == tail[..12][4..8] == IEND;
    }
  }

  /** The last chunk is empty, and its CRC is right. */
  lemma EndTail(file: seq<byte>, at: nat)
    requires at <= |file| && IEND_BYTES <= file[at..]
    ensures at + 12 <= |file| && ReadU32(file[at..]) == 0 && file[at + 4..at + 8] == IEND
    ensures ReadU32(file[at + 8..]) == Crc(0, IEND)
  {
    hide ReadU32, Crc;
    IendIsChunk();
    var c := Chunk(IEND, []);
    var rest := file[at..][12..];
    assert file[at..] == IEND_BYTES + rest;
    FirstBytes(c, rest);
    assert IEND + [] == IEND;
    Tails(file, at, Bytes(c) + rest, 0);
  }

  lemma Tails(file: seq<byte>, at: nat, s: seq<byte>, n: nat)
    requires at <= |file| && file[at..] == s && |s| >= n + 12
    ensures |file| == at + |s| && file[at + 4..at + 8] == s[4..8] && file[at + 8..at + 8 + n] == s[8..8 + n]
    ensures file[at + 8 + n..] == s[8 + n..] && file[at + 12 + n..] == s[12 + n..]
  {
    assert |file[at..]| == |s|;
    Part(file, at, 4, 8);
    Part(file, at, 8, 8 + n);
    Part(file, at, 8 + n, |s|);
    Part(file, at, 12 + n, |s|);
  }

  lemma Part(file: seq<byte>, at: nat, a: nat, b: nat)
    requires a <= b && at + b <= |file|
    ensures file[at + a..at + b] == file[at..][a..b]
  {
  }

  /** More than any chunk of so many bytes takes of the cache. */
  function Cost(length: nat): nat {
    3 * length + SPLT_SIZE
  }

  lemma SmallIsKnown(kind: seq<byte>)
    requires |kind| == 4
    ensures !Critical(kind) && !Small(TypeOf(kind)) && TypeOf(kind) != TIdat ==>
      TypeOf(kind) in {TExif, TIccp, TText, TSplt, TUnknown}
  {
    IsCritical(IHDR);
    IsCritical(IEND);
  }

  lemma IdatType(kind: seq<byte>)
    ensures TypeOf(kind) == TIdat <==> kind == IDAT
  {
  }

  lemma EndType(kind: seq<byte>)
    ensures TypeOf(kind) == TIend <==> kind == IEND
    ensures Critical(IEND) && !Small(TIend)
  {
    assert IDAT[1] == 68 && PLTE[0] == 80;
    assert IEND[0] == 73 && IEND[1] == 69;
  }

  lemma IsCritical(kind: seq<byte>)
    requires kind in {IHDR, IEND, PLTE, IDAT}
    ensures |kind| == 4 && Critical(kind)
  {
    assert IHDR[0] == 73 && IEND[0] == 73 && PLTE[0] == 80 && IDAT[0] == 73;
  }

  lemma PlteIsCritical(kind: seq<byte>)
    requires |kind| == 4
    ensures TypeOf(kind) == TPlte ==> Critical(kind)
  {
    IsCritical(PLTE);
  }

  lemma NotStored(h: Ihdr, m: Meta, t: Type)
    requires Sound(h, m) && t !in m.file
    ensures t !in m.stored
  {
  }

  lemma ReadSmallExif(h: Ihdr, after: bool, m: Meta, t: Type, length: nat, data: seq<byte>)
    requires |data| == Min(length, 768) && m.v.plteCount <= 256 && Small(t) && ValidIhdr(h)
    ensures TExif in ReadSmall(h, after, m, t, length, data).m.stored <==> TExif in m.stored
  {
    hide Parse, Placed;
  }
}
