/**
 Feeding the data of the IDAT chunks to inflate. How the stream was cut into chunks, empty
 ones included, and how it is read makes no difference to the bytes inflate is given.
 */
module IdatReader {
  import opened Octets
  import opened Chunks
  import S = ChunkSource
  import opened IdatWriter

  datatype Status = Good | Failed(cause: S.Status) | EIdatTooShort | EIdatStream

  datatype InflateCode = IOk | IStreamEnd | IBufError | IDataError

  /**
   zlib's inflate as a pipe: `rest` is what it has still to produce. A call that reports
   progress has made some, and one that asks for input has none left. As long as it is given
   the compressed data it was made for, it finds no fault with them, ends only when all has
   been produced, and asks for more only if there is more to be given.
   */
  class Inflater {
    const coded: seq<byte>
    var rest: seq<byte>
    /** Every byte taken in so far. */
    var eaten: seq<byte>

    /**
     What zlib is for: given all that a finished deflate has made, inflate produces all that the
     deflate was given.
     */
    constructor OfDeflated(pipe: Deflater)
      requires pipe.finished
      ensures coded == pipe.made && rest == pipe.given && eaten == []
    {
      coded, rest, eaten := pipe.made, pipe.given, [];
    }

    /** All it has been given is the compressed data it was made for, as far as they go. */
    predicate OnTrack(input: seq<byte>)
      reads this
    {
      eaten + input <= coded
    }

    method Inflate(input: seq<byte>, availOut: nat) returns (left: nat, out: seq<byte>, code: InflateCode)
      requires availOut > 0
      modifies this
      ensures old(rest) == out + rest && |out| <= availOut && left <= |input|
      ensures eaten == old(eaten) + input[..|input| - left]
      ensures code == IOk ==> left < |input| || |out| > 0
      ensures code == IBufError ==> input == [] && out == []
      ensures old(OnTrack(input)) ==> code != IDataError && (code == IStreamEnd ==> rest == [])
      ensures old(OnTrack(input)) && code == IBufError ==> eaten != coded || rest == []
    {
      var onTrack := OnTrack(input);
      hide OnTrack;
      var n;
      n, left := Amounts(|rest|, availOut, |input|, eaten == coded);
      code := Answer(left < |input| || n > 0, |input| == 0, onTrack, n == |rest|);
      out, rest := rest[..n], rest[n..];
      eaten := eaten + input[..|input| - left];
    }
  }

  /** How much is put out, and how much of the input is left: all that is there if nothing else is to come. */
  method Amounts(rest: nat, availOut: nat, availIn: nat, complete: bool) returns (n: nat, left: nat)
    requires availOut > 0
    ensures n <= rest && n <= availOut && left <= availIn && (n > 0 || left < availIn || availIn == 0)
    ensures availIn == 0 && complete && rest > 0 ==> n > 0
  {
    ghost var least := if rest > 0 then 1 else 0;
    assert 0 <= least <= rest && least <= availOut;
    n :| 0 <= n <= rest && n <= availOut && (availIn == 0 && complete && rest > 0 ==> n > 0);
    left :| 0 <= left <= availIn && (n > 0 || left < availIn || availIn == 0);
  }

  method Answer(progress: bool, noInput: bool, onTrack: bool, finished: bool) returns (code: InflateCode)
    requires progress || noInput
    ensures Allowed(code, progress, noInput, onTrack, finished)
  {
    assert Allowed(if progress then IOk else IBufError, progress, noInput, onTrack, finished);
    code :| Allowed(code, progress, noInput, onTrack, finished);
  }

  /** What a call may report. */
  predicate Allowed(code: InflateCode, progress: bool, noInput: bool, onTrack: bool, finished: bool) {
    match code
    case IOk => progress
    case IBufError => !progress && noInput
    case IStreamEnd => onTrack ==> finished
    case IDataError => !onTrack
  }

  /** The data of the run of IDAT chunks whose first header is at `at`, put together. */
  ghost function IdatData(file: seq<byte>, at: nat): seq<byte>
    decreases |file| - at
  {
    if at + 8 > |file| || file[at + 4..at + 8] != IDAT then []
    else Following(file, at + 8, ReadU32(file[at..]))
  }

  /** The data that follows, when `left` bytes of the chunk at this position are unread. */
  ghost function Following(file: seq<byte>, position: nat, left: nat): seq<byte>
    requires position <= |file|
    decreases |file| - position
  {
    if position + left > |file| then file[position..]
    else file[position..position + left] + IdatData(file, position + left + 4)
  }

  class IdatReader {
    const src: S.Source
    const pipe: Inflater
    /** zstream->next_in, with avail_in bytes. */
    var input: seq<byte>
    ghost const whole: seq<byte>

    /** Taken in, waiting to be, and not yet read: all in all the IDAT data. */
    ghost predicate Valid()
      reads this, src, pipe
    {
      && src.InChunk()
      && (src.kind == IDAT ==>
            pipe.eaten + input + Following(src.file, src.bytesRead, src.left) == whole)
      && (!src.streaming ==> src.left == 0 || src.left == src.length)
    }

    /** At the header of the first IDAT chunk. */
    constructor (src: S.Source, pipe: Inflater)
      requires src.InChunk() && src.kind == IDAT && src.left == src.length && pipe.eaten == []
      ensures Valid() && this.src == src && this.pipe == pipe && input == []
      ensures whole == Following(src.file, src.bytesRead, src.left)
    {
      this.src, this.pipe, input := src, pipe, [];
      whole := Following(src.file, src.bytesRead, src.left);
      new;
      assert pipe.eaten + input + whole == whole;
    }

    lemma NextHeader(file: seq<byte>, position: nat)
      requires position + 12 <= |file|
      ensures Following(file, position, 0) == IdatData(file, position + 4)
      ensures file[position + 8..position + 12] == IDAT ==>
        Following(file, position, 0) == Following(file, position + 12, ReadU32(file[position + 4..]))
    {
    }

    lemma Advance(file: seq<byte>, position: nat, left: nat, n: nat)
      requires n <= left && position + n <= |file|
      ensures Following(file, position, left) == file[position..position + n] + Following(file, position + n, left - n)
    {
    }

    /** The header of the next chunk, when all of this one has been read. */
    method NextIdat(ghost run: seq<seq<byte>>, ghost post: seq<byte>) returns (status: Status)
      requires Valid() && input == [] && src.kind == IDAT && src.left == 0
      modifies src
      ensures src.Valid() && src.bytesRead >= old(src.bytesRead)
      ensures status == Good ==> Valid() && src.kind == IDAT && src.bytesRead == old(src.bytesRead) + 12
      ensures old(InRun(src, run, post)) && |run| > 1 ==> status == Good && InRun(src, run[1..], post)
    {
      hide Following, IdatData, Critical, Crc, InRun, ReadU32;
      ghost var position, going := src.bytesRead, InRun(src, run, post) && |run| > 1;
      if going {
        RunGoesOn(src, run, post);
      }
      var result := src.ReadHeader();
      if result != S.Good {
        return Failed(result);
      }
      if src.kind != IDAT {
        return EIdatTooShort;
      }
      NextHeader(src.file, position);
      if going {
        InNext(src, run, post);
      }
      return Good;
    }

    /** Part of this chunk in streams, all of it otherwise. */
    method TakeIdat() returns (status: Status)
      requires Valid() && input == [] && src.kind == IDAT && src.left > 0
      modifies src`dataOff, src`lastReadSize, src`bytesLeft, src`streamBuf, src`bytesRead, src`left, src`crc, this`input
      ensures src.Valid() && src.bytesRead >= old(src.bytesRead)
      ensures status == Good ==> Valid() && src.kind == IDAT && |input| > 0 && src.bytesRead > old(src.bytesRead)
      ensures old(src.bytesRead + src.left) <= |src.file| ==> status == Good
    {
      hide Following, IdatData, Critical, Crc;
      var len := src.length;
      if src.streaming {
        len := S.READ_SIZE;
        if len > src.left {
          len := src.left;
        }
      }
      ghost var position, left := src.bytesRead, src.left;
      var cause := src.ReadChunkBytes(len);
      if cause != S.Good {
        return Failed(cause);
      }
      Advance(src.file, position, left, len);
      input := src.Data(len);
      assert pipe.eaten + [] == pipe.eaten;
      return Good;
    }

    /** read_idat_bytes: at least one byte more, past any number of empty chunks. */
    method ReadIdatBytes(ghost run: seq<seq<byte>>, ghost post: seq<byte>)
      returns (status: Status, ghost run': seq<seq<byte>>)
      requires Valid() && input == []
      modifies src, this`input
      ensures src.Valid() && src.bytesRead >= old(src.bytesRead)
      ensures status == Good ==> Valid() && src.kind == IDAT && |input| > 0 && Unread() < old(Unread())
      ensures old(InRun(src, run, post)) && Ends(post) && pipe.eaten != whole ==> status == Good && InRun(src, run', post)
    {
      hide Following, RunHere, Crc, Ends, IdatStream;
      run' := run;
      if src.kind != IDAT {
        return EIdatTooShort, run;
      }
      ghost var going := InRun(src, run, post) && Ends(post) && pipe.eaten != whole;
      while src.left == 0
        invariant Valid() && src.kind == IDAT && input == []
        invariant src.bytesRead >= old(src.bytesRead)
        invariant going ==> InRun(src, run', post)
        decreases |src.file| - src.bytesRead
      {
        hide Valid;
        if going {
          MoreToCome(run', post);
        }
        status := NextIdat(run', post);
        if status != Good {
          return;
        }
        if going {
          run' := run'[1..];
        }
      }
      if going {
        RunNotEmpty(src, run', post);
      }
      status := TakeIdat();
    }

    /** At the end of a chunk, with data still to come, there is another chunk. */
    lemma MoreToCome(run: seq<seq<byte>>, post: seq<byte>)
      requires Valid() && input == [] && src.kind == IDAT && src.left == 0 && InRun(src, run, post) && Ends(post)
      requires pipe.eaten != whole
      ensures |run| > 1
    {
      hide Following, InRun, Crc, Critical;
      RunNotEmpty(src, run, post);
      RunFollows(src, run, post);
      assert pipe.eaten + [] + [] == pipe.eaten;
      NotEmpty(run[1..]);
    }

    /** One call of inflate on what is waiting. */
    method InflateSome(availOut: nat) returns (out: seq<byte>, code: InflateCode)
      requires Valid() && src.kind == IDAT && availOut > 0
      modifies pipe, this`input
      ensures Valid() && |out| <= availOut && old(pipe.rest) == out + pipe.rest
      ensures code == IOk ==> |input| < |old(input)| || |out| > 0
      ensures |input| <= |old(input)|
      ensures code == IBufError ==> input == [] && out == []
      ensures whole == pipe.coded ==> code != IDataError && (code == IStreamEnd ==> pipe.rest == [])
      ensures whole == pipe.coded && code == IBufError ==> pipe.eaten != whole || pipe.rest == []
    {
      hide Following, IdatData, Crc;
      ghost var before, waiting := pipe.eaten, input;
      ghost var following := Following(src.file, src.bytesRead, src.left);
      assert before + waiting <= before + waiting + following == whole;
      var left;
      left, out, code := pipe.Inflate(input, availOut);
      input := input[|input| - left..];
      assert pipe.eaten + input == before + waiting by {
        assert waiting == waiting[..|waiting| - left] + waiting[|waiting| - left..];
      }
      assert code == IBufError ==> pipe.eaten == before;
    }

    /**
     read_scanline_bytes: exactly the next bytes of the image data. From an intact run of chunks
     that hold what inflate was made for, they come whatever inflate consumes per call.
     */
    method ReadScanlineBytes(len: nat, ghost run: seq<seq<byte>>, ghost post: seq<byte>)
      returns (status: Status, dest: seq<byte>, ghost run': seq<seq<byte>>)
      requires Valid() && src.kind == IDAT
      modifies src, pipe, this`input
      ensures status == Good ==> Valid() && src.kind == IDAT && |dest| == len
      ensures old(pipe.rest) == dest + pipe.rest
      ensures old(InRun(src, run, post)) && Ends(post) && whole == pipe.coded && len <= |old(pipe.rest)| ==>
        status == Good && InRun(src, run', post)
    {
      hide Following, IdatData, RunHere, InRun, Crc, Valid, Ends, S.Source.InChunk;
      dest, run' := [], run;
      ghost var going := InRun(src, run, post) && Ends(post) && whole == pipe.coded && len <= |pipe.rest|;
      while |dest| < len
        invariant Valid() && src.kind == IDAT && |dest| <= len
        invariant old(pipe.rest) == dest + pipe.rest
        invariant going ==> InRun(src, run', post)
        decreases len - |dest|, Unread(), |input|
      {
        ghost var before := dest;
        var out, code := InflateSome(len - |dest|);
        dest := dest + out;
        assert old(pipe.rest) == before + (out + pipe.rest);
        if code == IOk {
          continue;
        }
        if code == IStreamEnd {
          if |dest| != len {
            return EIdatTooShort, dest, run';
          }
        } else if code == IBufError {
          status, run' := ReadIdatBytes(run', post);
          if status != Good {
            return;
          }
        } else {
          return EIdatStream, dest, run';
        }
      }
      return Good, dest, run';
    }

    /** How much of the input has not been read. */
    ghost function Unread(): nat
      reads src
    {
      if src.bytesRead <= |src.file| then |src.file| - src.bytesRead else 0
    }
  }

  /** In the first chunk of an intact run of IDAT chunks, behind which comes something else. */
  ghost predicate InRun(src: S.Source, run: seq<seq<byte>>, post: seq<byte>)
    reads src
  {
    src.InChunk() && src.kind == IDAT && RunHere(src, run, post)
  }

  /** The chunk at hand starts a run. */
  ghost predicate RunHere(src: S.Source, run: seq<seq<byte>>, post: seq<byte>)
    reads src`length, src`offset
  {
    && run != [] && Bounded(run) && src.length == |run[0]|
    && src.offset <= |src.file| && src.file[src.offset..] == IdatStream(run) + post
  }

  lemma RunNotEmpty(src: S.Source, run: seq<seq<byte>>, post: seq<byte>)
    requires InRun(src, run, post)
    ensures run != [] && src.bytesRead + src.left + 4 <= |src.file|
  {
    hide Crc, ReadU32, CrcOf;
    RunStarts(run, post);
    hide Bytes, IdatStream;
  }

  /** The first chunk of a run, and the others behind it. */
  lemma RunStarts(run: seq<seq<byte>>, post: seq<byte>)
    requires run != [] && Bounded(run)
    ensures Bounded(run[1..])
    ensures IdatStream(run) + post == Bytes(Chunk(IDAT, run[0])) + (IdatStream(run[1..]) + post)
    ensures |IdatStream(run) + post| >= 12 + |run[0]|
  {
    hide Bytes;
    var c := Chunk(IDAT, run[0]);
    assert Idats(run)[0] == c && Idats(run)[1..] == Idats(run[1..]);
    assert IdatStream(run) == Bytes(c) + IdatStream(run[1..]);
  }

  /** The CRC of the chunk is right, and the rest of the run follows. */
  lemma RunRest(src: S.Source, run: seq<seq<byte>>, post: seq<byte>)
    requires InRun(src, run, post)
    ensures Bounded(run[1..]) && src.offset + 12 + |run[0]| <= |src.file|
    ensures src.file[src.offset + 12 + |run[0]|..] == IdatStream(run[1..]) + post
    ensures src.left == 0 ==> src.Intact()
  {
    hide Crc, ReadU32, IdatStream;
    var c, at := Chunk(IDAT, run[0]), src.offset;
    var rest := IdatStream(run[1..]) + post;
    RunStarts(run, post);
    FirstBytes(c, rest);
    hide Bytes;
    var s := Bytes(c) + rest;
    assert src.file[at..][8..8 + |run[0]|] == src.file[at + 8..at + 8 + |run[0]|];
    assert src.file[at..][8 + |run[0]|..] == src.file[at + 8 + |run[0]|..];
    assert src.file[at..][12 + |run[0]|..] == src.file[at + 12 + |run[0]|..];
  }

  /** What is left when the chunk has been read is the data of the others. */
  lemma RunFollows(src: S.Source, run: seq<seq<byte>>, post: seq<byte>)
    requires InRun(src, run, post) && Ends(post) && src.left == 0
    ensures Following(src.file, src.bytesRead, 0) == Concat(run[1..])
  {
    hide Crc, ReadU32, Concat, IdatData, Stream, Idats;
    RunRest(src, run, post);
    hide InRun;
    var next := src.offset + 12 + |run[0]|;
    RestData(src.file, next, run[1..], post);
    InRunAt(src, run, post);
  }

  lemma InRunAt(src: S.Source, run: seq<seq<byte>>, post: seq<byte>)
    requires InRun(src, run, post) && src.left == 0
    ensures src.bytesRead + 4 == src.offset + 12 + |run[0]|
    ensures src.bytesRead <= |src.file| && Following(src.file, src.bytesRead, 0) == IdatData(src.file, src.bytesRead + 4)
  {
    hide Crc, ReadU32, Concat, IdatData, IdatStream;
  }

  lemma RestData(file: seq<byte>, at: nat, payloads: seq<seq<byte>>, post: seq<byte>)
    requires at <= |file| && Bounded(payloads) && Ends(post) && file[at..] == IdatStream(payloads) + post
    ensures IdatData(file, at) == Concat(payloads)
  {
    hide Concat, IdatData, Stream, Idats;
    var pre := file[..at];
    assert file == pre + (IdatStream(payloads) + post);
    assert file == pre + Stream(Idats(payloads)) + post;
    Segments(pre, payloads, post);
  }

  lemma NotEmpty(pieces: seq<seq<byte>>)
    ensures Concat(pieces) != [] ==> pieces != []
  {
  }

  /** The header that follows is that of the next chunk of the run. */
  lemma RunGoesOn(src: S.Source, run: seq<seq<byte>>, post: seq<byte>)
    requires InRun(src, run, post) && |run| > 1 && src.left == 0
    ensures src.Intact() && src.bytesRead + 12 <= |src.file| && ReadU32(src.file[src.bytesRead + 4..]) <= PNG_MAX
    ensures Bounded(run) && src.file[src.bytesRead + 8..src.bytesRead + 12] == IDAT
    ensures src.file[src.bytesRead + 4..] == IdatStream(run[1..]) + post
  {
    hide Crc, ReadU32, CrcOf, IdatStream;
    RunRest(src, run, post);
    RunStarts(run[1..], post);
    FirstBytes(Chunk(IDAT, run[1]), IdatStream(run[2..]) + post);
    assert run[1..][1..] == run[2..];
    hide Bytes;
    assert src.bytesRead + 4 == src.offset + 12 + |run[0]|;
    assert src.file[src.bytesRead + 4..][4..8] == src.file[src.bytesRead + 8..src.bytesRead + 12];
  }

  lemma InNext(src: S.Source, run: seq<seq<byte>>, post: seq<byte>)
    requires |run| > 1 && Bounded(run) && src.AtStart(src.offset) && src.kind == IDAT
    requires src.file[src.offset..] == IdatStream(run[1..]) + post
    ensures InRun(src, run[1..], post)
  {
    hide Crc, ReadU32, CrcOf, IdatStream, Critical;
    RunStarts(run[1..], post);
    FirstBytes(Chunk(IDAT, run[1]), IdatStream(run[1..][1..]) + post);
  }

  // ---- What was cut comes back whole ----

  lemma {:induction false} ConcatFront(piece: seq<byte>, pieces: seq<seq<byte>>)
    ensures Concat([piece] + pieces) == piece + Concat(pieces)
    decreases |pieces|
  {
    if pieces == [] {
      assert [piece] + pieces == [] + [piece];
      ConcatOneMore([], piece);
      assert piece + Concat([]) == Concat([]) + piece;
    } else {
      var init, last := pieces[..|pieces| - 1], pieces[|pieces| - 1];
      assert [piece] + pieces == ([piece] + init) + [last];
      ConcatOneMore([piece] + init, last);
      ConcatFront(piece, init);
      assert pieces == init + [last];
      ConcatOneMore(init, last);
    }
  }

  /** What follows the image data does not start like another IDAT chunk. */
  predicate Ends(post: seq<byte>) {
    |post| < 8 || post[4..8] != IDAT
  }

  lemma FirstIdat(pre: seq<byte>, payload: seq<byte>, rest: seq<byte>)
    requires |payload| <= PNG_MAX
    ensures var file := pre + (Bytes(Chunk(IDAT, payload)) + rest);
      IdatData(file, |pre|) == payload + IdatData(file, |pre| + 12 + |payload|)
  {
    hide Bytes, ReadU32, IdatData, Following, CrcOf;
    FirstBytes(Chunk(IDAT, payload), rest);
    FirstIdatIn(pre, Bytes(Chunk(IDAT, payload)) + rest, payload);
  }

  lemma FirstIdatIn(pre: seq<byte>, s: seq<byte>, payload: seq<byte>)
    requires |s| >= 12 + |payload| && ReadU32(s) == |payload| && s[4..8] == IDAT && s[8..8 + |payload|] == payload
    ensures IdatData(pre + s, |pre|) == payload + IdatData(pre + s, |pre| + 12 + |payload|)
  {
    hide ReadU32, IdatData, Following;
    Shift(pre, s, 4, 8);
    Shift(pre, s, 8, 8 + |payload|);
    assert (pre + s)[|pre|..] == s;
    IdatStep(pre + s, |pre|, |payload|);
  }

  lemma Shift(pre: seq<byte>, s: seq<byte>, a: nat, b: nat)
    requires a <= b <= |s|
    ensures (pre + s)[|pre| + a..|pre| + b] == s[a..b]
  {
  }

  lemma IdatStep(file: seq<byte>, at: nat, n: nat)
    requires at + 12 + n <= |file| && file[at + 4..at + 8] == IDAT && ReadU32(file[at..]) == n
    ensures IdatData(file, at) == file[at + 8..at + 8 + n] + IdatData(file, at + 12 + n)
  {
    hide ReadU32;
  }

  lemma {:induction false} Segments(pre: seq<byte>, payloads: seq<seq<byte>>, post: seq<byte>)
    requires forall i :: 0 <= i < |payloads| ==> |payloads[i]| <= PNG_MAX
    requires Ends(post)
    ensures IdatData(pre + Stream(Idats(payloads)) + post, |pre|) == Concat(payloads)
    decreases |payloads|
  {
    hide Bytes, ReadU32, Concat;
    if payloads == [] {
      EmptyConcat();
      var file := pre + [] + post;
      assert |file| >= |pre| + 8 ==> file[|pre| + 4..|pre| + 8] == post[4..8];
    } else {
      var c, rest := Chunk(IDAT, payloads[0]), payloads[1..];
      assert Idats(payloads)[0] == c && Idats(payloads)[1..] == Idats(rest);
      var file := pre + Stream(Idats(payloads)) + post;
      assert file == pre + (Bytes(c) + (Stream(Idats(rest)) + post));
      assert file == (pre + Bytes(c)) + Stream(Idats(rest)) + post;
      FirstIdat(pre, payloads[0], Stream(Idats(rest)) + post);
      Segments(pre + Bytes(c), rest, post);
      ConcatFront(payloads[0], rest);
      assert payloads == [payloads[0]] + rest;
    }
  }

  lemma EmptyConcat()
    ensures Concat([]) == []
  {
  }

  /**
   However two encoders cut the same compressed stream into chunks, empty ones included, a
   decoder gives inflate the same bytes.
   */
  lemma SegmentationIsInvisible(pre: seq<byte>, a: seq<seq<byte>>, b: seq<seq<byte>>, post: seq<byte>)
    requires forall i :: 0 <= i < |a| ==> |a[i]| <= PNG_MAX
    requires forall i :: 0 <= i < |b| ==> |b[i]| <= PNG_MAX
    requires Concat(a) == Concat(b) && Ends(post)
    ensures IdatData(pre + Stream(Idats(a)) + post, |pre|) == Concat(a)
    ensures IdatData(pre + Stream(Idats(a)) + post, |pre|) == IdatData(pre + Stream(Idats(b)) + post, |pre|)
  {
    Segments(pre, a, post);
    Segments(pre, b, post);
  }
}
