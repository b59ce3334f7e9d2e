/**
 Cutting the deflate output into IDAT chunks while it is produced, without buffering it
 anywhere but in the chunk under construction.
 */
module IdatWriter {
  import opened Octets
  import opened Chunks
  import W = ChunkWriter

  datatype Code = ZOk | ZStreamEnd

  /**
   zlib's deflate as a pipe: `given` is all it has taken in, `made` all it has put out, and
   `rest` what it has still to produce. How much of either one call takes or makes is up to
   zlib, but a call stops only for lack of input or of room.
   */
  class Deflater {
    var given: seq<byte>
    var made: seq<byte>
    var rest: seq<byte>
    var finished: bool

    constructor (output: seq<byte>)
      ensures given == [] && made == [] && rest == output && !finished
    {
      given, made, rest, finished := [], [], output, false;
    }

    method Deflate(input: seq<byte>, availOut: nat, finish: bool) returns (left: nat, out: seq<byte>, code: Code)
      requires availOut > 0
      modifies this
      ensures old(rest) == out + rest && |out| <= availOut && left <= |input|
      ensures given == old(given) + input[..|input| - left] && made == old(made) + out
      ensures !finish ==> code == ZOk && (left == 0 || |out| == availOut)
      ensures finish ==> (code == ZStreamEnd <==> rest == [] && left == 0) && (code != ZStreamEnd ==> |out| == availOut)
      ensures finished == (code == ZStreamEnd)
    {
      var n :| 0 <= n <= |rest| && n <= availOut && (finish ==> n == |rest| || n == availOut);
      out, made, rest := rest[..n], made + rest[..n], rest[n..];
      left :| 0 <= left <= |input| && (n == availOut || left == 0);
      given := given + input[..|input| - left];
      code := if finish && rest == [] && left == 0 then ZStreamEnd else ZOk;
      finished := code == ZStreamEnd;
    }
  }

  function Concat(pieces: seq<seq<byte>>): seq<byte> {
    if pieces == [] then [] else Concat(pieces[..|pieces| - 1]) + pieces[|pieces| - 1]
  }

  lemma ConcatOneMore(pieces: seq<seq<byte>>, piece: seq<byte>)
    ensures Concat(pieces + [piece]) == Concat(pieces) + piece
  {
    assert (pieces + [piece])[..|pieces|] == pieces;
  }

  /** One IDAT chunk for each payload. */
  function Idats(payloads: seq<seq<byte>>): (chunks: seq<Chunk>)
    ensures |chunks| == |payloads|
    ensures forall i :: 0 <= i < |chunks| ==> chunks[i] == Chunk(IDAT, payloads[i])
  {
    seq(|payloads|, i requires 0 <= i < |payloads| => Chunk(IDAT, payloads[i]))
  }

  ghost predicate Bounded(payloads: seq<seq<byte>>) {
    forall i :: 0 <= i < |payloads| ==> |payloads[i]| <= W.WRITE_SIZE
  }

  ghost predicate Full(payloads: seq<seq<byte>>) {
    forall i :: 0 <= i < |payloads| ==> |payloads[i]| == W.WRITE_SIZE
  }

  function IdatStream(payloads: seq<seq<byte>>): seq<byte>
    requires Bounded(payloads)
  {
    Stream(Idats(payloads))
  }

  lemma StreamOneMore(payloads: seq<seq<byte>>, payload: seq<byte>)
    requires Bounded(payloads) && |payload| <= W.WRITE_SIZE
    ensures Bounded(payloads + [payload])
    ensures IdatStream(payloads + [payload]) == IdatStream(payloads) + Bytes(Chunk(IDAT, payload))
  {
    hide Bytes;
    assert Idats(payloads + [payload]) == Idats(payloads) + [Chunk(IDAT, payload)];
    var one := [Chunk(IDAT, payload)];
    StreamAppend(Idats(payloads), one);
    assert one[1..] == [];
    assert Stream(one) == Bytes(one[0]) + Stream(one[1..]);
  }

  lemma NothingDone()
    ensures Bounded([]) && Concat([]) == [] && IdatStream([]) == []
  {
  }

  /** The data of full chunks, and what the chunks take of the file. */
  lemma {:induction false} Sizes(payloads: seq<seq<byte>>)
    requires Bounded(payloads)
    ensures |IdatStream(payloads)| == |Concat(payloads)| + 12 * |payloads|
    ensures Full(payloads) ==> |Concat(payloads)| == W.WRITE_SIZE * |payloads|
    decreases |payloads|
  {
    hide Bytes;
    NothingDone();
    if payloads != [] {
      var init, last := payloads[..|payloads| - 1], payloads[|payloads| - 1];
      Sizes(init);
      StreamOneMore(init, last);
      ConcatOneMore(init, last);
      assert init + [last] == payloads;
    }
  }

  /** With all but the last full, the chunks take little more than their data. */
  lemma FileSize(payloads: seq<seq<byte>>)
    requires Bounded(payloads) && payloads != [] && Full(payloads[..|payloads| - 1])
    ensures |IdatStream(payloads)| <= 2 * |Concat(payloads)| + 12
  {
    hide IdatStream, Concat, Full;
    var init, last := payloads[..|payloads| - 1], payloads[|payloads| - 1];
    Sizes(init);
    Sizes(payloads);
    ConcatOneMore(init, last);
    assert init + [last] == payloads;
  }

  /** The encoder between its first IDAT header and the last IDAT chunk. */
  class IdatWriter {
    const writer: W.Writer
    const pipe: Deflater
    /** Room left in the chunk under construction. */
    var availOut: nat
    ghost const start: seq<byte>
    ghost const total: seq<byte>
    ghost var done: seq<seq<byte>>

    ghost function Filled(): int
      reads this
    {
      W.WRITE_SIZE - availOut
    }

    /** Enough below 2^63 for what is still to come. */
    ghost predicate Fits()
      reads this, pipe, writer
    {
      writer.bytesEncoded + 2 * (Filled() + |pipe.rest|) + 32768 <= W.MAX_REQUIRED
    }

    /** What was produced is in the finished chunks and the one under construction. */
    ghost predicate Kept()
      reads this, pipe, writer, writer.outPng, writer.Buf()
    {
      && writer.Open() && writer.kind == IDAT && writer.length == W.WRITE_SIZE
      && availOut <= W.WRITE_SIZE && Fits()
      && (writer.streaming || writer.internalBuffer)
      && Bounded(done) && Full(done) && writer.Output() == start + IdatStream(done)
      && Concat(done) + writer.Data()[..Filled()] + pipe.rest == total
    }

    ghost predicate Valid()
      reads this, pipe, writer, writer.outPng, writer.Buf()
    {
      Kept() && availOut > 0
    }

    /** The first header, before any row is encoded. */
    constructor (writer: W.Writer, pipe: Deflater)
      requires writer.Valid() && (writer.streaming || writer.internalBuffer)
      requires writer.bytesEncoded + 2 * |pipe.rest| + 32768 <= W.MAX_REQUIRED
      modifies writer
      ensures Valid() && this.writer == writer && this.pipe == pipe
      ensures start == old(writer.Output()) && total == old(pipe.rest)
      ensures writer.streamBuf != old(writer.streamBuf) ==> fresh(writer.streamBuf)
      ensures writer.outPng != old(writer.outPng) ==> fresh(writer.outPng)
    {
      this.writer, this.pipe := writer, pipe;
      availOut := W.WRITE_SIZE;
      done := [];
      start, total := writer.Output(), pipe.rest;
      new;
      Begin();
    }

    method Begin()
      requires writer.Valid() && (writer.streaming || writer.internalBuffer) && Fits()
      requires availOut == W.WRITE_SIZE && done == []
      requires start == writer.Output() && total == pipe.rest
      modifies writer
      ensures Valid()
      ensures writer.streamBuf != old(writer.streamBuf) ==> fresh(writer.streamBuf)
      ensures writer.outPng != old(writer.outPng) ==> fresh(writer.outPng)
    {
      hide Crc, Bytes, Concat, IdatStream, Stream;
      NothingDone();
      var status := writer.WriteHeader(IDAT, W.WRITE_SIZE);
      assert writer.Data()[..0] == [];
      assert Concat(done) + writer.Data()[..0] + pipe.rest == total;
    }

    /** One call of deflate, writing at next_out. */
    method Pump(input: seq<byte>, finish: bool) returns (left: nat, code: Code)
      requires Valid()
      modifies this`availOut, pipe, writer.Buf()
      ensures Kept() && left <= |input| && pipe.given == old(pipe.given) + input[..|input| - left]
      ensures pipe.made + pipe.rest == old(pipe.made + pipe.rest) && pipe.finished == (code == ZStreamEnd)
      ensures |pipe.rest| <= old(|pipe.rest|) && (availOut == 0 ==> |pipe.rest| < old(|pipe.rest|))
      ensures !finish ==> left == 0 || availOut == 0
      ensures finish && input == [] ==> (code == ZStreamEnd <==> pipe.rest == []) && (pipe.rest != [] ==> availOut == 0)
    {
      hide Crc, Bytes, Concat, IdatStream, Stream, Bounded, Full, W.Writer.Open;
      var out;
      left, out, code := pipe.Deflate(input, availOut, finish);
      Pour(out);
    }

    /** Output that has been produced and is not yet in the chunk. */
    ghost predicate Pending(out: seq<byte>)
      reads this, pipe, writer, writer.outPng, writer.Buf()
    {
      && writer.Open() && writer.kind == IDAT && writer.length == W.WRITE_SIZE
      && |out| <= availOut <= W.WRITE_SIZE
      && writer.bytesEncoded + 2 * (Filled() + |out| + |pipe.rest|) + 32768 <= W.MAX_REQUIRED
      && (writer.streaming || writer.internalBuffer)
      && Bounded(done) && Full(done) && writer.Output() == start + IdatStream(done)
      && Concat(done) + writer.Data()[..Filled()] + (out + pipe.rest) == total
    }

    /** It is written at next_out. */
    method Pour(out: seq<byte>)
      requires Pending(out)
      modifies this`availOut, writer.Buf()
      ensures Kept() && availOut == old(availOut) - |out|
    {
      hide Crc, Bytes, Concat, IdatStream, Stream, Bounded, Full;
      writer.PutAt(W.WRITE_SIZE - availOut, out);
      availOut := availOut - |out|;
    }

    /** A full chunk is finished and the next one begun. */
    method NextChunk()
      requires Kept() && availOut == 0
      modifies this`availOut, this`done, writer, writer.Buf(), writer.outPng
      ensures Valid()
      ensures writer.streamBuf != old(writer.streamBuf) ==> fresh(writer.streamBuf)
      ensures writer.outPng != old(writer.outPng) ==> fresh(writer.outPng)
    {
      hide Crc, Bytes, Concat, IdatStream, Stream;
      ghost var payload := writer.Data();
      assert writer.Data()[..Filled()] == payload;
      StreamOneMore(done, payload);
      ConcatOneMore(done, payload);
      writer.FinishChunk();
      done := done + [payload];
      var status := writer.WriteHeader(IDAT, W.WRITE_SIZE);
      availOut := W.WRITE_SIZE;
      assert writer.Data()[..0] == [];
      assert Concat(done) + writer.Data()[..0] + pipe.rest == total;
    }

    /** write_idat_bytes: all of the scanline is taken in, however little one call takes. */
    method WriteIdatBytes(scanline: seq<byte>)
      requires Valid()
      modifies this`availOut, this`done, pipe, writer, writer.Buf(), writer.outPng
      ensures Valid() && pipe.given == old(pipe.given) + scanline
      ensures pipe.made + pipe.rest == old(pipe.made + pipe.rest)
      ensures writer.streamBuf != old(writer.streamBuf) ==> fresh(writer.streamBuf)
      ensures writer.outPng != old(writer.outPng) ==> fresh(writer.outPng)
    {
      hide Kept;
      var waiting := scanline;
      var again := true;
      while again
        invariant Valid() && pipe.given + waiting == old(pipe.given) + scanline && (again || waiting == [])
        invariant pipe.made + pipe.rest == old(pipe.made + pipe.rest)
        invariant writer.streamBuf != old(writer.streamBuf) ==> fresh(writer.streamBuf)
        invariant writer.outPng != old(writer.outPng) ==> fresh(writer.outPng)
        decreases again, |pipe.rest|, |waiting|
      {
        ghost var given, before := pipe.given, waiting;
        var left, code := Pump(waiting, false);
        waiting := waiting[|waiting| - left..];
        assert before == before[..|before| - left] + waiting;
        assert pipe.given + waiting == given + before;
        if availOut == 0 {
          NextChunk();
        }
        again := |waiting| > 0;
      }
    }

    /**
     finish_idat. In the end the file holds a run of IDAT chunks, every one but the last full,
     and their payloads put together are the deflate output.
     */
    method FinishIdat() returns (ghost payloads: seq<seq<byte>>)
      requires Valid()
      modifies this`availOut, this`done, pipe, writer, writer.Buf(), writer.outPng
      ensures Bounded(payloads) && Concat(payloads) == total
      ensures pipe.finished && pipe.given == old(pipe.given) && pipe.made == old(pipe.made + pipe.rest) && pipe.rest == []
      ensures writer.Valid() && writer.Output() == start + IdatStream(payloads)
      ensures payloads != [] && Full(payloads[..|payloads| - 1])
      ensures |payloads[|payloads| - 1]| <= 8192 && forall i :: 0 <= i < |payloads| - 1 ==> |payloads[i]| == 8192
      ensures writer.streamBuf != old(writer.streamBuf) ==> fresh(writer.streamBuf)
      ensures writer.outPng != old(writer.outPng) ==> fresh(writer.outPng)
    {
      hide Kept, Bounded, Full, Concat, IdatStream;
      while true
        invariant Valid() && pipe.given == old(pipe.given) && pipe.made + pipe.rest == old(pipe.made + pipe.rest)
        invariant writer.streamBuf != old(writer.streamBuf) ==> fresh(writer.streamBuf)
        invariant writer.outPng != old(writer.outPng) ==> fresh(writer.outPng)
        decreases |pipe.rest|
      {
        var left, code := Pump([], true);
        if code == ZStreamEnd {
          break;
        }
        if availOut == 0 {
          NextChunk();
        }
      }
      payloads := Close();
      InBytes(payloads);
    }

    static lemma InBytes(payloads: seq<seq<byte>>)
      requires Bounded(payloads) && payloads != [] && Full(payloads[..|payloads| - 1])
      ensures |payloads[|payloads| - 1]| <= 8192 && forall i :: 0 <= i < |payloads| - 1 ==> |payloads[i]| == 8192
    {
      var init := payloads[..|payloads| - 1];
      assert forall i :: 0 <= i < |payloads| - 1 ==> payloads[i] == init[i];
    }

    /** trim_chunk and finish_chunk of what is left. */
    method Close() returns (ghost payloads: seq<seq<byte>>)
      requires Kept() && pipe.rest == []
      modifies writer, writer.Buf(), writer.outPng
      ensures Bounded(payloads) && Concat(payloads) == total
      ensures writer.Valid() && writer.Output() == start + IdatStream(payloads)
      ensures payloads != [] && Full(payloads[..|payloads| - 1])
      ensures writer.streamBuf == old(writer.streamBuf) && writer.outPng == old(writer.outPng)
    {
      hide Crc, Bytes, Concat, IdatStream, Stream;
      var status := writer.TrimChunk(W.WRITE_SIZE - availOut);
      ghost var payload := writer.Data();
      payloads := done + [payload];
      StreamOneMore(done, payload);
      ConcatOneMore(done, payload);
      assert payloads[..|payloads| - 1] == done;
      assert Concat(done) + payload + [] == total;
      writer.FinishChunk();
    }
  }
}
