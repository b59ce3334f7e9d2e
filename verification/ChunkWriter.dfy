/**
 Writing chunks: in place into an output buffer that grows, or through a stream buffer
 that is handed to a callback in bounded pieces. Either way the same bytes come out.
 */
module ChunkWriter {
  import opened Octets
  import opened Chunks

  const WRITE_SIZE := 8192
  const MAX_REQUIRED := 0x8000_0000_0000_0000

  datatype Status = Ok | EInternal | ENoDst

  /** The part of spng_ctx that encodes. The callback is taken to accept what it is given. */
  class Writer {
    const streaming: bool
    const internalBuffer: bool
    var streamBuf: array<byte>
    var streamBufSize: nat
    var outPng: array<byte>
    /** Offset into outPng. */
    var writePtr: nat
    var bytesEncoded: nat
    /** The current chunk; its length and CRC are those of the header until it is finished. */
    var kind: seq<byte>
    var length: nat
    var crc: word
    /** What the callback was given, and in pieces of what size. */
    var sent: seq<byte>
    ghost var pieces: seq<nat>

    ghost predicate Valid()
      reads this
    {
      && streamBuf != outPng
      && (if streaming then |sent| == bytesEncoded && streamBufSize <= streamBuf.Length
          else writePtr == bytesEncoded <= outPng.Length)
      && (forall i :: 0 <= i < |pieces| ==> 0 < pieces[i] <= WRITE_SIZE)
    }

    /** The file so far. */
    function Output(): (s: seq<byte>)
      requires Valid()
      reads this, outPng
      ensures |s| == bytesEncoded
    {
      if streaming then sent else outPng[..bytesEncoded]
    }

    /** Where the chunk under construction is: the buffer, and its offset. */
    function Buf(): array<byte>
      reads this
    {
      if streaming then streamBuf else outPng
    }

    function Base(): nat
      reads this
    {
      if streaming then 0 else writePtr
    }

    ghost predicate Room(bytes: nat)
      reads this
    {
      Base() + bytes <= Buf().Length
    }

    /** A header has been written and there is room for the data and the CRC. */
    ghost predicate Open()
      reads this
    {
      Valid() && |kind| == 4 && length <= PNG_MAX && crc == Crc(0, kind) && Room(length + 12)
    }

    /** The data of the chunk under construction. */
    ghost function Data(): (s: seq<byte>)
      requires Open()
      reads this, Buf()
      ensures |s| == length
    {
      Buf()[Base() + 8..Base() + 8 + length]
    }

    constructor (streaming: bool, internalBuffer: bool)
      ensures Valid() && Output() == [] && this.streaming == streaming && this.internalBuffer == internalBuffer
      ensures fresh(streamBuf) && fresh(outPng)
    {
      this.streaming, this.internalBuffer := streaming, internalBuffer;
      streamBuf, outPng := new byte[0], new byte[0];
      streamBufSize, writePtr, bytesEncoded := 0, 0, 0;
      kind, length, crc := [], 0, 0;
      sent, pieces := [], [];
    }

    /** The power of two steps never pass 2^64, as long as no more than 2^63 bytes are required. */
    static method Grow(size: nat, required: nat) returns (newSize: nat)
      requires size < required <= MAX_REQUIRED
      ensures required <= newSize < 2 * MAX_REQUIRED && newSize >= size
    {
      newSize := size;
      if newSize < WRITE_SIZE * 2 {
        newSize := WRITE_SIZE * 2;
      }
      while newSize < required
        invariant size <= newSize && (newSize <= WRITE_SIZE * 2 || newSize < 2 * required)
        decreases required - newSize
      {
        newSize := newSize * 2;
      }
    }

    static method Realloc(a: array<byte>, newSize: nat) returns (b: array<byte>)
      ensures fresh(b) && b.Length == newSize
      ensures forall i :: 0 <= i < a.Length && i < newSize ==> b[i] == a[i]
    {
      b := new byte[newSize];
      forall i | 0 <= i < a.Length && i < newSize {
        b[i] := a[i];
      }
    }

    /** require_bytes: what was written stays, wherever it is moved to. */
    method RequireBytes(bytes: nat) returns (status: Status)
      requires Valid() && bytesEncoded + bytes <= MAX_REQUIRED
      modifies this`streamBuf, this`streamBufSize, this`outPng, this`writePtr
      ensures Valid() && Output() == old(Output())
      ensures status == if streaming || internalBuffer then Ok else ENoDst
      ensures status == Ok ==> Room(bytes)
      ensures !streaming ==> streamBuf == old(streamBuf) && streamBufSize == old(streamBufSize)
      ensures streamBuf != old(streamBuf) ==> fresh(streamBuf)
      ensures outPng != old(outPng) ==> fresh(outPng)
    {
      if streaming {
        if bytes > streamBufSize {
          var newSize := streamBufSize;
          if newSize < WRITE_SIZE + 12 {
            newSize := WRITE_SIZE + 12;
          }
          if newSize < bytes {
            newSize := bytes;
          }
          streamBuf := Realloc(streamBuf, newSize);
          streamBufSize := bytes;
          writePtr := 0;
        }
        return Ok;
      }
      if !internalBuffer {
        return ENoDst;
      }
      var required := bytesEncoded + bytes;
      if required > outPng.Length {
        var newSize := Grow(outPng.Length, required);
        outPng := Realloc(outPng, newSize);
        writePtr := bytesEncoded;
      }
      return Ok;
    }

    /** write_data */
    method WriteData(data: seq<byte>) returns (status: Status)
      requires Valid() && bytesEncoded + |data| <= MAX_REQUIRED
      modifies this, outPng
      ensures Valid()
      ensures kind == old(kind) && length == old(length) && crc == old(crc)
      ensures status == Ok ==> Output() == old(Output()) + data
      ensures status != Ok ==> Output() == old(Output())
      ensures status == if data == [] then Ok
                        else if streaming then (if |data| > WRITE_SIZE then EInternal else Ok)
                        else if internalBuffer then Ok else ENoDst
      ensures outPng != old(outPng) ==> fresh(outPng)
      ensures streamBuf == old(streamBuf) && streamBufSize == old(streamBufSize)
      ensures streaming ==> outPng == old(outPng)
    {
      if data == [] {
        return Ok;
      }
      if streaming {
        if |data| > WRITE_SIZE {
          return EInternal;
        }
        sent := sent + data;
        pieces := pieces + [|data|];
      } else {
        status := RequireBytes(|data|);
        if status != Ok {
          return;
        }
        ghost var before := Output();
        Put(outPng, writePtr, data);
        writePtr := writePtr + |data|;
        assert outPng[..bytesEncoded + |data|] == before + data;
      }
      bytesEncoded := bytesEncoded + |data|;
      return Ok;
    }

    /** memcpy */
    static method Put(a: array<byte>, at: nat, data: seq<byte>)
      requires at + |data| <= a.Length
      modifies a
      ensures a[..at] == old(a[..at]) && a[at..at + |data|] == data && a[at + |data|..] == old(a[at + |data|..])
    {
      forall i | 0 <= i < |data| {
        a[at + i] := data[i];
      }
    }

    /** write_header: the data goes 8 bytes into the buffer; the header itself comes last. */
    method WriteHeader(chunkType: seq<byte>, chunkLength: nat) returns (status: Status)
      requires Valid() && |chunkType| == 4
      requires bytesEncoded + chunkLength + 12 <= MAX_REQUIRED
      modifies this
      ensures Valid() && Output() == old(Output()) && bytesEncoded == old(bytesEncoded)
      ensures status == if chunkLength > PNG_MAX then EInternal
                        else if streaming || internalBuffer then Ok else ENoDst
      ensures status == Ok ==> Open() && kind == chunkType && length == chunkLength
      ensures streamBuf != old(streamBuf) ==> fresh(streamBuf)
      ensures outPng != old(outPng) ==> fresh(outPng)
    {
      hide Crc;
      if chunkLength > PNG_MAX {
        return EInternal;
      }
      status := RequireBytes(chunkLength + 12);
      if status != Ok {
        return;
      }
      var start := Crc(0, []);
      crc := Crc(start, chunkType);
      kind := chunkType;
      length := chunkLength;
      CrcOfNothing();
    }

    /** trim_chunk */
    method TrimChunk(newLength: nat) returns (status: Status)
      requires Open()
      modifies this`length
      ensures status == if newLength > length then EInternal else Ok
      ensures Open() && length == if status == Ok then newLength else old(length)
      ensures status == Ok ==> newLength <= old(length) && Data() == old(Data())[..newLength]
    {
      hide Crc;
      if newLength > PNG_MAX || newLength > length {
        return EInternal;
      }
      length := newLength;
      return Ok;
    }

    /** The header before the data and the CRC behind it, in place. */
    static method Seal(buf: array<byte>, base: nat, kind: seq<byte>, length: nat, crc: word)
      requires |kind| == 4 && length <= PNG_MAX && base + length + 12 <= buf.Length && crc == Crc(0, kind)
      modifies buf
      ensures buf[..base] == old(buf[..base])
      ensures buf[base..base + length + 12] == Bytes(Chunk(kind, old(buf[base + 8..base + 8 + length])))
    {
      hide Crc, U32;
      ghost var data := buf[base + 8..base + 8 + length];
      Put(buf, base, U32(length) + kind);
      assert buf[base + 8..base + 8 + length] == data;
      var sum := Crc(crc, buf[base + 8..base + 8 + length]);
      CrcAppend(0, kind, data);
      ghost var front := buf[..base + 8 + length];
      Put(buf, base + 8 + length, U32(sum));
      assert buf[..base] == front[..base];
      assert buf[base..base + 8 + length] == front[base..];
      assert front[base..] == U32(length) + kind + data;
      assert buf[base..base + length + 12] == buf[base..base + 8 + length] + buf[base + 8 + length..base + 12 + length];
    }

    /** The loop of finish_chunk that hands the stream buffer to the callback. */
    method SendPieces(total: nat)
      requires Valid() && streaming && total <= streamBuf.Length && bytesEncoded + total <= MAX_REQUIRED
      modifies this, outPng
      ensures Valid() && Output() == old(Output()) + old(streamBuf[..total])
      ensures streamBuf == old(streamBuf) && outPng == old(outPng)
      ensures kind == old(kind) && length == old(length)
    {
      var ptr: nat, len: nat, bytesLeft: nat := 0, 0, total;
      while bytesLeft > 0
        invariant Valid() && ptr + len + bytesLeft == total <= streamBuf.Length
        invariant bytesEncoded == old(bytesEncoded) + ptr + len
        invariant streamBuf == old(streamBuf) && outPng == old(outPng)
        invariant kind == old(kind) && length == old(length)
        invariant Output() == old(Output()) + streamBuf[..ptr + len]
        invariant streamBuf[..total] == old(streamBuf[..total])
      {
        ptr := ptr + len;
        len := WRITE_SIZE;
        if len > bytesLeft {
          len := bytesLeft;
        }
        ghost var before := Output();
        var status := WriteData(streamBuf[ptr..ptr + len]);
        assert streamBuf[..ptr + len] == streamBuf[..ptr] + streamBuf[ptr..ptr + len];
        bytesLeft := bytesLeft - len;
      }
    }

    /** finish_chunk */
    method FinishChunk()
      requires Open() && bytesEncoded + length + 12 <= MAX_REQUIRED
      modifies this, Buf(), outPng
      ensures Valid() && kind == old(kind) && streamBuf == old(streamBuf) && outPng == old(outPng)
      ensures Output() == old(Output()) + Bytes(Chunk(old(kind), old(Data())))
    {
      hide Crc, Bytes;
      ghost var before, chunk := Output(), Chunk(kind, Data());
      Seal(Buf(), Base(), kind, length, crc);
      crc := Crc(crc, Buf()[Base() + 8..Base() + 8 + length]);
      if streaming {
        assert streamBuf[0..length + 12] == streamBuf[..length + 12];
        SendPieces(length + 12);
      } else {
        bytesEncoded := bytesEncoded + length + 12;
        assert outPng[..bytesEncoded] == outPng[..writePtr] + outPng[writePtr..bytesEncoded];
        writePtr := writePtr + length + 12;
      }
    }

    /** The caller's copy of the data into the place write_header gave it. */
    method PutData(data: seq<byte>)
      requires Open() && |data| == length
      modifies Buf()
      ensures Open() && Data() == data && Output() == old(Output())
    {
      hide Crc;
      ghost var before := Output();
      Put(Buf(), Base() + 8, data);
      assert Output() == before;
    }

    /** A piece of the data, behind what is there already. */
    method PutAt(at: nat, piece: seq<byte>)
      requires Open() && at + |piece| <= length
      modifies Buf()
      ensures Open() && Output() == old(Output())
      ensures Data()[..at + |piece|] == old(Data()[..at]) + piece
    {
      hide Crc;
      var from := Base() + 8;
      ghost var output, data := Output(), Data()[..at];
      Put(Buf(), from + at, piece);
      assert Output() == output;
      ghost var now := Buf()[..];
      assert now[from..from + at] == data && now[from + at..from + at + |piece|] == piece;
      DataSlice(now, from, at, length, piece, data);
    }

    static lemma DataSlice(buf: seq<byte>, from: nat, at: nat, length: nat, piece: seq<byte>, data: seq<byte>)
      requires from + length <= |buf| && at + |piece| <= length
      requires buf[from..from + at] == data && buf[from + at..from + at + |piece|] == piece
      ensures buf[from..from + length][..at + |piece|] == data + piece
    {
    }

    /** write_chunk */
    method WriteChunk(chunkType: seq<byte>, data: seq<byte>) returns (status: Status)
      requires Valid() && |chunkType| == 4
      requires bytesEncoded + |data| + 12 <= MAX_REQUIRED
      modifies this, streamBuf, outPng
      ensures Valid()
      ensures status == if |data| > PNG_MAX then EInternal
                        else if streaming || internalBuffer then Ok else ENoDst
      ensures status == Ok ==> Output() == old(Output()) + Bytes(Chunk(chunkType, data))
      ensures status != Ok ==> Output() == old(Output())
      ensures streamBuf != old(streamBuf) ==> fresh(streamBuf)
      ensures outPng != old(outPng) ==> fresh(outPng)
    {
      hide Crc, Bytes;
      status := WriteHeader(chunkType, |data|);
      if status != Ok {
        return;
      }
      PutData(data);
      FinishChunk();
    }
  }
}
