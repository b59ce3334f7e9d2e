/**
 Reading a PNG datastream, from a buffer or through a callback: the position in the input,
 the header of the current chunk, and its CRC as far as it has been read.
 */
module ChunkSource {
  import opened Octets
  import opened Chunks

  const READ_SIZE := 8192

  datatype Action = CrcError | CrcDiscard | CrcUse
  datatype Status = Good | Eof | EInternal | EStdLen | EChunkCrc | Discard

  /** The part of spng_ctx that reads. */
  class Source {
    const streaming: bool
    const file: seq<byte>
    const critical: Action
    const ancillary: Action

    /** Buffer reads: where ctx->data points, and how far the last read reached. */
    var dataOff: nat
    var lastReadSize: nat
    var bytesLeft: nat
    /** Streamed reads land here. */
    var streamBuf: seq<byte>
    var bytesRead: nat

    /** The current chunk: where its header is, its length and type. */
    var offset: nat
    var length: nat
    var kind: seq<byte>
    var left: nat
    var crc: word
    var skipCrc: bool
    var discard: bool

    ghost predicate Valid()
      reads this
    {
      && bytesRead <= |file|
      && (if streaming then |streamBuf| == READ_SIZE
          else dataOff + lastReadSize + bytesLeft == |file| && bytesRead == |file| - bytesLeft)
    }

    /** The bytes at ctx->data. */
    function Data(n: nat): seq<byte>
      requires if streaming then n <= |streamBuf| else dataOff + n <= |file|
      reads this
    {
      if streaming then streamBuf[..n] else file[dataOff..dataOff + n]
    }

    /** Inside a chunk, with the CRC taken over the type and what has been read of the data. */
    ghost predicate InChunk()
      reads this
    {
      && Valid() && |kind| == 4 && left <= length <= PNG_MAX
      && bytesRead == offset + 8 + (length - left)
      && (!skipCrc ==> crc == Crc(0, kind + file[offset + 8..bytesRead]))
    }

    lemma Position()
      requires InChunk()
      ensures bytesRead <= |file| && left <= length
    {
    }

    /** How much of the input has been passed. */
    ghost function Rest(): nat
      requires Valid()
      reads this
    {
      |file| - bytesRead
    }

    constructor (streaming: bool, file: seq<byte>, critical: Action, ancillary: Action)
      ensures Valid() && bytesRead == 0 && left == 0 && !skipCrc && !discard
      ensures this.streaming == streaming && this.file == file && this.critical == critical && this.ancillary == ancillary
    {
      this.streaming, this.file, this.critical, this.ancillary := streaming, file, critical, ancillary;
      dataOff, lastReadSize, bytesLeft := 0, 0, |file|;
      streamBuf := Zeros(READ_SIZE);
      bytesRead, offset, length, left, crc := 0, 0, 0, 0, 0;
      kind := [];
      skipCrc, discard := false, false;
    }

    /** buffer_read_fn */
    method BufferRead(n: nat) returns (status: Status)
      requires Valid() && !streaming
      modifies this`dataOff, this`lastReadSize, this`bytesLeft
      ensures status == if n > old(bytesLeft) then Eof else Good
      ensures status != Good ==> Valid()
      ensures status == Good ==> dataOff == bytesRead && lastReadSize == n
      ensures dataOff + lastReadSize + bytesLeft == |file|
      ensures status == Good ==> bytesLeft == old(bytesLeft) - n
    {
      if n > bytesLeft {
        return Eof;
      }
      dataOff := dataOff + lastReadSize;
      lastReadSize := n;
      bytesLeft := bytesLeft - n;
      return Good;
    }

    /** read_data: the next bytes of the input, at ctx->data. */
    method ReadData(bytes: nat) returns (status: Status)
      requires Valid()
      modifies this`dataOff, this`lastReadSize, this`bytesLeft, this`streamBuf, this`bytesRead
      ensures Valid()
      ensures status == if bytes == 0 then Good else if streaming && bytes > 8192 then EInternal
                        else if old(bytesRead) + bytes > |file| then Eof else Good
      ensures bytesRead == old(bytesRead) + if status == Good then bytes else 0
      ensures status == Good && bytes > 0 ==>
        (if streaming then bytes <= |streamBuf| else dataOff + bytes <= |file|)
        && Data(bytes) == file[old(bytesRead)..bytesRead]
    {
      if bytes == 0 {
        return Good;
      }
      if streaming {
        if bytes > READ_SIZE {
          return EInternal;
        }
        if bytesRead + bytes > |file| {
          return Eof;
        }
        streamBuf := file[bytesRead..bytesRead + bytes] + streamBuf[bytes..];
      } else {
        status := BufferRead(bytes);
        if status != Good {
          return;
        }
      }
      bytesRead := bytesRead + bytes;
      return Good;
    }

    /** The CRC that follows the data is the CRC of the type and the data. */
    ghost predicate Intact()
      requires InChunk()
      reads this
    {
      bytesRead + 4 <= |file| && ReadU32(file[bytesRead..]) == Crc(0, kind + file[offset + 8..bytesRead])
    }

    /** What becomes of a chunk whose CRC does not match. */
    function Mismatch(): Status
      requires |kind| == 4
      reads this
    {
      if Critical(kind) then (if critical == CrcUse then Good else EChunkCrc)
      else if ancillary == CrcUse then Good
      else if ancillary == CrcDiscard then Discard
      else EChunkCrc
    }

    /** read_and_check_crc */
    method ReadAndCheckCrc() returns (status: Status)
      requires InChunk() && left == 0
      modifies this`dataOff, this`lastReadSize, this`bytesLeft, this`streamBuf, this`bytesRead
      ensures Valid()
      ensures old(bytesRead) + 4 > |file| ==> status == Eof && bytesRead == old(bytesRead)
      ensures old(bytesRead) + 4 <= |file| ==> bytesRead == old(bytesRead) + 4
      ensures old(bytesRead) + 4 <= |file| ==> status == if skipCrc || old(Intact()) then Good else Mismatch()
    {
      hide Crc;
      status := ReadData(4);
      if status != Good {
        return;
      }
      var stored := ReadU32(Data(4));
      assert ReadU32(file[old(bytesRead)..]) == stored by {
        SameWord(file[old(bytesRead)..], Data(4));
      }
      if skipCrc {
        return Good;
      }
      if crc != stored {
        return Mismatch();
      }
      return Good;
    }

    lemma Nothing(kind: seq<byte>, at: nat)
      requires at <= |file|
      ensures kind + file[at..at] == kind
    {
    }

    /** The four bytes of the length, and the four of the type. */
    static lemma HeaderParts(file: seq<byte>, at: nat, data: seq<byte>)
      requires at + 8 <= |file| && data == file[at..at + 8]
      ensures ReadU32(data[..4]) == ReadU32(file[at..]) && data[4..8] == file[at + 4..at + 8]
    {
      SameWord(file[at..], data[..4]);
    }

    static lemma SameWord(s: seq<byte>, t: seq<byte>)
      requires |s| >= 4 && t == s[..4]
      ensures ReadU32(s) == ReadU32(t)
    {
    }

    /** Whether the CRC of a chunk is not calculated at all. */
    function Skips(isCritical: bool): bool {
      (isCritical && critical == CrcUse) || ancillary == CrcUse
    }

    /** The header chunk, read in one go with the signature. */
    method BeginIhdr(data: seq<byte>)
      requires Valid() && bytesRead == 29 && left == 0 && !skipCrc && data == file[..29]
      requires ReadU32(data[8..]) == 13 && data[12..16] == IHDR
      modifies this`offset, this`length, this`kind, this`crc
      ensures InChunk() && offset == 8 && length == 13 && kind == IHDR
    {
      hide Crc, ReadU32;
      offset, length, kind := 8, 13, data[12..16];
      crc := Crc(Crc(0, []), data[12..29]);
      CrcOfNothing();
      assert kind + file[16..29] == data[12..29];
    }

    /** A chunk header has just been read. */
    ghost predicate AtStart(at: nat)
      reads this
    {
      && InChunk() && bytesRead == at + 8 && left == length && offset == at
      && length == ReadU32(file[at..]) && kind == file[at + 4..at + 8] && skipCrc == Skips(Critical(kind))
    }

    /** The length and type of the next chunk. */
    method TakeHeader() returns (status: Status)
      requires Valid()
      modifies this`dataOff, this`lastReadSize, this`bytesLeft, this`streamBuf, this`bytesRead
      modifies this`offset, this`length, this`kind, this`left, this`skipCrc, this`crc
      ensures Valid() && old(bytesRead) <= bytesRead <= old(bytesRead) + 8
      ensures status == if old(bytesRead) + 8 > |file| then Eof
                        else if ReadU32(file[old(bytesRead)..]) > PNG_MAX then EStdLen else Good
      ensures status == Good ==> AtStart(old(bytesRead))
    {
      hide Crc, Critical, ReadU32;
      ghost var at := bytesRead;
      status := ReadData(8);
      if status != Good {
        return;
      }
      var data := Data(8);
      HeaderParts(file, at, data);
      var newLength := ReadU32(data[..4]);
      if newLength > PNG_MAX {
        return EStdLen;
      }
      offset := bytesRead - 8;
      length := newLength;
      kind := data[4..8];
      left := newLength;
      skipCrc := Skips(Critical(kind));
      if !skipCrc {
        crc := Crc(Crc(0, []), kind);
        CrcOfNothing();
        Nothing(kind, bytesRead);
      }
      return Good;
    }

    /** read_header: the CRC of the chunk that ends, and the header of the next. */
    method ReadHeader() returns (status: Status)
      requires InChunk() && left == 0
      modifies this
      ensures Valid() && old(bytesRead) <= bytesRead <= old(bytesRead) + 12
      ensures status in {Good, Eof, EStdLen, EChunkCrc}
      ensures status == Good ==> bytesRead == old(bytesRead) + 12 && AtStart(old(bytesRead) + 4)
      ensures status == Good ==> discard == (old(discard) || old(Dropped()))
      ensures status == Good ==> old(skipCrc || Intact() || Mismatch() != EChunkCrc)
      ensures old(bytesRead) + 12 <= |file| && ReadU32(file[old(bytesRead) + 4..]) <= PNG_MAX ==>
        status == if old(skipCrc || Intact() || Mismatch() != EChunkCrc) then Good else EChunkCrc
    {
      hide Crc, Critical;
      status := ReadAndCheckCrc();
      if status == Discard {
        discard := true;
      } else if status != Good {
        return;
      }
      status := TakeHeader();
    }

    /** The chunk that ends is to be dropped: its CRC was calculated and does not match. */
    ghost predicate Dropped()
      requires InChunk()
      reads this
    {
      !skipCrc && !Intact() && Mismatch() == Discard
    }

    /** read_chunk_bytes */
    method ReadChunkBytes(bytes: nat) returns (status: Status)
      requires InChunk()
      modifies this`dataOff, this`lastReadSize, this`bytesLeft, this`streamBuf, this`bytesRead, this`left, this`crc
      ensures InChunk() && status in {Good, Eof, EInternal}
      ensures status == EInternal <==> !(0 < bytes <= old(left)) || (streaming && bytes > READ_SIZE)
      ensures status == Good <==> 0 < bytes <= old(left) && (streaming ==> bytes <= READ_SIZE) && old(bytesRead) + bytes <= |file|
      ensures bytesRead == old(bytesRead) + (if status == Good then bytes else 0)
      ensures left == old(left) - (if status == Good then bytes else 0)
      ensures status == Good ==> if streaming then bytes <= |streamBuf| else dataOff + bytes <= |file|
      ensures status == Good ==> Data(bytes) == file[old(bytesRead)..bytesRead]
    {
      hide Crc;
      if left == 0 || bytes == 0 || bytes > left {
        return EInternal;
      }
      status := ReadData(bytes);
      if status != Good {
        return;
      }
      if !skipCrc {
        CrcAppend(0, kind + file[offset + 8..old(bytesRead)], Data(bytes));
        assert kind + file[offset + 8..old(bytesRead)] + Data(bytes) == kind + file[offset + 8..bytesRead];
        crc := Crc(crc, Data(bytes));
      }
      left := left - bytes;
    }

    /** One call of the callback with a buffer of the caller's. */
    method ReadInto(bytes: nat) returns (status: Status, out: seq<byte>)
      requires Valid() && bytes > 0
      modifies this`dataOff, this`lastReadSize, this`bytesLeft, this`bytesRead
      ensures Valid()
      ensures status == if old(bytesRead) + bytes > |file| then Eof else Good
      ensures bytesRead == old(bytesRead) + if status == Good then bytes else 0
      ensures status == Good ==> out == file[old(bytesRead)..bytesRead]
    {
      out := [];
      if streaming {
        if bytesRead + bytes > |file| {
          return Eof, out;
        }
        out := file[bytesRead..bytesRead + bytes];
      } else {
        status := BufferRead(bytes);
        if status != Good {
          return;
        }
        out := file[dataOff..dataOff + bytes];
      }
      bytesRead := bytesRead + bytes;
      return Good, out;
    }

    /** read_chunk_bytes2: in streams, piece by piece. */
    method ReadChunkBytes2(bytes: nat) returns (status: Status, out: seq<byte>)
      requires InChunk()
      modifies this`dataOff, this`lastReadSize, this`bytesLeft, this`bytesRead, this`left, this`crc
      ensures InChunk() && status in {Good, Eof, EInternal}
      ensures old(bytesRead) <= bytesRead <= |file|
      ensures status == Good <==> 0 < bytes <= old(left) && old(bytesRead) + bytes <= |file|
      ensures status == Good ==> bytesRead == old(bytesRead) + bytes && left == old(left) - bytes
      ensures status == Good ==> out == file[old(bytesRead)..bytesRead]
    {
      hide Crc;
      out := [];
      if left == 0 || bytes == 0 || bytes > left {
        return EInternal, out;
      }
      var todo: nat, len: nat := bytes, bytes;
      if streaming && len > READ_SIZE {
        len := READ_SIZE;
      }
      while todo > 0
        invariant InChunk() && len > 0 && todo <= left
        invariant bytesRead == old(bytesRead) + (bytes - todo) && left == old(left) - (bytes - todo)
        invariant todo <= bytes && out == file[old(bytesRead)..bytesRead]
      {
        if len > todo {
          len := todo;
        }
        ghost var at := bytesRead;
        var piece;
        status, piece := ReadInto(len);
        if status != Good {
          return;
        }
        if !skipCrc {
          CrcAppend(0, kind + file[offset + 8..at], piece);
          assert kind + file[offset + 8..at] + piece == kind + file[offset + 8..bytesRead];
          crc := Crc(crc, piece);
        }
        left := left - len;
        out := out + piece;
        todo := todo - len;
        len := READ_SIZE;
      }
      return Good, out;
    }

    /** discard_chunk_bytes */
    method DiscardChunkBytes(bytes: nat) returns (status: Status)
      requires InChunk() && bytes <= left
      modifies this`dataOff, this`lastReadSize, this`bytesLeft, this`streamBuf, this`bytesRead, this`left, this`crc
      ensures InChunk() && status in {Good, Eof}
      ensures old(bytesRead) <= bytesRead <= |file|
      ensures status == Good <==> old(bytesRead) + bytes <= |file|
      ensures status == Good ==> bytesRead == old(bytesRead) + bytes && left == old(left) - bytes
    {
      hide Crc;
      if bytes == 0 {
        return Good;
      }
      if streaming {
        var todo: nat := bytes;
        while todo > 0
          invariant InChunk() && todo <= bytes
          invariant bytesRead == old(bytesRead) + (bytes - todo) && left == old(left) - (bytes - todo)
        {
          var len := READ_SIZE;
          if len > todo {
            len := todo;
          }
          status := ReadChunkBytes(len);
          if status != Good {
            return;
          }
          todo := todo - len;
        }
        return Good;
      }
      status := ReadChunkBytes(bytes);
    }

    /** The data of the chunk at hand and its CRC are all there, and so is the header of the next. */
    ghost predicate AllThere()
      reads this
    {
      && AtStart(offset) && offset + length + 20 <= |file|
      && ReadU32(file[offset + length + 12..]) <= PNG_MAX
    }

    ghost predicate CrcMatches()
      requires AllThere()
      reads this
    {
      ReadU32(file[offset + 8 + length..]) == Crc(0, kind + file[offset + 8..offset + 8 + length])
    }

    /**
     From one header to the next, past all of the data. A damaged critical chunk is refused
     exactly if neither action is to use chunks unchecked: asking for that with ancillary
     chunks alone turns off the check of critical ones too. A damaged ancillary chunk is
     refused, dropped or used as its own action says.
     */
    method PassChunk() returns (status: Status)
      requires AllThere() && !discard
      modifies this
      ensures status in {Good, EChunkCrc}
      ensures old(CrcMatches()) ==> status == Good && !discard
      ensures !old(CrcMatches()) && Critical(old(kind)) ==>
        (status == EChunkCrc <==> critical != CrcUse && ancillary != CrcUse) && (status == Good ==> !discard)
      ensures !old(CrcMatches()) && !Critical(old(kind)) ==>
        (status == EChunkCrc <==> ancillary == CrcError)
        && (status == Good ==> (discard <==> ancillary == CrcDiscard))
      ensures status == Good ==> AtStart(old(offset + length + 12))
    {
      hide Crc, Critical, ReadU32;
      status := DiscardChunkBytes(left);
      status := ReadHeader();
    }

    /**
     The header chunk, which is read with the signature, is always checked: it is refused exactly
     if its CRC is wrong and the action for critical chunks is not to use them, whatever the
     action for ancillary ones is.
     */
    method PassIhdr() returns (status: Status)
      requires Valid() && bytesRead == 0 && left == 0 && !skipCrc && !discard
      requires |file| >= 41 && ReadU32(file[8..]) == 13 && file[12..16] == IHDR && ReadU32(file[33..]) <= PNG_MAX
      modifies this
      ensures status == if ReadU32(file[29..]) != Crc(0, file[12..29]) && critical != CrcUse then EChunkCrc else Good
      ensures status == Good ==> AtStart(33) && !discard
    {
      hide Crc, Critical, ReadU32;
      IhdrIsCritical();
      status := ReadData(29);
      var data := Data(29);
      SameWord(file[8..], data[8..12]);
      SameWord(data[8..], data[8..12]);
      BeginIhdr(data);
      assert IHDR + file[16..29] == file[12..29];
      status := ReadHeader();
    }
  }

  /** An IEND chunk with one bit of its CRC wrong, and the first bytes of another chunk. */
  const DAMAGED: seq<byte> := [0, 0, 0, 0, 73, 69, 78, 68, 174, 66, 96, 131, 0, 0, 0, 0, 116, 73, 77, 69]

  lemma DamagedBytes()
    ensures |DAMAGED| == 20 && ReadU32(DAMAGED) == 0 && DAMAGED[4..8] == IEND && ReadU32(DAMAGED[12..]) == 0
    ensures ReadU32(DAMAGED[8..]) != Crc(0, IEND)
  {
    IendIsChunk();
    hide Crc;
    var c := Chunk(IEND, []);
    FirstBytes(c, []);
    var s := Bytes(c) + [];
    assert s == IEND_BYTES && IEND + [] == IEND;
    assert ReadU32(IEND_BYTES[8..]) == Crc(0, IEND);
    assert IEND_BYTES[8..][3] == 130 && DAMAGED[8..][3] == 131;
    assert DAMAGED[8..][0] == 174 && DAMAGED[8..][1] == 66 && DAMAGED[8..][2] == 96;
    assert IEND_BYTES[8..][0] == 174 && IEND_BYTES[8..][1] == 66 && IEND_BYTES[8..][2] == 96;
  }

  /** With the strictest action for critical chunks, it passes if ancillary ones are not checked. */
  method ReadDamaged(streaming: bool, critical: Action, ancillary: Action) returns (status: Status)
    ensures status == if critical == CrcUse || ancillary == CrcUse then Good else EChunkCrc
  {
    hide Crc, ReadU32, DAMAGED;
    DamagedBytes();
    EndIsCritical();
    var src := new Source(streaming, DAMAGED, critical, ancillary);
    status := src.TakeHeader();
    assert src.file[0..] == DAMAGED && IEND + src.file[8..8] == IEND;
    status := src.PassChunk();
  }

  lemma IhdrIsCritical()
    ensures Critical(IHDR)
  {
    assert IHDR[0] == 73;
  }

  lemma EndIsCritical()
    ensures Critical(IEND)
  {
    assert IEND[0] == 73;
  }
}
