/**
 The chunks of any length that the decoder keeps as they are or takes apart: suggested
 palettes, exif data and unknown chunks.
 */
module LongChunks {
  import opened Octets
  import opened Chunks
  import opened Metadata
  import opened Printing

  const SPACE: byte := 32

  predicate KeywordChar(c: byte) {
    32 <= c as int <= 126 || c as int >= 161
  }

  /** check_png_keyword, for a string without its terminator. */
  predicate KeywordOk(s: seq<byte>) {
    && 0 < |s| <= 79 && s[0] != SPACE && s[|s| - 1] != SPACE
    && (forall i :: 0 <= i < |s| ==> KeywordChar(s[i]))
    && (forall i :: 0 <= i < |s| - 1 ==> s[i] == SPACE ==> s[i + 1] != SPACE)
  }

  /** memchr(data, 0, limit): the first nul, or the limit if there is none. */
  function FirstNul(data: seq<byte>, limit: nat): (k: nat)
    requires limit <= |data|
    ensures k <= limit && (k < limit ==> data[k] == 0) && forall i :: 0 <= i < k ==> data[i] != 0
    decreases limit
  {
    if limit == 0 then 0
    else
      var k := FirstNul(data, limit - 1);
      if k < limit - 1 then k else if data[limit - 1] == 0 then limit - 1 else limit
  }

  predicate ExifOk(data: seq<byte>) {
    |data| >= 4 && (data[..4] == [73, 73, 42, 0] || data[..4] == [77, 77, 0, 42])
  }

  // ---- Suggested palettes ----

  function ReadEntry(depth: byte, data: seq<byte>): SpltEntry
    requires |data| >= if depth == 16 then 10 else 6
  {
    if depth == 16 then
      SpltEntry(ReadU16(data), ReadU16(data[2..]), ReadU16(data[4..]), ReadU16(data[6..]), ReadU16(data[8..]))
    else SpltEntry(data[0] as int, data[1] as int, data[2] as int, data[3] as int, ReadU16(data[4..]))
  }

  function EntrySize(depth: byte): nat {
    if depth == 16 then 10 else 6
  }

  function ReadEntries(depth: byte, data: seq<byte>, n: nat): (e: seq<SpltEntry>)
    requires |data| >= n * EntrySize(depth)
    ensures |e| == n
    decreases n
  {
    if n == 0 then []
    else [ReadEntry(depth, data)] + ReadEntries(depth, data[EntrySize(depth)..], n - 1)
  }

  datatype ParsedSplt = ParsedSplt(error: Error, splt: Splt)

  const NO_SPLT := Splt([], 0, [])

  /** The checks on a suggested palette, against the ones kept before. */
  function ParseSplt(kept: seq<Splt>, data: seq<byte>): ParsedSplt {
    var k := FirstNul(data, Min(|data|, 80));
    if k == Min(|data|, 80) then ParsedSplt(ESpltName, NO_SPLT)
    else
      var name := data[..k];
      if !KeywordOk(name) then ParsedSplt(ESpltName, NO_SPLT)
      else if exists j :: 0 <= j < |kept| && kept[j].name == name then ParsedSplt(ESpltDupName, NO_SPLT)
      else if |data| - k <= 2 then ParsedSplt(EChunkSize, NO_SPLT)
      else
        var depth := data[k + 1];
        var rest := data[k + 2..];
        if depth != 16 && depth != 8 then ParsedSplt(ESpltDepth, NO_SPLT)
        else if |rest| % EntrySize(depth) != 0 then ParsedSplt(EChunkSize, NO_SPLT)
        else ParsedSplt(NoError, Splt(name, depth, ReadEntries(depth, rest, |rest| / EntrySize(depth))))
  }

  /** What a byte keeps of a 16-bit sample. */
  function Low(x: u16): byte {
    x % 256
  }

  function PrintEntry(depth: byte, e: SpltEntry): (s: seq<byte>)
    ensures |s| == EntrySize(depth)
  {
    if depth == 16 then U16(e.red) + U16(e.green) + U16(e.blue) + U16(e.alpha) + U16(e.frequency)
    else [Low(e.red), Low(e.green), Low(e.blue), Low(e.alpha)] + U16(e.frequency)
  }

  /** A sample of an 8-bit palette. */
  predicate EntryFits(e: SpltEntry) {
    e.red < 256 && e.green < 256 && e.blue < 256 && e.alpha < 256
  }

  /** What the setter checks of a palette. */
  predicate SpltSettable(s: Splt) {
    KeywordOk(s.name) && s.depth in {8, 16}
  }

  /** How long its chunk is. */
  function SpltLength(s: Splt): nat {
    |s.name| + 2 + |s.entries| * EntrySize(s.depth)
  }

  /** What has to hold besides for it to read back: there are entries, not too many, with samples in range. */
  ghost predicate SpltOk(s: Splt) {
    && SpltSettable(s) && s.entries != [] && SpltLength(s) <= PNG_MAX
    && (s.depth == 8 ==> forall i :: 0 <= i < |s.entries| ==> EntryFits(s.entries[i]))
  }

  function PrintEntries(depth: byte, e: seq<SpltEntry>): (s: seq<byte>)
    ensures |s| == |e| * EntrySize(depth)
  {
    if e == [] then [] else PrintEntry(depth, e[0]) + PrintEntries(depth, e[1..])
  }

  function PrintSplt(s: Splt): (d: seq<byte>)
    ensures |d| == SpltLength(s)
  {
    s.name + [0, s.depth] + PrintEntries(s.depth, s.entries)
  }

  lemma EntryBack(depth: byte, e: SpltEntry, rest: seq<byte>)
    requires depth in {8, 16} && (depth == 8 ==> EntryFits(e))
    ensures var s := PrintEntry(depth, e) + rest;
      ReadEntry(depth, s) == e && s[EntrySize(depth)..] == rest
  {
    hide U16, ReadU16;
    var s := PrintEntry(depth, e) + rest;
    if depth == 16 {
      var s4 := U16(e.frequency) + rest;
      var s3 := U16(e.alpha) + s4;
      var s2 := U16(e.blue) + s3;
      var s1 := U16(e.green) + s2;
      assert s == U16(e.red) + s1;
      OneU16(e.red, s1);
      OneU16(e.green, s2);
      OneU16(e.blue, s3);
      OneU16(e.alpha, s4);
      OneU16(e.frequency, rest);
      assert s[4..] == s1[2..] && s[6..] == s2[2..] && s[8..] == s3[2..];
    } else {
      OneU16(e.frequency, rest);
      assert s[4..] == U16(e.frequency) + rest;
    }
  }

  lemma {:induction false} EntriesBack(depth: byte, e: seq<SpltEntry>)
    requires depth in {8, 16} && (depth == 8 ==> forall i :: 0 <= i < |e| ==> EntryFits(e[i]))
    ensures ReadEntries(depth, PrintEntries(depth, e), |e|) == e
  {
    if e != [] {
      EntriesBack(depth, e[1..]);
      EntryBack(depth, e[0], PrintEntries(depth, e[1..]));
      hide PrintEntry, ReadEntry;
    }
  }

  lemma NulAfter(name: seq<byte>, rest: seq<byte>)
    requires KeywordOk(name)
    ensures var d := name + [0] + rest;
      FirstNul(d, Min(|d|, 80)) == |name| < Min(|d|, 80) && d[..|name|] == name
  {
    var d := name + [0] + rest;
    assert d[|name|] == 0;
    assert forall i :: 0 <= i < |name| ==> d[i] == name[i] && KeywordChar(name[i]);
    assert d[..|name|] == name;
  }

  lemma WholeEntries(n: nat, depth: byte)
    ensures n * EntrySize(depth) % EntrySize(depth) == 0 && n * EntrySize(depth) / EntrySize(depth) == n
    ensures n > 0 ==> n * EntrySize(depth) >= 6
  {
    if depth == 16 {
      assert n * EntrySize(depth) == 10 * n;
    } else {
      assert n * EntrySize(depth) == 6 * n;
    }
  }

  ghost predicate NewName(kept: seq<Splt>, s: Splt) {
    forall j :: 0 <= j < |kept| ==> kept[j].name != s.name
  }

  /** What the decoder makes of a palette that is written. */
  lemma ParsePrintedSplt(kept: seq<Splt>, s: Splt)
    requires SpltSettable(s)
    ensures ParseSplt(kept, PrintSplt(s)) ==
      if !NewName(kept, s) then ParsedSplt(ESpltDupName, NO_SPLT)
      else if s.entries == [] then ParsedSplt(EChunkSize, NO_SPLT)
      else ParsedSplt(NoError, Splt(s.name, s.depth, ReadEntries(s.depth, PrintEntries(s.depth, s.entries), |s.entries|)))
  {
    hide PrintEntries, ReadEntries, KeywordOk, FirstNul, EntrySize, EntryFits;
    var body := PrintEntries(s.depth, s.entries);
    var d := PrintSplt(s);
    var k := |s.name|;
    assert d == s.name + [0] + ([s.depth] + body);
    NulAfter(s.name, [s.depth] + body);
    assert d[k + 1] == s.depth && d[k + 2..] == body;
    WholeEntries(|s.entries|, s.depth);
  }

  /** A suggested palette reads back, when its name is new. */
  lemma SpltBack(kept: seq<Splt>, s: Splt)
    requires SpltOk(s) && NewName(kept, s)
    ensures ParseSplt(kept, PrintSplt(s)) == ParsedSplt(NoError, s)
  {
    hide PrintSplt, ParseSplt, ReadEntries, SpltLength;
    ParsePrintedSplt(kept, s);
    EntriesBack(s.depth, s.entries);
  }

  lemma {:induction false} EntriesInRange(data: seq<byte>, n: nat, i: nat)
    requires |data| >= n * EntrySize(8) && i < n
    ensures EntryFits(ReadEntries(8, data, n)[i])
    decreases n
  {
    if i > 0 {
      EntriesInRange(data[EntrySize(8)..], n - 1, i - 1);
    }
  }

  /** The chunk of a palette, which is not written if it is too long. */
  function SpltChunk(s: Splt): Chunk {
    Chunk(SPLT, PrintSplt(s))
  }

  /** The length that the chunk's header is given: the entries are counted with 32 bits. */
  function HeaderLength(s: Splt): nat {
    |s.name| + 1 + (|s.entries| * EntrySize(s.depth) + 1) % 0x1_0000_0000
  }

  predicate Wraps(s: Splt) {
    |s.entries| * EntrySize(s.depth) + 1 >= 0x1_0000_0000
  }

  predicate NoneWraps(list: seq<Splt>) {
    forall i :: 0 <= i < |list| ==> !Wraps(list[i])
  }

  /** It is the length of the data, unless the product wraps around; then it falls short of it. */
  lemma HeaderIsExact(s: Splt)
    ensures if Wraps(s) then HeaderLength(s) < SpltLength(s) else HeaderLength(s) == SpltLength(s)
  {
  }

  /**
   Of the palettes that the setter admits, exactly those with entries and a new name that are not
   too long for a chunk are written and accepted, and exactly those of them whose samples fit
   their depth come back as they were.
   */
  lemma SpltBackExactly(kept: seq<Splt>, s: Splt)
    requires SpltSettable(s)
    ensures var p := ParseSplt(kept, PrintSplt(s));
      && (SpltChunk(s).Valid() && p.error == NoError <==> s.entries != [] && SpltLength(s) <= PNG_MAX && NewName(kept, s))
      && (SpltChunk(s).Valid() && p == ParsedSplt(NoError, s) <==> SpltOk(s) && NewName(kept, s))
  {
    hide PrintSplt, ParseSplt, KeywordOk, ReadEntries, PrintEntries, EntryFits, SpltLength;
    ParsePrintedSplt(kept, s);
    if ParseSplt(kept, PrintSplt(s)) == ParsedSplt(NoError, s) {
      if s.depth == 8 {
        forall i | 0 <= i < |s.entries|
          ensures EntryFits(s.entries[i])
        {
          EntriesInRange(PrintEntries(8, s.entries), |s.entries|, i);
        }
      }
    } else if SpltOk(s) && NewName(kept, s) {
      SpltBack(kept, s);
    }
  }

  lemma AtLeastThatLong(n: nat, depth: byte)
    ensures n / EntrySize(depth) * EntrySize(depth) <= n
  {
  }

  /** Every palette that is accepted is one that would be written and read back. */
  lemma ParsedIsOk(kept: seq<Splt>, data: seq<byte>)
    requires |data| <= PNG_MAX && ParseSplt(kept, data).error == NoError
    ensures SpltOk(ParseSplt(kept, data).splt) && NewName(kept, ParseSplt(kept, data).splt)
  {
    hide KeywordOk, ReadEntries, EntryFits, EntrySize, FirstNul;
    SpltEntries(kept, data);
    var s := ParseSplt(kept, data).splt;
    var rest := data[FirstNul(data, Min(|data|, 80)) + 2..];
    AtLeastThatLong(|rest|, s.depth);
    if s.depth == 8 {
      forall i | 0 <= i < |s.entries|
        ensures EntryFits(s.entries[i])
      {
        EntriesInRange(rest, |s.entries|, i);
      }
    }
  }

  /** A palette that is accepted has entries, each of at least six bytes of data. */
  lemma SpltEntries(kept: seq<Splt>, data: seq<byte>)
    requires ParseSplt(kept, data).error == NoError
    ensures 0 < 6 * |ParseSplt(kept, data).splt.entries| <= |data|
  {
    hide KeywordOk, ReadEntries;
    var k := FirstNul(data, Min(|data|, 80));
    var depth, rest := data[k + 1], data[k + 2..];
    if depth == 16 {
      assert |rest| % 10 == 0;
    } else {
      assert |rest| % 6 == 0;
    }
  }
}
