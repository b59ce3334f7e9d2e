/**
 Rows of 16-bit samples are big-endian in a PNG file and in host order in memory. The
 encoder converts a row before it filters it; the decoder converts the filtered row, and
 then undoes the filter against a previous row that is already in host order.
 */
module ByteOrder {
  import opened Octets
  import opened Filtering

  datatype Endian = Little | Big

  /** Exchanges the two bytes of each 16-bit sample; an odd last byte stays. */
  function SwapPairs(s: seq<byte>): (r: seq<byte>)
    ensures |r| == |s|
  {
    seq(|s|, i requires 0 <= i < |s| =>
      if i % 2 == 1 then s[i - 1] else if i + 1 < |s| then s[i + 1] else s[i])
  }

  /** A row of big-endian samples in the order of the host, and the same way back. */
  function Reorder(host: Endian, s: seq<byte>): (r: seq<byte>)
    ensures |r| == |s|
  {
    if host == Little then SwapPairs(s) else s
  }

  lemma ReorderTwice(host: Endian, s: seq<byte>)
    ensures Reorder(host, Reorder(host, s)) == s
  {
    SwapTwice(s);
  }

  lemma SwapTwice(s: seq<byte>)
    ensures SwapPairs(SwapPairs(s)) == s
  {
    forall i | 0 <= i < |s|
      ensures SwapPairs(SwapPairs(s))[i] == s[i]
    {
      if i % 2 == 1 {
        assert SwapPairs(s)[i - 1] == s[i];
      } else if i + 1 < |s| {
        assert SwapPairs(s)[i + 1] == s[i];
      }
    }
  }

  lemma PartnerBefore(s: seq<byte>, i: nat, j: nat, bpp: nat)
    requires i < |s| && |s| % 2 == 0 && bpp > 0 && bpp % 2 == 0
    requires j == if i % 2 == 1 then i - 1 else i + 1
    ensures j < |s| && SwapPairs(s)[i] == s[j] && Before(SwapPairs(s), i, bpp) == Before(s, j, bpp)
  {
    assert i >= bpp <==> j >= bpp;
    assert i >= bpp ==> (i - bpp) % 2 == i % 2;
  }

  /** When pixels have an even number of bytes, converting the filtered row and then
      defiltering it against a converted row is defiltering first and converting afterwards. */
  lemma SwapCommutes(filter: nat, bpp: nat, prev: seq<byte>, coded: seq<byte>)
    requires bpp > 0 && bpp % 2 == 0 && |coded| % 2 == 0 && |coded| == |prev|
    ensures DefilterRow(filter, bpp, SwapPairs(prev), SwapPairs(coded))
         == SwapPairs(DefilterRow(filter, bpp, prev, coded))
  {
    var row := DefilterRow(filter, bpp, prev, coded);
    var swapped := SwapPairs(row);
    DefilterRebuilds(filter, bpp, prev, coded);
    forall i | 0 <= i < |row|
      ensures swapped[i] == Add8(SwapPairs(coded)[i], PredictAt(filter, bpp, SwapPairs(prev), swapped, i))
    {
      var j := if i % 2 == 1 then i - 1 else i + 1;
      PartnerBefore(row, i, j, bpp);
      PartnerBefore(prev, i, j, bpp);
      PartnerBefore(coded, i, j, bpp);
      assert row[j] == Add8(coded[j], PredictAt(filter, bpp, prev, row, j));
    }
    RebuildsIsDefilter(filter, bpp, SwapPairs(prev), SwapPairs(coded), swapped);
  }

  lemma ReorderCommutes(host: Endian, filter: nat, bpp: nat, prev: seq<byte>, coded: seq<byte>)
    requires bpp > 0 && bpp % 2 == 0 && |coded| % 2 == 0 && |coded| == |prev|
    ensures DefilterRow(filter, bpp, Reorder(host, prev), Reorder(host, coded))
         == Reorder(host, DefilterRow(filter, bpp, prev, coded))
  {
    SwapCommutes(filter, bpp, prev, coded);
  }

  /** Converts the samples of a row in place, from big-endian to host order or back:
      reading a sample as big-endian and storing it, or writing it big-endian, is the same
      exchange of its two bytes on a little-endian host and nothing on a big-endian one. */
  method ReorderInPlace(host: Endian, row: array<byte>, at: nat, size: nat)
    requires at + size <= row.Length
    modifies row
    ensures row[at..at + size] == Reorder(host, old(row[at..at + size]))
    ensures row[..at] == old(row[..at]) && row[at + size..] == old(row[at + size..])
  {
    ghost var before := row[at..at + size];
    var i, n := 0, size / 2;
    while i < n
      invariant 0 <= i <= n
      invariant forall k :: 0 <= k < 2 * i ==> row[at + k] == Reorder(host, before)[k]
      invariant forall k :: 0 <= k < at || at + 2 * i <= k < row.Length ==> row[k] == old(row[k])
    {
      var high, low := row[at + 2 * i], row[at + 2 * i + 1];
      assert high == before[2 * i] && low == before[2 * i + 1];
      if host == Little {
        row[at + 2 * i], row[at + 2 * i + 1] := low, high;
      } else {
        row[at + 2 * i], row[at + 2 * i + 1] := high, low;
      }
      assert (2 * i) % 2 == 0 && (2 * i + 1) % 2 == 1;
      i := i + 1;
    }
  }
}
