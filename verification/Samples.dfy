/**
 Samples of 1, 2, 4 and 8 bits, packed most significant first: reading them in sequence,
 and setting them one by one with a bitwise or.
 */
module Samples {
  import opened Octets

  predicate Packed(depth: nat) {
    depth == 1 || depth == 2 || depth == 4 || depth == 8
  }

  function PerByte(depth: nat): nat
    requires Packed(depth)
  {
    if depth == 1 then 8 else if depth == 2 then 4 else if depth == 4 then 2 else 1
  }

  /** The byte that holds the k-th sample of a row, and how far the sample is from its right end. */
  function ByteOf(depth: nat, k: nat): nat
    requires Packed(depth)
  {
    if depth == 1 then k / 8 else if depth == 2 then k / 4 else if depth == 4 then k / 2 else k
  }

  function ShiftOf(depth: nat, k: nat): (s: nat)
    requires Packed(depth)
    ensures s + depth <= 8
  {
    if depth == 1 then 7 - k % 8 else if depth == 2 then 6 - 2 * (k % 4)
    else if depth == 4 then 4 - 4 * (k % 2) else 0
  }

  /** The field of a byte at a shift, by shifting and masking. */
  function Field(x: nat, shift: nat, depth: nat): nat {
    BitAnd(ShiftRight(x, shift), Pow2(depth) - 1)
  }

  predicate HasSample(row: seq<byte>, depth: nat, k: nat)
    requires Packed(depth)
  {
    ByteOf(depth, k) < |row|
  }

  function SampleAt(row: seq<byte>, depth: nat, k: nat): nat
    requires Packed(depth) && HasSample(row, depth, k)
  {
    Field(row[ByteOf(depth, k)], ShiftOf(depth, k), depth)
  }

  // ----------------------------------------------------------------------- bit algebra

  lemma {:induction false} OrHalves(a: nat, b: nat)
    ensures BitOr(a, b) / 2 == BitOr(a / 2, b / 2)
    ensures BitOr(a, b) % 2 == 1 <==> a % 2 == 1 || b % 2 == 1
  {
    if a > 0 && b > 0 {
      assert BitOr(a, b) == 2 * BitOr(a / 2, b / 2) + (if a % 2 == 1 || b % 2 == 1 then 1 else 0);
    }
  }

  lemma {:induction false} ShiftRightOfOr(a: nat, b: nat, s: nat)
    ensures ShiftRight(BitOr(a, b), s) == BitOr(ShiftRight(a, s), ShiftRight(b, s))
    decreases s
  {
    if s > 0 {
      OrHalves(a, b);
      ShiftRightOfOr(a / 2, b / 2, s - 1);
    }
  }

  lemma {:induction false} AndHalves(a: nat, m: nat)
    ensures BitAnd(a, m) / 2 == BitAnd(a / 2, m / 2)
    ensures BitAnd(a, m) % 2 == 1 <==> a % 2 == 1 && m % 2 == 1
  {
    if a > 0 {
      assert BitAnd(a, m) == 2 * BitAnd(a / 2, m / 2) + (if a % 2 == 1 && m % 2 == 1 then 1 else 0);
    }
  }

  lemma SameHalves(a: nat, b: nat)
    requires a / 2 == b / 2 && (a % 2 == 1 <==> b % 2 == 1)
    ensures a == b
  {
  }

  lemma {:induction false} AndOverOr(a: nat, b: nat, m: nat)
    ensures BitAnd(BitOr(a, b), m) == BitOr(BitAnd(a, m), BitAnd(b, m))
    decreases a + b
  {
    if a > 0 && b > 0 {
      OrHalves(a, b);
      AndHalves(BitOr(a, b), m);
      AndHalves(a, m);
      AndHalves(b, m);
      OrHalves(BitAnd(a, m), BitAnd(b, m));
      AndOverOr(a / 2, b / 2, m / 2);
      hide BitAnd, BitOr;
      SameHalves(BitAnd(BitOr(a, b), m), BitOr(BitAnd(a, m), BitAnd(b, m)));
    }
  }

  lemma FieldOfOr(a: nat, b: nat, s: nat, d: nat)
    ensures Field(BitOr(a, b), s, d) == BitOr(Field(a, s, d), Field(b, s, d))
  {
    ShiftRightOfOr(a, b, s);
    AndOverOr(ShiftRight(a, s), ShiftRight(b, s), Pow2(d) - 1);
  }

  /** Keeping the low d bits of a number that has no more is no change. */
  lemma {:induction false} MaskKeeps(v: nat, d: nat)
    requires v < Pow2(d)
    ensures BitAnd(v, Pow2(d) - 1) == v
    decreases d
  {
    if d > 0 {
      var m := Pow2(d) - 1;
      assert m / 2 == Pow2(d - 1) - 1 && m % 2 == 1;
      MaskKeeps(v / 2, d - 1);
      AndHalves(v, m);
      SameHalves(BitAnd(v, m), v);
    }
  }

  /** A number shifted left by at least d has no low d bits. */
  lemma {:induction false} MaskClears(v: nat, n: nat, d: nat)
    requires d <= n
    ensures BitAnd(ShiftLeft(v, n), Pow2(d) - 1) == 0
    decreases d
  {
    if d > 0 {
      var m := Pow2(d) - 1;
      var x := ShiftLeft(v, n);
      assert m / 2 == Pow2(d - 1) - 1 && m % 2 == 1;
      ShiftLeftIsDouble(v, n - 1);
      MaskClears(v, n - 1, d - 1);
      AndHalves(x, m);
      SameHalves(BitAnd(x, m), 0);
    } else {
      MaskZero(ShiftLeft(v, n));
    }
  }

  lemma {:induction false} MaskZero(x: nat)
    ensures BitAnd(x, 0) == 0
  {
    if x > 0 {
      MaskZero(x / 2);
    }
  }

  lemma {:induction false} ShiftLeftIsDouble(v: nat, n: nat)
    ensures ShiftLeft(v, n + 1) == 2 * ShiftLeft(v, n)
    decreases n
  {
    if n > 0 {
      ShiftLeftIsDouble(2 * v, n - 1);
    }
  }

  /** Shifting left and then right leaves the difference of the two shifts. */
  lemma {:induction false} ShiftBack(v: nat, s: nat, t: nat)
    ensures s >= t ==> ShiftRight(ShiftLeft(v, s), t) == ShiftLeft(v, s - t)
    ensures s <= t ==> ShiftRight(ShiftLeft(v, s), t) == ShiftRight(v, t - s)
    decreases t
  {
    if t > 0 && s > 0 {
      ShiftLeftIsDouble(v, s - 1);
      ShiftBack(v, s - 1, t - 1);
    }
  }

  lemma {:induction false} ShiftRightClears(v: nat, d: nat, n: nat)
    requires v < Pow2(d) && d <= n
    ensures ShiftRight(v, n) == 0
    decreases n
  {
    if n > 0 {
      if d > 0 {
        ShiftRightClears(v / 2, d - 1, n - 1);
      } else {
        ShiftRightClears(0, 0, n - 1);
      }
    }
  }

  /** A sample shifted into place shows in its own field and in no other. */
  lemma FieldOfShifted(v: nat, s: nat, t: nat, d: nat)
    requires v < Pow2(d) && (t == s || t + d <= s || s + d <= t)
    ensures Field(ShiftLeft(v, s), t, d) == if t == s then v else 0
  {
    ShiftBack(v, s, t);
    if t == s {
      MaskKeeps(v, d);
    } else if t + d <= s {
      MaskClears(v, s - t, d);
    } else {
      ShiftRightClears(v, d, t - s);
    }
  }

  lemma {:induction false} OrStaysBelow(a: nat, b: nat, n: nat)
    requires a < Pow2(n) && b < Pow2(n)
    ensures BitOr(a, b) < Pow2(n)
    decreases n
  {
    if n > 0 && a > 0 && b > 0 {
      OrHalves(a, b);
      OrStaysBelow(a / 2, b / 2, n - 1);
    }
  }

  lemma {:induction false} ShiftLeftStaysBelow(v: nat, d: nat, s: nat)
    requires v < Pow2(d)
    ensures ShiftLeft(v, s) < Pow2(d + s)
    decreases s
  {
    if s > 0 {
      ShiftLeftStaysBelow(2 * v, d + 1, s - 1);
    }
  }

  lemma {:induction false} AndAtMost(a: nat, m: nat)
    ensures BitAnd(a, m) <= m
    decreases a
  {
    if a > 0 {
      AndAtMost(a / 2, m / 2);
    }
  }

  lemma SampleBelow(row: seq<byte>, depth: nat, k: nat)
    requires Packed(depth) && HasSample(row, depth, k)
    ensures SampleAt(row, depth, k) < Pow2(depth)
  {
    AndAtMost(ShiftRight(row[ByteOf(depth, k)], ShiftOf(depth, k)), Pow2(depth) - 1);
  }

  // -------------------------------------------------------------------------- one sample

  /** The byte after a sample of it is or-ed in. */
  function Merge(x: byte, v: nat, shift: nat, depth: nat): (y: byte)
    requires v < Pow2(depth) && shift + depth <= 8
  {
    ShiftLeftStaysBelow(v, depth, shift);
    Pow2Monotone(depth + shift, 8);
    Pow2Table();
    OrStaysBelow(x, ShiftLeft(v, shift), 8);
    BitOr(x, ShiftLeft(v, shift))
  }

  /** Two samples of one byte do not overlap. */
  lemma FieldsApart(depth: nat, j: nat, k: nat)
    requires Packed(depth) && ByteOf(depth, j) == ByteOf(depth, k) && j != k
    ensures ShiftOf(depth, j) + depth <= ShiftOf(depth, k) || ShiftOf(depth, k) + depth <= ShiftOf(depth, j)
  {
  }

  /** Or-ing a value into the place of sample k changes that sample alone. */
  lemma MergeSample(row: seq<byte>, depth: nat, k: nat, v: nat, j: nat)
    requires Packed(depth) && v < Pow2(depth) && HasSample(row, depth, k) && HasSample(row, depth, j)
    ensures var row' := row[ByteOf(depth, k) := Merge(row[ByteOf(depth, k)], v, ShiftOf(depth, k), depth)];
      SampleAt(row', depth, j) == if j == k then BitOr(SampleAt(row, depth, k), v) else SampleAt(row, depth, j)
  {
    if ByteOf(depth, j) == ByteOf(depth, k) {
      var s, t := ShiftOf(depth, k), ShiftOf(depth, j);
      if j != k {
        FieldsApart(depth, j, k);
      }
      FieldOfOr(row[ByteOf(depth, k)], ShiftLeft(v, s), t, depth);
      FieldOfShifted(v, s, t, depth);
      OrZero(Field(row[ByteOf(depth, k)], t, depth));
    }
  }

  lemma OrZero(x: nat)
    ensures BitOr(x, 0) == x && BitOr(0, x) == x
  {
  }

  lemma ZeroSamples(row: seq<byte>, depth: nat, k: nat)
    requires Packed(depth) && HasSample(row, depth, k) && row[ByteOf(depth, k)] == 0
    ensures SampleAt(row, depth, k) == 0
  {
    ShiftRightClears(0, 0, ShiftOf(depth, k));
  }

  /** The place of a sample by multiplying out the bit position, as the interlacing code does. */
  lemma BitPosition(depth: nat, k: nat)
    requires Packed(depth)
    ensures k / PerByte(depth) == ByteOf(depth, k)
    ensures (8 - depth) - k * depth % 8 == ShiftOf(depth, k)
  {
    if depth == 2 {
      Scaled(k, 2, 4);
    } else if depth == 4 {
      Scaled(k, 4, 2);
    } else if depth == 8 {
      Scaled(k, 8, 1);
    }
  }

  lemma Scaled(k: nat, a: nat, b: nat)
    requires a in {2, 4, 8} && a * b == 8
    ensures k * a % 8 == a * (k % b)
  {
    var q, r := k / b, k % b;
    assert k * a == 8 * q + a * r;
    NoCarry(8 * q, a * r);
  }

  lemma NoCarry(m: nat, r: nat)
    requires m % 8 == 0 && r < 8
    ensures (m + r) % 8 == r
  {
  }

  /** A row of n samples, rounded up to whole bytes, has all n of them. */
  lemma RowHasSamples(depth: nat, n: nat, k: nat)
    requires Packed(depth) && k < n
    ensures ByteOf(depth, k) < (depth * n + 7) / 8
  {
    if depth == 1 {
    } else if depth == 2 {
    } else if depth == 4 {
    } else {
    }
  }

  /** A sample of eight bits is a byte. */
  lemma WholeBytes(row: seq<byte>, k: nat)
    requires k < |row|
    ensures HasSample(row, 8, k) && SampleAt(row, 8, k) == row[k]
  {
    Pow2Table();
    MaskKeeps(row[k], 8);
  }

  // ---------------------------------------------------------------------------- iterator

  /** The place of the next sample. The shift is unsigned: below zero it wraps to a number
      above 7, and the next byte starts over at its left end. */
  function NextPlace(depth: nat, q: nat, shift: nat, ghost k: nat): (r: (nat, nat))
    requires Packed(depth) && q == ByteOf(depth, k) && shift == ShiftOf(depth, k)
    ensures r == (ByteOf(depth, k + 1), ShiftOf(depth, k + 1))
  {
    Advance(depth, k);
    var next := Wrap32(shift - depth);
    if next > 7 then (q + 1, 8 - depth) else (q, next)
  }

  lemma Advance(depth: nat, k: nat)
    requires Packed(depth)
    ensures ShiftOf(depth, k) >= depth ==>
      ByteOf(depth, k + 1) == ByteOf(depth, k) && ShiftOf(depth, k + 1) == ShiftOf(depth, k) - depth
    ensures ShiftOf(depth, k) < depth ==>
      ByteOf(depth, k + 1) == ByteOf(depth, k) + 1 && ShiftOf(depth, k + 1) == 8 - depth
  {
    if depth == 1 {
    } else if depth == 2 {
    } else if depth == 4 {
    } else {
    }
  }

  /** The packed sample iterator: a byte position and the shift of the next sample. */
  class SampleIter {
    const depth: nat
    var at: nat
    var shift: nat
    /** How many samples have been taken. */
    ghost var taken: nat

    ghost predicate Valid()
      reads this
    {
      Packed(depth) && at == ByteOf(depth, taken) && shift == ShiftOf(depth, taken)
    }

    constructor (depth: nat)
      requires Packed(depth)
      ensures Valid() && this.depth == depth && taken == 0
    {
      this.depth := depth;
      at, shift, taken := 0, 8 - depth, 0;
    }

    /** Yields the next sample: the k-th call yields the k-th sample, most significant first. */
    method GetSample(samples: array<byte>, off: nat, n: nat) returns (x: nat)
      requires Valid() && off + n <= samples.Length && ByteOf(depth, taken) < n
      modifies this
      ensures Valid() && taken == old(taken) + 1
      ensures HasSample(samples[off..off + n], depth, old(taken))
      ensures x == SampleAt(samples[off..off + n], depth, old(taken)) < Pow2(depth)
    {
      hide BitAnd, ShiftRight, ByteOf, ShiftOf;
      ghost var row := samples[off..off + n];
      SampleBelow(row, depth, taken);
      x := BitAnd(ShiftRight(samples[off + at], shift), Pow2(depth) - 1);
      var next := NextPlace(depth, at, shift, taken);
      at, shift := next.0, next.1;
      taken := taken + 1;
    }
  }

  /** One row is another with a value or-ed into one sample. */
  ghost predicate SampleSet(before: seq<byte>, after: seq<byte>, depth: nat, k: nat, v: nat)
    requires Packed(depth) && HasSample(before, depth, k)
  {
    && |after| == |before|
    && forall j: nat :: HasSample(before, depth, j) ==>
         SampleAt(after, depth, j) == if j == k then BitOr(SampleAt(before, depth, k), v) else SampleAt(before, depth, j)
  }

  /** Ors a value into the place of a sample. */
  method OrSample(buf: array<byte>, off: nat, n: nat, depth: nat, k: nat, q: nat, shift: nat, v: nat, ghost before: seq<byte>)
    returns (ghost after: seq<byte>)
    requires Packed(depth) && v < Pow2(depth) && off + n <= buf.Length && before == buf[off..off + n]
    requires q == ByteOf(depth, k) < n && shift == ShiftOf(depth, k)
    modifies buf
    ensures after == buf[off..off + n] && SampleSet(before, after, depth, k, v)
    ensures buf[..off] == old(buf[..off]) && buf[off + n..] == old(buf[off + n..])
  {
    buf[off + q] := Merge(buf[off + q], v, shift, depth);
    after := buf[off..off + n];
    assert after == before[q := Merge(before[q], v, shift, depth)];
    forall j: nat | HasSample(before, depth, j)
      ensures SampleAt(after, depth, j) == if j == k then BitOr(SampleAt(before, depth, k), v) else SampleAt(before, depth, j)
    {
      MergeSample(before, depth, k, v, j);
    }
  }

  /** Reads a sample anywhere in a row, by its bit position. */
  method ReadSample(buf: array<byte>, off: nat, n: nat, depth: nat, k: nat) returns (v: nat)
    requires Packed(depth) && off + n <= buf.Length && ByteOf(depth, k) < n
    ensures v == SampleAt(buf[off..off + n], depth, k) < Pow2(depth)
  {
    BitPosition(depth, k);
    SampleBelow(buf[off..off + n], depth, k);
    v := BitAnd(ShiftRight(buf[off + k / PerByte(depth)], (8 - depth) - k * depth % 8), Pow2(depth) - 1);
  }

  /** Sets a sample anywhere in a row, by its bit position. */
  method OrSampleAt(buf: array<byte>, off: nat, n: nat, depth: nat, k: nat, v: nat, ghost before: seq<byte>)
    returns (ghost after: seq<byte>)
    requires Packed(depth) && v < Pow2(depth) && off + n <= buf.Length && before == buf[off..off + n]
    requires ByteOf(depth, k) < n
    modifies buf
    ensures after == buf[off..off + n] && SampleSet(before, after, depth, k, v)
    ensures buf[..off] == old(buf[..off]) && buf[off + n..] == old(buf[off + n..])
  {
    BitPosition(depth, k);
    after := OrSample(buf, off, n, depth, k, k / PerByte(depth), (8 - depth) - k * depth % 8, v, before);
  }
}
