/**
 The vector forms of the Sub, Average and Paeth defilters for pixels of 3 and 4 bytes:
 SSE2, one pixel at a time, and NEON, four pixels at a time. A register is a sequence of
 byte lanes; only the lanes that can reach memory are modelled. Every form leaves the
 first `rowbytes` bytes of the row as the portable loop leaves them.
 */
module SimdDefilter {
  import opened Octets
  import opened Filtering

  predicate Vectorized(filter: nat) {
    filter == FILTER_SUB || filter == FILTER_AVERAGE || filter == FILTER_PAETH
  }

  // ------------------------------------------------------------------------- SSE2 lanes

  /** The rounding average of two bytes, made to truncate by taking 1 off when it rounded up. */
  function SseAverage(a: byte, b: byte): byte {
    ParityOfXor(a, b);
    var rounded: int := (a as int + b as int + 1) / 2;
    Sub8(rounded, BitAnd(BitXor(a, b), 1))
  }

  lemma ParityOfXor(a: nat, b: nat)
    ensures BitAnd(BitXor(a, b), 1) == (a + b) % 2
  {
    if a > 0 && b > 0 {
      assert BitXor(a, b) == 2 * BitXor(a / 2, b / 2) + (a + b) % 2;
    }
    LowBit(BitXor(a, b));
  }

  lemma LowBit(x: nat)
    ensures BitAnd(x, 1) == x % 2
  {
    if x > 0 {
      AndZero(x / 2);
    }
  }

  lemma {:induction false} AndZero(x: nat)
    ensures BitAnd(x, 0) == 0
  {
    if x > 0 {
      AndZero(x / 2);
    }
  }

  lemma SseAverageTruncates(a: byte, b: byte)
    ensures SseAverage(a, b) == (a as int + b as int) / 2
  {
    var sum: int := a as int + b as int;
    ParityOfXor(a, b);
    assert (sum + 1) / 2 - sum % 2 == sum / 2;
  }

  /** What a 16-bit lane keeps of a sum or difference, as a signed number. */
  function Int16(x: int): int {
    (x + 32768) % 65536 - 32768
  }

  lemma Int16Fits(x: int)
    requires -32768 <= x < 32768
    ensures Int16(x) == x
  {
  }

  /** The absolute value by masking: flip the bits of a negative lane and add 1. */
  function SseAbs(x: int): int {
    var mask := if x < 0 then -1 else 0;
    Int16((if mask == -1 then -x - 1 else x) - mask)
  }

  lemma SseAbsIsAbs(x: int)
    requires -32767 <= x <= 32767
    ensures SseAbs(x) == Abs(x)
  {
    Int16Fits(Abs(x));
  }

  function SsePaeth(a: byte, b: byte, c: byte): byte {
    var da, db := Int16(b as int - c as int), Int16(a as int - c as int);
    var dc := Int16(da + db);
    var pa, pb, pc := SseAbs(da), SseAbs(db), SseAbs(dc);
    var smallest := Min(pc, Min(pa, pb));
    if smallest == pa then a else if smallest == pb then b else c
  }

  lemma SsePaethIsPaeth(a: byte, b: byte, c: byte)
    ensures SsePaeth(a, b, c) == Paeth(a, b, c)
  {
    var da: int := b as int - c as int;
    var db: int := a as int - c as int;
    Int16Fits(da);
    Int16Fits(db);
    Int16Fits(da + db);
    SseAbsIsAbs(da);
    SseAbsIsAbs(db);
    SseAbsIsAbs(da + db);
  }

  function SseLane(filter: nat, a: byte, b: byte, c: byte): byte
    requires Vectorized(filter)
  {
    if filter == FILTER_SUB then a else if filter == FILTER_AVERAGE then SseAverage(a, b) else SsePaeth(a, b, c)
  }

  lemma SseLanePredicts(filter: nat, a: byte, b: byte, c: byte)
    requires Vectorized(filter)
    ensures SseLane(filter, a, b, c) == Predict(filter, a, b, c)
  {
    SseAverageTruncates(a, b);
    SsePaethIsPaeth(a, b, c);
  }

  // ------------------------------------------------------------------------- NEON lanes

  function NeonPaeth(a: byte, b: byte, c: byte): byte {
    var sum: int := a as int + b as int;
    var twice: int := c as int + c as int;
    var pa, pb, pc := Abs(b as int - c as int), Abs(a as int - c as int), Abs(sum - twice);
    var takeA := pa <= pb && pa <= pc;
    var takeB := pb <= pc;
    if takeA then a else if takeB then b else c
  }

  lemma NeonPaethIsPaeth(a: byte, b: byte, c: byte)
    ensures NeonPaeth(a, b, c) == Paeth(a, b, c)
  {
  }

  function NeonLane(filter: nat, a: byte, b: byte, c: byte): byte
    requires Vectorized(filter)
  {
    if filter == FILTER_SUB then a
    else if filter == FILTER_AVERAGE then (a as int + b as int) / 2
    else NeonPaeth(a, b, c)
  }

  lemma NeonLanePredicts(filter: nat, a: byte, b: byte, c: byte)
    requires Vectorized(filter)
    ensures NeonLane(filter, a, b, c) == Predict(filter, a, b, c)
  {
    NeonPaethIsPaeth(a, b, c);
  }

  // -------------------------------------------------------------------------- registers

  /** The pixel x after a defilter step, lane by lane: a is the pixel to the left, b the
      one above, c the one above left. */
  function SseStep(filter: nat, a: seq<byte>, b: seq<byte>, c: seq<byte>, x: seq<byte>): (d: seq<byte>)
    requires Vectorized(filter) && |a| == |b| == |c| == |x| == 4
    ensures |d| == 4
    ensures forall j :: 0 <= j < 4 ==> d[j] == Add8(x[j], Predict(filter, a[j], b[j], c[j]))
  {
    SseLanePredicts(filter, a[0], b[0], c[0]);
    SseLanePredicts(filter, a[1], b[1], c[1]);
    SseLanePredicts(filter, a[2], b[2], c[2]);
    SseLanePredicts(filter, a[3], b[3], c[3]);
    seq(4, j requires 0 <= j < 4 => Add8(x[j], SseLane(filter, a[j], b[j], c[j])))
  }

  function NeonStep(filter: nat, a: seq<byte>, b: seq<byte>, c: seq<byte>, x: seq<byte>): (d: seq<byte>)
    requires Vectorized(filter) && |a| == |b| == |c| == |x| == 8
    ensures |d| == 8
    ensures forall j :: 0 <= j < 8 ==> d[j] == Add8(x[j], Predict(filter, a[j], b[j], c[j]))
  {
    assert forall j :: 0 <= j < 8 ==> NeonLane(filter, a[j], b[j], c[j]) == Predict(filter, a[j], b[j], c[j]) by {
      forall j | 0 <= j < 8 ensures NeonLane(filter, a[j], b[j], c[j]) == Predict(filter, a[j], b[j], c[j]) {
        NeonLanePredicts(filter, a[j], b[j], c[j]);
      }
    }
    seq(8, j requires 0 <= j < 8 => Add8(x[j], NeonLane(filter, a[j], b[j], c[j])))
  }

  /** Eight lanes from position n of two registers put side by side. */
  function Extract(lo: seq<byte>, hi: seq<byte>, n: nat): (r: seq<byte>)
    requires |lo| == |hi| == 8 && n <= 8
    ensures |r| == 8
  {
    (lo + hi)[n..n + 8]
  }

  /** Stores the low n lanes of a register. */
  method Store(row: array<byte>, at: nat, lanes: seq<byte>, n: nat)
    requires n <= |lanes| && at + n <= row.Length
    modifies row
    ensures forall k :: 0 <= k < row.Length ==>
      row[k] == if at <= k < at + n then lanes[k - at] else old(row[k])
  {
    forall j | 0 <= j < n {
      row[at + j] := lanes[j];
    }
  }

  /** The equation of a rebuilt row, at its first n bytes. */
  ghost predicate RebuiltTo(filter: nat, bpp: nat, prev: seq<byte>, coded: seq<byte>, row: seq<byte>, n: nat)
  {
    && bpp > 0 && n <= |row| && n <= |coded| && n <= |prev|
    && forall k :: 0 <= k < n ==> row[k] == Add8(coded[k], PredictAt(filter, bpp, prev, row, k))
  }

  lemma RebuiltPrefix(filter: nat, bpp: nat, prev: seq<byte>, coded: seq<byte>, row: seq<byte>, n: nat, m: nat)
    requires RebuiltTo(filter, bpp, prev, coded, row, n) && m <= n
    ensures row[..m] == DefilterRow(filter, bpp, prev[..m], coded[..m])
  {
    hide Predict;
    forall k | 0 <= k < m
      ensures row[..m][k] == Add8(coded[..m][k], PredictAt(filter, bpp, prev[..m], row[..m], k))
    {
      assert row[k] == Add8(coded[k], PredictAt(filter, bpp, prev, row, k));
    }
    RebuildsIsDefilter(filter, bpp, prev[..m], coded[..m], row[..m]);
  }

  /** One more pixel: bytes n to n + bpp of the new row come from the step, bytes below n
      are as they were. */
  lemma RebuiltPixel(filter: nat, bpp: nat, prev: seq<byte>, coded: seq<byte>, row: seq<byte>, row': seq<byte>, n: nat)
    requires RebuiltTo(filter, bpp, prev, coded, row, n)
    requires |row'| == |row| && n + bpp <= |row| && n + bpp <= |coded| && n + bpp <= |prev|
    requires row'[..n] == row[..n]
    requires forall k :: n <= k < n + bpp ==> row'[k] == Add8(coded[k], PredictAt(filter, bpp, prev, row, k))
    ensures RebuiltTo(filter, bpp, prev, coded, row', n + bpp)
  {
    hide Predict;
    forall k | 0 <= k < n + bpp
      ensures row'[k] == Add8(coded[k], PredictAt(filter, bpp, prev, row', k))
    {
      assert k < n ==> row'[k] == row'[..n][k] == row[..n][k];
      assert k >= bpp ==> row'[k - bpp] == row'[..n][k - bpp] == row[..n][k - bpp];
      assert Before(row', k, bpp) == Before(row, k, bpp);
    }
  }

  /** A register holds the pixel that ends just before position at. */
  ghost predicate HoldsPixel(lanes: seq<byte>, bpp: nat, s: seq<byte>, at: nat)
  {
    && 0 < bpp <= |lanes|
    && at <= |s|
    && forall j :: 0 <= j < bpp ==> lanes[j] == Before(s, at + j, bpp)
  }

  // ------------------------------------------------------------------------------ loops

  /** One pixel with SSE2: load `loaded` bytes of the row and of the row above, the rest of
      the four lanes zero, rebuild, and store the bytes of the pixel. */
  method SsePixel(filter: nat, bpp: nat, loaded: nat, at: nat, row: array<byte>, prev: array<byte>,
                  left: seq<byte>, aboveLeft: seq<byte>, ghost coded: seq<byte>, ghost above: seq<byte>)
    returns (d: seq<byte>, b: seq<byte>)
    requires Vectorized(filter) && 0 < bpp <= loaded <= 4 && row != prev
    requires at + loaded <= row.Length && at + loaded <= prev.Length
    requires |left| == |aboveLeft| == 4 && prev[..] == above
    requires HoldsPixel(left, bpp, row[..], at) && HoldsPixel(aboveLeft, bpp, above, at)
    requires RebuiltTo(filter, bpp, above, coded, row[..], at)
    requires |coded| == row.Length && row[at..] == coded[at..]
    modifies row
    ensures |d| == |b| == 4
    ensures HoldsPixel(d, bpp, row[..], at + bpp) && HoldsPixel(b, bpp, above, at + bpp)
    ensures RebuiltTo(filter, bpp, above, coded, row[..], at + bpp)
    ensures row[at + bpp..] == coded[at + bpp..]
  {
    hide Predict;
    b := prev[at..at + loaded] + Zeros(4 - loaded);
    var x := row[at..at + loaded] + Zeros(4 - loaded);
    d := SseStep(filter, left, b, aboveLeft, x);
    ghost var before := row[..];
    Store(row, at, d, bpp);
    forall k | at <= k < at + bpp
      ensures row[..][k] == Add8(coded[k], PredictAt(filter, bpp, above, before, k))
    {
      assert left[k - at] == Before(before, k, bpp) && aboveLeft[k - at] == Before(above, k, bpp);
      assert row[at..][k - at] == row[k] && coded[at..][k - at] == coded[k];
      assert before[k] == before[at..][k - at];
    }
    RebuiltPixel(filter, bpp, above, coded, before, row[..], at);
    assert row[at + bpp..] == before[at..][bpp..];
  }

  /** SSE2, 3 bytes a pixel: 4-byte loads while a fourth byte can be read, and 3-byte stores. */
  method SseDefilter3(filter: nat, rowbytes: nat, row: array<byte>, prev: array<byte>)
    requires Vectorized(filter) && rowbytes % 3 == 0
    requires rowbytes <= row.Length && rowbytes <= prev.Length && row != prev
    modifies row
    ensures row[..rowbytes] == DefilterRow(filter, 3, prev[..rowbytes], old(row[..rowbytes]))
    ensures row[rowbytes..] == old(row[rowbytes..])
  {
    ghost var coded, above := row[..], prev[..];
    var rb, at := rowbytes, 0;
    ghost var pixels := rowbytes / 3;
    var b: seq<byte> := [0, 0, 0, 0];
    var d: seq<byte> := [0, 0, 0, 0];
    assert RebuiltTo(filter, 3, above, coded, row[..], at);
    assert HoldsPixel(d, 3, row[..], at) && HoldsPixel(b, 3, above, at);
    hide Predict, RebuiltTo, HoldsPixel;
    while rb >= 4
      invariant at + rb == rowbytes && rb == 3 * pixels
      invariant |b| == |d| == 4 && prev[..] == above
      invariant HoldsPixel(d, 3, row[..], at) && HoldsPixel(b, 3, above, at)
      invariant row[at..] == coded[at..]
      invariant RebuiltTo(filter, 3, above, coded, row[..], at)
    {
      d, b := SsePixel(filter, 3, 4, at, row, prev, d, b, coded, above);
      at := at + 3;
      rb := rb - 3;
      pixels := pixels - 1;
    }
    if rb > 0 {
      d, b := SsePixel(filter, 3, 3, at, row, prev, d, b, coded, above);
    }
    RebuiltPrefix(filter, 3, above, coded, row[..], rowbytes, rowbytes);
  }

  /** SSE2, 4 bytes a pixel. */
  method SseDefilter4(filter: nat, rowbytes: nat, row: array<byte>, prev: array<byte>)
    requires Vectorized(filter) && rowbytes % 4 == 0
    requires rowbytes <= row.Length && rowbytes <= prev.Length && row != prev
    modifies row
    ensures row[..rowbytes] == DefilterRow(filter, 4, prev[..rowbytes], old(row[..rowbytes]))
    ensures row[rowbytes..] == old(row[rowbytes..])
  {
    ghost var coded, above := row[..], prev[..];
    var rb, at := rowbytes + 4, 0;
    ghost var pixels := rowbytes / 4 + 1;
    var b: seq<byte> := [0, 0, 0, 0];
    var d: seq<byte> := [0, 0, 0, 0];
    assert RebuiltTo(filter, 4, above, coded, row[..], at);
    assert HoldsPixel(d, 4, row[..], at) && HoldsPixel(b, 4, above, at);
    hide Predict, RebuiltTo, HoldsPixel;
    while rb > 4
      invariant at + rb == rowbytes + 4 && rb == 4 * pixels && pixels >= 1
      invariant |b| == |d| == 4 && prev[..] == above
      invariant HoldsPixel(d, 4, row[..], at) && HoldsPixel(b, 4, above, at)
      invariant row[at..] == coded[at..]
      invariant RebuiltTo(filter, 4, above, coded, row[..], at)
    {
      d, b := SsePixel(filter, 4, 4, at, row, prev, d, b, coded, above);
      at := at + 4;
      rb := rb - 4;
      pixels := pixels - 1;
    }
    RebuiltPrefix(filter, 4, above, coded, row[..], rowbytes, rowbytes);
  }

  /** The low lanes of a register are the pixel at a position. */
  ghost predicate PixelAt(lanes: seq<byte>, bpp: nat, s: seq<byte>, at: nat)
  {
    && bpp <= |lanes| && at + bpp <= |s|
    && forall j :: 0 <= j < bpp ==> lanes[j] == s[at + j]
  }

  /** Four consecutive pixels in four registers. */
  ghost predicate FourPixels(bpp: nat, regs: seq<seq<byte>>, s: seq<byte>, at: nat)
  {
    && |regs| == 4
    && |regs[0]| == 8 && |regs[1]| == 8 && |regs[2]| == 8 && |regs[3]| == 8
    && PixelAt(regs[0], bpp, s, at) && PixelAt(regs[1], bpp, s, at + bpp)
    && PixelAt(regs[2], bpp, s, at + 2 * bpp) && PixelAt(regs[3], bpp, s, at + 3 * bpp)
  }

  /** Pixels of 3 bytes, extracted from a 16-byte load. */
  function Unpack3(v: seq<byte>): (r: seq<seq<byte>>)
    requires |v| == 16
    ensures FourPixels(3, r, v, 0)
  {
    var lo, hi := v[..8], v[8..];
    [lo, Extract(lo, hi, 3), Extract(lo, hi, 6), Extract(hi, hi, 1)]
  }

  /** Pixels of 4 bytes, from a de-interleaving load of eight of them. */
  function Unpack4(v: seq<byte>): (r: seq<seq<byte>>)
    requires |v| == 32
    ensures FourPixels(4, r, v, 0)
  {
    [v[0..4] + v[16..20], v[4..8] + v[20..24], v[8..12] + v[24..28], v[12..16] + v[28..32]]
  }

  /** The four steps of one round, each against the result of the one before. */
  function NeonRound(filter: nat, left: seq<byte>, aboveLeft: seq<byte>, b: seq<seq<byte>>, x: seq<seq<byte>>): (d: seq<seq<byte>>)
    requires Vectorized(filter) && |left| == |aboveLeft| == 8 && |b| == |x| == 4
    requires forall i :: 0 <= i < 4 ==> |b[i]| == |x[i]| == 8
    ensures |d| == 4 && forall i :: 0 <= i < 4 ==> |d[i]| == 8
    ensures d[0] == NeonStep(filter, left, b[0], aboveLeft, x[0])
    ensures d[1] == NeonStep(filter, d[0], b[1], b[0], x[1])
    ensures d[2] == NeonStep(filter, d[1], b[2], b[1], x[2])
    ensures d[3] == NeonStep(filter, d[2], b[3], b[2], x[3])
  {
    var d0 := NeonStep(filter, left, b[0], aboveLeft, x[0]);
    var d1 := NeonStep(filter, d0, b[1], b[0], x[1]);
    var d2 := NeonStep(filter, d1, b[2], b[1], x[2]);
    var d3 := NeonStep(filter, d2, b[3], b[2], x[3]);
    [d0, d1, d2, d3]
  }

  /** The state of a NEON loop before the round at position at: the row is rebuilt up to
      there, and the last store may have spilled one byte beyond. */
  ghost predicate NeonState(filter: nat, bpp: nat, prev: seq<byte>, coded: seq<byte>, row: seq<byte>, at: nat,
                            left: seq<byte>, aboveLeft: seq<byte>)
  {
    && |left| == |aboveLeft| == 8 && |row| == |coded| && at < |row|
    && RebuiltTo(filter, bpp, prev, coded, row, at)
    && HoldsPixel(left, bpp, row, at) && HoldsPixel(aboveLeft, bpp, prev, at)
    && row[at + 1..] == coded[at + 1..]
  }

  /** A row that holds the result of one step is rebuilt one pixel further. */
  lemma StepRebuilds(filter: nat, bpp: nat, prev: seq<byte>, coded: seq<byte>, row: seq<byte>, at: nat,
                     a: seq<byte>, b: seq<byte>, c: seq<byte>, x: seq<byte>, d: seq<byte>)
    requires Vectorized(filter) && |a| == |b| == |c| == |x| == 8 && 0 < bpp <= 8
    requires RebuiltTo(filter, bpp, prev, coded, row, at)
    requires HoldsPixel(a, bpp, row, at) && HoldsPixel(c, bpp, prev, at)
    requires PixelAt(b, bpp, prev, at) && PixelAt(x, bpp, coded, at) && PixelAt(d, bpp, row, at)
    requires d == NeonStep(filter, a, b, c, x)
    ensures RebuiltTo(filter, bpp, prev, coded, row, at + bpp)
    ensures HoldsPixel(d, bpp, row, at + bpp) && HoldsPixel(b, bpp, prev, at + bpp)
  {
    hide Predict;
    forall k | at <= k < at + bpp
      ensures row[k] == Add8(coded[k], PredictAt(filter, bpp, prev, row, k))
    {
      var j := k - at;
      assert d[j] == row[at + j] && b[j] == prev[at + j] && x[j] == coded[at + j];
      assert a[j] == Before(row, at + j, bpp) && c[j] == Before(prev, at + j, bpp);
    }
  }

  lemma RoundSteps(filter: nat, left: seq<byte>, aboveLeft: seq<byte>, b: seq<seq<byte>>, x: seq<seq<byte>>)
    requires Vectorized(filter) && |left| == |aboveLeft| == 8 && |b| == |x| == 4
    requires forall i :: 0 <= i < 4 ==> |b[i]| == |x[i]| == 8
    ensures var d := NeonRound(filter, left, aboveLeft, b, x);
      && |d| == 4 && (forall i :: 0 <= i < 4 ==> |d[i]| == 8)
      && d[0] == NeonStep(filter, left, b[0], aboveLeft, x[0]) && d[1] == NeonStep(filter, d[0], b[1], b[0], x[1])
      && d[2] == NeonStep(filter, d[1], b[2], b[1], x[2]) && d[3] == NeonStep(filter, d[2], b[3], b[2], x[3])
  {
    hide NeonStep;
  }

  /** A row that holds the results of a round is rebuilt four pixels further. */
  lemma RoundRebuilds(filter: nat, bpp: nat, prev: seq<byte>, coded: seq<byte>, row: seq<byte>, row': seq<byte>, at: nat,
                      left: seq<byte>, aboveLeft: seq<byte>, d: seq<seq<byte>>, b: seq<seq<byte>>, x: seq<seq<byte>>)
    requires Vectorized(filter) && 0 < bpp <= 4
    requires NeonState(filter, bpp, prev, coded, row, at, left, aboveLeft)
    requires |row'| == |row| && row'[..at] == row[..at]
    requires FourPixels(bpp, b, prev, at) && FourPixels(bpp, x, coded, at) && FourPixels(bpp, d, row', at)
    requires d == NeonRound(filter, left, aboveLeft, b, x)
    ensures RebuiltTo(filter, bpp, prev, coded, row', at + 4 * bpp)
    ensures HoldsPixel(d[3], bpp, row', at + 4 * bpp) && HoldsPixel(b[3], bpp, prev, at + 4 * bpp)
  {
    hide Predict, NeonRound, NeonStep, Add8, RebuiltTo, HoldsPixel, PixelAt;
    RoundSteps(filter, left, aboveLeft, b, x);
    SamePrefix(filter, bpp, prev, coded, row, row', at, left);
    var mid := at + 2 * bpp;
    assert RebuiltTo(filter, bpp, prev, coded, row', mid) && HoldsPixel(d[1], bpp, row', mid) && HoldsPixel(b[1], bpp, prev, mid) by {
      TwoSteps(filter, bpp, prev, coded, row', at, left, aboveLeft, b[0], x[0], d[0], b[1], x[1], d[1]);
    }
    TwoSteps(filter, bpp, prev, coded, row', mid, d[1], b[1], b[2], x[2], d[2], b[3], x[3], d[3]);
  }

  lemma TwoSteps(filter: nat, bpp: nat, prev: seq<byte>, coded: seq<byte>, row: seq<byte>, at: nat, a: seq<byte>, c: seq<byte>,
                 b0: seq<byte>, x0: seq<byte>, d0: seq<byte>, b1: seq<byte>, x1: seq<byte>, d1: seq<byte>)
    requires Vectorized(filter) && 0 < bpp <= 8
    requires |a| == |c| == |b0| == |x0| == |b1| == |x1| == 8
    requires RebuiltTo(filter, bpp, prev, coded, row, at)
    requires HoldsPixel(a, bpp, row, at) && HoldsPixel(c, bpp, prev, at)
    requires PixelAt(b0, bpp, prev, at) && PixelAt(x0, bpp, coded, at) && PixelAt(d0, bpp, row, at)
    requires PixelAt(b1, bpp, prev, at + bpp) && PixelAt(x1, bpp, coded, at + bpp) && PixelAt(d1, bpp, row, at + bpp)
    requires d0 == NeonStep(filter, a, b0, c, x0) && d1 == NeonStep(filter, d0, b1, b0, x1)
    ensures RebuiltTo(filter, bpp, prev, coded, row, at + 2 * bpp)
    ensures HoldsPixel(d1, bpp, row, at + 2 * bpp) && HoldsPixel(b1, bpp, prev, at + 2 * bpp)
  {
    hide Predict, NeonStep, Add8;
    StepRebuilds(filter, bpp, prev, coded, row, at, a, b0, c, x0, d0);
    StepRebuilds(filter, bpp, prev, coded, row, at + bpp, d0, b1, b0, x1, d1);
  }

  lemma SamePrefix(filter: nat, bpp: nat, prev: seq<byte>, coded: seq<byte>, row: seq<byte>, row': seq<byte>, at: nat, left: seq<byte>)
    requires RebuiltTo(filter, bpp, prev, coded, row, at) && HoldsPixel(left, bpp, row, at)
    requires |row'| == |row| && row'[..at] == row[..at]
    ensures RebuiltTo(filter, bpp, prev, coded, row', at) && HoldsPixel(left, bpp, row', at)
  {
    assert forall k :: 0 <= k < at ==> row'[k] == row'[..at][k] == row[..at][k] == row[k];
    assert forall k :: 0 <= k < at + bpp ==> Before(row', k, bpp) == Before(row, k, bpp);
  }

  /** Four 4-byte stores, one pixel apart. */
  method StoreRound(row: array<byte>, at: nat, bpp: nat, d: seq<seq<byte>>)
    requires |d| == 4 && forall i :: 0 <= i < 4 ==> |d[i]| == 8
    requires 3 <= bpp <= 4 && at + 3 * bpp + 4 <= row.Length
    modifies row
    ensures FourPixels(bpp, d, row[..], at)
    ensures row[..at] == old(row[..at]) && row[at + 3 * bpp + 4..] == old(row[at + 3 * bpp + 4..])
  {
    Store(row, at, d[0], 4);
    Store(row, at + bpp, d[1], 4);
    Store(row, at + 2 * bpp, d[2], 4);
    Store(row, at + 3 * bpp, d[3], 4);
  }

  /** One round of the loop: compute from registers alone, then store. */
  method NeonStoreRound(filter: nat, bpp: nat, row: array<byte>, prev: array<byte>, at: nat, left: seq<byte>,
                        aboveLeft: seq<byte>, b: seq<seq<byte>>, x: seq<seq<byte>>, ghost coded: seq<byte>, ghost above: seq<byte>)
    returns (last: seq<byte>)
    requires Vectorized(filter) && 3 <= bpp <= 4 && row != prev
    requires at + 3 * bpp + 4 < row.Length && prev[..] == above
    requires NeonState(filter, bpp, above, coded, row[..], at, left, aboveLeft)
    requires FourPixels(bpp, b, above, at) && FourPixels(bpp, x, coded, at)
    modifies row
    ensures NeonState(filter, bpp, above, coded, row[..], at + 4 * bpp, last, b[3])
    ensures row[at + 3 * bpp + 4..] == coded[at + 3 * bpp + 4..]
  {
    hide Predict;
    var d := NeonRound(filter, left, aboveLeft, b, x);
    ghost var before := row[..];
    StoreRound(row, at, bpp, d);
    RoundRebuilds(filter, bpp, above, coded, before, row[..], at, left, aboveLeft, d, b, x);
    assert row[at + 3 * bpp + 4..] == before[at + 1..][3 * bpp + 3..];
    last := d[3];
  }

  lemma SameTail(s: seq<byte>, t: seq<byte>, n: nat, lo: nat, hi: nat)
    requires n <= lo <= hi <= |s| == |t| && s[n..] == t[n..]
    ensures s[lo..hi] == t[lo..hi]
  {
    assert forall k :: lo <= k < hi ==> s[k] == s[n..][k - n] == t[n..][k - n] == t[k];
  }

  /** NEON, 3 bytes a pixel: 16-byte loads one round ahead of the stores, and 4-byte stores
      that overlap by one byte. Reads and stores run past the end of the row, as far as the
      32 bytes of slack of a scanline buffer allow. */
  method NeonDefilter3(filter: nat, rowbytes: nat, row: array<byte>, prev: array<byte>)
    requires Vectorized(filter) && rowbytes % 3 == 0
    requires rowbytes + 25 <= row.Length && rowbytes + 25 <= prev.Length && row != prev
    modifies row
    ensures row[..rowbytes] == DefilterRow(filter, 3, prev[..rowbytes], old(row[..rowbytes]))
  {
    ghost var coded, above := row[..], prev[..];
    var rp := 0;
    var vrp := row[0..16];
    ghost var pixels: int := rowbytes / 3;
    var last, left := Zeros(8), Zeros(8);
    assert NeonState(filter, 3, above, coded, row[..], rp, left, last);
    hide Predict, RebuiltTo, HoldsPixel;
    while rp < rowbytes
      invariant rp + 3 * pixels == rowbytes && pixels >= -3
      invariant prev[..] == above && vrp == coded[rp..rp + 16]
      invariant NeonState(filter, 3, above, coded, row[..], rp, left, last)
    {
      var vpp := prev[rp..rp + 16];
      var b, x := Unpack3(vpp), Unpack3(vrp);
      vrp := row[rp + 12..rp + 28];
      SameTail(row[..], coded, rp + 1, rp + 12, rp + 28);
      left := NeonStoreRound(filter, 3, row, prev, rp, left, last, b, x, coded, above);
      last := b[3];
      rp := rp + 12;
      pixels := pixels - 4;
    }
    RebuiltPrefix(filter, 3, above, coded, row[..], rp, rowbytes);
  }

  /** NEON, 4 bytes a pixel: de-interleaving loads of eight pixels, of which four are stored. */
  method NeonDefilter4(filter: nat, rowbytes: nat, row: array<byte>, prev: array<byte>)
    requires Vectorized(filter) && rowbytes % 4 == 0
    requires rowbytes + 28 <= row.Length && rowbytes + 28 <= prev.Length && row != prev
    modifies row
    ensures row[..rowbytes] == DefilterRow(filter, 4, prev[..rowbytes], old(row[..rowbytes]))
  {
    ghost var coded, above := row[..], prev[..];
    var rp := 0;
    ghost var pixels: int := rowbytes / 4;
    var last, left := Zeros(8), Zeros(8);
    assert NeonState(filter, 4, above, coded, row[..], rp, left, last);
    hide Predict, RebuiltTo, HoldsPixel;
    while rp < rowbytes
      invariant rp + 4 * pixels == rowbytes && pixels >= -3
      invariant prev[..] == above && row[rp..] == coded[rp..]
      invariant NeonState(filter, 4, above, coded, row[..], rp, left, last)
    {
      SameTail(row[..], coded, rp, rp, rp + 32);
      var b, x := Unpack4(prev[rp..rp + 32]), Unpack4(row[rp..rp + 32]);
      left := NeonStoreRound(filter, 4, row, prev, rp, left, last, b, x, coded, above);
      last := b[3];
      rp := rp + 16;
      pixels := pixels - 4;
    }
    RebuiltPrefix(filter, 4, above, coded, row[..], rp, rowbytes);
  }
}
