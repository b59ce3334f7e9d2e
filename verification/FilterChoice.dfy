/**
 The encoder's choice of a filter for a scanline: the minimum sum of absolute differences
 (section 12.8 of ISO/IEC 15948), over the filters that the caller enabled.
 */
module FilterChoice {
  import opened Octets
  import opened Filtering

  const INT32_MAX: int := 0x7fff_ffff

  /** A filtered byte read as a signed difference: its distance to 0 modulo 256. */
  function Magnitude(x: byte): (m: nat)
    ensures m <= 128
  {
    Min(x, 256 - x)
  }

  function SumOfMagnitudes(s: seq<byte>): (sum: nat)
    ensures sum <= 128 * |s|
  {
    if s == [] then 0 else SumOfMagnitudes(s[..|s| - 1]) + Magnitude(s[|s| - 1])
  }

  /** The score of a filter is taken over exactly the bytes that the filter would emit. */
  function Score(filter: nat, bpp: nat, prev: seq<byte>, row: seq<byte>): nat
    requires bpp > 0 && |row| <= |prev|
  {
    SumOfMagnitudes(FilterRow(filter, bpp, prev, row))
  }

  /** The row filtered with None is the row itself. */
  lemma NoneIsIdentity(bpp: nat, prev: seq<byte>, row: seq<byte>)
    requires bpp > 0 && |row| <= |prev|
    ensures FilterRow(FILTER_NONE, bpp, prev, row) == row
  {
  }

  /** The sum of a row, in 32 bits: a row long enough to overflow is not summed. */
  method FilterSum(prev: array<byte>, scanline: array<byte>, at: nat, size: nat, bpp: nat, filter: nat) returns (sum: int)
    requires bpp > 0 && at + size <= Min(prev.Length, scanline.Length)
    ensures size > INT32_MAX / 128 ==> sum == INT32_MAX
    ensures size <= INT32_MAX / 128 ==>
      0 <= sum <= 128 * size < INT32_MAX && sum == Score(filter, bpp, prev[at..at + size], scanline[at..at + size])
  {
    hide Paeth;
    if size > INT32_MAX / 128 {
      return INT32_MAX;
    }
    var i := 0;
    sum := 0;
    ghost var row, above := scanline[at..at + size], prev[at..at + size];
    ghost var filtered := FilterRow(filter, bpp, above, row);
    while i < size
      invariant 0 <= i <= size
      invariant 0 <= sum <= 128 * i
      invariant sum == SumOfMagnitudes(filtered[..i])
    {
      var a, c := 0, 0;
      if i >= bpp {
        a, c := scanline[at + i - bpp], prev[at + i - bpp];
      }
      var b := prev[at + i];
      var x := scanline[at + i];
      if filter == FILTER_SUB {
        x := Sub8(x, a);
      } else if filter == FILTER_UP {
        x := Sub8(x, b);
      } else if filter == FILTER_AVERAGE {
        var avg: int := (a as int + b as int) / 2;
        x := Sub8(x, avg);
      } else if filter == FILTER_PAETH {
        x := Sub8(x, Paeth(a, b, c));
      }
      assert a == Before(row, i, bpp) && b == above[i] && c == Before(above, i, bpp);
      assert x == filtered[i];
      assert filtered[..i + 1][..i] == filtered[..i];
      sum := sum + (128 - Abs(x as int - 128));
      i := i + 1;
    }
    assert filtered[..size] == filtered;
  }

  // ---------------------------------------------------------------------------------
  // The set of enabled filters is a bit mask: filter i is bit i + 3.

  function Flag(filter: nat): (f: nat)
    requires filter <= 4
  {
    [8, 16, 32, 64, 128][filter]
  }

  predicate Enabled(choices: nat, filter: nat)
    requires filter <= 4
  {
    choices / Flag(filter) % 2 == 1
  }

  /** A mask that the option setter accepts. */
  predicate ValidChoices(choices: nat) {
    choices < 256 && choices % 8 == 0
  }

  /** The mask has exactly one bit: the test n & (n - 1) == 0. */
  predicate IsSingle(choices: nat)
    requires choices > 0
  {
    BitAnd(choices, choices - 1) == 0
  }

  lemma AndStep(a: nat, b: nat, p: nat, q: nat)
    requires p < 2 && q < 2 && p * q == 0
    ensures BitAnd(2 * a + p, 2 * b + q) == 2 * BitAnd(a, b)
  {
    var x, y := 2 * a + p, 2 * b + q;
    assert x / 2 == a && y / 2 == b && x % 2 == p && y % 2 == q;
  }

  lemma {:induction false} AndSelf(a: nat)
    ensures BitAnd(a, a) == a
  {
    if a > 0 {
      AndSelf(a / 2);
    }
  }

  /** The bit trick is right: n & (n - 1) is 0 if and only if n is a power of two. */
  lemma {:induction false} SingleIsPowerOfTwo(n: nat)
    requires n > 0
    ensures IsSingle(n) <==> exists k: nat :: n == Pow2(k)
  {
    if n == 1 {
      assert n == Pow2(0);
    } else if n % 2 == 1 {
      var h := n / 2;
      AndStep(h, h, 1, 0);
      AndSelf(h);
      forall k: nat ensures n != Pow2(k) {
        if k > 0 {
          assert Pow2(k) == 2 * Pow2(k - 1);
        }
      }
    } else {
      var h := n / 2;
      AndStep(h, h - 1, 0, 1);
      SingleIsPowerOfTwo(h);
      if k: nat :| h == Pow2(k) {
        assert n == Pow2(k + 1);
      }
      if k: nat :| n == Pow2(k) {
        assert k > 0 && Pow2(k) == 2 * Pow2(k - 1);
        assert h == Pow2(k - 1);
      }
    }
  }

  /** A mask with one bit enables exactly one filter. */
  lemma SingleFlag(choices: nat)
    requires ValidChoices(choices) && choices > 0 && IsSingle(choices)
    ensures exists f :: 0 <= f <= 4 && choices == Flag(f)
  {
    hide Pow2, BitAnd;
    SingleIsPowerOfTwo(choices);
    var k: nat :| choices == Pow2(k);
    Pow2Table();
    if k >= 8 {
      Pow2Monotone(8, k);
      assert false;
    }
    assert choices == Flag(k - 3);
  }

  /** What the choice promises: with several filters enabled, the lowest-numbered one among
      those of least score; with one, that one; with none, no filtering. */
  ghost predicate IsBest(choices: nat, bpp: nat, prev: seq<byte>, row: seq<byte>, best: nat)
    requires bpp > 0 && |row| <= |prev|
  {
    && best <= 4
    && (choices == 0 ==> best == FILTER_NONE)
    && (choices > 0 && IsSingle(choices) ==> choices == Flag(best))
    && (choices > 0 && !IsSingle(choices) && |row| > INT32_MAX / 128 ==> best == FILTER_NONE)
    && (choices > 0 && !IsSingle(choices) && |row| <= INT32_MAX / 128 ==>
          && Enabled(choices, best)
          && forall f :: 0 <= f <= 4 && Enabled(choices, f) ==>
               Score(best, bpp, prev, row) <= Score(f, bpp, prev, row)
               && (f < best ==> Score(best, bpp, prev, row) < Score(f, bpp, prev, row)))
  }

  /** The promise leaves no freedom: the choice is a function of the mask and the two rows. */
  lemma BestIsUnique(choices: nat, bpp: nat, prev: seq<byte>, row: seq<byte>, best: nat, other: nat)
    requires bpp > 0 && |row| <= |prev|
    requires IsBest(choices, bpp, prev, row, best) && IsBest(choices, bpp, prev, row, other)
    ensures best == other
  {
  }

  lemma SomeEnabled(choices: nat)
    requires ValidChoices(choices) && choices > 0
    ensures exists f :: 0 <= f <= 4 && Enabled(choices, f)
  {
    var f := if choices / 8 % 2 == 1 then 0 else if choices / 16 % 2 == 1 then 1 else if choices / 32 % 2 == 1 then 2
             else if choices / 64 % 2 == 1 then 3 else 4;
    assert Enabled(choices, f);
  }

  method GetBestFilter(prev: array<byte>, scanline: array<byte>, at: nat, scanlineWidth: nat, bpp: nat, choices: nat)
    returns (best: nat)
    requires bpp > 0 && scanlineWidth >= 1 && at + scanlineWidth <= Min(prev.Length, scanline.Length) + 1
    requires ValidChoices(choices)
    ensures best <= 4
    ensures IsBest(choices, bpp, prev[at..at + scanlineWidth - 1], scanline[at..at + scanlineWidth - 1], best)
  {
    hide FilterRow, Score, BitAnd;
    if choices == 0 {
      return FILTER_NONE;
    }
    var size := scanlineWidth - 1;
    ghost var row, above := scanline[at..at + size], prev[at..at + size];
    if BitAnd(choices, choices - 1) == 0 {
      SingleFlag(choices);
      for i := 0 to 5
        invariant forall f :: 0 <= f < i ==> choices != Flag(f)
      {
        if choices == Flag(i) {
          return i;
        }
      }
      assert false;
    }
    var bestScore := INT32_MAX;
    best := 0;
    ghost var scored := false;
    for i := 0 to 5
      invariant best <= 4
      invariant !scored ==> best == 0 && bestScore == INT32_MAX
      invariant scored ==> best < i && Enabled(choices, best) && size <= INT32_MAX / 128
      invariant scored ==> bestScore == Score(best, bpp, above, row)
      invariant size > INT32_MAX / 128 ==> !scored
      invariant size <= INT32_MAX / 128 ==> forall f :: 0 <= f < i && Enabled(choices, f) ==>
        scored && bestScore <= Score(f, bpp, above, row) && (f < best ==> bestScore < Score(f, bpp, above, row))
    {
      if choices / Flag(i) % 2 == 1 {
        var sum := FilterSum(prev, scanline, at, size, bpp, i);
        if sum < bestScore {
          bestScore := sum;
          best := i;
          scored := true;
        }
      }
    }
    SomeEnabled(choices);
  }

  /** Enabling the filter None alone is the same as disabling filters. */
  lemma NoneAloneIsNoFilter(bpp: nat, prev: seq<byte>, row: seq<byte>, best: nat)
    requires bpp > 0 && |row| <= |prev|
    ensures IsBest(Flag(FILTER_NONE), bpp, prev, row, best) <==> best == FILTER_NONE
    ensures IsBest(0, bpp, prev, row, best) <==> best == FILTER_NONE
  {
    assert Flag(FILTER_NONE) == 8 && BitAnd(8, 7) == 0;
    hide Score;
  }

  /** Some enabled filter looks at the row above. */
  predicate NeedsPrevious(choices: nat) {
    Enabled(choices, FILTER_UP) || Enabled(choices, FILTER_AVERAGE) || Enabled(choices, FILTER_PAETH)
  }

  /** A chosen filter that looks at the row above was enabled. */
  lemma ChosenNeedsPrevious(choices: nat, bpp: nat, prev: seq<byte>, row: seq<byte>, best: nat)
    requires bpp > 0 && |row| <= |prev| && IsBest(choices, bpp, prev, row, best)
    ensures best > FILTER_SUB ==> NeedsPrevious(choices)
  {
    hide Score, IsSingle;
  }

  /** When no enabled filter looks at the row above, the choice does not depend on it. */
  lemma BestIgnoresPrevious(choices: nat, bpp: nat, prev: seq<byte>, prev': seq<byte>, row: seq<byte>, best: nat)
    requires bpp > 0 && |row| <= |prev| && |row| <= |prev'|
    requires !NeedsPrevious(choices) && IsBest(choices, bpp, prev, row, best)
    ensures IsBest(choices, bpp, prev', row, best)
  {
    FilterIgnoresPrevious(FILTER_NONE, bpp, prev, prev', row);
    FilterIgnoresPrevious(FILTER_SUB, bpp, prev, prev', row);
    assert Score(0, bpp, prev, row) == Score(0, bpp, prev', row) && Score(1, bpp, prev, row) == Score(1, bpp, prev', row);
    hide Score, IsSingle;
  }

  // ---------------------------------------------------------------------------------
  // In numbers.

  /** Which masks have one bit, and which bit is which filter. */
  lemma Masks(choices: nat, bpp: nat, prev: seq<byte>, row: seq<byte>, best: nat)
    requires bpp > 0 && |row| <= |prev| && ValidChoices(choices) && IsBest(choices, bpp, prev, row, best)
    ensures choices == 8 ==> best == 0
    ensures choices == 16 ==> best == 1
    ensures choices == 32 ==> best == 2
    ensures choices == 64 ==> best == 3
    ensures choices == 128 ==> best == 4
    ensures choices !in {0, 8, 16, 32, 64, 128} && |row| <= 16777215 ==> choices / [8, 16, 32, 64, 128][best] % 2 == 1
    ensures choices == 0 || (choices !in {8, 16, 32, 64, 128} && |row| > 16777215) ==> best == 0
  {
    if choices > 0 {
      SingleMasks(choices);
    }
    hide Score, IsSingle;
  }

  lemma SingleMasks(choices: nat)
    requires ValidChoices(choices) && choices > 0
    ensures IsSingle(choices) <==> choices in {8, 16, 32, 64, 128}
  {
    hide Pow2, IsSingle;
    SingleIsPowerOfTwo(choices);
    Pow2Table();
    if IsSingle(choices) {
      var k: nat :| choices == Pow2(k);
      if k >= 8 {
        Pow2Monotone(8, k);
      }
    } else {
      assert choices != Pow2(3) && choices != Pow2(4) && choices != Pow2(5) && choices != Pow2(6) && choices != Pow2(7);
    }
  }

  /** Of a difference of bytes its magnitude is the distance, unless that is more than half of what bytes span. */
  lemma MagnitudeOfDifference(a: byte, b: byte)
    requires -128 <= a as int - b as int <= 128
    ensures Magnitude(Sub8(a, b)) == if a < b then b - a else a - b
  {
  }

  /** The sum of absolute differences between two rows. */
  function Differences(a: seq<byte>, b: seq<byte>): nat
    requires |a| == |b|
  {
    if a == [] then 0
    else
      var n := |a| - 1;
      Differences(a[..n], b[..n]) + (if a[n] < b[n] then b[n] - a[n] else a[n] - b[n])
  }

  lemma {:induction false} MagnitudesAreDifferences(s: seq<byte>, a: seq<byte>, b: seq<byte>)
    requires |s| == |a| == |b| && forall i :: 0 <= i < |a| ==> s[i] == Sub8(a[i], b[i]) && -128 <= a[i] as int - b[i] as int <= 128
    ensures SumOfMagnitudes(s) == Differences(a, b)
  {
    if s != [] {
      var n := |s| - 1;
      MagnitudesAreDifferences(s[..n], a[..n], b[..n]);
      MagnitudeOfDifference(a[n], b[n]);
    }
  }

  /** So filter 2 is scored by how far the row is from the one above, as long as no byte is further than 128. */
  lemma ScoreOfUp(bpp: nat, prev: seq<byte>, row: seq<byte>)
    requires bpp > 0 && |row| <= |prev| && forall i :: 0 <= i < |row| ==> -128 <= row[i] as int - prev[i] as int <= 128
    ensures Score(2, bpp, prev, row) == Differences(row, prev[..|row|])
  {
    MagnitudesAreDifferences(FilterRow(2, bpp, prev, row), row, prev[..|row|]);
  }

  /** And filter 1 by how far each pixel is from the one to its left. */
  lemma ScoreOfSub(bpp: nat, prev: seq<byte>, row: seq<byte>, left: seq<byte>)
    requires bpp > 0 && |row| <= |prev| && |left| == |row|
    requires forall i :: 0 <= i < |row| ==> left[i] == if i < bpp then 0 else row[i - bpp]
    requires forall i :: 0 <= i < |row| ==> -128 <= row[i] as int - left[i] as int <= 128
    ensures Score(1, bpp, prev, row) == Differences(row, left)
  {
    MagnitudesAreDifferences(FilterRow(1, bpp, prev, row), row, left);
  }

  lemma ScoresOfZeroBelowOne()
    ensures Score(0, 1, [1], [0]) == 0 && Score(2, 1, [1], [0]) == 1
  {
    ScoreOfUp(1, [1], [0]);
    NoneIsIdentity(1, [1], [0]);
    hide FilterRow;
    assert Differences([0][..0], [1][..0]) == 0;
    assert SumOfMagnitudes([0][..0]) == 0;
  }

  /** Between None and Up, a row of a zero below a one stays as it is. */
  lemma ZeroBelowOne(best: nat)
    requires IsBest(40, 1, [1], [0], best)
    ensures best == 0
  {
    ScoresOfZeroBelowOne();
    SingleMasks(40);
    hide IsSingle, Score;
    assert Enabled(40, 0);
  }
}
