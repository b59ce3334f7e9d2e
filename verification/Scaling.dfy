/**
 Scaling a sample from one number of significant bits to another (sections 12.5 and 13.12
 of ISO/IEC 15948): downwards by dropping low bits, upwards by left bit replication.
 */
module Scaling {
  import opened Octets
  import opened Samples

  /** n significant bits repeated from the left until t bits are filled. */
  function Replicate(s: nat, n: nat, t: nat): nat
    requires n > 0
    decreases t
  {
    if t < n then ShiftRight(s, n - t) else s * Pow2(t - n) + Replicate(s, n, t - n)
  }

  /** What is left of s * 2^t when the replicated bits are counted 2^n - 1 times. */
  function Rest(s: nat, n: nat, t: nat): int
    requires n > 0
  {
    s * Pow2(t) - (Pow2(n) - 1) * Replicate(s, n, t)
  }

  lemma {:induction false} ShiftRightIsQuotient(x: nat, n: nat) returns (rest: nat)
    ensures x == ShiftRight(x, n) * Pow2(n) + rest && rest < Pow2(n)
    decreases n
  {
    if n == 0 {
      rest := 0;
    } else {
      var r := ShiftRightIsQuotient(x / 2, n - 1);
      rest := 2 * r + x % 2;
      assert x == 2 * (x / 2) + x % 2;
      assert ShiftRight(x / 2, n - 1) * Pow2(n) == 2 * (ShiftRight(x / 2, n - 1) * Pow2(n - 1));
    }
  }

  lemma PolynomialStep(s: int, N: int, P: int, R: int)
    ensures s * (N * P) - (N - 1) * (s * P + R) == s * P - (N - 1) * R
  {
    assert s * (N * P) == (s * P) * N;
    assert (N - 1) * (s * P + R) == (s * P) * N - s * P + (N - 1) * R;
  }

  /** A full round of replication leaves the rest as it was. */
  lemma RestStep(s: nat, n: nat, t: nat)
    requires 0 < n <= t
    ensures Rest(s, n, t) == Rest(s, n, t - n)
  {
    Pow2Add(n, t - n);
    PolynomialStep(s, Pow2(n), Pow2(t - n), Replicate(s, n, t - n));
  }

  lemma Grows(a: int, b: int, c: int)
    ensures a <= b && c >= 0 ==> a * c <= b * c
    ensures a < b && c > 0 ==> a * c < b * c
  {
  }

  /** Two-digit numbers: the digits swapped give the largest number if and only if they are
      both the largest digits. */
  lemma DigitsSwapped(a: nat, b: nat, T: nat, U: nat)
    requires a < T && b < U
    ensures a + b * T <= T * U - 1
    ensures a + b * T == T * U - 1 <==> a * U + b == T * U - 1
  {
    assert (U - 1) * T == T * U - T && (T - 1) * U == T * U - U;
    assert (U - 2) * T == T * U - 2 * T && (T - 2) * U == T * U - 2 * U;
    Grows(b, U - 1, T);
    Grows(b, U - 2, T);
    Grows(a, T - 1, U);
    Grows(a, T - 2, U);
  }

  lemma SwapIdentity(a: int, b: int, T: int, U: int)
    ensures (a * U + b) * T - (T * U - 1) * a == a + b * T
  {
    assert (a * U + b) * T == a * (U * T) + b * T;
    assert (T * U - 1) * a == a * (U * T) - a;
  }

  /** The rest of a partial round, filled from the high bits of the sample. */
  lemma RestBase(s: nat, n: nat, t: nat)
    requires t < n && s < Pow2(n)
    ensures 0 <= Rest(s, n, t) <= Pow2(n) - 1
    ensures Rest(s, n, t) == Pow2(n) - 1 <==> s == Pow2(n) - 1
  {
    hide ShiftRight, Pow2, Rest;
    var a, T, U := ShiftRight(s, n - t), Pow2(t), Pow2(n - t);
    var b := ShiftRightIsQuotient(s, n - t);
    Pow2Add(t, n - t);
    PartialRest(s, n, t);
    BaseBounds(s, a, b, T, U);
  }

  lemma PartialRest(s: nat, n: nat, t: nat)
    requires t < n
    ensures Rest(s, n, t) == s * Pow2(t) - (Pow2(n) - 1) * ShiftRight(s, n - t)
  {
    hide ShiftRight, Pow2;
  }

  lemma BaseBounds(s: nat, a: nat, b: nat, T: nat, U: nat)
    requires s == a * U + b && b < U && s < T * U
    ensures 0 <= s * T - (T * U - 1) * a <= T * U - 1
    ensures s * T - (T * U - 1) * a == T * U - 1 <==> s == T * U - 1
  {
    HighDigit(a, b, T, U, s);
    SwapIdentity(a, b, T, U);
    DigitsSwapped(a, b, T, U);
  }

  lemma HighDigit(a: nat, b: nat, T: nat, U: nat, s: nat)
    requires s == a * U + b && s < T * U
    ensures a < T
  {
    Grows(T, a, U);
  }

  /** The replicated bits are the exact quotient of s * 2^t by 2^n - 1, rounded down, except
      that the largest sample would reach 2^t and becomes 2^t - 1. */
  lemma {:induction false} RestRange(s: nat, n: nat, t: nat)
    requires n > 0 && s < Pow2(n)
    ensures 0 <= Rest(s, n, t) <= Pow2(n) - 1
    ensures Rest(s, n, t) == Pow2(n) - 1 <==> s == Pow2(n) - 1
    decreases t
  {
    if t < n {
      RestBase(s, n, t);
    } else {
      RestStep(s, n, t);
      RestRange(s, n, t - n);
    }
  }

  /** Upscaling: floor(2^t * s / (2^n - 1)) below the maximum, and maximum to maximum. */
  lemma UpscaleIsFloor(s: nat, n: nat, t: nat)
    requires n > 0 && s < Pow2(n)
    ensures s < Pow2(n) - 1 ==>
      Replicate(s, n, t) * (Pow2(n) - 1) <= Pow2(t) * s < (Replicate(s, n, t) + 1) * (Pow2(n) - 1)
    ensures s == Pow2(n) - 1 ==> Replicate(s, n, t) == Pow2(t) - 1
    ensures Replicate(s, n, t) < Pow2(t)
  {
    RestRange(s, n, t);
    Pow2Monotone(1, n);
    FloorFromRest(s, Pow2(t), Replicate(s, n, t), Pow2(n) - 1, Rest(s, n, t));
  }

  lemma FloorFromRest(s: nat, T: nat, R: nat, M: nat, rest: int)
    requires 0 < M && s <= M && rest == s * T - M * R && 0 <= rest <= M && (rest == M <==> s == M) && T > 0
    ensures s < M ==> R * M <= T * s < (R + 1) * M
    ensures s == M ==> R == T - 1
    ensures R < T
  {
    assert (R + 1) * M == M * R + M;
    Cancel(M, T, R + 1);
    Grows(T, R, M);
    Grows(s, M, T);
  }

  lemma Cancel(m: int, a: int, b: int)
    ensures m > 0 && m * a == m * b ==> a == b
  {
    Grows(a, b, m);
    Grows(b, a, m);
  }

  /** A larger sample never becomes a smaller one. */
  lemma UpscaleIsMonotone(s: nat, s': nat, n: nat, t: nat)
    requires n > 0 && s <= s' < Pow2(n)
    ensures Replicate(s, n, t) <= Replicate(s', n, t)
  {
    UpscaleIsFloor(s, n, t);
    UpscaleIsFloor(s', n, t);
    var R, R', M := Replicate(s, n, t), Replicate(s', n, t), Pow2(n) - 1;
    Grows(s, s', Pow2(t));
    Grows(R' + 1, R, M);
  }

  /** The upscaled sample is less than 1 away from exact linear scaling, which would be
      s * (2^t - 1) / (2^n - 1); stated without the division. */
  lemma UpscaleIsNearlyLinear(s: nat, n: nat, t: nat)
    requires n > 0 && s < Pow2(n)
    ensures Abs(Replicate(s, n, t) * (Pow2(n) - 1) - s * (Pow2(t) - 1)) < Pow2(n) - 1
  {
    RestRange(s, n, t);
    Pow2Monotone(1, n);
    LinearFromRest(s, Pow2(t), Replicate(s, n, t), Pow2(n) - 1, Rest(s, n, t));
  }

  lemma LinearFromRest(s: nat, T: nat, R: nat, M: nat, rest: int)
    requires 0 < M && s <= M && rest == s * T - M * R && 0 <= rest <= M && (rest == M <==> s == M)
    ensures Abs(R * M - s * (T - 1)) < M
  {
    assert s * (T - 1) == s * T - s;
    assert R * M - s * (T - 1) == s - rest;
  }

  /** Scaling back down gives the sample again. */
  lemma DownscaleUndoesUpscale(s: nat, n: nat, t: nat)
    requires 0 < n <= t && s < Pow2(n)
    ensures ShiftRight(Replicate(s, n, t), t - n) == s
  {
    UpscaleIsFloor(s, n, t - n);
    var low := Replicate(s, n, t - n);
    var rest := ShiftRightIsQuotient(Replicate(s, n, t), t - n);
    QuotientIsUnique(s, low, ShiftRight(Replicate(s, n, t), t - n), rest, Pow2(t - n));
  }

  lemma QuotientIsUnique(q: int, r: nat, q': int, r': nat, b: nat)
    requires q * b + r == q' * b + r' && r < b && r' < b
    ensures q == q'
  {
    Grows(q + 1, q', b);
    Grows(q' + 1, q, b);
  }

  // ---------------------------------------------------------------------------- the loop

  /** The significant bits of a sample, moved to the bottom. */
  function Kept(sample: nat, bitDepth: nat, sbits: nat): nat
    requires sbits <= bitDepth
  {
    ShiftRight(sample, bitDepth - sbits)
  }

  lemma {:induction false} KeptBelow(x: nat, n: nat, m: nat)
    requires x < Pow2(n + m)
    ensures ShiftRight(x, m) < Pow2(n)
    decreases m
  {
    if m > 0 {
      KeptBelow(x / 2, n, m - 1);
    }
  }

  lemma {:induction false} ShiftLeftIsProduct(x: nat, n: nat)
    ensures ShiftLeft(x, n) == x * Pow2(n)
    decreases n
  {
    if n > 0 {
      ShiftLeftIsProduct(2 * x, n - 1);
      assert (2 * x) * Pow2(n - 1) == x * (2 * Pow2(n - 1));
    }
  }

  /** Bits or-ed below the lowest bit that is set are added. */
  lemma {:induction false} OrBelow(a: nat, b: nat, m: nat)
    requires b < Pow2(m)
    ensures BitOr(ShiftLeft(a, m), b) == ShiftLeft(a, m) + b
    decreases m
  {
    if m > 0 {
      var x := ShiftLeft(a, m);
      ShiftLeftIsDouble(a, m - 1);
      OrBelow(a, b / 2, m - 1);
      OrHalves(x, b);
      SameHalves(BitOr(x, b), x + b);
    }
  }

  /** The bits set after some rounds: those of the rounds still to come are clear. */
  ghost predicate FilledTo(s: nat, n: nat, t: nat, left: nat, sample: nat)
    requires n > 0
  {
    (exists a: nat :: sample == ShiftLeft(a, left)) && sample + Replicate(s, n, left) == Replicate(s, n, t)
  }

  lemma HornerStep(a: nat, s: nat, N: nat, P: nat)
    ensures a * (N * P) + s * P == (a * N + s) * P
  {
    assert a * (N * P) == (a * N) * P;
  }

  lemma ReplicateStep(s: nat, n: nat, t: nat)
    requires 0 < n <= t
    ensures Replicate(s, n, t) == s * Pow2(t - n) + Replicate(s, n, t - n)
  {
  }

  /** One round of the loop sets the next n bits. */
  lemma FillRound(s: nat, n: nat, t: nat, left: nat, sample: nat)
    requires 0 < n <= left && s < Pow2(n) && FilledTo(s, n, t, left, sample)
    ensures FilledTo(s, n, t, left - n, BitOr(sample, ShiftLeft(s, left - n)))
  {
    hide Pow2, BitOr, ShiftLeft, Replicate;
    var a: nat :| sample == ShiftLeft(a, left);
    var low := ShiftLeft(s, left - n);
    ShiftLeftStaysBelow(s, n, left - n);
    OrBelow(a, low, left);
    ShiftLeftIsProduct(s, left - n);
    ShiftLeftIsProduct(a, left);
    ShiftLeftIsProduct(a * Pow2(n) + s, left - n);
    Pow2Add(n, left - n);
    HornerStep(a, s, Pow2(n), Pow2(left - n));
    ReplicateStep(s, n, left);
    assert BitOr(sample, low) == ShiftLeft(a * Pow2(n) + s, left - n);
  }

  lemma NothingFilled(s: nat, n: nat, t: nat)
    requires n > 0
    ensures FilledTo(s, n, t, t, 0)
  {
    ShiftLeftIsProduct(0, t);
    assert ShiftLeft(0, t) == 0;
  }

  /** What is left of the last round takes the high bits of the sample. */
  lemma FillRest(s: nat, n: nat, t: nat, left: nat, sample: nat)
    requires 0 < n && left < n && s < Pow2(n) && FilledTo(s, n, t, left, sample)
    ensures BitOr(sample, ShiftRight(s, n - left)) == Replicate(s, n, t)
    ensures left == 0 ==> sample == Replicate(s, n, t)
  {
    var a: nat :| sample == ShiftLeft(a, left);
    KeptBelow(s, left, n - left);
    OrBelow(a, ShiftRight(s, n - left), left);
  }

  lemma ScaledRange(sample: nat, bitDepth: nat, sbits: nat, target: nat)
    requires 0 < sbits <= bitDepth <= 16 && 1 <= target <= 16 && sample < Pow2(bitDepth)
    ensures Kept(sample, bitDepth, sbits) < Pow2(sbits)
    ensures Kept(sample, bitDepth, sbits) == if bitDepth == sbits then sample else ShiftRight(sample, bitDepth - sbits)
    ensures target < sbits ==> ShiftRight(Kept(sample, bitDepth, sbits), sbits - target) < Pow2(target)
    ensures target >= sbits ==> Replicate(Kept(sample, bitDepth, sbits), sbits, target) < Pow2(target)
  {
    hide Pow2, Replicate;
    KeptBelow(sample, sbits, bitDepth - sbits);
    var kept := Kept(sample, bitDepth, sbits);
    if target < sbits {
      KeptBelow(kept, target, sbits - target);
    } else {
      UpscaleIsFloor(kept, sbits, target);
    }
  }

  /** Scales the significant bits of a sample to a target depth. */
  method SampleToTarget(sample: nat, bitDepth: nat, sbits: nat, target: nat) returns (r: nat)
    requires 0 < sbits <= bitDepth <= 16 && 1 <= target <= 16 && sample < Pow2(bitDepth)
    ensures Kept(sample, bitDepth, sbits) < Pow2(sbits)
    ensures r == if target < sbits then ShiftRight(Kept(sample, bitDepth, sbits), sbits - target)
                 else Replicate(Kept(sample, bitDepth, sbits), sbits, target)
    ensures r < Pow2(target) <= 0x1_0000
  {
    hide BitOr, ShiftLeft, ShiftRight, Replicate, Pow2, FilledTo;
    ScaledRange(sample, bitDepth, sbits, target);
    TargetRange(target);
    var kept := Kept(sample, bitDepth, sbits);
    var x := sample;
    if bitDepth == sbits {
      if target == sbits {
        SameDepth(sample, sbits);
        return sample;
      }
    } else {
      x := ShiftRight(sample, bitDepth - sbits);
    }
    if target < sbits {
      return ShiftRight(x, sbits - target);
    }
    var shiftAmount: int := target - sbits;
    r := 0;
    NothingFilled(kept, sbits, target);
    while shiftAmount >= 0
      invariant 0 <= shiftAmount + sbits <= target
      invariant FilledTo(kept, sbits, target, shiftAmount + sbits, r)
    {
      FillRound(kept, sbits, target, shiftAmount + sbits, r);
      r := BitOr(r, ShiftLeft(x, shiftAmount));
      shiftAmount := shiftAmount - sbits;
    }
    FillRest(kept, sbits, target, shiftAmount + sbits, r);
    var partial := shiftAmount + sbits;
    if partial != 0 {
      r := BitOr(r, ShiftRight(x, Abs(shiftAmount)));
    }
  }

  lemma TargetRange(target: nat)
    requires target <= 16
    ensures Pow2(target) <= 0x1_0000
  {
    Pow2Monotone(target, 16);
    Pow2Table();
    Pow2Add(8, 8);
  }

  lemma SameDepth(s: nat, n: nat)
    requires n > 0 && s < Pow2(n)
    ensures Replicate(s, n, n) == s && ShiftRight(s, 0) == s
  {
    ShiftRightClears(s, n, n);
    assert Pow2(0) == 1;
  }
}
