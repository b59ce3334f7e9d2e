/**
 The order in which the scanlines of an image are coded: pass by pass, top to bottom,
 skipping empty passes; and the cursor that the encoder and the decoder advance alike.
 */
module Scanlines {
  import opened Header
  import opened Adam7

  /** A scanline: its pass and its line inside the pass. */
  datatype Place = Place(pass: nat, line: nat)

  predicate Live(h: Ihdr, at: Place) {
    at.pass < 7 && !Sub(h, at.pass).Empty() && at.line < Sub(h, at.pass).height
  }

  function Lines(h: Ihdr, pass: nat): nat
    requires pass < 7
  {
    if Sub(h, pass).Empty() then 0 else Sub(h, pass).height
  }

  /** The number of scanlines in the passes before the given one. */
  function LinesBefore(h: Ihdr, pass: nat): nat
    requires pass <= 7
  {
    if pass == 0 then 0 else LinesBefore(h, pass - 1) + Lines(h, pass - 1)
  }

  function Total(h: Ihdr): nat {
    LinesBefore(h, 7)
  }

  /** The position of a scanline in the whole order. */
  function Index(h: Ihdr, at: Place): nat
    requires Live(h, at)
  {
    LinesBefore(h, at.pass) + at.line
  }

  /** The scanline at a position, searched from a pass on. */
  function PlaceFrom(h: Ihdr, pass: nat, k: nat): (at: Place)
    requires pass < 7 && LinesBefore(h, pass) <= k < Total(h)
    ensures Live(h, at) && Index(h, at) == k
    decreases 7 - pass
  {
    if k < LinesBefore(h, pass + 1) then Place(pass, k - LinesBefore(h, pass)) else PlaceFrom(h, pass + 1, k)
  }

  function PlaceAt(h: Ihdr, k: nat): (at: Place)
    requires k < Total(h)
    ensures Live(h, at) && Index(h, at) == k
  {
    PlaceFrom(h, 0, k)
  }

  lemma {:induction false} LinesBeforeMonotone(h: Ihdr, p: nat, q: nat)
    requires p <= q <= 7
    ensures LinesBefore(h, p) <= LinesBefore(h, q)
  {
    if p < q {
      LinesBeforeMonotone(h, p, q - 1);
    }
  }

  /** Positions and scanlines correspond one to one. */
  lemma IndexDeterminesPlace(h: Ihdr, a: Place, b: Place)
    requires Live(h, a) && Live(h, b)
    ensures Index(h, a) == Index(h, b) ==> a == b
    ensures Index(h, a) < Total(h) && PlaceAt(h, Index(h, a)) == a
  {
    LinesBeforeMonotone(h, a.pass + 1, 7);
    PlacesApart(h, a, b);
    PlacesApart(h, a, PlaceAt(h, Index(h, a)));
  }

  lemma PlacesApart(h: Ihdr, a: Place, b: Place)
    requires Live(h, a) && Live(h, b)
    ensures Index(h, a) == Index(h, b) ==> a == b
  {
    hide Sub;
    if a.pass < b.pass {
      LinesBeforeMonotone(h, a.pass + 1, b.pass);
    } else if b.pass < a.pass {
      LinesBeforeMonotone(h, b.pass + 1, a.pass);
    }
  }

  /** The row of the image that a scanline belongs to. */
  function RowNumber(h: Ihdr, at: Place): nat
    requires Live(h, at)
  {
    if h.Interlaced() then Y(at.pass, at.line) else at.line
  }

  lemma RowNumberInImage(h: Ihdr, at: Place)
    requires Live(h, at)
    ensures RowNumber(h, at) < h.height
  {
    if h.Interlaced() {
      SizesAreCounts(h, at.pass, 0, at.line);
    } else {
      OnlyPassZero(h, at);
    }
  }

  lemma OnlyPassZero(h: Ihdr, at: Place)
    requires Live(h, at) && !h.Interlaced()
    ensures at.pass == 0
  {
  }

  ghost predicate IsLastPass(h: Ihdr, last: nat) {
    last < 7 && !Sub(h, last).Empty() && forall p :: last < p < 7 ==> Sub(h, p).Empty()
  }

  ghost predicate IsWidest(h: Ihdr, widest: nat) {
    widest < 7 && !Sub(h, widest).Empty()
    && forall p :: 0 <= p < 7 && !Sub(h, p).Empty() ==>
         ScanlineWidth(h, Sub(h, p).width) <= ScanlineWidth(h, Sub(h, widest).width)
  }

  datatype SizeStatus = SizesOk | ESizeOverflow

  ghost predicate FitsInMemory(h: Ihdr) {
    forall p :: 0 <= p < 7 && !Sub(h, p).Empty() ==> ScanlineWidth(h, Sub(h, p).width) <= U32_MAX
  }

  lemma FirstPassNotEmpty(h: Ihdr)
    requires h.width > 0 && h.height > 0
    ensures !Sub(h, 0).Empty()
  {
  }

  /** The first pass that has pixels. */
  lemma FirstPass(h: Ihdr) returns (first: nat)
    requires h.width > 0 && h.height > 0
    ensures first < 7 && !Sub(h, first).Empty() && forall p :: 0 <= p < first ==> Sub(h, p).Empty()
  {
    first := 0;
    FirstPassNotEmpty(h);
  }

  /** Finds the last pass that has pixels and the one with the longest scanlines; fails if a
      scanline would need more than 32 bits to count its bytes. */
  method CalculateSubimages(h: Ihdr) returns (status: SizeStatus, widest: nat, last: nat)
    requires ValidIhdr(h)
    ensures status == SizesOk <==> FitsInMemory(h)
    ensures status == SizesOk ==> IsLastPass(h, last) && IsWidest(h, widest)
  {
    FirstPassNotEmpty(h);
    widest, last := 0, 0;
    var i := 0;
    while i < 7
      invariant 0 <= i <= 7
      invariant forall p :: 0 <= p < i && !Sub(h, p).Empty() ==>
        ScanlineWidth(h, Sub(h, p).width) <= U32_MAX
        && ScanlineWidth(h, Sub(h, p).width) <= ScanlineWidth(h, Sub(h, widest).width)
      invariant widest < 7 && last < 7 && !Sub(h, widest).Empty() && !Sub(h, last).Empty()
      invariant forall p :: last < p < i ==> Sub(h, p).Empty()
    {
      if !Sub(h, i).Empty() {
        if ScanlineWidth(h, Sub(h, i).width) > U32_MAX {
          return ESizeOverflow, widest, last;
        }
        if ScanlineWidth(h, Sub(h, widest).width) < ScanlineWidth(h, Sub(h, i).width) {
          widest := i;
        }
        last := i;
      }
      i := i + 1;
    }
    status := SizesOk;
  }

  /** The full row is the longest: every buffer sized by it holds every scanline. */
  lemma RowIsWidest(h: Ihdr, pass: nat)
    requires pass < 7
    ensures RowBytes(h, Sub(h, pass).width) <= RowBytes(h, h.width)
  {
    RowBytesMonotone(h, Sub(h, pass).width, h.width);
  }

  /** The cursor. */
  class RowInfo {
    var pass: nat
    var scanlineIdx: nat
    var rowNum: nat
    var filter: nat

    ghost predicate Valid(h: Ihdr)
      reads this
    {
      Live(h, Place(pass, scanlineIdx)) && rowNum == RowNumber(h, Place(pass, scanlineIdx))
    }

    /** How many scanlines have been visited before this one. */
    ghost function Visited(h: Ihdr): nat
      requires Valid(h)
      reads this
    {
      Index(h, Place(pass, scanlineIdx))
    }

    constructor ()
      ensures pass == 0 && scanlineIdx == 0 && rowNum == 0 && filter == 0
    {
      pass, scanlineIdx, rowNum, filter := 0, 0, 0, 0;
    }

    /** Moves to the first scanline. */
    method Start(h: Ihdr)
      requires ValidIhdr(h) && pass == 0 && scanlineIdx == 0 && rowNum == 0
      modifies this
      ensures Valid(h) && Visited(h) == 0 && filter == old(filter)
    {
      ghost var first := FirstPass(h);
      while Sub(h, pass).Empty()
        invariant pass <= first && scanlineIdx == 0 && rowNum == 0 && filter == old(filter)
        decreases first - pass
      {
        hide Sub, ValidIhdr;
        pass := pass + 1;
      }
      FirstPassNotEmpty(h);
      if h.Interlaced() {
        rowNum := Y_START[pass];
      }
    }

    /** Moves to the next scanline of the order, or reports the end of the image and stays. */
    method Update(h: Ihdr, lastPass: nat) returns (eoi: bool)
      requires Valid(h) && IsLastPass(h, lastPass)
      modifies this
      ensures Valid(h) && filter == old(filter)
      ensures eoi <==> old(Visited(h)) + 1 == Total(h)
      ensures Visited(h) == if eoi then old(Visited(h)) else old(Visited(h)) + 1
    {
      hide Sub, Y;
      ghost var at := Place(pass, scanlineIdx);
      LinesBeforeMonotone(h, pass + 1, 7);
      if scanlineIdx == Sub(h, pass).height - 1 {
        if pass == lastPass {
          NothingAfter(h, lastPass, 7);
          return true;
        }
        scanlineIdx := 0;
        pass := pass + 1;
        while Sub(h, pass).Empty() && pass < lastPass
          invariant at.pass < pass <= lastPass && scanlineIdx == 0
          invariant LinesBefore(h, pass) == LinesBefore(h, at.pass + 1)
          invariant filter == old(filter)
          decreases lastPass - pass
        {
          pass := pass + 1;
        }
        LinesBeforeMonotone(h, pass + 1, 7);
      } else {
        rowNum := rowNum + 1;
        scanlineIdx := scanlineIdx + 1;
      }
      if h.Interlaced() {
        rowNum := Y(pass, scanlineIdx);
      } else {
        OnlyPassZero(h, Place(pass, scanlineIdx));
      }
      return false;
    }
  }

  lemma {:induction false} NothingAfter(h: Ihdr, last: nat, p: nat)
    requires IsLastPass(h, last) && last < p <= 7
    ensures LinesBefore(h, p) == LinesBefore(h, last + 1)
  {
    if p > last + 1 {
      NothingAfter(h, last, p - 1);
    }
  }
}
