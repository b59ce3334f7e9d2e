/**
 Adam7 interlacing (section 8.2 of ISO/IEC 15948): the seven reduced images, and the
 cursor that walks over their scanlines while an image is encoded or decoded.
 */
module Adam7 {
  import opened Header

  const X_START: seq<nat> := [0, 4, 0, 2, 0, 1, 0]
  const Y_START: seq<nat> := [0, 0, 4, 0, 2, 0, 1]
  const X_DELTA: seq<nat> := [8, 8, 4, 4, 2, 2, 1]
  const Y_DELTA: seq<nat> := [8, 8, 8, 4, 4, 2, 2]

  datatype Subimage = Subimage(width: nat, height: nat)
  {
    predicate Empty() {
      width == 0 || height == 0
    }
  }

  /** The size of a reduced image, by the shifts of the program; without interlacing, pass 0
      is the whole image and the other six are empty. */
  function Sub(h: Ihdr, pass: nat): Subimage
    requires pass < 7
  {
    var w, t := h.width, h.height;
    if !h.Interlaced() then (if pass == 0 then Subimage(w, t) else Subimage(0, 0))
    else if pass == 0 then Subimage((w + 7) / 8, (t + 7) / 8)
    else if pass == 1 then Subimage((w + 3) / 8, (t + 7) / 8)
    else if pass == 2 then Subimage((w + 3) / 4, (t + 3) / 8)
    else if pass == 3 then Subimage((w + 1) / 4, (t + 3) / 4)
    else if pass == 4 then Subimage((w + 1) / 2, (t + 1) / 4)
    else if pass == 5 then Subimage(w / 2, (t + 1) / 2)
    else Subimage(w, t / 2)
  }

  /** Where column c or row r of a pass lies in the image. */
  function X(pass: nat, c: nat): nat
    requires pass < 7
  {
    X_START[pass] + c * X_DELTA[pass]
  }

  function Y(pass: nat, r: nat): nat
    requires pass < 7
  {
    Y_START[pass] + r * Y_DELTA[pass]
  }

  /** The sizes are the exact counts: column c is in the reduced image if and only if its
      pixel is in the image, and so for rows. */
  lemma SizesAreCounts(h: Ihdr, pass: nat, c: nat, r: nat)
    requires h.Interlaced() && pass < 7
    ensures c < Sub(h, pass).width <==> X(pass, c) < h.width
    ensures r < Sub(h, pass).height <==> Y(pass, r) < h.height
  {
    if pass == 0 {
    } else if pass == 1 {
    } else if pass == 2 {
    } else if pass == 3 {
    } else if pass == 4 {
    } else if pass == 5 {
    }
  }

  /** The pass of a pixel, from the low three bits of its coordinates. */
  function PassOf(x: nat, y: nat): (pass: nat)
    ensures pass < 7
  {
    if y % 2 == 1 then 6
    else if x % 2 == 1 then 5
    else if y % 4 == 2 then 4
    else if x % 4 == 2 then 3
    else if y % 8 == 4 then 2
    else if x % 8 == 4 then 1
    else 0
  }

  /** The row and the column of a pixel inside its pass. */
  function ColumnOf(x: nat, y: nat): nat {
    var p := PassOf(x, y);
    if p == 6 then x else if p == 5 || p == 4 then x / 2 else if p == 3 || p == 2 then x / 4 else x / 8
  }

  function LineOf(x: nat, y: nat): nat {
    var p := PassOf(x, y);
    if p == 6 || p == 5 then y / 2 else if p == 4 || p == 3 then y / 4 else y / 8
  }

  /** The tables written out. */
  lemma XTable(pass: nat, c: nat)
    requires pass < 7
    ensures X(pass, c) == if pass == 0 then 8 * c else if pass == 1 then 8 * c + 4 else if pass == 2 then 4 * c
                          else if pass == 3 then 4 * c + 2 else if pass == 4 then 2 * c else if pass == 5 then 2 * c + 1 else c
  {
  }

  lemma YTable(pass: nat, r: nat)
    requires pass < 7
    ensures Y(pass, r) == if pass <= 1 then 8 * r else if pass == 2 then 8 * r + 4 else if pass == 3 then 4 * r
                          else if pass == 4 then 4 * r + 2 else if pass == 5 then 2 * r else 2 * r + 1
  {
  }

  /** Every pixel is at its column and row of its pass. */
  lemma PixelIsThere(x: nat, y: nat)
    ensures X(PassOf(x, y), ColumnOf(x, y)) == x && Y(PassOf(x, y), LineOf(x, y)) == y
  {
    hide X, Y;
    XTable(PassOf(x, y), ColumnOf(x, y));
    YTable(PassOf(x, y), LineOf(x, y));
    Quotients(x);
    Quotients(y);
  }

  lemma Quotients(n: nat)
    ensures n == 2 * (n / 2) + if n % 2 == 1 then 1 else 0
    ensures n % 2 != 1 ==> n == 4 * (n / 4) + if n % 4 == 2 then 2 else 0
    ensures n % 2 != 1 && n % 4 != 2 ==> n == 8 * (n / 8) + if n % 8 == 4 then 4 else 0
  {
    var q, r := n / 8, n % 8;
    OfFour(n, 2 * q + (if r >= 4 then 1 else 0), if r >= 4 then r - 4 else r);
    OfTwo(n, 4 * q + (if r < 2 then 0 else if r < 4 then 1 else if r < 6 then 2 else 3),
      if r < 2 then r else if r < 4 then r - 2 else if r < 6 then r - 4 else r - 6);
  }

  lemma OfFour(n: nat, k: nat, r: nat)
    requires n == 4 * k + r && r < 4
    ensures n / 4 == k && n % 4 == r
  {
  }

  lemma OfTwo(n: nat, k: nat, r: nat)
    requires n == 2 * k + r && r < 2
    ensures n / 2 == k && n % 2 == r
  {
  }

  /** What the places of a pass leave modulo 2, 4 and 8. */
  lemma Residues(pass: nat, c: nat, r: nat)
    requires pass < 7
    ensures var x, y := X(pass, c), Y(pass, r);
      && (y % 2 == 1 <==> pass == 6)
      && (pass <= 5 ==> (x % 2 == 1 <==> pass == 5))
      && (pass <= 4 ==> (y % 4 == 2 <==> pass == 4))
      && (pass <= 3 ==> (x % 4 == 2 <==> pass == 3))
      && (pass <= 2 ==> (y % 8 == 4 <==> pass == 2))
      && (pass <= 1 ==> (x % 8 == 4 <==> pass == 1))
  {
    XTable(pass, c);
    YTable(pass, r);
    hide X, Y;
    Remainders(c);
    Remainders(r);
  }

  lemma Remainders(n: nat)
    ensures (2 * n) % 2 == 0 && (2 * n + 1) % 2 == 1
    ensures (4 * n) % 4 == 0 && (4 * n) % 2 == 0 && (4 * n + 2) % 4 == 2 && (4 * n + 2) % 2 == 0
    ensures (8 * n) % 8 == 0 && (8 * n) % 4 == 0 && (8 * n) % 2 == 0
    ensures (8 * n + 4) % 8 == 4 && (8 * n + 4) % 4 == 0 && (8 * n + 4) % 2 == 0
  {
    OfTwo(2 * n, n, 0);
    OfTwo(2 * n + 1, n, 1);
    OfFour(4 * n, n, 0);
    OfTwo(4 * n, 2 * n, 0);
    OfFour(4 * n + 2, n, 2);
    OfTwo(4 * n + 2, 2 * n + 1, 0);
    OfEight(8 * n, n, 0);
    OfFour(8 * n, 2 * n, 0);
    OfTwo(8 * n, 4 * n, 0);
    OfEight(8 * n + 4, n, 4);
    OfFour(8 * n + 4, 2 * n + 1, 0);
    OfTwo(8 * n + 4, 4 * n + 2, 0);
  }

  lemma OfEight(n: nat, k: nat, r: nat)
    requires n == 8 * k + r && r < 8
    ensures n / 8 == k && n % 8 == r
  {
  }

  lemma PlacesKnowTheirPass(pass: nat, c: nat, r: nat)
    requires pass < 7
    ensures PassOf(X(pass, c), Y(pass, r)) == pass
  {
    Residues(pass, c, r);
    hide X, Y;
  }

  /** And nowhere else. */
  lemma PixelIsOnlyThere(pass: nat, c: nat, r: nat)
    requires pass < 7
    ensures var x, y := X(pass, c), Y(pass, r);
      PassOf(x, y) == pass && ColumnOf(x, y) == c && LineOf(x, y) == r
  {
    PlacesKnowTheirPass(pass, c, r);
    hide PassOf;
  }

  /** So the reduced images partition the image: a place in a pass holds a given pixel if and
      only if it is the one place computed from the pixel's coordinates, and that place is
      inside its reduced image if and only if the pixel is inside the image. */
  lemma Partition(h: Ihdr, x: nat, y: nat, pass: nat, c: nat, r: nat)
    requires h.Interlaced() && pass < 7
    ensures X(pass, c) == x && Y(pass, r) == y <==> pass == PassOf(x, y) && c == ColumnOf(x, y) && r == LineOf(x, y)
    ensures var s := Sub(h, PassOf(x, y));
      x < h.width && y < h.height <==> ColumnOf(x, y) < s.width && LineOf(x, y) < s.height
  {
    PixelIsThere(x, y);
    PixelIsOnlyThere(pass, c, r);
    SizesAreCounts(h, PassOf(x, y), ColumnOf(x, y), LineOf(x, y));
    hide X, Y, PassOf, ColumnOf, LineOf, Sub;
  }
}
