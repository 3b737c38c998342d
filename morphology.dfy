/** Erosion, dilation and opening with a rectangular structuring element,
    on boolean masks and on 8-bit images, as `cv.erode`, `cv.dilate` and
    `cv.morphologyEx(..., cv.MORPH_OPEN, ...)` compute them with their default
    border: a window is clipped to the raster, so pixels outside it never
    decide the result (erosion treats them as set, dilation as unset). */
module Morphology {
  import opened Grid

  type Mask = Raster<bool>

  /** Subset(x, y): x and y have one shape and every pixel set in x is set in y. */
  ghost predicate Subset(x: Mask, y: Mask) {
    SameShape(x, y) && forall i, j :: InBounds(x, i, j) && x[i][j] ==> y[i][j]
  }

  /** The threshold `img > 0`. */
  function Positive(img: Raster<int>): (m: Mask)
    ensures SameShape(m, img)
  {
    seq(|img|, i requires 0 <= i < |img| =>
      seq(|img[i]|, j requires 0 <= j < |img[i]| => img[i][j] > 0))
  }

  // ---------------------------------------------------------------- masks

  function And(x: Mask, y: Mask): (z: Mask)
    requires SameShape(x, y)
    ensures SameShape(z, x)
  {
    seq(|x|, i requires 0 <= i < |x| =>
      seq(|x[i]|, j requires 0 <= j < |x[i]| => x[i][j] && y[i][j]))
  }

  function Not(x: Mask): (z: Mask)
    ensures SameShape(z, x)
  {
    seq(|x|, i requires 0 <= i < |x| =>
      seq(|x[i]|, j requires 0 <= j < |x[i]| => !x[i][j]))
  }

  predicate AllInWindow(m: Mask, i: int, j: int, ry: nat, rx: nat) {
    forall a, b | 0 <= a < |m| && 0 <= b < |m[a]| && InWindow(i, j, a, b, ry, rx) :: m[a][b]
  }

  predicate AnyInWindow(m: Mask, i: int, j: int, ry: nat, rx: nat) {
    exists a, b | 0 <= a < |m| && 0 <= b < |m[a]| && InWindow(i, j, a, b, ry, rx) :: m[a][b]
  }

  function Erode(m: Mask, ry: nat, rx: nat): (e: Mask)
    ensures SameShape(e, m)
  {
    seq(|m|, i requires 0 <= i < |m| =>
      seq(|m[i]|, j requires 0 <= j < |m[i]| => AllInWindow(m, i, j, ry, rx)))
  }

  function Dilate(m: Mask, ry: nat, rx: nat): (d: Mask)
    ensures SameShape(d, m)
  {
    seq(|m|, i requires 0 <= i < |m| =>
      seq(|m[i]|, j requires 0 <= j < |m[i]| => AnyInWindow(m, i, j, ry, rx)))
  }

  /** `iterations=n`: the erosion applied n times. */
  function ErodeN(m: Mask, ry: nat, rx: nat, n: nat): (e: Mask)
    ensures SameShape(e, m)
  {
    if n == 0 then m else Erode(ErodeN(m, ry, rx, n - 1), ry, rx)
  }

  /** `iterations=n`: the dilation applied n times. */
  function DilateN(m: Mask, ry: nat, rx: nat, n: nat): (d: Mask)
    ensures SameShape(d, m)
    decreases n
  {
    if n == 0 then m else DilateN(Dilate(m, ry, rx), ry, rx, n - 1)
  }

  /** MORPH_OPEN: n erosions, then n dilations, with one element. */
  function Opening(m: Mask, ry: nat, rx: nat, n: nat): (o: Mask)
    ensures SameShape(o, m)
  {
    DilateN(ErodeN(m, ry, rx, n), ry, rx, n)
  }

  lemma SubsetTransitive(x: Mask, y: Mask, z: Mask)
    requires Subset(x, y) && Subset(y, z)
    ensures Subset(x, z)
  {
  }

  /** Dilation is monotone. */
  lemma DilateMonotone(x: Mask, y: Mask, ry: nat, rx: nat)
    requires Subset(x, y)
    ensures Subset(Dilate(x, ry, rx), Dilate(y, ry, rx))
  {
    var dx, dy := Dilate(x, ry, rx), Dilate(y, ry, rx);
    forall i, j | InBounds(dx, i, j) && dx[i][j]
      ensures dy[i][j]
    {
      var a, b :| 0 <= a < |x| && 0 <= b < |x[a]| && InWindow(i, j, a, b, ry, rx) && x[a][b];
      assert y[a][b];
    }
  }

  lemma {:induction false} DilateNMonotone(x: Mask, y: Mask, ry: nat, rx: nat, n: nat)
    requires Subset(x, y)
    ensures Subset(DilateN(x, ry, rx, n), DilateN(y, ry, rx, n))
    decreases n
  {
    if n > 0 {
      DilateMonotone(x, y, ry, rx);
      DilateNMonotone(Dilate(x, ry, rx), Dilate(y, ry, rx), ry, rx, n - 1);
    }
  }

  /** One erosion followed by one dilation keeps only pixels of the mask:
      a dilated pixel lies in the window of an eroded pixel, whose whole
      clipped window is in the mask. */
  lemma DilateErodeShrinks(m: Mask, ry: nat, rx: nat)
    ensures Subset(Dilate(Erode(m, ry, rx), ry, rx), m)
  {
    var e := Erode(m, ry, rx);
    var d := Dilate(e, ry, rx);
    forall i, j | InBounds(d, i, j) && d[i][j]
      ensures m[i][j]
    {
      var a, b :| 0 <= a < |e| && 0 <= b < |e[a]| && InWindow(i, j, a, b, ry, rx) && e[a][b];
      assert AllInWindow(m, a, b, ry, rx);
      assert InWindow(a, b, i, j, ry, rx);
    }
  }

  /** The opening is anti-extensive: room pixels are always floorplan pixels,
      whatever the element and the iteration count. */
  lemma {:induction false} OpeningShrinks(m: Mask, ry: nat, rx: nat, n: nat)
    ensures Subset(Opening(m, ry, rx, n), m)
  {
    if n > 0 {
      var y := ErodeN(m, ry, rx, n - 1);
      var de := Dilate(Erode(y, ry, rx), ry, rx);
      DilateErodeShrinks(y, ry, rx);
      DilateNMonotone(de, y, ry, rx, n - 1);
      OpeningShrinks(m, ry, rx, n - 1);
      SubsetTransitive(DilateN(de, ry, rx, n - 1), DilateN(y, ry, rx, n - 1), m);
    }
  }

  // --------------------------------------------------------- 8-bit images

  function Min(x: int, y: int): (m: int) { if x <= y then x else y }
  function Max(x: int, y: int): (m: int) { if x <= y then y else x }

  /** First and one-past-last index of the window [c - r, c + r] clipped to [0, n). */
  function Lo(c: int, r: nat): (lo: int) { if c - r < 0 then 0 else c - r }
  function Hi(c: int, r: nat, n: int): (hi: int) { if c + r + 1 > n then n else c + r + 1 }

  function RowMin(row: seq<int>, b0: int, b1: int): (m: int)
    requires 0 <= b0 < b1 <= |row|
    decreases b1 - b0
  {
    if b0 + 1 == b1 then row[b0] else Min(row[b0], RowMin(row, b0 + 1, b1))
  }

  function RowMax(row: seq<int>, b0: int, b1: int): (m: int)
    requires 0 <= b0 < b1 <= |row|
    decreases b1 - b0
  {
    if b0 + 1 == b1 then row[b0] else Max(row[b0], RowMax(row, b0 + 1, b1))
  }

  predicate Block(img: Raster<int>, a0: int, a1: int, b0: int, b1: int) {
    0 <= a0 < a1 <= |img| && 0 <= b0 < b1 && forall a {:trigger img[a]} :: a0 <= a < a1 ==> b1 <= |img[a]|
  }

  /** The smallest pixel of rows a0 .. a1-1 and columns b0 .. b1-1. */
  function BlockMin(img: Raster<int>, a0: int, a1: int, b0: int, b1: int): (m: int)
    requires Block(img, a0, a1, b0, b1)
    decreases a1 - a0
  {
    if a0 + 1 == a1 then RowMin(img[a0], b0, b1)
    else Min(RowMin(img[a0], b0, b1), BlockMin(img, a0 + 1, a1, b0, b1))
  }

  /** The largest pixel of rows a0 .. a1-1 and columns b0 .. b1-1. */
  function BlockMax(img: Raster<int>, a0: int, a1: int, b0: int, b1: int): (m: int)
    requires Block(img, a0, a1, b0, b1)
    decreases a1 - a0
  {
    if a0 + 1 == a1 then RowMax(img[a0], b0, b1)
    else Max(RowMax(img[a0], b0, b1), BlockMax(img, a0 + 1, a1, b0, b1))
  }

  /** Grayscale erosion: each pixel becomes the minimum of its clipped window. */
  function GrayErode(img: Raster<int>, ry: nat, rx: nat): (e: Raster<int>)
    requires IsRect(img)
    ensures IsRect(e) && SameShape(e, img)
  {
    seq(|img|, i requires 0 <= i < |img| =>
      seq(Width(img), j requires 0 <= j < Width(img) =>
        BlockMin(img, Lo(i, ry), Hi(i, ry, |img|), Lo(j, rx), Hi(j, rx, Width(img)))))
  }

  /** Grayscale dilation: each pixel becomes the maximum of its clipped window. */
  function GrayDilate(img: Raster<int>, ry: nat, rx: nat): (d: Raster<int>)
    requires IsRect(img)
    ensures IsRect(d) && SameShape(d, img)
  {
    seq(|img|, i requires 0 <= i < |img| =>
      seq(Width(img), j requires 0 <= j < Width(img) =>
        BlockMax(img, Lo(i, ry), Hi(i, ry, |img|), Lo(j, rx), Hi(j, rx, Width(img)))))
  }

  function GrayErodeN(img: Raster<int>, ry: nat, rx: nat, n: nat): (e: Raster<int>)
    requires IsRect(img)
    ensures IsRect(e) && SameShape(e, img)
  {
    if n == 0 then img else GrayErode(GrayErodeN(img, ry, rx, n - 1), ry, rx)
  }

  function GrayDilateN(img: Raster<int>, ry: nat, rx: nat, n: nat): (d: Raster<int>)
    requires IsRect(img)
    ensures IsRect(d) && SameShape(d, img)
    decreases n
  {
    if n == 0 then img else GrayDilateN(GrayDilate(img, ry, rx), ry, rx, n - 1)
  }

  /** `cv.morphologyEx(img, cv.MORPH_OPEN, kernel, iterations=n)` on an image. */
  function GrayOpening(img: Raster<int>, ry: nat, rx: nat, n: nat): (o: Raster<int>)
    requires IsRect(img)
    ensures IsRect(o) && SameShape(o, img)
  {
    GrayDilateN(GrayErodeN(img, ry, rx, n), ry, rx, n)
  }

  lemma {:induction false} RowMinPositive(row: seq<int>, b0: int, b1: int)
    requires 0 <= b0 < b1 <= |row|
    ensures RowMin(row, b0, b1) > 0 <==> forall b :: b0 <= b < b1 ==> row[b] > 0
    decreases b1 - b0
  {
    if b0 + 1 < b1 {
      RowMinPositive(row, b0 + 1, b1);
    }
  }

  lemma {:induction false} RowMaxPositive(row: seq<int>, b0: int, b1: int)
    requires 0 <= b0 < b1 <= |row|
    ensures RowMax(row, b0, b1) > 0 <==> exists b :: b0 <= b < b1 && row[b] > 0
    decreases b1 - b0
  {
    if b0 + 1 < b1 {
      RowMaxPositive(row, b0 + 1, b1);
      if row[b0] > 0 {
        assert exists b :: b0 <= b < b1 && row[b] > 0;
      }
    }
  }

  /** The minimum of a block is positive iff every pixel of the block is. */
  lemma {:induction false} BlockMinPositive(img: Raster<int>, a0: int, a1: int, b0: int, b1: int)
    requires Block(img, a0, a1, b0, b1)
    ensures BlockMin(img, a0, a1, b0, b1) > 0 <==>
            forall a, b :: a0 <= a < a1 && b0 <= b < b1 ==> img[a][b] > 0
    decreases a1 - a0
  {
    RowMinPositive(img[a0], b0, b1);
    if a0 + 1 < a1 {
      BlockMinPositive(img, a0 + 1, a1, b0, b1);
    }
  }

  /** The maximum of a block is positive iff some pixel of the block is. */
  lemma {:induction false} BlockMaxPositive(img: Raster<int>, a0: int, a1: int, b0: int, b1: int)
    requires Block(img, a0, a1, b0, b1)
    ensures BlockMax(img, a0, a1, b0, b1) > 0 <==>
            exists a, b :: a0 <= a < a1 && b0 <= b < b1 && img[a][b] > 0
    decreases a1 - a0
  {
    RowMaxPositive(img[a0], b0, b1);
    if a0 + 1 < a1 {
      BlockMaxPositive(img, a0 + 1, a1, b0, b1);
    }
    if RowMax(img[a0], b0, b1) > 0 {
      var b :| b0 <= b < b1 && img[a0][b] > 0;
      assert a0 <= a0 < a1;
    }
  }

  lemma ClippedWindow(i: int, j: int, ry: nat, rx: nat, h: int, w: int, a: int, b: int)
    ensures (Lo(i, ry) <= a < Hi(i, ry, h) && Lo(j, rx) <= b < Hi(j, rx, w)) <==>
            (0 <= a < h && 0 <= b < w && InWindow(i, j, a, b, ry, rx))
  {
  }

  /** Thresholding commutes with grayscale erosion. */
  lemma ErodeCommutes(img: Raster<int>, ry: nat, rx: nat)
    requires IsRect(img)
    ensures Positive(GrayErode(img, ry, rx)) == Erode(Positive(img), ry, rx)
  {
    var lhs, rhs := Positive(GrayErode(img, ry, rx)), Erode(Positive(img), ry, rx);
    var pm, h, w := Positive(img), |img|, Width(img);
    forall i, j | InBounds(lhs, i, j)
      ensures lhs[i][j] == rhs[i][j]
    {
      var a0, a1, b0, b1 := Lo(i, ry), Hi(i, ry, h), Lo(j, rx), Hi(j, rx, w);
      BlockMinPositive(img, a0, a1, b0, b1);
      if BlockMin(img, a0, a1, b0, b1) > 0 {
        forall a, b | 0 <= a < |pm| && 0 <= b < |pm[a]| && InWindow(i, j, a, b, ry, rx)
          ensures pm[a][b]
        {
          ClippedWindow(i, j, ry, rx, h, w, a, b);
        }
      } else {
        var a, b :| a0 <= a < a1 && b0 <= b < b1 && img[a][b] <= 0;
        ClippedWindow(i, j, ry, rx, h, w, a, b);
        assert !pm[a][b];
      }
    }
    Extensional(lhs, rhs);
  }

  /** Thresholding commutes with grayscale dilation. */
  lemma DilateCommutes(img: Raster<int>, ry: nat, rx: nat)
    requires IsRect(img)
    ensures Positive(GrayDilate(img, ry, rx)) == Dilate(Positive(img), ry, rx)
  {
    var lhs, rhs := Positive(GrayDilate(img, ry, rx)), Dilate(Positive(img), ry, rx);
    var pm, h, w := Positive(img), |img|, Width(img);
    forall i, j | InBounds(lhs, i, j)
      ensures lhs[i][j] == rhs[i][j]
    {
      var a0, a1, b0, b1 := Lo(i, ry), Hi(i, ry, h), Lo(j, rx), Hi(j, rx, w);
      BlockMaxPositive(img, a0, a1, b0, b1);
      if BlockMax(img, a0, a1, b0, b1) > 0 {
        var a, b :| a0 <= a < a1 && b0 <= b < b1 && img[a][b] > 0;
        ClippedWindow(i, j, ry, rx, h, w, a, b);
        assert pm[a][b];
      } else {
        forall a, b | 0 <= a < |pm| && 0 <= b < |pm[a]| && InWindow(i, j, a, b, ry, rx)
          ensures !pm[a][b]
        {
          ClippedWindow(i, j, ry, rx, h, w, a, b);
        }
      }
    }
    Extensional(lhs, rhs);
  }

  lemma {:induction false} ErodeNCommutes(img: Raster<int>, ry: nat, rx: nat, n: nat)
    requires IsRect(img)
    ensures Positive(GrayErodeN(img, ry, rx, n)) == ErodeN(Positive(img), ry, rx, n)
  {
    if n > 0 {
      ErodeNCommutes(img, ry, rx, n - 1);
      ErodeCommutes(GrayErodeN(img, ry, rx, n - 1), ry, rx);
    }
  }

  lemma {:induction false} DilateNCommutes(img: Raster<int>, ry: nat, rx: nat, n: nat)
    requires IsRect(img)
    ensures Positive(GrayDilateN(img, ry, rx, n)) == DilateN(Positive(img), ry, rx, n)
    decreases n
  {
    if n > 0 {
      DilateCommutes(img, ry, rx);
      DilateNCommutes(GrayDilate(img, ry, rx), ry, rx, n - 1);
    }
  }

  /** Opening the 8-bit image and then thresholding gives the boolean opening
      of the thresholded image: only `img > 0` matters for the room mask. */
  lemma OpeningCommutes(img: Raster<int>, ry: nat, rx: nat, n: nat)
    requires IsRect(img)
    ensures Positive(GrayOpening(img, ry, rx, n)) == Opening(Positive(img), ry, rx, n)
  {
    ErodeNCommutes(img, ry, rx, n);
    DilateNCommutes(GrayErodeN(img, ry, rx, n), ry, rx, n);
  }
}
