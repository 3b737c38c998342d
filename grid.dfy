/** Rasters as sequences of rows, the rectangular windows every stage scans,
    and the bridge from a mutable `array2` raster to its current value. */
module Grid {

  /** A raster of `height` rows; row `i` holds `|g[i]|` pixels. Images are
      rectangular (`IsRect`), but the window operations do not need it. */
  type Raster<T> = seq<seq<T>>

  function Width<T>(g: Raster<T>): (w: nat) {
    if |g| == 0 then 0 else |g[0]|
  }

  predicate IsRect<T>(g: Raster<T>) {
    forall i :: 0 <= i < |g| ==> |g[i]| == Width(g)
  }

  predicate SameShape<T, U>(g: Raster<T>, k: Raster<U>) {
    |g| == |k| && forall i :: 0 <= i < |g| ==> |g[i]| == |k[i]|
  }

  lemma ShapeKeepsRect<T, U>(g: Raster<T>, k: Raster<U>)
    requires IsRect(k) && SameShape(g, k)
    ensures IsRect(g) && Width(g) == Width(k)
  {
  }

  /** Every pixel of g lies in lo .. hi. */
  predicate ValuesIn(g: Raster<int>, lo: int, hi: int) {
    forall i, j | 0 <= i < |g| && 0 <= j < |g[i]| :: lo <= g[i][j] <= hi
  }

  predicate InBounds<T>(g: Raster<T>, i: int, j: int) {
    0 <= i < |g| && 0 <= j < |g[i]|
  }

  /** (a, b) lies in the window of half-height `ry` and half-width `rx`
      centred on (i, j); the relation is symmetric in the two positions. */
  predicate InWindow(i: int, j: int, a: int, b: int, ry: int, rx: int) {
    i - ry <= a <= i + ry && j - rx <= b <= j + rx
  }

  /** (a, b) precedes (i, j) in row-major order, the order of `np.nonzero`. */
  predicate Before(a: int, b: int, i: int, j: int) {
    a < i || (a == i && b < j)
  }

  /** The current contents of an array raster, as a value. */
  function Snapshot(a: array2<int>): (g: Raster<int>)
    reads a
    ensures |g| == a.Length0 && IsRect(g)
    ensures forall i :: 0 <= i < |g| ==> |g[i]| == a.Length1
    ensures forall i, j :: 0 <= i < a.Length0 && 0 <= j < a.Length1 ==> g[i][j] == a[i, j]
  {
    seq(a.Length0, i requires 0 <= i < a.Length0 reads a =>
      seq(a.Length1, j requires 0 <= j < a.Length1 reads a => a[i, j]))
  }

  /** Two rasters of the same shape that agree on every pixel are equal. */
  lemma Extensional<T>(g: Raster<T>, k: Raster<T>)
    requires SameShape(g, k)
    requires forall i, j :: InBounds(g, i, j) ==> g[i][j] == k[i][j]
    ensures g == k
  {
    forall i | 0 <= i < |g|
      ensures g[i] == k[i]
    {
      assert forall j :: 0 <= j < |g[i]| ==> g[i][j] == k[i][j] by {
        forall j | 0 <= j < |g[i]| ensures g[i][j] == k[i][j] {
          assert InBounds(g, i, j);
        }
      }
    }
  }
}
