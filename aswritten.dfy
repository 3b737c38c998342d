/** Line 86 exactly as numpy evaluates it, beside the clipped model of module
    Adjacency. Two things differ:
    - `labels[i-1:i+2, j-1:j+2]` at i = 0 starts the row slice at -1, which
      numpy reads as the last row, so a pixel of row 0 (column 0)
      contributes no labels on a raster of three or more rows (columns);
    - `np.concatenate` of an empty list raises, so a label without boundary
      pixels stops the build instead of yielding an empty set. */
module AdjacencyAsWritten {
  import opened Grid
  import opened Boundary
  import Adjacency

  datatype Outcome = Adjacent(labels: set<int>) | ConcatenateEmptyList

  /** Where a Python slice `s:e` of a length-n axis starts and stops. */
  function SliceBound(s: int, n: int): (b: int) {
    if s < 0 then (if s + n < 0 then 0 else s + n) else (if s > n then n else s)
  }

  predicate InSlice(a: int, s: int, e: int, n: int) {
    SliceBound(s, n) <= a < SliceBound(e, n)
  }

  /** The values of `labels[i-1:i+2, j-1:j+2].flat`. */
  function SliceLabels(r: Raster<int>, i: int, j: int): (w: set<int>) {
    set a, b | 0 <= a < |r| && 0 <= b < |r[a]| &&
               InSlice(a, i - 1, i + 2, |r|) && InSlice(b, j - 1, j + 2, Width(r)) :: r[a][b]
  }

  /** Lines 84-87 as written. */
  function NeighboursAsWritten(r: Raster<int>, L: int): (o: Outcome) {
    if BoundaryPoints(r, L) == {} then ConcatenateEmptyList
    else Adjacent((set a, b, v | 0 <= a < |r| && 0 <= b < |r[a]| && IsBoundary(r, L, a, b) &&
                                 v in SliceLabels(r, a, b) :: v) - {0, L})
  }

  /** Away from row and column 0 the slice is the clipped window. */
  lemma SliceIsWindowInside(r: Raster<int>, i: int, j: int)
    requires IsRect(r) && 1 <= i < |r| && 1 <= j < Width(r)
    ensures SliceLabels(r, i, j) == Adjacency.WindowLabels(r, i, j)
  {
    forall a, b | 0 <= a < |r| && 0 <= b < |r[a]|
      ensures (InSlice(a, i - 1, i + 2, |r|) && InSlice(b, j - 1, j + 2, Width(r))) <==>
              InWindow(i, j, a, b, 1, 1)
    {
    }
  }

  /** The label raster [[1, 2, 2], [2, 2, 2], [2, 2, 2]]: label 1 in the corner. */
  const Corner: Raster<int> := [[1, 2, 2], [2, 2, 2], [2, 2, 2]]

  /** The only pixel of label 1 in Corner is (0, 0). */
  lemma CornerHoldsOneOnce(a: int, b: int)
    requires InBounds(Corner, a, b) && Corner[a][b] == 1
    ensures a == 0 && b == 0
  {
    var r := Corner;
    assert r[0] == [1, 2, 2] && r[1] == [2, 2, 2] && r[2] == [2, 2, 2];
    if a == 0 {
      assert r[0][1] == 2 && r[0][2] == 2;
    }
  }

  /** On a raster of three or more rows, the row slice `-1:2` taken at
      row 0 starts at the last row and is empty, so a pixel of row 0
      contributes no labels. */
  lemma RowZeroSliceEmpty(r: Raster<int>, j: int)
    requires |r| >= 3
    ensures SliceLabels(r, 0, j) == {}
  {
    assert SliceBound(-1, |r|) == |r| - 1 && SliceBound(2, |r|) == 2;
  }

  /** Likewise for column 0 on a raster of three or more columns. */
  lemma ColumnZeroSliceEmpty(r: Raster<int>, i: int)
    requires Width(r) >= 3
    ensures SliceLabels(r, i, 0) == {}
  {
    assert SliceBound(-1, Width(r)) == Width(r) - 1 && SliceBound(2, Width(r)) == 2;
  }

  /** As written, label 1 of Corner has no neighbour: its only pixel
      (0, 0) gets an empty window. */
  lemma AsWrittenMissesCorner()
    ensures NeighboursAsWritten(Corner, 1) == Adjacent({})
  {
    var r := Corner;
    assert InBounds(r, 0, 1) && InWindow(0, 0, 0, 1, 1, 1) && r[0][1] != 1;
    BoundaryIff(r, 1, 0, 0);
    assert (0, 0) in BoundaryPoints(r, 1);
    RowZeroSliceEmpty(r, 0);
    forall a, b | 0 <= a < |r| && 0 <= b < |r[a]| && IsBoundary(r, 1, a, b)
      ensures SliceLabels(r, a, b) == {}
    {
      BoundaryIff(r, 1, a, b);
      CornerHoldsOneOnce(a, b);
    }
    var s := set a, b, v | 0 <= a < |r| && 0 <= b < |r[a]| && IsBoundary(r, 1, a, b) &&
                           v in SliceLabels(r, a, b) :: v;
    assert s == {};
  }

  /** As written, label 2 of Corner does see label 1: (1, 1) is a boundary
      pixel of 2 whose window `0:3, 0:3` holds (0, 0). */
  lemma AsWrittenSeesCorner()
    ensures NeighboursAsWritten(Corner, 2).Adjacent? && 1 in NeighboursAsWritten(Corner, 2).labels
  {
    var r := Corner;
    assert InBounds(r, 0, 0) && InWindow(1, 1, 0, 0, 1, 1) && r[0][0] != 2;
    BoundaryIff(r, 2, 1, 1);
    assert (1, 1) in BoundaryPoints(r, 2);
    assert SliceBound(0, 3) == 0 && SliceBound(3, 3) == 3;
    assert InSlice(0, 0, 3, 3);
    assert 1 in SliceLabels(r, 1, 1);
  }

  /** As written, the graph of Corner is not symmetric: 1 is a neighbour of
      2, but 2 is no neighbour of 1. */
  lemma AsWrittenIsAsymmetric()
    ensures NeighboursAsWritten(Corner, 1) == Adjacent({})
    ensures NeighboursAsWritten(Corner, 2).Adjacent? && 1 in NeighboursAsWritten(Corner, 2).labels
  {
    AsWrittenMissesCorner();
    AsWrittenSeesCorner();
  }

  /** The clipped graph of Corner, by contrast, links 1 and 2 both ways. */
  lemma CornerIsSymmetric()
    ensures 2 in Adjacency.Neighbours(Corner, 1) && 1 in Adjacency.Neighbours(Corner, 2)
  {
    var r := Corner;
    assert InBounds(r, 0, 0) && InBounds(r, 0, 1) && InWindow(0, 0, 0, 1, 1, 1);
    assert Adjacency.Touch(r, 1, 2);
    Adjacency.NeighboursIffTouching(r, 1, 2);
    Adjacency.NeighboursSymmetric(r, 1, 2);
  }

  /** As written, a label that fills the raster stops the build. */
  lemma AsWrittenRejectsFilledRaster(r: Raster<int>, L: int)
    requires IsRect(r)
    requires forall i, j :: InBounds(r, i, j) ==> r[i][j] == L
    ensures NeighboursAsWritten(r, L) == ConcatenateEmptyList
  {
    BoundaryEmptyIff(r, L);
  }

  /** The clipped model gives such a label an empty neighbour set. */
  lemma FilledRasterHasNoNeighbours(r: Raster<int>, L: int)
    requires forall i, j :: InBounds(r, i, j) ==> r[i][j] == L
    ensures Adjacency.Neighbours(r, L) == {}
  {
    forall B | B in Adjacency.Neighbours(r, L)
      ensures false
    {
      Adjacency.NeighboursIffTouching(r, L, B);
    }
  }

  /** Where the two builds agree: on a rectangular raster whose row 0 and
      column 0 hold only background, every label present gets from line 86
      exactly the neighbour set of the clipped model. Its boundary pixels lie
      off row and column 0, where the slices are the clipped windows, and it
      has boundary pixels because (0, 0) is not L. */
  lemma AsWrittenAgreesInsideBorder(r: Raster<int>, L: int, i: int, j: int)
    requires IsRect(r) && InBounds(r, i, j) && r[i][j] == L && L != 0
    requires forall a, b :: InBounds(r, a, b) && (a == 0 || b == 0) ==> r[a][b] == 0
    ensures NeighboursAsWritten(r, L) == Adjacent(Adjacency.Neighbours(r, L))
  {
    assert |r[0]| == |r[i]|;
    assert InBounds(r, 0, 0);
    WalkFindsBoundary(r, L, i, j, 0, 0);
    var asWritten := set a, b, v | 0 <= a < |r| && 0 <= b < |r[a]| && IsBoundary(r, L, a, b) &&
                                   v in SliceLabels(r, a, b) :: v;
    forall a, b | 0 <= a < |r| && 0 <= b < |r[a]| && IsBoundary(r, L, a, b)
      ensures SliceLabels(r, a, b) == Adjacency.WindowLabels(r, a, b)
    {
      BoundaryIff(r, L, a, b);
      assert InBounds(r, a, b);
      SliceIsWindowInside(r, a, b);
    }
    forall v | v in asWritten
      ensures v in Adjacency.Gathered(r, L, |r|, 0)
    {
      var a, b :| 0 <= a < |r| && 0 <= b < |r[a]| && IsBoundary(r, L, a, b) && v in SliceLabels(r, a, b);
      assert Before(a, b, |r|, 0);
    }
    forall v | v in Adjacency.Gathered(r, L, |r|, 0)
      ensures v in asWritten
    {
      var a, b :| 0 <= a < |r| && 0 <= b < |r[a]| && Before(a, b, |r|, 0) &&
                  IsBoundary(r, L, a, b) && v in Adjacency.WindowLabels(r, a, b);
    }
    assert asWritten == Adjacency.Gathered(r, L, |r|, 0);
  }
}
