/** `boundary_points` (floorgraph.py lines 5-13): the pixels of a component
    that its 3x3 erosion removes. `cv.erode` treats pixels outside the
    raster as set, so a component pixel is not on the boundary merely
    because it lies on the edge of the raster. The erosion is a 0/1 byte
    raster and `~` complements all eight bits, so `component & ~shrunk` is
    set exactly where the component is and the erosion is not. */
module Boundary {
  import opened Grid
  import opened Morphology

  /** `labels == L` */
  function ComponentMask(r: Raster<int>, L: int): (m: Mask)
    ensures SameShape(m, r)
  {
    seq(|r|, i requires 0 <= i < |r| =>
      seq(|r[i]|, j requires 0 <= j < |r[i]| => r[i][j] == L))
  }

  /** `component & ~cv.erode(component)` with the default 3x3 element. */
  function BoundaryMask(r: Raster<int>, L: int): (b: Mask)
    ensures SameShape(b, r)
  {
    var component := ComponentMask(r, L);
    And(component, Not(Erode(component, 1, 1)))
  }

  predicate IsBoundary(r: Raster<int>, L: int, i: int, j: int)
    requires InBounds(r, i, j)
  {
    BoundaryMask(r, L)[i][j]
  }

  /** The coordinates `np.nonzero(boundary)` lists (as a set). */
  function BoundaryPoints(r: Raster<int>, L: int): (ps: set<(int, int)>) {
    set i, j | 0 <= i < |r| && 0 <= j < |r[i]| && IsBoundary(r, L, i, j) :: (i, j)
  }

  /** Some pixel of the raster in the 3x3 window of (i, j) holds a label other than L. */
  ghost predicate SeesOther(r: Raster<int>, L: int, i: int, j: int) {
    exists a, b :: InBounds(r, a, b) && InWindow(i, j, a, b, 1, 1) && r[a][b] != L
  }

  /** The border convention: (i, j) is a boundary pixel of L iff it holds L and
      some pixel INSIDE the raster within its 3x3 window does not. */
  lemma BoundaryIff(r: Raster<int>, L: int, i: int, j: int)
    requires InBounds(r, i, j)
    ensures IsBoundary(r, L, i, j) <==> r[i][j] == L && SeesOther(r, L, i, j)
  {
    var c := ComponentMask(r, L);
    if r[i][j] == L && SeesOther(r, L, i, j) {
      var a, b :| InBounds(r, a, b) && InWindow(i, j, a, b, 1, 1) && r[a][b] != L;
      assert !c[a][b];
      assert !AllInWindow(c, i, j, 1, 1);
    }
    if IsBoundary(r, L, i, j) {
      assert !AllInWindow(c, i, j, 1, 1);
      var a, b :| 0 <= a < |c| && 0 <= b < |c[a]| && InWindow(i, j, a, b, 1, 1) && !c[a][b];
      assert InBounds(r, a, b) && r[a][b] != L;
    }
  }

  /** Every boundary point belongs to the component. */
  lemma BoundaryInComponent(r: Raster<int>, L: int)
    ensures forall p :: p in BoundaryPoints(r, L) ==> InBounds(r, p.0, p.1) && r[p.0][p.1] == L
  {
  }

  /** A component pixel whose whole clipped 3x3 window lies in the component
      is never a boundary point, also on the raster's edge. */
  lemma InteriorNotBoundary(r: Raster<int>, L: int, i: int, j: int)
    requires InBounds(r, i, j)
    requires forall a, b :: InBounds(r, a, b) && InWindow(i, j, a, b, 1, 1) ==> r[a][b] == L
    ensures (i, j) !in BoundaryPoints(r, L)
  {
    BoundaryIff(r, L, i, j);
  }

  /** Walking from a pixel of L towards a pixel that is not L, one 8-step at a
      time, reaches a boundary pixel of L. */
  lemma {:induction false} WalkFindsBoundary(r: Raster<int>, L: int, i: int, j: int, y: int, x: int)
    requires IsRect(r) && InBounds(r, i, j) && InBounds(r, y, x)
    requires r[i][j] == L && r[y][x] != L
    ensures BoundaryPoints(r, L) != {}
    decreases (if i <= y then y - i else i - y) + (if j <= x then x - j else j - x)
  {
    var i' := if i < y then i + 1 else if i > y then i - 1 else i;
    var j' := if j < x then j + 1 else if j > x then j - 1 else j;
    assert InBounds(r, i', j');
    if r[i'][j'] != L {
      assert InWindow(i, j, i', j', 1, 1);
      BoundaryIff(r, L, i, j);
      assert (i, j) in BoundaryPoints(r, L);
    } else {
      WalkFindsBoundary(r, L, i', j', y, x);
    }
  }

  /** A label has no boundary point exactly when it is absent from the raster
      or fills all of it. */
  lemma BoundaryEmptyIff(r: Raster<int>, L: int)
    requires IsRect(r)
    ensures BoundaryPoints(r, L) == {} <==>
              (forall i, j :: InBounds(r, i, j) ==> r[i][j] != L) ||
              (forall i, j :: InBounds(r, i, j) ==> r[i][j] == L)
  {
    if BoundaryPoints(r, L) == {} {
      if !(forall i, j :: InBounds(r, i, j) ==> r[i][j] != L) {
        var i, j :| InBounds(r, i, j) && r[i][j] == L;
        forall y, x | InBounds(r, y, x)
          ensures r[y][x] == L
        {
          if r[y][x] != L {
            WalkFindsBoundary(r, L, i, j, y, x);
          }
        }
      }
    } else {
      var p :| p in BoundaryPoints(r, L);
      BoundaryIff(r, L, p.0, p.1);
    }
  }
}
