/** The region-adjacency graph (floorgraph.py lines 81-88): for each label
    L, the labels found in the 3x3 windows of L's boundary pixels, without 0
    and L. Windows are clipped to the raster on all four sides; the source's
    own slices behave differently on row and column 0 (see module
    AdjacencyAsWritten). */
module Adjacency {
  import opened Grid
  import opened Boundary

  /** The label values of the 3x3 window of (i, j), clipped to the raster. */
  function WindowLabels(r: Raster<int>, i: int, j: int): (w: set<int>) {
    set a, b | 0 <= a < |r| && 0 <= b < |r[a]| && InWindow(i, j, a, b, 1, 1) :: r[a][b]
  }

  /** The window labels of the boundary pixels of L that precede (i, j) in
      row-major order. */
  function Gathered(r: Raster<int>, L: int, i: int, j: int): (g: set<int>) {
    set a, b, v | 0 <= a < |r| && 0 <= b < |r[a]| && Before(a, b, i, j) &&
                  IsBoundary(r, L, a, b) && v in WindowLabels(r, a, b) :: v
  }

  /** `set(adjacents) - {0, L}` */
  function Neighbours(r: Raster<int>, L: int): (ns: set<int>) {
    Gathered(r, L, |r|, 0) - {0, L}
  }

  /** The graph after the build loop: a key for each label 1 .. n. */
  function Graph(r: Raster<int>, n: int): (graph: map<int, set<int>>) {
    map L | 1 <= L <= n :: Neighbours(r, L)
  }

  /** Some pixel holding A has a pixel holding B in its 3x3 window. */
  ghost predicate Touch(r: Raster<int>, A: int, B: int) {
    exists i, j, a, b ::
      InBounds(r, i, j) && InBounds(r, a, b) && InWindow(i, j, a, b, 1, 1) &&
      r[i][j] == A && r[a][b] == B
  }

  /** Every label in the neighbour set of L occurs in the window of some
      boundary pixel of L. */
  lemma NeighboursWitnessed(r: Raster<int>, L: int, B: int)
    requires B in Neighbours(r, L)
    ensures B != 0 && B != L
    ensures exists i, j :: InBounds(r, i, j) && IsBoundary(r, L, i, j) && B in WindowLabels(r, i, j)
  {
    var a, b, v :| 0 <= a < |r| && 0 <= b < |r[a]| && Before(a, b, |r|, 0) &&
                   IsBoundary(r, L, a, b) && v in WindowLabels(r, a, b) && v == B;
    assert InBounds(r, a, b);
  }

  /** Scanning only boundary pixels finds every touching label: B is a
      neighbour of A iff B is neither 0 nor A and some pixel of A touches
      some pixel of B. */
  lemma NeighboursIffTouching(r: Raster<int>, A: int, B: int)
    ensures B in Neighbours(r, A) <==> B != 0 && B != A && Touch(r, A, B)
  {
    if B in Neighbours(r, A) {
      NeighboursWitnessed(r, A, B);
      var i, j :| InBounds(r, i, j) && IsBoundary(r, A, i, j) && B in WindowLabels(r, i, j);
      BoundaryIff(r, A, i, j);
      var a, b :| 0 <= a < |r| && 0 <= b < |r[a]| && InWindow(i, j, a, b, 1, 1) && r[a][b] == B;
      assert InBounds(r, a, b);
    }
    if B != 0 && B != A && Touch(r, A, B) {
      var i, j, a, b :| InBounds(r, i, j) && InBounds(r, a, b) && InWindow(i, j, a, b, 1, 1) &&
                        r[i][j] == A && r[a][b] == B;
      BoundaryIff(r, A, i, j);
      assert B in WindowLabels(r, i, j);
      assert B in Gathered(r, A, |r|, 0);
    }
  }

  /** Neighbourhood is symmetric. */
  lemma NeighboursSymmetric(r: Raster<int>, A: int, B: int)
    requires A != 0 && B != 0
    ensures B in Neighbours(r, A) <==> A in Neighbours(r, B)
  {
    NeighboursIffTouching(r, A, B);
    NeighboursIffTouching(r, B, A);
    if Touch(r, A, B) {
      var i, j, a, b :| InBounds(r, i, j) && InBounds(r, a, b) && InWindow(i, j, a, b, 1, 1) &&
                        r[i][j] == A && r[a][b] == B;
      assert InWindow(a, b, i, j, 1, 1);
    }
    if Touch(r, B, A) {
      var i, j, a, b :| InBounds(r, i, j) && InBounds(r, a, b) && InWindow(i, j, a, b, 1, 1) &&
                        r[i][j] == B && r[a][b] == A;
      assert InWindow(a, b, i, j, 1, 1);
    }
  }

  /** The graph has a key for exactly the labels 1 .. n; no neighbour set
      holds 0 or its own label; and when every pixel lies in 0 .. n, every
      neighbour is itself a key. */
  lemma GraphShape(r: Raster<int>, n: int)
    ensures forall L :: L in Graph(r, n) <==> 1 <= L <= n
    ensures forall L :: L in Graph(r, n) ==> 0 !in Graph(r, n)[L] && L !in Graph(r, n)[L]
    ensures ValuesIn(r, 0, n) ==>
              forall L, B :: L in Graph(r, n) && B in Graph(r, n)[L] ==> B in Graph(r, n)
  {
    if ValuesIn(r, 0, n) {
      forall L, B | L in Graph(r, n) && B in Graph(r, n)[L]
        ensures 1 <= B <= n
      {
        NeighboursWitnessed(r, L, B);
        var i, j :| InBounds(r, i, j) && IsBoundary(r, L, i, j) && B in WindowLabels(r, i, j);
        var a, b :| 0 <= a < |r| && 0 <= b < |r[a]| && InWindow(i, j, a, b, 1, 1) && r[a][b] == B;
      }
    }
  }

  /** The graph is symmetric: B is in graph[A] iff A is in graph[B]. */
  lemma GraphSymmetric(r: Raster<int>, n: int)
    ensures forall A, B :: A in Graph(r, n) && B in Graph(r, n) ==>
              (B in Graph(r, n)[A] <==> A in Graph(r, n)[B])
  {
    forall A, B | A in Graph(r, n) && B in Graph(r, n)
      ensures B in Graph(r, n)[A] <==> A in Graph(r, n)[B]
    {
      NeighboursSymmetric(r, A, B);
    }
  }

  lemma GatheredStart(r: Raster<int>, L: int)
    ensures Gathered(r, L, 0, 0) == {}
  {
  }

  lemma GatheredStep(r: Raster<int>, L: int, i: int, j: int)
    requires InBounds(r, i, j)
    ensures Gathered(r, L, i, j + 1) ==
            Gathered(r, L, i, j) + if IsBoundary(r, L, i, j) then WindowLabels(r, i, j) else {}
  {
    var added := if IsBoundary(r, L, i, j) then WindowLabels(r, i, j) else {};
    forall v | v in Gathered(r, L, i, j + 1)
      ensures v in Gathered(r, L, i, j) + added
    {
      var a, b :| 0 <= a < |r| && 0 <= b < |r[a]| && Before(a, b, i, j + 1) &&
                  IsBoundary(r, L, a, b) && v in WindowLabels(r, a, b);
      if a == i && b == j {
        assert v in added;
      } else {
        assert Before(a, b, i, j);
      }
    }
    forall v | v in added
      ensures v in Gathered(r, L, i, j + 1)
    {
      assert Before(i, j, i, j + 1);
    }
  }

  lemma GatheredRow(r: Raster<int>, L: int, i: int)
    requires 0 <= i < |r|
    ensures Gathered(r, L, i + 1, 0) == Gathered(r, L, i, |r[i]|)
  {
    forall v | v in Gathered(r, L, i + 1, 0)
      ensures v in Gathered(r, L, i, |r[i]|)
    {
      var a, b :| 0 <= a < |r| && 0 <= b < |r[a]| && Before(a, b, i + 1, 0) &&
                  IsBoundary(r, L, a, b) && v in WindowLabels(r, a, b);
      assert Before(a, b, i, |r[i]|);
    }
  }

  /** Lines 81-88 on the label raster: for L in 1 .. numLabels, gather the
      window labels of L's boundary pixels in row-major order, drop 0 and L,
      and store the set under L. */
  method BuildGraph(labels: array2<int>, numLabels: int) returns (graph: map<int, set<int>>)
    ensures graph == Graph(Snapshot(labels), numLabels)
  {
    var r := Snapshot(labels);
    graph := map[];
    var L := 1;
    while L <= numLabels
      invariant 1 <= L && (L <= numLabels + 1 || L == 1)
      invariant graph == map k | 1 <= k < L :: Neighbours(r, k)
    {
      var boundary := BoundaryMask(r, L);
      var adjacents: set<int> := {};
      GatheredStart(r, L);
      for i := 0 to |r|
        invariant adjacents == Gathered(r, L, i, 0)
      {
        for j := 0 to |r[i]|
          invariant adjacents == Gathered(r, L, i, j)
        {
          GatheredStep(r, L, i, j);
          if boundary[i][j] {
            adjacents := adjacents + WindowLabels(r, i, j);
          }
        }
        GatheredRow(r, L, i);
      }
      graph := graph[L := adjacents - {0, L}];
      L := L + 1;
    }
  }
}
