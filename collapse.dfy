/** The dead-end pass (floorgraph.py lines 98-103): for L = 1 .. numCorridors
    in turn, when `graph[L]` is a single label R, every pixel holding L is
    rewritten to R in place. Every decision reads the graph built before the
    pass; it is never recomputed between iterations. */
module Collapse {
  import opened Grid
  import opened Adjacency
  import opened Combine

  predicate DeadEnd(graph: map<int, set<int>>, L: int) {
    L in graph && |graph[L]| == 1
  }

  lemma Singleton(s: set<int>, x: int)
    requires |s| == 1 && x in s
    ensures s == {x}
  {
    assert |s - {x}| == 0;
  }

  lemma EmptyIfNoElement(s: set<int>)
    ensures (forall x :: x !in s) ==> s == {}
  {
    if forall x :: x !in s {
      assert s == {};
    }
  }

  lemma SingletonHasElement(s: set<int>)
    requires |s| == 1
    ensures exists x :: x in s
  {
    EmptyIfNoElement(s);
  }

  /** The one element of a singleton, `(R,) = adj`. */
  ghost function Sole(s: set<int>): (x: int)
    requires |s| == 1
    ensures s == {x}
  {
    SingletonHasElement(s);
    var x :| x in s;
    Singleton(s, x);
    x
  }

  /** One iteration for label L applied to a pixel holding v. */
  ghost function Step(graph: map<int, set<int>>, L: int, v: int): (w: int) {
    if DeadEnd(graph, L) && v == L then Sole(graph[L]) else v
  }

  /** The value of a pixel that held v, after the iterations for 1 .. k. */
  ghost function After(graph: map<int, set<int>>, k: int, v: int): (w: int)
    decreases k
  {
    if k < 1 then v else Step(graph, k, After(graph, k - 1, v))
  }

  /** The raster after the whole pass. */
  ghost function CollapseRaster(r: Raster<int>, graph: map<int, set<int>>, numCorridors: int): (c: Raster<int>) {
    seq(|r|, i requires 0 <= i < |r| =>
      seq(|r[i]|, j requires 0 <= j < |r[i]| => After(graph, numCorridors, r[i][j])))
  }

  /** Lines 98-103 on the label raster. */
  method CollapseDeadEnds(labels: array2<int>, graph: map<int, set<int>>, numCorridors: int)
    requires forall L :: 1 <= L <= numCorridors ==> L in graph
    modifies labels
    ensures forall i, j :: 0 <= i < labels.Length0 && 0 <= j < labels.Length1 ==>
              labels[i, j] == After(graph, numCorridors, old(labels[i, j]))
    ensures Snapshot(labels) == CollapseRaster(old(Snapshot(labels)), graph, numCorridors)
  {
    ghost var before := Snapshot(labels);
    var L := 1;
    while L <= numCorridors
      invariant 1 <= L && (L <= numCorridors + 1 || L == 1)
      invariant forall i, j :: 0 <= i < labels.Length0 && 0 <= j < labels.Length1 ==>
                  labels[i, j] == After(graph, L - 1, old(labels[i, j]))
    {
      var adj := graph[L];
      if |adj| == 1 {
        SingletonHasElement(adj);
        var R :| R in adj;
        Singleton(adj, R);
        for i := 0 to labels.Length0
          invariant forall x, y :: 0 <= x < i && 0 <= y < labels.Length1 ==>
                      labels[x, y] == After(graph, L, old(labels[x, y]))
          invariant forall x, y :: i <= x < labels.Length0 && 0 <= y < labels.Length1 ==>
                      labels[x, y] == After(graph, L - 1, old(labels[x, y]))
        {
          for j := 0 to labels.Length1
            invariant forall x, y :: 0 <= x < i && 0 <= y < labels.Length1 ==>
                        labels[x, y] == After(graph, L, old(labels[x, y]))
            invariant forall y :: 0 <= y < j ==>
                        labels[i, y] == After(graph, L, old(labels[i, y]))
            invariant forall x, y :: 0 <= x < labels.Length0 && 0 <= y < labels.Length1 &&
                                     (x > i || (x == i && y >= j)) ==>
                        labels[x, y] == After(graph, L - 1, old(labels[x, y]))
          {
            if labels[i, j] == L {
              labels[i, j] := R;
            }
          }
        }
      }
      L := L + 1;
    }
    Extensional(Snapshot(labels), CollapseRaster(before, graph, numCorridors));
  }

  /** Pixels holding 0, a room label or anything outside 1 .. k are never
      rewritten by the first k iterations. */
  lemma {:induction false} AfterOutside(graph: map<int, set<int>>, k: int, v: int)
    requires v < 1 || v > k
    ensures After(graph, k, v) == v
    decreases k
  {
    if k >= 1 {
      AfterOutside(graph, k - 1, v);
    }
  }

  /** A pass over a graph without dead ends changes nothing. */
  lemma {:induction false} AfterWithoutDeadEnds(graph: map<int, set<int>>, k: int, v: int)
    requires forall L :: 1 <= L <= k ==> !DeadEnd(graph, L)
    ensures After(graph, k, v) == v
    decreases k
  {
    if k >= 1 {
      AfterWithoutDeadEnds(graph, k - 1, v);
    }
  }

  /** When no neighbour set of a corridor holds 0, nonzero pixels stay nonzero
      and background pixels stay background. */
  lemma {:induction false} AfterKeepsNonzero(graph: map<int, set<int>>, k: int, v: int)
    requires forall L :: 1 <= L <= k && L in graph ==> 0 !in graph[L]
    ensures (After(graph, k, v) == 0) == (v == 0)
    decreases k
  {
    if k >= 1 {
      AfterKeepsNonzero(graph, k - 1, v);
    }
  }

  /** Every dead end among corridors 1 .. k merges into a label outside 1 .. k. */
  ghost predicate TargetsOutside(graph: map<int, set<int>>, k: int) {
    forall L :: 1 <= L <= k && DeadEnd(graph, L) ==> !(1 <= Sole(graph[L]) <= k)
  }

  /** The value a pixel ends with when no merge lands on a corridor. */
  ghost function Merged(graph: map<int, set<int>>, k: int, v: int): (w: int) {
    if 1 <= v <= k && DeadEnd(graph, v) then Sole(graph[v]) else v
  }

  /** When dead ends merge only into labels outside 1 .. k, the pass does not
      cascade: a dead-end corridor's pixels become its sole neighbour, and all
      other pixels keep their value. */
  lemma {:induction false} AfterIsMerged(graph: map<int, set<int>>, k: int, v: int)
    requires TargetsOutside(graph, k)
    ensures After(graph, k, v) == Merged(graph, k, v)
    decreases k
  {
    if k >= 1 {
      assert TargetsOutside(graph, k - 1);
      AfterIsMerged(graph, k - 1, v);
      if 1 <= v <= k - 1 && DeadEnd(graph, v) {
        assert Sole(graph[v]) != k;
      }
    }
  }

  /** Without that guarantee the pass does cascade: with corridors 1 and 2
      each the other's only neighbour, the pixels of 1 become 2 and then,
      together with those of 2, become 1. */
  lemma TwoCycleCascades()
    ensures After(map[1 := {2}, 2 := {1}], 2, 1) == 1
    ensures After(map[1 := {2}, 2 := {1}], 2, 2) == 1
  {
    var g := map[1 := {2}, 2 := {1}];
    assert Sole(g[1]) == 2 && Sole(g[2]) == 1;
  }

  // ------------------------------------------------ the pass on a real graph

  /** In the graph of a raster where touching corridors share a label, a
      dead-end corridor's sole neighbour is a room label. */
  lemma TargetsAreRooms(r: Raster<int>, numCorridors: int, numLabels: int, L: int)
    requires 0 <= numCorridors <= numLabels && ValuesIn(r, 0, numLabels)
    requires Joined(r, 1, numCorridors)
    requires 1 <= L <= numCorridors && DeadEnd(Graph(r, numLabels), L)
    ensures numCorridors < Sole(Graph(r, numLabels)[L]) <= numLabels
  {
    var R := Sole(Graph(r, numLabels)[L]);
    assert R in Neighbours(r, L);
    NeighboursIffTouching(r, L, R);
    var i, j, a, b :| InBounds(r, i, j) && InBounds(r, a, b) && InWindow(i, j, a, b, 1, 1) &&
                      r[i][j] == L && r[a][b] == R;
  }

  lemma GraphTargetsOutside(r: Raster<int>, numCorridors: int, numLabels: int)
    requires 0 <= numCorridors <= numLabels && ValuesIn(r, 0, numLabels)
    requires Joined(r, 1, numCorridors)
    ensures TargetsOutside(Graph(r, numLabels), numCorridors)
  {
    forall L | 1 <= L <= numCorridors && DeadEnd(Graph(r, numLabels), L)
      ensures !(1 <= Sole(Graph(r, numLabels)[L]) <= numCorridors)
    {
      TargetsAreRooms(r, numCorridors, numLabels, L);
    }
  }

  /** On the combined raster the pass rewrites a corridor L to R iff
      graph[L] == {R}; afterwards no pixel holds a dead-end corridor, and
      every other pixel (background, rooms, corridors of degree 0 or at
      least 2) keeps its value. */
  lemma CollapseOutcome(r: Raster<int>, numCorridors: int, numLabels: int, i: int, j: int)
    requires 0 <= numCorridors <= numLabels && ValuesIn(r, 0, numLabels)
    requires Joined(r, 1, numCorridors)
    requires InBounds(r, i, j)
    ensures var g := Graph(r, numLabels);
      var v := r[i][j];
      var w := CollapseRaster(r, g, numCorridors)[i][j];
      && (1 <= v <= numCorridors && DeadEnd(g, v) ==> g[v] == {w} && numCorridors < w <= numLabels)
      && (!(1 <= v <= numCorridors && DeadEnd(g, v)) ==> w == v)
      && !(1 <= w <= numCorridors && DeadEnd(g, w))
      && (w == 0 <==> v == 0)
  {
    var g := Graph(r, numLabels);
    var v := r[i][j];
    GraphTargetsOutside(r, numCorridors, numLabels);
    AfterIsMerged(g, numCorridors, v);
    if 1 <= v <= numCorridors && DeadEnd(g, v) {
      TargetsAreRooms(r, numCorridors, numLabels, v);
    }
  }

  /** Next to a pixel of a corridor L that is not a dead end, the pass
      rewrites nothing: a dead-end corridor pixel there would have carried L
      itself. (The window of (i, j) holds (i, j), so this covers the pixel of
      L too.) */
  lemma BesideKeptCorridor(r: Raster<int>, numCorridors: int, numLabels: int, L: int,
                           i: int, j: int, a: int, b: int)
    requires 0 <= numCorridors <= numLabels && ValuesIn(r, 0, numLabels)
    requires Joined(r, 1, numCorridors)
    requires 1 <= L <= numCorridors && !DeadEnd(Graph(r, numLabels), L)
    requires InBounds(r, i, j) && InBounds(r, a, b) && InWindow(i, j, a, b, 1, 1) && r[i][j] == L
    ensures CollapseRaster(r, Graph(r, numLabels), numCorridors)[a][b] == r[a][b]
  {
    CollapseOutcome(r, numCorridors, numLabels, a, b);
  }

  /** A pixel that holds a corridor L other than a dead end after the pass
      held L before it. */
  lemma KeptCorridorPixel(r: Raster<int>, numCorridors: int, numLabels: int, L: int, i: int, j: int)
    requires 0 <= numCorridors <= numLabels && ValuesIn(r, 0, numLabels)
    requires Joined(r, 1, numCorridors)
    requires 1 <= L <= numCorridors && !DeadEnd(Graph(r, numLabels), L)
    requires InBounds(r, i, j) && CollapseRaster(r, Graph(r, numLabels), numCorridors)[i][j] == L
    ensures r[i][j] == L
  {
    CollapseOutcome(r, numCorridors, numLabels, i, j);
  }

  lemma KeptTouchShrinks(r: Raster<int>, numCorridors: int, numLabels: int, L: int, B: int)
    requires 0 <= numCorridors <= numLabels && ValuesIn(r, 0, numLabels)
    requires Joined(r, 1, numCorridors)
    requires 1 <= L <= numCorridors && !DeadEnd(Graph(r, numLabels), L)
    requires Touch(CollapseRaster(r, Graph(r, numLabels), numCorridors), L, B)
    ensures Touch(r, L, B)
  {
    var r' := CollapseRaster(r, Graph(r, numLabels), numCorridors);
    var i, j, a, b :| InBounds(r', i, j) && InBounds(r', a, b) && InWindow(i, j, a, b, 1, 1) &&
                      r'[i][j] == L && r'[a][b] == B;
    KeptCorridorPixel(r, numCorridors, numLabels, L, i, j);
    BesideKeptCorridor(r, numCorridors, numLabels, L, i, j, a, b);
  }

  lemma KeptTouchGrows(r: Raster<int>, numCorridors: int, numLabels: int, L: int, B: int)
    requires 0 <= numCorridors <= numLabels && ValuesIn(r, 0, numLabels)
    requires Joined(r, 1, numCorridors)
    requires 1 <= L <= numCorridors && !DeadEnd(Graph(r, numLabels), L)
    requires Touch(r, L, B)
    ensures Touch(CollapseRaster(r, Graph(r, numLabels), numCorridors), L, B)
  {
    var r' := CollapseRaster(r, Graph(r, numLabels), numCorridors);
    var i, j, a, b :| InBounds(r, i, j) && InBounds(r, a, b) && InWindow(i, j, a, b, 1, 1) &&
                      r[i][j] == L && r[a][b] == B;
    BesideKeptCorridor(r, numCorridors, numLabels, L, i, j, i, j);
    BesideKeptCorridor(r, numCorridors, numLabels, L, i, j, a, b);
    assert InBounds(r', i, j) && InBounds(r', a, b);
  }

  /** Rewriting dead ends by the rule above, a corridor that was not a dead end
      keeps exactly the neighbours it had. */
  lemma KeptCorridorKeepsNeighbours(r: Raster<int>, numCorridors: int, numLabels: int, L: int)
    requires 0 <= numCorridors <= numLabels && ValuesIn(r, 0, numLabels)
    requires Joined(r, 1, numCorridors)
    requires 1 <= L <= numCorridors && !DeadEnd(Graph(r, numLabels), L)
    ensures var r' := CollapseRaster(r, Graph(r, numLabels), numCorridors);
      Neighbours(r', L) == Neighbours(r, L)
  {
    var r' := CollapseRaster(r, Graph(r, numLabels), numCorridors);
    forall B | B in Neighbours(r', L)
      ensures B in Neighbours(r, L)
    {
      NeighboursIffTouching(r', L, B);
      KeptTouchShrinks(r, numCorridors, numLabels, L, B);
      NeighboursIffTouching(r, L, B);
    }
    forall B | B in Neighbours(r, L)
      ensures B in Neighbours(r', L)
    {
      NeighboursIffTouching(r, L, B);
      KeptTouchGrows(r, numCorridors, numLabels, L, B);
      NeighboursIffTouching(r', L, B);
    }
  }

  /** No corridor of r has exactly one neighbour. */
  ghost predicate Settled(r: Raster<int>, numCorridors: int, numLabels: int) {
    forall L :: 1 <= L <= numCorridors ==> !DeadEnd(Graph(r, numLabels), L)
  }

  /** One pass settles the raster: in the graph rebuilt from the collapsed
      raster no corridor has exactly one neighbour (collapsed corridors have
      none, the others keep theirs), so a second pass changes nothing. */
  lemma CollapseSettles(r: Raster<int>, numCorridors: int, numLabels: int)
    requires 0 <= numCorridors <= numLabels && ValuesIn(r, 0, numLabels)
    requires Joined(r, 1, numCorridors)
    ensures var r' := CollapseRaster(r, Graph(r, numLabels), numCorridors);
      && Settled(r', numCorridors, numLabels)
      && CollapseRaster(r', Graph(r', numLabels), numCorridors) == r'
  {
    var g := Graph(r, numLabels);
    var r' := CollapseRaster(r, g, numCorridors);
    forall L | 1 <= L <= numCorridors
      ensures !DeadEnd(Graph(r', numLabels), L)
    {
      if DeadEnd(g, L) {
        forall i, j | InBounds(r', i, j)
          ensures r'[i][j] != L
        {
          CollapseOutcome(r, numCorridors, numLabels, i, j);
        }
        forall B | B in Neighbours(r', L)
          ensures false
        {
          NeighboursIffTouching(r', L, B);
        }
        assert Neighbours(r', L) == {};
      } else {
        KeptCorridorKeepsNeighbours(r, numCorridors, numLabels, L);
      }
    }
    var r'' := CollapseRaster(r', Graph(r', numLabels), numCorridors);
    forall i, j | InBounds(r'', i, j)
      ensures r''[i][j] == r'[i][j]
    {
      AfterWithoutDeadEnds(Graph(r', numLabels), numCorridors, r'[i][j]);
    }
    Extensional(r'', r');
  }
}
