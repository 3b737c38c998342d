/** The script's computation from the loaded image to the relabelled raster
    (floorgraph.py lines 57-103): split the image into room and corridor
    masks, combine the two labellings into one raster, build the adjacency
    graph, and collapse the dead-end corridors. The two calls to
    `cv.connectedComponents` are inputs that meet their contract. */
module Pipeline {
  import opened Grid
  import opened Morphology
  import opened Labelling
  import opened MaskSplit
  import opened Combine
  import opened Adjacency
  import opened Collapse

  /** The split hands the combine step disjoint masks of one shape. */
  lemma SplitIsDisjoint(img: Raster<int>)
    requires IsRect(img)
    ensures Disjoint(Split(img).corridor, Split(img).room)
  {
    var s := Split(img);
    forall i, j | 0 <= i < |s.corridor| && 0 <= j < |s.corridor[i]|
      ensures !(s.corridor[i][j] && s.room[i][j])
    {
      assert InBounds(img, i, j);
    }
  }

  /** On a raster where touching corridors share a label and touching rooms
      share a label, the graph is bipartite: corridors neighbour only rooms and
      rooms only corridors. */
  lemma GraphBipartite(r: Raster<int>, numCorridors: int, numLabels: int)
    requires 0 <= numCorridors <= numLabels && ValuesIn(r, 0, numLabels)
    requires Joined(r, 1, numCorridors) && Joined(r, numCorridors + 1, numLabels)
    ensures forall L, B :: L in Graph(r, numLabels) && B in Graph(r, numLabels)[L] ==>
              (L <= numCorridors <==> numCorridors < B)
  {
    GraphShape(r, numLabels);
    forall L, B | L in Graph(r, numLabels) && B in Graph(r, numLabels)[L]
      ensures L <= numCorridors <==> numCorridors < B
    {
      NeighboursIffTouching(r, L, B);
      var i, j, a, b :| InBounds(r, i, j) && InBounds(r, a, b) && InWindow(i, j, a, b, 1, 1) &&
                        r[i][j] == L && r[a][b] == B;
    }
  }

  /** Every pixel of the collapsed raster lies in 0 .. numLabels. */
  lemma CollapsedValuesIn(r: Raster<int>, numCorridors: int, numLabels: int)
    requires 0 <= numCorridors <= numLabels && ValuesIn(r, 0, numLabels)
    requires Joined(r, 1, numCorridors)
    ensures ValuesIn(CollapseRaster(r, Graph(r, numLabels), numCorridors), 0, numLabels)
  {
    var r' := CollapseRaster(r, Graph(r, numLabels), numCorridors);
    forall i, j | 0 <= i < |r'| && 0 <= j < |r'[i]|
      ensures 0 <= r'[i][j] <= numLabels
    {
      CollapseOutcome(r, numCorridors, numLabels, i, j);
    }
  }

  /** On a partitioned raster the graph is bipartite and closed (every
      neighbour is a key), and the collapsed raster holds labels 0 .. n and
      is settled. */
  lemma GraphAndCollapseFacts(r: Raster<int>, numCorridors: int, numLabels: int)
    requires Partitioned(r, numCorridors, numLabels)
    ensures var graph := Graph(r, numLabels);
      var collapsed := CollapseRaster(r, graph, numCorridors);
      && (forall L, B :: L in graph && B in graph[L] ==>
            B in graph && (L <= numCorridors <==> numCorridors < B))
      && ValuesIn(collapsed, 0, numLabels)
      && Settled(collapsed, numCorridors, numLabels)
  {
    GraphShape(r, numLabels);
    GraphBipartite(r, numCorridors, numLabels);
    CollapsedValuesIn(r, numCorridors, numLabels);
    CollapseSettles(r, numCorridors, numLabels);
  }

  /** The combined raster of two labellings within 65535 labels is
      partitioned. */
  lemma CombinedFacts(corridor: Mask, room: Mask, corridorLabels: Raster<int>,
                      roomLabels: Raster<int>, numCorridors: nat, numRooms: nat, numLabels: int)
    requires Disjoint(corridor, room)
    requires IsLabelling(corridor, corridorLabels, numCorridors)
    requires IsLabelling(room, roomLabels, numRooms)
    requires numLabels == numCorridors + numRooms <= MAX_LABEL
    ensures Partitioned(Combined(corridor, room, corridorLabels, roomLabels, numCorridors),
                        numCorridors, numLabels)
  {
    CombinedPartition(corridor, room, corridorLabels, roomLabels, numCorridors, numRooms);
    CombinedJoined(corridor, room, corridorLabels, roomLabels, numCorridors, numRooms);
  }

  /** Lines 57-78: the masks, the two labellings' counts without the
      background, and the combined `np.uint16` label raster. */
  method LabelRegions(img: Raster<int>, corridorCount: int, corridorLabels: Raster<int>,
                      roomCount: int, roomLabels: Raster<int>)
    returns (labels: array2<int>, numCorridors: int, numRooms: int, numLabels: int)
    requires IsRect(img)
    requires IsLabelling(Split(img).corridor, corridorLabels, corridorCount - 1)
    requires IsLabelling(Split(img).room, roomLabels, roomCount - 1)
    ensures fresh(labels)
    ensures numCorridors == corridorCount - 1 && numRooms == roomCount - 1
    ensures 0 <= numCorridors && 0 <= numRooms && numLabels == numCorridors + numRooms
    ensures labels.Length0 == |img| && labels.Length1 == Width(img)
    ensures Snapshot(labels) ==
            Combined(Split(img).corridor, Split(img).room, corridorLabels, roomLabels, numCorridors)
    ensures numLabels <= MAX_LABEL ==> Partitioned(Snapshot(labels), numCorridors, numLabels)
  {
    var s := Split(img);
    numCorridors := corridorCount - 1;
    numRooms := roomCount - 1;
    numLabels := numCorridors + numRooms;
    SplitIsDisjoint(img);
    ShapeKeepsRect(s.corridor, img);
    labels := CombineLabels(s.corridor, s.room, corridorLabels, roomLabels, numCorridors);
    if numLabels <= MAX_LABEL {
      CombinedFacts(s.corridor, s.room, corridorLabels, roomLabels, numCorridors, numRooms, numLabels);
    }
  }

  /** Lines 81-103: build the graph of the label raster, then collapse its
      dead-end corridors in place. The returned graph is the one built before
      the collapse; the script never rebuilds it. */
  method GraphAndCollapse(labels: array2<int>, numCorridors: int, numLabels: int)
    returns (graph: map<int, set<int>>)
    requires 0 <= numCorridors <= numLabels
    modifies labels
    ensures graph == Graph(old(Snapshot(labels)), numLabels)
    ensures Snapshot(labels) == CollapseRaster(old(Snapshot(labels)), graph, numCorridors)
    ensures forall L :: L in graph <==> 1 <= L <= numLabels
    ensures forall A, B :: A in graph && B in graph ==> (B in graph[A] <==> A in graph[B])
    ensures Partitioned(old(Snapshot(labels)), numCorridors, numLabels) ==>
      && (forall L, B :: L in graph && B in graph[L] ==>
            B in graph && (L <= numCorridors <==> numCorridors < B))
      && ValuesIn(Snapshot(labels), 0, numLabels)
      && Settled(Snapshot(labels), numCorridors, numLabels)
  {
    ghost var before := Snapshot(labels);
    graph := BuildGraph(labels, numLabels);
    GraphShape(before, numLabels);
    GraphSymmetric(before, numLabels);
    CollapseDeadEnds(labels, graph, numCorridors);
    if Partitioned(before, numCorridors, numLabels) {
      GraphAndCollapseFacts(before, numCorridors, numLabels);
    }
  }

  /** Lines 57-103 end to end. */
  method Run(img: Raster<int>, corridorCount: int, corridorLabels: Raster<int>,
             roomCount: int, roomLabels: Raster<int>)
    returns (labels: array2<int>, numCorridors: int, numRooms: int, numLabels: int,
             graph: map<int, set<int>>)
    requires IsRect(img)
    requires IsLabelling(Split(img).corridor, corridorLabels, corridorCount - 1)
    requires IsLabelling(Split(img).room, roomLabels, roomCount - 1)
    ensures fresh(labels)
    ensures numCorridors == corridorCount - 1 && numRooms == roomCount - 1
    ensures numLabels == numCorridors + numRooms
    ensures labels.Length0 == |img| && labels.Length1 == Width(img)
    ensures forall L :: L in graph <==> 1 <= L <= numLabels
    ensures forall A, B :: A in graph && B in graph ==> (B in graph[A] <==> A in graph[B])
    ensures var combined :=
              Combined(Split(img).corridor, Split(img).room, corridorLabels, roomLabels, numCorridors);
      && graph == Graph(combined, numLabels)
      && Snapshot(labels) == CollapseRaster(combined, graph, numCorridors)
    ensures numLabels <= MAX_LABEL ==>
      && (forall L, B :: L in graph && B in graph[L] ==>
            B in graph && (L <= numCorridors <==> numCorridors < B))
      && ValuesIn(Snapshot(labels), 0, numLabels)
      && Settled(Snapshot(labels), numCorridors, numLabels)
  {
    labels, numCorridors, numRooms, numLabels :=
      LabelRegions(img, corridorCount, corridorLabels, roomCount, roomLabels);
    graph := GraphAndCollapse(labels, numCorridors, numLabels);
  }
}
