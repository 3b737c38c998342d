/** The combined label raster (floorgraph.py lines 66-78): corridor labels
    as they are, room labels shifted past the corridor labels, written into
    a zeroed `np.uint16` raster by two masked assignments. */
module Combine {
  import opened Grid
  import opened Morphology
  import opened Labelling

  /** The largest value an `np.uint16` pixel holds. */
  const MAX_LABEL := 65535

  /** A store into the `np.uint16` raster keeps its argument modulo 2^16. */
  function U16(x: int): (y: int)
    ensures 0 <= y <= MAX_LABEL
    ensures 0 <= x <= MAX_LABEL ==> y == x
  {
    x % (MAX_LABEL + 1)
  }

  /** `k + lab`, pixel by pixel. */
  function Offset(lab: Raster<int>, k: int): (o: Raster<int>)
    ensures SameShape(o, lab)
  {
    seq(|lab|, i requires 0 <= i < |lab| =>
      seq(|lab[i]|, j requires 0 <= j < |lab[i]| => k + lab[i][j]))
  }

  ghost predicate Fits<T>(a: array2<int>, g: Raster<T>) {
    |g| == a.Length0 && forall i :: 0 <= i < |g| ==> |g[i]| == a.Length1
  }

  /** The raster that lines 76-78 leave behind: the room assignment comes
      last, so it wins where both masks are set. */
  function Combined(corridor: Mask, room: Mask, corridorLabels: Raster<int>,
                    roomLabels: Raster<int>, numCorridors: int): (r: Raster<int>)
    requires SameShape(room, corridor) && SameShape(corridorLabels, corridor)
    requires SameShape(roomLabels, corridor)
    ensures SameShape(r, corridor)
  {
    seq(|corridor|, i requires 0 <= i < |corridor| =>
      seq(|corridor[i]|, j requires 0 <= j < |corridor[i]| =>
        if room[i][j] then U16(numCorridors + roomLabels[i][j])
        else if corridor[i][j] then U16(corridorLabels[i][j])
        else 0))
  }

  /** `a[mask] = values[mask]` on the `np.uint16` raster a: pixels under the
      mask take their value modulo 2^16, the others keep theirs. */
  method AssignWhere(a: array2<int>, mask: Mask, values: Raster<int>)
    requires Fits(a, mask) && SameShape(values, mask)
    modifies a
    ensures forall i, j :: 0 <= i < a.Length0 && 0 <= j < a.Length1 ==>
              a[i, j] == if mask[i][j] then U16(values[i][j]) else old(a[i, j])
  {
    for i := 0 to a.Length0
      invariant forall x, y :: 0 <= x < i && 0 <= y < a.Length1 ==>
                  a[x, y] == if mask[x][y] then U16(values[x][y]) else old(a[x, y])
      invariant forall x, y :: i <= x < a.Length0 && 0 <= y < a.Length1 ==> a[x, y] == old(a[x, y])
    {
      for j := 0 to a.Length1
        invariant forall x, y :: 0 <= x < i && 0 <= y < a.Length1 ==>
                    a[x, y] == if mask[x][y] then U16(values[x][y]) else old(a[x, y])
        invariant forall y :: 0 <= y < j ==>
                    a[i, y] == if mask[i][y] then U16(values[i][y]) else old(a[i, y])
        invariant forall x, y :: 0 <= x < a.Length0 && 0 <= y < a.Length1 && (x > i || (x == i && y >= j)) ==>
                    a[x, y] == old(a[x, y])
      {
        if mask[i][j] {
          a[i, j] := U16(values[i][j]);
        }
      }
    }
  }

  /** Lines 76-78: a zeroed raster, the corridor labels written under the
      corridor mask, then `numCorridors + roomLabels` under the room mask. */
  method CombineLabels(corridor: Mask, room: Mask, corridorLabels: Raster<int>,
                       roomLabels: Raster<int>, numCorridors: int) returns (labels: array2<int>)
    requires IsRect(corridor) && SameShape(room, corridor)
    requires SameShape(corridorLabels, corridor) && SameShape(roomLabels, corridor)
    ensures fresh(labels) && labels.Length0 == |corridor| && labels.Length1 == Width(corridor)
    ensures Snapshot(labels) == Combined(corridor, room, corridorLabels, roomLabels, numCorridors)
  {
    labels := new int[|corridor|, Width(corridor)]((i, j) => 0);
    AssignWhere(labels, corridor, corridorLabels);
    AssignWhere(labels, room, Offset(roomLabels, numCorridors));
    Extensional(Snapshot(labels), Combined(corridor, room, corridorLabels, roomLabels, numCorridors));
  }

  /** The masks the combine step is given: disjoint, of one rectangular shape. */
  predicate Disjoint(corridor: Mask, room: Mask) {
    IsRect(corridor) && SameShape(room, corridor) &&
    forall i, j | 0 <= i < |corridor| && 0 <= j < |corridor[i]| :: !(corridor[i][j] && room[i][j])
  }

  /** With at most 65535 labels nothing wraps: background pixels are 0,
      corridor pixels keep their label in 1 .. numCorridors, room pixels get
      theirs shifted into numCorridors + 1 .. numCorridors + numRooms, so
      every corridor label is below every room label. */
  lemma CombinedPartition(corridor: Mask, room: Mask, corridorLabels: Raster<int>,
                          roomLabels: Raster<int>, numCorridors: nat, numRooms: nat)
    requires Disjoint(corridor, room)
    requires InRange(corridor, corridorLabels, numCorridors) && InRange(room, roomLabels, numRooms)
    requires numCorridors + numRooms <= MAX_LABEL
    ensures var r := Combined(corridor, room, corridorLabels, roomLabels, numCorridors);
      ValuesIn(r, 0, numCorridors + numRooms) &&
      forall i, j | 0 <= i < |r| && 0 <= j < |r[i]| ::
        && (r[i][j] == 0 <==> !corridor[i][j] && !room[i][j])
        && (corridor[i][j] ==> 1 <= r[i][j] <= numCorridors && r[i][j] == corridorLabels[i][j])
        && (room[i][j] ==> numCorridors < r[i][j] <= numCorridors + numRooms &&
                           r[i][j] == numCorridors + roomLabels[i][j])
  {
  }

  /** Touching pixels whose labels both lie in lo .. hi share their label. */
  ghost predicate Joined(r: Raster<int>, lo: int, hi: int) {
    forall i, j, a, b ::
      (InBounds(r, i, j) && InBounds(r, a, b) && InWindow(i, j, a, b, 1, 1) &&
       lo <= r[i][j] <= hi && lo <= r[a][b] <= hi) ==> r[i][j] == r[a][b]
  }

  /** Since each mask is labelled by its 8-connected components, two
      touching corridor pixels carry one corridor label and two touching room
      pixels one room label: a region only ever touches regions of the
      other kind. */
  lemma CombinedJoined(corridor: Mask, room: Mask, corridorLabels: Raster<int>,
                       roomLabels: Raster<int>, numCorridors: nat, numRooms: nat)
    requires Disjoint(corridor, room)
    requires IsLabelling(corridor, corridorLabels, numCorridors)
    requires IsLabelling(room, roomLabels, numRooms)
    requires numCorridors + numRooms <= MAX_LABEL
    ensures var r := Combined(corridor, room, corridorLabels, roomLabels, numCorridors);
      Joined(r, 1, numCorridors) && Joined(r, numCorridors + 1, numCorridors + numRooms)
  {
    var r := Combined(corridor, room, corridorLabels, roomLabels, numCorridors);
    CombinedPartition(corridor, room, corridorLabels, roomLabels, numCorridors, numRooms);
    forall i, j, a, b | InBounds(r, i, j) && InBounds(r, a, b) && InWindow(i, j, a, b, 1, 1) &&
                        1 <= r[i][j] <= numCorridors && 1 <= r[a][b] <= numCorridors
      ensures r[i][j] == r[a][b]
    {
      TouchingShareLabel(corridor, corridorLabels, numCorridors, (i, j), (a, b));
    }
    forall i, j, a, b | InBounds(r, i, j) && InBounds(r, a, b) && InWindow(i, j, a, b, 1, 1) &&
                        numCorridors + 1 <= r[i][j] <= numCorridors + numRooms &&
                        numCorridors + 1 <= r[a][b] <= numCorridors + numRooms
      ensures r[i][j] == r[a][b]
    {
      TouchingShareLabel(room, roomLabels, numRooms, (i, j), (a, b));
    }
  }

  /** What the later stages rely on from the combined raster: labels in
      0 .. numLabels, corridors 1 .. numCorridors below rooms, and touching
      pixels of one kind sharing their label. */
  ghost predicate Partitioned(r: Raster<int>, numCorridors: int, numLabels: int) {
    && 0 <= numCorridors <= numLabels
    && ValuesIn(r, 0, numLabels)
    && Joined(r, 1, numCorridors)
    && Joined(r, numCorridors + 1, numLabels)
  }
}
