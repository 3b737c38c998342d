# floorgraph: a verified model of the floorplan-labelling pipeline

`floorgraph.py` turns a grayscale floorplan into a region-adjacency graph. The model covers five steps:

- **Mask split.** Pixels above 0 are traversable. The image opened by a 9-row by 7-column rectangle, twelve iterations, gives the room mask. Traversable pixels outside it form the corridor mask.
- **Labelling.** The rooms and the corridors are labelled separately into 8-connected components. The two labellings are merged into one `np.uint16` raster: 0 for background, corridors first, then rooms.
- **Boundaries.** `boundary_points` extracts each component's boundary: its pixels that a 3x3 erosion removes.
- **Graph.** Each label's neighbour set is built from the 3x3 windows of its boundary pixels.
- **Collapse.** Dead-end corridors (exactly one neighbour) are merged into that neighbour, in place.

Modules, in pipeline order:

| file | module | models |
|---|---|---|
| grid.dfy | `Grid` | rasters as `seq<seq<T>>`, 3x3 and larger windows, row-major order, the `array2` snapshot |
| morphology.dfy | `Morphology` | boolean and 8-bit erosion, dilation and opening, with OpenCV's default border |
| masksplit.dfy | `MaskSplit` | lines 57-64 |
| labelling.dfy | `Labelling` | the contract of `cv.connectedComponents` (lines 67-70) |
| combine.dfy | `Combine` | lines 72-78, on an `array2<int>` |
| boundary.dfy | `Boundary` | `boundary_points`, lines 5-13 |
| adjacency.dfy | `Adjacency` | the graph loop, lines 81-88, with windows clipped to the raster |
| aswritten.dfy | `AdjacencyAsWritten` | line 86 exactly as numpy evaluates it, with counterexamples |
| collapse.dfy | `Collapse` | the dead-end pass, lines 97-103, in place on the `array2<int>` |
| pipeline.dfy | `Pipeline` | lines 57-103 end to end |

Conventions the model takes from OpenCV and numpy:

- **Structuring element.** `cv.getStructuringElement(cv.MORPH_RECT, (7, 9))` is 7 wide and 9 high. Its radius is 3 columns and 4 rows.
- **Opening.** `cv.MORPH_OPEN` with `iterations=12` erodes twelve times, then dilates twelve times.
- **Window border.** With the default border value, pixels outside the image never lower an erosion or raise a dilation. Every window is therefore clipped to the raster. As a result, a component pixel on the image edge is not a boundary pixel just because it touches the edge.
- **Thresholding the opening.** The grayscale opening thresholded at `> 0` equals the boolean opening of `floorplan > 0` (`Morphology.OpeningCommutes`). Everything downstream therefore works on boolean masks.
- **Pixel width.** A store into the `np.uint16` raster keeps its value modulo 2^16 (`Combine.U16`).

Behaviour of the code the model follows, and two places where it corrects the code:

- **Edge pixels.** `cv.erode` treats out-of-image pixels as set, so an edge pixel is not a boundary pixel just for touching the edge (`Boundary.InteriorNotBoundary`).
- **Label overflow.** The `np.uint16` store wraps a label above 65535 rather than rejecting it. Every property below that depends on label ranges is stated under `numCorridors + numRooms <= 65535`.
- **Windows at row and column 0 (corrected).** On line 86 the slice `i-1:i+2` at i = 0 starts at -1, the last row. On a raster of three or more rows the window of a boundary pixel in row 0 is therefore empty, and likewise for column 0. The model clips the window instead. `AdjacencyAsWritten` models the slice as written, and proves that both builds agree when row 0 and column 0 are background (see Findings).
- **Labels without boundary pixels (corrected).** On line 86 `np.concatenate` raises for a label with no boundary pixels. That happens when the label fills the raster, for example an all-traversable image whose opening keeps every pixel as room. The model gives such a label the empty neighbour set (see Findings).

A 2-cycle of degree-1 corridors cannot occur on a combined raster (`Pipeline.GraphBipartite`). On an arbitrary graph the pass would cascade (`Collapse.TwoCycleCascades`).

## Model

The source's computations are modelled by functions: `MaskSplit.Split` and `Morphology.GrayOpening` (lines 57-64), `Combine.Combined` (lines 76-78), `Boundary.BoundaryPoints` (`boundary_points`, lines 5-13), `Adjacency.Neighbours` and `Adjacency.Graph` (lines 84-88, windows clipped), `AdjacencyAsWritten.NeighboursAsWritten` (lines 84-87 as numpy evaluates them), and `Collapse.After` and `Collapse.CollapseRaster` (lines 98-103). The methods `Combine.CombineLabels`, `Adjacency.BuildGraph` and `Collapse.CollapseDeadEnds` carry out the loops and are proved equal to these functions. The rows below give the contracts proved about them.

| member | source | states |
|---|---|---|
| Morphology.OpeningShrinks | floorgraph.py:57-58 | the boolean opening (erode n times, then dilate n times) lies inside the mask it opens |
| Morphology.ErodeCommutes | floorgraph.py:58 | thresholding at `> 0` commutes with the grayscale erosion (minimum over the clipped window) |
| Morphology.DilateCommutes | floorgraph.py:58 | thresholding at `> 0` commutes with the grayscale dilation (maximum over the clipped window) |
| Morphology.OpeningCommutes | floorgraph.py:58-63 | `morphologyEx(img, MORPH_OPEN, ...) > 0` is the boolean opening of `img > 0` |
| MaskSplit.Split | floorgraph.py:57-64 | floorplan is `img > 0`; room is the 9x7, 12-iteration opening of floorplan; room lies inside floorplan; room and corridor are disjoint and their union is floorplan |
| Labelling.TouchingShareLabel | floorgraph.py:67-70 | under the labeller's contract (labels 1..n on the mask, 0 elsewhere, same label iff 8-connected), two touching mask pixels carry the same label |
| Combine.U16 | floorgraph.py:76-78 | a store into the uint16 raster lands in 0..65535 and keeps every value already in that range |
| Combine.AssignWhere | floorgraph.py:77-78 | `a[mask] = values[mask]`: pixels under the mask take their value (as uint16), every other pixel keeps its old value |
| Combine.CombineLabels | floorgraph.py:76-78 | the fresh raster is 0 off both masks, the corridor label on corridor pixels and `numcorridors` plus the room label on room pixels (the room store wins) |
| Combine.CombinedPartition | floorgraph.py:72-78 | within 65535 labels: non-traversable pixels are exactly the 0 pixels; corridor pixels keep their label in 1..numcorridors; room pixels hold `numcorridors` plus their label, in numcorridors+1..numlabels |
| Combine.CombinedJoined | floorgraph.py:66-78 | touching corridor pixels share one label, and so do touching room pixels, so a region touches only regions of the other kind |
| Boundary.BoundaryIff | floorgraph.py:10-11 | a pixel is on the boundary of L iff it holds L and some pixel of the raster in its 3x3 window does not |
| Boundary.BoundaryInComponent | floorgraph.py:10-13 | every boundary point lies in the raster and holds L |
| Boundary.InteriorNotBoundary | floorgraph.py:10-13 | a pixel of L whose clipped 3x3 window holds only L is not a boundary point, also on the raster's edge |
| Boundary.WalkFindsBoundary | floorgraph.py:10-13 | if the raster holds both L and some other value, L has a boundary point |
| Boundary.BoundaryEmptyIff | floorgraph.py:10-13 | L has no boundary point iff L is absent from the raster or fills all of it |
| Adjacency.NeighboursWitnessed | floorgraph.py:84-87 | every label in L's neighbour set is neither 0 nor L and occurs in the 3x3 window of a boundary pixel of L |
| Adjacency.NeighboursIffTouching | floorgraph.py:84-87 | B is a neighbour of A iff B is not 0, B is not A, and some pixel of A has a pixel of B in its 3x3 window |
| Adjacency.NeighboursSymmetric | floorgraph.py:84-87 | for nonzero labels, B is a neighbour of A iff A is a neighbour of B |
| Adjacency.GraphShape | floorgraph.py:81-88 | the graph has a key for exactly 1..numlabels; no set holds 0 or its own key; when pixels lie in 0..numlabels every neighbour is a key |
| Adjacency.GraphSymmetric | floorgraph.py:81-88 | B is in graph[A] iff A is in graph[B] |
| Adjacency.BuildGraph | floorgraph.py:81-88 | the loop over L, and over the boundary pixels in row-major order, returns the graph of neighbour sets of the label raster |
| AdjacencyAsWritten.SliceIsWindowInside | floorgraph.py:86 | away from row and column 0, `labels[i-1:i+2, j-1:j+2]` holds exactly the labels of the clipped window |
| AdjacencyAsWritten.RowZeroSliceEmpty | floorgraph.py:86 | on a raster of three or more rows, the slice taken at any pixel of row 0 is empty |
| AdjacencyAsWritten.ColumnZeroSliceEmpty | floorgraph.py:86 | on a raster of three or more columns, the slice taken at any pixel of column 0 is empty |
| AdjacencyAsWritten.AsWrittenMissesCorner | floorgraph.py:84-87 | as written, label 1 in the corner of [[1,2,2],[2,2,2],[2,2,2]] gets no neighbour |
| AdjacencyAsWritten.AsWrittenSeesCorner | floorgraph.py:84-87 | as written, label 2 of the same raster has 1 as a neighbour |
| AdjacencyAsWritten.AsWrittenIsAsymmetric | floorgraph.py:84-87 | as written, the graph of that raster is not symmetric |
| AdjacencyAsWritten.CornerIsSymmetric | floorgraph.py:84-87 | with clipped windows the same raster links 1 and 2 both ways |
| AdjacencyAsWritten.AsWrittenRejectsFilledRaster | floorgraph.py:84-86 | as written, on any rectangular raster, a label that fills the raster has no boundary pixels and `np.concatenate([])` raises |
| AdjacencyAsWritten.FilledRasterHasNoNeighbours | floorgraph.py:84-87 | with clipped windows, a label that fills the raster gets the empty neighbour set |
| AdjacencyAsWritten.AsWrittenAgreesInsideBorder | floorgraph.py:84-87 | on a rectangular raster whose row 0 and column 0 are background, every nonzero label present gets from line 86 exactly the clipped model's neighbour set |
| Collapse.Sole | floorgraph.py:101 | `(R,) = adj` picks the one element: adj == {R} |
| Collapse.CollapseDeadEnds | floorgraph.py:98-103 | each pixel ends as the fold, over L = 1..numcorridors, of "if graph[L] has one element R and the pixel holds L, it becomes R", with every decision taken from the graph given; the whole raster is the collapsed raster of the old one |
| Collapse.AfterOutside | floorgraph.py:98-103 | pixels holding 0 or anything above numcorridors (rooms) are never rewritten, except as merge targets |
| Collapse.AfterWithoutDeadEnds | floorgraph.py:100 | on a graph without dead-end corridors the pass changes nothing |
| Collapse.AfterKeepsNonzero | floorgraph.py:101-103 | when no corridor's neighbour set holds 0, a pixel is 0 after the pass iff it was 0 before |
| Collapse.AfterIsMerged | floorgraph.py:98-103 | when every dead end's sole neighbour is not a corridor, a pixel of a dead-end corridor ends as that neighbour and every other pixel keeps its value; nothing cascades |
| Collapse.TwoCycleCascades | floorgraph.py:98-103 | on the graph {1: {2}, 2: {1}} the single-snapshot pass rewrites both corridors to 1 |
| Collapse.TargetsAreRooms | floorgraph.py:99-101 | on a raster where touching corridors share a label, a dead-end corridor's sole neighbour is a room label |
| Collapse.CollapseOutcome | floorgraph.py:98-103 | a corridor L with graph[L] == {R} is rewritten to that room R; every other pixel (background, rooms, corridors of degree 0 or at least 2) keeps its value; no pixel holds a dead-end corridor afterwards; nonzero stays nonzero |
| Collapse.KeptCorridorKeepsNeighbours | floorgraph.py:98-103 | a corridor that is not a dead end has the same neighbour set after the pass as before |
| Collapse.CollapseSettles | floorgraph.py:98-103 | after the pass, the graph rebuilt from the raster has no corridor of degree 1, and a second pass leaves the raster unchanged |
| Pipeline.SplitIsDisjoint | floorgraph.py:62-64 | the corridor and room masks are disjoint and of one rectangular shape |
| Pipeline.GraphBipartite | floorgraph.py:83-88 | on the combined raster, corridors neighbour only rooms and rooms only corridors |
| Pipeline.CollapsedValuesIn | floorgraph.py:98-103 | the collapsed raster holds only labels 0..numlabels |
| Pipeline.CombinedFacts | floorgraph.py:66-78 | within 65535 labels, the combined raster has labels in 0..numlabels and is joined on corridors and on rooms |
| Pipeline.GraphAndCollapseFacts | floorgraph.py:81-103 | on such a raster the graph is bipartite and closed, and the collapsed raster is within range and settled |
| Pipeline.LabelRegions | floorgraph.py:57-78 | counts drop the background; the fresh raster is the combined raster of the split masks and holds image-sized dimensions |
| Pipeline.GraphAndCollapse | floorgraph.py:81-103 | returns the graph of the raster before the pass and leaves the collapsed raster; keys 1..numlabels; symmetric; within range, bipartite and settled |
| Pipeline.Run | floorgraph.py:57-103 | the whole pipeline: the returned graph and final raster are those of the split, combined, built and collapsed image, with the properties above |

## Left out

- Image loading (`cv.imread`, line 53). The image is a parameter of `Pipeline.Run`; its height and width (line 54) are the raster's dimensions.
- Rendering and UI: `draw_map` (lines 21-50), `cv.waitKey` and `cv.destroyAllWindows` (lines 94, 108, 110), the mouse callback `on_mouse_lookup` (lines 15-19). These are UI and floating-point drawing.
- Centroids from `cv.moments` (lines 34-39): floating point, used only for drawing.
- `print` diagnostics (lines 80, 89, 91, 95, 97, 102, 105, 109).
- The two `cv.connectedComponents` calls (lines 67, 69). OpenCV's algorithm and numbering order are not modelled. Their results are inputs to `Pipeline.Run`, constrained by `Labelling.IsLabelling`: labels 1..n on the mask, 0 elsewhere, every label used, same label iff 8-connected.
- The image's pixel type. Pixels are integers; the model does not restrict them to 0..255, and nothing depends on that range.
- Boundary.BoundaryPoints: the set of boundary coordinates, not the `(k, 2)` array `np.nonzero` returns in row-major order. `Adjacency.BuildGraph` still visits the pixels in that order.
- Adjacency.BuildGraph: windows are clipped to the raster on all four sides, and a label without boundary pixels gets the empty set. The script's slices instead contribute nothing for a boundary pixel in row 0 on a raster of three or more rows, or in column 0 on a raster of three or more columns; on a raster of two rows, the slice at row 0 keeps only row 1. Its `np.concatenate` raises for a label with no boundary pixels. Both behaviours are modelled in `AdjacencyAsWritten` (see Findings).
- Pipeline.Run: states label ranges, bipartiteness and settledness only when `numCorridors + numRooms <= 65535`. Beyond that the model stores values modulo 2^16, as numpy does, and promises nothing about them.
- Collapse.CollapseDeadEnds: stores `R` as given, without the uint16 conversion. In the pipeline `R` is itself a value read from the uint16 raster, so the conversion would not change it.

## Findings

| source | as written | input that shows it | evidently intended | confidence | as-written member | corrected member |
|---|---|---|---|---|---|---|
| floorgraph.py:86 | `labels[i-1:i+2, j-1:j+2]` at i = 0 or j = 0 starts the slice at -1, which numpy reads as the last row or column, so the window is empty on rasters of three or more rows (or columns) | the label raster [[1,2,2],[2,2,2],[2,2,2]] given to lines 83-88 directly (no image yields it through lines 57-78, since the 9x7 opening of a 3x3 image keeps all or nothing): graph[2] holds 1, but graph[1] is empty | the 3x3 window clipped to the raster, giving a symmetric graph | not executed | AdjacencyAsWritten.AsWrittenIsAsymmetric | Adjacency.NeighboursSymmetric |
| floorgraph.py:86 | `np.concatenate` of the empty list raises when a label has no boundary pixels, i.e. when it fills the raster | label raster [[1]], which lines 57-78 produce from a 1x1 image with a nonzero pixel (its opening keeps the pixel as room) | an empty neighbour set for that label | not executed | AdjacencyAsWritten.AsWrittenRejectsFilledRaster | AdjacencyAsWritten.FilledRasterHasNoNeighbours |
