/** The mask split of floorgraph.py: the traversable mask, the room mask
    (the image opened by a 9-by-7 rectangle, twelve iterations, then
    thresholded) and the corridor mask (traversable but not room). */
module MaskSplit {
  import opened Grid
  import opened Morphology

  /** `cv.getStructuringElement(cv.MORPH_RECT, (7, 9))`: 9 rows by 7 columns,
      anchored at its centre, so 4 rows and 3 columns on either side. */
  const KERNEL_RADIUS_ROWS: nat := 4
  const KERNEL_RADIUS_COLS: nat := 3
  const ITERATIONS: nat := 12

  datatype Masks = Masks(floorplan: Mask, room: Mask, corridor: Mask)

  /** Lines 57-64 on the 8-bit image `img`. The room mask depends only on
      `img > 0` (it is the boolean opening of the floorplan mask), it lies
      inside the floorplan, and room and corridor partition the floorplan. */
  function Split(img: Raster<int>): (s: Masks)
    requires IsRect(img)
    ensures SameShape(s.floorplan, img) && SameShape(s.room, img) && SameShape(s.corridor, img)
    ensures IsRect(s.floorplan) && IsRect(s.room) && IsRect(s.corridor)
    ensures s.room == Opening(s.floorplan, KERNEL_RADIUS_ROWS, KERNEL_RADIUS_COLS, ITERATIONS)
    ensures forall i, j :: InBounds(img, i, j) ==>
              && (s.floorplan[i][j] <==> img[i][j] > 0)
              && (s.room[i][j] ==> s.floorplan[i][j])
              && !(s.room[i][j] && s.corridor[i][j])
              && (s.room[i][j] || s.corridor[i][j] <==> s.floorplan[i][j])
  {
    var floorplan := Positive(img);
    var room := Positive(GrayOpening(img, KERNEL_RADIUS_ROWS, KERNEL_RADIUS_COLS, ITERATIONS));
    OpeningCommutes(img, KERNEL_RADIUS_ROWS, KERNEL_RADIUS_COLS, ITERATIONS);
    OpeningShrinks(floorplan, KERNEL_RADIUS_ROWS, KERNEL_RADIUS_COLS, ITERATIONS);
    var corridor := And(floorplan, Not(room));
    ShapeKeepsRect(floorplan, img);
    ShapeKeepsRect(room, img);
    ShapeKeepsRect(corridor, img);
    Masks(floorplan, room, corridor)
  }
}
