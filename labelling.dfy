/** What the pipeline relies on from `cv.connectedComponents`: stated as a
    contract, not as OpenCV's algorithm or its numbering order. The call
    returns a count that includes the background, so a mask with n
    components comes back with the count n + 1 and labels 0 .. n. */
module Labelling {
  import opened Grid
  import opened Morphology

  type Pos = (int, int)

  /** A chain of mask pixels, each in the 3x3 window of the one before. */
  ghost predicate IsPath(m: Mask, ps: seq<Pos>) {
    && (forall k :: 0 <= k < |ps| ==> InBounds(m, ps[k].0, ps[k].1) && m[ps[k].0][ps[k].1])
    && (forall k :: 0 <= k < |ps| - 1 ==> InWindow(ps[k].0, ps[k].1, ps[k + 1].0, ps[k + 1].1, 1, 1))
  }

  /** p and q lie in one 8-connected component of m. */
  ghost predicate Connected(m: Mask, p: Pos, q: Pos) {
    exists ps :: |ps| > 0 && ps[0] == p && ps[|ps| - 1] == q && IsPath(m, ps)
  }

  /** Background pixels carry 0, mask pixels a label in 1 .. n. */
  predicate InRange(m: Mask, lab: Raster<int>, n: int) {
    SameShape(lab, m) &&
    forall i, j | 0 <= i < |m| && 0 <= j < |m[i]| ::
      if m[i][j] then 1 <= lab[i][j] <= n else lab[i][j] == 0
  }

  ghost predicate Used(lab: Raster<int>, k: int) {
    exists i, j :: InBounds(lab, i, j) && lab[i][j] == k
  }

  /** Two mask pixels share a label iff they are 8-connected through the mask. */
  ghost predicate LabelsAreComponents(m: Mask, lab: Raster<int>) {
    SameShape(lab, m) &&
    forall p: Pos, q: Pos ::
      InBounds(m, p.0, p.1) && InBounds(m, q.0, q.1) && m[p.0][p.1] && m[q.0][q.1] ==>
        (lab[p.0][p.1] == lab[q.0][q.1] <==> Connected(m, p, q))
  }

  /** `lab` is a labelling of `m` into its n components: every label of
      1 .. n is used. */
  ghost predicate IsLabelling(m: Mask, lab: Raster<int>, n: int) {
    && n >= 0
    && IsRect(m)
    && InRange(m, lab, n)
    && (forall k :: 1 <= k <= n ==> Used(lab, k))
    && LabelsAreComponents(m, lab)
  }

  /** Two mask pixels that touch (8-connectivity) carry the same label. */
  lemma TouchingShareLabel(m: Mask, lab: Raster<int>, n: int, p: Pos, q: Pos)
    requires IsLabelling(m, lab, n)
    requires InBounds(m, p.0, p.1) && InBounds(m, q.0, q.1) && m[p.0][p.1] && m[q.0][q.1]
    requires InWindow(p.0, p.1, q.0, q.1, 1, 1)
    ensures lab[p.0][p.1] == lab[q.0][q.1]
  {
    var ps := [p, q];
    assert IsPath(m, ps);
    assert Connected(m, p, q);
  }
}
