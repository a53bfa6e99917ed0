/** Bounding boxes and the overlap test that the subtrahend pre-filter uses
    (src/index.js, `bboxOverlap`). A box is `[xmin, ymin, xmax, ymax]` in
    degrees; a box whose `xmin` exceeds its `xmax` crosses the antimeridian,
    as section 5.2 of RFC 7946 allows. */
module Bbox {

  datatype Box = Box(xmin: real, ymin: real, xmax: real, ymax: real)

  /** True when the box crosses the antimeridian. */
  predicate Crosses(b: Box) {
    b.xmin > b.xmax
  }

  /** A box whose edges are longitudes in [-180, 180] and whose south edge is
      not north of its north edge. */
  predicate WellFormed(b: Box) {
    -180.0 <= b.xmin <= 180.0 && -180.0 <= b.xmax <= 180.0 && b.ymin <= b.ymax
  }

  /** The box as `bboxOverlap` compares it: a crossing box has its west edge
      moved 360 degrees west, so that its x-range becomes one interval. */
  function Linearized(b: Box): Box {
    if Crosses(b) then b.(xmin := b.xmin - 360.0) else b
  }

  /** `a` lies strictly east of `b` or strictly north of it. */
  predicate Beyond(a: Box, b: Box) {
    a.xmin > b.xmax || a.ymin > b.ymax
  }

  /** `bboxOverlap(bbox1, bbox2)`: after linearizing both boxes, they overlap
      unless one lies strictly beyond the other on some axis. */
  function BboxOverlap(b1: Box, b2: Box): (r: bool)
    ensures r <==> !Beyond(Linearized(b2), Linearized(b1)) && !Beyond(Linearized(b1), Linearized(b2))
  {
    var x1min := if b1.xmin > b1.xmax then b1.xmin - 360.0 else b1.xmin;
    var x2min := if b2.xmin > b2.xmax then b2.xmin - 360.0 else b2.xmin;
    if x2min > b1.xmax || b2.ymin > b1.ymax then false
    else if x1min > b2.xmax || b1.ymin > b2.ymax then false
    else true
  }

  /** The test does not depend on the order of its arguments. */
  lemma BboxOverlapSymmetric(b1: Box, b2: Box)
    ensures BboxOverlap(b1, b2) == BboxOverlap(b2, b1)
  {
  }

  /** A box whose south edge is not north of its north edge overlaps
      itself; for a crossing box this needs its edges to be longitudes
      within [-180, 180]. */
  lemma BboxOverlapReflexive(b: Box)
    requires b.ymin <= b.ymax
    requires Crosses(b) ==> WellFormed(b)
    ensures BboxOverlap(b, b)
  {
  }

  // ---------------------------------------------------------------------
  // Overlap on the globe: the meaning the pre-filter relies on

  /** The point (lon, lat), with lon in [-180, 180], lies in box `b`; a
      crossing box covers [xmin, 180] and [-180, xmax]. */
  ghost predicate Contains(b: Box, lon: real, lat: real) {
    -180.0 <= lon <= 180.0 && b.ymin <= lat <= b.ymax &&
    if Crosses(b) then b.xmin <= lon || lon <= b.xmax
    else b.xmin <= lon <= b.xmax
  }

  /** Overlap of two boxes on the globe, with each crossing box taken as the
      union of its two pieces. */
  function OverlapOnSphere(a: Box, b: Box): (r: bool)
    ensures !Crosses(a) && !Crosses(b) ==> r == BboxOverlap(a, b)
  {
    a.ymin <= b.ymax && b.ymin <= a.ymax &&
    if Crosses(a) && Crosses(b) then true
    else if Crosses(a) then a.xmin <= b.xmax || b.xmin <= a.xmax
    else if Crosses(b) then b.xmin <= a.xmax || a.xmin <= b.xmax
    else a.xmin <= b.xmax && b.xmin <= a.xmax
  }

  /** Two well-formed boxes overlap on the globe exactly when some point lies
      in both. */
  lemma OverlapOnSphereIffCommonPoint(a: Box, b: Box)
    requires WellFormed(a) && WellFormed(b)
    ensures OverlapOnSphere(a, b) <==> exists lon, lat :: Contains(a, lon, lat) && Contains(b, lon, lat)
  {
    if OverlapOnSphere(a, b) {
      var lat := if a.ymin < b.ymin then b.ymin else a.ymin;
      var lon: real;
      if Crosses(a) && Crosses(b) {
        lon := 180.0;
      } else if Crosses(a) {
        lon := if a.xmin <= b.xmax then (if a.xmin < b.xmin then b.xmin else a.xmin) else b.xmin;
      } else if Crosses(b) {
        lon := if b.xmin <= a.xmax then (if b.xmin < a.xmin then a.xmin else b.xmin) else a.xmin;
      } else {
        lon := if a.xmin < b.xmin then b.xmin else a.xmin;
      }
      assert Contains(a, lon, lat) && Contains(b, lon, lat);
    }
  }

  /** `bboxOverlap` never reports an overlap that is not there: for
      well-formed boxes it implies overlap on the globe. */
  lemma BboxOverlapSound(a: Box, b: Box)
    requires WellFormed(a) && WellFormed(b)
    ensures BboxOverlap(a, b) ==> OverlapOnSphere(a, b)
  {
  }

  /** The converse fails east of the antimeridian: a box around longitude
      176 lies inside the crossing box [170, -170], yet `bboxOverlap` finds
      no overlap, because only the crossing box is moved 360 degrees west. */
  lemma BboxOverlapMissesEastOfAntimeridian()
    ensures var minuend := Box(175.0, 2.0, 178.0, 5.0);
            var fromFilename := Box(170.0, 0.0, -170.0, 10.0);
            WellFormed(minuend) && WellFormed(fromFilename) &&
            Contains(minuend, 176.0, 3.0) && Contains(fromFilename, 176.0, 3.0) &&
            OverlapOnSphere(minuend, fromFilename) && !BboxOverlap(minuend, fromFilename)
  {
  }
}
