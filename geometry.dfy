/**
 * The box model shared by both trees: bounds normalised to a 0-1000 space
 * (`get_bounds` of Tess and Abby), the inclusive overlap test (`Map.overlap`)
 * and intersection-over-union with the inclusive "+1" pixel convention
 * (`Map.get_IOU`). Coordinates are exact reals, not floating-point numbers.
 */
module Geometry {
  import opened Utils

  /** A normalised box, in the order `get_bounds().values()` lists it. */
  datatype Box = Box(xmin: real, ymin: real, xmax: real, ymax: real)

  predicate WellFormed(a: Box) { a.xmin <= a.xmax && a.ymin <= a.ymax }

  /** The point (x, y) lies in the box, edges included. */
  predicate Contains(a: Box, x: real, y: real) {
    a.xmin <= x <= a.xmax && a.ymin <= y <= a.ymax
  }

  // ---------------------------------------------------------------------
  // Normalisation (`get_bounds`)
  // ---------------------------------------------------------------------

  /** `v / dim * 1000`: the position of `v` along a page side of length `dim`, on a 0-1000 scale. */
  function Scale(v: int, dim: Dim): (s: real)
    ensures s * (dim as real) == 1000.0 * (v as real)
  {
    v as real / dim as real * 1000.0
  }

  /** Raw pixel bounds l, t, r, b scaled by the page's width and height. */
  function Normalize(l: int, t: int, r: int, b: int, width: Dim, height: Dim): (box: Box)
    ensures box.xmin * (width as real) == 1000.0 * (l as real)
    ensures box.xmax * (width as real) == 1000.0 * (r as real)
    ensures box.ymin * (height as real) == 1000.0 * (t as real)
    ensures box.ymax * (height as real) == 1000.0 * (b as real)
  {
    Box(Scale(l, width), Scale(t, height), Scale(r, width), Scale(b, height))
  }

  /** Scaling keeps the order of coordinates, in both directions. */
  lemma ScaleMonotone(u: int, v: int, dim: Dim)
    ensures u <= v <==> Scale(u, dim) <= Scale(v, dim)
  {
    var su, sv := Scale(u, dim), Scale(v, dim);
    if u <= v {
      assert (sv - su) * (dim as real) == 1000.0 * ((v - u) as real);
      PositiveFactor(sv - su, dim as real);
    } else {
      assert (su - sv) * (dim as real) == 1000.0 * ((u - v) as real);
      PositiveFactor(su - sv, dim as real);
    }
  }

  /** If x * d is non-negative (positive) and d is positive, then so is x. */
  lemma PositiveFactor(x: real, d: real)
    requires d > 0.0
    ensures x * d >= 0.0 ==> x >= 0.0
    ensures x * d > 0.0 ==> x > 0.0
  {
    if x < 0.0 {
      assert x * d < 0.0;
    }
  }

  /** A raw box is well formed exactly when its normalised box is. */
  lemma NormalizeWellFormed(l: int, t: int, r: int, b: int, width: Dim, height: Dim)
    ensures WellFormed(Normalize(l, t, r, b, width, height)) <==> l <= r && t <= b
  {
    ScaleMonotone(l, r, width);
    ScaleMonotone(t, b, height);
  }

  /** A box inside the page lands inside the 0-1000 square, the page's far corner on (1000, 1000). */
  lemma NormalizeInPage(l: int, t: int, r: int, b: int, width: Dim, height: Dim)
    requires 0 <= l <= r <= width && 0 <= t <= b <= height
    ensures var box := Normalize(l, t, r, b, width, height);
      0.0 <= box.xmin <= box.xmax <= 1000.0 && 0.0 <= box.ymin <= box.ymax <= 1000.0
    ensures Normalize(0, 0, width, height, width, height) == Box(0.0, 0.0, 1000.0, 1000.0)
  {
    ScaleMonotone(0, l, width);
    ScaleMonotone(l, r, width);
    ScaleMonotone(r, width, width);
    ScaleMonotone(0, t, height);
    ScaleMonotone(t, b, height);
    ScaleMonotone(b, height, height);
  }

  // ---------------------------------------------------------------------
  // Overlap (`Map.overlap`)
  // ---------------------------------------------------------------------

  /** `overlap_1d`: two closed intervals meet (touching ends count). */
  predicate OverlapOneAxis(lo1: real, hi1: real, lo2: real, hi2: real) {
    hi1 >= lo2 && hi2 >= lo1
  }

  /** `Map.overlap`: the projections meet on both axes. */
  predicate Overlap(a: Box, b: Box) {
    OverlapOneAxis(a.xmin, a.xmax, b.xmin, b.xmax) && OverlapOneAxis(a.ymin, a.ymax, b.ymin, b.ymax)
  }

  lemma OverlapSymmetric(a: Box, b: Box)
    ensures Overlap(a, b) == Overlap(b, a)
  {
  }

  /** For well-formed boxes, overlapping means sharing at least one point, edges included. */
  lemma OverlapIffCommonPoint(a: Box, b: Box)
    requires WellFormed(a) && WellFormed(b)
    ensures Overlap(a, b) <==> exists x: real, y: real :: Contains(a, x, y) && Contains(b, x, y)
  {
    if Overlap(a, b) {
      var x, y := RMax(a.xmin, b.xmin), RMax(a.ymin, b.ymin);
      assert Contains(a, x, y) && Contains(b, x, y);
    }
  }

  /**
   * Boxes that only touch, along a vertical or a horizontal edge, overlap,
   * and the inclusive extents give them a positive IOU.
   */
  lemma EdgeSharingOverlap(a: Box, b: Box)
    requires WellFormed(a) && WellFormed(b)
    requires || (a.xmax == b.xmin && OverlapOneAxis(a.ymin, a.ymax, b.ymin, b.ymax))
             || (a.ymax == b.ymin && OverlapOneAxis(a.xmin, a.xmax, b.xmin, b.xmax))
    ensures Overlap(a, b) && Overlap(b, a)
    ensures GetIOU(a, b).Ok? && GetIOU(a, b).value > 0.0
  {
    OverlapPositiveIou(a, b);
  }

  // ---------------------------------------------------------------------
  // Intersection over union (`Map.get_IOU`)
  // ---------------------------------------------------------------------

  /** Inclusive length of [lo, hi]: `hi - lo + 1`. */
  function Extent(lo: real, hi: real): real { hi - lo + 1.0 }

  /** Area of the intersection rectangle, each side clamped at 0. */
  function InterArea(a: Box, b: Box): real {
    RMax(0.0, Extent(RMax(a.xmin, b.xmin), RMin(a.xmax, b.xmax)))
      * RMax(0.0, Extent(RMax(a.ymin, b.ymin), RMin(a.ymax, b.ymax)))
  }

  function Area(a: Box): real {
    Extent(a.xmin, a.xmax) * Extent(a.ymin, a.ymax)
  }

  /** The denominator of `get_IOU`: the union area. */
  function UnionArea(a: Box, b: Box): real {
    Area(a) + Area(b) - InterArea(a, b)
  }

  /**
   * `Map.get_IOU`. The division raises when the union area is 0; for
   * well-formed boxes it never is, and the ratio lies in [0, 1].
   */
  function GetIOU(a: Box, b: Box): (r: Result<real>)
    ensures r.Fail? ==> r.error == ZeroDivision
    ensures WellFormed(a) && WellFormed(b) ==> r.Ok? && 0.0 <= r.value <= 1.0
  {
    if WellFormed(a) && WellFormed(b) then
      IouInUnitRange(a, b);
      Ok(InterArea(a, b) / UnionArea(a, b))
    else if UnionArea(a, b) == 0.0 then Fail(ZeroDivision)
    else Ok(InterArea(a, b) / UnionArea(a, b))
  }

  lemma MulMonotone(x1: real, y1: real, x2: real, y2: real)
    requires 0.0 <= x1 <= x2 && 0.0 <= y1 <= y2
    ensures 0.0 <= x1 * y1 <= x2 * y2
  {
    assert x1 * y1 <= x2 * y1;
    assert x2 * y1 <= x2 * y2;
  }

  /** A well-formed box has area at least 1, thanks to the "+1" convention. */
  lemma AreaAtLeastOne(a: Box)
    requires WellFormed(a)
    ensures Area(a) >= 1.0
  {
    MulMonotone(1.0, 1.0, Extent(a.xmin, a.xmax), Extent(a.ymin, a.ymax));
  }

  /** The intersection is never larger than either box. */
  lemma InterAreaBounded(a: Box, b: Box)
    requires WellFormed(a) && WellFormed(b)
    ensures 0.0 <= InterArea(a, b) <= Area(a)
    ensures InterArea(a, b) <= Area(b)
  {
    var iw := RMax(0.0, Extent(RMax(a.xmin, b.xmin), RMin(a.xmax, b.xmax)));
    var ih := RMax(0.0, Extent(RMax(a.ymin, b.ymin), RMin(a.ymax, b.ymax)));
    MulMonotone(iw, ih, Extent(a.xmin, a.xmax), Extent(a.ymin, a.ymax));
    MulMonotone(iw, ih, Extent(b.xmin, b.xmax), Extent(b.ymin, b.ymax));
  }

  /** For well-formed boxes the union area is positive and the ratio lies in [0, 1]. */
  lemma IouInUnitRange(a: Box, b: Box)
    requires WellFormed(a) && WellFormed(b)
    ensures UnionArea(a, b) >= 1.0
    ensures 0.0 <= InterArea(a, b) / UnionArea(a, b) <= 1.0
  {
    InterAreaBounded(a, b);
    AreaAtLeastOne(a);
    AreaAtLeastOne(b);
    var i, u := InterArea(a, b), UnionArea(a, b);
    assert i <= u;
    DivInUnitRange(i, u);
  }

  lemma DivInUnitRange(i: real, u: real)
    requires 0.0 <= i <= u && u > 0.0
    ensures 0.0 <= i / u <= 1.0
  {
    assert (i / u) * u == i;
  }

  lemma IouSymmetric(a: Box, b: Box)
    ensures GetIOU(a, b) == GetIOU(b, a)
  {
    assert InterArea(a, b) == InterArea(b, a);
  }

  /** A well-formed box has IOU 1 with itself. */
  lemma IouSelf(a: Box)
    requires WellFormed(a)
    ensures GetIOU(a, a) == Ok(1.0)
  {
    AreaAtLeastOne(a);
    assert InterArea(a, a) == Area(a);
    assert UnionArea(a, a) == Area(a);
    assert Area(a) / Area(a) == 1.0;
  }

  /**
   * Overlapping well-formed boxes share at least one unit square, so their
   * IOU is positive.
   */
  lemma OverlapPositiveIou(a: Box, b: Box)
    requires WellFormed(a) && WellFormed(b) && Overlap(a, b)
    ensures InterArea(a, b) >= 1.0
    ensures GetIOU(a, b).Ok? && GetIOU(a, b).value > 0.0
  {
    var iw := RMax(0.0, Extent(RMax(a.xmin, b.xmin), RMin(a.xmax, b.xmax)));
    var ih := RMax(0.0, Extent(RMax(a.ymin, b.ymin), RMin(a.ymax, b.ymax)));
    assert iw >= 1.0 && ih >= 1.0;
    MulMonotone(1.0, 1.0, iw, ih);
    IouInUnitRange(a, b);
    var u := UnionArea(a, b);
    assert (InterArea(a, b) / u) * u == InterArea(a, b);
  }

  /** Boxes at least one unit apart on an axis have no intersection, and IOU 0. */
  lemma SeparatedZeroIou(a: Box, b: Box)
    requires WellFormed(a) && WellFormed(b)
    requires a.xmax + 1.0 <= b.xmin || b.xmax + 1.0 <= a.xmin || a.ymax + 1.0 <= b.ymin || b.ymax + 1.0 <= a.ymin
    ensures !Overlap(a, b)
    ensures InterArea(a, b) == 0.0 && GetIOU(a, b) == Ok(0.0)
  {
    IouInUnitRange(a, b);
  }

  /**
   * On normalised (real) coordinates the "+1" convention gives a positive
   * IOU to boxes that do not overlap but lie less than one unit apart.
   */
  lemma NearMissPositiveIou()
    ensures var a, b := Box(0.0, 0.0, 10.0, 10.0), Box(10.5, 0.0, 20.0, 10.0);
      !Overlap(a, b) && InterArea(a, b) == 5.5 && GetIOU(a, b).Ok? && GetIOU(a, b).value > 0.0
  {
    var a, b := Box(0.0, 0.0, 10.0, 10.0), Box(10.5, 0.0, 20.0, 10.0);
    assert InterArea(a, b) == 0.5 * 11.0;
    IouInUnitRange(a, b);
    assert UnionArea(a, b) == 121.0 + 115.5 - 5.5;
  }

  /**
   * A reference box [100,200]x[100,120] and a candidate shifted right by 5
   * overlap with IOU 96*21 / (2*101*21 - 96*21) = 48/53, above THRESHOLD.
   */
  lemma ShiftedWordIou()
    ensures var a, b := Box(100.0, 100.0, 200.0, 120.0), Box(105.0, 100.0, 205.0, 120.0);
      Overlap(a, b) && GetIOU(a, b) == Ok(48.0 / 53.0) && 48.0 / 53.0 > THRESHOLD
  {
    var a, b := Box(100.0, 100.0, 200.0, 120.0), Box(105.0, 100.0, 205.0, 120.0);
    assert InterArea(a, b) == 96.0 * 21.0;
    assert Area(a) == 101.0 * 21.0 && Area(b) == 101.0 * 21.0;
  }
}
