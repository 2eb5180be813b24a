/**
 * Region arithmetic of the c2g (colour to grey) workshop operation.
 *
 * The operation looks at a square neighbourhood of `radius` pixels around
 * every output pixel, so the rectangles it reports to the graph are the
 * rectangles it is given, grown by `radius` on every side.  Rectangles are
 * GeglRectangle values: an origin (x, y) and an extent (width, height).
 * The pixel kernel itself is not modelled here.
 */
module C2gRegions {

  import opened Options

  datatype Rect = Rect(x: int, y: int, width: int, height: int)

  /** Exclusive right and bottom edges of a rectangle. */
  function Right(r: Rect): int { r.x + r.width }
  function Bottom(r: Rect): int { r.y + r.height }

  /** Pixel (px, py) lies inside r. */
  predicate Contains(r: Rect, px: int, py: int)
  {
    r.x <= px < Right(r) && r.y <= py < Bottom(r)
  }

  predicate IsEmpty(r: Rect) { r.width <= 0 || r.height <= 0 }

  function Abs(n: int): nat { if n < 0 then -n else n }

  /** (px, py) is within `radius` pixels, in both axes, of some pixel of r. */
  ghost predicate WithinRadiusOf(r: Rect, radius: int, px: int, py: int)
  {
    exists qx, qy :: Contains(r, qx, qy) && Abs(px - qx) <= radius && Abs(py - qy) <= radius
  }

  /**
   * The four-line expansion the operation applies in every place: the origin
   * moves back by radius, the extent grows by twice the radius.  Its meaning
   * is that every edge moves outwards by exactly radius.
   */
  function Grow(r: Rect, radius: int): (g: Rect)
    ensures g.x == r.x - radius && g.y == r.y - radius
    ensures Right(g) == Right(r) + radius && Bottom(g) == Bottom(r) + radius
    ensures g.width - r.width == 2 * radius && g.height - r.height == 2 * radius
  {
    Rect(r.x - radius, r.y - radius, r.width + radius * 2, r.height + radius * 2)
  }

  /**
   * get_affected_region: the output pixels a change to `region` of the input
   * can affect.  The expansion is unconditional, so an empty input region
   * still yields a non-empty rectangle when radius > 0.
   */
  function GetAffectedRegion(radius: int, region: Rect): (a: Rect)
    ensures a.x == region.x - radius && a.y == region.y - radius
    ensures Right(a) == Right(region) + radius && Bottom(a) == Bottom(region) + radius
  {
    Grow(region, radius)
  }

  /**
   * get_source_rect: the input rectangle needed to compute the requested
   * output.  A request with a zero width or zero height is passed on as it is.
   */
  function GetSourceRect(radius: int, requested: Rect): (s: Rect)
    ensures requested.width != 0 && requested.height != 0 ==>
      s.x == requested.x - radius && s.y == requested.y - radius &&
      Right(s) == Right(requested) + radius && Bottom(s) == Bottom(requested) + radius
    ensures requested.width == 0 || requested.height == 0 ==> s == requested
  {
    if requested.width != 0 && requested.height != 0 then Grow(requested, radius) else requested
  }

  /**
   * calc_source_regions: the rectangle the operation asks of its "input" pad
   * is exactly get_source_rect of the request.
   */
  function CalcSourceRegion(radius: int, requested: Rect): (need: Rect)
    ensures !IsEmpty(requested) && radius >= 0 ==>
      forall px, py :: Contains(requested, px, py) ==> Contains(need, px, py)
  {
    GetSourceRect(radius, requested)
  }

  /**
   * get_defined_region: the all-zero rectangle when the input pad has no
   * defined region, otherwise the input's defined region unchanged (the
   * expansion in the source is switched off by an `if (0)` guard).
   */
  function GetDefinedRegion(radius: int, inRect: Option<Rect>): (d: Rect)
    ensures inRect.None? ==> d == Rect(0, 0, 0, 0)
    ensures inRect.Some? ==> d == inRect.value
  {
    match inRect
    case None => Rect(0, 0, 0, 0)
    case Some(r) => r
  }

  /** Where process takes the buffer that is then cropped to the result. */
  datatype OutputSource =
    | PassThrough                // the input buffer itself, with a new reference
    | Filtered(extent: Rect)     // a fresh RGBA float buffer over `need`, filled by the kernel

  /**
   * The rectangle bookkeeping of process: `need` is the result rectangle
   * grown by radius; the kernel is skipped when the result is degenerate or
   * the radius is below one; the published output is always cropped to the
   * result rectangle.
   */
  datatype ProcessPlan = ProcessPlan(need: Rect, output: OutputSource, crop: Rect)

  function Process(radius: int, result: Rect): (p: ProcessPlan)
    ensures p.need.x == result.x - radius && p.need.y == result.y - radius
    ensures Right(p.need) == Right(result) + radius && Bottom(p.need) == Bottom(result) + radius
    ensures p.output.PassThrough? <==> (result.width == 0 || result.height == 0 || radius < 1)
    ensures p.output.Filtered? ==> p.output.extent == p.need
    ensures p.crop == result
  {
    var need := Grow(result, radius);
    var output := if result.width == 0 || result.height == 0 || radius < 1
                  then PassThrough else Filtered(need);
    ProcessPlan(need, output, result)
  }

  /**
   * A pixel lies in a non-empty rectangle grown by a non-negative radius if
   * and only if it is within radius of some pixel of the rectangle.
   */
  lemma GrowIsNeighbourhood(r: Rect, radius: int, px: int, py: int)
    requires !IsEmpty(r) && radius >= 0
    ensures Contains(Grow(r, radius), px, py) <==> WithinRadiusOf(r, radius, px, py)
  {
    if Contains(Grow(r, radius), px, py) {
      var qx := Clamp(px, r.x, Right(r) - 1);
      var qy := Clamp(py, r.y, Bottom(r) - 1);
      assert Contains(r, qx, qy) && Abs(px - qx) <= radius && Abs(py - qy) <= radius;
    }
    if WithinRadiusOf(r, radius, px, py) {
      var qx, qy :| Contains(r, qx, qy) && Abs(px - qx) <= radius && Abs(py - qy) <= radius;
      assert Contains(Grow(r, radius), px, py);
    }
  }

  function Clamp(v: int, lo: int, hi: int): (c: int)
    requires lo <= hi
    ensures lo <= c <= hi
    ensures lo <= v <= hi ==> c == v
    ensures v < lo ==> c == lo
    ensures v > hi ==> c == hi
  {
    if v < lo then lo else if v > hi then hi else v
  }

  /**
   * The two directions of the filter agree: a pixel is needed from the input
   * for a non-empty request exactly when the region it affects overlaps that
   * request.
   */
  lemma SourceRectIsInverseOfAffectedRegion(radius: int, requested: Rect, px: int, py: int)
    requires !IsEmpty(requested) && radius >= 0
    ensures Contains(GetSourceRect(radius, requested), px, py) <==>
      exists qx, qy :: Contains(requested, qx, qy) &&
                       Contains(GetAffectedRegion(radius, Rect(px, py, 1, 1)), qx, qy)
  {
    GrowIsNeighbourhood(requested, radius, px, py);
    if Contains(GetSourceRect(radius, requested), px, py) {
      var qx, qy :| Contains(requested, qx, qy) && Abs(px - qx) <= radius && Abs(py - qy) <= radius;
      assert Contains(GetAffectedRegion(radius, Rect(px, py, 1, 1)), qx, qy);
    }
    if exists qx, qy :: Contains(requested, qx, qy) &&
                        Contains(GetAffectedRegion(radius, Rect(px, py, 1, 1)), qx, qy) {
      var qx, qy :| Contains(requested, qx, qy) &&
                    Contains(GetAffectedRegion(radius, Rect(px, py, 1, 1)), qx, qy);
      assert Abs(px - qx) <= radius && Abs(py - qy) <= radius;
    }
  }

  /**
   * An empty region still reports a non-empty affected region for a positive
   * radius, while get_source_rect leaves an empty request alone.
   */
  lemma EmptyRegionsDiffer(radius: int, region: Rect)
    requires radius > 0 && region.width == 0 && region.height == 0
    ensures !IsEmpty(GetAffectedRegion(radius, region))
    ensures GetSourceRect(radius, region) == region
  {
  }

  /**
   * When process runs the kernel, the buffer it fills covers exactly the
   * rectangle calc_source_regions asked of the input for the same result.
   */
  lemma ProcessNeedsWhatWasRequested(radius: int, result: Rect)
    requires Process(radius, result).output.Filtered?
    ensures Process(radius, result).output.extent == CalcSourceRegion(radius, result)
    ensures Process(radius, result).output.extent == GetAffectedRegion(radius, result)
  {
  }

  /**
   * The result rectangle lies inside the region requested of the operation;
   * then every pixel process reads from its input lies inside the rectangle
   * the operation asked its input pad to provide.
   */
  lemma ProcessStaysWithinSourceRegion(radius: int, result: Rect, requested: Rect)
    requires radius >= 0 && !IsEmpty(requested)
    requires requested.x <= result.x && requested.y <= result.y
    requires Right(result) <= Right(requested) && Bottom(result) <= Bottom(requested)
    ensures forall px, py :: Contains(Process(radius, result).need, px, py) ==>
                             Contains(CalcSourceRegion(radius, requested), px, py)
  {
  }
}
