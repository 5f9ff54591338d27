/** Points, rectangles and lines in (latitude, longitude) space, as used to cull
    what the map viewport shows. Coordinates are exact reals: the IEEE rounding of
    the original doubles is not modelled. */
module Geometry {

  /** An immutable geographic coordinate in degrees. */
  datatype LatLon = LatLon(lat: real, lon: real)

  /** The closed interval test: x lies in [lwb, upb]. */
  predicate Between(lwb: real, upb: real, x: real)
    // an inverted interval holds nothing
    ensures Between(lwb, upb, x) ==> lwb <= upb
    // both bounds belong to a non-empty interval
    ensures x == lwb || x == upb ==> (Between(lwb, upb, x) <==> lwb <= upb)
  {
    lwb <= x && x <= upb
  }

  /** True iff `point` is inside the rectangle with north-west corner `northWest`
      and south-east corner `southEast`, or on its boundary. */
  predicate RectangleContainsPoint(northWest: LatLon, southEast: LatLon, point: LatLon)
    ensures RectangleContainsPoint(northWest, southEast, point) <==>
              southEast.lat <= point.lat <= northWest.lat &&
              northWest.lon <= point.lon <= southEast.lon
  {
    Between(southEast.lat, northWest.lat, point.lat) &&
    Between(northWest.lon, southEast.lon, point.lon)
  }

  /** A well-formed rectangle (north of south, west of east) contains both of the
      corners it is built from. */
  lemma CornersContained(northWest: LatLon, southEast: LatLon)
    requires southEast.lat <= northWest.lat && northWest.lon <= southEast.lon
    ensures RectangleContainsPoint(northWest, southEast, northWest)
    ensures RectangleContainsPoint(northWest, southEast, southEast)
  {
  }

  /** A rectangle whose corners are swapped in either axis contains no point. */
  lemma InvertedRectangleIsEmpty(northWest: LatLon, southEast: LatLon, point: LatLon)
    requires southEast.lat > northWest.lat || northWest.lon > southEast.lon
    ensures !RectangleContainsPoint(northWest, southEast, point)
  {
  }

  /** A rectangle contains some point exactly when it contains its own corners,
      that is exactly when it is well formed. */
  lemma NonEmptyIffWellFormed(northWest: LatLon, southEast: LatLon, point: LatLon)
    requires RectangleContainsPoint(northWest, southEast, point)
    ensures southEast.lat <= northWest.lat && northWest.lon <= southEast.lon
    ensures RectangleContainsPoint(northWest, southEast, northWest)
    ensures RectangleContainsPoint(northWest, southEast, southEast)
  {
  }

  /** The slope of the line through (x1, y1) and (x2, y2). The original divides
      by zero when x1 == x2; here that case is excluded. */
  function CalculateSlope(x1: real, x2: real, y1: real, y2: real): (k: real)
    requires x1 != x2
    // rise equals slope times run
    ensures k * (x2 - x1) == y2 - y1
  {
    (y2 - y1) / (x2 - x1)
  }

  /** The slope does not depend on which of the two points comes first. This
      documents how the sampling loop of `rectangleIntersectsLine`, which is
      itself not modelled, uses CalculateSlope: its two branches pass the
      endpoints in opposite orders. */
  lemma SlopeIsSymmetric(x1: real, x2: real, y1: real, y2: real)
    requires x1 != x2
    ensures CalculateSlope(x1, x2, y1, y2) == CalculateSlope(x2, x1, y2, y1)
  {
    var k := CalculateSlope(x1, x2, y1, y2);
    var k' := CalculateSlope(x2, x1, y2, y1);
    assert k * (x2 - x1) == k' * (x2 - x1);
  }

  /** The line y = k * x + b with k the slope and b = y1 - k * x1 passes
      through both points. This documents the line that the (unmodelled)
      sampling loop of `rectangleIntersectsLine` builds from CalculateSlope. */
  lemma SlopeInterceptFitsBothPoints(x1: real, x2: real, y1: real, y2: real)
    requires x1 != x2
    ensures var k := CalculateSlope(x1, x2, y1, y2);
            var b := y1 - k * x1;
            k * x1 + b == y1 && k * x2 + b == y2
  {
    var k := CalculateSlope(x1, x2, y1, y2);
    assert k * x2 - k * x1 == y2 - y1;
  }

  lemma SlopeOfSampleSegment()
    ensures CalculateSlope(0.0, 2.0, 0.0, 4.0) == 2.0
  {
  }

  /** Whether the segment from `src` to `dst` meets the rectangle. Only the
      endpoint short-circuit is modelled: once neither endpoint is contained,
      the answer is whatever the floating-point sampling loop decides, given
      here as `sampledHit`. */
  predicate RectangleIntersectsLine(northWest: LatLon, southEast: LatLon, src: LatLon, dst: LatLon,
                                    sampledHit: bool)
    // a segment with an endpoint in the rectangle always intersects it
    ensures RectangleContainsPoint(northWest, southEast, src) ||
            RectangleContainsPoint(northWest, southEast, dst)
            ==> RectangleIntersectsLine(northWest, southEast, src, dst, sampledHit)
    // otherwise only the sampling decides
    ensures !RectangleContainsPoint(northWest, southEast, src) &&
            !RectangleContainsPoint(northWest, southEast, dst)
            ==> (RectangleIntersectsLine(northWest, southEast, src, dst, sampledHit) <==> sampledHit)
  {
    if RectangleContainsPoint(northWest, southEast, src) || RectangleContainsPoint(northWest, southEast, dst) then
      true
    else
      sampledHit
  }

  /** A segment that starts or ends on the boundary of a well-formed rectangle,
      in particular at one of its corners, intersects it whatever the sampling says. */
  lemma CornerSegmentIntersects(northWest: LatLon, southEast: LatLon, dst: LatLon, sampledHit: bool)
    requires southEast.lat <= northWest.lat && northWest.lon <= southEast.lon
    ensures RectangleIntersectsLine(northWest, southEast, northWest, dst, sampledHit)
    ensures RectangleIntersectsLine(northWest, southEast, dst, southEast, sampledHit)
  {
    CornersContained(northWest, southEast);
  }
}
