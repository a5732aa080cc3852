/** The part of Core Graphics' CGRect that the auto-capture tracker uses:
    an origin plus a size, its edges, and inclusive rectangle containment. */
module Geometry {

  /** An axis-aligned rectangle, stored as origin and size like a CGRect. */
  datatype Rect = Rect(x: real, y: real, width: real, height: real) {

    /** A standardized rectangle: its size is not negative, so the origin is its minimum corner. */
    predicate IsStandard() {
      width >= 0.0 && height >= 0.0
    }

    function MinX(): real { x }
    function MaxX(): real { x + width }
    function MinY(): real { y }
    function MaxY(): real { y + height }
  }

  /** `inner` lies inside `outer`, edges included (CGRect.contains(_: CGRect) on
      standardized rectangles): every rectangle contains itself, and only a
      standardized rectangle contains a standardized one. */
  predicate Contains(outer: Rect, inner: Rect)
    ensures outer == inner ==> Contains(outer, inner)
    ensures Contains(outer, inner) && inner.IsStandard() ==> outer.IsStandard()
  {
    outer.MinX() <= inner.MinX() && inner.MaxX() <= outer.MaxX() &&
    outer.MinY() <= inner.MinY() && inner.MaxY() <= outer.MaxY()
  }
}
