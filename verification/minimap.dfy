/** The minimap keeps the viewport's centre point inside the scene: the
    centre is clamped, axis by axis, so that the view rectangle stays within
    the boundary box whenever it fits. */
module Minimap {
  import opened DiagramTypes

  function Max(a: real, b: real): real { if a >= b then a else b }

  function Min(a: real, b: real): real { if a <= b then a else b }

  /** `Math.max(lo, Math.min(hi, v))`: when lo > hi the outer maximum wins. */
  function Clamp(lo: real, hi: real, v: real): real { Max(lo, Min(hi, v)) }

  function CalcCenterPointWithinBoundaryBox(centerPoint: Point, viewSize: Size, boundaryBox: Size): Point
  {
    var minX := viewSize.width / 2.0;
    var maxX := boundaryBox.width - viewSize.width / 2.0;
    var minY := viewSize.height / 2.0;
    var maxY := boundaryBox.height - viewSize.height / 2.0;
    Point(Clamp(minX, maxX, centerPoint.x), Clamp(minY, maxY, centerPoint.y))
  }

  predicate InsideAllowedRegion(p: Point, viewSize: Size, boundaryBox: Size) {
    && viewSize.width / 2.0 <= p.x <= boundaryBox.width - viewSize.width / 2.0
    && viewSize.height / 2.0 <= p.y <= boundaryBox.height - viewSize.height / 2.0
  }

  /** When the view fits in the boundary box, the clamped centre keeps the
      whole view inside the box. */
  lemma ClampKeepsViewInside(centerPoint: Point, viewSize: Size, boundaryBox: Size)
    requires viewSize.width <= boundaryBox.width && viewSize.height <= boundaryBox.height
    ensures InsideAllowedRegion(CalcCenterPointWithinBoundaryBox(centerPoint, viewSize, boundaryBox), viewSize, boundaryBox)
  {
  }

  /** A centre already inside the allowed region is returned unchanged; when
      the view fits in the box, only such a centre is. */
  lemma ClampFixesExactlyTheAllowedRegion(centerPoint: Point, viewSize: Size, boundaryBox: Size)
    ensures InsideAllowedRegion(centerPoint, viewSize, boundaryBox) ==>
      CalcCenterPointWithinBoundaryBox(centerPoint, viewSize, boundaryBox) == centerPoint
    ensures (&& viewSize.width <= boundaryBox.width && viewSize.height <= boundaryBox.height
             && CalcCenterPointWithinBoundaryBox(centerPoint, viewSize, boundaryBox) == centerPoint)
        ==> InsideAllowedRegion(centerPoint, viewSize, boundaryBox)
  {
  }

  lemma ClampIdempotent(centerPoint: Point, viewSize: Size, boundaryBox: Size)
    ensures var once := CalcCenterPointWithinBoundaryBox(centerPoint, viewSize, boundaryBox);
            CalcCenterPointWithinBoundaryBox(once, viewSize, boundaryBox) == once
  {
  }

  /** A view wider (taller) than the box pins that coordinate to half the
      view's width (height), whatever the requested centre. */
  lemma OversizedViewPinsToHalfView(centerPoint: Point, viewSize: Size, boundaryBox: Size)
    ensures viewSize.width > boundaryBox.width ==>
      CalcCenterPointWithinBoundaryBox(centerPoint, viewSize, boundaryBox).x == viewSize.width / 2.0
    ensures viewSize.height > boundaryBox.height ==>
      CalcCenterPointWithinBoundaryBox(centerPoint, viewSize, boundaryBox).y == viewSize.height / 2.0
  {
  }

  /** The two axes are clamped independently: the x result does not depend on
      the requested y or on the heights, and vice versa. */
  lemma AxesIndependent(c1: Point, v1: Size, b1: Size, c2: Point, v2: Size, b2: Size)
    ensures c1.x == c2.x && v1.width == v2.width && b1.width == b2.width ==>
      CalcCenterPointWithinBoundaryBox(c1, v1, b1).x == CalcCenterPointWithinBoundaryBox(c2, v2, b2).x
    ensures c1.y == c2.y && v1.height == v2.height && b1.height == b2.height ==>
      CalcCenterPointWithinBoundaryBox(c1, v1, b1).y == CalcCenterPointWithinBoundaryBox(c2, v2, b2).y
  {
  }
}
