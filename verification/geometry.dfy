/** Point arithmetic used by the edge router: sums, the centroid of a list of
    points, and the extremes of their coordinates. */
module Geometry {
  import opened DiagramTypes

  function PointSum(a: Point, b: Point): Point {
    Point(a.x + b.x, a.y + b.y)
  }

  /** The coordinate-wise sum, accumulated left to right. */
  function SumPoints(points: seq<Point>): Point {
    if points == [] then Point(0.0, 0.0)
    else PointSum(SumPoints(points[..|points| - 1]), points[|points| - 1])
  }

  /** The average point; there is none of an empty list (the division by a
      zero count yields NaN coordinates). */
  function Centroid(points: seq<Point>): Option<Point> {
    if |points| == 0 then None
    else
      var s := SumPoints(points);
      Some(Point(s.x / |points| as real, s.y / |points| as real))
  }

  function Xs(points: seq<Point>): seq<real> {
    seq(|points|, i requires 0 <= i < |points| => points[i].x)
  }

  function Ys(points: seq<Point>): seq<real> {
    seq(|points|, i requires 0 <= i < |points| => points[i].y)
  }

  /** `Math.min(...values)` on a non-empty list. */
  function MinOf(values: seq<real>): (r: real)
    requires values != []
    ensures r in values
    ensures forall v :: v in values ==> r <= v
  {
    if |values| == 1 then values[0]
    else
      var m := MinOf(values[1..]);
      assert forall v :: v in values ==> v == values[0] || v in values[1..];
      if values[0] <= m then values[0] else m
  }

  /** `Math.max(...values)` on a non-empty list. */
  function MaxOf(values: seq<real>): (r: real)
    requires values != []
    ensures r in values
    ensures forall v :: v in values ==> v <= r
  {
    if |values| == 1 then values[0]
    else
      var m := MaxOf(values[1..]);
      assert forall v :: v in values ==> v == values[0] || v in values[1..];
      if values[0] >= m then values[0] else m
  }

  /** Bounds on the coordinates of every point bound their sums. */
  lemma {:induction false} SumBoundsX(points: seq<Point>, lo: real, hi: real)
    requires forall i :: 0 <= i < |points| ==> lo <= points[i].x <= hi
    ensures |points| as real * lo <= SumPoints(points).x <= |points| as real * hi
  {
    if points != [] {
      var prefix := points[..|points| - 1];
      SumBoundsX(prefix, lo, hi);
      SumStep(|prefix| as real, SumPoints(prefix).x, points[|points| - 1].x, lo, hi);
    }
  }

  lemma {:induction false} SumBoundsY(points: seq<Point>, lo: real, hi: real)
    requires forall i :: 0 <= i < |points| ==> lo <= points[i].y <= hi
    ensures |points| as real * lo <= SumPoints(points).y <= |points| as real * hi
  {
    if points != [] {
      var prefix := points[..|points| - 1];
      SumBoundsY(prefix, lo, hi);
      SumStep(|prefix| as real, SumPoints(prefix).y, points[|points| - 1].y, lo, hi);
    }
  }

  lemma SumStep(m: real, a: real, v: real, lo: real, hi: real)
    requires m * lo <= a <= m * hi && lo <= v <= hi
    ensures (m + 1.0) * lo <= a + v <= (m + 1.0) * hi
  {
    assert (m + 1.0) * lo == m * lo + lo;
    assert (m + 1.0) * hi == m * hi + hi;
  }

  /** The centroid of a non-empty list lies within the bounding box of its points. */
  lemma CentroidWithinBoundingBox(points: seq<Point>)
    requires points != []
    ensures Centroid(points).Some?
    ensures MinOf(Xs(points)) <= Centroid(points).value.x <= MaxOf(Xs(points))
    ensures MinOf(Ys(points)) <= Centroid(points).value.y <= MaxOf(Ys(points))
  {
    ExtremesBound(points);
    CentroidBetween(points, Point(MinOf(Xs(points)), MinOf(Ys(points))), Point(MaxOf(Xs(points)), MaxOf(Ys(points))));
  }

  lemma ExtremesBound(points: seq<Point>)
    requires points != []
    ensures forall i :: 0 <= i < |points| ==> MinOf(Xs(points)) <= points[i].x <= MaxOf(Xs(points))
    ensures forall i :: 0 <= i < |points| ==> MinOf(Ys(points)) <= points[i].y <= MaxOf(Ys(points))
  {
    var xs, ys := Xs(points), Ys(points);
    forall i | 0 <= i < |points| ensures MinOf(xs) <= points[i].x <= MaxOf(xs) && MinOf(ys) <= points[i].y <= MaxOf(ys) {
      assert xs[i] in xs && ys[i] in ys;
    }
  }

  /** Any box holding every point holds their centroid. */
  lemma CentroidBetween(points: seq<Point>, lo: Point, hi: Point)
    requires points != []
    requires forall i :: 0 <= i < |points| ==> lo.x <= points[i].x <= hi.x && lo.y <= points[i].y <= hi.y
    ensures Centroid(points).Some?
    ensures lo.x <= Centroid(points).value.x <= hi.x && lo.y <= Centroid(points).value.y <= hi.y
  {
    var n := |points| as real;
    var s := SumPoints(points);
    SumBoundsX(points, lo.x, hi.x);
    SumBoundsY(points, lo.y, hi.y);
    DivideBounds(s.x, n, lo.x, hi.x);
    DivideBounds(s.y, n, lo.y, hi.y);
  }

  lemma DivideBounds(s: real, n: real, lo: real, hi: real)
    requires n > 0.0 && n * lo <= s <= n * hi
    ensures lo <= s / n <= hi
  {
    assert s / n * n == s;
  }

  /** The centroid of copies of one point is that point. */
  lemma CentroidOfCopies(points: seq<Point>, p: Point)
    requires points != [] && forall i :: 0 <= i < |points| ==> points[i] == p
    ensures Centroid(points) == Some(p)
  {
    SumBoundsX(points, p.x, p.x);
    SumBoundsY(points, p.y, p.y);
    var n := |points| as real;
    var s := SumPoints(points);
    assert s.x == n * p.x && s.y == n * p.y;
    assert n * p.x / n == p.x && n * p.y / n == p.y;
  }
}
