/** Canvas geometry of the viewer: the image's container rectangle and the
    visible part of the canvas (both in canvas coordinates, exact reals), the
    scroll region and the visible tile computed from them in `__show_image`,
    the `outside` test, the canvas-to-image transform of `__move_from`, and
    the canvas `scale` call that `__wheel` applies to the container. */
module Geometry {
  import opened Numeric

  /** A rectangle (x0, y0, x1, y1) as the canvas reports it. */
  datatype Box = Box(x0: real, y0: real, x1: real, y1: real)

  /** A rectangle with integer corners. */
  datatype IntBox = IntBox(x0: int, y0: int, x1: int, y1: int)

  datatype Point = Point(x: real, y: real)

  /** `tuple(map(int, box))`. */
  function TruncBox(b: Box): IntBox
  {
    IntBox(Trunc(b.x0), Trunc(b.y0), Trunc(b.x1), Trunc(b.y1))
  }

  // ---------------------------------------------------------------------
  // Scroll region

  /** One axis of the scroll region: the union of the (integer) image extent
      [iLo, iHi] and the visible extent [cLo, cHi]; when the visible extent is
      itself that union, the image extent instead. */
  function ScrollAxis(iLo: int, iHi: int, cLo: real, cHi: real): (real, real)
  {
    var lo := MinR(iLo as real, cLo);
    var hi := MaxR(iHi as real, cHi);
    if lo == cLo && hi == cHi then (iLo as real, iHi as real) else (lo, hi)
  }

  /** The scroll region before its final conversion to integers. */
  function ScrollBox(image: Box, view: Box): Box
  {
    var i := TruncBox(image);
    var x := ScrollAxis(i.x0, i.x1, view.x0, view.x1);
    var y := ScrollAxis(i.y0, i.y1, view.y0, view.y1);
    Box(x.0, y.0, x.1, y.1)
  }

  /** The scroll region `__show_image` hands to the canvas. */
  function ScrollRegion(image: Box, view: Box): IntBox
  {
    TruncBox(ScrollBox(image, view))
  }

  /** The snap to the image extent happens exactly when the visible extent
      covers the image extent on that axis; otherwise the region is the union,
      so it contains both extents. Either way it contains the image extent. */
  lemma ScrollAxisContains(iLo: int, iHi: int, cLo: real, cHi: real)
    ensures var r := ScrollAxis(iLo, iHi, cLo, cHi);
      r.0 <= iLo as real && iHi as real <= r.1 &&
      (r == (iLo as real, iHi as real) <==> (cLo <= iLo as real && iHi as real <= cHi) || (iLo as real <= cLo && cHi <= iHi as real)) &&
      (!(cLo <= iLo as real && iHi as real <= cHi) ==> r.0 <= cLo && cHi <= r.1)
  {
  }

  /** Both axes of the scroll region: it always contains the integer image box;
      on an axis where the visible box does not span the image, it contains the
      visible box too; and it equals the image box on an axis exactly when one of
      the two boxes spans the other there, so no empty space can be scrolled to. */
  lemma ScrollBoxContains(image: Box, view: Box)
    ensures var i, s := TruncBox(image), ScrollBox(image, view);
      s.x0 <= i.x0 as real && i.x1 as real <= s.x1 &&
      s.y0 <= i.y0 as real && i.y1 as real <= s.y1 &&
      (!(view.x0 <= i.x0 as real && i.x1 as real <= view.x1) ==> s.x0 <= view.x0 && view.x1 <= s.x1) &&
      (!(view.y0 <= i.y0 as real && i.y1 as real <= view.y1) ==> s.y0 <= view.y0 && view.y1 <= s.y1) &&
      ((s.x0, s.x1) == (i.x0 as real, i.x1 as real) <==>
         (view.x0 <= i.x0 as real && i.x1 as real <= view.x1) || (i.x0 as real <= view.x0 && view.x1 <= i.x1 as real)) &&
      ((s.y0, s.y1) == (i.y0 as real, i.y1 as real) <==>
         (view.y0 <= i.y0 as real && i.y1 as real <= view.y1) || (i.y0 as real <= view.y0 && view.y1 <= i.y1 as real))
  {
    var i := TruncBox(image);
    ScrollAxisContains(i.x0, i.x1, view.x0, view.x1);
    ScrollAxisContains(i.y0, i.y1, view.y0, view.y1);
  }

  // ---------------------------------------------------------------------
  // Visible tile

  /** One axis of the visible tile, relative to the image's low edge. */
  function TileAxis(iLo: real, iHi: real, cLo: real, cHi: real): (real, real)
  {
    (MaxR(cLo - iLo, 0.0), MinR(cHi, iHi) - iLo)
  }

  /** The tile (x1, y1, x2, y2) of the image that is visible, in canvas units
      relative to the image's top-left corner. */
  function TileRect(image: Box, view: Box): Box
  {
    var x := TileAxis(image.x0, image.x1, view.x0, view.x1);
    var y := TileAxis(image.y0, image.y1, view.y0, view.y1);
    Box(x.0, y.0, x.1, y.1)
  }

  /** The tile is drawn only when its truncated width and height are positive. */
  predicate Visible(t: Box)
  {
    Trunc(t.x1 - t.x0) > 0 && Trunc(t.y1 - t.y0) > 0
  }

  /** On one axis the tile is the intersection of the two extents, shifted by
      the image's low edge; it starts at 0 or later and ends no later than the
      image's length. */
  lemma TileAxisIsIntersection(iLo: real, iHi: real, cLo: real, cHi: real, t: real)
    requires iLo <= iHi
    ensures var r := TileAxis(iLo, iHi, cLo, cHi);
      0.0 <= r.0 && r.1 <= iHi - iLo &&
      (r.0 <= t <= r.1 <==> iLo <= iLo + t <= iHi && cLo <= iLo + t <= cHi)
  {
  }

  /** The tile lies inside the image, is exactly the part of it that is in view,
      and is drawn exactly when that part is at least one unit wide and high. */
  lemma TileRectIsVisiblePart(image: Box, view: Box, p: Point)
    requires image.x0 <= image.x1 && image.y0 <= image.y1
    ensures var t := TileRect(image, view);
      0.0 <= t.x0 && 0.0 <= t.y0 &&
      t.x1 <= image.x1 - image.x0 && t.y1 <= image.y1 - image.y0 &&
      (t.x0 <= p.x <= t.x1 && t.y0 <= p.y <= t.y1 <==>
         InBox(image, image.x0 + p.x, image.y0 + p.y) && InBox(view, image.x0 + p.x, image.y0 + p.y)) &&
      (Visible(t) <==> t.x1 - t.x0 >= 1.0 && t.y1 - t.y0 >= 1.0)
  {
    var t := TileRect(image, view);
    TileAxisIsIntersection(image.x0, image.x1, view.x0, view.x1, p.x);
    TileAxisIsIntersection(image.y0, image.y1, view.y0, view.y1, p.y);
    TruncPositive(t.x1 - t.x0);
    TruncPositive(t.y1 - t.y0);
  }

  /** Closed containment. */
  predicate InBox(b: Box, x: real, y: real)
  {
    b.x0 <= x <= b.x1 && b.y0 <= y <= b.y1
  }

  // ---------------------------------------------------------------------
  // outside, the transform and canvas scaling

  /** `CanvasImage.outside`: a point is outside unless it is strictly inside. */
  predicate Outside(b: Box, x: real, y: real)
  {
    !(b.x0 < x < b.x1 && b.y0 < y < b.y1)
  }

  /** `__move_from`: canvas point to image pixel coordinates. */
  function CanvasToImage(b: Box, imwidth: nat, imheight: nat, p: Point): Point
    requires imwidth >= 1 && imheight >= 1
    requires b.x1 != b.x0 && b.y1 != b.y0
  {
    Point(AxisToImage(b.x0, b.x1, imwidth, p.x), AxisToImage(b.y0, b.y1, imheight, p.y))
  }

  /** One axis of the transform: `(v - lo) / ((hi - lo) / n)`. */
  function AxisToImage(lo: real, hi: real, n: nat, v: real): real
    requires n >= 1 && hi != lo
  {
    (v - lo) / AxisScale(lo, hi, n)
  }

  /** Canvas units per image pixel along one axis. */
  function AxisScale(lo: real, hi: real, n: nat): (r: real)
    requires n >= 1
    ensures hi != lo ==> r != 0.0
  {
    (hi - lo) / n as real
  }

  /** The inverse transform: image pixel coordinates to the canvas. */
  function ImageToCanvas(b: Box, imwidth: nat, imheight: nat, q: Point): Point
    requires imwidth >= 1 && imheight >= 1
  {
    Point(AxisToCanvas(b.x0, b.x1, imwidth, q.x), AxisToCanvas(b.y0, b.y1, imheight, q.y))
  }

  function AxisToCanvas(lo: real, hi: real, n: nat, u: real): real
    requires n >= 1
  {
    lo + u * AxisScale(lo, hi, n)
  }

  lemma AxisRoundTrip(lo: real, hi: real, n: nat, u: real, v: real)
    requires n >= 1 && hi != lo
    ensures AxisToImage(lo, hi, n, AxisToCanvas(lo, hi, n, u)) == u
    ensures AxisToCanvas(lo, hi, n, AxisToImage(lo, hi, n, v)) == v
  {
    ImageAxisRoundTrip(lo, hi, n, u);
    CanvasAxisRoundTrip(lo, hi, n, v);
  }

  lemma ImageAxisRoundTrip(lo: real, hi: real, n: nat, u: real)
    requires n >= 1 && hi != lo
    ensures AxisToImage(lo, hi, n, AxisToCanvas(lo, hi, n, u)) == u
  {
    var sc := AxisScale(lo, hi, n);
    assert (lo + u * sc - lo) / sc == u;
  }

  lemma CanvasAxisRoundTrip(lo: real, hi: real, n: nat, v: real)
    requires n >= 1 && hi != lo
    ensures AxisToCanvas(lo, hi, n, AxisToImage(lo, hi, n, v)) == v
  {
    DivThenMul(lo, AxisScale(lo, hi, n), v);
  }

  lemma DivThenMul(lo: real, sc: real, v: real)
    requires sc != 0.0
    ensures lo + ((v - lo) / sc) * sc == v
  {
  }

  /** The two transforms are inverse to each other, both ways round. */
  lemma TransformRoundTrip(b: Box, imwidth: nat, imheight: nat, p: Point, q: Point)
    requires imwidth >= 1 && imheight >= 1
    requires b.x1 != b.x0 && b.y1 != b.y0
    ensures CanvasToImage(b, imwidth, imheight, ImageToCanvas(b, imwidth, imheight, q)) == q
    ensures ImageToCanvas(b, imwidth, imheight, CanvasToImage(b, imwidth, imheight, p)) == p
  {
    AxisRoundTrip(b.x0, b.x1, imwidth, q.x, p.x);
    AxisRoundTrip(b.y0, b.y1, imheight, q.y, p.y);
  }

  /** The box maps onto the whole image: its corners go to (0, 0) and
      (imwidth, imheight). */
  lemma TransformCorners(b: Box, imwidth: nat, imheight: nat)
    requires imwidth >= 1 && imheight >= 1
    requires b.x1 != b.x0 && b.y1 != b.y0
    ensures CanvasToImage(b, imwidth, imheight, Point(b.x0, b.y0)) == Point(0.0, 0.0)
    ensures CanvasToImage(b, imwidth, imheight, Point(b.x1, b.y1)) == Point(imwidth as real, imheight as real)
  {
    var xs := (b.x1 - b.x0) / imwidth as real;
    var ys := (b.y1 - b.y0) / imheight as real;
    assert (b.x1 - b.x0) / xs == imwidth as real;
    assert (b.y1 - b.y0) / ys == imheight as real;
  }

  /** A point that is not `outside` the image box lands strictly inside the
      image's pixel area. */
  lemma InsideMapsIntoImage(b: Box, imwidth: nat, imheight: nat, p: Point)
    requires imwidth >= 1 && imheight >= 1
    requires !Outside(b, p.x, p.y)
    ensures b.x1 != b.x0 && b.y1 != b.y0
    ensures var q := CanvasToImage(b, imwidth, imheight, p);
      0.0 < q.x < imwidth as real && 0.0 < q.y < imheight as real
  {
    var w, h := b.x1 - b.x0, b.y1 - b.y0;
    var xs, ys := w / imwidth as real, h / imheight as real;
    assert (p.x - b.x0) / xs == (p.x - b.x0) / w * imwidth as real;
    assert (p.y - b.y0) / ys == (p.y - b.y0) / h * imheight as real;
    QuotientBelowOne(p.x - b.x0, w);
    QuotientBelowOne(p.y - b.y0, h);
  }

  /** With the container the right way round, `outside` is exactly the test
      that the point does not map strictly inside the image's pixel area. */
  lemma OutsideIffOffImage(b: Box, imwidth: nat, imheight: nat, p: Point)
    requires imwidth >= 1 && imheight >= 1
    requires b.x0 < b.x1 && b.y0 < b.y1
    ensures var q := CanvasToImage(b, imwidth, imheight, p);
      Outside(b, p.x, p.y) <==> !(0.0 < q.x < imwidth as real && 0.0 < q.y < imheight as real)
  {
    AxisInsideIff(b.x0, b.x1, imwidth, p.x);
    AxisInsideIff(b.y0, b.y1, imheight, p.y);
  }

  /** On one axis, the image coordinate lies strictly between 0 and n exactly
      when the canvas coordinate lies strictly between the box's sides. */
  lemma AxisInsideIff(lo: real, hi: real, n: nat, v: real)
    requires n >= 1 && lo < hi
    ensures 0.0 < AxisToImage(lo, hi, n, v) < n as real <==> lo < v < hi
  {
    var d, m := hi - lo, n as real;
    var u := (v - lo) / d;
    assert AxisToImage(lo, hi, n, v) == u * m;
    if lo < v < hi {
      QuotientBelowOne(v - lo, d);
      RealMulMonotoneStrict(0.0, u, m);
      RealMulMonotoneStrict(u, 1.0, m);
    }
    if 0.0 < u * m < m {
      ScaledInsideOne(u, m);
      QuotientInsideOne(v - lo, d);
    }
  }

  /** 0 < u * m < m with m positive puts u strictly between 0 and 1. */
  lemma ScaledInsideOne(u: real, m: real)
    requires m > 0.0 && 0.0 < u * m < m
    ensures 0.0 < u < 1.0
  {
    if u <= 0.0 {
      RealMulMonotone(u, 0.0, m);
    }
    if u >= 1.0 {
      RealMulMonotone(1.0, u, m);
    }
  }

  /** A quotient strictly between 0 and 1 of a positive divisor puts the
      dividend strictly between 0 and the divisor. */
  lemma QuotientInsideOne(a: real, d: real)
    requires d > 0.0 && 0.0 < a / d < 1.0
    ensures 0.0 < a < d
  {
    var q := a / d;
    assert q * d == a;
    RealMulMonotoneStrict(0.0, q, d);
    RealMulMonotoneStrict(q, 1.0, d);
  }

  lemma QuotientBelowOne(a: real, d: real)
    requires 0.0 < a < d
    ensures 0.0 < a / d < 1.0
  {
    var q := a / d;
    assert q * d == a;
    if q >= 1.0 {
      RealMulMonotone(1.0, q, d);
    }
  }

  /** The canvas `scale(x, y, s, s)` call: every coordinate moves away from
      (x, y) by the factor s. */
  function ScaleAbout(b: Box, x: real, y: real, s: real): Box
  {
    Box(ScaleCoord(x, s, b.x0), ScaleCoord(y, s, b.y0), ScaleCoord(x, s, b.x1), ScaleCoord(y, s, b.y1))
  }

  /** The canvas scale multiplies the width and height of a box by the factor,
      whatever the centre, and keeps a positive factor from flipping it. */
  lemma ScaleAboutSizes(b: Box, x: real, y: real, s: real)
    ensures var b' := ScaleAbout(b, x, y, s);
      b'.x1 - b'.x0 == (b.x1 - b.x0) * s && b'.y1 - b'.y0 == (b.y1 - b.y0) * s &&
      (s > 0.0 && b.x0 < b.x1 && b.y0 < b.y1 ==> b'.x0 < b'.x1 && b'.y0 < b'.y1)
  {
    var b' := ScaleAbout(b, x, y, s);
    var w, h := b.x1 - b.x0, b.y1 - b.y0;
    assert b'.x1 - b'.x0 == w * s;
    assert b'.y1 - b'.y0 == h * s;
    if s > 0.0 && w > 0.0 && h > 0.0 {
      RealMulMonotoneStrict(0.0, w, s);
      RealMulMonotoneStrict(0.0, h, s);
      assert 0.0 * s == 0.0;
    }
  }

  /** Coordinate `v` after the canvas scale about `c` by `s`. */
  function ScaleCoord(c: real, s: real, v: real): real
  {
    c + (v - c) * s
  }

  /** One axis of ScaleKeepsImageCoordinates. */
  lemma ScaledAxis(lo: real, hi: real, c: real, s: real, v: real, n: nat)
    requires hi != lo && s > 0.0 && n >= 1
    ensures ScaleCoord(c, s, hi) != ScaleCoord(c, s, lo)
    ensures AxisToImage(ScaleCoord(c, s, lo), ScaleCoord(c, s, hi), n, ScaleCoord(c, s, v)) == AxisToImage(lo, hi, n, v)
  {
    ScaledDifference(c, s, hi, lo);
    ScaledDifference(c, s, v, lo);
    ScaledQuotient(v - lo, hi - lo, n as real, s);
  }

  /** The canvas scale multiplies every difference of coordinates by s. */
  lemma ScaledDifference(c: real, s: real, a: real, b: real)
    ensures ScaleCoord(c, s, a) - ScaleCoord(c, s, b) == (a - b) * s
  {
    assert (a - c) * s - (b - c) * s == ((a - c) - (b - c)) * s;
  }

  /** Scaling both the offset and the side by s leaves the quotient alone. */
  lemma ScaledQuotient(a: real, d: real, m: real, s: real)
    requires d != 0.0 && m > 0.0 && s > 0.0
    ensures (d * s) / m != 0.0
    ensures (a * s) / ((d * s) / m) == a / (d / m)
  {
    var sc := d / m;
    assert (d * s) / m == sc * s;
    assert sc != 0.0;
    CancelFactor(a, sc, s);
  }

  lemma CancelFactor(a: real, d: real, s: real)
    requires d != 0.0 && s != 0.0
    ensures (a * s) / (d * s) == a / d
  {
  }

  function ScalePointAbout(p: Point, x: real, y: real, s: real): Point
  {
    Point(ScaleCoord(x, s, p.x), ScaleCoord(y, s, p.y))
  }

  /** Zooming about (x, y) keeps the image pixel under every scaled point: a
      point and its scaled copy map to the same image coordinates through the old
      and the new container. In particular the pixel under the cursor stays put. */
  lemma ScaleKeepsImageCoordinates(b: Box, imwidth: nat, imheight: nat, x: real, y: real, s: real, p: Point)
    requires imwidth >= 1 && imheight >= 1
    requires b.x1 != b.x0 && b.y1 != b.y0 && s > 0.0
    ensures var b' := ScaleAbout(b, x, y, s);
      b'.x1 != b'.x0 && b'.y1 != b'.y0 &&
      CanvasToImage(b', imwidth, imheight, ScalePointAbout(p, x, y, s)) == CanvasToImage(b, imwidth, imheight, p)
  {
    ScaledAxis(b.x0, b.x1, x, s, p.x, imwidth);
    ScaledAxis(b.y0, b.y1, y, s, p.y, imheight);
  }
}
