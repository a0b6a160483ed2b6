/** The `CanvasImage` widget: its constructor (the huge-image gate, `smaller()`
    and the pyramid loop), `__show_image`, `__wheel`, `crop`, `__move_from` and
    `__move_to`. The canvas, PIL and the event loop are replaced by parameters:
    the visible canvas box, the canvas size, the cursor position and the wheel
    event are inputs, and a redraw returns what it would hand to the canvas. */
module Viewer {
  import opened Numeric
  import opened Geometry
  import opened ImageSource
  import opened Pyramid
  import opened Wrappers

  /** Where the pixels of one redraw come from: a band of rows decoded straight
      from the raw file through `tile`, cropped to columns [left, right), or a
      crop of a pyramid level. */
  datatype Source = RawBand(tile: Tile, left: int, right: int) | LevelCrop(level: nat, crop: IntBox)

  /** The image item a redraw places: its source, the size it is resized to and
      the canvas point its top-left corner is anchored at. */
  datatype Placed = Placed(source: Source, width: int, height: int, at: Point)

  /** What one call of `__show_image` hands to the canvas: the scroll region,
      and the image item when any of the image is in view. */
  datatype Frame = Frame(scrollRegion: IntBox, image: Option<Placed>)

  /** A wheel event: the X11 button number and the Windows/macOS delta. */
  datatype WheelEvent = WheelEvent(num: int, delta: int)

  predicate ScrollsDown(ev: WheelEvent) { ev.num == 5 || ev.delta == -120 }
  predicate ScrollsUp(ev: WheelEvent) { ev.num == 4 || ev.delta == 120 }

  lemma DivMonotoneReal(a: real, b: real, d: real)
    requires a <= b && d > 0.0
    ensures a / d <= b / d
  {
    assert b / d - a / d == (b - a) / d;
  }

  /** Integer division of exact quotients: (a / d) / 2 == a / (2 d). */
  lemma HalveQuotient(a: nat, d: nat)
    requires d >= 1
    ensures (a as real / d as real) / 2.0 == a as real / (2 * d) as real
  {
  }

  /** The float loop test `w > 512` on the exact target w = a / d. */
  lemma QuotientAboveTop(a: nat, d: nat)
    requires d >= 1
    ensures a as real / d as real > TopSize as real <==> a > TopSize * d
  {
    var q := a as real / d as real;
    assert q * d as real == a as real;
    if q > TopSize as real {
      RealMulMonotoneStrict(TopSize as real, q, d as real);
    } else {
      RealMulMonotone(q, TopSize as real, d as real);
    }
  }

  /** The raw band `__show_image` decodes for a huge image starts at row
      int(y1 / imscale) and has int((y2 - y1) / imscale) rows. When the visible
      tile lies within the image scaled by imscale, so does that band. */
  lemma RawBandInsideImage(imheight: nat, imscale: real, y0: real, y1: real)
    requires imscale > 0.0 && 0.0 <= y0 <= y1 <= imheight as real * imscale
    ensures var top, rows := Trunc(y0 / imscale), Trunc((y1 - y0) / imscale);
      0 <= top && 0 <= rows && top + rows <= imheight
  {
    var a, b := y0 / imscale, (y1 - y0) / imscale;
    assert a + b == y1 / imscale;
    DivMonotoneReal(0.0, y0, imscale);
    DivMonotoneReal(0.0, y1 - y0, imscale);
    DivMonotoneReal(y1, imheight as real * imscale, imscale);
    assert (imheight as real * imscale) / imscale == imheight as real;
    TruncSuperadditive(a, b);
    TruncMonotone(a + b, imheight as real);
  }

  /** A coordinate of the visible tile, divided by the scale of pyramid level
      j, lands within that level: the image side n is shown n * imscale units
      long, and level j is n / 2^j pixels long. */
  lemma LevelCoordInsideLevel(n: nat, imscale: real, j: nat, scale: real, x: real)
    requires imscale > 0.0 && scale == imscale * Pow2(j) && 0.0 <= x <= n as real * imscale
    ensures 0 <= Trunc(x / scale) <= n / Exp2(j)
  {
    var p := Pow2(j);
    CoordBelowQuotient(n, imscale, p, scale, x);
    assert Trunc(n as real / p) == n / Exp2(j) by {
      Pow2OfNat(j);
      TruncQuotient(n, Exp2(j));
    }
    TruncMonotone(x / scale, n as real / p);
  }

  lemma CoordBelowQuotient(n: nat, imscale: real, p: real, scale: real, x: real)
    requires imscale > 0.0 && p > 0.0 && scale == imscale * p && 0.0 <= x <= n as real * imscale
    ensures 0.0 <= x / scale <= n as real / p
  {
    assert scale > 0.0 by {
      RealMulMonotoneStrict(0.0, imscale, p);
    }
    DivMonotoneReal(0.0, x, scale);
    DivMonotoneReal(x, n as real * imscale, scale);
    CancelFactor(n as real, p, imscale);
    assert scale == p * imscale;
  }

  /** A drawn tile of a container that is the image scaled by `imscale` spans
      a non-empty part of [0, width * imscale] x [0, height * imscale]. */
  lemma VisibleTileInsideScaledImage(container: Box, view: Box, imwidth: nat, imheight: nat, imscale: real)
    requires container.x0 < container.x1 && container.y0 < container.y1
    requires container.x1 - container.x0 == imwidth as real * imscale
    requires container.y1 - container.y0 == imheight as real * imscale
    requires Visible(TileRect(container, view))
    ensures var t := TileRect(container, view);
      0.0 <= t.x0 <= t.x1 <= imwidth as real * imscale && 0.0 <= t.y0 <= t.y1 <= imheight as real * imscale
  {
    TileRectIsVisiblePart(container, view, Point(0.0, 0.0));
  }

  /** The coefficient k = imscale * ratio that `__wheel` selects a level by:
      the zoom relative to the pyramid base. */
  function Coefficient(imscale: real, ratio: real): (k: real)
    requires imscale > 0.0 && ratio > 0.0
    ensures k > 0.0
  {
    RealMulMonotoneStrict(0.0, imscale, ratio);
    imscale * ratio
  }

  /** The box is an image of the given size drawn at scale `s`. */
  predicate ScaledImage(b: Box, imwidth: nat, imheight: nat, s: real)
  {
    b.x1 - b.x0 == imwidth as real * s && b.y1 - b.y0 == imheight as real * s
  }

  /** Scaling the canvas by f about any point turns the image drawn at scale s
      into the image drawn at scale s * f. */
  lemma ZoomKeepsScaledImage(b: Box, imwidth: nat, imheight: nat, s: real, x: real, y: real, f: real)
    requires ScaledImage(b, imwidth, imheight, s)
    ensures ScaledImage(ScaleAbout(b, x, y, f), imwidth, imheight, s * f)
  {
    ScaleAboutSizes(b, x, y, f);
    assert (imwidth as real * s) * f == imwidth as real * (s * f);
    assert (imheight as real * s) * f == imheight as real * (s * f);
  }

  /** Truncated quotients by a positive scale keep their order. */
  lemma TruncQuotientMonotone(a: real, b: real, scale: real)
    requires a <= b && scale > 0.0
    ensures Trunc(a / scale) <= Trunc(b / scale)
  {
    DivMonotoneReal(a, b, scale);
    TruncMonotone(a / scale, b / scale);
  }

  /** `__show_image` after the scroll region: when the visible tile is at
      least one unit wide and high, the image item it places, and the decoder
      tile as it leaves it. A huge image zoomed in beyond its base (a negative
      level) is read raw, the tile pointed at rows int(y1 / imscale) onward,
      int((y2 - y1) / imscale) of them; otherwise the current level is cropped
      at its own scale. */
  function Render(container: Box, view: Box, huge: bool, currImg: int, imscale: real, scale: real,
                  tile: Tile, imwidth: nat, offset: int): (r: (Option<Placed>, Tile))
    requires imscale > 0.0 && scale > 0.0
    ensures r.1.width == tile.width
  {
    var t := TileRect(container, view);
    if !Visible(t) then (None, tile)
    else
      var at := Point(MaxR(view.x0, Trunc(container.x0) as real), MaxR(view.y0, Trunc(container.y0) as real));
      var width, height := Trunc(t.x1 - t.x0), Trunc(t.y1 - t.y0);
      if huge && currImg < 0 then
        var band := BandTile(tile, imwidth, offset, Trunc(t.y0 / imscale), Trunc((t.y1 - t.y0) / imscale));
        (Some(Placed(RawBand(band, Trunc(t.x0 / imscale), Trunc(t.x1 / imscale)), width, height, at)), band)
      else
        var crop := IntBox(Trunc(t.x0 / scale), Trunc(t.y0 / scale), Trunc(t.x1 / scale), Trunc(t.y1 / scale));
        (Some(Placed(LevelCrop(Max(0, currImg), crop), width, height, at)), tile)
  }

  /** An image item is placed exactly when the visible part of the image is at
      least one unit wide and high, and then at that part's truncated size, at
      the later of the view's and the image's top-left corner, which lies
      inside the view; the tile is
      re-pointed only when a huge image is read raw. */
  lemma RenderDrawsVisiblePart(container: Box, view: Box, huge: bool, currImg: int, imscale: real, scale: real,
                               tile: Tile, imwidth: nat, offset: int)
    requires container.x0 <= container.x1 && container.y0 <= container.y1
    requires imscale > 0.0 && scale > 0.0
    ensures var r := Render(container, view, huge, currImg, imscale, scale, tile, imwidth, offset);
      var t := TileRect(container, view);
      (r.0.Some? <==> t.x1 - t.x0 >= 1.0 && t.y1 - t.y0 >= 1.0) &&
      (r.0.Some? ==>
         1 <= r.0.value.width && r.0.value.width as real <= t.x1 - t.x0 &&
         1 <= r.0.value.height && r.0.value.height as real <= t.y1 - t.y0 &&
         view.x0 <= r.0.value.at.x < view.x1 && view.y0 <= r.0.value.at.y < view.y1) &&
      (r.0.None? || !(huge && currImg < 0) ==> r.1 == tile)
  {
    TileRectIsVisiblePart(container, view, Point(0.0, 0.0));
  }

  /** When a huge image is read raw and its container is the image scaled by
      `imscale`, the band of rows and the columns it reads lie inside the
      image, so the tile addresses bytes inside the raw pixel data. */
  lemma RenderRawBandInsideImage(container: Box, view: Box, currImg: int, imscale: real, scale: real,
                                 tile: Tile, imwidth: nat, imheight: nat, offset: int)
    requires container.x0 < container.x1 && container.y0 < container.y1
    requires container.x1 - container.x0 == imwidth as real * imscale
    requires container.y1 - container.y0 == imheight as real * imscale
    requires currImg < 0 && imscale > 0.0 && scale > 0.0
    ensures var r := Render(container, view, true, currImg, imscale, scale, tile, imwidth, offset);
      r.0.Some? ==>
        var src := r.0.value.source;
        var stride := imwidth * BytesPerPixel;
        src.RawBand? && src.tile == r.1 && 0 <= src.left <= src.right <= imwidth &&
        0 <= r.1.rows && offset <= r.1.offset && r.1.offset + stride * r.1.rows <= offset + stride * imheight
  {
    var t := TileRect(container, view);
    if Visible(t) {
      VisibleTileInsideScaledImage(container, view, imwidth, imheight, imscale);
      RawBandInsideImage(imheight, imscale, t.y0, t.y1);
      var top, rows := Trunc(t.y0 / imscale), Trunc((t.y1 - t.y0) / imscale);
      RowsInsideData(imwidth, imheight, offset, top, rows);
      assert imscale == imscale * Pow2(0);
      LevelCoordInsideLevel(imwidth, imscale, 0, imscale, t.x0);
      LevelCoordInsideLevel(imwidth, imscale, 0, imscale, t.x1);
      TruncQuotientMonotone(t.x0, t.x1, imscale);
    }
  }

  /** Rows [top, top + rows) of the image address bytes of its pixel data. */
  lemma RowsInsideData(imwidth: nat, imheight: nat, dataOffset: int, top: int, rows: int)
    requires 0 <= top && 0 <= rows && top + rows <= imheight
    ensures var stride := imwidth * BytesPerPixel;
      var start := RowOffset(imwidth, dataOffset, top);
      dataOffset <= start && start + stride * rows <= dataOffset + stride * imheight
  {
    var stride := imwidth * BytesPerPixel;
    assert RowOffset(imwidth, dataOffset, top) == dataOffset + stride * top;
    MulMonotone(0, top, stride);
    MulDistributes(top, rows, stride);
    MulMonotone(top + rows, imheight, stride);
  }

  /** Truncating a quotient by 2^j is integer division of the truncation. */
  lemma TruncOverPow2(a: real, j: nat)
    requires a >= 0.0
    ensures Trunc(a / Pow2(j)) == Trunc(a) / Exp2(j)
  {
    Pow2OfNat(j);
    TruncOverNat(a, Exp2(j));
  }

  lemma TruncOverNat(a: real, n: nat)
    requires a >= 0.0 && n >= 1
    ensures Trunc(a / n as real) == Trunc(a) / n
  {
    var q := Trunc(a);
    var m := q / n;
    assert m * n <= q < m * n + n;
    BetweenMultiples(a, n, m);
    TruncUnique(a / n as real, m);
  }

  /** Trunc(x) is the m with m <= x < m + 1. */
  lemma TruncUnique(x: real, m: int)
    requires 0 <= m && m as real <= x < m as real + 1.0
    ensures Trunc(x) == m
  {
  }

  /** Between the multiples m * n and (m + 1) * n, the quotient by n lies
      between m and m + 1. */
  lemma BetweenMultiples(a: real, n: nat, m: int)
    requires n >= 1 && 0 <= m && (m * n) as real <= a < (m * n + n) as real
    ensures m as real <= a / n as real < (m + 1) as real
  {
    var x := a / n as real;
    assert x * n as real == a;
    assert m as real <= x by {
      if x < m as real {
        RealMulMonotoneStrict(x, m as real, n as real);
      }
    }
    assert x < (m + 1) as real by {
      if x >= (m + 1) as real {
        RealMulMonotone((m + 1) as real, x, n as real);
      }
    }
  }

  /** A coordinate of the visible tile, divided by the sampling scale
      imscale * ratio * 2^j of pyramid level j, lands within that level when
      the pyramid base is at least the image divided by `ratio`. */
  lemma LevelCoordInsideBase(n: nat, base: nat, imscale: real, ratio: real, j: nat, scale: real, x: real)
    requires imscale > 0.0 && ratio > 0.0 && scale == (imscale * ratio) * Pow2(j)
    requires Trunc(n as real / ratio) <= base && 0.0 <= x <= n as real * imscale
    ensures 0 <= Trunc(x / scale) <= base / Exp2(j)
  {
    CoordAgainstBase(n, imscale, ratio, Pow2(j), scale, x);
    DivMonotoneReal(0.0, n as real, ratio);
    TruncBelowLevel(x / scale, n as real / ratio, base, j);
  }

  /** The real part of LevelCoordInsideBase: x / scale lies between 0 and
      (n / ratio) / p. */
  lemma CoordAgainstBase(n: nat, imscale: real, ratio: real, p: real, scale: real, x: real)
    requires imscale > 0.0 && ratio > 0.0 && p > 0.0 && scale == (imscale * ratio) * p
    requires 0.0 <= x <= n as real * imscale
    ensures 0.0 <= x / scale <= (n as real / ratio) / p
  {
    var q := ratio * p;
    RealMulMonotoneStrict(0.0, ratio, p);
    assert scale == imscale * q by {
      RealMulAssociates(imscale, ratio, p);
    }
    CoordBelowQuotient(n, imscale, q, scale, x);
    QuotientRegroup(n as real, ratio, p);
  }

  /** The integer part of LevelCoordInsideBase: below a / 2^j truncates to at
      most base div 2^j when a truncates to at most base. */
  lemma TruncBelowLevel(y: real, a: real, base: nat, j: nat)
    requires 0.0 <= y <= a / Pow2(j) && 0.0 <= a && Trunc(a) <= base
    ensures 0 <= Trunc(y) <= base / Exp2(j)
  {
    TruncMonotone(y, a / Pow2(j));
    TruncOverPow2(a, j);
    DivMonotone(Trunc(a), base, Exp2(j));
  }

  lemma RealMulAssociates(a: real, b: real, c: real)
    ensures (a * b) * c == a * (b * c)
  {
  }

  lemma QuotientRegroup(n: real, ratio: real, p: real)
    requires ratio > 0.0 && p > 0.0
    ensures n / (ratio * p) == (n / ratio) / p
  {
    var a := n / ratio;
    assert a * ratio == n;
    assert ((n / ratio) / p) * (ratio * p) == a * ratio;
  }

  /** When a level of the pyramid is cropped (any image except a huge one
      read raw), the container is the image scaled by `imscale`, the level is
      sampled at imscale * ratio * 2^level as `__wheel` selects it, and the
      pyramid base is at least the image divided by `ratio`, the crop lies
      inside the level, whose sides are the base's divided by 2^level. */
  lemma RenderLevelCropInsideLevel(container: Box, view: Box, huge: bool, currImg: int, imscale: real, ratio: real,
                                   tile: Tile, imwidth: nat, imheight: nat, base: Size, offset: int)
    requires container.x0 < container.x1 && container.y0 < container.y1
    requires ScaledImage(container, imwidth, imheight, imscale)
    requires !(huge && currImg < 0) && imscale > 0.0 && ratio > 0.0
    requires Trunc(imwidth as real / ratio) <= base.w && Trunc(imheight as real / ratio) <= base.h
    ensures var scale := LevelScale(Coefficient(imscale, ratio), currImg);
      var r := Render(container, view, huge, currImg, imscale, scale, tile, imwidth, offset);
      var j := Max(0, currImg);
      r.0.Some? ==>
        r.0.value.source.LevelCrop? && r.0.value.source.level == j &&
        var crop := r.0.value.source.crop;
        0 <= crop.x0 <= crop.x1 <= base.w / Exp2(j) && 0 <= crop.y0 <= crop.y1 <= base.h / Exp2(j)
  {
    var j := Max(0, currImg);
    var scale := LevelScale(Coefficient(imscale, ratio), currImg);
    var t := TileRect(container, view);
    if Visible(t) {
      VisibleTileInsideScaledImage(container, view, imwidth, imheight, imscale);
      LevelCoordInsideBase(imwidth, base.w, imscale, ratio, j, scale, t.x0);
      LevelCoordInsideBase(imwidth, base.w, imscale, ratio, j, scale, t.x1);
      LevelCoordInsideBase(imheight, base.h, imscale, ratio, j, scale, t.y0);
      LevelCoordInsideBase(imheight, base.h, imscale, ratio, j, scale, t.y1);
      TruncQuotientMonotone(t.x0, t.x1, scale);
      TruncQuotientMonotone(t.y0, t.y1, scale);
    }
  }

  /** The size of the image `smaller()` builds for a huge image, over exact
      reals: the longer side becomes 14000 and the other keeps the aspect
      ratio, truncated. `smaller()` picks the case by comparing the aspect
      ratio width / height with 1; AspectAgainstOne shows those tests are the
      comparisons of width and height written here. */
  function ReducedSize(imwidth: nat, imheight: nat): Size
    requires imwidth >= 1 && imheight >= 1
  {
    if imwidth == imheight then Size(HugeSize, HugeSize)
    else if imwidth > imheight then Size(HugeSize, Trunc(HugeSize as real / (imwidth as real / imheight as real)))
    else Size(Trunc(HugeSize as real * (imwidth as real / imheight as real)), HugeSize)
  }

  lemma SideOverRatio(a: real, side: real)
    requires a > 0.0 && side > 0.0
    ensures a / (a / side) == side
  {
    var q := a / side;
    assert q * side == a;
  }

  /** b / (a / side) is side scaled by b / a, in both of the forms
      `smaller()` computes it. */
  lemma OtherOverRatio(a: real, b: real, side: real)
    requires a > 0.0 && b > 0.0 && side > 0.0
    ensures b / (a / side) == side / (a / b) == side * (b / a)
  {
    var q, r, t := a / side, a / b, b / a;
    assert q * side == a && r * b == a && t * a == b;
    assert (side * t) * q == b;
    assert t * r == 1.0 by {
      assert (t * r) * b == t * a;
    }
    assert (side * t) * r == side * (t * r);
  }

  /** The aspect ratio is 1 exactly when the sides are equal, and above 1
      exactly when the image is wider than high. */
  lemma AspectAgainstOne(w1: real, h1: real)
    requires w1 > 0.0 && h1 > 0.0
    ensures w1 / h1 == 1.0 <==> w1 == h1
    ensures w1 / h1 > 1.0 <==> w1 > h1
  {
    var a := w1 / h1;
    assert a * h1 == w1;
    if a > 1.0 { RealMulMonotoneStrict(1.0, a, h1); }
    if a < 1.0 { RealMulMonotoneStrict(a, 1.0, h1); }
  }

  /** The reduced image of `smaller()` is the image divided by the ratio
      max(width, height) / 14000 that `__init__` sets for a huge image, side by
      side and truncated. */
  lemma ReducedSizeMatchesRatio(imwidth: nat, imheight: nat)
    requires imwidth >= 1 && imheight >= 1
    ensures var ratio := Max(imwidth, imheight) as real / HugeSize as real;
      ratio > 0.0 &&
      ReducedSize(imwidth, imheight) == Size(Trunc(imwidth as real / ratio), Trunc(imheight as real / ratio))
  {
    var w1, h1 := imwidth as real, imheight as real;
    var side := HugeSize as real;
    AspectAgainstOne(w1, h1);
    assert Trunc(side) == HugeSize;
    if imwidth >= imheight {
      SideOverRatio(w1, side);
      OtherOverRatio(w1, h1, side);
    } else {
      SideOverRatio(h1, side);
      OtherOverRatio(h1, w1, side);
    }
  }

  /** The pyramid base `__init__` builds, and the ratio it sets, meet the
      condition of RenderLevelCropInsideLevel: for a huge image the base is
      the reduced image, for any other the image itself with ratio 1. */
  lemma BaseFitsRatio(imwidth: nat, imheight: nat, huge: bool)
    requires imwidth >= 1 && imheight >= 1
    ensures var ratio := if huge then Max(imwidth, imheight) as real / HugeSize as real else 1.0;
      var base := if huge then ReducedSize(imwidth, imheight) else Size(imwidth, imheight);
      ratio > 0.0 && Trunc(imwidth as real / ratio) == base.w && Trunc(imheight as real / ratio) == base.h
  {
    if huge {
      ReducedSizeMatchesRatio(imwidth, imheight);
    } else {
      assert imwidth as real / 1.0 == imwidth as real && imheight as real / 1.0 == imheight as real;
    }
  }

  lemma AppendRegroups<T>(done: seq<T>, next: T, rest: seq<T>)
    ensures (done + [next]) + rest == done + ([next] + rest)
  {
  }

  class CanvasImage {
    const imwidth: nat
    const imheight: nat
    /** Whether the image is read band by band from the raw file. */
    const huge: bool
    /** Byte offset of the raw pixel data; used only when the image is huge. */
    const offset: int
    /** The size of the image `smaller()` builds for a huge image. */
    const reducedSize: Size
    const minSide: nat
    /** max(width, height) / 14000 for a huge image, 1 otherwise. */
    const ratio: real
    /** The sizes of the pyramid images, base first. */
    var pyramid: seq<Size>
    var imscale: real
    /** Pyramid level in use; negative when a huge image is read raw. */
    var currImg: int
    /** Scale at which the current level is sampled. */
    var scale: real
    var tile: Tile
    /** The image's container rectangle in canvas coordinates. */
    var container: Box
    var cursorLocations: seq<Point>
    var locations: seq<Point>

    ghost predicate Valid()
      reads this
    {
      imwidth >= 1 && imheight >= 1 && minSide == Min(imwidth, imheight) &&
      imscale > 0.0 && ratio > 0.0 && scale > 0.0 &&
      |pyramid| >= 1 && currImg <= |pyramid| - 1 &&
      (huge ==> tile.width == imwidth && pyramid[0] == reducedSize) &&
      (!huge ==> pyramid[0] == Size(imwidth, imheight) && ratio == 1.0) &&
      container.x0 < container.x1 && container.y0 < container.y1
    }

    /** The container is the image scaled by `imscale`, and `scale` is the one
        selected for the current level. */
    ghost predicate Consistent()
      reads this
    {
      imscale > 0.0 && ratio > 0.0 &&
      ScaledImage(container, imwidth, imheight, imscale) &&
      scale == LevelScale(Coefficient(imscale, ratio), currImg)
    }

    /** `__init__` for an image of the given size whose first tile is stored
        with `codec` at byte `dataOffset`. */
    constructor (imwidth: nat, imheight: nat, codec: string, dataOffset: int)
      requires imwidth >= 1 && imheight >= 1
      ensures Valid() && Consistent()
      ensures this.imwidth == imwidth && this.imheight == imheight
      ensures huge == IsHuge(imwidth, imheight, codec)
      ensures offset == dataOffset && reducedSize == ReducedSize(imwidth, imheight)
      ensures ratio == if huge then Max(imwidth, imheight) as real / HugeSize as real else 1.0
      ensures pyramid == PyramidSizes(if huge then reducedSize else Size(imwidth, imheight))
      ensures imscale == 1.0 && currImg == 0 && scale == ratio
      ensures container == Box(0.0, 0.0, imwidth as real, imheight as real)
      ensures huge ==> tile == BandTile(Tile(imwidth, 0, dataOffset), imwidth, dataOffset,
                                       Bands(imwidth, imheight, dataOffset)[|Bands(imwidth, imheight, dataOffset)| - 1].top,
                                       Bands(imwidth, imheight, dataOffset)[|Bands(imwidth, imheight, dataOffset)| - 1].rows)
      ensures cursorLocations == [] && locations == []
    {
      var isHuge := IsHuge(imwidth, imheight, codec);
      this.imwidth := imwidth;
      this.imheight := imheight;
      huge := isHuge;
      offset := dataOffset;
      reducedSize := ReducedSize(imwidth, imheight);
      ratio := if isHuge then Max(imwidth, imheight) as real / HugeSize as real else 1.0;
      imscale := 1.0;
      tile := Tile(imwidth, 0, dataOffset);
      minSide := Min(imwidth, imheight);
      pyramid := [];
      new;
      var base := Size(imwidth, imheight);
      if huge {
        var decoded;
        base, decoded := Smaller();
        BandsFromEnds(imwidth, imheight, dataOffset, 0);
        assert decoded != [];
      }
      assert base == if huge then reducedSize else Size(imwidth, imheight);
      currImg := 0;
      scale := imscale * ratio;
      BuildPyramid(base);
      container := Box(0.0, 0.0, imwidth as real, imheight as real);
      cursorLocations := [];
      locations := [];
    }

    /** The pyramid loop of `__init__`: starting from the base image, halve the
        float size and append a level of the truncated size while both sides
        exceed 512. */
    method BuildPyramid(base: Size)
      modifies this`pyramid
      ensures pyramid == PyramidSizes(base) && pyramid[0] == base
    {
      var w, h := base.w as real, base.h as real;
      ghost var d: nat := 1;
      pyramid := [base];
      while w > TopSize as real && h > TopSize as real
        invariant d >= 1
        invariant w == base.w as real / d as real && h == base.h as real / d as real
        invariant pyramid + LevelsBelow(base.w, base.h, d) == PyramidSizes(base)
        decreases base.w - TopSize * d
      {
        QuotientAboveTop(base.w, d);
        QuotientAboveTop(base.h, d);
        var next := Size(base.w / (Reduction * d), base.h / (Reduction * d));
        assert LevelsBelow(base.w, base.h, d) == [next] + LevelsBelow(base.w, base.h, Reduction * d);
        HalveQuotient(base.w, d);
        HalveQuotient(base.h, d);
        w := w / Reduction as real;
        h := h / Reduction as real;
        TruncQuotient(base.w, Reduction * d);
        TruncQuotient(base.h, Reduction * d);
        assert Size(Trunc(w), Trunc(h)) == next;
        pyramid := pyramid + [Size(Trunc(w), Trunc(h))];
        d := Reduction * d;
      }
      QuotientAboveTop(base.w, d);
      QuotientAboveTop(base.h, d);
    }

    /** `smaller()`: reads the raw image band by band, re-pointing the tile at
        each band, and yields the reduced base image of a huge image. Returns
        the base size and the bands read, in order. */
    method Smaller() returns (image: Size, decoded: seq<Band>)
      requires huge
      modifies this`tile
      ensures image == reducedSize
      ensures decoded == Bands(imwidth, imheight, offset)
      ensures decoded == [] ==> tile == old(tile)
      ensures decoded != [] ==>
        tile == BandTile(old(tile), imwidth, offset, decoded[|decoded| - 1].top, decoded[|decoded| - 1].rows)
    {
      var i: nat := 0;
      decoded := [];
      while i < imheight
        invariant i <= imheight
        invariant decoded + BandsFrom(imwidth, imheight, offset, i) == Bands(imwidth, imheight, offset)
        invariant decoded == [] ==> tile == old(tile)
        invariant decoded != [] ==>
          tile == BandTile(old(tile), imwidth, offset, decoded[|decoded| - 1].top, decoded[|decoded| - 1].rows)
        decreases imheight - i
      {
        var band := Min(BandWidth, imheight - i);
        BandsFromUnfold(imwidth, imheight, offset, i);
        tile := BandTile(tile, imwidth, offset, i, band);
        AppendRegroups(decoded, Band(i, band, tile.offset), BandsFrom(imwidth, imheight, offset, i + band));
        decoded := decoded + [Band(i, band, tile.offset)];
        i := i + band;
      }
      image := reducedSize;
    }

    /** `__show_image` for the visible canvas box `view`. */
    method ShowImage(view: Box) returns (frame: Frame)
      requires Valid()
      modifies this`tile
      ensures Valid()
      ensures var r := Render(container, view, huge, currImg, imscale, scale, old(tile), imwidth, offset);
        frame == Frame(ScrollRegion(container, view), r.0) && tile == r.1
    {
      var r := Render(container, view, huge, currImg, imscale, scale, tile, imwidth, offset);
      tile := r.1;
      frame := Frame(ScrollRegion(container, view), r.0);
    }

    /** `__wheel` for a wheel event at canvas point (x, y), on a canvas of the
        given size showing `view` afterwards. Returns the redraw, if any. */
    method Wheel(x: real, y: real, ev: WheelEvent, canvasW: nat, canvasH: nat, view: Box) returns (frame: Option<Frame>)
      requires Valid()
      modifies this
      ensures Valid()
      ensures pyramid == old(pyramid) && cursorLocations == old(cursorLocations) && locations == old(locations)
      ensures Outside(old(container), x, y) ==>
        frame == None && imscale == old(imscale) && currImg == old(currImg) && scale == old(scale) &&
        container == old(container) && tile == old(tile)
      ensures !Outside(old(container), x, y) ==>
        var z := ZoomStep(old(imscale), minSide, canvasW, canvasH, ScrollsDown(ev), ScrollsUp(ev));
        imscale == z.imscale &&
        (z.Refused? ==>
           frame == None && currImg == old(currImg) && scale == old(scale) &&
           container == old(container) && tile == old(tile)) &&
        (z.Zoomed? ==>
           (currImg, scale) == SelectLevel(Coefficient(imscale, ratio), |pyramid|) &&
           container == ScaleAbout(old(container), x, y, z.factor) &&
           var r := Render(container, view, huge, currImg, imscale, scale, old(tile), imwidth, offset);
           frame == Some(Frame(ScrollRegion(container, view), r.0)) && tile == r.1)
      ensures old(Consistent()) && !(ScrollsDown(ev) && ScrollsUp(ev)) ==> Consistent()
    {
      if Outside(container, x, y) {
        return None;
      }
      ghost var z := ZoomStep(imscale, minSide, canvasW, canvasH, ScrollsDown(ev), ScrollsUp(ev));
      ZoomFactorConsistent(imscale, minSide, canvasW, canvasH, ScrollsDown(ev), ScrollsUp(ev));
      var factor := 1.0;
      if ScrollsDown(ev) {
        if RoundHalfEven(ShownPixels(minSide, imscale)) < MinPixels {
          return None;
        }
        imscale := imscale / Delta;
        factor := factor / Delta;
      }
      if ScrollsUp(ev) {
        var i := Min(canvasW, canvasH) / 2;
        if (i as real) < imscale {
          return None;
        }
        imscale := imscale * Delta;
        factor := factor * Delta;
      }
      assert z == Zoomed(imscale, factor);
      ghost var previous := old(imscale);
      assert imscale == previous * factor;
      assert old(Consistent()) ==> ScaledImage(container, imwidth, imheight, previous);
      var shown := ApplyZoom(x, y, factor, view, previous);
      frame := Some(shown);
    }

    /** The rest of `__wheel` once a zoom by `factor` goes through: pick the
        pyramid level and its scale for the new `imscale`, scale the canvas about
        (x, y) and redraw. `previous` is the scale the container was drawn at. */
    method ApplyZoom(x: real, y: real, factor: real, view: Box, ghost previous: real) returns (frame: Frame)
      requires Valid() && factor > 0.0
      modifies this
      ensures Valid()
      ensures pyramid == old(pyramid) && imscale == old(imscale)
      ensures cursorLocations == old(cursorLocations) && locations == old(locations)
      ensures (currImg, scale) == SelectLevel(Coefficient(imscale, ratio), |pyramid|)
      ensures container == ScaleAbout(old(container), x, y, factor)
      ensures frame == Frame(ScrollRegion(container, view),
                             Render(container, view, huge, currImg, imscale, scale, old(tile), imwidth, offset).0)
      ensures tile == Render(container, view, huge, currImg, imscale, scale, old(tile), imwidth, offset).1
      ensures ScaledImage(old(container), imwidth, imheight, previous) && imscale == previous * factor ==> Consistent()
    {
      var k := Coefficient(imscale, ratio);
      var selected := SelectLevel(k, |pyramid|);
      SelectLevelBounds(k, |pyramid|);
      currImg, scale := selected.0, selected.1;
      ghost var before := container;
      container := ScaleAbout(container, x, y, factor);
      ScaleAboutSizes(before, x, y, factor);
      ghost var keeps := ScaledImage(before, imwidth, imheight, previous) && imscale == previous * factor;
      if keeps {
        ZoomKeepsScaledImage(before, imwidth, imheight, previous, x, y, factor);
        assert ScaledImage(container, imwidth, imheight, imscale);
        assert scale == LevelScale(k, currImg);
        assert Consistent();
      }
      frame := ShowImage(view);
      assert keeps ==> Consistent();
    }

    /** `crop(bbox)`: the region `bbox` of the full-resolution image, read from
        the raw file for a huge image and cut from the base image otherwise. */
    method Crop(bbox: IntBox) returns (src: Source)
      requires Valid()
      modifies this`tile
      ensures Valid()
      ensures huge ==>
        tile == BandTile(old(tile), imwidth, offset, bbox.y0, bbox.y1 - bbox.y0) &&
        src == RawBand(tile, bbox.x0, bbox.x1)
      ensures huge && bbox.y0 < bbox.y1 ==>
        var stride := imwidth * BytesPerPixel;
        ((offset <= tile.offset && tile.offset + stride * tile.rows <= offset + stride * imheight)
           <==> (0 <= bbox.y0 && bbox.y1 <= imheight))
      ensures !huge ==> tile == old(tile) && src == LevelCrop(0, bbox)
    {
      if huge {
        var band := bbox.y1 - bbox.y0;
        tile := BandTile(tile, imwidth, offset, bbox.y0, band);
        src := RawBand(tile, bbox.x0, bbox.x1);
        if band >= 1 {
          BandWithinData(imwidth, imheight, offset, bbox.y0, band);
        }
      } else {
        src := LevelCrop(0, bbox);
      }
    }

    /** `__move_from` with the cursor at canvas point `p`: in label mode it
        starts a new stroke, remembering the point and its image coordinates. */
    method MoveFrom(p: Point, labelMode: bool)
      requires Valid()
      modifies this`cursorLocations, this`locations
      ensures labelMode ==>
        cursorLocations == [p] && locations == [CanvasToImage(container, imwidth, imheight, p)] &&
        ImageToCanvas(container, imwidth, imheight, locations[0]) == p &&
        (!Outside(container, p.x, p.y) ==>
           0.0 < locations[0].x < imwidth as real && 0.0 < locations[0].y < imheight as real)
      ensures !labelMode ==> cursorLocations == old(cursorLocations) && locations == old(locations)
    {
      if labelMode {
        cursorLocations := [p];
        locations := [CanvasToImage(container, imwidth, imheight, p)];
        TransformRoundTrip(container, imwidth, imheight, p, locations[0]);
        if !Outside(container, p.x, p.y) {
          InsideMapsIntoImage(container, imwidth, imheight, p);
        }
      }
    }

    /** `__move_to` with the cursor at canvas point `p`: in label mode it
        extends the stroke; otherwise the canvas has been dragged so that `view`
        is in sight, and the image is redrawn. */
    method MoveTo(p: Point, labelMode: bool, view: Box) returns (frame: Option<Frame>)
      requires Valid()
      modifies this`cursorLocations, this`locations, this`tile
      ensures Valid()
      ensures labelMode ==>
        frame == None && tile == old(tile) &&
        cursorLocations == old(cursorLocations) + [p] &&
        locations == old(locations) + [CanvasToImage(container, imwidth, imheight, p)]
      ensures !labelMode ==>
        var r := Render(container, view, huge, currImg, imscale, scale, old(tile), imwidth, offset);
        cursorLocations == old(cursorLocations) && locations == old(locations) &&
        frame == Some(Frame(ScrollRegion(container, view), r.0)) && tile == r.1
    {
      if labelMode {
        cursorLocations := cursorLocations + [p];
        locations := locations + [CanvasToImage(container, imwidth, imheight, p)];
        frame := None;
      } else {
        var shown := ShowImage(view);
        frame := Some(shown);
      }
    }
  }
}
