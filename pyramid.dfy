/** The renderer side of `CanvasImage`: the sizes of the image pyramid, the
    pyramid level and sampling scale chosen for a zoom, and the zoom step of
    `__wheel` with its two limits. */
module Pyramid {
  import opened Numeric

  /** Each pyramid level halves the one before. */
  const Reduction: nat := 2
  /** The pyramid stops once a side of the target size is at most this. */
  const TopSize: nat := 512
  /** Zoom magnitude of one wheel step. */
  const Delta: real := 1.3
  /** Zoom out stops below this many pixels on the smaller image side. */
  const MinPixels: int := 30

  datatype Size = Size(w: nat, h: nat)

  // ---------------------------------------------------------------------
  // Pyramid sizes

  /** The levels appended once the target size has been divided by `d`: while
      both sides of the exact target (w / d, h / d) exceed 512, halve it and
      append its truncation. */
  function LevelsBelow(w: nat, h: nat, d: nat): seq<Size>
    requires d >= 1
    decreases w - TopSize * d
  {
    if w > TopSize * d && h > TopSize * d then
      [Size(w / (Reduction * d), h / (Reduction * d))] + LevelsBelow(w, h, Reduction * d)
    else
      []
  }

  /** The sizes of the pyramid built on a base image of size `base`. */
  function PyramidSizes(base: Size): seq<Size>
  {
    [base] + LevelsBelow(base.w, base.h, 1)
  }

  /** The size of pyramid level `e`: the base divided by 2^e, rounding down. */
  function LevelSize(w: nat, h: nat, e: nat): Size
  {
    var d := Exp2(e);
    DivNonNegative(w, d);
    DivNonNegative(h, d);
    Size(w / d, h / d)
  }

  lemma DivNonNegative(a: nat, d: nat)
    requires d >= 1
    ensures a / d >= 0
  {
  }

  /** Both sides of the exact target w / 2^e, h / 2^e exceed 512. */
  predicate AboveTop(w: nat, h: nat, e: nat)
  {
    w > TopSize * Exp2(e) && h > TopSize * Exp2(e)
  }

  /** Level j of the levels below `2^m` is level m + j + 1 of the pyramid, and
      was appended because the target before it was above 512 on both sides;
      the target after the last level is not. */
  lemma {:induction false} LevelsBelowFacts(w: nat, h: nat, m: nat)
    ensures var ls := LevelsBelow(w, h, Exp2(m));
      (forall j :: 0 <= j < |ls| ==> ls[j] == LevelSize(w, h, m + j + 1) && AboveTop(w, h, m + j)) &&
      !AboveTop(w, h, m + |ls|)
    decreases w - TopSize * Exp2(m)
  {
    var d := Exp2(m);
    var ls := LevelsBelow(w, h, d);
    if AboveTop(w, h, m) {
      assert Exp2(m + 1) == Reduction * d;
      var rest := LevelsBelow(w, h, Exp2(m + 1));
      assert ls == [LevelSize(w, h, m + 1)] + rest;
      LevelsBelowFacts(w, h, m + 1);
      forall j | 0 <= j < |ls|
        ensures ls[j] == LevelSize(w, h, m + j + 1) && AboveTop(w, h, m + j)
      {
        if j > 0 {
          assert ls[j] == rest[j - 1];
          assert m + 1 + (j - 1) == m + j;
        }
      }
    } else {
      assert ls == [];
    }
  }

  /** Level j of the pyramid is the base with both sides divided by 2^j. */
  lemma PyramidLevelSize(base: Size, j: nat)
    requires j < |PyramidSizes(base)|
    ensures PyramidSizes(base)[j] == LevelSize(base.w, base.h, j)
  {
    LevelsBelowFacts(base.w, base.h, 0);
    if j > 0 {
      assert PyramidSizes(base)[j] == LevelsBelow(base.w, base.h, 1)[j - 1];
    }
  }

  /** Each level is the previous level halved, rounding down. */
  lemma PyramidHalves(base: Size, j: nat)
    requires 0 < j < |PyramidSizes(base)|
    ensures PyramidSizes(base)[j].w == PyramidSizes(base)[j - 1].w / Reduction
    ensures PyramidSizes(base)[j].h == PyramidSizes(base)[j - 1].h / Reduction
  {
    PyramidLevelSize(base, j);
    PyramidLevelSize(base, j - 1);
    DivDiv(base.w, Exp2(j - 1), 2);
    DivDiv(base.h, Exp2(j - 1), 2);
  }

  /** A side above 512 * 2^e stays at least 512 once divided by 2^e, and one at
      most 512 * 2^e stays at most 512. */
  lemma SideAgainstTop(x: nat, e: nat)
    ensures x > TopSize * Exp2(e) ==> x / Exp2(e) >= TopSize
    ensures x <= TopSize * Exp2(e) ==> x / Exp2(e) <= TopSize
  {
    var d := Exp2(e);
    DivUnique(TopSize * d, d, TopSize, 0);
    if x > TopSize * d {
      DivMonotone(TopSize * d, x, d);
    } else {
      DivMonotone(x, TopSize * d, d);
    }
  }

  /** The loop stops: the target size behind the last level has a side of at
      most 512, so the last level does too; every other level was halved
      further because both sides of its target exceeded 512, so both of its
      sides are at least 512 (512 itself can occur, e.g. for a 1025 base). */
  lemma PyramidStops(base: Size)
    ensures var ps := PyramidSizes(base);
      |ps| >= 1 && ps[0] == base &&
      !AboveTop(base.w, base.h, |ps| - 1) &&
      (ps[|ps| - 1].w <= TopSize || ps[|ps| - 1].h <= TopSize) &&
      (forall j :: 0 <= j < |ps| - 1 ==>
         AboveTop(base.w, base.h, j) && ps[j].w >= TopSize && ps[j].h >= TopSize)
  {
    var ps := PyramidSizes(base);
    var n := |ps|;
    var below := LevelsBelow(base.w, base.h, 1);
    assert ps == [base] + below;
    LevelsBelowFacts(base.w, base.h, 0);
    PyramidLevelSize(base, n - 1);
    SideAgainstTop(base.w, n - 1);
    SideAgainstTop(base.h, n - 1);
    forall j | 0 <= j < n - 1
      ensures AboveTop(base.w, base.h, j) && ps[j].w >= TopSize && ps[j].h >= TopSize
    {
      assert below[j] == LevelSize(base.w, base.h, j + 1) && AboveTop(base.w, base.h, j);
      PyramidLevelSize(base, j);
      SideAgainstTop(base.w, j);
      SideAgainstTop(base.h, j);
    }
  }

  lemma DivMonotone(a: nat, b: nat, d: nat)
    requires a <= b && d >= 1
    ensures a / d <= b / d
  {
    if a / d > b / d {
      MulMonotone(b / d + 1, a / d, d);
      MulDistributes(b / d, 1, d);
      assert false;
    }
  }

  /** A 1025-pixel square keeps a 512-pixel level below the base: the target
      512.5 still exceeds 512. */
  lemma PyramidOf1025()
    ensures PyramidSizes(Size(1025, 1025)) == [Size(1025, 1025), Size(512, 512), Size(256, 256)]
  {
    assert LevelsBelow(1025, 1025, 4) == [];
    assert LevelsBelow(1025, 1025, 2) == [Size(256, 256)];
  }

  /** A 14000 x 7000 base gives levels down to 875 x 437, where the target
      437.5 is no longer above 512. */
  lemma PyramidOf14000By7000()
    ensures PyramidSizes(Size(14000, 7000)) ==
      [Size(14000, 7000), Size(7000, 3500), Size(3500, 1750), Size(1750, 875), Size(875, 437)]
  {
    assert LevelsBelow(14000, 7000, 16) == [];
    assert LevelsBelow(14000, 7000, 8) == [Size(875, 437)];
    assert LevelsBelow(14000, 7000, 4) == [Size(1750, 875), Size(875, 437)];
    assert LevelsBelow(14000, 7000, 2) == [Size(3500, 1750), Size(1750, 875), Size(875, 437)];
  }

  // ---------------------------------------------------------------------
  // Level selection

  /** `__wheel` picks pyramid level min(-int(log2 k), levels - 1) and samples it
      at scale k * 2^max(0, level); a negative level means the raw bands of a
      huge image are read instead. */
  function SelectLevel(k: real, levels: nat): (int, real)
    requires k > 0.0 && levels >= 1
  {
    var level := Min(-Log2Trunc(k), levels - 1);
    (level, LevelScale(k, level))
  }

  /** The scale pyramid level `level` is sampled at for coefficient k: the
      level is 2^level times smaller than the base, and a negative level is
      sampled at k itself, like level 0. */
  function LevelScale(k: real, level: int): real
  {
    k * Pow2(Max(0, level))
  }

  /** The level is a pyramid index or negative, negative exactly when k >= 2
      (the view is more than twice as fine as the base); the sampling scale is
      positive and is k times the level's reduction 2^level; and when the level is
      not clamped by the pyramid's height, that level is read within a factor of
      two of its own resolution. */
  lemma SelectLevelBounds(k: real, levels: nat)
    requires k > 0.0 && levels >= 1
    ensures var (level, scale) := SelectLevel(k, levels);
      level <= levels - 1 &&
      (level < 0 <==> k >= 2.0) &&
      scale > 0.0 &&
      (level >= 0 ==> scale == k * Pow2(level)) &&
      (level < 0 ==> scale == k) &&
      (0 <= level == -Log2Trunc(k) ==> 0.5 < scale < 2.0)
  {
    var e := Log2Trunc(k);
    var level := Min(-e, levels - 1);
    Log2TruncPositive(k);
    SelectLevelScale(k, levels);
    if 0 <= level == -e {
      UnclampedScale(k, level);
    }
  }

  /** The scale of the selected level is k * 2^level, or k below level 0. */
  lemma SelectLevelScale(k: real, levels: nat)
    requires k > 0.0 && levels >= 1
    ensures var (level, scale) := SelectLevel(k, levels);
      scale > 0.0 &&
      (level >= 0 ==> scale == k * Pow2(level)) &&
      (level < 0 ==> scale == k)
  {
    LevelScaleOf(k, SelectLevel(k, levels).0);
  }

  /** The sampling scale is positive, k * 2^level at a pyramid level and k
      itself at a negative level. */
  lemma LevelScaleOf(k: real, level: int)
    requires k > 0.0
    ensures LevelScale(k, level) > 0.0
    ensures level >= 0 ==> LevelScale(k, level) == k * Pow2(level)
    ensures level < 0 ==> LevelScale(k, level) == k
  {
    RealMulMonotoneStrict(0.0, k, Pow2(Max(0, level)));
  }

  /** At the level -int(log2 k) itself, k is brought within a factor of two
      of 1. */
  lemma UnclampedScale(k: real, n: nat)
    requires k > 0.0 && Log2Trunc(k) + n == 0
    ensures 0.5 < LevelScale(k, n) < 2.0
  {
    LevelScaleOf(k, n);
    var e := Log2Trunc(k);
    assert IsTruncLog2(k, e);
    if k >= 1.0 {
      Log2TruncPositive(k);
      assert n == 0 && Pow2(n) == 1.0 && k < 2.0;
    } else {
      var p := Pow2(n);
      ScaleByInversePower(k, n, p);
      assert LevelScale(k, n) == k * p;
    }
  }

  lemma ScaleByInversePower(k: real, n: nat, p: real)
    requires Pow2(-(n as int) - 1) < k <= Pow2(-(n as int)) && p == Pow2(n)
    ensures 0.5 < k * p <= 1.0
  {
    Pow2Step(-(n as int) - 1);
    Pow2Inverse(n);
    BetweenHalfAndOne(k, Pow2(-(n as int) - 1), Pow2(-(n as int)), p);
  }

  lemma BetweenHalfAndOne(k: real, half: real, full: real, p: real)
    requires full == 2.0 * half && full * p == 1.0 && half < k <= full && p > 0.0
    ensures 0.5 < k * p <= 1.0
  {
    assert half * p == 0.5 by {
      assert (2.0 * half) * p == 2.0 * (half * p);
    }
    RealMulMonotoneStrict(half, k, p);
    RealMulMonotone(k, full, p);
    var lo, mid, hi := half * p, k * p, full * p;
    assert lo == 0.5 && lo < mid && mid <= hi && hi == 1.0;
  }

  /** 2^-n is the inverse of 2^n. */
  lemma {:induction false} Pow2Inverse(n: nat)
    ensures Pow2(-(n as int)) * Pow2(n) == 1.0
  {
    if n > 0 {
      Pow2Inverse(n - 1);
      var a, b := Pow2(1 - n), Pow2(n - 1);
      assert Pow2(-(n as int)) == a / 2.0;
      assert Pow2(n) == 2.0 * b;
      assert (a / 2.0) * (2.0 * b) == a * b;
    }
  }

  /** Zooming in never selects a coarser level. */
  lemma SelectLevelMonotone(k1: real, k2: real, levels: nat)
    requires 0.0 < k1 <= k2 && levels >= 1
    ensures SelectLevel(k2, levels).0 <= SelectLevel(k1, levels).0
  {
    Log2TruncMonotone(k1, k2);
  }

  // ---------------------------------------------------------------------
  // The zoom step of __wheel

  /** What a wheel event does to `imscale`. `Refused` carries the scale the
      method returns with (unchanged, except after an event that asks for both
      directions); `Zoomed` carries the new scale and the factor the canvas is
      scaled by. */
  datatype ZoomOutcome = Refused(imscale: real) | Zoomed(imscale: real, factor: real)

  /** How many screen pixels the smaller image side spans at scale `imscale`. */
  function ShownPixels(minSide: nat, imscale: real): real
  {
    minSide as real * imscale
  }

  /** The zoom step of `__wheel`: zoom out unless round(minSide * imscale) < 30,
      then zoom in unless (min(canvasW, canvasH) >> 1) < imscale. */
  function ZoomStep(imscale: real, minSide: nat, canvasW: nat, canvasH: nat, down: bool, up: bool): ZoomOutcome
  {
    if down && RoundHalfEven(ShownPixels(minSide, imscale)) < MinPixels then
      Refused(imscale)
    else
      var s1 := if down then imscale / Delta else imscale;
      var f1 := if down then 1.0 / Delta else 1.0;
      if up && ((Min(canvasW, canvasH) / 2) as real) < s1 then Refused(s1)
      else if up then Zoomed(s1 * Delta, f1 * Delta)
      else Zoomed(s1, f1)
  }

  /** Zooming out is refused exactly when the smaller image side would show
      fewer than 29.5 pixels, and then leaves the scale alone; otherwise the
      scale is divided by exactly 1.3. */
  lemma ZoomOutLimit(imscale: real, minSide: nat, canvasW: nat, canvasH: nat)
    ensures var z := ZoomStep(imscale, minSide, canvasW, canvasH, true, false);
      (z.Refused? <==> ShownPixels(minSide, imscale) < 29.5) &&
      (z.Refused? ==> z.imscale == imscale) &&
      (z.Zoomed? ==> z.imscale == imscale / Delta && z.factor == 1.0 / Delta)
  {
    RoundBelowThirty(ShownPixels(minSide, imscale));
  }

  /** Zooming in is refused exactly when half the smaller canvas side is below
      the scale, and then leaves the scale alone; otherwise the scale is
      multiplied by exactly 1.3. */
  lemma ZoomInLimit(imscale: real, minSide: nat, canvasW: nat, canvasH: nat)
    ensures var z := ZoomStep(imscale, minSide, canvasW, canvasH, false, true);
      (z.Refused? <==> ((Min(canvasW, canvasH) / 2) as real) < imscale) &&
      (z.Refused? ==> z.imscale == imscale) &&
      (z.Zoomed? ==> z.imscale == imscale * Delta && z.factor == Delta)
  {
  }

  /** Whatever the event, a zoom that goes through multiplies the scale by the
      factor the canvas is scaled by, and both stay positive. */
  lemma ZoomFactorConsistent(imscale: real, minSide: nat, canvasW: nat, canvasH: nat, down: bool, up: bool)
    requires imscale > 0.0
    ensures var z := ZoomStep(imscale, minSide, canvasW, canvasH, down, up);
      z.imscale > 0.0 &&
      (z.Zoomed? ==> z.factor > 0.0 && z.imscale == imscale * z.factor)
  {
  }
}
