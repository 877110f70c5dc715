/** Three-tap integer blending: the linear upscaler (VCamUtils/src/videoconverter.cpp, `blend` and `readUL1`). */
module Upscale {
  import opened Arithmetic
  import opened FrameLayout
  import opened Samples
  import opened Scaling
  import opened Boxes
  import opened ConvertParameters

  function Blend(n: nat, a: int, right: int, below: int, kx: int, ky: int): (c: int)
  {
    Shr(kx * (right - a) + ky * (below - a) + a * Pow2(n + 1), n + 1)
  }

  /** With weights in the documented range [0, 1 << n] the blend is a rounded-down convex combination:
      it lies between the smallest and the largest of its three samples. */
  lemma BlendConvex(n: nat, a: int, right: int, below: int, kx: int, ky: int)
    requires 0 <= kx <= Pow2(n) && 0 <= ky <= Pow2(n)
    ensures Min(a, Min(right, below)) <= Blend(n, a, right, below, kx, ky) <= Max(a, Max(right, below))
  {
    BlendBounds(Pow2(n + 1), a, right, below, kx, ky, Min(a, Min(right, below)), Max(a, Max(right, below)));
  }

  lemma BlendBounds(d: int, a: int, right: int, below: int, kx: int, ky: int, lo: int, hi: int)
    requires d >= 1 && 0 <= kx && 0 <= ky && kx + ky <= d
    requires lo <= a <= hi && lo <= right <= hi && lo <= below <= hi
    ensures lo <= (kx * (right - a) + ky * (below - a) + a * d) / d <= hi
  {
    var tx, ty := kx * (right - a), ky * (below - a);
    WeightedBound(d, kx, ky, right - a, below - a, hi - a);
    WeightedBound(d, kx, ky, a - right, a - below, a - lo);
    assert kx * (a - right) == -tx && ky * (a - below) == -ty;
    assert d * (hi - a) == d * hi - a * d && d * (a - lo) == a * d - d * lo;
    DivAtLeast(tx + ty + a * d, d, lo);
    DivAtMost(tx + ty + a * d, d, hi);
  }

  lemma WeightedBound(d: int, kx: int, ky: int, u: int, v: int, w: int)
    requires 0 <= kx && 0 <= ky && kx + ky <= d && u <= w && v <= w && w >= 0
    ensures kx * u + ky * v <= d * w
  {
    MulLe(kx, u, w);
    MulLe(ky, v, w);
    MulLe(w, kx + ky, d);
  }

  /** The tables stop at SCALE_EMULT, far below the 1 << SCALE_EMULT the blend allows for: a blended sample moves
      from its own source sample by at most a thirty-second part of the spread of the three, rounded outward. */
  lemma BlendBarelyMoves(a: int, right: int, below: int, kx: int, ky: int)
    requires 0 <= kx <= SCALE_EMULT && 0 <= ky <= SCALE_EMULT
    ensures var c, spread := Blend(SCALE_EMULT, a, right, below, kx, ky),
            Max(a, Max(right, below)) - Min(a, Min(right, below));
            32 * (c - a) <= spread && 32 * (a - c) < spread + 32
  {
    hide Blend;
    var spread := Max(a, Max(right, below)) - Min(a, Min(right, below));
    var t := kx * (right - a) + ky * (below - a);
    WeightedStep(kx, right - a, spread);
    WeightedStep(ky, below - a, spread);
    BlendIs(a, right, below, kx, ky);
    assert -16 * spread <= t <= 16 * spread;
  }

  lemma BlendIs(a: int, right: int, below: int, kx: int, ky: int)
    ensures Blend(SCALE_EMULT, a, right, below, kx, ky) == a + (kx * (right - a) + ky * (below - a)) / 512
  {
    var t := kx * (right - a) + ky * (below - a);
    assert Pow2(9) == 512 by { assert Pow2(4) == 16; assert Pow2(9) == 32 * Pow2(4); }
    assert (t + a * 512) / 512 == t / 512 + a;
  }

  lemma WeightedStep(k: int, step: int, spread: int)
    requires 0 <= k <= 8 && -spread <= step <= spread
    ensures -8 * spread <= k * step <= 8 * spread
  {
    MulLe(k, step, spread);
    MulLe(k, -spread, step);
    MulLe(spread, k, 8);
  }

  /** An axis whose tables never point outside its source range. */
  predicate Covers(ax: Axis, total: int, limit: int)
  {
    && ax.Proper() && ax.origin + ax.size <= limit && (ax.size >= 2 || ax.out <= 1)
    && ax.first + ax.out <= total && ax.EndsWell(total)
  }

  /** In Ignore and Keep mode both axes qualify as soon as the source rectangle is two samples wide and high. */
  lemma IgnoreAndKeepCover(key: ScalingKey)
    requires key.Valid() && (key.mode.Ignore? || key.mode.Keep?)
    requires key.Geometry().irect.width >= 2 && key.Geometry().irect.height >= 2
    ensures var g := key.Geometry();
            Covers(ColumnAxis(g), g.width, key.iwidth) && Covers(LineAxis(g), g.height, key.iheight)
  {
    hide Quot;
    ActiveWindow(key.iwidth, key.iheight, key.outWidth, key.outHeight, key.inputRect, key.mode);
    SourceRectInside(key.iwidth, key.iheight, key.inputRect);
  }

  /** In Fit mode an axis may keep its size while the other grows, and border be left after it: the last column then
      blends with a sample beyond the source, here column 10 of ten. */
  lemma FitReadsPast()
    ensures var key := ScalingKey(10, 1000, 11, 1050, Rect(0, 0, 0, 0), Fit);
            && key.Valid() && key.Geometry().resize.ResizeUp? && ColumnAxis(key.Geometry()).Active(9)
            && ColumnAxis(key.Geometry()).NextSource(9, key.Geometry().width) == 10
  {
    hide Axis.DstToSrc;
    var key := ScalingKey(10, 1000, 11, 1050, Rect(0, 0, 0, 0), Fit);
    assert key.Geometry() == Geometry(11, 1050, 10, 1050, 0, 0, 10, 1050, ResizeUp, Rect(0, 0, 10, 1000));
    assert Axis(0, 10, 10, 0).DstToSrc(10) == 10 by { UnitScale(); }
  }

  lemma UnitScale()
    ensures Axis(0, 10, 10, 0).DstToSrc(10) == 10
  {
  }

  /** The three source samples of output pixel (x, y): its own, the next one right, the next one below. */
  function Taps(key: ScalingKey, view: ComponentView, x: int, y: int): (t: (int, int, int))
    requires Tapped(key, x, y) && view.Readable(key.iwidth, key.iheight)
  {
    var g := key.Geometry();
    TapsInside(key, x, y);
    var xs, ys, xs1, ys1 := ColumnAxis(g).DstToSrc(x), LineAxis(g).DstToSrc(y),
                            ColumnAxis(g).NextSource(x, g.width), LineAxis(g).NextSource(y, g.height);
    (view.SampleAt(xs, ys), view.SampleAt(xs1, ys), view.SampleAt(xs, ys1))
  }

  /** The blended value of output pixel (x, y). */
  function BlendAt(key: ScalingKey, view: ComponentView, x: int, y: int): (c: int)
    requires Tapped(key, x, y) && view.Readable(key.iwidth, key.iheight)
  {
    var (a, right, below) := Taps(key, view, x, y);
    Blend(SCALE_EMULT, a, right, below, ColumnAxis(key.Geometry()).Weight(x), LineAxis(key.Geometry()).Weight(y))
  }

  /** A request that is not downscaled and whose tables stay inside the source. */
  predicate Upscaling(key: ScalingKey)
  {
    && key.Valid()
    && !key.Geometry().resize.ResizeDown?
    && Covers(ColumnAxis(key.Geometry()), key.Geometry().width, key.iwidth)
    && Covers(LineAxis(key.Geometry()), key.Geometry().height, key.iheight)
  }

  /** An output pixel of such a picture. */
  predicate Tapped(key: ScalingKey, x: int, y: int)
  {
    Upscaling(key) && ColumnAxis(key.Geometry()).Active(x) && LineAxis(key.Geometry()).Active(y)
  }

  /** All three taps of a pixel lie in the source frame and its weights are in range. */
  lemma TapsInside(key: ScalingKey, x: int, y: int)
    requires Tapped(key, x, y)
    ensures var g := key.Geometry();
            && 0 <= ColumnAxis(g).DstToSrc(x) <= ColumnAxis(g).NextSource(x, g.width) < key.iwidth
            && 0 <= LineAxis(g).DstToSrc(y) <= LineAxis(g).NextSource(y, g.height) < key.iheight
            && 0 <= ColumnAxis(g).Weight(x) <= SCALE_EMULT && 0 <= LineAxis(g).Weight(y) <= SCALE_EMULT
  {
    hide GeometryOf, Axis.DstToSrc, Axis.NextSource, Axis.Weight;
    var g := key.Geometry();
    NextSourceAt(ColumnAxis(g), x, g.width);
    NextSourceAt(LineAxis(g), y, g.height);
    WeightRange(ColumnAxis(g), x);
    WeightRange(LineAxis(g), y);
  }

  /** Every upscaled value lies between the smallest and the largest of its three source samples, and no further
      from its own sample than a thirty-second part of their spread. */
  lemma UpscaleConvex(key: ScalingKey, view: ComponentView, x: int, y: int)
    requires Tapped(key, x, y) && view.Readable(key.iwidth, key.iheight)
    ensures var (a, right, below) := Taps(key, view, x, y);
            var lo, hi, c := Min(a, Min(right, below)), Max(a, Max(right, below)), BlendAt(key, view, x, y);
            lo <= c <= hi && 32 * (c - a) <= hi - lo && 32 * (a - c) < hi - lo + 32
  {
    hide GeometryOf, Axis.DstToSrc, Axis.NextSource, Axis.Weight, Blend, ComponentView.SampleAt, Covers;
    TapsInside(key, x, y);
    WeightsFit();
    var (a, right, below) := Taps(key, view, x, y);
    var kx, ky := ColumnAxis(key.Geometry()).Weight(x), LineAxis(key.Geometry()).Weight(y);
    BlendConvex(SCALE_EMULT, a, right, below, kx, ky);
    BlendBarelyMoves(a, right, below, kx, ky);
  }

  lemma WeightsFit()
    ensures SCALE_EMULT <= Pow2(SCALE_EMULT)
  {
  }

  /** `line` holds the blended values of output line `y`. */
  predicate BlendLine(key: ScalingKey, view: ComponentView, line: seq<int>, y: int)
    requires Upscaling(key) && view.Readable(key.iwidth, key.iheight) && LineAxis(key.Geometry()).Active(y)
  {
    var g := key.Geometry();
    && |line| == g.owidth
    && forall i :: 0 <= i < g.owidth ==> line[i] == BlendAt(key, view, g.xmin + i, y)
  }

  /** The reading half of the linear upscaling loops. */
  method UpscaleComponent(fc: FrameConvertParameters, key: ScalingKey, view: ComponentView) returns (out: seq<seq<int>>)
    requires Upscaling(key) && fc.Configured(key) && view.Readable(key.iwidth, key.iheight)
    ensures |out| == fc.geometry.oheight
    ensures forall y :: 0 <= y < fc.geometry.oheight ==> BlendLine(key, view, out[y], fc.geometry.ymin + y)
  {
    hide Quot, GeometryOf, Covers, ColumnTables, LineTables, AreaTable, BlendLine, ComponentView.Readable;
    ActiveWindow(key.iwidth, key.iheight, key.outWidth, key.outHeight, key.inputRect, key.mode);
    out := [];
    var y := fc.geometry.ymin;
    while y < fc.geometry.ymax
      invariant fc.geometry.ymin <= y <= fc.geometry.ymax
      invariant |out| == y - fc.geometry.ymin
      invariant forall j :: 0 <= j < |out| ==> BlendLine(key, view, out[j], fc.geometry.ymin + j)
    {
      var line := UpscaleLine(fc, key, view, y);
      out := out + [line];
      y := y + 1;
    }
  }

  method UpscaleLine(fc: FrameConvertParameters, key: ScalingKey, view: ComponentView, y: int) returns (line: seq<int>)
    requires Upscaling(key) && fc.Configured(key) && view.Readable(key.iwidth, key.iheight)
    requires LineAxis(fc.geometry).Active(y)
    ensures BlendLine(key, view, line, y)
  {
    hide Quot, GeometryOf, Axis.DstToSrc, Axis.NextSource, Axis.Weight, AreaTable, Blend, ComponentView.SampleAt;
    ActiveWindow(key.iwidth, key.iheight, key.outWidth, key.outHeight, key.inputRect, key.mode);
    line := [];
    var x := fc.geometry.xmin;
    var ky := fc.tables.ky[y];
    while x < fc.geometry.xmax
      invariant fc.geometry.xmin <= x <= fc.geometry.xmax
      invariant |line| == x - fc.geometry.xmin
      invariant forall i :: 0 <= i < |line| ==> line[i] == BlendAt(key, view, fc.geometry.xmin + i, y)
    {
      TapsInside(key, x, y);
      var a := view.SampleAt(fc.tables.srcWidth[x], fc.tables.srcHeight[y]);
      var right := view.SampleAt(fc.tables.nextWidth[x], fc.tables.srcHeight[y]);
      var below := view.SampleAt(fc.tables.srcWidth[x], fc.tables.srcHeight_1[y]);
      line := line + [Blend(SCALE_EMULT, a, right, below, fc.tables.kx[x], ky)];
      x := x + 1;
    }
  }
}
