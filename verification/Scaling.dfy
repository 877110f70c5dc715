/** Output geometry and the source/destination index maps that `configureScaling` tabulates
    (VCamUtils/src/videoconverter.cpp), with the rectangle operations of VCamUtils/src/rect.cpp. */
module Scaling {
  import opened Arithmetic

  datatype Rect = Rect(x: int, y: int, width: int, height: int) {
    predicate IsEmpty()
    {
      width < 1 || height < 1
    }

    function Intersected(other: Rect): (r: Rect)
    {
      var left, top := Max(x, other.x), Max(y, other.y);
      var w := Min(x + width, other.x + other.width) - left;
      var h := Min(y + height, other.y + other.height) - top;
      if w <= 0 || h <= 0 then Rect(0, 0, 0, 0) else Rect(left, top, w, h)
    }

    predicate Holds(px: int, py: int)
    {
      x <= px < x + width && y <= py < y + height
    }

    predicate Inside(other: Rect)
    {
      other.x <= x && other.y <= y && x + width <= other.x + other.width && y + height <= other.y + other.height
    }
  }

  datatype AspectRatioMode = Ignore | Keep | Expanding | Fit

  datatype ResizeMode = ResizeKeep | ResizeUp | ResizeDown

  /** Fixed-point resolution of the upscale weights (`SCALE_EMULT`). */
  const SCALE_EMULT: nat := 8

  // ----- Geometry -----

  /** Size of the scaled picture: in Keep and Fit mode the largest one with the source's aspect ratio. */
  function FittedSize(width: int, height: int, irect: Rect, mode: AspectRatioMode): (s: (int, int))
    requires mode.Keep? || mode.Fit? ==> !irect.IsEmpty()
  {
    if mode.Keep? || mode.Fit? then
      var w := Quot(height * irect.width, irect.height);
      var h := Quot(width * irect.height, irect.width);
      if w > width then (width, h) else if h > height then (w, height) else (w, h)
    else
      (width, height)
  }

  /** In Keep and Fit mode the fitted size never exceeds the target, meets it in one dimension at least,
      and misses the source's aspect ratio by less than one pixel. */
  lemma FittedSizeFits(width: int, height: int, irect: Rect, mode: AspectRatioMode)
    requires width >= 1 && height >= 1 && !irect.IsEmpty() && (mode.Keep? || mode.Fit?)
    ensures var s := FittedSize(width, height, irect, mode);
            && 0 <= s.0 <= width && 0 <= s.1 <= height
            && (s.0 == width || s.1 == height)
            && -Max(irect.width, irect.height) < s.0 * irect.height - s.1 * irect.width < Max(irect.width, irect.height)
  {
    var iw, ih := irect.width, irect.height;
    MulNonNeg(height, iw);
    MulNonNeg(width, ih);
    var w, h := height * iw / ih, width * ih / iw;
    FittedCandidates(width, height, iw, ih, w, h);
  }

  lemma FittedCandidates(width: int, height: int, iw: int, ih: int, w: int, h: int)
    requires width >= 1 && height >= 1 && iw >= 1 && ih >= 1
    requires w == height * iw / ih && h == width * ih / iw
    ensures w >= 0 && h >= 0
    ensures 0 <= height * iw - w * ih < ih && 0 <= width * ih - h * iw < iw
    ensures w > width ==> h <= height
    ensures w <= width && h <= height ==> w == width || h == height
  {
    MulNonNeg(height, iw);
    MulNonNeg(width, ih);
    DivBounds(height * iw, ih);
    DivBounds(width * ih, iw);
    DivSign(height * iw, ih);
    DivSign(width * ih, iw);
    if w > width {
      MulLe(ih, width, w);
      DivAtMost(width * ih, iw, height);
    } else if w < width {
      MulLe(ih, w + 1, width);
      DivAtLeast(width * ih, iw, height);
    }
  }

  /** What `configureScaling` decides before it fills its tables. */
  datatype Geometry = Geometry(width: int, height: int, owidth: int, oheight: int,
                               xmin: int, ymin: int, xmax: int, ymax: int, resize: ResizeMode, irect: Rect)

  function ResizeOf(owidth: int, oheight: int, irect: Rect): (r: ResizeMode)
  {
    if owidth > irect.width || oheight > irect.height then ResizeUp
    else if owidth < irect.width || oheight < irect.height then ResizeDown
    else ResizeKeep
  }

  /** The crop of Expanding mode. */
  function Crop(irect: Rect, owidth: int, oheight: int): (r: Rect)
    requires owidth != 0 && oheight != 0
  {
    var w := Min(Quot(irect.height * owidth, oheight), irect.width);
    var h := Min(Quot(irect.width * oheight, owidth), irect.height);
    Rect(Quot(irect.x + irect.width - w, 2), Quot(irect.y + irect.height - h, 2), w, h)
  }

  function SourceRect(iwidth: int, iheight: int, inputRect: Rect): (r: Rect)
  {
    var full := Rect(0, 0, iwidth, iheight);
    if inputRect.IsEmpty() then full else full.Intersected(inputRect)
  }

  function TargetSize(requested: int, source: int): (r: int)
  {
    if requested > 1 then requested else source
  }

  /** Nothing is divided by zero: Keep and Fit mode divide by the sides of the source rectangle, Expanding mode by
      those of the output. A rectangle that is not empty always qualifies. */
  predicate Divides(iwidth: int, iheight: int, outWidth: int, outHeight: int, inputRect: Rect, mode: AspectRatioMode):
    (b: bool)
    ensures !SourceRect(iwidth, iheight, inputRect).IsEmpty() ==> b
  {
    var irect := SourceRect(iwidth, iheight, inputRect);
    match mode
    case Ignore => true
    case Expanding => TargetSize(outWidth, irect.width) != 0 && TargetSize(outHeight, irect.height) != 0
    case _ => !irect.IsEmpty()
  }

  function GeometryOf(iwidth: int, iheight: int, outWidth: int, outHeight: int, inputRect: Rect,
                      mode: AspectRatioMode): (g: Geometry)
    requires Divides(iwidth, iheight, outWidth, outHeight, inputRect, mode)
  {
    var irect := SourceRect(iwidth, iheight, inputRect);
    var tw, th := TargetSize(outWidth, irect.width), TargetSize(outHeight, irect.height);
    var s := FittedSize(tw, th, irect, mode);
    var width, height := if mode.Keep? then s.0 else tw, if mode.Keep? then s.1 else th;
    Geometry(width, height, s.0, s.1,
             Quot(width - s.0, 2), Quot(height - s.1, 2), Quot(width + s.0, 2), Quot(height + s.1, 2),
             ResizeOf(s.0, s.1, irect),
             if mode.Expanding? then Crop(irect, s.0, s.1) else irect)
  }

  /** The source rectangle holds just the samples of the frame that lie in the input rectangle, if there is one. */
  lemma SourceRectMeans(iwidth: int, iheight: int, inputRect: Rect, x: int, y: int)
    requires iwidth >= 1 && iheight >= 1
    ensures SourceRect(iwidth, iheight, inputRect).Holds(x, y) <==>
              && 0 <= x < iwidth && 0 <= y < iheight
              && (inputRect.width < 1 || inputRect.height < 1
                  || (0 <= x - inputRect.x < inputRect.width && 0 <= y - inputRect.y < inputRect.height))
  {
  }

  lemma SourceRectInside(iwidth: int, iheight: int, inputRect: Rect)
    requires iwidth >= 1 && iheight >= 1
    ensures var r := SourceRect(iwidth, iheight, inputRect);
            !r.IsEmpty() ==> r.Inside(Rect(0, 0, iwidth, iheight))
  {
  }

  /** The active window has the fitted size, is centred and lies in the output, in every mode. */
  lemma ActiveWindow(iwidth: int, iheight: int, outWidth: int, outHeight: int, inputRect: Rect, mode: AspectRatioMode)
    requires !SourceRect(iwidth, iheight, inputRect).IsEmpty()
    ensures var g := GeometryOf(iwidth, iheight, outWidth, outHeight, inputRect, mode);
            && 0 <= g.xmin && g.xmax <= g.width && g.xmax - g.xmin == g.owidth >= 0
            && 0 <= g.ymin && g.ymax <= g.height && g.ymax - g.ymin == g.oheight >= 0
            && 0 <= (g.width - g.xmax) - g.xmin <= 1
            && 0 <= (g.height - g.ymax) - g.ymin <= 1
            && (!mode.Fit? ==> g.xmin == 0 && g.xmax == g.width && g.ymin == 0 && g.ymax == g.height)
  {
    hide Quot;
    var irect := SourceRect(iwidth, iheight, inputRect);
    var tw, th := TargetSize(outWidth, irect.width), TargetSize(outHeight, irect.height);
    if mode.Keep? || mode.Fit? {
      FittedSizeFits(tw, th, irect, mode);
    }
    var s := FittedSize(tw, th, irect, mode);
    CentredWindow(tw, s.0);
    CentredWindow(th, s.1);
    CentredWindow(s.0, s.0);
    CentredWindow(s.1, s.1);
  }

  lemma CentredWindow(width: int, owidth: int)
    requires 0 <= owidth <= width
    ensures var lo, hi := Quot(width - owidth, 2), Quot(width + owidth, 2);
            0 <= lo && hi <= width && hi - lo == owidth && 0 <= (width - hi) - lo <= 1
            && (owidth == width ==> lo == 0 && hi == width)
  {
  }

  /** The crop of Expanding mode is the whole rectangle in one dimension at least and has the aspect ratio of the output
      to within a sample. Of a rectangle at the origin it is the middle. */
  lemma CropFits(irect: Rect, owidth: int, oheight: int)
    requires !irect.IsEmpty() && owidth >= 1 && oheight >= 1
    ensures var c := Crop(irect, owidth, oheight);
            && 0 <= c.width <= irect.width && 0 <= c.height <= irect.height
            && (c.width == irect.width || c.height == irect.height)
            && -Max(owidth, oheight) < c.width * oheight - c.height * owidth < Max(owidth, oheight)
            && (irect.x == 0 ==> 0 <= (irect.width - c.width - c.x) - c.x <= 1)
            && (irect.y == 0 ==> 0 <= (irect.height - c.height - c.y) - c.y <= 1)
  {
    hide Quot;
    MulNonNeg(irect.height, owidth);
    MulNonNeg(irect.width, oheight);
    FittedCandidates(irect.width, irect.height, owidth, oheight, irect.height * owidth / oheight,
                     irect.width * oheight / owidth);
    var c := Crop(irect, owidth, oheight);
    HalfOf(irect.x + irect.width - c.width);
    HalfOf(irect.y + irect.height - c.height);
  }

  /** So the crop of Expanding mode stays inside the source rectangle exactly when the rectangle starts no further from
      the origin than the crop is short of it, in each direction; a rectangle at the origin always qualifies. */
  lemma CropInside(irect: Rect, owidth: int, oheight: int)
    requires !irect.IsEmpty() && irect.x >= 0 && irect.y >= 0 && owidth >= 1 && oheight >= 1
    ensures var c := Crop(irect, owidth, oheight);
            && 0 <= c.width <= irect.width && 0 <= c.height <= irect.height
            && (c.width == irect.width || c.height == irect.height)
            && -Max(owidth, oheight) < c.width * oheight - c.height * owidth < Max(owidth, oheight)
            && (c.Inside(irect) <==> irect.x <= irect.width - c.width && irect.y <= irect.height - c.height)
  {
    hide Crop, Quot;
    CropFits(irect, owidth, oheight);
    CropIs(irect, owidth, oheight);
    var c := Crop(irect, owidth, oheight);
    CropAxis(irect.x, irect.width, c.width);
    CropAxis(irect.y, irect.height, c.height);
  }

  lemma CropIs(irect: Rect, owidth: int, oheight: int)
    requires owidth != 0 && oheight != 0
    ensures var c := Crop(irect, owidth, oheight);
            c.x == Quot(irect.x + irect.width - c.width, 2) && c.y == Quot(irect.y + irect.height - c.height, 2)
  {
  }

  lemma CropAxis(x: int, width: int, w: int)
    requires x >= 0 && 0 <= w <= width
    ensures var x' := Quot(x + width - w, 2);
            (x <= x' && x' + w <= x + width) <==> x <= width - w
  {
  }

  lemma HalfOf(n: int)
    ensures n >= 0 ==> 0 <= n - 2 * Quot(n, 2) <= 1
  {
  }

  /** The largest size within `width` by `height` that has the rectangle's aspect ratio, to within a pixel. */
  predicate FitsInto(w: int, h: int, width: int, height: int, irect: Rect)
  {
    && 0 <= w <= width && 0 <= h <= height && (w == width || h == height)
    && -Max(irect.width, irect.height) < w * irect.height - h * irect.width < Max(irect.width, irect.height)
  }

  /** What the geometry is, by mode. A side that is not asked for, or asked for as one pixel, is that of the source
      rectangle. In Keep mode the output is the largest picture that fits, in the others it has the size asked for; in
      Fit mode the largest picture that fits is put into it. What is shown is the source rectangle, in Expanding mode
      the part of it with the aspect ratio of the output. */
  lemma GeometryMeans(iwidth: int, iheight: int, outWidth: int, outHeight: int, inputRect: Rect, mode: AspectRatioMode)
    requires !SourceRect(iwidth, iheight, inputRect).IsEmpty()
    ensures var g, s := GeometryOf(iwidth, iheight, outWidth, outHeight, inputRect, mode),
            SourceRect(iwidth, iheight, inputRect);
            var width := if outWidth > 1 then outWidth else s.width;
            var height := if outHeight > 1 then outHeight else s.height;
            match mode
            case Ignore => g.width == g.owidth == width && g.height == g.oheight == height && g.irect == s
            case Keep => g.width == g.owidth && g.height == g.oheight && FitsInto(g.width, g.height, width, height, s)
                         && g.irect == s
            case Fit => g.width == width && g.height == height && FitsInto(g.owidth, g.oheight, width, height, s)
                        && g.irect == s
            case Expanding =>
              && g.width == g.owidth == width && g.height == g.oheight == height
              && FitsInto(g.irect.width, g.irect.height, s.width, s.height, Rect(0, 0, width, height))
              && (s.x == 0 ==> 0 <= (s.width - g.irect.width - g.irect.x) - g.irect.x <= 1)
              && (s.y == 0 ==> 0 <= (s.height - g.irect.height - g.irect.y) - g.irect.y <= 1)
  {
    hide Quot, Crop;
    var s := SourceRect(iwidth, iheight, inputRect);
    var width, height := if outWidth > 1 then outWidth else s.width, if outHeight > 1 then outHeight else s.height;
    match mode
    case Ignore =>
    case Keep => FittedSizeFits(width, height, s, mode);
    case Fit => FittedSizeFits(width, height, s, mode);
    case Expanding => CropFits(s, width, height);
  }

  // ----- Index maps along one axis -----

  /** One axis of the mapping: `size` source samples from `origin` on, shown as `out` pixels from `first` on. */
  datatype Axis = Axis(origin: int, size: int, out: int, first: int) {
    function SourceSpan(): (r: int)
      ensures r >= 1
    {
      Max(1, size - 1)
    }

    function OutputSpan(): (r: int)
      ensures r >= 1
    {
      Max(1, out - 1)
    }

    function SrcToDst(x: int): (r: int)
    {
      Quot((x - origin) * OutputSpan() + first * SourceSpan(), SourceSpan())
    }

    function DstToSrc(x: int): (r: int)
    {
      Quot((x - first) * SourceSpan() + origin * OutputSpan(), OutputSpan())
    }

    /** Weight of the next source sample at output pixel `x`. */
    function Weight(x: int): (k: int)
    {
      var lo, hi := SrcToDst(DstToSrc(x)), SrcToDst(DstToSrc(x) + 1);
      if hi > lo then Quot(SCALE_EMULT * (x - lo), hi - lo) else 0
    }

    /** Source index paired with `DstToSrc(x)` by the blend; `total` is the full output size. */
    function NextSource(x: int, total: int): (r: int)
    {
      DstToSrc(Min(x + 1, total - 1))
    }

    /** End of the source range averaged at output pixel `x`; `limit` is the full source size. */
    function BoxEnd(x: int, limit: int): (r: int)
    {
      Min(DstToSrc(x + 1), limit)
    }

    /** Extent of that range. Outside the window it may be anything. */
    function BoxSize(x: int, limit: int): (r: int)
    {
      BoxEnd(x, limit) - DstToSrc(x)
    }

    /** A pixel of the active window. */
    predicate Active(x: int)
    {
      first <= x < first + out
    }

    predicate Proper()
    {
      origin >= 0 && size >= 1 && out >= 0 && first >= 0
    }

    /** The pixel after the last one of the window still maps into the source, or there is none. */
    predicate EndsWell(total: int)
    {
      first + out == total || size < out || out == 0 || (out == 1 && size >= 2)
    }
  }

  /** Inside the window both maps are plain floor divisions. */
  lemma MapsAreFloors(ax: Axis, x: int)
    requires ax.Proper() && x >= ax.first
    ensures ax.DstToSrc(x) == ax.origin + (x - ax.first) * ax.SourceSpan() / ax.OutputSpan()
    ensures ax.DstToSrc(x) >= ax.origin
  {
    ShiftedFloor(x - ax.first, ax.SourceSpan(), ax.OutputSpan(), ax.origin);
  }

  lemma SrcToDstIsFloor(ax: Axis, s: int)
    requires ax.Proper() && s >= ax.origin
    ensures ax.SrcToDst(s) == ax.first + (s - ax.origin) * ax.OutputSpan() / ax.SourceSpan()
  {
    ShiftedFloor(s - ax.origin, ax.OutputSpan(), ax.SourceSpan(), ax.first);
  }

  /** Adding a multiple of the divisor before a division adds it after. */
  lemma ShiftedFloor(n: int, a: int, d: int, k: int)
    requires n >= 0 && a >= 0 && d >= 1 && k >= 0
    ensures Quot(n * a + k * d, d) == k + n * a / d
    ensures n * a / d >= 0
  {
    MulNonNeg(n, a);
    MulNonNeg(k, d);
    DivBounds(n * a, d);
    DivSign(n * a, d);
    assert d * (k + n * a / d) == k * d + d * (n * a / d);
    DivIs(n * a + k * d, d, k + n * a / d);
  }

  /** The two maps bracket every pixel of the window: the pixel lies between the images of its source
      sample and of the next one. */
  lemma MapsBracket(ax: Axis, x: int)
    requires ax.Proper() && x >= ax.first
    ensures ax.SrcToDst(ax.DstToSrc(x)) <= x <= ax.SrcToDst(ax.DstToSrc(x) + 1)
  {
    hide Quot;
    var i, o, n := ax.SourceSpan(), ax.OutputSpan(), x - ax.first;
    MapsAreFloors(ax, x);
    var q := n * i / o;
    SrcToDstIsFloor(ax, ax.origin + q);
    SrcToDstIsFloor(ax, ax.origin + q + 1);
    FloorsBracket(n, i, o);
  }

  lemma FloorsBracket(n: int, i: int, o: int)
    requires n >= 0 && i >= 1 && o >= 1
    ensures n * i / o * o / i <= n <= (n * i / o + 1) * o / i
  {
    var q := n * i / o;
    DivBounds(n * i, o);
    DivAtMost(q * o, i, n);
    assert (q + 1) * o == q * o + o;
    DivAtLeast((q + 1) * o, i, n);
  }

  /** The weight of the next sample is the number of eighths that a pixel has gone from the image of its own sample to
      that of the next one, rounded down: none on the image itself, and no fewer further on. */
  lemma WeightMeans(ax: Axis, x: int)
    requires ax.Proper() && x >= ax.first
    ensures var s := ax.DstToSrc(x);
            var lo, hi, k := ax.SrcToDst(s), ax.SrcToDst(s + 1), ax.Weight(x);
            && lo <= x <= hi
            && (lo < hi ==> k * (hi - lo) <= SCALE_EMULT * (x - lo) < (k + 1) * (hi - lo))
            && (x == lo ==> k == 0)
  {
    hide Quot, Axis.DstToSrc, Axis.SrcToDst;
    MapsBracket(ax, x);
    var s := ax.DstToSrc(x);
    var lo, hi := ax.SrcToDst(s), ax.SrcToDst(s + 1);
    if lo < hi {
      DivBounds(SCALE_EMULT * (x - lo), hi - lo);
      var k := SCALE_EMULT * (x - lo) / (hi - lo);
      assert (k + 1) * (hi - lo) == (hi - lo) * k + (hi - lo);
      DivIs(0, hi - lo, 0);
    }
  }

  lemma WeightGrows(ax: Axis, x: int, x': int)
    requires ax.Proper() && ax.first <= x <= x' && ax.DstToSrc(x) == ax.DstToSrc(x')
    ensures ax.Weight(x) <= ax.Weight(x')
  {
    hide Quot, Axis.DstToSrc, Axis.SrcToDst;
    MapsBracket(ax, x);
    var s := ax.DstToSrc(x);
    var lo, hi := ax.SrcToDst(s), ax.SrcToDst(s + 1);
    if lo < hi {
      DivMonotone(SCALE_EMULT * (x - lo), SCALE_EMULT * (x' - lo), hi - lo);
    }
  }

  /** Upscale weights never leave [0, SCALE_EMULT]. */
  lemma WeightRange(ax: Axis, x: int)
    requires ax.Proper() && x >= ax.first
    ensures 0 <= ax.Weight(x) <= SCALE_EMULT
  {
    MapsBracket(ax, x);
    var lo, hi := ax.SrcToDst(ax.DstToSrc(x)), ax.SrcToDst(ax.DstToSrc(x) + 1);
    if hi > lo {
      DivSign(8 * (x - lo), hi - lo);
      DivAtMost(8 * (x - lo), hi - lo, 8);
    }
  }

  /** The source index of every window pixel stays in the source range exactly when the source is two
      samples wide at least, or the window is a single pixel. */
  lemma SourceIndexInside(ax: Axis)
    requires ax.Proper() && ax.out >= 1
    ensures (forall x: int {:trigger ax.DstToSrc(x)} | ax.Active(x) ::
            ax.origin <= ax.DstToSrc(x) < ax.origin + ax.size)
            <==> (ax.size >= 2 || ax.out == 1)
  {
    hide Quot;
    forall x: int | ax.Active(x)
      ensures ax.origin <= ax.DstToSrc(x)
      ensures ax.size >= 2 || ax.out == 1 ==> ax.DstToSrc(x) < ax.origin + ax.size
    {
      MapsAreFloors(ax, x);
      if ax.size >= 2 || ax.out == 1 {
        LastIndex(ax, x - ax.first);
      }
    }
    if ax.size == 1 && ax.out >= 2 {
      var x := ax.first + ax.out - 1;
      assert ax.Active(x);
      MapsAreFloors(ax, x);
      DivIs(ax.out - 1, ax.out - 1, 1);
    }
  }

  lemma LastIndex(ax: Axis, n: int)
    requires ax.Proper() && 0 <= n < ax.out && (ax.size >= 2 || ax.out == 1)
    ensures n * ax.SourceSpan() / ax.OutputSpan() < ax.size
  {
    var i, o := ax.SourceSpan(), ax.OutputSpan();
    if ax.out == 1 {
      assert n * i / o == 0;
    } else {
      MulLe(i, n, o);
      DivAtMost(n * i, o, i);
    }
  }

  /** The index the blend pairs with it also stays inside, exactly when the window reaches the end of the output,
      or the axis is really enlarged, or a single pixel is shown. */
  lemma NextSourceInside(ax: Axis, total: int)
    requires ax.Proper() && ax.out >= 1 && (ax.size >= 2 || ax.out == 1) && ax.first + ax.out <= total
    ensures (forall x: int {:trigger ax.NextSource(x, total)} | ax.Active(x) ::
               ax.origin <= ax.DstToSrc(x) <= ax.NextSource(x, total) < ax.origin + ax.size)
            <==> ax.EndsWell(total)
  {
    hide Quot, Axis.DstToSrc;
    if ax.EndsWell(total) {
      forall x: int | ax.Active(x)
        ensures ax.origin <= ax.DstToSrc(x) <= ax.NextSource(x, total) < ax.origin + ax.size
      {
        NextSourceAt(ax, x, total);
      }
    } else {
      var x := ax.first + ax.out - 1;
      assert ax.Active(x) && ax.NextSource(x, total) == ax.DstToSrc(x + 1);
      NextSourceEscapes(ax, x);
    }
  }

  lemma NextSourceAt(ax: Axis, x: int, total: int)
    requires ax.Proper() && ax.Active(x) && (ax.size >= 2 || ax.out == 1)
    requires ax.first + ax.out <= total && ax.EndsWell(total)
    ensures ax.origin <= ax.DstToSrc(x) <= ax.NextSource(x, total) < ax.origin + ax.size
  {
    hide Quot;
    var x' := Min(x + 1, total - 1);
    var i, o, n, n' := ax.SourceSpan(), ax.OutputSpan(), x - ax.first, x' - ax.first;
    MapsAreFloors(ax, x);
    MapsAreFloors(ax, x');
    MulLe(i, n, n');
    DivMonotone(n * i, n' * i, o);
    if n' < ax.out {
      LastIndex(ax, n');
    } else if ax.out >= 2 {
      PastLastIndex(ax.size, n', i, o);
    } else {
      DivIs(n' * i, 1, i);
    }
  }

  lemma NextSourceEscapes(ax: Axis, x: int)
    requires ax.Proper() && x == ax.first + ax.out - 1 && 1 <= ax.out <= ax.size && (ax.out == 1 ==> ax.size == 1)
    ensures ax.DstToSrc(x + 1) >= ax.origin + ax.size
  {
    hide Quot;
    MapsAreFloors(ax, x + 1);
    LastBoxEnd(ax.size, ax.out, ax.SourceSpan(), ax.OutputSpan());
  }

  lemma PastLastIndex(size: int, out: int, i: int, o: int)
    requires 2 <= size < out && i == size - 1 && o == out - 1
    ensures out * i / o < size
  {
    assert out * i == o * i + i;
    assert o * (size - 1) + o == o * i + o;
    DivAtMost(out * i, o, size - 1);
  }

  // ----- Downscaling boxes -----

  /** Shrinking never gives an empty box, and every box ends inside the source. */
  lemma BoxNotEmpty(ax: Axis, x: int, limit: int)
    requires ax.Proper() && ax.Active(x) && ax.out <= ax.size && ax.origin + ax.size <= limit
    ensures ax.origin <= ax.DstToSrc(x) < ax.BoxEnd(x, limit) <= limit
  {
    hide Quot;
    var i, o, n := ax.SourceSpan(), ax.OutputSpan(), x - ax.first;
    MapsAreFloors(ax, x);
    MapsAreFloors(ax, x + 1);
    LastIndex(ax, n);
    assert x + 1 - ax.first == n + 1;
    NextBoxStart(n, i, o);
  }

  /** Nor are those before the window, on an axis that starts at the first sample. */
  lemma BoxBeforeWindow(ax: Axis, x: int, limit: int)
    requires ax.Proper() && ax.origin == 0 && ax.out <= ax.size <= limit && x < ax.first
    ensures ax.BoxSize(x, limit) >= 1
  {
    hide Quot, Axis.DstToSrc;
    var i, o, n := ax.SourceSpan(), ax.OutputSpan(), ax.first - x;
    BeforeWindow(ax, n);
    BeforeWindow(ax, n - 1);
    MulNonNeg(n - 1, i);
    DivSign((n - 1) * i, o);
    NextBoxStart(n - 1, i, o);
  }

  lemma BeforeWindow(ax: Axis, n: int)
    requires ax.origin == 0 && n >= 0
    ensures ax.DstToSrc(ax.first - n) == -(n * ax.SourceSpan() / ax.OutputSpan())
  {
    MulNonNeg(n, ax.SourceSpan());
    assert (ax.first - n - ax.first) * ax.SourceSpan() + ax.origin * ax.OutputSpan() == -(n * ax.SourceSpan());
  }

  lemma NextBoxStart(n: int, i: int, o: int)
    requires n >= 0 && i >= o >= 1
    ensures n * i / o < (n + 1) * i / o
  {
    var q := n * i / o;
    DivBounds(n * i, o);
    assert (n + 1) * i == n * i + i;
    assert o * (q + 1) == o * q + o;
    DivAtLeast((n + 1) * i, o, q + 1);
  }

  /** Boxes are cut at the end of the frame, not of the source rectangle: they all end inside the rectangle exactly when
      the last one does, or when the rectangle reaches the end of the frame. */
  lemma BoxesInRectangle(ax: Axis, limit: int)
    requires ax.Proper() && 1 <= ax.out <= ax.size && ax.origin + ax.size <= limit
    ensures (forall x: int {:trigger ax.BoxEnd(x, limit)} | ax.Active(x) :: ax.BoxEnd(x, limit) <= ax.origin + ax.size)
            <==> ax.out * ax.SourceSpan() / ax.OutputSpan() <= ax.size || ax.origin + ax.size == limit
  {
    hide Quot, Axis.SourceSpan, Axis.OutputSpan;
    var last := ax.first + ax.out - 1;
    assert ax.Active(last) && last + 1 - ax.first == ax.out;
    MapsAreFloors(ax, last + 1);
    assert ax.BoxEnd(last, limit) == Min(ax.origin + ax.out * ax.SourceSpan() / ax.OutputSpan(), limit);
    forall x: int | ax.Active(x) && x != last
      ensures ax.BoxEnd(x, limit) <= ax.origin + ax.size
    {
      MapsAreFloors(ax, x + 1);
      LastIndex(ax, x + 1 - ax.first);
    }
  }

  /** With the whole source mapped, the boxes tile it: the first starts at 0, each starts where its predecessor
      ends, and the last ends at the end of the source. */
  lemma BoxesTile(ax: Axis, n: int)
    requires ax.origin == 0 && ax.first >= 0 && 1 <= ax.out <= ax.size && (ax.out == 1 ==> ax.size == 1)
    requires 0 <= n < ax.out
    ensures ax.DstToSrc(ax.first) == 0
    ensures n + 1 < ax.out ==> ax.BoxEnd(ax.first + n, ax.size) == ax.DstToSrc(ax.first + n + 1)
    ensures n + 1 == ax.out ==> ax.BoxEnd(ax.first + n, ax.size) == ax.size
  {
    hide Quot;
    MapsAreFloors(ax, ax.first);
    MapsAreFloors(ax, ax.first + n + 1);
    DivIs(0, ax.OutputSpan(), 0);
    assert ax.first + n + 1 - ax.first == n + 1;
    if n + 1 < ax.out {
      LastIndex(ax, n + 1);
    } else {
      LastBoxEnd(ax.size, ax.out, ax.SourceSpan(), ax.OutputSpan());
    }
  }

  lemma LastBoxEnd(size: int, out: int, i: int, o: int)
    requires 1 <= out <= size && (out == 1 ==> size == 1) && i == Max(1, size - 1) && o == Max(1, out - 1)
    ensures out * i / o >= size
  {
    if out >= 2 {
      assert out * i == o * i + i;
      assert o * size == o * i + o;
      DivAtLeast(out * i, o, size);
    }
  }

  /** A single output pixel averages all source samples of its axis but the last, unless there is just one. */
  lemma SinglePixel(ax: Axis)
    requires ax.origin == 0 && ax.first >= 0 && ax.out == 1 && ax.size >= 1
    ensures ax.BoxEnd(ax.first, ax.size) == Max(1, ax.size - 1)
  {
    hide Quot;
    MapsAreFloors(ax, ax.first + 1);
    DivIs(ax.SourceSpan(), 1, ax.SourceSpan());
  }

  // ----- Boxes of other lines -----

  /** Boxes of an axis that maps `size` samples from 0 on: `q(n) == n * span / steps`. Before the window the map rounds
      toward zero too, so it is odd. */
  lemma MapAround(ax: Axis, n: int)
    requires ax.origin == 0 && ax.size >= 1 && ax.out >= 0 && ax.first >= 0 && n >= 0
    ensures ax.DstToSrc(ax.first + n) == n * ax.SourceSpan() / ax.OutputSpan()
    ensures ax.DstToSrc(ax.first - n) == -(n * ax.SourceSpan() / ax.OutputSpan())
  {
    hide Quot;
    MapsAreFloors(ax, ax.first + n);
    MulNonNeg(n, ax.SourceSpan());
    assert (ax.first - n - ax.first) * ax.SourceSpan() == -(n * ax.SourceSpan());
    assert (ax.first + n - ax.first) * ax.SourceSpan() == n * ax.SourceSpan();
  }

  /** Source samples between the first one and that of pixel `n` of the window. */
  function Reach(ax: Axis, n: int): (r: int)
    requires ax.out >= 2
  {
    n * (ax.size - 1) / (ax.out - 1)
  }

  /** Sizes of the boxes inside and before the window. */
  lemma BoxSizes(ax: Axis, n: int)
    requires ax.origin == 0 && 2 <= ax.out < ax.size && ax.first >= 0 && n >= 0
    ensures n < ax.out - 1 ==> ax.BoxSize(ax.first + n, ax.size) == Reach(ax, n + 1) - Reach(ax, n)
    ensures n == ax.out - 1 ==> ax.BoxSize(ax.first + n, ax.size) == 1
    ensures n >= 1 ==> ax.BoxSize(ax.first - n, ax.size) == Reach(ax, n) - Reach(ax, n - 1)
  {
    hide Quot, Axis.DstToSrc;
    var i, o := ax.size - 1, ax.out - 1;
    MapAround(ax, n);
    MapAround(ax, n + 1);
    assert ax.first + (n + 1) == ax.first + n + 1;
    if n < o {
      MulLe(i, n + 1, o);
      DivAtMost((n + 1) * i, o, i);
    } else if n == o {
      DivIs(n * i, o, i);
      LastBoxEnd(ax.size, ax.out, i, o);
    }
    if n >= 1 {
      MapAround(ax, n - 1);
      assert ax.first - (n - 1) == ax.first - n + 1;
      MulNonNeg(n - 1, i);
      DivSign((n - 1) * i, o);
    }
  }

  /** An output line `first` lines up shows a box of the same size, for every line of the window. */
  predicate ShiftFits(ax: Axis, limit: int)
  {
    forall n: int {:trigger ax.BoxSize(n, limit)} :: 0 <= n < ax.out ==>
      ax.BoxSize(ax.first + n, limit) == ax.BoxSize(n, limit)
  }

  /** With a border of equal width at both ends and room for both in the source, box sizes never repeat at that
      distance, unless there is no border or just one box. */
  lemma ShiftedBoxes(ax: Axis)
    requires ax.origin == 0 && ax.out >= 0 && ax.first >= 0 && ax.out + 2 * ax.first <= ax.size && ax.size >= 1
    ensures ShiftFits(ax, ax.size) <==> ax.first == 0 || ax.out <= 1
  {
    hide Axis.BoxSize;
    if ax.first >= 1 && ax.out >= 2 {
      if ShiftFits(ax, ax.size) {
        if ax.first >= ax.out {
          ShiftedFar(ax);
        } else {
          ShiftedNear(ax);
        }
      }
    } else if ax.out == 1 {
      OneBox(ax);
    }
  }

  lemma OneBox(ax: Axis)
    requires ax.origin == 0 && ax.out == 1 && ax.first >= 0 && ax.size >= 1
    ensures ax.BoxSize(ax.first, ax.size) == ax.BoxSize(0, ax.size)
  {
    hide Quot, Axis.DstToSrc;
    var i := ax.SourceSpan();
    MapAround(ax, 0);
    MapAround(ax, 1);
    MapAround(ax, ax.first);
    if ax.first >= 1 {
      MapAround(ax, ax.first - 1);
      assert (ax.first - 1) * i == ax.first * i - i;
      MulNonNeg(ax.first - 1, i);
    }
  }

  /** The last box of the window holds one sample, the one it is compared with three at least. */
  lemma ShiftedFar(ax: Axis)
    requires ax.origin == 0 && 2 <= ax.out <= ax.first && ax.out + 2 * ax.first <= ax.size
    ensures !ShiftFits(ax, ax.size)
  {
    hide Axis.BoxSize, Reach;
    var o, m := ax.out - 1, ax.first - (ax.out - 1);
    BoxSizes(ax, o);
    BoxSizes(ax, m);
    assert ax.first - m == o;
    ThreeSteps(ax, m);
    assert ax.BoxSize(ax.first + o, ax.size) != ax.BoxSize(o, ax.size);
  }

  lemma ThreeSteps(ax: Axis, m: int)
    requires 2 <= ax.out && 3 * (ax.out - 1) <= ax.size - 1
    ensures Reach(ax, m) >= Reach(ax, m - 1) + 3
  {
    var i, o := ax.size - 1, ax.out - 1;
    assert m * i == (m - 1) * i + i;
    DivBounds((m - 1) * i, o);
    assert o * ((m - 1) * i / o + 3) == o * ((m - 1) * i / o) + 3 * o;
    DivAtLeast(m * i, o, (m - 1) * i / o + 3);
  }

  lemma ShiftedNear(ax: Axis)
    requires ax.origin == 0 && 2 <= ax.out && 1 <= ax.first < ax.out && ax.out + 2 * ax.first <= ax.size
    ensures !ShiftFits(ax, ax.size)
  {
    hide Axis.BoxSize, ShiftFits, Reach;
    if ShiftFits(ax, ax.size) {
      ShiftedSums(ax, ax.out - 1);
      FirstAndLast(ax);
      ReachEnds(ax);
      WholeSteps(ax);
    }
  }

  lemma ReachEnds(ax: Axis)
    requires ax.out >= 2
    ensures Reach(ax, 0) == 0 && Reach(ax, ax.out - 1) == ax.size - 1
  {
    var i, o := ax.size - 1, ax.out - 1;
    assert o * i == i * o && 0 * i == 0;
    DivIs(0, o, 0);
    DivIs(o * i, o, i);
  }

  /** Box sizes that repeat add up: the map is additive at that distance. */
  lemma {:induction false} ShiftedSums(ax: Axis, n: int)
    requires ax.origin == 0 && 2 <= ax.out && 1 <= ax.first < ax.out < ax.size && ShiftFits(ax, ax.size)
    requires ax.first <= n <= ax.out - 1
    ensures Reach(ax, n) == Reach(ax, n - ax.first) + Reach(ax, ax.first)
    decreases n
  {
    hide Axis.BoxSize, Reach;
    var a := ax.first;
    if n == a {
      ReachEnds(ax);
    } else {
      ShiftedSums(ax, n - 1);
      BoxSizes(ax, n - 1);
      BoxSizes(ax, n - 1 - a);
      assert ax.BoxSize(a + (n - 1), ax.size) == ax.BoxSize(n - 1, ax.size);
      assert a + (n - 1 - a) == n - 1 && n - 1 - a + 1 == n - a;
    }
  }

  /** The first and the last box of the window, compared. */
  lemma FirstAndLast(ax: Axis)
    requires ax.origin == 0 && 2 <= ax.out && 1 <= ax.first < ax.out < ax.size && ShiftFits(ax, ax.size)
    ensures Reach(ax, 1) == Reach(ax, ax.first) - Reach(ax, ax.first - 1)
    ensures Reach(ax, ax.out - ax.first) - Reach(ax, ax.out - 1 - ax.first) == 1
  {
    hide Axis.BoxSize, Reach;
    var o, a := ax.out - 1, ax.first;
    BoxSizes(ax, 0);
    BoxSizes(ax, a);
    BoxSizes(ax, o);
    BoxSizes(ax, o - a);
    ReachEnds(ax);
    assert ax.BoxSize(a + 0, ax.size) == ax.BoxSize(0, ax.size) && a - a == 0;
    assert ax.BoxSize(a + o, ax.size) == ax.BoxSize(o, ax.size) && a + (o - a) == o && o - a + 1 == ax.out - a;
  }

  /** Two parts whose floors add up to the whole are whole. Equal steps on both sides of such a point make every step
      whole, and a last step of one sample makes them all one: the axis is not reduced. */
  lemma WholeSteps(ax: Axis)
    requires 2 <= ax.out && 1 <= ax.first < ax.out && ax.size >= 2
    requires ax.size - 1 == Reach(ax, ax.out - 1 - ax.first) + Reach(ax, ax.first)
    requires Reach(ax, 1) == Reach(ax, ax.first) - Reach(ax, ax.first - 1)
    requires Reach(ax, ax.out - ax.first) - Reach(ax, ax.out - 1 - ax.first) == 1
    ensures ax.size == ax.out
  {
    var o, a := ax.out - 1, ax.first;
    assert ax.out - a == o - a + 1 && ax.out - 1 - a == o - a;
    OneSteps(ax.size - 1, o, a);
  }

  lemma OneSteps(i: int, o: int, a: int)
    requires o >= 1 && i == (o - a) * i / o + a * i / o
    requires 1 * i / o == a * i / o - (a - 1) * i / o
    requires (o - a + 1) * i / o - (o - a) * i / o == 1
    ensures i == o
  {
    var w := i / o;
    WholePart(i, o, a);
    WholeStep(i, o, a);
    WholeMultiple(i, o, w, o - a);
    WholeMultiple(i, o, w, o - a + 1);
    assert (o - a + 1) * w == (o - a) * w + w;
  }

  lemma WholePart(i: int, o: int, a: int)
    requires o >= 1 && i == (o - a) * i / o + a * i / o
    ensures o * (a * i / o) == a * i
  {
    DivBounds(a * i, o);
    DivBounds((o - a) * i, o);
    assert (o - a) * i + a * i == o * i;
    var s, s' := a * i / o, (o - a) * i / o;
    assert o * (s + s') == o * s + o * s';
  }

  lemma WholeStep(i: int, o: int, a: int)
    requires o >= 1 && o * (a * i / o) == a * i && 1 * i / o == a * i / o - (a - 1) * i / o
    ensures i == o * (i / o)
  {
    var s, w := a * i / o, i / o;
    DivBounds((a - 1) * i, o);
    DivBounds(i, o);
    assert (a - 1) * i == a * i - i;
    assert o * (s - w) == o * s - o * w;
  }

  lemma WholeMultiple(i: int, o: int, w: int, n: int)
    requires o >= 1 && i == o * w
    ensures n * i / o == n * w
  {
    assert n * i == o * (n * w);
    DivIs(n * i, o, n * w);
  }
}
