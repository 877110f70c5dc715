/** Boxes of the linear downscaler: which source samples each output pixel averages, the area it divides by, and when
    that area is its own (VCamUtils/src/videoconverter.cpp). */
module Boxes {
  import opened Arithmetic
  import opened FrameLayout
  import opened Samples
  import opened Scaling
  import opened IntegralImages

  /** Conversion request: source and output size, rectangle and aspect mode. */
  datatype ScalingKey = ScalingKey(iwidth: int, iheight: int, outWidth: int, outHeight: int, inputRect: Rect,
                                   mode: AspectRatioMode) {
    /** A request that is not divided by zero. */
    predicate Defined()
    {
      && iwidth >= 1 && iheight >= 1
      && Divides(iwidth, iheight, outWidth, outHeight, inputRect, mode)
    }

    /** The input rectangle, if there is one, meets the frame. */
    predicate Valid(): (b: bool)
      ensures b ==> Defined()
    {
      iwidth >= 1 && iheight >= 1 && !SourceRect(iwidth, iheight, inputRect).IsEmpty()
    }

    function Geometry(): (g: Geometry)
      requires Defined()
    {
      GeometryOf(iwidth, iheight, outWidth, outHeight, inputRect, mode)
    }
  }

  function ColumnAxis(g: Geometry): (ax: Axis)
  {
    Axis(g.irect.x, g.irect.width, g.owidth, g.xmin)
  }

  function LineAxis(g: Geometry): (ax: Axis)
  {
    Axis(g.irect.y, g.irect.height, g.oheight, g.ymin)
  }

  // ----- The flat area table -----

  /** Position of line `y`, column `x` in the flat area table, whose lines are as long as the source. */
  function AreaIndex(iwidth: int, x: int, y: int): (r: int)
  {
    y * iwidth + x
  }

  /** Lines follow each other, as far as they are no longer than the source. */
  lemma AreaIndexOrder(iwidth: int, x: int, y: int, x': int, y': int)
    requires iwidth >= 1 && x < iwidth && y < y' && 0 <= x'
    ensures AreaIndex(iwidth, x, y) < AreaIndex(iwidth, x', y')
  {
    MulLe(iwidth, y + 1, y');
  }

  lemma AreaIndexMonotone(iwidth: int, x: int, y: int, x': int, y': int)
    requires iwidth >= 1 && x <= x' && y <= y'
    ensures AreaIndex(iwidth, x, y) <= AreaIndex(iwidth, x', y')
  {
    MulLe(iwidth, y, y');
  }

  lemma AreaLines(iwidth: int, y: int)
    ensures AreaIndex(iwidth, 0, 0) == 0
    ensures AreaIndex(iwidth, 0, y + 1) == AreaIndex(iwidth, 0, y) + iwidth
    ensures forall x :: AreaIndex(iwidth, x, y) == AreaIndex(iwidth, 0, y) + x
  {
  }

  /** Room for `height` lines of `width` entries in a table of `iheight` lines. Lines are stored one source width apart,
      whatever their length. */
  predicate Room(iwidth: int, iheight: int, width: int, height: int)
  {
    width >= 1 && height >= 1 ==> AreaIndex(iwidth, width, height - 1) <= AreaIndex(iwidth, 0, iheight)
  }

  lemma EntryInside(iwidth: int, iheight: int, width: int, height: int, x: int, y: int)
    requires iwidth >= 1 && Room(iwidth, iheight, width, height) && 0 <= x < width && 0 <= y < height
    ensures 0 <= AreaIndex(iwidth, x, y) < AreaIndex(iwidth, 0, iheight)
  {
    hide AreaIndex;
    AreaLines(iwidth, 0);
    AreaIndexMonotone(iwidth, 0, 0, x, y);
    AreaLines(iwidth, y);
    AreaIndexMonotone(iwidth, x + 1, y, width, height - 1);
  }

  /** Writing entry (x, y) leaves the others of its line, and all of earlier lines inside the source width. */
  lemma EntriesBefore(iwidth: int, x: int, y: int)
    requires iwidth >= 1 && x >= 0
    ensures forall i, j {:trigger AreaIndex(iwidth, i, j)} :: i < iwidth && j < y ==>
              AreaIndex(iwidth, i, j) != AreaIndex(iwidth, x, y)
    ensures forall i {:trigger AreaIndex(iwidth, i, y)} :: i != x ==> AreaIndex(iwidth, i, y) != AreaIndex(iwidth, x, y)
  {
    forall i, j | i < iwidth && j < y
      ensures AreaIndex(iwidth, i, j) != AreaIndex(iwidth, x, y)
    {
      AreaIndexOrder(iwidth, i, j, x, y);
    }
  }

  /** The area table has room for the output. It has one line of one entry per source sample. */
  predicate AreasFit(key: ScalingKey)
    requires key.Defined()
  {
    var g := key.Geometry();
    g.resize.ResizeDown? ==> Room(key.iwidth, key.iheight, g.width, g.height)
  }

  // ----- Downscaling geometry -----

  predicate Shrinking(key: ScalingKey)
  {
    key.Valid() && key.Geometry().resize.ResizeDown?
  }

  /** A downscaling output is no larger than the source, except in Fit mode. */
  lemma DownSizes(key: ScalingKey)
    requires Shrinking(key) && !key.mode.Fit?
    ensures key.Geometry().width <= key.iwidth && key.Geometry().height <= key.iheight
  {
    hide Quot;
    ActiveWindow(key.iwidth, key.iheight, key.outWidth, key.outHeight, key.inputRect, key.mode);
    SourceRectInside(key.iwidth, key.iheight, key.inputRect);
  }

  /** Without a frame around the picture there is always room. */
  lemma AlwaysRoom(key: ScalingKey)
    requires key.Valid() && !key.mode.Fit?
    ensures AreasFit(key)
  {
    hide GeometryOf, AreaIndex;
    var g := key.Geometry();
    if g.resize.ResizeDown? {
      DownSizes(key);
      AreaIndexMonotone(key.iwidth, g.width, g.height - 1, key.iwidth, key.iheight - 1);
      AreaLines(key.iwidth, key.iheight - 1);
    }
  }

  lemma DownWindow(key: ScalingKey)
    requires key.Valid()
    ensures var g := key.Geometry();
            && 0 <= g.xmin <= g.xmin + g.owidth == g.xmax <= g.width
            && 0 <= g.ymin <= g.ymin + g.oheight == g.ymax <= g.height
  {
    hide Quot;
    ActiveWindow(key.iwidth, key.iheight, key.outWidth, key.outHeight, key.inputRect, key.mode);
  }

  /** In every mode, a downscaling axis maps at least as many source samples as it shows, all inside the source. */
  lemma DownAxes(key: ScalingKey)
    requires Shrinking(key)
    ensures var g := key.Geometry();
            && ColumnAxis(g).Proper() && g.owidth <= g.irect.width && g.irect.x + g.irect.width <= key.iwidth
            && LineAxis(g).Proper() && g.oheight <= g.irect.height && g.irect.y + g.irect.height <= key.iheight
  {
    hide Quot, FittedSize;
    ActiveWindow(key.iwidth, key.iheight, key.outWidth, key.outHeight, key.inputRect, key.mode);
    SourceRectInside(key.iwidth, key.iheight, key.inputRect);
    var irect := SourceRect(key.iwidth, key.iheight, key.inputRect);
    var g := key.Geometry();
    if key.mode.Expanding? {
      DownCrop(irect, g.owidth, g.oheight);
    }
  }

  lemma DownCrop(irect: Rect, owidth: int, oheight: int)
    requires !irect.IsEmpty() && irect.x >= 0 && irect.y >= 0
    requires 1 <= owidth <= irect.width && 1 <= oheight <= irect.height
    ensures var c := Crop(irect, owidth, oheight);
            && 0 <= c.x && owidth <= c.width && c.x + c.width <= irect.x + irect.width
            && 0 <= c.y && oheight <= c.height && c.y + c.height <= irect.y + irect.height
  {
    MulLe(owidth, oheight, irect.height);
    MulLe(oheight, owidth, irect.width);
    DivAtLeast(irect.height * owidth, oheight, owidth);
    DivAtLeast(irect.width * oheight, owidth, oheight);
  }

  /** The columns and lines averaged for output pixel (x, y). */
  function BoxOf(key: ScalingKey, x: int, y: int): (b: (int, int, int, int))
    requires key.Valid()
  {
    var cx, cy := ColumnAxis(key.Geometry()), LineAxis(key.Geometry());
    (cx.DstToSrc(x), cx.BoxEnd(x, key.iwidth), cy.DstToSrc(y), cy.BoxEnd(y, key.iheight))
  }

  /** A pixel of the window of a downscaled picture. */
  predicate Shown(key: ScalingKey, x: int, y: int)
  {
    Shrinking(key) && ColumnAxis(key.Geometry()).Active(x) && LineAxis(key.Geometry()).Active(y)
  }

  lemma ColumnBox(key: ScalingKey, x: int)
    requires Shrinking(key) && ColumnAxis(key.Geometry()).Active(x)
    ensures var ax := ColumnAxis(key.Geometry());
            0 <= ax.DstToSrc(x) < ax.BoxEnd(x, key.iwidth) <= key.iwidth
  {
    hide GeometryOf, Axis.DstToSrc, Axis.BoxEnd;
    DownAxes(key);
    BoxNotEmpty(ColumnAxis(key.Geometry()), x, key.iwidth);
  }

  lemma LineBox(key: ScalingKey, y: int)
    requires Shrinking(key) && LineAxis(key.Geometry()).Active(y)
    ensures var ax := LineAxis(key.Geometry());
            0 <= ax.DstToSrc(y) < ax.BoxEnd(y, key.iheight) <= key.iheight
  {
    hide GeometryOf, Axis.DstToSrc, Axis.BoxEnd;
    DownAxes(key);
    BoxNotEmpty(LineAxis(key.Geometry()), y, key.iheight);
  }

  // ----- The area a pixel meets -----

  /** The area of the box of pixel (x, y), in the window or not. */
  function BoxArea(key: ScalingKey, x: int, y: int): (k: int)
    requires key.Valid()
  {
    var cx, cy := ColumnAxis(key.Geometry()), LineAxis(key.Geometry());
    cx.BoxSize(x, key.iwidth) * cy.BoxSize(y, key.iheight)
  }

  /** The pixel whose area is in the table where the loops look for that of window pixel (x, y). The loops start at the
      first table line, not at that of the window, and entries behind the source width belong to later lines. */
  function MetPixel(key: ScalingKey, x: int, y: int): (p: (int, int))
    requires key.Valid()
  {
    var g := key.Geometry();
    var j := Min(y - g.ymin + x / key.iwidth, g.height - 1);
    (x - (j - (y - g.ymin)) * key.iwidth, j)
  }

  function MetArea(key: ScalingKey, x: int, y: int): (k: int)
    requires key.Valid()
  {
    BoxArea(key, MetPixel(key, x, y).0, MetPixel(key, x, y).1)
  }

  /** That pixel has the entry looked at, and is the last one that wrote it. */
  lemma MetInside(key: ScalingKey, x: int, y: int)
    requires Shown(key, x, y)
    ensures var g := key.Geometry();
            var (i, j) := MetPixel(key, x, y);
            && 0 <= i < g.width && 0 <= j < g.height && (i < key.iwidth || j + 1 == g.height)
            && AreaIndex(key.iwidth, i, j) == AreaIndex(key.iwidth, x, y - g.ymin)
  {
    hide GeometryOf;
    DownWindow(key);
    var g, j := key.Geometry(), MetPixel(key, x, y).1;
    EntryMet(key.iwidth, x, y - g.ymin, j, g.height - 1);
  }

  lemma EntryMet(iwidth: int, x: int, n: int, j: int, last: int)
    requires iwidth >= 1 && x >= 0 && 0 <= n <= last && j == Min(n + x / iwidth, last)
    ensures var i := x - (j - n) * iwidth;
            && 0 <= i <= x && n <= j && (i < iwidth || j == last)
            && AreaIndex(iwidth, i, j) == AreaIndex(iwidth, x, n)
  {
    var d := j - n;
    DivBounds(x, iwidth);
    DivSign(x, iwidth);
    MulLe(iwidth, 0, d);
    MulLe(iwidth, d, x / iwidth);
    assert j * iwidth == n * iwidth + d * iwidth;
  }

  /** Every window pixel meets its own area. */
  predicate AreasRight(key: ScalingKey)
    requires key.Valid()
  {
    var g := key.Geometry();
    forall x, y {:trigger MetArea(key, x, y)} | g.xmin <= x < g.xmin + g.owidth && g.ymin <= y < g.ymin + g.oheight ::
      MetArea(key, x, y) == BoxArea(key, x, y)
  }

  /** A request the linear downscaler answers with box averages; by `ReadsMeans` there are no others. */
  predicate Downscaling(key: ScalingKey)
  {
    Shrinking(key) && AreasFit(key) && AreasRight(key)
  }

  /** A request the linear downscaler answers at all, dividing by areas of at least one. */
  ghost predicate Dividing(key: ScalingKey)
  {
    && Shrinking(key) && AreasFit(key)
    && forall x, y {:trigger MetArea(key, x, y)} :: Shown(key, x, y) ==> MetArea(key, x, y) >= 1
  }

  lemma DownscalingDivides(key: ScalingKey)
    requires Downscaling(key)
    ensures Dividing(key)
  {
    hide GeometryOf, MetArea, AreasFit, BoxArea;
    forall x, y | Shown(key, x, y)
      ensures MetArea(key, x, y) >= 1
    {
      OwnArea(key, x, y);
    }
  }

  lemma OwnArea(key: ScalingKey, x: int, y: int)
    requires Shown(key, x, y)
    ensures BoxArea(key, x, y) >= 1
    ensures var (x0, x1, y0, y1) := BoxOf(key, x, y);
            0 <= x0 < x1 <= key.iwidth && 0 <= y0 < y1 <= key.iheight && BoxArea(key, x, y) == (x1 - x0) * (y1 - y0)
  {
    hide GeometryOf, Axis.DstToSrc, Axis.BoxEnd;
    ColumnBox(key, x);
    LineBox(key, y);
    var (x0, x1, y0, y1) := BoxOf(key, x, y);
    MulLe(x1 - x0, 1, y1 - y0);
  }

  // ----- Values -----

  /** Sum of the samples in the box of output pixel (x, y). */
  function BoxTotal(key: ScalingKey, img: Image, x: int, y: int): (s: int)
    requires Shown(key, x, y) && Shaped(img, key.iwidth, key.iheight)
  {
    ColumnBox(key, x);
    LineBox(key, y);
    var (x0, x1, y0, y1) := BoxOf(key, x, y);
    BoxSum(img, key.iwidth, x0, x1, y0, y1)
  }

  /** The reference: the average of the box, over the decoded image. */
  function MeanAt(key: ScalingKey, img: Image, x: int, y: int): (m: int)
    requires Shown(key, x, y) && Shaped(img, key.iwidth, key.iheight)
  {
    ColumnBox(key, x);
    LineBox(key, y);
    var (x0, x1, y0, y1) := BoxOf(key, x, y);
    BoxMean(img, key.iwidth, x0, x1, y0, y1)
  }

  /** What the linear downscaler computes: the sum of the box over the area met. */
  function ReadAt(key: ScalingKey, img: Image, x: int, y: int): (v: int)
    requires Shown(key, x, y) && MetArea(key, x, y) >= 1 && Shaped(img, key.iwidth, key.iheight)
  {
    BoxTotal(key, img, x, y) / MetArea(key, x, y)
  }

  /** `line` holds the box averages of output line `y`. */
  predicate MeanLine(key: ScalingKey, img: Image, line: seq<int>, y: int)
    requires Shrinking(key) && LineAxis(key.Geometry()).Active(y) && SampleGrid(img, key.iwidth, key.iheight)
  {
    var g := key.Geometry();
    && |line| == g.owidth
    && forall i :: 0 <= i < g.owidth ==> line[i] == MeanAt(key, img, g.xmin + i, y)
  }

  /** `line` holds what the downscaler computes for output line `y`. */
  ghost predicate ReadLine(key: ScalingKey, img: Image, line: seq<int>, y: int)
    requires Dividing(key) && LineAxis(key.Geometry()).Active(y) && SampleGrid(img, key.iwidth, key.iheight)
  {
    var g := key.Geometry();
    && |line| == g.owidth
    && forall i :: 0 <= i < g.owidth ==> line[i] == ReadAt(key, img, g.xmin + i, y)
  }

  lemma ReadIsMean(key: ScalingKey, img: Image, x: int, y: int)
    requires Shown(key, x, y) && MetArea(key, x, y) == BoxArea(key, x, y) && Shaped(img, key.iwidth, key.iheight)
    ensures MetArea(key, x, y) >= 1 && ReadAt(key, img, x, y) == MeanAt(key, img, x, y)
  {
    hide GeometryOf, BoxSum, Axis.DstToSrc, Axis.BoxEnd, MetArea, BoxArea;
    OwnArea(key, x, y);
  }

  lemma ReadLineIsMean(key: ScalingKey, img: Image, line: seq<int>, y: int)
    requires Downscaling(key) && Dividing(key) && LineAxis(key.Geometry()).Active(y)
    requires SampleGrid(img, key.iwidth, key.iheight) && ReadLine(key, img, line, y)
    ensures MeanLine(key, img, line, y)
  {
    hide GeometryOf, ReadAt, MeanAt, MetArea, BoxArea, AreasFit;
    var g := key.Geometry();
    forall i | 0 <= i < g.owidth
      ensures line[i] == MeanAt(key, img, g.xmin + i, y)
    {
      assert MetArea(key, g.xmin + i, y) == BoxArea(key, g.xmin + i, y);
      ReadIsMean(key, img, g.xmin + i, y);
    }
  }

  /** An image of the right shape whose samples are not negative. */
  predicate SampleGrid(img: Image, width: nat, height: nat)
  {
    Shaped(img, width, height) && forall x, y :: 0 <= x < width && 0 <= y < height ==> img[y][x] >= 0
  }

  lemma ImageHoldsSamples(view: ComponentView, width: nat, height: nat)
    requires view.Readable(width, height)
    ensures SampleGrid(view.Image(width, height), width, height)
  {
    hide ComponentView.SampleAt;
    forall x: nat, y: nat | x < width && y < height
      ensures view.Image(width, height)[y][x] >= 0
    {
      SampleRange(view, x, y);
    }
  }

  lemma {:induction false} LineSumNonNegative(line: seq<int>, x0: nat, x1: nat)
    requires x0 <= x1 <= |line| && forall x :: x0 <= x < x1 ==> line[x] >= 0
    ensures LineSum(line, x0, x1) >= 0
  {
    if x0 < x1 {
      LineSumNonNegative(line, x0, x1 - 1);
    }
  }

  lemma {:induction false} BoxSumNonNegative(img: Image, width: nat, x0: nat, x1: nat, y0: nat, y1: nat)
    requires SampleGrid(img, width, |img|) && x0 <= x1 <= width && y0 <= y1 <= |img|
    ensures BoxSum(img, width, x0, x1, y0, y1) >= 0
  {
    if y0 < y1 {
      BoxSumNonNegative(img, width, x0, x1, y0, y1 - 1);
      LineSumNonNegative(img[y1 - 1], x0, x1);
    }
  }

  /** The four corners of a pixel's box, divided by the area it meets. */
  lemma CornersRead(key: ScalingKey, integral: seq<int>, img: Image, x: int, y: int)
    requires Shown(key, x, y) && SampleGrid(img, key.iwidth, key.iheight) && MetArea(key, x, y) >= 1
    requires IsIntegral(integral, img, key.iwidth)
    ensures var (x0, x1, y0, y1) := BoxOf(key, x, y);
            var l0, l1, k := y0 * (key.iwidth + 1), y1 * (key.iwidth + 1), MetArea(key, x, y);
            && 0 <= x0 && 0 <= x1 && 0 <= l0 && 0 <= l1
            && l0 + x0 < |integral| && l0 + x1 < |integral| && l1 + x0 < |integral| && l1 + x1 < |integral|
            && ReadBox(integral, l0, l1, x0, x1, k) == ReadAt(key, img, x, y)
  {
    hide GeometryOf, IsIntegral, Quot, BoxSum, Axis.DstToSrc, Axis.BoxEnd, MetArea;
    ColumnBox(key, x);
    LineBox(key, y);
    var (x0, x1, y0, y1) := BoxOf(key, x, y);
    FourCorners(integral, img, key.iwidth, x0, x1, y0, y1);
    BoxSumNonNegative(img, key.iwidth, x0, x1, y0, y1);
  }

  /** Four corners over the area met is the average, where the area met is the box's own. */
  lemma BoxReadIsMean(key: ScalingKey, integral: seq<int>, img: Image, x: int, y: int)
    requires Shown(key, x, y) && SampleGrid(img, key.iwidth, key.iheight) && IsIntegral(integral, img, key.iwidth)
    requires MetArea(key, x, y) == BoxArea(key, x, y)
    ensures var (x0, x1, y0, y1) := BoxOf(key, x, y);
            var l0, l1, k := y0 * (key.iwidth + 1), y1 * (key.iwidth + 1), MetArea(key, x, y);
            && 0 <= x0 && 0 <= x1 && 0 <= l0 && 0 <= l1 && k >= 1
            && l0 + x0 < |integral| && l0 + x1 < |integral| && l1 + x0 < |integral| && l1 + x1 < |integral|
            && ReadBox(integral, l0, l1, x0, x1, k) == MeanAt(key, img, x, y)
  {
    hide GeometryOf, IsIntegral, MetArea, BoxArea, ReadBox, BoxOf, ReadAt, MeanAt;
    ReadIsMean(key, img, x, y);
    CornersRead(key, integral, img, x, y);
  }

  // ----- When every value is the mean -----

  /** The value at a window pixel is the mean of its box. */
  predicate ReadsMean(key: ScalingKey, img: Image, x: int, y: int)
    requires Shown(key, x, y) && Shaped(img, key.iwidth, key.iheight)
  {
    MetArea(key, x, y) >= 1 && ReadAt(key, img, x, y) == MeanAt(key, img, x, y)
  }

  /** Black and white. */
  predicate Bitmap(img: Image, width: nat, height: nat)
  {
    Shaped(img, width, height) && forall x, y :: 0 <= x < width && 0 <= y < height ==> 0 <= img[y][x] <= 1
  }

  /** White all over, with one black sample at most. */
  function Speck(width: nat, height: nat, black: bool, sx: int, sy: int): (img: Image)
    ensures Bitmap(img, width, height)
  {
    seq(height, y => seq(width, x => if black && x == sx && y == sy then 0 else 1))
  }

  lemma SpeckSum(width: nat, height: nat, black: bool, x0: nat, x1: nat, y0: nat, y1: nat)
    requires x0 < x1 <= width && y0 < y1 <= height
    ensures BoxSum(Speck(width, height, black, x0, y0), width, x0, x1, y0, y1)
            == (x1 - x0) * (y1 - y0) - if black then 1 else 0
  {
    hide BoxSum;
    var img := Speck(width, height, black, x0, y0);
    BoxSumSplitLines(img, width, x0, x1, y0, y0 + 1, y1);
    BoxSumSplitColumns(img, width, x0, x0 + 1, x1, y0, y0 + 1);
    var corner := if black then 0 else 1;
    BoxSumBounds(img, width, x0, x0 + 1, y0, y0 + 1, corner, corner);
    BoxSumBounds(img, width, x0 + 1, x1, y0, y0 + 1, 1, 1);
    BoxSumBounds(img, width, x0, x1, y0 + 1, y1, 1, 1);
    assert (x1 - x0) * (y1 - y0) == (x1 - x0) * (y1 - (y0 + 1)) + (x1 - x0);
  }

  /** An area that is not the box's own shows in a bitmap. */
  lemma TellingBitmap(key: ScalingKey, x: int, y: int) returns (img: Image)
    requires Shown(key, x, y) && MetArea(key, x, y) != BoxArea(key, x, y)
    ensures Bitmap(img, key.iwidth, key.iheight) && !ReadsMean(key, img, x, y)
  {
    hide GeometryOf, Axis.DstToSrc, Axis.BoxEnd, MetArea, BoxArea, BoxSum, Speck;
    OwnArea(key, x, y);
    var (x0, x1, y0, y1) := BoxOf(key, x, y);
    var own, met := BoxArea(key, x, y), MetArea(key, x, y);
    var black := met < own;
    img := Speck(key.iwidth, key.iheight, black, x0, y0);
    SpeckSum(key.iwidth, key.iheight, black, x0, x1, y0, y1);
    if met >= 1 {
      if black {
        DivIs(own - 1, own, 0);
        DivAtLeast(own - 1, met, 1);
      } else {
        DivIs(own, own, 1);
        DivIs(own, met, 0);
      }
    }
  }

  /** The linear downscaler yields the box means of all images, even of all bitmaps, exactly when every window pixel
      meets the area of its own box. */
  lemma ReadsMeans(key: ScalingKey)
    requires Shrinking(key)
    ensures AreasRight(key) ==>
              forall img: Image, x, y {:trigger ReadsMean(key, img, x, y)} |
                Shown(key, x, y) && Shaped(img, key.iwidth, key.iheight) :: ReadsMean(key, img, x, y)
    ensures (forall img: Image, x, y {:trigger ReadsMean(key, img, x, y)} |
               Shown(key, x, y) && Bitmap(img, key.iwidth, key.iheight) :: ReadsMean(key, img, x, y))
            ==> AreasRight(key)
  {
    hide GeometryOf, MetArea, BoxArea, ReadAt, MeanAt, Shaped;
    if AreasRight(key) {
      forall img: Image, x, y | Shown(key, x, y) && Shaped(img, key.iwidth, key.iheight)
        ensures ReadsMean(key, img, x, y)
      {
        assert MetArea(key, x, y) == BoxArea(key, x, y);
        ReadIsMean(key, img, x, y);
      }
    } else {
      var g := key.Geometry();
      var x, y :| g.xmin <= x < g.xmin + g.owidth && g.ymin <= y < g.ymin + g.oheight
                  && MetArea(key, x, y) != BoxArea(key, x, y);
      var img := TellingBitmap(key, x, y);
    }
  }

  /** No border above the window, and no column of it behind the source width, is enough. */
  lemma AreasRightAtTop(key: ScalingKey)
    requires key.Valid() && key.Geometry().ymin == 0 && key.Geometry().xmax <= key.iwidth
    ensures AreasRight(key)
  {
    hide GeometryOf, BoxArea;
    DownWindow(key);
    var g := key.Geometry();
    forall x, y | g.xmin <= x < g.xmin + g.owidth && g.ymin <= y < g.ymin + g.oheight
      ensures MetArea(key, x, y) == BoxArea(key, x, y)
    {
      DivIs(x, key.iwidth, 0);
      assert MetPixel(key, x, y) == (x, y);
    }
  }

  /** Outside Fit mode that is always so. */
  lemma AreasRightWithoutBorder(key: ScalingKey)
    requires Shrinking(key) && !key.mode.Fit?
    ensures Downscaling(key)
  {
    hide Quot, AreasFit, AreasRight;
    ActiveWindow(key.iwidth, key.iheight, key.outWidth, key.outHeight, key.inputRect, key.mode);
    AlwaysRoom(key);
    DownSizes(key);
    AreasRightAtTop(key);
  }

  /** Of whole frames whose picture ends inside the source width, those without a border above, or with one line of
      picture at most, are averaged rightly, and no others. */
  lemma AreasRightWhole(key: ScalingKey)
    requires WholeFrame(key) && AreasFit(key) && key.Geometry().xmax <= key.iwidth
    ensures AreasRight(key) <==> key.Geometry().ymin == 0 || key.Geometry().oheight <= 1
  {
    hide GeometryOf, AreasFit, AreasRight, Axis.BoxSize, ShiftFits;
    WholeFrameAxes(key);
    DownWindow(key);
    if key.Geometry().ymin == 0 {
      AreasRightAtTop(key);
    } else {
      BorderAbove(key);
      ShiftedBoxes(LineAxis(key.Geometry()));
      AreasByLines(key);
    }
  }

  /** A border above means a picture as wide as the output, and lines enough in the source for both borders. */
  lemma BorderAbove(key: ScalingKey)
    requires WholeFrame(key) && AreasFit(key) && key.Geometry().ymin >= 1
    ensures var g := key.Geometry(); g.owidth >= 1 && g.oheight + 2 * g.ymin <= key.iheight
  {
    hide Quot, AreaIndex;
    ActiveWindow(key.iwidth, key.iheight, key.outWidth, key.outHeight, key.inputRect, key.mode);
    var irect := SourceRect(key.iwidth, key.iheight, key.inputRect);
    FittedSizeFits(TargetSize(key.outWidth, irect.width), TargetSize(key.outHeight, irect.height), irect, key.mode);
    RoomHeight(key.iwidth, key.iheight, key.Geometry().width, key.Geometry().height);
  }

  lemma RoomHeight(iwidth: int, iheight: int, width: int, height: int)
    requires iwidth >= 1 && width >= 1 && height >= 1 && Room(iwidth, iheight, width, height)
    ensures height <= iheight
  {
    if height > iheight {
      MulLe(iwidth, iheight, height - 1);
    }
  }

  /** Of whole frames no pixel meets an area below one, so that nothing is divided by zero: the areas met are those of
      the window and of the border before it. */
  lemma WholeDivides(key: ScalingKey)
    requires WholeFrame(key) && AreasFit(key)
    ensures Dividing(key)
  {
    hide GeometryOf, AreasFit, MetArea, Divides;
    forall x, y | Shown(key, x, y)
      ensures MetArea(key, x, y) >= 1
    {
      WholeAreaMet(key, x, y);
    }
  }

  lemma WholeAreaMet(key: ScalingKey, x: int, y: int)
    requires WholeFrame(key) && Shown(key, x, y)
    ensures MetArea(key, x, y) >= 1
  {
    hide GeometryOf, Divides, Axis.DstToSrc, Axis.BoxEnd;
    WholeFrameAxes(key);
    DownWindow(key);
    var g, n := key.Geometry(), y - key.Geometry().ymin;
    var (i, j) := MetPixel(key, x, y);
    DivSign(x, key.iwidth);
    MulNonNeg(j - n, key.iwidth);
    BoxOrBefore(ColumnAxis(g), i, key.iwidth);
    if x < key.iwidth {
      DivIs(x, key.iwidth, 0);
    } else {
      WideWindow(key);
    }
    BoxOrBefore(LineAxis(g), j, key.iheight);
    MulLe(ColumnAxis(g).BoxSize(i, key.iwidth), 1, LineAxis(g).BoxSize(j, key.iheight));
  }

  lemma BoxOrBefore(ax: Axis, x: int, limit: int)
    requires ax.Proper() && ax.origin == 0 && ax.out <= ax.size <= limit && x < ax.first + ax.out
    ensures ax.BoxSize(x, limit) >= 1
  {
    hide Axis.DstToSrc, Axis.BoxEnd;
    if x < ax.first {
      BoxBeforeWindow(ax, x, limit);
    } else {
      BoxNotEmpty(ax, x, limit);
    }
  }

  /** A picture that ends behind the source width is as high as the output. */
  lemma WideWindow(key: ScalingKey)
    requires WholeFrame(key) && key.Geometry().xmax > key.iwidth
    ensures var g := key.Geometry(); g.ymin == 0 && g.oheight == g.height
  {
    hide Quot;
    WholeFrameAxes(key);
    ActiveWindow(key.iwidth, key.iheight, key.outWidth, key.outHeight, key.inputRect, key.mode);
    var irect := SourceRect(key.iwidth, key.iheight, key.inputRect);
    if key.mode.Fit? {
      FittedSizeFits(TargetSize(key.outWidth, irect.width), TargetSize(key.outHeight, irect.height), irect, key.mode);
    }
  }

  /** Then areas are right exactly when box heights repeat at the distance of the border. */
  lemma AreasByLines(key: ScalingKey)
    requires Shrinking(key) && key.Geometry().xmax <= key.iwidth && key.Geometry().owidth >= 1
    ensures AreasRight(key) <==> ShiftFits(LineAxis(key.Geometry()), key.iheight)
  {
    hide GeometryOf, Axis.BoxSize, MetArea, BoxArea;
    DownWindow(key);
    var g, cy := key.Geometry(), LineAxis(key.Geometry());
    if AreasRight(key) {
      forall n | 0 <= n < g.oheight
        ensures cy.BoxSize(g.ymin + n, key.iheight) == cy.BoxSize(n, key.iheight)
      {
        assert MetArea(key, g.xmin, g.ymin + n) == BoxArea(key, g.xmin, g.ymin + n);
        LineMet(key, g.xmin, n);
      }
    }
    if ShiftFits(cy, key.iheight) {
      forall x, y | g.xmin <= x < g.xmin + g.owidth && g.ymin <= y < g.ymin + g.oheight
        ensures MetArea(key, x, y) == BoxArea(key, x, y)
      {
        var n := y - g.ymin;
        assert cy.BoxSize(g.ymin + n, key.iheight) == cy.BoxSize(n, key.iheight);
        LineMet(key, x, n);
      }
    }
  }

  /** Line `n` of the window meets the areas of line `n` of the output. */
  lemma LineMet(key: ScalingKey, x: int, n: int)
    requires Shrinking(key) && Shown(key, x, key.Geometry().ymin + n) && x < key.iwidth
    ensures var cy, y := LineAxis(key.Geometry()), key.Geometry().ymin + n;
            MetArea(key, x, y) == BoxArea(key, x, y) <==>
            cy.BoxSize(y, key.iheight) == cy.BoxSize(n, key.iheight)
  {
    hide GeometryOf, Axis.DstToSrc, Axis.BoxEnd;
    DownWindow(key);
    DivIs(x, key.iwidth, 0);
    var g, cx, cy := key.Geometry(), ColumnAxis(key.Geometry()), LineAxis(key.Geometry());
    assert MetPixel(key, x, g.ymin + n) == (x, n);
    ColumnBox(key, x);
    SameFactor(cx.BoxSize(x, key.iwidth), cy.BoxSize(g.ymin + n, key.iheight), cy.BoxSize(n, key.iheight));
  }

  lemma SameFactor(d: int, a: int, b: int)
    requires d >= 1
    ensures d * a == d * b <==> a == b
  {
    if d * a == d * b {
      MulCancelLe(d, a, b);
      MulCancelLe(d, b, a);
    }
  }

  // ----- Conservation -----

  /** Sum of the first `n` boxes of output line `y`. */
  function LineOfBoxes(key: ScalingKey, img: Image, n: nat, y: int): (s: int)
    requires Shrinking(key) && Shaped(img, key.iwidth, key.iheight)
    requires n <= key.Geometry().owidth && LineAxis(key.Geometry()).Active(y)
  {
    if n == 0 then 0 else LineOfBoxes(key, img, n - 1, y) + BoxTotal(key, img, key.Geometry().xmin + n - 1, y)
  }

  /** Sum of the boxes of the first `m` lines of the window. */
  function SumOfBoxes(key: ScalingKey, img: Image, m: nat): (s: int)
    requires Shrinking(key) && Shaped(img, key.iwidth, key.iheight)
    requires key.Geometry().owidth >= 0 && m <= key.Geometry().oheight
  {
    if m == 0 then 0
    else SumOfBoxes(key, img, m - 1) + LineOfBoxes(key, img, key.Geometry().owidth, key.Geometry().ymin + m - 1)
  }

  /** Downscaling of whole frames: no input rectangle, and no crop either. */
  predicate WholeFrame(key: ScalingKey)
  {
    Shrinking(key) && key.inputRect.IsEmpty() && !key.mode.Expanding?
  }

  /** No axis is reduced to a single pixel, or to none. */
  predicate Covered(key: ScalingKey)
    requires key.Valid()
  {
    var g := key.Geometry();
    g.owidth >= 1 && g.oheight >= 1 && (g.owidth == 1 ==> key.iwidth == 1) && (g.oheight == 1 ==> key.iheight == 1)
  }

  lemma WholeFrameAxes(key: ScalingKey)
    requires WholeFrame(key)
    ensures var g := key.Geometry();
            && ColumnAxis(g) == Axis(0, key.iwidth, g.owidth, g.xmin)
            && LineAxis(g) == Axis(0, key.iheight, g.oheight, g.ymin)
            && 0 <= g.xmin && 0 <= g.ymin && 0 <= g.owidth <= key.iwidth && 0 <= g.oheight <= key.iheight
    ensures key.mode.Ignore? ==> Covered(key)
  {
    hide Quot;
    ActiveWindow(key.iwidth, key.iheight, key.outWidth, key.outHeight, key.inputRect, key.mode);
  }

  lemma {:induction false} LineOfBoxesIs(key: ScalingKey, img: Image, n: nat, y: int)
    requires WholeFrame(key) && Covered(key) && Shaped(img, key.iwidth, key.iheight)
    requires 1 <= n <= key.Geometry().owidth && LineAxis(key.Geometry()).Active(y)
    ensures var (_, end, y0, y1) := BoxOf(key, key.Geometry().xmin + n - 1, y);
            && 0 <= end <= key.iwidth && 0 <= y0 <= y1 <= key.iheight
            && LineOfBoxes(key, img, n, y) == BoxSum(img, key.iwidth, 0, end, y0, y1)
  {
    hide GeometryOf, Axis.DstToSrc, BoxSum;
    WholeFrameAxes(key);
    var xmin := key.Geometry().xmin;
    ColumnBox(key, xmin + n - 1);
    LineBox(key, y);
    BoxesTile(ColumnAxis(key.Geometry()), 0);
    var (x0, x1, y0, y1) := BoxOf(key, xmin + n - 1, y);
    if n == 1 {
      assert LineOfBoxes(key, img, 0, y) == 0;
    } else {
      LineOfBoxesIs(key, img, n - 1, y);
      BoxesTile(ColumnAxis(key.Geometry()), n - 2);
      BoxSumSplitColumns(img, key.iwidth, 0, x0, x1, y0, y1);
    }
  }

  lemma {:induction false} SumOfBoxesIs(key: ScalingKey, img: Image, m: nat)
    requires WholeFrame(key) && Covered(key) && Shaped(img, key.iwidth, key.iheight)
    requires 1 <= m <= key.Geometry().oheight
    ensures var end := LineAxis(key.Geometry()).BoxEnd(key.Geometry().ymin + m - 1, key.iheight);
            0 <= end <= key.iheight && SumOfBoxes(key, img, m) == BoxSum(img, key.iwidth, 0, key.iwidth, 0, end)
  {
    hide GeometryOf, Axis.DstToSrc, BoxSum;
    var w, ymin := key.Geometry().owidth, key.Geometry().ymin;
    WholeFrameAxes(key);
    LineBox(key, ymin + m - 1);
    LineOfBoxesIs(key, img, w, ymin + m - 1);
    BoxesTile(ColumnAxis(key.Geometry()), w - 1);
    BoxesTile(LineAxis(key.Geometry()), 0);
    var (_, _, y0, y1) := BoxOf(key, key.Geometry().xmin + w - 1, ymin + m - 1);
    if m == 1 {
      assert SumOfBoxes(key, img, 0) == 0;
    } else {
      SumOfBoxesIs(key, img, m - 1);
      BoxesTile(LineAxis(key.Geometry()), m - 2);
      BoxSumSplitLines(img, key.iwidth, 0, key.iwidth, 0, y0, y1);
    }
  }

  /** The boxes of all output pixels add up to the sum of all source samples. */
  predicate Conserves(key: ScalingKey, img: Image)
    requires WholeFrame(key) && Shaped(img, key.iwidth, key.iheight)
  {
    WholeFrameAxes(key);
    SumOfBoxes(key, img, key.Geometry().oheight) == BoxSum(img, key.iwidth, 0, key.iwidth, 0, key.iheight)
  }

  /** Downscaling a whole frame loses no sample and counts none twice, for any image, exactly when no axis of several
      samples is reduced to a single pixel or to none. Ignore mode never does that; Keep and Fit mode can. */
  lemma Conservation(key: ScalingKey)
    requires WholeFrame(key)
    ensures (forall img: Image | Shaped(img, key.iwidth, key.iheight) :: Conserves(key, img)) <==> Covered(key)
    ensures key.mode.Ignore? ==> Covered(key)
  {
    hide GeometryOf, Axis.DstToSrc, BoxSum, Conserves, Shaped;
    WholeFrameAxes(key);
    if Covered(key) {
      forall img: Image | Shaped(img, key.iwidth, key.iheight)
        ensures Conserves(key, img)
      {
        AllCounted(key, img);
      }
    } else {
      var img := LostSamples(key);
    }
  }

  lemma AllCounted(key: ScalingKey, img: Image)
    requires WholeFrame(key) && Covered(key) && Shaped(img, key.iwidth, key.iheight)
    ensures Conserves(key, img)
  {
    hide GeometryOf, Axis.DstToSrc, BoxSum;
    WholeFrameAxes(key);
    SumOfBoxesIs(key, img, key.Geometry().oheight);
    BoxesTile(LineAxis(key.Geometry()), key.Geometry().oheight - 1);
  }

  /** A white line or column at the end of a black frame. */
  function Edge(width: nat, height: nat, column: bool): (img: Image)
    ensures Shaped(img, width, height)
  {
    seq(height, y => seq(width, x => if (if column then x + 1 == width else y + 1 == height) then 1 else 0))
  }

  lemma EdgeTotal(width: nat, height: nat, column: bool)
    requires width >= 1 && height >= 1
    ensures BoxSum(Edge(width, height, column), width, 0, width, 0, height) >= 1
  {
    hide BoxSum;
    var img := Edge(width, height, column);
    if column {
      BoxSumSplitColumns(img, width, 0, width - 1, width, 0, height);
      BoxSumBounds(img, width, 0, width - 1, 0, height, 0, 0);
      BoxSumBounds(img, width, width - 1, width, 0, height, 1, 1);
      assert 1 * ((width - (width - 1)) * (height - 0)) == height;
    } else {
      BoxSumSplitLines(img, width, 0, width, 0, height - 1, height);
      BoxSumBounds(img, width, 0, width, 0, height - 1, 0, 0);
      BoxSumBounds(img, width, 0, width, height - 1, height, 1, 1);
      assert 1 * ((width - 0) * (height - (height - 1))) == width;
    }
  }

  /** When the condition fails, the last column or the last line is lost: an image of which nothing is counted. */
  lemma LostSamples(key: ScalingKey) returns (img: Image)
    requires WholeFrame(key) && !Covered(key)
    ensures Shaped(img, key.iwidth, key.iheight) && !Conserves(key, img)
  {
    hide GeometryOf, Axis.DstToSrc, Axis.BoxEnd, BoxSum, Edge;
    WholeFrameAxes(key);
    var g := key.Geometry();
    var column := g.owidth < 1 || g.oheight < 1 || (g.owidth == 1 && key.iwidth > 1);
    img := Edge(key.iwidth, key.iheight, column);
    forall x, y | Shown(key, x, y)
      ensures BoxTotal(key, img, x, y) == 0
    {
      EdgeMissed(key, column, x, y);
    }
    NothingCounted(key, img, g.oheight);
    EdgeTotal(key.iwidth, key.iheight, column);
  }

  lemma EdgeMissed(key: ScalingKey, column: bool, x: int, y: int)
    requires WholeFrame(key) && Shown(key, x, y)
    requires if column then key.Geometry().owidth == 1 && key.iwidth > 1
             else key.Geometry().oheight == 1 && key.iheight > 1
    ensures BoxTotal(key, Edge(key.iwidth, key.iheight, column), x, y) == 0
  {
    hide GeometryOf, Axis.DstToSrc, Axis.BoxEnd, BoxSum;
    WholeFrameAxes(key);
    ColumnBox(key, x);
    LineBox(key, y);
    SinglePixel(if column then ColumnAxis(key.Geometry()) else LineAxis(key.Geometry()));
    var (x0, x1, y0, y1) := BoxOf(key, x, y);
    BoxSumBounds(Edge(key.iwidth, key.iheight, column), key.iwidth, x0, x1, y0, y1, 0, 0);
  }

  lemma {:induction false} NothingCounted(key: ScalingKey, img: Image, m: nat)
    requires WholeFrame(key) && Shaped(img, key.iwidth, key.iheight)
    requires 0 <= key.Geometry().owidth && m <= key.Geometry().oheight
    requires forall x, y {:trigger BoxTotal(key, img, x, y)} | Shown(key, x, y) :: BoxTotal(key, img, x, y) == 0
    ensures SumOfBoxes(key, img, m) == 0
  {
    hide GeometryOf, Axis.DstToSrc, BoxTotal;
    if m > 0 {
      NothingCounted(key, img, m - 1);
      NothingInLine(key, img, key.Geometry().owidth, key.Geometry().ymin + m - 1);
    }
  }

  lemma {:induction false} NothingInLine(key: ScalingKey, img: Image, n: nat, y: int)
    requires WholeFrame(key) && Shaped(img, key.iwidth, key.iheight)
    requires n <= key.Geometry().owidth && LineAxis(key.Geometry()).Active(y)
    requires forall x, y {:trigger BoxTotal(key, img, x, y)} | Shown(key, x, y) :: BoxTotal(key, img, x, y) == 0
    ensures LineOfBoxes(key, img, n, y) == 0
  {
    hide GeometryOf, Axis.DstToSrc, BoxTotal;
    if n > 0 {
      NothingInLine(key, img, n - 1, y);
      assert Shown(key, key.Geometry().xmin + n - 1, y);
    }
  }

  /** Such a request: a hundred by four hundred samples kept in four by four pixels make one column, which averages
      99 of the hundred. */
  lemma KeepLosesColumn()
    ensures var key := ScalingKey(100, 400, 4, 4, Rect(0, 0, 0, 0), Keep);
            && WholeFrame(key) && !Covered(key)
            && ColumnAxis(key.Geometry()) == Axis(0, 100, 1, 0) && ColumnAxis(key.Geometry()).BoxEnd(0, 100) == 99
  {
    var key := ScalingKey(100, 400, 4, 4, Rect(0, 0, 0, 0), Keep);
    assert key.Geometry() == Geometry(1, 4, 1, 4, 0, 0, 1, 4, ResizeDown, Rect(0, 0, 100, 400));
  }

  /** Boxes know the frame, not the rectangle: of a crop of ten columns out of a hundred, shown in two, the second box
      averages eight columns from outside the crop. */
  lemma CropLeaks()
    ensures var key := ScalingKey(100, 100, 2, 2, Rect(0, 0, 10, 10), Ignore);
            Shown(key, 1, 1) && key.Geometry().irect == Rect(0, 0, 10, 10) && BoxOf(key, 1, 1) == (9, 18, 9, 18)
  {
    hide Axis.DstToSrc;
    var key := ScalingKey(100, 100, 2, 2, Rect(0, 0, 10, 10), Ignore);
    assert key.Geometry() == Geometry(2, 2, 2, 2, 0, 0, 2, 2, ResizeDown, Rect(0, 0, 10, 10));
    CropBox();
  }

  lemma CropBox()
    ensures Axis(0, 10, 2, 0).DstToSrc(1) == 9 && Axis(0, 10, 2, 0).DstToSrc(2) == 18
  {
  }

  // ----- Pictures with a border -----

  /** A picture of one value. */
  function Plain(width: nat, height: nat, v: int): (img: Image)
    ensures Shaped(img, width, height)
  {
    seq(height, _ => seq(width, _ => v))
  }

  /** Every box of such a picture averages to its value. */
  lemma PlainMeans(key: ScalingKey, v: nat, x: int, y: int)
    requires Shown(key, x, y)
    ensures BoxTotal(key, Plain(key.iwidth, key.iheight, v), x, y) == BoxArea(key, x, y) * v
    ensures MeanAt(key, Plain(key.iwidth, key.iheight, v), x, y) == v
  {
    hide GeometryOf, Axis.DstToSrc, Axis.BoxEnd, BoxSum;
    OwnArea(key, x, y);
    var (x0, x1, y0, y1) := BoxOf(key, x, y);
    BoxSumBounds(Plain(key.iwidth, key.iheight, v), key.iwidth, x0, x1, y0, y1, v, v);
    DivIs(BoxArea(key, x, y) * v, BoxArea(key, x, y), v);
  }

  /** Six by six samples fitted into three by five pixels leave a line of border above. The box of window line 1 is
      three samples high and is divided by the area of two: a picture of hundreds becomes 150 there. */
  lemma LetterboxMisread()
    ensures var key, img := ScalingKey(6, 6, 3, 5, Rect(0, 0, 0, 0), Fit), Plain(6, 6, 100);
            && WholeFrame(key) && AreasFit(key) && key.Geometry().ymin == 1 && key.Geometry().oheight == 3
            && Shown(key, 0, 2) && MetArea(key, 0, 2) == 4 && BoxArea(key, 0, 2) == 6
            && ReadAt(key, img, 0, 2) == 150 && MeanAt(key, img, 0, 2) == 100
  {
    hide GeometryOf, Divides, Axis.BoxSize, BoxTotal, MeanAt;
    var key := ScalingKey(6, 6, 3, 5, Rect(0, 0, 0, 0), Fit);
    LetterboxGeometry();
    LetterboxBoxes();
    assert MetPixel(key, 0, 2) == (0, 1);
    PlainMeans(key, 100, 0, 2);
  }

  lemma LetterboxGeometry()
    ensures GeometryOf(6, 6, 3, 5, Rect(0, 0, 0, 0), Fit)
            == Geometry(3, 5, 3, 3, 0, 1, 3, 4, ResizeDown, Rect(0, 0, 6, 6))
  {
  }

  lemma LetterboxBoxes()
    ensures Axis(0, 6, 3, 0).BoxSize(0, 6) == 2
    ensures Axis(0, 6, 3, 1).BoxSize(1, 6) == 2 && Axis(0, 6, 3, 1).BoxSize(2, 6) == 3
  {
  }

  /** A picture that ends behind the source width meets areas of later lines: 640 by 480 samples fitted into 800 by 450
      pixels leave no border above, yet column 650 of line 0 meets the area of column 10 of line 1, in the border. A
      picture of hundreds becomes 50 there. */
  lemma WideMisread()
    ensures var key, img := ScalingKey(640, 480, 800, 450, Rect(0, 0, 0, 0), Fit), Plain(640, 480, 100);
            && WholeFrame(key) && AreasFit(key) && key.Geometry().ymin == 0 && Shown(key, 650, 0)
            && MetPixel(key, 650, 0) == (10, 1) && MetArea(key, 650, 0) == 2 && BoxArea(key, 650, 0) == 1
            && ReadAt(key, img, 650, 0) == 50 && MeanAt(key, img, 650, 0) == 100
  {
    hide Axis.BoxSize, BoxTotal, MeanAt;
    var key := ScalingKey(640, 480, 800, 450, Rect(0, 0, 0, 0), Fit);
    assert key.Geometry() == Geometry(800, 450, 600, 450, 100, 0, 700, 450, ResizeDown, Rect(0, 0, 640, 480));
    WideBoxes();
    PlainMeans(key, 100, 650, 0);
  }

  lemma WideBoxes()
    ensures Axis(0, 640, 600, 100).BoxSize(650, 640) == 1 && Axis(0, 640, 600, 100).BoxSize(10, 640) == 2
    ensures Axis(0, 480, 450, 0).BoxSize(0, 480) == 1 && Axis(0, 480, 450, 0).BoxSize(1, 480) == 1
  {
    DivIs(550 * 639, 599, 586);
    DivIs(551 * 639, 599, 587);
    DivIs(90 * 639, 599, 96);
    DivIs(89 * 639, 599, 94);
    DivIs(479, 449, 1);
    DivIs(2 * 479, 449, 2);
  }

  /** With an input rectangle the area met can even be zero: of five by eight samples the five lines from the third on,
      fitted into four by eight pixels, start with a division by zero, since the box of line 0, in the border, is
      empty. */
  lemma CropDividesByZero()
    ensures var key := ScalingKey(5, 8, 4, 8, Rect(0, 2, 5, 5), Fit);
            Shown(key, 0, 2) && AreasFit(key) && MetArea(key, 0, 2) == 0 && !Dividing(key)
  {
    hide GeometryOf, Divides, Axis.BoxSize, SourceRect;
    var key := ScalingKey(5, 8, 4, 8, Rect(0, 2, 5, 5), Fit);
    CropGeometry();
    EmptyBox();
    assert MetPixel(key, 0, 2) == (0, 0);
  }

  lemma CropGeometry()
    ensures SourceRect(5, 8, Rect(0, 2, 5, 5)) == Rect(0, 2, 5, 5)
    ensures GeometryOf(5, 8, 4, 8, Rect(0, 2, 5, 5), Fit)
            == Geometry(4, 8, 4, 4, 0, 2, 4, 6, ResizeDown, Rect(0, 2, 5, 5))
  {
    hide FittedSize;
    CropFitted();
  }

  lemma CropFitted()
    ensures FittedSize(4, 8, Rect(0, 2, 5, 5), Fit) == (4, 4)
  {
  }

  lemma EmptyBox()
    ensures Axis(2, 5, 4, 2).BoxSize(0, 8) == 0
  {
  }

  /** An output wider than the source can have room, and all its areas right: 640 by 480 samples fitted into 700 by 360
      pixels. */
  lemma WideServed()
    ensures var key := ScalingKey(640, 480, 700, 360, Rect(0, 0, 0, 0), Fit);
            Downscaling(key) && key.Geometry().width > key.iwidth
  {
    hide AreasRight;
    var key := ScalingKey(640, 480, 700, 360, Rect(0, 0, 0, 0), Fit);
    assert key.Geometry() == Geometry(700, 360, 480, 360, 110, 0, 590, 360, ResizeDown, Rect(0, 0, 640, 480));
    AreasRightAtTop(key);
  }
}
