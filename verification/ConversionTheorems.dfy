/** Properties of whole conversions between the table formats of one byte per component. */
module ConversionTheorems {
  import opened Arithmetic
  import opened FrameLayout
  import opened Samples
  import opened Scaling
  import opened Boxes
  import opened ConvertParameters
  import opened Upscale
  import opened IntegralImages
  import opened ColorMatrices
  import opened PixelLoops
  import opened OutputSamples
  import opened Conversion

  /** What Fit mode asks of its border: room in the area table; if the picture is averaged, that every pixel meets its
      own area there; and no border after an axis that is blended but not enlarged. */
  predicate BorderFits(r: Request)
    requires r.Key().Valid()
  {
    var g := r.Key().Geometry();
    && AreasFit(r.Key())
    && (Linear(r) && g.resize.ResizeDown? ==> AreasRight(r.Key()))
    && (Linear(r) && g.resize.ResizeUp? ==> ColumnAxis(g).EndsWell(g.width) && LineAxis(g).EndsWell(g.height))
  }

  /** In Ignore, Keep and Fit mode, with a source rectangle two samples wide and high, a request is served exactly when
      the lines of both frames lie inside them and, in Fit mode, the border fits. */
  lemma ServedWithoutCrop(r: Request)
    requires Sized(r) && !r.settings.aspect.Expanding?
    requires r.Key().Geometry().irect.width >= 2 && r.Key().Geometry().irect.height >= 2
    ensures Served(r) <==>
              LinesInside(r.input) && LinesInside(r.OutputFormat()) && (r.settings.aspect.Fit? ==> BorderFits(r))
  {
    hide GeometryOf, LinesInside, ByteFormat, WindowOf, SourceRect, AreasFit, AreasRight, Divides;
    WithoutCrop(r.Key());
    var win := WindowOf(r);
    if !r.settings.aspect.Fit? {
      AlwaysRoom(r.Key());
      if Shrinking(r.Key()) {
        AreasRightWithoutBorder(r.Key());
      }
    }
  }

  /** In Expanding mode, with a crop two samples wide and high, it is served exactly when besides the lines the crop
      lies inside the frame. */
  lemma ServedWithCrop(r: Request)
    requires Sized(r) && r.settings.aspect.Expanding?
    requires r.Key().Geometry().irect.width >= 2 && r.Key().Geometry().irect.height >= 2
    ensures Served(r) <==>
              LinesInside(r.input) && LinesInside(r.OutputFormat())
              && r.Key().Geometry().irect.Inside(Rect(0, 0, r.input.width, r.input.height))
  {
    hide GeometryOf, LinesInside, ByteFormat, WindowOf, SourceRect, AreasFit, AreasRight, Divides;
    var win := WindowOf(r);
    AlwaysRoom(r.Key());
    if Shrinking(r.Key()) {
      AreasRightWithoutBorder(r.Key());
      DownAxes(r.Key());
    }
  }

  lemma WithoutCrop(key: ScalingKey)
    requires key.Valid() && !key.mode.Expanding?
    ensures key.Geometry().irect.Inside(Rect(0, 0, key.iwidth, key.iheight))
  {
    hide Quot, FittedSize;
    SourceRectInside(key.iwidth, key.iheight, key.inputRect);
  }

  /** The byte loops chosen for these formats leave, on the whole output buffer, what the generic loops leave. */
  lemma ByteLoopsRefine(r: Request, data: seq<int>, buf: seq<int>)
    requires Served(r) && Holds(r.input, data) && Holds(r.OutputFormat(), buf)
    ensures Written(r, true, buf, data) == Written(r, false, buf, data)
  {
    hide WriterOf, GridFor, Served, IdentityVector, ByteSinks, Writer.Writable, PlanesSize, FormatSpecs, PutFrame,
      Separate, GeometryOf, LinesInside, WindowOf;
    WriterReady(r);
    PictureReady(r, buf, data);
    var win := WindowOf(r);
    FastIsGeneric(WriterOf(r), buf, win.x, win.y, win.width, GridFor(r, data));
  }

  /** The last pixel of a window, in reading order, of those sharing the sample that pixel (x, y) has in a sink. */
  function LastSharing(s: Sink, win: Window, x: nat, y: nat): (p: (nat, nat))
    requires win.Has(x, y)
    ensures win.Has(p.0, p.1) && x <= p.0 && y <= p.1
  {
    (LastIn(s.component.widthDiv, x, win.x + win.width), LastIn(s.layout.heightDiv, y, win.y + win.height))
  }

  /** The pixel that decides the sample window pixel (x, y) has in channel `c`. */
  function DecidingPixel(r: Request, c: nat, x: nat, y: nat): (p: (nat, nat))
    requires Sized(r) && Used(WriterOf(r), c) && InWindow(r, x, y)
    ensures InWindow(r, p.0, p.1) && x <= p.0 && y <= p.1
  {
    hide GeometryOf, WriterOf, LastSharing, WindowOf;
    LastSharing(SinkOf(WriterOf(r), c), WindowOf(r), x, y)
  }

  lemma InOutput(r: Request, x: nat, y: nat)
    requires r.Key().Valid() && InWindow(r, x, y)
    ensures x < r.OutputFormat().width && y < r.OutputFormat().height
  {
    hide GeometryOf;
  }

  /** Outside Fit mode every pixel of the output is in the window. */
  lemma AllInWindow(r: Request, x: nat, y: nat)
    requires r.Key().Valid() && x < r.OutputFormat().width && y < r.OutputFormat().height && !r.settings.aspect.Fit?
    ensures InWindow(r, x, y)
  {
    hide GeometryOf;
  }

  /** The meaning of a converted frame: read back, the sample that pixel (u, v) shares with a window pixel (x, y) is the
      converted value of the deciding pixel of the group. */
  lemma OutputSample(fill: Fill, r: Request, data: seq<int>, c: nat, x: nat, y: nat, u: nat, v: nat)
    requires Served(r) && Holds(r.input, data) && !r.OutputFormat().SameAs(r.input) && Used(WriterOf(r), c)
    requires InWindow(r, x, y) && u < r.OutputFormat().width && v < r.OutputFormat().height
    requires ShareSample(SinkOf(WriterOf(r), c), u, v, x, y)
    ensures var out, t, p := ConvertedFrame(fill, r, data), ChannelType(r.Target(), c), DecidingPixel(r, c, x, y);
            && Sampled(out.format, out.data, t)
            && SampleIn(out.format, out.data, t, u, v) == ChannelByte(WriterOf(r), c, PixelFor(r, data, p.0, p.1))
  {
    hide WriterOf, GeometryOf, Served, ChannelByte, PixelFor, FormatSpecs, Contains, ChannelType, PutFrame, LinesInside,
      Separate, ByteSinks, Writer.Writable, FrameBytes, SinkOf, LastIn, WindowOf, Ground, Sink.Address, GridFor,
      SampleIn, Shr;
    var o, w, win := r.OutputFormat(), WriterOf(r), WindowOf(r);
    var out, p := ConvertedFrame(fill, r, data), DecidingPixel(r, c, x, y);
    InOutput(r, x, y);
    PictureReady(r, Ground(fill, r), data);
    FrameSamples(w, Ground(fill, r), win.x, win.y, win.width, GridFor(r, data), c, x, y);
    SampleAtSink(r, out.data, c, u, v);
    SharedAddress(r, c, u, v, x, y);
    GridEntry(r, data, p.0, p.1);
  }

  /** Reading a sample of the output frame reads the byte its channel is written to. */
  lemma SampleAtSink(r: Request, buf: seq<int>, c: nat, u: nat, v: nat)
    requires Served(r) && Holds(r.OutputFormat(), buf) && Used(WriterOf(r), c)
    requires u < r.OutputFormat().width && v < r.OutputFormat().height
    ensures var t := ChannelType(r.Target(), c);
            && Sampled(r.OutputFormat(), buf, t) && SinkOf(WriterOf(r), c).Address(u, v) < |buf|
            && SampleIn(r.OutputFormat(), buf, t, u, v) == buf[SinkOf(WriterOf(r), c).Address(u, v)]
  {
    hide WriterOf, GeometryOf, Served, FormatSpecs, Contains, ChannelType, Separate, Writer.Writable, FrameBytes,
      LinesInside, ComponentView.SampleAt;
    ChannelTypes(r, c);
    WriterReady(r);
    ViewReady(r.OutputFormat(), buf, ChannelType(r.Target(), c));
    AddressInside(WriterOf(r), |buf|, r.OutputFormat().width, r.OutputFormat().height, c, u, v);
    ByteViewSample(ViewOf(r.OutputFormat(), buf, ChannelType(r.Target(), c)), u, v);
  }

  /** Pixels that share a sample share its byte, and only they. */
  lemma SharedAddress(r: Request, c: nat, u: nat, v: nat, x: nat, y: nat)
    requires Served(r) && Used(WriterOf(r), c) && u < r.OutputFormat().width && v < r.OutputFormat().height
    requires x < r.OutputFormat().width && y < r.OutputFormat().height
    ensures SinkOf(WriterOf(r), c).Address(u, v) == SinkOf(WriterOf(r), c).Address(x, y)
            <==> ShareSample(SinkOf(WriterOf(r), c), u, v, x, y)
  {
    hide WriterOf, GeometryOf, Served, FormatSpecs, FrameBytes, LinesInside, SinkOf, Sink.Address, ShareSample;
    WriterReady(r);
  }

  lemma GridEntry(r: Request, data: seq<int>, x: nat, y: nat)
    requires Served(r) && Holds(r.input, data) && InWindow(r, x, y)
    ensures GridFor(r, data)[y - WindowOf(r).y][x - WindowOf(r).x] == PixelFor(r, data, x, y)
  {
    hide GeometryOf, Served, PixelFor, LinesInside, WindowOf;
  }

  /** A sample that no window pixel shares. */
  ghost predicate InBorder(r: Request, c: nat, u: nat, v: nat)
    requires Served(r) && Used(WriterOf(r), c)
  {
    forall x: nat, y: nat {:trigger ShareSample(SinkOf(WriterOf(r), c), u, v, x, y)} ::
      InWindow(r, x, y) ==> !ShareSample(SinkOf(WriterOf(r), c), u, v, x, y)
  }

  /** All other samples, around the picture of Fit mode, are those of the filled frame. */
  lemma BorderSample(fill: Fill, r: Request, data: seq<int>, c: nat, u: nat, v: nat)
    requires Served(r) && Holds(r.input, data) && !r.OutputFormat().SameAs(r.input) && Used(WriterOf(r), c)
    requires u < r.OutputFormat().width && v < r.OutputFormat().height && InBorder(r, c, u, v)
    ensures r.settings.aspect.Fit?
    ensures var o, out, t := r.OutputFormat(), ConvertedFrame(fill, r, data), ChannelType(r.Target(), c);
            && Sampled(o, out.data, t) && Sampled(o, fill(o), t)
            && SampleIn(o, out.data, t, u, v) == SampleIn(o, fill(o), t, u, v)
  {
    hide WriterOf, GeometryOf, Served, FormatSpecs, ChannelType, PutFrame, LinesInside, Separate, ByteSinks,
      Writer.Writable, FrameBytes, SinkOf, WindowOf, Sink.Address, GridFor, SampleIn, Shr, Outside, Holds;
    var o, w, win := r.OutputFormat(), WriterOf(r), WindowOf(r);
    if !r.settings.aspect.Fit? {
      NoBorder(r, c, u, v);
    }
    var out := ConvertedFrame(fill, r, data);
    PictureReady(r, fill(o), data);
    SampleAtSink(r, out.data, c, u, v);
    SampleAtSink(r, fill(o), c, u, v);
    BorderOutside(r, c, u, v);
    FrameSparesOutside(w, fill(o), win.x, win.y, win.width, GridFor(r, data), SinkOf(w, c).Address(u, v));
  }

  lemma NoBorder(r: Request, c: nat, u: nat, v: nat)
    requires Served(r) && Used(WriterOf(r), c) && u < r.OutputFormat().width && v < r.OutputFormat().height
    requires !r.settings.aspect.Fit?
    ensures !InBorder(r, c, u, v)
  {
    hide WriterOf, GeometryOf, Served, FormatSpecs, LinesInside, SinkOf, WindowOf, Shr;
    AllInWindow(r, u, v);
    assert ShareSample(SinkOf(WriterOf(r), c), u, v, u, v);
  }

  lemma BorderOutside(r: Request, c: nat, u: nat, v: nat)
    requires Served(r) && Used(WriterOf(r), c) && u < r.OutputFormat().width && v < r.OutputFormat().height
    requires InBorder(r, c, u, v)
    ensures var win := WindowOf(r);
            Outside(WriterOf(r), win.x, win.y, win.width, win.height, SinkOf(WriterOf(r), c).Address(u, v))
  {
    hide WriterOf, GeometryOf, Served, FormatSpecs, FrameBytes, LinesInside, SinkOf, Sink.Address, ShareSample,
      WindowOf;
    WriterReady(r);
    var w, o := WriterOf(r), r.OutputFormat();
    forall c': nat, x: nat, y: nat {:trigger SinkOf(w, c').Address(x, y)} | Used(w, c') && InWindow(r, x, y)
      ensures SinkOf(w, c').Address(x, y) != SinkOf(w, c).Address(u, v)
    {
      InOutput(r, x, y);
      assert SinkOf(w, c).Address(u, v) == SinkOf(w, c').Address(x, y)
             <==> c == c' && ShareSample(SinkOf(w, c), u, v, x, y);
    }
  }

  /** The input rectangle has no say when the output has the input's format and size: outside Keep mode, which derives
      the size from the rectangle, the frame is passed on uncropped. */
  lemma RectangleIgnored(fill: Fill, r: Request, data: seq<int>)
    requires Served(r) && Holds(r.input, data) && !r.settings.aspect.Keep? && r.Target() == r.input.format
    requires r.settings.outputFormat.width == r.input.width >= 2
             && r.settings.outputFormat.height == r.input.height >= 2
    ensures ConvertedFrame(fill, r, data) == Frame(r.input, data)
  {
    hide FormatSpecs, LinesInside, Quot;
  }

  // ----- No cast loses anything -----

  predicate IsByte(v: int)
  {
    0 <= v < 256
  }

  predicate BytePixel(p: Pixel)
  {
    IsByte(p.x) && IsByte(p.y) && IsByte(p.z) && IsByte(p.a)
  }

  /** Nearest, averaged and blended samples are bytes again. */
  lemma SampleIsByte(r: Request, view: ComponentView, x: int, y: int)
    requires Served(r) && view.Readable(r.input.width, r.input.height) && InWindow(r, x, y) && view.component.depth == 8
    ensures IsByte(SampleFor(r, view, x, y))
  {
    hide GeometryOf, LinesInside, BlendAt, MeanAt, ComponentView.SampleAt, ComponentView.Readable, Axis.DstToSrc,
      Axis.NextSource, Shown, Tapped;
    var k := r.Key();
    var g := k.Geometry();
    WindowPixel(r, x, y);
    ByteWords();
    if Linear(r) && g.resize.ResizeUp? {
      BlendIsByte(k, view, x, y);
    } else if Linear(r) && g.resize.ResizeDown? {
      MeanIsByte(k, view, x, y);
    } else {
      ReadableAt(view, k.iwidth, k.iheight, ColumnAxis(g).DstToSrc(x), LineAxis(g).DstToSrc(y));
      SampleRange(view, ColumnAxis(g).DstToSrc(x), LineAxis(g).DstToSrc(y));
    }
  }

  lemma ReadableAt(view: ComponentView, width: nat, height: nat, x: nat, y: nat)
    requires view.Readable(width, height) && x < width && y < height
    ensures view.Address(x, y) + view.bytes <= |view.data|
  {
  }

  lemma BlendIsByte(k: ScalingKey, view: ComponentView, x: int, y: int)
    requires Tapped(k, x, y) && view.Readable(k.iwidth, k.iheight) && view.component.depth == 8
    ensures IsByte(BlendAt(k, view, x, y))
  {
    hide GeometryOf, BlendAt, ComponentView.SampleAt, ComponentView.Readable, Axis.DstToSrc, Axis.NextSource, Covers,
      Blend;
    UpscaleConvex(k, view, x, y);
    TapsInside(k, x, y);
    ByteWords();
    var g := k.Geometry();
    var xs, ys, xs1, ys1 := ColumnAxis(g).DstToSrc(x), LineAxis(g).DstToSrc(y),
                            ColumnAxis(g).NextSource(x, g.width), LineAxis(g).NextSource(y, g.height);
    ReadableAt(view, k.iwidth, k.iheight, xs, ys);
    ReadableAt(view, k.iwidth, k.iheight, xs1, ys);
    ReadableAt(view, k.iwidth, k.iheight, xs, ys1);
    SampleRange(view, xs, ys);
    SampleRange(view, xs1, ys);
    SampleRange(view, xs, ys1);
  }

  lemma MeanIsByte(k: ScalingKey, view: ComponentView, x: int, y: int)
    requires Shown(k, x, y) && view.Readable(k.iwidth, k.iheight) && view.component.depth == 8
    ensures SampleGrid(view.Image(k.iwidth, k.iheight), k.iwidth, k.iheight)
    ensures IsByte(MeanAt(k, view.Image(k.iwidth, k.iheight), x, y))
  {
    hide GeometryOf, ComponentView.SampleAt, Axis.DstToSrc, Axis.BoxEnd, BoxMean;
    ImageHoldsSamples(view, k.iwidth, k.iheight);
    var img := view.Image(k.iwidth, k.iheight);
    ColumnBox(k, x);
    LineBox(k, y);
    ByteWords();
    var (x0, x1, y0, y1) := BoxOf(k, x, y);
    forall j, i | y0 <= j < y1 && x0 <= i < x1
      ensures 0 <= img[j][i] <= 255
    {
      SampleRange(view, i, j);
    }
    BoxMeanRange(img, k.iwidth, x0, x1, y0, y1, 0, 255);
  }

  /** The four samples read for an output pixel are bytes. */
  lemma PixelIsBytes(r: Request, data: seq<int>, x: int, y: int)
    requires Served(r) && Holds(r.input, data) && InWindow(r, x, y)
    ensures BytePixel(PixelFor(r, data, x, y))
  {
    hide GeometryOf, Served, SampleFor, FormatSpecs, Contains, ComponentView.Readable, FrameBytes, LinesInside,
      SourcesOf, WriterOf, WindowOf;
    SourcesReady(r, data);
    var s := SourcesOf(r.input, data);
    SampleIsByte(r, s.x, x, y);
    SampleIsByte(r, s.y, x, y);
    SampleIsByte(r, s.z, x, y);
    if WriterOf(r).ReadsAlpha() {
      SampleIsByte(r, s.a, x, y);
    }
  }

  predicate ByteLimits(m: Matrix)
  {
    && 0 <= m.xLimits.lo <= m.xLimits.hi < 256 && 0 <= m.yLimits.lo <= m.yLimits.hi < 256
       && 0 <= m.zLimits.lo <= m.zLimits.hi < 256
  }

  lemma LoadedLimits(f: PixelFormat, g: PixelFormat, space: YuvColorSpace, swing: YuvColorSpaceType)
    requires ByteFormat(f) && ByteFormat(g)
    ensures ByteLimits(LoadedMatrix(f, g, space, swing))
  {
    hide FormatSpecs, Contains, DepthOf, Rgb2YuvMatrix, Yuv2RgbMatrix, LimitsY, LimitsUV;
    MainDepths(f);
    MainDepths(g);
    ByteWords();
    LimitsProper(8, swing);
    RowLimits(space, swing);
  }

  lemma RowLimits(space: YuvColorSpace, swing: YuvColorSpaceType)
    ensures var m := Rgb2YuvMatrix(space, swing, 8, 8, 8, 8, 8, 8);
            m.xLimits == LimitsY(8, swing) && m.yLimits == LimitsUV(8, swing) && m.zLimits == LimitsUV(8, swing)
    ensures var m := Yuv2RgbMatrix(space, swing, 8, 8, 8, 8, 8, 8);
            m.xLimits == Limits(0, MaxCode(8)) && m.yLimits == Limits(0, MaxCode(8))
                && m.zLimits == Limits(0, MaxCode(8))
  {
    hide LimitsY, LimitsUV, MaxCode, RbConstantsOf, Pow2;
  }

  /** No output value wraps in its byte: every converted colour and alpha value is what is stored. */
  lemma NothingWraps(r: Request, p: Pixel)
    requires Served(r) && BytePixel(p)
    ensures var c := Converted(WriterOf(r), true, p);
            IsByte(c.0) && IsByte(c.1) && IsByte(c.2)
  {
    hide FormatSpecs, Contains, SinkFor, LoadedMatrix, LoadedAlpha, GeometryOf, LinesInside, Raw, AlphaRaw, Covers;
    LoadedLimits(r.input.format, r.Target(), r.settings.space, r.settings.swing);
  }

  // ----- Inside one colour family -----

  /** Same family and no compositing: the colour components are only moved. */
  predicate SameFamily(r: Request)
  {
    FormatSpecs(r.input.format).ftype == FormatSpecs(r.Target()).ftype
        && !AlphaModeOf(r.input.format, r.Target()).AlphaIn?
  }

  /** Inside a family, a sample shared with a window pixel (x, y) is the input's component of the same name at the
      deciding pixel. */
  lemma SameFamilyMoves(fill: Fill, r: Request, data: seq<int>, c: nat, x: nat, y: nat, u: nat, v: nat)
    requires Served(r) && Holds(r.input, data) && !r.OutputFormat().SameAs(r.input) && SameFamily(r) && c < 3
    requires InWindow(r, x, y) && u < r.OutputFormat().width && v < r.OutputFormat().height
    requires ShareSample(SinkOf(WriterOf(r), c), u, v, x, y)
    ensures var t, out, p := MainType(r.Target(), c), ConvertedFrame(fill, r, data), DecidingPixel(r, c, x, y);
            && Sampled(out.format, out.data, t) && Sampled(r.input, data, t)
            && SampleIn(out.format, out.data, t, u, v) == ResizedSample(r, data, t, p.0, p.1)
  {
    hide FormatSpecs, Contains, SinkFor, LoadedMatrix, LoadedAlpha, GeometryOf, Served, PutFrame, ConvertedFrame,
      FrameBytes, ComponentView.SampleAt, ComponentView.Readable, LastIn, LinesInside, SampleFor, ViewOf, WindowOf,
      SampleIn, Shr;
    OutputSample(fill, r, data, c, x, y, u, v);
    var p := DecidingPixel(r, c, x, y);
    PixelIsBytes(r, data, p.0, p.1);
    MainComponent(r.input.format, c);
    ViewReady(r.input, data, MainType(r.input.format, c));
    SameFamilyByte(r, PixelFor(r, data, p.0, p.1), c);
  }

  lemma SameFamilyByte(r: Request, p: Pixel, c: nat)
    requires Sized(r) && SameFamily(r) && BytePixel(p) && c < 3
    ensures ChannelByte(WriterOf(r), c, p) == if c == 0 then p.x else if c == 1 then p.y else p.z
    ensures MainType(r.Target(), c) == MainType(r.input.format, c)
  {
    hide FormatSpecs, Contains, SinkFor, LoadedMatrix, LoadedAlpha, GeometryOf;
  }

  /** Nothing to scale: no input rectangle, and an output as large as the input. */
  predicate Unscaled(r: Request)
  {
    && r.settings.inputRect.IsEmpty() && !r.settings.aspect.Expanding?
    && r.settings.outputFormat.width == r.input.width && r.settings.outputFormat.height == r.input.height
  }

  lemma UnscaledGeometry(r: Request)
    requires r.Key().Valid() && Unscaled(r)
    ensures var g := r.Key().Geometry();
            && g.resize.ResizeKeep? && g.width == r.input.width && g.height == r.input.height
            && g.irect == Rect(0, 0, g.width, g.height)
            && ColumnAxis(g) == Axis(0, g.width, g.width, 0) && LineAxis(g) == Axis(0, g.height, g.height, 0)
    ensures WindowOf(r) == Window(0, 0, r.input.width, r.input.height)
  {
    hide Quot;
    var w, h := r.input.width, r.input.height;
    DivIs(h * w, h, w);
    DivIs(w * h, w, h);
    MulNonNeg(w, h);
  }

  lemma UnscaledIndex(size: int, x: int)
    requires 0 <= x < size
    ensures Axis(0, size, size, 0).DstToSrc(x) == x
  {
    var ax := Axis(0, size, size, 0);
    MapsAreFloors(ax, x);
    var o := ax.OutputSpan();
    DivIs(x * o, o, x);
  }

  /** With nothing to scale every component of the output is the input's, sample by sample, as far as sub-sampling lets
      it. */
  lemma UnscaledMoves(fill: Fill, r: Request, data: seq<int>, c: nat, u: nat, v: nat)
    requires Served(r) && Holds(r.input, data) && !r.OutputFormat().SameAs(r.input) && SameFamily(r) && Unscaled(r)
             && c < 3
    requires u < r.OutputFormat().width && v < r.OutputFormat().height
    ensures InWindow(r, u, v)
    ensures var t, out, p := MainType(r.Target(), c), ConvertedFrame(fill, r, data), DecidingPixel(r, c, u, v);
            && out.format.width == r.input.width && out.format.height == r.input.height
            && Sampled(out.format, out.data, t) && Sampled(r.input, data, t) && p.0 < r.input.width
               && p.1 < r.input.height
            && SampleIn(out.format, out.data, t, u, v) == SampleIn(r.input, data, t, p.0, p.1)
  {
    hide FormatSpecs, Contains, GeometryOf, Served, ConvertedFrame, ComponentView.SampleAt, ComponentView.Readable,
      LastIn, ViewOf, WriterOf, LinesInside, Axis.DstToSrc, WindowOf;
    UnscaledGeometry(r);
    SameFamilyMoves(fill, r, data, c, u, v, u, v);
    var p := DecidingPixel(r, c, u, v);
    UnscaledIndex(r.input.width, p.0);
    UnscaledIndex(r.input.height, p.1);
  }

  lemma RgbNotShared(f: PixelFormat, w: nat, h: nat, t: ComponentType)
    requires ByteFormat(f) && FormatSpecs(f).ftype.VftRgb? && Contains(FormatSpecs(f).planes, t)
    ensures var planes := FormatSpecs(f).planes;
            ComponentOf(planes, t).widthDiv == 0 && LayoutOf(planes, w, h, ComponentPlane(planes, t)).heightDiv == 0
  {
    hide PlanesSize, PlaneSize, LineSize, Contains;
    ByteComponent(f, t);
    TablePlanes(f);
    TableHeightDivs(f, ComponentPlane(FormatSpecs(f).planes, t));
    RgbFullWidth(f);
  }

  lemma RgbFullWidth(f: PixelFormat)
    requires ByteFormat(f) && FormatSpecs(f).ftype.VftRgb?
    ensures |FormatSpecs(f).planes| == 1 && forall c :: c in FormatSpecs(f).planes[0].components ==> c.widthDiv == 0
  {
  }

  /** Between RGB formats of one byte per component, at one size, converting there and back loses nothing:
      every red, green and blue sample of the frame is read back as it was. */
  lemma RgbRoundTrip(fill: Fill, r: Request, back: Request, data: seq<int>, c: nat, u: nat, v: nat)
    requires Served(r) && Holds(r.input, data) && Unscaled(r) && SameFamily(r)
             && FormatSpecs(r.input.format).ftype.VftRgb?
    requires back.input == r.OutputFormat() && back.Target() == r.input.format
    requires Served(back) && Unscaled(back) && SameFamily(back) && r.Target() != r.input.format
    requires c < 3 && u < r.input.width && v < r.input.height
    ensures Holds(back.input, ConvertedFrame(fill, r, data).data)
    ensures var again, t := ConvertedFrame(fill, back, ConvertedFrame(fill, r, data).data), MainType(r.input.format, c);
            && again.format.SameAs(r.input) && Sampled(again.format, again.data, t) && Sampled(r.input, data, t)
            && SampleIn(again.format, again.data, t, u, v) == SampleIn(r.input, data, t, u, v)
  {
    hide FormatSpecs, Contains, GeometryOf, Served, ConvertedFrame, ComponentView.SampleAt, ComponentView.Readable,
      ViewOf, LinesInside, DecidingPixel, PlanesSize, WriterOf, SampleIn, WindowOf;
    UnscaledGeometry(r);
    UnscaledGeometry(back);
    var there := ConvertedFrame(fill, r, data);
    assert Holds(back.input, there.data);
    RgbDecides(r, c, u, v);
    RgbDecides(back, c, u, v);
    UnscaledMoves(fill, r, data, c, u, v);
    UnscaledMoves(fill, back, there.data, c, u, v);
    SampleIgnoresFps(there.format, back.input, there.data, MainType(r.input.format, c), u, v);
  }

  /** The frame rate has no part in the layout. */
  lemma SampleIgnoresFps(f: VideoFormat, g: VideoFormat, data: seq<int>, t: ComponentType, x: nat, y: nat)
    requires f.SameAs(g) && Sampled(f, data, t) && x < f.width && y < f.height
    ensures Sampled(g, data, t) && SampleIn(f, data, t, x, y) == SampleIn(g, data, t, x, y)
  {
    hide FormatSpecs, Contains, PlanesSize, ComponentView.SampleAt;
  }

  lemma RgbDecides(r: Request, c: nat, u: nat, v: nat)
    requires Served(r) && FormatSpecs(r.Target()).ftype.VftRgb? && c < 3 && InWindow(r, u, v)
    ensures DecidingPixel(r, c, u, v) == (u, v)
  {
    hide FormatSpecs, Contains, GeometryOf, LinesInside, LoadedMatrix, LoadedAlpha, Covers, WindowOf;
    MainComponent(r.Target(), c);
    ChannelTypes(r, c);
    RgbNotShared(r.Target(), r.OutputFormat().width, r.OutputFormat().height, MainType(r.Target(), c));
    LastInClosed(0, u, WindowOf(r).x + WindowOf(r).width);
    LastInClosed(0, v, WindowOf(r).y + WindowOf(r).height);
  }

  /** Nothing stands in the way of these conversions: at every size from two by two, between any two such RGB formats,
      the unscaled request is served, in both scaling modes. */
  lemma RgbServed(r: Request)
    requires ByteFormat(r.input.format) && FormatSpecs(r.input.format).ftype.VftRgb?
    requires ByteFormat(r.Target()) && FormatSpecs(r.Target()).ftype.VftRgb?
    requires Unscaled(r) && r.input.width >= 2 && r.input.height >= 2
    ensures Served(r)
  {
    hide FormatSpecs, ByteFormat, LinesInside, GeometryOf;
    assert r.Key().Valid();
    UnscaledGeometry(r);
    RgbLinesInside(r.input);
    RgbLinesInside(r.OutputFormat());
  }

  lemma RgbLinesInside(f: VideoFormat)
    requires ByteFormat(f.format) && FormatSpecs(f.format).ftype.VftRgb? && f.width >= 1 && f.height >= 1
    ensures LinesInside(f)
  {
    hide LineSize, PlaneSize, PlanesSize;
    RgbFullWidth(f.format);
    TablePlanes(f.format);
    TableHeightDivs(f.format, 0);
  }
}
