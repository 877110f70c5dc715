/** The converter object: a cache of configured slots, one per conversion of a `begin`..`end` pass, whose tables and
    buffers are reused from frame to frame (VCamUtils/src/videoconverter.cpp). */
module ConverterCache {
  import opened Arithmetic
  import opened FrameLayout
  import opened Samples
  import opened Scaling
  import opened Boxes
  import opened ConvertParameters
  import opened Upscale
  import opened IntegralImages
  import opened ColorMatrices
  import opened PixelLoops
  import opened OutputSamples
  import opened Conversion
  import opened ConversionTheorems

  datatype ConvertType = ConvertVector | Convert3to3 | Convert3to1 | Convert1to3 | Convert1to1

  function MainComponents(t: FormatType): (n: nat)
  {
    if t.VftRgb? || t.VftYuv? then 3 else if t.VftGray? then 1 else 0
  }

  /** What new allocations hold: an integral buffer after it was cleared, and a frame. The frame is not cleared, but
      filled in Fit mode; its samples are then known. */
  datatype Memory = Memory(integral: seq<int>, frame: seq<int>) {
    ghost predicate Fits(fill: Fill, r: Request)
      requires Served(r)
    {
      && ZeroBorder(integral, r.input.width, r.input.height) && Holds(r.OutputFormat(), frame)
      && (r.settings.aspect.Fit?
         ==> SameSamples(Frame(r.OutputFormat(), frame), Frame(r.OutputFormat(), fill(r.OutputFormat()))))
    }
  }

  /** Output channel that writes components of type `t`. */
  function ChannelOf(g: PixelFormat, t: ComponentType): (c: nat)
    ensures c < 4
  {
    if t == MainType(g, 0) then 0 else if t == MainType(g, 1) then 1 else if t == MainType(g, 2) then 2 else 3
  }

  lemma ChannelFound(r: Request, t: ComponentType)
    requires Sized(r) && Contains(FormatSpecs(r.Target()).planes, t)
    ensures Used(WriterOf(r), ChannelOf(r.Target(), t)) && ChannelType(r.Target(), ChannelOf(r.Target(), t)) == t
  {
    hide FormatSpecs, Contains, SinkFor, LoadedMatrix, LoadedAlpha, GeometryOf;
    TableComponents(r.Target());
    assert t in MainTypes(FormatSpecs(r.Target()).ftype) || t == CtA;
  }

  /** The buffers agree on all samples that no window pixel writes. Outside Fit mode there is none, and any two
      agree. */
  ghost predicate SameBorder(r: Request, buf: seq<int>, ground: seq<int>)
    requires Served(r)
  {
    var o, win := r.OutputFormat(), WindowOf(r);
    && Holds(o, buf) && Holds(o, ground)
    && forall c: nat, x: nat, y: nat {:trigger SinkOf(WriterOf(r), c).Address(x, y)} ::
         Used(WriterOf(r), c) && x < o.width && y < o.height
         && Outside(WriterOf(r), win.x, win.y, win.width, win.height, SinkOf(WriterOf(r), c).Address(x, y)) ==>
           SampleByte(buf, SinkOf(WriterOf(r), c).Address(x, y))
               == SampleByte(ground, SinkOf(WriterOf(r), c).Address(x, y))
  }

  function SampleByte(buf: seq<int>, at: nat): (v: int)
  {
    if at < |buf| then buf[at] else 0
  }

  lemma BorderHolds(r: Request, buf: seq<int>, ground: seq<int>)
    requires Served(r) && SameBorder(r, buf, ground)
    ensures Holds(r.OutputFormat(), buf) && Holds(r.OutputFormat(), ground)
  {
  }

  /** Whatever earlier frames, or the allocator, left in the buffer, as long as its border is that of the ground: the
      samples come out as if written on the ground. */
  lemma ReusedBuffer(r: Request, buf: seq<int>, ground: seq<int>, data: seq<int>)
    requires Served(r) && SameBorder(r, buf, ground) && Holds(r.input, data)
    ensures Holds(r.OutputFormat(), buf) && Holds(r.OutputFormat(), ground)
    ensures SameSamples(Frame(r.OutputFormat(), Written(r, true, buf, data)),
                        Frame(r.OutputFormat(), Written(r, true, ground, data)))
  {
    hide Served, PlanesSize, FormatSpecs, Contains, GeometryOf, LinesInside, Written, SampleIn, SameBorder;
    BorderHolds(r, buf, ground);
    var o := r.OutputFormat();
    WrittenHolds(r, buf, data);
    WrittenHolds(r, ground, data);
    forall t: ComponentType, x: nat, y: nat | Sampled(o, Written(r, true, buf, data), t) && x < o.width && y < o.height
      ensures SampleIn(o, Written(r, true, buf, data), t, x, y) == SampleIn(o, Written(r, true, ground, data), t, x, y)
    {
      ReusedSample(r, buf, ground, data, t, x, y);
    }
  }

  /** Any two buffers have the same border where the whole output is written. */
  lemma NoBorderNeeded(r: Request, buf: seq<int>, ground: seq<int>)
    requires Served(r) && !r.settings.aspect.Fit? && Holds(r.OutputFormat(), buf) && Holds(r.OutputFormat(), ground)
    ensures SameBorder(r, buf, ground)
  {
    hide Served, FormatSpecs, GeometryOf, LinesInside, WriterOf, SinkOf, Sink.Address, Holds, Outside;
    var o, w, win := r.OutputFormat(), WriterOf(r), WindowOf(r);
    forall c: nat, x: nat, y: nat | Used(w, c) && x < o.width && y < o.height
      ensures !Outside(w, win.x, win.y, win.width, win.height, SinkOf(w, c).Address(x, y))
    {
      SampleNotOutside(w, win, c, x, y);
    }
  }

  /** Frames with the same samples have the same border. */
  lemma SamplesGiveBorder(r: Request, buf: seq<int>, ground: seq<int>)
    requires Served(r) && Holds(r.OutputFormat(), buf) && Holds(r.OutputFormat(), ground)
    requires SameSamples(Frame(r.OutputFormat(), buf), Frame(r.OutputFormat(), ground))
    ensures SameBorder(r, buf, ground)
  {
    hide Served, FormatSpecs, GeometryOf, LinesInside, WriterOf, SinkOf, Sink.Address, Holds, Outside, SampleIn,
      WindowOf, Sampled;
    var o, w := r.OutputFormat(), WriterOf(r);
    forall c: nat, x: nat, y: nat | Used(w, c) && x < o.width && y < o.height
      ensures SampleByte(buf, SinkOf(w, c).Address(x, y)) == SampleByte(ground, SinkOf(w, c).Address(x, y))
    {
      SampleAtSink(r, buf, c, x, y);
      SampleAtSink(r, ground, c, x, y);
    }
  }

  /** Writing a picture leaves the border alone. */
  lemma BorderKept(r: Request, buf: seq<int>, ground: seq<int>, data: seq<int>)
    requires Served(r) && SameBorder(r, buf, ground) && Holds(r.input, data)
    ensures Holds(r.OutputFormat(), buf) && SameBorder(r, Written(r, true, buf, data), ground)
  {
    hide Served, PlanesSize, FormatSpecs, GeometryOf, LinesInside, WriterOf, SinkOf, Sink.Address, Outside, WindowOf,
      GridFor, PutFrame, Separate, ByteSinks, Writer.Writable;
    BorderHolds(r, buf, ground);
    var o, w, win, after := r.OutputFormat(), WriterOf(r), WindowOf(r), Written(r, true, buf, data);
    WrittenHolds(r, buf, data);
    PictureReady(r, buf, data);
    forall i: nat | i < |buf| && Outside(w, win.x, win.y, win.width, win.height, i)
      ensures after[i] == buf[i]
    {
      FrameSparesOutside(w, buf, win.x, win.y, win.width, GridFor(r, data), i);
    }
  }

  lemma WrittenHolds(r: Request, buf: seq<int>, data: seq<int>)
    requires Served(r) && Holds(r.OutputFormat(), buf) && Holds(r.input, data)
    ensures Holds(r.OutputFormat(), Written(r, true, buf, data))
  {
    hide Served, PlanesSize, FormatSpecs, WriterOf, GridFor, GeometryOf, LinesInside;
    PictureReady(r, buf, data);
  }

  lemma ReusedSample(r: Request, buf: seq<int>, ground: seq<int>, data: seq<int>, t: ComponentType, x: nat, y: nat)
    requires Served(r) && SameBorder(r, buf, ground) && Holds(r.OutputFormat(), buf) && Holds(r.OutputFormat(), ground)
    requires Holds(r.input, data) && Contains(FormatSpecs(r.Target()).planes, t)
    requires x < r.OutputFormat().width && y < r.OutputFormat().height
    ensures var o, a, b := r.OutputFormat(), Written(r, true, buf, data), Written(r, true, ground, data);
            Sampled(o, a, t) && Sampled(o, b, t) && SampleIn(o, a, t, x, y) == SampleIn(o, b, t, x, y)
  {
    hide WriterOf, GridFor, Served, PlanesSize, FormatSpecs, Contains, GeometryOf, LinesInside, SinkOf, ChannelOf,
      ChannelType, Written, SameBorder, SampleIn, WindowOf, Holds, Sink.Address;
    WrittenHolds(r, buf, data);
    WrittenHolds(r, ground, data);
    var c := ChannelOf(r.Target(), t);
    ChannelFound(r, t);
    SampleAtSink(r, Written(r, true, buf, data), c, x, y);
    SampleAtSink(r, Written(r, true, ground, data), c, x, y);
    ReusedByte(r, buf, ground, data, c, x, y);
  }

  lemma ReusedByte(r: Request, buf: seq<int>, ground: seq<int>, data: seq<int>, c: nat, x: nat, y: nat)
    requires Served(r) && SameBorder(r, buf, ground) && Holds(r.OutputFormat(), buf) && Holds(r.OutputFormat(), ground)
    requires Holds(r.input, data) && Used(WriterOf(r), c) && x < r.OutputFormat().width && y < r.OutputFormat().height
    ensures var at := SinkOf(WriterOf(r), c).Address(x, y);
            && at < |buf| && |Written(r, true, buf, data)| == |buf| == |ground| == |Written(r, true, ground, data)|
            && Written(r, true, buf, data)[at] == Written(r, true, ground, data)[at]
  {
    hide WriterOf, GridFor, Served, ByteSinks, Writer.Writable, PlanesSize, FormatSpecs, PutFrame, Separate, GeometryOf,
      LinesInside, Outside, SinkOf, WindowOf, Sink.Address;
    PictureReady(r, buf, data);
    PictureReady(r, ground, data);
    SampleAtSink(r, buf, c, x, y);
    var w, win, grid, at := WriterOf(r), WindowOf(r), GridFor(r, data), SinkOf(WriterOf(r), c).Address(x, y);
    if Outside(w, win.x, win.y, win.width, win.height, at) {
      FrameSparesOutside(w, buf, win.x, win.y, win.width, grid, at);
      FrameSparesOutside(w, ground, win.x, win.y, win.width, grid, at);
      assert SampleByte(buf, at) == SampleByte(ground, at);
    } else {
      SameSamplesAfterwards(w, buf, ground, win.x, win.y, win.width, grid, at);
    }
  }

  lemma SampleNotOutside(w: Writer, win: Window, c: nat, x: nat, y: nat)
    requires Used(w, c) && win.Has(x, y)
    ensures !Outside(w, win.x, win.y, win.width, win.height, SinkOf(w, c).Address(x, y))
  {
    hide Sink.Address, SinkOf;
  }

  /** `out` holds the resized samples of one input component, one per window pixel. */
  ghost predicate ComponentGrid(r: Request, view: ComponentView, out: seq<seq<int>>)
    requires Served(r) && view.Readable(r.input.width, r.input.height)
  {
    var win := WindowOf(r);
    && |out| == win.height && Rectangular(out, win.width)
    && forall x, y | 0 <= x < win.width && 0 <= y < win.height ::
         out[y][x] == SampleFor(r, view, win.x + x, win.y + y)
  }

  predicate Resized(r: Request)
    requires r.Key().Valid()
  {
    Linear(r) && !r.Key().Geometry().resize.ResizeKeep?
  }

  lemma ConfiguredGeometry(fc: FrameConvertParameters, k: ScalingKey)
    requires k.Valid() && fc.Configured(k)
    ensures fc.geometry == k.Geometry()
  {
  }

  lemma ReaderMode(r: Request)
    requires Served(r) && Resized(r)
    ensures var k := r.Key();
            if k.Geometry().resize.ResizeUp? then Upscaling(k) else k.Geometry().resize.ResizeDown? && Downscaling(k)
  {
    hide GeometryOf, LinesInside, Covers;
  }

  lemma BlendedGrid(r: Request, view: ComponentView, out: seq<seq<int>>)
    requires Served(r) && view.Readable(r.input.width, r.input.height) && Linear(r)
             && r.Key().Geometry().resize.ResizeUp?
    requires Upscaling(r.Key()) && |out| == r.Key().Geometry().oheight
    requires forall y :: 0 <= y < |out| ==> BlendLine(r.Key(), view, out[y], r.Key().Geometry().ymin + y)
    ensures ComponentGrid(r, view, out)
  {
    hide GeometryOf, Served, LinesInside, Covers, BlendAt, Upscaling, ComponentView.Readable, WindowOf;
    var win := WindowOf(r);
    forall x, y | 0 <= x < win.width && 0 <= y < win.height
      ensures out[y][x] == SampleFor(r, view, win.x + x, win.y + y)
    {
      assert BlendLine(r.Key(), view, out[y], r.Key().Geometry().ymin + y);
    }
  }

  lemma AveragedGrid(r: Request, view: ComponentView, out: seq<seq<int>>)
    requires Served(r) && view.Readable(r.input.width, r.input.height) && Linear(r)
             && r.Key().Geometry().resize.ResizeDown?
    requires Downscaling(r.Key()) && |out| == r.Key().Geometry().oheight
    requires SampleGrid(view.Image(r.input.width, r.input.height), r.input.width, r.input.height)
    requires forall y :: 0 <= y < |out| ==>
               MeanLine(r.Key(), view.Image(r.input.width, r.input.height), out[y], r.Key().Geometry().ymin + y)
    ensures ComponentGrid(r, view, out)
  {
    hide GeometryOf, Served, LinesInside, MeanAt, ComponentView.Readable, SampleGrid, WindowOf, Downscaling;
    var win := WindowOf(r);
    forall x, y | 0 <= x < win.width && 0 <= y < win.height
      ensures out[y][x] == SampleFor(r, view, win.x + x, win.y + y)
    {
      assert MeanLine(r.Key(), view.Image(r.input.width, r.input.height), out[y], r.Key().Geometry().ymin + y);
    }
  }

  /** The four component grids of a picture, pixel by pixel. */
  function Combined(xs: seq<seq<int>>, ys: seq<seq<int>>, zs: seq<seq<int>>, alphas: seq<seq<int>>, alpha: bool,
                    width: nat): (grid: seq<seq<Pixel>>)
    requires |xs| == |ys| == |zs| && Rectangular(xs, width) && Rectangular(ys, width) && Rectangular(zs, width)
    requires alpha ==> |alphas| == |xs| && Rectangular(alphas, width)
    ensures |grid| == |xs| && Rectangular(grid, width)
  {
    seq(|xs|, i requires 0 <= i < |xs| =>
      seq(width, j requires 0 <= j < width => Pixel(xs[i][j], ys[i][j], zs[i][j], if alpha then alphas[i][j] else 0)))
  }

  lemma CombinedIsPicture(r: Request, data: seq<int>, xs: seq<seq<int>>, ys: seq<seq<int>>, zs: seq<seq<int>>,
                          alphas: seq<seq<int>>)
    requires Served(r) && Holds(r.input, data)
    requires var s := SourcesOf(r.input, data);
             && SourcesReadable(WriterOf(r), s, r.input.width, r.input.height)
             && ComponentGrid(r, s.x, xs) && ComponentGrid(r, s.y, ys) && ComponentGrid(r, s.z, zs)
             && (WriterOf(r).ReadsAlpha() ==> ComponentGrid(r, s.a, alphas))
    ensures Combined(xs, ys, zs, alphas, WriterOf(r).ReadsAlpha(), WindowOf(r).width) == GridFor(r, data)
  {
    hide GeometryOf, Served, LinesInside, SampleFor, WriterOf, SourcesOf, ComponentView.Readable, PlanesSize, WindowOf;
    var win := WindowOf(r);
    var c := Combined(xs, ys, zs, alphas, WriterOf(r).ReadsAlpha(), win.width);
    var g := GridFor(r, data);
    forall y | 0 <= y < win.height
      ensures c[y] == g[y]
    {
      forall x | 0 <= x < win.width
        ensures c[y][x] == g[y][x]
      {
        assert InWindow(r, win.x + x, win.y + y);
      }
    }
  }

  /** The tables of a request, as far as the nearest-sample loops read them. */
  predicate NearestTables(r: Request, t: Tables)
    requires r.Key().Valid()
  {
    var g := r.Key().Geometry();
    && ColumnTables(t, ColumnAxis(g), g.width, r.input.width)
    && LineTables(t, LineAxis(g), g.height, r.input.height, g.resize.ResizeDown?)
  }

  /** Where the linear scaler is off or has nothing to do, the picture is the nearest-sample one. */
  lemma NearestIsPicture(r: Request, data: seq<int>, t: Tables)
    requires Served(r) && Holds(r.input, data) && !Resized(r) && NearestTables(r, t)
    requires SourcesReadable(WriterOf(r), SourcesOf(r.input, data), r.input.width, r.input.height)
    ensures var win := WindowOf(r);
            && Indices(t.srcWidth, win.x, win.width, r.input.width)
               && Indices(t.srcHeight, win.y, win.height, r.input.height)
            && NearestGrid(WriterOf(r), SourcesOf(r.input, data), r.input.width, r.input.height, t.srcWidth,
                           t.srcHeight, win.x, win.y, win.width, win.height)
               == GridFor(r, data)
  {
    hide GeometryOf, Served, LinesInside, WriterOf, SourcesOf, ComponentView.Readable, PlanesSize, WindowOf,
      NearestTables, PixelAt, PixelFor, Resized;
    NearestIndices(r, t);
    var win := WindowOf(r);
    var n := NearestGrid(WriterOf(r), SourcesOf(r.input, data), r.input.width, r.input.height, t.srcWidth,
                         t.srcHeight, win.x, win.y, win.width, win.height);
    var g := GridFor(r, data);
    forall y | 0 <= y < win.height
      ensures n[y] == g[y]
    {
      forall x | 0 <= x < win.width
        ensures n[y][x] == g[y][x]
      {
        NearestPixel(r, data, t, win.x + x, win.y + y);
      }
    }
  }

  lemma NearestPixel(r: Request, data: seq<int>, t: Tables, x: nat, y: nat)
    requires Served(r) && Holds(r.input, data) && !Resized(r) && NearestTables(r, t) && InWindow(r, x, y)
    requires SourcesReadable(WriterOf(r), SourcesOf(r.input, data), r.input.width, r.input.height)
    ensures x < |t.srcWidth| && y < |t.srcHeight|
    ensures 0 <= t.srcWidth[x] < r.input.width && 0 <= t.srcHeight[y] < r.input.height
    ensures PixelAt(WriterOf(r), SourcesOf(r.input, data), r.input.width, r.input.height, t.srcWidth[x], t.srcHeight[y])
            == PixelFor(r, data, x, y)
  {
    hide GeometryOf, Served, LinesInside, WriterOf, SourcesOf, ComponentView.Readable, ComponentView.SampleAt,
      PlanesSize, Axis.DstToSrc, Axis.BoxEnd, Axis.NextSource, Axis.Weight, BlendAt, MeanAt, WindowOf;
    WindowPixel(r, x, y);
  }

  lemma NearestIndices(r: Request, t: Tables)
    requires Served(r) && !Resized(r) && NearestTables(r, t)
    ensures var win := WindowOf(r);
            && Indices(t.srcWidth, win.x, win.width, r.input.width)
               && Indices(t.srcHeight, win.y, win.height, r.input.height)
  {
    hide GeometryOf, LinesInside, Axis.DstToSrc, Axis.BoxEnd, Axis.NextSource, Axis.Weight, WindowOf, ByteFormat;
    var win, g := WindowOf(r), r.Key().Geometry();
    if win.width >= 1 {
      SourceIndexInside(ColumnAxis(g));
    }
    if win.height >= 1 {
      SourceIndexInside(LineAxis(g));
    }
    forall x | win.x <= x < win.x + win.width
      ensures 0 <= t.srcWidth[x] < r.input.width
    {
      assert ColumnAxis(g).Active(x) && t.srcWidth[x] == ColumnAxis(g).DstToSrc(x);
    }
    forall y | win.y <= y < win.y + win.height
      ensures 0 <= t.srcHeight[y] < r.input.height
    {
      assert LineAxis(g).Active(y) && t.srcHeight[y] == LineAxis(g).DstToSrc(y);
    }
  }

  /** One slot: the conversion parameters and the buffers that go with them. */
  class CacheSlot {
    var inputFormat: VideoFormat
    var settings: Settings
    var convertType: ConvertType
    var dataTypes: (nat, nat)
    var alphaMode: AlphaMode
    var fastConversion: bool
    const color: ColorConvert
    const scaling: FrameConvertParameters
    var outputConvertFormat: VideoFormat
    var output: array<int>
    var integral: seq<array<int>>
    ghost const fill: Fill
    ghost var Repr: set<object>

    ghost predicate Shape()
      reads this
    {
      && this in Repr && color in Repr && scaling in Repr && output in Repr
      && (forall i :: 0 <= i < |integral| ==> integral[i] in Repr && integral[i] != output)
      && (forall i, j :: 0 <= i < j < |integral| ==> integral[i] != integral[j])
    }

    ghost predicate Valid()
      reads this, Repr
    {
      Shape() && (inputFormat == DEFAULT_FORMAT || Coherent())
    }

    /** The stored key. */
    function Stored(): (r: Request)
      reads this
    {
      Request(inputFormat, settings)
    }

    /** The stored key implies the derived parameters, tables and buffers. */
    ghost predicate Coherent()
      reads this, Repr
    {
      Shape() && Served(Stored()) && ColourReady(Stored()) && ScalingReady(Stored())
    }

    ghost predicate ColourReady(r: Request)
      reads this, color
      requires Served(r)
    {
      && convertType == (if WriterOf(r).kernel.ByVector? then ConvertVector else Convert3to3)
      && alphaMode == WriterOf(r).mode && fastConversion
      && color.matrix == WriterOf(r).matrix && (alphaMode.AlphaIn? ==> color.alpha == WriterOf(r).alpha)
    }

    ghost predicate ScalingReady(r: Request)
      reads this, Repr
      requires Served(r) && Shape()
    {
      && scaling.Configured(r.Key())
      && outputConvertFormat == r.OutputFormat()
      && SameBorder(r, output[..], Ground(fill, r))
      && (r.Key().Geometry().resize.ResizeDown? ==>
            |integral| == 4 && forall i :: 0 <= i < 4 ==> ZeroBorder(integral[i][..], r.input.width, r.input.height))
    }

    constructor (ghost fill: Fill)
      ensures Valid() && fresh(Repr) && inputFormat == DEFAULT_FORMAT && this.fill == fill
    {
      hide CacheSlot.Coherent, Holds;
      this.fill := fill;
      inputFormat := DEFAULT_FORMAT;
      settings := Settings(DEFAULT_FORMAT, ITUR_BT601, StudioSwing, ScalingFast, Ignore, Rect(0, 0, 0, 0));
      convertType := ConvertVector;
      dataTypes := (8, 8);
      alphaMode := AlphaInOut;
      fastConversion := false;
      var c := new ColorConvert(ITUR_BT601, StudioSwing);
      var s := new FrameConvertParameters();
      var o := new int[0];
      color, scaling, output := c, s, o;
      outputConvertFormat := DEFAULT_FORMAT;
      integral := [];
      new;
      Repr := {this, color, scaling, output};
    }

    method LoadColorMatrix(f: PixelFormat, g: PixelFormat)
      requires ByteFormat(f) && ByteFormat(g)
      modifies color`matrix
      ensures color.matrix == LoadedMatrix(f, g, color.yuvColorSpace, color.yuvColorSpaceType)
    {
      hide FormatSpecs, Contains, Rgb2YuvMatrix, Yuv2RgbMatrix, Abc2xyzMatrix, DepthOf, MainType;
      MainDepths(f);
      MainDepths(g);
      var rgbIn, rgbOut := FormatSpecs(f).ftype.VftRgb?, FormatSpecs(g).ftype.VftRgb?;
      var a, b, c := DepthOf(f, MainType(f, 0)), DepthOf(f, MainType(f, 1)), DepthOf(f, MainType(f, 2));
      var x, y, z := DepthOf(g, MainType(g, 0)), DepthOf(g, MainType(g, 1)), DepthOf(g, MainType(g, 2));
      if rgbIn == rgbOut {
        color.LoadAbc2xyzMatrix(a, b, c, x, y, z);
      } else if rgbIn {
        color.LoadRgb2yuvMatrix(a, b, c, x, y, z);
      } else {
        color.LoadYuv2rgbMatrix(a, b, c, x, y, z);
      }
    }

    method LoadAlphaMatrix(f: PixelFormat, g: PixelFormat)
      requires ByteFormat(f) && ByteFormat(g) && HasAlpha(f)
      modifies color`alpha
      ensures color.alpha == LoadedAlpha(f, g, color.yuvColorSpaceType)
    {
      hide FormatSpecs, Contains, AlphaYuvMatrix, AlphaRgbMatrix, DepthOf;
      AlphaDepth(f);
      if FormatSpecs(g).ftype.VftRgb? {
        color.LoadAlphaRgbMatrix(DepthOf(f, CtA));
      } else {
        color.LoadAlphaYuvMatrix(DepthOf(f, CtA), DepthOf(g, CtY), DepthOf(g, CtU), DepthOf(g, CtV));
      }
    }

    /** `loadMatrix`. The alpha matrix is replaced only when the input has alpha. */
    method LoadMatrix(f: PixelFormat, g: PixelFormat, space: YuvColorSpace, swing: YuvColorSpaceType)
      requires ByteFormat(f) && ByteFormat(g)
      modifies color
      ensures color.matrix == LoadedMatrix(f, g, space, swing)
      ensures color.alpha == if HasAlpha(f) then LoadedAlpha(f, g, swing) else old(color.alpha)
    {
      hide FormatSpecs, Contains, LoadedMatrix, LoadedAlpha;
      color.yuvColorSpace, color.yuvColorSpaceType := space, swing;
      LoadColorMatrix(f, g);
      if HasAlpha(f) {
        LoadAlphaMatrix(f, g);
      }
    }

    /** `configure`: parameters without a matching case keep their earlier value. */
    method Configure(r: Request)
      requires Shape() && Served(r)
      modifies this`convertType, this`dataTypes, this`alphaMode, this`fastConversion, color
      ensures ColourReady(r)
    {
      hide Served, FormatSpecs, Contains, SinkFor, GeometryOf, LinesInside, LoadedMatrix, LoadedAlpha, DepthOf;
      var f, g := r.input.format, r.Target();
      var ft, gt := FormatSpecs(f).ftype, FormatSpecs(g).ftype;
      var idepth, odepth := DepthOf(f, MainType(f, 0)), DepthOf(g, MainType(g, 0));
      if idepth in {8, 16, 32} && odepth in {8, 16, 32} {
        dataTypes := (idepth, odepth);
      }
      var icomponents, ocomponents := MainComponents(ft), MainComponents(gt);
      if icomponents == 3 && ft == gt {
        convertType := ConvertVector;
      } else if icomponents == 3 && ocomponents == 3 {
        convertType := Convert3to3;
      } else if icomponents == 3 && ocomponents == 1 {
        convertType := Convert3to1;
      } else if icomponents == 1 && ocomponents == 3 {
        convertType := Convert1to3;
      } else if icomponents == 1 && ocomponents == 1 {
        convertType := Convert1to1;
      }
      LoadMatrix(f, g, r.settings.space, r.settings.swing);
      alphaMode := AlphaModeOf(f, g);
      fastConversion := IsFast(FormatSpecs(f)) && IsFast(FormatSpecs(g));
      TableFastFormats(f);
      TableFastFormats(g);
      TableComponents(f);
      TableComponents(g);
    }

    /** Four integral buffers as a new allocation leaves them. */
    method AllocateDlBuffers(memory: seq<int>)
      requires Shape()
      modifies this`integral, this`Repr
      ensures Shape() && |integral| == 4 && forall i :: 0 <= i < 4 ==> integral[i][..] == memory
      ensures Repr >= old(Repr) && fresh(Repr - old(Repr))
    {
      var ix := new int[|memory|](i requires 0 <= i < |memory| => memory[i]);
      var iy := new int[|memory|](i requires 0 <= i < |memory| => memory[i]);
      var iz := new int[|memory|](i requires 0 <= i < |memory| => memory[i]);
      var ia := new int[|memory|](i requires 0 <= i < |memory| => memory[i]);
      integral := [ix, iy, iz, ia];
      Repr := Repr + {ix, iy, iz, ia};
    }

    /** `configureScaling`: all tables are rebuilt, the output frame is created anew. */
    method ConfigureScaling(r: Request, memory: Memory)
      requires Shape() && Served(r) && memory.Fits(fill, r)
      modifies this`outputConvertFormat, this`output, this`integral, this`Repr, scaling
      ensures Shape() && ScalingReady(r) && fresh(Repr - old(Repr))
    {
      hide Served, FormatSpecs, GeometryOf, LinesInside, WriterOf, ZeroBorder, Outside, PlanesSize, ColumnTables,
        LineTables, AreaTable, SameSamples, SameBorder, AreasFit;
      scaling.ConfigureScaling(r.Key());
      outputConvertFormat := VideoFormat(r.Target(), scaling.geometry.width, scaling.geometry.height, r.input.fps);
      integral := [];
      if scaling.geometry.resize.ResizeDown? {
        AllocateDlBuffers(memory.integral);
      }
      output := new int[FrameBytes(outputConvertFormat)](i requires 0 <= i < |memory.frame| => memory.frame[i]);
      Repr := Repr + {output};
      assert output[..] == memory.frame;
      if r.settings.aspect.Fit? {
        SamplesGiveBorder(r, memory.frame, Ground(fill, r));
      } else {
        NoBorderNeeded(r, memory.frame, Ground(fill, r));
      }
    }

    /** Configures the slot for a request and stores it as the key. */
    method Update(r: Request, memory: Memory)
      requires Valid() && Served(r) && memory.Fits(fill, r)
      modifies Repr
      ensures Valid() && Coherent() && Stored() == r && fresh(Repr - old(Repr))
    {
      hide Served, FormatSpecs, GeometryOf, LinesInside, WriterOf, Memory.Fits, PlanesSize,
        FrameConvertParameters.Configured, SameBorder;
      Configure(r);
      ConfigureScaling(r, memory);
      inputFormat, settings := r.input, r.settings;
    }

    /** The writing parameters as the slot holds them. */
    method CurrentWriter() returns (w: Writer)
      requires Valid() && Coherent()
      ensures w == WriterOf(Stored())
    {
      hide Served, FormatSpecs, Contains, SinkFor, GeometryOf, LinesInside, LoadedMatrix, LoadedAlpha,
        FrameConvertParameters.Configured, ZeroBorder;
      var g := Stored().Target();
      MainComponent(g, 0);
      MainComponent(g, 1);
      MainComponent(g, 2);
      w := Writer(if convertType.ConvertVector? then ByVector else ByMatrix, color.matrix,
                  if alphaMode.AlphaIn? then color.alpha else NO_ALPHA,
                  alphaMode, SinkFor(outputConvertFormat, MainType(g, 0)), SinkFor(outputConvertFormat, MainType(g, 1)),
                  SinkFor(outputConvertFormat, MainType(g, 2)),
                      SinkFor(outputConvertFormat, if HasAlpha(g) then CtA else MainType(g, 0)));
    }

    /** The linear scaler on one component, through integral buffer `i` when shrinking. */
    method ReadComponent(r: Request, view: ComponentView, i: nat) returns (out: seq<seq<int>>)
      requires Served(r) && view.Readable(r.input.width, r.input.height) && Resized(r) && i < 4
      requires Coherent() && Stored() == r
      modifies integral
      ensures Coherent() && Stored() == r && ComponentGrid(r, view, out)
    {
      hide Served, GeometryOf, LinesInside, WriterOf, FrameConvertParameters.Configured, ZeroBorder,
        ComponentView.Readable, BlendLine, MeanLine, ReadLine, SampleGrid, ComponentGrid, SameBorder, Ground,
        Downscaling, Dividing, Upscaling, WindowOf, ComponentView.Image, PlanesSize, FormatSpecs, Divides;
      ConfiguredGeometry(scaling, r.Key());
      ReaderMode(r);
      if scaling.geometry.resize.ResizeUp? {
        out := UpscaleComponent(scaling, r.Key(), view);
        BlendedGrid(r, view, out);
      } else {
        DownscalingDivides(r.Key());
        out := scaling.Downscale(r.Key(), view, integral[i]);
        AveragedGrid(r, view, out);
      }
    }

    /** The picture of the linear scaler, component by component. */
    method ReadPicture(r: Request, data: seq<int>) returns (grid: seq<seq<Pixel>>)
      requires Served(r) && Holds(r.input, data) && Resized(r)
      requires Coherent() && Stored() == r
      modifies integral
      ensures Coherent() && Stored() == r && grid == GridFor(r, data)
    {
      hide Served, GeometryOf, LinesInside, WriterOf, ComponentView.Readable, ComponentGrid, SourcesOf, ScalingReady,
        ColourReady, PlanesSize, GridFor, Combined, Resized, WindowOf;
      SourcesReady(r, data);
      var s := SourcesOf(r.input, data);
      var xs := ReadComponent(r, s.x, 0);
      var ys := ReadComponent(r, s.y, 1);
      var zs := ReadComponent(r, s.z, 2);
      var alphas := [];
      var readsAlpha := alphaMode.AlphaInOut? || alphaMode.AlphaIn?;
      AlphaRead(this, r);
      if readsAlpha {
        alphas := ReadComponent(r, s.a, 3);
      }
      SlotWindow(this, r);
      CombinedIsPicture(r, data, xs, ys, zs, alphas);
      GridsAlign(r, data, xs, ys, zs, alphas);
      grid := Combined(xs, ys, zs, alphas, readsAlpha, scaling.geometry.owidth);
    }

    /** The nearest-sample loops over the slot's output frame. */
    method ConvertNearest(r: Request, data: seq<int>, w: Writer)
      requires Served(r) && Holds(r.input, data) && !Resized(r) && w == WriterOf(r)
      requires Shape() && scaling.Configured(r.Key()) && Holds(r.OutputFormat(), output[..])
      modifies output
      ensures output[..] == Written(r, true, old(output[..]), data)
    {
      hide Served, GeometryOf, LinesInside, WriterOf, ComponentView.Readable, SourcesOf, PlanesSize, GridFor, Resized,
        Separate, ByteSinks, Writer.Writable, IdentityVector, ColumnTables, LineTables, AreaTable, PutFrame, ByteViews;
      ghost var before := output[..];
      PictureReady(r, before, data);
      SourcesReady(r, data);

      ConfiguredGeometry(scaling, r.Key());
      NearestIsPicture(r, data, scaling.tables);
      ConvertFrame(w, true, SourcesOf(r.input, data), r.input.width, r.input.height, scaling.tables.srcWidth,
                   scaling.tables.srcHeight,
                   scaling.geometry.xmin, scaling.geometry.xmax, scaling.geometry.ymin, scaling.geometry.ymax, output);
    }

    /** The linear loops over the slot's output frame. */
    method ConvertResized(r: Request, data: seq<int>, w: Writer)
      requires Served(r) && Holds(r.input, data) && Resized(r) && w == WriterOf(r)
      requires Coherent() && Stored() == r
      modifies output, integral
      ensures output[..] == Written(r, true, old(output[..]), data)
      ensures SameBorder(r, output[..], Ground(fill, r)) ==> Coherent()
    {
      hide Served, GeometryOf, LinesInside, WriterOf, PlanesSize, GridFor, Resized, Separate, ByteSinks,
        Writer.Writable, ZeroBorder, ColourReady, FrameConvertParameters.Configured, PutFrame, Outside, SameBorder,
        Ground, WindowOf;
      ghost var before := output[..];
      SlotFormat(this, r);
      var grid := ReadPicture(r, data);
      PictureReady(r, before, data);
      SlotWindow(this, r);
      WriteGrid(w, true, output, scaling.geometry.xmin, scaling.geometry.ymin, scaling.geometry.owidth, grid);
    }

    /** `convertFast8bits`: the frame is read as the scaling mode says, converted and written over the slot's output
        frame. */
    method ConvertFast8Bits(r: Request, data: seq<int>)
      requires Served(r) && Holds(r.input, data)
      requires Coherent() && Stored() == r
      modifies output, integral
      ensures Coherent() && Stored() == r
      ensures Holds(r.OutputFormat(), output[..])
      ensures SameSamples(Frame(r.OutputFormat(), output[..]),
                          Frame(r.OutputFormat(), Written(r, true, Ground(fill, r), data)))
    {
      hide Served, GeometryOf, LinesInside, WriterOf, ColourReady, PlanesSize, Written, ZeroBorder, ColumnTables,
        LineTables, AreaTable, SameSamples, SameBorder, Ground, WindowOf;
      ghost var before := output[..];
      ConfiguredGeometry(scaling, r.Key());
      var w := CurrentWriter();
      ReusedBuffer(r, before, Ground(fill, r), data);
      WrittenHolds(r, before, data);
      BorderKept(r, before, Ground(fill, r), data);
      if settings.scaling.ScalingLinear? && !scaling.geometry.resize.ResizeKeep? {
        ConvertResized(r, data, w);
      } else {
        ConvertNearest(r, data, w);
      }
    }
  }

  lemma SlotFormat(slot: CacheSlot, r: Request)
    requires Served(r) && slot.Shape() && slot.ScalingReady(r)
    ensures slot.outputConvertFormat == r.OutputFormat() && Holds(r.OutputFormat(), slot.output[..])
  {
  }

  lemma SlotWindow(slot: CacheSlot, r: Request)
    requires Served(r) && slot.Shape() && slot.ScalingReady(r)
    ensures var win, g := WindowOf(r), slot.scaling.geometry;
            g.xmin == win.x && g.xmax == win.x + win.width && g.ymin == win.y && g.ymax == win.y + win.height
            && g.owidth == win.width && g.oheight == win.height
  {
  }

  lemma AlphaRead(slot: CacheSlot, r: Request)
    requires Served(r) && slot.ColourReady(r)
    ensures WriterOf(r).ReadsAlpha() <==> slot.alphaMode.AlphaInOut? || slot.alphaMode.AlphaIn?
  {
  }

  lemma GridsAlign(r: Request, data: seq<int>, xs: seq<seq<int>>, ys: seq<seq<int>>, zs: seq<seq<int>>,
                   alphas: seq<seq<int>>)
    requires Served(r) && Holds(r.input, data)
    requires var s := SourcesOf(r.input, data);
             && SourcesReadable(WriterOf(r), s, r.input.width, r.input.height)
             && ComponentGrid(r, s.x, xs) && ComponentGrid(r, s.y, ys) && ComponentGrid(r, s.z, zs)
             && (WriterOf(r).ReadsAlpha() ==> ComponentGrid(r, s.a, alphas))
    ensures var width := WindowOf(r).width;
            && |xs| == |ys| == |zs| && Rectangular(xs, width) && Rectangular(ys, width) && Rectangular(zs, width)
            && (WriterOf(r).ReadsAlpha() ==> |alphas| == |xs| && Rectangular(alphas, width))
  {
    hide Served, GeometryOf, LinesInside, WriterOf, ComponentView.Readable, SourcesOf, SampleFor;
  }
}
