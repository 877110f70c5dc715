/** What one conversion request means: `configure`, `configureScaling` and the 8-bit loops put together, with no cache
    (VCamUtils/src/videoconverter.cpp, VCamUtils/src/colorconvert.cpp). */
module Conversion {
  import opened Arithmetic
  import opened Bytes
  import opened FrameLayout
  import opened Samples
  import opened Scaling
  import opened Boxes
  import opened ConvertParameters
  import opened Upscale
  import opened IntegralImages
  import opened ColorMatrices
  import opened PixelLoops
  import opened OutputSamples

  /** `fps` is carried along and compared, never computed with. */
  datatype VideoFormat = VideoFormat(format: PixelFormat, width: int, height: int, fps: int) {
    predicate SameAs(other: VideoFormat)
    {
      format == other.format && width == other.width && height == other.height
    }
  }

  datatype Frame = Frame(format: VideoFormat, data: seq<int>)

  const DEFAULT_FORMAT := VideoFormat(NoFormat, 0, 0, 0)
  const EMPTY := Frame(DEFAULT_FORMAT, [])

  datatype ScalingMode = ScalingFast | ScalingLinear

  datatype Settings = Settings(outputFormat: VideoFormat, space: YuvColorSpace, swing: YuvColorSpaceType,
                               scaling: ScalingMode, aspect: AspectRatioMode, inputRect: Rect)

  /** What a cache slot is configured for. */
  datatype Request = Request(input: VideoFormat, settings: Settings) {

    function Target(): (f: PixelFormat)
    {
      if settings.outputFormat.format.NoFormat? then input.format else settings.outputFormat.format
    }

    function Key(): (k: ScalingKey)
    {
      ScalingKey(input.width, input.height, settings.outputFormat.width, settings.outputFormat.height,
                 settings.inputRect, settings.aspect)
    }

    function OutputFormat(): (f: VideoFormat)
      requires Key().Valid()
    {
      VideoFormat(Target(), Key().Geometry().width, Key().Geometry().height, input.fps)
    }
  }

  // ----- Colour -----

  function DepthOf(f: PixelFormat, t: ComponentType): (d: nat)
  {
    ComponentOf(FormatSpecs(f).planes, t).depth
  }

  /** The matrix of `loadMatrix` between formats of the two families of the table. */
  function LoadedMatrix(f: PixelFormat, g: PixelFormat, space: YuvColorSpace, swing: YuvColorSpaceType): (m: Matrix)
    requires ByteFormat(f) && ByteFormat(g)
  {
    MainDepths(f);
    MainDepths(g);
    var rgbIn, rgbOut := FormatSpecs(f).ftype.VftRgb?, FormatSpecs(g).ftype.VftRgb?;
    var a, b, c := DepthOf(f, MainType(f, 0)), DepthOf(f, MainType(f, 1)), DepthOf(f, MainType(f, 2));
    var x, y, z := DepthOf(g, MainType(g, 0)), DepthOf(g, MainType(g, 1)), DepthOf(g, MainType(g, 2));
    if rgbIn == rgbOut then Abc2xyzMatrix(a, b, c, x, y, z)
    else if rgbIn then Rgb2YuvMatrix(space, swing, a, b, c, x, y, z)
    else Yuv2RgbMatrix(space, swing, a, b, c, x, y, z)
  }

  /** `loadAlphaMatrix`, for inputs with alpha. */
  function LoadedAlpha(f: PixelFormat, g: PixelFormat, swing: YuvColorSpaceType): (m: AlphaMatrix)
    requires ByteFormat(f) && ByteFormat(g) && HasAlpha(f)
  {
    AlphaDepth(f);
    if FormatSpecs(g).ftype.VftRgb? then AlphaRgbMatrix(DepthOf(f, CtA))
    else AlphaYuvMatrix(swing, DepthOf(f, CtA), DepthOf(g, CtY), DepthOf(g, CtU), DepthOf(g, CtV))
  }

  /** A table format of one byte per component. */
  predicate ByteFormat(f: PixelFormat)
  {
    f != NoFormat && !PackedIn16Bits(f)
  }

  predicate HasAlpha(f: PixelFormat)
  {
    Contains(FormatSpecs(f).planes, CtA)
  }

  /** The types read or written as first, second and third component. */
  function MainType(f: PixelFormat, i: nat): (t: ComponentType)
    requires i < 3
  {
    if FormatSpecs(f).ftype.VftRgb? then (if i == 0 then CtR else if i == 1 then CtG else CtB)
    else (if i == 0 then CtY else if i == 1 then CtU else CtV)
  }

  /** A component of a byte format, by type: it exists, in a plane of plain bytes. */
  lemma ByteComponent(f: PixelFormat, t: ComponentType)
    requires ByteFormat(f) && Contains(FormatSpecs(f).planes, t)
    ensures var ps, i, c := FormatSpecs(f).planes, ComponentPlane(FormatSpecs(f).planes, t),
            ComponentOf(FormatSpecs(f).planes, t);
            && 0 <= i < |ps| && c in ps[i].components && c.ctype == t
            && c.shift == 0 && c.depth == 8 && c.byteDepth == 1
  {
    hide FormatSpecs, RegularPlane;
    TablePlanes(f);
  }

  lemma MainComponent(f: PixelFormat, i: nat)
    requires ByteFormat(f) && i < 3
    ensures Contains(FormatSpecs(f).planes, MainType(f, i))
  {
    hide FormatSpecs, Contains;
    TableComponents(f);
    assert MainType(f, i) in MainTypes(FormatSpecs(f).ftype);
  }

  lemma MainDepths(f: PixelFormat)
    requires ByteFormat(f)
    ensures DepthOf(f, MainType(f, 0)) == 8 && DepthOf(f, MainType(f, 1)) == 8 && DepthOf(f, MainType(f, 2)) == 8
  {
    hide FormatSpecs, Contains, MainType;
    MainComponent(f, 0);
    MainComponent(f, 1);
    MainComponent(f, 2);
    ByteComponent(f, MainType(f, 0));
    ByteComponent(f, MainType(f, 1));
    ByteComponent(f, MainType(f, 2));
  }

  lemma AlphaDepth(f: PixelFormat)
    requires ByteFormat(f) && HasAlpha(f)
    ensures DepthOf(f, CtA) == 8
  {
    hide FormatSpecs, Contains;
    ByteComponent(f, CtA);
  }

  // ----- Reading and writing -----

  function FrameBytes(f: VideoFormat): (n: nat)
    requires f.width >= 0 && f.height >= 0
  {
    PlanesSize(FormatSpecs(f.format).planes, f.width, f.height)
  }

  function ViewOf(f: VideoFormat, data: seq<int>, t: ComponentType): (v: ComponentView)
    requires f.width >= 0 && f.height >= 0 && Contains(FormatSpecs(f.format).planes, t)
  {
    var planes := FormatSpecs(f.format).planes;
    ComponentView(data, LayoutOf(planes, f.width, f.height, ComponentPlane(planes, t)), ComponentOf(planes, t), 1,
                  false)
  }

  function SinkFor(f: VideoFormat, t: ComponentType): (s: Sink)
    requires f.width >= 0 && f.height >= 0 && Contains(FormatSpecs(f.format).planes, t)
  {
    var planes := FormatSpecs(f.format).planes;
    Sink(LayoutOf(planes, f.width, f.height, ComponentPlane(planes, t)), ComponentOf(planes, t), 1)
  }

  function SourcesOf(f: VideoFormat, data: seq<int>): (s: Sources)
    requires ByteFormat(f.format) && f.width >= 0 && f.height >= 0
  {
    MainComponent(f.format, 0);
    MainComponent(f.format, 1);
    MainComponent(f.format, 2);
    Sources(ViewOf(f, data, MainType(f.format, 0)), ViewOf(f, data, MainType(f.format, 1)),
            ViewOf(f, data, MainType(f.format, 2)),
            ViewOf(f, data, if HasAlpha(f.format) then CtA else MainType(f.format, 0)))
  }

  function AlphaModeOf(f: PixelFormat, g: PixelFormat): (m: AlphaMode)
  {
    if HasAlpha(f) then (if HasAlpha(g) then AlphaInOut else AlphaIn) else if HasAlpha(g) then AlphaOut else NoAlpha
  }

  const NO_ALPHA := AlphaMatrix(AlphaRow(0, 0, 0), AlphaRow(0, 0, 0), AlphaRow(0, 0, 0), 0)

  /** The writing half of a request. The alpha matrix is used only for alpha going to a format without. */
  function WriterOf(r: Request): (w: Writer)
    requires Sized(r)
  {
    var f, g, o := r.input.format, r.Target(), r.OutputFormat();
    MainComponent(g, 0);
    MainComponent(g, 1);
    MainComponent(g, 2);
    Writer(if FormatSpecs(f).ftype == FormatSpecs(g).ftype then ByVector else ByMatrix,
           LoadedMatrix(f, g, r.settings.space, r.settings.swing),
           if AlphaModeOf(f, g).AlphaIn? then LoadedAlpha(f, g, r.settings.swing) else NO_ALPHA,
           AlphaModeOf(f, g),
           SinkFor(o, MainType(g, 0)), SinkFor(o, MainType(g, 1)), SinkFor(o, MainType(g, 2)),
           SinkFor(o, if HasAlpha(g) then CtA else MainType(g, 0)))
  }

  /** Byte formats at both ends, a source rectangle and an output that are not empty. */
  predicate Sized(r: Request)
  {
    && ByteFormat(r.input.format) && ByteFormat(r.Target())
    && r.Key().Valid() && r.Key().Geometry().width >= 1 && r.Key().Geometry().height >= 1
  }

  /** All lines of all planes lie inside the frame: no odd height with sub-sampled lines of several alignment units. */
  predicate LinesInside(f: VideoFormat)
    requires f.width >= 1 && f.height >= 1
  {
    var planes := FormatSpecs(f.format).planes;
    forall i :: 0 <= i < |planes| ==>
      var l := LayoutOf(planes, f.width, f.height, i); l.heightDiv == 0 || f.height % 2 == 0 || l.lineSize == ALIGN
  }

  /** Source indices of the window stay inside the source. */
  predicate IndicesInside(ax: Axis, limit: int)
  {
    ax.Proper() && ax.origin + ax.size <= limit && (ax.size >= 2 || ax.out <= 1)
  }

  predicate Linear(r: Request)
  {
    r.settings.scaling.ScalingLinear?
  }

  /** Requests all of whose accesses are inside their frames and tables, and whose areas are those of their boxes. */
  predicate Served(r: Request): (b: bool)
    ensures b ==> Sized(r) && LinesInside(r.input) && LinesInside(r.OutputFormat()) && AreasFit(r.Key())
  {
    && Sized(r) && LinesInside(r.input) && LinesInside(r.OutputFormat()) && AreasFit(r.Key())
    && (if Linear(r) && r.Key().Geometry().resize.ResizeUp? then Upscaling(r.Key())
        else if Linear(r) && r.Key().Geometry().resize.ResizeDown? then Downscaling(r.Key())
        else IndicesInside(ColumnAxis(r.Key().Geometry()), r.input.width)
             && IndicesInside(LineAxis(r.Key().Geometry()), r.input.height))
  }

  // ----- The active window -----

  datatype Window = Window(x: nat, y: nat, width: nat, height: nat) {
    predicate Has(px: int, py: int)
    {
      x <= px < x + width && y <= py < y + height
    }
  }

  /** The part of the output that conversions write: all of it, except in Fit mode. */
  function WindowOf(r: Request): (w: Window)
    requires r.Key().Valid()
    ensures var g := r.Key().Geometry();
            && w.x == g.xmin && w.width == g.owidth && w.x + w.width == g.xmax <= g.width
            && w.y == g.ymin && w.height == g.oheight && w.y + w.height == g.ymax <= g.height
            && (!r.settings.aspect.Fit? ==> w == Window(0, 0, g.width, g.height))
  {
    hide Quot;
    var k := r.Key();
    ActiveWindow(k.iwidth, k.iheight, k.outWidth, k.outHeight, k.inputRect, k.mode);
    var g := k.Geometry();
    Window(g.xmin, g.ymin, g.owidth, g.oheight)
  }

  predicate InWindow(r: Request, x: int, y: int)
    requires r.Key().Valid()
  {
    WindowOf(r).Has(x, y)
  }

  /** A frame of the request's input format. */
  predicate Holds(f: VideoFormat, data: seq<int>)
  {
    f.width >= 0 && f.height >= 0 && AreBytes(data) && |data| == FrameBytes(f)
  }

  lemma ViewReady(f: VideoFormat, data: seq<int>, t: ComponentType)
    requires ByteFormat(f.format) && f.width >= 1 && f.height >= 1 && LinesInside(f) && Holds(f, data)
    requires Contains(FormatSpecs(f.format).planes, t)
    ensures ViewOf(f, data, t).Readable(f.width, f.height) && ByteView(ViewOf(f, data, t))
  {
    hide FormatSpecs, Contains, PlanesSize, LayoutOf, ComponentView.Readable;
    ByteComponent(f.format, t);
    var planes := FormatSpecs(f.format).planes;
    TableFramesReadable(f.format, f.width, f.height, ComponentPlane(planes, t), ComponentOf(planes, t), data, 1, false);
  }

  lemma SourcesReady(r: Request, data: seq<int>)
    requires Sized(r) && LinesInside(r.input) && Holds(r.input, data)
    ensures SourcesReadable(WriterOf(r), SourcesOf(r.input, data), r.input.width, r.input.height)
    ensures ByteViews(WriterOf(r), SourcesOf(r.input, data))
    ensures SourcesOf(r.input, data).a.Readable(r.input.width, r.input.height)
  {
    hide FormatSpecs, Contains, LinesInside, Holds, ViewOf, SinkFor, LoadedMatrix, LoadedAlpha, ComponentView.Readable,
      ByteView, GeometryOf;
    var f := r.input.format;
    MainComponent(f, 0);
    MainComponent(f, 1);
    MainComponent(f, 2);
    ViewReady(r.input, data, MainType(f, 0));
    ViewReady(r.input, data, MainType(f, 1));
    ViewReady(r.input, data, MainType(f, 2));
    if HasAlpha(f) {
      ViewReady(r.input, data, CtA);
    }
  }

  /** Sample of a component that stands for output pixel (x, y), by resize mode. */
  function SampleFor(r: Request, v: ComponentView, x: int, y: int): (s: int)
    requires Served(r) && v.Readable(r.input.width, r.input.height)
    requires InWindow(r, x, y)
  {
    var k := r.Key();
    var g := k.Geometry();
    WindowPixel(r, x, y);
    if Linear(r) && g.resize.ResizeUp? then BlendAt(k, v, x, y)
    else if Linear(r) && g.resize.ResizeDown? then
      ImageHoldsSamples(v, k.iwidth, k.iheight);
      MeanAt(k, v.Image(k.iwidth, k.iheight), x, y)
    else v.SampleAt(ColumnAxis(g).DstToSrc(x), LineAxis(g).DstToSrc(y))
  }

  /** Window pixels qualify for the reader of their mode. */
  lemma WindowPixel(r: Request, x: int, y: int)
    requires Served(r) && InWindow(r, x, y)
    ensures var k := r.Key();
            var g := k.Geometry();
            if Linear(r) && g.resize.ResizeUp? then Tapped(k, x, y)
            else if Linear(r) && g.resize.ResizeDown? then Shown(k, x, y)
            else 0 <= ColumnAxis(g).DstToSrc(x) < k.iwidth && 0 <= LineAxis(g).DstToSrc(y) < k.iheight
  {
    hide GeometryOf, LinesInside, Axis.DstToSrc, Covers, ByteFormat, WindowOf, Downscaling;
    var g := r.Key().Geometry();
    if !(Linear(r) && !g.resize.ResizeKeep?) {
      SourceIndexInside(ColumnAxis(g));
      SourceIndexInside(LineAxis(g));
    }
  }

  /** The picture handed to the writing half: four samples per window pixel. */
  function PixelFor(r: Request, data: seq<int>, x: int, y: int): (p: Pixel)
    requires Served(r) && Holds(r.input, data) && InWindow(r, x, y)
  {
    SourcesReady(r, data);
    var s := SourcesOf(r.input, data);
    Pixel(SampleFor(r, s.x, x, y), SampleFor(r, s.y, x, y), SampleFor(r, s.z, x, y),
          if WriterOf(r).ReadsAlpha() then SampleFor(r, s.a, x, y) else 0)
  }

  function GridFor(r: Request, data: seq<int>): (grid: seq<seq<Pixel>>)
    requires Served(r) && Holds(r.input, data)
    ensures Rectangular(grid, WindowOf(r).width) && |grid| == WindowOf(r).height
  {
    var w := WindowOf(r);
    seq(w.height, i requires 0 <= i < w.height =>
      seq(w.width, j requires 0 <= j < w.width => PixelFor(r, data, w.x + j, w.y + i)))
  }

  // ----- The output buffer -----

  lemma SinkReady(f: VideoFormat, t: ComponentType, x: nat, y: nat)
    requires ByteFormat(f.format) && f.width >= 1 && f.height >= 1 && LinesInside(f)
    requires Contains(FormatSpecs(f.format).planes, t) && x < f.width && y < f.height
    ensures ByteSink(SinkFor(f, t))
    ensures var l := SinkFor(f, t).layout; l.offset <= SinkFor(f, t).Address(x, y) < l.offset + l.size
    ensures SinkFor(f, t).Address(x, y) + 1 <= FrameBytes(f)
  {
    hide FormatSpecs, Contains, LineSize, PlaneSize, PlanesSize, LayoutOf, RegularPlane, Shr, LinesInside;
    ByteComponent(f.format, t);
    var planes := FormatSpecs(f.format).planes;
    SampleInPlane(f, ComponentPlane(planes, t), ComponentOf(planes, t), x, y);
  }

  lemma SampleInPlane(f: VideoFormat, i: nat, c: Component, x: nat, y: nat)
    requires f.width >= 1 && f.height >= 1 && LinesInside(f) && i < |FormatSpecs(f.format).planes|
    requires c in FormatSpecs(f.format).planes[i].components && c.byteDepth >= 1 && x < f.width && y < f.height
    ensures var l := LayoutOf(FormatSpecs(f.format).planes, f.width, f.height, i);
            l.offset <= SampleAddress(l, c, x, y) < l.offset + l.size <= FrameBytes(f)
  {
    hide FormatSpecs, LineSize, PlaneSize, RegularPlane, Shr;
    var planes := FormatSpecs(f.format).planes;
    var l := LayoutOf(planes, f.width, f.height, i);
    LinesInPlane(f.format, f.width, f.height, i);
    ComponentInLine(f.format, f.width, i, c, x);
    assert LineEnd(l, y) <= l.size;
    MulNonNeg(Shr(y, l.heightDiv), l.lineSize);
    MulNonNeg(Shr(x, c.widthDiv), c.step);
    assert planes[..i + 1][..i] == planes[..i];
    PlanesSizePrefix(planes, f.width, f.height, i + 1);
  }

  /** Samples of two components of a frame meet on a byte only when they are one sample of one component. */
  lemma SinksSeparate(f: VideoFormat, t: ComponentType, x: nat, y: nat, t': ComponentType, x': nat, y': nat)
    requires ByteFormat(f.format) && f.width >= 1 && f.height >= 1 && LinesInside(f)
    requires Contains(FormatSpecs(f.format).planes, t) && Contains(FormatSpecs(f.format).planes, t')
    requires x < f.width && y < f.height && x' < f.width && y' < f.height
    ensures SinkFor(f, t).Address(x, y) == SinkFor(f, t').Address(x', y')
            <==> t == t' && ShareSample(SinkFor(f, t), x, y, x', y')
  {
    hide FormatSpecs, Contains, LineSize, PlaneSize, RegularPlane, LinesInside, PlanesSize, SampleAddress, Shr;
    var planes := FormatSpecs(f.format).planes;
    var i, c, i', c' := ComponentPlane(planes, t), ComponentOf(planes, t), ComponentPlane(planes, t'),
        ComponentOf(planes, t');
    ByteComponent(f.format, t);
    ByteComponent(f.format, t');
    if i == i' {
      SamplesDistinct(f.format, f.width, f.height, i, c, x, y, c', x', y');
    } else {
      SinkReady(f, t, x, y);
      SinkReady(f, t', x', y');
      if i < i' {
        PlanesDisjoint(planes, f.width, f.height, i, i');
      } else {
        PlanesDisjoint(planes, f.width, f.height, i', i);
      }
    }
  }

  /** Type of the component that output channel `c` writes. */
  function ChannelType(g: PixelFormat, c: nat): (t: ComponentType)
    requires c < 4
  {
    if c < 3 then MainType(g, c) else if HasAlpha(g) then CtA else MainType(g, 0)
  }

  lemma ChannelTypes(r: Request, c: nat)
    requires Sized(r) && Used(WriterOf(r), c)
    ensures Contains(FormatSpecs(r.Target()).planes, ChannelType(r.Target(), c))
    ensures SinkOf(WriterOf(r), c) == SinkFor(r.OutputFormat(), ChannelType(r.Target(), c))
    ensures c == 3 ==> ChannelType(r.Target(), c) == CtA
  {
    hide FormatSpecs, Contains, SinkFor, LoadedMatrix, LoadedAlpha, GeometryOf, MainType;
    MainComponent(r.Target(), 0);
    MainComponent(r.Target(), 1);
    MainComponent(r.Target(), 2);
  }

  lemma ChannelsDiffer(g: PixelFormat, c: nat, c': nat)
    requires c < 4 && c' < 4 && c != c' && (c == 3 || c' == 3 ==> HasAlpha(g))
    ensures ChannelType(g, c) != ChannelType(g, c')
  {
    hide FormatSpecs, Contains;
  }

  /** The writer of a served request stays in its frame, writes plain bytes, and keeps its components apart. */
  lemma WriterReady(r: Request)
    requires Served(r)
    ensures var w, o := WriterOf(r), r.OutputFormat();
            w.Writable(FrameBytes(o), o.width, o.height) && ByteSinks(w) && Separate(w, o.width, o.height)
                && IdentityVector(w)
  {
    hide FormatSpecs, Contains, SinkFor, WriterOf, LinesInside, ByteFormat, FrameBytes, Sink.Address, SinkOf,
      ChannelType, ShareSample, GeometryOf;
    var w, o := WriterOf(r), r.OutputFormat();
    forall c: nat, x: nat, y: nat | Used(w, c) && x < o.width && y < o.height
      ensures SinkOf(w, c).Address(x, y) + 1 <= FrameBytes(o) && ByteSink(SinkOf(w, c))
    {
      ChannelTypes(r, c);
      SinkReady(o, ChannelType(r.Target(), c), x, y);
    }
    WriterFits(w, FrameBytes(o), o.width, o.height);
    forall c: nat, x: nat, y: nat, c': nat, x': nat, y': nat
      {:trigger SinkOf(w, c).Address(x, y), SinkOf(w, c').Address(x', y')} |
      Used(w, c) && Used(w, c') && x < o.width && x' < o.width && y < o.height && y' < o.height
      ensures SinkOf(w, c).Address(x, y) == SinkOf(w, c').Address(x', y') <==>
                c == c' && ShareSample(SinkOf(w, c), x, y, x', y')
    {
      ChannelTypes(r, c);
      ChannelTypes(r, c');
      SinksSeparate(o, ChannelType(r.Target(), c), x, y, ChannelType(r.Target(), c'), x', y');
      if c != c' {
        AlphaUsed(r, c);
        AlphaUsed(r, c');
        ChannelsDiffer(r.Target(), c, c');
      }
    }
    VectorIsIdentity(r);
  }

  lemma AlphaUsed(r: Request, c: nat)
    requires Sized(r) && Used(WriterOf(r), c)
    ensures c == 3 ==> HasAlpha(r.Target())
  {
    hide FormatSpecs, Contains, SinkFor, LoadedMatrix, LoadedAlpha, GeometryOf, MainType;
  }

  lemma VectorIsIdentity(r: Request)
    requires Sized(r)
    ensures IdentityVector(WriterOf(r))
  {
    hide FormatSpecs, Contains, SinkFor, LoadedAlpha, GeometryOf, Abc2xyzMatrix, Rgb2YuvMatrix, Yuv2RgbMatrix;
    MainDepths(r.input.format);
    MainDepths(r.Target());
  }

  lemma WriterFits(w: Writer, size: nat, width: nat, height: nat)
    requires width >= 1 && height >= 1
    requires forall c: nat, x: nat, y: nat | Used(w, c) && x < width && y < height ::
               SinkOf(w, c).Address(x, y) + 1 <= size && ByteSink(SinkOf(w, c))
    ensures w.Writable(size, width, height) && ByteSinks(w)
  {
    hide Sink.Address;
    forall x: nat, y: nat | x < width && y < height
      ensures w.Fits(size, x, y) && ByteSinks(w)
    {
      assert Used(w, 0) && Used(w, 1) && Used(w, 2);
      assert SinkOf(w, 0).Address(x, y) + 1 <= size && SinkOf(w, 1).Address(x, y) + 1 <= size
          && SinkOf(w, 2).Address(x, y) + 1 <= size;
      if w.WritesAlpha() {
        assert Used(w, 3) && SinkOf(w, 3).Address(x, y) + 1 <= size;
      }
    }
    assert ByteSinks(w) by { assert w.Fits(size, 0, 0); }
  }

  function Blank(n: nat): (b: seq<int>)
    ensures |b| == n && AreBytes(b)
  {
    seq(n, _ => 0)
  }

  /** The picture fits its window, and its window fits the output buffer. */
  lemma PictureReady(r: Request, buf: seq<int>, data: seq<int>)
    requires Served(r) && Holds(r.input, data) && Holds(r.OutputFormat(), buf)
    ensures AreBytes(buf) && Rectangular(GridFor(r, data), WindowOf(r).width)
            && |GridFor(r, data)| == WindowOf(r).height
    ensures var w, win := WriterOf(r), WindowOf(r);
            && w.Writable(|buf|, win.x + win.width, win.y + win.height) && ByteSinks(w)
            && Separate(w, win.x + win.width, win.y + win.height)
  {
    hide WriterOf, GridFor, Served, IdentityVector, Separate, GeometryOf, LinesInside, FormatSpecs, PlanesSize,
      WindowOf, Writer.Fits;
    WriterReady(r);
    var o, win := r.OutputFormat(), WindowOf(r);
    NarrowSeparate(WriterOf(r), o.width, o.height, win.x + win.width, win.y + win.height);
  }

  /** The output buffer of a request after the conversion loops ran over it. */
  function Written(r: Request, fast: bool, buf: seq<int>, data: seq<int>): (b: seq<int>)
    requires Served(r) && Holds(r.input, data) && Holds(r.OutputFormat(), buf)
  {
    PictureReady(r, buf, data);
    var win := WindowOf(r);
    PutFrame(WriterOf(r), fast, buf, win.x, win.y, win.width, GridFor(r, data))
  }

  /** What `fillRgb` makes of a new frame, by format. */
  type Fill = f: VideoFormat -> seq<int> |
    forall o: VideoFormat :: o.width >= 0 && o.height >= 0 ==> Holds(o, f(o))
    ghost witness (o: VideoFormat) => if o.width >= 0 && o.height >= 0 then Blank(FrameBytes(o)) else []

  /** The frame a picture is written on: a filled one in Fit mode, any frame otherwise. */
  function Ground(fill: Fill, r: Request): (b: seq<int>)
    requires Sized(r)
    ensures Holds(r.OutputFormat(), b)
  {
    if r.settings.aspect.Fit? then fill(r.OutputFormat()) else Blank(FrameBytes(r.OutputFormat()))
  }

  /** The converted frame of a request, as a converter without any history makes it. A frame that already has the
      output's format and size is passed on as it is, whatever the input rectangle. */
  function ConvertedFrame(fill: Fill, r: Request, data: seq<int>): (f: Frame)
    requires Served(r) && Holds(r.input, data)
    ensures f.format == r.OutputFormat() && Holds(f.format, f.data)
    ensures r.OutputFormat().SameAs(r.input) ==> f == Frame(r.input, data)
  {
    var o := r.OutputFormat();
    if o.SameAs(r.input) then Frame(r.input, data)
    else Frame(o, Written(r, true, Ground(fill, r), data))
  }

  // ----- Reading a frame back -----

  /** A frame that has a component of the type, with all its lines inside. */
  predicate Sampled(f: VideoFormat, data: seq<int>, t: ComponentType)
  {
    && ByteFormat(f.format) && f.width >= 1 && f.height >= 1 && LinesInside(f) && Holds(f, data)
    && Contains(FormatSpecs(f.format).planes, t)
  }

  /** The component's sample at pixel (x, y). */
  function SampleIn(f: VideoFormat, data: seq<int>, t: ComponentType, x: nat, y: nat): (v: int)
    requires Sampled(f, data, t) && x < f.width && y < f.height
  {
    ViewReady(f, data, t);
    ViewOf(f, data, t).SampleAt(x, y)
  }

  /** Two frames of one format with the same samples; padding bytes and gaps between lines may differ. */
  ghost predicate SameSamples(a: Frame, b: Frame)
  {
    && a.format == b.format && |a.data| == |b.data| && AreBytes(a.data) && AreBytes(b.data)
    && forall t: ComponentType, x: nat, y: nat ::
         Sampled(a.format, a.data, t) && Sampled(b.format, b.data, t) && x < a.format.width && y < a.format.height ==>
           SampleIn(a.format, a.data, t, x, y) == SampleIn(b.format, b.data, t, x, y)
  }

  /** The value the reader of the request's resize mode gives output pixel (x, y) for an input component. */
  function ResizedSample(r: Request, data: seq<int>, t: ComponentType, x: int, y: int): (v: int)
    requires Served(r) && Sampled(r.input, data, t) && InWindow(r, x, y)
  {
    ViewReady(r.input, data, t);
    SampleFor(r, ViewOf(r.input, data, t), x, y)
  }
}
