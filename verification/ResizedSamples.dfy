/** What resizing makes of the input, from samples to samples: nearest, averaged or blended, and when which
    (VCamUtils/src/videoconverter.cpp). */
module ResizedSamples {
  import opened Arithmetic
  import opened FrameLayout
  import opened Samples
  import opened Scaling
  import opened Boxes
  import opened Upscale
  import opened IntegralImages
  import opened Conversion
  import opened PixelBytes

  /** The picture is larger than the source rectangle in some dimension. */
  predicate Enlarged(key: ScalingKey)
    requires key.Valid()
  {
    var g, s := key.Geometry(), SourceRect(key.iwidth, key.iheight, key.inputRect);
    g.owidth > s.width || g.oheight > s.height
  }

  /** It is smaller in some dimension, and larger in none. */
  predicate Shrunk(key: ScalingKey)
    requires key.Valid()
  {
    var g, s := key.Geometry(), SourceRect(key.iwidth, key.iheight, key.inputRect);
    !Enlarged(key) && (g.owidth < s.width || g.oheight < s.height)
  }

  /** Source sample `s` of pixel `x` along one axis: the last one that lies, in the proportion of the spans, no further
      from its first sample than the pixel from its first pixel. */
  predicate SourceOf(ax: Axis, x: int, s: int)
  {
    var size, out := Max(1, ax.size - 1), Max(1, ax.out - 1);
    ax.origin <= s && (s - ax.origin) * out <= (x - ax.first) * size < (s - ax.origin + 1) * out
  }

  /** The source map takes just this sample; the first pixel shows the first sample and the last pixel the last. */
  lemma SourceMapped(ax: Axis, x: int, s: int)
    requires ax.Proper() && x >= ax.first
    ensures SourceOf(ax, x, s) <==> s == ax.DstToSrc(x)
    ensures x == ax.first ==> ax.DstToSrc(x) == ax.origin
    ensures x == ax.first + ax.out - 1 && ax.out >= 2 && ax.size >= 2 ==> ax.DstToSrc(x) == ax.origin + ax.size - 1
  {
    hide Axis.DstToSrc;
    MapsAreFloors(ax, x);
    var size, out, n := ax.SourceSpan(), ax.OutputSpan(), x - ax.first;
    DivBounds(n * size, out);
    var q := n * size / out;
    assert (q + 1) * out == q * out + out;
    if SourceOf(ax, x, s) {
      assert (s - ax.origin + 1) * out == (s - ax.origin) * out + out;
      DivIs(n * size, out, s - ax.origin);
    }
    DivIs(0, out, 0);
    DivIs(out * size, out, size);
  }

  /** In fast scaling, and wherever nothing changes size, the sample shown is that of the mapped source pixel. */
  lemma NearestSample(r: Request, data: seq<int>, t: ComponentType, x: int, y: int)
    requires Served(r) && Holds(r.input, data) && Carries(r.input.format, t) && InWindow(r, x, y)
    requires r.settings.scaling.ScalingLinear? ==> !Enlarged(r.Key()) && !Shrunk(r.Key())
    ensures Sampled(r.input, data, t)
    ensures var g := r.Key().Geometry();
            var sx, sy := Axis(g.irect.x, g.irect.width, g.owidth, g.xmin).DstToSrc(x),
                Axis(g.irect.y, g.irect.height, g.oheight, g.ymin).DstToSrc(y);
            && 0 <= sx < r.input.width && 0 <= sy < r.input.height
            && ResizedSample(r, data, t, x, y) == SampleIn(r.input, data, t, sx, sy)
  {
    hide FormatSpecs, Contains, Carries, GeometryOf, LinesInside, Served, WindowOf, Axis.DstToSrc, FrameBytes,
      ComponentView.SampleAt, ComponentView.Readable, ViewOf;
    InputSampled(r, data, t);
    ModeBySize(r.Key());
    WindowPixel(r, x, y);
    ViewReady(r.input, data, t);
  }

  lemma InputSampled(r: Request, data: seq<int>, t: ComponentType)
    requires Served(r) && Holds(r.input, data) && Carries(r.input.format, t)
    ensures Sampled(r.input, data, t)
  {
    hide FormatSpecs, Contains, Carries, GeometryOf, LinesInside;
    CarriedTypes(r.input.format, t);
  }

  /** Value `v` blends the sample at column `sx` of line `sy` with that at column `right`, by weight `kx`, and that on
      line `below`, by weight `ky`, in 512ths. */
  predicate Blends(f: VideoFormat, data: seq<int>, t: ComponentType, sx: int, right: int, kx: int, sy: int, below: int,
                   ky: int, v: int)
    requires Sampled(f, data, t)
  {
    && 0 <= sx <= right < f.width && 0 <= sy <= below < f.height
    && var a := SampleIn(f, data, t, sx, sy);
       v == a + (kx * (SampleIn(f, data, t, right, sy) - a) + ky * (SampleIn(f, data, t, sx, below) - a)) / 512
  }

  /** In linear scaling, a picture that grows in some dimension blends three samples: the one of its own pixel, that of
      the pixel to the right by the weight of the column, and that of the pixel below by the weight of the line. */
  lemma BlendedSample(r: Request, data: seq<int>, t: ComponentType, x: int, y: int)
    requires Served(r) && Holds(r.input, data) && Carries(r.input.format, t) && InWindow(r, x, y)
    requires r.settings.scaling.ScalingLinear? && Enlarged(r.Key())
    ensures Sampled(r.input, data, t)
    ensures var g := r.Key().Geometry();
            var cx, cy := Axis(g.irect.x, g.irect.width, g.owidth, g.xmin), Axis(g.irect.y, g.irect.height, g.oheight,
                g.ymin);
            var sx, sy, right, below := cx.DstToSrc(x), cy.DstToSrc(y), cx.DstToSrc(Min(x + 1, g.width - 1)),
                cy.DstToSrc(Min(y + 1, g.height - 1));
            Blends(r.input, data, t, sx, right, cx.Weight(x), sy, below, cy.Weight(y), ResizedSample(r, data, t, x, y))
  {
    hide FormatSpecs, Contains, Carries, GeometryOf, LinesInside, Served, WindowOf, Axis.DstToSrc, Axis.Weight,
      FrameBytes, ComponentView.SampleAt, ComponentView.Readable, ViewOf, Blend;
    InputSampled(r, data, t);
    ModeBySize(r.Key());
    WindowPixel(r, x, y);
    ViewReady(r.input, data, t);
    TapsInside(r.Key(), x, y);
    var (a, right, below) := Taps(r.Key(), ViewOf(r.input, data, t), x, y);
    BlendIs(a, right, below, ColumnAxis(r.Key().Geometry()).Weight(x), LineAxis(r.Key().Geometry()).Weight(y));
  }

  /** In linear scaling, a picture that only shrinks averages, rounded down, the samples from that of its own pixel up
      to that of the next one, across and down, ended by the frame. */
  lemma AveragedSample(r: Request, data: seq<int>, t: ComponentType, x: int, y: int)
    requires Served(r) && Holds(r.input, data) && Carries(r.input.format, t) && InWindow(r, x, y)
    requires r.settings.scaling.ScalingLinear? && Shrunk(r.Key())
    ensures Sampled(r.input, data, t)
    ensures var g := r.Key().Geometry();
            var cx, cy := Axis(g.irect.x, g.irect.width, g.owidth, g.xmin), Axis(g.irect.y, g.irect.height, g.oheight,
                g.ymin);
            var x0, y0, x1, y1 := cx.DstToSrc(x), cy.DstToSrc(y), Min(cx.DstToSrc(x + 1), r.input.width),
                Min(cy.DstToSrc(y + 1), r.input.height);
            && 0 <= x0 < x1 <= r.input.width && 0 <= y0 < y1 <= r.input.height
            && var n, v := (x1 - x0) * (y1 - y0), ResizedSample(r, data, t, x, y);
               n * v <= BoxSum(SampleImage(r.input, data, t), r.input.width, x0, x1, y0, y1) < n * v + n
  {
    hide FormatSpecs, Contains, Carries, GeometryOf, LinesInside, Served, WindowOf, Axis.DstToSrc, FrameBytes,
      ComponentView.SampleAt, ComponentView.Readable, ViewOf, BoxSum;
    InputSampled(r, data, t);
    ModeBySize(r.Key());
    WindowPixel(r, x, y);
    ViewReady(r.input, data, t);
    var k := r.Key();
    ColumnBox(k, x);
    LineBox(k, y);
    OwnArea(k, x, y);
    var (x0, x1, y0, y1) := BoxOf(k, x, y);
    SameImage(r.input, data, t);
    DivBounds(BoxSum(SampleImage(r.input, data, t), k.iwidth, x0, x1, y0, y1), (x1 - x0) * (y1 - y0));
  }

  /** The samples of a component as an image. */
  function SampleImage(f: VideoFormat, data: seq<int>, t: ComponentType): (img: Image)
    requires Sampled(f, data, t)
    ensures Shaped(img, f.width, f.height)
  {
    seq(f.height, y requires 0 <= y < f.height =>
      seq(f.width, x requires 0 <= x < f.width => SampleIn(f, data, t, x, y)))
  }

  lemma SameImage(f: VideoFormat, data: seq<int>, t: ComponentType)
    requires Sampled(f, data, t)
    ensures ViewOf(f, data, t).Readable(f.width, f.height)
    ensures SampleImage(f, data, t) == ViewOf(f, data, t).Image(f.width, f.height)
  {
    hide FormatSpecs, Contains, LinesInside, ComponentView.SampleAt, ComponentView.Readable, ViewOf, Holds;
    ViewReady(f, data, t);
    var a, b := SampleImage(f, data, t), ViewOf(f, data, t).Image(f.width, f.height);
    forall y | 0 <= y < f.height
      ensures a[y] == b[y]
    {
    }
  }

  /** Resize modes by size. */
  lemma ModeBySize(key: ScalingKey)
    requires key.Valid()
    ensures var z := key.Geometry().resize;
            (z.ResizeUp? <==> Enlarged(key)) && (z.ResizeDown? <==> Shrunk(key))
  {
    hide Quot, FittedSize, Crop;
  }
}
