/** The tables of `FrameConvertParameters::configureScaling` and the linear downscaling pass that reads them
    (VCamUtils/src/videoconverter.cpp). */
module ConvertParameters {
  import opened Arithmetic
  import opened FrameLayout
  import opened Samples
  import opened Scaling
  import opened IntegralImages
  import opened Boxes

  /** Entry `i` of each per-column and per-line table. */
  datatype Tables = Tables(srcWidth: seq<int>, srcWidth_1: seq<int>, nextWidth: seq<int>, kx: seq<int>,
                           srcHeight: seq<int>, srcHeight_1: seq<int>, ky: seq<int>)

  predicate ColumnTables(t: Tables, ax: Axis, width: int, limit: int)
  {
    && |t.srcWidth| == |t.srcWidth_1| == |t.nextWidth| == |t.kx| == Max(0, width)
    && (forall x :: 0 <= x < width ==> t.srcWidth[x] == ax.DstToSrc(x))
    && (forall x :: 0 <= x < width ==> t.srcWidth_1[x] == ax.BoxEnd(x, limit))
    && (forall x :: 0 <= x < width ==> t.nextWidth[x] == ax.NextSource(x, width))
    && (forall x :: 0 <= x < width ==> t.kx[x] == ax.Weight(x))
  }

  predicate LineTables(t: Tables, ax: Axis, height: int, limit: int, down: bool)
  {
    && |t.srcHeight| == |t.srcHeight_1| == Max(0, height)
    && (forall y :: 0 <= y < height ==> t.srcHeight[y] == ax.DstToSrc(y))
    && (forall y ::
          0 <= y < height ==> t.srcHeight_1[y] == if down then ax.BoxEnd(y, limit) else ax.NextSource(y, height))
    && (if down then t.ky == [] else |t.ky| == Max(0, height) && forall y ::
          0 <= y < height ==> t.ky[y] == ax.Weight(y))
  }

  /** The area of the box of pixel (x, y), by the tables. */
  function TableArea(t: Tables, x: int, y: int): (k: int)
    requires 0 <= x < |t.srcWidth| == |t.srcWidth_1| && 0 <= y < |t.srcHeight| == |t.srcHeight_1|
  {
    (t.srcWidth_1[x] - t.srcWidth[x]) * (t.srcHeight_1[y] - t.srcHeight[y])
  }

  predicate Covering(t: Tables, width: int, height: int)
  {
    && |t.srcWidth| == |t.srcWidth_1| && |t.srcHeight| == |t.srcHeight_1|
    && width <= |t.srcWidth| && height <= |t.srcHeight|
  }

  /** The areas of the first `height` lines. What a line longer than the source puts behind its end is overwritten by
      the next line; only the last line keeps it. */
  predicate AreaTable(kdl: seq<int>, t: Tables, iwidth: int, width: int, height: int)
    requires Covering(t, width, height)
  {
    forall x, y {:trigger AreaIndex(iwidth, x, y)} ::
      0 <= x < width && 0 <= y < height && (x < iwidth || y + 1 == height) ==>
        0 <= AreaIndex(iwidth, x, y) < |kdl| && kdl[AreaIndex(iwidth, x, y)] == TableArea(t, x, y)
  }

  /** The conversion parameters of one cache slot, scaling part. */
  class FrameConvertParameters {
    var geometry: Geometry
    var inputWidth: int
    var inputHeight: int
    var tables: Tables
    var kdl: seq<int>

    constructor ()
    {
      geometry := Geometry(0, 0, 0, 0, 0, 0, 0, 0, ResizeKeep, Rect(0, 0, 0, 0));
      inputWidth, inputHeight := 0, 0;
      tables := Tables([], [], [], [], [], [], []);
      kdl := [];
    }

    /** The tables are those of `key`. */
    ghost predicate Configured(key: ScalingKey)
      reads this
      requires key.Defined()
    {
      && geometry == key.Geometry()
      && inputWidth == key.iwidth && inputHeight == key.iheight
      && ColumnTables(tables, ColumnAxis(geometry), geometry.width, key.iwidth)
      && LineTables(tables, LineAxis(geometry), geometry.height, key.iheight, geometry.resize.ResizeDown?)
      && (geometry.resize.ResizeDown? ==>
            AreaTable(kdl, tables, key.iwidth, Max(0, geometry.width), Max(0, geometry.height)))
    }

    /** Fills every table for a request. */
    method ConfigureScaling(key: ScalingKey)
      requires key.Defined() && AreasFit(key)
      modifies this
      ensures Configured(key)
    {
      hide Quot, GeometryOf;
      geometry := GeometryOf(key.iwidth, key.iheight, key.outWidth, key.outHeight, key.inputRect, key.mode);
      var columns := FillColumns(ColumnAxis(geometry), geometry.width, key.iwidth);
      var down := geometry.resize.ResizeDown?;
      tables := FillLines(columns, LineAxis(geometry), geometry.height, key.iheight, down);
      inputWidth, inputHeight := key.iwidth, key.iheight;
      kdl := [];
      if down {
        kdl := FillAreas(tables, key.iwidth, key.iheight, Max(0, geometry.width), Max(0, geometry.height));
      }
    }

    /** The table entries of column `x`: its source sample, the end of its box, the sample to blend with, the weight. */
    static method ColumnEntry(ax: Axis, x: int, width: int, limit: int) returns (xs: int, end: int, next: int, k: int)
      ensures xs == ax.DstToSrc(x) && end == ax.BoxEnd(x, limit) && next == ax.NextSource(x, width) && k == ax.Weight(x)
    {
      hide Quot, Axis.DstToSrc, Axis.SrcToDst;
      xs := ax.DstToSrc(x);
      next := ax.DstToSrc(Min(x + 1, width - 1));
      var xmin, xmax := ax.SrcToDst(xs), ax.SrcToDst(xs + 1);
      end := Min(ax.DstToSrc(x + 1), limit);
      k := 0;
      if xmax > xmin {
        k := Quot(SCALE_EMULT * (x - xmin), xmax - xmin);
      }
    }

    static method FillColumns(ax: Axis, width: int, limit: int) returns (t: Tables)
      ensures ColumnTables(t, ax, width, limit)
    {
      hide Axis.DstToSrc, Axis.BoxEnd, Axis.NextSource, Axis.Weight;
      t := Tables([], [], [], [], [], [], []);
      var x := 0;
      while x < width
        invariant 0 <= x <= Max(0, width)
        invariant |t.srcWidth| == |t.srcWidth_1| == |t.nextWidth| == |t.kx| == x
        invariant forall i :: 0 <= i < x ==> t.srcWidth[i] == ax.DstToSrc(i)
        invariant forall i :: 0 <= i < x ==> t.srcWidth_1[i] == ax.BoxEnd(i, limit)
        invariant forall i :: 0 <= i < x ==> t.nextWidth[i] == ax.NextSource(i, width)
        invariant forall i :: 0 <= i < x ==> t.kx[i] == ax.Weight(i)
      {
        var xs, end, next, k := ColumnEntry(ax, x, width, limit);
        t := t.(srcWidth := t.srcWidth + [xs], srcWidth_1 := t.srcWidth_1 + [end], nextWidth := t.nextWidth + [next],
                kx := t.kx + [k]);
        x := x + 1;
      }
    }

    /** The table entries of line `y`. When shrinking there is no weight, and the second line ends the box. */
    static method LineEntry(ax: Axis, y: int, height: int, limit: int, down: bool) returns (ys: int, ys_1: int, k: int)
      ensures ys == ax.DstToSrc(y) && ys_1 == (if down then ax.BoxEnd(y, limit) else ax.NextSource(y, height))
      ensures !down ==> k == ax.Weight(y)
    {
      hide Quot, Axis.DstToSrc, Axis.SrcToDst;
      ys, k := ax.DstToSrc(y), 0;
      if down {
        ys_1 := Min(ax.DstToSrc(y + 1), limit);
      } else {
        ys_1 := ax.DstToSrc(Min(y + 1, height - 1));
        var ymin, ymax := ax.SrcToDst(ys), ax.SrcToDst(ys + 1);
        if ymax > ymin {
          k := Quot(SCALE_EMULT * (y - ymin), ymax - ymin);
        }
      }
    }

    static method FillLines(columns: Tables, ax: Axis, height: int, limit: int, down: bool) returns (t: Tables)
      ensures t == columns.(srcHeight := t.srcHeight, srcHeight_1 := t.srcHeight_1, ky := t.ky)
      ensures LineTables(t, ax, height, limit, down)
    {
      hide Axis.DstToSrc, Axis.BoxEnd, Axis.NextSource, Axis.Weight;
      t := columns.(srcHeight := [], srcHeight_1 := [], ky := []);
      var y := 0;
      while y < height
        invariant 0 <= y <= Max(0, height)
        invariant t == columns.(srcHeight := t.srcHeight, srcHeight_1 := t.srcHeight_1, ky := t.ky)
        invariant |t.srcHeight| == |t.srcHeight_1| == y && |t.ky| == if down then 0 else y
        invariant forall i :: 0 <= i < y ==> t.srcHeight[i] == ax.DstToSrc(i)
        invariant forall i ::
              0 <= i < y ==> t.srcHeight_1[i] == if down then ax.BoxEnd(i, limit) else ax.NextSource(i, height)
        invariant !down ==> forall i :: 0 <= i < y ==> t.ky[i] == ax.Weight(i)
      {
        var ys, ys_1, k := LineEntry(ax, y, height, limit, down);
        t := t.(srcHeight := t.srcHeight + [ys], srcHeight_1 := t.srcHeight_1 + [ys_1],
                ky := if down then [] else t.ky + [k]);
        y := y + 1;
      }
    }

    static method FillAreas(t: Tables, iwidth: int, iheight: int, width: int, height: int) returns (kdl: seq<int>)
      requires 0 <= width && 0 <= height && Covering(t, width, height)
      requires iwidth >= 1 && iheight >= 1 && Room(iwidth, iheight, width, height)
      ensures AreaTable(kdl, t, iwidth, width, height)
    {
      hide AreaIndex, TableArea;
      var size := AreaIndex(iwidth, 0, iheight);
      AreaIndexMonotone(iwidth, 0, 0, 0, iheight);
      AreaLines(iwidth, 0);
      kdl := seq(size, _ => 0);
      for y := 0 to height
        invariant |kdl| == size
        invariant AreaTable(kdl, t, iwidth, width, y)
      {
        for x := 0 to width
          invariant |kdl| == size
          invariant forall i, j {:trigger AreaIndex(iwidth, i, j)} ::
                      0 <= i < width && i < iwidth && 0 <= j < y ==>
                        0 <= AreaIndex(iwidth, i, j) < |kdl| && kdl[AreaIndex(iwidth, i, j)] == TableArea(t, i, j)
          invariant forall i {:trigger AreaIndex(iwidth, i, y)} :: 0 <= i < x ==>
                      0 <= AreaIndex(iwidth, i, y) < |kdl| && kdl[AreaIndex(iwidth, i, y)] == TableArea(t, i, y)
        {
          EntryInside(iwidth, iheight, width, height, x, y);
          EntriesBefore(iwidth, x, y);
          kdl := kdl[AreaIndex(iwidth, x, y) := TableArea(t, x, y)];
        }
      }
    }

    /** What the tables hold where the loops look for the area of a window pixel: as many lines up as there is border
        above the window. */
    lemma BoxTables(key: ScalingKey, x: int, y: int)
      requires Shown(key, x, y) && Configured(key)
      ensures 0 <= x < |tables.srcWidth| == |tables.srcWidth_1| && 0 <= y < |tables.srcHeight| == |tables.srcHeight_1|
      ensures (tables.srcWidth[x], tables.srcWidth_1[x], tables.srcHeight[y], tables.srcHeight_1[y]) == BoxOf(key, x, y)
      ensures 0 <= AreaIndex(key.iwidth, x, y - key.Geometry().ymin) < |kdl|
      ensures kdl[AreaIndex(key.iwidth, x, y - key.Geometry().ymin)] == MetArea(key, x, y)
    {
      hide Quot, GeometryOf, AreaIndex, Axis.DstToSrc, Axis.BoxEnd, Axis.NextSource, Axis.Weight, MetPixel;
      DownWindow(key);
      MetInside(key, x, y);
      var (i, j) := MetPixel(key, x, y);
      assert kdl[AreaIndex(key.iwidth, i, j)] == TableArea(tables, i, j);
    }

    /** One line of the reading half of the linear downscaling loops; `k` is where its areas are looked for. */
    method DownscaleLine(key: ScalingKey, integral: array<int>, ghost img: Image, y: int, k: int)
      returns (line: seq<int>)
      requires Dividing(key) && Configured(key)
      requires SampleGrid(img, key.iwidth, key.iheight) && IsIntegral(integral[..], img, key.iwidth)
      requires LineAxis(geometry).Active(y) && k == AreaIndex(inputWidth, 0, y - geometry.ymin)
      ensures ReadLine(key, img, line, y)
    {
      hide Quot, GeometryOf, AreaIndex, At, IsIntegral, ReadBox, ReadAt, ColumnTables, LineTables, AreaTable, BoxOf,
        MetArea, AreasFit;
      DownWindow(key);
      AreaLines(inputWidth, y - geometry.ymin);
      line := [];
      var x := geometry.xmin;
      while x < geometry.xmax
        invariant geometry.xmin <= x <= geometry.xmax
        invariant |line| == x - geometry.xmin
        invariant forall i :: 0 <= i < |line| ==> line[i] == ReadAt(key, img, geometry.xmin + i, y)
      {
        assert k + x == AreaIndex(inputWidth, x, y - geometry.ymin) && Shown(key, x, y);
        BoxTables(key, x, y);
        CornersRead(key, integral[..], img, x, y);
        var xi := ReadBox(integral[..], tables.srcHeight[y] * (inputWidth + 1),
                          tables.srcHeight_1[y] * (inputWidth + 1),
                          tables.srcWidth[x], tables.srcWidth_1[x], kdl[k + x]);
        line := line + [xi];
        x := x + 1;
      }
    }

    /** The reading half of the linear downscaling loops: one value per window pixel out of the integral image.
        The area pointer starts at the first table line and moves one source width per output line. */
    method DownscaleComponent(key: ScalingKey, integral: array<int>, ghost img: Image) returns (out: seq<seq<int>>)
      requires Dividing(key) && Configured(key)
      requires SampleGrid(img, key.iwidth, key.iheight) && IsIntegral(integral[..], img, key.iwidth)
      ensures |out| == geometry.oheight
      ensures forall y :: 0 <= y < geometry.oheight ==> ReadLine(key, img, out[y], geometry.ymin + y)
    {
      hide GeometryOf, AreaIndex, IsIntegral, ReadLine, ColumnTables, LineTables, AreaTable, SampleGrid, AreasFit,
        MetArea;
      DownWindow(key);
      out := [];
      var k := 0;
      AreaLines(inputWidth, 0);
      var y := geometry.ymin;
      while y < geometry.ymax
        invariant geometry.ymin <= y <= geometry.ymax
        invariant k == AreaIndex(inputWidth, 0, y - geometry.ymin)
        invariant |out| == y - geometry.ymin
        invariant forall j :: 0 <= j < |out| ==> ReadLine(key, img, out[j], geometry.ymin + j)
      {
        var line := DownscaleLine(key, integral, img, y, k);
        out := out + [line];
        AreaLines(inputWidth, y - geometry.ymin);
        k := k + inputWidth;
        y := y + 1;
      }
    }

    /** Linear downscaling of one component from the frame's bytes. Nothing of the buffer's earlier contents shows;
        where every pixel meets its own area, every output value is the plain average of its box, rounded down. */
    method Downscale(key: ScalingKey, view: ComponentView, integral: array<int>) returns (out: seq<seq<int>>)
      requires Dividing(key) && Configured(key)
      requires view.Readable(key.iwidth, key.iheight)
      requires ZeroBorder(integral[..], key.iwidth, key.iheight)
      modifies integral
      ensures Configured(key)
      ensures |out| == geometry.oheight
      ensures SampleGrid(view.Image(key.iwidth, key.iheight), key.iwidth, key.iheight)
      ensures forall y :: 0 <= y < geometry.oheight ==>
                ReadLine(key, view.Image(key.iwidth, key.iheight), out[y], geometry.ymin + y)
      ensures Downscaling(key) ==> forall y :: 0 <= y < geometry.oheight ==>
                MeanLine(key, view.Image(key.iwidth, key.iheight), out[y], geometry.ymin + y)
      ensures ZeroBorder(integral[..], key.iwidth, key.iheight)
    {
      hide GeometryOf, IsIntegral, MeanLine, ReadLine, ZeroBorder, ColumnTables, LineTables, AreaTable, AreasFit,
        ComponentView.Readable, AreasRight, MetArea;
      IntegralImage1(view, key.iwidth, key.iheight, integral);
      ImageHoldsSamples(view, key.iwidth, key.iheight);
      ghost var img := view.Image(key.iwidth, key.iheight);
      out := DownscaleComponent(key, integral, img);
      if Downscaling(key) {
        forall y | 0 <= y < geometry.oheight
          ensures MeanLine(key, img, out[y], geometry.ymin + y)
        {
          ReadLineIsMean(key, img, out[y], geometry.ymin + y);
        }
      }
    }
  }
}
