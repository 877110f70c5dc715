/** The per-pixel conversion loops: read, convert, write. The generic loops go through words and bit fields, their
    8-bit twins through single bytes (VCamUtils/src/videoconverter.cpp). */
module PixelLoops {
  import opened Arithmetic
  import opened Bytes
  import opened FrameLayout
  import opened Samples
  import opened BitFields
  import opened ColorMatrices
  import opened ColorTheorems

  /** `applyMatrix` between colour families, `applyVector` inside one. */
  datatype Kernel = ByMatrix | ByVector

  datatype AlphaMode = AlphaInOut | AlphaIn | AlphaOut | NoAlpha

  /** The samples of one pixel. `a` is not meaningful when the input has no alpha. */
  datatype Pixel = Pixel(x: int, y: int, z: int, a: int)

  /** A component of the output frame. `bytes` is the size of the stored integer. */
  datatype Sink = Sink(layout: PlaneLayout, component: Component, bytes: nat) {

    function Address(x: nat, y: nat): (r: nat)
    {
      SampleAddress(layout, component, x, y)
    }
  }

  datatype Writer = Writer(kernel: Kernel, matrix: Matrix, alpha: AlphaMatrix, mode: AlphaMode, xo: Sink, yo: Sink,
                           zo: Sink, ao: Sink) {

    predicate ReadsAlpha()
    {
      mode.AlphaInOut? || mode.AlphaIn?
    }

    predicate WritesAlpha()
    {
      mode.AlphaInOut? || mode.AlphaOut?
    }

    /** All accesses of pixel (x, y) lie in a buffer of `size` bytes. */
    predicate Fits(size: nat, x: nat, y: nat)
    {
      && xo.Address(x, y) + xo.bytes <= size && yo.Address(x, y) + yo.bytes <= size
         && zo.Address(x, y) + zo.bytes <= size
      && (WritesAlpha() ==> ao.Address(x, y) + ao.bytes <= size)
    }

    predicate Writable(size: nat, width: nat, height: nat)
    {
      forall x: nat, y: nat | x < width && y < height :: Fits(size, x, y)
    }
  }

  /** The colour of the output pixel. The 8-bit loops skip the diagonal form. */
  function Converted(w: Writer, fast: bool, p: Pixel): (r: (int, int, int))
  {
    var c := if w.kernel.ByMatrix? then ApplyMatrix(w.matrix, p.x, p.y, p.z)
             else if fast then (p.x, p.y, p.z)
             else ApplyVector(w.matrix, p.x, p.y, p.z);
    if w.mode.AlphaIn? then ApplyAlpha(w.alpha, w.matrix, c, p.a) else c
  }

  // ----- Stores -----

  /** Stores the low `n` bytes of `v`, least significant first. */
  function Store(buf: seq<int>, at: nat, n: nat, v: nat): (r: seq<int>)
    requires at + n <= |buf|
    ensures |r| == |buf|
    decreases n
  {
    if n == 0 then buf else Store(buf[at := v % 256], at + 1, n - 1, v / 256)
  }

  function LoadNat(buf: seq<int>, at: nat, n: nat): (v: nat)
    requires at + n <= |buf| && AreBytes(buf)
  {
    LoadNonNegative(buf, at, n);
    Load(buf, at, n)
  }

  lemma {:induction false} LoadNonNegative(buf: seq<int>, at: nat, n: nat)
    requires at + n <= |buf| && AreBytes(buf)
    ensures Load(buf, at, n) >= 0
    decreases n
  {
    if n > 0 {
      LoadNonNegative(buf, at + 1, n - 1);
    }
  }

  lemma {:induction false} StoreBytes(buf: seq<int>, at: nat, n: nat, v: nat)
    requires at + n <= |buf| && AreBytes(buf)
    ensures AreBytes(Store(buf, at, n, v))
    decreases n
  {
    if n > 0 {
      StoreBytes(buf[at := v % 256], at + 1, n - 1, v / 256);
    }
  }

  /** Sets one component of a pixel: as a field of its word, or as a byte. */
  function PutSample(s: Sink, fast: bool, buf: seq<int>, x: nat, y: nat, v: int): (r: seq<int>)
    requires AreBytes(buf) && s.Address(x, y) + s.bytes <= |buf| && (fast ==> s.bytes >= 1)
    ensures |r| == |buf| && AreBytes(r)
  {
    var at := s.Address(x, y);
    if fast then buf[at := v % 256]
    else
      var word := Insert(LoadNat(buf, at, s.bytes), s.component.shift, s.component.depth, v, 8 * s.bytes);
      StoreBytes(buf, at, s.bytes, word);
      Store(buf, at, s.bytes, word)
  }

  /** Sets alpha to opaque: `word | alphaMask`, or the byte 0xff. */
  function PutOpaque(s: Sink, fast: bool, buf: seq<int>, x: nat, y: nat): (r: seq<int>)
    requires AreBytes(buf) && s.Address(x, y) + s.bytes <= |buf| && (fast ==> s.bytes >= 1)
    ensures |r| == |buf| && AreBytes(r)
  {
    var at := s.Address(x, y);
    if fast then buf[at := 0xff]
    else
      var word := Or(LoadNat(buf, at, s.bytes), FieldMask(s.component.shift, s.component.depth, 8 * s.bytes));
      StoreBytes(buf, at, s.bytes, word);
      Store(buf, at, s.bytes, word)
  }

  predicate ByteSink(s: Sink)
  {
    s.bytes == 1 && s.component.shift == 0 && s.component.depth == 8
  }

  predicate ByteSinks(w: Writer)
  {
    ByteSink(w.xo) && ByteSink(w.yo) && ByteSink(w.zo) && (w.WritesAlpha() ==> ByteSink(w.ao))
  }

  function PutPixel(w: Writer, fast: bool, buf: seq<int>, x: nat, y: nat, p: Pixel): (r: seq<int>)
    requires AreBytes(buf) && w.Fits(|buf|, x, y) && (fast ==> ByteSinks(w))
    ensures |r| == |buf| && AreBytes(r)
  {
    var c := Converted(w, fast, p);
    var b := PutSample(w.zo, fast, PutSample(w.yo, fast, PutSample(w.xo, fast, buf, x, y, c.0), x, y, c.1), x, y, c.2);
    if w.mode.AlphaInOut? then PutSample(w.ao, fast, b, x, y, p.a)
    else if w.mode.AlphaOut? then PutOpaque(w.ao, fast, b, x, y)
    else b
  }

  /** Output line `y` written from column `xmin` on, left to right. */
  function PutLine(w: Writer, fast: bool, buf: seq<int>, xmin: nat, y: nat, line: seq<Pixel>): (r: seq<int>)
    requires AreBytes(buf) && w.Writable(|buf|, xmin + |line|, y + 1) && (fast ==> ByteSinks(w))
    ensures |r| == |buf| && AreBytes(r)
  {
    if line == [] then buf
    else
      var n := |line| - 1;
      PutPixel(w, fast, PutLine(w, fast, buf, xmin, y, line[..n]), xmin + n, y, line[n])
  }

  predicate Rectangular<T>(grid: seq<seq<T>>, width: nat)
  {
    forall i :: 0 <= i < |grid| ==> |grid[i]| == width
  }

  /** The window of the output frame written line by line. */
  function PutFrame(w: Writer, fast: bool, buf: seq<int>, xmin: nat, ymin: nat, width: nat,
                    grid: seq<seq<Pixel>>): (r: seq<int>)
    requires AreBytes(buf) && Rectangular(grid, width) && w.Writable(|buf|, xmin + width, ymin + |grid|)
             && (fast ==> ByteSinks(w))
    ensures |r| == |buf| && AreBytes(r)
  {
    if grid == [] then buf
    else
      var n := |grid| - 1;
      PutLine(w, fast, PutFrame(w, fast, buf, xmin, ymin, width, grid[..n]), xmin, ymin + n, grid[n])
  }

  // ----- The byte loops refine the word loops -----

  lemma ByteSampleIsField(s: Sink, buf: seq<int>, x: nat, y: nat, v: int)
    requires ByteSink(s) && AreBytes(buf) && s.Address(x, y) + 1 <= |buf|
    ensures PutSample(s, true, buf, x, y, v) == PutSample(s, false, buf, x, y, v)
    ensures PutOpaque(s, true, buf, x, y) == PutOpaque(s, false, buf, x, y)
  {
    hide And, Or;
    var at := s.Address(x, y);
    var word := LoadNat(buf, at, 1);
    assert word == buf[at] by { assert Load(buf, at + 1, 0) == 0; }
    ByteWords();
    OrZero(v % 256);
    OrFull(word, 8);
    assert And(word, 0) == 0 by { AndZero(word); }
    StoreOne(buf, at, v % 256);
    StoreOne(buf, at, 255);
  }

  lemma StoreOne(buf: seq<int>, at: nat, v: nat)
    requires at + 1 <= |buf| && v < 256
    ensures Store(buf, at, 1, v) == buf[at := v]
  {
    assert Store(buf[at := v % 256], at + 1, 0, v / 256) == buf[at := v % 256];
  }

  lemma AndZero(word: nat)
    ensures And(word, 0) == 0
  {
  }

  lemma ByteWords()
    ensures Pow2(8) == 256 && Pow2(0) == 1 && FieldMask(0, 8, 8) == 255
  {
    assert Pow2(4) == 16 && Pow2(8) == 16 * Pow2(4);
  }

  /** The diagonal matrix between two 8-bit formats of one colour family. */
  predicate IdentityVector(w: Writer)
  {
    w.kernel.ByVector? ==> w.matrix == Abc2xyzMatrix(8, 8, 8, 8, 8, 8)
  }

  lemma FastColour(w: Writer, p: Pixel)
    requires IdentityVector(w)
    ensures Converted(w, true, p) == Converted(w, false, p)
  {
    hide ApplyMatrix, ApplyVector, ApplyAlpha, Abc2xyzMatrix, Rescaled;
    if w.kernel.ByVector? {
      VectorIsRescaled(8, 8, 8, 8, 8, 8, p.x, p.y, p.z);
      SameDepthIdentity(8, p.x);
      SameDepthIdentity(8, p.y);
      SameDepthIdentity(8, p.z);
    }
  }

  lemma FastPixel(w: Writer, buf: seq<int>, x: nat, y: nat, p: Pixel)
    requires AreBytes(buf) && w.Fits(|buf|, x, y) && ByteSinks(w) && IdentityVector(w)
    ensures PutPixel(w, true, buf, x, y, p) == PutPixel(w, false, buf, x, y, p)
  {
    hide Converted, PutSample, PutOpaque, Sink.Address;
    FastColour(w, p);
    var c := Converted(w, false, p);
    ByteSampleIsField(w.xo, buf, x, y, c.0);
    var b1 := PutSample(w.xo, false, buf, x, y, c.0);
    ByteSampleIsField(w.yo, b1, x, y, c.1);
    var b2 := PutSample(w.yo, false, b1, x, y, c.1);
    ByteSampleIsField(w.zo, b2, x, y, c.2);
    var b3 := PutSample(w.zo, false, b2, x, y, c.2);
    if w.WritesAlpha() {
      ByteSampleIsField(w.ao, b3, x, y, p.a);
    }
  }

  lemma {:induction false} FastLine(w: Writer, buf: seq<int>, xmin: nat, y: nat, line: seq<Pixel>)
    requires AreBytes(buf) && w.Writable(|buf|, xmin + |line|, y + 1) && ByteSinks(w) && IdentityVector(w)
    ensures PutLine(w, true, buf, xmin, y, line) == PutLine(w, false, buf, xmin, y, line)
  {
    hide PutPixel, ByteSinks, IdentityVector;
    if line != [] {
      var n := |line| - 1;
      FastLine(w, buf, xmin, y, line[..n]);
      FastPixel(w, PutLine(w, false, buf, xmin, y, line[..n]), xmin + n, y, line[n]);
    }
  }

  /** On a whole output buffer, every alpha mode and both kernels: between formats of plain bytes the byte loops
      leave what the generic loops leave. */
  lemma {:induction false} FastIsGeneric(w: Writer, buf: seq<int>, xmin: nat, ymin: nat, width: nat,
                                         grid: seq<seq<Pixel>>)
    requires AreBytes(buf) && Rectangular(grid, width) && w.Writable(|buf|, xmin + width, ymin + |grid|)
    requires ByteSinks(w) && IdentityVector(w)
    ensures PutFrame(w, true, buf, xmin, ymin, width, grid) == PutFrame(w, false, buf, xmin, ymin, width, grid)
  {
    hide PutLine, ByteSinks, IdentityVector;
    if grid != [] {
      var n := |grid| - 1;
      FastIsGeneric(w, buf, xmin, ymin, width, grid[..n]);
      FastLine(w, PutFrame(w, false, buf, xmin, ymin, width, grid[..n]), xmin, ymin + n, grid[n]);
    }
  }

  // ----- The loops -----

  datatype Sources = Sources(x: ComponentView, y: ComponentView, z: ComponentView, a: ComponentView)

  predicate SourcesReadable(w: Writer, s: Sources, width: nat, height: nat)
  {
    && s.x.Readable(width, height) && s.y.Readable(width, height) && s.z.Readable(width, height)
    && (w.ReadsAlpha() ==> s.a.Readable(width, height))
  }

  /** `read3` or `read3A` at source position (xs, ys). */
  function PixelAt(w: Writer, s: Sources, width: nat, height: nat, xs: nat, ys: nat): (p: Pixel)
    requires SourcesReadable(w, s, width, height) && xs < width && ys < height
  {
    Pixel(s.x.SampleAt(xs, ys), s.y.SampleAt(xs, ys), s.z.SampleAt(xs, ys),
          if w.ReadsAlpha() then s.a.SampleAt(xs, ys) else 0)
  }

  /** Source index tables that stay inside the source. */
  predicate Indices(table: seq<int>, first: nat, n: nat, limit: nat)
  {
    first + n <= |table| && forall i :: first <= i < first + n ==> 0 <= table[i] < limit
  }

  /** The nearest-sample picture of a window: what the loops read, line by line. */
  function NearestGrid(w: Writer, s: Sources, iwidth: nat, iheight: nat, srcWidth: seq<int>, srcHeight: seq<int>,
                       xmin: nat, ymin: nat, width: nat, height: nat): (grid: seq<seq<Pixel>>)
    requires SourcesReadable(w, s, iwidth, iheight)
    requires Indices(srcWidth, xmin, width, iwidth) && Indices(srcHeight, ymin, height, iheight)
    ensures |grid| == height && Rectangular(grid, width)
  {
    seq(height, i requires 0 <= i < height =>
      seq(width, j requires 0 <= j < width => PixelAt(w, s, iwidth, iheight, srcWidth[xmin + j], srcHeight[ymin + i])))
  }

  predicate ByteView(v: ComponentView)
  {
    v.bytes == 1 && v.component.shift == 0 && v.component.depth == 8
  }

  predicate ByteViews(w: Writer, s: Sources)
  {
    ByteView(s.x) && ByteView(s.y) && ByteView(s.z) && (w.ReadsAlpha() ==> ByteView(s.a))
  }

  lemma ByteViewSample(v: ComponentView, x: nat, y: nat)
    requires ByteView(v) && AreBytes(v.data) && v.Address(x, y) + 1 <= |v.data|
    ensures v.SampleAt(x, y) == v.data[v.Address(x, y)]
  {
    var at := v.Address(x, y);
    assert Load(v.data, at + 1, 0) == 0 && LoadSwapped(v.data, at, 0) == 0;
    ByteWords();
    DivIs(v.data[at], 256, 0);
  }

  /** Reads one pixel: through words and fields, or straight from the bytes. */
  method ReadPixel(w: Writer, fast: bool, s: Sources, width: nat, height: nat, xs: nat, ys: nat) returns (p: Pixel)
    requires SourcesReadable(w, s, width, height) && xs < width && ys < height && (fast ==> ByteViews(w, s))
    ensures p == PixelAt(w, s, width, height, xs, ys)
  {
    hide ComponentView.SampleAt, ComponentView.Address;
    if !fast {
      var x, y, z, a := s.x.SampleAt(xs, ys), s.y.SampleAt(xs, ys), s.z.SampleAt(xs, ys), 0;
      if w.ReadsAlpha() {
        a := s.a.SampleAt(xs, ys);
      }
      return Pixel(x, y, z, a);
    }
    ByteViewSample(s.x, xs, ys);
    ByteViewSample(s.y, xs, ys);
    ByteViewSample(s.z, xs, ys);
    var a := 0;
    if w.ReadsAlpha() {
      ByteViewSample(s.a, xs, ys);
      a := s.a.data[s.a.Address(xs, ys)];
    }
    return Pixel(s.x.data[s.x.Address(xs, ys)], s.y.data[s.y.Address(xs, ys)], s.z.data[s.z.Address(xs, ys)], a);
  }

  method WriteWord(dst: array<int>, at: nat, n: nat, v: nat)
    requires at + n <= dst.Length
    modifies dst
    ensures dst[..] == Store(old(dst[..]), at, n, v)
  {
    ghost var before := dst[..];
    var i, rest := 0, v;
    while i < n
      invariant 0 <= i <= n
      invariant Store(before, at, n, v) == Store(dst[..], at + i, n - i, rest)
    {
      dst[at + i] := rest % 256;
      rest := rest / 256;
      i := i + 1;
    }
  }

  method WriteSample(s: Sink, fast: bool, dst: array<int>, x: nat, y: nat, v: int)
    requires AreBytes(dst[..]) && s.Address(x, y) + s.bytes <= dst.Length && (fast ==> s.bytes >= 1)
    modifies dst
    ensures dst[..] == PutSample(s, fast, old(dst[..]), x, y, v)
  {
    hide Insert, Store, Load;
    var at := s.Address(x, y);
    if fast {
      dst[at] := v % 256;
    } else {
      WriteWord(dst, at, s.bytes,
                Insert(LoadNat(dst[..], at, s.bytes), s.component.shift, s.component.depth, v, 8 * s.bytes));
    }
  }

  method WriteOpaque(s: Sink, fast: bool, dst: array<int>, x: nat, y: nat)
    requires AreBytes(dst[..]) && s.Address(x, y) + s.bytes <= dst.Length && (fast ==> s.bytes >= 1)
    modifies dst
    ensures dst[..] == PutOpaque(s, fast, old(dst[..]), x, y)
  {
    hide Or, Store, Load;
    var at := s.Address(x, y);
    if fast {
      dst[at] := 0xff;
    } else {
      WriteWord(dst, at, s.bytes,
                Or(LoadNat(dst[..], at, s.bytes), FieldMask(s.component.shift, s.component.depth, 8 * s.bytes)));
    }
  }

  /** `write3`, `write3A` and their byte forms. */
  method WritePixel(w: Writer, fast: bool, dst: array<int>, x: nat, y: nat, p: Pixel)
    requires AreBytes(dst[..]) && w.Fits(dst.Length, x, y) && (fast ==> ByteSinks(w))
    modifies dst
    ensures dst[..] == PutPixel(w, fast, old(dst[..]), x, y, p)
  {
    hide Converted, PutSample, PutOpaque, Sink.Address;
    var c := Converted(w, fast, p);
    WriteSample(w.xo, fast, dst, x, y, c.0);
    WriteSample(w.yo, fast, dst, x, y, c.1);
    WriteSample(w.zo, fast, dst, x, y, c.2);
    if w.mode.AlphaInOut? {
      WriteSample(w.ao, fast, dst, x, y, p.a);
    } else if w.mode.AlphaOut? {
      WriteOpaque(w.ao, fast, dst, x, y);
    }
  }

  /** One line of a conversion loop. */
  method ConvertLine(w: Writer, fast: bool, s: Sources, iwidth: nat, iheight: nat, srcWidth: seq<int>, ys: nat,
                     xmin: nat, xmax: nat, y: nat, dst: array<int>, ghost line: seq<Pixel>)
    requires SourcesReadable(w, s, iwidth, iheight) && (fast ==> ByteViews(w, s) && ByteSinks(w))
    requires xmin <= xmax && Indices(srcWidth, xmin, xmax - xmin, iwidth) && ys < iheight
    requires AreBytes(dst[..]) && w.Writable(dst.Length, xmax, y + 1)
    requires |line| == xmax - xmin
    requires forall j :: 0 <= j < |line| ==> line[j] == PixelAt(w, s, iwidth, iheight, srcWidth[xmin + j], ys)
    modifies dst
    ensures dst[..] == PutLine(w, fast, old(dst[..]), xmin, y, line)
  {
    hide PutPixel, PixelAt, SourcesReadable, ByteViews, ByteSinks, Writer.Fits;
    ghost var before := dst[..];
    var x := xmin;
    while x < xmax
      invariant xmin <= x <= xmax
      invariant dst[..] == PutLine(w, fast, before, xmin, y, line[..x - xmin])
    {
      assert line[..x + 1 - xmin][..x - xmin] == line[..x - xmin];
      var p := ReadPixel(w, fast, s, iwidth, iheight, srcWidth[x], ys);
      WritePixel(w, fast, dst, x, y, p);
      x := x + 1;
    }
    assert line[..xmax - xmin] == line;
  }

  /** The nearest-sample loops over the active window: the generic ones, or with `fast` their byte twins. */
  method ConvertFrame(w: Writer, fast: bool, s: Sources, iwidth: nat, iheight: nat, srcWidth: seq<int>,
                      srcHeight: seq<int>,
                      xmin: nat, xmax: nat, ymin: nat, ymax: nat, dst: array<int>)
    requires SourcesReadable(w, s, iwidth, iheight) && (fast ==> ByteViews(w, s) && ByteSinks(w))
    requires xmin <= xmax && Indices(srcWidth, xmin, xmax - xmin, iwidth)
    requires ymin <= ymax && Indices(srcHeight, ymin, ymax - ymin, iheight)
    requires AreBytes(dst[..]) && w.Writable(dst.Length, xmax, ymax)
    modifies dst
    ensures dst[..] == PutFrame(w, fast, old(dst[..]), xmin, ymin, xmax - xmin,
                                NearestGrid(w, s, iwidth, iheight, srcWidth, srcHeight, xmin, ymin, xmax - xmin,
                                            ymax - ymin))
  {
    hide PutLine, PixelAt, SourcesReadable, ByteViews, ByteSinks, Writer.Fits;
    ghost var before := dst[..];
    ghost var grid := NearestGrid(w, s, iwidth, iheight, srcWidth, srcHeight, xmin, ymin, xmax - xmin, ymax - ymin);
    var y := ymin;
    while y < ymax
      invariant ymin <= y <= ymax
      invariant dst[..] == PutFrame(w, fast, before, xmin, ymin, xmax - xmin, grid[..y - ymin])
    {
      assert grid[..y + 1 - ymin][..y - ymin] == grid[..y - ymin];
      ConvertLine(w, fast, s, iwidth, iheight, srcWidth, srcHeight[y], xmin, xmax, y, dst, grid[y - ymin]);
      y := y + 1;
    }
    assert grid[..ymax - ymin] == grid;
  }

  /** The writing half alone, for pictures read by the linear scalers. */
  method WriteGrid(w: Writer, fast: bool, dst: array<int>, xmin: nat, ymin: nat, width: nat, grid: seq<seq<Pixel>>)
    requires AreBytes(dst[..]) && Rectangular(grid, width) && w.Writable(dst.Length, xmin + width, ymin + |grid|)
    requires fast ==> ByteSinks(w)
    modifies dst
    ensures dst[..] == PutFrame(w, fast, old(dst[..]), xmin, ymin, width, grid)
  {
    hide PutPixel, ByteSinks, Writer.Fits;
    ghost var before := dst[..];
    for y := 0 to |grid|
      invariant dst[..] == PutFrame(w, fast, before, xmin, ymin, width, grid[..y])
    {
      assert grid[..y + 1][..y] == grid[..y];
      ghost var lineBefore := dst[..];
      for x := 0 to width
        invariant dst[..] == PutLine(w, fast, lineBefore, xmin, ymin + y, grid[y][..x])
      {
        assert grid[y][..x + 1][..x] == grid[y][..x];
        WritePixel(w, fast, dst, xmin + x, ymin + y, grid[y][x]);
      }
      assert grid[y][..width] == grid[y];
    }
    assert grid[..|grid|] == grid;
  }
}
