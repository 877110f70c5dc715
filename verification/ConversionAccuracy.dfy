/** What the colours of converted frames mean: how far every sample is from the exact colour equations, for the colour
    space and swing that are set (VCamUtils/src/videoconverter.cpp, VCamUtils/src/colorconvert.cpp). */
module ConversionAccuracy {
  import opened Arithmetic
  import opened FrameLayout
  import opened Samples
  import opened ColorMatrices
  import opened ColorTheorems
  import opened ColorAccuracy
  import opened ColorAccuracyInverse
  import opened Compositing
  import opened PixelLoops
  import opened OutputSamples
  import opened Conversion
  import opened PixelBytes
  import opened Scaling
  import opened Boxes
  import opened ConversionTheorems

  // ----- The exact values -----

  /** Codes of luma and of chroma at 8 bits: those of Recommendation ITU-R BT.601-7, section 2.5.3, in studio swing, all
      codes in full swing. */
  function CodedRanges(swing: YuvColorSpaceType): (l: (Limits, Limits))
  {
    if swing.StudioSwing? then (Limits(16, 235), Limits(16, 240)) else (Limits(0, 255), Limits(0, 255))
  }

  function Fraction(code: int): (f: real)
  {
    code as real / 255.0
  }

  /** Y, U or V of red, green and blue codes, over the reals. */
  function ExactYuv(space: YuvColorSpace, swing: YuvColorSpaceType, t: ComponentType, r: int, g: int, b: int): (e: real)
  {
    var k := RbConstantsOf(space);
    var (y, uv) := CodedRanges(swing);
    var r', g', b' := Fraction(r), Fraction(g), Fraction(b);
    if t.CtY? then ExactLuma(k, y, r', g', b')
    else if t.CtU? then ExactChroma(k, k.kb, uv, b', r', g', b')
    else ExactChroma(k, k.kr, uv, r', r', g', b')
  }

  /** Red, green or blue of Y, U and V codes, over the reals; codes beyond the coded ranges give values beyond 0 to
      255. */
  function ExactRgb(space: YuvColorSpace, swing: YuvColorSpaceType, t: ComponentType, y: int, u: int, v: int): (e: real)
  {
    var k := RbConstantsOf(space);
    var (ly, luv) := CodedRanges(swing);
    var f, fu, fv := LumaFraction(y, ly), ChromaFraction(u, luv), ChromaFraction(v, luv);
    255.0 * if t.CtR? then ExactRed(k, f, fv) else if t.CtG? then ExactGreen(k, f, fu, fv) else ExactBlue(k, f, fu)
  }

  /** A value cut to a range. */
  function Cut(lo: int, e: real, hi: int): (r: real)
  {
    if e < lo as real then lo as real else if e > hi as real then hi as real else e
  }

  predicate Within(v: int, e: real, d: real)
  {
    -d < v as real - e < d
  }

  lemma CutNear(lo: int, v: int, e: real, hi: int, d: real)
    requires lo <= hi && Within(v, e, d)
    ensures Within(Bound(lo, v, hi), Cut(lo, e, hi), d)
  {
  }

  lemma RangesOfEight(swing: YuvColorSpaceType)
    ensures (LimitsY(8, swing), LimitsUV(8, swing)) == CodedRanges(swing)
    ensures MaxCode(8) == 255 && Pow2(8) == 256 && Pow2(7) == 128
  {
    hide PowOf2Near;
    EightBits();
    if swing.StudioSwing? {
      StudioLimitsMeetStandard(8);
    }
  }

  // ----- Exact values stay in their ranges -----

  lemma FractionRange(code: int)
    requires 0 <= code <= 255
    ensures 0.0 <= Fraction(code) <= 1.0
  {
  }

  lemma Share(k: real, f: real) returns (p: real)
    requires k >= 0.0 && 0.0 <= f <= 1.0
    ensures p == k * f && 0.0 <= p <= k
  {
    p := k * f;
    assert k * (1.0 - f) >= 0.0;
  }

  lemma Distribute(a: real, b: real, f: real)
    ensures (a + b) * f == a * f + b * f
  {
  }

  /** The part `w / n` of a range lies in the range, for `w` up to `n` either way. */
  lemma PartOfRange(range: real, w: real, n: real)
    requires range >= 0.0 && n > 0.0 && -n <= w <= n
    ensures -range <= range * w / n <= range && (w >= 0.0 ==> range * w / n >= 0.0)
  {
    var q := w / n;
    assert range * w / n == range * q;
    if w >= 0.0 {
      var p := Share(range, q);
    } else {
      var p := Share(range, -q);
      assert range * -q == -(range * q);
    }
  }

  predicate Weights(k: RbConstants)
  {
    k.div > 0 && 0 < k.kr && 0 < k.kb && k.kr + k.kb < k.div
  }

  lemma LumaInRange(k: RbConstants, y: Limits, r: real, g: real, b: real)
    requires Weights(k) && y.lo <= y.hi && 0.0 <= r <= 1.0 && 0.0 <= g <= 1.0 && 0.0 <= b <= 1.0
    ensures y.lo as real <= ExactLuma(k, y, r, g, b) <= y.hi as real
  {
    hide Weighted;
    WeightedRange(k, r, g, b);
    PartOfRange((y.hi - y.lo) as real, Weighted(k, r, g, b), k.div as real);
  }

  lemma WeightedRange(k: RbConstants, r: real, g: real, b: real)
    requires Weights(k) && 0.0 <= r <= 1.0 && 0.0 <= g <= 1.0 && 0.0 <= b <= 1.0
    ensures 0.0 <= Weighted(k, r, g, b) <= k.div as real
  {
    var pr := Share(k.kr as real, r);
    var pg := Share((k.div - k.kr - k.kb) as real, g);
    var pb := Share(k.kb as real, b);
    assert Weighted(k, r, g, b) == pr + pg + pb;
  }

  /** Chroma of blue or red: the channel itself weighs `w` of `div`. */
  lemma ChromaInRange(k: RbConstants, w: int, u: Limits, peak: real, r: real, g: real, b: real)
    requires Weights(k) && u.lo <= u.hi && 0.0 <= r <= 1.0 && 0.0 <= g <= 1.0 && 0.0 <= b <= 1.0
    requires (w, peak) == (k.kb, b) || (w, peak) == (k.kr, r)
    ensures u.lo as real <= ExactChroma(k, w, u, peak, r, g, b) <= u.hi as real
  {
    hide Weighted;
    ChromaSpan(k, w, peak, r, g, b);
    var range, span, n := (u.hi - u.lo) as real, k.div as real * peak - Weighted(k, r, g, b), (k.div - w) as real;
    PartOfRange(range, span, n);
    HalfPart(range * span, n);
    assert (2 * (k.div - w)) as real == 2.0 * n;
    var h := range * span / (2.0 * n);
    assert ExactChroma(k, w, u, peak, r, g, b) == (u.lo + u.hi) as real / 2.0 + h;
    assert -range / 2.0 <= h <= range / 2.0;
  }

  lemma HalfPart(x: real, n: real)
    requires n > 0.0
    ensures x / (2.0 * n) == x / n / 2.0
  {
    var q := x / n;
    DivideReal(x, 2.0 * n, q / 2.0);
  }

  lemma ChromaSpan(k: RbConstants, w: int, peak: real, r: real, g: real, b: real)
    requires Weights(k) && 0.0 <= r <= 1.0 && 0.0 <= g <= 1.0 && 0.0 <= b <= 1.0
    requires (w, peak) == (k.kb, b) || (w, peak) == (k.kr, r)
    ensures var n := (k.div - w) as real; -n <= k.div as real * peak - Weighted(k, r, g, b) <= n
  {
    var kr, kg, kb := k.kr as real, (k.div - k.kr - k.kb) as real, k.kb as real;
    assert kr + kg + kb == k.div as real;
    if (w, peak) == (k.kb, b) {
      SpanOfPeak(kr, kg, kb, r, g, b);
    } else {
      SpanOfPeak(kg, kb, kr, g, b, r);
      assert kg + kb + kr == k.div as real;
    }
  }

  lemma SpanOfPeak(k1: real, k2: real, k3: real, x: real, y: real, peak: real)
    requires k1 >= 0.0 && k2 >= 0.0 && k3 >= 0.0 && 0.0 <= x <= 1.0 && 0.0 <= y <= 1.0 && 0.0 <= peak <= 1.0
    ensures -(k1 + k2) <= (k1 + k2 + k3) * peak - (k1 * x + k2 * y + k3 * peak) <= k1 + k2
  {
    var p1 := Share(k1, x);
    var p2 := Share(k2, y);
    var p := Share(k1 + k2, peak);
    Distribute(k1 + k2, k3, peak);
  }

  // ----- The matrices at 8 bits -----

  /** Each code of the loaded RGB to YUV matrix is less than two codes from its exact value. */
  lemma YuvCodes(space: YuvColorSpace, swing: YuvColorSpaceType, r: int, g: int, b: int)
    requires IsByte(r) && IsByte(g) && IsByte(b)
    ensures var q := ApplyMatrix(Rgb2YuvMatrix(space, swing, 8, 8, 8, 8, 8, 8), r, g, b);
            && Within(q.0, ExactYuv(space, swing, CtY, r, g, b), 2.0)
            && Within(q.1, ExactYuv(space, swing, CtU, r, g, b), 2.0)
            && Within(q.2, ExactYuv(space, swing, CtV, r, g, b), 2.0)
  {
    hide ExactLuma, ExactChroma, Raw, LimitsY, LimitsUV, RbConstantsOf, Rgb2YuvMatrix, Pow2, Cut, Fraction;
    var k, m := RbConstantsOf(space), Rgb2YuvMatrix(space, swing, 8, 8, 8, 8, 8, 8);
    var (y, uv) := CodedRanges(swing);
    RangesOfEight(swing);
    RowLimits(space, swing);
    NormalIsFraction(r);
    NormalIsFraction(g);
    NormalIsFraction(b);
    Rgb2YuvAccurate(space, swing, 8, 8, 8, 8, 8, 8, r, g, b);
    var r', g', b' := Fraction(r), Fraction(g), Fraction(b);
    FractionRange(r);
    FractionRange(g);
    FractionRange(b);
    LumaInRange(k, y, r', g', b');
    ChromaInRange(k, k.kb, uv, b', r', g', b');
    ChromaInRange(k, k.kr, uv, r', r', g', b');
    BoundInRange(y, Raw(m.x, m.shift, r, g, b), ExactLuma(k, y, r', g', b'));
    BoundInRange(uv, Raw(m.y, m.shift, r, g, b), ExactChroma(k, k.kb, uv, b', r', g', b'));
    BoundInRange(uv, Raw(m.z, m.shift, r, g, b), ExactChroma(k, k.kr, uv, r', r', g', b'));
  }

  lemma NormalIsFraction(code: int)
    ensures NormalOf(8, code) == Fraction(code)
  {
    hide Pow2;
    EightBits();
  }

  lemma BoundInRange(l: Limits, v: int, e: real)
    requires l.lo as real <= e <= l.hi as real && Within(v, e, 2.0)
    ensures Within(Bound(l.lo, v, l.hi), e, 2.0)
  {
  }

  /** Each code of the loaded YUV to RGB matrix is less than two codes from its exact value, cut to 0 to 255. */
  lemma RgbCodes(space: YuvColorSpace, swing: YuvColorSpaceType, y: int, u: int, v: int)
    requires IsByte(y) && IsByte(u) && IsByte(v)
    ensures var q := ApplyMatrix(Yuv2RgbMatrix(space, swing, 8, 8, 8, 8, 8, 8), y, u, v);
            && Within(q.0, Cut(0, ExactRgb(space, swing, CtR, y, u, v), 255), 2.0)
            && Within(q.1, Cut(0, ExactRgb(space, swing, CtG, y, u, v), 255), 2.0)
            && Within(q.2, Cut(0, ExactRgb(space, swing, CtB, y, u, v), 255), 2.0)
  {
    hide ExactRed, ExactGreen, ExactBlue, Raw, LimitsY, LimitsUV, RbConstantsOf, Yuv2RgbMatrix, Pow2, Cut, LumaFraction,
      ChromaFraction, ExactRgb;
    var m := Yuv2RgbMatrix(space, swing, 8, 8, 8, 8, 8, 8);
    RangesOfEight(swing);
    RowLimits(space, swing);
    RgbRaw(space, swing, y, u, v);
    CutNear(0, Raw(m.x, m.shift, y, u, v), ExactRgb(space, swing, CtR, y, u, v), 255, 2.0);
    CutNear(0, Raw(m.y, m.shift, y, u, v), ExactRgb(space, swing, CtG, y, u, v), 255, 2.0);
    CutNear(0, Raw(m.z, m.shift, y, u, v), ExactRgb(space, swing, CtB, y, u, v), 255, 2.0);
  }

  lemma RgbRaw(space: YuvColorSpace, swing: YuvColorSpaceType, y: int, u: int, v: int)
    requires IsByte(y) && IsByte(u) && IsByte(v)
    ensures var m := Yuv2RgbMatrix(space, swing, 8, 8, 8, 8, 8, 8);
            && Within(Raw(m.x, m.shift, y, u, v), ExactRgb(space, swing, CtR, y, u, v), 2.0)
            && Within(Raw(m.y, m.shift, y, u, v), ExactRgb(space, swing, CtG, y, u, v), 2.0)
            && Within(Raw(m.z, m.shift, y, u, v), ExactRgb(space, swing, CtB, y, u, v), 2.0)
  {
    hide ExactRed, ExactGreen, ExactBlue, Raw, LimitsY, LimitsUV, RbConstantsOf, Yuv2RgbMatrix, Pow2, LumaFraction,
      ChromaFraction, MaxCode;
    RangesOfEight(swing);
    Yuv2RgbAccurate(space, swing, 8, 8, 8, 8, 8, 8, y, u, v);
  }

  // ----- Compositing -----

  /** Opacity `a` of 255 over black. */
  function Over(e: real, black: real, a: int): (r: real)
  {
    black + Fraction(a) * (e - black)
  }

  /** Black: no light, and no colour. */
  function Black(swing: YuvColorSpaceType, t: ComponentType): (e: real)
  {
    var (y, uv) := CodedRanges(swing);
    if t.CtY? then y.lo as real else if t.CtU? || t.CtV? then (uv.lo + uv.hi) as real / 2.0 else 0.0
  }

  /** What the alpha matrices compute at 8 bits. */
  lemma AlphaRows(swing: YuvColorSpaceType)
    ensures AlphaRgbMatrix(8) == AlphaMatrix(AlphaRow(1, 0, 128), AlphaRow(1, 0, 128), AlphaRow(1, 0, 128), 8)
    ensures AlphaYuvMatrix(swing, 8, 8, 8, 8)
            == if swing.StudioSwing?
               then AlphaMatrix(AlphaRow(1, -16, 4224), AlphaRow(1, -129, 32896), AlphaRow(1, -129, 32896), 8)
               else AlphaMatrix(AlphaRow(1, 0, 128), AlphaRow(1, -128, 32768), AlphaRow(1, -128, 32768), 8)
  {
    hide Pow2, LimitsY, LimitsUV;
    RangesOfEight(swing);
  }

  /** One of these rows is less than two codes from compositing its code over black. */
  lemma RowOver(row: AlphaRow, black: real, v: int, a: int)
    requires IsByte(v) && IsByte(a)
    requires (row, black) == (AlphaRow(1, 0, 128), 0.0) || (row, black) == (AlphaRow(1, -16, 4224), 16.0)
             || (row, black) == (AlphaRow(1, -129, 32896), 128.0) || (row, black) == (AlphaRow(1, -128, 32768), 127.5)
    ensures AlphaRaw(row, 8, v, a) == (a * (v + row.bias) + row.offset) / 256
    ensures Within(AlphaRaw(row, 8, v, a), Over(v as real, black, a), 2.0)
  {
    AlphaRawAtEight(row, v, a);
    var p, n := a * v, a * (v + row.bias) + row.offset;
    assert n == p + a * row.bias + row.offset;
    DivBounds(n, 256);
    OverIs(v, black, a);
    assert 0 <= p <= 255 * a by {
      MulNonNeg(a, v);
      MulLe(a, v, 255);
    }
    RowNear(row.bias, row.offset, black, p, a, n / 256, Over(v as real, black, a));
  }

  lemma AlphaRawAtEight(row: AlphaRow, v: int, a: int)
    requires row.k == 1
    ensures AlphaRaw(row, 8, v, a) == (a * (v + row.bias) + row.offset) / 256
  {
    hide Pow2;
    EightBits();
  }

  lemma RowNear(bias: int, offset: int, black: real, p: int, a: int, q: int, e: real)
    requires 0 <= a <= 255 && 0 <= p <= 255 * a
    requires (bias, offset, black) == (0, 128, 0.0) || (bias, offset, black) == (-16, 4224, 16.0)
             || (bias, offset, black) == (-129, 32896, 128.0) || (bias, offset, black) == (-128, 32768, 127.5)
    requires 256 * q <= p + a * bias + offset < 256 * q + 256
    requires 255.0 * e == 255.0 * black + p as real - a as real * black
    ensures Within(q, e, 2.0)
  {
  }

  lemma OverIs(v: int, black: real, a: int)
    ensures 255.0 * Over(v as real, black, a) == 255.0 * black + (a * v) as real - a as real * black
  {
  }

  // ----- What a writer holds -----

  /** Colour families by what a format carries. */
  lemma Families(f: PixelFormat)
    requires ByteFormat(f)
    ensures FormatSpecs(f).ftype.VftRgb? <==> Carries(f, CtR)
    ensures Carries(f, CtR) <==> !Carries(f, CtY)
    ensures HasAlpha(f) <==> Carries(f, CtA)
    ensures forall i: nat :: i < 3 ==> Carries(f, MainType(f, i))
  {
    CarriedTypes(f, CtA);
  }

  /** Alpha is applied and lost. */
  predicate Composited(r: Request)
  {
    Carries(r.input.format, CtA) && !Carries(r.Target(), CtA)
  }

  lemma WriterParts(r: Request)
    requires Sized(r)
    ensures var w, f, g, s := WriterOf(r), r.input.format, r.Target(), r.settings;
            && (w.kernel.ByVector? <==> (Carries(f, CtR) <==> Carries(g, CtR)))
            && (w.mode.AlphaIn? <==> Composited(r))
            && (w.mode.AlphaInOut? <==> Carries(f, CtA) && Carries(g, CtA))
            && (w.mode.AlphaOut? <==> !Carries(f, CtA) && Carries(g, CtA))
            && w.matrix == (if w.kernel.ByVector? then Abc2xyzMatrix(8, 8, 8, 8, 8, 8)
                            else if Carries(f, CtR) then Rgb2YuvMatrix(s.space, s.swing, 8, 8, 8, 8, 8, 8)
                            else Yuv2RgbMatrix(s.space, s.swing, 8, 8, 8, 8, 8, 8))
            && (w.mode.AlphaIn? ==>
                  w.alpha == if Carries(g, CtR) then AlphaRgbMatrix(8) else AlphaYuvMatrix(s.swing, 8, 8, 8, 8))
  {
    hide FormatSpecs, Contains, Carries, SinkFor, Abc2xyzMatrix, Rgb2YuvMatrix, Yuv2RgbMatrix, AlphaRgbMatrix,
      AlphaYuvMatrix, GeometryOf, MainType, DepthOf;
    Families(r.input.format);
    Families(r.Target());
    MainDepths(r.input.format);
    MainDepths(r.Target());
    ApartFamilies(r.input.format);
    ApartFamilies(r.Target());
    if !FormatSpecs(r.Target()).ftype.VftRgb? {
      YuvTypes(r.Target());
    }
    if HasAlpha(r.input.format) {
      AlphaDepth(r.input.format);
    }
  }

  lemma ApartFamilies(f: PixelFormat)
    requires ByteFormat(f)
    ensures FormatSpecs(f).ftype.VftRgb? || FormatSpecs(f).ftype.VftYuv?
  {
    hide FormatSpecs;
    TableComponents(f);
  }

  lemma YuvTypes(f: PixelFormat)
    requires ByteFormat(f) && !FormatSpecs(f).ftype.VftRgb?
    ensures MainType(f, 0) == CtY && MainType(f, 1) == CtU && MainType(f, 2) == CtV
  {
  }

  // ----- What a sample means -----

  /** The resized input sample of a type, at an output pixel. */
  function Input(r: Request, data: seq<int>, t: ComponentType, p: (nat, nat)): (v: int)
    requires Served(r) && Holds(r.input, data) && Carries(r.input.format, t) && InWindow(r, p.0, p.1)
    ensures IsByte(v)
  {
    InputIsByte(r, data, t, p);
    ResizedSample(r, data, t, p.0, p.1)
  }

  lemma InputIsByte(r: Request, data: seq<int>, t: ComponentType, p: (nat, nat))
    requires Served(r) && Holds(r.input, data) && Carries(r.input.format, t) && InWindow(r, p.0, p.1)
    ensures Sampled(r.input, data, t) && IsByte(ResizedSample(r, data, t, p.0, p.1))
  {
    hide FormatSpecs, Contains, Carries, GeometryOf, LinesInside, Served, WindowOf, ComponentView.Readable, SampleFor,
      FrameBytes;
    CarriedTypes(r.input.format, t);
    ViewReady(r.input, data, t);
    SampleIsByte(r, ViewOf(r.input, data, t), p.0, p.1);
  }

  /** What the value `v` of component `t` is, at output pixel `p`. Inside a colour family it is the input's; alpha is
      the input's, or opaque; between families it is less than two codes from the exact equations for the colour space
      and swing that are set. Alpha that the target has no place for is composited over black. */
  predicate SampleMeans(r: Request, data: seq<int>, t: ComponentType, p: (nat, nat), v: int)
    requires Served(r) && Holds(r.input, data) && Carries(r.Target(), t) && InWindow(r, p.0, p.1)
  {
    var f, s := r.input.format, r.settings;
    RgbCarries(f);
    if t.CtA? then v == if Carries(f, CtA) then Input(r, data, CtA, p) else 255
    else if Carries(f, t) then
      v == if Composited(r) then (Input(r, data, CtA, p) * Input(r, data, t, p) + 128) / 256 else Input(r, data, t, p)
    else if Carries(f, CtR) then
      var e := ExactYuv(s.space, s.swing, t, Input(r, data, CtR, p), Input(r, data, CtG, p), Input(r, data, CtB, p));
      if Composited(r) then Within(v, Over(e, Black(s.swing, t), Input(r, data, CtA, p)), 4.0) else Within(v, e, 2.0)
    else
      var e := ExactRgb(s.space, s.swing, t, Input(r, data, CtY, p), Input(r, data, CtU, p), Input(r, data, CtV, p));
      Within(v, Cut(0, e, 255), 2.0)
  }

  lemma RgbCarries(f: PixelFormat)
    requires ByteFormat(f)
    ensures if Carries(f, CtR) then Carries(f, CtG) && Carries(f, CtB) && !Carries(f, CtU)
            else Carries(f, CtY) && Carries(f, CtU) && Carries(f, CtV)
  {
  }

  /** The samples handed to the writer, by type. */
  lemma PixelParts(r: Request, data: seq<int>, p: (nat, nat))
    requires Served(r) && Holds(r.input, data) && InWindow(r, p.0, p.1)
    ensures var q, f := PixelFor(r, data, p.0, p.1), r.input.format;
            && Carries(f, MainType(f, 0)) && Carries(f, MainType(f, 1)) && Carries(f, MainType(f, 2))
            && q.x == Input(r, data, MainType(f, 0), p) && q.y == Input(r, data, MainType(f, 1), p)
            && q.z == Input(r, data, MainType(f, 2), p)
            && (Carries(f, CtA) ==> q.a == Input(r, data, CtA, p))
            && BytePixel(q)
  {
    hide FormatSpecs, Contains, Carries, GeometryOf, LinesInside, Served, WindowOf, SampleFor, ViewOf, MainType,
      ComponentView.Readable, FrameBytes;
    Families(r.input.format);
    WriterParts(r);
    SourcesReady(r, data);
    PixelIsBytes(r, data, p.0, p.1);
  }

  function Part(q: Pixel, c: nat): (v: int)
  {
    if c == 0 then q.x else if c == 1 then q.y else q.z
  }

  /** Inside a family a component is moved; inside the RGB family alpha can darken it. */
  lemma MovedByte(w: Writer, q: Pixel, c: nat)
    requires w.kernel.ByVector? && w.matrix == Abc2xyzMatrix(8, 8, 8, 8, 8, 8) && BytePixel(q) && c < 3
    requires w.mode.AlphaIn? ==> w.alpha == AlphaRgbMatrix(8)
    ensures ChannelByte(w, c, q) == if w.mode.AlphaIn? then (q.a * Part(q, c) + 128) / 256 else Part(q, c)
  {
    hide AlphaRaw, AlphaRgbMatrix, AlphaYuvMatrix, DepthGain, Pow2, MaxCode, LimitsY, LimitsUV;
    if w.mode.AlphaIn? {
      RangesOfEight(FullSwing);
      AlphaRows(FullSwing);
      DarkenedByte(q.a, q.x);
      DarkenedByte(q.a, q.y);
      DarkenedByte(q.a, q.z);
    }
  }

  lemma DarkenedByte(a: int, v: int)
    requires IsByte(a) && IsByte(v)
    ensures AlphaRaw(AlphaRow(1, 0, 128), 8, v, a) == (a * v + 128) / 256 && IsByte((a * v + 128) / 256)
  {
    hide AlphaRaw;
    AlphaRawAtEight(AlphaRow(1, 0, 128), v, a);
    MulNonNeg(a, v);
    MulLe(a, v, 255);
    DivAtLeast(a * v + 128, 256, 0);
    DivAtMost(a * v + 128, 256, 255);
  }

  function YuvType(c: nat): (t: ComponentType)
  {
    if c == 0 then CtY else if c == 1 then CtU else CtV
  }

  function RgbType(c: nat): (t: ComponentType)
  {
    if c == 0 then CtR else if c == 1 then CtG else CtB
  }

  /** From RGB to YUV. */
  lemma YuvByte(space: YuvColorSpace, swing: YuvColorSpaceType, w: Writer, q: Pixel, c: nat)
    requires w.kernel.ByMatrix? && w.matrix == Rgb2YuvMatrix(space, swing, 8, 8, 8, 8, 8, 8) && BytePixel(q) && c < 3
    requires w.mode.AlphaIn? ==> w.alpha == AlphaYuvMatrix(swing, 8, 8, 8, 8)
    ensures var e, v := ExactYuv(space, swing, YuvType(c), q.x, q.y, q.z), ChannelByte(w, c, q);
            if w.mode.AlphaIn? then Within(v, Over(e, Black(swing, YuvType(c)), q.a), 4.0) else Within(v, e, 2.0)
  {
    hide ApplyMatrix, ExactYuv, AlphaRaw, AlphaYuvMatrix, Rgb2YuvMatrix, Over, LimitsY, LimitsUV, Pow2, ChannelByte,
      Black, Within, CodedRanges;
    YuvCodes(space, swing, q.x, q.y, q.z);
    YuvLimits(space, swing);
    MatrixByte(w, q, c);
    if w.mode.AlphaIn? {
      AlphaRows(swing);
      ComposedYuv(space, swing, w, q, c);
    }
  }

  lemma YuvLimits(space: YuvColorSpace, swing: YuvColorSpaceType)
    ensures var m := Rgb2YuvMatrix(space, swing, 8, 8, 8, 8, 8, 8);
            && ByteLimits(m) && (m.xLimits, m.yLimits) == CodedRanges(swing) && m.zLimits == m.yLimits
  {
    hide Rgb2YuvMatrix, LimitsY, LimitsUV, Pow2;
    RangesOfEight(swing);
    RowLimits(space, swing);
  }

  /** What a writer between families stores: nothing is cut. */
  lemma MatrixByte(w: Writer, q: Pixel, c: nat)
    requires w.kernel.ByMatrix? && ByteLimits(w.matrix) && c < 3
    ensures var k := ApplyMatrix(w.matrix, q.x, q.y, q.z);
            && IsByte(k.0) && IsByte(k.1) && IsByte(k.2)
            && (!w.mode.AlphaIn? ==> ChannelByte(w, c, q) == if c == 0 then k.0 else if c == 1 then k.1 else k.2)
            && (w.mode.AlphaIn? ==>
                  ChannelByte(w, c, q)
                  == if c == 0 then Bound(w.matrix.xLimits.lo, AlphaRaw(w.alpha.x, w.alpha.shift, k.0, q.a),
                                          w.matrix.xLimits.hi)
                     else if c == 1 then Bound(w.matrix.yLimits.lo, AlphaRaw(w.alpha.y, w.alpha.shift, k.1, q.a),
                                               w.matrix.yLimits.hi)
                     else Bound(w.matrix.zLimits.lo, AlphaRaw(w.alpha.z, w.alpha.shift, k.2, q.a),
                                w.matrix.zLimits.hi))
  {
    hide Raw, AlphaRaw;
  }

  lemma ComposedYuv(space: YuvColorSpace, swing: YuvColorSpaceType, w: Writer, q: Pixel, c: nat)
    requires w.kernel.ByMatrix? && w.matrix == Rgb2YuvMatrix(space, swing, 8, 8, 8, 8, 8, 8) && BytePixel(q) && c < 3
    requires w.mode.AlphaIn? && w.alpha == AlphaYuvMatrix(swing, 8, 8, 8, 8)
    ensures Within(ChannelByte(w, c, q), Over(ExactYuv(space, swing, YuvType(c), q.x, q.y, q.z),
                   Black(swing, YuvType(c)), q.a), 4.0)
  {
    hide ApplyMatrix, ExactYuv, AlphaRaw, AlphaYuvMatrix, Rgb2YuvMatrix, Over, ChannelByte, Within, Pow2;
    var k := ApplyMatrix(w.matrix, q.x, q.y, q.z);
    YuvCodes(space, swing, q.x, q.y, q.z);
    YuvInRange(space, swing, q.x, q.y, q.z);
    YuvLimits(space, swing);
    MatrixByte(w, q, c);
    AlphaRows(swing);
    var (ly, luv) := CodedRanges(swing);
    var e := ExactYuv(space, swing, YuvType(c), q.x, q.y, q.z);
    if c == 0 {
      ComposedCode(w.alpha.x, ly, Black(swing, CtY), k.0, e, q.a);
    } else if c == 1 {
      ComposedCode(w.alpha.y, luv, Black(swing, CtU), k.1, e, q.a);
    } else {
      ComposedCode(w.alpha.z, luv, Black(swing, CtV), k.2, e, q.a);
    }
  }

  lemma YuvInRange(space: YuvColorSpace, swing: YuvColorSpaceType, r: int, g: int, b: int)
    requires IsByte(r) && IsByte(g) && IsByte(b)
    ensures var (y, uv) := CodedRanges(swing);
            && y.lo as real <= ExactYuv(space, swing, CtY, r, g, b) <= y.hi as real
            && uv.lo as real <= ExactYuv(space, swing, CtU, r, g, b) <= uv.hi as real
            && uv.lo as real <= ExactYuv(space, swing, CtV, r, g, b) <= uv.hi as real
  {
    hide ExactLuma, ExactChroma, RbConstantsOf, Fraction;
    var k := RbConstantsOf(space);
    var (y, uv) := CodedRanges(swing);
    FractionRange(r);
    FractionRange(g);
    FractionRange(b);
    LumaInRange(k, y, Fraction(r), Fraction(g), Fraction(b));
    ChromaInRange(k, k.kb, uv, Fraction(b), Fraction(r), Fraction(g), Fraction(b));
    ChromaInRange(k, k.kr, uv, Fraction(r), Fraction(r), Fraction(g), Fraction(b));
  }

  lemma BoundedCodes(m: Matrix, a: int, b: int, c: int)
    requires ByteLimits(m)
    ensures var q := ApplyMatrix(m, a, b, c); IsByte(q.0) && IsByte(q.1) && IsByte(q.2)
  {
    hide Raw;
  }

  /** A code near its exact value is near it after compositing too. */
  lemma ComposedCode(row: AlphaRow, l: Limits, black: real, v: int, e: real, a: int)
    requires IsByte(v) && IsByte(a) && 0 <= l.lo <= l.hi <= 255 && l.lo as real <= black <= l.hi as real
    requires l.lo as real <= e <= l.hi as real && Within(v, e, 2.0)
    requires (row, black) == (AlphaRow(1, 0, 128), 0.0) || (row, black) == (AlphaRow(1, -16, 4224), 16.0)
             || (row, black) == (AlphaRow(1, -129, 32896), 128.0) || (row, black) == (AlphaRow(1, -128, 32768), 127.5)
    ensures var x := Bound(l.lo, AlphaRaw(row, 8, v, a), l.hi); IsByte(x) && Within(x, Over(e, black, a), 4.0)
  {
    hide AlphaRaw, Fraction, Over;
    RowOver(row, black, v, a);
    OverNear(black, v, e, a);
    var o := OverBetween(l, black, e, a);
    var raw := AlphaRaw(row, 8, v, a);
    assert Within(raw, o, 4.0);
    BoundNear(l, raw, o);
  }

  lemma BoundNear(l: Limits, v: int, e: real)
    requires l.lo as real <= e <= l.hi as real && Within(v, e, 4.0)
    ensures Within(Bound(l.lo, v, l.hi), e, 4.0)
  {
  }

  lemma OverNear(black: real, v: int, e: real, a: int)
    requires IsByte(a) && Within(v, e, 2.0)
    ensures -2.0 < Over(v as real, black, a) - Over(e, black, a) < 2.0
  {
    hide Fraction;
    FractionRange(a);
    var o := Share2(Fraction(a), v as real - e, 2.0);
    Distribute3(Fraction(a), v as real, e, black);
  }

  /** A part of a difference is no larger. */
  lemma Share2(f: real, d: real, bound: real) returns (p: real)
    requires 0.0 <= f <= 1.0 && -bound < d < bound
    ensures p == f * d && -bound < p < bound
  {
    p := f * d;
    if d >= 0.0 {
      var q := Share(d, f);
    } else {
      var q := Share(-d, f);
      assert (-d) * f == -(f * d);
    }
  }

  lemma Distribute3(f: real, x: real, y: real, z: real)
    ensures f * (x - z) - f * (y - z) == f * (x - y)
  {
  }

  lemma OverBetween(l: Limits, black: real, e: real, a: int) returns (o: real)
    requires l.lo as real <= black <= l.hi as real && l.lo as real <= e <= l.hi as real && IsByte(a)
    ensures o == Over(e, black, a) && l.lo as real <= o <= l.hi as real
  {
    hide Fraction;
    FractionRange(a);
    o := Over(e, black, a);
    if e >= black {
      var p := Share(e - black, Fraction(a));
    } else {
      var p := Share(black - e, Fraction(a));
      assert (black - e) * Fraction(a) == -(Fraction(a) * (e - black));
    }
  }

  /** From YUV to RGB. No YUV format has alpha. */
  lemma RgbByte(space: YuvColorSpace, swing: YuvColorSpaceType, w: Writer, q: Pixel, c: nat)
    requires w.kernel.ByMatrix? && w.matrix == Yuv2RgbMatrix(space, swing, 8, 8, 8, 8, 8, 8) && BytePixel(q) && c < 3
    requires !w.mode.AlphaIn?
    ensures Within(ChannelByte(w, c, q), Cut(0, ExactRgb(space, swing, RgbType(c), q.x, q.y, q.z), 255), 2.0)
  {
    hide ApplyMatrix, ExactRgb, Yuv2RgbMatrix, Cut, Pow2, ChannelByte, Within;
    RgbCodes(space, swing, q.x, q.y, q.z);
    RgbLimits(space, swing);
    MatrixByte(w, q, c);
  }

  lemma RgbLimits(space: YuvColorSpace, swing: YuvColorSpaceType)
    ensures ByteLimits(Yuv2RgbMatrix(space, swing, 8, 8, 8, 8, 8, 8))
  {
    hide Yuv2RgbMatrix, LimitsY, LimitsUV, Pow2;
    RangesOfEight(swing);
    RowLimits(space, swing);
  }

  // ----- The samples of a converted frame -----

  lemma ByteMeans(r: Request, data: seq<int>, c: nat, p: (nat, nat))
    requires Served(r) && Holds(r.input, data) && InWindow(r, p.0, p.1) && Used(WriterOf(r), c)
    ensures Carries(r.Target(), ChannelType(r.Target(), c))
    ensures SampleMeans(r, data, ChannelType(r.Target(), c), p,
                        ChannelByte(WriterOf(r), c, PixelFor(r, data, p.0, p.1)))
  {
    hide FormatSpecs, Contains, Carries, GeometryOf, LinesInside, Served, WindowOf, PixelFor, WriterOf, SampleMeans,
      ChannelByte, FrameBytes, ChannelType, Composited;
    var f, g, w, q := r.input.format, r.Target(), WriterOf(r), PixelFor(r, data, p.0, p.1);
    ChannelTypes(r, c);
    CarriedTypes(g, ChannelType(g, c));
    if c == 3 {
      AlphaMeans(r, data, p);
    } else if Carries(f, CtR) <==> Carries(g, CtR) {
      MovedMeans(r, data, c, p);
    } else if Carries(f, CtR) {
      YuvMeans(r, data, c, p);
    } else {
      RgbMeans(r, data, c, p);
    }
  }

  lemma AlphaMeans(r: Request, data: seq<int>, p: (nat, nat))
    requires Served(r) && Holds(r.input, data) && InWindow(r, p.0, p.1) && Used(WriterOf(r), 3)
    requires Carries(r.Target(), CtA)
    ensures ChannelType(r.Target(), 3) == CtA
    ensures SampleMeans(r, data, CtA, p, ChannelByte(WriterOf(r), 3, PixelFor(r, data, p.0, p.1)))
  {
    hide FormatSpecs, Contains, Carries, GeometryOf, LinesInside, Served, WindowOf, PixelFor, WriterOf, Input,
      ChannelByte, FrameBytes, MainType;
    WriterParts(r);
    PixelParts(r, data, p);
    Families(r.Target());
    AlphaByte(WriterOf(r), PixelFor(r, data, p.0, p.1));
  }

  /** The types of a channel at both ends, in one family or two. */
  lemma ChannelEnds(r: Request, c: nat)
    requires Sized(r) && c < 3
    ensures var f, g, t := r.input.format, r.Target(), ChannelType(r.Target(), c);
            && t == MainType(g, c) == (if Carries(g, CtR) then RgbType(c) else YuvType(c)) && Carries(g, t)
            && MainType(f, c) == (if Carries(f, CtR) then RgbType(c) else YuvType(c))
            && (Carries(f, t) <==> (Carries(f, CtR) <==> Carries(g, CtR)))
            && (Carries(f, CtA) ==> Carries(f, CtR))
  {
    hide FormatSpecs, Contains, Carries, GeometryOf, MainType;
    FamilyTypes(r.input.format);
    FamilyTypes(r.Target());
    Families(r.Target());
    if Carries(r.input.format, CtA) {
      NoYuvAlpha(r.input.format);
    }
  }

  lemma MovedMeans(r: Request, data: seq<int>, c: nat, p: (nat, nat))
    requires Served(r) && Holds(r.input, data) && InWindow(r, p.0, p.1) && c < 3
    requires Carries(r.Target(), ChannelType(r.Target(), c))
    requires Carries(r.input.format, CtR) <==> Carries(r.Target(), CtR)
    ensures SampleMeans(r, data, ChannelType(r.Target(), c), p,
                        ChannelByte(WriterOf(r), c, PixelFor(r, data, p.0, p.1)))
  {
    hide FormatSpecs, Contains, Carries, GeometryOf, LinesInside, Served, WindowOf, PixelFor, WriterOf, Input,
      ChannelByte, FrameBytes, ChannelType, MainType, Abc2xyzMatrix, AlphaRgbMatrix, AlphaYuvMatrix;
    ChannelEnds(r, c);
    WriterParts(r);
    PixelParts(r, data, p);
    MovedByte(WriterOf(r), PixelFor(r, data, p.0, p.1), c);
  }

  lemma YuvMeans(r: Request, data: seq<int>, c: nat, p: (nat, nat))
    requires Served(r) && Holds(r.input, data) && InWindow(r, p.0, p.1) && c < 3
    requires Carries(r.Target(), ChannelType(r.Target(), c))
    requires Carries(r.input.format, CtR) && !Carries(r.Target(), CtR)
    ensures SampleMeans(r, data, ChannelType(r.Target(), c), p,
                        ChannelByte(WriterOf(r), c, PixelFor(r, data, p.0, p.1)))
  {
    hide FormatSpecs, Contains, Carries, GeometryOf, LinesInside, Served, WindowOf, PixelFor, WriterOf, Input,
      ChannelByte, FrameBytes, ChannelType, MainType, Rgb2YuvMatrix, AlphaYuvMatrix, ExactYuv, Over, Black, Within;
    ChannelEnds(r, c);
    ChannelEnds(r, 0);
    ChannelEnds(r, 1);
    ChannelEnds(r, 2);
    WriterParts(r);
    PixelParts(r, data, p);
    YuvByte(r.settings.space, r.settings.swing, WriterOf(r), PixelFor(r, data, p.0, p.1), c);
  }

  lemma RgbMeans(r: Request, data: seq<int>, c: nat, p: (nat, nat))
    requires Served(r) && Holds(r.input, data) && InWindow(r, p.0, p.1) && c < 3
    requires Carries(r.Target(), ChannelType(r.Target(), c))
    requires !Carries(r.input.format, CtR) && Carries(r.Target(), CtR)
    ensures SampleMeans(r, data, ChannelType(r.Target(), c), p,
                        ChannelByte(WriterOf(r), c, PixelFor(r, data, p.0, p.1)))
  {
    hide FormatSpecs, Contains, Carries, GeometryOf, LinesInside, Served, WindowOf, PixelFor, WriterOf, Input,
      ChannelByte, FrameBytes, ChannelType, MainType, Yuv2RgbMatrix, ExactRgb, Cut, Within;
    ChannelEnds(r, c);
    ChannelEnds(r, 0);
    ChannelEnds(r, 1);
    ChannelEnds(r, 2);
    WriterParts(r);
    PixelParts(r, data, p);
    RgbByte(r.settings.space, r.settings.swing, WriterOf(r), PixelFor(r, data, p.0, p.1), c);
  }

  lemma AlphaByte(w: Writer, q: Pixel)
    requires w.WritesAlpha() && BytePixel(q)
    ensures ChannelByte(w, 3, q) == if w.mode.AlphaInOut? then q.a else 255
  {
    hide Converted;
  }

  /** The types written as first, second and third component. */
  lemma FamilyTypes(f: PixelFormat)
    requires ByteFormat(f)
    ensures forall c: nat :: c < 3 ==> MainType(f, c) == if Carries(f, CtR) then RgbType(c) else YuvType(c)
    ensures forall c: nat :: c < 3 ==> (Carries(f, RgbType(c)) <==> Carries(f, CtR))
    ensures forall c: nat :: c < 3 ==> (Carries(f, YuvType(c)) <==> !Carries(f, CtR))
  {
    Families(f);
  }

  lemma NoYuvAlpha(f: PixelFormat)
    requires Carries(f, CtA) && ByteFormat(f)
    ensures Carries(f, CtR)
  {
  }

  /** The last pixel of a group that lies before `end`. */
  function LastOf(x: nat, size: nat, end: nat): (r: nat)
    requires size >= 1 && x < end
    ensures x <= r < end
  {
    DivBounds(x, size);
    Min(size * (x / size) + size - 1, end - 1)
  }

  /** The pixel of the window that decides the sample (x, y) has a part in: the last one, across and down, of those that
      share it. */
  function Decides(r: Request, t: ComponentType, x: nat, y: nat): (p: (nat, nat))
    requires r.Key().Valid() && InWindow(r, x, y)
    ensures InWindow(r, p.0, p.1)
  {
    hide GeometryOf, WindowOf;
    var win := WindowOf(r);
    var (gw, gh) := GroupSize(r.Target(), t);
    (LastOf(x, gw, win.x + win.width), LastOf(y, gh, win.y + win.height))
  }

  /** Pixels of one group. */
  predicate Grouped(f: PixelFormat, t: ComponentType, x: nat, y: nat, x': nat, y': nat)
  {
    var (gw, gh) := GroupSize(f, t);
    x / gw == x' / gw && y / gh == y' / gh
  }

  /** The output channel of a component. */
  lemma ChannelOf(r: Request, t: ComponentType) returns (c: nat)
    requires Sized(r) && Carries(r.Target(), t)
    ensures Used(WriterOf(r), c) && ChannelType(r.Target(), c) == t
  {
    hide FormatSpecs, Contains, Carries, GeometryOf, MainType, WriterOf, ChannelType;
    c := if t.CtA? then 3 else if t.CtR? || t.CtY? then 0 else if t.CtG? || t.CtU? then 1 else 2;
    WriterParts(r);
    if c == 3 {
      ChannelTypes(r, 3);
    } else {
      ChannelEnds(r, c);
      OwnChannel(r.Target(), t, c);
    }
  }

  lemma OwnChannel(f: PixelFormat, t: ComponentType, c: nat)
    requires ByteFormat(f) && Carries(f, t) && c < 3 && !t.CtA?
    requires c == if t.CtR? || t.CtY? then 0 else if t.CtG? || t.CtU? then 1 else 2
    ensures t == if Carries(f, CtR) then RgbType(c) else YuvType(c)
  {
  }

  /** The sink of a channel shares samples as the format's groups do, and the deciding pixels agree. */
  lemma SinkGroups(r: Request, c: nat, x: nat, y: nat, u: nat, v: nat)
    requires Served(r) && Used(WriterOf(r), c) && Carries(r.Target(), ChannelType(r.Target(), c))
    requires InWindow(r, x, y)
    ensures var t := ChannelType(r.Target(), c);
            && (ShareSample(SinkOf(WriterOf(r), c), u, v, x, y) <==> Grouped(r.Target(), t, u, v, x, y))
            && DecidingPixel(r, c, x, y) == Decides(r, t, x, y)
  {
    hide FormatSpecs, Contains, Carries, GeometryOf, LinesInside, Served, WindowOf, WriterOf, ChannelType, GroupSize,
      LastIn, LastOf, Shr, LayoutOf, ComponentOf;
    var t, o := ChannelType(r.Target(), c), r.OutputFormat();
    var (gw, gh) := GroupSize(r.Target(), t);
    ChannelTypes(r, c);
    GroupShifts(r.Target(), o.width, o.height, t);
    ShiftIsGroup(gw, x);
    ShiftIsGroup(gw, u);
    ShiftIsGroup(gh, y);
    ShiftIsGroup(gh, v);
    LastAgrees(gw, x, WindowOf(r).x + WindowOf(r).width);
    LastAgrees(gh, y, WindowOf(r).y + WindowOf(r).height);
  }

  lemma ShiftIsGroup(g: nat, x: nat)
    requires g == 1 || g == 2
    ensures Shr(x, g - 1) == x / g
  {
    assert Pow2(0) == 1 && Pow2(1) == 2;
  }

  lemma LastAgrees(g: nat, x: nat, end: nat)
    requires x < end && (g == 1 || g == 2)
    ensures LastIn(g - 1, x, end) == LastOf(x, g, end)
  {
    hide Shr;
    LastInClosed(g - 1, x, end);
    ShiftIsGroup(g, x);
    assert Pow2(0) == 1 && Pow2(1) == 2;
  }

  /** The meaning of a converted frame, from input samples to output samples, for every component of every pair of byte
      formats, scaling mode, aspect mode and size: the sample that pixel (u, v) shares with a window pixel (x, y) is
      what the colour equations make of the resized input at the deciding pixel of the group. */
  lemma ConvertedSample(fill: Fill, r: Request, data: seq<int>, t: ComponentType, x: nat, y: nat, u: nat, v: nat)
    requires Served(r) && Holds(r.input, data) && !r.OutputFormat().SameAs(r.input) && Carries(r.Target(), t)
    requires InWindow(r, x, y) && u < r.OutputFormat().width && v < r.OutputFormat().height
    requires Grouped(r.Target(), t, u, v, x, y)
    ensures var out := ConvertedFrame(fill, r, data);
            && Sampled(out.format, out.data, t)
            && SampleMeans(r, data, t, Decides(r, t, x, y), SampleIn(out.format, out.data, t, u, v))
  {
    hide FormatSpecs, Contains, Carries, GeometryOf, LinesInside, Served, WindowOf, WriterOf, ChannelType, GroupSize,
      ShareSample, SinkOf, SampleMeans, ConvertedFrame, DecidingPixel, Decides, ChannelByte, PixelFor, FrameBytes,
      SampleIn, Grouped;
    var c := ChannelOf(r, t);
    SinkGroups(r, c, x, y, u, v);
    OutputSample(fill, r, data, c, x, y, u, v);
    ByteMeans(r, data, c, DecidingPixel(r, c, x, y));
  }
}
