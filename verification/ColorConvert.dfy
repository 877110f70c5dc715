/** Fixed-point colour conversion: how `ColorConvert` builds its matrices
    (VCamUtils/src/colorconvert.cpp) and applies them (VCamUtils/src/colorconvert.h). */
module ColorMatrices {
  import opened Arithmetic

  datatype YuvColorSpace = AVG | ITUR_BT601 | ITUR_BT709 | ITUR_BT2020 | SMPTE_240M

  datatype YuvColorSpaceType = StudioSwing | FullSwing

  /** Inclusive range of code values of a channel. */
  datatype Limits = Limits(lo: int, hi: int)

  datatype RbConstants = RbConstants(kr: int, kb: int, div: int)

  /** One row of the 3x4 matrix: three coefficients and the offset. */
  datatype Row = Row(ka: int, kb: int, kc: int, offset: int)

  datatype Matrix = Matrix(x: Row, y: Row, z: Row, xLimits: Limits, yLimits: Limits, zLimits: Limits, shift: nat)

  /** The alpha matrix has equal shape on each channel: `(a * (v * k + bias) + offset) >> shift`. */
  datatype AlphaRow = AlphaRow(k: int, bias: int, offset: int)

  datatype AlphaMatrix = AlphaMatrix(x: AlphaRow, y: AlphaRow, z: AlphaRow, shift: nat)

  const INT64_MAX: int := 0x7fff_ffff_ffff_ffff
  const INT64_MIN: int := -0x8000_0000_0000_0000

  // ----- Construction constants -----

  function RbConstantsOf(space: YuvColorSpace): (c: RbConstants)
    ensures c.div == 10000 && 0 < c.kr && 0 < c.kb && c.kr + c.kb < c.div
  {
    match space
    case AVG => RbConstants(3333, 3333, 10000)
    case ITUR_BT601 => RbConstants(2990, 1140, 10000)
    case ITUR_BT709 => RbConstants(2126, 722, 10000)
    case ITUR_BT2020 => RbConstants(2627, 593, 10000)
    case SMPTE_240M => RbConstants(2120, 870, 10000)
  }

  /** Largest code of a channel `bits` wide. */
  function MaxCode(bits: nat): (r: nat)
  {
    Pow2(bits) - 1
  }

  function RoundedDiv(num: int, den: int): (q: int)
  {
    if den == 0 then
      if num < 0 then INT64_MIN else INT64_MAX
    else if (num < 0 && den > 0) || (num > 0 && den < 0) then
      Quot(2 * num - den, 2 * den)
    else
      Quot(2 * num + den, 2 * den)
  }

  /** `RoundedDiv` is a nearest integer to the quotient, and keeps the sign of the numerator. */
  lemma RoundedDivNearest(num: int, den: int)
    requires den > 0
    ensures -den <= 2 * (den * RoundedDiv(num, den) - num) <= den
    ensures num >= 0 ==> RoundedDiv(num, den) >= 0
    ensures num <= 0 ==> RoundedDiv(num, den) <= 0
  {
    var n := Abs(num);
    var q := NearestQuotient(n, den);
    if num < 0 {
      assert RoundedDiv(num, den) == -q;
      assert den * -q == -(den * q);
    } else {
      assert RoundedDiv(num, den) == q;
    }
  }

  lemma NearestQuotient(n: nat, den: int) returns (q: int)
    requires den > 0
    ensures q >= 0 && q == (2 * n + den) / (2 * den) && -den <= 2 * (den * q - n) <= den
  {
    DivSign(2 * n + den, 2 * den);
    DivBounds(2 * n + den, 2 * den);
    q := (2 * n + den) / (2 * den);
    assert 2 * den * q == 2 * (den * q);
  }

  lemma RoundedDivExact(q: int, den: int)
    requires den > 0
    ensures RoundedDiv(den * q, den) == q
  {
    RoundedDivNearest(den * q, den);
    var r := RoundedDiv(den * q, den);
    var d := r - q;
    assert den * r - den * q == den * d;
    if d >= 1 {
      MulLe(den, 1, d);
    } else if d <= -1 {
      MulLe(den, d, -1);
    }
  }

  function FloorLog2(value: nat): (n: nat)
  {
    if value < 2 then 0 else 1 + FloorLog2(value / 2)
  }

  lemma FloorLog2Bounds(value: nat)
    ensures value >= 1 ==> Pow2(FloorLog2(value)) <= value < 2 * Pow2(FloorLog2(value))
    ensures value < 2 ==> Pow2(FloorLog2(value)) == 1
  {
    if value >= 2 {
      FloorLog2Bounds(value / 2);
    }
  }

  /** Of the two powers of two around `value`, the nearer one; the larger one on a tie. */
  function PowOf2Near(value: nat): (r: nat)
  {
    var p := Pow2(FloorLog2(value));
    if Abs(2 * p - value) <= Abs(p - value) then 2 * p else p
  }

  /** `PowOf2Near` is a power of two, no power of two is nearer, and a tie goes to the larger one. */
  lemma PowOf2NearIsNearest(value: nat)
    ensures exists n: nat :: PowOf2Near(value) == Pow2(n)
    ensures forall k: nat :: Abs(PowOf2Near(value) - value) <= Abs(Pow2(k) - value)
    ensures forall k: nat :: Abs(PowOf2Near(value) - value) == Abs(Pow2(k) - value) ==> Pow2(k) <= PowOf2Near(value)
  {
    var n := FloorLog2(value);
    FloorLog2Bounds(value);
    assert Pow2(n + 1) == 2 * Pow2(n);
    forall k: nat
      ensures Pow2(k) <= Pow2(n) || 2 * Pow2(n) <= Pow2(k)
    {
      if k <= n {
        Pow2Monotone(k, n);
      } else {
        Pow2Monotone(n + 1, k);
      }
    }
  }

  function LimitsY(bits: nat, swing: YuvColorSpaceType): (l: Limits)
  {
    if swing.FullSwing? then
      Limits(0, MaxCode(bits))
    else
      var g := 9;
      Limits(PowOf2Near(RoundedDivNat(MaxCode(bits) * g, 2 * g + 100)),
             Quot(MaxCode(bits) * (g + 100), 2 * g + 100))
  }

  function LimitsUV(bits: nat, swing: YuvColorSpaceType): (l: Limits)
  {
    if swing.FullSwing? then
      Limits(0, MaxCode(bits))
    else
      var g := 9;
      var lo := PowOf2Near(RoundedDivNat(MaxCode(bits) * g, 2 * g + 100));
      Limits(lo, Pow2(bits) - lo)
  }

  function RoundedDivNat(num: nat, den: nat): (q: nat)
    requires den > 0
    ensures q == RoundedDiv(num, den)
  {
    (2 * num + den) / (2 * den)
  }

  /** From two bits up the code ranges are proper, inside the channel, and chroma is centred on mid-scale. */
  lemma LimitsProper(bits: nat, swing: YuvColorSpaceType)
    requires bits >= 2
    ensures 0 <= LimitsY(bits, swing).lo < LimitsY(bits, swing).hi <= MaxCode(bits)
    ensures 0 <= LimitsUV(bits, swing).lo < LimitsUV(bits, swing).hi <= MaxCode(bits)
    ensures swing.StudioSwing? ==> LimitsUV(bits, swing).lo + LimitsUV(bits, swing).hi == 2 * Pow2(bits - 1)
  {
    var m := MaxCode(bits);
    assert m >= 3 by { Pow2Monotone(2, bits); assert Pow2(2) == 4; }
    if swing.StudioSwing? {
      var v := RoundedDivNat(m * 9, 118);
      FloorLog2Bounds(v);
      var lo := PowOf2Near(v);
      assert 1 <= lo && (lo == 1 || 3 * lo <= 4 * v);
      assert 236 * v <= 18 * m + 118;
      var hi := m * 109 / 118;
      assert 118 * hi >= 109 * m - 117;
    }
  }

  lemma FloorLog2Is(value: nat, n: nat)
    requires Pow2(n) <= value < 2 * Pow2(n)
    ensures FloorLog2(value) == n
  {
    var k := FloorLog2(value);
    FloorLog2Bounds(value);
    if k < n {
      Pow2Monotone(k, n);
    } else if n < k {
      Pow2Monotone(n, k);
    }
  }

  /** Recommendation ITU-R BT.601-7 (section 2.5.3) has luma 16..235 and chroma 16..240 at 8 bits, and the same codes
      followed by zero bits at 10. From 8 bits up the construction meets it at both floors and at the chroma ceiling;
      the luma ceiling is met at 8 bits only, and too high at any other depth. */
  lemma StudioLimitsMeetStandard(bits: nat)
    requires bits >= 8
    ensures var n := Pow2(bits - 8);
            && LimitsY(bits, StudioSwing).lo == 16 * n && LimitsUV(bits, StudioSwing) == Limits(16 * n, 240 * n)
            && (LimitsY(bits, StudioSwing).hi == 235 * n <==> bits == 8)
            && LimitsY(bits, StudioSwing).hi >= 235 * n
  {
    hide FloorLog2, Pow2, Quot, RoundedDivNat, PowOf2Near;
    var n := Pow2(bits - 8);
    StudioSizes(bits);
    StudioCodes(n);
    NearestBelow(RoundedDivNat(MaxCode(bits) * 9, 118), bits - 4);
  }

  lemma StudioSizes(bits: nat)
    requires bits >= 8
    ensures Pow2(bits) == 256 * Pow2(bits - 8) && Pow2(bits - 4) == 16 * Pow2(bits - 8)
    ensures Pow2(bits - 8) == 1 <==> bits == 8
  {
    Pow2Add(bits - 8, 8);
    Pow2Add(bits - 8, 4);
    assert Pow2(4) == 16 && Pow2(8) == 16 * Pow2(4);
    if bits > 8 {
      Pow2Monotone(1, bits - 8);
    }
  }

  lemma StudioCodes(n: nat)
    requires n >= 1
    ensures 16 * n <= RoundedDivNat((256 * n - 1) * 9, 118) < 24 * n
    ensures var hi := Quot((256 * n - 1) * 109, 118); hi >= 235 * n && (hi == 235 * n <==> n == 1)
  {
  }

  /** Less than half-way to the next power of two. */
  lemma NearestBelow(value: nat, k: nat)
    requires Pow2(k) <= value && 2 * value < 3 * Pow2(k)
    ensures PowOf2Near(value) == Pow2(k)
  {
    hide FloorLog2, Pow2;
    FloorLog2Is(value, k);
  }

  lemma TenBits()
    ensures LimitsY(10, StudioSwing) == Limits(64, 944) && LimitsUV(10, StudioSwing) == Limits(64, 960)
  {
    StudioLimitsMeetStandard(10);
    assert Pow2(4) == 16 && Pow2(10) == 64 * Pow2(4);
  }

  // ----- The matrices -----

  function Max3(a: nat, b: nat, c: nat): (r: nat)
    ensures r >= a && r >= b && r >= c && (r == a || r == b || r == c)
  {
    if a >= b && a >= c then a else if b >= c then b else c
  }

  function DepthGain(shift: nat, ibits: nat, obits: nat): (k: int)
  {
    RoundedDiv(Pow2(shift) * MaxCode(obits), MaxCode(ibits))
  }

  function Abc2xyzMatrix(abits: nat, bbits: nat, cbits: nat, xbits: nat, ybits: nat, zbits: nat): (m: Matrix)
  {
    var shift := Max3(abits, bbits, cbits);
    var rounding := Pow2(Abs(shift - 1));
    Matrix(Row(DepthGain(shift, abits, xbits), 0, 0, rounding),
           Row(0, DepthGain(shift, bbits, ybits), 0, rounding),
           Row(0, 0, DepthGain(shift, cbits, zbits), rounding),
           Limits(0, MaxCode(xbits)), Limits(0, MaxCode(ybits)), Limits(0, MaxCode(zbits)),
           shift)
  }

  /** Share of luma range `diff` given to a channel of weight `w / div`, per input code, scaled by `d`. */
  function LumaGain(d: int, diff: int, w: int, div: int, cmax: int): (k: int)
  {
    RoundedDiv(d * diff * w, div * cmax)
  }

  /** Share of chroma range `diff` taken by a channel of weight `w` against the peak weight `wPeak`. */
  function ChromaGain(d: int, diff: int, w: int, cmax: int, wPeak: int): (k: int)
  {
    RoundedDiv(d * diff * w, 2 * cmax * wPeak)
  }

  function ChromaPeakGain(d: int, diff: int, cmax: int): (k: int)
  {
    RoundedDiv(d * diff, 2 * cmax)
  }

  function LumaOffset(d: int, rounding: int, y: Limits): (k: int)
  {
    rounding + d * y.lo
  }

  function ChromaOffset(d: int, rounding: int, u: Limits): (k: int)
  {
    rounding + Quot(d * (u.lo + u.hi), 2)
  }

  /** The matrix for given code ranges; `d` is `1 << shift`. */
  function Rgb2YuvRows(space: YuvColorSpace, y: Limits, u: Limits, v: Limits, shift: nat,
                       rounding: int, rmax: int, gmax: int, bmax: int): (m: Matrix)
  {
    var c := RbConstantsOf(space);
    var kyg := c.div - c.kr - c.kb;
    var kub, kvr := c.div - c.kb, c.div - c.kr;
    var d := Pow2(shift);
    var dy, du, dv := y.hi - y.lo, u.hi - u.lo, v.hi - v.lo;
    Matrix(
      Row(LumaGain(d, dy, c.kr, c.div, rmax), LumaGain(d, dy, kyg, c.div, gmax), LumaGain(d, dy, c.kb, c.div, bmax),
          LumaOffset(d, rounding, y)),
      Row(ChromaGain(d, du, -c.kr, rmax, kub), ChromaGain(d, du, -kyg, gmax, kub), ChromaPeakGain(d, du, bmax),
          ChromaOffset(d, rounding, u)),
      Row(ChromaPeakGain(d, dv, rmax), ChromaGain(d, dv, -kyg, gmax, kvr), ChromaGain(d, dv, -c.kb, bmax, kvr),
          ChromaOffset(d, rounding, v)),
      y, u, v, shift)
  }

  function Rgb2YuvMatrix(space: YuvColorSpace, swing: YuvColorSpaceType,
                         rbits: nat, gbits: nat, bbits: nat, ybits: nat, ubits: nat, vbits: nat): (m: Matrix)
    requires rbits >= 1 || gbits >= 1 || bbits >= 1
  {
    var shift := Max3(rbits, gbits, bbits);
    Rgb2YuvRows(space, LimitsY(ybits, swing), LimitsUV(ubits, swing), LimitsUV(vbits, swing),
                shift, Pow2(shift - 1), MaxCode(rbits), MaxCode(gbits), MaxCode(bbits))
  }

  /** Inverse luma gain: the channel range `cmax` over the luma range `diff`. */
  function InverseLumaGain(d: int, cmax: int, diff: int): (k: int)
  {
    RoundedDiv(d * cmax, diff)
  }

  function InverseChromaGain(d: int, cmax: int, w: int, den: int): (k: int)
  {
    RoundedDiv(2 * d * cmax * w, den)
  }

  function InverseOffset(rounding: int, ky: int, y: Limits, chroma: int): (k: int)
  {
    rounding - ky * y.lo - Quot(chroma, 2)
  }

  /** A chroma gain times the doubled middle of the chroma range. */
  function ChromaBias(k: int, u: Limits): (r: int)
  {
    k * (u.lo + u.hi)
  }

  function Yuv2RgbRows(space: YuvColorSpace, y: Limits, u: Limits, v: Limits, shift: nat,
                       rounding: int, rmax: int, gmax: int, bmax: int): (m: Matrix)
  {
    var c := RbConstantsOf(space);
    var kyg := c.div - c.kr - c.kb;
    var d := Pow2(shift);
    var dy, du, dv := y.hi - y.lo, u.hi - u.lo, v.hi - v.lo;
    var kry, kgy, kby := InverseLumaGain(d, rmax, dy), InverseLumaGain(d, gmax, dy), InverseLumaGain(d, bmax, dy);
    var krv := InverseChromaGain(d, rmax, c.div - c.kr, c.div * dv);
    var kgu := InverseChromaGain(d, gmax, c.kb * (c.kb - c.div), c.div * kyg * du);
    var kgv := InverseChromaGain(d, gmax, c.kr * (c.kr - c.div), c.div * kyg * dv);
    var kbu := InverseChromaGain(d, bmax, c.div - c.kb, c.div * du);
    Matrix(
      Row(kry, 0, krv, InverseOffset(rounding, kry, y, ChromaBias(krv, v))),
      Row(kgy, kgu, kgv, InverseOffset(rounding, kgy, y, ChromaBias(kgu, u) + ChromaBias(kgv, v))),
      Row(kby, kbu, 0, InverseOffset(rounding, kby, y, ChromaBias(kbu, u))),
      Limits(0, rmax), Limits(0, gmax), Limits(0, bmax), shift)
  }

  function Yuv2RgbMatrix(space: YuvColorSpace, swing: YuvColorSpaceType,
                         ybits: nat, ubits: nat, vbits: nat, rbits: nat, gbits: nat, bbits: nat): (m: Matrix)
    requires ybits >= 1 || ubits >= 1 || vbits >= 1
  {
    var shift := Max3(ybits, ubits, vbits);
    Yuv2RgbRows(space, LimitsY(ybits, swing), LimitsUV(ubits, swing), LimitsUV(vbits, swing),
                shift, Pow2(shift - 1), MaxCode(rbits), MaxCode(gbits), MaxCode(bbits))
  }

  function AlphaRgbMatrix(alphaBits: nat): (m: AlphaMatrix)
    requires alphaBits >= 1
  {
    var row := AlphaRow(RoundedDiv(Pow2(alphaBits), MaxCode(alphaBits)), 0, Pow2(alphaBits - 1));
    AlphaMatrix(row, row, row, alphaBits)
  }

  function AlphaYuvRow(k: int, d: int, rounding: int, top: int, middle2: int): (r: AlphaRow)
    requires top != 0
  {
    AlphaRow(k, -RoundedDiv(d * middle2, 2 * top), rounding + Quot(d * middle2, 2))
  }

  function AlphaYuvMatrix(swing: YuvColorSpaceType, alphaBits: nat, ybits: nat, ubits: nat,
                          vbits: nat): (m: AlphaMatrix)
    requires alphaBits >= 1
  {
    var d, top, rounding := Pow2(alphaBits), MaxCode(alphaBits), Pow2(alphaBits - 1);
    var k := Quot(d, top);
    var y, u, v := LimitsY(ybits, swing), LimitsUV(ubits, swing), LimitsUV(vbits, swing);
    AlphaMatrix(AlphaRow(k, -RoundedDiv(d * y.lo, top), rounding + d * y.lo),
                AlphaYuvRow(k, d, rounding, top, u.lo + u.hi), AlphaYuvRow(k, d, rounding, top, v.lo + v.hi), alphaBits)
  }

  // ----- Applying a matrix -----

  function Dot(row: Row, a: int, b: int, c: int): (r: int)
  {
    a * row.ka + b * row.kb + c * row.kc + row.offset
  }

  /** A matrix row applied before the result is bounded. */
  function Raw(row: Row, shift: nat, a: int, b: int, c: int): (r: int)
  {
    Shr(Dot(row, a, b, c), shift)
  }

  function ApplyMatrix(m: Matrix, a: int, b: int, c: int): (r: (int, int, int))
  {
    (Bound(m.xLimits.lo, Raw(m.x, m.shift, a, b, c), m.xLimits.hi),
     Bound(m.yLimits.lo, Raw(m.y, m.shift, a, b, c), m.yLimits.hi),
     Bound(m.zLimits.lo, Raw(m.z, m.shift, a, b, c), m.zLimits.hi))
  }

  /** The diagonal form used between formats of one colour family. It does not bound its results. */
  function ApplyVector(m: Matrix, a: int, b: int, c: int): (r: (int, int, int))
  {
    (Shr(a * m.x.ka + m.x.offset, m.shift),
     Shr(b * m.y.kb + m.y.offset, m.shift),
     Shr(c * m.z.kc + m.z.offset, m.shift))
  }

  function AlphaRaw(row: AlphaRow, shift: nat, v: int, a: int): (r: int)
  {
    Shr(a * (v * row.k + row.bias) + row.offset, shift)
  }

  function ApplyAlpha(alpha: AlphaMatrix, m: Matrix, p: (int, int, int), a: int): (r: (int, int, int))
  {
    (Bound(m.xLimits.lo, AlphaRaw(alpha.x, alpha.shift, p.0, a), m.xLimits.hi),
     Bound(m.yLimits.lo, AlphaRaw(alpha.y, alpha.shift, p.1, a), m.yLimits.hi),
     Bound(m.zLimits.lo, AlphaRaw(alpha.z, alpha.shift, p.2, a), m.zLimits.hi))
  }

  // ----- The object that holds the matrices -----

  class ColorConvert {
    var yuvColorSpace: YuvColorSpace
    var yuvColorSpaceType: YuvColorSpaceType
    var matrix: Matrix
    var alpha: AlphaMatrix

    constructor (space: YuvColorSpace, swing: YuvColorSpaceType)
      ensures yuvColorSpace == space && yuvColorSpaceType == swing
    {
      yuvColorSpace := space;
      yuvColorSpaceType := swing;
      var row := Row(0, 0, 0, 0);
      matrix := Matrix(row, row, row, Limits(0, 0), Limits(0, 0), Limits(0, 0), 0);
      alpha := AlphaMatrix(AlphaRow(0, 0, 0), AlphaRow(0, 0, 0), AlphaRow(0, 0, 0), 0);
    }

    /** The shifting loop finds the nearest power of two. */
    static method NearestPowOf2(value: nat) returns (r: nat)
      ensures r == PowOf2Near(value)
    {
      var res: nat := 0;
      ghost var cur: nat := value;
      var val: nat := value / 2;
      while val != 0
        invariant val == cur / 2
        invariant FloorLog2(value) == res + FloorLog2(cur)
      {
        cur := val;
        res := res + 1;
        val := val / 2;
      }
      assert Pow2(res + 1) == 2 * Pow2(res);
      if Abs(Pow2(res + 1) - value) <= Abs(Pow2(res) - value) {
        return Pow2(res + 1);
      }
      return Pow2(res);
    }

    static method ComputeLimitsY(bits: nat, swing: YuvColorSpaceType) returns (minY: int, maxY: int)
      ensures Limits(minY, maxY) == LimitsY(bits, swing)
    {
      if swing.FullSwing? {
        return 0, Pow2(bits) - 1;
      }
      var g := 9;
      var maxValue := Pow2(bits) - 1;
      minY := NearestPowOf2(RoundedDiv(maxValue * g, 2 * g + 100));
      maxY := Quot(maxValue * (g + 100), 2 * g + 100);
    }

    static method ComputeLimitsUV(bits: nat, swing: YuvColorSpaceType) returns (minUV: int, maxUV: int)
      ensures Limits(minUV, maxUV) == LimitsUV(bits, swing)
    {
      if swing.FullSwing? {
        return 0, Pow2(bits) - 1;
      }
      var g := 9;
      var maxValue := Pow2(bits) - 1;
      minUV := NearestPowOf2(RoundedDiv(maxValue * g, 2 * g + 100));
      maxUV := Pow2(bits) - minUV;
    }

    method LoadAbc2xyzMatrix(abits: nat, bbits: nat, cbits: nat, xbits: nat, ybits: nat, zbits: nat)
      modifies this`matrix
      ensures matrix == Abc2xyzMatrix(abits, bbits, cbits, xbits, ybits, zbits)
    {
      var shift: int := Max3(abits, bbits, cbits);
      var shiftDiv := Pow2(shift);
      var rounding := Pow2(Abs(shift - 1));
      var kx := RoundedDiv(shiftDiv * MaxCode(xbits), MaxCode(abits));
      var ky := RoundedDiv(shiftDiv * MaxCode(ybits), MaxCode(bbits));
      var kz := RoundedDiv(shiftDiv * MaxCode(zbits), MaxCode(cbits));
      matrix := Matrix(Row(kx, 0, 0, rounding), Row(0, ky, 0, rounding), Row(0, 0, kz, rounding),
                       Limits(0, MaxCode(xbits)), Limits(0, MaxCode(ybits)), Limits(0, MaxCode(zbits)), shift);
    }

    method LoadRgb2yuvMatrix(rbits: nat, gbits: nat, bbits: nat, ybits: nat, ubits: nat, vbits: nat)
      requires rbits >= 1 || gbits >= 1 || bbits >= 1
      modifies this`matrix
      ensures matrix == Rgb2YuvMatrix(yuvColorSpace, yuvColorSpaceType, rbits, gbits, bbits, ybits, ubits, vbits)
    {
      var shift := Max3(rbits, gbits, bbits);
      var minY, maxY := ComputeLimitsY(ybits, yuvColorSpaceType);
      var minU, maxU := ComputeLimitsUV(ubits, yuvColorSpaceType);
      var minV, maxV := ComputeLimitsUV(vbits, yuvColorSpaceType);
      matrix := Rgb2YuvRows(yuvColorSpace, Limits(minY, maxY), Limits(minU, maxU), Limits(minV, maxV),
                            shift, Pow2(shift - 1), MaxCode(rbits), MaxCode(gbits), MaxCode(bbits));
    }

    method LoadYuv2rgbMatrix(ybits: nat, ubits: nat, vbits: nat, rbits: nat, gbits: nat, bbits: nat)
      requires ybits >= 1 || ubits >= 1 || vbits >= 1
      modifies this`matrix
      ensures matrix == Yuv2RgbMatrix(yuvColorSpace, yuvColorSpaceType, ybits, ubits, vbits, rbits, gbits, bbits)
    {
      var shift := Max3(ybits, ubits, vbits);
      var minY, maxY := ComputeLimitsY(ybits, yuvColorSpaceType);
      var minU, maxU := ComputeLimitsUV(ubits, yuvColorSpaceType);
      var minV, maxV := ComputeLimitsUV(vbits, yuvColorSpaceType);
      matrix := Yuv2RgbRows(yuvColorSpace, Limits(minY, maxY), Limits(minU, maxU), Limits(minV, maxV),
                            shift, Pow2(shift - 1), MaxCode(rbits), MaxCode(gbits), MaxCode(bbits));
    }

    method LoadAlphaYuvMatrix(alphaBits: nat, ybits: nat, ubits: nat, vbits: nat)
      requires alphaBits >= 1
      modifies this`alpha
      ensures alpha == AlphaYuvMatrix(yuvColorSpaceType, alphaBits, ybits, ubits, vbits)
    {
      var amax := Pow2(alphaBits) - 1;
      var shiftDiv, rounding := Pow2(alphaBits), Pow2(alphaBits - 1);
      var k := Quot(shiftDiv, amax);
      var minY, _ := ComputeLimitsY(ybits, yuvColorSpaceType);
      var minU, maxU := ComputeLimitsUV(ubits, yuvColorSpaceType);
      var minV, maxV := ComputeLimitsUV(vbits, yuvColorSpaceType);
      alpha := AlphaMatrix(AlphaRow(k, -RoundedDiv(shiftDiv * minY, amax), rounding + shiftDiv * minY),
                           AlphaYuvRow(k, shiftDiv, rounding, amax, minU + maxU),
                           AlphaYuvRow(k, shiftDiv, rounding, amax, minV + maxV), alphaBits);
    }

    method LoadAlphaRgbMatrix(alphaBits: nat)
      requires alphaBits >= 1
      modifies this`alpha
      ensures alpha == AlphaRgbMatrix(alphaBits)
    {
      var k := RoundedDiv(Pow2(alphaBits), MaxCode(alphaBits));
      var rounding := Pow2(alphaBits - 1);
      alpha := AlphaMatrix(AlphaRow(k, 0, rounding), AlphaRow(k, 0, rounding), AlphaRow(k, 0, rounding), alphaBits);
    }
  }
}
