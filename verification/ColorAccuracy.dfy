/** How far the fixed-point colour matrices are from the colour equations they stand for
    (VCamUtils/src/colorconvert.cpp). The equations, over the reals, with weights in ten-thousandths:
    luma is the weighted mean of the normalised red, green and blue; a chroma component is the distance of blue or
    red from luma, scaled to the chroma range. */
module ColorAccuracy {
  import opened Arithmetic
  import opened ColorMatrices
  import opened ColorTheorems

  /** A code as a fraction of its channel's largest code. */
  function Normal(c: int, cmax: int): (r: real)
    requires cmax >= 1
  {
    c as real / cmax as real
  }

  /** The weighted sum of the three normalised channels; luma is this over `div`. */
  function Weighted(c: RbConstants, r: real, g: real, b: real): (s: real)
  {
    c.kr as real * r + (c.div - c.kr - c.kb) as real * g + c.kb as real * b
  }

  function ExactLuma(c: RbConstants, y: Limits, r: real, g: real, b: real): (e: real)
    requires c.div > 0
  {
    y.lo as real + (y.hi - y.lo) as real * Weighted(c, r, g, b) / c.div as real
  }

  /** Chroma of the channel `peak` with weight `k`: `(peak - luma) / (2 (1 - k))` of the range, around its middle. */
  function ExactChroma(c: RbConstants, k: int, u: Limits, peak: real, r: real, g: real, b: real): (e: real)
    requires k < c.div
  {
    (u.lo + u.hi) as real / 2.0
    + (u.hi - u.lo) as real * (c.div as real * peak - Weighted(c, r, g, b)) / (2 * (c.div - k)) as real
  }

  /** The weights of red and blue: a third each for the average; for the others, to four decimals, those of
      Recommendations ITU-R BT.601, BT.709 and BT.2020 and of SMPTE 240M. */
  lemma StandardWeights(space: YuvColorSpace)
    ensures var c := RbConstantsOf(space);
            (c.kr as real / c.div as real, c.kb as real / c.div as real)
            == match space
               case AVG => (0.3333, 0.3333)
               case ITUR_BT601 => (0.299, 0.114)
               case ITUR_BT709 => (0.2126, 0.0722)
               case ITUR_BT2020 => (0.2627, 0.0593)
               case SMPTE_240M => (0.212, 0.087)
  {
  }

  // ----- One row of a matrix -----

  lemma DivideReal(x: real, p: real, q: real)
    requires p != 0.0 && q * p == x
    ensures x / p == q
  {
  }

  /** A rounded coefficient is within a half of the exact one. */
  predicate Near(k: int, x: real)
  {
    -0.5 <= k as real - x <= 0.5
  }

  lemma NearestReal(num: int, den: int)
    requires den > 0
    ensures Near(RoundedDiv(num, den), num as real / den as real)
  {
    hide RoundedDiv;
    RoundedDivNearest(num, den);
    HalfUnit(RoundedDiv(num, den), num, den);
  }

  lemma HalfUnit(k: int, num: int, den: int)
    requires den > 0 && -den <= 2 * (den * k - num) <= den
    ensures Near(k, num as real / den as real)
  {
    var q, e := num as real / den as real, den as real;
    assert q * e == num as real;
    IntProduct(den, k);
    HalfReal(e, k as real, q, num as real);
  }

  lemma HalfReal(e: real, k: real, q: real, num: real)
    requires e > 0.0 && q * e == num && -e <= (e * k - num) + (e * k - num) <= e
    ensures -0.5 <= k - q <= 0.5
  {
    var t := k - q;
    Distribute(e, k, q);
    assert e * t == e * k - num;
    if t > 0.5 {
      ScaleUp(e, 0.5, t);
    } else if t < -0.5 {
      ScaleUp(e, t, -0.5);
    }
  }

  lemma Distribute(f: real, a: real, b: real)
    ensures f * (a - b) == f * a - f * b
  {
  }

  lemma ScaleUp(e: real, a: real, b: real)
    requires e > 0.0 && a < b
    ensures e * a < e * b
  {
  }

  lemma ScaleUpOrEqual(e: real, a: real, b: real)
    requires e > 0.0 && a <= b
    ensures e * a <= e * b
  {
  }

  /** `t` is within half a unit per code of its exact value `v`. */
  predicate NearTerm(s: int, t: int, v: real)
  {
    -0.5 * s as real <= t as real - v <= 0.5 * s as real
  }

  lemma TermError(s: int, k: int, x: real) returns (t: int, v: real)
    requires s >= 0 && Near(k, x)
    ensures NearTerm(s, t, v) && t == s * k && v == s as real * x
  {
    t, v := s * k, s as real * x;
    IntProduct(s, k);
    var p := Spread(s as real, k as real, x);
    TimesHalf(s as real, k as real - x, p);
  }

  /** A multiple of a difference, as one number. */
  lemma Spread(f: real, a: real, b: real) returns (p: real)
    ensures p == f * (a - b) && p == f * a - f * b
  {
    p := f * (a - b);
  }

  lemma TimesHalf(f: real, t: real, p: real)
    requires f >= 0.0 && -0.5 <= t <= 0.5 && p == f * t
    ensures -0.5 * f <= p <= 0.5 * f
  {
  }

  lemma IntProduct(a: int, b: int)
    ensures (a * b) as real == a as real * b as real
  {
  }

  /** A rounded-down quotient against the exact value it stands for, times `d`. */
  lemma FloorError(d: int, n: int, total: real)
    requires d >= 1
    requires -1.5 * d as real < n as real - total - 0.5 * d as real < 1.5 * d as real
    ensures -(2 * d) as real < d as real * (n / d) as real - total < (2 * d) as real
  {
    DivBounds(n, d);
    IntProduct(d, n / d);
  }

  lemma ScaleDown(d: real, raw: real, e: real, total: real)
    requires d > 0.0 && total == d * e && -(d + d) < d * raw - total < d + d
    ensures -2.0 < raw - e < 2.0
  {
    var p := Spread(d, raw, e);
    var q := Spread(d, e, raw);
    BelowTwo(d, raw - e, p);
    BelowTwo(d, e - raw, q);
  }

  lemma BelowTwo(d: real, t: real, p: real)
    requires d > 0.0 && p == d * t && p < d + d
    ensures t < 2.0
  {
    if t >= 2.0 {
      ScaleUpOrEqual(d, 2.0, t);
      Twice(d);
    }
  }

  lemma Twice(d: real)
    ensures d * 2.0 == d + d
  {
  }

  /** Three codes below the unit, their terms within half a unit per code of `v1`, `v2`, `v3`, and the rounding half
      unit: the row is off by less than two codes. */
  lemma RowError(d: int, s1: int, s2: int, s3: int, t1: int, t2: int, t3: int, v1: real, v2: real, v3: real,
                 c0: real, offset: int, raw: int, e: real, total: real)
    requires d >= 1 && 0 <= s1 < d && 0 <= s2 < d && 0 <= s3 < d
    requires NearTerm(s1, t1, v1) && NearTerm(s2, t2, v2) && NearTerm(s3, t3, v3)
             && offset as real == 0.5 * d as real + c0
    requires raw == (t1 + t2 + t3 + offset) / d
    requires total == d as real * e && total == v1 + v2 + v3 + c0
    ensures -2.0 < raw as real - e < 2.0
  {
    hide NearTerm;
    SumError(d, s1, s2, s3, t1, t2, t3, v1, v2, v3, c0, offset, raw, total);
    ScaleDown(d as real, raw as real, e, total);
  }

  lemma SumError(d: int, s1: int, s2: int, s3: int, t1: int, t2: int, t3: int, v1: real, v2: real, v3: real,
                 c0: real, offset: int, raw: int, total: real)
    requires d >= 1 && 0 <= s1 < d && 0 <= s2 < d && 0 <= s3 < d
    requires NearTerm(s1, t1, v1) && NearTerm(s2, t2, v2) && NearTerm(s3, t3, v3)
             && offset as real == 0.5 * d as real + c0
    requires raw == (t1 + t2 + t3 + offset) / d && total == v1 + v2 + v3 + c0
    ensures -(2 * d) as real < d as real * raw as real - total < (2 * d) as real
  {
    var n := t1 + t2 + t3 + offset;
    var x1, x2, x3 := t1 as real - v1, t2 as real - v2, t3 as real - v3;
    assert n as real - total - 0.5 * d as real == x1 + x2 + x3;
    BelowThreeHalves(d as real, s1 as real, s2 as real, s3 as real, x1, x2, x3);
    FloorError(d, n, total);
  }

  lemma BelowThreeHalves(d: real, s1: real, s2: real, s3: real, x1: real, x2: real, x3: real)
    requires s1 < d && s2 < d && s3 < d
    requires -0.5 * s1 <= x1 <= 0.5 * s1 && -0.5 * s2 <= x2 <= 0.5 * s2 && -0.5 * s3 <= x3 <= 0.5 * s3
    ensures -1.5 * d < x1 + x2 + x3 < 1.5 * d
  {
  }

  // ----- RGB to YUV -----

  /** The exact coefficient of a channel, times the code, is its weight's share of the range. */
  lemma ShareIs(n: real, p: real, q: real, s: real)
    requires p != 0.0 && q != 0.0 && p * q != 0.0
    ensures s * (n / (p * q)) == n * (s / q) / p
  {
    var a, b := n / (p * q), s / q;
    assert a * (p * q) == n && b * q == s;
    assert (s * a) * p == b * (a * (p * q)) by { Regroup(b, q, a, p); }
    DivideReal(n * b, p, s * a);
  }

  lemma Regroup(b: real, q: real, a: real, p: real)
    ensures ((b * q) * a) * p == b * (a * (p * q))
  {
  }

  /** The luma coefficient before it is rounded. */
  function ExactLumaGain(d: int, diff: int, w: int, div: int, cmax: int): (k: real)
    requires div >= 1 && cmax >= 1
  {
    MulLe(div, 1, cmax);
    (d * diff * w) as real / (div * cmax) as real
  }

  lemma LumaGainNear(d: int, diff: int, w: int, div: int, cmax: int)
    requires div >= 1 && cmax >= 1
    ensures Near(LumaGain(d, diff, w, div, cmax), ExactLumaGain(d, diff, w, div, cmax))
  {
    hide RoundedDiv;
    MulLe(div, 1, cmax);
    NearestReal(d * diff * w, div * cmax);
  }

  /** The exact luma coefficient times the code is the weight's share of the range. */
  lemma LumaShare(d: int, diff: int, w: int, div: int, cmax: int, s: int)
    requires div >= 1 && cmax >= 1
    ensures s as real * ExactLumaGain(d, diff, w, div, cmax)
            == (d * diff) as real * (w as real * Normal(s, cmax)) / div as real
  {
    MulLe(div, 1, cmax);
    IntProduct(div, cmax);
    IntProduct(d * diff, w);
    ShareIs((d * diff * w) as real, div as real, cmax as real, s as real);
    Associate((d * diff) as real, w as real, Normal(s, cmax));
  }

  lemma Associate(a: real, b: real, c: real)
    ensures (a * b) * c == a * (b * c)
  {
  }

  lemma SplitQuotient(a: real, b: real, c: real, p: real)
    requires p != 0.0
    ensures a / p + b / p + c / p == (a + b + c) / p
  {
    var x, y, z := a / p, b / p, c / p;
    assert x * p == a && y * p == b && z * p == c;
    assert (x + y + z) * p == a + b + c;
    DivideReal(a + b + c, p, x + y + z);
  }

  lemma ScaleQuotient(d: real, a: real, p: real)
    requires p != 0.0
    ensures d * (a / p) == d * a / p
  {
    var x := a / p;
    assert x * p == a;
    assert (d * x) * p == d * a;
    DivideReal(d * a, p, d * x);
  }

  /** Luma, before bounding, is less than two codes from the exact equation. */
  lemma LumaAccurate(d: int, h: int, y: Limits, c: RbConstants, rmax: int, gmax: int, bmax: int, r: int, g: int,
                     b: int, raw: int, e: real)
    requires d == 2 * h && h >= 1 && c.div > 0
    requires 1 <= rmax < d && 1 <= gmax < d && 1 <= bmax < d
    requires 0 <= r <= rmax && 0 <= g <= gmax && 0 <= b <= bmax
    requires raw == (r * LumaGain(d, y.hi - y.lo, c.kr, c.div, rmax)
             + g * LumaGain(d, y.hi - y.lo, c.div - c.kr - c.kb, c.div, gmax)
                     + b * LumaGain(d, y.hi - y.lo, c.kb, c.div, bmax) + LumaOffset(d, h, y)) / d
    requires e == ExactLuma(c, y, Normal(r, rmax), Normal(g, gmax), Normal(b, bmax))
    ensures -2.0 < raw as real - e < 2.0
  {
    hide LumaGain, Normal, ExactLuma, LumaOffset, NearTerm;
    LumaOffsetReal(d, h, y);
    var t1, t2, t3, v1, v2, v3, total := LumaTerms(d, y, c, rmax, gmax, bmax, r, g, b, e);
    RowError(d, r, g, b, t1, t2, t3, v1, v2, v3, (d * y.lo) as real, LumaOffset(d, h, y), raw, e, total);
  }

  /** The three terms of the luma row, with their exact values. */
  lemma LumaTerms(d: int, y: Limits, c: RbConstants, rmax: int, gmax: int, bmax: int, r: int, g: int, b: int, e: real)
    returns (t1: int, t2: int, t3: int, v1: real, v2: real, v3: real, total: real)
    requires c.div > 0 && rmax >= 1 && gmax >= 1 && bmax >= 1 && r >= 0 && g >= 0 && b >= 0
    requires e == ExactLuma(c, y, Normal(r, rmax), Normal(g, gmax), Normal(b, bmax))
    ensures NearTerm(r, t1, v1) && NearTerm(g, t2, v2) && NearTerm(b, t3, v3)
    ensures var dy, kg := y.hi - y.lo, c.div - c.kr - c.kb;
            t1 == r * LumaGain(d, dy, c.kr, c.div, rmax) && t2 == g * LumaGain(d, dy, kg, c.div,
                    gmax) && t3 == b * LumaGain(d, dy, c.kb, c.div, bmax)
    ensures total == d as real * e && total == v1 + v2 + v3 + (d * y.lo) as real
  {
    hide LumaGain, Normal, ExactLuma, ExactLumaGain, Near, NearTerm;
    var dy, kg := y.hi - y.lo, c.div - c.kr - c.kb;
    LumaGainNear(d, dy, c.kr, c.div, rmax);
    LumaGainNear(d, dy, kg, c.div, gmax);
    LumaGainNear(d, dy, c.kb, c.div, bmax);
    LumaTotal(d, y, c, rmax, gmax, bmax, r, g, b);
    t1, v1 := TermError(r, LumaGain(d, dy, c.kr, c.div, rmax), ExactLumaGain(d, dy, c.kr, c.div, rmax));
    t2, v2 := TermError(g, LumaGain(d, dy, kg, c.div, gmax), ExactLumaGain(d, dy, kg, c.div, gmax));
    t3, v3 := TermError(b, LumaGain(d, dy, c.kb, c.div, bmax), ExactLumaGain(d, dy, c.kb, c.div, bmax));
    total := d as real * e;
  }

  lemma LumaOffsetReal(d: int, h: int, y: Limits)
    requires d == 2 * h
    ensures LumaOffset(d, h, y) as real == 0.5 * d as real + (d * y.lo) as real
  {
  }

  lemma LumaTotal(d: int, y: Limits, c: RbConstants, rmax: int, gmax: int, bmax: int, r: int, g: int, b: int)
    requires c.div > 0 && rmax >= 1 && gmax >= 1 && bmax >= 1
    ensures var dy, kg := y.hi - y.lo, c.div - c.kr - c.kb;
            d as real * ExactLuma(c, y, Normal(r, rmax), Normal(g, gmax), Normal(b, bmax))
            == r as real * ExactLumaGain(d, dy, c.kr, c.div, rmax) + g as real * ExactLumaGain(d, dy, kg, c.div, gmax)
               + b as real * ExactLumaGain(d, dy, c.kb, c.div, bmax) + (d * y.lo) as real
  {
    hide ExactLuma, ExactLumaGain, Normal;
    var dy, kg := y.hi - y.lo, c.div - c.kr - c.kb;
    LumaShare(d, dy, c.kr, c.div, rmax, r);
    LumaShare(d, dy, kg, c.div, gmax, g);
    LumaShare(d, dy, c.kb, c.div, bmax, b);
    LumaSum(d, y, c, Normal(r, rmax), Normal(g, gmax), Normal(b, bmax));
  }

  lemma LumaSum(d: int, y: Limits, c: RbConstants, r: real, g: real, b: real)
    requires c.div > 0
    ensures var m, p := (d * (y.hi - y.lo)) as real, c.div as real;
            d as real * ExactLuma(c, y, r, g, b)
            == m * (c.kr as real * r) / p + m * ((c.div - c.kr - c.kb) as real * g) / p + m * (c.kb as real * b) / p
                + (d * y.lo) as real
  {
    var t1, t2, t3 := c.kr as real * r, (c.div - c.kr - c.kb) as real * g, c.kb as real * b;
    IntProduct(d, y.hi - y.lo);
    IntProduct(d, y.lo);
    SumOfShares(d as real, (y.hi - y.lo) as real, t1, t2, t3, c.div as real);
  }

  lemma SumOfShares(d: real, dy: real, t1: real, t2: real, t3: real, p: real)
    requires p != 0.0
    ensures d * (dy * (t1 + t2 + t3) / p) == (d * dy) * t1 / p + (d * dy) * t2 / p + (d * dy) * t3 / p
  {
    SplitQuotient((d * dy) * t1, (d * dy) * t2, (d * dy) * t3, p);
    ScaleQuotient(d, dy * (t1 + t2 + t3), p);
    assert d * (dy * (t1 + t2 + t3)) == (d * dy) * t1 + (d * dy) * t2 + (d * dy) * t3;
  }

  // ----- Chroma -----

  /** The chroma coefficient of weight `-w` before it is rounded, and the peak's. */
  function ExactChromaGain(d: int, diff: int, w: int, cmax: int, wPeak: int): (k: real)
    requires wPeak >= 1 && cmax >= 1
  {
    MulLe(wPeak, 1, cmax);
    (d * diff * w) as real / (2 * cmax * wPeak) as real
  }

  function ExactPeakGain(d: int, diff: int, cmax: int): (k: real)
    requires cmax >= 1
  {
    (d * diff) as real / (2 * cmax) as real
  }

  lemma ChromaGainNear(d: int, diff: int, w: int, cmax: int, wPeak: int)
    requires wPeak >= 1 && cmax >= 1
    ensures Near(ChromaGain(d, diff, w, cmax, wPeak), ExactChromaGain(d, diff, w, cmax, wPeak))
    ensures Near(ChromaPeakGain(d, diff, cmax), ExactPeakGain(d, diff, cmax))
  {
    hide RoundedDiv, Near;
    MulLe(wPeak, 1, cmax);
    assert 2 * cmax * wPeak == 2 * (wPeak * cmax);
    NearestReal(d * diff * w, 2 * cmax * wPeak);
    NearestReal(d * diff, 2 * cmax);
  }

  /** The exact chroma coefficient times the code. */
  lemma ChromaShare(d: int, diff: int, w: int, cmax: int, wPeak: int, s: int)
    requires wPeak >= 1 && cmax >= 1
    ensures s as real * ExactChromaGain(d, diff, w, cmax, wPeak)
            == (d * diff) as real * (w as real * Normal(s, cmax)) / (2 * wPeak) as real
  {
    MulLe(wPeak, 1, cmax);
    assert 2 * cmax * wPeak == (2 * wPeak) * cmax;
    IntProduct(2 * wPeak, cmax);
    IntProduct(d * diff, w);
    ShareIs((d * diff * w) as real, (2 * wPeak) as real, cmax as real, s as real);
    Associate((d * diff) as real, w as real, Normal(s, cmax));
  }

  /** The peak's coefficient is that of its full weight. */
  lemma PeakShare(d: int, diff: int, cmax: int, wPeak: int, s: int)
    requires wPeak >= 1 && cmax >= 1
    ensures s as real * ExactPeakGain(d, diff, cmax)
            == (d * diff) as real * (wPeak as real * Normal(s, cmax)) / (2 * wPeak) as real
  {
    var m, q, p := (d * diff) as real, Normal(s, cmax), wPeak as real;
    IntProduct(2, cmax);
    IntProduct(2, wPeak);
    assert q * cmax as real == s as real;
    var x := m / (2 * cmax) as real;
    assert x * (2.0 * cmax as real) == m;
    PeakAlgebra(x, q, p, cmax as real, m, s as real);
    DivideReal(m * (p * q), 2.0 * p, s as real * x);
  }

  lemma PeakAlgebra(x: real, q: real, p: real, c: real, m: real, s: real)
    requires q * c == s && x * (2.0 * c) == m
    ensures (s * x) * (2.0 * p) == m * (p * q)
  {
    calc {
      (s * x) * (2.0 * p);
      ((q * c) * x) * (2.0 * p);
      (x * (2.0 * c)) * (p * q);
      m * (p * q);
    }
  }

  /** A chroma channel, before bounding, is less than two codes from the exact equation. `w1` and `w2` are the weights
      of the two channels that are not the peak. */
  lemma ChromaRowAccurate(d: int, h: int, u: Limits, w1: int, w2: int, wPeak: int, cmax1: int, cmax2: int,
                          cmaxPeak: int,
                          s1: int, s2: int, sPeak: int, raw: int, e: real)
    requires d == 2 * h && h >= 1 && wPeak >= 1 && 0 <= u.lo + u.hi
    requires 1 <= cmax1 < d && 1 <= cmax2 < d && 1 <= cmaxPeak < d
    requires 0 <= s1 <= cmax1 && 0 <= s2 <= cmax2 && 0 <= sPeak <= cmaxPeak
    requires raw == (s1 * ChromaGain(d, u.hi - u.lo, -w1, cmax1, wPeak)
             + s2 * ChromaGain(d, u.hi - u.lo, -w2, cmax2, wPeak)
                     + sPeak * ChromaPeakGain(d, u.hi - u.lo, cmaxPeak) + ChromaOffset(d, h, u)) / d
    requires e == (u.lo + u.hi) as real / 2.0
                  + (u.hi - u.lo) as real * ((-w1) as real * Normal(s1, cmax1) + (-w2) as real * Normal(s2,
                          cmax2) + wPeak as real * Normal(sPeak, cmaxPeak))
                    / (2 * wPeak) as real
    ensures -2.0 < raw as real - e < 2.0
  {
    hide ChromaGain, ChromaPeakGain, ChromaOffset, Normal, NearTerm;
    ChromaOffsetReal(d, h, u);
    var t1, t2, t3, v1, v2, v3, total := ChromaTerms(d, h, u, w1, w2, wPeak, cmax1, cmax2, cmaxPeak, s1, s2, sPeak, e);
    RowError(d, s1, s2, sPeak, t1, t2, t3, v1, v2, v3, (h * (u.lo + u.hi)) as real, ChromaOffset(d, h, u), raw, e,
             total);
  }

  /** The three terms of a chroma row, with their exact values. */
  lemma ChromaTerms(d: int, h: int, u: Limits, w1: int, w2: int, wPeak: int, cmax1: int, cmax2: int, cmaxPeak: int,
                    s1: int, s2: int, sPeak: int, e: real)
    returns (t1: int, t2: int, t3: int, v1: real, v2: real, v3: real, total: real)
    requires d == 2 * h && wPeak >= 1 && cmax1 >= 1 && cmax2 >= 1 && cmaxPeak >= 1 && s1 >= 0 && s2 >= 0 && sPeak >= 0
    requires e == (u.lo + u.hi) as real / 2.0
                  + (u.hi - u.lo) as real * ((-w1) as real * Normal(s1, cmax1) + (-w2) as real * Normal(s2,
                          cmax2) + wPeak as real * Normal(sPeak, cmaxPeak))
                    / (2 * wPeak) as real
    ensures NearTerm(s1, t1, v1) && NearTerm(s2, t2, v2) && NearTerm(sPeak, t3, v3)
    ensures var du := u.hi - u.lo;
            t1 == s1 * ChromaGain(d, du, -w1, cmax1, wPeak) && t2 == s2 * ChromaGain(d, du, -w2, cmax2,
                    wPeak) && t3 == sPeak * ChromaPeakGain(d, du, cmaxPeak)
    ensures total == d as real * e && total == v1 + v2 + v3 + (h * (u.lo + u.hi)) as real
  {
    hide ChromaGain, ChromaPeakGain, ExactChromaGain, ExactPeakGain, Normal, Near, NearTerm;
    var du := u.hi - u.lo;
    ChromaGainNear(d, du, -w1, cmax1, wPeak);
    ChromaGainNear(d, du, -w2, cmax2, wPeak);
    ChromaGainNear(d, du, 0, cmaxPeak, wPeak);
    ChromaTotal(d, h, u, w1, w2, wPeak, cmax1, cmax2, cmaxPeak, s1, s2, sPeak, e);
    t1, v1 := TermError(s1, ChromaGain(d, du, -w1, cmax1, wPeak), ExactChromaGain(d, du, -w1, cmax1, wPeak));
    t2, v2 := TermError(s2, ChromaGain(d, du, -w2, cmax2, wPeak), ExactChromaGain(d, du, -w2, cmax2, wPeak));
    t3, v3 := TermError(sPeak, ChromaPeakGain(d, du, cmaxPeak), ExactPeakGain(d, du, cmaxPeak));
    total := d as real * e;
  }

  lemma ChromaOffsetReal(d: int, h: int, u: Limits)
    requires d == 2 * h && h >= 1 && 0 <= u.lo + u.hi
    ensures ChromaOffset(d, h, u) as real == 0.5 * d as real + (h * (u.lo + u.hi)) as real
  {
    hide ChromaOffset;
    ChromaOffsetIs(d, h, u);
  }

  lemma ChromaTotal(d: int, h: int, u: Limits, w1: int, w2: int, wPeak: int, cmax1: int, cmax2: int, cmaxPeak: int,
                    s1: int, s2: int, sPeak: int, e: real)
    requires d == 2 * h && wPeak >= 1 && cmax1 >= 1 && cmax2 >= 1 && cmaxPeak >= 1
    requires e == (u.lo + u.hi) as real / 2.0
                  + (u.hi - u.lo) as real * ((-w1) as real * Normal(s1, cmax1) + (-w2) as real * Normal(s2,
                          cmax2) + wPeak as real * Normal(sPeak, cmaxPeak))
                    / (2 * wPeak) as real
    ensures var du := u.hi - u.lo;
            d as real * e == s1 as real * ExactChromaGain(d, du, -w1, cmax1, wPeak)
                + s2 as real * ExactChromaGain(d, du, -w2, cmax2, wPeak)
                             + sPeak as real * ExactPeakGain(d, du, cmaxPeak) + (h * (u.lo + u.hi)) as real
  {
    hide ExactChromaGain, ExactPeakGain, Normal;
    var du := u.hi - u.lo;
    ChromaShare(d, du, -w1, cmax1, wPeak, s1);
    ChromaShare(d, du, -w2, cmax2, wPeak, s2);
    PeakShare(d, du, cmaxPeak, wPeak, sPeak);
    IntProduct(d, du);
    SumOfShares(d as real, du as real, (-w1) as real * Normal(s1, cmax1), (-w2) as real * Normal(s2, cmax2),
                wPeak as real * Normal(sPeak, cmaxPeak), (2 * wPeak) as real);
    MiddleTimes(d, h, u);
    DistributeSum(d as real, (u.lo + u.hi) as real / 2.0,
                  du as real * ((-w1) as real * Normal(s1, cmax1) + (-w2) as real * Normal(s2,
                          cmax2) + wPeak as real * Normal(sPeak, cmaxPeak))
                  / (2 * wPeak) as real);
  }

  lemma DistributeSum(f: real, a: real, b: real)
    ensures f * (a + b) == f * a + f * b
  {
  }

  lemma MiddleTimes(d: int, h: int, u: Limits)
    requires d == 2 * h
    ensures d as real * ((u.lo + u.hi) as real / 2.0) == (h * (u.lo + u.hi)) as real
  {
    IntProduct(h, u.lo + u.hi);
    var m, x := (u.lo + u.hi) as real, (u.lo + u.hi) as real / 2.0;
    assert x + x == m;
    assert d as real == h as real + h as real;
    assert (h as real + h as real) * x == h as real * (x + x);
  }

  /** The equations with the peak's own share of luma taken together with it. */
  lemma BlueChroma(c: RbConstants, u: Limits, r: real, g: real, b: real)
    requires c.kb < c.div
    ensures ExactChroma(c, c.kb, u, b, r, g, b)
            == (u.lo + u.hi) as real / 2.0
               + (u.hi - u.lo) as real * ((-c.kr) as real * r + (-(c.div - c.kr - c.kb)) as real * g
                   + (c.div - c.kb) as real * b)
                 / (2 * (c.div - c.kb)) as real
  {
  }

  lemma RedChroma(c: RbConstants, v: Limits, r: real, g: real, b: real)
    requires c.kr < c.div
    ensures ExactChroma(c, c.kr, v, r, r, g, b)
            == (v.lo + v.hi) as real / 2.0
               + (v.hi - v.lo) as real * ((-(c.div - c.kr - c.kb)) as real * g + (-c.kb) as real * b
                   + (c.div - c.kr) as real * r)
                 / (2 * (c.div - c.kr)) as real
  {
  }

  // ----- The matrix -----

  /** The codes of an RGB sample. */
  predicate RgbSample(rbits: nat, gbits: nat, bbits: nat, r: int, g: int, b: int)
  {
    && rbits >= 1 && gbits >= 1 && bbits >= 1
    && 0 <= r <= MaxCode(rbits) && 0 <= g <= MaxCode(gbits) && 0 <= b <= MaxCode(bbits)
  }

  function NormalOf(bits: nat, c: int): (r: real)
    requires bits >= 1
  {
    CodesBelowUnit(bits, bits);
    Normal(c, MaxCode(bits))
  }

  /** RGB to YUV, for all depths of at least two, every colour space and both swings: before it is bounded, each of the
      three results is less than two codes from the exact colour equation. */
  lemma Rgb2YuvAccurate(space: YuvColorSpace, swing: YuvColorSpaceType,
                        rbits: nat, gbits: nat, bbits: nat, ybits: nat, ubits: nat, vbits: nat, r: int, g: int, b: int)
    requires RgbSample(rbits, gbits, bbits, r, g, b) && ybits >= 2 && ubits >= 2 && vbits >= 2
    ensures var c, m := RbConstantsOf(space), Rgb2YuvMatrix(space, swing, rbits, gbits, bbits, ybits, ubits, vbits);
            var r', g', b' := NormalOf(rbits, r), NormalOf(gbits, g), NormalOf(bbits, b);
            && c.kr < c.div && c.kb < c.div
            && -2.0 < Raw(m.x, m.shift, r, g, b) as real - ExactLuma(c, LimitsY(ybits, swing), r', g', b') < 2.0
            && -2.0 < Raw(m.y, m.shift, r, g, b) as real - ExactChroma(c, c.kb, LimitsUV(ubits, swing), b', r', g', b')
               < 2.0
            && -2.0 < Raw(m.z, m.shift, r, g, b) as real - ExactChroma(c, c.kr, LimitsUV(vbits, swing), r', r', g', b')
               < 2.0
  {
    hide LumaGain, ChromaGain, ChromaPeakGain, LumaOffset, ChromaOffset, LimitsY, LimitsUV, RbConstantsOf, Raw, MaxCode,
      Normal, ExactLuma, ExactChroma, Pow2, Rgb2YuvRows, Rgb2YuvMatrix;
    var c := RbConstantsOf(space);
    var shift := Max3(rbits, gbits, bbits);
    Rgb2YuvMatrixIs(space, swing, rbits, gbits, bbits, ybits, ubits, vbits);
    var y, u, v := LimitsY(ybits, swing), LimitsUV(ubits, swing), LimitsUV(vbits, swing);
    var rmax, gmax, bmax := MaxCode(rbits), MaxCode(gbits), MaxCode(bbits);
    Rgb2YuvRawIs(space, y, u, v, shift, Pow2(shift - 1), rmax, gmax, bmax, r, g, b);
    CodesBelowUnit(rbits, shift);
    CodesBelowUnit(gbits, shift);
    CodesBelowUnit(bbits, shift);
    LimitsProper(ubits, swing);
    LimitsProper(vbits, swing);
    var m := Rgb2YuvMatrix(space, swing, rbits, gbits, bbits, ybits, ubits, vbits);
    var d, h := Pow2(shift), Pow2(shift - 1);
    LumaAccurate(d, h, y, c, rmax, gmax, bmax, r, g, b, Raw(m.x, shift, r, g, b), ExactLuma(c, y, Normal(r, rmax),
            Normal(g, gmax), Normal(b, bmax)));
    BlueAccurate(d, h, u, c, rmax, gmax, bmax, r, g, b, Raw(m.y, shift, r, g, b));
    RedAccurate(d, h, v, c, rmax, gmax, bmax, r, g, b, Raw(m.z, shift, r, g, b));
  }

  lemma Rgb2YuvMatrixIs(space: YuvColorSpace, swing: YuvColorSpaceType, rbits: nat, gbits: nat, bbits: nat,
                        ybits: nat, ubits: nat, vbits: nat)
    requires rbits >= 1
    ensures var shift := Max3(rbits, gbits, bbits);
            var m := Rgb2YuvMatrix(space, swing, rbits, gbits, bbits, ybits, ubits, vbits);
            && m.shift == shift >= 1
            && m == Rgb2YuvRows(space, LimitsY(ybits, swing), LimitsUV(ubits, swing), LimitsUV(vbits, swing),
                                shift, Pow2(shift - 1), MaxCode(rbits), MaxCode(gbits), MaxCode(bbits))
  {
    hide LimitsY, LimitsUV, RbConstantsOf, MaxCode, Pow2;
  }

  lemma BlueAccurate(d: int, h: int, u: Limits, c: RbConstants, rmax: int, gmax: int, bmax: int, r: int, g: int,
                     b: int, raw: int)
    requires d == 2 * h && h >= 1 && c.kb < c.div && 0 <= u.lo + u.hi
    requires 1 <= rmax < d && 1 <= gmax < d && 1 <= bmax < d
    requires 0 <= r <= rmax && 0 <= g <= gmax && 0 <= b <= bmax
    requires var kg, du := c.div - c.kr - c.kb, u.hi - u.lo;
             raw == (r * ChromaGain(d, du, -c.kr, rmax, c.div - c.kb) + g * ChromaGain(d, du, -kg, gmax, c.div - c.kb)
                     + b * ChromaPeakGain(d, du, bmax) + ChromaOffset(d, h, u)) / d
    ensures -2.0 < raw as real - ExactChroma(c, c.kb, u, Normal(b, bmax), Normal(r, rmax), Normal(g, gmax),
                                             Normal(b, bmax)) < 2.0
  {
    hide ChromaGain, ChromaPeakGain, ChromaOffset, Normal, ExactChroma;
    var r', g', b' := Normal(r, rmax), Normal(g, gmax), Normal(b, bmax);
    BlueChroma(c, u, r', g', b');
    ChromaRowAccurate(d, h, u, c.kr, c.div - c.kr - c.kb, c.div - c.kb, rmax, gmax, bmax, r, g, b, raw,
                      ExactChroma(c, c.kb, u, b', r', g', b'));
  }

  lemma RedAccurate(d: int, h: int, v: Limits, c: RbConstants, rmax: int, gmax: int, bmax: int, r: int, g: int, b: int,
                    raw: int)
    requires d == 2 * h && h >= 1 && c.kr < c.div && 0 <= v.lo + v.hi
    requires 1 <= rmax < d && 1 <= gmax < d && 1 <= bmax < d
    requires 0 <= r <= rmax && 0 <= g <= gmax && 0 <= b <= bmax
    requires var kg, dv := c.div - c.kr - c.kb, v.hi - v.lo;
             raw == (g * ChromaGain(d, dv, -kg, gmax, c.div - c.kr) + b * ChromaGain(d, dv, -c.kb, bmax, c.div - c.kr)
                     + r * ChromaPeakGain(d, dv, rmax) + ChromaOffset(d, h, v)) / d
    ensures -2.0 < raw as real - ExactChroma(c, c.kr, v, Normal(r, rmax), Normal(r, rmax), Normal(g, gmax),
                                             Normal(b, bmax)) < 2.0
  {
    hide ChromaGain, ChromaPeakGain, ChromaOffset, Normal, ExactChroma;
    var r', g', b' := Normal(r, rmax), Normal(g, gmax), Normal(b, bmax);
    RedChroma(c, v, r', g', b');
    ChromaRowAccurate(d, h, v, c.div - c.kr - c.kb, c.kb, c.div - c.kr, gmax, bmax, rmax, g, b, r, raw,
                      ExactChroma(c, c.kr, v, r', r', g', b'));
  }
}
