/** RGB to YUV and back: how far a colour can move (VCamUtils/src/colorconvert.cpp). The two matrices are each close to
    equations that undo each other; what is left is the rounding of three codes and three results. */
module ColorRoundTrip {
  import opened Arithmetic
  import opened ColorMatrices
  import opened ColorTheorems
  import opened ColorAccuracy
  import opened ColorAccuracyInverse

  // ----- There -----

  /** A value between 0 and 1. */
  predicate Unit(x: real)
  {
    0.0 <= x <= 1.0
  }

  lemma NormalIsUnit(x: int, cmax: int)
    requires cmax >= 1 && 0 <= x <= cmax
    ensures Unit(Normal(x, cmax)) && cmax as real * Normal(x, cmax) == x as real
  {
    QuotientReal(x as real, cmax as real);
  }

  lemma QuotientReal(x: real, p: real)
    requires p > 0.0
    ensures p * (x / p) == x
    ensures 0.0 <= x <= p ==> 0.0 <= x / p <= 1.0
    ensures -p <= x + x <= p ==> -0.5 <= x / p <= 0.5
  {
    var q := x / p;
    assert p * q == x;
    if 0.0 <= x <= p {
      WithinUnit(p, q, x);
    }
    if -p <= x + x <= p {
      WithinHalf(p, q, x);
    }
  }

  lemma WithinUnit(p: real, q: real, x: real)
    requires p > 0.0 && p * q == x && 0.0 <= x <= p
    ensures 0.0 <= q <= 1.0
  {
    if q < 0.0 {
      NegativeProduct(p, q);
    } else if q > 1.0 {
      ScaleUp(p, 1.0, q);
    }
  }

  lemma WithinHalf(p: real, q: real, x: real)
    requires p > 0.0 && p * q == x && -p <= x + x <= p
    ensures -0.5 <= q <= 0.5
  {
    if q > 0.5 {
      ScaleUp(p, 0.5, q);
    } else if -q > 0.5 {
      ScaleUp(p, 0.5, -q);
      Negated(p, q);
    }
  }

  lemma Negated(p: real, q: real)
    ensures p * -q == -(p * q)
  {
  }

  lemma NegativeProduct(p: real, q: real)
    requires p > 0.0 && q < 0.0
    ensures p * q < 0.0
  {
  }

  /** A weight times a unit value. */
  lemma PartOf(k: int, x: real) returns (t: real)
    requires k >= 1 && Unit(x)
    ensures t == k as real * x && 0.0 <= t <= k as real
  {
    t := k as real * x;
    ScaleUpOrEqual(k as real, 0.0, x);
    ScaleUpOrEqual(k as real, x, 1.0);
  }

  predicate Weights(c: RbConstants)
  {
    c.div > 0 && c.kr > 0 && c.kb > 0 && c.kr + c.kb < c.div
  }

  /** The weighted sum and its distances from the channels. */
  lemma SumOf(c: RbConstants, r: real, g: real, b: real) returns (w: real, nu: real, nv: real)
    requires Weights(c) && Unit(r) && Unit(g) && Unit(b)
    ensures w == Weighted(c, r, g, b) && 0.0 <= w <= c.div as real
    ensures nu == c.div as real * b - w && -((c.div - c.kb) as real) <= nu <= (c.div - c.kb) as real
    ensures nv == c.div as real * r - w && -((c.div - c.kr) as real) <= nv <= (c.div - c.kr) as real
  {
    hide Unit, Weighted;
    w := Weighted(c, r, g, b);
    WeightedIs(c, r, g, b);
    var tr := PartOf(c.kr, r);
    var tg := PartOf(c.div - c.kr - c.kb, g);
    var tb := PartOf(c.kb, b);
    var pr := PartOf(c.div - c.kr, r);
    var pb := PartOf(c.div - c.kb, b);
    assert w == tr + tg + tb;
    nu := c.div as real * b - w;
    nv := c.div as real * r - w;
    assert nv == pr - tg - tb by { SplitWhole(c.div, c.kr, r); }
    assert nu == pb - tg - tr by { SplitWhole(c.div, c.kb, b); }
  }

  lemma SplitWhole(p: int, k: int, x: real)
    ensures p as real * x == k as real * x + (p - k) as real * x
  {
  }

  /** Bounding a code moves it no further from a value inside the bounds. */
  lemma BoundedStaysNear(lo: int, raw: int, hi: int, e: real)
    requires lo as real <= e <= hi as real && -2.0 < raw as real - e < 2.0 && lo <= hi
    ensures -2.0 < Bound(lo, raw, hi) as real - e < 2.0 && lo <= Bound(lo, raw, hi) <= hi
  {
  }

  lemma PartRange(d: real, f: real) returns (df: real)
    requires d > 0.0 && 0.0 <= f <= 1.0
    ensures df == d * f && 0.0 <= df <= d
  {
    df := d * f;
    ScaleUpOrEqual(d, 0.0, f);
    ScaleUpOrEqual(d, f, 1.0);
  }

  lemma HalfRange(d: real, f: real) returns (df: real)
    requires d > 0.0 && -0.5 <= f <= 0.5
    ensures df == d * f && -d <= df + df <= d
  {
    var dg := PartRange(d, f + 0.5);
    df := d * f;
    Sum(d, f, 0.5);
  }

  lemma Sum(d: real, a: real, b: real)
    ensures d * (a + b) == d * a + d * b
  {
  }

  lemma Times(d: real, x: real, f: real, dx: real, df: real) returns (t: real, dt: real)
    requires dx == d * x && df == d * f
    ensures t == x - f && dt == d * t && dt == dx - df
  {
    t := x - f;
    dt := d * t;
    ColorAccuracy.Distribute(d, x, f);
  }

  lemma AroundMiddle(lo: int, hi: int, df: real, e: real)
    requires -((hi - lo) as real) <= df + df <= (hi - lo) as real && e == (lo + hi) as real / 2.0 + df
    ensures lo as real <= e <= hi as real
  {
  }

  /** The exact code `e` of a luma fraction. */
  predicate LumaAt(l: Limits, f: real, e: real)
  {
    l.lo < l.hi && 0.0 <= f <= 1.0 && e == l.lo as real + (l.hi - l.lo) as real * f
  }

  predicate ChromaAt(l: Limits, f: real, e: real)
  {
    l.lo < l.hi && -0.5 <= f <= 0.5 && e == (l.lo + l.hi) as real / 2.0 + (l.hi - l.lo) as real * f
  }

  /** A code and the fraction it stands for; the fraction's error `t`, times the range, is less than two codes. */
  predicate LumaNear(l: Limits, y: int, f: real, t: real)
  {
    l.lo < l.hi && LumaFraction(y, l) == f + t && -2.0 < InCodes(l, t) < 2.0
  }

  predicate ChromaNear(l: Limits, u: int, f: real, t: real)
  {
    l.lo < l.hi && ChromaFraction(u, l) == f + t && -2.0 < InCodes(l, t) < 2.0
  }

  /** A fraction of a code range, in codes. */
  function InCodes(l: Limits, t: real): (v: real)
  {
    (l.hi - l.lo) as real * t
  }

  lemma LumaCode(raw: int, l: Limits, f: real, e: real) returns (t: real)
    requires LumaAt(l, f, e) && -2.0 < raw as real - e < 2.0
    ensures LumaNear(l, Bound(l.lo, raw, l.hi), f, t)
  {
    hide LumaFraction, Bound, LumaNear;
    var d := (l.hi - l.lo) as real;
    var df := PartRange(d, f);
    assert d == l.hi as real - l.lo as real;
    BoundedStaysNear(l.lo, raw, l.hi, e);
    var y := Bound(l.lo, raw, l.hi);
    var dx := LumaTimes(y, l);
    var dt;
    t, dt := Times(d, LumaFraction(y, l), f, dx, df);
    LumaNearIs(l, y, f, t, dt);
  }

  lemma LumaNearIs(l: Limits, y: int, f: real, t: real, dt: real)
    requires l.lo < l.hi && t == LumaFraction(y, l) - f && dt == InCodes(l, t) && -2.0 < dt < 2.0
    ensures LumaNear(l, y, f, t)
  {
    hide LumaFraction, InCodes;
  }

  lemma ChromaNearIs(l: Limits, u: int, f: real, t: real, dt: real)
    requires l.lo < l.hi && t == ChromaFraction(u, l) - f && dt == InCodes(l, t) && -2.0 < dt < 2.0
    ensures ChromaNear(l, u, f, t)
  {
    hide ChromaFraction, InCodes;
  }

  lemma LumaTimes(y: int, l: Limits) returns (dx: real)
    requires l.lo < l.hi
    ensures dx == (l.hi - l.lo) as real * LumaFraction(y, l) && dx == y as real - l.lo as real
  {
    dx := (l.hi - l.lo) as real * LumaFraction(y, l);
    QuotientReal((y - l.lo) as real, (l.hi - l.lo) as real);
  }

  lemma ChromaCode(raw: int, l: Limits, f: real, e: real) returns (t: real)
    requires ChromaAt(l, f, e) && -2.0 < raw as real - e < 2.0
    ensures ChromaNear(l, Bound(l.lo, raw, l.hi), f, t)
  {
    hide ChromaFraction, Bound, ChromaNear;
    var d := (l.hi - l.lo) as real;
    var df := HalfRange(d, f);
    AroundMiddle(l.lo, l.hi, df, e);
    BoundedStaysNear(l.lo, raw, l.hi, e);
    var u := Bound(l.lo, raw, l.hi);
    var dx := ChromaTimes(u, l);
    var dt;
    t, dt := Times(d, ChromaFraction(u, l), f, dx, df);
    ChromaNearIs(l, u, f, t, dt);
  }

  lemma ChromaTimes(u: int, l: Limits) returns (dx: real)
    requires l.lo < l.hi
    ensures dx == (l.hi - l.lo) as real * ChromaFraction(u, l) && dx == u as real - (l.lo + l.hi) as real / 2.0
  {
    var s, d, x := (2 * u - (l.lo + l.hi)) as real, (l.hi - l.lo) as real, ChromaFraction(u, l);
    QuotientReal(s, (2 * (l.hi - l.lo)) as real);
    assert (2 * (l.hi - l.lo)) as real == d + d;
    TwiceOver(d, x, s);
    dx := d * x;
  }

  lemma TwiceOver(d: real, x: real, s: real)
    requires (d + d) * x == s
    ensures d * x == s / 2.0
  {
  }

  // ----- Back -----

  /** A fraction's error in output codes, when the output range is at most `g` times the coded range. */
  lemma Stretch(top: real, d: real, g: real, t: real, dt: real) returns (a: real)
    requires top > 0.0 && d > 0.0 && g > 0.0 && top <= g * d && dt == d * t && -2.0 < dt < 2.0
    ensures a == top * t && -2.0 * g <= a <= 2.0 * g
  {
    a := top * t;
    if t >= 0.0 {
      StretchUp(top, d, g, t, dt);
    } else {
      Negated(top, t);
      Negated(d, t);
      StretchUp(top, d, g, -t, -dt);
    }
  }

  lemma StretchUp(top: real, d: real, g: real, t: real, dt: real)
    requires top > 0.0 && d > 0.0 && g > 0.0 && top <= g * d && dt == d * t && t >= 0.0 && dt < 2.0
    ensures 0.0 <= top * t <= 2.0 * g
  {
    NonNegative(top, t);
    WeakScale(t, top, g * d);
    assert t * (g * d) == g * dt;
    ScaleUpOrEqual(g, dt, 2.0);
  }

  lemma NonNegative(a: real, b: real)
    requires a >= 0.0 && b >= 0.0
    ensures a * b >= 0.0
  {
  }

  lemma WeakScale(e: real, a: real, b: real)
    requires e >= 0.0 && a <= b
    ensures e * a <= e * b
  {
  }

  /** A part of a channel: the coefficient `k` of a chroma fraction, with its error. */
  lemma PartBack(top: real, k: real, f: real, t: real, b: real, kMax: real, bMax: real) returns (e: real)
    requires b == top * t && -kMax <= k <= kMax && -bMax <= b <= bMax && kMax >= 0.0 && bMax >= 0.0
    ensures top * (k * (f + t)) == top * (k * f) + e && -(kMax * bMax) <= e <= kMax * bMax
  {
    e := k * b;
    Sum(k, f, t);
    Sum(top, k * f, k * t);
    assert top * (k * t) == k * (top * t);
    ProductBound(k, b, kMax, bMax);
  }

  lemma ProductBound(k: real, b: real, kMax: real, bMax: real)
    requires -kMax <= k <= kMax && -bMax <= b <= bMax && kMax >= 0.0 && bMax >= 0.0
    ensures -(kMax * bMax) <= k * b <= kMax * bMax
  {
    NonNegative(kMax - k, bMax + b);
    NonNegative(kMax + k, bMax - b);
    NonNegative(kMax - k, bMax - b);
    NonNegative(kMax + k, bMax + b);
    assert (kMax - k) * (bMax + b) + (kMax + k) * (bMax - b) == 2.0 * (kMax * bMax - k * b);
    assert (kMax - k) * (bMax - b) + (kMax + k) * (bMax + b) == 2.0 * (kMax * bMax + k * b);
  }

  /** The coefficients of the equations are moderate in every colour space. */
  predicate PartsModerate(c: RbConstants)
    requires Weights(c)
  {
    && -1.9 <= OwnPart(c, c.kr) <= 1.9 && -1.9 <= OwnPart(c, c.kb) <= 1.9
    && -1.34 <= GreenPart(c, c.kr) <= 1.34 && -1.34 <= GreenPart(c, c.kb) <= 1.34
  }

  lemma PartSizes(space: YuvColorSpace)
    ensures Weights(RbConstantsOf(space)) && PartsModerate(RbConstantsOf(space))
  {
  }

  /** Red and blue: luma plus one part. */
  lemma OwnBack(top: real, own: real, f: real, fu: real, t: real, tu: real, a: real, b: real, g: real, x: real)
      returns (e: real)
    requires g > 0.0 && a == top * t && b == top * tu && -1.9 <= own <= 1.9 && x == f + own * fu
    requires -2.0 * g <= a <= 2.0 * g && -2.0 * g <= b <= 2.0 * g
    ensures top * (f + t + own * (fu + tu)) == top * x + e && -5.8 * g <= e <= 5.8 * g
  {
    var e' := PartBack(top, own, fu, tu, b, 1.9, 2.0 * g);
    e := a + e';
    Sum(top, f, own * fu);
    Sum(top, f, t);
    Sum(top, f + t, own * (fu + tu));
  }

  /** Green: luma plus two parts. */
  lemma GreenBack(top: real, ku: real, kv: real, f: real, fu: real, fv: real, t: real, tu: real, tv: real,
                  a: real, b: real, b': real, g: real, x: real) returns (e: real)
    requires g > 0.0 && a == top * t && b == top * tu && b' == top * tv && x == f + ku * fu + kv * fv
    requires -1.34 <= ku <= 1.34 && -1.34 <= kv <= 1.34
    requires -2.0 * g <= a <= 2.0 * g && -2.0 * g <= b <= 2.0 * g && -2.0 * g <= b' <= 2.0 * g
    ensures top * (f + t + ku * (fu + tu) + kv * (fv + tv)) == top * x + e && -7.4 * g <= e <= 7.4 * g
  {
    var eu := PartBack(top, ku, fu, tu, b, 1.34, 2.0 * g);
    var ev := PartBack(top, kv, fv, tv, b', 1.34, 2.0 * g);
    e := a + eu + ev;
    Sum(top, f + ku * fu, kv * fv);
    Sum(top, f, ku * fu);
    Sum(top, f, t);
    Sum(top, f + t, ku * (fu + tu));
    Sum(top, f + t + ku * (fu + tu), kv * (fv + tv));
  }

  // ----- There and back -----

  /** Luma of a colour, as a fraction of its range. */
  function LumaOf(c: RbConstants, r: real, g: real, b: real): (f: real)
    requires Weights(c)
  {
    Weighted(c, r, g, b) / c.div as real
  }

  /** Chroma of the channel `peak` with weight `k`, as a fraction of its range around the middle. */
  function ChromaOf(c: RbConstants, k: int, peak: real, r: real, g: real, b: real): (f: real)
    requires Weights(c) && k < c.div
  {
    (c.div as real * peak - Weighted(c, r, g, b)) / (2 * (c.div - k)) as real
  }

  lemma HalfQuotient(n: real, m: int)
    requires m >= 1 && -(m as real) <= n <= m as real
    ensures -0.5 <= n / (2 * m) as real <= 0.5
  {
    var p := (2 * m) as real;
    assert p == m as real + m as real;
    QuotientReal(n, p);
  }

  lemma LumaEquation(c: RbConstants, l: Limits, r: real, g: real, b: real)
    requires Weights(c) && Unit(r) && Unit(g) && Unit(b) && l.lo < l.hi
    ensures LumaAt(l, LumaOf(c, r, g, b), ExactLuma(c, l, r, g, b))
  {
    hide Weighted, Unit;
    var w, _, _ := SumOf(c, r, g, b);
    QuotientReal(w, c.div as real);
    DivideLast((l.hi - l.lo) as real, w, c.div as real, LumaOf(c, r, g, b), (l.hi - l.lo) as real * w / c.div as real);
  }

  lemma DivideLast(d: real, w: real, p: real, f: real, x: real)
    requires p > 0.0 && f == w / p && x == d * w / p
    ensures x == d * f
  {
    assert f * p == w && x * p == d * w;
    assert d * f * p == d * w;
    CancelReal(p, x, d * f);
  }

  /** The chroma equation with its numerator and its share of the range named. */
  lemma ChromaSpelled(c: RbConstants, k: int, l: Limits, peak: real, r: real, g: real, b: real, n: real)
      returns (x: real)
    requires Weights(c) && k < c.div && n == c.div as real * peak - Weighted(c, r, g, b)
    ensures ChromaOf(c, k, peak, r, g, b) == n / (2 * (c.div - k)) as real
    ensures x == (l.hi - l.lo) as real * n / (2 * (c.div - k)) as real
    ensures ExactChroma(c, k, l, peak, r, g, b) == (l.lo + l.hi) as real / 2.0 + x
  {
    hide Weighted;
    x := (l.hi - l.lo) as real * n / (2 * (c.div - k)) as real;
  }

  lemma ChromaEquation(l: Limits, n: real, m: int, f: real, x: real, e: real)
    requires l.lo < l.hi && m >= 1 && -(m as real) <= n <= m as real && f == n / (2 * m) as real
    requires x == (l.hi - l.lo) as real * n / (2 * m) as real && e == (l.lo + l.hi) as real / 2.0 + x
    ensures ChromaAt(l, f, e)
  {
    HalfQuotient(n, m);
    DivideLast((l.hi - l.lo) as real, n, (2 * m) as real, f, x);
  }

  lemma BlueEquation(c: RbConstants, l: Limits, r: real, g: real, b: real)
    requires Weights(c) && Unit(r) && Unit(g) && Unit(b) && l.lo < l.hi
    ensures ChromaAt(l, ChromaOf(c, c.kb, b, r, g, b), ExactChroma(c, c.kb, l, b, r, g, b))
  {
    hide Weighted, Unit, ChromaOf, ExactChroma, ChromaAt;
    var _, n, _ := SumOf(c, r, g, b);
    var x := ChromaSpelled(c, c.kb, l, b, r, g, b, n);
    ChromaEquation(l, n, c.div - c.kb, ChromaOf(c, c.kb, b, r, g, b), x, ExactChroma(c, c.kb, l, b, r, g, b));
  }

  lemma RedEquation(c: RbConstants, l: Limits, r: real, g: real, b: real)
    requires Weights(c) && Unit(r) && Unit(g) && Unit(b) && l.lo < l.hi
    ensures ChromaAt(l, ChromaOf(c, c.kr, r, r, g, b), ExactChroma(c, c.kr, l, r, r, g, b))
  {
    hide Weighted, Unit, ChromaOf, ExactChroma, ChromaAt;
    var _, _, n := SumOf(c, r, g, b);
    var x := ChromaSpelled(c, c.kr, l, r, r, g, b, n);
    ChromaEquation(l, n, c.div - c.kr, ChromaOf(c, c.kr, r, r, g, b), x, ExactChroma(c, c.kr, l, r, r, g, b));
  }

  lemma ColourInverts(c: RbConstants, r: real, g: real, b: real)
    requires Weights(c)
    ensures var f, fu, fv := LumaOf(c, r, g, b), ChromaOf(c, c.kb, b, r, g, b), ChromaOf(c, c.kr, r, r, g, b);
            && f + OwnPart(c, c.kr) * fv == r && f + OwnPart(c, c.kb) * fu == b
            && f + GreenPart(c, c.kb) * fu + GreenPart(c, c.kr) * fv == g
  {
    hide Weighted, OwnPart, GreenPart;
    EquationsInvert(c, r, g, b, LumaOf(c, r, g, b), ChromaOf(c, c.kb, b, r, g, b), ChromaOf(c, c.kr, r, r, g, b));
  }

  /** The YUV codes of an RGB colour, at one depth for all components. */
  function There(space: YuvColorSpace, swing: YuvColorSpaceType, bits: nat, r: int, g: int,
                 b: int): (q: (int, int, int))
    requires bits >= 1
  {
    ApplyMatrix(Rgb2YuvMatrix(space, swing, bits, bits, bits, bits, bits, bits), r, g, b)
  }

  /** The RGB colour of YUV codes. */
  function Back(space: YuvColorSpace, swing: YuvColorSpaceType, bits: nat, q: (int, int, int)): (p: (int, int, int))
    requires bits >= 1
  {
    ApplyMatrix(Yuv2RgbMatrix(space, swing, bits, bits, bits, bits, bits, bits), q.0, q.1, q.2)
  }

  lemma ThereIs(space: YuvColorSpace, swing: YuvColorSpaceType, bits: nat, r: int, g: int, b: int)
    requires bits >= 2 && RgbSample(bits, bits, bits, r, g, b)
    ensures var m, q, l, u := Rgb2YuvMatrix(space, swing, bits, bits, bits, bits, bits, bits),
            There(space, swing, bits, r, g, b),
                              LimitsY(bits, swing), LimitsUV(bits, swing);
            && q.0 == Bound(l.lo, Raw(m.x, m.shift, r, g, b), l.hi)
               && q.1 == Bound(u.lo, Raw(m.y, m.shift, r, g, b), u.hi)
            && q.2 == Bound(u.lo, Raw(m.z, m.shift, r, g, b), u.hi)
            && 0 <= l.lo < l.hi <= MaxCode(bits) && 0 <= u.lo < u.hi <= MaxCode(bits)
            && 0 <= q.0 <= MaxCode(bits) && 0 <= q.1 <= MaxCode(bits) && 0 <= q.2 <= MaxCode(bits)
  {
    hide Rgb2YuvMatrix, Raw, LimitsY, LimitsUV, MaxCode;
    LimitsProper(bits, swing);
    Rgb2YuvRawRange(space, swing, bits, bits, bits, bits, bits, bits, r, g, b);
  }

  lemma LumaRaw(space: YuvColorSpace, swing: YuvColorSpaceType, bits: nat, r: int, g: int, b: int)
      returns (raw: int, e: real)
    requires bits >= 2 && RgbSample(bits, bits, bits, r, g, b) && Weights(RbConstantsOf(space))
    ensures var l := LimitsY(bits, swing); l.lo < l.hi && There(space, swing, bits, r, g, b).0 == Bound(l.lo, raw, l.hi)
    ensures e == ExactLuma(RbConstantsOf(space), LimitsY(bits, swing), NormalOf(bits, r), NormalOf(bits, g),
                           NormalOf(bits, b))
    ensures -2.0 < raw as real - e < 2.0
  {
    hide Rgb2YuvMatrix, Raw, LimitsY, LimitsUV, RbConstantsOf, ExactLuma, ExactChroma, MaxCode, NormalOf, Bound, There;
    ThereIs(space, swing, bits, r, g, b);
    Rgb2YuvAccurate(space, swing, bits, bits, bits, bits, bits, bits, r, g, b);
    var m := Rgb2YuvMatrix(space, swing, bits, bits, bits, bits, bits, bits);
    raw := Raw(m.x, m.shift, r, g, b);
    e := ExactLuma(RbConstantsOf(space), LimitsY(bits, swing), NormalOf(bits, r), NormalOf(bits, g), NormalOf(bits, b));
  }

  lemma LumaThere(space: YuvColorSpace, swing: YuvColorSpaceType, bits: nat, r: int, g: int, b: int) returns (t: real)
    requires bits >= 2 && RgbSample(bits, bits, bits, r, g, b) && Weights(RbConstantsOf(space))
    ensures LumaNear(LimitsY(bits, swing), There(space, swing, bits, r, g, b).0,
                     LumaOf(RbConstantsOf(space), NormalOf(bits, r), NormalOf(bits, g), NormalOf(bits, b)), t)
  {
    hide LimitsY, RbConstantsOf, ExactLuma, MaxCode, LumaAt, LumaNear, Bound, NormalOf, Unit, LumaOf, There, Weights;
    var c, l, rn, gn, bn := RbConstantsOf(space), LimitsY(bits, swing), NormalOf(bits, r), NormalOf(bits, g),
        NormalOf(bits, b);
    NormalUnits(bits, r, g, b);
    var raw, e := LumaRaw(space, swing, bits, r, g, b);
    LumaEquation(c, l, rn, gn, bn);
    t := LumaCode(raw, l, LumaOf(c, rn, gn, bn), e);
  }

  lemma ChromaRaws(space: YuvColorSpace, swing: YuvColorSpaceType, bits: nat, r: int, g: int, b: int)
    returns (u: int, eu: real, v: int, ev: real)
    requires bits >= 2 && RgbSample(bits, bits, bits, r, g, b) && Weights(RbConstantsOf(space))
    ensures var l, q := LimitsUV(bits, swing), There(space, swing, bits, r, g, b);
            l.lo < l.hi && q.1 == Bound(l.lo, u, l.hi) && q.2 == Bound(l.lo, v, l.hi)
    ensures var c, rn, gn, bn := RbConstantsOf(space), NormalOf(bits, r), NormalOf(bits, g), NormalOf(bits, b);
            && eu == ExactChroma(c, c.kb, LimitsUV(bits, swing), bn, rn, gn, bn)
            && ev == ExactChroma(c, c.kr, LimitsUV(bits, swing), rn, rn, gn, bn)
    ensures -2.0 < u as real - eu < 2.0 && -2.0 < v as real - ev < 2.0
  {
    hide Rgb2YuvMatrix, Raw, LimitsY, LimitsUV, RbConstantsOf, ExactLuma, ExactChroma, MaxCode, NormalOf, Bound, There;
    ThereIs(space, swing, bits, r, g, b);
    Rgb2YuvAccurate(space, swing, bits, bits, bits, bits, bits, bits, r, g, b);
    var m := Rgb2YuvMatrix(space, swing, bits, bits, bits, bits, bits, bits);
    var c, rn, gn, bn := RbConstantsOf(space), NormalOf(bits, r), NormalOf(bits, g), NormalOf(bits, b);
    u, v := Raw(m.y, m.shift, r, g, b), Raw(m.z, m.shift, r, g, b);
    eu := ExactChroma(c, c.kb, LimitsUV(bits, swing), bn, rn, gn, bn);
    ev := ExactChroma(c, c.kr, LimitsUV(bits, swing), rn, rn, gn, bn);
  }

  lemma ChromaThere(space: YuvColorSpace, swing: YuvColorSpaceType, bits: nat, r: int, g: int, b: int)
      returns (tu: real, tv: real)
    requires bits >= 2 && RgbSample(bits, bits, bits, r, g, b) && Weights(RbConstantsOf(space))
    ensures var c, u, q := RbConstantsOf(space), LimitsUV(bits, swing), There(space, swing, bits, r, g, b);
            var rn, gn, bn := NormalOf(bits, r), NormalOf(bits, g), NormalOf(bits, b);
            && ChromaNear(u, q.1, ChromaOf(c, c.kb, bn, rn, gn, bn), tu)
               && ChromaNear(u, q.2, ChromaOf(c, c.kr, rn, rn, gn, bn), tv)
  {
    hide LimitsUV, RbConstantsOf, ExactChroma, MaxCode, ChromaAt, ChromaNear, Bound, NormalOf, Unit, ChromaOf, There;
    var c, l, rn, gn, bn := RbConstantsOf(space), LimitsUV(bits, swing), NormalOf(bits, r), NormalOf(bits, g),
        NormalOf(bits, b);
    NormalUnits(bits, r, g, b);
    var u, eu, v, ev := ChromaRaws(space, swing, bits, r, g, b);
    BlueEquation(c, l, rn, gn, bn);
    RedEquation(c, l, rn, gn, bn);
    tu := ChromaCode(u, l, ChromaOf(c, c.kb, bn, rn, gn, bn), eu);
    tv := ChromaCode(v, l, ChromaOf(c, c.kr, rn, rn, gn, bn), ev);
  }

  /** A fraction of a channel in codes. */
  function Scale(top: int, x: real): (v: real)
  {
    top as real * x
  }

  lemma NormalUnits(bits: nat, r: int, g: int, b: int)
    requires RgbSample(bits, bits, bits, r, g, b)
    ensures Unit(NormalOf(bits, r)) && Unit(NormalOf(bits, g)) && Unit(NormalOf(bits, b)) && MaxCode(bits) >= 1
    ensures Scale(MaxCode(bits), NormalOf(bits, r)) == r as real && Scale(MaxCode(bits), NormalOf(bits, g)) == g as real
    ensures Scale(MaxCode(bits), NormalOf(bits, b)) == b as real
  {
    hide Pow2, Unit, Normal, MaxCode;
    CodesBelowUnit(bits, bits);
    NormalIsUnit(r, MaxCode(bits));
    NormalIsUnit(g, MaxCode(bits));
    NormalIsUnit(b, MaxCode(bits));
  }

  /** A code that is less than `d` plus two off. */
  predicate Within(x: int, p: int, d: real)
  {
    -2.0 - d < p as real - x as real < d + 2.0
  }

  lemma BoundedWithin(x: int, raw: int, top: int, e: real, d: real)
    requires 0 <= x <= top && -2.0 < raw as real - e < 2.0 && -d <= e - x as real <= d
    ensures Within(x, Bound(0, raw, top), d)
  {
  }

  /** From the errors of the fractions, in output codes, to those of the channels. */
  lemma RedBack(c: RbConstants, top: int, rn: real, gn: real, bn: real, t: real, tv: real, a: real, b: real,
                ratio: real)
    returns (e: real)
    requires Weights(c) && PartsModerate(c) && Errors(top, t, a, ratio) && Errors(top, tv, b, ratio)
    ensures -5.8 * ratio <= e <= 5.8 * ratio
    ensures Scale(top, ExactRed(c, LumaOf(c, rn, gn, bn) + t, ChromaOf(c, c.kr, rn, rn, gn, bn) + tv))
            == Scale(top, rn) + e
  {
    hide OwnPart, GreenPart, LumaOf, ChromaOf;
    ColourInverts(c, rn, gn, bn);
    e := OwnBack(top as real, OwnPart(c, c.kr), LumaOf(c, rn, gn, bn), ChromaOf(c, c.kr, rn, rn, gn, bn), t, tv, a, b,
                 ratio, rn);
  }

  lemma BlueBack(c: RbConstants, top: int, rn: real, gn: real, bn: real, t: real, tu: real, a: real, b: real,
                 ratio: real)
    returns (e: real)
    requires Weights(c) && PartsModerate(c) && Errors(top, t, a, ratio) && Errors(top, tu, b, ratio)
    ensures -5.8 * ratio <= e <= 5.8 * ratio
    ensures Scale(top, ExactBlue(c, LumaOf(c, rn, gn, bn) + t, ChromaOf(c, c.kb, bn, rn, gn, bn) + tu))
            == Scale(top, bn) + e
  {
    hide OwnPart, GreenPart, LumaOf, ChromaOf;
    ColourInverts(c, rn, gn, bn);
    e := OwnBack(top as real, OwnPart(c, c.kb), LumaOf(c, rn, gn, bn), ChromaOf(c, c.kb, bn, rn, gn, bn), t, tu, a, b,
                 ratio, bn);
  }

  lemma GreenFromBoth(c: RbConstants, top: int, rn: real, gn: real, bn: real, t: real, tu: real, tv: real,
                      a: real, b: real, b': real, ratio: real) returns (e: real)
    requires Weights(c) && PartsModerate(c)
    requires Errors(top, t, a, ratio) && Errors(top, tu, b, ratio) && Errors(top, tv, b', ratio)
    ensures -7.4 * ratio <= e <= 7.4 * ratio
    ensures Scale(top, ExactGreen(c, LumaOf(c, rn, gn, bn) + t, ChromaOf(c, c.kb, bn, rn, gn, bn) + tu,
                                  ChromaOf(c, c.kr, rn, rn, gn, bn) + tv)) == Scale(top, gn) + e
  {
    hide OwnPart, GreenPart, LumaOf, ChromaOf;
    ColourInverts(c, rn, gn, bn);
    e := GreenBack(top as real, GreenPart(c, c.kb), GreenPart(c, c.kr), LumaOf(c, rn, gn, bn),
                   ChromaOf(c, c.kb, bn, rn, gn, bn),
                   ChromaOf(c, c.kr, rn, rn, gn, bn), t, tu, tv, a, b, b', ratio, gn);
  }

  /** `a` is the fraction error `t` in output codes. */
  predicate Errors(top: int, t: real, a: real, ratio: real)
  {
    ratio > 0.0 && a == top as real * t && -2.0 * ratio <= a <= 2.0 * ratio
  }

  lemma BackIs(space: YuvColorSpace, swing: YuvColorSpaceType, bits: nat, q: (int, int, int))
    requires bits >= 1
    ensures var m, top := Yuv2RgbMatrix(space, swing, bits, bits, bits, bits, bits, bits), MaxCode(bits);
            Back(space, swing, bits, q) == (Bound(0, Raw(m.x, m.shift, q.0, q.1, q.2), top),
                                            Bound(0, Raw(m.y, m.shift, q.0, q.1, q.2), top),
                                            Bound(0, Raw(m.z, m.shift, q.0, q.1, q.2), top))
  {
    hide Raw, LimitsY, LimitsUV, RbConstantsOf, MaxCode, InverseLumaGain, InverseChromaGain, InverseOffset, ChromaBias,
      Pow2;
  }

  /** The spread of the coded ranges against the RGB range. */
  predicate RangeRatio(l: Limits, u: Limits, top: int, ratio: real): (b: bool)
    ensures b ==> l.lo < l.hi && u.lo < u.hi
  {
    && ratio > 0.0 && top >= 1 && l.lo < l.hi && u.lo < u.hi
    && top as real <= ratio * (l.hi - l.lo) as real && top as real <= ratio * (u.hi - u.lo) as real
  }

  /** The exact equations on the codes of a colour: off by the errors of the codes. */
  lemma EquationsBack(c: RbConstants, l: Limits, u: Limits, top: int, ratio: real, q: (int, int, int),
                      rn: real, gn: real, bn: real, t: real, tu: real, tv: real)
    returns (er: real, eg: real, eb: real)
    requires Weights(c) && RangeRatio(l, u, top, ratio) && PartsModerate(c)
    requires LumaNear(l, q.0, LumaOf(c, rn, gn, bn), t)
    requires ChromaNear(u, q.1, ChromaOf(c, c.kb, bn, rn, gn, bn), tu)
             && ChromaNear(u, q.2, ChromaOf(c, c.kr, rn, rn, gn, bn), tv)
    ensures -5.8 * ratio <= er <= 5.8 * ratio && -7.4 * ratio <= eg <= 7.4 * ratio && -5.8 * ratio <= eb <= 5.8 * ratio
    ensures l.lo < l.hi && u.lo < u.hi
    ensures var y, cu, cv := LumaFraction(q.0, l), ChromaFraction(q.1, u), ChromaFraction(q.2, u);
            && Scale(top, ExactRed(c, y, cv)) == Scale(top, rn) + er
            && Scale(top, ExactGreen(c, y, cu, cv)) == Scale(top, gn) + eg
            && Scale(top, ExactBlue(c, y, cu)) == Scale(top, bn) + eb
  {
    hide LumaOf, ChromaOf, ExactRed, ExactGreen, ExactBlue, LumaFraction, ChromaFraction, PartsModerate, Errors,
      RangeRatio, LumaNear, ChromaNear, Scale;
    var a := LumaErrors(l, u, top, ratio, q.0, LumaOf(c, rn, gn, bn), t);
    var b := ChromaErrors(l, u, top, ratio, q.1, ChromaOf(c, c.kb, bn, rn, gn, bn), tu);
    var b' := ChromaErrors(l, u, top, ratio, q.2, ChromaOf(c, c.kr, rn, rn, gn, bn), tv);
    er := RedBack(c, top, rn, gn, bn, t, tv, a, b', ratio);
    eb := BlueBack(c, top, rn, gn, bn, t, tu, a, b, ratio);
    eg := GreenFromBoth(c, top, rn, gn, bn, t, tu, tv, a, b, b', ratio);
  }

  lemma LumaErrors(l: Limits, u: Limits, top: int, ratio: real, y: int, f: real, t: real) returns (a: real)
    requires RangeRatio(l, u, top, ratio) && LumaNear(l, y, f, t)
    ensures Errors(top, t, a, ratio) && LumaFraction(y, l) == f + t
  {
    hide LumaFraction, InCodes, RangeRatio;
    a := SpanErrors(l, u, top, ratio, l, t);
  }

  lemma ChromaErrors(l: Limits, u: Limits, top: int, ratio: real, cu: int, f: real, t: real) returns (a: real)
    requires RangeRatio(l, u, top, ratio) && ChromaNear(u, cu, f, t)
    ensures Errors(top, t, a, ratio) && ChromaFraction(cu, u) == f + t
  {
    hide ChromaFraction, InCodes, RangeRatio;
    a := SpanErrors(l, u, top, ratio, u, t);
  }

  lemma SpanErrors(l: Limits, u: Limits, top: int, ratio: real, s: Limits, t: real) returns (a: real)
    requires RangeRatio(l, u, top, ratio) && (s == l || s == u) && -2.0 < InCodes(s, t) < 2.0
    ensures Errors(top, t, a, ratio)
  {
    a := Stretch(top as real, (s.hi - s.lo) as real, ratio, t, InCodes(s, t));
  }

  /** The inverse matrix against the exact equations, in codes. */
  lemma BackNear(space: YuvColorSpace, swing: YuvColorSpaceType, bits: nat, q: (int, int, int))
      returns (raw: (int, int, int))
    requires bits >= 2 && 0 <= q.0 <= MaxCode(bits) && 0 <= q.1 <= MaxCode(bits) && 0 <= q.2 <= MaxCode(bits)
    ensures var c, l, u, top := RbConstantsOf(space), LimitsY(bits, swing), LimitsUV(bits, swing), MaxCode(bits);
            && Back(space, swing, bits, q) == (Bound(0, raw.0, top), Bound(0, raw.1, top), Bound(0, raw.2, top))
            && l.lo < l.hi && u.lo < u.hi && c.div > 0 && c.kr + c.kb < c.div
            && var y, cu, cv := LumaFraction(q.0, l), ChromaFraction(q.1, u), ChromaFraction(q.2, u);
               && -2.0 < raw.0 as real - Scale(top, ExactRed(c, y, cv)) < 2.0
               && -2.0 < raw.1 as real - Scale(top, ExactGreen(c, y, cu, cv)) < 2.0
               && -2.0 < raw.2 as real - Scale(top, ExactBlue(c, y, cu)) < 2.0
  {
    hide Yuv2RgbMatrix, Raw, LimitsY, LimitsUV, RbConstantsOf, MaxCode, LumaFraction, ChromaFraction, Bound, ExactRed,
      ExactGreen, ExactBlue, Back;
    Yuv2RgbAccurate(space, swing, bits, bits, bits, bits, bits, bits, q.0, q.1, q.2);
    BackIs(space, swing, bits, q);
    var m := Yuv2RgbMatrix(space, swing, bits, bits, bits, bits, bits, bits);
    raw := (Raw(m.x, m.shift, q.0, q.1, q.2), Raw(m.y, m.shift, q.0, q.1, q.2), Raw(m.z, m.shift, q.0, q.1, q.2));
  }

  /** For every RGB colour, at every depth and in every colour space and swing: converted to YUV and back, red and blue
      are off by less than 2 + 5.8 g codes and green by less than 2 + 7.4 g, where the RGB range is at most `g` times
      the coded ranges. */
  lemma ReturnsNear(space: YuvColorSpace, swing: YuvColorSpaceType, bits: nat, r: int, g: int, b: int, ratio: real)
    requires bits >= 2 && RgbSample(bits, bits, bits, r, g, b)
    requires RangeRatio(LimitsY(bits, swing), LimitsUV(bits, swing), MaxCode(bits), ratio)
    ensures var p := Back(space, swing, bits, There(space, swing, bits, r, g, b));
            Within(r, p.0, 5.8 * ratio) && Within(g, p.1, 7.4 * ratio) && Within(b, p.2, 5.8 * ratio)
  {
    hide LimitsY, LimitsUV, RbConstantsOf, MaxCode, LumaFraction, ChromaFraction, Bound, NormalOf, Unit, ExactRed,
      ExactGreen, ExactBlue, Within, There, Back, LumaOf, ChromaOf, Scale, PartsModerate, LumaNear, ChromaNear,
      RangeRatio;
    var c, l, u, top := RbConstantsOf(space), LimitsY(bits, swing), LimitsUV(bits, swing), MaxCode(bits);
    var rn, gn, bn := NormalOf(bits, r), NormalOf(bits, g), NormalOf(bits, b);
    PartSizes(space);
    NormalUnits(bits, r, g, b);
    var q := There(space, swing, bits, r, g, b);
    ThereIs(space, swing, bits, r, g, b);
    var t := LumaThere(space, swing, bits, r, g, b);
    var tu, tv := ChromaThere(space, swing, bits, r, g, b);
    var er, eg, eb := EquationsBack(c, l, u, top, ratio, q, rn, gn, bn, t, tu, tv);
    var raw := BackNear(space, swing, bits, q);
    var y, cu, cv := LumaFraction(q.0, l), ChromaFraction(q.1, u), ChromaFraction(q.2, u);
    BoundedWithin(r, raw.0, top, Scale(top, ExactRed(c, y, cv)), 5.8 * ratio);
    BoundedWithin(g, raw.1, top, Scale(top, ExactGreen(c, y, cu, cv)), 7.4 * ratio);
    BoundedWithin(b, raw.2, top, Scale(top, ExactBlue(c, y, cu)), 5.8 * ratio);
  }

  /** So at every depth from 8 bits up red and blue come back within eight codes and green within ten; in full swing
      within seven and nine, from two bits up. */
  lemma RgbReturnsNear(space: YuvColorSpace, swing: YuvColorSpaceType, bits: nat, r: int, g: int, b: int)
    requires RgbSample(bits, bits, bits, r, g, b) && bits >= if swing.FullSwing? then 2 else 8
    ensures var p, d := Back(space, swing, bits, There(space, swing, bits, r, g, b)), if swing.FullSwing? then 7 else 8;
            Abs(p.0 - r) <= d && Abs(p.1 - g) <= d + 2 && Abs(p.2 - b) <= d
  {
    hide There, Back;
    if swing.FullSwing? {
      FullRatio(bits);
      ReturnsNear(space, swing, bits, r, g, b, 1.0);
    } else {
      StudioRatio(bits);
      ReturnsNear(space, swing, bits, r, g, b, 1.17);
    }
  }

  lemma FullRatio(bits: nat)
    requires bits >= 1
    ensures RangeRatio(LimitsY(bits, FullSwing), LimitsUV(bits, FullSwing), MaxCode(bits), 1.0)
  {
  }

  lemma StudioRatio(bits: nat)
    requires bits >= 8
    ensures RangeRatio(LimitsY(bits, StudioSwing), LimitsUV(bits, StudioSwing), MaxCode(bits), 1.17)
  {
    hide LimitsY, LimitsUV;
    StudioLimitsMeetStandard(bits);
    Pow2Add(bits - 8, 8);
    assert Pow2(4) == 16 && Pow2(8) == 16 * Pow2(4);
  }
}
