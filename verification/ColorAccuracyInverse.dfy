/** YUV to RGB against the exact colour equations, and the equations against each other
    (VCamUtils/src/colorconvert.cpp). */
module ColorAccuracyInverse {
  import opened Arithmetic
  import opened ColorMatrices
  import opened ColorTheorems
  import opened ColorAccuracy

  /** Luma as a fraction of its range, from the lower limit. */
  function LumaFraction(y: int, l: Limits): (r: real)
    requires l.lo < l.hi
  {
    (y - l.lo) as real / (l.hi - l.lo) as real
  }

  /** Chroma as a fraction of its range, from the middle. */
  function ChromaFraction(u: int, l: Limits): (r: real)
    requires l.lo < l.hi
  {
    (2 * u - (l.lo + l.hi)) as real / (2 * (l.hi - l.lo)) as real
  }

  /** What red takes from V, and blue from U, with the channel's own weight `k`. */
  function OwnPart(c: RbConstants, k: int): (t: real)
    requires c.div > 0
  {
    (2 * (c.div - k)) as real / c.div as real
  }

  /** What green takes from the chroma of the channel with weight `k`. */
  function GreenPart(c: RbConstants, k: int): (t: real)
    requires c.div > 0 && c.kr + c.kb < c.div
  {
    MulLe(c.div, 1, c.div - c.kr - c.kb);
    (2 * (k * (k - c.div))) as real / (c.div * (c.div - c.kr - c.kb)) as real
  }

  function ExactRed(c: RbConstants, y: real, v: real): (r: real)
    requires c.div > 0
  {
    y + OwnPart(c, c.kr) * v
  }

  function ExactBlue(c: RbConstants, y: real, u: real): (b: real)
    requires c.div > 0
  {
    y + OwnPart(c, c.kb) * u
  }

  function ExactGreen(c: RbConstants, y: real, u: real, v: real): (g: real)
    requires c.div > 0 && c.kr + c.kb < c.div
  {
    y + GreenPart(c, c.kb) * u + GreenPart(c, c.kr) * v
  }

  // ----- The equations undo each other -----

  /** Taken exactly, the two sets of equations are inverse to each other: luma and chroma fractions of a colour give
      the colour back. */
  lemma EquationsInvert(c: RbConstants, r: real, g: real, b: real, y: real, u: real, v: real)
    requires c.div > 0 && c.kr < c.div && c.kb < c.div && c.kr + c.kb < c.div
    requires y == Weighted(c, r, g, b) / c.div as real
    requires u == (c.div as real * b - Weighted(c, r, g, b)) / (2 * (c.div - c.kb)) as real
    requires v == (c.div as real * r - Weighted(c, r, g, b)) / (2 * (c.div - c.kr)) as real
    ensures ExactRed(c, y, v) == r && ExactGreen(c, y, u, v) == g && ExactBlue(c, y, u) == b
  {
    hide ExactGreen, OwnPart, GreenPart, Weighted;
    var w, p := Weighted(c, r, g, b), c.div as real;
    assert y * p == w;
    assert u * (2 * (c.div - c.kb)) as real == p * b - w;
    assert v * (2 * (c.div - c.kr)) as real == p * r - w;
    OwnInverts(c, c.kr, r, y, v, w);
    OwnInverts(c, c.kb, b, y, u, w);
    GreenInverts(c, r, g, b, y, u, v, w);
  }

  lemma OwnInverts(c: RbConstants, k: int, x: real, y: real, u: real, w: real)
    requires c.div > 0 && k < c.div && y * c.div as real == w && u * (2 * (c.div - k)) as real == c.div as real * x - w
    ensures y + OwnPart(c, k) * u == x
  {
    var p, q := c.div as real, (2 * (c.div - k)) as real;
    var t := q / p;
    assert t * p == q;
    assert (t * u) * p == u * q;
    assert (y + t * u) * p == p * x;
    CancelReal(p, y + t * u, x);
  }

  lemma CancelReal(p: real, a: real, b: real)
    requires p != 0.0 && a * p == p * b
    ensures a == b
  {
  }

  lemma GreenInverts(c: RbConstants, r: real, g: real, b: real, y: real, u: real, v: real, w: real)
    requires c.div > 0 && c.kr + c.kb < c.div && w == Weighted(c, r, g, b)
    requires y * c.div as real == w
    requires u * (2 * (c.div - c.kb)) as real == c.div as real * b - w
    requires v * (2 * (c.div - c.kr)) as real == c.div as real * r - w
    ensures ExactGreen(c, y, u, v) == g
  {
    hide GreenPart, Weighted, ExactGreen;
    var tu := GreenTerm(c, c.kb, b, u, w);
    var tv := GreenTerm(c, c.kr, r, v, w);
    WeightedIs(c, r, g, b);
    GreenSum(c.div as real, (c.div - c.kr - c.kb) as real, c.kr as real, c.kb as real, r, g, b, y, tu, tv, w);
    GreenSpelled(c, y, u, v, tu, tv);
  }

  lemma GreenSpelled(c: RbConstants, y: real, u: real, v: real, tu: real, tv: real)
    requires c.div > 0 && c.kr + c.kb < c.div && tu == GreenPart(c, c.kb) * u && tv == GreenPart(c, c.kr) * v
    ensures ExactGreen(c, y, u, v) == y + tu + tv
  {
    hide GreenPart;
  }

  lemma WeightedIs(c: RbConstants, r: real, g: real, b: real)
    ensures Weighted(c, r, g, b) == c.kr as real * r + (c.div - c.kr - c.kb) as real * g + c.kb as real * b
  {
  }

  /** What green takes from one chroma, times the denominator. */
  lemma GreenTerm(c: RbConstants, k: int, x: real, u: real, w: real) returns (tu: real)
    requires c.div > 0 && c.kr + c.kb < c.div && u * (2 * (c.div - k)) as real == c.div as real * x - w
    ensures tu == GreenPart(c, k) * u
            && tu * (c.div as real * (c.div - c.kr - c.kb) as real) == k as real * (w - c.div as real * x)
  {
    tu := GreenPart(c, k) * u;
    var m := c.div * (c.div - c.kr - c.kb);
    MulLe(c.div, 1, c.div - c.kr - c.kb);
    IntProduct(c.div, c.div - c.kr - c.kb);
    var n := (2 * (k * (k - c.div))) as real;
    var t := n / m as real;
    assert t * m as real == n;
    IntProduct(k, 2 * (c.div - k));
    assert n == -(k as real * (2 * (c.div - k)) as real);
    GreenTermAlgebra(t, u, m as real, k as real, (2 * (c.div - k)) as real, c.div as real * x - w);
  }

  lemma GreenTermAlgebra(t: real, u: real, m: real, k: real, q: real, e: real)
    requires t * m == -(k * q) && u * q == e
    ensures t * u * m == k * -e
  {
    assert t * u * m == u * (t * m);
    assert u * -(k * q) == -(k * (u * q));
  }

  lemma GreenSum(p: real, kg: real, kr: real, kb: real, r: real, g: real, b: real, y: real, tu: real, tv: real, w: real)
    requires p > 0.0 && kg > 0.0 && kr + kg + kb == p
    requires w == kr * r + kg * g + kb * b && y * p == w
    requires tu * (p * kg) == kb * (w - p * b) && tv * (p * kg) == kr * (w - p * r)
    ensures y + tu + tv == g
  {
    var m := p * kg;
    assert (y + tu + tv) * m == kg * w + kb * (w - p * b) + kr * (w - p * r) by { SumTimesReal(y, tu, tv, m); }
    GreenTimes(p, kg, kr, kb, r, g, b, w);
    CancelReal(m, y + tu + tv, g);
  }

  lemma SumTimesReal(a: real, b: real, c: real, m: real)
    ensures (a + b + c) * m == a * m + b * m + c * m
  {
  }

  lemma GreenTimes(p: real, kg: real, kr: real, kb: real, r: real, g: real, b: real, w: real)
    requires kr + kg + kb == p && w == kr * r + kg * g + kb * b
    ensures kg * w + kb * (w - p * b) + kr * (w - p * r) == p * kg * g
  {
    assert kg * w + kb * w + kr * w == p * w;
    assert p * w - p * (kb * b) - p * (kr * r) == p * (kg * g);
  }

  // ----- One row of the matrix -----

  /** `t` is within half a unit per code of distance of its exact value `v`. */
  predicate NearPart(s: int, t: int, v: real)
  {
    -0.5 * Abs(s) as real <= t as real - v <= 0.5 * Abs(s) as real
  }

  /** Half a unit of error per code, for distances of either sign. */
  lemma SignedError(s: int, k: int, x: real) returns (t: int, v: real)
    requires Near(k, x)
    ensures NearPart(s, t, v) && t == k * s && v == x * s as real
  {
    t, v := k * s, x * s as real;
    if s >= 0 {
      var _, _ := TermError(s, k, x);
    } else {
      var t', v' := TermError(-s, k, x);
      assert t' == -t && v' == -v;
    }
  }

  /** The sum of a row, doubled: the distances of the three codes from their zero points times the coefficients, the
      rounding unit, and up to one for the truncated half. */
  lemma RowSum(ky: int, ku: int, kv: int, y: int, u: int, v: int, ly: Limits, su: int, sv: int, h: int, n: int)
    requires n == y * ky + u * ku + v * kv + InverseOffset(h, ky, ly, ku * su + kv * sv)
    ensures -1 <= 2 * n - (2 * (ky * (y - ly.lo)) + ku * (2 * u - su) + kv * (2 * v - sv) + 2 * h) <= 1
  {
    hide Quot;
    HalfTruncated(ku * su + kv * sv);
    assert ky * (y - ly.lo) == y * ky - ky * ly.lo;
    assert ku * (2 * u - su) == 2 * (u * ku) - ku * su;
    assert kv * (2 * v - sv) == 2 * (v * kv) - kv * sv;
  }

  lemma HalfTruncated(n: int)
    ensures -1 <= n - 2 * Quot(n, 2) <= 1
  {
  }

  /** A row of the inverse matrix is off by less than two codes: its three distances stay below the unit, and twice it
      for the doubled chroma distances. */
  lemma InverseRowError(d: int, h: int, a: int, b: int, c: int, t1: int, t2: int, t3: int, v1: real, v2: real,
                        v3: real, n: int,
                        raw: int, e: real, total: real)
    requires d == 2 * h && h >= 1 && raw == n / d && Abs(a) < d && Abs(b) <= 2 * (d - 1) && Abs(c) <= 2 * (d - 1)
    requires NearPart(a, t1, v1) && NearPart(b, t2, v2) && NearPart(c, t3, v3)
    requires -1 <= 2 * n - (2 * t1 + t2 + t3 + 2 * h) <= 1
    requires total == d as real * e && total + total == v1 + v1 + v2 + v3
    ensures -2.0 < raw as real - e < 2.0
  {
    hide NearPart, Abs;
    InverseSumError(d, h, a, b, c, t1, t2, t3, v1, v2, v3, n, total);
    ScaleDown(d as real, raw as real, e, total);
  }

  lemma InverseSumError(d: int, h: int, a: int, b: int, c: int, t1: int, t2: int, t3: int, v1: real, v2: real,
                        v3: real, n: int, total: real)
    requires d == 2 * h && h >= 1 && Abs(a) < d && Abs(b) <= 2 * (d - 1) && Abs(c) <= 2 * (d - 1)
    requires NearPart(a, t1, v1) && NearPart(b, t2, v2) && NearPart(c, t3, v3)
    requires -1 <= 2 * n - (2 * t1 + t2 + t3 + 2 * h) <= 1
    requires total + total == v1 + v1 + v2 + v3
    ensures -(2 * d) as real < d as real * (n / d) as real - total < (2 * d) as real
  {
    FloorError(d, n, total);
  }

  // ----- The coefficients -----

  function ExactInverseLumaGain(d: int, cmax: int, diff: int): (x: real)
    requires diff >= 1
  {
    (d * cmax) as real / diff as real
  }

  function ExactInverseChromaGain(d: int, cmax: int, w: int, den: int): (x: real)
    requires den >= 1
  {
    (2 * d * cmax * w) as real / den as real
  }

  lemma InverseGainsNear(d: int, cmax: int, diff: int, w: int, den: int)
    requires diff >= 1 && den >= 1
    ensures Near(InverseLumaGain(d, cmax, diff), ExactInverseLumaGain(d, cmax, diff))
    ensures Near(InverseChromaGain(d, cmax, w, den), ExactInverseChromaGain(d, cmax, w, den))
  {
    hide RoundedDiv, Near;
    NearestReal(d * cmax, diff);
    NearestReal(2 * d * cmax * w, den);
  }

  lemma LumaPart(d: int, cmax: int, y: int, l: Limits)
    requires l.lo < l.hi
    ensures ExactInverseLumaGain(d, cmax, l.hi - l.lo) * (y - l.lo) as real == (d * cmax) as real * LumaFraction(y, l)
  {
    var m, q, a := (d * cmax) as real, (l.hi - l.lo) as real, (y - l.lo) as real;
    SwapQuotient(m, q, a);
  }

  lemma SwapQuotient(m: real, q: real, a: real)
    requires q != 0.0
    ensures m / q * a == m * (a / q)
  {
    var x, f := m / q, a / q;
    assert x * q == m && f * q == a;
    assert (x * a) * q == (m * f) * q;
    CancelReal(q, x * a, m * f) by { assert (m * f) * q == q * (m * f); }
  }

  /** With `den == p * range` and `t == 2 * w / p`, the coefficient times the doubled distance is twice the chroma
      fraction's part. */
  lemma ChromaPart(d: int, cmax: int, w: int, p: int, u: int, l: Limits, t: real)
    requires l.lo < l.hi && p >= 1 && p * (l.hi - l.lo) >= 1 && t * p as real == (2 * w) as real
    ensures ExactInverseChromaGain(d, cmax, w, p * (l.hi - l.lo)) * (2 * u - (l.lo + l.hi)) as real
            == 2.0 * ((d * cmax) as real * (t * ChromaFraction(u, l)))
  {
    var m, q, b := (d * cmax) as real, (l.hi - l.lo) as real, (2 * u - (l.lo + l.hi)) as real;
    var den := p as real * q;
    IntProduct(p, l.hi - l.lo);
    IntProduct(d * cmax, 2 * w);
    assert 2 * d * cmax * w == (d * cmax) * (2 * w);
    var x, f := (m * (t * p as real)) / den, b / (2.0 * q);
    assert x * den == m * (t * p as real) && f * (2.0 * q) == b;
    ChromaPartAlgebra(x, f, m, t, p as real, q, b);
  }

  lemma ChromaPartAlgebra(x: real, f: real, m: real, t: real, p: real, q: real, b: real)
    requires p != 0.0 && q != 0.0 && p * q != 0.0
    requires x * (p * q) == m * (t * p) && f * (2.0 * q) == b
    ensures x * b == 2.0 * (m * (t * f))
  {
    assert x * (p * q) == (x * q) * p && m * (t * p) == p * (m * t);
    CancelReal(p, x * q, m * t);
    assert x * b == (x * q) * (2.0 * f);
  }

  // ----- The channels -----

  /** The code ranges of the three inputs lie below the unit, so no code is further than that from its zero point. */
  predicate YuvSample(d: int, y: int, u: int, v: int, ly: Limits, lu: Limits, lv: Limits)
  {
    && 0 <= ly.lo < ly.hi < d && 0 <= lu.lo < lu.hi < d && 0 <= lv.lo < lv.hi < d
    && 0 <= y < d && 0 <= u < d && 0 <= v < d
  }

  /** A chroma coefficient `k` and its exact value `x`, whose product with the doubled distance is twice `part` of the
      channel range. */
  predicate ChromaCoefficient(k: int, x: real, m: int, u: int, l: Limits, part: real)
  {
    Near(k, x) && x * (2 * u - (l.lo + l.hi)) as real == 2.0 * (m as real * part)
  }

  lemma ChannelAccurate(d: int, h: int, cmax: int, y: int, u: int, v: int, ly: Limits, lu: Limits, lv: Limits,
                        ku: int, kv: int, xu: real, xv: real, pu: real, pv: real, n: int, e: real)
    requires d == 2 * h && h >= 1 && YuvSample(d, y, u, v, ly, lu, lv)
    requires ChromaCoefficient(ku, xu, d * cmax, u, lu, pu) && ChromaCoefficient(kv, xv, d * cmax, v, lv, pv)
    requires n == y * InverseLumaGain(d, cmax, ly.hi - ly.lo) + u * ku + v * kv
                  + InverseOffset(h, InverseLumaGain(d, cmax, ly.hi - ly.lo), ly,
                                  ku * (lu.lo + lu.hi) + kv * (lv.lo + lv.hi))
    requires e == cmax as real * (LumaFraction(y, ly) + pu + pv)
    ensures -2.0 < (n / d) as real - e < 2.0
  {
    hide InverseLumaGain, LumaFraction, InverseOffset, NearPart, Abs, YuvSample, ChromaCoefficient;
    Distances(d, y, u, v, ly, lu, lv);
    var t1, t2, t3, v1, v2, v3 := ChannelParts(d, h, cmax, y, u, v, ly, lu, lv, ku, kv, xu, xv, pu, pv, n);
    ChannelTotal(d, cmax, LumaFraction(y, ly), pu, pv, e);
    InverseRowError(d, h, y - ly.lo, 2 * u - (lu.lo + lu.hi), 2 * v - (lv.lo + lv.hi), t1, t2, t3, v1, v2, v3, n,
                    n / d, e, d as real * e);
  }

  /** The three products of a row, with their exact values. */
  lemma ChannelParts(d: int, h: int, cmax: int, y: int, u: int, v: int, ly: Limits, lu: Limits, lv: Limits,
                     ku: int, kv: int, xu: real, xv: real, pu: real, pv: real, n: int)
    returns (t1: int, t2: int, t3: int, v1: real, v2: real, v3: real)
    requires ly.lo < ly.hi
    requires ChromaCoefficient(ku, xu, d * cmax, u, lu, pu) && ChromaCoefficient(kv, xv, d * cmax, v, lv, pv)
    requires n == y * InverseLumaGain(d, cmax, ly.hi - ly.lo) + u * ku + v * kv
                  + InverseOffset(h, InverseLumaGain(d, cmax, ly.hi - ly.lo), ly,
                                  ku * (lu.lo + lu.hi) + kv * (lv.lo + lv.hi))
    ensures NearPart(y - ly.lo, t1, v1) && NearPart(2 * u - (lu.lo + lu.hi), t2, v2)
            && NearPart(2 * v - (lv.lo + lv.hi), t3, v3)
    ensures -1 <= 2 * n - (2 * t1 + t2 + t3 + 2 * h) <= 1
    ensures var m := (d * cmax) as real; v1 == m * LumaFraction(y, ly) && v2 == 2.0 * (m * pu) && v3 == 2.0 * (m * pv)
  {
    hide InverseLumaGain, ExactInverseLumaGain, LumaFraction, Near, InverseOffset, NearPart, ChromaCoefficient;
    var ky := InverseLumaGain(d, cmax, ly.hi - ly.lo);
    t1, v1 := LumaError(d, cmax, y, ly);
    t2, v2 := ChromaError(ku, xu, d * cmax, u, lu, pu);
    t3, v3 := ChromaError(kv, xv, d * cmax, v, lv, pv);
    RowSum(ky, ku, kv, y, u, v, ly, lu.lo + lu.hi, lv.lo + lv.hi, h, n);
  }

  lemma LumaError(d: int, cmax: int, y: int, ly: Limits) returns (t: int, v: real)
    requires ly.lo < ly.hi
    ensures NearPart(y - ly.lo, t, v) && t == InverseLumaGain(d, cmax, ly.hi - ly.lo) * (y - ly.lo)
    ensures v == (d * cmax) as real * LumaFraction(y, ly)
  {
    hide InverseLumaGain, ExactInverseLumaGain, LumaFraction, Near, NearPart;
    var ky, xy := InverseLumaGain(d, cmax, ly.hi - ly.lo), ExactInverseLumaGain(d, cmax, ly.hi - ly.lo);
    InverseGainsNear(d, cmax, ly.hi - ly.lo, 0, 1);
    t, v := SignedError(y - ly.lo, ky, xy);
    LumaPart(d, cmax, y, ly);
  }

  lemma ChromaError(k: int, x: real, m: int, u: int, l: Limits, part: real) returns (t: int, v: real)
    requires ChromaCoefficient(k, x, m, u, l, part)
    ensures NearPart(2 * u - (l.lo + l.hi), t, v) && t == k * (2 * u - (l.lo + l.hi)) && v == 2.0 * (m as real * part)
  {
    hide Near, NearPart;
    t, v := SignedError(2 * u - (l.lo + l.hi), k, x);
  }

  lemma Distances(d: int, y: int, u: int, v: int, ly: Limits, lu: Limits, lv: Limits)
    requires YuvSample(d, y, u, v, ly, lu, lv)
    ensures ly.lo < ly.hi
    ensures Abs(y - ly.lo) < d && Abs(2 * u - (lu.lo + lu.hi)) <= 2 * (d - 1)
            && Abs(2 * v - (lv.lo + lv.hi)) <= 2 * (d - 1)
  {
  }

  lemma ChannelTotal(d: int, cmax: int, f: real, pu: real, pv: real, e: real)
    requires e == cmax as real * (f + pu + pv)
    ensures var m := (d * cmax) as real;
            d as real * e + d as real * e == m * f + m * f + 2.0 * (m * pu) + 2.0 * (m * pv)
  {
    IntProduct(d, cmax);
    var m := d as real * cmax as real;
    assert d as real * e == m * (f + pu + pv);
    assert m * (f + pu + pv) == m * f + m * pu + m * pv;
  }

  lemma NoChroma(m: int, u: int, l: Limits)
    ensures ChromaCoefficient(0, 0.0, m, u, l, 0.0)
  {
  }

  lemma OwnCoefficient(c: RbConstants, k: int, d: int, cmax: int, u: int, l: Limits)
    requires c.div > 0 && l.lo < l.hi
    ensures c.div * (l.hi - l.lo) >= 1
    ensures ChromaCoefficient(InverseChromaGain(d, cmax, c.div - k, c.div * (l.hi - l.lo)),
                              ExactInverseChromaGain(d, cmax, c.div - k, c.div * (l.hi - l.lo)),
                              d * cmax, u, l, OwnPart(c, k) * ChromaFraction(u, l))
  {
    hide InverseChromaGain, ExactInverseChromaGain, ChromaFraction, Near;
    MulLe(c.div, 1, l.hi - l.lo);
    InverseGainsNear(d, cmax, 1, c.div - k, c.div * (l.hi - l.lo));
    ChromaPart(d, cmax, c.div - k, c.div, u, l, OwnPart(c, k));
  }

  lemma GreenCoefficient(c: RbConstants, k: int, d: int, cmax: int, u: int, l: Limits, w: int, p: int,
                         den: int) returns (x: real, part: real)
    requires c.div > 0 && c.kr + c.kb < c.div && l.lo < l.hi
    requires w == k * (k - c.div) && p == c.div * (c.div - c.kr - c.kb) && den == p * (l.hi - l.lo)
    ensures ChromaCoefficient(InverseChromaGain(d, cmax, w, den), x, d * cmax, u, l, part)
    ensures part == GreenPart(c, k) * ChromaFraction(u, l)
  {
    hide InverseChromaGain, ExactInverseChromaGain, ChromaFraction, Near;
    MulLe(c.div, 1, c.div - c.kr - c.kb);
    MulLe(p, 1, l.hi - l.lo);
    InverseGainsNear(d, cmax, 1, w, den);
    ChromaPart(d, cmax, w, p, u, l, GreenPart(c, k));
    x, part := ExactInverseChromaGain(d, cmax, w, den), GreenPart(c, k) * ChromaFraction(u, l);
  }

  // ----- The matrix -----

  lemma Yuv2RgbRawIs(space: YuvColorSpace, ly: Limits, lu: Limits, lv: Limits, shift: nat, h: int, rmax: int,
                     gmax: int, bmax: int, y: int, u: int, v: int)
    ensures var m, c, d := Yuv2RgbRows(space, ly, lu, lv, shift, h, rmax, gmax, bmax), RbConstantsOf(space),
            Pow2(shift);
            var kg, dy, du, dv := c.div - c.kr - c.kb, ly.hi - ly.lo, lu.hi - lu.lo, lv.hi - lv.lo;
            var kry, kgy, kby := InverseLumaGain(d, rmax, dy), InverseLumaGain(d, gmax, dy),
                InverseLumaGain(d, bmax, dy);
            var krv, kbu := InverseChromaGain(d, rmax, c.div - c.kr, c.div * dv),
                InverseChromaGain(d, bmax, c.div - c.kb, c.div * du);
            var kgu, kgv := InverseChromaGain(d, gmax, c.kb * (c.kb - c.div), c.div * kg * du),
                            InverseChromaGain(d, gmax, c.kr * (c.kr - c.div), c.div * kg * dv);
            var su, sv := lu.lo + lu.hi, lv.lo + lv.hi;
            && Raw(m.x, m.shift, y, u, v)
               == (y * kry + u * 0 + v * krv + InverseOffset(h, kry, ly, 0 * su + krv * sv)) / d
            && Raw(m.y, m.shift, y, u, v)
               == (y * kgy + u * kgu + v * kgv + InverseOffset(h, kgy, ly, kgu * su + kgv * sv)) / d
            && Raw(m.z, m.shift, y, u, v)
               == (y * kby + u * kbu + v * 0 + InverseOffset(h, kby, ly, kbu * su + 0 * sv)) / d
  {
    hide InverseLumaGain, InverseChromaGain, InverseOffset, RbConstantsOf, Pow2, Raw;
    var m := Yuv2RgbRows(space, ly, lu, lv, shift, h, rmax, gmax, bmax);
    RawIs(m.x, shift, y, u, v);
    RawIs(m.y, shift, y, u, v);
    RawIs(m.z, shift, y, u, v);
  }

  lemma Constants(space: YuvColorSpace)
    ensures var c := RbConstantsOf(space); c.div > 0 && c.kr < c.div && c.kb < c.div && c.kr + c.kb < c.div
  {
  }

  /** YUV to RGB, for code ranges below the unit and every colour space: before it is bounded, each of the three results
      is less than two codes from the exact equation, for every combination of codes. */
  lemma RowsAccurate(space: YuvColorSpace, ly: Limits, lu: Limits, lv: Limits, shift: nat, h: int, rmax: int,
                     gmax: int, bmax: int, y: int, u: int, v: int)
    requires Pow2(shift) == 2 * h && h >= 1 && YuvSample(Pow2(shift), y, u, v, ly, lu, lv)
    ensures var m, c := Yuv2RgbRows(space, ly, lu, lv, shift, h, rmax, gmax, bmax), RbConstantsOf(space);
            var f, fu, fv := LumaFraction(y, ly), ChromaFraction(u, lu), ChromaFraction(v, lv);
            && c.div > 0 && c.kr + c.kb < c.div
            && -2.0 < Raw(m.x, m.shift, y, u, v) as real - rmax as real * ExactRed(c, f, fv) < 2.0
            && -2.0 < Raw(m.y, m.shift, y, u, v) as real - gmax as real * ExactGreen(c, f, fu, fv) < 2.0
            && -2.0 < Raw(m.z, m.shift, y, u, v) as real - bmax as real * ExactBlue(c, f, fu) < 2.0
  {
    hide InverseLumaGain, InverseChromaGain, InverseOffset, ExactInverseChromaGain, RbConstantsOf, Pow2, Raw, OwnPart,
      GreenPart, LumaFraction, ChromaFraction, ChromaCoefficient, Yuv2RgbRows;
    var c, d := RbConstantsOf(space), Pow2(shift);
    Constants(space);
    Yuv2RgbRawIs(space, ly, lu, lv, shift, h, rmax, gmax, bmax, y, u, v);
    RedAccurate(c, d, h, rmax, y, u, v, ly, lu, lv);
    GreenAccurate(c, d, h, gmax, y, u, v, ly, lu, lv);
    BlueAccurate(c, d, h, bmax, y, u, v, ly, lu, lv);
  }

  lemma RedAccurate(c: RbConstants, d: int, h: int, cmax: int, y: int, u: int, v: int, ly: Limits, lu: Limits,
                    lv: Limits)
    requires d == 2 * h && h >= 1 && c.div > 0 && YuvSample(d, y, u, v, ly, lu, lv)
    ensures var ky, kv := InverseLumaGain(d, cmax, ly.hi - ly.lo),
            InverseChromaGain(d, cmax, c.div - c.kr, c.div * (lv.hi - lv.lo));
            var n := y * ky + u * 0 + v * kv + InverseOffset(h, ky, ly, 0 * (lu.lo + lu.hi) + kv * (lv.lo + lv.hi));
            -2.0 < (n / d) as real - cmax as real * ExactRed(c, LumaFraction(y, ly), ChromaFraction(v, lv)) < 2.0
  {
    hide InverseLumaGain, InverseChromaGain, InverseOffset, ExactInverseChromaGain, OwnPart, LumaFraction,
      ChromaFraction, ChromaCoefficient;
    var ky, kv := InverseLumaGain(d, cmax, ly.hi - ly.lo),
        InverseChromaGain(d, cmax, c.div - c.kr, c.div * (lv.hi - lv.lo));
    var n := y * ky + u * 0 + v * kv + InverseOffset(h, ky, ly, 0 * (lu.lo + lu.hi) + kv * (lv.lo + lv.hi));
    NoChroma(d * cmax, u, lu);
    OwnCoefficient(c, c.kr, d, cmax, v, lv);
    ChannelAccurate(d, h, cmax, y, u, v, ly, lu, lv, 0, kv, 0.0,
                    ExactInverseChromaGain(d, cmax, c.div - c.kr, c.div * (lv.hi - lv.lo)),
                    0.0, OwnPart(c, c.kr) * ChromaFraction(v, lv), n, cmax as real * ExactRed(c, LumaFraction(y, ly),
                            ChromaFraction(v, lv)));
  }

  lemma BlueAccurate(c: RbConstants, d: int, h: int, cmax: int, y: int, u: int, v: int, ly: Limits, lu: Limits,
                     lv: Limits)
    requires d == 2 * h && h >= 1 && c.div > 0 && YuvSample(d, y, u, v, ly, lu, lv)
    ensures var ky, ku := InverseLumaGain(d, cmax, ly.hi - ly.lo),
            InverseChromaGain(d, cmax, c.div - c.kb, c.div * (lu.hi - lu.lo));
            var n := y * ky + u * ku + v * 0 + InverseOffset(h, ky, ly, ku * (lu.lo + lu.hi) + 0 * (lv.lo + lv.hi));
            -2.0 < (n / d) as real - cmax as real * ExactBlue(c, LumaFraction(y, ly), ChromaFraction(u, lu)) < 2.0
  {
    hide InverseLumaGain, InverseChromaGain, InverseOffset, ExactInverseChromaGain, OwnPart, LumaFraction,
      ChromaFraction, ChromaCoefficient;
    var ky, ku := InverseLumaGain(d, cmax, ly.hi - ly.lo),
        InverseChromaGain(d, cmax, c.div - c.kb, c.div * (lu.hi - lu.lo));
    var n := y * ky + u * ku + v * 0 + InverseOffset(h, ky, ly, ku * (lu.lo + lu.hi) + 0 * (lv.lo + lv.hi));
    NoChroma(d * cmax, v, lv);
    OwnCoefficient(c, c.kb, d, cmax, u, lu);
    ChannelAccurate(d, h, cmax, y, u, v, ly, lu, lv, ku, 0,
                    ExactInverseChromaGain(d, cmax, c.div - c.kb, c.div * (lu.hi - lu.lo)), 0.0,
                    OwnPart(c, c.kb) * ChromaFraction(u, lu), 0.0, n, cmax as real * ExactBlue(c, LumaFraction(y,
                            ly), ChromaFraction(u, lu)));
  }

  lemma GreenAccurate(c: RbConstants, d: int, h: int, cmax: int, y: int, u: int, v: int, ly: Limits, lu: Limits,
                      lv: Limits)
    requires d == 2 * h && h >= 1 && c.div > 0 && c.kr + c.kb < c.div && YuvSample(d, y, u, v, ly, lu, lv)
    ensures var denU, denV := c.div * (c.div - c.kr - c.kb) * (lu.hi - lu.lo),
            c.div * (c.div - c.kr - c.kb) * (lv.hi - lv.lo);
            var ky := InverseLumaGain(d, cmax, ly.hi - ly.lo);
            var ku, kv := InverseChromaGain(d, cmax, c.kb * (c.kb - c.div), denU),
                InverseChromaGain(d, cmax, c.kr * (c.kr - c.div), denV);
            var n := y * ky + u * ku + v * kv + InverseOffset(h, ky, ly, ku * (lu.lo + lu.hi) + kv * (lv.lo + lv.hi));
            -2.0 < (n / d) as real - cmax as real * ExactGreen(c, LumaFraction(y, ly), ChromaFraction(u, lu),
                                                               ChromaFraction(v, lv)) < 2.0
  {
    hide InverseLumaGain, InverseChromaGain, InverseOffset, ExactInverseChromaGain, GreenPart, LumaFraction,
      ChromaFraction, ChromaCoefficient;
    var p := c.div * (c.div - c.kr - c.kb);
    var denU, denV, wu, wv := p * (lu.hi - lu.lo), p * (lv.hi - lv.lo), c.kb * (c.kb - c.div), c.kr * (c.kr - c.div);
    var xu, pu := GreenCoefficient(c, c.kb, d, cmax, u, lu, wu, p, denU);
    var xv, pv := GreenCoefficient(c, c.kr, d, cmax, v, lv, wv, p, denV);
    var ky := InverseLumaGain(d, cmax, ly.hi - ly.lo);
    var ku, kv := InverseChromaGain(d, cmax, wu, denU), InverseChromaGain(d, cmax, wv, denV);
    var n := y * ky + u * ku + v * kv + InverseOffset(h, ky, ly, ku * (lu.lo + lu.hi) + kv * (lv.lo + lv.hi));
    ChannelAccurate(d, h, cmax, y, u, v, ly, lu, lv, ku, kv, xu, xv, pu, pv, n,
                    cmax as real * ExactGreen(c, LumaFraction(y, ly), ChromaFraction(u, lu), ChromaFraction(v, lv)));
  }

  /** YUV to RGB, for all depths of at least two, every colour space and both swings: before it is bounded, each of the
      three results is less than two codes from the exact equation, for every combination of codes. */
  lemma Yuv2RgbAccurate(space: YuvColorSpace, swing: YuvColorSpaceType,
                        ybits: nat, ubits: nat, vbits: nat, rbits: nat, gbits: nat, bbits: nat, y: int, u: int, v: int)
    requires ybits >= 2 && ubits >= 2 && vbits >= 2
    requires 0 <= y <= MaxCode(ybits) && 0 <= u <= MaxCode(ubits) && 0 <= v <= MaxCode(vbits)
    ensures var m, c := Yuv2RgbMatrix(space, swing, ybits, ubits, vbits, rbits, gbits, bbits), RbConstantsOf(space);
            var ly, lu, lv := LimitsY(ybits, swing), LimitsUV(ubits, swing), LimitsUV(vbits, swing);
            && ly.lo < ly.hi && lu.lo < lu.hi && lv.lo < lv.hi && c.div > 0 && c.kr + c.kb < c.div
            && var f, fu, fv := LumaFraction(y, ly), ChromaFraction(u, lu), ChromaFraction(v, lv);
               && -2.0 < Raw(m.x, m.shift, y, u, v) as real - MaxCode(rbits) as real * ExactRed(c, f, fv) < 2.0
               && -2.0 < Raw(m.y, m.shift, y, u, v) as real - MaxCode(gbits) as real * ExactGreen(c, f, fu, fv) < 2.0
               && -2.0 < Raw(m.z, m.shift, y, u, v) as real - MaxCode(bbits) as real * ExactBlue(c, f, fu) < 2.0
  {
    hide Yuv2RgbRows, LimitsY, LimitsUV, RbConstantsOf, Raw, MaxCode, Pow2, ExactRed, ExactGreen, ExactBlue,
      LumaFraction, ChromaFraction;
    var shift := Max3(ybits, ubits, vbits);
    CodesBelowUnit(ybits, shift);
    CodesBelowUnit(ubits, shift);
    CodesBelowUnit(vbits, shift);
    LimitsProper(ybits, swing);
    LimitsProper(ubits, swing);
    LimitsProper(vbits, swing);
    RowsAccurate(space, LimitsY(ybits, swing), LimitsUV(ubits, swing), LimitsUV(vbits, swing), shift, Pow2(shift - 1),
                 MaxCode(rbits), MaxCode(gbits), MaxCode(bbits), y, u, v);
  }
}
