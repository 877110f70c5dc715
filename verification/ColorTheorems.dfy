/** What the fixed-point matrices guarantee, for every bit depth. */
module ColorTheorems {
  import opened Arithmetic
  import opened ColorMatrices

  // ----- Depth conversion: the unbounded diagonal form stays in range -----

  /** A gain rounded to nearest adds at most half a code per input code. */
  lemma GainTerm(den: int, cmax: int, n: int, k: int, c: int)
    requires den > 0 && cmax >= 1 && n >= 0 && 0 <= c <= cmax
    requires 2 * (den * cmax * k) <= 2 * n + den * cmax
    ensures 2 * (den * (c * k)) <= 2 * n + den * c
  {
    var gain, weight := 2 * (den * cmax * k), 2 * n + den * cmax;
    MulLe(c, gain, weight);
    MulLe(n, c, cmax);
    GainTermScaled(den, cmax, n, k, c);
    MulCancelLe(cmax, 2 * (den * (c * k)), 2 * n + den * c);
  }

  lemma GainTermScaled(den: int, cmax: int, n: int, k: int, c: int)
    requires c * (2 * (den * cmax * k)) <= c * (2 * n + den * cmax)
    requires n * c <= n * cmax
    ensures cmax * (2 * (den * (c * k))) <= cmax * (2 * n + den * c)
  {
    assert c * (2 * (den * cmax * k)) == cmax * (2 * (den * (c * k)));
    assert c * (2 * n + den * cmax) == 2 * (n * c) + cmax * (den * c);
    assert cmax * (2 * n + den * c) == 2 * (n * cmax) + cmax * (den * c);
  }

  /** One channel: `k` is a nearest integer to `top / amax` with `top == d * xmax`, `d == 2 * h` the fixed-point
      unit. */
  lemma ScaledSample(d: int, h: int, amax: int, xmax: int, top: int, k: int, a: int)
    requires d == 2 * h && h >= 1 && 1 <= amax < d && xmax >= 0 && k >= 0 && top == d * xmax
    requires -amax <= 2 * (amax * k - top) <= amax
    requires 0 <= a <= amax
    ensures 0 <= (a * k + h) / d <= xmax
    ensures a == 0 ==> (a * k + h) / d == 0
    ensures a == amax ==> (a * k + h) / d == xmax
  {
    MulNonNeg(d, xmax);
    GainTerm(1, amax, top, k, a);
    ScaledSampleDiv(d, h, amax, xmax, top, a * k, a);
  }

  lemma ScaledSampleDiv(d: int, h: int, amax: int, xmax: int, top: int, ak: int, a: int)
    requires d == 2 * h && h >= 1 && 1 <= amax < d && xmax >= 0 && top == d * xmax
    requires 0 <= a <= amax && 0 <= ak && 2 * ak <= 2 * top + a
    requires a == amax ==> 2 * ak >= 2 * top - amax
    ensures 0 <= (ak + h) / d <= xmax
    ensures ak == 0 ==> (ak + h) / d == 0
    ensures a == amax ==> (ak + h) / d == xmax
  {
    DivAtLeast(ak + h, d, 0);
    DivAtMost(ak + h, d, xmax);
    if a == amax {
      DivAtLeast(ak + h, d, xmax);
    }
    if ak == 0 {
      DivIs(h, d, 0);
    }
  }

  /** The converted value of one sample, `ibits` to `obits` wide. */
  function Rescaled(shift: nat, ibits: nat, obits: nat, a: int): (r: int)
    requires shift >= 1
  {
    Shr(a * DepthGain(shift, ibits, obits) + Pow2(shift - 1), shift)
  }

  lemma RescaledRange(shift: nat, ibits: nat, obits: nat, a: int)
    requires 1 <= ibits <= shift && 1 <= obits
    requires 0 <= a <= MaxCode(ibits)
    ensures 0 <= Rescaled(shift, ibits, obits, a) <= MaxCode(obits)
    ensures a == 0 ==> Rescaled(shift, ibits, obits, a) == 0
    ensures a == MaxCode(ibits) ==> Rescaled(shift, ibits, obits, a) == MaxCode(obits)
  {
    Pow2Monotone(1, ibits);
    Pow2Monotone(ibits, shift);
    RoundedDivNearest(Pow2(shift) * MaxCode(obits), MaxCode(ibits));
    ScaledSample(Pow2(shift), Pow2(shift - 1), MaxCode(ibits), MaxCode(obits), Pow2(shift) * MaxCode(obits),
                 DepthGain(shift, ibits, obits), a);
  }

  lemma RescaledMonotone(shift: nat, ibits: nat, obits: nat, a: int, b: int)
    requires 1 <= ibits <= shift && 1 <= obits
    requires a <= b
    ensures Rescaled(shift, ibits, obits, a) <= Rescaled(shift, ibits, obits, b)
  {
    Pow2Monotone(1, ibits);
    MulNonNeg(Pow2(shift), MaxCode(obits));
    RoundedDivNearest(Pow2(shift) * MaxCode(obits), MaxCode(ibits));
    var k := DepthGain(shift, ibits, obits);
    MulLe(k, a, b);
    DivMonotone(a * k + Pow2(shift - 1), b * k + Pow2(shift - 1), Pow2(shift));
  }

  lemma VectorIsRescaled(abits: nat, bbits: nat, cbits: nat, xbits: nat, ybits: nat, zbits: nat, a: int, b: int, c: int)
    requires abits >= 1 && bbits >= 1 && cbits >= 1
    ensures var shift := Max3(abits, bbits, cbits);
            ApplyVector(Abc2xyzMatrix(abits, bbits, cbits, xbits, ybits, zbits), a, b, c)
            == (Rescaled(shift, abits, xbits, a), Rescaled(shift, bbits, ybits, b), Rescaled(shift, cbits, zbits, c))
  {
    hide DepthGain, Pow2, Shr;
  }

  /** `ApplyVector` needs no bounding: every in-range sample converts in range, whatever the six depths,
      and black and peak code map to black and peak code. */
  lemma DepthConversion(abits: nat, bbits: nat, cbits: nat, xbits: nat, ybits: nat, zbits: nat, a: int, b: int, c: int)
    requires abits >= 1 && bbits >= 1 && cbits >= 1 && xbits >= 1 && ybits >= 1 && zbits >= 1
    requires 0 <= a <= MaxCode(abits) && 0 <= b <= MaxCode(bbits) && 0 <= c <= MaxCode(cbits)
    ensures var r := ApplyVector(Abc2xyzMatrix(abits, bbits, cbits, xbits, ybits, zbits), a, b, c);
            && 0 <= r.0 <= MaxCode(xbits) && 0 <= r.1 <= MaxCode(ybits) && 0 <= r.2 <= MaxCode(zbits)
            && (a == 0 ==> r.0 == 0) && (a == MaxCode(abits) ==> r.0 == MaxCode(xbits))
            && (b == 0 ==> r.1 == 0) && (b == MaxCode(bbits) ==> r.1 == MaxCode(ybits))
            && (c == 0 ==> r.2 == 0) && (c == MaxCode(cbits) ==> r.2 == MaxCode(zbits))
  {
    hide Rescaled, ApplyVector, Abc2xyzMatrix, MaxCode;
    var shift := Max3(abits, bbits, cbits);
    VectorIsRescaled(abits, bbits, cbits, xbits, ybits, zbits, a, b, c);
    RescaledRange(shift, abits, xbits, a);
    RescaledRange(shift, bbits, ybits, b);
    RescaledRange(shift, cbits, zbits, c);
  }

  /** Depth conversion keeps the order of samples on every channel. */
  lemma DepthConversionMonotone(abits: nat, bbits: nat, cbits: nat, xbits: nat, ybits: nat, zbits: nat,
                                a: int, b: int, c: int, a': int, b': int, c': int)
    requires abits >= 1 && bbits >= 1 && cbits >= 1 && xbits >= 1 && ybits >= 1 && zbits >= 1
    requires a <= a' && b <= b' && c <= c'
    ensures var m := Abc2xyzMatrix(abits, bbits, cbits, xbits, ybits, zbits);
            var r, r' := ApplyVector(m, a, b, c), ApplyVector(m, a', b', c');
            r.0 <= r'.0 && r.1 <= r'.1 && r.2 <= r'.2
  {
    hide Rescaled, ApplyVector, Abc2xyzMatrix;
    var shift := Max3(abits, bbits, cbits);
    VectorIsRescaled(abits, bbits, cbits, xbits, ybits, zbits, a, b, c);
    VectorIsRescaled(abits, bbits, cbits, xbits, ybits, zbits, a', b', c');
    RescaledMonotone(shift, abits, xbits, a, a');
    RescaledMonotone(shift, bbits, ybits, b, b');
    RescaledMonotone(shift, cbits, zbits, c, c');
  }

  /** Between equal depths the diagonal form is the identity. */
  lemma SameDepthIdentity(bits: nat, a: int)
    requires bits >= 1
    ensures Rescaled(bits, bits, bits, a) == a
  {
    Pow2Monotone(1, bits);
    RoundedDivExact(Pow2(bits), MaxCode(bits));
    DivIs(a * Pow2(bits) + Pow2(bits - 1), Pow2(bits), a);
  }

  /** Rounding the narrowing gain: from `m` codes back to `n` the gain is exactly `n` once `m > 2 * n`. */
  lemma NarrowingGain(n: int, m: int)
    requires n >= 1 && m > 2 * n
    ensures RoundedDiv((m + 1) * n, m) == n
  {
    var k := RoundedDiv((m + 1) * n, m);
    RoundedDivNearest((m + 1) * n, m);
    assert m * k - (m + 1) * n == m * (k - n) - n;
    if k >= n + 1 {
      MulLe(m, 1, k - n);
    } else if k <= n - 1 {
      MulLe(m, k - n, -1);
    }
  }

  /** Products used below, as facts about named quantities. */
  lemma WideningProducts(unit: int, n: int, j: int, q: int, a: int, t: int)
    requires n == unit - 1 && a >= 0
    requires -n <= 2 * (n * q - unit * (j - 1)) <= n
    ensures var x, an, au, auj := a * q * n, a * n, a * unit, a * unit * j;
            && 2 * (auj - au) - an <= 2 * x <= 2 * (auj - au) + an
            && au == an + a
            && unit * (t * n - a * j) == unit * t * n - auj
  {
    var gain, exact := n * q, unit * (j - 1);
    MulLe(a, 2 * gain, 2 * exact + n);
    MulLe(a, 2 * exact - n, 2 * gain);
    Distribute(unit, n, j, q, a, t);
  }

  lemma Distribute(unit: int, n: int, j: int, q: int, a: int, t: int)
    ensures a * (2 * (n * q)) == 2 * (a * q * n)
    ensures a * (2 * (unit * (j - 1)) + n) == 2 * (a * unit * j - a * unit) + a * n
    ensures a * (2 * (unit * (j - 1)) - n) == 2 * (a * unit * j - a * unit) - a * n
    ensures a * (unit - 1) == a * unit - a
    ensures unit * (t * n - a * j) == unit * t * n - a * unit * j
  {
  }

  /** How far `v * n` lies from `a` whole steps, when `v` is `a` widened from `unit` to `unit * j` codes:
      `q` is the part of the widening gain above `unit * j`, `t` the part of `v` above `a * j`. */
  lemma WideningError(unit: int, h: int, n: int, j: int, q: int, a: int, t: int)
    requires unit == 2 * h && h >= 1 && n == unit - 1 && 0 <= a <= n
    requires j == 2 || j >= 4
    requires -n <= 2 * (n * q - unit * (j - 1)) <= n
    requires n == 1 || n >= 3
    requires t == (a * q + h) / unit
    ensures -(h * j) <= t * n - a * j < h * j
  {
    DivBounds(a * q + h, unit);
    UpperWideningError(unit, h, n, j, q, a, t);
    if j == 2 {
      LowerWideningErrorDouble(unit, h, n, q, a, t);
    } else {
      LowerWideningError(unit, h, n, j, q, a, t);
    }
  }

  lemma UpperWideningError(unit: int, h: int, n: int, j: int, q: int, a: int, t: int)
    requires unit == 2 * h && h >= 1 && n == unit - 1 && 0 <= a <= n && j >= 2
    requires -n <= 2 * (n * q - unit * (j - 1)) <= n
    requires unit * t <= a * q + h
    ensures t * n - a * j < h * j
  {
    var e := t * n - a * j;
    WideningProducts(unit, n, j, q, a, t);
    MulLe(n, unit * t, a * q + h);
    MulNonNeg(a, n);
    assert unit * e <= h * n by { ScaledUpper(n, unit * t, a * q, h, a * unit * j, a * unit, a * n, unit * e); }
    UpperFromScaled(unit, h, n, j, e);
  }

  lemma ScaledUpper(n: int, ut: int, aq: int, h: int, auj: int, au: int, an: int, ue: int)
    requires n * ut <= n * (aq + h)
    requires 2 * (aq * n) <= 2 * (auj - au) + an && au >= an >= 0
    requires ue == ut * n - auj
    ensures ue <= h * n
  {
    assert n * (aq + h) == aq * n + h * n;
    assert n * ut == ut * n;
  }

  lemma UpperFromScaled(unit: int, h: int, n: int, j: int, e: int)
    requires h >= 1 && n == unit - 1 && j >= 1 && unit >= 1 && unit * e <= h * n
    ensures e < h * j
  {
    assert h * n == unit * h - h;
    if e >= h {
      MulLe(unit, h, e);
    }
    MulLe(h, 1, j);
  }

  lemma LowerWideningError(unit: int, h: int, n: int, j: int, q: int, a: int, t: int)
    requires unit == 2 * h && h >= 1 && n == unit - 1 && 0 <= a <= n && j >= 4
    requires -n <= 2 * (n * q - unit * (j - 1)) <= n
    requires a * q + h < unit * t + unit
    ensures -(h * j) <= t * n - a * j
  {
    var e := t * n - a * j;
    WideningProducts(unit, n, j, q, a, t);
    MulLe(n, a * q - h, unit * t);
    assert 2 * (unit * e) >= -2 * (a * unit) - a * n - 2 * (h * n) by {
      ScaledLower(n, unit * t, a * q, h, a * unit * j, a * unit, a * n, unit * e);
    }
    MulLe(unit, a, unit);
    MulLe(a, n, unit);
    MulLe(h, n, unit);
    LowerFromScaled(unit, h, j, e);
  }

  lemma ScaledLower(n: int, ut: int, aq: int, h: int, auj: int, au: int, an: int, ue: int)
    requires n * (aq - h) <= n * ut
    requires 2 * (aq * n) >= 2 * (auj - au) - an
    requires ue == ut * n - auj
    ensures 2 * ue >= -2 * au - an - 2 * (h * n)
  {
    assert n * (aq - h) == aq * n - h * n;
    assert n * ut == ut * n;
  }

  lemma LowerFromScaled(unit: int, h: int, j: int, e: int)
    requires unit == 2 * h && h >= 1 && j >= 4
    requires 2 * (unit * e) >= -3 * (unit * unit) - 2 * (h * unit)
    ensures -(h * j) <= e
  {
    assert unit * unit == 4 * (h * h) && h * unit == 2 * (h * h) && unit * e == 2 * (h * e);
    assert 4 * (h * e) >= -16 * (h * h);
    assert h * (-4 * h) == -4 * (h * h);
    MulCancelLe(h, -4 * h, e);
    MulLe(h, 4, j);
  }

  lemma LowerWideningErrorDouble(unit: int, h: int, n: int, q: int, a: int, t: int)
    requires unit == 2 * h && h >= 1 && n == unit - 1 && 0 <= a <= n
    requires n == 1 || n >= 3
    requires -n <= 2 * (n * q - unit) <= n
    requires t == (a * q + h) / unit
    ensures -(h * 2) <= t * n - a * 2
  {
    if n == 1 {
      assert q == 2;
      assert a == 0 || a == 1;
      assert (a * 2 + 1) / 2 == a;
    } else {
      assert q == 1 by {
        if q >= 2 { MulLe(n, 2, q); } else if q <= 0 { MulLe(n, q, 0); }
      }
      if a < h {
        DivIs(a + h, unit, 0);
      } else {
        DivIs(a + h, unit, 1);
      }
    }
  }

  lemma {:induction false} WidenNarrowCodes(unit: int, h: int, j: int, k1: int, a: int)
    requires unit == 2 * h && h >= 1 && (j == 2 || j >= 4) && 0 <= a < unit
    requires unit == 2 || unit >= 4
    requires -(unit - 1) <= 2 * ((unit - 1) * k1 - unit * (unit * j - 1)) <= unit - 1
    ensures ((a * k1 + h) / unit * (unit - 1) + h * j) / (unit * j) == a
  {
    var q := k1 - unit * j;
    ExcessGain(unit, j, q);
    var t := (a * q + h) / unit;
    WideningError(unit, h, unit - 1, j, q, a, t);
    WidenedIs(unit, h, j, q, a, t);
    NarrowedIs(unit, h, j, a, t);
  }

  lemma ExcessGain(unit: int, j: int, q: int)
    ensures (unit - 1) * (q + unit * j) - unit * (unit * j - 1) == (unit - 1) * q - unit * (j - 1)
  {
  }

  lemma WidenedIs(unit: int, h: int, j: int, q: int, a: int, t: int)
    requires unit > 0 && t == (a * q + h) / unit
    ensures (a * (q + unit * j) + h) / unit == a * j + t
  {
    var x := a * q + h;
    DivBounds(x, unit);
    assert a * (q + unit * j) + h == x + unit * (a * j);
    assert unit * (a * j + t) == unit * (a * j) + unit * t;
    DivIs(x + unit * (a * j), unit, a * j + t);
  }

  lemma NarrowedIs(unit: int, h: int, j: int, a: int, t: int)
    requires unit == 2 * h && h >= 1 && j >= 1
    requires -(h * j) <= t * (unit - 1) - a * j < h * j
    ensures ((a * j + t) * (unit - 1) + h * j) / (unit * j) == a
  {
    var e := t * (unit - 1) - a * j;
    assert (a * j + t) * (unit - 1) == unit * j * a + e;
    assert unit * j == 2 * (h * j);
    MulLe(h, 1, j);
    DivIs(unit * j * a + e + h * j, unit * j, a);
  }

  /** Widening a sample from `n` to `m >= n` bits and narrowing it back returns it unchanged. */
  lemma WidenNarrow(n: nat, m: nat, a: int)
    requires 1 <= n <= m
    requires 0 <= a <= MaxCode(n)
    ensures Rescaled(m, m, n, Rescaled(n, n, m, a)) == a
  {
    hide RoundedDiv, Rescaled, DepthGain;
    if n == m {
      SameDepthIdentity(n, a);
    } else {
      WidenNarrowUnequal(n, m, a);
    }
  }

  lemma WidenNarrowUnequal(n: nat, m: nat, a: int)
    requires 1 <= n < m && 0 <= a < Pow2(n)
    ensures Rescaled(m, m, n, Rescaled(n, n, m, a)) == a
  {
    hide RoundedDiv, Rescaled, DepthGain, Pow2;
    WideningUnits(n, m);
    WideningGain(n, m);
    NarrowingDepthGain(n, m);
    var num, den := Pow2(n) * (Pow2(m) - 1), Pow2(n) - 1;
    RoundedDivNearest(num, den);
    RescaledCode(n, n, m, a);
    RescaledCode(m, m, n, Rescaled(n, n, m, a));
    NamedCodes(Pow2(n), Pow2(n - 1), Pow2(m - n), DepthGain(n, n, m), a, den, num, Rescaled(n, n, m, a), Pow2(m),
               Pow2(m - 1));
  }

  lemma NamedCodes(unit: int, h: int, j: int, k1: int, a: int, den: int, num: int, w: int, big: int, half: int)
    requires unit == 2 * h && h >= 1 && (j == 2 || j >= 4) && 0 <= a < unit && (unit == 2 || unit >= 4)
    requires den == unit - 1 && big == unit * j && num == unit * (big - 1) && half == h * j && w == (a * k1 + h) / unit
    requires -den <= 2 * (den * k1 - num) <= den
    ensures big != 0 && (w * den + half) / big == a
  {
    MulLe(j, 1, unit);
    WidenNarrowCodes(unit, h, j, k1, a);
  }

  lemma RescaledCode(shift: nat, ibits: nat, obits: nat, a: int)
    requires shift >= 1
    ensures Rescaled(shift, ibits, obits, a) == (a * DepthGain(shift, ibits, obits) + Pow2(shift - 1)) / Pow2(shift)
  {
    hide DepthGain;
  }

  lemma WideningGain(n: nat, m: nat)
    requires 1 <= n < m
    ensures Pow2(n) > 1 && DepthGain(n, n, m) == RoundedDiv(Pow2(n) * (Pow2(m) - 1), Pow2(n) - 1)
  {
    hide RoundedDiv;
    WideningUnits(n, m);
  }

  lemma NarrowingDepthGain(n: nat, m: nat)
    requires 1 <= n < m
    ensures DepthGain(m, m, n) == MaxCode(n)
  {
    hide RoundedDiv;
    WideningUnits(n, m);
    MulLe(Pow2(n), 2, Pow2(m - n));
    NarrowingGain(MaxCode(n), MaxCode(m));
  }

  lemma WideningUnits(n: nat, m: nat)
    requires 1 <= n < m
    ensures Pow2(n) == 2 * Pow2(n - 1) && (Pow2(n) == 2 || Pow2(n) >= 4)
    ensures Pow2(m - n) == 2 || Pow2(m - n) >= 4
    ensures Pow2(m) == Pow2(n) * Pow2(m - n)
    ensures Pow2(m - 1) == Pow2(n - 1) * Pow2(m - n)
  {
    Pow2Add(n, m - n);
    Pow2Add(n - 1, m - n);
    assert Pow2(2) == 4 && Pow2(1) == 2;
    if n >= 2 { Pow2Monotone(2, n); }
    if m - n >= 2 { Pow2Monotone(2, m - n); }
  }

  // ----- RGB to YUV: the bounding step never moves a value by more than one code -----

  lemma LumaTerm(d: int, diff: int, w: int, div: int, cmax: int, c: int)
    requires d >= 1 && diff >= 0 && w >= 0 && div > 0 && cmax >= 1 && 0 <= c <= cmax
    ensures c * LumaGain(d, diff, w, div, cmax) >= 0
    ensures 2 * (div * (c * LumaGain(d, diff, w, div, cmax))) <= 2 * (d * diff * w) + div * c
  {
    var k := LumaGain(d, diff, w, div, cmax);
    MulNonNeg(d, diff);
    MulNonNeg(d * diff, w);
    MulLe(div, 1, cmax);
    RoundedDivNearest(d * diff * w, div * cmax);
    MulNonNeg(c, k);
    GainTerm(div, cmax, d * diff * w, k, c);
  }

  lemma ChromaTerm(d: int, diff: int, w: int, cmax: int, wPeak: int, c: int)
    requires d >= 1 && diff >= 0 && w >= 0 && wPeak > 0 && cmax >= 1 && 0 <= c <= cmax
    ensures c * ChromaGain(d, diff, -w, cmax, wPeak) <= 0
    ensures 2 * (wPeak * (c * -ChromaGain(d, diff, -w, cmax, wPeak))) <= d * diff * w + wPeak * c
  {
    var k := ChromaGain(d, diff, -w, cmax, wPeak);
    var n := d * diff * w;
    MulNonNeg(d, diff);
    MulNonNeg(d * diff, w);
    assert d * diff * -w == -n;
    MulLe(wPeak, 1, cmax);
    assert 2 * cmax * wPeak == (2 * wPeak) * cmax;
    RoundedDivNearest(-n, 2 * cmax * wPeak);
    assert (2 * wPeak) * cmax * -k == -((2 * wPeak) * cmax * k);
    MulNonNeg(c, -k);
    GainTerm(2 * wPeak, cmax, n, -k, c);
    assert 2 * ((2 * wPeak) * (c * -k)) == 4 * (wPeak * (c * -k));
  }

  lemma PeakTerm(d: int, diff: int, cmax: int, c: int)
    requires d >= 1 && diff >= 0 && cmax >= 1 && 0 <= c <= cmax
    ensures 0 <= 2 * (c * ChromaPeakGain(d, diff, cmax)) <= d * diff + c
  {
    var k := ChromaPeakGain(d, diff, cmax);
    MulNonNeg(d, diff);
    RoundedDivNearest(d * diff, 2 * cmax);
    MulNonNeg(c, k);
    assert 2 * (2 * cmax * k) == 4 * (cmax * k);
    GainTerm(2, cmax, d * diff, k, c);
  }

  /** From the sum of gain terms to the raw code: luma. */
  lemma LumaCode(d: int, h: int, lo: int, hi: int, s: int, c: int)
    requires d == 2 * h && h >= 1 && 0 <= s && c < 3 * d
    requires 2 * s <= 2 * (d * hi - d * lo) + c
    ensures lo <= (s + (h + d * lo)) / d <= hi + 1
  {
    DivAtLeast(s + (h + d * lo), d, lo);
    DivAtMost(s + (h + d * lo), d, hi + 1);
  }

  /** From the sum of gain terms to the raw code: chroma. */
  lemma ChromaCode(d: int, h: int, lo: int, hi: int, s: int, c: int, cPeak: int)
    requires d == 2 * h && h >= 1 && c < 2 * d && cPeak < d
    requires -(d * hi - d * lo) - c <= 2 * s <= d * hi - d * lo + cPeak
    ensures lo - 1 <= (s + (h + h * (lo + hi))) / d <= hi
  {
    var x := s + (h + h * (lo + hi));
    assert 2 * (h * (lo + hi)) == d * lo + d * hi;
    assert d * (lo - 1) == d * lo - d;
    DivAtLeast(x, d, lo - 1);
    DivAtMost(x, d, hi);
  }

  lemma LumaRawRange(d: int, h: int, y: Limits, c: RbConstants, rmax: int, gmax: int, bmax: int, r: int, g: int, b: int)
    requires d == 2 * h && h >= 1 && y.lo <= y.hi
    requires c.div == 10000 && c.kr > 0 && c.kb > 0 && c.kr + c.kb < c.div
    requires 1 <= rmax < d && 1 <= gmax < d && 1 <= bmax < d
    requires 0 <= r <= rmax && 0 <= g <= gmax && 0 <= b <= bmax
    ensures var dy := y.hi - y.lo;
            y.lo <= (r * LumaGain(d, dy, c.kr, c.div, rmax) + g * LumaGain(d, dy, c.div - c.kr - c.kb, c.div, gmax)
                     + b * LumaGain(d, dy, c.kb, c.div, bmax) + LumaOffset(d, h, y)) / d <= y.hi + 1
  {
    hide LumaGain;
    var s := LumaTerms(d, y, c, rmax, gmax, bmax, r, g, b);
    LumaCode(d, h, y.lo, y.hi, s, r + g + b);
  }

  /** The three gain terms together. */
  lemma LumaTerms(d: int, y: Limits, c: RbConstants, rmax: int, gmax: int, bmax: int, r: int, g: int, b: int)
      returns (s: int)
    requires d >= 1 && y.lo <= y.hi && c.div == 10000 && c.kr > 0 && c.kb > 0 && c.kr + c.kb < c.div
    requires rmax >= 1 && gmax >= 1 && bmax >= 1 && 0 <= r <= rmax && 0 <= g <= gmax && 0 <= b <= bmax
    ensures var dy := y.hi - y.lo;
            s == r * LumaGain(d, dy, c.kr, c.div, rmax) + g * LumaGain(d, dy, c.div - c.kr - c.kb, c.div, gmax)
                 + b * LumaGain(d, dy, c.kb, c.div, bmax)
    ensures 0 <= s && 2 * s <= 2 * (d * y.hi - d * y.lo) + (r + g + b)
  {
    hide LumaGain;
    var dy, kg := y.hi - y.lo, c.div - c.kr - c.kb;
    var tr, tg, tb := r * LumaGain(d, dy, c.kr, c.div, rmax), g * LumaGain(d, dy, kg, c.div, gmax),
                      b * LumaGain(d, dy, c.kb, c.div, bmax);
    LumaTerm(d, dy, c.kr, c.div, rmax, r);
    LumaTerm(d, dy, kg, c.div, gmax, g);
    LumaTerm(d, dy, c.kb, c.div, bmax, b);
    LumaSum(d * dy, c.kr, kg, c.kb, tr, tg, tb, r, g, b);
    SpreadOfRange(d, y.lo, y.hi);
    s := tr + tg + tb;
  }

  lemma LumaSum(range: int, kr: int, kg: int, kb: int, tr: int, tg: int, tb: int, r: int, g: int, b: int)
    requires kr + kg + kb == 10000
    requires 2 * (10000 * tr) <= 2 * (range * kr) + 10000 * r
    requires 2 * (10000 * tg) <= 2 * (range * kg) + 10000 * g
    requires 2 * (10000 * tb) <= 2 * (range * kb) + 10000 * b
    ensures 2 * (tr + tg + tb) <= 2 * range + (r + g + b)
  {
    assert range * kr + range * kg + range * kb == range * 10000;
  }

  /** A chroma channel: two negative gains of weights `w1 + w2 == wPeak` and one peak gain. */
  lemma ChromaRawRange(d: int, h: int, u: Limits, w1: int, w2: int, wPeak: int,
                       cmax1: int, cmax2: int, cmaxPeak: int, c1: int, c2: int, cPeak: int)
    requires d == 2 * h && h >= 1 && u.lo <= u.hi && 0 <= u.lo
    requires w1 >= 0 && w2 >= 0 && wPeak > 0 && w1 + w2 == wPeak
    requires 1 <= cmax1 < d && 1 <= cmax2 < d && 1 <= cmaxPeak < d
    requires 0 <= c1 <= cmax1 && 0 <= c2 <= cmax2 && 0 <= cPeak <= cmaxPeak
    ensures var du := u.hi - u.lo;
            u.lo - 1 <= (c1 * ChromaGain(d, du, -w1, cmax1, wPeak) + c2 * ChromaGain(d, du, -w2, cmax2, wPeak)
                         + cPeak * ChromaPeakGain(d, du, cmaxPeak) + ChromaOffset(d, h, u)) / d <= u.hi
  {
    hide ChromaGain, ChromaPeakGain, ChromaOffset;
    var du := u.hi - u.lo;
    var g1, g2, g3 := ChromaGain(d, du, -w1, cmax1, wPeak), ChromaGain(d, du, -w2, cmax2, wPeak),
        ChromaPeakGain(d, du, cmaxPeak);
    ChromaTerm(d, du, w1, cmax1, wPeak, c1);
    ChromaTerm(d, du, w2, cmax2, wPeak, c2);
    PeakTerm(d, du, cmaxPeak, cPeak);
    ChromaOffsetIs(d, h, u);
    NegatedTerm(c1, g1);
    NegatedTerm(c2, g2);
    ChromaSum(d * du, w1, w2, wPeak, c1 * g1, c2 * g2, c1, c2);
    SpreadOfRange(d, u.lo, u.hi);
    ChromaCode(d, h, u.lo, u.hi, c1 * g1 + c2 * g2 + cPeak * g3, c1 + c2, cPeak);
  }

  lemma NegatedTerm(c: int, g: int)
    ensures c * -g == -(c * g)
  {
  }

  lemma SpreadOfRange(d: int, lo: int, hi: int)
    ensures d * (hi - lo) == d * hi - d * lo
  {
  }

  lemma ChromaSum(range: int, w1: int, w2: int, wPeak: int, s1: int, s2: int, c1: int, c2: int)
    requires wPeak > 0 && w1 + w2 == wPeak
    requires 2 * (wPeak * -s1) <= range * w1 + wPeak * c1
    requires 2 * (wPeak * -s2) <= range * w2 + wPeak * c2
    ensures 2 * -(s1 + s2) <= range + (c1 + c2)
  {
    assert range * w1 + range * w2 == range * wPeak;
    assert wPeak * (2 * -(s1 + s2)) == 2 * (wPeak * -s1) + 2 * (wPeak * -s2);
    assert wPeak * (range + (c1 + c2)) == range * wPeak + wPeak * c1 + wPeak * c2;
    MulCancelLe(wPeak, 2 * -(s1 + s2), range + (c1 + c2));
  }

  lemma ChromaOffsetIs(d: int, h: int, u: Limits)
    requires d == 2 * h && h >= 1 && 0 <= u.lo + u.hi
    ensures ChromaOffset(d, h, u) == h + h * (u.lo + u.hi)
  {
    MulNonNeg(d, u.lo + u.hi);
    assert d * (u.lo + u.hi) == 2 * (h * (u.lo + u.hi));
  }

  /** The three raw values of an RGB sample, spelled out. */
  lemma Rgb2YuvRawIs(space: YuvColorSpace, y: Limits, u: Limits, v: Limits, shift: nat,
                     h: int, rmax: int, gmax: int, bmax: int, r: int, g: int, b: int)
    ensures var m := Rgb2YuvRows(space, y, u, v, shift, h, rmax, gmax, bmax);
            var c, d := RbConstantsOf(space), Pow2(shift);
            var kg, kub, kvr := c.div - c.kr - c.kb, c.div - c.kb, c.div - c.kr;
            var dy, du, dv := y.hi - y.lo, u.hi - u.lo, v.hi - v.lo;
            && Raw(m.x, m.shift, r, g, b)
               == (r * LumaGain(d, dy, c.kr, c.div, rmax) + g * LumaGain(d, dy, kg, c.div, gmax)
                   + b * LumaGain(d, dy, c.kb, c.div, bmax) + LumaOffset(d, h, y)) / d
            && Raw(m.y, m.shift, r, g, b)
               == (r * ChromaGain(d, du, -c.kr, rmax, kub) + g * ChromaGain(d, du, -kg, gmax, kub)
                   + b * ChromaPeakGain(d, du, bmax) + ChromaOffset(d, h, u)) / d
            && Raw(m.z, m.shift, r, g, b)
               == (g * ChromaGain(d, dv, -kg, gmax, kvr) + b * ChromaGain(d, dv, -c.kb, bmax, kvr)
                   + r * ChromaPeakGain(d, dv, rmax) + ChromaOffset(d, h, v)) / d
            && m.xLimits == y && m.yLimits == u && m.zLimits == v && m.shift == shift
  {
    hide LumaGain, ChromaGain, ChromaPeakGain, LumaOffset, ChromaOffset, RbConstantsOf, Pow2, Raw;
    var m := Rgb2YuvRows(space, y, u, v, shift, h, rmax, gmax, bmax);
    RawIs(m.x, shift, r, g, b);
    RawIs(m.y, shift, r, g, b);
    RawIs(m.z, shift, r, g, b);
  }

  lemma RawIs(row: Row, shift: nat, a: int, b: int, c: int)
    ensures Raw(row, shift, a, b, c) == (a * row.ka + b * row.kb + c * row.kc + row.offset) / Pow2(shift)
    ensures Raw(row, shift, a, b, c) == (b * row.kb + c * row.kc + a * row.ka + row.offset) / Pow2(shift)
  {
  }

  /** Before bounding, luma lies in [min, max + 1] and chroma in [min - 1, max], for every RGB sample. */
  lemma Rgb2YuvRawRange(space: YuvColorSpace, swing: YuvColorSpaceType,
                        rbits: nat, gbits: nat, bbits: nat, ybits: nat, ubits: nat, vbits: nat, r: int, g: int, b: int)
    requires rbits >= 1 && gbits >= 1 && bbits >= 1 && ybits >= 2 && ubits >= 2 && vbits >= 2
    requires 0 <= r <= MaxCode(rbits) && 0 <= g <= MaxCode(gbits) && 0 <= b <= MaxCode(bbits)
    ensures var m := Rgb2YuvMatrix(space, swing, rbits, gbits, bbits, ybits, ubits, vbits);
            && m.xLimits == LimitsY(ybits, swing)
            && m.yLimits == LimitsUV(ubits, swing)
            && m.zLimits == LimitsUV(vbits, swing)
            && m.xLimits.lo <= Raw(m.x, m.shift, r, g, b) <= m.xLimits.hi + 1
            && m.yLimits.lo - 1 <= Raw(m.y, m.shift, r, g, b) <= m.yLimits.hi
            && m.zLimits.lo - 1 <= Raw(m.z, m.shift, r, g, b) <= m.zLimits.hi
  {
    hide LumaGain, ChromaGain, ChromaPeakGain, LumaOffset, ChromaOffset, LimitsY, LimitsUV, RbConstantsOf, Raw,
      Rgb2YuvRows, Pow2, MaxCode;
    var c := RbConstantsOf(space);
    var shift := Max3(rbits, gbits, bbits);
    var y, u, v := LimitsY(ybits, swing), LimitsUV(ubits, swing), LimitsUV(vbits, swing);
    Rgb2YuvRawIs(space, y, u, v, shift, Pow2(shift - 1), MaxCode(rbits), MaxCode(gbits), MaxCode(bbits), r, g, b);
    CodesBelowUnit(rbits, shift);
    CodesBelowUnit(gbits, shift);
    CodesBelowUnit(bbits, shift);
    LimitsProper(ybits, swing);
    LimitsProper(ubits, swing);
    LimitsProper(vbits, swing);
    var d, h, kg := Pow2(shift), Pow2(shift - 1), c.div - c.kr - c.kb;
    LumaRawRange(d, h, y, c, MaxCode(rbits), MaxCode(gbits), MaxCode(bbits), r, g, b);
    ChromaRawRange(d, h, u, c.kr, kg, c.div - c.kb, MaxCode(rbits), MaxCode(gbits), MaxCode(bbits), r, g, b);
    ChromaRawRange(d, h, v, kg, c.kb, c.div - c.kr, MaxCode(gbits), MaxCode(bbits), MaxCode(rbits), g, b, r);
  }

  lemma CodesBelowUnit(bits: nat, shift: nat)
    requires 1 <= bits <= shift
    ensures 1 <= MaxCode(bits) < Pow2(shift) && Pow2(shift) == 2 * Pow2(shift - 1)
  {
    Pow2Monotone(1, bits);
    Pow2Monotone(bits, shift);
  }

  /** The three chroma gains of a grey input cancel up to one unit. */
  lemma GreyGainSum(d: int, diff: int, w1: int, w2: int, wPeak: int, cmax: int)
    requires d >= 1 && diff >= 0 && w1 >= 0 && w2 >= 0 && wPeak > 0 && w1 + w2 == wPeak && cmax >= 1
    ensures -1 <= ChromaGain(d, diff, -w1, cmax, wPeak) + ChromaGain(d, diff, -w2, cmax, wPeak)
                  + ChromaPeakGain(d, diff, cmax) <= 1
  {
    hide RoundedDiv;
    MulLe(wPeak, 1, cmax);
    RoundedDivNearest(d * diff * -w1, 2 * cmax * wPeak);
    RoundedDivNearest(d * diff * -w2, 2 * cmax * wPeak);
    RoundedDivNearest(d * diff, 2 * cmax);
    GreyGainCodes(2 * cmax, wPeak, d * diff, w1, w2, ChromaGain(d, diff, -w1, cmax, wPeak),
                  ChromaGain(d, diff, -w2, cmax, wPeak), ChromaPeakGain(d, diff, cmax));
  }

  lemma GreyGainCodes(den: int, wPeak: int, range: int, w1: int, w2: int, k1: int, k2: int, k3: int)
    requires den > 0 && wPeak > 0 && w1 + w2 == wPeak
    requires -(den * wPeak) <= 2 * (den * wPeak * k1 - range * -w1) <= den * wPeak
    requires -(den * wPeak) <= 2 * (den * wPeak * k2 - range * -w2) <= den * wPeak
    requires -den <= 2 * (den * k3 - range) <= den
    ensures -1 <= k1 + k2 + k3 <= 1
  {
    var e, s := den * wPeak, k1 + k2 + k3;
    MulLe(wPeak, 2 * (den * k3 - range), den);
    MulLe(wPeak, -den, 2 * (den * k3 - range));
    GreyGainExpand(den, wPeak, range, w1, w2, k1, k2, k3);
    assert -3 * e <= 2 * (e * s) <= 3 * e;
    MulLe(wPeak, 1, den);
    if s >= 2 {
      MulLe(e, 2, s);
    } else if s <= -2 {
      MulLe(e, s, -2);
    }
  }

  lemma GreyGainExpand(den: int, wPeak: int, range: int, w1: int, w2: int, k1: int, k2: int, k3: int)
    requires w1 + w2 == wPeak
    ensures wPeak * (2 * (den * k3 - range)) == 2 * (den * wPeak * k3 - range * wPeak)
    ensures wPeak * -den == -(den * wPeak) && wPeak * den == den * wPeak
    ensures range * -w1 + range * -w2 + range * wPeak == 0
    ensures den * wPeak * (k1 + k2 + k3) == den * wPeak * k1 + den * wPeak * k2 + den * wPeak * k3
  {
    assert range * (-w1 + -w2 + wPeak) == 0;
  }

  lemma GreyChroma(d: int, h: int, half: int, u: Limits, w1: int, w2: int, wPeak: int, cmax: int, v: int)
    requires d == 2 * h && h >= 1 && 0 <= u.lo < u.hi
    requires u.lo + u.hi == 2 * half || u.lo + u.hi == 2 * half - 1
    requires w1 >= 0 && w2 >= 0 && wPeak > 0 && w1 + w2 == wPeak && 0 <= v <= cmax < d && cmax >= 1
    ensures var du := u.hi - u.lo;
            half - 1 <= (v * ChromaGain(d, du, -w1, cmax, wPeak) + v * ChromaGain(d, du, -w2, cmax, wPeak)
                         + v * ChromaPeakGain(d, du, cmax) + ChromaOffset(d, h, u)) / d <= half + 1
  {
    hide ChromaGain, ChromaPeakGain, ChromaOffset;
    var du := u.hi - u.lo;
    var k1, k2 := ChromaGain(d, du, -w1, cmax, wPeak), ChromaGain(d, du, -w2, cmax, wPeak);
    var k3 := ChromaPeakGain(d, du, cmax);
    GreyGainSum(d, du, w1, w2, wPeak, cmax);
    ChromaOffsetIs(d, h, u);
    SumOfTerms(v, k1, k2, k3);
    GreyCode(d, h, half, u.lo + u.hi, k1 + k2 + k3, v);
  }

  lemma SumOfTerms(v: int, k1: int, k2: int, k3: int)
    ensures v * k1 + v * k2 + v * k3 == v * (k1 + k2 + k3)
  {
  }

  lemma GreyCode(d: int, h: int, half: int, sum: int, s: int, v: int)
    requires d == 2 * h && h >= 1 && 0 <= v < d && -1 <= s <= 1
    requires sum == 2 * half || sum == 2 * half - 1
    ensures half - 1 <= (v * s + (h + h * sum)) / d <= half + 1
  {
    var x := v * s + (h + h * sum);
    MulLe(v, s, 1);
    MulLe(v, -1, s);
    assert h * (2 * half) == d * half && h * (2 * half - 1) == d * half - h;
    assert d * (half - 1) == d * half - d;
    DivAtLeast(x, d, half - 1);
    DivAtMost(x, d, half + 1);
  }

  /** A grey pixel has both chroma codes within one of mid-scale, in every colour space, swing and depth. */
  lemma GreyIsNeutral(space: YuvColorSpace, swing: YuvColorSpaceType, bits: nat,
                      ybits: nat, ubits: nat, vbits: nat, g: int)
    requires bits >= 1 && ybits >= 2 && ubits >= 2 && vbits >= 2
    requires 0 <= g <= MaxCode(bits)
    ensures var p := ApplyMatrix(Rgb2YuvMatrix(space, swing, bits, bits, bits, ybits, ubits, vbits), g, g, g);
            && Pow2(ubits - 1) - 1 <= p.1 <= Pow2(ubits - 1) + 1
            && Pow2(vbits - 1) - 1 <= p.2 <= Pow2(vbits - 1) + 1
  {
    hide LumaGain, ChromaGain, ChromaPeakGain, LumaOffset, ChromaOffset, LimitsY, LimitsUV, RbConstantsOf, Raw;
    var c := RbConstantsOf(space);
    var d, h, cmax := Pow2(bits), Pow2(bits - 1), MaxCode(bits);
    var y, u, v := LimitsY(ybits, swing), LimitsUV(ubits, swing), LimitsUV(vbits, swing);
    Rgb2YuvRawIs(space, y, u, v, bits, h, cmax, cmax, cmax, g, g, g);
    CodesBelowUnit(bits, bits);
    ChromaCentre(ubits, swing);
    ChromaCentre(vbits, swing);
    var kg := c.div - c.kr - c.kb;
    GreyChroma(d, h, Pow2(ubits - 1), u, c.kr, kg, c.div - c.kb, cmax, g);
    GreyChroma(d, h, Pow2(vbits - 1), v, kg, c.kb, c.div - c.kr, cmax, g);
  }

  lemma ChromaCentre(bits: nat, swing: YuvColorSpaceType)
    requires bits >= 2
    ensures var u, half := LimitsUV(bits, swing), Pow2(bits - 1);
            0 <= u.lo < u.hi && u.lo + 1 <= half <= u.hi && (u.lo + u.hi == 2 * half || u.lo + u.hi == 2 * half - 1)
  {
    LimitsProper(bits, swing);
    Pow2Monotone(1, bits - 1);
  }

  // ----- YUV to RGB: neutral chroma gives an exact grey ramp -----

  /** The grey level of luma `y`, before bounding. */
  function GreyLevel(ybits: nat, shift: nat, bits: nat, y: int): (r: int)
    requires shift >= 1
  {
    var l := LimitsY(ybits, StudioSwing);
    Shr(InverseLumaGain(Pow2(shift), MaxCode(bits), l.hi - l.lo) * (y - l.lo) + Pow2(shift - 1), shift)
  }

  /** An even chroma bias is halved exactly, so it cancels the mid-scale chroma term. */
  lemma BiasCancels(k: int, u: Limits, half: int)
    requires u.lo + u.hi == 2 * half
    ensures ChromaBias(k, u) == 2 * (half * k)
  {
    assert k * (2 * half) == 2 * (half * k);
  }

  lemma QuotEven(n: int)
    ensures Quot(2 * n, 2) == n
  {
  }

  /** Studio swing, equal RGB depths: chroma at mid-scale gives R == G == B for every luma value. */
  lemma NeutralIsGrey(space: YuvColorSpace, ybits: nat, ubits: nat, vbits: nat, bits: nat, y: int)
    requires ybits >= 2 && ubits >= 2 && vbits >= 2
    ensures var m := Yuv2RgbMatrix(space, StudioSwing, ybits, ubits, vbits, bits, bits, bits);
            var g := Bound(0, GreyLevel(ybits, m.shift, bits, y), MaxCode(bits));
            ApplyMatrix(m, y, Pow2(ubits - 1), Pow2(vbits - 1)) == (g, g, g)
  {
    hide InverseLumaGain, InverseChromaGain, LimitsY, LimitsUV, RbConstantsOf, Pow2;
    var m := Yuv2RgbMatrix(space, StudioSwing, ybits, ubits, vbits, bits, bits, bits);
    var l, u, v := LimitsY(ybits, StudioSwing), LimitsUV(ubits, StudioSwing), LimitsUV(vbits, StudioSwing);
    LimitsProper(ubits, StudioSwing);
    LimitsProper(vbits, StudioSwing);
    var h, uHalf, vHalf := Pow2(m.shift - 1), Pow2(ubits - 1), Pow2(vbits - 1);
    NeutralRow(m.x.ka, 0, m.x.kc, h, l, u, v, uHalf, vHalf, y);
    NeutralRow(m.y.ka, m.y.kb, m.y.kc, h, l, u, v, uHalf, vHalf, y);
    NeutralRow(m.z.ka, m.z.kb, 0, h, l, u, v, uHalf, vHalf, y);
  }

  /** A row whose offset takes off the chroma bias sees only luma at mid-scale chroma. */
  lemma NeutralRow(k: int, ku: int, kv: int, h: int, l: Limits, u: Limits, v: Limits, uHalf: int, vHalf: int, y: int)
    requires u.lo + u.hi == 2 * uHalf && v.lo + v.hi == 2 * vHalf
    ensures Dot(Row(k, ku, kv, InverseOffset(h, k, l, ChromaBias(ku, u) + ChromaBias(kv, v))), y, uHalf, vHalf)
            == k * (y - l.lo) + h
  {
    BiasCancels(ku, u, uHalf);
    BiasCancels(kv, v, vHalf);
    QuotEven(uHalf * ku + vHalf * kv);
    assert y * k - k * l.lo == k * (y - l.lo);
  }

  /** The grey ramp is monotone in luma and runs exactly from 0 at the luma floor to the peak code at its ceiling. */
  lemma GreyRamp(ybits: nat, shift: nat, bits: nat, y: int, y': int)
    requires 2 <= ybits <= shift && bits >= 1 && y <= y'
    ensures GreyLevel(ybits, shift, bits, y) <= GreyLevel(ybits, shift, bits, y')
    ensures GreyLevel(ybits, shift, bits, LimitsY(ybits, StudioSwing).lo) == 0
    ensures GreyLevel(ybits, shift, bits, LimitsY(ybits, StudioSwing).hi) == MaxCode(bits)
  {
    hide RoundedDiv, LimitsY;
    var l := LimitsY(ybits, StudioSwing);
    LimitsProper(ybits, StudioSwing);
    CodesBelowUnit(ybits, shift);
    var d, h, diff, top := Pow2(shift), Pow2(shift - 1), l.hi - l.lo, MaxCode(bits);
    MulNonNeg(d, top);
    RoundedDivNearest(d * top, diff);
    GreyRampCodes(d, h, diff, top, InverseLumaGain(d, top, diff), y - l.lo, y' - l.lo);
  }

  lemma GreyRampCodes(d: int, h: int, diff: int, top: int, k: int, a: int, a': int)
    requires d == 2 * h && h >= 1 && 1 <= diff < d && top >= 0 && k >= 0 && a <= a'
    requires -diff <= 2 * (diff * k - d * top) <= diff
    ensures (k * a + h) / d <= (k * a' + h) / d
    ensures (k * 0 + h) / d == 0 && (k * diff + h) / d == top
  {
    MulLe(k, a, a');
    DivMonotone(k * a + h, k * a' + h, d);
    ScaledSample(d, h, diff, top, d * top, k, 0);
    ScaledSample(d, h, diff, top, d * top, k, diff);
  }

  // ----- In full swing the chroma range has no middle code -----

  /** A row at mid-scale chroma: the bias takes off half a gain too little. */
  lemma HalfTooLittle(k: int, h: int)
    requires h >= 1
    ensures h * k - Quot(k * (2 * h - 1), 2) == if k >= 0 then (k + 1) / 2 else -((1 - k) / 2)
  {
    assert k * (2 * h - 1) == 2 * (h * k) - k;
    if k >= 0 {
      MulNonNeg(k, 2 * h - 1);
    } else {
      MulNonNeg(-k, 2 * h - 1);
    }
    HalfLess(h * k, k);
  }

  lemma HalfLess(n: int, k: int)
    requires if k >= 0 then 2 * n - k >= 0 else 2 * n - k <= 0
    ensures n - Quot(2 * n - k, 2) == if k >= 0 then (k + 1) / 2 else -((1 - k) / 2)
  {
  }

  /** Range over range cancels: the gain is a nearest integer to `2 * d * w / den`. */
  lemma FullChromaGain(d: int, top: int, w: int, den: int) returns (k: int)
    requires top >= 1 && den >= 1
    ensures k == InverseChromaGain(d, top, w, den * top) && -den <= 2 * (den * k - 2 * d * w) <= den
  {
    hide RoundedDiv;
    k := InverseChromaGain(d, top, w, den * top);
    MulLe(den, 1, top);
    RoundedDivNearest(2 * d * top * w, den * top);
    FactorOut(d, top, w);
    CancelRange(den, top, k, 2 * d * w);
  }

  lemma FactorOut(d: int, top: int, w: int)
    ensures 2 * d * top * w == top * (2 * d * w)
  {
  }

  lemma CancelRange(den: int, top: int, k: int, n: int)
    requires top >= 1 && -(den * top) <= 2 * (den * top * k - top * n) <= den * top
    ensures -den <= 2 * (den * k - n) <= den
  {
    assert den * top * k == top * (den * k);
    MulCancelLe(top, 2 * (den * k - n), den);
    MulCancelLe(top, -den, 2 * (den * k - n));
  }

  lemma FullLumaGain(d: int, top: int)
    requires top >= 1
    ensures InverseLumaGain(d, top, top) == d
  {
    RoundedDivExact(d, top);
    assert d * top == top * d;
  }

  lemma FullLimits(bits: nat)
    ensures LimitsY(bits, FullSwing) == Limits(0, MaxCode(bits))
            && LimitsUV(bits, FullSwing) == Limits(0, MaxCode(bits))
  {
  }

  /** The gains of the full-swing matrix at equal depths, per colour space. */
  lemma FullGains(space: YuvColorSpace, bits: nat) returns (krv: int, kgu: int, kgv: int, kbu: int)
    requires bits >= 2
    ensures var m, d, h, top := Yuv2RgbMatrix(space, FullSwing, bits, bits, bits, bits, bits, bits), Pow2(bits),
            Pow2(bits - 1), MaxCode(bits);
            && m.x == Row(d, 0, krv, h - Quot(krv * top, 2)) && m.z == Row(d, kbu, 0, h - Quot(kbu * top, 2))
            && m.y == Row(d, kgu, kgv, h - Quot(kgu * top + kgv * top, 2)) && m.shift == bits
    ensures GainsNear(RbConstantsOf(space), Pow2(bits), krv, kgu, kgv, kbu)
  {
    hide InverseLumaGain, InverseChromaGain, LimitsY, LimitsUV, Pow2, Quot;
    var c, d, top := RbConstantsOf(space), Pow2(bits), MaxCode(bits);
    CodesBelowUnit(bits, bits);
    FullLimits(bits);
    FullLumaGain(d, top);
    var kyg := c.div - c.kr - c.kb;
    krv := FullChromaGain(d, top, c.div - c.kr, c.div);
    kgu := FullChromaGain(d, top, c.kb * (c.kb - c.div), c.div * kyg);
    kgv := FullChromaGain(d, top, c.kr * (c.kr - c.div), c.div * kyg);
    kbu := FullChromaGain(d, top, c.div - c.kb, c.div);
  }

  predicate GainsNear(c: RbConstants, d: int, krv: int, kgu: int, kgv: int, kbu: int)
  {
    var g := c.div * (c.div - c.kr - c.kb);
    && -c.div <= 2 * (c.div * krv - 2 * d * (c.div - c.kr)) <= c.div
    && -g <= 2 * (g * kgu - 2 * d * (c.kb * (c.kb - c.div))) <= g
    && -g <= 2 * (g * kgv - 2 * d * (c.kr * (c.kr - c.div))) <= g
    && -c.div <= 2 * (c.div * kbu - 2 * d * (c.div - c.kb)) <= c.div
  }

  /** In all five colour spaces half the red and half the blue gain lie between a half and three halves of the unit,
      half the green gains between minus three halves and nothing. */
  lemma TintSizes(space: YuvColorSpace, d: int, krv: int, kgu: int, kgv: int, kbu: int)
    requires GainsNear(RbConstantsOf(space), d, krv, kgu, kgv, kbu) && d >= 4
    ensures d - 1 <= krv < 3 * d - 3 && d - 1 <= kbu < 3 * d - 3 && -3 * d <= kgu + kgv <= 0
  {
    hide RbConstantsOf;
    var c := RbConstantsOf(space);
    var g := c.div * (c.div - c.kr - c.kb);
    assert 6666 <= c.div - c.kr <= 9500 && 6666 <= c.div - c.kb <= 9500 && c.div == 10000 by { SpaceWeights(space); }
    RedTint(d, c.div - c.kr, krv);
    RedTint(d, c.div - c.kb, kbu);
    SpaceWeights(space);
    GreenTint(g, d, c.kb * (c.kb - c.div), kgu);
    GreenTint(g, d, c.kr * (c.kr - c.div), kgv);
  }

  lemma SpaceWeights(space: YuvColorSpace)
    ensures var c := RbConstantsOf(space);
            var g, wu, wv := c.div * (c.div - c.kr - c.kb), c.kb * (c.kb - c.div), c.kr * (c.kr - c.div);
            && 6666 <= c.div - c.kr <= 9500 && 6666 <= c.div - c.kb <= 9500
            && g > 0 && wu <= 0 && wv <= 0 && 4 * (3 * g + 4 * wu) >= g && 4 * (3 * g + 4 * wv) >= g
  {
  }

  lemma RedTint(d: int, w: int, k: int)
    requires d >= 4 && 6666 <= w <= 9500 && -10000 <= 2 * (10000 * k - 2 * d * w) <= 10000
    ensures d - 1 <= k < 3 * d - 3
  {
    MulLe(d, 6666, w);
    MulLe(d, w, 9500);
  }

  lemma GreenTint(den: int, d: int, w: int, k: int)
    requires d >= 4 && den > 0 && w <= 0 && 4 * (3 * den + 4 * w) >= den
    requires -den <= 2 * (den * k - 2 * d * w) <= den
    ensures -3 * d <= 2 * k && k <= 0
  {
    MulLe(d, w, 0);
    MulLe(d, -11 * den, 16 * w);
    MulLe(den, 4, d);
    GreenTintCodes(den, d, k, d * w, den * d, den * k);
  }

  lemma GreenTintCodes(den: int, d: int, k: int, dw: int, dd: int, dk: int)
    requires den > 0 && dd == den * d && dk == den * k && dw <= 0 && -11 * dd <= 16 * dw && 4 * den <= dd
    requires -den <= 2 * (dk - 2 * dw) <= den
    ensures -3 * d <= 2 * k && k <= 0
  {
    assert den * (2 * k) == 2 * dk && den * (-3 * d) == -3 * dd;
    MulCancelLe(den, -3 * d, 2 * k);
    if k >= 1 {
      MulLe(den, 1, k);
    }
  }

  /** Full swing, equal depths: at mid-scale chroma red and blue come out one code above luma, green at it or one code
      below, whatever the depth and colour space. */
  lemma FullSwingRaw(space: YuvColorSpace, bits: nat, y: int)
    requires bits >= 2
    ensures var m, u := Yuv2RgbMatrix(space, FullSwing, bits, bits, bits, bits, bits, bits), Pow2(bits - 1);
            && Raw(m.x, m.shift, y, u, u) == y + 1 && Raw(m.z, m.shift, y, u, u) == y + 1
            && y - 1 <= Raw(m.y, m.shift, y, u, u) <= y
  {
    hide Yuv2RgbMatrix, RbConstantsOf, GainsNear, Quot, Pow2, Raw;
    var d, h := Pow2(bits), Pow2(bits - 1);
    CodesBelowUnit(bits, bits);
    FourOrMore(bits);
    var krv, kgu, kgv, kbu := FullGains(space, bits);
    TintSizes(space, d, krv, kgu, kgv, kbu);
    TintedRow(d, h, bits, 0, krv, y);
    TintedRow(d, h, bits, kgu, kgv, y);
    TintedRow(d, h, bits, kbu, 0, y);
  }

  lemma FourOrMore(bits: nat)
    requires bits >= 2
    ensures Pow2(bits) >= 4
  {
    Pow2Monotone(2, bits);
    assert Pow2(2) == 4;
  }

  lemma TintedRow(d: int, h: int, bits: nat, ku: int, kv: int, y: int)
    requires bits >= 1 && d == Pow2(bits) && d == 2 * h && h >= 2
    ensures var row, k := Row(d, ku, kv, h - Quot(ku * (d - 1) + kv * (d - 1), 2)), ku + kv;
            && (d - 1 <= k < 3 * d - 3 ==> Raw(row, bits, y, h, h) == y + 1)
            && (-3 * d <= k <= 0 ==> y - 1 <= Raw(row, bits, y, h, h) <= y)
  {
    hide Pow2, Dot, Quot;
    TintedDot(d, h, d - 1, ku, kv, y);
    TintedCode(d, h, y * d, y, ku + kv);
  }

  lemma TintedCode(d: int, h: int, yd: int, y: int, k: int)
    requires d == 2 * h && h >= 2 && yd == d * y
    ensures var code := (yd + (h + if k >= 0 then (k + 1) / 2 else -((1 - k) / 2))) / d;
            && (d - 1 <= k < 3 * d - 3 ==> code == y + 1)
            && (-3 * d <= k <= 0 ==> y - 1 <= code <= y)
  {
    var n := h + if k >= 0 then (k + 1) / 2 else -((1 - k) / 2);
    assert d * (y + 1) == yd + d && d * (y - 1) == yd - d;
    if d - 1 <= k < 3 * d - 3 {
      assert d <= n < 2 * d;
      DivIs(yd + n, d, y + 1);
    } else if -3 * d <= k <= 0 {
      assert -d <= n < d;
      DivAtLeast(yd + n, d, y - 1);
      DivAtMost(yd + n, d, y);
    }
  }

  lemma TintedDot(d: int, h: int, n: int, ku: int, kv: int, y: int)
    requires n == 2 * h - 1 && h >= 2
    ensures var row, k := Row(d, ku, kv, h - Quot(ku * n + kv * n, 2)), ku + kv;
            Dot(row, y, h, h) == y * d + (h + if k >= 0 then (k + 1) / 2 else -((1 - k) / 2))
  {
    hide Quot;
    HalfTooLittle(ku + kv, h);
    SumTimes(ku, kv, n);
    SumTimes(ku, kv, h);
  }

  lemma SumTimes(a: int, b: int, n: int)
    ensures a * n + b * n == (a + b) * n
  {
  }

  /** A pixel of mid-scale chroma and any luma code comes out grey. */
  ghost predicate NeutralStaysGrey(space: YuvColorSpace, swing: YuvColorSpaceType, bits: nat)
    requires bits >= 2
  {
    forall y: int {:trigger ApplyMatrix(Yuv2RgbMatrix(space, swing, bits, bits, bits, bits, bits, bits), y,
                                        Pow2(bits - 1), Pow2(bits - 1))} |
      0 <= y <= MaxCode(bits) ::
      var p := ApplyMatrix(Yuv2RgbMatrix(space, swing, bits, bits, bits, bits, bits, bits), y, Pow2(bits - 1),
                           Pow2(bits - 1));
      p.0 == p.1 == p.2
  }

  /** At equal depths, in every colour space, neutral pixels stay grey exactly in studio swing. */
  lemma NeutralIsGreyInStudio(space: YuvColorSpace, swing: YuvColorSpaceType, bits: nat)
    requires bits >= 2
    ensures NeutralStaysGrey(space, swing, bits) <==> swing.StudioSwing?
  {
    hide Yuv2RgbMatrix, Raw, ApplyMatrix, GreyLevel;
    var half := Pow2(bits - 1);
    if swing.StudioSwing? {
      forall y: int | 0 <= y <= MaxCode(bits)
        ensures var p := ApplyMatrix(Yuv2RgbMatrix(space, swing, bits, bits, bits, bits, bits, bits), y, half, half);
                p.0 == p.1 == p.2
      {
        NeutralIsGrey(space, bits, bits, bits, bits, y);
      }
    } else {
      BlackIsTinted(space, bits);
    }
  }

  lemma BlackIsTinted(space: YuvColorSpace, bits: nat)
    requires bits >= 2
    ensures var p := ApplyMatrix(Yuv2RgbMatrix(space, FullSwing, bits, bits, bits, bits, bits, bits), 0,
                                 Pow2(bits - 1), Pow2(bits - 1));
            p.0 == 1 && p.1 == 0 && p.2 == 1
    ensures MaxCode(bits) >= 3
  {
    hide Raw, RbConstantsOf, InverseLumaGain, InverseChromaGain, LimitsY, LimitsUV, InverseOffset;
    FullSwingRaw(space, bits, 0);
    FourOrMore(bits);
  }

  /** For instance at 8 bits in BT.601, where green comes out one code below luma. */
  lemma FullSwingTints(y: int)
    ensures var m := Yuv2RgbMatrix(ITUR_BT601, FullSwing, 8, 8, 8, 8, 8, 8);
            Raw(m.x, m.shift, y, 128, 128) == y + 1 && Raw(m.y, m.shift, y, 128, 128) == y - 1
                && Raw(m.z, m.shift, y, 128, 128) == y + 1
  {
    var m := Yuv2RgbMatrix(ITUR_BT601, FullSwing, 8, 8, 8, 8, 8, 8);
    EightBits();
    FullSwingRows();
    assert Dot(m.x, y, 128, 128) == 256 * y + 308;
    assert Dot(m.y, y, 128, 128) == 256 * y - 8;
    assert Dot(m.z, y, 128, 128) == 256 * y + 355;
  }

  lemma EightBits()
    ensures Pow2(8) == 256 && Pow2(7) == 128 && MaxCode(8) == 255
  {
    assert Pow2(4) == 16 && Pow2(7) == 8 * Pow2(4);
  }

  lemma FullSwingGains()
    ensures InverseLumaGain(256, 255, 255) == 256
    ensures InverseChromaGain(256, 255, 7010, 2550000) == 359
    ensures InverseChromaGain(256, 255, 8860, 2550000) == 454
    ensures InverseChromaGain(256, 255, -10100400, 14968500000) == -88
    ensures InverseChromaGain(256, 255, -20959900, 14968500000) == -183
  {
  }

  lemma FullSwingRows()
    ensures var m := Yuv2RgbMatrix(ITUR_BT601, FullSwing, 8, 8, 8, 8, 8, 8);
            && m.x == Row(256, 0, 359, -45644) && m.y == Row(256, -88, -183, 34680) && m.z == Row(256, 454, 0, -57757)
            && m.shift == 8
  {
    hide InverseLumaGain, InverseChromaGain, Pow2, MaxCode;
    EightBits();
    FullSwingGains();
    FullSwingLimits();
    assert RbConstantsOf(ITUR_BT601) == RbConstants(2990, 1140, 10000);
    assert 10000 * 255 == 2550000 && 10000 * 5870 * 255 == 14968500000;
    assert 1140 * (1140 - 10000) == -10100400 && 2990 * (2990 - 10000) == -20959900;
  }

  lemma FullSwingLimits()
    ensures LimitsY(8, FullSwing) == Limits(0, 255) && LimitsUV(8, FullSwing) == Limits(0, 255)
  {
    EightBits();
  }
}
