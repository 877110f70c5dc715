/** What the integer HSL adjustment does to colours: the way there and back, and each of its three settings alone
    (VCamUtils/src/videoadjusts.cpp). */
module HslTheorems {
  import opened Arithmetic
  import opened VideoAdjusts

  // ----- Sectors -----

  /** A colour is its smallest component plus a place in one of six sectors: `j` is the sector, `t` the way into it out
      of the chroma `c`, `m` the middle component above the smallest. */
  predicate Placed(r: int, g: int, b: int, j: int, t: int, m: int)
  {
    var c, min := Largest(r, g, b) - Smallest(r, g, b), Smallest(r, g, b);
    && 0 <= j < 6 && 0 <= t < c && m == (if j % 2 == 0 then t else c - t)
    && (r - min, g - min, b - min) == Sector(60 * j, c, m)
  }

  /** Position on the hexagon names the sector and the way into it. */
  lemma HexSector(r: int, g: int, b: int) returns (j: int, t: int, m: int)
    requires Largest(r, g, b) > Smallest(r, g, b)
    ensures Placed(r, g, b, j, t, m)
    ensures HexPosition(r, g, b) == j * (Largest(r, g, b) - Smallest(r, g, b)) + t
  {
    hide Mod;
    var max, c := Largest(r, g, b), Largest(r, g, b) - Smallest(r, g, b);
    if max == r {
      ModBelow(g - b, 6 * c);
      j, t := if g >= b then 0 else 5, if g >= b then g - b else c + g - b;
    } else if max == g {
      j, t := if b < r then 1 else 2, if b < r then c + b - r else b - r;
    } else {
      j, t := if r < g then 3 else 4, if r < g then c + r - g else r - g;
    }
    if t == c {
      j, t := j + 1, 0;
    }
    m := if j % 2 == 0 then t else c - t;
    HexTimes(j, c);
  }

  lemma HexTimes(j: int, c: int)
    ensures (j == 0 ==> j * c == 0) && (j == 1 ==> j * c == c) && (j == 2 ==> j * c == 2 * c)
    ensures (j == 3 ==> j * c == 3 * c) && (j == 4 ==> j * c == 4 * c) && (j == 5 ==> j * c == 5 * c)
  {
  }

  lemma ModBelow(value: int, m: int)
    requires m > 0 && -m < value < m
    ensures Mod(value, m) == if value >= 0 then value else value + m
  {
    if value >= 0 {
      ModRange(value, m);
    } else {
      DivIs(-value, m, 0);
      ModOfRemainder(value, m);
    }
  }

  /** Whole degrees stay in the sector. */
  lemma HueInSector(c: int, j: int, t: int)
    requires c >= 1 && 0 <= j < 6 && 0 <= t < c
    ensures Quot(60 * (j * c + t), c) == 60 * j + 60 * t / c && 0 <= 60 * t / c < 60
  {
    var e := 60 * t / c;
    DivBounds(60 * t, c);
    DivAtLeast(60 * t, c, 0);
    DivAtMost(60 * t, c, 59);
    MulNonNeg(j, c);
    assert c * (60 * j + e) == 60 * (j * c) + c * e;
    DivIs(60 * (j * c + t), c, 60 * j + e);
  }

  lemma SectorOfHue(j: int, e: int, c: int, x: int)
    requires 0 <= j < 6 && 0 <= e < 60
    ensures Sector(60 * j + e, c, x) == Sector(60 * j, c, x)
  {
  }

  /** The middle component in a sector, by the way into it in degrees. */
  lemma MiddleInSector(j: int, e: int, c: int)
    requires 0 <= j < 6 && 0 <= e < 60 && c >= 0
    ensures Middle(60 * j + e, c) == c * (if j % 2 == 0 then e else 60 - e) / 60
  {
    hide Quot;
    var f := if j % 2 == 0 then e else 60 - e;
    RemInSector(j, e);
    MulNonNeg(c, f);
  }

  lemma RemInSector(j: int, e: int)
    requires 0 <= j < 6 && 0 <= e < 60
    ensures 60 - Abs(Rem(60 * j + e, 120) - 60) == if j % 2 == 0 then e else 60 - e
  {
    DivIs(60 * j + e, 120, j / 2);
  }

  /** What comes out of a colour of the same sector `e` degrees in: the same place, over another smallest component. */
  lemma SectorOut(j: int, e: int, s: int, l: int)
    requires 0 <= j < 6 && 0 <= e < 60 && 0 <= s <= 255 && 0 <= l <= 255
    ensures var c := Chroma(s, l);
            var x := c * (if j % 2 == 0 then e else 60 - e) / 60;
            var (p, q, r) := Sector(60 * j, c, x);
            && c >= 0 && 0 <= x <= c
            && HslToRgb(60 * j + e, s, l) == (p + Bottom(s, l), q + Bottom(s, l), r + Bottom(s, l))
  {
    hide Chroma, Middle;
    var c := Chroma(s, l);
    ChromaRange(s, l);
    MiddleRange(60 * j + e, c);
    MiddleInSector(j, e, c);
    SectorOfHue(j, e, c, Middle(60 * j + e, c));
    Pow2One();
  }

  // ----- There and back -----

  /** Saturation of a colour that is not grey. */
  function SaturationOf(max: int, min: int): (s: int)
    requires 0 <= min < max <= 255
  {
    SaturationRange(max, min);
    Quot(255 * (max - min), 255 - Abs(max + min - 255))
  }

  /** The sector of a colour, its hue in it, and its saturation and lightness. */
  lemma HslOf(r: int, g: int, b: int) returns (j: int, t: int, m: int)
    requires IsRgb(r, g, b) && Largest(r, g, b) > Smallest(r, g, b)
    ensures Placed(r, g, b, j, t, m)
    ensures var max, min := Largest(r, g, b), Smallest(r, g, b);
            && 0 <= 60 * t / (max - min) < 60
            && RgbToHsl(r, g, b) == Hsl(60 * j + 60 * t / (max - min), SaturationOf(max, min), Quot(max + min, 2))
  {
    hide HexPosition, Quot, Placed, Abs;
    j, t, m := HexSector(r, g, b);
    PlacedRange(r, g, b, j, t, m);
    HueInSector(Largest(r, g, b) - Smallest(r, g, b), j, t);
  }

  lemma PlacedRange(r: int, g: int, b: int, j: int, t: int, m: int)
    requires Placed(r, g, b, j, t, m)
    ensures 0 <= j < 6 && 0 <= t < Largest(r, g, b) - Smallest(r, g, b)
    ensures m == if j % 2 == 0 then t else Largest(r, g, b) - Smallest(r, g, b) - t
  {
  }

  /** Every colour comes back through hue, saturation and lightness with each channel where it was: raised by five codes
      at most, lowered by seven at most, whole degrees of hue being the coarsest step on the way. */
  lemma ColorReturns(r: int, g: int, b: int)
    requires IsRgb(r, g, b)
    ensures var p := RgbToHsl(r, g, b);
            var (r', g', b') := HslToRgb(p.h, p.s, p.l);
            -7 <= r' - r <= 5 && -7 <= g' - g <= 5 && -7 <= b' - b <= 5
  {
    hide RgbToHsl, HslToRgb, Chroma, Bottom, Placed;
    var max, min := Largest(r, g, b), Smallest(r, g, b);
    if max == min {
      GreyReturns(r);
    } else {
      var j, t, m := HslOf(r, g, b);
      var c, s, l := max - min, SaturationOf(max, min), Quot(max + min, 2);
      SaturationRange(max, min);
      PlacedRange(r, g, b, j, t, m);
      SectorOut(j, 60 * t / c, s, l);
      ChannelsReturn(max, min, j, t);
      var c', e := Chroma(s, l), 60 * t / c;
      PlacesNear(r, g, b, j, t, m, c', c' * (if j % 2 == 0 then e else 60 - e) / 60, Bottom(s, l));
    }
  }

  lemma GreyReturns(v: int)
    requires IsRgb(v, v, v)
    ensures RgbToHsl(v, v, v) == Hsl(0, 0, v) && HslToRgb(0, 0, v) == (v, v, v)
  {
    hide HslToRgb, Chroma;
    NoChroma(v);
    HslToRgbRange(Hsl(0, 0, v));
  }

  /** Places that are near in a sector are near as channels. */
  lemma PlacesNear(r: int, g: int, b: int, j: int, t: int, m: int, c': int, x: int, bottom: int)
    requires Placed(r, g, b, j, t, m)
    requires var max, min := Largest(r, g, b), Smallest(r, g, b);
             -7 <= bottom - min <= 5 && -7 <= c' + bottom - max <= 5 && -7 <= x + bottom - (m + min) <= 5
    ensures var (p, q, s) := Sector(60 * j, c', x);
            -7 <= p + bottom - r <= 5 && -7 <= q + bottom - g <= 5 && -7 <= s + bottom - b <= 5
  {
  }

  lemma ChannelsReturn(max: int, min: int, j: int, t: int)
    requires 0 <= min < max <= 255 && 0 <= t < max - min
    ensures var c, s, l := max - min, SaturationOf(max, min), Quot(max + min, 2);
            var m, e := if j % 2 == 0 then t else c - t, 60 * t / c;
            var c', bottom := Chroma(s, l), Bottom(s, l);
            var x := c' * (if j % 2 == 0 then e else 60 - e) / 60;
            && -7 <= bottom - min <= 5 && -7 <= c' + bottom - max <= 5 && -7 <= x + bottom - (m + min) <= 5
  {
    hide Chroma, Quot, SaturationOf, Bottom;
    var c, s, l := max - min, SaturationOf(max, min), Quot(max + min, 2);
    ChromaOfSaturation(max, min);
    BottomIs(max, min, s);
    PlacesReturn(c, Chroma(s, l), min, Bottom(s, l), 60 * t / c, t, j % 2 == 0);
  }

  lemma PlacesReturn(c: int, c': int, min: int, bottom: int, e: int, t: int, even: bool)
    requires 1 <= c <= 255 && c - 2 <= c' <= c + 1 && 0 <= t < c && e == 60 * t / c
    requires bottom == min + (c - c' - c % 2) / 2
    ensures var m, x := if even then t else c - t, c' * (if even then e else 60 - e) / 60;
            -7 <= bottom - min <= 5 && -7 <= c' + bottom - (min + c) <= 5 && -7 <= x + bottom - (m + min) <= 5
  {
    DivBounds(60 * t, c);
    DivSign(60 * t, c);
    MiddleReturns(c, c', e, t, if even then t else c - t, even);
  }

  lemma ChromaOfSaturation(max: int, min: int)
    requires 0 <= min < max <= 255
    ensures max - min - 2 <= Chroma(SaturationOf(max, min), Quot(max + min, 2)) <= max - min + 1
  {
    hide Chroma, Quot, Abs;
    ChromaReturns(max, min);
  }

  /** The smallest component, by what the chroma lost. */
  lemma BottomIs(max: int, min: int, s: int)
    requires 0 <= min < max <= 255
    ensures var l := Quot(max + min, 2); Bottom(s, l) == min + (max - min - Chroma(s, l) - (max - min) % 2) / 2
  {
    hide Chroma;
  }

  /** The middle component out of `e` whole degrees and a chroma two short to one over. */
  lemma MiddleReturns(c: int, c': int, e: int, t: int, m: int, even: bool)
    requires 1 <= c <= 255 && c - 2 <= c' <= c + 1 && 0 <= t < c && 0 <= e
    requires c * e <= 60 * t < c * e + c && m == if even then t else c - t
    ensures var x := c' * (if even then e else 60 - e) / 60; -7 <= x + (c - c' - c % 2) / 2 - m <= 5
  {
    if e >= 60 {
      MulLe(c, 60, e);
    }
    assert c * (60 - e) == 60 * c - c * e;
    if even {
      ProductNear(c, c', e, m, 255, 0);
    } else {
      ProductNear(c, c', 60 - e, m, 0, 255);
    }
  }

  lemma ProductNear(c: int, c': int, f: int, m: int, below: int, above: int)
    requires c - 2 <= c' <= c + 1 && 0 <= f <= 60
    requires 60 * m - below <= c * f <= 60 * m + above
    requires (below, above) == (255, 0) || (below, above) == (0, 255)
    ensures -7 <= c' * f / 60 + (c - c' - c % 2) / 2 - m <= 5
  {
    var d := c - c';
    ProductLess(c, d, f);
    assert d == -1 || d == 0 || d == 1 || d == 2;
    var n := c' * f;
    assert n == c * f - (if d == -1 then -f else if d == 0 then 0 else if d == 1 then f else 2 * f);
  }

  lemma ProductLess(c: int, d: int, f: int)
    ensures (c - d) * f == c * f - d * f
  {
  }

  // ----- Each setting alone -----

  /** Without a turn of the hue, the order of the three channels is kept at every saturation and luminance, ties
      included, by every colour that is not grey. */
  lemma OrderKept(saturation: int, luminance: int, c: Color)
    requires c.Valid() && !(c.r == c.g == c.b)
    ensures var d := Adjusted(HslSettings(0, saturation, luminance), c);
            && (c.r >= c.g ==> d.r >= d.g) && (c.g >= c.r ==> d.g >= d.r)
            && (c.g >= c.b ==> d.g >= d.b) && (c.b >= c.g ==> d.b >= d.g)
            && (c.r >= c.b ==> d.r >= d.b) && (c.b >= c.r ==> d.b >= d.r)
  {
    hide RgbToHsl, HslToRgb, Chroma, Bottom, Placed, Mod;
    var k := HslSettings(0, saturation, luminance);
    NoCastWraps(k, c);
    var j, t, m := HslOf(c.r, c.g, c.b);
    PlacedRange(c.r, c.g, c.b, j, t, m);
    var q, span := AdjustedHsl(k, RgbToHsl(c.r, c.g, c.b)), Largest(c.r, c.g, c.b) - Smallest(c.r, c.g, c.b);
    var e := 60 * t / span;
    ModRange(60 * j + e, 360);
    SectorOut(j, e, q.s, q.l);
    var chroma := Chroma(q.s, q.l);
    EndsOfSector(span, t, e, chroma);
    PlacesOrdered(c.r, c.g, c.b, j, t, m, chroma, chroma * (if j % 2 == 0 then e else 60 - e) / 60);
  }

  /** A colour on the edge of its sector stays on the edge. */
  lemma EndsOfSector(span: int, t: int, e: int, chroma: int)
    requires span >= 1 && e == 60 * t / span && t >= 0
    ensures t == 0 ==> e == 0 && chroma * e / 60 == 0 && chroma * (60 - e) / 60 == chroma
  {
    if t == 0 {
      DivIs(0, span, 0);
    }
  }

  lemma PlacesOrdered(r: int, g: int, b: int, j: int, t: int, m: int, c': int, x: int)
    requires Placed(r, g, b, j, t, m) && 0 <= x <= c' && (t == 0 ==> x == if j % 2 == 0 then 0 else c')
    ensures var (p, q, s) := Sector(60 * j, c', x);
            && (r >= g ==> p >= q) && (g >= r ==> q >= p) && (g >= b ==> q >= s) && (b >= g ==> s >= q)
            && (r >= b ==> p >= s) && (b >= r ==> s >= p)
  {
  }

  /** Luminance moves the lightness, half the sum of the extremes, by what is set, as far as there is room. */
  lemma LuminanceMoves(k: HslSettings, c: Color)
    requires c.Valid()
    ensures var d, l := Adjusted(k, c), Quot(Largest(c.r, c.g, c.b) + Smallest(c.r, c.g, c.b), 2);
            var l' := Bound(0, l + k.luminance, 255);
            2 * l' - 1 <= Largest(d.r, d.g, d.b) + Smallest(d.r, d.g, d.b) <= 2 * l'
  {
    hide HslToRgb, Chroma, HexPosition, Mod;
    var q := AdjustedHsl(k, RgbToHsl(c.r, c.g, c.b));
    NoCastWraps(k, c);
    HslToRgbRange(q);
    LightnessKept(q);
  }

  /** How far apart the extremes of an adjusted colour are. */
  lemma Spread(k: HslSettings, c: Color)
    requires c.Valid()
    ensures var d, q := Adjusted(k, c), AdjustedHsl(k, RgbToHsl(c.r, c.g, c.b));
            Largest(d.r, d.g, d.b) - Smallest(d.r, d.g, d.b) == Chroma(q.s, q.l)
  {
    hide HslToRgb, Chroma, RgbToHsl, AdjustedHsl;
    var q := AdjustedHsl(k, RgbToHsl(c.r, c.g, c.b));
    NoCastWraps(k, c);
    HslToRgbRange(q);
    LightnessKept(q);
  }

  /** More saturation never brings the extremes closer together, and the least leaves a grey. */
  lemma SaturationSpreads(k: HslSettings, more: int, c: Color)
    requires c.Valid() && more >= 0
    ensures var d, d' := Adjusted(k, c), Adjusted(k.(saturation := k.saturation + more), c);
            && Largest(d.r, d.g, d.b) - Smallest(d.r, d.g, d.b)
               <= Largest(d'.r, d'.g, d'.b) - Smallest(d'.r, d'.g, d'.b)
            && (k.saturation <= -255 ==> d.r == d.g == d.b)
  {
    hide Adjusted, Chroma, RgbToHsl, Mod;
    var p := RgbToHsl(c.r, c.g, c.b);
    Spread(k, c);
    Spread(k.(saturation := k.saturation + more), c);
    var l := Bound(0, p.l + k.luminance, 255);
    ChromaGrows(Bound(0, p.s + k.saturation, 255), Bound(0, p.s + k.saturation + more, 255), l);
    NoChroma(l);
  }

  lemma ChromaGrows(s: int, s': int, l: int)
    requires 0 <= s <= s' && 0 <= l <= 255
    ensures Chroma(s, l) <= Chroma(s', l)
  {
    var f := 255 - Abs(2 * l - 255);
    MulNonNeg(s, f);
    MulLe(f, s, s');
    DivMonotone(s * f, s' * f, 255);
  }

  /** Turning the hue by a third more rotates the channels of the result, at every setting. */
  lemma HueTurns(k: HslSettings, c: Color)
    requires c.Valid()
    ensures var d := Adjusted(k, c); Adjusted(k.(hue := k.hue + 120), c) == Color(d.b, d.r, d.g, d.a)
  {
    hide HslToRgb, RgbToHsl, Mod;
    var k', p := k.(hue := k.hue + 120), RgbToHsl(c.r, c.g, c.b);
    NoCastWraps(k, c);
    NoCastWraps(k', c);
    ModAdds(p.h + k.hue, 120, 360);
    ThirdTurnRotates(AdjustedHsl(k, p));
  }

  lemma ModAdds(a: int, b: int, m: int)
    requires m > 0
    ensures Mod(a + b, m) == Mod(Mod(a, m) + b, m)
  {
    hide Mod;
    ModIsEuclidean(a, m);
    ModIsEuclidean(a + b, m);
    ModIsEuclidean(a % m + b, m);
    RemainderIs(a, m, a / m, a % m);
    RemainderIs(a + b, m, (a + b) / m, (a + b) % m);
    ProductOfDifference(m, (a + b) / m, a / m);
    RemainderIs(a % m + b, m, (a + b) / m - a / m, (a + b) % m);
  }

  lemma ProductOfDifference(m: int, p: int, q: int)
    ensures m * (p - q) == m * p - m * q
  {
  }

  /** Quotient and remainder are the only ones. */
  lemma RemainderIs(a: int, m: int, q: int, r: int)
    requires m > 0
    ensures a == m * q + r && 0 <= r < m <==> q == a / m && r == a % m
  {
    DivBounds(a, m);
    if a == m * q + r && 0 <= r < m {
      DivIs(a, m, q);
    }
  }

  /** `mod` is the mathematical remainder. */
  lemma ModIsEuclidean(a: int, m: int)
    requires m > 0
    ensures Mod(a, m) == a % m
  {
    hide Quot;
    var q := Quot(a, m);
    RemBetween(a, m);
    ModOfRemainder(a - m * q, m);
    if a - m * q >= 0 {
      DivIs(a, m, q);
    } else {
      assert m * (q - 1) == m * q - m;
      DivIs(a, m, q - 1);
    }
  }

  lemma RemBetween(a: int, m: int)
    requires m > 0
    ensures -m < Rem(a, m) < m
  {
    if a >= 0 {
      DivBounds(a, m);
    } else {
      DivBounds(-a, m);
      assert m * -((-a) / m) == -(m * ((-a) / m));
    }
  }

  /** A grey keeps to grey when saturation is not raised, whatever the other settings: luminance moves all three
      channels by what is set. */
  lemma GreyMoves(k: HslSettings, c: Color)
    requires c.Valid() && c.r == c.g == c.b && k.saturation <= 0
    ensures var v := Bound(0, c.r + k.luminance, 255); Adjusted(k, c) == Color(v, v, v, c.a)
  {
    hide HslToRgb, RgbToHsl, Chroma, Mod;
    GreyReturns(c.r);
    var q := AdjustedHsl(k, Hsl(0, 0, c.r));
    NoCastWraps(k, c);
    HslToRgbRange(q);
    NoChroma(q.l);
  }

  /** Raising the saturation turns greys red, since grey has hue 0. They stay grey exactly where the product of
      saturation and room rounds to nothing. */
  lemma GreysTurnRed(saturation: int, luminance: int, c: Color)
    requires c.Valid() && c.r == c.g == c.b
    ensures var d := Adjusted(HslSettings(0, saturation, luminance), c);
            var s, l := Bound(0, saturation, 255), Bound(0, c.r + luminance, 255);
            && d.r >= d.g == d.b
            && (d.r == d.g <==> s * (255 - Abs(2 * l - 255)) < 255)
  {
    hide HslToRgb, Chroma, Bottom, Mod, Abs, RgbToHsl, Quot;
    var k := HslSettings(0, saturation, luminance);
    GreyReturns(c.r);
    ModRange(0, 360);
    NoCastWraps(k, c);
    var s, l := Bound(0, saturation, 255), Bound(0, c.r + luminance, 255);
    SectorOut(0, 0, s, l);
    ZeroProduct(Chroma(s, l));
    NoChromaWhen(s, l);
  }

  lemma ZeroProduct(c: int)
    ensures c * 0 / 60 == 0
  {
  }

  lemma NoChromaWhen(s: int, l: int)
    requires 0 <= s <= 255 && 0 <= l <= 255
    ensures Chroma(s, l) == 0 <==> s * (255 - Abs(2 * l - 255)) < 255
  {
    MulNonNeg(s, 255 - Abs(2 * l - 255));
  }
}
