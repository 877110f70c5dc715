/** Integer HSL adjustment of RGB pixels (VCamUtils/src/videoadjusts.cpp; `mod` and `bound` from
    VCamUtils/src/utils.h). */
module VideoAdjusts {
  import opened Arithmetic

  /** A pixel of the intermediate ARGB frame. */
  datatype Color = Color(r: int, g: int, b: int, a: int) {
    predicate Valid()
    {
      0 <= r < 256 && 0 <= g < 256 && 0 <= b < 256 && 0 <= a < 256
    }
  }

  /** Hue in degrees, saturation and lightness from 0 to 255. */
  datatype Hsl = Hsl(h: int, s: int, l: int) {
    predicate Valid()
    {
      0 <= h < 360 && 0 <= s <= 255 && 0 <= l <= 255
    }
  }

  function Largest(r: int, g: int, b: int): (m: int)
  {
    Max(r, Max(g, b))
  }

  function Smallest(r: int, g: int, b: int): (m: int)
  {
    Min(r, Min(g, b))
  }

  predicate IsRgb(r: int, g: int, b: int)
  {
    0 <= r < 256 && 0 <= g < 256 && 0 <= b < 256
  }

  /** Six times the chroma, the position on the colour hexagon before scaling to degrees. */
  function HexPosition(r: int, g: int, b: int): (h: int)
    requires Largest(r, g, b) > Smallest(r, g, b)
    ensures 0 <= h < 6 * (Largest(r, g, b) - Smallest(r, g, b))
  {
    var max, c := Largest(r, g, b), Largest(r, g, b) - Smallest(r, g, b);
    ModRange(g - b, 6 * c);
    if max == r then Mod(g - b, 6 * c) else if max == g then b - r + 2 * c else r - g + 4 * c
  }

  function RgbToHsl(r: int, g: int, b: int): (p: Hsl)
    requires IsRgb(r, g, b)
    ensures p.Valid()
  {
    var max, min := Largest(r, g, b), Smallest(r, g, b);
    var c, l := max - min, Quot(max + min, 2);
    if c == 0 then Hsl(0, 0, l)
    else
      HueRange(HexPosition(r, g, b), c);
      SaturationRange(max, min);
      Hsl(Quot(60 * HexPosition(r, g, b), c), Quot(255 * c, 255 - Abs(max + min - 255)), l)
  }

  lemma HueRange(h: int, c: int)
    requires 0 <= h < 6 * c
    ensures 0 <= Quot(60 * h, c) < 360
  {
    DivAtLeast(60 * h, c, 0);
    DivAtMost(60 * h, c, 359);
  }

  /** The divisor is never zero and the quotient never above 255. */
  lemma SaturationRange(max: int, min: int)
    requires 0 <= min < max <= 255
    ensures 255 - Abs(max + min - 255) >= max - min >= 1
    ensures 0 <= Quot(255 * (max - min), 255 - Abs(max + min - 255)) <= 255
  {
    var d := 255 - Abs(max + min - 255);
    DivAtLeast(255 * (max - min), d, 0);
    DivAtMost(255 * (max - min), d, 255);
  }

  /** Chroma of a saturation and lightness: the spread of the three components. */
  function Chroma(s: int, l: int): (c: int)
  {
    Quot(s * (255 - Abs(2 * l - 255)), 255)
  }

  /** The middle component, above the smallest. */
  function Middle(h: int, c: int): (x: int)
  {
    Quot(c * (60 - Abs(Rem(h, 120) - 60)), 60)
  }

  /** The six sectors of the colour circle. */
  function Sector(h: int, c: int, x: int): (p: (int, int, int))
  {
    if 0 <= h < 60 then (c, x, 0)
    else if 60 <= h < 120 then (x, c, 0)
    else if 120 <= h < 180 then (0, c, x)
    else if 180 <= h < 240 then (0, x, c)
    else if 240 <= h < 300 then (x, 0, c)
    else if 300 <= h < 360 then (c, 0, x)
    else (0, 0, 0)
  }

  function HslToRgb(h: int, s: int, l: int): (p: (int, int, int))
  {
    var c := Chroma(s, l);
    var (r, g, b) := Sector(h, c, Middle(h, c));
    var m := 2 * l - c;
    (Shr(2 * r + m, 1), Shr(2 * g + m, 1), Shr(2 * b + m, 1))
  }

  lemma ChromaRange(s: int, l: int)
    requires 0 <= s <= 255 && 0 <= l <= 255
    ensures 0 <= Chroma(s, l) <= 255 - Abs(2 * l - 255)
  {
    var t := 255 - Abs(2 * l - 255);
    MulNonNeg(s, t);
    MulLe(t, s, 255);
    DivAtLeast(s * t, 255, 0);
    DivAtMost(s * t, 255, t);
  }

  lemma MiddleRange(h: int, c: int)
    requires 0 <= h < 360 && c >= 0
    ensures 0 <= Middle(h, c) <= c
  {
    var f := 60 - Abs(Rem(h, 120) - 60);
    assert Rem(h, 120) == h % 120;
    MulNonNeg(c, f);
    MulLe(c, f, 60);
    DivAtLeast(c * f, 60, 0);
    DivAtMost(c * f, 60, c);
  }

  /** Largest and smallest component of the colour. */
  function Top(s: int, l: int): (m: int)
  {
    (2 * l + Chroma(s, l)) / 2
  }

  function Bottom(s: int, l: int): (m: int)
  {
    (2 * l - Chroma(s, l)) / 2
  }

  /** Every component lies between two values that do not depend on the hue, one is the larger and one the smaller of
      them, and all of them are bytes: no cast wraps. */
  lemma HslToRgbRange(p: Hsl)
    requires p.Valid()
    ensures var (r, g, b) := HslToRgb(p.h, p.s, p.l);
            && Largest(r, g, b) == Top(p.s, p.l) && Smallest(r, g, b) == Bottom(p.s, p.l)
            && 0 <= Bottom(p.s, p.l) <= Top(p.s, p.l) <= 255
  {
    hide Chroma, Middle;
    var c := Chroma(p.s, p.l);
    ChromaRange(p.s, p.l);
    MiddleRange(p.h, c);
    Pow2One();
  }

  lemma Pow2One()
    ensures Pow2(1) == 2
  {
  }

  /** Lightness of the result: its largest and smallest components add up to twice the lightness, one less for odd
      chroma. */
  lemma LightnessKept(p: Hsl)
    requires p.Valid()
    ensures Top(p.s, p.l) + Bottom(p.s, p.l) == 2 * p.l - Chroma(p.s, p.l) % 2
    ensures Top(p.s, p.l) - Bottom(p.s, p.l) == Chroma(p.s, p.l)
  {
    hide Chroma;
    var c := Chroma(p.s, p.l);
    assert c == 2 * (c / 2) + c % 2;
  }

  // ----- The adjustment -----

  datatype HslSettings = HslSettings(hue: int, saturation: int, luminance: int)

  function AdjustedHsl(k: HslSettings, p: Hsl): (q: Hsl)
    ensures q.Valid()
  {
    ModRange(p.h + k.hue, 360);
    Hsl(Mod(p.h + k.hue, 360), Bound(0, p.s + k.saturation, 255), Bound(0, p.l + k.luminance, 255))
  }

  function Adjusted(k: HslSettings, c: Color): (d: Color)
    requires c.Valid()
    ensures d.Valid() && d.a == c.a
  {
    var q := AdjustedHsl(k, RgbToHsl(c.r, c.g, c.b));
    var (r, g, b) := HslToRgb(q.h, q.s, q.l);
    HslToRgbRange(q);
    Color(r % 256, g % 256, b % 256, c.a)
  }

  /** For all settings and pixels no component leaves the byte range before it is cast. */
  lemma NoCastWraps(k: HslSettings, c: Color)
    requires c.Valid()
    ensures var q := AdjustedHsl(k, RgbToHsl(c.r, c.g, c.b));
            var (r, g, b) := HslToRgb(q.h, q.s, q.l);
            IsRgb(r, g, b) && Adjusted(k, c) == Color(r, g, b, c.a)
  {
    hide HslToRgb, RgbToHsl, Chroma;
    HslToRgbRange(AdjustedHsl(k, RgbToHsl(c.r, c.g, c.b)));
  }

  /** The chroma that comes back from the saturation and lightness of a pixel. */
  lemma ChromaReturns(max: int, min: int)
    requires 0 <= min < max <= 255
    ensures var c := max - min;
            c - 2 <= Chroma(Quot(255 * c, 255 - Abs(max + min - 255)), Quot(max + min, 2)) <= c + 1
  {
    hide Abs, Quot;
    var c, l := max - min, Quot(max + min, 2);
    Spans(max, min);
    SaturationRange(max, min);
    var d, d' := 255 - Abs(max + min - 255), 255 - Abs(2 * l - 255);
    DivBounds(255 * c, d);
    ChromaBack(c, d, d', 255 * c / d);
    MulNonNeg(255 * c / d, d');
  }

  /** Halving and doubling the sum moves the span by one at most. */
  lemma Spans(max: int, min: int)
    requires 0 <= min < max <= 255
    ensures var d, d' := 255 - Abs(max + min - 255), 255 - Abs(2 * Quot(max + min, 2) - 255);
            1 <= max - min <= d <= 255 && d - 1 <= d' <= d + 1 && 0 <= d' <= 255
  {
  }

  lemma ChromaBack(c: int, d: int, d': int, s: int)
    requires 1 <= c <= d <= 255 && d - 1 <= d' <= d + 1 && 0 <= d' <= 255
    requires 0 <= s && s * d <= 255 * c < s * d + d
    ensures c - 2 <= s * d' / 255 <= c + 1
  {
    if d' == d + 1 {
      assert s * d' == s * d + s;
    } else if d' == d - 1 {
      assert s * d' == s * d - s;
    }
    assert s <= 255 by { if s > 255 { MulLe(d, 256, s); } }
    DivAtLeast(s * d', 255, c - 2);
    DivAtMost(s * d', 255, c + 1);
  }

  /** Turning the hue, by any angle, moves the largest and the smallest component of a pixel by no more than two codes
      and one code, and never raises the largest. */
  lemma HueKeepsExtremes(hue: int, c: Color)
    requires c.Valid()
    ensures var d := Adjusted(HslSettings(hue, 0, 0), c);
            && Largest(c.r, c.g, c.b) - 2 <= Largest(d.r, d.g, d.b) <= Largest(c.r, c.g, c.b)
            && Smallest(c.r, c.g, c.b) - 1 <= Smallest(d.r, d.g, d.b) <= Smallest(c.r, c.g, c.b) + 1
  {
    hide HslToRgb, Chroma;
    var max, min := Largest(c.r, c.g, c.b), Smallest(c.r, c.g, c.b);
    var p := RgbToHsl(c.r, c.g, c.b);
    var q := AdjustedHsl(HslSettings(hue, 0, 0), p);
    NoCastWraps(HslSettings(hue, 0, 0), c);
    HslToRgbRange(q);
    LightnessKept(q);
    if max == min {
      NoChroma(p.l);
    } else {
      ChromaReturns(max, min);
    }
  }

  lemma NoChroma(l: int)
    ensures Chroma(0, l) == 0
  {
    assert 0 * (255 - Abs(2 * l - 255)) == 0;
  }

  /** A third of the colour circle is an exact rotation of the channels. */
  lemma ThirdTurnRotates(p: Hsl)
    requires p.Valid()
    ensures var (r, g, b) := HslToRgb(p.h, p.s, p.l);
            HslToRgb(Mod(p.h + 120, 360), p.s, p.l) == (b, r, g)
  {
    hide Chroma, Shr, Middle, Mod, Sector;
    ThirdTurn(p.h, Chroma(p.s, p.l));
  }

  lemma ThirdTurn(h: int, c: int)
    requires 0 <= h < 360
    ensures var h' := Mod(h + 120, 360);
            var (r, g, b) := Sector(h, c, Middle(h, c));
            Sector(h', c, Middle(h', c)) == (b, r, g)
  {
    hide Quot, Rem, Mod;
    ThirdTurnAngle(h);
  }

  lemma ThirdTurnAngle(h: int)
    requires 0 <= h < 360
    ensures var h' := Mod(h + 120, 360);
            h' == (if h < 240 then h + 120 else h - 240) && Rem(h', 120) == Rem(h, 120)
  {
    if h < 240 {
      ModRange(h + 120, 360);
      DivIs(h + 120, 120, h / 120 + 1);
    } else {
      assert Rem(h + 120, 360) == h - 240;
      ModOfRemainder(h - 240, 360);
    }
  }

  /** One line, from pixel `line` on. */
  method AdjustLine(k: HslSettings, pixels: array<Color>, line: nat, width: nat)
    requires line + width <= pixels.Length
    requires forall i :: line <= i < line + width ==> pixels[i].Valid()
    modifies pixels
    ensures forall i :: 0 <= i < pixels.Length && !(line <= i < line + width) ==> pixels[i] == old(pixels[i])
    ensures forall i :: line <= i < line + width ==> old(pixels[i]).Valid() && pixels[i] == Adjusted(k, old(pixels[i]))
  {
    hide RgbToHsl, HslToRgb, AdjustedHsl, Adjusted;
    ghost var before := pixels[..];
    var x := 0;
    while x < width
      invariant 0 <= x <= width
      invariant forall i :: line <= i < line + x ==> before[i].Valid() && pixels[i] == Adjusted(k, before[i])
      invariant forall i :: 0 <= i < pixels.Length && !(line <= i < line + x) ==> pixels[i] == before[i]
    {
      var c := pixels[line + x];
      var p := RgbToHsl(c.r, c.g, c.b);
      var h, s, l := Mod(p.h + k.hue, 360), Bound(0, p.s + k.saturation, 255), Bound(0, p.l + k.luminance, 255);
      var (r, g, b) := HslToRgb(h, s, l);
      AdjustedIs(k, c);
      pixels[line + x] := Color(r % 256, g % 256, b % 256, c.a);
      x := x + 1;
    }
  }

  /** Buffer index `i` is a pixel of the first `height` lines, not a gap between lines. */
  predicate InPicture(i: nat, width: nat, height: nat, stride: nat)
  {
    exists y: nat {:trigger y * stride} :: y < height && y * stride <= i < y * stride + width
  }

  /** The per-line loops: every pixel of the picture is adjusted in place, the words between the lines are left
      alone. */
  method AdjustHsl(k: HslSettings, pixels: array<Color>, width: nat, height: nat, stride: nat)
    requires width <= stride && height * stride <= pixels.Length
    requires forall i :: 0 <= i < pixels.Length ==> pixels[i].Valid()
    modifies pixels
    ensures forall i :: 0 <= i < pixels.Length ==>
              pixels[i] == if InPicture(i, width, height, stride) then Adjusted(k, old(pixels[i])) else old(pixels[i])
  {
    hide Adjusted, InPicture;
    ghost var before := pixels[..];
    NoLines(width, stride);
    for y := 0 to height
      invariant forall i :: 0 <= i < pixels.Length ==>
                  pixels[i] == if InPicture(i, width, y, stride) then Adjusted(k, before[i]) else before[i]
    {
      LineInside(y, height, stride);
      NextLine(width, y, stride);
      AdjustLine(k, pixels, y * stride, width);
    }
  }

  lemma NoLines(width: nat, stride: nat)
    ensures forall i: nat :: !InPicture(i, width, 0, stride)
  {
  }

  lemma NextLine(width: nat, y: nat, stride: nat)
    requires width <= stride
    ensures forall i: nat :: InPicture(i, width, y + 1, stride) <==>
              InPicture(i, width, y, stride) || y * stride <= i < y * stride + width
    ensures forall i: nat | y * stride <= i :: !InPicture(i, width, y, stride)
  {
    forall i: nat
      ensures InPicture(i, width, y + 1, stride) <==>
                InPicture(i, width, y, stride) || y * stride <= i < y * stride + width
      ensures y * stride <= i ==> !InPicture(i, width, y, stride)
    {
      if j: nat :| j < y && j * stride <= i < j * stride + width {
        MulLe(stride, j + 1, y);
        assert (j + 1) * stride == j * stride + stride;
      }
    }
  }

  lemma AdjustedIs(k: HslSettings, c: Color)
    requires c.Valid()
    ensures var p := RgbToHsl(c.r, c.g, c.b);
            var (r, g, b) := HslToRgb(Mod(p.h + k.hue, 360), Bound(0, p.s + k.saturation, 255),
                                      Bound(0, p.l + k.luminance, 255));
            Adjusted(k, c) == Color(r % 256, g % 256, b % 256, c.a)
  {
    hide RgbToHsl, HslToRgb;
  }

  lemma LineInside(y: nat, height: nat, stride: nat)
    requires y < height
    ensures y * stride + stride <= height * stride
  {
    MulLe(stride, y + 1, height);
  }
}
