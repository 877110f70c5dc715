/** What the alpha matrices of `ColorConvert` do: compositing over black (VCamUtils/src/colorconvert.cpp). */
module Compositing {
  import opened Arithmetic
  import opened ColorMatrices
  import opened ColorTheorems

  // ----- RGB -----

  /** Compositing never brightens; full transparency gives black; full opacity keeps a sample
      exactly when it is not above mid-scale, and is one code short otherwise. */
  lemma RgbAlpha(bits: nat, v: int, a: int)
    requires bits >= 2 && 0 <= v <= MaxCode(bits) && 0 <= a <= MaxCode(bits)
    ensures var row := AlphaRgbMatrix(bits).x;
            && 0 <= AlphaRaw(row, bits, v, a) <= v
            && AlphaRaw(row, bits, v, 0) == 0
            && (AlphaRaw(row, bits, v, MaxCode(bits)) == v <==> v <= Pow2(bits - 1))
            && v - 1 <= AlphaRaw(row, bits, v, MaxCode(bits))
  {
    hide AlphaRgbMatrix, AlphaRaw, MaxCode;
    AlphaRowIs(bits);
    AlphaAt(bits, v, a);
    AlphaClear(bits, v);
    AlphaOpaque(bits, v);
  }

  lemma AlphaAt(bits: nat, v: int, a: int)
    requires bits >= 2 && 0 <= v && 0 <= a <= MaxCode(bits)
    ensures 0 <= AlphaRaw(AlphaRow(1, 0, Pow2(bits - 1)), bits, v, a) <= v
  {
    hide AlphaRaw;
    AlphaRawIs(bits, v, a);
    MulNonNeg(a, v);
    MulLe(v, a, Pow2(bits) - 1);
    AlphaCode(Pow2(bits), Pow2(bits - 1), v, a * v);
  }

  lemma AlphaClear(bits: nat, v: int)
    requires bits >= 2
    ensures AlphaRaw(AlphaRow(1, 0, Pow2(bits - 1)), bits, v, 0) == 0
  {
    hide AlphaRaw;
    AlphaRawIs(bits, v, 0);
    DivIs(Pow2(bits - 1), Pow2(bits), 0);
  }

  lemma AlphaOpaque(bits: nat, v: int)
    requires bits >= 2 && 0 <= v <= MaxCode(bits)
    ensures AlphaRaw(AlphaRow(1, 0, Pow2(bits - 1)), bits, v, MaxCode(bits)) == if v <= Pow2(bits - 1) then v else v - 1
  {
    hide AlphaRaw, Pow2, MaxCode;
    AlphaRawIs(bits, v, MaxCode(bits));
    TopCode(bits);
    OpaqueTop(Pow2(bits), Pow2(bits - 1), v, MaxCode(bits));
  }

  lemma TopCode(bits: nat)
    requires bits >= 1
    ensures Pow2(bits) == 2 * Pow2(bits - 1) && MaxCode(bits) == Pow2(bits) - 1
  {
  }

  lemma OpaqueTop(d: int, h: int, v: int, top: int)
    requires d == 2 * h && h >= 1 && top == d - 1 && 0 <= v < d
    ensures (top * v + h) / d == if v <= h then v else v - 1
  {
    assert top * v == d * v - v;
    OpaqueCode(d, h, v);
  }

  lemma AlphaRawIs(bits: nat, v: int, a: int)
    requires bits >= 1
    ensures AlphaRaw(AlphaRow(1, 0, Pow2(bits - 1)), bits, v, a) == (a * v + Pow2(bits - 1)) / Pow2(bits)
  {
  }

  lemma AlphaRowIs(bits: nat)
    requires bits >= 2
    ensures AlphaRgbMatrix(bits).x == AlphaRow(1, 0, Pow2(bits - 1))
    ensures Pow2(bits) >= 4
  {
    hide RoundedDiv;
    Pow2Monotone(2, bits);
    assert Pow2(2) == 4;
    NarrowingGain(1, MaxCode(bits));
  }

  lemma AlphaCode(d: int, h: int, v: int, av: int)
    requires d == 2 * h && h >= 1 && 0 <= av <= d * v - v && v >= 0
    ensures 0 <= (av + h) / d <= v
    ensures av == 0 ==> (av + h) / d == 0
  {
    DivAtLeast(av + h, d, 0);
    DivAtMost(av + h, d, v);
    if av == 0 {
      DivIs(h, d, 0);
    }
  }

  lemma OpaqueCode(d: int, h: int, v: int)
    requires d == 2 * h && h >= 1 && 0 <= v < d
    ensures (d * v - v + h) / d == if v <= h then v else v - 1
  {
    if v <= h {
      DivIs(d * v - v + h, d, v);
    } else {
      assert d * (v - 1) == d * v - d;
      DivIs(d * v - v + h, d, v - 1);
    }
  }

  // ----- YUV -----

  /** What one opaque pixel gains or loses by rounding, in units of the alpha range: black is not code 0 here, and has
      to be taken off and put back. */
  function LumaSlack(alphaBits: nat, black: int): (e: int)
    requires alphaBits >= 1
  {
    Pow2(alphaBits) * black - MaxCode(alphaBits) * RoundedDiv(Pow2(alphaBits) * black, MaxCode(alphaBits))
  }

  function ChromaSlack(alphaBits: nat, middle2: int): (e: int)
    requires alphaBits >= 1
  {
    Pow2(alphaBits - 1) * middle2 - MaxCode(alphaBits) * RoundedDiv(Pow2(alphaBits) * middle2, 2 * MaxCode(alphaBits))
  }

  /** Compositing code `v` over black: full transparency gives `black`; full opacity keeps just the codes up to
      mid-scale and the slack, and takes one code off the others; anything between lies between the two. A single bit of
      alpha keeps every code. Codes wider than alpha lose more. */
  predicate Composites(row: AlphaRow, alphaBits: nat, black: int, slack: int, v: int, a: int)
    requires alphaBits >= 1
  {
    var d, h := Pow2(alphaBits), Pow2(alphaBits - 1);
    var clear, solid := AlphaRaw(row, alphaBits, v, 0), AlphaRaw(row, alphaBits, v, MaxCode(alphaBits));
    && clear == black
    && solid == (if alphaBits == 1 then v else v + (h + slack - v) / d)
    && (solid == v <==> alphaBits == 1 || v <= h + slack)
    && (v < d ==> v - 1 <= solid <= v)
    && Min(clear, solid) <= AlphaRaw(row, alphaBits, v, a) <= Max(clear, solid)
  }

  /** The YUV compositing matrix, at all depths and in both swings: black is the luma floor with mid-scale chroma. */
  lemma YuvAlpha(swing: YuvColorSpaceType, alphaBits: nat, ybits: nat, ubits: nat, vbits: nat, y: int, u: int, v: int,
                 a: int)
    requires alphaBits >= 1 && ybits >= 2 && ubits >= 2 && vbits >= 2 && 0 <= a <= MaxCode(alphaBits)
    requires 0 <= y && 0 <= u && 0 <= v
    ensures var m, uv, uv' := AlphaYuvMatrix(swing, alphaBits, ybits, ubits, vbits), LimitsUV(ubits, swing),
            LimitsUV(vbits, swing);
            && Composites(m.x, alphaBits, LimitsY(ybits, swing).lo, LumaSlack(alphaBits, LimitsY(ybits, swing).lo), y,
                          a)
            && Composites(m.y, alphaBits, Pow2(ubits - 1), ChromaSlack(alphaBits, uv.lo + uv.hi), u, a)
            && Composites(m.z, alphaBits, Pow2(vbits - 1), ChromaSlack(alphaBits, uv'.lo + uv'.hi), v, a)
  {
    hide LimitsY, LimitsUV, RoundedDiv, Composites, LumaSlack, ChromaSlack;
    var d, h, top := Pow2(alphaBits), Pow2(alphaBits - 1), MaxCode(alphaBits);
    AlphaUnit(alphaBits);
    LimitsProper(ybits, swing);
    LumaComposites(alphaBits, LimitsY(ybits, swing).lo, y, a);
    ChromaCentre(ubits, swing);
    ChromaComposites(alphaBits, LimitsUV(ubits, swing).lo + LimitsUV(ubits, swing).hi, Pow2(ubits - 1), u, a);
    ChromaCentre(vbits, swing);
    ChromaComposites(alphaBits, LimitsUV(vbits, swing).lo + LimitsUV(vbits, swing).hi, Pow2(vbits - 1), v, a);
  }

  /** The alpha gain is 1, except that a single bit of alpha doubles. */
  lemma AlphaUnit(alphaBits: nat)
    requires alphaBits >= 1
    ensures Quot(Pow2(alphaBits), MaxCode(alphaBits)) == if alphaBits == 1 then 2 else 1
    ensures Pow2(alphaBits) == 2 * Pow2(alphaBits - 1) && (alphaBits == 1 ==> Pow2(alphaBits) == 2)
    ensures alphaBits >= 2 ==> Pow2(alphaBits) >= 4
  {
    if alphaBits >= 2 {
      FourOrMore(alphaBits);
      DivIs(Pow2(alphaBits), MaxCode(alphaBits), 1);
    }
  }

  lemma LumaComposites(alphaBits: nat, black: int, v: int, a: int)
    requires alphaBits >= 1 && black >= 0 && v >= 0 && 0 <= a <= MaxCode(alphaBits)
    ensures var d, h, top := Pow2(alphaBits), Pow2(alphaBits - 1), MaxCode(alphaBits);
            Composites(AlphaRow(if alphaBits == 1 then 2 else 1, -RoundedDiv(d * black, top), h + d * black),
                       alphaBits, black, LumaSlack(alphaBits, black), v, a)
  {
    hide RoundedDiv, Pow2;
    var d, h, top := Pow2(alphaBits), Pow2(alphaBits - 1), MaxCode(alphaBits);
    AlphaUnit(alphaBits);
    var r := RoundedDiv(d * black, top);
    RoundedDivNearest(d * black, top);
    RowComposites(alphaBits, d, h, top, r, d * black, black, v, a);
  }

  lemma ChromaComposites(alphaBits: nat, middle2: int, black: int, v: int, a: int)
    requires alphaBits >= 1 && (middle2 == 2 * black || middle2 == 2 * black - 1) && middle2 >= 0
    requires v >= 0 && 0 <= a <= MaxCode(alphaBits)
    ensures var d, h, top := Pow2(alphaBits), Pow2(alphaBits - 1), MaxCode(alphaBits);
            Composites(AlphaYuvRow(if alphaBits == 1 then 2 else 1, d, h, top, middle2),
                       alphaBits, black, ChromaSlack(alphaBits, middle2), v, a)
  {
    hide RoundedDiv, Pow2, Quot, Composites;
    var d, h, top := Pow2(alphaBits), Pow2(alphaBits - 1), MaxCode(alphaBits);
    AlphaUnit(alphaBits);
    var r := RoundedDiv(d * middle2, 2 * top);
    ChromaPut(d, h, middle2, black);
    ChromaTaken(d, h, top, middle2, r);
    RowComposites(alphaBits, d, h, top, r, h * middle2, black, v, a);
  }

  lemma ChromaPut(d: int, h: int, middle2: int, black: int)
    requires d == 2 * h && h >= 1 && (middle2 == 2 * black || middle2 == 2 * black - 1)
    ensures Quot(d * middle2, 2) == h * middle2
    ensures d * black - h <= h * middle2 <= d * black
  {
    hide Quot;
    assert d * middle2 == 2 * (h * middle2);
    QuotEven(h * middle2);
    assert h * (2 * black) == d * black && h * (2 * black - 1) == d * black - h;
  }

  lemma ChromaTaken(d: int, h: int, top: int, middle2: int, r: int)
    requires d == 2 * h && h >= 1 && top >= 1 && r == RoundedDiv(d * middle2, 2 * top)
    ensures -top <= 2 * (top * r - h * middle2) <= top
  {
    hide RoundedDiv;
    RoundedDivNearest(d * middle2, 2 * top);
    assert d * middle2 == 2 * (h * middle2) && 2 * top * r == 2 * (top * r);
  }

  /** One row: `r` is the code taken off, `put` what is put back, in alpha units. */
  lemma RowComposites(alphaBits: nat, d: int, h: int, top: int, r: int, put: int, black: int, v: int, a: int)
    requires alphaBits >= 1 && d == Pow2(alphaBits) && h == Pow2(alphaBits - 1) && top == MaxCode(alphaBits)
    requires d == 2 * h && h >= 1 && top == d - 1 && (alphaBits == 1 ==> d == 2) && (alphaBits >= 2 ==> d >= 4)
    requires v >= 0 && 0 <= a <= top && d * black - h <= put <= d * black
    requires -top <= 2 * (top * r - put) <= top
    ensures Composites(AlphaRow(if alphaBits == 1 then 2 else 1, -r, h + put), alphaBits, black, put - top * r, v, a)
  {
    hide Pow2, AlphaRaw;
    var k := if alphaBits == 1 then 2 else 1;
    var row := AlphaRow(k, -r, h + put);
    CompositeAt(row, alphaBits, d, v, 0);
    CompositeAt(row, alphaBits, d, v, top);
    CompositeAt(row, alphaBits, d, v, a);
    DivIs(h + put, d, black);
    OpaqueComposite(d, h, top, r, put, k, v);
    BetweenEnds(d, top, v * k - r, h + put, a);
  }

  lemma CompositeAt(row: AlphaRow, alphaBits: nat, d: int, v: int, a: int)
    requires d == Pow2(alphaBits)
    ensures AlphaRaw(row, alphaBits, v, a) == (a * (v * row.k + row.bias) + row.offset) / d
  {
  }

  lemma OpaqueComposite(d: int, h: int, top: int, r: int, put: int, k: int, v: int)
    requires d == 2 * h && h >= 1 && top == d - 1 && v >= 0 && -top <= 2 * (top * r - put) <= top
    requires if d == 2 then k == 2 else d >= 4 && k == 1
    ensures var solid, slack := (top * (v * k - r) + (h + put)) / d, put - top * r;
            && solid == (if d == 2 then v else v + (h + slack - v) / d)
            && (solid == v <==> d == 2 || v <= h + slack)
            && (v < d ==> v - 1 <= solid <= v)
  {
    var slack := put - top * r;
    if d == 2 {
      assert top == 1 && slack == 0;
    } else {
      var n := h + slack - v;
      TopTimes(d, top, v, r);
      assert top * (v * k - r) + (h + put) == d * v + n;
      ShiftByWhole(d, v, n);
      if v <= h + slack {
        DivIs(n, d, 0);
      } else {
        DivAtMost(n, d, -1);
        if v < d {
          DivIs(n, d, -1);
        }
      }
    }
  }

  lemma TopTimes(d: int, top: int, v: int, r: int)
    requires top == d - 1
    ensures top * (v - r) == d * v - v - top * r
  {
  }

  lemma ShiftByWhole(d: int, q: int, n: int)
    requires d >= 1
    ensures (d * q + n) / d == q + n / d
  {
    DivBounds(n, d);
    assert d * (q + n / d) == d * q + d * (n / d);
    DivIs(d * q + n, d, q + n / d);
  }

  /** A floored linear function stays between its ends. */
  lemma BetweenEnds(d: int, top: int, slope: int, offset: int, a: int)
    requires d >= 1 && 0 <= a <= top
    ensures var clear, solid := (0 * slope + offset) / d, (top * slope + offset) / d;
            Min(clear, solid) <= (a * slope + offset) / d <= Max(clear, solid)
  {
    if slope >= 0 {
      MulLe(slope, 0, a);
      MulLe(slope, a, top);
      DivMonotone(offset, a * slope + offset, d);
      DivMonotone(a * slope + offset, top * slope + offset, d);
    } else {
      MulLe(-slope, 0, a);
      MulLe(-slope, a, top);
      DivMonotone(a * slope + offset, offset, d);
      DivMonotone(top * slope + offset, a * slope + offset, d);
    }
  }

  /** At 8 bits in studio swing an opaque pixel keeps luma up to code 144 and chroma only at codes 0 and 1: every opaque
      picture is tinted by one chroma code. */
  lemma OpaqueTints(y: int, u: int)
    requires 0 <= y < 256 && 0 <= u < 256
    ensures var m := AlphaYuvMatrix(StudioSwing, 8, 8, 8, 8);
            && AlphaRaw(m.x, 8, y, 255) == (if y <= 144 then y else y - 1)
            && AlphaRaw(m.y, 8, u, 255) == AlphaRaw(m.z, 8, u, 255) == (if u <= 1 then u else u - 1)
  {
    hide AlphaYuvMatrix, AlphaRaw, Pow2, LumaSlack, ChromaSlack, LimitsY, LimitsUV;
    EightBits();
    YuvAlpha(StudioSwing, 8, 8, 8, 8, y, u, u, 0);
    EightBitSlack();
  }

  lemma EightBitSlack()
    ensures LimitsY(8, StudioSwing).lo == 16 && LimitsUV(8, StudioSwing) == Limits(16, 240)
    ensures LumaSlack(8, 16) == 16 && ChromaSlack(8, 256) == -127
  {
    EightBits();
    StudioLimitsMeetStandard(8);
    assert RoundedDiv(4096, 255) == 16 && RoundedDiv(65536, 510) == 129;
  }
}
