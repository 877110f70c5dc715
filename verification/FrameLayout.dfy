/** Pixel formats and the memory layout of a frame (VCamUtils/src/videoformat.cpp, VCamUtils/src/videoframe.cpp,
    VCamUtils/src/colorplane.cpp, VCamUtils/src/videoformatspec.cpp). */
module FrameLayout {
  import opened Arithmetic

  datatype ComponentType = CtUnknown | CtR | CtG | CtB | CtY | CtU | CtV | CtA

  /** Addressing of one colour component inside its plane. */
  datatype Component = Component(ctype: ComponentType, step: nat, offset: nat, shift: nat, byteDepth: nat, depth: nat,
                                 widthDiv: nat, heightDiv: nat)

  datatype Plane = Plane(components: seq<Component>, bitsSize: nat)

  datatype FormatType = VftUnknown | VftRgb | VftYuv | VftGray

  datatype Endianness = LittleEndian | BigEndian

  /** Byte order of the machine. */
  const ENDIANNESS_BO := LittleEndian

  datatype FormatSpec = FormatSpec(ftype: FormatType, endianness: Endianness, planes: seq<Plane>)

  datatype PixelFormat =
    | Xrgb | Rgb24 | Rgb565be | Rgb565le | Rgb555be | Rgb555le | Argb
    | Bgrx | Bgr24 | Bgr565be | Bgr565le | Bgr555be | Bgr555le | Bgra
    | Uyvy422 | Yuyv422 | Nv12 | Nv21 | NoFormat

  function Packed8(a: ComponentType, ao: nat, b: ComponentType, bo: nat, c: ComponentType, co: nat,
                   step: nat): (s: FormatSpec)
  {
    FormatSpec(VftRgb, ENDIANNESS_BO,
               [Plane([Component(a, step, ao, 0, 1, 8, 0, 0),
                       Component(b, step, bo, 0, 1, 8, 0, 0),
                       Component(c, step, co, 0, 1, 8, 0, 0)], 8 * step)])
  }

  function Packed16(e: Endianness, hi: ComponentType, hiShift: nat, midDepth: nat, lo: ComponentType): (s: FormatSpec)
  {
    FormatSpec(VftRgb, e,
               [Plane([Component(hi, 2, 0, hiShift, 2, 5, 0, 0),
                       Component(CtG, 2, 0, 5, 2, midDepth, 0, 0),
                       Component(lo, 2, 0, 0, 2, 5, 0, 0)], 16)])
  }

  function SemiPlanar(u: ComponentType, v: ComponentType): (s: FormatSpec)
  {
    FormatSpec(VftYuv, ENDIANNESS_BO,
               [Plane([Component(CtY, 1, 0, 0, 1, 8, 0, 0)], 8),
                Plane([Component(u, 2, 0, 0, 1, 8, 1, 1), Component(v, 2, 1, 0, 1, 8, 1, 1)], 8)])
  }

  function Packed8Alpha(a: ComponentType, b: ComponentType, c: ComponentType, d: ComponentType): (s: FormatSpec)
  {
    FormatSpec(VftRgb, ENDIANNESS_BO,
               [Plane([Component(a, 4, 0, 0, 1, 8, 0, 0), Component(b, 4, 1, 0, 1, 8, 0, 0),
                       Component(c, 4, 2, 0, 1, 8, 0, 0), Component(d, 4, 3, 0, 1, 8, 0, 0)], 32)])
  }

  /** 4:2:2 in one plane: luma every second byte from `yo` on, one chroma pair for two pixels. */
  function Packed422(yo: nat, uo: nat, vo: nat): (s: FormatSpec)
  {
    var y, u, v := Component(CtY, 2, yo, 0, 1, 8, 0, 0), Component(CtU, 4, uo, 0, 1, 8, 1, 0),
        Component(CtV, 4, vo, 0, 1, 8, 1, 0);
    FormatSpec(VftYuv, ENDIANNESS_BO, [Plane(if yo == 0 then [y, u, v] else [u, y, v], 16)])
  }

  /** The format table. */
  function FormatSpecs(f: PixelFormat): (s: FormatSpec)
  {
    match f
    case Xrgb => Packed8(CtR, 1, CtG, 2, CtB, 3, 4)
    case Rgb24 => Packed8(CtR, 0, CtG, 1, CtB, 2, 3)
    case Rgb565be => Packed16(BigEndian, CtR, 11, 6, CtB)
    case Rgb565le => Packed16(LittleEndian, CtR, 11, 6, CtB)
    case Rgb555be => Packed16(BigEndian, CtR, 10, 5, CtB)
    case Rgb555le => Packed16(LittleEndian, CtR, 10, 5, CtB)
    case Argb => Packed8Alpha(CtA, CtR, CtG, CtB)
    case Bgrx => Packed8(CtB, 0, CtG, 1, CtR, 2, 4)
    case Bgr24 => Packed8(CtB, 0, CtG, 1, CtR, 2, 3)
    case Bgr565be => Packed16(BigEndian, CtB, 11, 6, CtR)
    case Bgr565le => Packed16(LittleEndian, CtB, 11, 6, CtR)
    case Bgr555be => Packed16(BigEndian, CtB, 10, 5, CtR)
    case Bgr555le => Packed16(LittleEndian, CtB, 10, 5, CtR)
    case Bgra => Packed8Alpha(CtB, CtG, CtR, CtA)
    case Uyvy422 => Packed422(1, 0, 2)
    case Yuyv422 => Packed422(0, 1, 3)
    case Nv12 => SemiPlanar(CtU, CtV)
    case Nv21 => SemiPlanar(CtV, CtU)
    case NoFormat => FormatSpec(VftUnknown, ENDIANNESS_BO, [])
  }

  function MaxHeightDiv(cs: seq<Component>): (d: nat)
  {
    if cs == [] then 0 else Max(cs[0].heightDiv, MaxHeightDiv(cs[1..]))
  }

  /** A plane is sub-sampled vertically as much as its most sub-sampled component. */
  function HeightDiv(p: Plane): (d: nat)
  {
    MaxHeightDiv(p.components)
  }

  lemma {:induction false} UniformHeightDiv(cs: seq<Component>, d: nat)
    requires cs != [] && forall c :: c in cs ==> c.heightDiv == d
    ensures MaxHeightDiv(cs) == d
  {
    if |cs| > 1 {
      UniformHeightDiv(cs[1..], d);
    }
  }

  predicate PackedIn16Bits(f: PixelFormat)
  {
    f.Rgb565be? || f.Rgb565le? || f.Rgb555be? || f.Rgb555le? || f.Bgr565be? || f.Bgr565le? || f.Bgr555be? || f.Bgr555le?
  }

  /** Regular addressing: a pixel takes `n` bytes of its line; a component either steps by a pixel and fits in it,
      or is shared by two pixels, steps by two and fits in two. */
  predicate Regular(c: Component, n: nat)
  {
    || (c.widthDiv == 0 && c.step == n && c.offset + c.byteDepth <= n)
    || (c.widthDiv == 1 && c.step == 2 * n && c.offset + c.byteDepth <= 2 * n && n <= 2)
  }

  /** Position of an offset inside its own pixel. */
  function InPixel(offset: nat, n: nat): (r: nat)
    requires offset < 2 * n
    ensures r < n
  {
    if offset < n then offset else offset - n
  }

  /** No sample of `c` shares a byte with a sample of `c'`. */
  predicate Apart(c: Component, c': Component, n: nat)
  {
    && c.offset < 2 * n && c'.offset < 2 * n
    && (|| InPixel(c.offset, n) != InPixel(c'.offset, n)
        || (c.widthDiv == 1 && c'.widthDiv == 1 && c.offset != c'.offset))
  }

  /** What the layout theorems use about a plane of the table. */
  predicate RegularPlane(p: Plane, heightDiv: nat)
  {
    && p.components != [] && p.bitsSize % 8 == 0 && 1 <= p.bitsSize / 8 <= 4
    && forall c :: c in p.components ==> c.heightDiv == heightDiv && c.byteDepth >= 1 && Regular(c, p.bitsSize / 8)
  }

  /** Additionally, in a plane of one byte per component: unshifted bytes, no two samples on one byte. */
  predicate BytePlane(p: Plane)
  {
    && (forall c :: c in p.components ==> c.shift == 0 && c.depth == 8 && c.byteDepth == 1)
    && (forall c, c' :: c in p.components && c' in p.components && c != c' ==> Apart(c, c', p.bitsSize / 8))
  }

  lemma Packed8Plane(a: ComponentType, ao: nat, b: ComponentType, bo: nat, c: ComponentType, co: nat, step: nat)
    requires ao < step && bo < step && co < step && ao != bo && bo != co && ao != co && 3 <= step <= 4
    ensures var s := Packed8(a, ao, b, bo, c, co, step);
            |s.planes| == 1 && s.endianness == ENDIANNESS_BO && RegularPlane(s.planes[0], 0) && BytePlane(s.planes[0])
  {
  }

  lemma Packed16Plane(e: Endianness, hi: ComponentType, hiShift: nat, midDepth: nat, lo: ComponentType)
    ensures var s := Packed16(e, hi, hiShift, midDepth, lo);
            |s.planes| == 1 && RegularPlane(s.planes[0], 0) && s.planes[0].components[0].shift == hiShift
  {
  }

  lemma SemiPlanarPlanes(u: ComponentType, v: ComponentType)
    requires u != v
    ensures var s := SemiPlanar(u, v);
            && |s.planes| == 2 && s.endianness == ENDIANNESS_BO
            && RegularPlane(s.planes[0], 0) && BytePlane(s.planes[0]) && RegularPlane(s.planes[1], 1)
               && BytePlane(s.planes[1])
  {
  }

  lemma Packed8AlphaPlane(a: ComponentType, b: ComponentType, c: ComponentType, d: ComponentType)
    ensures var s := Packed8Alpha(a, b, c, d);
            |s.planes| == 1 && s.endianness == ENDIANNESS_BO && RegularPlane(s.planes[0], 0) && BytePlane(s.planes[0])
  {
  }

  lemma Packed422Plane(yo: nat, uo: nat, vo: nat)
    requires yo < 2 && uo < 4 && vo == uo + 2 && uo + yo == 1
    ensures var s := Packed422(yo, uo, vo);
            |s.planes| == 1 && s.endianness == ENDIANNESS_BO && RegularPlane(s.planes[0], 0) && BytePlane(s.planes[0])
  {
  }

  /** Vertical sub-sampling of a table plane: only the chroma plane of NV12 and NV21 is halved. */
  function TableHeightDiv(f: PixelFormat, i: nat): (d: nat)
  {
    if (f.Nv12? || f.Nv21?) && i == 1 then 1 else 0
  }

  /** The table, plane by plane. */
  lemma TablePlanes(f: PixelFormat)
    ensures var s := FormatSpecs(f);
            && |s.planes| == (if f.NoFormat? then 0 else if f.Nv12? || f.Nv21? then 2 else 1)
            && (!PackedIn16Bits(f) ==> s.endianness == ENDIANNESS_BO)
            && (forall i :: 0 <= i < |s.planes| ==>
                  && RegularPlane(s.planes[i], TableHeightDiv(f, i))
                  && if PackedIn16Bits(f) then s.planes[i].components[0].shift > 0 else BytePlane(s.planes[i]))
  {
    hide Packed8, Packed8Alpha, Packed422, Packed16, SemiPlanar, RegularPlane, BytePlane;
    match f
    case Xrgb => Packed8Plane(CtR, 1, CtG, 2, CtB, 3, 4);
    case Rgb24 => Packed8Plane(CtR, 0, CtG, 1, CtB, 2, 3);
    case Rgb565be => Packed16Plane(BigEndian, CtR, 11, 6, CtB);
    case Rgb565le => Packed16Plane(LittleEndian, CtR, 11, 6, CtB);
    case Rgb555be => Packed16Plane(BigEndian, CtR, 10, 5, CtB);
    case Rgb555le => Packed16Plane(LittleEndian, CtR, 10, 5, CtB);
    case Argb => Packed8AlphaPlane(CtA, CtR, CtG, CtB);
    case Bgrx => Packed8Plane(CtB, 0, CtG, 1, CtR, 2, 4);
    case Bgr24 => Packed8Plane(CtB, 0, CtG, 1, CtR, 2, 3);
    case Bgr565be => Packed16Plane(BigEndian, CtB, 11, 6, CtR);
    case Bgr565le => Packed16Plane(LittleEndian, CtB, 11, 6, CtR);
    case Bgr555be => Packed16Plane(BigEndian, CtB, 10, 5, CtR);
    case Bgr555le => Packed16Plane(LittleEndian, CtB, 10, 5, CtR);
    case Bgra => Packed8AlphaPlane(CtB, CtG, CtR, CtA);
    case Uyvy422 => Packed422Plane(1, 0, 2);
    case Yuyv422 => Packed422Plane(0, 1, 3);
    case Nv12 => SemiPlanarPlanes(CtU, CtV);
    case Nv21 => SemiPlanarPlanes(CtV, CtU);
    case NoFormat =>
  }

  lemma TableHeightDivs(f: PixelFormat, i: nat)
    requires i < |FormatSpecs(f).planes|
    ensures HeightDiv(FormatSpecs(f).planes[i]) == TableHeightDiv(f, i)
  {
    hide FormatSpecs;
    TablePlanes(f);
    UniformHeightDiv(FormatSpecs(f).planes[i].components, TableHeightDiv(f, i));
  }

  // ----- Guards of the fast conversion path -----

  function AllComponents(planes: seq<Plane>): (cs: seq<Component>)
  {
    if planes == [] then [] else planes[0].components + AllComponents(planes[1..])
  }

  /** A power of two. The code tests `depth & (depth - 1)`; see `BitFields.PowerOfTwoTest`. */
  predicate PowerOfTwoDepth(depth: nat)
  {
    depth == 1 || (depth > 1 && depth % 2 == 0 && PowerOfTwoDepth(depth / 2))
  }

  /** The running-depth scan over the components. */
  predicate FastComponents(cs: seq<Component>, curDepth: nat)
  {
    cs == []
    || (&& cs[0].shift == 0
        && PowerOfTwoDepth(cs[0].depth)
        && (curDepth < 1 || cs[0].depth == curDepth)
        && FastComponents(cs[1..], if curDepth < 1 then cs[0].depth else curDepth))
  }

  predicate IsFast(s: FormatSpec)
  {
    s.endianness == ENDIANNESS_BO && FastComponents(AllComponents(s.planes), 0)
  }

  /** Unshifted components of one power-of-two depth. */
  predicate OneDepth(cs: seq<Component>, depth: nat)
  {
    PowerOfTwoDepth(depth) && forall c :: c in cs ==> c.shift == 0 && c.depth == depth
  }

  /** The scan accepts exactly the specifications whose components are unshifted and share one power-of-two depth. */
  lemma {:induction false} FastComponentsMeaning(cs: seq<Component>, curDepth: nat)
    requires curDepth == 0 || PowerOfTwoDepth(curDepth)
    ensures FastComponents(cs, curDepth) <==> exists d: nat :: OneDepth(cs, d) && (curDepth >= 1 ==> d == curDepth)
  {
    if cs == [] {
      var d: nat := if curDepth >= 1 then curDepth else 1;
      assert OneDepth(cs, d);
    } else {
      var next := if curDepth < 1 then cs[0].depth else curDepth;
      assert cs == [cs[0]] + cs[1..];
      if PowerOfTwoDepth(next) {
        FastComponentsMeaning(cs[1..], next);
        if FastComponents(cs, curDepth) {
          assert OneDepth(cs[1..], next);
          assert OneDepth(cs, next);
        }
      }
      if d: nat :| OneDepth(cs, d) && (curDepth >= 1 ==> d == curDepth) {
        assert cs[0] in cs && OneDepth(cs[1..], d);
      }
    }
  }

  lemma EightIsPower(n: nat)
    requires n == 8
    ensures PowerOfTwoDepth(n)
  {
    assert PowerOfTwoDepth(2) && PowerOfTwoDepth(4);
  }

  lemma {:induction false} InAllComponents(planes: seq<Plane>, c: Component)
    ensures c in AllComponents(planes) <==> exists i :: 0 <= i < |planes| && c in planes[i].components
  {
    if planes != [] {
      var rest := planes[1..];
      InAllComponents(rest, c);
      if c in AllComponents(rest) {
        var j :| 0 <= j < |rest| && c in rest[j].components;
        assert c in planes[j + 1].components;
      }
      if i :| 0 <= i < |planes| && c in planes[i].components {
        assert i > 0 ==> c in rest[i - 1].components;
      }
    }
  }

  /** `isFast` never asks for 8 bits, but in the table only 8-bit formats pass it, so reading single bytes is sound:
      a table format is fast exactly when it is not one of the packed 16-bit formats. */
  lemma TableFastFormats(f: PixelFormat)
    ensures IsFast(FormatSpecs(f)) <==> !PackedIn16Bits(f)
    ensures IsFast(FormatSpecs(f)) ==>
              forall c :: c in AllComponents(FormatSpecs(f).planes) ==> c.shift == 0 && c.depth == 8 && c.byteDepth == 1
  {
    hide FormatSpecs;
    var ps := FormatSpecs(f).planes;
    TablePlanes(f);
    FastComponentsMeaning(AllComponents(ps), 0);
    EightIsPower(8);
    if PackedIn16Bits(f) {
      var c := ps[0].components[0];
      assert c in ps[0].components;
      InAllComponents(ps, c);
    } else {
      forall c | c in AllComponents(ps)
        ensures c.shift == 0 && c.depth == 8 && c.byteDepth == 1
      {
        InAllComponents(ps, c);
      }
      assert OneDepth(AllComponents(ps), 8);
    }
  }

  // ----- Component lookups -----

  /** A default-constructed component. */
  const NO_COMPONENT := Component(CtUnknown, 0, 0, 0, 0, 0, 0, 0)

  predicate HasType(cs: seq<Component>, t: ComponentType)
  {
    exists i :: 0 <= i < |cs| && cs[i].ctype == t
  }

  predicate Contains(planes: seq<Plane>, t: ComponentType)
  {
    exists i :: 0 <= i < |planes| && HasType(planes[i].components, t)
  }

  /** The first component of a type in a plane. */
  function FirstOfType(cs: seq<Component>, t: ComponentType): (c: Component)
    ensures if HasType(cs, t) then c in cs && c.ctype == t else c == NO_COMPONENT
  {
    if cs == [] then NO_COMPONENT else if cs[0].ctype == t then cs[0] else
      assert cs == [cs[0]] + cs[1..];
      assert HasType(cs, t) ==> HasType(cs[1..], t) by {
        if i :| 0 <= i < |cs| && cs[i].ctype == t {
          assert cs[1..][i - 1] == cs[i];
        }
      }
      FirstOfType(cs[1..], t)
  }

  /** Index of the first plane that holds a component of the type, from plane `from` on, or -1. */
  function ComponentPlane(planes: seq<Plane>, t: ComponentType, from: nat := 0): (i: int)
    requires from <= |planes|
    ensures if exists j :: from <= j < |planes| && HasType(planes[j].components, t)
            then from <= i < |planes| && HasType(planes[i].components, t) else i == -1
    decreases |planes| - from
  {
    if from == |planes| then -1
    else if HasType(planes[from].components, t) then from
    else ComponentPlane(planes, t, from + 1)
  }

  function ComponentOf(planes: seq<Plane>, t: ComponentType): (c: Component)
    ensures Contains(planes, t) ==> c in planes[ComponentPlane(planes, t)].components && c.ctype == t
  {
    var i := ComponentPlane(planes, t);
    if i < 0 then NO_COMPONENT else FirstOfType(planes[i].components, t)
  }

  /** The component types of a specification are just `ts`. */
  ghost predicate HasTypes(s: FormatSpec, ts: set<ComponentType>)
  {
    forall t :: Contains(s.planes, t) <==> t in ts
  }

  lemma ThreeTypes(s: FormatSpec)
    requires |s.planes| == 1 && |s.planes[0].components| == 3
    ensures var cs := s.planes[0].components; HasTypes(s, {cs[0].ctype, cs[1].ctype, cs[2].ctype})
  {
    var cs := s.planes[0].components;
    assert HasType(cs, cs[0].ctype) && HasType(cs, cs[1].ctype) && HasType(cs, cs[2].ctype);
  }

  lemma FourTypes(a: ComponentType, b: ComponentType, c: ComponentType, d: ComponentType)
    ensures HasTypes(Packed8Alpha(a, b, c, d), {a, b, c, d})
  {
    var s := Packed8Alpha(a, b, c, d);
    var cs := s.planes[0].components;
    assert |cs| == 4;
    assert HasType(cs, cs[0].ctype) && HasType(cs, cs[1].ctype) && HasType(cs, cs[2].ctype) && HasType(cs, cs[3].ctype);
  }

  lemma SemiPlanarTypes(u: ComponentType, v: ComponentType)
    ensures HasTypes(SemiPlanar(u, v), {CtY, u, v})
  {
    var ps := SemiPlanar(u, v).planes;
    var y, uv := ps[0].components, ps[1].components;
    assert |y| == 1 && |uv| == 2 && |ps| == 2;
    assert HasType(y, y[0].ctype) && HasType(uv, uv[0].ctype) && HasType(uv, uv[1].ctype);
  }

  function MainTypes(t: FormatType): (ts: set<ComponentType>)
  {
    if t.VftRgb? then {CtR, CtG, CtB} else {CtY, CtU, CtV}
  }

  /** Every table format has the three main components of its family; just ARGB and BGRA have alpha. */
  lemma TableComponents(f: PixelFormat)
    requires f != NoFormat
    ensures FormatSpecs(f).ftype.VftRgb? || FormatSpecs(f).ftype.VftYuv?
    ensures HasTypes(FormatSpecs(f), MainTypes(FormatSpecs(f).ftype) + (if f.Argb? || f.Bgra? then {CtA} else {}))
  {
    hide HasTypes;
    if f.Argb? {
      FourTypes(CtA, CtR, CtG, CtB);
      assert {CtA, CtR, CtG, CtB} == MainTypes(VftRgb) + {CtA};
    } else if f.Bgra? {
      FourTypes(CtB, CtG, CtR, CtA);
      assert {CtB, CtG, CtR, CtA} == MainTypes(VftRgb) + {CtA};
    } else if f.Nv12? {
      SemiPlanarTypes(CtU, CtV);
      assert {CtY, CtU, CtV} == MainTypes(VftYuv) + {};
    } else if f.Nv21? {
      SemiPlanarTypes(CtV, CtU);
      assert {CtY, CtV, CtU} == MainTypes(VftYuv) + {};
    } else {
      var cs := FormatSpecs(f).planes[0].components;
      ThreeTypes(FormatSpecs(f));
      assert {cs[0].ctype, cs[1].ctype, cs[2].ctype} == MainTypes(FormatSpecs(f).ftype) + {};
    }
  }

  // ----- Layout of a frame -----

  /** `(value + align - 1) & ~(align - 1)` for a power of two `align`. */
  function AlignUp(value: nat, align: nat): (r: nat)
    requires align >= 1
    ensures r % align == 0 && value <= r < value + align
  {
    var v := value + align - 1;
    AlignDown(v, align);
    v - v % align
  }

  lemma AlignDown(v: nat, align: nat)
    requires align >= 1
    ensures (v - v % align) % align == 0
  {
    assert v - v % align == align * (v / align);
    MulModZero(align, v / align);
  }

  lemma MulModZero(align: nat, k: nat)
    requires align >= 1
    ensures align * k % align == 0
  {
    DivIs(align * k, align, k);
  }

  /** A multiple of the alignment stays where it is. */
  lemma AlignUpMultiple(value: nat, align: nat)
    requires align >= 1 && value % align == 0
    ensures AlignUp(value, align) == value
  {
    var r := AlignUp(value, align);
    assert r - value == align * (r / align) - align * (value / align);
    assert align * (r / align) - align * (value / align) == align * (r / align - value / align);
    var k := r / align - value / align;
    if k >= 1 {
      MulLe(align, 1, k);
    } else if k <= -1 {
      MulLe(align, k, -1);
    }
  }

  const ALIGN: nat := 32

  datatype PlaneLayout = PlaneLayout(offset: nat, size: nat, lineSize: nat, bytesUsed: nat, heightDiv: nat)

  function BytesUsed(p: Plane, width: nat): (r: nat)
  {
    p.bitsSize * width / 8
  }

  function LineSize(p: Plane, width: nat): (r: nat)
  {
    AlignUp(BytesUsed(p, width), ALIGN)
  }

  function PlaneSize(p: Plane, width: nat, height: nat): (r: nat)
    ensures r % ALIGN == 0
  {
    AlignUp(Shr(LineSize(p, width) * height, HeightDiv(p)), ALIGN)
  }

  /** Bytes before plane `|planes|`. */
  function PlanesSize(planes: seq<Plane>, width: nat, height: nat): (r: nat)
  {
    if planes == [] then 0
    else PlanesSize(planes[..|planes| - 1], width, height) + PlaneSize(planes[|planes| - 1], width, height)
  }

  function LayoutOf(planes: seq<Plane>, width: nat, height: nat, i: nat): (l: PlaneLayout)
    requires i < |planes|
  {
    PlaneLayout(PlanesSize(planes[..i], width, height), PlaneSize(planes[i], width, height),
                LineSize(planes[i], width), BytesUsed(planes[i], width), HeightDiv(planes[i]))
  }

  lemma {:induction false} PlanesSizeAligned(planes: seq<Plane>, width: nat, height: nat)
    ensures PlanesSize(planes, width, height) % ALIGN == 0
  {
    hide PlaneSize;
    if planes != [] {
      PlanesSizeAligned(planes[..|planes| - 1], width, height);
    }
  }

  /** The layout part of a frame object. */
  class FrameParams {
    var dataSize: nat
    var layout: seq<PlaneLayout>

    constructor ()
      ensures dataSize == 0 && layout == []
    {
      dataSize := 0;
      layout := [];
    }

    method UpdateParams(spec: FormatSpec, width: nat, height: nat)
      modifies this
      ensures |layout| == |spec.planes|
      ensures forall i :: 0 <= i < |layout| ==> layout[i] == LayoutOf(spec.planes, width, height, i)
      ensures dataSize == PlanesSize(spec.planes, width, height)
    {
      hide AlignUp, Shr;
      dataSize := 0;
      layout := [];
      for i := 0 to |spec.planes|
        invariant |layout| == i
        invariant forall j :: 0 <= j < i ==> layout[j] == LayoutOf(spec.planes, width, height, j)
        invariant dataSize == PlanesSize(spec.planes[..i], width, height)
      {
        var plane := spec.planes[i];
        assert spec.planes[..i + 1][..i] == spec.planes[..i];
        var bytesUsed := plane.bitsSize * width / 8;
        var lineSize := AlignUp(bytesUsed, ALIGN);
        var planeSize := AlignUp(Shr(lineSize * height, HeightDiv(plane)), ALIGN);
        layout := layout + [PlaneLayout(dataSize, planeSize, lineSize, bytesUsed, HeightDiv(plane))];
        dataSize := dataSize + planeSize;
      }
      assert spec.planes[..|spec.planes|] == spec.planes;
      PlanesSizeAligned(spec.planes, width, height);
      AlignUpMultiple(dataSize, ALIGN);
      dataSize := AlignUp(dataSize, ALIGN);
    }
  }

  /** `VideoFormat::dataSize` computes the same total as the frame's own layout. */
  method DataSize(f: PixelFormat, width: nat, height: nat) returns (dataSize: nat)
    ensures dataSize == PlanesSize(FormatSpecs(f).planes, width, height)
  {
    hide AlignUp, Shr, FormatSpecs;
    dataSize := 0;
    var specs := FormatSpecs(f);
    for i := 0 to |specs.planes|
      invariant dataSize == PlanesSize(specs.planes[..i], width, height)
    {
      var plane := specs.planes[i];
      assert specs.planes[..i + 1][..i] == specs.planes[..i];
      var bytesUsed := plane.bitsSize * width / 8;
      var lineSize := AlignUp(bytesUsed, ALIGN);
      var planeSize := Shr(lineSize * height, HeightDiv(plane));
      dataSize := dataSize + AlignUp(planeSize, ALIGN);
    }
    assert specs.planes[..|specs.planes|] == specs.planes;
    PlanesSizeAligned(specs.planes, width, height);
    AlignUpMultiple(dataSize, ALIGN);
    dataSize := AlignUp(dataSize, ALIGN);
  }

  lemma {:induction false} PlanesSizePrefix(planes: seq<Plane>, width: nat, height: nat, i: nat)
    requires i <= |planes|
    ensures PlanesSize(planes[..i], width, height) <= PlanesSize(planes, width, height)
    decreases |planes|
  {
    if i < |planes| {
      var front := planes[..|planes| - 1];
      assert front[..i] == planes[..i];
      PlanesSizePrefix(front, width, height, i);
    } else {
      assert planes[..i] == planes;
    }
  }

  /** Planes start on 32-byte boundaries, do not overlap, and end inside the buffer. */
  lemma PlanesDisjoint(planes: seq<Plane>, width: nat, height: nat, i: nat, j: nat)
    requires i < j < |planes|
    ensures var a, b := LayoutOf(planes, width, height, i), LayoutOf(planes, width, height, j);
            && a.offset % ALIGN == 0 && b.offset % ALIGN == 0
            && a.offset + a.size <= b.offset
            && b.offset + b.size <= PlanesSize(planes, width, height)
  {
    hide PlaneSize;
    PlanesSizeAligned(planes[..i], width, height);
    PlanesSizeAligned(planes[..j], width, height);
    assert planes[..i + 1][..i] == planes[..i];
    assert planes[..j][..i + 1] == planes[..i + 1];
    PlanesSizePrefix(planes[..j], width, height, i + 1);
    assert planes[..j + 1][..j] == planes[..j];
    PlanesSizePrefix(planes, width, height, j + 1);
  }

  /** Byte just past line `y` of a plane, relative to the plane: `line(plane, y)` plus its length. */
  function LineEnd(l: PlaneLayout, y: nat): (r: nat)
  {
    Shr(y, l.heightDiv) * l.lineSize + l.lineSize
  }

  /** All lines of plane `i` lie inside the plane exactly when the height is even, or the plane is not
      vertically sub-sampled, or its lines take just one alignment unit. */
  lemma LinesInPlane(f: PixelFormat, width: nat, height: nat, i: nat)
    requires i < |FormatSpecs(f).planes| && width >= 1 && height >= 1
    ensures var l := LayoutOf(FormatSpecs(f).planes, width, height, i);
            (forall y: nat | y < height :: LineEnd(l, y) <= l.size)
            <==> (l.heightDiv == 0 || height % 2 == 0 || l.lineSize == ALIGN)
  {
    var l := LayoutOf(FormatSpecs(f).planes, width, height, i);
    var p := FormatSpecs(f).planes[i];
    TableHeightDivs(f, i);
    LineSizePositive(f, width, i);
    var k := l.lineSize / ALIGN;
    assert l.lineSize == 32 * k && k >= 1;
    if l.heightDiv == 0 {
      WholePlane(l, k, height);
    } else {
      HalfPlane(l, k, height);
    }
  }

  lemma LineSizePositive(f: PixelFormat, width: nat, i: nat)
    requires i < |FormatSpecs(f).planes| && width >= 1
    ensures LineSize(FormatSpecs(f).planes[i], width) >= ALIGN
  {
    hide FormatSpecs, RegularPlane;
    TablePlanes(f);
    PixelBytes(FormatSpecs(f).planes[i], TableHeightDiv(f, i), width);
  }

  lemma PixelBytes(p: Plane, heightDiv: nat, width: nat)
    requires RegularPlane(p, heightDiv)
    ensures BytesUsed(p, width) == (p.bitsSize / 8) * width
    ensures width >= 1 ==> LineSize(p, width) >= ALIGN
  {
    var n := p.bitsSize / 8;
    assert p.bitsSize * width == 8 * (n * width);
    if width >= 1 {
      MulLe(n, 1, width);
    }
  }

  lemma WholePlane(l: PlaneLayout, k: nat, height: nat)
    requires l.lineSize == 32 * k && l.heightDiv == 0 && l.size == AlignUp(Shr(l.lineSize * height, 0), ALIGN)
    ensures forall y: nat | y < height :: LineEnd(l, y) <= l.size
  {
    forall y: nat | y < height
      ensures LineEnd(l, y) <= l.size
    {
      assert Pow2(0) == 1;
      MulLe(l.lineSize, y + 1, height);
      assert y * l.lineSize + l.lineSize == l.lineSize * (y + 1);
    }
  }

  lemma HalfPlane(l: PlaneLayout, k: nat, height: nat)
    requires k >= 1 && height >= 1
    requires l.lineSize == 32 * k && l.heightDiv == 1 && l.size == AlignUp(Shr(l.lineSize * height, 1), ALIGN)
    ensures (forall y: nat | y < height :: LineEnd(l, y) <= l.size) <==> (height % 2 == 0 || k == 1)
  {
    hide AlignUp;
    HalfPlaneBytes(k, height);
    forall y: nat | y < height
      ensures LineEnd(l, y) <= LineEnd(l, height - 1) == 32 * (k * ((height - 1) / 2) + k)
    {
      HalfLineEnd(l, k, y);
      HalfLineEnd(l, k, height - 1);
      MulLe(k, y / 2, (height - 1) / 2);
    }
    var last: nat := height - 1;
    HalfLineEnd(l, k, last);
    assert l.size == AlignUp(16 * (k * height), ALIGN);
    HalfPlaneSize(k, height, l.size);
  }

  lemma HalfPlaneBytes(k: nat, height: nat)
    ensures Shr(32 * k * height, 1) == 16 * (k * height)
  {
    assert Pow2(1) == 2 * Pow2(0) == 2;
    assert 32 * k * height == 2 * (16 * (k * height));
  }

  lemma HalfLineEnd(l: PlaneLayout, k: nat, y: nat)
    requires l.lineSize == 32 * k && l.heightDiv == 1
    ensures LineEnd(l, y) == 32 * (k * (y / 2) + k)
  {
    assert Pow2(1) == 2 * Pow2(0) == 2;
    assert y / 2 * (32 * k) == 32 * (k * (y / 2));
  }

  lemma HalfPlaneSize(k: nat, height: nat, size: nat)
    requires k >= 1 && height >= 1 && size == AlignUp(16 * (k * height), ALIGN)
    ensures 32 * (k * ((height - 1) / 2) + k) <= size <==> (height % 2 == 0 || k == 1)
  {
    hide AlignUp;
    var m := height / 2;
    if height % 2 == 0 {
      EvenRows(k, m);
      AlignUpMultiple(32 * (k * m), ALIGN);
    } else {
      OddRows(k, m);
      OddHalfPlane(k, k * m, size);
    }
  }

  lemma EvenRows(k: nat, m: nat)
    requires m >= 1
    ensures k * (2 * m) == 2 * (k * m) && k * (m - 1) + k == k * m
  {
  }

  lemma OddRows(k: nat, m: nat)
    ensures k * (2 * m + 1) == 2 * (k * m) + k
  {
  }

  lemma OddHalfPlane(k: nat, rows: nat, size: nat)
    requires k >= 1 && size == AlignUp(16 * (2 * rows + k), ALIGN)
    ensures 32 * (rows + k) <= size <==> k == 1
  {
    assert 32 * rows + 16 * k <= size < 32 * rows + 16 * k + 32 && size % 32 == 0;
  }

  /** Every component access of a table format stays in its line, odd widths included. */
  lemma ComponentInLine(f: PixelFormat, width: nat, i: nat, c: Component, x: nat)
    requires i < |FormatSpecs(f).planes| && c in FormatSpecs(f).planes[i].components
    requires x < width
    ensures Shr(x, c.widthDiv) * c.step + c.offset + c.byteDepth <= LineSize(FormatSpecs(f).planes[i], width)
  {
    hide FormatSpecs, LineSize;
    TablePlanes(f);
    var p := FormatSpecs(f).planes[i];
    PixelBytes(p, TableHeightDiv(f, i), width);
    AccessInLine(p, p.bitsSize / 8, width, c, x);
  }

  lemma AccessInLine(p: Plane, n: nat, width: nat, c: Component, x: nat)
    requires BytesUsed(p, width) == n * width && n >= 1 && x < width && Regular(c, n)
    ensures Shr(x, c.widthDiv) * c.step + c.offset + c.byteDepth <= LineSize(p, width)
  {
    hide AlignUp, BytesUsed;
    if c.widthDiv == 0 {
      assert Pow2(0) == 1;
      MulLe(n, x + 1, width);
      assert x * n + n == n * (x + 1);
    } else {
      Halved(x);
      PairInLine(n, width, LineSize(p, width), x / 2, c.step);
    }
  }

  lemma PairInLine(n: nat, width: nat, line: nat, pair: nat, step: nat)
    requires (n == 1 || n == 2) && step == 2 * n && line % 32 == 0 && line >= n * width && 2 * pair < width
    ensures pair * step + step <= line
  {
    if n == 1 {
      assert 1 * width == width;
      AlignedAbove(line, width, pair);
      assert pair * 2 + 2 <= line;
    } else {
      AlignedAbove(line, 2 * width, pair);
      assert pair * 4 + 4 <= line;
    }
  }

  lemma AlignedAbove(line: nat, used: nat, pair: nat)
    requires line % 32 == 0 && line >= used
    ensures used > 2 * pair ==> line >= 2 * pair + 2
    ensures used > 4 * pair + 1 ==> line >= 4 * pair + 4
  {
  }

  lemma Halved(x: nat)
    ensures Shr(x, 1) == x / 2
  {
    assert Pow2(1) == 2 * Pow2(0) == 2;
  }

  /** Byte of the buffer where the sample of component `c` at pixel (x, y) starts. */
  function SampleAddress(l: PlaneLayout, c: Component, x: nat, y: nat): (r: nat)
  {
    l.offset + Shr(y, l.heightDiv) * l.lineSize + c.offset + Shr(x, c.widthDiv) * c.step
  }

  /** In the formats of one byte per component, two accesses to one plane meet on a byte only when they are
      accesses to one sample: same component, same column and line after sub-sampling. */
  lemma SamplesDistinct(f: PixelFormat, width: nat, height: nat, i: nat,
                        c: Component, x: nat, y: nat, c': Component, x': nat, y': nat)
    requires i < |FormatSpecs(f).planes| && !PackedIn16Bits(f)
    requires c in FormatSpecs(f).planes[i].components && c' in FormatSpecs(f).planes[i].components
    requires x < width && x' < width
    ensures var l := LayoutOf(FormatSpecs(f).planes, width, height, i);
            SampleAddress(l, c, x, y) == SampleAddress(l, c', x', y')
            <==> c == c' && Shr(x, c.widthDiv) == Shr(x', c.widthDiv) && Shr(y, l.heightDiv) == Shr(y', l.heightDiv)
  {
    hide FormatSpecs, LineSize, PlaneSize, Shr, RegularPlane, BytePlane;
    var planes := FormatSpecs(f).planes;
    var l := LayoutOf(planes, width, height, i);
    ComponentInLine(f, width, i, c, x);
    ComponentInLine(f, width, i, c', x');
    TablePlanes(f);
    BytesOfPlane(planes[i], TableHeightDiv(f, i), c);
    BytesOfPlane(planes[i], TableHeightDiv(f, i), c');
    var line, line', s, s' := Shr(y, l.heightDiv), Shr(y', l.heightDiv), Shr(x, c.widthDiv), Shr(x', c'.widthDiv);
    if SampleAddress(l, c, x, y) == SampleAddress(l, c', x', y') {
      SameLine(line, line', l.lineSize, c.offset + s * c.step, c'.offset + s' * c'.step);
      SameSample(planes[i], TableHeightDiv(f, i), c, c', s, s');
    }
  }

  lemma BytesOfPlane(p: Plane, heightDiv: nat, c: Component)
    requires RegularPlane(p, heightDiv) && BytePlane(p) && c in p.components
    ensures c.byteDepth == 1
  {
  }

  lemma SameLine(y: nat, y': nat, line: nat, a: nat, b: nat)
    requires a < line && b < line && y * line + a == y' * line + b
    ensures y == y' && a == b
  {
    if y < y' {
      MulLe(line, y + 1, y');
    } else if y' < y {
      MulLe(line, y' + 1, y);
    }
  }

  lemma SameSample(p: Plane, heightDiv: nat, c: Component, c': Component, s: nat, s': nat)
    requires RegularPlane(p, heightDiv) && BytePlane(p) && c in p.components && c' in p.components
    requires c.offset + s * c.step == c'.offset + s' * c'.step
    ensures c == c' && s == s'
  {
    var n := p.bitsSize / 8;
    assert Regular(c, n) && Regular(c', n);
    if c.widthDiv == 1 && c'.widthDiv == 1 {
      SameLine(s, s', 2 * n, c.offset, c'.offset);
    } else {
      var a, a' := PixelOf(c, n, s), PixelOf(c', n, s');
      PixelPosition(c, n, s);
      PixelPosition(c', n, s');
      SameLine(a, a', n, InPixel(c.offset, n), InPixel(c'.offset, n));
    }
  }

  /** The pixel whose bytes hold sample `s` of `c`. */
  function PixelOf(c: Component, n: nat, s: nat): (a: nat)
  {
    (if c.widthDiv == 0 then s else 2 * s) + (if c.offset < n then 0 else 1)
  }

  lemma PixelPosition(c: Component, n: nat, s: nat)
    requires Regular(c, n) && c.byteDepth >= 1
    ensures c.offset < 2 * n && c.offset + s * c.step == PixelOf(c, n, s) * n + InPixel(c.offset, n)
  {
    assert s * (2 * n) == 2 * s * n && (2 * s + 1) * n == 2 * s * n + n && (s + 1) * n == s * n + n;
  }
}
