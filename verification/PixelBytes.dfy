/** Where the bytes of a frame are, format by format: the memory order of the formats of one byte per component
    (VCamUtils/src/videoformat.cpp, VCamUtils/src/videoframe.cpp). */
module PixelBytes {
  import opened Arithmetic
  import opened Bytes
  import opened FrameLayout
  import opened Samples
  import opened PixelLoops
  import opened Conversion

  /** The bytes of one pixel in memory order, of two pixels in the 4:2:2 formats. A padding byte is unknown. */
  function ByteOrder(f: PixelFormat): (order: seq<ComponentType>)
  {
    match f
    case Rgb24 => [CtR, CtG, CtB]
    case Bgr24 => [CtB, CtG, CtR]
    case Xrgb => [CtUnknown, CtR, CtG, CtB]
    case Bgrx => [CtB, CtG, CtR, CtUnknown]
    case Argb => [CtA, CtR, CtG, CtB]
    case Bgra => [CtB, CtG, CtR, CtA]
    case Yuyv422 => [CtY, CtU, CtY, CtV]
    case Uyvy422 => [CtU, CtY, CtV, CtY]
    case _ => []
  }

  /** The chroma bytes of two by two pixels, in the second plane. */
  function ChromaOrder(f: PixelFormat): (order: seq<ComponentType>)
  {
    match f
    case Nv12 => [CtU, CtV]
    case Nv21 => [CtV, CtU]
    case _ => []
  }

  predicate SemiPlanarFormat(f: PixelFormat)
  {
    f.Nv12? || f.Nv21?
  }

  predicate Packed422Format(f: PixelFormat)
  {
    f.Yuyv422? || f.Uyvy422?
  }

  function Place(order: seq<ComponentType>, t: ComponentType): (i: nat)
    ensures t in order ==> i < |order| && order[i] == t
    ensures t !in order ==> i == |order|
    ensures forall j :: 0 <= j < i ==> order[j] != t
  {
    if order == [] || order[0] == t then 0 else 1 + Place(order[1..], t)
  }

  /** The component types of a format. */
  predicate Carries(f: PixelFormat, t: ComponentType)
  {
    if SemiPlanarFormat(f) then t.CtY? || t.CtU? || t.CtV? else t != CtUnknown && t in ByteOrder(f)
  }

  /** How many pixels across and down share one sample. */
  function GroupSize(f: PixelFormat, t: ComponentType): (g: (nat, nat))
    ensures 1 <= g.0 <= 2 && 1 <= g.1 <= 2
  {
    if t.CtU? || t.CtV? then (2, if SemiPlanarFormat(f) then 2 else 1) else (1, 1)
  }

  /** Lines start at multiples of 32 bytes. */
  function Stride(bytes: nat): (r: nat)
    ensures r % 32 == 0 && bytes <= r < bytes + 32
  {
    AlignUp(bytes, 32)
  }

  function LineStart(y: nat, stride: nat): (i: nat)
  {
    MulNonNeg(y, stride);
    y * stride
  }

  /** Index of the byte that holds the sample of pixel (x, y). */
  function BytePosition(f: PixelFormat, width: nat, height: nat, t: ComponentType, x: nat, y: nat): (i: nat)
  {
    if SemiPlanarFormat(f) then
      if t.CtY? then LineStart(y, Stride(width)) + x
      else LineStart(height, Stride(width)) + LineStart(y / 2, Stride(width)) + 2 * (x / 2) + Place(ChromaOrder(f), t)
    else if Packed422Format(f) then
      LineStart(y, Stride(2 * width)) + 4 * (x / 2) + Place(ByteOrder(f), t) + if t.CtY? then 2 * (x % 2) else 0
    else
      var n := |ByteOrder(f)|;
      LineStart(y, Stride(LineStart(n, width))) + LineStart(x, n) + Place(ByteOrder(f), t)
  }

  lemma CarriedTypes(f: PixelFormat, t: ComponentType)
    requires ByteFormat(f)
    ensures Contains(FormatSpecs(f).planes, t) <==> Carries(f, t)
  {
    hide Contains;
    TableComponents(f);
  }

  /** The one component of a type in the one plane of a format. */
  lemma SinglePlane(planes: seq<Plane>, t: ComponentType, c: Component)
    requires |planes| == 1 && c in planes[0].components && c.ctype == t
    requires forall d :: d in planes[0].components && d.ctype == t ==> d == c
    ensures Contains(planes, t) && ComponentPlane(planes, t) == 0 && ComponentOf(planes, t) == c
  {
    hide FirstOfType;
    var i :| 0 <= i < |planes[0].components| && planes[0].components[i] == c;
    assert HasType(planes[0].components, t);
  }

  /** A component of the list is the only one of its type when the others have other types. */
  lemma PlaceIs(order: seq<ComponentType>, t: ComponentType, i: nat)
    requires i < |order| && order[i] == t && forall j :: 0 <= j < i ==> order[j] != t
    ensures Place(order, t) == i
  {
    hide Place;
  }

  /** The table entry of a packed RGB component. */
  predicate PackedEntry(planes: seq<Plane>, order: seq<ComponentType>, t: ComponentType)
  {
    && |planes| == 1 && planes[0].bitsSize == 8 * |order| && ComponentPlane(planes, t) == 0
    && ComponentOf(planes, t) == Component(t, |order|, Place(order, t), 0, 1, 8, 0, 0)
  }

  lemma Packed8Entry(a: ComponentType, ao: nat, b: ComponentType, bo: nat, c: ComponentType, co: nat,
                     order: seq<ComponentType>, t: ComponentType)
    requires a != b && a != c && b != c && (t == a || t == b || t == c)
    requires ao < |order| && bo < |order| && co < |order| && order[ao] == a && order[bo] == b && order[co] == c
    requires forall j :: 0 <= j < |order| && j != ao && j != bo && j != co ==> order[j] != t
    ensures PackedEntry(Packed8(a, ao, b, bo, c, co, |order|).planes, order, t)
  {
    hide ComponentPlane, ComponentOf, Contains, Place;
    var i := if t == a then ao else if t == b then bo else co;
    PlaceIs(order, t, i);
    SinglePlane(Packed8(a, ao, b, bo, c, co, |order|).planes, t, Component(t, |order|, i, 0, 1, 8, 0, 0));
  }

  lemma Packed8AlphaEntry(order: seq<ComponentType>, t: ComponentType)
    requires |order| == 4 && forall i, j :: 0 <= i < j < 4 ==> order[i] != order[j]
    requires t in order
    ensures PackedEntry(Packed8Alpha(order[0], order[1], order[2], order[3]).planes, order, t)
  {
    hide ComponentPlane, ComponentOf, Contains, Place;
    var i :| 0 <= i < 4 && order[i] == t;
    PlaceIs(order, t, i);
    SinglePlane(Packed8Alpha(order[0], order[1], order[2], order[3]).planes, t, Component(t, 4, i, 0, 1, 8, 0, 0));
  }

  lemma PackedRgbEntry(f: PixelFormat, t: ComponentType)
    requires ByteFormat(f) && !SemiPlanarFormat(f) && !Packed422Format(f) && Carries(f, t)
    ensures PackedEntry(FormatSpecs(f).planes, ByteOrder(f), t)
  {
    hide Packed8, Packed8Alpha, PackedEntry;
    var order := ByteOrder(f);
    match f
    case Rgb24 => Packed8Entry(CtR, 0, CtG, 1, CtB, 2, order, t);
    case Bgr24 => Packed8Entry(CtB, 0, CtG, 1, CtR, 2, order, t);
    case Xrgb => Packed8Entry(CtR, 1, CtG, 2, CtB, 3, order, t);
    case Bgrx => Packed8Entry(CtB, 0, CtG, 1, CtR, 2, order, t);
    case Argb => Packed8AlphaEntry(order, t);
    case Bgra => Packed8AlphaEntry(order, t);
  }

  lemma Packed422Entry(f: PixelFormat, t: ComponentType)
    requires Packed422Format(f) && Carries(f, t)
    ensures var planes := FormatSpecs(f).planes;
            && |planes| == 1 && planes[0].bitsSize == 16 && ComponentPlane(planes, t) == 0
            && ComponentOf(planes, t) == if t.CtY? then Component(t, 2, Place(ByteOrder(f), t), 0, 1, 8, 0, 0)
                                         else Component(t, 4, Place(ByteOrder(f), t), 0, 1, 8, 1, 0)
  {
    hide Place, ComponentPlane, ComponentOf;
    match f
    case Yuyv422 => LumaAndChroma(0, 1, 3, ByteOrder(f), t);
    case Uyvy422 => LumaAndChroma(1, 0, 2, ByteOrder(f), t);
  }

  lemma LumaAndChroma(yo: nat, uo: nat, vo: nat, order: seq<ComponentType>, t: ComponentType)
    requires yo + uo == 1 && vo == uo + 2 && |order| == 4
    requires order[yo] == order[yo + 2] == CtY && order[uo] == CtU && order[vo] == CtV
    requires t.CtY? || t.CtU? || t.CtV?
    ensures var planes, i := Packed422(yo, uo, vo).planes, Place(order, t);
            && ComponentPlane(planes, t) == 0
            && ComponentOf(planes, t) == if t.CtY? then Component(t, 2, i, 0, 1, 8, 0, 0)
                                         else Component(t, 4, i, 0, 1, 8, 1, 0)
  {
    hide ComponentPlane, ComponentOf, Contains, Place;
    var i := if t.CtY? then yo else if t.CtU? then uo else vo;
    PlaceIs(order, t, i);
    SinglePlane(Packed422(yo, uo, vo).planes, t, if t.CtY? then Component(t, 2, i, 0, 1, 8, 0, 0)
                                                 else Component(t, 4, i, 0, 1, 8, 1, 0));
  }

  lemma SemiPlanarEntry(f: PixelFormat, t: ComponentType)
    requires SemiPlanarFormat(f) && Carries(f, t)
    ensures var planes := FormatSpecs(f).planes;
            && |planes| == 2 && planes[0].bitsSize == planes[1].bitsSize == 8
            && ComponentPlane(planes, t) == (if t.CtY? then 0 else 1)
            && ComponentOf(planes, t) == if t.CtY? then Component(t, 1, 0, 0, 1, 8, 0, 0)
                                         else Component(t, 2, Place(ChromaOrder(f), t), 0, 1, 8, 1, 1)
  {
    hide FirstOfType, Contains, Place;
    var planes := FormatSpecs(f).planes;
    assert planes[0].components[0].ctype == CtY;
    assert planes[1].components[0].ctype != CtY && planes[1].components[1].ctype != CtY;
    if t.CtY? {
      assert HasType(planes[0].components, t);
    } else {
      var j := if ChromaOrder(f)[0] == t then 0 else 1;
      PlaceIs(ChromaOrder(f), t, j);
      assert planes[1].components[j].ctype == t && HasType(planes[1].components, t);
    }
  }

  /** Sub-sampling of the table, as group sizes. */
  lemma GroupShifts(f: PixelFormat, width: nat, height: nat, t: ComponentType)
    requires ByteFormat(f) && Carries(f, t)
    ensures var planes := FormatSpecs(f).planes;
            Contains(planes, t) && ComponentPlane(planes, t) < |planes|
    ensures var planes := FormatSpecs(f).planes;
            var (gw, gh) := GroupSize(f, t);
            && ComponentOf(planes, t).widthDiv == gw - 1
            && LayoutOf(planes, width, height, ComponentPlane(planes, t)).heightDiv == gh - 1
  {
    hide FormatSpecs, Contains, PlanesSize, PlaneSize, LineSize, ComponentOf, ComponentPlane, HeightDiv, Place;
    CarriedTypes(f, t);
    var planes := FormatSpecs(f).planes;
    if SemiPlanarFormat(f) {
      SemiPlanarEntry(f, t);
    } else if Packed422Format(f) {
      Packed422Entry(f, t);
    } else {
      PackedRgbEntry(f, t);
      ChromaInYuv(f, t);
    }
    TableHeightDivs(f, ComponentPlane(planes, t));
  }

  lemma ChromaInYuv(f: PixelFormat, t: ComponentType)
    requires !SemiPlanarFormat(f) && !Packed422Format(f) && Carries(f, t)
    ensures !t.CtU? && !t.CtV?
  {
  }

  lemma FirstPlane(planes: seq<Plane>, width: nat, height: nat, bytes: nat)
    requires |planes| >= 1 && planes[0].bitsSize == 8 * bytes
    ensures LayoutOf(planes, width, height, 0).offset == 0
    ensures LayoutOf(planes, width, height, 0).lineSize == Stride(LineStart(bytes, width))
  {
    assert planes[0].bitsSize * width == 8 * (bytes * width);
  }

  lemma SecondPlane(planes: seq<Plane>, width: nat, height: nat)
    requires |planes| == 2 && planes[0].bitsSize == planes[1].bitsSize == 8 && HeightDiv(planes[0]) == 0
    ensures LayoutOf(planes, width, height, 1).offset == LineStart(height, Stride(width))
    ensures LayoutOf(planes, width, height, 1).lineSize == Stride(width)
  {
    hide HeightDiv, AlignUp;
    var line := Stride(width);
    assert planes[..1] == [planes[0]] && [planes[0]][..0] == [];
    assert Pow2(0) == 1;
    LineBlock(line, height);
    AlignUpMultiple(line * height, 32);
    assert LineSize(planes[0], width) == line && PlaneSize(planes[0], width, height) == line * height;
    assert PlanesSize([planes[0]], width, height) == PlanesSize([], width, height) + line * height;
  }

  lemma LineBlock(line: nat, height: nat)
    requires line % 32 == 0
    ensures line * height >= 0 && (line * height) % 32 == 0
  {
    MulNonNeg(line, height);
    MulModZero(32, line / 32 * height);
    assert line * height == 32 * (line / 32 * height);
  }

  /** Every sample of every byte format is the byte at the position its format prescribes. */
  lemma SampleByte(f: VideoFormat, data: seq<int>, t: ComponentType, x: nat, y: nat)
    requires Sampled(f, data, t) && x < f.width && y < f.height
    ensures Carries(f.format, t)
    ensures var i := BytePosition(f.format, f.width, f.height, t, x, y);
            i < |data| && SampleIn(f, data, t, x, y) == data[i]
  {
    hide FormatSpecs, Contains, PlanesSize, LayoutOf, ComponentOf, ComponentPlane, BytePosition, ComponentView.SampleAt,
      LinesInside;
    CarriedTypes(f.format, t);
    ViewReady(f, data, t);
    var v := ViewOf(f, data, t);
    ByteViewSample(v, x, y);
    AddressIs(f, data, t, x, y);
  }

  lemma AddressIs(f: VideoFormat, data: seq<int>, t: ComponentType, x: nat, y: nat)
    requires ByteFormat(f.format) && f.width >= 1 && f.height >= 1 && Carries(f.format, t)
    ensures Contains(FormatSpecs(f.format).planes, t)
    ensures ViewOf(f, data, t).Address(x, y) == BytePosition(f.format, f.width, f.height, t, x, y)
  {
    hide FormatSpecs, Contains, PlanesSize, LayoutOf, ComponentOf, ComponentPlane, Place, Stride;
    var planes := FormatSpecs(f.format).planes;
    CarriedTypes(f.format, t);
    GroupShifts(f.format, f.width, f.height, t);
    if SemiPlanarFormat(f.format) {
      SemiPlanarEntry(f.format, t);
      FirstPlane(planes, f.width, f.height, 1);
      TableHeightDivs(f.format, 0);
      SecondPlane(planes, f.width, f.height);
    } else if Packed422Format(f.format) {
      Packed422Entry(f.format, t);
      FirstPlane(planes, f.width, f.height, 2);
    } else {
      PackedRgbEntry(f.format, t);
      FirstPlane(planes, f.width, f.height, |ByteOrder(f.format)|);
    }
  }
}
