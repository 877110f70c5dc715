/** Reading colour components out of a frame's bytes, as `read1`, `read3` and `integralImage1` do
    (VCamUtils/src/videoconverter.cpp; byte swapping from VCamUtils/src/algorithm.h). */
module Samples {
  import opened Arithmetic
  import opened Bytes
  import opened FrameLayout

  /** An unsigned word of `n` bytes, least significant first: how the machine loads it. */
  function Load(bytes: seq<int>, at: nat, n: nat): (v: int)
    requires at + n <= |bytes|
    decreases n
  {
    if n == 0 then 0 else bytes[at] + 256 * Load(bytes, at + 1, n - 1)
  }

  /** `swapBytes` of the loaded word: the same bytes read most significant first. */
  function LoadSwapped(bytes: seq<int>, at: nat, n: nat): (v: int)
    requires at + n <= |bytes|
    decreases n
  {
    if n == 0 then 0 else 256 * LoadSwapped(bytes, at, n - 1) + bytes[at + n - 1]
  }

  /** `(v >> shift) & max` with `max == (1 << depth) - 1`. */
  function Field(v: int, shift: nat, depth: nat): (r: int)
  {
    Shr(v, shift) % Pow2(depth)
  }

  /** A component of a frame as a grid of samples. `bytes` is the size of the loaded integer. */
  datatype ComponentView = ComponentView(data: seq<int>, layout: PlaneLayout, component: Component, bytes: nat,
                                         swapped: bool) {

    /** The start of the sample of pixel (x, y). */
    function Address(x: nat, y: nat): (r: nat)
    {
      SampleAddress(layout, component, x, y)
    }

    predicate Readable(width: nat, height: nat)
    {
      AreBytes(data) && forall x: nat, y: nat | x < width && y < height :: Address(x, y) + bytes <= |data|
    }

    function SampleAt(x: nat, y: nat): (v: int)
      requires Address(x, y) + bytes <= |data|
    {
      var word := if swapped then LoadSwapped(data, Address(x, y), bytes) else Load(data, Address(x, y), bytes);
      Field(word, component.shift, component.depth)
    }

    /** All samples of the component, line by line. */
    function Image(width: nat, height: nat): (img: seq<seq<int>>)
      requires Readable(width, height)
    {
      seq(height, y requires 0 <= y < height => seq(width, x requires 0 <= x < width => SampleAt(x, y)))
    }
  }

  /** A sample never exceeds the largest code of its component. */
  lemma SampleRange(v: ComponentView, x: nat, y: nat)
    requires v.Address(x, y) + v.bytes <= |v.data|
    ensures 0 <= v.SampleAt(x, y) < Pow2(v.component.depth)
  {
  }

  /** Frames of the format table are readable: every sample of every pixel lies in the buffer. Sub-sampled
      planes need an even height, or lines of one alignment unit. */
  lemma TableFramesReadable(f: PixelFormat, width: nat, height: nat, i: nat, c: Component, data: seq<int>, bytes: nat,
                            swapped: bool)
    requires i < |FormatSpecs(f).planes| && c in FormatSpecs(f).planes[i].components && width >= 1 && height >= 1
    requires bytes == c.byteDepth && AreBytes(data) && |data| == PlanesSize(FormatSpecs(f).planes, width, height)
    requires var l := LayoutOf(FormatSpecs(f).planes, width, height, i);
             l.heightDiv == 0 || height % 2 == 0 || l.lineSize == ALIGN
    ensures ComponentView(data, LayoutOf(FormatSpecs(f).planes, width, height, i), c, bytes, swapped).Readable(width,
            height)
  {
    hide LineSize, PlaneSize, Shr;
    var planes := FormatSpecs(f).planes;
    var l := LayoutOf(planes, width, height, i);
    LinesInPlane(f, width, height, i);
    assert planes[..i + 1][..i] == planes[..i];
    PlanesSizePrefix(planes, width, height, i + 1);
    forall x: nat, y: nat | x < width && y < height
      ensures SampleAddress(l, c, x, y) + bytes <= |data|
    {
      ComponentInLine(f, width, i, c, x);
      assert LineEnd(l, y) <= l.size;
    }
  }
}
