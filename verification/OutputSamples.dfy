/** What the conversion loops leave in the output buffer: with sub-sampled components several pixels write one
    byte, and the last of them decides it (VCamUtils/src/videoconverter.cpp). */
module OutputSamples {
  import opened Arithmetic
  import opened Bytes
  import opened FrameLayout
  import opened Samples
  import opened BitFields
  import opened PixelLoops

  /** Output channels 0, 1, 2 are the colour components, 3 is alpha. */
  function SinkOf(w: Writer, c: nat): (s: Sink)
    requires c < 4
  {
    if c == 0 then w.xo else if c == 1 then w.yo else if c == 2 then w.zo else w.ao
  }

  predicate Used(w: Writer, c: nat)
  {
    c < 3 || (c == 3 && w.WritesAlpha())
  }

  /** The byte pixel `p` puts into channel `c`. */
  function ChannelByte(w: Writer, c: nat, p: Pixel): (v: int)
    requires Used(w, c)
  {
    var r := Converted(w, true, p);
    if c == 0 then r.0 % 256 else if c == 1 then r.1 % 256 else if c == 2 then r.2 % 256
    else if w.mode.AlphaInOut? then p.a % 256 else 0xff
  }

  /** Pixels (x, y) and (x', y') share their sample of the component. */
  predicate ShareSample(s: Sink, x: nat, y: nat, x': nat, y': nat)
  {
    Shr(x, s.component.widthDiv) == Shr(x', s.component.widthDiv)
        && Shr(y, s.layout.heightDiv) == Shr(y', s.layout.heightDiv)
  }

  /** Samples of the window meet on a byte only when they are one sample. */
  ghost predicate Separate(w: Writer, width: nat, height: nat)
  {
    forall c: nat, x: nat, y: nat, c': nat, x': nat, y': nat
      {:trigger SinkOf(w, c).Address(x, y), SinkOf(w, c').Address(x', y')} ::
      Used(w, c) && Used(w, c') && x < width && x' < width && y < height && y' < height ==>
        (SinkOf(w, c).Address(x, y) == SinkOf(w, c').Address(x', y') <==>
              c == c' && ShareSample(SinkOf(w, c), x, y, x', y'))
  }

  /** The last index below `end` that shares its sample with `v`. */
  function LastIn(div: nat, v: nat, end: nat): (r: nat)
    requires v < end
    ensures v <= r < end && Shr(r, div) == Shr(v, div)
    decreases end
  {
    if Shr(end - 1, div) == Shr(v, div) then end - 1 else LastIn(div, v, end - 1)
  }

  /** It is the last index of the group, or the last of the window when the group is cut. */
  lemma {:induction false} LastInClosed(div: nat, v: nat, end: nat)
    requires v < end
    ensures LastIn(div, v, end) == Min((Shr(v, div) + 1) * Pow2(div) - 1, end - 1)
    decreases end
  {
    GroupOf(div, v, end - 1);
    if Shr(end - 1, div) != Shr(v, div) {
      LastInClosed(div, v, end - 1);
    }
  }

  lemma GroupOf(div: nat, v: nat, u: nat)
    requires v <= u
    ensures Shr(u, div) == Shr(v, div) <==> u < (Shr(v, div) + 1) * Pow2(div)
    ensures v < (Shr(v, div) + 1) * Pow2(div)
  {
    var d, q := Pow2(div), v / Pow2(div);
    assert v == d * q + v % d && (q + 1) * d == d * q + d;
    if u < (q + 1) * d {
      DivIs(u, d, q);
    } else {
      DivAtLeast(u, d, q + 1);
    }
  }

  // ----- One pixel -----

  lemma PixelBytes(w: Writer, buf: seq<int>, width: nat, height: nat, x: nat, y: nat, p: Pixel)
    requires AreBytes(buf) && ByteSinks(w) && Separate(w, width, height) && x < width && y < height
             && w.Fits(|buf|, x, y)
    ensures var r := PutPixel(w, true, buf, x, y, p);
            && (forall c: nat {:trigger SinkOf(w, c)} | Used(w, c) ::
                  SinkOf(w, c).Address(x, y) < |buf| && r[SinkOf(w, c).Address(x, y)] == ChannelByte(w, c, p))
            && (forall i | 0 <= i < |buf|
               && (forall c: nat {:trigger SinkOf(w, c)} | Used(w, c) :: i != SinkOf(w, c).Address(x, y)) ::
                  r[i] == buf[i])
  {
    hide Converted, Sink.Address, Shr;
    var r := PutPixel(w, true, buf, x, y, p);
    var a0, a1, a2, a3 := SinkOf(w, 0).Address(x, y), SinkOf(w, 1).Address(x, y), SinkOf(w, 2).Address(x, y),
        SinkOf(w, 3).Address(x, y);
    assert Used(w, 0) && Used(w, 1) && Used(w, 2);
    assert a0 != a1 && a1 != a2 && a0 != a2;
    if w.WritesAlpha() {
      assert Used(w, 3);
      assert a3 != a0 && a3 != a1 && a3 != a2;
    }
    forall c: nat {:trigger SinkOf(w, c)} | Used(w, c)
      ensures SinkOf(w, c).Address(x, y) < |buf| && r[SinkOf(w, c).Address(x, y)] == ChannelByte(w, c, p)
    {
      assert c == 0 || c == 1 || c == 2 || (c == 3 && w.WritesAlpha());
    }
    forall i | 0 <= i < |buf| && (forall c: nat {:trigger SinkOf(w, c)} | Used(w, c) :: i != SinkOf(w, c).Address(x, y))
      ensures r[i] == buf[i]
    {
      assert i != a0 && i != a1 && i != a2 && (w.WritesAlpha() ==> i != a3);
    }
  }

  /** Pixel (x, y) sets just its own samples. */
  lemma PixelSets(w: Writer, buf: seq<int>, width: nat, height: nat, x: nat, y: nat, p: Pixel, c: nat, u: nat, v: nat)
    requires AreBytes(buf) && ByteSinks(w) && Separate(w, width, height) && x < width && y < height
             && w.Fits(|buf|, x, y)
    requires Used(w, c) && u < width && v < height && SinkOf(w, c).Address(u, v) < |buf|
    ensures var a, r := SinkOf(w, c).Address(u, v), PutPixel(w, true, buf, x, y, p);
            r[a] == if ShareSample(SinkOf(w, c), u, v, x, y) then ChannelByte(w, c, p) else buf[a]
  {
    hide Converted, Sink.Address, Shr, PutPixel, ChannelByte;
    PixelBytes(w, buf, width, height, x, y, p);
    var a := SinkOf(w, c).Address(u, v);
    if ShareSample(SinkOf(w, c), u, v, x, y) {
      assert a == SinkOf(w, c).Address(x, y);
    } else {
      forall c': nat {:trigger SinkOf(w, c')} | Used(w, c')
        ensures a != SinkOf(w, c').Address(x, y)
      {
      }
    }
  }

  // ----- One line -----

  /** After line `y`, the samples of that line of samples hold the last pixel that shares them; others are as before. */
  lemma {:induction false} LineSets(w: Writer, buf: seq<int>, width: nat, height: nat, xmin: nat, y: nat,
                                    line: seq<Pixel>,
                                    c: nat, u: nat, v: nat)
    requires AreBytes(buf) && ByteSinks(w) && Separate(w, width, height) && w.Writable(|buf|, width, height)
    requires xmin + |line| <= width && y < height
    requires Used(w, c) && xmin <= u < width && v < height && SinkOf(w, c).Address(u, v) < |buf|
    requires line == [] || u < xmin + |line|
    ensures var s := SinkOf(w, c);
            var a, r := s.Address(u, v), PutLine(w, true, buf, xmin, y, line);
            r[a] == if line != [] && Shr(v, s.layout.heightDiv) == Shr(y, s.layout.heightDiv)
                    then ChannelByte(w, c, line[LastIn(s.component.widthDiv, u, xmin + |line|) - xmin]) else buf[a]
  {
    hide Converted, Sink.Address, Shr, PutPixel, ChannelByte, Separate, ByteSinks;
    if line != [] {
      var n := |line| - 1;
      var s := SinkOf(w, c);
      var before := PutLine(w, true, buf, xmin, y, line[..n]);
      PixelSets(w, before, width, height, xmin + n, y, line[n], c, u, v);
      if !ShareSample(s, u, v, xmin + n, y) {
        if u == xmin + n {
          LineSparesLater(w, buf, width, height, xmin, y, line[..n], c, u, v);
        } else {
          LineSets(w, buf, width, height, xmin, y, line[..n], c, u, v);
        }
      }
    }
  }

  /** A line of samples above or below is left alone. */
  lemma {:induction false} LineSparesLater(w: Writer, buf: seq<int>, width: nat, height: nat, xmin: nat, y: nat,
                                           line: seq<Pixel>,
                                           c: nat, u: nat, v: nat)
    requires AreBytes(buf) && ByteSinks(w) && Separate(w, width, height) && w.Writable(|buf|, width, height)
    requires xmin + |line| <= width && y < height
    requires Used(w, c) && u < width && v < height && SinkOf(w, c).Address(u, v) < |buf|
    requires Shr(v, SinkOf(w, c).layout.heightDiv) != Shr(y, SinkOf(w, c).layout.heightDiv)
    ensures var a := SinkOf(w, c).Address(u, v);
            PutLine(w, true, buf, xmin, y, line)[a] == buf[a]
  {
    hide Converted, Sink.Address, Shr, PutPixel, ChannelByte, Separate, ByteSinks;
    if line != [] {
      var n := |line| - 1;
      LineSparesLater(w, buf, width, height, xmin, y, line[..n], c, u, v);
      PixelSets(w, PutLine(w, true, buf, xmin, y, line[..n]), width, height, xmin + n, y, line[n], c, u, v);
    }
  }

  /** Byte `i` is a sample of no pixel of the window. */
  ghost predicate Outside(w: Writer, xmin: nat, ymin: nat, width: nat, height: nat, i: nat)
  {
    forall c: nat, x: nat, y: nat {:trigger SinkOf(w, c).Address(x, y)} ::
      Used(w, c) && xmin <= x < xmin + width && ymin <= y < ymin + height ==> SinkOf(w, c).Address(x, y) != i
  }

  lemma {:induction false} LineSparesOutside(w: Writer, buf: seq<int>, width: nat, height: nat, xmin: nat, y: nat,
                                             line: seq<Pixel>, i: nat)
    requires AreBytes(buf) && ByteSinks(w) && Separate(w, width, height) && w.Writable(|buf|, width, height)
    requires xmin + |line| <= width && y < height && i < |buf| && Outside(w, xmin, y, |line|, 1, i)
    ensures PutLine(w, true, buf, xmin, y, line)[i] == buf[i]
  {
    hide Converted, Sink.Address, Shr, PutPixel, ChannelByte, Separate, ByteSinks;
    if line != [] {
      var n := |line| - 1;
      LineSparesOutside(w, buf, width, height, xmin, y, line[..n], i);
      PixelBytes(w, PutLine(w, true, buf, xmin, y, line[..n]), width, height, xmin + n, y, line[n]);
    }
  }

  // ----- The frame -----

  /** After the whole window: the sample of (u, v) holds the byte of the last pixel, in reading order, that shares
      it. */
  lemma {:induction false} FrameSamples(w: Writer, buf: seq<int>, xmin: nat, ymin: nat, width: nat,
                                        grid: seq<seq<Pixel>>,
                                        c: nat, u: nat, v: nat)
    requires AreBytes(buf) && Rectangular(grid, width) && w.Writable(|buf|, xmin + width, ymin + |grid|)
    requires ByteSinks(w) && Separate(w, xmin + width, ymin + |grid|)
    requires Used(w, c) && xmin <= u < xmin + width && ymin <= v < ymin + |grid|
    ensures var s := SinkOf(w, c);
            && s.Address(u, v) < |buf|
            && PutFrame(w, true, buf, xmin, ymin, width, grid)[s.Address(u, v)]
               == ChannelByte(w, c, grid[LastIn(s.layout.heightDiv, v, ymin + |grid|) - ymin]
                                        [LastIn(s.component.widthDiv, u, xmin + width) - xmin])
  {
    hide Converted, Sink.Address, Shr, PutPixel, PutLine, ChannelByte, Separate;
    AddressInside(w, |buf|, xmin + width, ymin + |grid|, c, u, v);
    var n := |grid| - 1;
    var s := SinkOf(w, c);
    NarrowSeparate(w, xmin + width, ymin + |grid|, xmin + width, ymin + n);
    var before := PutFrame(w, true, buf, xmin, ymin, width, grid[..n]);
    LineSets(w, before, xmin + width, ymin + |grid|, xmin, ymin + n, grid[n], c, u, v);
    if Shr(v, s.layout.heightDiv) != Shr(ymin + n, s.layout.heightDiv) {
      FrameSamples(w, buf, xmin, ymin, width, grid[..n], c, u, v);
    }
  }

  lemma AddressInside(w: Writer, size: nat, width: nat, height: nat, c: nat, u: nat, v: nat)
    requires w.Writable(size, width, height) && ByteSinks(w) && Used(w, c) && u < width && v < height
    ensures SinkOf(w, c).Address(u, v) < size
  {
    hide Sink.Address;
    assert w.Fits(size, u, v);
  }

  lemma NarrowSeparate(w: Writer, width: nat, height: nat, width': nat, height': nat)
    requires Separate(w, width, height) && width' <= width && height' <= height
    ensures Separate(w, width', height')
  {
    hide Sink.Address, SinkOf, ShareSample;
  }

  /** Bytes that are no sample of the window keep their value. */
  lemma {:induction false} FrameSparesOutside(w: Writer, buf: seq<int>, xmin: nat, ymin: nat, width: nat,
                                              grid: seq<seq<Pixel>>, i: nat)
    requires AreBytes(buf) && Rectangular(grid, width) && w.Writable(|buf|, xmin + width, ymin + |grid|)
    requires ByteSinks(w) && Separate(w, xmin + width, ymin + |grid|)
    requires i < |buf| && Outside(w, xmin, ymin, width, |grid|, i)
    ensures PutFrame(w, true, buf, xmin, ymin, width, grid)[i] == buf[i]
  {
    hide Converted, Sink.Address, Shr, PutPixel, PutLine, ChannelByte, Separate;
    if grid != [] {
      var n := |grid| - 1;
      NarrowSeparate(w, xmin + width, ymin + |grid|, xmin + width, ymin + n);
      FrameSparesOutside(w, buf, xmin, ymin, width, grid[..n], i);
      LineSparesOutside(w, PutFrame(w, true, buf, xmin, ymin, width, grid[..n]), xmin + width, ymin + |grid|, xmin,
                        ymin + n, grid[n], i);
    }
  }

  /** Whatever two buffers hold, they agree on every sample of the window after it is written. */
  lemma SameSamplesAfterwards(w: Writer, buf: seq<int>, buf': seq<int>, xmin: nat, ymin: nat, width: nat,
                              grid: seq<seq<Pixel>>, i: nat)
    requires AreBytes(buf) && AreBytes(buf') && |buf| == |buf'|
    requires Rectangular(grid, width) && w.Writable(|buf|, xmin + width, ymin + |grid|)
    requires ByteSinks(w) && Separate(w, xmin + width, ymin + |grid|)
    requires i < |buf| && !Outside(w, xmin, ymin, width, |grid|, i)
    ensures PutFrame(w, true, buf, xmin, ymin, width, grid)[i] == PutFrame(w, true, buf', xmin, ymin, width, grid)[i]
  {
    hide Converted, Sink.Address, Shr, PutPixel, PutLine, PutFrame, ChannelByte, Separate;
    var c: nat, x: nat, y: nat :| Used(w, c) && xmin <= x < xmin + width && ymin <= y < ymin + |grid|
        && SinkOf(w, c).Address(x, y) == i;
    FrameSamples(w, buf, xmin, ymin, width, grid, c, x, y);
    FrameSamples(w, buf', xmin, ymin, width, grid, c, x, y);
  }

  /** Two buffers that agree outside the window's samples are the same after the window is written. */
  lemma SameAfterwards(w: Writer, buf: seq<int>, buf': seq<int>, xmin: nat, ymin: nat, width: nat,
                       grid: seq<seq<Pixel>>)
    requires AreBytes(buf) && AreBytes(buf') && |buf| == |buf'|
    requires Rectangular(grid, width) && w.Writable(|buf|, xmin + width, ymin + |grid|)
    requires ByteSinks(w) && Separate(w, xmin + width, ymin + |grid|)
    requires forall i: nat | i < |buf| && Outside(w, xmin, ymin, width, |grid|, i) :: buf[i] == buf'[i]
    ensures PutFrame(w, true, buf, xmin, ymin, width, grid) == PutFrame(w, true, buf', xmin, ymin, width, grid)
  {
    hide Converted, Sink.Address, Shr, PutPixel, PutLine, PutFrame, ChannelByte, Separate;
    var r, r' := PutFrame(w, true, buf, xmin, ymin, width, grid), PutFrame(w, true, buf', xmin, ymin, width, grid);
    forall i: nat | i < |buf|
      ensures r[i] == r'[i]
    {
      if Outside(w, xmin, ymin, width, |grid|, i) {
        FrameSparesOutside(w, buf, xmin, ymin, width, grid, i);
        FrameSparesOutside(w, buf', xmin, ymin, width, grid, i);
      } else {
        SameSamplesAfterwards(w, buf, buf', xmin, ymin, width, grid, i);
      }
    }
  }

  /** Nothing of an earlier frame shows: writing a picture over another one leaves the buffer that writing it alone
      would. */
  lemma NothingCarriedOver(w: Writer, buf: seq<int>, xmin: nat, ymin: nat, width: nat, grid0: seq<seq<Pixel>>,
                           grid: seq<seq<Pixel>>)
    requires AreBytes(buf) && Rectangular(grid0, width) && Rectangular(grid, width) && |grid0| == |grid|
    requires w.Writable(|buf|, xmin + width, ymin + |grid|)
    requires ByteSinks(w) && Separate(w, xmin + width, ymin + |grid|)
    ensures PutFrame(w, true, PutFrame(w, true, buf, xmin, ymin, width, grid0), xmin, ymin, width, grid)
            == PutFrame(w, true, buf, xmin, ymin, width, grid)
  {
    hide Converted, Sink.Address, Shr, PutPixel, PutLine, PutFrame, ChannelByte, Separate;
    var r0 := PutFrame(w, true, buf, xmin, ymin, width, grid0);
    forall i: nat | i < |buf| && Outside(w, xmin, ymin, width, |grid|, i)
      ensures r0[i] == buf[i]
    {
      FrameSparesOutside(w, buf, xmin, ymin, width, grid0, i);
    }
    SameAfterwards(w, r0, buf, xmin, ymin, width, grid);
  }
}
