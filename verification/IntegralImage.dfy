/** Box averaging through an integral image: the linear downscaler
    (VCamUtils/src/videoconverter.cpp, `integralImage1` and `readDL1`). Sums are exact integers;
    the double type of the original holds every sum and quotient of this size exactly enough to truncate alike. */
module IntegralImages {
  import opened Arithmetic
  import opened FrameLayout
  import opened Samples

  type Image = seq<seq<int>>

  predicate Shaped(img: Image, width: nat, height: nat)
  {
    |img| == height && forall y :: 0 <= y < height ==> |img[y]| == width
  }

  // ----- The reference: plain sums over a rectangle -----

  /** Sum of `line[x0..x1]`. */
  function LineSum(line: seq<int>, x0: nat, x1: nat): (s: int)
    requires x0 <= x1 <= |line|
  {
    if x0 == x1 then 0 else LineSum(line, x0, x1 - 1) + line[x1 - 1]
  }

  /** Sum of the samples in columns [x0, x1) of lines [y0, y1). */
  function BoxSum(img: Image, width: nat, x0: nat, x1: nat, y0: nat, y1: nat): (s: int)
    requires Shaped(img, width, |img|) && x0 <= x1 <= width && y0 <= y1 <= |img|
  {
    if y0 == y1 then 0 else BoxSum(img, width, x0, x1, y0, y1 - 1) + LineSum(img[y1 - 1], x0, x1)
  }

  lemma {:induction false} LineSumSplit(line: seq<int>, x0: nat, x1: nat, x2: nat)
    requires x0 <= x1 <= x2 <= |line|
    ensures LineSum(line, x0, x2) == LineSum(line, x0, x1) + LineSum(line, x1, x2)
  {
    if x1 < x2 {
      LineSumSplit(line, x0, x1, x2 - 1);
    }
  }

  lemma {:induction false} BoxSumSplitColumns(img: Image, width: nat, x0: nat, x1: nat, x2: nat, y0: nat, y1: nat)
    requires Shaped(img, width, |img|) && x0 <= x1 <= x2 <= width && y0 <= y1 <= |img|
    ensures BoxSum(img, width, x0, x2, y0, y1) == BoxSum(img, width, x0, x1, y0, y1)
            + BoxSum(img, width, x1, x2, y0, y1)
  {
    if y0 < y1 {
      BoxSumSplitColumns(img, width, x0, x1, x2, y0, y1 - 1);
      LineSumSplit(img[y1 - 1], x0, x1, x2);
    }
  }

  lemma {:induction false} BoxSumSplitLines(img: Image, width: nat, x0: nat, x1: nat, y0: nat, y1: nat, y2: nat)
    requires Shaped(img, width, |img|) && x0 <= x1 <= width && y0 <= y1 <= y2 <= |img|
    ensures BoxSum(img, width, x0, x1, y0, y2) == BoxSum(img, width, x0, x1, y0, y1)
            + BoxSum(img, width, x0, x1, y1, y2)
  {
    if y1 < y2 {
      BoxSumSplitLines(img, width, x0, x1, y0, y1, y2 - 1);
    }
  }

  lemma {:induction false} LineSumBounds(line: seq<int>, x0: nat, x1: nat, lo: int, hi: int)
    requires x0 <= x1 <= |line| && forall x :: x0 <= x < x1 ==> lo <= line[x] <= hi
    ensures lo * (x1 - x0) <= LineSum(line, x0, x1) <= hi * (x1 - x0)
  {
    if x0 < x1 {
      LineSumBounds(line, x0, x1 - 1, lo, hi);
      assert lo * (x1 - x0) == lo * (x1 - 1 - x0) + lo && hi * (x1 - x0) == hi * (x1 - 1 - x0) + hi;
    }
  }

  lemma {:induction false} BoxSumBounds(img: Image, width: nat, x0: nat, x1: nat, y0: nat, y1: nat, lo: int, hi: int)
    requires Shaped(img, width, |img|) && x0 <= x1 <= width && y0 <= y1 <= |img|
    requires forall y, x :: y0 <= y < y1 && x0 <= x < x1 ==> lo <= img[y][x] <= hi
    ensures lo * ((x1 - x0) * (y1 - y0)) <= BoxSum(img, width, x0, x1, y0, y1) <= hi * ((x1 - x0) * (y1 - y0))
  {
    if y0 < y1 {
      BoxSumBounds(img, width, x0, x1, y0, y1 - 1, lo, hi);
      LineSumBounds(img[y1 - 1], x0, x1, lo, hi);
      var w := x1 - x0;
      assert w * (y1 - y0) == w * (y1 - 1 - y0) + w;
      AddRow(lo, w * (y1 - 1 - y0), w);
      AddRow(hi, w * (y1 - 1 - y0), w);
    } else {
      assert (x1 - x0) * 0 == 0;
    }
  }

  lemma AddRow(v: int, a: int, b: int)
    ensures v * (a + b) == v * a + v * b
  {
  }

  // ----- The integral image -----

  /** Position of (x, y) in a buffer of lines one longer than the image. */
  function At(width: nat, x: nat, y: nat): (r: nat)
  {
    y * (width + 1) + x
  }

  /** What the buffer holds at flat position `i`: the sum of all samples above and to the left. */
  function PrefixAt(img: Image, width: nat, i: nat): (s: int)
    requires Shaped(img, width, |img|) && i < At(width, 0, |img| + 1)
  {
    PrefixIndex(width, |img|, i);
    BoxSum(img, width, 0, i % (width + 1), 0, i / (width + 1))
  }

  lemma PrefixIndex(width: nat, height: nat, i: nat)
    requires i < At(width, 0, height + 1)
    ensures 0 <= i % (width + 1) <= width && 0 <= i / (width + 1) <= height
    ensures i == At(width, i % (width + 1), i / (width + 1))
  {
    DivBounds(i, width + 1);
    DivSign(i, width + 1);
    DivAtMost(i, width + 1, height);
  }

  lemma AtParts(width: nat, x: nat, y: nat)
    requires x <= width
    ensures At(width, x, y) / (width + 1) == y && At(width, x, y) % (width + 1) == x
  {
    DivIs(At(width, x, y), width + 1, y);
  }

  lemma AtBelow(width: nat, x: nat, y: nat, height: nat)
    requires x <= width && y <= height
    ensures At(width, x, y) < At(width, 0, height + 1)
    ensures At(width, x, y) + (width + 1) == At(width, x, y + 1)
  {
    MulLe(width + 1, y + 1, height + 1);
  }

  /** The buffer is the integral image of `img`. */
  predicate IsIntegral(buffer: seq<int>, img: Image, width: nat)
    requires Shaped(img, width, |img|)
  {
    |buffer| == At(width, 0, |img| + 1) && forall i :: 0 <= i < |buffer| ==> buffer[i] == PrefixAt(img, width, i)
  }

  /** Row 0 and column 0 of the buffer are zero: what clearing it after allocation is for. */
  predicate ZeroBorder(buffer: seq<int>, width: nat, height: nat)
  {
    && |buffer| == At(width, 0, height + 1)
    && (forall x :: 0 <= x <= width ==> buffer[x] == 0)
    && (forall y: nat {:trigger At(width, 0, y)} | y <= height ::
          At(width, 0, y) < |buffer| && buffer[At(width, 0, y)] == 0)
  }

  /** Two running lines turn the samples into their integral image, whatever the buffer's interior held before. */
  method IntegralImage1(view: ComponentView, width: nat, height: nat, dst: array<int>)
    requires view.Readable(width, height)
    requires ZeroBorder(dst[..], width, height)
    modifies dst
    ensures IsIntegral(dst[..], view.Image(width, height), width)
    ensures ZeroBorder(dst[..], width, height)
  {
    hide At, PrefixAt, BoxSum, LineSum, ComponentView.SampleAt;
    ghost var img := view.Image(width, height);
    var line, line1 := 0, width + 1;
    ghost var border := dst[..];
    FirstLine(border, img, width, height);
    var y := 0;
    while y < height
      invariant 0 <= y <= height
      invariant line == At(width, 0, y) && line1 == At(width, 0, y + 1)
      invariant dst.Length == At(width, 0, height + 1)
      invariant forall i :: 0 <= i < line1 && i < dst.Length ==> dst[i] == PrefixAt(img, width, i)
      invariant forall i :: line1 <= i < dst.Length ==> dst[i] == border[i]
    {
      LineStarts(width, y, height);
      FirstCell(img, width, y + 1);
      assert border[line1] == 0;
      var sumX := 0;
      EmptyLineSum(img[y]);
      var x := 0;
      while x < width
        invariant 0 <= x <= width
        invariant sumX == LineSum(img[y], 0, x)
        invariant forall i :: 0 <= i <= line1 + x ==> dst[i] == PrefixAt(img, width, i)
        invariant forall i :: line1 + x < i < dst.Length ==> dst[i] == border[i]
      {
        LineSumStep(img[y], x);
        NextCell(img, width, x + 1, y);
        sumX := sumX + view.SampleAt(x, y);
        var x1 := x + 1;
        dst[line1 + x1] := sumX + dst[line + x1];
        x := x + 1;
      }
      line := line + (width + 1);
      line1 := line1 + (width + 1);
      y := y + 1;
    }
    LineStarts(width, height, height);
    BorderOfIntegral(dst[..], img, width);
  }

  lemma EmptyLineSum(line: seq<int>)
    ensures LineSum(line, 0, 0) == 0
  {
  }

  lemma LineSumStep(line: seq<int>, x: nat)
    requires x < |line|
    ensures LineSum(line, 0, x + 1) == LineSum(line, 0, x) + line[x]
  {
  }

  lemma LineStarts(width: nat, y: nat, height: nat)
    requires y <= height
    ensures At(width, 0, y + 1) == At(width, 0, y) + (width + 1)
    ensures At(width, 0, y + 2) == At(width, 0, y + 1) + (width + 1)
    ensures y < height ==> At(width, 0, y + 1) + width < At(width, 0, height + 1)
    ensures At(width, 0, y + 1) <= At(width, 0, height + 1)
  {
    AtBelow(width, width, y, height);
    if y < height {
      AtBelow(width, width, y + 1, height);
    }
  }

  lemma FirstCell(img: Image, width: nat, y: nat)
    requires Shaped(img, width, |img|) && y <= |img|
    ensures At(width, 0, y) < At(width, 0, |img| + 1) && PrefixAt(img, width, At(width, 0, y)) == 0
  {
    AtBelow(width, 0, y, |img|);
    AtParts(width, 0, y);
    BoxSumNoColumns(img, width, 0, y);
  }

  /** A cell is the running sum of its line plus the cell above it. */
  lemma NextCell(img: Image, width: nat, x: nat, y: nat)
    requires Shaped(img, width, |img|) && x <= width && y < |img|
    ensures At(width, 0, y) + x < At(width, 0, |img| + 1) && At(width, 0, y + 1) + x < At(width, 0, |img| + 1)
    ensures PrefixAt(img, width, At(width, 0, y + 1) + x) == LineSum(img[y], 0, x)
            + PrefixAt(img, width, At(width, 0, y) + x)
  {
    AtBelow(width, x, y, |img|);
    AtBelow(width, x, y + 1, |img|);
    AtParts(width, x, y);
    AtParts(width, x, y + 1);
    assert At(width, x, y) == At(width, 0, y) + x && At(width, x, y + 1) == At(width, 0, y + 1) + x;
  }

  lemma {:induction false} BoxSumNoColumns(img: Image, width: nat, x: nat, y: nat)
    requires Shaped(img, width, |img|) && x <= width && y <= |img|
    ensures BoxSum(img, width, x, x, 0, y) == 0
  {
    if y > 0 {
      BoxSumNoColumns(img, width, x, y - 1);
    }
  }

  lemma FirstLine(border: seq<int>, img: Image, width: nat, height: nat)
    requires ZeroBorder(border, width, height) && Shaped(img, width, height)
    ensures width + 1 == At(width, 0, 1) <= |border|
    ensures forall i :: 0 <= i < width + 1 ==> border[i] == PrefixAt(img, width, i)
    ensures At(width, 0, 0) == 0
  {
    AtBelow(width, width, 0, height);
    forall i | 0 <= i < width + 1
      ensures border[i] == PrefixAt(img, width, i)
    {
      AtParts(width, i, 0);
    }
  }

  lemma BorderOfIntegral(buffer: seq<int>, img: Image, width: nat)
    requires Shaped(img, width, |img|) && IsIntegral(buffer, img, width)
    ensures ZeroBorder(buffer, width, |img|)
  {
    forall x | 0 <= x <= width
      ensures x < |buffer| && buffer[x] == 0
    {
      AtBelow(width, x, 0, |img|);
      AtParts(width, x, 0);
    }
    forall y: nat | y <= |img|
      ensures At(width, 0, y) < |buffer| && buffer[At(width, 0, y)] == 0
    {
      AtBelow(width, 0, y, |img|);
      AtParts(width, 0, y);
      BoxSumNoColumns(img, width, 0, y);
    }
  }

  // ----- Reading a box -----

  /** `readDL1`: four corners of the integral image, divided by the box area. */
  function ReadBox(buffer: seq<int>, line: nat, line1: nat, xs: nat, xs1: nat, k: int): (r: int)
    requires line + xs < |buffer| && line + xs1 < |buffer| && line1 + xs < |buffer| && line1 + xs1 < |buffer| && k != 0
  {
    Quot(buffer[line + xs] + buffer[line1 + xs1] - buffer[line + xs1] - buffer[line1 + xs], k)
  }

  /** The four corners give exactly the sum over the box. */
  lemma FourCorners(buffer: seq<int>, img: Image, width: nat, x0: nat, x1: nat, y0: nat, y1: nat)
    requires Shaped(img, width, |img|) && IsIntegral(buffer, img, width)
    requires x0 <= x1 <= width && y0 <= y1 <= |img|
    ensures At(width, x0, y0) < |buffer| && At(width, x1, y0) < |buffer| && At(width, x0, y1) < |buffer|
            && At(width, x1, y1) < |buffer|
    ensures buffer[At(width, x0, y0)] + buffer[At(width, x1, y1)] - buffer[At(width, x1, y0)]
            - buffer[At(width, x0, y1)]
            == BoxSum(img, width, x0, x1, y0, y1)
  {
    AtBelow(width, x0, y0, |img|);
    AtBelow(width, x1, y0, |img|);
    AtBelow(width, x0, y1, |img|);
    AtBelow(width, x1, y1, |img|);
    AtParts(width, x0, y0);
    AtParts(width, x1, y0);
    AtParts(width, x0, y1);
    AtParts(width, x1, y1);
    BoxSumSplitColumns(img, width, 0, x0, x1, 0, y0);
    BoxSumSplitColumns(img, width, 0, x0, x1, 0, y1);
    BoxSumSplitLines(img, width, x0, x1, 0, y0, y1);
  }

  /** The plain average of a box, rounded down. */
  function BoxMean(img: Image, width: nat, x0: nat, x1: nat, y0: nat, y1: nat): (m: int)
    requires Shaped(img, width, |img|) && x0 < x1 <= width && y0 < y1 <= |img|
  {
    BoxSum(img, width, x0, x1, y0, y1) / ((x1 - x0) * (y1 - y0))
  }

  /** The average lies between any bounds on the samples of the box, so it fits the sample type again. */
  lemma BoxMeanRange(img: Image, width: nat, x0: nat, x1: nat, y0: nat, y1: nat, lo: int, hi: int)
    requires Shaped(img, width, |img|) && x0 < x1 <= width && y0 < y1 <= |img|
    requires forall y, x :: y0 <= y < y1 && x0 <= x < x1 ==> lo <= img[y][x] <= hi
    ensures lo <= BoxMean(img, width, x0, x1, y0, y1) <= hi
  {
    BoxSumBounds(img, width, x0, x1, y0, y1, lo, hi);
    var area, s := (x1 - x0) * (y1 - y0), BoxSum(img, width, x0, x1, y0, y1);
    MulLe(x1 - x0, 1, y1 - y0);
    assert area * lo == lo * area && area * hi == hi * area;
    DivAtLeast(s, area, lo);
    DivAtMost(s, area, hi);
  }
}
