/** What the converter answers, call by call and over whole runs: sizes, formats and samples
    (VCamUtils/src/videoconverter.cpp). */
module Answers {
  import opened Arithmetic
  import opened FrameLayout
  import opened Samples
  import opened Scaling
  import opened Boxes
  import opened Conversion
  import opened ConversionTheorems
  import opened PixelBytes
  import opened ConversionAccuracy
  import opened Converter

  /** A frame with a format, a size and bytes. */
  predicate Proper(f: Frame)
  {
    f.format.format != NoFormat && f.format.width >= 1 && f.format.height >= 1 && |f.data| >= 1
  }

  /** The source rectangle of a call: the input rectangle as far as it lies in the frame, or all of the frame. */
  function SourceOfCall(s: Settings, f: VideoFormat): (r: Rect)
  {
    SourceRect(f.width, f.height, s.inputRect)
  }

  /** Format and size of every answer. A frame without format, size or bytes gives an empty frame. Any other comes back
      in the format that is set, or its own if none is. In Ignore, Fit and Expanding mode it has the size that is set;
      in Keep mode the largest size within it that has the aspect ratio of the source rectangle. */
  lemma ReferenceSize(fill: Fill, s: Settings, f: Frame)
    requires Convertible(s, f)
    ensures !Proper(f) ==> Reference(fill, s, f) == EMPTY
    ensures Proper(f) ==>
              var out, src := Reference(fill, s, f).format, SourceOfCall(s, f.format);
              var width, height := if s.outputFormat.width > 1 then s.outputFormat.width else src.width,
                  if s.outputFormat.height > 1 then s.outputFormat.height else src.height;
              && out.format == (if s.outputFormat.format.NoFormat? then f.format.format else s.outputFormat.format)
              && out.fps == f.format.fps
              && if s.aspect.Keep? then FitsInto(out.width, out.height, width, height, src)
                 else out.width == width && out.height == height
  {
    hide Served, ConvertedFrame, GeometryOf, Holds, FitsInto;
    if Proper(f) {
      if f.format.SameAs(s.outputFormat) && s.inputRect.IsEmpty() {
        FitsWhole(f.format.width, f.format.height);
      } else {
        var k := Request(f.format, s).Key();
        GeometryMeans(k.iwidth, k.iheight, k.outWidth, k.outHeight, k.inputRect, k.mode);
      }
    }
  }

  lemma FitsWhole(width: int, height: int)
    requires width >= 1 && height >= 1
    ensures FitsInto(width, height, width, height, Rect(0, 0, width, height))
  {
  }

  /** An answer of the frame's own format and size is the frame itself; all others are conversions. */
  lemma ReferenceConverts(fill: Fill, s: Settings, f: Frame)
    requires Convertible(s, f) && Proper(f)
    ensures var out, r := Reference(fill, s, f), Request(f.format, s);
            if out.format.SameAs(f.format) then out == f
            else Served(r) && Holds(f.format, f.data) && !r.OutputFormat().SameAs(f.format)
                 && out == ConvertedFrame(fill, r, f.data)
  {
    hide Served, GeometryOf, Holds, Written;
  }

  /** The samples of an answer that is a conversion: for every component of every pair of byte formats, scaling mode,
      aspect mode and size, the sample that pixel (u, v) shares with a window pixel (x, y) is what the colour equations
      make of the resized input at the deciding pixel. */
  lemma ReferenceSample(fill: Fill, r: Request, f: Frame, out: Frame, t: ComponentType, x: nat, y: nat, u: nat, v: nat)
    requires Convertible(r.settings, f) && out == Reference(fill, r.settings, f)
    requires f.format == r.input && Proper(f) && !out.format.SameAs(f.format)
    requires Served(r) && Carries(r.Target(), t) && InWindow(r, x, y) && Grouped(r.Target(), t, u, v, x, y)
    requires u < out.format.width && v < out.format.height
    ensures Sampled(out.format, out.data, t) && Holds(r.input, f.data)
    ensures SampleMeans(r, f.data, t, Decides(r, t, x, y), SampleIn(out.format, out.data, t, u, v))
  {
    hide GeometryOf, Served, Holds, ConvertedFrame, SampleMeans, Sampled, SampleIn, Grouped, Carries, Decides, InWindow,
      ByteFormat;
    assert r == Request(f.format, r.settings);
    ReferenceConverts(fill, r.settings, f);
    ConvertedSample(fill, r, f.data, t, x, y, u, v);
  }

  // ----- Runs -----

  /** The settings in force before operation `n`. */
  function SettingsAt(s: Settings, ops: seq<Operation>, n: nat): (r: Settings)
    requires n <= |ops|
  {
    if n == 0 then s else SettingsAfter(SettingsAt(s, ops, n - 1), ops[n - 1])
  }

  datatype Knob = OutputFormatKnob | ColorSpaceKnob | SwingKnob | ScalingKnob | AspectKnob | RectKnob

  /** The operation sets the knob to what the settings say. */
  predicate Sets(op: Operation, knob: Knob)
  {
    match knob
    case OutputFormatKnob => op.SetOutputFormat?
    case ColorSpaceKnob => op.SetYuvColorSpace?
    case SwingKnob => op.SetYuvColorSpaceType?
    case ScalingKnob => op.SetScalingMode?
    case AspectKnob => op.SetAspectRatioMode?
    case RectKnob => op.SetInputRect?
  }

  predicate SetTo(s: Settings, op: Operation)
  {
    match op
    case SetOutputFormat(f) => s.outputFormat == f
    case SetYuvColorSpace(space) => s.space == space
    case SetYuvColorSpaceType(swing) => s.swing == swing
    case SetScalingMode(mode) => s.scaling == mode
    case SetAspectRatioMode(mode) => s.aspect == mode
    case SetInputRect(rect) => s.inputRect == rect
    case _ => true
  }

  predicate SameKnob(a: Settings, b: Settings, knob: Knob)
  {
    match knob
    case OutputFormatKnob => a.outputFormat == b.outputFormat
    case ColorSpaceKnob => a.space == b.space
    case SwingKnob => a.swing == b.swing
    case ScalingKnob => a.scaling == b.scaling
    case AspectKnob => a.aspect == b.aspect
    case RectKnob => a.inputRect == b.inputRect
  }

  /** Of several setters of one knob the last one counts; a knob that no setter touches stays. */
  lemma {:induction false} LastSetterCounts(s: Settings, ops: seq<Operation>, n: nat, knob: Knob)
    requires n <= |ops|
    ensures forall i :: 0 <= i < n && Sets(ops[i], knob) && (forall j :: i < j < n ==> !Sets(ops[j], knob)) ==>
              SetTo(SettingsAt(s, ops, n), ops[i])
    ensures (forall j :: 0 <= j < n ==> !Sets(ops[j], knob)) ==> SameKnob(SettingsAt(s, ops, n), s, knob)
  {
    if n > 0 {
      LastSetterCounts(s, ops, n - 1, knob);
      if !Sets(ops[n - 1], knob) {
        Untouched(SettingsAt(s, ops, n - 1), ops[n - 1], knob);
      }
    }
  }

  lemma Untouched(s: Settings, op: Operation, knob: Knob)
    requires !Sets(op, knob)
    ensures SameKnob(SettingsAfter(s, op), s, knob)
    ensures forall o: Operation :: Sets(o, knob) && SetTo(s, o) ==> SetTo(SettingsAfter(s, op), o)
  {
  }

  /** Conversions among the first `n` operations. */
  function Conversions(ops: seq<Operation>, n: nat): (k: nat)
    requires n <= |ops|
  {
    if n == 0 then 0 else Conversions(ops, n - 1) + if ops[n - 1].Convert? then 1 else 0
  }

  lemma {:induction false} ShiftedRun(s: Settings, ops: seq<Operation>, n: nat)
    requires 1 <= n <= |ops|
    ensures SettingsAt(s, ops, n) == SettingsAt(SettingsAfter(s, ops[0]), ops[1..], n - 1)
    ensures Conversions(ops, n) == Conversions(ops[1..], n - 1) + if ops[0].Convert? then 1 else 0
  {
    hide SettingsAfter;
    if n > 1 {
      ShiftedRun(s, ops, n - 1);
      assert ops[1..][n - 2] == ops[n - 1];
    }
  }

  /** Each conversion of a run is answered in its turn, under the settings in force. */
  lemma {:induction false} RunAnswers(fill: Fill, s: Settings, ops: seq<Operation>, n: nat)
    requires AllAnswerable(s, ops) && n < |ops| && ops[n].Convert?
    ensures Convertible(SettingsAt(s, ops, n), ops[n].frame)
    ensures var outs, k := Outputs(fill, s, ops), Conversions(ops, n);
            k < |outs| && outs[k] == Reference(fill, SettingsAt(s, ops, n), ops[n].frame)
    decreases |ops|
  {
    hide SettingsAfter, Reference, Convertible;
    if n > 0 {
      ShiftedRun(s, ops, n);
      RunAnswers(fill, SettingsAfter(s, ops[0]), ops[1..], n - 1);
      assert ops[1..][n - 1] == ops[n];
    }
  }

  /** The slot index before operation `n`. */
  function IndexAt(s: Settings, index: nat, ops: seq<Operation>, n: nat): (k: nat)
    requires n <= |ops|
  {
    if n == 0 then index
    else IndexAfter(SettingsAt(s, ops, n - 1), IndexAt(s, index, ops, n - 1), ops[n - 1])
  }

  /** Conversions of operations `from` to `n` that are neither empty nor passed on. */
  function SlotsTaken(s: Settings, ops: seq<Operation>, from: nat, n: nat): (k: nat)
    requires from <= n <= |ops|
  {
    if from == n then 0
    else
      var op := ops[n - 1];
      SlotsTaken(s, ops, from, n - 1) + if op.Convert? && NeedsSlot(SettingsAt(s, ops, n - 1), op.frame) then 1 else 0
  }

  /** `begin` and `end` start counting slots anew: each conversion after them takes the next one. */
  lemma {:induction false} SlotsCounted(s: Settings, index: nat, ops: seq<Operation>, b: nat, n: nat)
    requires b < n <= |ops| && (ops[b].Begin? || ops[b].End?)
    requires forall j :: b < j < n ==> !ops[j].Begin? && !ops[j].End? && !ops[j].SetCacheIndex?
    ensures IndexAt(s, index, ops, n) == SlotsTaken(s, ops, b + 1, n) <= n - b - 1
  {
    hide NeedsSlot, SettingsAfter;
    if n > b + 1 {
      SlotsCounted(s, index, ops, b, n - 1);
    }
  }
}
