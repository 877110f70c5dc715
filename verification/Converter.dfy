/** `VideoConverter` as its callers see it, over whole runs (VCamUtils/src/videoconverter.cpp). */
module Converter {
  import opened FrameLayout
  import opened Samples
  import opened Scaling
  import opened IntegralImages
  import opened ColorMatrices
  import opened Conversion
  import opened ConverterCache

  const CACHE_BLOCK_SIZE := 8

  /** `VideoFrame::operator bool`. */
  predicate IsFrame(f: Frame)
  {
    f.format.format != NoFormat && f.format.width > 0 && f.format.height > 0 && f.data != []
  }

  /** Nothing to do: the frame has the output format and no rectangle is set. */
  predicate PassedOn(s: Settings, f: Frame)
  {
    f.format.SameAs(s.outputFormat) && s.inputRect.IsEmpty()
  }

  /** The conversion needs a cache slot. */
  predicate NeedsSlot(s: Settings, f: Frame)
  {
    IsFrame(f) && !PassedOn(s, f)
  }

  /** A call within the served requests. */
  predicate Convertible(s: Settings, f: Frame)
  {
    NeedsSlot(s, f) ==> Served(Request(f.format, s)) && Holds(f.format, f.data)
  }

  /** What one conversion gives, cache or no cache. */
  ghost function Reference(fill: Fill, s: Settings, f: Frame): (r: Frame)
    requires Convertible(s, f)
  {
    if !IsFrame(f) then EMPTY
    else if PassedOn(s, f) then f
    else ConvertedFrame(fill, Request(f.format, s), f.data)
  }

  /** The frames are the same, or have the same format and samples. */
  ghost predicate Matches(a: Frame, b: Frame)
  {
    a == b || SameSamples(a, b)
  }

  ghost predicate AllMatch(a: seq<Frame>, b: seq<Frame>)
  {
    |a| == |b| && forall i :: 0 <= i < |a| ==> Matches(a[i], b[i])
  }

  class VideoConverter {
    var settings: Settings
    var cacheIndex: nat
    var slots: seq<CacheSlot>
    ghost const fill: Fill

    ghost function SlotObjects(): (os: set<object>)
      reads this, slots
    {
      set s, o | s in slots && o in s.Repr :: o
    }

    ghost function Footprint(): (os: set<object>)
      reads this, slots
    {
      {this} + SlotObjects()
    }

    ghost predicate Valid()
      reads this, slots, SlotObjects()
    {
      && (slots == [] || |slots| >= CACHE_BLOCK_SIZE)
      && (forall i :: 0 <= i < |slots| ==> slots[i].Valid() && slots[i].fill == fill && this !in slots[i].Repr)
      && (forall i, j :: 0 <= i < j < |slots| ==> slots[i].Repr !! slots[j].Repr)
    }

    constructor (outputFormat: VideoFormat, ghost fill: Fill)
      ensures Valid() && fresh(Footprint())
      ensures settings == Settings(outputFormat, ITUR_BT601, StudioSwing, ScalingFast, Ignore, Rect(0, 0, 0, 0))
      ensures cacheIndex == 0 && slots == [] && this.fill == fill
    {
      this.fill := fill;
      settings := Settings(outputFormat, ITUR_BT601, StudioSwing, ScalingFast, Ignore, Rect(0, 0, 0, 0));
      cacheIndex := 0;
      slots := [];
    }

    /** The first block of slots. */
    method AllocateSlots()
      requires Valid() && slots == []
      modifies this`slots
      ensures Valid() && |slots| == cacheIndex + CACHE_BLOCK_SIZE
      ensures fresh(Footprint() - old(Footprint()))
    {
      hide CacheSlot.Coherent;
      var n := cacheIndex + CACHE_BLOCK_SIZE;
      ghost var others: set<object> := {};
      var made: seq<CacheSlot> := [];
      while |made| < n
        invariant |made| <= n
        invariant forall i :: 0 <= i < |made| ==>
              fresh(made[i]) && made[i].Valid() && made[i].fill == fill && fresh(made[i].Repr)
        invariant forall i :: 0 <= i < |made| ==> made[i].Repr <= others
        invariant fresh(others)
        invariant forall i, j :: 0 <= i < j < |made| ==> made[i].Repr !! made[j].Repr
      {
        var slot := new CacheSlot(fill);
        made := made + [slot];
        others := others + slot.Repr;
      }
      slots := made;
    }

    /** `VideoConverterPrivate::convert` inside the first block of slots. `memory` is what new buffers hold, should the
        slot need any. */
    method ConvertCached(frame: Frame, memory: Memory) returns (out: Frame)
      requires Valid() && (if slots == [] then cacheIndex < CACHE_BLOCK_SIZE else cacheIndex < |slots|)
      requires Served(Request(frame.format, settings)) && Holds(frame.format, frame.data)
      requires memory.Fits(fill, Request(frame.format, settings))
      modifies Footprint()
      ensures Valid() && settings == old(settings) && cacheIndex == old(cacheIndex) + 1
      ensures |slots| == if old(slots) == [] then old(cacheIndex) + CACHE_BLOCK_SIZE else |old(slots)|
      ensures fresh(Footprint() - old(Footprint()))
      ensures Matches(out, ConvertedFrame(fill, Request(frame.format, settings), frame.data))
    {
      hide Served, CacheSlot.Coherent, CacheSlot.Shape, Memory.Fits, Holds, ConvertedFrame, Matches;
      if slots == [] {
        AllocateSlots();
      }
      out := ConvertIn(slots[cacheIndex], cacheIndex, frame, memory);
      cacheIndex := cacheIndex + 1;
    }

    /** Conversion in slot `k`. */
    method ConvertIn(fc: CacheSlot, ghost k: nat, frame: Frame, memory: Memory) returns (out: Frame)
      requires Valid() && k < |slots| && fc == slots[k]
      requires Served(Request(frame.format, settings)) && Holds(frame.format, frame.data)
      requires memory.Fits(fill, Request(frame.format, settings))
      modifies fc.Repr
      ensures Valid() && fresh(Footprint() - old(Footprint()))
      ensures Matches(out, ConvertedFrame(fill, Request(frame.format, settings), frame.data))
    {
      hide Served, CacheSlot.Coherent, Memory.Fits, Holds, ConvertedFrame, FrameBytes, Written, Matches;
      ghost var was := fc.Repr;
      var r := Request(frame.format, settings);
      out := ConvertWith(fc, r, frame, memory);
      forall i | 0 <= i < |slots| && i != k
        ensures slots[i].Valid() && slots[i].Repr == old(slots[i].Repr)
      {
        assert slots[i].Repr !! was;
      }
    }

    static method ConvertWith(fc: CacheSlot, r: Request, frame: Frame, memory: Memory) returns (out: Frame)
      requires fc.Valid() && r.input == frame.format && Served(r) && Holds(r.input, frame.data)
      requires memory.Fits(fc.fill, r)
      modifies fc.Repr
      ensures fc.Valid() && fresh(fc.Repr - old(fc.Repr))
      ensures Matches(out, ConvertedFrame(fc.fill, r, frame.data))
    {
      hide Served, ZeroBorder, FrameBytes, Written, SameSamples, Memory.Fits, CacheSlot.ColourReady, PlanesSize,
        GeometryOf, LinesInside;
      if fc.Stored() != r {
        fc.Update(r, memory);
      }
      SlotFormat(fc, r);
      if fc.outputConvertFormat.SameAs(frame.format) {
        return frame;
      }
      fc.ConvertFast8Bits(r, frame.data);
      SlotFormat(fc, r);
      return Frame(fc.outputConvertFormat, fc.output[..]);
    }

    /** The public `convert`. */
    method Convert(frame: Frame, memory: Memory) returns (out: Frame)
      requires Valid() && Convertible(settings, frame)
      requires NeedsSlot(settings, frame)
               ==> (if slots == [] then cacheIndex < CACHE_BLOCK_SIZE else cacheIndex < |slots|)
      requires NeedsSlot(settings, frame) ==> memory.Fits(fill, Request(frame.format, settings))
      modifies Footprint()
      ensures Valid() && settings == old(settings) && fresh(Footprint() - old(Footprint()))
      ensures cacheIndex == old(cacheIndex) + if NeedsSlot(settings, frame) then 1 else 0
      ensures slots == [] <==> old(slots) == [] && !NeedsSlot(settings, frame)
      ensures Matches(out, Reference(fill, settings, frame))
    {
      hide Served, Memory.Fits, Holds, ConvertedFrame, Valid, SameSamples;
      if !IsFrame(frame) {
        return EMPTY;
      }
      if frame.format.SameAs(settings.outputFormat) && settings.inputRect.IsEmpty() {
        return frame;
      }
      out := ConvertCached(frame, memory);
    }

    /** Every other operation of the object. */
    method Adjust(op: Operation)
      requires Valid() && !op.Convert?
      modifies this
      ensures Valid() && settings == SettingsAfter(old(settings), op)
              && cacheIndex == IndexAfter(old(settings), old(cacheIndex), op)
      ensures Footprint() <= old(Footprint()) && |slots| <= |old(slots)|
    {
      hide CacheSlot.Valid;
      match op
      case SetOutputFormat(f) => settings := settings.(outputFormat := f);
      case SetYuvColorSpace(space) => settings := settings.(space := space);
      case SetYuvColorSpaceType(swing) => settings := settings.(swing := swing);
      case SetScalingMode(mode) => settings := settings.(scaling := mode);
      case SetAspectRatioMode(mode) => settings := settings.(aspect := mode);
      case SetInputRect(rect) => settings := settings.(inputRect := rect);
      case SetCacheIndex(i) => cacheIndex := i;
      case Begin => cacheIndex := 0;
      case End => cacheIndex := 0;
      case Reset => slots := [];
    }

    method Step(op: Operation) returns (out: seq<Frame>)
      requires Valid() && Answerable(settings, op) && Housed(fill, settings, cacheIndex, op)
      modifies Footprint()
      ensures Valid() && fresh(Footprint() - old(Footprint()))
      ensures settings == SettingsAfter(old(settings), op)
              && cacheIndex == IndexAfter(old(settings), old(cacheIndex), op)
      ensures AllMatch(out, Output(fill, old(settings), op))
    {
      hide Convertible, NeedsSlot, Reference, Memory.Fits, CacheSlot.Valid, Matches;
      if op.Convert? {
        var frame := Convert(op.frame, op.memory);
        out := [frame];
      } else {
        Adjust(op);
        out := [];
      }
    }

    /** Cache coherence: over any run that stays below the first block of slots, every sample of every frame comes out
        as from a freshly configured converter. No setting, slot, table or buffer of the past shows. */
    method Run(ops: seq<Operation>) returns (outs: seq<Frame>)
      requires Valid() && AllAnswerable(settings, ops) && AllHoused(fill, settings, cacheIndex, ops)
      modifies Footprint()
      ensures Valid() && AllMatch(outs, Outputs(fill, old(settings), ops))
    {
      hide Answerable, Housed, Output, Outputs, Valid, SettingsAfter, IndexAfter, AllMatch;
      outs := [];
      ghost var expected: seq<Frame> := [];
      assert AllMatch(outs, expected) by { NoneMatch(); }
      assert ops[0..] == ops;
      var i := 0;
      while i < |ops|
        invariant 0 <= i <= |ops|
        invariant Valid() && fresh(Footprint() - old(Footprint()))
        invariant AllAnswerable(settings, ops[i..]) && AllHoused(fill, settings, cacheIndex, ops[i..])
        invariant expected + Outputs(fill, settings, ops[i..]) == Outputs(fill, old(settings), ops)
        invariant AllMatch(outs, expected)
      {
        assert ops[i..][0] == ops[i] && ops[i..][1..] == ops[i + 1..];
        NextOutput(fill, settings, ops[i..], expected);
        ghost var next := Output(fill, settings, ops[i]);
        var out := Step(ops[i]);
        MatchBoth(outs, out, expected, next);
        expected := expected + next;
        outs := outs + out;
        i := i + 1;
      }
      NoOutputs(fill, settings);
      assert expected + [] == expected && ops[i..] == [];
    }
  }

  lemma NoneMatch()
    ensures AllMatch([], [])
  {
  }

  lemma NoOutputs(fill: Fill, s: Settings)
    ensures Outputs(fill, s, []) == []
  {
  }

  lemma MatchBoth(a: seq<Frame>, a': seq<Frame>, b: seq<Frame>, b': seq<Frame>)
    requires AllMatch(a, b) && AllMatch(a', b')
    ensures AllMatch(a + a', b + b')
  {
    hide Matches;
  }

  lemma NextOutput(fill: Fill, s: Settings, ops: seq<Operation>, expected: seq<Frame>)
    requires ops != [] && AllAnswerable(s, ops)
    ensures expected + Outputs(fill, s, ops) == expected + Output(fill, s, ops[0])
            + Outputs(fill, SettingsAfter(s, ops[0]), ops[1..])
  {
    hide Output, SettingsAfter;
  }

  datatype Operation =
    | SetOutputFormat(format: VideoFormat)
    | SetYuvColorSpace(space: YuvColorSpace)
    | SetYuvColorSpaceType(swing: YuvColorSpaceType)
    | SetScalingMode(scaling: ScalingMode)
    | SetAspectRatioMode(aspect: AspectRatioMode)
    | SetInputRect(rect: Rect)
    | SetCacheIndex(index: nat)
    | Begin
    | End
    | Reset
    | Convert(frame: Frame, memory: Memory)

  function SettingsAfter(s: Settings, op: Operation): (r: Settings)
    ensures op.Convert? ==> r == s
  {
    match op
    case SetOutputFormat(f) => s.(outputFormat := f)
    case SetYuvColorSpace(space) => s.(space := space)
    case SetYuvColorSpaceType(swing) => s.(swing := swing)
    case SetScalingMode(mode) => s.(scaling := mode)
    case SetAspectRatioMode(mode) => s.(aspect := mode)
    case SetInputRect(rect) => s.(inputRect := rect)
    case _ => s
  }

  function IndexAfter(s: Settings, index: nat, op: Operation): (r: nat)
    ensures op.Convert? ==> r == index + if NeedsSlot(s, op.frame) then 1 else 0
  {
    match op
    case SetCacheIndex(i) => i
    case Begin => 0
    case End => 0
    case Convert(f, _) => if NeedsSlot(s, f) then index + 1 else index
    case _ => index
  }

  predicate Answerable(s: Settings, op: Operation)
  {
    op.Convert? ==> Convertible(s, op.frame)
  }

  /** A conversion in one of the first eight slots. */
  ghost predicate Housed(fill: Fill, s: Settings, index: nat, op: Operation)
    requires Answerable(s, op)
  {
    op.Convert? && NeedsSlot(s, op.frame) ==>
      index < CACHE_BLOCK_SIZE && op.memory.Fits(fill, Request(op.frame.format, s))
  }

  /** The frames an operation gives, computed from the settings in force and nothing else. */
  ghost function Output(fill: Fill, s: Settings, op: Operation): (outs: seq<Frame>)
    requires Answerable(s, op)
  {
    if op.Convert? then [Reference(fill, s, op.frame)] else []
  }

  predicate AllAnswerable(s: Settings, ops: seq<Operation>)
    decreases |ops|
  {
    ops != [] ==> Answerable(s, ops[0]) && AllAnswerable(SettingsAfter(s, ops[0]), ops[1..])
  }

  ghost predicate AllHoused(fill: Fill, s: Settings, index: nat, ops: seq<Operation>)
    requires AllAnswerable(s, ops)
    decreases |ops|
  {
    ops != [] ==>
      && Housed(fill, s, index, ops[0])
      && AllHoused(fill, SettingsAfter(s, ops[0]), IndexAfter(s, index, ops[0]), ops[1..])
  }

  /** The frames of a run. */
  ghost function Outputs(fill: Fill, s: Settings, ops: seq<Operation>): (outs: seq<Frame>)
    requires AllAnswerable(s, ops)
    decreases |ops|
  {
    if ops == [] then [] else Output(fill, s, ops[0]) + Outputs(fill, SettingsAfter(s, ops[0]), ops[1..])
  }
}
