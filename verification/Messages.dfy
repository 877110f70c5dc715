/** Encoding and decoding of the broker's messages (VCamUtils/src/message.cpp, message ids from
    VCamUtils/src/servicemsg.h, format codes from VCamUtils/src/videoformattypes.h). */
module Messages {
  import opened Bytes
  import opened Frames
  import opened Wire
  import FrameLayout

  const MSG_STATUS: int := 0x101
  const MSG_FRAME_READY: int := 0x102
  const MSG_BROADCAST: int := 0x201
  const MSG_LISTEN: int := 0x202

  // ----- Format codes and constructed frames -----

  /** The four-character code of a format, as stored by a little-endian machine: the first character is the low byte. */
  function FourCc(f: FrameLayout.PixelFormat): (r: nat)
    ensures r < INT32_MODULUS
  {
    match f
    case Xrgb => 0x42_47_52_58
    case Rgb24 => 0x18_42_47_52
    case Rgb565be => 0x52_47_05_41
    case Rgb565le => 0x41_05_47_52
    case Rgb555be => 0x52_47_05_37
    case Rgb555le => 0x37_05_47_52
    case Argb => 0x42_47_52_41
    case Bgrx => 0x58_52_47_42
    case Bgr24 => 0x18_52_47_42
    case Bgr565be => 0x42_47_05_41
    case Bgr565le => 0x41_05_47_42
    case Bgr555be => 0x42_47_05_37
    case Bgr555le => 0x37_05_47_42
    case Bgra => 0x41_52_47_42
    case Uyvy422 => 0x59_56_59_55
    case Yuyv422 => 0x02_59_55_59
    case Nv12 => 0x00_0c_56_4e
    case Nv21 => 0x00_15_56_4e
    case NoFormat => 0x00_00_00_00
  }

  /** The four characters of a code. The big-endian 16-bit formats have theirs in reverse. */
  function CodeLetters(f: FrameLayout.PixelFormat): (s: seq<int>)
    ensures AreBytes(s) && |s| == 4
  {
    var a, b, g, n, r, u, v, x, y := 65, 66, 71, 78, 82, 85, 86, 88, 89;
    match f
    case Xrgb => [x, r, g, b]
    case Rgb24 => [r, g, b, 24]
    case Rgb565be => [65, 5, g, r]
    case Rgb565le => [r, g, 5, 65]
    case Rgb555be => [55, 5, g, r]
    case Rgb555le => [r, g, 5, 55]
    case Argb => [a, r, g, b]
    case Bgrx => [b, g, r, x]
    case Bgr24 => [b, g, r, 24]
    case Bgr565be => [65, 5, g, b]
    case Bgr565le => [b, g, 5, 65]
    case Bgr555be => [55, 5, g, b]
    case Bgr555le => [b, g, 5, 55]
    case Bgra => [b, g, r, a]
    case Uyvy422 => [u, y, v, y]
    case Yuyv422 => [y, u, y, 2]
    case Nv12 => [n, v, 12, 0]
    case Nv21 => [n, v, 21, 0]
    case NoFormat => [0, 0, 0, 0]
  }

  lemma CodeOfLetters(f: FrameLayout.PixelFormat)
    ensures FourCc(f) == FromLe(CodeLetters(f))
  {
    var s := CodeLetters(f);
    assert FromLe(s) == s[0] + 256 * (s[1] + 256 * (s[2] + 256 * s[3])) by {
      FourBytes(s);
    }
  }

  lemma FourBytes(s: seq<int>)
    requires AreBytes(s) && |s| == 4
    ensures FromLe(s) == s[0] + 256 * (s[1] + 256 * (s[2] + 256 * s[3]))
  {
    assert s[1..][1..] == s[2..] && s[2..][1..] == s[3..] && s[3..][1..] == [];
    assert FromLe(s[3..]) == s[3];
    assert FromLe(s[2..]) == s[2] + 256 * s[3];
    assert FromLe(s[1..]) == s[1] + 256 * FromLe(s[2..]);
  }

  /** The table's formats in the order of the lookup. */
  const FORMATS: seq<FrameLayout.PixelFormat> :=
    [FrameLayout.Xrgb, FrameLayout.Rgb24, FrameLayout.Rgb565be, FrameLayout.Rgb565le, FrameLayout.Rgb555be,
     FrameLayout.Rgb555le,
     FrameLayout.Argb, FrameLayout.Bgrx, FrameLayout.Bgr24, FrameLayout.Bgr565be, FrameLayout.Bgr565le,
         FrameLayout.Bgr555be,
     FrameLayout.Bgr555le, FrameLayout.Bgra, FrameLayout.Uyvy422, FrameLayout.Yuyv422, FrameLayout.Nv12,
         FrameLayout.Nv21]

  function FindFormat(formats: seq<FrameLayout.PixelFormat>, code: int): (f: FrameLayout.PixelFormat)
  {
    if formats == [] then FrameLayout.NoFormat
    else if FourCc(formats[0]) == code then formats[0]
    else FindFormat(formats[1..], code)
  }

  /** The format of a code; unknown codes have none. */
  function FormatOf(code: int): (f: FrameLayout.PixelFormat)
  {
    FindFormat(FORMATS, code)
  }

  lemma {:induction false} FindFormatFinds(formats: seq<FrameLayout.PixelFormat>, f: FrameLayout.PixelFormat)
    requires f in formats
    ensures FourCc(FindFormat(formats, FourCc(f))) == FourCc(f)
  {
    if FourCc(formats[0]) != FourCc(f) {
      assert formats == [formats[0]] + formats[1..];
      FindFormatFinds(formats[1..], f);
    }
  }

  /** The codes one by one. */
  function Named(code: int): (f: FrameLayout.PixelFormat)
  {
    if code == FourCc(FrameLayout.Xrgb) then FrameLayout.Xrgb
    else if code == FourCc(FrameLayout.Rgb24) then FrameLayout.Rgb24
    else if code == FourCc(FrameLayout.Rgb565be) then FrameLayout.Rgb565be
    else if code == FourCc(FrameLayout.Rgb565le) then FrameLayout.Rgb565le
    else if code == FourCc(FrameLayout.Rgb555be) then FrameLayout.Rgb555be
    else if code == FourCc(FrameLayout.Rgb555le) then FrameLayout.Rgb555le
    else if code == FourCc(FrameLayout.Argb) then FrameLayout.Argb
    else if code == FourCc(FrameLayout.Bgrx) then FrameLayout.Bgrx
    else if code == FourCc(FrameLayout.Bgr24) then FrameLayout.Bgr24
    else if code == FourCc(FrameLayout.Bgr565be) then FrameLayout.Bgr565be
    else if code == FourCc(FrameLayout.Bgr565le) then FrameLayout.Bgr565le
    else if code == FourCc(FrameLayout.Bgr555be) then FrameLayout.Bgr555be
    else if code == FourCc(FrameLayout.Bgr555le) then FrameLayout.Bgr555le
    else if code == FourCc(FrameLayout.Bgra) then FrameLayout.Bgra
    else if code == FourCc(FrameLayout.Uyvy422) then FrameLayout.Uyvy422
    else if code == FourCc(FrameLayout.Yuyv422) then FrameLayout.Yuyv422
    else if code == FourCc(FrameLayout.Nv12) then FrameLayout.Nv12
    else if code == FourCc(FrameLayout.Nv21) then FrameLayout.Nv21
    else FrameLayout.NoFormat
  }

  lemma NamedFourCc(f: FrameLayout.PixelFormat)
    ensures Named(FourCc(f)) == f
  {
  }

  lemma FourCcInjective(f: FrameLayout.PixelFormat, g: FrameLayout.PixelFormat)
    ensures FourCc(f) == FourCc(g) ==> f == g
  {
    hide FourCc, Named;
    NamedFourCc(f);
    NamedFourCc(g);
  }

  /** Every table format is found under its own code. */
  lemma FormatOfFourCc(f: FrameLayout.PixelFormat)
    requires f in FORMATS
    ensures FormatOf(FourCc(f)) == f
  {
    FindFormatFinds(FORMATS, f);
    FourCcInjective(FormatOf(FourCc(f)), f);
  }

  /** Bytes of a frame constructed with a format. Negative sizes, for which the original computes wrapped-around
      byte counts, are taken as empty. */
  function FrameSize(format: int, width: int, height: int): (n: nat)
  {
    if width < 0 || height < 0 then 0
    else FrameLayout.PlanesSize(FrameLayout.FormatSpecs(FormatOf(format)).planes, width, height)
  }

  /** A frame as the `VideoFrame` constructors leave it. */
  predicate Constructed(f: VideoFrame)
  {
    && 0 <= f.format < INT32_MODULUS && 0 <= f.width && IsInt32(f.width) && 0 <= f.height && IsInt32(f.height)
    && AreBytes(f.data) && |f.data| == FrameSize(f.format, f.width, f.height) && |f.data| < UINT64_MODULUS
  }

  lemma EmptyFrameConstructed()
    ensures Constructed(EMPTY_FRAME)
  {
    hide FindFormat;
    NoFormatOfZero();
    assert FrameLayout.FormatSpecs(FrameLayout.NoFormat).planes == [];
  }

  lemma NoFormatOfZero()
    ensures FormatOf(0) == FrameLayout.NoFormat
  {
    hide FourCc, FindFormat;
    FindZero(FORMATS);
  }

  lemma FourCcNonZero(f: FrameLayout.PixelFormat)
    requires f != FrameLayout.NoFormat
    ensures FourCc(f) != 0
  {
  }

  lemma {:induction false} FindZero(formats: seq<FrameLayout.PixelFormat>)
    requires FrameLayout.NoFormat !in formats
    ensures FindFormat(formats, 0) == FrameLayout.NoFormat
  {
    hide FourCc;
    if formats != [] {
      FourCcNonZero(formats[0]);
      FindZero(formats[1..]);
    }
  }

  // ----- Message values -----

  datatype MsgStatus = MsgStatus(status: int, queryId: nat)

  datatype MsgListen = MsgListen(device: seq<int>, pid: nat, queryId: nat)

  datatype MsgBroadcast = MsgBroadcast(device: seq<int>, pid: nat, frame: VideoFrame, queryId: nat)

  datatype MsgFrameReady = MsgFrameReady(device: seq<int>, frame: VideoFrame, isActive: bool, queryId: nat)

  predicate ValidDevice(device: seq<int>)
  {
    AreBytes(device) && |device| < UINT64_MODULUS
  }

  function FrameHead(f: VideoFrame): (s: seq<int>)
    requires Constructed(f)
    ensures |s| == 20 && AreBytes(s)
  {
    Le(f.format, 4) + Le(Int32Bits(f.width), 4) + Le(Int32Bits(f.height), 4) + Le(|f.data|, 8)
  }

  function StatusBytes(m: MsgStatus): (s: seq<int>)
    requires IsInt32(m.status)
  {
    Le(Int32Bits(m.status), 4)
  }

  function ListenBytes(m: MsgListen): (s: seq<int>)
    requires ValidDevice(m.device) && m.pid < UINT64_MODULUS
  {
    Le(|m.device|, 8) + m.device + Le(m.pid, 8)
  }

  function BroadcastBytes(m: MsgBroadcast): (s: seq<int>)
    requires ValidDevice(m.device) && m.pid < UINT64_MODULUS && Constructed(m.frame)
  {
    Le(|m.device|, 8) + m.device + Le(m.pid, 8) + FrameHead(m.frame) + m.frame.data
  }

  function FrameReadyBytes(m: MsgFrameReady): (s: seq<int>)
    requires ValidDevice(m.device) && Constructed(m.frame)
  {
    Le(|m.device|, 8) + m.device + FrameHead(m.frame) + m.frame.data + [if m.isActive then 1 else 0]
  }

  // ----- Copying in and out of the payload -----

  /** `memcpy` into the payload. */
  function Put(data: seq<int>, offset: nat, s: seq<int>): (r: seq<int>)
    requires offset + |s| <= |data|
    ensures |r| == |data|
  {
    data[..offset] + s + data[offset + |s|..]
  }

  /** Successive copies lay their bytes out one after the other. */
  lemma PutAppends(data: seq<int>, done: seq<int>, s: seq<int>)
    requires |done| + |s| <= |data| && data[..|done|] == done
    ensures Put(data, |done|, s)[..|done| + |s|] == done + s
  {
  }

  /** `memcpy` out of the payload. */
  function Get(data: seq<int>, offset: nat, n: nat): (r: seq<int>)
    requires offset + n <= |data|
    ensures |r| == n && (AreBytes(data) ==> AreBytes(r))
  {
    data[offset..offset + n]
  }

  /** What lies behind a payload, as the size field it makes at an offset. */
  type Stray = nat -> nat

  /** A size field read before the total length is checked: past the end, the original reads whatever follows. */
  function SizeField(data: seq<int>, stray: Stray, offset: nat): (n: nat)
    requires AreBytes(data)
    ensures n < UINT64_MODULUS
    ensures offset + 8 <= |data| ==> n == FromLe(Get(data, offset, 8))
  {
    WordSizes();
    if offset + 8 <= |data| then FromLe(Get(data, offset, 8)) else stray(offset) % UINT64_MODULUS
  }

  /** A sum in `size_t`. */
  function Wrapped(total: nat): (r: nat)
    ensures r < UINT64_MODULUS && (total < UINT64_MODULUS ==> r == total)
  {
    total % UINT64_MODULUS
  }

  method StatusToMessage(m: MsgStatus) returns (r: Message)
    requires IsInt32(m.status)
    ensures r == Message(MSG_STATUS, m.queryId, StatusBytes(m))
  {
    var data := Put(seq(4, _ => 0), 0, Le(Int32Bits(m.status), 4));
    assert data == StatusBytes(m);
    return Message(MSG_STATUS, m.queryId, data);
  }

  /** Copies the device name, with its length, to the front of the payload. */
  method PutDevice(data0: seq<int>, device: seq<int>) returns (data: seq<int>, offset: nat)
    requires ValidDevice(device) && 8 + |device| <= |data0|
    ensures |data| == |data0| && offset == 8 + |device| && data[..offset] == Le(|device|, 8) + device
  {
    hide Le;
    PutAppends(data0, [], Le(|device|, 8));
    data := Put(data0, 0, Le(|device|, 8));
    offset := 8;
    if |device| > 0 {
      PutAppends(data, Le(|device|, 8), device);
      data := Put(data, offset, device);
      offset := offset + |device|;
    }
  }

  method ListenToMessage(m: MsgListen) returns (r: Message)
    requires ValidDevice(m.device) && m.pid < UINT64_MODULUS
    ensures r == Message(MSG_LISTEN, m.queryId, ListenBytes(m))
  {
    hide Le;
    var totalSize := 8 + |m.device| + 8;
    var data := seq(totalSize, _ => 0);
    var offset: nat;
    data, offset := PutDevice(data, m.device);
    ghost var done := Le(|m.device|, 8) + m.device;
    PutAppends(data, done, Le(m.pid, 8));
    data := Put(data, offset, Le(m.pid, 8));
    done := done + Le(m.pid, 8);
    assert data == data[..|done|] == done;
    return Message(MSG_LISTEN, m.queryId, data);
  }

  /** Copies the four frame fields at `offset`. */
  method PutFrameHead(data0: seq<int>, offset0: nat, f: VideoFrame, ghost done0: seq<int>)
      returns (data: seq<int>, offset: nat)
    requires Constructed(f) && offset0 == |done0| && offset0 + 20 <= |data0| && data0[..offset0] == done0
    ensures |data| == |data0| && offset == offset0 + 20 && data[..offset] == done0 + FrameHead(f)
  {
    hide Le, FrameSize;
    data, offset := data0, offset0;
    ghost var done := done0;
    PutAppends(data, done, Le(f.format, 4));
    data := Put(data, offset, Le(f.format, 4));
    done := done + Le(f.format, 4);
    offset := offset + 4;
    PutAppends(data, done, Le(Int32Bits(f.width), 4));
    data := Put(data, offset, Le(Int32Bits(f.width), 4));
    done := done + Le(Int32Bits(f.width), 4);
    offset := offset + 4;
    PutAppends(data, done, Le(Int32Bits(f.height), 4));
    data := Put(data, offset, Le(Int32Bits(f.height), 4));
    done := done + Le(Int32Bits(f.height), 4);
    offset := offset + 4;
    PutAppends(data, done, Le(|f.data|, 8));
    data := Put(data, offset, Le(|f.data|, 8));
    done := done + Le(|f.data|, 8);
    offset := offset + 8;
    assert done == done0 + FrameHead(f);
  }

  method BroadcastToMessage(m: MsgBroadcast) returns (r: Message)
    requires ValidDevice(m.device) && m.pid < UINT64_MODULUS && Constructed(m.frame)
    ensures r == Message(MSG_BROADCAST, m.queryId, BroadcastBytes(m))
  {
    hide Le, FrameHead, FrameSize;
    var totalSize := 8 + |m.device| + 8 + 4 + 4 + 4 + 8 + |m.frame.data|;
    var data := seq(totalSize, _ => 0);
    var offset: nat;
    data, offset := PutDevice(data, m.device);
    ghost var done := Le(|m.device|, 8) + m.device;
    PutAppends(data, done, Le(m.pid, 8));
    data := Put(data, offset, Le(m.pid, 8));
    done := done + Le(m.pid, 8);
    offset := offset + 8;
    data, offset := PutFrameHead(data, offset, m.frame, done);
    done := done + FrameHead(m.frame);
    if |m.frame.data| > 0 {
      PutAppends(data, done, m.frame.data);
      data := Put(data, offset, m.frame.data);
    }
    done := done + m.frame.data;
    assert data == data[..|done|] == done;
    return Message(MSG_BROADCAST, m.queryId, data);
  }

  method FrameReadyToMessage(m: MsgFrameReady) returns (r: Message)
    requires ValidDevice(m.device) && Constructed(m.frame)
    ensures r == Message(MSG_FRAME_READY, m.queryId, FrameReadyBytes(m))
  {
    hide Le, FrameHead, FrameSize;
    var totalSize := 8 + |m.device| + 4 + 4 + 4 + 8 + |m.frame.data| + 1;
    var data := seq(totalSize, _ => 0);
    var offset: nat;
    data, offset := PutDevice(data, m.device);
    ghost var done := Le(|m.device|, 8) + m.device;
    data, offset := PutFrameHead(data, offset, m.frame, done);
    done := done + FrameHead(m.frame);
    if |m.frame.data| > 0 {
      PutAppends(data, done, m.frame.data);
      data := Put(data, offset, m.frame.data);
      offset := offset + |m.frame.data|;
    }
    done := done + m.frame.data;
    var active := [if m.isActive then 1 else 0];
    PutAppends(data, done, active);
    data := Put(data, offset, active);
    done := done + active;
    assert data == data[..|done|] == done;
    return Message(MSG_FRAME_READY, m.queryId, data);
  }

  // ----- Decoding -----

  function DecodeStatus(m: Message): (r: MsgStatus)
    requires AreBytes(m.data)
  {
    if m.id != MSG_STATUS || |m.data| != 4 then MsgStatus(0, m.queryId)
    else
      WordSizes();
      MsgStatus(Int32Of(FromLe(m.data)), m.queryId)
  }

  /** The result of decoding an accepted payload, unless a copy leaves the payload or the frame it goes to. */
  datatype Decoding<T> = Decoded(value: T) | OutOfBounds

  function ListenTotal(data: seq<int>, stray: Stray): (n: nat)
    requires AreBytes(data)
  {
    8 + SizeField(data, stray, 0) + 8
  }

  predicate ListenAccepted(m: Message, stray: Stray)
    requires AreBytes(m.data)
  {
    m.id == MSG_LISTEN && |m.data| == Wrapped(ListenTotal(m.data, stray))
  }

  function DecodeListen(m: Message, stray: Stray): (r: Decoding<MsgListen>)
    requires AreBytes(m.data)
  {
    if !ListenAccepted(m, stray) then Decoded(MsgListen([], 0, m.queryId))
    else if ListenTotal(m.data, stray) > |m.data| then OutOfBounds
    else
      var n := SizeField(m.data, stray, 0);
      Decoded(MsgListen(Get(m.data, 8, n), FromLe(Get(m.data, 8 + n, 8)), m.queryId))
  }

  /** Bytes of a new frame with the format and size found at `offset`. */
  function AnnouncedSize(data: seq<int>, offset: nat): (n: nat)
    requires AreBytes(data) && offset + 12 <= |data|
  {
    WordSizes();
    FrameSize(FromLe(Get(data, offset, 4)), Int32Of(FromLe(Get(data, offset + 4, 4))),
              Int32Of(FromLe(Get(data, offset + 8, 4))))
  }

  /** The frame rebuilt from the fields at `offset`: a new frame of that format, filled with the bytes that follow as
      far as they go; no bytes, no frame. */
  function DecodeFrame(data: seq<int>, offset: nat, dataSize: nat): (f: VideoFrame)
    requires AreBytes(data) && offset + 20 + dataSize <= |data|
  {
    WordSizes();
    if dataSize == 0 then EMPTY_FRAME
    else
      var format := FromLe(Get(data, offset, 4));
      var width, height := Int32Of(FromLe(Get(data, offset + 4, 4))), Int32Of(FromLe(Get(data, offset + 8, 4)));
      var size := AnnouncedSize(data, offset);
      var n := if dataSize < size then dataSize else size;
      VideoFrame(format, width, height, Get(data, offset + 20, n) + seq(size - n, _ => 0))
  }

  /** Where a broadcast with a device name of `n` bytes keeps the size of its frame. */
  function BroadcastSizeAt(n: nat): (offset: nat)
  {
    Wrapped(8 + n + 8 + 12)
  }

  function BroadcastTotal(data: seq<int>, stray: Stray): (total: nat)
    requires AreBytes(data)
  {
    var n := SizeField(data, stray, 0);
    8 + n + 8 + 12 + 8 + SizeField(data, stray, BroadcastSizeAt(n))
  }

  predicate BroadcastAccepted(m: Message, stray: Stray)
    requires AreBytes(m.data)
  {
    m.id == MSG_BROADCAST && |m.data| == Wrapped(BroadcastTotal(m.data, stray))
  }

  /** The bytes copied into the frame are cut at its size. */
  function DecodeBroadcast(m: Message, stray: Stray): (r: Decoding<MsgBroadcast>)
    requires AreBytes(m.data)
  {
    if !BroadcastAccepted(m, stray) then Decoded(MsgBroadcast([], 0, EMPTY_FRAME, m.queryId))
    else if BroadcastTotal(m.data, stray) > |m.data| then OutOfBounds
    else
      var n := SizeField(m.data, stray, 0);
      Decoded(MsgBroadcast(Get(m.data, 8, n), FromLe(Get(m.data, 8 + n, 8)),
                           DecodeFrame(m.data, 8 + n + 8, SizeField(m.data, stray, BroadcastSizeAt(n))), m.queryId))
  }

  function FrameReadySizeAt(n: nat): (offset: nat)
  {
    Wrapped(8 + n + 12)
  }

  function FrameReadyTotal(data: seq<int>, stray: Stray): (total: nat)
    requires AreBytes(data)
  {
    var n := SizeField(data, stray, 0);
    8 + n + 12 + 8 + SizeField(data, stray, FrameReadySizeAt(n)) + 1
  }

  predicate FrameReadyAccepted(m: Message, stray: Stray)
    requires AreBytes(m.data)
  {
    m.id == MSG_FRAME_READY && |m.data| == Wrapped(FrameReadyTotal(m.data, stray))
  }

  /** Here the announced bytes are copied whole, whatever the size of the new frame. */
  function DecodeFrameReady(m: Message, stray: Stray): (r: Decoding<MsgFrameReady>)
    requires AreBytes(m.data)
  {
    if !FrameReadyAccepted(m, stray) then Decoded(MsgFrameReady([], EMPTY_FRAME, false, m.queryId))
    else if FrameReadyTotal(m.data, stray) > |m.data| then OutOfBounds
    else
      var n := SizeField(m.data, stray, 0);
      var dataSize := SizeField(m.data, stray, FrameReadySizeAt(n));
      if dataSize > 0 && dataSize > AnnouncedSize(m.data, 8 + n) then OutOfBounds
      else
        Decoded(MsgFrameReady(Get(m.data, 8, n), DecodeFrame(m.data, 8 + n, dataSize), m.data[|m.data| - 1] != 0,
                              m.queryId))
  }

  // ----- Round trips -----

  lemma StatusRoundTrip(m: MsgStatus)
    requires IsInt32(m.status)
    ensures DecodeStatus(Message(MSG_STATUS, m.queryId, StatusBytes(m))) == m
  {
    WordSizes();
    FromLeOfLe(Int32Bits(m.status), 4);
  }

  lemma ListenParts(m: MsgListen)
    requires ValidDevice(m.device) && m.pid < UINT64_MODULUS
    ensures var s, n := ListenBytes(m), |m.device|;
            AreBytes(s) && |s| == 16 + n && Get(s, 0, 8) == Le(n, 8) && Get(s, 8, n) == m.device
                && Get(s, 8 + n, 8) == Le(m.pid, 8)
  {
  }

  lemma ListenRoundTrip(m: MsgListen, stray: Stray)
    requires ValidDevice(m.device) && m.pid < UINT64_MODULUS && |ListenBytes(m)| < UINT64_MODULUS
    ensures AreBytes(ListenBytes(m))
    ensures DecodeListen(Message(MSG_LISTEN, m.queryId, ListenBytes(m)), stray) == Decoded(m)
  {
    hide Le, FromLe;
    ListenParts(m);
    WordSizes();
    FromLeOfLe(|m.device|, 8);
    FromLeOfLe(m.pid, 8);
  }

  /** The payload is the encoding of some request. */
  ghost predicate IsListen(data: seq<int>)
  {
    exists r: MsgListen :: ValidDevice(r.device) && r.pid < UINT64_MODULUS && ListenBytes(r) == data
  }

  /** A listen request is accepted just when its payload is the encoding of some request, or when it announces a name so
      long that the sum of sizes wraps; then the copy leaves the payload. So a name that fits makes the two the same. */
  lemma ListenAcceptsEncodings(m: Message, stray: Stray)
    requires AreBytes(m.data) && m.id == MSG_LISTEN && |m.data| < UINT64_MODULUS
    ensures var n := SizeField(m.data, stray, 0);
            && (ListenAccepted(m, stray) <==> IsListen(m.data) || 16 + n == |m.data| + UINT64_MODULUS)
            && (n <= |m.data| ==> (ListenAccepted(m, stray) <==> IsListen(m.data)))
            && (DecodeListen(m, stray).OutOfBounds? <==> 16 + n == |m.data| + UINT64_MODULUS)
  {
    hide ListenBytes, IsListen, FromLe, Le, Get;
    if ListenAccepted(m, stray) && 16 + SizeField(m.data, stray, 0) < UINT64_MODULUS {
      AcceptedIsEncoding(m, stray);
    }
    if IsListen(m.data) {
      EncodingAccepted(m, stray);
    }
  }

  lemma AcceptedIsEncoding(m: Message, stray: Stray)
    requires AreBytes(m.data) && ListenAccepted(m, stray) && 16 + SizeField(m.data, stray, 0) < UINT64_MODULUS
    ensures IsListen(m.data)
  {
    hide Le, FromLe;
    var n, r := SizeField(m.data, stray, 0), DecodeListen(m, stray).value;
    WordSizes();
    LeOfFromLe(Get(m.data, 0, 8));
    LeOfFromLe(Get(m.data, 8 + n, 8));
    assert m.data == Get(m.data, 0, 8) + Get(m.data, 8, n) + Get(m.data, 8 + n, 8);
    assert ListenBytes(r) == m.data;
  }

  lemma EncodingAccepted(m: Message, stray: Stray)
    requires AreBytes(m.data) && m.id == MSG_LISTEN && |m.data| < UINT64_MODULUS && IsListen(m.data)
    ensures ListenAccepted(m, stray) && 16 + SizeField(m.data, stray, 0) == |m.data|
  {
    hide Le, FromLe;
    var r: MsgListen :| ValidDevice(r.device) && r.pid < UINT64_MODULUS && ListenBytes(r) == m.data;
    ListenParts(r);
    WordSizes();
    FromLeOfLe(|r.device|, 8);
  }

  /** Eight bytes, F8 and seven times FF, announce a name of 2^64 - 8 bytes, and are accepted. */
  lemma WrappedListen(queryId: nat, stray: Stray)
    ensures var m := Message(MSG_LISTEN, queryId, Le(UINT64_MODULUS - 8, 8));
            ListenAccepted(m, stray) && !IsListen(m.data) && DecodeListen(m, stray) == OutOfBounds
  {
    hide Le, FromLe, IsListen;
    var m := Message(MSG_LISTEN, queryId, Le(UINT64_MODULUS - 8, 8));
    WordSizes();
    FromLeOfLe(UINT64_MODULUS - 8, 8);
    WholeGet(m.data);
    NotShort(m.data);
  }

  lemma NotShort(data: seq<int>)
    requires |data| == 8
    ensures !IsListen(data)
  {
  }

  lemma WholeGet(data: seq<int>)
    requires |data| == 8
    ensures Get(data, 0, 8) == data
  {
  }

  /** The frame a message can carry: itself, unless it has no bytes; then its format and size are lost. */
  function Carried(f: VideoFrame): (r: VideoFrame)
  {
    if f.data == [] then EMPTY_FRAME else f
  }

  lemma FourParts(s: seq<int>, a: seq<int>, b: seq<int>, c: seq<int>, d: seq<int>)
    requires s == a + b + c + d && |a| == 4 && |b| == 4 && |c| == 4 && |d| == 8
    ensures s[0..4] == a && s[4..8] == b && s[8..12] == c && s[12..20] == d
  {
  }

  lemma FrameHeadParts(f: VideoFrame)
    requires Constructed(f)
    ensures var s := FrameHead(f);
            && s[0..4] == Le(f.format, 4) && s[4..8] == Le(Int32Bits(f.width), 4)
            && s[8..12] == Le(Int32Bits(f.height), 4) && s[12..20] == Le(|f.data|, 8)
  {
    hide Le, FrameSize;
    var a, b, c, d := Le(f.format, 4), Le(Int32Bits(f.width), 4), Le(Int32Bits(f.height), 4), Le(|f.data|, 8);
    var s := FrameHead(f);
    assert s == a + b + c + d;
    FourParts(s, a, b, c, d);
  }

  lemma GetOfGet(data: seq<int>, offset: nat, n: nat, i: nat, k: nat)
    requires offset + n <= |data| && i + k <= n
    ensures Get(data, offset + i, k) == Get(data, offset, n)[i..i + k]
  {
    var s, t := Get(data, offset + i, k), Get(data, offset, n)[i..i + k];
    assert |s| == |t| && forall j :: 0 <= j < k ==> s[j] == data[offset + i + j] == t[j];
  }

  /** A constructed frame laid out at `offset` is rebuilt: the new frame has just the announced number of bytes. */
  lemma FrameRebuilt(data: seq<int>, offset: nat, f: VideoFrame)
    requires Constructed(f) && AreBytes(data) && offset + 20 + |f.data| <= |data|
    requires Get(data, offset, 20) == FrameHead(f) && Get(data, offset + 20, |f.data|) == f.data
    ensures FromLe(Get(data, offset + 12, 8)) == |f.data| && AnnouncedSize(data, offset) == |f.data|
    ensures DecodeFrame(data, offset, |f.data|) == Carried(f)
  {
    hide Le, FromLe, FrameSize;
    var head := Get(data, offset, 20);
    FrameHeadParts(f);
    GetOfGet(data, offset, 20, 0, 4);
    GetOfGet(data, offset, 20, 4, 4);
    GetOfGet(data, offset, 20, 8, 4);
    GetOfGet(data, offset, 20, 12, 8);
    WordSizes();
    FromLeOfLe(f.format, 4);
    FromLeOfLe(Int32Bits(f.width), 4);
    FromLeOfLe(Int32Bits(f.height), 4);
    FromLeOfLe(|f.data|, 8);
  }

  lemma BroadcastParts(m: MsgBroadcast)
    requires ValidDevice(m.device) && m.pid < UINT64_MODULUS && Constructed(m.frame)
    ensures var s, n, k := BroadcastBytes(m), |m.device|, |m.frame.data|;
            && AreBytes(s) && |s| == 36 + n + k
            && Get(s, 0, 8) == Le(n, 8) && Get(s, 8, n) == m.device && Get(s, 8 + n, 8) == Le(m.pid, 8)
            && Get(s, 16 + n, 20) == FrameHead(m.frame) && Get(s, 36 + n, k) == m.frame.data
  {
    hide Le, FrameHead, FrameSize;
  }

  /** Decoding an encoded broadcast gives it back with the frame a message can carry; so it gives it back whole
      exactly when the frame has bytes or is the default frame. */
  lemma BroadcastRoundTrip(m: MsgBroadcast, stray: Stray)
    requires ValidDevice(m.device) && m.pid < UINT64_MODULUS && Constructed(m.frame)
             && |BroadcastBytes(m)| < UINT64_MODULUS
    ensures AreBytes(BroadcastBytes(m))
    ensures var r := DecodeBroadcast(Message(MSG_BROADCAST, m.queryId, BroadcastBytes(m)), stray);
            && r == Decoded(m.(frame := Carried(m.frame)))
            && (r == Decoded(m) <==> m.frame.data != [] || m.frame == EMPTY_FRAME)
  {
    hide Le, FromLe, FrameHead, FrameSize, DecodeFrame, BroadcastBytes, Get, AnnouncedSize;
    var s, n := BroadcastBytes(m), |m.device|;
    BroadcastParts(m);
    FrameRebuilt(s, 16 + n, m.frame);
    WordSizes();
    FromLeOfLe(n, 8);
    FromLeOfLe(m.pid, 8);
  }

  /** A broadcast is accepted just when its announced parts lie in the payload one after the other and fill it, or when
      their sum wraps, and then a copy leaves the payload. */
  lemma BroadcastAcceptsWhole(m: Message, stray: Stray)
    requires AreBytes(m.data) && m.id == MSG_BROADCAST && |m.data| < UINT64_MODULUS
    ensures var total := BroadcastTotal(m.data, stray);
            && (BroadcastAccepted(m, stray) <==>
                total == |m.data| || total == |m.data| + UINT64_MODULUS || total == |m.data| + 2 * UINT64_MODULUS)
            && (DecodeBroadcast(m, stray).OutOfBounds? <==> BroadcastAccepted(m, stray) && total != |m.data|)
  {
    WrapsAtMostTwice(BroadcastTotal(m.data, stray), |m.data|);
  }

  lemma WrapsAtMostTwice(total: nat, size: nat)
    requires size < UINT64_MODULUS && total < 2 * UINT64_MODULUS + 40
    ensures Wrapped(total) == size <==>
            total == size || total == size + UINT64_MODULUS || total == size + 2 * UINT64_MODULUS
  {
  }

  /** Sixteen bytes, EC and seven times FF before zeros, announce a name of 2^64 - 20 bytes, and are accepted. */
  lemma WrappedBroadcast(queryId: nat, stray: Stray)
    ensures var m := Message(MSG_BROADCAST, queryId, Le(UINT64_MODULUS - 20, 8) + Le(0, 8));
            BroadcastAccepted(m, stray) && DecodeBroadcast(m, stray) == OutOfBounds
  {
    hide Le, FromLe;
    var m := Message(MSG_BROADCAST, queryId, Le(UINT64_MODULUS - 20, 8) + Le(0, 8));
    WordSizes();
    FromLeOfLe(UINT64_MODULUS - 20, 8);
    FromLeOfLe(0, 8);
    assert Get(m.data, 0, 8) == Le(UINT64_MODULUS - 20, 8) && Get(m.data, 8, 8) == Le(0, 8);
  }

  lemma FrameReadyParts(m: MsgFrameReady)
    requires ValidDevice(m.device) && Constructed(m.frame)
    ensures var s, n, k := FrameReadyBytes(m), |m.device|, |m.frame.data|;
            && AreBytes(s) && |s| == 29 + n + k
            && Get(s, 0, 8) == Le(n, 8) && Get(s, 8, n) == m.device && Get(s, 8 + n, 20) == FrameHead(m.frame)
            && Get(s, 28 + n, k) == m.frame.data && s[|s| - 1] == if m.isActive then 1 else 0
  {
    hide Le, FrameHead, FrameSize;
  }

  /** The same for a frame reply, with its active flag. */
  lemma FrameReadyRoundTrip(m: MsgFrameReady, stray: Stray)
    requires ValidDevice(m.device) && Constructed(m.frame) && |FrameReadyBytes(m)| < UINT64_MODULUS
    ensures AreBytes(FrameReadyBytes(m))
    ensures var r := DecodeFrameReady(Message(MSG_FRAME_READY, m.queryId, FrameReadyBytes(m)), stray);
            && r == Decoded(m.(frame := Carried(m.frame)))
            && (r == Decoded(m) <==> m.frame.data != [] || m.frame == EMPTY_FRAME)
  {
    hide Le, FromLe, FrameHead, FrameSize, DecodeFrame, AnnouncedSize, FrameReadyBytes, Get;
    var s, n := FrameReadyBytes(m), |m.device|;
    FrameReadyParts(m);
    FrameRebuilt(s, 8 + n, m.frame);
    WordSizes();
    FromLeOfLe(n, 8);
  }

  /** Acceptance of a frame reply, as of a broadcast; but a copy also goes wrong when more bytes are announced than the
      announced frame has. */
  lemma FrameReadyAcceptsWhole(m: Message, stray: Stray)
    requires AreBytes(m.data) && m.id == MSG_FRAME_READY && |m.data| < UINT64_MODULUS
    ensures var total, n := FrameReadyTotal(m.data, stray), SizeField(m.data, stray, 0);
            && (FrameReadyAccepted(m, stray) <==>
                total == |m.data| || total == |m.data| + UINT64_MODULUS || total == |m.data| + 2 * UINT64_MODULUS)
            && (DecodeFrameReady(m, stray).OutOfBounds? <==>
                FrameReadyAccepted(m, stray)
                && (total == |m.data| ==>
                      AnnouncedSize(m.data, 8 + n) < SizeField(m.data, stray, FrameReadySizeAt(n))))
  {
    hide AnnouncedSize, DecodeFrame;
    WrapsAtMostTwice(FrameReadyTotal(m.data, stray), |m.data|);
  }

  lemma WrappedFrameReady(queryId: nat, stray: Stray)
    ensures var m := Message(MSG_FRAME_READY, queryId, Le(UINT64_MODULUS - 12, 8) + Le(0, 8) + [0]);
            FrameReadyAccepted(m, stray) && DecodeFrameReady(m, stray) == OutOfBounds
  {
    hide Le, FromLe, DecodeFrame, AnnouncedSize;
    var m := Message(MSG_FRAME_READY, queryId, Le(UINT64_MODULUS - 12, 8) + Le(0, 8) + [0]);
    WordSizes();
    FromLeOfLe(UINT64_MODULUS - 12, 8);
    FromLeOfLe(0, 8);
    assert Get(m.data, 0, 8) == Le(UINT64_MODULUS - 12, 8) && Get(m.data, 8, 8) == Le(0, 8);
  }

  /** A reply of thirty bytes for no device, which announces one byte for a frame of no format and size, is accepted;
      the byte is written past the frame, which has none. */
  lemma ReplyOverflows(m: Message, stray: Stray)
    requires AreBytes(m.data) && |m.data| == 30 && m.id == MSG_FRAME_READY
    requires forall i :: 0 <= i < 28 ==> m.data[i] == if i == 20 then 1 else 0
    ensures FrameReadyAccepted(m, stray) && DecodeFrameReady(m, stray) == OutOfBounds
  {
    hide Le, FromLe, DecodeFrame, AnnouncedSize, Get;
    ZeroField(m.data, 0, 8);
    ZeroField(m.data, 8, 4);
    ZeroField(m.data, 12, 4);
    ZeroField(m.data, 16, 4);
    OneField(m.data, 20);
    NothingAnnounced(m.data, 8);
  }

  lemma NothingAnnounced(data: seq<int>, offset: nat)
    requires AreBytes(data) && offset + 12 <= |data|
    requires FromLe(Get(data, offset, 4)) == FromLe(Get(data, offset + 4, 4)) == FromLe(Get(data, offset + 8, 4)) == 0
    ensures AnnouncedSize(data, offset) == 0
  {
    hide FindFormat, FromLe, Get;
    WordSizes();
    NoFormatOfZero();
  }

  lemma ZeroField(data: seq<int>, offset: nat, n: nat)
    requires AreBytes(data) && offset + n <= |data| && forall i :: offset <= i < offset + n ==> data[i] == 0
    ensures FromLe(Get(data, offset, n)) == 0
  {
    hide Le, FromLe;
    ZeroBytes(n);
    FromLeOfLe(0, n);
    assert Get(data, offset, n) == Le(0, n);
  }

  lemma OneField(data: seq<int>, offset: nat)
    requires AreBytes(data) && offset + 8 <= |data|
    requires forall i :: offset <= i < offset + 8 ==> data[i] == if i == offset then 1 else 0
    ensures FromLe(Get(data, offset, 8)) == 1
  {
    hide FromLe;
    assert Get(data, offset, 8)[1..] == Get(data, offset + 1, 7);
    ZeroField(data, offset + 1, 7);
    FirstByte(Get(data, offset, 8));
  }

  lemma FirstByte(s: seq<int>)
    requires AreBytes(s) && s != [] && FromLe(s[1..]) == 0
    ensures FromLe(s) == s[0]
  {
  }

  lemma {:induction false} ZeroBytes(n: nat)
    ensures forall i :: 0 <= i < n ==> Le(0, n)[i] == 0
  {
    if n > 0 {
      ZeroBytes(n - 1);
      assert Le(0, n) == [0] + Le(0, n - 1);
    }
  }

  // ----- Where the fields are on the wire -----

  /** The unsigned integer in bytes `from` to `to`. */
  function Number(s: seq<int>, from: nat, to: nat): (v: int)
    requires AreBytes(s) && from <= to <= |s|
  {
    FromLe(s[from..to])
  }

  /** The header of a message: its id in bytes 0 to 3, its query id in 4 to 11, its payload size in 12 to 19. */
  predicate Headed(s: seq<int>, id: int, queryId: nat, size: nat)
  {
    && AreBytes(s) && |s| == 20 + size
    && Number(s, 0, 4) == id && Number(s, 4, 12) == queryId && Number(s, 12, 20) == size
  }

  lemma HeaderOf(m: Message)
    requires m.Valid() && m.id >= 0
    ensures Headed(Encode(m), m.id, m.queryId, |m.data|) && Encode(m)[20..] == m.data
  {
    EncodeParts(m);
    WordSizes();
    FromLeOfLe(Int32Bits(m.id), 4);
    FromLeOfLe(m.queryId, 8);
    FromLeOfLe(|m.data|, 8);
  }

  /** A frame at `at`: format, width and height in four bytes each, size in eight, then its bytes. */
  predicate FrameAt(s: seq<int>, at: nat, f: VideoFrame)
  {
    && AreBytes(s) && at + 20 + |f.data| <= |s|
    && Number(s, at, at + 4) == f.format && Number(s, at + 4, at + 8) == f.width
    && Number(s, at + 8, at + 12) == f.height && Number(s, at + 12, at + 20) == |f.data|
    && s[at + 20..at + 20 + |f.data|] == f.data
  }

  lemma FrameHeadAt(s: seq<int>, at: nat, f: VideoFrame)
    requires Constructed(f) && AreBytes(s) && at + 20 + |f.data| <= |s|
    requires s[at..at + 20] == FrameHead(f) && s[at + 20..at + 20 + |f.data|] == f.data
    ensures FrameAt(s, at, f)
  {
    hide Le, FromLe, FrameSize;
    WordSizes();
    FromLeOfLe(f.format, 4);
    FromLeOfLe(Int32Bits(f.width), 4);
    FromLeOfLe(Int32Bits(f.height), 4);
    FromLeOfLe(|f.data|, 8);
    var h := FrameHead(f);
    assert h[..4] == Le(f.format, 4) && h[4..8] == Le(Int32Bits(f.width), 4);
    assert h[8..12] == Le(Int32Bits(f.height), 4) && h[12..20] == Le(|f.data|, 8);
    SliceOfSlice(s, at, at + 20, 0, 4);
    SliceOfSlice(s, at, at + 20, 4, 8);
    SliceOfSlice(s, at, at + 20, 8, 12);
    SliceOfSlice(s, at, at + 20, 12, 20);
  }

  lemma SliceOfSlice(s: seq<int>, a: nat, b: nat, i: nat, j: nat)
    requires a + i <= a + j <= b <= |s|
    ensures s[a..b][i..j] == s[a + i..a + j]
  {
    var p, q := s[a..b][i..j], s[a + i..a + j];
    assert |p| == |q| && forall k :: 0 <= k < |p| ==> p[k] == q[k];
  }

  /** A listen request: id 0x202, the length of the device name in bytes 20 to 27, the name, the process id. */
  lemma ListenOnWire(m: MsgListen)
    requires ValidDevice(m.device) && m.pid < UINT64_MODULUS && m.queryId < UINT64_MODULUS
    requires |ListenBytes(m)| < UINT64_MODULUS
    ensures var s, n := Encode(Message(MSG_LISTEN, m.queryId, ListenBytes(m))), |m.device|;
            && Headed(s, 0x202, m.queryId, 16 + n)
            && Number(s, 20, 28) == n && s[28..28 + n] == m.device && Number(s, 28 + n, 36 + n) == m.pid
  {
    hide Le, FromLe, Encode;
    WordSizes();
    var p, n := ListenBytes(m), |m.device|;
    var s := Encode(Message(MSG_LISTEN, m.queryId, p));
    HeaderOf(Message(MSG_LISTEN, m.queryId, p));
    assert s[20..|s|] == p;
    SliceOfSlice(s, 20, |s|, 0, 8);
    SliceOfSlice(s, 20, |s|, 8, 8 + n);
    SliceOfSlice(s, 20, |s|, 8 + n, 16 + n);
    assert p[0..8] == Le(n, 8) && p[8..8 + n] == m.device && p[8 + n..16 + n] == Le(m.pid, 8);
    FromLeOfLe(n, 8);
    FromLeOfLe(m.pid, 8);
  }

  /** A broadcast: id 0x201, the device name likewise, the process id, the frame. */
  lemma BroadcastOnWire(m: MsgBroadcast)
    requires ValidDevice(m.device) && m.pid < UINT64_MODULUS && Constructed(m.frame) && m.queryId < UINT64_MODULUS
    requires |BroadcastBytes(m)| < UINT64_MODULUS
    ensures var s, n := Encode(Message(MSG_BROADCAST, m.queryId, BroadcastBytes(m))), |m.device|;
            && Headed(s, 0x201, m.queryId, 36 + n + |m.frame.data|)
            && Number(s, 20, 28) == n && s[28..28 + n] == m.device && Number(s, 28 + n, 36 + n) == m.pid
            && FrameAt(s, 36 + n, m.frame)
  {
    hide Le, FromLe, Encode, FrameHead, FrameSize;
    WordSizes();
    var p, n := BroadcastBytes(m), |m.device|;
    var s := Encode(Message(MSG_BROADCAST, m.queryId, p));
    HeaderOf(Message(MSG_BROADCAST, m.queryId, p));
    assert s[20..|s|] == p;
    SliceOfSlice(s, 20, |s|, 0, 8);
    SliceOfSlice(s, 20, |s|, 8, 8 + n);
    SliceOfSlice(s, 20, |s|, 8 + n, 16 + n);
    SliceOfSlice(s, 20, |s|, 16 + n, 36 + n);
    SliceOfSlice(s, 20, |s|, 36 + n, 36 + n + |m.frame.data|);
    assert p[0..8] == Le(n, 8) && p[8..8 + n] == m.device && p[8 + n..16 + n] == Le(m.pid, 8);
    assert p[16 + n..36 + n] == FrameHead(m.frame) && p[36 + n..36 + n + |m.frame.data|] == m.frame.data;
    FromLeOfLe(n, 8);
    FromLeOfLe(m.pid, 8);
    FrameHeadAt(s, 36 + n, m.frame);
  }

  /** A frame reply: id 0x102, the device name, the frame, and one byte for whether the device is active. */
  lemma FrameReadyOnWire(m: MsgFrameReady)
    requires ValidDevice(m.device) && Constructed(m.frame) && m.queryId < UINT64_MODULUS
    requires |FrameReadyBytes(m)| < UINT64_MODULUS
    ensures var s, n := Encode(Message(MSG_FRAME_READY, m.queryId, FrameReadyBytes(m))), |m.device|;
            && Headed(s, 0x102, m.queryId, 29 + n + |m.frame.data|)
            && Number(s, 20, 28) == n && s[28..28 + n] == m.device && FrameAt(s, 28 + n, m.frame)
            && s[48 + n + |m.frame.data|] == if m.isActive then 1 else 0
  {
    hide Le, FromLe, Encode, FrameHead, FrameSize;
    WordSizes();
    var p, n, k := FrameReadyBytes(m), |m.device|, |m.frame.data|;
    var s := Encode(Message(MSG_FRAME_READY, m.queryId, p));
    HeaderOf(Message(MSG_FRAME_READY, m.queryId, p));
    assert s[20..|s|] == p;
    SliceOfSlice(s, 20, |s|, 0, 8);
    SliceOfSlice(s, 20, |s|, 8, 8 + n);
    SliceOfSlice(s, 20, |s|, 8 + n, 28 + n);
    SliceOfSlice(s, 20, |s|, 28 + n, 28 + n + k);
    assert p[0..8] == Le(n, 8) && p[8..8 + n] == m.device;
    assert p[8 + n..28 + n] == FrameHead(m.frame) && p[28 + n..28 + n + k] == m.frame.data;
    assert s[48 + n + k] == p[28 + n + k];
    FromLeOfLe(n, 8);
    FrameHeadAt(s, 28 + n, m.frame);
  }
}
