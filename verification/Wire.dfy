/** Messages on the wire: length-prefixed framing over sockets that move any number of bytes at a time
    (VCamUtils/src/sockets.cpp, VCamUtils/src/messageclient.cpp, VCamUtils/src/messageserver.cpp). */
module Wire {
  import opened Bytes

  datatype Message = Message(id: int, queryId: nat, data: seq<int>) {
    /** Values the C++ fields can hold. */
    predicate Valid()
    {
      IsInt32(id) && queryId < UINT64_MODULUS && |data| < UINT64_MODULUS && AreBytes(data)
    }
  }

  datatype Option<T> = None | Some(value: T)

  /** Bytes before the payload: message id, query id, payload size. */
  const HEADER: nat := 20

  function Encode(m: Message): (s: seq<int>)
    requires m.Valid()
  {
    Le(Int32Bits(m.id), 4) + Le(m.queryId, 8) + Le(|m.data|, 8) + m.data
  }

  /** Payload size announced by the first bytes of a message. */
  function PayloadSize(s: seq<int>): (n: nat)
    requires AreBytes(s) && |s| >= HEADER
  {
    FromLe(s[12..20])
  }

  /** Exactly one whole message. */
  predicate Complete(s: seq<int>)
    requires AreBytes(s)
  {
    |s| >= HEADER && |s| == HEADER + PayloadSize(s)
  }

  function Decode(s: seq<int>): (m: Message)
    requires AreBytes(s) && Complete(s)
  {
    WordSizes();
    Message(Int32Of(FromLe(s[..4])), FromLe(s[4..12]), s[20..])
  }

  lemma EncodeParts(m: Message)
    requires m.Valid()
    ensures var s := Encode(m);
            && AreBytes(s) && |s| == HEADER + |m.data|
            && s[..4] == Le(Int32Bits(m.id), 4) && s[4..12] == Le(m.queryId, 8) && s[12..20] == Le(|m.data|, 8)
               && s[20..] == m.data
  {
  }

  /** A whole encoded message decodes to itself. */
  lemma DecodeOfEncode(m: Message)
    requires m.Valid()
    ensures AreBytes(Encode(m)) && Complete(Encode(m)) && Decode(Encode(m)) == m
  {
    EncodeParts(m);
    WordSizes();
    FromLeOfLe(Int32Bits(m.id), 4);
    FromLeOfLe(m.queryId, 8);
    FromLeOfLe(|m.data|, 8);
  }

  /** Whatever bytes form a whole message are the encoding of what they decode to. */
  lemma EncodeOfDecode(s: seq<int>)
    requires AreBytes(s) && Complete(s)
    ensures Decode(s).Valid() && Encode(Decode(s)) == s
  {
    hide FromLe, Le;
    WordSizes();
    var id, queryId, size, data := s[..4], s[4..12], s[12..20], s[20..];
    LeOfFromLe(id);
    LeOfFromLe(queryId);
    LeOfFromLe(size);
    Int32Inverse(0, FromLe(id));
    assert s == id + queryId + size + data;
  }

  /** A message is recognised as complete at its last byte, neither earlier nor later. */
  lemma CompleteOnlyWhole(m: Message, s: seq<int>)
    requires m.Valid() && s <= Encode(m)
    ensures AreBytes(s)
    ensures Complete(s) <==> s == Encode(m)
    ensures Complete(s) ==> Decode(s) == m
  {
    EncodeParts(m);
    DecodeOfEncode(m);
    assert s == Encode(m)[..|s|];
    if |s| >= HEADER {
      assert s[12..20] == Encode(m)[12..20];
    }
  }

  /** No encoding is a proper prefix of another, so a stream parses in one way only. */
  lemma PrefixFree(m: Message, m': Message, r: seq<int>, r': seq<int>)
    requires m.Valid() && m'.Valid() && Encode(m) + r == Encode(m') + r'
    ensures m == m' && r == r'
  {
    EncodeParts(m);
    EncodeParts(m');
    DecodeOfEncode(m);
    DecodeOfEncode(m');
    var s := Encode(m) + r;
    assert s[12..20] == Encode(m)[12..20] && s[12..20] == Encode(m')[12..20];
    assert s[..|Encode(m)|] == Encode(m) && s[..|Encode(m')|] == Encode(m');
    assert s[|Encode(m)|..] == r && s[|Encode(m')|..] == r';
  }

  function Stream(ms: seq<Message>): (s: seq<int>)
    requires forall m :: m in ms ==> m.Valid()
  {
    if ms == [] then [] else Encode(ms[0]) + Stream(ms[1..])
  }

  // ----- Sockets -----

  /** One direction of a connection. The operating system moves as many bytes per call as it likes, or fails. */
  class Pipe {
    var bytes: seq<int>

    constructor ()
      ensures bytes == []
    {
      bytes := [];
    }

    /** `::send`: accepts between one byte and all of them, or reports an error and accepts none. */
    method OsSend(data: seq<int>) returns (sent: int)
      modifies this
      ensures sent <= |data|
      ensures bytes == old(bytes) + if sent >= 1 then data[..sent] else []
    {
      sent :| -1 <= sent <= |data|;
      bytes := bytes + if sent >= 1 then data[..sent] else [];
    }

    /** `::recv`: delivers between one byte and `size` of those in transit, or nothing (end of stream, timeout or
        error). */
    method OsRecv(size: nat) returns (received: int, data: seq<int>)
      modifies this
      ensures received <= size
      ensures received >= 1 ==> |data| == received && old(bytes) == data + bytes
      ensures received < 1 ==> data == [] && bytes == old(bytes)
    {
      var most := if size < |bytes| then size else |bytes|;
      received :| -1 <= received <= most;
      if received >= 1 {
        data, bytes := bytes[..received], bytes[received..];
        assert old(bytes) == data + bytes;
      } else {
        data := [];
      }
    }
  }

  method Send(pipe: Pipe, data: seq<int>) returns (ok: bool)
    modifies pipe
    ensures ok ==> pipe.bytes == old(pipe.bytes) + data
    ensures !ok ==> Truncated(old(pipe.bytes), data, pipe.bytes)
  {
    var dataSent := 0;
    while dataSent < |data|
      invariant 0 <= dataSent <= |data|
      invariant pipe.bytes == old(pipe.bytes) + data[..dataSent]
      decreases |data| - dataSent
    {
      var sent := pipe.OsSend(data[dataSent..]);
      if sent < 1 {
        return false;
      }
      assert data[..dataSent] + data[dataSent..][..sent] == data[..dataSent + sent];
      dataSent := dataSent + sent;
    }
    assert data[..dataSent] == data;
    return true;
  }

  method Recv(pipe: Pipe, dataSize: nat) returns (ok: bool, data: seq<int>)
    modifies pipe
    ensures old(pipe.bytes) == data + pipe.bytes
    ensures ok <==> |data| == dataSize
  {
    data := [];
    while |data| < dataSize
      invariant |data| <= dataSize
      invariant old(pipe.bytes) == data + pipe.bytes
      decreases dataSize - |data|
    {
      var received, chunk := pipe.OsRecv(dataSize - |data|);
      if received < 1 {
        return false, data;
      }
      data := data + chunk;
    }
    return true, data;
  }

  /** `now` is `before` followed by a proper prefix of `all`. */
  ghost predicate Truncated(before: seq<int>, all: seq<int>, now: seq<int>)
  {
    exists k :: 0 <= k < |all| && now == before + all[..k]
  }

  /** A transfer cut in its first or in its second part is cut as a whole. */
  lemma TruncatedParts(before: seq<int>, a: seq<int>, b: seq<int>, now: seq<int>)
    ensures Truncated(before, a, now) ==> Truncated(before, a + b, now)
    ensures Truncated(before + a, b, now) ==> Truncated(before, a + b, now)
  {
    if Truncated(before, a, now) {
      var k :| 0 <= k < |a| && now == before + a[..k];
      assert (a + b)[..k] == a[..k];
    }
    if Truncated(before + a, b, now) {
      var k :| 0 <= k < |b| && now == before + a + b[..k];
      assert (a + b)[..|a| + k] == a + b[..k];
      assert now == before + (a + b)[..|a| + k];
    }
  }

  /** A vector goes out as its size, then its bytes if it has any. */
  method SendVector(pipe: Pipe, data: seq<int>) returns (ok: bool)
    requires |data| < UINT64_MODULUS
    modifies pipe
    ensures ok ==> pipe.bytes == old(pipe.bytes) + (Le(|data|, 8) + data)
    ensures !ok ==> Truncated(old(pipe.bytes), Le(|data|, 8) + data, pipe.bytes)
  {
    ok := Send(pipe, Le(|data|, 8));
    TruncatedParts(old(pipe.bytes), Le(|data|, 8), data, pipe.bytes);
    if ok && |data| > 0 {
      ok := Send(pipe, data);
      TruncatedParts(old(pipe.bytes), Le(|data|, 8), data, pipe.bytes);
    }
    assert data == [] ==> Le(|data|, 8) + data == Le(|data|, 8);
  }

  /** The sending half of a request or a reply: id, query id, payload. */
  method SendMessage(pipe: Pipe, m: Message) returns (ok: bool)
    requires m.Valid()
    modifies pipe
    ensures ok ==> pipe.bytes == old(pipe.bytes) + Encode(m)
    ensures !ok ==> Truncated(old(pipe.bytes), Encode(m), pipe.bytes)
  {
    hide Truncated, Le;
    ghost var before := old(pipe.bytes);
    ghost var a, b, c := Le(Int32Bits(m.id), 4), Le(m.queryId, 8), Le(|m.data|, 8) + m.data;
    assert Encode(m) == a + (b + c);
    ok := Send(pipe, Le(Int32Bits(m.id), 4));
    TruncatedParts(before, a, b + c, pipe.bytes);
    if !ok {
      return;
    }
    ok := Send(pipe, Le(m.queryId, 8));
    TruncatedParts(before + a, b, c, pipe.bytes);
    TruncatedParts(before, a, b + c, pipe.bytes);
    if !ok {
      return;
    }
    ok := SendVector(pipe, m.data);
    TruncatedParts(before + a, b, c, pipe.bytes);
    TruncatedParts(before, a, b + c, pipe.bytes);
    assert before + a + b + c == before + (a + (b + c));
  }

  /** The receiving half. A message is delivered only whole, and exactly its bytes are taken off the stream. */
  method ReceiveMessage(pipe: Pipe) returns (r: Option<Message>)
    requires AreBytes(pipe.bytes)
    modifies pipe
    ensures AreBytes(pipe.bytes)
    ensures r.Some? ==> r.value.Valid() && old(pipe.bytes) == Encode(r.value) + pipe.bytes
    ensures r.None? ==> IsSuffix(pipe.bytes, old(pipe.bytes))
  {
    WordSizes();
    var ok, id := Recv(pipe, 4);
    assert AreBytes(id) && AreBytes(pipe.bytes) by { Suffix(old(pipe.bytes), id, pipe.bytes); }
    if !ok {
      return None;
    }
    ghost var rest1 := pipe.bytes;
    var ok2, queryId := Recv(pipe, 8);
    assert old(pipe.bytes) == (id + queryId) + pipe.bytes;
    assert AreBytes(queryId) && AreBytes(pipe.bytes) by { Suffix(rest1, queryId, pipe.bytes); }
    if !ok2 {
      return None;
    }
    ghost var rest2 := pipe.bytes;
    var ok3, size := Recv(pipe, 8);
    assert old(pipe.bytes) == (id + queryId + size) + pipe.bytes;
    assert AreBytes(size) && AreBytes(pipe.bytes) by { Suffix(rest2, size, pipe.bytes); }
    if !ok3 {
      return None;
    }
    var dataSize := FromLe(size);
    var data: seq<int> := [];
    if dataSize > 0 {
      ghost var rest3 := pipe.bytes;
      var ok4;
      ok4, data := Recv(pipe, dataSize);
      assert AreBytes(data) && AreBytes(pipe.bytes) by { Suffix(rest3, data, pipe.bytes); }
      if !ok4 {
        assert old(pipe.bytes) == (id + queryId + size + data) + pipe.bytes;
        return None;
      }
    }
    ghost var whole := id + queryId + size + data;
    assert old(pipe.bytes) == whole + pipe.bytes;
    assert whole[..4] == id && whole[4..12] == queryId && whole[12..20] == size && whole[20..] == data;
    EncodeOfDecode(whole);
    return Some(Message(Int32Of(FromLe(id)), FromLe(queryId), data));
  }

  predicate IsSuffix(s: seq<int>, all: seq<int>)
  {
    |s| <= |all| && all[|all| - |s|..] == s
  }

  lemma Suffix(all: seq<int>, a: seq<int>, b: seq<int>)
    requires AreBytes(all) && all == a + b
    ensures AreBytes(a) && AreBytes(b)
  {
    forall i | 0 <= i < |a|
      ensures 0 <= a[i] < 256
    {
      assert all[i] == a[i];
    }
    forall i | 0 <= i < |b|
      ensures 0 <= b[i] < 256
    {
      assert all[|a| + i] == b[i];
    }
  }

  /** However the bytes were split on their way, the messages of a stream come out complete, unchanged and in order,
      up to the point where receiving fails. */
  method ReceiveStream(pipe: Pipe, ghost ms: seq<Message>, ghost rest: seq<int>, n: nat) returns (out: seq<Message>)
    requires forall m :: m in ms ==> m.Valid()
    requires AreBytes(pipe.bytes) && pipe.bytes == Stream(ms) + rest && n <= |ms|
    modifies pipe
    ensures out <= ms && |out| <= n
    ensures |out| == n ==> pipe.bytes == Stream(ms[n..]) + rest
  {
    hide Encode, Message.Valid;
    out := [];
    assert ms[0..] == ms;
    while |out| < n
      invariant |out| <= n && out == ms[..|out|]
      invariant AreBytes(pipe.bytes) && pipe.bytes == Stream(ms[|out|..]) + rest
      decreases n - |out|
    {
      ghost var i := |out|;
      ghost var before := pipe.bytes;
      var r := ReceiveMessage(pipe);
      if r.None? {
        return out;
      }
      assert ms[i..][0] == ms[i] && ms[i..][1..] == ms[i + 1..];
      assert before == Encode(ms[i]) + (Stream(ms[i + 1..]) + rest);
      PrefixFree(r.value, ms[i], pipe.bytes, Stream(ms[i + 1..]) + rest);
      out := out + [r.value];
    }
  }
}
