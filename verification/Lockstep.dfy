/** One connection, byte by byte: the request loop of `MessageClientPrivate::connection` against the serving loop of
    `MessageServerPrivate::connection`. Both directions move arbitrary chunks, either end may stop at any time, and the
    handler's output is arbitrary (VCamUtils/src/messageclient.cpp, VCamUtils/src/messageserver.cpp). */
module Lockstep {
  import opened Bytes
  import opened Wire

  /** The client sends a request, then receives a reply, then decides whether to go on. */
  datatype Client = Ready | Sending(rest: seq<int>) | Awaiting(got: seq<int>) | Stopped

  /** The server reads a request, then writes the handler's reply; a failed handler closes the connection without
      one. */
  datatype Server = Reading(got: seq<int>) | Writing(rest: seq<int>) | Closed

  /** `requests` were issued, `served` handed to the handler, `outputs` returned by it, `replies` read by the client;
      `toServer` and `toClient` are bytes in transit. */
  datatype Connection = Connection(client: Client, server: Server, toServer: seq<int>, toClient: seq<int>,
                                   requests: seq<Message>, served: seq<Message>, outputs: seq<Message>,
                                       replies: seq<Message>)

  const OPENED := Connection(Ready, Reading([]), [], [], [], [], [], [])

  datatype Event =
    | Issue(request: Message)
    | ClientSends(n: nat)
    | ServerReceives(n: nat)
    | Handle(output: Option<Message>)
    | ServerSends(n: nat)
    | ClientReceives(n: nat)
    | ReadReply
    | ClientStops
    | ServerStops

  /** Bytes the current `recv` call may still ask for: the rest of the field being read. */
  function Asked(got: seq<int>): (n: int)
    requires AreBytes(got)
  {
    if |got| < 4 then 4 - |got| else if |got| < 12 then 12 - |got| else if |got| < HEADER then HEADER - |got|
    else HEADER + PayloadSize(got) - |got|
  }

  predicate Enabled(c: Connection, e: Event)
  {
    match e
    case Issue(m) => c.client.Ready? && m.Valid()
    case ClientSends(n) => c.client.Sending? && 1 <= n <= |c.client.rest|
    case ServerReceives(n) => c.server.Reading? && AreBytes(c.server.got) && 1 <= n <= |c.toServer|
        && n <= Asked(c.server.got)
    case Handle(out) => c.server.Reading? && AreBytes(c.server.got) && Complete(c.server.got)
        && (out.Some? ==> out.value.Valid())
    case ServerSends(n) => c.server.Writing? && 1 <= n <= |c.server.rest|
    case ClientReceives(n) => c.client.Awaiting? && AreBytes(c.client.got) && 1 <= n <= |c.toClient|
        && n <= Asked(c.client.got)
    case ReadReply => c.client.Awaiting? && AreBytes(c.client.got) && Complete(c.client.got)
    case ClientStops => true
    case ServerStops => true
  }

  function Step(c: Connection, e: Event): (r: Connection)
    requires Enabled(c, e)
  {
    match e
    case Issue(m) => c.(client := Sending(Encode(m)), requests := c.requests + [m])
    case ClientSends(n) =>
      c.(client := if n == |c.client.rest| then Awaiting([]) else Sending(c.client.rest[n..]),
         toServer := c.toServer + c.client.rest[..n])
    case ServerReceives(n) => c.(server := Reading(c.server.got + c.toServer[..n]), toServer := c.toServer[n..])
    case Handle(out) =>
      if out.None? then c.(server := Closed, served := c.served + [Decode(c.server.got)])
      else c.(server := Writing(Encode(out.value)), served := c.served + [Decode(c.server.got)],
              outputs := c.outputs + [out.value])
    case ServerSends(n) =>
      c.(server := if n == |c.server.rest| then Reading([]) else Writing(c.server.rest[n..]),
         toClient := c.toClient + c.server.rest[..n])
    case ClientReceives(n) => c.(client := Awaiting(c.client.got + c.toClient[..n]), toClient := c.toClient[n..])
    case ReadReply => c.(client := Ready, replies := c.replies + [Decode(c.client.got)])
    case ClientStops => c.(client := Stopped)
    case ServerStops => c.(server := Closed)
  }

  predicate ValidRun(c: Connection, es: seq<Event>)
    decreases |es|
  {
    es == [] || (Enabled(c, es[0]) && ValidRun(Step(c, es[0]), es[1..]))
  }

  function Run(c: Connection, es: seq<Event>): (r: Connection)
    requires ValidRun(c, es)
    decreases |es|
  {
    if es == [] then c else Run(Step(c, es[0]), es[1..])
  }

  // ----- The invariant -----

  predicate AllValid(ms: seq<Message>)
  {
    forall i :: 0 <= i < |ms| ==> ms[i].Valid()
  }

  /** The counters: requests are served in order, replies are the outputs in order, one exchange at a time. */
  predicate Counted(c: Connection)
  {
    && AllValid(c.requests) && AllValid(c.outputs)
    && c.served <= c.requests && c.replies <= c.outputs
    && |c.replies| <= |c.outputs| <= |c.served| <= |c.requests| <= |c.replies| + 1
  }

  /** The request bytes: what the server has got, what is in transit and what is unsent make up the request being
      transferred, and nothing else ever travels. */
  predicate RequestBytes(c: Connection)
    requires Counted(c)
  {
    && (c.client.Sending? ==> |c.requests| == |c.replies| + 1 && |c.served| == |c.replies| && c.client.rest != [])
    && (c.server.Reading? ==>
          var seen := c.server.got + c.toServer;
          if |c.served| == |c.requests| then seen == []
          else
            var whole := Encode(c.requests[|c.served|]);
            if c.client.Sending? then seen + c.client.rest == whole
            else if c.client.Stopped? then seen <= whole
            else seen == whole)
    && (c.server.Writing? ==> c.toServer == [])
  }

  /** The reply bytes, likewise. */
  predicate ReplyBytes(c: Connection)
    requires Counted(c)
  {
    && (c.server.Writing? ==> |c.served| == |c.outputs| == |c.requests| && c.server.rest != []
                              && !c.client.Sending? && !c.client.Ready?)
    && (c.server.Reading? ==> |c.served| == |c.outputs|)
    && (c.client.Ready? || c.client.Sending? ==> |c.replies| == |c.outputs| && c.toClient == [])
    && (c.client.Ready? ==> |c.requests| == |c.replies|)
    && (c.client.Awaiting? ==>
          && |c.requests| == |c.replies| + 1
          && var seen := c.client.got + c.toClient;
             if |c.outputs| == |c.replies| then seen == []
             else
               var whole := Encode(c.outputs[|c.replies|]);
               if c.server.Writing? then seen + c.server.rest == whole
               else if c.server.Closed? then seen <= whole
               else seen == whole)
  }

  predicate Inv(c: Connection)
  {
    Counted(c) && RequestBytes(c) && ReplyBytes(c)
  }

  lemma EncodeNotEmpty(m: Message)
    requires m.Valid()
    ensures |Encode(m)| >= HEADER
  {
  }

  lemma IssueKeeps(c: Connection, e: Event)
    requires Inv(c) && e.Issue? && Enabled(c, e)
    ensures Inv(Step(c, e))
  {
    hide Encode;
    EncodeNotEmpty(e.request);
    var r := Step(c, e);
    assert r.requests[|c.requests|] == e.request;
    assert c.server.Reading? ==> c.server.got + c.toServer + Encode(e.request) == Encode(e.request);
  }

  lemma ClientSendsKeeps(c: Connection, e: Event)
    requires Inv(c) && e.ClientSends? && Enabled(c, e)
    ensures Inv(Step(c, e))
  {
    hide Encode;
    var r, rest := Step(c, e), c.client.rest;
    assert rest[..e.n] + rest[e.n..] == rest;
    if c.server.Reading? {
      var got := c.server.got;
      assert got + (c.toServer + rest[..e.n]) + rest[e.n..] == got + c.toServer + rest;
      if e.n == |rest| {
        assert rest[e.n..] == [];
        assert got + (c.toServer + rest[..e.n]) == got + c.toServer + rest;
      }
    }
  }

  lemma ServerReceivesKeeps(c: Connection, e: Event)
    requires Inv(c) && e.ServerReceives? && Enabled(c, e)
    ensures Inv(Step(c, e))
  {
    hide Encode;
    var r := Step(c, e);
    assert c.toServer[..e.n] + c.toServer[e.n..] == c.toServer;
    assert r.server.got + r.toServer == c.server.got + c.toServer;
  }

  lemma HandleKeeps(c: Connection, e: Event)
    requires Inv(c) && e.Handle? && Enabled(c, e)
    ensures Inv(Step(c, e))
    ensures Step(c, e).served == c.served + [c.requests[|c.served|]]
  {
    hide Encode, Decode, Complete;
    var r, got := Step(c, e), c.server.got;
    RequestComplete(c);
    if e.output.Some? {
      EncodeNotEmpty(e.output.value);
      assert r.outputs[|c.outputs|] == e.output.value;
      if c.client.Awaiting? {
        assert c.client.got + c.toClient + Encode(e.output.value) == Encode(e.output.value);
      }
    }
  }

  /** The server hands over a request exactly when all of it has arrived: nothing is left in transit or unsent. */
  lemma RequestComplete(c: Connection)
    requires Inv(c) && c.server.Reading? && AreBytes(c.server.got) && Complete(c.server.got)
    ensures |c.served| < |c.requests| && Decode(c.server.got) == c.requests[|c.served|]
    ensures c.toServer == [] && !c.client.Sending? && !c.client.Ready?
  {
    var m := c.requests[|c.served|];
    CompleteOnlyWhole(m, c.server.got);
    assert |c.server.got| + |c.toServer| <= |Encode(m)|;
  }

  lemma ServerSendsKeeps(c: Connection, e: Event)
    requires Inv(c) && e.ServerSends? && Enabled(c, e)
    ensures Inv(Step(c, e))
  {
    hide Encode;
    var r, rest := Step(c, e), c.server.rest;
    assert rest[..e.n] + rest[e.n..] == rest;
    if c.client.Awaiting? {
      var got := c.client.got;
      assert got + (c.toClient + rest[..e.n]) + rest[e.n..] == got + c.toClient + rest;
      if e.n == |rest| {
        assert rest[e.n..] == [];
        assert got + (c.toClient + rest[..e.n]) == got + c.toClient + rest;
      }
    }
  }

  lemma ClientReceivesKeeps(c: Connection, e: Event)
    requires Inv(c) && e.ClientReceives? && Enabled(c, e)
    ensures Inv(Step(c, e))
  {
    hide Encode;
    var r := Step(c, e);
    assert c.toClient[..e.n] + c.toClient[e.n..] == c.toClient;
    assert r.client.got + r.toClient == c.client.got + c.toClient;
  }

  lemma ReadReplyKeeps(c: Connection, e: Event)
    requires Inv(c) && e.ReadReply? && Enabled(c, e)
    ensures Inv(Step(c, e))
    ensures Step(c, e).replies == c.replies + [c.outputs[|c.replies|]]
  {
    var m := c.outputs[|c.replies|];
    CompleteOnlyWhole(m, c.client.got);
    assert |c.client.got| + |c.toClient| <= |Encode(m)|;
  }

  lemma StepKeeps(c: Connection, e: Event)
    requires Inv(c) && Enabled(c, e)
    ensures Inv(Step(c, e))
  {
    match e
    case Issue(_) => IssueKeeps(c, e);
    case ClientSends(_) => ClientSendsKeeps(c, e);
    case ServerReceives(_) => ServerReceivesKeeps(c, e);
    case Handle(_) => HandleKeeps(c, e);
    case ServerSends(_) => ServerSendsKeeps(c, e);
    case ClientReceives(_) => ClientReceivesKeeps(c, e);
    case ReadReply => ReadReplyKeeps(c, e);
    case ClientStops => StopKeeps(c, e);
    case ServerStops => StopKeeps(c, e);
  }

  lemma StopKeeps(c: Connection, e: Event)
    requires Inv(c) && (e.ClientStops? || e.ServerStops?)
    ensures Inv(Step(c, e))
  {
    hide Encode;
  }

  lemma {:induction false} RunKeeps(c: Connection, es: seq<Event>)
    requires Inv(c) && ValidRun(c, es)
    ensures Inv(Run(c, es))
    decreases |es|
  {
    if es != [] {
      StepKeeps(c, es[0]);
      RunKeeps(Step(c, es[0]), es[1..]);
    }
  }

  // ----- The theorems, over every run of a connection -----

  /** Lock step: the handler sees the client's requests unchanged and in order, the i-th reply the client reads is the
      handler's output for its i-th request, and at most one request is outstanding. */
  lemma ExchangesMatch(es: seq<Event>)
    requires ValidRun(OPENED, es)
    ensures var c := Run(OPENED, es);
            && c.served <= c.requests && c.replies <= c.outputs && |c.outputs| <= |c.served|
            && |c.requests| <= |c.replies| + 1
  {
    RunKeeps(OPENED, es);
  }

  /** No byte is left over between exchanges: when the client may issue its next request, both directions are empty
      and, unless it has closed, the server is at the start of a message. */
  lemma QuietBetweenExchanges(es: seq<Event>)
    requires ValidRun(OPENED, es) && Run(OPENED, es).client.Ready? && !Run(OPENED, es).server.Closed?
    ensures var c := Run(OPENED, es);
            c.toServer == [] && c.toClient == [] && c.server == Reading([]) && |c.replies| == |c.served| == |c.requests|
  {
    RunKeeps(OPENED, es);
  }

  /** Bytes of the current exchange still to be moved, each counted once per leg it has ahead. */
  function Remaining(c: Connection): (n: nat)
  {
    2 * (if c.client.Sending? then |c.client.rest| else 0) + |c.toServer|
    + 2 * (if c.server.Writing? then |c.server.rest| else 0) + |c.toClient|
  }

  /** Every transfer makes progress, however small its chunk. */
  lemma TransfersProgress(c: Connection, e: Event)
    requires Enabled(c, e) && (e.ClientSends? || e.ServerReceives? || e.ServerSends? || e.ClientReceives?)
    ensures Remaining(Step(c, e)) < Remaining(c)
  {
  }

  /** In a run where neither end has stopped there is always a next step, so an exchange never blocks on itself. */
  lemma NeverStuck(es: seq<Event>)
    requires ValidRun(OPENED, es) && !Run(OPENED, es).client.Stopped? && !Run(OPENED, es).client.Ready?
             && !Run(OPENED, es).server.Closed?
    ensures var c := Run(OPENED, es);
            exists e :: Enabled(c, e) && !e.ClientStops? && !e.ServerStops?
  {
    hide Encode, Decode, Complete, Asked, Run, Inv, Enabled;
    var c := Run(OPENED, es);
    RunKeeps(OPENED, es);
    var e := NextStep(c);
  }

  lemma NextStep(c: Connection) returns (e: Event)
    requires Inv(c) && !c.client.Stopped? && !c.client.Ready? && !c.server.Closed?
    ensures Enabled(c, e) && !e.ClientStops? && !e.ServerStops?
  {
    hide Encode, Decode, Complete, Asked;
    if c.client.Sending? {
      e := ClientSends(1);
    } else if c.server.Writing? {
      e := ServerSends(1);
    } else if |c.served| < |c.requests| {
      NextReceive(c.requests[|c.served|], c.server.got, c.toServer);
      e := if c.toServer == [] then Handle(None) else ServerReceives(1);
    } else {
      NextReceive(c.outputs[|c.replies|], c.client.got, c.toClient);
      e := if c.toClient == [] then ReadReply else ClientReceives(1);
    }
  }

  /** While part of a message is in transit the receiver asks for at least one byte; when none is, it has it all. */
  lemma NextReceive(m: Message, got: seq<int>, transit: seq<int>)
    requires m.Valid() && got + transit == Encode(m)
    ensures AreBytes(got)
    ensures transit == [] ==> Complete(got)
    ensures transit != [] ==> Asked(got) >= 1
  {
    assert got <= Encode(m);
    CompleteOnlyWhole(m, got);
    EncodeParts(m);
    DecodeOfEncode(m);
    if |got| >= HEADER {
      assert got[12..20] == Encode(m)[12..20];
    }
    if transit == [] {
      assert got == Encode(m);
    }
  }
}
