/** Every interleaving of the broker's handlers. A state is the slot map, the clients suspended inside `listen`,
    the clients that have disconnected, and a log of what happened. A suspended listener may be overtaken by any
    other client's handler; the server serialises handlers more strictly, so this covers all its schedules. */
module BrokerRuns {
  import opened Frames
  import opened Broker

  /** What the log records. A listener that does not wait finds a frame ready. `Dangling` would be a listener resuming
      on a slot that is gone. */
  datatype Entry =
    | Created(device: Device)
    | Erased(device: Device)
    | Accepted(client: nat, device: Device, frame: VideoFrame)
    | Rejected(client: nat, device: Device)
    | Entered(client: nat, device: Device, waits: bool)
    | Replied(client: nat, device: Device, frame: VideoFrame, isActive: bool)
    | Dangling(client: nat)
    | Left(client: nat)

  /** A suspended listener: the slot it references, its entry there, and the length of the log when it entered. */
  datatype Wait = Wait(device: Device, pid: nat, since: nat)

  datatype State = State(slots: Slots, waiting: map<nat, Wait>, gone: set<nat>, log: seq<Entry>)

  const INITIAL := State(map[], map[], {}, [])

  datatype Event =
    | Broadcast(client: nat, device: Device, pid: nat, frame: VideoFrame)
    | Listen(client: nat, device: Device, pid: nat)
    | Resume(client: nat)
    | Disconnect(client: nat, order: seq<Device>)

  /** A connection runs one handler at a time, its disconnect comes last, and client ids are never reused.
      Messages name a device and carry the sender's process id. */
  ghost predicate Enabled(s: State, e: Event)
  {
    match e
    case Broadcast(c, d, pid, _) => Idle(s, c) && d != "" && pid != 0
    case Listen(c, d, pid) => Idle(s, c) && d != "" && pid != 0
    case Resume(c) => c in s.waiting
    case Disconnect(c, order) => Idle(s, c) && Enumerates(order, s.slots)
  }

  predicate Idle(s: State, client: nat)
  {
    client !in s.waiting && client !in s.gone
  }

  function CreatedEntry(slots: Slots, device: Device): (r: seq<Entry>)
  {
    if device in slots then [] else [Created(device)]
  }

  function ErasedEntry(slots: Slots, order: seq<Device>, client: nat): (r: seq<Entry>)
    requires forall d :: d in order ==> d in slots
  {
    var i := FirstHolder(slots, order, client);
    if i < |order| && order[i] !in AfterRemove(slots, order, client) then [Erased(order[i])] else []
  }

  ghost function Step(s: State, e: Event): (r: State)
    requires Enabled(s, e)
  {
    match e
    case Broadcast(c, d, pid, frame) =>
      var outcome := if Accepts(s.slots, c, d, pid) then Accepted(c, d, frame) else Rejected(c, d);
      s.(slots := AfterBroadcast(s.slots, c, d, pid, frame), log := s.log + (CreatedEntry(s.slots, d) + [outcome]))
    case Listen(c, d, pid) =>
      var extra := CreatedEntry(s.slots, d) + [Entered(c, d, Waits(s.slots, d))];
      s.(slots := AfterListen(s.slots, c, d, pid), log := s.log + extra,
         waiting := s.waiting[c := Wait(d, pid, |s.log + extra|)])
    case Resume(c) =>
      var d := s.waiting[c].device;
      var rest := s.waiting - {c};
      if d in s.slots then
        s.(slots := AfterResume(s.slots, d), waiting := rest,
           log := s.log + [Replied(c, d, s.slots[d].frame, s.slots[d].broadcaster.pid != 0)])
      else
        s.(waiting := rest, log := s.log + [Dangling(c)])
    case Disconnect(c, order) =>
      s.(slots := AfterRemove(s.slots, order, c), gone := s.gone + {c},
         log := s.log + ([Left(c)] + ErasedEntry(s.slots, order, c)))
  }

  ghost predicate ValidRun(s: State, es: seq<Event>)
    decreases |es|
  {
    es == [] || (Enabled(s, es[0]) && ValidRun(Step(s, es[0]), es[1..]))
  }

  ghost function Run(s: State, es: seq<Event>): (r: State)
    requires ValidRun(s, es)
    decreases |es|
  {
    if es == [] then s else Run(Step(s, es[0]), es[1..])
  }

  // ----- What holds in every reachable state -----

  /** The last frame accepted on a device since its slot was last created, or the empty frame. */
  function LastFrame(log: seq<Entry>, device: Device): (f: VideoFrame)
  {
    if log == [] then EMPTY_FRAME
    else
      match log[|log| - 1]
      case Created(d) => if d == device then EMPTY_FRAME else LastFrame(log[..|log| - 1], device)
      case Accepted(_, d, frame) => if d == device then frame else LastFrame(log[..|log| - 1], device)
      case _ => LastFrame(log[..|log| - 1], device)
  }

  /** A frame was accepted on a device after the last reply on it, since its slot was last created. */
  ghost predicate Unanswered(log: seq<Entry>, device: Device)
  {
    exists i :: 0 <= i < |log| && log[i].Accepted? && log[i].device == device && !Answered(log, i, device)
  }

  /** The device's frame was sent, or its slot created anew, after entry `i`. */
  ghost predicate Answered(log: seq<Entry>, i: int, device: Device)
  {
    exists k :: 0 <= k < |log| && i < k && (log[k].Replied? || log[k].Created?) && log[k].device == device
  }

  /** A broadcast by the client was accepted on the device since its slot was last created. */
  ghost predicate HeldBy(log: seq<Entry>, device: Device, client: nat)
  {
    exists i :: 0 <= i < |log| && log[i].Accepted? && log[i].device == device && log[i].client == client
                && forall k :: i < k < |log| ==> log[k] != Created(device)
  }

  /** The slot referenced by every suspended listener exists, still has the listener's entry,
      and has not been erased since the listener entered. */
  ghost predicate WaitersListed(s: State)
  {
    forall c :: c in s.waiting ==> WaiterListed(s, c)
  }

  ghost predicate WaiterListed(s: State, c: nat)
    requires c in s.waiting
  {
    var w := s.waiting[c];
    && w.device in s.slots && Peer(c, w.pid) in s.slots[w.device].listeners
    && w.since <= |s.log| && forall k :: w.since <= k < |s.log| ==> s.log[k] != Erased(w.device)
  }

  ghost predicate FramesLogged(s: State)
  {
    forall d :: d in s.slots ==> s.slots[d].frame == LastFrame(s.log, d)
  }

  ghost predicate ReadyLogged(s: State)
  {
    forall d :: d in s.slots ==> (s.slots[d].frameReady <==> Unanswered(s.log, d))
  }

  ghost predicate HoldersLogged(s: State)
  {
    forall d :: d in s.slots && s.slots[d].broadcaster.pid != 0 ==> HeldBy(s.log, d, s.slots[d].broadcaster.clientId)
  }

  /** Every client accepted on the device has left. */
  ghost predicate AllLeft(log: seq<Entry>, device: Device)
  {
    forall i :: 0 <= i < |log| && log[i].Accepted? && log[i].device == device
        ==> LeftAfter(log, i, |log|, log[i].client)
  }

  /** What an entry says of what was logged before it. A reply carries the last frame accepted on its device, is active
      only if somebody was accepted there, and inactive only if all those have left. A listener waits unless a frame is
      unanswered. A broadcast is rejected only if somebody was accepted before. */
  ghost predicate EntryRight(before: seq<Entry>, e: Entry)
  {
    match e
    case Replied(_, d, frame, isActive) =>
      frame == LastFrame(before, d) && if isActive then exists c :: HeldBy(before, d, c) else AllLeft(before, d)
    case Entered(_, d, waits) => waits <==> !Unanswered(before, d)
    case Rejected(_, d) => exists c :: HeldBy(before, d, c)
    case _ => true
  }

  ghost predicate EntriesRight(log: seq<Entry>)
  {
    forall k :: 0 <= k < |log| ==> EntryRight(log[..k], log[k])
  }

  ghost predicate NoneDangling(log: seq<Entry>)
  {
    forall k :: 0 <= k < |log| ==> !log[k].Dangling?
  }

  ghost predicate LeftAfter(log: seq<Entry>, i: int, j: int, client: nat)
    requires 0 <= i && j <= |log|
  {
    exists k :: i < k < j && log[k] == Left(client)
  }

  /** A client whose broadcast was accepted broadcasts on the device until it leaves. */
  ghost predicate HoldersStay(s: State)
  {
    forall i: nat :: i < |s.log| && s.log[i].Accepted? && !LeftAfter(s.log, i, |s.log|, s.log[i].client)
        ==> Holding(s, i)
  }

  /** Entries `i` and `j` are accepted broadcasts of two clients on one device. */
  ghost predicate Rivals(log: seq<Entry>, i: nat, j: nat)
    requires i < |log| && j < |log|
  {
    log[i].Accepted? && log[j].Accepted? && log[i].device == log[j].device && log[i].client != log[j].client
  }

  /** Between accepted broadcasts of two clients on one device, the first client has left. */
  ghost predicate OneBroadcaster(log: seq<Entry>)
  {
    forall i, j :: 0 <= i < j < |log| && Rivals(log, i, j) ==> LeftAfter(log, i, j, log[i].client)
  }

  ghost predicate Inv(s: State)
  {
    && "" !in s.slots && NoOrphan(s.slots) && Vacancies(s.slots)
    && WaitersListed(s) && FramesLogged(s) && ReadyLogged(s) && HoldersLogged(s) && EntriesRight(s.log)
    && NoneDangling(s.log)
    && HoldersStay(s) && OneBroadcaster(s.log)
  }

  // ----- Preservation -----

  /** Entries that say nothing about a device's frames leave its last frame alone. */
  lemma {:induction false} LastFrameKept(log: seq<Entry>, extra: seq<Entry>, device: Device)
    requires forall k :: 0 <= k < |extra| && (extra[k].Created? || extra[k].Accepted?) ==> extra[k].device != device
    ensures LastFrame(log + extra, device) == LastFrame(log, device)
  {
    if extra == [] {
      assert log + extra == log;
    } else {
      var front := extra[..|extra| - 1];
      assert (log + extra)[..|log + extra| - 1] == log + front;
      assert (log + extra)[|log + extra| - 1] == extra[|extra| - 1];
      LastFrameKept(log, front, device);
    }
  }

  lemma EntriesExtend(log: seq<Entry>, extra: seq<Entry>)
    requires EntriesRight(log)
    requires forall k :: 0 <= k < |extra| ==> EntryRight(log + extra[..k], extra[k])
    ensures EntriesRight(log + extra)
  {
    hide EntryRight;
    var all := log + extra;
    forall k | 0 <= k < |all|
      ensures EntryRight(all[..k], all[k])
    {
      if k < |log| {
        assert all[k] == log[k] && all[..k] == log[..k];
      } else {
        assert all[k] == extra[k - |log|] && all[..k] == log + extra[..k - |log|];
      }
    }
  }

  /** Entries that neither accept, reply nor create leave open what was open. */
  lemma UnansweredKept(log: seq<Entry>, extra: seq<Entry>, device: Device)
    requires forall k ::
               0 <= k < |extra| && (extra[k].Created? || extra[k].Accepted? || extra[k].Replied?)
               ==> extra[k].device != device
    ensures Unanswered(log + extra, device) <==> Unanswered(log, device)
  {
    var all := log + extra;
    assert forall k :: |log| <= k < |all| ==> all[k] == extra[k - |log|];
    forall i | 0 <= i < |log|
      ensures Answered(all, i, device) <==> Answered(log, i, device)
    {
      if Answered(log, i, device) {
        var k :| 0 <= k < |log| && i < k && (log[k].Replied? || log[k].Created?) && log[k].device == device;
        assert all[k] == log[k];
      }
    }
    if Unanswered(log, device) {
      var i :| 0 <= i < |log| && log[i].Accepted? && log[i].device == device && !Answered(log, i, device);
      assert all[i] == log[i];
    }
  }

  /** After an accepted broadcast a frame is open, after a reply or in a new slot none is. */
  lemma UnansweredAfter(log: seq<Entry>, e: Entry)
    requires e.Created? || e.Accepted? || e.Replied?
    ensures Unanswered(log + [e], e.device) <==> e.Accepted?
  {
    var all := log + [e];
    assert all[|log|] == e;
  }

  lemma HeldKept(log: seq<Entry>, extra: seq<Entry>, device: Device, client: nat)
    requires HeldBy(log, device, client) && Created(device) !in extra
    ensures HeldBy(log + extra, device, client)
  {
    var i :| 0 <= i < |log| && log[i].Accepted? && log[i].device == device && log[i].client == client
             && forall k :: i < k < |log| ==> log[k] != Created(device);
    var all := log + extra;
    assert all[i] == log[i];
    assert forall k :: i < k < |all| ==> all[k] == if k < |log| then log[k] else extra[k - |log|];
  }

  lemma HeldNow(log: seq<Entry>, device: Device, client: nat, frame: VideoFrame)
    ensures HeldBy(log + [Accepted(client, device, frame)], device, client)
  {
    assert (log + [Accepted(client, device, frame)])[|log|] == Accepted(client, device, frame);
  }

  /** The exclusivity part of the history, for a step that logs no acceptance. */
  lemma ExclusiveExtend(log: seq<Entry>, extra: seq<Entry>)
    requires OneBroadcaster(log)
    requires forall k :: 0 <= k < |extra| ==> !extra[k].Accepted?
    ensures OneBroadcaster(log + extra)
  {
    var all := log + extra;
    assert forall k :: |log| <= k < |all| ==> all[k] == extra[k - |log|];
    forall i, j | 0 <= i < j < |all| && Rivals(all, i, j)
      ensures LeftAfter(all, i, j, all[i].client)
    {
      assert log[i] == all[i] && log[j] == all[j] && Rivals(log, i, j);
      LeftExtend(log, extra, i, j, log[i].client);
    }
  }

  lemma LeftExtend(log: seq<Entry>, extra: seq<Entry>, i: nat, j: nat, client: nat)
    requires j <= |log|
    ensures LeftAfter(log, i, j, client) ==>
              LeftAfter(log + extra, i, j, client) && LeftAfter(log + extra, i, |log + extra|, client)
  {
    if LeftAfter(log, i, j, client) {
      var k :| i < k < j && log[k] == Left(client);
      assert (log + extra)[k] == log[k];
    }
  }

  /** A holder after more log entries was a holder before them, and they do not log its leaving. */
  lemma HolderBefore(log: seq<Entry>, extra: seq<Entry>, i: nat)
    requires i < |log| && log[i].Accepted?
    requires !LeftAfter(log + extra, i, |log + extra|, log[i].client)
    ensures !LeftAfter(log, i, |log|, log[i].client)
    ensures forall k :: 0 <= k < |extra| ==> extra[k] != Left(log[i].client)
  {
    LeftExtend(log, extra, i, |log|, log[i].client);
    forall k | 0 <= k < |extra|
      ensures extra[k] != Left(log[i].client)
    {
      assert (log + extra)[|log| + k] == extra[k];
    }
  }

  /** The client of entry `i` still holds its device. */
  ghost predicate Holding(s: State, i: nat)
    requires i < |s.log| && s.log[i].Accepted?
  {
    && s.log[i].device in s.slots
    && s.slots[s.log[i].device].broadcaster.clientId == s.log[i].client
    && s.slots[s.log[i].device].broadcaster.pid != 0
  }

  /** Holders stay when a step logs no acceptance and takes no device from a client it does not log as leaving. */
  lemma HoldersExtend(s: State, r: State, extra: seq<Entry>)
    requires HoldersStay(s) && r.log == s.log + extra
    requires forall k :: 0 <= k < |extra| ==> !extra[k].Accepted?
    requires forall i: nat :: i < |s.log| && s.log[i].Accepted? && Holding(s, i) && Left(s.log[i].client) !in extra
               ==> s.log[i].device in r.slots
                   && r.slots[s.log[i].device].broadcaster == s.slots[s.log[i].device].broadcaster
    ensures HoldersStay(r)
  {
    assert forall k :: |s.log| <= k < |r.log| ==> r.log[k] == extra[k - |s.log|];
    forall i: nat | i < |r.log| && r.log[i].Accepted? && !LeftAfter(r.log, i, |r.log|, r.log[i].client)
      ensures Holding(r, i)
    {
      assert r.log[i] == s.log[i];
      HolderBefore(s.log, extra, i);
      assert Holding(s, i);
    }
  }

  lemma WaitersExtend(s: State, r: State, extra: seq<Entry>, c: nat)
    requires c in s.waiting && c in r.waiting && r.waiting[c] == s.waiting[c] && WaiterListed(s, c)
             && r.log == s.log + extra
    requires var w := s.waiting[c];
             && w.device in r.slots && Peer(c, w.pid) in r.slots[w.device].listeners
             && forall k :: 0 <= k < |extra| ==> extra[k] != Erased(w.device)
    ensures WaiterListed(r, c)
  {
    var w := s.waiting[c];
    forall k | w.since <= k < |r.log|
      ensures r.log[k] != Erased(w.device)
    {
      assert r.log[k] == if k < |s.log| then s.log[k] else extra[k - |s.log|];
    }
  }

  lemma BroadcastKeeps(s: State, e: Event)
    requires Inv(s) && e.Broadcast? && Enabled(s, e)
    ensures Inv(Step(s, e))
  {
    hide FramesLogged, ReadyLogged, HoldersLogged, LastFrame, Unanswered, HeldBy, HoldersStay, OneBroadcaster, AllLeft,
      EntriesRight;
    var r, d, c := Step(s, e), e.device, e.client;
    var outcome := if Accepts(s.slots, c, d, e.pid) then Accepted(c, d, e.frame) else Rejected(c, d);
    var extra := CreatedEntry(s.slots, d) + [outcome];
    forall w | w in r.waiting
      ensures WaiterListed(r, w)
    {
      assert WaiterListed(s, w);
      WaitersExtend(s, r, extra, w);
    }
    BroadcastFrames(s, e);
    BroadcastAccounts(s, e);
    EntriesExtend(s.log, extra);
    BroadcastHolders(s, e);
  }

  /** Readiness and holders after a broadcast, and the reason of a rejection. */
  lemma BroadcastAccounts(s: State, e: Event)
    requires Inv(s) && e.Broadcast? && Enabled(s, e)
    ensures ReadyLogged(Step(s, e)) && HoldersLogged(Step(s, e))
    ensures var outcome := if Accepts(s.slots, e.client, e.device, e.pid) then Accepted(e.client, e.device, e.frame)
                           else Rejected(e.client, e.device);
            EntryRight(s.log + CreatedEntry(s.slots, e.device), outcome)
  {
    hide Unanswered, HeldBy, EntriesRight;
    var r, d, c := Step(s, e), e.device, e.client;
    var outcome := if Accepts(s.slots, c, d, e.pid) then Accepted(c, d, e.frame) else Rejected(c, d);
    var created := s.log + CreatedEntry(s.slots, d);
    assert r.log == created + [outcome];
    assert d in s.slots ==> created == s.log;
    forall d' | d' in r.slots
      ensures r.slots[d'].frameReady <==> Unanswered(r.log, d')
      ensures r.slots[d'].broadcaster.pid != 0 ==> HeldBy(r.log, d', r.slots[d'].broadcaster.clientId)
    {
      if d' == d && outcome.Accepted? {
        UnansweredAfter(created, outcome);
        HeldNow(created, d, c, e.frame);
      } else {
        UnansweredKept(s.log, CreatedEntry(s.slots, d) + [outcome], d');
        if r.slots[d'].broadcaster.pid != 0 {
          HeldKept(s.log, CreatedEntry(s.slots, d) + [outcome], d', r.slots[d'].broadcaster.clientId);
        }
        assert s.log + (CreatedEntry(s.slots, d) + [outcome]) == r.log;
      }
    }
  }

  lemma BroadcastFrames(s: State, e: Event)
    requires Inv(s) && e.Broadcast? && Enabled(s, e)
    ensures FramesLogged(Step(s, e))
  {
    var r, d, c := Step(s, e), e.device, e.client;
    var outcome := if Accepts(s.slots, c, d, e.pid) then Accepted(c, d, e.frame) else Rejected(c, d);
    var extra := CreatedEntry(s.slots, d) + [outcome];
    forall d' | d' in r.slots
      ensures r.slots[d'].frame == LastFrame(r.log, d')
    {
      if d' != d || !Accepts(s.slots, c, d, e.pid) {
        LastFrameKept(s.log, extra, d');
      } else {
        assert r.log[|r.log| - 1] == outcome;
      }
    }
  }

  lemma BroadcastHolders(s: State, e: Event)
    requires Inv(s) && e.Broadcast? && Enabled(s, e)
    ensures HoldersStay(Step(s, e)) && OneBroadcaster(Step(s, e).log)
  {
    var r, d, c := Step(s, e), e.device, e.client;
    var outcome := if Accepts(s.slots, c, d, e.pid) then Accepted(c, d, e.frame) else Rejected(c, d);
    var extra := CreatedEntry(s.slots, d) + [outcome];
    var last := |r.log| - 1;
    assert r.log[last] == outcome;
    assert forall k :: |s.log| <= k < last ==> r.log[k] == Created(d);
    forall i: nat | i < |r.log| && r.log[i].Accepted? && !LeftAfter(r.log, i, |r.log|, r.log[i].client)
      ensures Holding(r, i)
    {
      if i < |s.log| {
        assert r.log[i] == s.log[i];
        HolderBefore(s.log, extra, i);
        assert Holding(s, i);
      }
    }
    forall i, j | 0 <= i < j < |r.log| && Rivals(r.log, i, j)
      ensures LeftAfter(r.log, i, j, r.log[i].client)
    {
      assert r.log[i] == s.log[i];
      if j < |s.log| {
        assert r.log[j] == s.log[j] && Rivals(s.log, i, j);
        LeftExtend(s.log, extra, i, j, s.log[i].client);
      } else {
        assert !Holding(s, i);
        LeftExtend(s.log, extra, i, |s.log|, s.log[i].client);
        var k :| i < k < |s.log| && s.log[k] == Left(s.log[i].client);
        assert r.log[k] == s.log[k];
      }
    }
  }

  lemma ListenKeeps(s: State, e: Event)
    requires Inv(s) && e.Listen? && Enabled(s, e)
    ensures Inv(Step(s, e))
  {
    hide Unanswered, HeldBy, HoldersStay, OneBroadcaster, LastFrame, AllLeft, EntriesRight;
    var r := Step(s, e);
    var extra := CreatedEntry(s.slots, e.device) + [Entered(e.client, e.device, Waits(s.slots, e.device))];
    ListenWaiters(s, e);
    ListenFrames(s, e);
    ListenAccounts(s, e);
    EntriesExtend(s.log, extra);
    ExclusiveExtend(s.log, extra);
    HoldersExtend(s, r, extra);
  }

  lemma ListenWaiters(s: State, e: Event)
    requires Inv(s) && e.Listen? && Enabled(s, e)
    ensures WaitersListed(Step(s, e))
  {
    var r, d, c := Step(s, e), e.device, e.client;
    var extra := CreatedEntry(s.slots, d) + [Entered(c, d, Waits(s.slots, d))];
    forall w | w in r.waiting
      ensures WaiterListed(r, w)
    {
      if w == c {
        var ls := r.slots[d].listeners;
        assert ls[|ls| - 1] == Peer(c, e.pid);
      } else {
        assert WaiterListed(s, w);
        WaitersExtend(s, r, extra, w);
      }
    }
  }

  lemma ListenFrames(s: State, e: Event)
    requires Inv(s) && e.Listen? && Enabled(s, e)
    ensures FramesLogged(Step(s, e))
  {
    var r, d, c := Step(s, e), e.device, e.client;
    forall d' | d' in r.slots
      ensures r.slots[d'].frame == LastFrame(r.log, d')
    {
      if d' in s.slots {
        LastFrameKept(s.log, CreatedEntry(s.slots, d) + [Entered(c, d, Waits(s.slots, d))], d');
      } else {
        var created := s.log + [Created(d)];
        assert r.log == created + [Entered(c, d, Waits(s.slots, d))];
        assert created[|created| - 1] == Created(d);
        LastFrameKept(created, [Entered(c, d, Waits(s.slots, d))], d');
      }
    }
  }

  /** Readiness and holders after a listener entered, and whether it waits. */
  lemma ListenAccounts(s: State, e: Event)
    requires Inv(s) && e.Listen? && Enabled(s, e)
    ensures ReadyLogged(Step(s, e)) && HoldersLogged(Step(s, e))
    ensures EntryRight(s.log + CreatedEntry(s.slots, e.device),
                       Entered(e.client, e.device, Waits(s.slots, e.device)))
  {
    hide Unanswered, HeldBy, EntriesRight;
    var r, d := Step(s, e), e.device;
    var entered := Entered(e.client, d, Waits(s.slots, d));
    var created := s.log + CreatedEntry(s.slots, d);
    assert r.log == created + [entered];
    assert d in s.slots ==> created == s.log;
    if d !in s.slots {
      UnansweredAfter(s.log, Created(d));
    }
    forall d' | d' in r.slots
      ensures r.slots[d'].frameReady <==> Unanswered(r.log, d')
      ensures r.slots[d'].broadcaster.pid != 0 ==> HeldBy(r.log, d', r.slots[d'].broadcaster.clientId)
    {
      if d' == d {
        UnansweredKept(created, [entered], d);
      } else {
        UnansweredKept(s.log, CreatedEntry(s.slots, d) + [entered], d');
      }
      if r.slots[d'].broadcaster.pid != 0 {
        HeldKept(s.log, CreatedEntry(s.slots, d) + [entered], d', r.slots[d'].broadcaster.clientId);
      }
      assert s.log + (CreatedEntry(s.slots, d) + [entered]) == r.log;
    }
  }

  lemma ResumeKeeps(s: State, e: Event)
    requires Inv(s) && e.Resume? && Enabled(s, e)
    ensures Inv(Step(s, e))
  {
    hide Unanswered, HeldBy, HoldersStay, OneBroadcaster, LastFrame, AllLeft, EntriesRight;
    var r, c := Step(s, e), e.client;
    assert WaiterListed(s, c);
    var d := s.waiting[c].device;
    var extra := [Replied(c, d, s.slots[d].frame, s.slots[d].broadcaster.pid != 0)];
    forall w | w in r.waiting
      ensures WaiterListed(r, w)
    {
      assert WaiterListed(s, w);
      WaitersExtend(s, r, extra, w);
    }
    forall d' | d' in r.slots
      ensures r.slots[d'].frame == LastFrame(r.log, d')
    {
      LastFrameKept(s.log, extra, d');
    }
    ResumeAccounts(s, e);
    assert s.log + extra[..0] == s.log;
    EntriesExtend(s.log, extra);
    ExclusiveExtend(s.log, extra);
    HoldersExtend(s, r, extra);
  }

  /** Readiness and holders after a reply, and what it carries. */
  lemma ResumeAccounts(s: State, e: Event)
    requires Inv(s) && e.Resume? && Enabled(s, e)
    ensures s.waiting[e.client].device in s.slots
    ensures ReadyLogged(Step(s, e)) && HoldersLogged(Step(s, e))
    ensures var d := s.waiting[e.client].device;
            EntryRight(s.log, Replied(e.client, d, s.slots[d].frame, s.slots[d].broadcaster.pid != 0))
  {
    hide Unanswered, HeldBy, EntriesRight;
    assert WaiterListed(s, e.client);
    var r, d := Step(s, e), s.waiting[e.client].device;
    var replied := Replied(e.client, d, s.slots[d].frame, s.slots[d].broadcaster.pid != 0);
    forall d' | d' in r.slots
      ensures r.slots[d'].frameReady <==> Unanswered(r.log, d')
      ensures r.slots[d'].broadcaster.pid != 0 ==> HeldBy(r.log, d', r.slots[d'].broadcaster.clientId)
    {
      if d' == d {
        UnansweredAfter(s.log, replied);
      } else {
        UnansweredKept(s.log, [replied], d');
      }
      if r.slots[d'].broadcaster.pid != 0 {
        HeldKept(s.log, [replied], d', r.slots[d'].broadcaster.clientId);
      }
    }
    if s.slots[d].broadcaster.pid == 0 {
      forall i: nat | i < |s.log| && s.log[i].Accepted? && s.log[i].device == d
        ensures LeftAfter(s.log, i, |s.log|, s.log[i].client)
      {
        assert !Holding(s, i);
      }
    }
  }

  lemma {:induction false} OthersKeep(listeners: seq<Peer>, p: Peer, client: nat)
    requires p.clientId != client
    ensures p in Others(listeners, client) <==> p in listeners
  {
    if listeners != [] {
      OthersKeep(listeners[1..], p, client);
      assert listeners == [listeners[0]] + listeners[1..];
    }
  }

  lemma DisconnectKeeps(s: State, e: Event)
    requires Inv(s) && e.Disconnect? && Enabled(s, e)
    ensures Inv(Step(s, e))
  {
    hide Unanswered, HeldBy, HoldersStay, OneBroadcaster, AllLeft, EntriesRight, LastFrame, AfterRemove, ErasedEntry,
      Vacancies, NoOrphan, WaitersListed, ReadyLogged, HoldersLogged, FramesLogged;
    var extra := [Left(e.client)] + ErasedEntry(s.slots, e.order, e.client);
    ErasedOnly(s.slots, e.order, e.client);
    DisconnectWaiters(s, e);
    DisconnectSlots(s, e);
    DisconnectAccounts(s, e);
    EntriesExtend(s.log, extra);
    ExclusiveExtend(s.log, extra);
    DisconnectHolders(s, e);
  }

  lemma ErasedOnly(slots: Slots, order: seq<Device>, client: nat)
    requires forall d :: d in order ==> d in slots
    ensures var extra := ErasedEntry(slots, order, client); forall k :: 0 <= k < |extra| ==> extra[k].Erased?
  {
    hide AfterRemove;
  }

  lemma DisconnectSlots(s: State, e: Event)
    requires Inv(s) && e.Disconnect? && Enabled(s, e)
    ensures "" !in Step(s, e).slots && NoOrphan(Step(s, e).slots) && Vacancies(Step(s, e).slots)
    ensures FramesLogged(Step(s, e))
  {
    hide Unanswered, HeldBy, HoldersStay, OneBroadcaster, AllLeft, EntriesRight, WaitersListed, LastFrame;
    var r, c := Step(s, e), e.client;
    var extra := [Left(c)] + ErasedEntry(s.slots, e.order, c);
    forall d | d in r.slots
      ensures r.slots[d].frame == LastFrame(r.log, d)
    {
      LastFrameKept(s.log, extra, d);
      RemoveSparesOthers(s.slots, e.order, c, d);
    }
  }

  lemma DisconnectAccounts(s: State, e: Event)
    requires Inv(s) && e.Disconnect? && Enabled(s, e)
    ensures ReadyLogged(Step(s, e)) && HoldersLogged(Step(s, e))
  {
    hide Unanswered, HeldBy, EntriesRight, AfterRemove;
    var r, c := Step(s, e), e.client;
    var extra := [Left(c)] + ErasedEntry(s.slots, e.order, c);
    forall d | d in r.slots
      ensures r.slots[d].frameReady <==> Unanswered(r.log, d)
      ensures r.slots[d].broadcaster.pid != 0 ==> HeldBy(r.log, d, r.slots[d].broadcaster.clientId)
    {
      BroadcasterKeptOrVacant(s.slots, e.order, c, d);
      RemoveSparesOthers(s.slots, e.order, c, d);
      UnansweredKept(s.log, extra, d);
      if r.slots[d].broadcaster.pid != 0 {
        HeldKept(s.log, extra, d, r.slots[d].broadcaster.clientId);
      }
    }
  }

  lemma BroadcasterKeptOrVacant(slots: Slots, order: seq<Device>, client: nat, d: Device)
    requires Enumerates(order, slots) && d in AfterRemove(slots, order, client)
    ensures d in slots
    ensures var b := AfterRemove(slots, order, client)[d].broadcaster; b == slots[d].broadcaster || b == NO_PEER
  {
  }

  lemma DisconnectWaiters(s: State, e: Event)
    requires Inv(s) && e.Disconnect? && Enabled(s, e)
    ensures WaitersListed(Step(s, e))
  {
    var r, c := Step(s, e), e.client;
    var extra := [Left(c)] + ErasedEntry(s.slots, e.order, c);
    forall w | w in r.waiting
      ensures WaiterListed(r, w)
    {
      assert WaiterListed(s, w);
      var d, p := s.waiting[w].device, Peer(w, s.waiting[w].pid);
      RemoveSparesOthers(s.slots, e.order, c, d);
      OthersKeep(s.slots[d].listeners, p, c);
      OthersKeep(r.slots[d].listeners, p, c);
      DisconnectErases(s.slots, e.order, c, d);
      WaitersExtend(s, r, extra, w);
    }
  }

  lemma DisconnectHolders(s: State, e: Event)
    requires Inv(s) && e.Disconnect? && Enabled(s, e)
    ensures HoldersStay(Step(s, e))
  {
    var r, c := Step(s, e), e.client;
    var extra := [Left(c)] + ErasedEntry(s.slots, e.order, c);
    assert extra[0] == Left(c);
    forall d | d in s.slots
      ensures s.slots[d].broadcaster.pid != 0 && s.slots[d].broadcaster.clientId != c ==>
                d in r.slots && r.slots[d].broadcaster == s.slots[d].broadcaster
    {
      RemoveSparesOthers(s.slots, e.order, c, d);
    }
    HoldersExtend(s, r, extra);
  }

  lemma DisconnectErases(slots: Slots, order: seq<Device>, client: nat, d: Device)
    requires Enumerates(order, slots) && d in slots
    ensures d !in AfterRemove(slots, order, client) <==> Erased(d) in [Left(client)] + ErasedEntry(slots, order, client)
  {
    var i := FirstHolder(slots, order, client);
    var extra := [Left(client)] + ErasedEntry(slots, order, client);
    if i < |order| && order[i] !in AfterRemove(slots, order, client) {
      assert extra[1] == Erased(order[i]);
      assert forall x :: x in extra ==> x == Left(client) || x == Erased(order[i]);
    }
  }

  /** Every handler step, from every state satisfying the invariant, keeps it. */
  lemma StepKeeps(s: State, e: Event)
    requires Inv(s) && Enabled(s, e)
    ensures Inv(Step(s, e))
  {
    match e
    case Broadcast(_, _, _, _) => BroadcastKeeps(s, e);
    case Listen(_, _, _) => ListenKeeps(s, e);
    case Resume(_) => ResumeKeeps(s, e);
    case Disconnect(_, _) => DisconnectKeeps(s, e);
  }

  lemma {:induction false} RunKeeps(s: State, es: seq<Event>)
    requires Inv(s) && ValidRun(s, es)
    ensures Inv(Run(s, es))
    decreases |es|
  {
    if es != [] {
      StepKeeps(s, es[0]);
      RunKeeps(Step(s, es[0]), es[1..]);
    }
  }

  // ----- The theorems, over every run from the empty broker -----

  /** The slot a suspended listener references is never erased before it resumes: it exists, holds the listener's
      entry, and was not erased since the listener entered; so no run ever resumes on a missing slot. */
  lemma WaitingSlotSurvives(es: seq<Event>, c: nat)
    requires ValidRun(INITIAL, es)
    ensures var s := Run(INITIAL, es);
            && NoneDangling(s.log)
            && (c in s.waiting ==> WaiterListed(s, c))
  {
    RunKeeps(INITIAL, es);
  }

  /** Whatever the interleaving, a reply carries the last frame accepted on its device since the slot was created. It
      says that the device is active only if a broadcast was accepted there, and that it is not only if every client
      ever accepted there has left. */
  lemma RepliesCarryLastFrame(es: seq<Event>, k: nat)
    requires ValidRun(INITIAL, es)
    requires k < |Run(INITIAL, es).log| && Run(INITIAL, es).log[k].Replied?
    ensures var log := Run(INITIAL, es).log;
            var d := log[k].device;
            && log[k].frame == LastFrame(log[..k], d)
            && if log[k].isActive then exists c :: HeldBy(log[..k], d, c) else AllLeft(log[..k], d)
  {
    hide HeldBy, AllLeft, LastFrame;
    RunKeeps(INITIAL, es);
    var log := Run(INITIAL, es).log;
    assert EntryRight(log[..k], log[k]);
  }

  /** Whatever the interleaving, a listener goes on without waiting exactly when a frame was accepted on the device
      after the last reply on it, since the slot was created. */
  lemma ListenersWaitForFrames(es: seq<Event>, k: nat)
    requires ValidRun(INITIAL, es)
    requires k < |Run(INITIAL, es).log| && Run(INITIAL, es).log[k].Entered?
    ensures var log := Run(INITIAL, es).log;
            var d := log[k].device;
            !log[k].waits <==>
              exists i :: 0 <= i < k && log[i].Accepted? && log[i].device == d
                          && forall j :: i < j < k && (log[j].Replied? || log[j].Created?) ==> log[j].device != d
  {
    RunKeeps(INITIAL, es);
    var log := Run(INITIAL, es).log;
    assert EntryRight(log[..k], log[k]);
    var d := log[k].device;
    if i :| 0 <= i < k && log[i].Accepted? && log[i].device == d
            && forall j :: i < j < k && (log[j].Replied? || log[j].Created?) ==> log[j].device != d {
      assert log[..k][i] == log[i] && !Answered(log[..k], i, d);
    }
    if !log[k].waits {
      var i :| 0 <= i < k && log[..k][i].Accepted? && log[..k][i].device == d && !Answered(log[..k], i, d);
      assert forall j :: i < j < k ==> log[..k][j] == log[j];
    }
  }

  /** A broadcast is rejected only on a device on which one was accepted since its slot was created. */
  lemma RejectedOnlyWhenTaken(es: seq<Event>, k: nat)
    requires ValidRun(INITIAL, es)
    requires k < |Run(INITIAL, es).log| && Run(INITIAL, es).log[k].Rejected?
    ensures var log := Run(INITIAL, es).log; exists c :: HeldBy(log[..k], log[k].device, c)
  {
    hide HeldBy;
    RunKeeps(INITIAL, es);
    var log := Run(INITIAL, es).log;
    assert EntryRight(log[..k], log[k]);
  }

  /** At most one broadcaster per device at any time: two clients are accepted on a device only if the first left in
      between. */
  lemma BroadcastersTakeTurns(es: seq<Event>, i: nat, j: nat)
    requires ValidRun(INITIAL, es)
    requires var log := Run(INITIAL, es).log;
             i < j < |log| && log[i].Accepted? && log[j].Accepted? && log[i].device == log[j].device
                 && log[i].client != log[j].client
    ensures var log := Run(INITIAL, es).log; exists k :: i < k < j && log[k] == Left(log[i].client)
  {
    RunKeeps(INITIAL, es);
    assert Rivals(Run(INITIAL, es).log, i, j);
  }

  /** No reachable slot is an orphan, and in every reachable state a disconnect takes out exactly one of the client's
      entries if it has any; only client 0, whose id also marks a missing broadcaster, can miss its entry. */
  lemma DisconnectTakesOne(es: seq<Event>, order: seq<Device>, client: nat)
    requires ValidRun(INITIAL, es) && Enumerates(order, Run(INITIAL, es).slots)
    ensures NoOrphan(Run(INITIAL, es).slots)
    ensures var slots := Run(INITIAL, es).slots;
            var n := Entries(slots, order, client);
            Entries(AfterRemove(slots, order, client), order, client)
            == if n == 0 || Misled(slots, order, client) then n else n - 1
  {
    RunKeeps(INITIAL, es);
    RemoveTakesOne(Run(INITIAL, es).slots, order, client);
  }

  /** Client 0 can keep its entry after disconnecting: it listens on "b", while "a" has a listener but no
      broadcaster. */
  lemma ClientZeroMisled()
    ensures var es := [Listen(1, "a", 1), Listen(0, "b", 1), Resume(0)];
            ValidRun(INITIAL, es)
            && var slots := Run(INITIAL, es).slots;
               Enumerates(["a", "b"], slots) && Entries(slots, ["a", "b"], 0) == 1
               && Entries(AfterRemove(slots, ["a", "b"], 0), ["a", "b"], 0) == 1
  {
    var e0, e1, e2 := Listen(1, "a", 1), Listen(0, "b", 1), Resume(0);
    var s1 := Step(INITIAL, e0);
    var s2 := Step(s1, e1);
    var s3 := Step(s2, e2);
    var es := [e0, e1, e2];
    assert es[1..] == [e1, e2] && es[1..][1..] == [e2] && es[1..][1..][1..] == [];
    assert ValidRun(s3, []) && Run(s3, []) == s3;
    assert ValidRun(s2, [e2]) && Run(s2, [e2]) == s3;
    assert ValidRun(s1, [e1, e2]) && Run(s1, [e1, e2]) == s3;
    assert Run(INITIAL, es) == s3;
    var slots, order := s3.slots, ["a", "b"];
    assert slots.Keys == {"a", "b"};
    assert slots["a"] == NEW_SLOT.(listeners := [Peer(1, 1)]);
    assert slots["b"] == NEW_SLOT.(listeners := [Peer(0, 1)]);
    assert order[1..] == ["b"] && ["b"][1..] == [];
    assert FirstHolder(slots, order, 0) == 0;
    assert ListenerCount([Peer(0, 1)], 0) == 1;
    assert ListenerCount([Peer(1, 1)], 0) == 0;
    assert AfterRemove(slots, order, 0) == slots;
    assert Entries(slots, [], 0) == 0 && Entries(slots, ["b"], 0) == 1;
    assert Entries(slots, order, 0) == 0 + Entries(slots, order[1..], 0);
    assert Enumerates(order, slots);
  }
}
