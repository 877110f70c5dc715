/** The frame broker: one slot per device, shared by a broadcaster and its listeners (Service/src/service.cpp).
    `ServicePrivate` holds the slots; each handler is specified by a function of the slot map, and the handlers
    are then interleaved freely, with a listener suspended in the middle of `listen`. */
module Broker {
  import opened Frames

  type Device = string

  datatype Peer = Peer(clientId: nat, pid: nat)

  /** A default peer, which also stands for "no broadcaster". */
  const NO_PEER := Peer(0, 0)

  datatype Slot = Slot(broadcaster: Peer, listeners: seq<Peer>, frame: VideoFrame, frameReady: bool)

  const NEW_SLOT := Slot(NO_PEER, [], EMPTY_FRAME, false)

  type Slots = map<Device, Slot>

  datatype ClientType = AnyClient | ListenersOnly

  const STATUS_OK: int := 0
  const STATUS_FAILED: int := -1

  // ----- Handlers as functions of the slot map -----

  /** The slot a broadcast works on, once created and claimed. */
  function ClaimedSlot(slots: Slots, client: nat, device: Device, pid: nat): (s: Slot)
  {
    var s := if device in slots then slots[device] else NEW_SLOT.(broadcaster := Peer(client, pid));
    if s.broadcaster.pid == 0 then s.(broadcaster := Peer(client, pid)) else s
  }

  predicate Accepts(slots: Slots, client: nat, device: Device, pid: nat)
  {
    ClaimedSlot(slots, client, device, pid).broadcaster == Peer(client, pid)
  }

  function AfterBroadcast(slots: Slots, client: nat, device: Device, pid: nat, frame: VideoFrame): (r: Slots)
  {
    var s := ClaimedSlot(slots, client, device, pid);
    if s.broadcaster == Peer(client, pid) then slots[device := s.(frame := frame, frameReady := true)]
    else slots[device := s]
  }

  /** `listen` up to the point where it may wait. */
  function AfterListen(slots: Slots, client: nat, device: Device, pid: nat): (r: Slots)
  {
    var s := if device in slots then slots[device] else NEW_SLOT;
    slots[device := s.(listeners := s.listeners + [Peer(client, pid)])]
  }

  /** A listener waits unless a frame is ready. */
  predicate Waits(slots: Slots, device: Device)
  {
    !(device in slots && slots[device].frameReady)
  }

  /** The rest of `listen`, on the slot referenced before the wait. */
  function AfterResume(slots: Slots, device: Device): (r: Slots)
    requires device in slots
  {
    slots[device := slots[device].(frameReady := false)]
  }

  /** Index of the client's first listener entry, or the length. */
  function FirstListener(listeners: seq<Peer>, client: nat): (i: nat)
    ensures i <= |listeners|
    ensures i < |listeners| ==> listeners[i].clientId == client
    ensures forall j :: 0 <= j < i ==> listeners[j].clientId != client
  {
    if listeners == [] || listeners[0].clientId == client then 0 else 1 + FirstListener(listeners[1..], client)
  }

  predicate Holds(s: Slot, client: nat)
  {
    s.broadcaster.clientId == client || FirstListener(s.listeners, client) < |s.listeners|
  }

  /** The slot with one entry of the client taken out: as broadcaster if it looks like the broadcaster, else the first
      listener entry. */
  function Without(s: Slot, client: nat): (r: Slot)
    requires Holds(s, client)
  {
    if s.broadcaster.clientId == client then s.(broadcaster := NO_PEER)
    else
      var i := FirstListener(s.listeners, client);
      s.(listeners := s.listeners[..i] + s.listeners[i + 1..])
  }

  predicate Orphan(s: Slot)
  {
    s.broadcaster.pid == 0 && s.listeners == []
  }

  /** First device, in the map's iteration order, whose slot mentions the client. */
  function FirstHolder(slots: Slots, order: seq<Device>, client: nat): (i: nat)
    requires forall d :: d in order ==> d in slots
    ensures i <= |order|
    ensures i < |order| ==> Holds(slots[order[i]], client)
    ensures forall j :: 0 <= j < i ==> !Holds(slots[order[j]], client)
  {
    if order == [] || Holds(slots[order[0]], client) then 0 else 1 + FirstHolder(slots, order[1..], client)
  }

  function AfterRemove(slots: Slots, order: seq<Device>, client: nat): (r: Slots)
    requires forall d :: d in order ==> d in slots
  {
    var i := FirstHolder(slots, order, client);
    if i == |order| then slots
    else
      var d, s := order[i], Without(slots[order[i]], client);
      if Orphan(s) && d != "" then slots - {d} else slots[d := s]
  }

  /** The order in which the map is iterated: every device once. */
  ghost predicate Enumerates(order: seq<Device>, slots: Slots)
  {
    && (forall d :: d in order <==> d in slots)
    && (forall i, j :: 0 <= i < j < |order| ==> order[i] != order[j])
  }

  /** One entry of the client was taken out of the device's slot; `remove` names the slot if that left it an orphan. */
  ghost predicate Taken(was: Slots, now: Slots, device: Device, remove: Device, client: nat)
  {
    && device in was && Holds(was[device], client)
    && now == was[device := Without(was[device], client)]
    && remove == if Orphan(Without(was[device], client)) then device else ""
  }

  lemma FirstHolderIs(slots: Slots, order: seq<Device>, i: nat, client: nat)
    requires forall d :: d in order ==> d in slots
    requires i <= |order| && (i < |order| ==> Holds(slots[order[i]], client))
    requires forall j :: 0 <= j < i ==> !Holds(slots[order[j]], client)
    ensures FirstHolder(slots, order, client) == i
  {
    hide Holds;
  }

  // ----- The service object -----

  class ServicePrivate {
    var broadcasts: Slots

    constructor ()
      ensures broadcasts == map[]
    {
      broadcasts := map[];
    }

    method Broadcast(clientId: nat, device: Device, pid: nat, frame: VideoFrame) returns (status: int)
      modifies this
      ensures broadcasts == AfterBroadcast(old(broadcasts), clientId, device, pid, frame)
      ensures status == if Accepts(old(broadcasts), clientId, device, pid) then STATUS_OK else STATUS_FAILED
    {
      status := STATUS_FAILED;
      if device !in broadcasts {
        broadcasts := broadcasts[device := NEW_SLOT.(broadcaster := Peer(clientId, pid))];
      }
      if broadcasts[device].broadcaster.pid == 0 {
        broadcasts := broadcasts[device := broadcasts[device].(broadcaster := Peer(clientId, pid))];
      }
      if broadcasts[device].broadcaster.pid == pid && broadcasts[device].broadcaster.clientId == clientId {
        broadcasts := broadcasts[device := broadcasts[device].(frame := frame, frameReady := true)];
        status := STATUS_OK;
      }
    }

    /** `listen` before the wait; it waits only when no frame is ready. */
    method ListenEnter(clientId: nat, device: Device, pid: nat) returns (waits: bool)
      modifies this
      ensures broadcasts == AfterListen(old(broadcasts), clientId, device, pid)
      ensures waits <==> Waits(old(broadcasts), device)
    {
      if device !in broadcasts {
        broadcasts := broadcasts[device := NEW_SLOT];
      }
      var slot := broadcasts[device];
      broadcasts := broadcasts[device := slot.(listeners := slot.listeners + [Peer(clientId, pid)])];
      waits := !slot.frameReady;
    }

    /** `listen` after the wait, on the slot it referenced before: that slot must still be there. */
    method ListenResume(device: Device) returns (frame: VideoFrame, isActive: bool)
      requires device in broadcasts
      modifies this
      ensures broadcasts == AfterResume(old(broadcasts), device)
      ensures frame == old(broadcasts)[device].frame
      ensures isActive <==> old(broadcasts)[device].broadcaster.pid != 0
    {
      frame := broadcasts[device].frame;
      isActive := broadcasts[device].broadcaster.pid != 0;
      broadcasts := broadcasts[device := broadcasts[device].(frameReady := false)];
    }

    method RemoveClientById(clientId: nat, order: seq<Device>)
      requires Enumerates(order, broadcasts)
      modifies this
      ensures broadcasts == AfterRemove(old(broadcasts), order, clientId)
    {
      hide FirstListener;
      var removeDevice := "";
      ghost var was := broadcasts;
      var i := 0;
      while i < |order|
        invariant 0 <= i <= |order|
        invariant broadcasts == was && removeDevice == ""
        invariant forall j :: 0 <= j < i ==> !Holds(was[order[j]], clientId)
      {
        var device := order[i];
        var slot := broadcasts[device];
        if slot.broadcaster.clientId == clientId {
          broadcasts := broadcasts[device := slot.(broadcaster := NO_PEER)];
          if slot.listeners == [] {
            removeDevice := device;
          }
          assert Taken(was, broadcasts, device, removeDevice, clientId);
          break;
        } else {
          var it := FindListener(slot.listeners, clientId);
          if it != |slot.listeners| {
            var rest := slot.listeners[..it] + slot.listeners[it + 1..];
            broadcasts := broadcasts[device := slot.(listeners := rest)];
            if slot.broadcaster.pid == 0 && rest == [] {
              removeDevice := device;
            }
            assert Taken(was, broadcasts, device, removeDevice, clientId);
            break;
          }
        }
        i := i + 1;
      }
      FirstHolderIs(was, order, i, clientId);
      if removeDevice != "" {
        broadcasts := broadcasts - {removeDevice};
      }
    }

    /** `std::find_if` over the listeners. */
    static method FindListener(listeners: seq<Peer>, clientId: nat) returns (i: nat)
      ensures i == FirstListener(listeners, clientId)
    {
      i := 0;
      while i < |listeners| && listeners[i].clientId != clientId
        invariant i <= |listeners|
        invariant forall j :: 0 <= j < i ==> listeners[j].clientId != clientId
      {
        i := i + 1;
      }
    }

    /** Process ids of the peers, each listed once. */
    method Clients(clientType: ClientType, order: seq<Device>) returns (clients: seq<nat>)
      requires Enumerates(order, broadcasts)
      ensures forall i, j :: 0 <= i < j < |clients| ==> clients[i] != clients[j]
      ensures forall p :: p in clients <==>
                exists d :: d in broadcasts && ListsPid(broadcasts[d], clientType, p)
    {
      clients := [];
      var i := 0;
      while i < |order|
        invariant 0 <= i <= |order|
        invariant forall a, b :: 0 <= a < b < |clients| ==> clients[a] != clients[b]
        invariant forall p :: p in clients <==> exists k :: 0 <= k < i && ListsPid(broadcasts[order[k]], clientType, p)
      {
        var slot := broadcasts[order[i]];
        ghost var before := clients;
        if clientType.AnyClient? && slot.broadcaster.pid != 0 && slot.broadcaster.pid !in clients {
          clients := clients + [slot.broadcaster.pid];
        }
        var j := 0;
        while j < |slot.listeners|
          invariant 0 <= j <= |slot.listeners|
          invariant forall a, b :: 0 <= a < b < |clients| ==> clients[a] != clients[b]
          invariant forall p :: p in clients <==>
                      || p in before
                      || (clientType.AnyClient? && slot.broadcaster.pid != 0 && slot.broadcaster.pid == p)
                      || exists l :: 0 <= l < j && slot.listeners[l].pid == p
        {
          if slot.listeners[j].pid !in clients {
            clients := clients + [slot.listeners[j].pid];
          }
          j := j + 1;
        }
        assert forall p :: p in clients <==> p in before || ListsPid(slot, clientType, p);
        i := i + 1;
      }
      forall p
        ensures p in clients <==> exists d :: d in broadcasts && ListsPid(broadcasts[d], clientType, p)
      {
        if d :| d in broadcasts && ListsPid(broadcasts[d], clientType, p) {
          var k :| 0 <= k < |order| && order[k] == d;
        }
      }
    }
  }

  predicate ListsPid(s: Slot, clientType: ClientType, p: nat)
  {
    || (clientType.AnyClient? && s.broadcaster.pid != 0 && s.broadcaster.pid == p)
    || exists l :: 0 <= l < |s.listeners| && s.listeners[l].pid == p
  }

  // ----- One handler at a time -----

  /** While a device has a broadcaster, a broadcast by anyone else fails and changes nothing. */
  lemma BroadcastExclusive(slots: Slots, client: nat, device: Device, pid: nat, frame: VideoFrame)
    requires device in slots && slots[device].broadcaster.pid != 0
    ensures Accepts(slots, client, device, pid) <==> slots[device].broadcaster == Peer(client, pid)
    ensures !Accepts(slots, client, device, pid) ==> AfterBroadcast(slots, client, device, pid, frame) == slots
  {
  }

  /** Number of entries a client has in a slot: as broadcaster, and once per listener entry. */
  function ListenerCount(listeners: seq<Peer>, client: nat): (n: nat)
  {
    if listeners == [] then 0
    else (if listeners[0].clientId == client then 1 else 0) + ListenerCount(listeners[1..], client)
  }

  function SlotEntries(s: Slot, client: nat): (n: nat)
  {
    (if s.broadcaster.pid != 0 && s.broadcaster.clientId == client then 1 else 0) + ListenerCount(s.listeners, client)
  }

  /** Entries over the devices of `order`; a device without a slot has none. */
  function Entries(slots: Slots, order: seq<Device>, client: nat): (n: nat)
  {
    if order == [] then 0
    else (if order[0] in slots then SlotEntries(slots[order[0]], client) else 0) + Entries(slots, order[1..], client)
  }

  lemma {:induction false} ListenerCountAppend(a: seq<Peer>, b: seq<Peer>, client: nat)
    ensures ListenerCount(a + b, client) == ListenerCount(a, client) + ListenerCount(b, client)
  {
    if a == [] {
      assert a + b == b;
    } else {
      assert (a + b)[1..] == a[1..] + b;
      ListenerCountAppend(a[1..], b, client);
    }
  }

  lemma ListenerCountWithout(listeners: seq<Peer>, i: nat, client: nat)
    requires i < |listeners|
    ensures ListenerCount(listeners[..i] + listeners[i + 1..], client)
            == ListenerCount(listeners, client) - (if listeners[i].clientId == client then 1 else 0)
  {
    assert listeners == listeners[..i] + ([listeners[i]] + listeners[i + 1..]);
    ListenerCountAppend(listeners[..i], [listeners[i]] + listeners[i + 1..], client);
    ListenerCountAppend([listeners[i]], listeners[i + 1..], client);
    ListenerCountAppend(listeners[..i], listeners[i + 1..], client);
    assert ListenerCount([listeners[i]], client) == (if listeners[i].clientId == client then 1 else 0);
  }

  lemma {:induction false} NoListener(listeners: seq<Peer>, client: nat)
    requires forall j :: 0 <= j < |listeners| ==> listeners[j].clientId != client
    ensures ListenerCount(listeners, client) == 0
  {
    if listeners != [] {
      NoListener(listeners[1..], client);
    }
  }

  /** Entries that agree slot by slot agree in total. */
  lemma {:induction false} EntriesSame(a: Slots, b: Slots, order: seq<Device>, client: nat)
    requires forall d :: d in order ==>
               (if d in a then SlotEntries(a[d], client) else 0) == (if d in b then SlotEntries(b[d], client) else 0)
    ensures Entries(a, order, client) == Entries(b, order, client)
  {
    if order != [] {
      assert order[0] in order;
      EntriesSame(a, b, order[1..], client);
    }
  }

  lemma {:induction false} EntriesAppend(slots: Slots, a: seq<Device>, b: seq<Device>, client: nat)
    ensures Entries(slots, a + b, client) == Entries(slots, a, client) + Entries(slots, b, client)
  {
    if a == [] {
      assert a + b == b;
    } else {
      assert (a + b)[1..] == a[1..] + b;
      EntriesAppend(slots, a[1..], b, client);
    }
  }

  /** Vacant broadcasters are exactly default peers. */
  ghost predicate Vacancies(slots: Slots)
  {
    forall d :: d in slots && slots[d].broadcaster.pid == 0 ==> slots[d].broadcaster == NO_PEER
  }

  ghost predicate NoOrphan(slots: Slots)
  {
    forall d :: d in slots ==> !Orphan(slots[d])
  }

  /** Id 0 is also the id in a default peer: its disconnect can stop at a slot that merely has no broadcaster. */
  predicate Misled(slots: Slots, order: seq<Device>, client: nat)
    requires forall d :: d in order ==> d in slots
  {
    var i := FirstHolder(slots, order, client);
    client == 0 && i < |order| && slots[order[i]].broadcaster == NO_PEER
  }

  /** A disconnect takes out exactly one of the client's entries, if it has any, unless it is misled: only client 0 can
      be. */
  lemma RemoveTakesOne(slots: Slots, order: seq<Device>, client: nat)
    requires Enumerates(order, slots) && Vacancies(slots)
    ensures var n := Entries(slots, order, client);
            Entries(AfterRemove(slots, order, client), order, client)
            == if n == 0 || Misled(slots, order, client) then n else n - 1
  {
    hide ListenerCount, Entries, Without, FirstListener;
    var i := FirstHolder(slots, order, client);
    var after := AfterRemove(slots, order, client);
    if i == |order| {
      forall d | d in order
        ensures SlotEntries(slots[d], client) == 0
      {
        var j :| 0 <= j < |order| && order[j] == d;
        NoListener(slots[d].listeners, client);
      }
      NoEntries(slots, order, client);
    } else {
      WithoutTakesOne(slots[order[i]], client);
      SplitOrder(slots, after, order, i, client);
      EntriesAtLeast(slots, order, i, client);
    }
  }

  /** Taking an entry out of a slot that holds the client takes one of its entries, unless the slot merely has no
      broadcaster. */
  lemma WithoutTakesOne(s: Slot, client: nat)
    requires Holds(s, client) && (s.broadcaster.pid == 0 ==> s.broadcaster == NO_PEER)
    ensures SlotEntries(Without(s, client), client)
            == SlotEntries(s, client) - (if client == 0 && s.broadcaster == NO_PEER then 0 else 1)
    ensures Orphan(Without(s, client)) ==> SlotEntries(Without(s, client), client) == 0
  {
    hide FirstListener;
    if s.broadcaster.clientId != client {
      ListenerCountWithout(s.listeners, FirstListener(s.listeners, client), client);
    }
  }

  lemma {:induction false} NoEntries(slots: Slots, order: seq<Device>, client: nat)
    requires forall d :: d in order ==> d in slots && SlotEntries(slots[d], client) == 0
    ensures Entries(slots, order, client) == 0
  {
    if order != [] {
      assert order[0] in order;
      NoEntries(slots, order[1..], client);
    }
  }

  function EntriesOf(slots: Slots, d: Device, client: nat): (n: nat)
  {
    if d in slots then SlotEntries(slots[d], client) else 0
  }

  lemma EntriesAtLeast(slots: Slots, order: seq<Device>, i: nat, client: nat)
    requires i < |order|
    ensures Entries(slots, order, client) >= EntriesOf(slots, order[i], client)
  {
    assert order == order[..i] + ([order[i]] + order[i + 1..]);
    EntriesAppend(slots, order[..i], [order[i]] + order[i + 1..], client);
    EntriesAppend(slots, [order[i]], order[i + 1..], client);
    assert [order[i]][1..] == [];
  }

  /** Two maps that differ at one device only differ in total by that device. */
  lemma SplitOrder(a: Slots, b: Slots, order: seq<Device>, i: nat, client: nat)
    requires i < |order| && forall j, k :: 0 <= j < k < |order| ==> order[j] != order[k]
    requires forall d :: d in order && d != order[i] ==> EntriesOf(a, d, client) == EntriesOf(b, d, client)
    ensures Entries(b, order, client) - EntriesOf(b, order[i], client) == Entries(a, order, client)
            - EntriesOf(a, order[i], client)
  {
    var l, r := order[..i], order[i + 1..];
    assert order == l + ([order[i]] + r);
    forall m: Slots
      ensures Entries(m, order, client) == Entries(m, l, client) + EntriesOf(m, order[i], client)
              + Entries(m, r, client)
    {
      EntriesAppend(m, l, [order[i]] + r, client);
      EntriesAppend(m, [order[i]], r, client);
      assert [order[i]][1..] == [];
    }
    assert forall d :: d in l || d in r ==> d in order && d != order[i];
    EntriesSame(a, b, l, client);
    EntriesSame(a, b, r, client);
  }

  /** A disconnect touches no other client: every slot keeps its other listeners in order and its broadcaster,
      unless that was the client, and a slot disappears only when nobody else is in it. Where the client broadcasts, its
      entries as a listener stay. */
  lemma RemoveSparesOthers(slots: Slots, order: seq<Device>, client: nat, d: Device)
    requires Enumerates(order, slots) && Vacancies(slots) && d in slots
    ensures var after := AfterRemove(slots, order, client);
            && (d in after ==>
                  && Others(after[d].listeners, client) == Others(slots[d].listeners, client)
                  && (slots[d].broadcaster.clientId != client ==> after[d].broadcaster == slots[d].broadcaster)
                  && (slots[d].broadcaster.clientId == client ==> after[d].listeners == slots[d].listeners)
                  && after[d].frame == slots[d].frame && after[d].frameReady == slots[d].frameReady)
            && (d !in after ==>
                  Others(slots[d].listeners, client) == []
                      && (slots[d].broadcaster.pid == 0 || slots[d].broadcaster.clientId == client))
  {
    hide Holds, Without, Others;
    var i := FirstHolder(slots, order, client);
    if i < |order| && order[i] == d {
      WithoutSpares(slots[d], client);
      OthersOfNone(client);
    }
  }

  lemma WithoutSpares(s: Slot, client: nat)
    requires Holds(s, client)
    ensures var r := Without(s, client);
            && Others(r.listeners, client) == Others(s.listeners, client)
            && (s.broadcaster.clientId != client ==> r.broadcaster == s.broadcaster)
            && (s.broadcaster.clientId == client ==> r.listeners == s.listeners)
            && r.frame == s.frame && r.frameReady == s.frameReady
  {
    hide FirstListener, Others;
    if s.broadcaster.clientId != client {
      OthersWithout(s.listeners, FirstListener(s.listeners, client), client);
    }
  }

  lemma OthersOfNone(client: nat)
    ensures Others([], client) == []
  {
  }

  /** The listeners that are not this client, in order. */
  function Others(listeners: seq<Peer>, client: nat): (r: seq<Peer>)
  {
    if listeners == [] then []
    else (if listeners[0].clientId == client then [] else [listeners[0]]) + Others(listeners[1..], client)
  }

  lemma {:induction false} OthersAppend(a: seq<Peer>, b: seq<Peer>, client: nat)
    ensures Others(a + b, client) == Others(a, client) + Others(b, client)
  {
    if a == [] {
      assert a + b == b;
    } else {
      assert (a + b)[1..] == a[1..] + b;
      OthersAppend(a[1..], b, client);
    }
  }

  lemma OthersWithout(listeners: seq<Peer>, i: nat, client: nat)
    requires i < |listeners| && listeners[i].clientId == client
    ensures Others(listeners[..i] + listeners[i + 1..], client) == Others(listeners, client)
  {
    assert listeners == listeners[..i] + ([listeners[i]] + listeners[i + 1..]);
    OthersAppend(listeners[..i], [listeners[i]] + listeners[i + 1..], client);
    OthersAppend([listeners[i]], listeners[i + 1..], client);
    OthersAppend(listeners[..i], listeners[i + 1..], client);
    assert [listeners[i]][1..] == [];
    assert Others([listeners[i]], client) == [];
  }
}
