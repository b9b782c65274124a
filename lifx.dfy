/** The LIFX LAN engine: the device registry, the timer-paced discovery sequencer, the
    inbound dispatcher and the outbound command layer.  The UDP socket is replaced by a
    ghost log of the datagrams sent and by the inbound packet handed to each tick; the
    millisecond clock is the `now` parameter of the methods that read it. */
module Lifx {
  import opened LifxProtocol
  import opened LifxDevice

  // ---------------------------------------------------------------------------------
  // The per-device query chain of discovery

  /** The query discovery sends to a device whose last reply had type `last`; LIGHT_STATE
      and every other type send nothing. */
  function NextQuery(last: uint16): (q: Option<uint16>)
    ensures q.Some? <==> last in {DeviceStateService, DeviceStateLabel, DeviceStateVersion, DeviceStateLocation, DeviceStateGroup}
    ensures q.Some? ==> q.value in {DeviceGetLabel, DeviceGetVersion, DeviceGetLocation, DeviceGetGroup, LightGet}
  {
    if last == DeviceStateService then Some(DeviceGetLabel)
    else if last == DeviceStateLabel then Some(DeviceGetVersion)
    else if last == DeviceStateVersion then Some(DeviceGetLocation)
    else if last == DeviceStateLocation then Some(DeviceGetGroup)
    else if last == DeviceStateGroup then Some(LightGet)
    else None
  }

  /** The reply type the LIFX LAN protocol defines for each query of the chain. */
  function ReplyTo(query: uint16): uint16 {
    if query == DeviceGetLabel then DeviceStateLabel
    else if query == DeviceGetVersion then DeviceStateVersion
    else if query == DeviceGetLocation then DeviceStateLocation
    else if query == DeviceGetGroup then DeviceStateGroup
    else if query == LightGet then LightState
    else query
  }

  /** How many queries of the chain remain for a device whose last reply had type t. */
  function Remaining(t: uint16): nat {
    if t == DeviceStateService then 5
    else if t == DeviceStateLabel then 4
    else if t == DeviceStateVersion then 3
    else if t == DeviceStateLocation then 2
    else if t == DeviceStateGroup then 1
    else 0
  }

  /** Every query of the chain is answered by a reply with one query fewer to go, so the
      chain cannot loop. */
  lemma QueryShortensChain(last: uint16)
    ensures NextQuery(last).Some? <==> Remaining(last) > 0
    ensures NextQuery(last).Some? ==> Remaining(ReplyTo(NextQuery(last).value)) == Remaining(last) - 1
  {
  }

  /** The queries discovery sends to one device when every query is answered before the
      next step, starting from the reply type `last`. */
  function Chain(last: uint16): (qs: seq<uint16>)
    ensures |qs| == Remaining(last)
    decreases Remaining(last)
  {
    match NextQuery(last)
    case None => []
    case Some(q) => [q] + Chain(ReplyTo(q))
  }

  /** A device first seen through its service reply is asked, in this order, for its
      label, version, location, group and light state, and is then done: the chain
      ends at LIGHT_STATE, which sends nothing and moves the cursor on. */
  lemma ChainFromService()
    ensures Chain(DeviceStateService) == [DeviceGetLabel, DeviceGetVersion, DeviceGetLocation, DeviceGetGroup, LightGet]
    ensures NextQuery(ReplyTo(LightGet)) == None && ReplyTo(LightGet) == LightState
  {
  }

  /** From any reply type the chain is a suffix of the full chain: no query is repeated
      and none is sent out of order. */
  lemma ChainIsSuffix(last: uint16)
    ensures Chain(last) == Chain(DeviceStateService)[5 - Remaining(last)..]
  {
    ChainFromService();
  }

  /** What one discovery step does at elapsed time `msecs`. */
  datatype Step =
    | NotDue            // elapsed time has not passed the next-step mark
    | Finish            // the cursor is past the last device: the round ends
    | Query(query: uint16) // the chain's next query goes to the cursor device
    | Advance           // the cursor device is done: move to the next device
    | Wait              // the cursor device's last reply is off the chain: do nothing

  /** The round ends only once the cursor is past the last device; the cursor moves on only
      from a device whose last reply is LIGHT_STATE; a query is sent only along the chain. */
  function StepFor(msecs: nat, nextMsec: nat, atEnd: bool, last: uint16): (s: Step)
    ensures s.NotDue? <==> msecs <= nextMsec
    ensures s.Finish? <==> msecs > nextMsec && atEnd
    ensures s.Advance? <==> msecs > nextMsec && !atEnd && last == LightState
    ensures s.Query? <==> msecs > nextMsec && !atEnd && NextQuery(last).Some?
    ensures s.Query? ==> s.query == NextQuery(last).value
  {
    if msecs <= nextMsec then NotDue
    else if atEnd then Finish
    else match NextQuery(last)
      case Some(q) => Query(q)
      case None => if last == LightState then Advance else Wait
  }

  /** A broadcast is due at elapsed time msecs while fewer than three have gone out and
      more than 1000 ms per broadcast already sent have elapsed. */
  predicate BroadcastDue(msecs: nat, count: nat): (due: bool)
    ensures due ==> count < 3
  {
    msecs > 1000 * count && count < 3
  }

  /** A due broadcast stays due as time passes until it is sent, and each broadcast of a
      round falls due one second after the one before it could. */
  lemma BroadcastStaysDue(msecs: nat, later: nat, count: nat)
    requires msecs <= later
    ensures BroadcastDue(msecs, count) ==> BroadcastDue(later, count)
    ensures count < 3 ==> (BroadcastDue(msecs, count) <==> msecs >= 1000 * count + 1)
  {
  }

  /** The GET_SERVICE broadcast. */
  function ServiceBroadcast(): (d: Datagram)
    ensures d.tagged && d.target == ZeroMac && d.ip == BroadcastIp && d.messageType == DeviceGetService
  {
    Outgoing(DeviceGetService, None, BroadcastIp, NoPayload)
  }

  /** The header fields a datagram was sent with. */
  predicate HeaderDescribes(h: Header, d: Datagram) {
    h.messageType == d.messageType && h.target == d.target && h.tagged == d.tagged && h.size == d.size
  }

  /** The engine. Fields follow the source; `sent`, `roundsStarted`, `roundsCompleted`,
      `callbacksFired`, `beforeRound` and `roundSent` are ghost bookkeeping of what the engine has done. */
  class Lifx {
    /** LIFX_REDISCOVERY_INTERVAL and LIFX_INCOMING_PACKET_BUFFER_LEN. */
    const rediscoveryInterval: nat
    const incomingBufferLen: nat

    var devices: seq<Device>
    var header: Header
    var discoveryTimer: nat
    var discoveryNextMsec: nat
    var discoveryBroadcastCount: nat
    var discoveryDeviceIndex: nat
    var discoveryUnderway: bool
    var lightUpdateUnderway: bool
    /** Whether a discovery-complete callback is registered. */
    var hasDiscoveryCallback: bool

    /** Every datagram sent, in order. */
    ghost var sent: seq<Datagram>
    ghost var roundsStarted: nat
    ghost var roundsCompleted: nat
    ghost var callbacksFired: nat
    /** The datagrams sent before, and since, the current round started. */
    ghost var beforeRound: seq<Datagram>
    ghost var roundSent: seq<Datagram>

    /** The shared header stays well formed and describes the last datagram sent. */
    ghost predicate HeaderValid()
      reads this`header, this`sent
    {
      && WellFormedHeader(header)
      && (sent == [] ==> header == InitialHeader)
      && (sent != [] ==> HeaderDescribes(header, sent[|sent| - 1]))
    }

    /** The discovery cursor is a position in the registry or just past its end. */
    ghost predicate CursorValid()
      reads this`devices, this`discoveryDeviceIndex
    {
      discoveryDeviceIndex <= |devices|
    }

    /** The registry holds each hardware address once. Kept apart from Valid() because
        it only matters to the operations that grow the registry or update its devices. */
    ghost predicate Unique()
      reads this`devices
    {
      Distinct(DeviceMacs(devices))
    }

    /** The broadcast count is the number of broadcasts sent since the round started. */
    ghost predicate RoundLogValid()
      reads this`sent, this`beforeRound, this`roundSent, this`discoveryBroadcastCount
    {
      && discoveryBroadcastCount <= 3
      && sent == beforeRound + roundSent
      && Broadcasts(roundSent) == discoveryBroadcastCount
    }

    /** A round completes at most once, and only after it started; the callback fires at
        most once per completed round. */
    ghost predicate RoundsValid()
      reads this`roundsStarted, this`roundsCompleted, this`discoveryUnderway, this`callbacksFired
    {
      && roundsCompleted <= roundsStarted
      && (discoveryUnderway ==> roundsCompleted < roundsStarted)
      && callbacksFired <= roundsCompleted
    }

    ghost predicate Valid()
      reads this`header, this`sent, this`devices, this`discoveryDeviceIndex, this`beforeRound, this`roundSent,
        this`discoveryBroadcastCount, this`roundsStarted, this`roundsCompleted, this`discoveryUnderway, this`callbacksFired
    {
      HeaderValid() && CursorValid() && RoundLogValid() && RoundsValid()
    }

    /** Lifx::Lifx: the header zeroed and its static bits set, the registry empty and no
        discovery round or light update underway. */
    constructor (rediscoveryInterval: nat, incomingBufferLen: nat)
      ensures Valid() && Unique()
      ensures this.rediscoveryInterval == rediscoveryInterval && this.incomingBufferLen == incomingBufferLen
      ensures devices == [] && header == InitialHeader && sent == []
      ensures discoveryTimer == 0 && discoveryNextMsec == 0 && discoveryBroadcastCount == 0
      ensures discoveryDeviceIndex == 0 && !discoveryUnderway && !lightUpdateUnderway && !hasDiscoveryCallback
      ensures roundsStarted == 0 && roundsCompleted == 0 && callbacksFired == 0
    {
      this.rediscoveryInterval := rediscoveryInterval;
      this.incomingBufferLen := incomingBufferLen;
      devices := [];
      header := InitialHeader;
      discoveryTimer := 0;
      discoveryNextMsec := 0;
      discoveryBroadcastCount := 0;
      discoveryDeviceIndex := 0;
      discoveryUnderway := false;
      lightUpdateUnderway := false;
      hasDiscoveryCallback := false;
      sent := [];
      roundsStarted := 0;
      roundsCompleted := 0;
      callbacksFired := 0;
      beforeRound := [];
      roundSent := [];
    }

    /** Fills the shared header for one datagram and sends it. The source identifier is
        drawn at random, so nothing is promised about it. */
    method SendMessage(messageType: uint16, mac: Option<Mac>, ip: uint32, payload: Payload)
      requires HeaderValid() && sent == beforeRound + roundSent
      modifies this`header, this`sent, this`roundSent
      ensures HeaderValid() && sent == beforeRound + roundSent
      ensures roundSent == old(roundSent) + [Outgoing(messageType, mac, ip, payload)]
      ensures header == PrepareHeader(old(header), messageType, mac, payload).(source := header.source)
      ensures sent == old(sent) + [Outgoing(messageType, mac, ip, payload)]
    {
      var source: uint32 := *;
      PrepareHeaderKeepsWellFormed(header, messageType, mac, payload, source);
      header := header.(size := HeaderSize + PayloadLen(payload));
      header := header.(source := source);
      header := header.(messageType := messageType);
      match mac {
        case None =>
          header := header.(target := ZeroMac, tagged := true);
        case Some(m) =>
          header := header.(target := m, tagged := false);
      }
      sent := sent + [Outgoing(messageType, mac, ip, payload)];
      roundSent := roundSent + [Outgoing(messageType, mac, ip, payload)];
    }

    /** Logging a unicast keeps the per-round broadcast count. */
    lemma UnicastKeepsCount(d: Datagram)
      requires !d.tagged
      ensures Broadcasts(roundSent + [d]) == Broadcasts(roundSent)
    {
      BroadcastsSnoc(roundSent, d);
    }

    /** A query without payload sent to one device; as a unicast it leaves the round's
        broadcast count alone. */
    method SendQuery(messageType: uint16, dev: Device)
      requires Valid()
      modifies this`header, this`sent, this`roundSent
      ensures Valid()
      ensures sent == old(sent) + [Outgoing(messageType, Some(dev.macAddress), dev.ipAddress, NoPayload)]
    {
      UnicastKeepsCount(Outgoing(messageType, Some(dev.macAddress), dev.ipAddress, NoPayload));
      SendMessage(messageType, Some(dev.macAddress), dev.ipAddress, NoPayload);
    }

    /** Lifx::StartDiscovery: a new round starts now, even if one is underway; devices
        already known stay in the registry. */
    method StartDiscovery(now: nat)
      requires Valid()
      modifies this`discoveryTimer, this`discoveryNextMsec, this`discoveryBroadcastCount,
        this`discoveryDeviceIndex, this`discoveryUnderway, this`roundsStarted, this`beforeRound, this`roundSent
      ensures Valid()
      ensures discoveryTimer == now && discoveryNextMsec == 3000 && discoveryBroadcastCount == 0
      ensures discoveryDeviceIndex == 0 && discoveryUnderway
      ensures roundsStarted == old(roundsStarted) + 1 && beforeRound == sent && roundSent == []
    {
      discoveryTimer := now;
      discoveryNextMsec := 3000;
      discoveryBroadcastCount := 0;
      discoveryDeviceIndex := 0;
      discoveryUnderway := true;
      roundsStarted := roundsStarted + 1;
      beforeRound := sent;
      roundSent := [];
    }

    /** The step discovery takes at elapsed time msecs, read off the cursor device. */
    ghost function CurrentStep(msecs: nat): Step
      reads this`devices, this`discoveryDeviceIndex, this`discoveryNextMsec, devices
      requires discoveryDeviceIndex <= |devices|
    {
      var atEnd := discoveryDeviceIndex >= |devices|;
      StepFor(msecs, discoveryNextMsec, atEnd, if atEnd then 0 else devices[discoveryDeviceIndex].LastMessageType)
    }

    /** The first half of Lifx::DoDiscovery: at most one GET_SERVICE broadcast. */
    method DiscoveryBroadcast(msecs: nat)
      requires Valid()
      modifies this`header, this`sent, this`roundSent, this`discoveryBroadcastCount
      ensures Valid()
      ensures var due := BroadcastDue(msecs, old(discoveryBroadcastCount));
        && discoveryBroadcastCount == old(discoveryBroadcastCount) + (if due then 1 else 0)
        && sent == old(sent) + (if due then [ServiceBroadcast()] else [])
    {
      if msecs > 1000 * discoveryBroadcastCount && discoveryBroadcastCount < 3 {
        discoveryBroadcastCount := discoveryBroadcastCount + 1;
        BroadcastsSnoc(roundSent, ServiceBroadcast());
        SendMessage(DeviceGetService, None, BroadcastIp, NoPayload);
      }
    }

    /** The second half of Lifx::DoDiscovery: at most one step of the walk over the
        registry, chosen by CurrentStep. */
    method DiscoveryStep(msecs: nat)
      requires Valid() && discoveryUnderway
      modifies this`header, this`sent, this`roundSent, this`discoveryNextMsec, this`discoveryDeviceIndex,
        this`discoveryUnderway, this`roundsCompleted, this`callbacksFired
      ensures Valid()
      ensures var step := old(CurrentStep(msecs));
        var k := old(discoveryDeviceIndex);
        && (step.Query? ==> k < |devices| && sent == old(sent) + [Outgoing(step.query, Some(devices[k].macAddress), devices[k].ipAddress, NoPayload)])
        && (!step.Query? ==> sent == old(sent))
        && discoveryNextMsec == old(discoveryNextMsec) + (if step.NotDue? || step.Finish? then 0 else 250)
        && discoveryDeviceIndex == k + (if step.Advance? then 1 else 0)
        && discoveryUnderway == !step.Finish?
        && roundsCompleted == old(roundsCompleted) + (if step.Finish? then 1 else 0)
        && callbacksFired == old(callbacksFired) + (if step.Finish? && hasDiscoveryCallback then 1 else 0)
    {
      if msecs > discoveryNextMsec {
        if discoveryDeviceIndex >= |devices| {
          FinishRound();
          return;
        }
        StepCursorDevice();
      }
    }

    /** The round ends: nothing is sent, and the callback fires if one is registered. */
    method FinishRound()
      requires Valid() && discoveryUnderway
      modifies this`discoveryUnderway, this`roundsCompleted, this`callbacksFired
      ensures Valid() && !discoveryUnderway
      ensures roundsCompleted == old(roundsCompleted) + 1
      ensures callbacksFired == old(callbacksFired) + (if hasDiscoveryCallback then 1 else 0)
    {
      discoveryUnderway := false;
      roundsCompleted := roundsCompleted + 1;
      if hasDiscoveryCallback {
        callbacksFired := callbacksFired + 1;
      }
    }

    /** One step on the cursor device: wait 250 ms more, then send the chain's next query
        to it, or move past it once its light state has arrived. */
    method StepCursorDevice()
      requires Valid() && discoveryDeviceIndex < |devices|
      modifies this`header, this`sent, this`roundSent, this`discoveryNextMsec, this`discoveryDeviceIndex
      ensures Valid()
      ensures discoveryNextMsec == old(discoveryNextMsec) + 250
      ensures var dev := old(devices[discoveryDeviceIndex]); var last := old(dev.LastMessageType);
        match NextQuery(last)
        case Some(q) => sent == old(sent) + [Outgoing(q, Some(dev.macAddress), dev.ipAddress, NoPayload)]
                        && discoveryDeviceIndex == old(discoveryDeviceIndex)
        case None => sent == old(sent)
                     && discoveryDeviceIndex == old(discoveryDeviceIndex) + (if last == LightState then 1 else 0)
    {
      discoveryNextMsec := discoveryNextMsec + 250;
      var dev := devices[discoveryDeviceIndex];
      var last := dev.LastMessageType;
      match NextQuery(last) {
        case Some(q) =>
          SendQuery(q, dev);
        case None =>
          if last == LightState {
            discoveryDeviceIndex := discoveryDeviceIndex + 1;
          }
      }
    }

    /** Lifx::DoDiscovery: at most one broadcast, then at most one step of the walk over
        the registry. */
    method DoDiscovery(now: nat)
      requires Valid() && discoveryUnderway && discoveryTimer <= now
      modifies this`header, this`sent, this`roundSent, this`discoveryBroadcastCount, this`discoveryNextMsec,
        this`discoveryDeviceIndex, this`discoveryUnderway, this`roundsCompleted, this`callbacksFired
      ensures Valid()
      ensures var msecs := now - discoveryTimer;
        var due := BroadcastDue(msecs, old(discoveryBroadcastCount));
        var step := old(CurrentStep(msecs));
        var k := old(discoveryDeviceIndex);
        && discoveryBroadcastCount == old(discoveryBroadcastCount) + (if due then 1 else 0)
        && sent == old(sent) + (if due then [ServiceBroadcast()] else [])
             + (if step.Query? then [Outgoing(step.query, Some(devices[k].macAddress), devices[k].ipAddress, NoPayload)] else [])
        && discoveryNextMsec == old(discoveryNextMsec) + (if step.NotDue? || step.Finish? then 0 else 250)
        && discoveryDeviceIndex == k + (if step.Advance? then 1 else 0)
        && discoveryUnderway == !step.Finish?
        && roundsCompleted == old(roundsCompleted) + (if step.Finish? then 1 else 0)
        && callbacksFired == old(callbacksFired) + (if step.Finish? && hasDiscoveryCallback then 1 else 0)
    {
      var msecs := now - discoveryTimer;
      DiscoveryBroadcast(msecs);
      DiscoveryStep(msecs);
    }

    /** The discovery half of Lifx::loop: advance a round that is underway, then start a
        new round once the rediscovery interval has passed since the last start, even if
        the current round has not finished. */
    method DiscoveryTick(now: nat)
      requires Valid() && discoveryTimer <= now
      modifies this`header, this`sent, this`roundSent, this`beforeRound, this`discoveryTimer,
        this`discoveryNextMsec, this`discoveryBroadcastCount, this`discoveryDeviceIndex, this`discoveryUnderway,
        this`roundsStarted, this`roundsCompleted, this`callbacksFired
      ensures Valid() && unchanged(devices)
      ensures old(sent) <= sent && |sent| <= |old(sent)| + 2
      ensures now - old(discoveryTimer) > rediscoveryInterval ==>
        && discoveryTimer == now && discoveryNextMsec == 3000 && discoveryBroadcastCount == 0
        && discoveryDeviceIndex == 0 && discoveryUnderway && roundsStarted == old(roundsStarted) + 1
      ensures now - old(discoveryTimer) <= rediscoveryInterval ==>
        && discoveryTimer == old(discoveryTimer) && roundsStarted == old(roundsStarted)
        && discoveryBroadcastCount >= old(discoveryBroadcastCount)
        && discoveryDeviceIndex >= old(discoveryDeviceIndex)
        && discoveryNextMsec >= old(discoveryNextMsec)
        && (discoveryUnderway ==> old(discoveryUnderway))
      ensures !old(discoveryUnderway) && now - old(discoveryTimer) <= rediscoveryInterval ==>
        && discoveryBroadcastCount == old(discoveryBroadcastCount)
        && discoveryDeviceIndex == old(discoveryDeviceIndex)
        && discoveryNextMsec == old(discoveryNextMsec)
        && !discoveryUnderway && sent == old(sent) && roundsCompleted == old(roundsCompleted)
      ensures roundsCompleted <= old(roundsCompleted) + 1 && callbacksFired <= old(callbacksFired) + 1
    {
      if discoveryUnderway {
        DoDiscovery(now);
      }
      if now - discoveryTimer > rediscoveryInterval {
        StartDiscovery(now);
      }
    }

    /** Lifx::loop: accept at most one inbound packet, then run discovery. `inbound` is
        what the socket reports for this tick; a packet is accepted when its length is
        nonzero and below the receive buffer's size. */
    method Loop(now: nat, inbound: Option<Packet>)
      requires Valid() && Unique() && discoveryTimer <= now
      modifies this`devices, this`lightUpdateUnderway, devices,
        this`header, this`sent, this`roundSent, this`beforeRound, this`discoveryTimer,
        this`discoveryNextMsec, this`discoveryBroadcastCount, this`discoveryDeviceIndex, this`discoveryUnderway,
        this`roundsStarted, this`roundsCompleted, this`callbacksFired
      ensures Valid() && Unique()
      ensures var accepted := inbound.Some? && 0 < inbound.value.len < incomingBufferLen;
        && (exists blank | Blank(blank) ::
              Snapshot(devices) == if accepted then Receive(old(Snapshot(devices)), inbound.value, blank) else old(Snapshot(devices)))
        && lightUpdateUnderway == (old(lightUpdateUnderway) && !(accepted && inbound.value.header.messageType == LightState))
      ensures old(devices) <= devices && |devices| <= |old(devices)| + 1
      ensures old(sent) <= sent && |sent| <= |old(sent)| + 2
      ensures now - old(discoveryTimer) > rediscoveryInterval ==>
        && discoveryTimer == now && discoveryNextMsec == 3000 && discoveryBroadcastCount == 0
        && discoveryDeviceIndex == 0 && discoveryUnderway && roundsStarted == old(roundsStarted) + 1
      ensures now - old(discoveryTimer) <= rediscoveryInterval ==>
        && discoveryTimer == old(discoveryTimer) && roundsStarted == old(roundsStarted)
        && discoveryBroadcastCount >= old(discoveryBroadcastCount)
        && discoveryDeviceIndex >= old(discoveryDeviceIndex)
        && discoveryNextMsec >= old(discoveryNextMsec)
        && (discoveryUnderway ==> old(discoveryUnderway))
      ensures !old(discoveryUnderway) && now - old(discoveryTimer) <= rediscoveryInterval ==>
        && discoveryBroadcastCount == old(discoveryBroadcastCount)
        && discoveryDeviceIndex == old(discoveryDeviceIndex)
        && discoveryNextMsec == old(discoveryNextMsec)
        && !discoveryUnderway && sent == old(sent) && roundsCompleted == old(roundsCompleted)
      ensures roundsCompleted <= old(roundsCompleted) + 1 && callbacksFired <= old(callbacksFired) + 1
    {
      ghost var rs0 := Snapshot(devices);
      ghost var accepted := inbound.Some? && 0 < inbound.value.len < incomingBufferLen;
      ghost var blank := ReceivePhase(inbound);
      ghost var rs1 := Snapshot(devices);
      assert rs1 == if accepted then Receive(rs0, inbound.value, blank) else rs0;
      DiscoveryTick(now);
      assert Snapshot(devices) == rs1;
      assert Blank(blank);
    }

    /** The receive half of Lifx::loop. */
    method ReceivePhase(inbound: Option<Packet>) returns (ghost blank: DeviceCache)
      requires Valid() && Unique()
      modifies this`devices, this`lightUpdateUnderway, devices
      ensures Valid() && Unique() && Blank(blank)
      ensures var accepted := inbound.Some? && 0 < inbound.value.len < incomingBufferLen;
        && Snapshot(devices) == (if accepted then Receive(old(Snapshot(devices)), inbound.value, blank) else old(Snapshot(devices)))
        && lightUpdateUnderway == (old(lightUpdateUnderway) && !(accepted && inbound.value.header.messageType == LightState))
      ensures old(devices) <= devices && |devices| <= |old(devices)| + 1
    {
      blank := EmptyCache;
      var accepted := inbound.Some? && 0 < inbound.value.len && inbound.value.len < incomingBufferLen;
      if accepted {
        blank := ReceivedMessage(inbound.value);
      }
    }

    /** Lifx::ReceivedMessage: a GET_SERVICE query from another controller is ignored; any
        other packet goes to the device named by the header's target, which is created
        if it is new. The ghost result is the cache a new device started from. */
    method ReceivedMessage(p: Packet) returns (ghost blank: DeviceCache)
      requires Valid() && Unique()
      modifies this`devices, this`lightUpdateUnderway, devices
      ensures Valid() && Unique()
      ensures Blank(blank) && Snapshot(devices) == Receive(old(Snapshot(devices)), p, blank)
      ensures old(devices) <= devices && |devices| <= |old(devices)| + 1
      ensures lightUpdateUnderway == (old(lightUpdateUnderway) && p.header.messageType != LightState)
    {
      blank := EmptyCache;
      if p.header.messageType == DeviceGetService {
        assert p.header.messageType != LightState;
        return;
      }
      var dev;
      ghost var k;
      ghost var pending := lightUpdateUnderway;
      dev, k, blank := LocateSender(p.header.target, p.from);
      assert lightUpdateUnderway == pending;
      ghost var rs1 := Snapshot(devices);
      ReceiveUpdatesFound(old(Snapshot(devices)), p, blank, rs1, k);
      DealWithRegistered(p, dev, k);
    }

    /** DeviceAddToArray as ReceivedMessage uses it, described over values: the registry
        afterwards and the sender's position are those of FindOrCreate, a new device
        starting from the cache `blank`. */
    method LocateSender(mac: Mac, ip: uint32) returns (dev: Device, ghost k: nat, ghost blank: DeviceCache)
      requires Valid() && Unique()
      modifies this`devices
      ensures Valid() && Unique() && Blank(blank) && k < |devices| && devices[k] == dev
      ensures dev in old(devices) || fresh(dev)
      ensures (Snapshot(devices), k) == FindOrCreate(old(Snapshot(devices)), mac, ip, blank)
      ensures old(devices) <= devices && |devices| <= |old(devices)| + 1
    {
      ghost var ds0 := devices;
      ghost var rs0 := Snapshot(devices);
      SnapshotMacs(devices);
      dev := DeviceAddToArray(mac, ip);
      assert Snapshot(ds0) == rs0;
      ghost var found := IndexOfMac(DeviceMacs(ds0), mac);
      if found.Some? {
        k, blank := found.value, EmptyCache;
      } else {
        k, blank := |ds0|, dev.Cache();
        SnapshotSnoc(ds0, dev);
      }
      FindOrCreateOutcome(rs0, DeviceMacs(ds0), mac, ip, blank, Snapshot(devices), k);
    }

    /** Lifx::DealWithReceivedMessage: records the reply's type and copies the fields it
        carries into the device's cache; a LIGHT_STATE reply also ends a pending light
        update. No other device and no other engine field changes. */
    method DealWithReceivedMessage(p: Packet, dev: Device)
      requires Valid()
      modifies dev, this`lightUpdateUnderway
      ensures Valid()
      ensures dev.Cache() == ApplyReply(old(dev.Cache()), p)
      ensures lightUpdateUnderway == (old(lightUpdateUnderway) && p.header.messageType != LightState)
    {

      var t := p.header.messageType;
      dev.LastMessageType := t;
      if t == DeviceStateService {
      } else if t == DeviceStatePower {
        dev.Power := p.body.level;
      } else if t == DeviceStateLabel {
        dev.Label := CString(p.body.labelText);
      } else if t == DeviceStateVersion {
        dev.Product := p.body.product;
      } else if t == DeviceStateLocation {
        dev.Location := CString(p.body.locationLabel);
      } else if t == DeviceStateGroup {
        dev.Group := CString(p.body.groupLabel);
      } else if t == LightState {
        dev.Hue := p.body.hue;
        dev.Saturation := p.body.saturation;
        dev.Brightness := p.body.brightness;
        dev.Kelvin := p.body.kelvin;
        dev.Power := p.body.power;
        lightUpdateUnderway := false;
      }
    }

    /** DealWithReceivedMessage on the device at position k of the registry: over values,
        only that record changes. */
    method DealWithRegistered(p: Packet, dev: Device, ghost k: nat)
      requires Valid() && Unique() && k < |devices| && devices[k] == dev
      modifies dev, this`lightUpdateUnderway
      ensures Valid()
      ensures Snapshot(devices) == old(Snapshot(devices))[k := Replied(old(Snapshot(devices))[k], p)]
      ensures lightUpdateUnderway == (old(lightUpdateUnderway) && p.header.messageType != LightState)
    {
      ghost var rs0 := Snapshot(devices);
      assert forall j | 0 <= j < |devices| && j != k :: devices[j] != dev by {
        forall j | 0 <= j < |devices| && j != k
          ensures devices[j] != dev
        {
          assert DeviceMacs(devices)[j] != DeviceMacs(devices)[k];
        }
      }
      DealWithReceivedMessage(p, dev);
      ghost var rs1 := rs0[k := Replied(rs0[k], p)];
      assert Snapshot(devices) == rs1 by {
        forall j | 0 <= j < |devices|
          ensures devices[j].Record() == rs1[j]
        {
        }
      }
    }

    /** Lifx::DeviceAddToArray: the device with this hardware address, appended with the
        given IP and empty texts if the registry does not know it yet. A known device is
        returned as it is: its IP is not refreshed. */
    method DeviceAddToArray(mac: Mac, ip: uint32) returns (dev: Device)
      requires Valid() && Unique()
      modifies this`devices
      ensures Valid() && Unique()
      ensures dev in devices && dev.macAddress == mac
      ensures match IndexOfMac(DeviceMacs(old(devices)), mac)
        case Some(k) => devices == old(devices) && dev == devices[k]
        case None =>
          && devices == old(devices) + [dev] && fresh(dev)
          && dev.ipAddress == ip && Blank(dev.Cache())
    {
      var i := 0;
      while i < |devices|
        invariant 0 <= i <= |devices|
        invariant forall j | 0 <= j < i :: devices[j].macAddress != mac
      {
        if devices[i].macAddress == mac {
          IndexOfMacFirst(DeviceMacs(devices), mac, i);
          return devices[i];
        }
        i := i + 1;
      }
      dev := new Device(mac, ip);
      devices := devices + [dev];
      forall a, b | 0 <= a < b < |devices|
        ensures DeviceMacs(devices)[a] != DeviceMacs(devices)[b]
      {
        if b < |devices| - 1 {
          assert DeviceMacs(old(devices))[a] != DeviceMacs(old(devices))[b];
        }
      }
    }

    /** Lifx::DeviceCount: the registry size, truncated to 16 bits. */
    function DeviceCount(): (n: uint16)
      reads this`devices
      ensures |devices| < 0x1_0000 ==> n == |devices|
      ensures (|devices| - n) % 0x1_0000 == 0
    {
      |devices| % 0x1_0000
    }

    /** Lifx::GetIndexedDevice: the caller must pass a valid position. */
    function GetIndexedDevice(n: int): (d: Device)
      reads this`devices
      requires 0 <= n < |devices|
      ensures d in devices && d.macAddress == DeviceMacs(devices)[n]
    {
      devices[n]
    }

    /** Different positions hold different devices, with different addresses. */
    lemma IndexedDevicesDistinct(i: int, j: int)
      requires Valid() && Unique() && 0 <= i < |devices| && 0 <= j < |devices| && i != j
      ensures GetIndexedDevice(i) != GetIndexedDevice(j)
      ensures GetIndexedDevice(i).macAddress != GetIndexedDevice(j).macAddress
    {
      if i < j {
        assert DeviceMacs(devices)[i] != DeviceMacs(devices)[j];
      } else {
        assert DeviceMacs(devices)[j] != DeviceMacs(devices)[i];
      }
    }

    /** Lifx::SetDevicePower. */
    method SetDevicePower(dev: Device, power: uint16)
      requires Valid()
      modifies dev, this`header, this`sent, this`roundSent
      ensures Valid()
      ensures dev.Cache() == Optimistic(old(dev.Cache()), PowerCmd(power))
      ensures sent == old(sent) + [Issue(old(dev.Record()), PowerCmd(power))]
    {
      UnicastKeepsCount(Issue(dev.Record(), PowerCmd(power)));
      dev.Power := power;
      SendMessage(DeviceSetPower, Some(dev.macAddress), dev.ipAddress, PowerLevel(power));
    }

    /** Lifx::SetDeviceBrightness: the payload resends the cached hue, saturation and
        kelvin with the new brightness. */
    method SetDeviceBrightness(dev: Device, brightness: uint16, duration: uint32)
      requires Valid()
      modifies dev, this`header, this`sent, this`roundSent
      ensures Valid()
      ensures dev.Cache() == Optimistic(old(dev.Cache()), BrightnessCmd(brightness, duration))
      ensures sent == old(sent) + [Issue(old(dev.Record()), BrightnessCmd(brightness, duration))]
    {
      UnicastKeepsCount(Issue(dev.Record(), BrightnessCmd(brightness, duration)));
      var payload := SetColor(dev.Hue, dev.Saturation, brightness, dev.Kelvin, duration);
      dev.Brightness := brightness;
      SendMessage(LightSetColor, Some(dev.macAddress), dev.ipAddress, payload);
    }

    /** Lifx::SetDeviceColor. */
    method SetDeviceColor(dev: Device, hue: uint16, saturation: uint16, brightness: uint16, kelvin: uint16, duration: uint32)
      requires Valid()
      modifies dev, this`header, this`sent, this`roundSent
      ensures Valid()
      ensures dev.Cache() == Optimistic(old(dev.Cache()), ColorCmd(hue, saturation, brightness, kelvin, duration))
      ensures sent == old(sent) + [Issue(old(dev.Record()), ColorCmd(hue, saturation, brightness, kelvin, duration))]
    {
      ghost var cmd := ColorCmd(hue, saturation, brightness, kelvin, duration);
      ghost var c0 := dev.Cache();
      UnicastKeepsCount(Issue(dev.Record(), cmd));
      dev.Hue := hue;
      dev.Saturation := saturation;
      dev.Brightness := brightness;
      dev.Kelvin := kelvin;
      assert dev.Cache() == Optimistic(c0, cmd);
      SendMessage(LightSetColor, Some(dev.macAddress), dev.ipAddress, SetColor(hue, saturation, brightness, kelvin, duration));
    }

    /** One single-device command. */
    method Apply(dev: Device, cmd: Command)
      requires Valid()
      modifies dev, this`header, this`sent, this`roundSent
      ensures Valid()
      ensures dev.Cache() == Optimistic(old(dev.Cache()), cmd)
      ensures sent == old(sent) + [Issue(old(dev.Record()), cmd)]
    {
      match cmd {
        case PowerCmd(power) => SetDevicePower(dev, power);
        case BrightnessCmd(brightness, duration) => SetDeviceBrightness(dev, brightness, duration);
        case ColorCmd(h, s, b, k, d) => SetDeviceColor(dev, h, s, b, k, d);
      }
    }

    /** One command to the device at position i; over values, only record i changes. */
    method ApplyAt(i: nat, cmd: Command)
      requires Valid() && Unique() && i < |devices|
      modifies devices[i], this`header, this`sent, this`roundSent
      ensures Valid()
      ensures Snapshot(devices) == old(Snapshot(devices))[i := old(devices[i].Record()).(cache := Optimistic(old(devices[i].Cache()), cmd))]
      ensures sent == old(sent) + [Issue(old(devices[i].Record()), cmd)]
    {
      var dev := devices[i];
      ghost var rs0 := Snapshot(devices);
      assert forall j | 0 <= j < |devices| && j != i :: devices[j] != dev by {
        forall j | 0 <= j < |devices| && j != i
          ensures devices[j] != dev
        {
          assert DeviceMacs(devices)[j] != DeviceMacs(devices)[i];
        }
      }
      Apply(dev, cmd);
      ghost var rs1 := rs0[i := rs0[i].(cache := Optimistic(rs0[i].cache, cmd))];
      assert Snapshot(devices) == rs1 by {
        forall j | 0 <= j < |devices|
          ensures devices[j].Record() == rs1[j]
        {
        }
      }
    }

    /** The body of the by-name loops for the device at position i: the command goes to
        it when its label (or group) equals text; over values, only record i changes. */
    method CommandAt(i: nat, key: TextKey, text: CText, cmd: Command)
      requires Valid() && Unique() && i < |devices|
      modifies devices[i], this`header, this`sent, this`roundSent
      ensures Valid()
      ensures Snapshot(devices) == old(Snapshot(devices))[i := Commanded(old(devices[i].Record()), key, text, cmd)]
      ensures sent == old(sent) + SendTo(old(devices[i].Record()), key, text, cmd)
    {
      ghost var rs0 := Snapshot(devices);
      if TextOf(devices[i].Cache(), key) == text {
        ApplyAt(i, cmd);
      } else {
        assert rs0[i := rs0[i]] == rs0;
      }
    }

    /** The by-name loop's invariant: of the registry rs0 and log sent0 it started from,
        the first i devices have been handled, the rest are untouched. */
    ghost predicate CommandedUpTo(i: nat, key: TextKey, text: CText, cmd: Command,
                                  ds0: seq<Device>, rs0: seq<DeviceRecord>, sent0: seq<Datagram>)
      reads this, devices
    {
      && Valid() && Unique() && devices == ds0 && i <= |devices| == |rs0|
      && Snapshot(devices) == ApplyByText(rs0[..i], key, text, cmd) + rs0[i..]
      && sent == sent0 + SendsByText(rs0[..i], key, text, cmd)
    }

    /** One iteration of the by-name loop: handling device i extends the registry and the
        send log by one step of ApplyByText and SendsByText. */
    method CommandStep(i: nat, key: TextKey, text: CText, cmd: Command,
                       ghost ds0: seq<Device>, ghost rs0: seq<DeviceRecord>, ghost sent0: seq<Datagram>)
      requires CommandedUpTo(i, key, text, cmd, ds0, rs0, sent0) && i < |devices|
      modifies devices[i], this`header, this`sent, this`roundSent
      ensures CommandedUpTo(i + 1, key, text, cmd, ds0, rs0, sent0)
    {
      ByTextStep(rs0, key, text, cmd, i, Snapshot(devices), sent0, sent);
      assert devices[i].Record() == rs0[i];
      CommandAt(i, key, text, cmd);
    }

    /** The loop shared by the Set*ByLabel and Set*ByGroup variants: the command goes to
        every device whose label (or group) equals text, in registry order. */
    method CommandByText(key: TextKey, text: CText, cmd: Command)
      requires Valid() && Unique()
      modifies devices, this`header, this`sent, this`roundSent
      ensures Valid()
      ensures Snapshot(devices) == ApplyByText(old(Snapshot(devices)), key, text, cmd)
      ensures sent == old(sent) + SendsByText(old(Snapshot(devices)), key, text, cmd)
    {
      ghost var ds0, rs0, sent0 := devices, Snapshot(devices), sent;
      assert rs0[..0] == [] && rs0[0..] == rs0;
      var i := 0;
      while i < |devices|
        invariant CommandedUpTo(i, key, text, cmd, ds0, rs0, sent0)
      {
        CommandStep(i, key, text, cmd, ds0, rs0, sent0);
        i := i + 1;
      }
      assert rs0[..|devices|] == rs0;
      assert rs0[|devices|..] == [];
    }

    /** In a registry that keeps its addresses distinct, the datagrams a by-name command
        adds to the log reach each device exactly once if its text matches, else never. */
    lemma CommandByTextOncePerDevice(key: TextKey, text: CText, cmd: Command, i: nat)
      requires Unique() && i < |devices|
      ensures CountTo(SendsByText(Snapshot(devices), key, text, cmd), devices[i].macAddress)
              == if Matches(devices[i].Record(), key, text) then 1 else 0
    {
      SnapshotMacs(devices);
      SendsByTextOncePerMatch(Snapshot(devices), key, text, cmd, i);
    }

    /** Lifx::SetBrightnessByLabel. */
    method SetBrightnessByLabel(name: CText, brightness: uint16, duration: uint32)
      requires Valid() && Unique()
      modifies devices, this`header, this`sent, this`roundSent
      ensures Valid()
      ensures Snapshot(devices) == ApplyByText(old(Snapshot(devices)), ByLabel, name, BrightnessCmd(brightness, duration))
      ensures sent == old(sent) + SendsByText(old(Snapshot(devices)), ByLabel, name, BrightnessCmd(brightness, duration))
    {
      CommandByText(ByLabel, name, BrightnessCmd(brightness, duration));
    }

    /** Lifx::SetBrightnessByGroup. */
    method SetBrightnessByGroup(group: CText, brightness: uint16, duration: uint32)
      requires Valid() && Unique()
      modifies devices, this`header, this`sent, this`roundSent
      ensures Valid()
      ensures Snapshot(devices) == ApplyByText(old(Snapshot(devices)), ByGroup, group, BrightnessCmd(brightness, duration))
      ensures sent == old(sent) + SendsByText(old(Snapshot(devices)), ByGroup, group, BrightnessCmd(brightness, duration))
    {
      CommandByText(ByGroup, group, BrightnessCmd(brightness, duration));
    }

    /** Lifx::SetColorByGroup. */
    method SetColorByGroup(group: CText, hue: uint16, saturation: uint16, brightness: uint16, kelvin: uint16, duration: uint32)
      requires Valid() && Unique()
      modifies devices, this`header, this`sent, this`roundSent
      ensures Valid()
      ensures Snapshot(devices) == ApplyByText(old(Snapshot(devices)), ByGroup, group, ColorCmd(hue, saturation, brightness, kelvin, duration))
      ensures sent == old(sent) + SendsByText(old(Snapshot(devices)), ByGroup, group, ColorCmd(hue, saturation, brightness, kelvin, duration))
    {
      CommandByText(ByGroup, group, ColorCmd(hue, saturation, brightness, kelvin, duration));
    }

    /** Lifx::SetColorByLabel. */
    method SetColorByLabel(name: CText, hue: uint16, saturation: uint16, brightness: uint16, kelvin: uint16, duration: uint32)
      requires Valid() && Unique()
      modifies devices, this`header, this`sent, this`roundSent
      ensures Valid()
      ensures Snapshot(devices) == ApplyByText(old(Snapshot(devices)), ByLabel, name, ColorCmd(hue, saturation, brightness, kelvin, duration))
      ensures sent == old(sent) + SendsByText(old(Snapshot(devices)), ByLabel, name, ColorCmd(hue, saturation, brightness, kelvin, duration))
    {
      CommandByText(ByLabel, name, ColorCmd(hue, saturation, brightness, kelvin, duration));
    }

    /** Lifx::SetPowerByGroup. */
    method SetPowerByGroup(group: CText, power: uint16)
      requires Valid() && Unique()
      modifies devices, this`header, this`sent, this`roundSent
      ensures Valid()
      ensures Snapshot(devices) == ApplyByText(old(Snapshot(devices)), ByGroup, group, PowerCmd(power))
      ensures sent == old(sent) + SendsByText(old(Snapshot(devices)), ByGroup, group, PowerCmd(power))
    {
      CommandByText(ByGroup, group, PowerCmd(power));
    }

    /** Lifx::SetPowerByLabel. */
    method SetPowerByLabel(name: CText, power: uint16)
      requires Valid() && Unique()
      modifies devices, this`header, this`sent, this`roundSent
      ensures Valid()
      ensures Snapshot(devices) == ApplyByText(old(Snapshot(devices)), ByLabel, name, PowerCmd(power))
      ensures sent == old(sent) + SendsByText(old(Snapshot(devices)), ByLabel, name, PowerCmd(power))
    {
      CommandByText(ByLabel, name, PowerCmd(power));
    }

    /** Lifx::StartDeviceLightUpdate: asks the device for its light state and marks an
        update as pending. */
    method StartDeviceLightUpdate(dev: Device)
      requires Valid()
      modifies this`header, this`sent, this`roundSent, this`lightUpdateUnderway
      ensures Valid() && lightUpdateUnderway
      ensures sent == old(sent) + [Outgoing(LightGet, Some(dev.macAddress), dev.ipAddress, NoPayload)]
    {
      SendQuery(LightGet, dev);
      lightUpdateUnderway := true;
    }

    /** Lifx::DeviceLightUpdateDone: despite its name, the raw pending flag, so it is true
        while an update is still awaiting its LIGHT_STATE reply. */
    function DeviceLightUpdateDone(): (pending: bool)
      reads this`lightUpdateUnderway
      ensures pending <==> lightUpdateUnderway
    {
      lightUpdateUnderway
    }

    /** Lifx::DiscoveryCompleteCallback: registers (or, with false, clears) the callback. */
    method DiscoveryCompleteCallback(registered: bool)
      modifies this`hasDiscoveryCallback
      ensures hasDiscoveryCallback == registered
    {
      hasDiscoveryCallback := registered;
    }

    /** The first-match scan shared by the State*By* queries. */
    method FindFirst(key: TextKey, text: CText) returns (r: Option<nat>)
      ensures r == FirstMatch(Snapshot(devices), key, text)
    {
      ghost var rs := Snapshot(devices);
      var i := 0;
      while i < |devices|
        invariant 0 <= i <= |devices|
        invariant forall j | 0 <= j < i :: !Matches(rs[j], key, text)
      {
        assert rs[i].cache == devices[i].Cache();
        if TextOf(devices[i].Cache(), key) == text {
          FirstMatchAt(rs, key, text, i);
          return Some(i);
        }
        i := i + 1;
      }
      return None;
    }

    /** Lifx::StatePowerByGroup: the power of the first device in the group, or 0. */
    method StatePowerByGroup(group: CText) returns (power: uint16)
      ensures power == match FirstMatch(Snapshot(devices), ByGroup, group)
        case None => 0
        case Some(i) => Snapshot(devices)[i].cache.power
    {
      var r := FindFirst(ByGroup, group);
      power := if r.Some? then devices[r.value].Power else 0;
    }

    /** Lifx::StatePowerByLabel: the power of the first device with the label, or 0. */
    method StatePowerByLabel(name: CText) returns (power: uint16)
      ensures power == match FirstMatch(Snapshot(devices), ByLabel, name)
        case None => 0
        case Some(i) => Snapshot(devices)[i].cache.power
    {
      var r := FindFirst(ByLabel, name);
      power := if r.Some? then devices[r.value].Power else 0;
    }

    /** Lifx::StateBrightnessByGroup: the brightness of the first device in the group, or 0. */
    method StateBrightnessByGroup(group: CText) returns (brightness: uint16)
      ensures brightness == match FirstMatch(Snapshot(devices), ByGroup, group)
        case None => 0
        case Some(i) => Snapshot(devices)[i].cache.brightness
    {
      var r := FindFirst(ByGroup, group);
      brightness := if r.Some? then devices[r.value].Brightness else 0;
    }

    /** Lifx::StateBrightnessByLabel: the brightness of the first device with the label, or 0. */
    method StateBrightnessByLabel(name: CText) returns (brightness: uint16)
      ensures brightness == match FirstMatch(Snapshot(devices), ByLabel, name)
        case None => 0
        case Some(i) => Snapshot(devices)[i].cache.brightness
    {
      var r := FindFirst(ByLabel, name);
      brightness := if r.Some? then devices[r.value].Brightness else 0;
    }
  }
}
