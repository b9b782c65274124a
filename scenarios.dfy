/** Short sessions with the engine, as a sketch or a test would drive it: each method
    builds a fresh engine, feeds it clock readings and packets, and reports what it saw. */
module LifxScenarios {
  import opened LifxProtocol
  import opened LifxDevice
  import opened Lifx

  const BulbMac: Mac := [0xD0, 0x73, 0xD5, 0x01, 0x02, 0x03]
  const BulbIp: uint32 := 0xC0A8_0117
  const OtherIp: uint32 := 0xC0A8_0142

  /** A reply from the bulb of the given type, with an otherwise empty body. */
  function Reply(messageType: uint16): (p: Packet)
    ensures p.header.messageType == messageType && p.header.target == BulbMac && p.from == BulbIp
  {
    var empty: Field32 := seq(32, _ => 0);
    Packet(InitialHeader.(tagged := false, target := BulbMac, messageType := messageType), HeaderSize + 32, BulbIp,
           Body(0, empty, 0, empty, empty, 0, 0, 0, 0, 0))
  }

  /** With no light answering, a round sends its three GET_SERVICE broadcasts 1000 ms
      apart and ends at the first step after 3000 ms, having sent nothing else. */
  method EmptyRegistryRound() returns (broadcasts: nat, underway: bool, ghost log: seq<Datagram>)
    ensures broadcasts == 3 && !underway
    ensures log == [ServiceBroadcast(), ServiceBroadcast(), ServiceBroadcast()]
  {
    var lifx := new Lifx(60000, 128);
    lifx.StartDiscovery(0);
    lifx.DoDiscovery(1001);
    lifx.DoDiscovery(2001);
    assert lifx.discoveryUnderway;
    lifx.DoDiscovery(3001);
    broadcasts, underway, log := lifx.discoveryBroadcastCount, lifx.discoveryUnderway, lifx.sent;
  }

  /** A second sighting of a known address, from another IP, returns the record made at
      the first sighting, with the first IP. */
  method SecondSightingKeepsIp() returns (same: bool, ip: uint32, count: uint16)
    ensures same && ip == BulbIp && count == 1
  {
    var lifx := new Lifx(60000, 128);
    var first := lifx.DeviceAddToArray(BulbMac, BulbIp);
    var second := lifx.DeviceAddToArray(BulbMac, OtherIp);
    same, ip, count := first == second, second.ipAddress, lifx.DeviceCount();
  }

  /** DeviceLightUpdateDone reads true while an update awaits its LIGHT_STATE reply and
      false once the reply has arrived. */
  method LightUpdateFlag() returns (whilePending: bool, afterReply: bool)
    ensures whilePending && !afterReply
  {
    var lifx := new Lifx(60000, 128);
    var bulb := lifx.DeviceAddToArray(BulbMac, BulbIp);
    lifx.StartDeviceLightUpdate(bulb);
    whilePending := lifx.DeviceLightUpdateDone();
    lifx.Loop(0, Some(Reply(LightState)));
    afterReply := lifx.DeviceLightUpdateDone();
  }

  /** A fresh engine, one round started at time 0, and a bulb whose one reply so far had
      type t: no datagram sent yet. */
  method BulbAnswered(t: uint16) returns (lifx: Lifx)
    requires t != DeviceGetService
    ensures fresh(lifx) && lifx.Valid() && lifx.Unique()
    ensures lifx.discoveryUnderway && lifx.discoveryTimer == 0 && lifx.discoveryNextMsec == 3000
    ensures lifx.discoveryBroadcastCount == 0 && lifx.discoveryDeviceIndex == 0 && lifx.sent == []
    ensures |lifx.devices| == 1 && lifx.devices[0].macAddress == BulbMac && lifx.devices[0].ipAddress == BulbIp
    ensures lifx.devices[0].LastMessageType == t
  {
    lifx := new Lifx(60000, 128);
    lifx.StartDiscovery(0);
    var _ := lifx.ReceivedMessage(Reply(t));
    assert lifx.devices[0].Record() == Snapshot(lifx.devices)[0];
  }

  /** A bulb that answered the service broadcast is asked for its label at the first step
      after 3000 ms, each step coming after that tick's broadcast; until it answers, the
      next step asks again. */
  method LabelQueryFirst() returns (next: nat, ghost log: seq<Datagram>)
    ensures next == 3500
    ensures log == [ServiceBroadcast(), Outgoing(DeviceGetLabel, Some(BulbMac), BulbIp, NoPayload),
                    ServiceBroadcast(), Outgoing(DeviceGetLabel, Some(BulbMac), BulbIp, NoPayload)]
  {
    var lifx := BulbAnswered(DeviceStateService);
    lifx.DoDiscovery(3001);
    assert lifx.sent == [ServiceBroadcast(), Outgoing(DeviceGetLabel, Some(BulbMac), BulbIp, NoPayload)];
    lifx.DoDiscovery(3251);
    next, log := lifx.discoveryNextMsec, lifx.sent;
  }

  /** Once the label has arrived, the next step asks for the version. */
  method VersionQueryAfterLabel() returns (next: nat, ghost log: seq<Datagram>)
    ensures next == 3250
    ensures log == [ServiceBroadcast(), Outgoing(DeviceGetVersion, Some(BulbMac), BulbIp, NoPayload)]
  {
    var lifx := BulbAnswered(DeviceStateLabel);
    lifx.DoDiscovery(3001);
    next, log := lifx.discoveryNextMsec, lifx.sent;
  }

  /** Once its light state has arrived the bulb is done: the step moves the cursor past it
      without sending, and the following step ends the round. */
  method RoundEndsAfterLightState() returns (cursor: nat, underway: bool, ghost log: seq<Datagram>)
    ensures cursor == 1 && !underway
    ensures log == [ServiceBroadcast(), ServiceBroadcast()]
  {
    var lifx := BulbAnswered(LightState);
    lifx.DoDiscovery(3001);
    assert lifx.discoveryDeviceIndex == 1 && lifx.discoveryUnderway;
    lifx.DoDiscovery(3251);
    cursor, underway, log := lifx.discoveryDeviceIndex, lifx.discoveryUnderway, lifx.sent;
  }
}
