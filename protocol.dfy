/** Wire-level vocabulary of the LIFX LAN protocol as the engine uses it: integer widths,
    hardware addresses, message-type codes, the frame header, outbound payloads, inbound
    packets, and the NUL-terminated text fields.  The byte layout itself is not modelled:
    headers and payloads are records. */
module LifxProtocol {

  type byte = x: int | 0 <= x < 0x100
  type uint16 = x: int | 0 <= x < 0x1_0000
  type uint32 = x: int | 0 <= x < 0x1_0000_0000

  datatype Option<T> = None | Some(value: T)

  /** LIFX_MAC_LEN: a hardware address is six bytes. */
  const MacLen: nat := 6
  type Mac = s: seq<byte> | |s| == MacLen witness [0, 0, 0, 0, 0, 0]
  const ZeroMac: Mac := [0, 0, 0, 0, 0, 0]

  /** IPAddress(255,255,255,255) as the 32-bit value the engine stores. */
  const BroadcastIp: uint32 := 0xFFFF_FFFF

  // Message-type codes of the published LIFX LAN catalogue. Nothing below depends on
  // the numbers themselves, only on their being pairwise distinct.
  const DeviceGetService: uint16 := 2
  const DeviceStateService: uint16 := 3
  const DeviceSetPower: uint16 := 21
  const DeviceStatePower: uint16 := 22
  const DeviceGetLabel: uint16 := 23
  const DeviceStateLabel: uint16 := 25
  const DeviceGetVersion: uint16 := 32
  const DeviceStateVersion: uint16 := 33
  const DeviceGetLocation: uint16 := 48
  const DeviceStateLocation: uint16 := 50
  const DeviceGetGroup: uint16 := 51
  const DeviceStateGroup: uint16 := 53
  const LightGet: uint16 := 101
  const LightSetColor: uint16 := 102
  const LightState: uint16 := 107

  /** sizeof(lifx_header). */
  const HeaderSize: nat := 36

  /** The header fields the engine reads or writes. */
  datatype Header = Header(
    size: uint16,
    protocol: uint16,
    addressable: bool,
    tagged: bool,
    source: uint32,
    target: Mac,
    resRequired: bool,
    ackRequired: bool,
    sequence: byte,
    messageType: uint16)

  /** The header as the engine's constructor leaves it: zeroed, then the static bits set. */
  const InitialHeader: Header :=
    Header(0, 1024, true, true, 0, ZeroMac, true, false, 100, 0)

  /** The static bits never change, and a tagged header always carries the zero target. */
  ghost predicate WellFormedHeader(h: Header) {
    && h.addressable && h.protocol == 1024 && !h.ackRequired && h.resRequired && h.sequence == 100
    && (h.tagged ==> h.target == ZeroMac)
  }

  lemma InitialHeaderWellFormed()
    ensures WellFormedHeader(InitialHeader) && InitialHeader.tagged
  {
  }

  /** The part of the shared payload buffer that a send transmits. */
  datatype Payload =
    | NoPayload
    | PowerLevel(level: uint16)
    | SetColor(hue: uint16, saturation: uint16, brightness: uint16, kelvin: uint16, duration: uint32)

  /** payloadLen as passed to SendMessage: 0, sizeof(lifx_payload_device_power) or
      sizeof(lifx_payload_light_setcolor). */
  function PayloadLen(p: Payload): (n: nat)
    ensures n <= 13
    ensures n == 0 <==> p.NoPayload?
    ensures p.PowerLevel? ==> n == 2
    ensures p.SetColor? ==> n == 13
  {
    match p
    case NoPayload => 0
    case PowerLevel(_) => 2
    case SetColor(_, _, _, _, _) => 13
  }

  /** The header that SendMessage leaves in the shared header buffer, except for the
      random source identifier. */
  function PrepareHeader(h: Header, messageType: uint16, mac: Option<Mac>, payload: Payload): (r: Header)
    ensures r.size == HeaderSize + PayloadLen(payload) && r.messageType == messageType
    ensures r.tagged <==> mac.None?
    ensures r.target == if mac.None? then ZeroMac else mac.value
    ensures r.(size := h.size, messageType := h.messageType, tagged := h.tagged, target := h.target) == h
  {
    h.(size := HeaderSize + PayloadLen(payload), messageType := messageType,
       tagged := mac.None?, target := if mac.None? then ZeroMac else mac.value)
  }

  /** Preparing a header, whatever source it is then given, keeps it well formed. */
  lemma PrepareHeaderKeepsWellFormed(h: Header, messageType: uint16, mac: Option<Mac>, payload: Payload, source: uint32)
    requires WellFormedHeader(h)
    ensures WellFormedHeader(PrepareHeader(h, messageType, mac, payload).(source := source))
  {
  }

  /** One transmitted datagram as the sent-message log records it: the header fields that
      identify the message, the payload and the destination IP address. */
  datatype Datagram = Datagram(messageType: uint16, target: Mac, tagged: bool, size: nat, payload: Payload, ip: uint32)

  /** What a call SendMessage(messageType, mac, ip, payload) puts on the wire. */
  function Outgoing(messageType: uint16, mac: Option<Mac>, ip: uint32, payload: Payload): (d: Datagram)
    ensures d.messageType == messageType && d.payload == payload && d.ip == ip
    ensures d.size == HeaderSize + PayloadLen(payload)
    ensures d.tagged <==> mac.None?
    ensures d.tagged ==> d.target == ZeroMac
    ensures !d.tagged ==> d.target == mac.value
  {
    Datagram(messageType, if mac.None? then ZeroMac else mac.value, mac.None?,
             HeaderSize + PayloadLen(payload), payload, ip)
  }

  /** The datagram's header fields are exactly those the prepared header holds. */
  lemma OutgoingIsPreparedHeader(h: Header, messageType: uint16, mac: Option<Mac>, ip: uint32, payload: Payload)
    ensures var r := PrepareHeader(h, messageType, mac, payload);
      Outgoing(messageType, mac, ip, payload) == Datagram(r.messageType, r.target, r.tagged, r.size, payload, ip)
  {
  }

  /** Number of broadcast (tagged) datagrams in a log. */
  function Broadcasts(ds: seq<Datagram>): nat {
    if ds == [] then 0 else Broadcasts(ds[..|ds| - 1]) + (if ds[|ds| - 1].tagged then 1 else 0)
  }

  /** Logging one more datagram adds one broadcast exactly when that datagram is tagged;
      no log contains more broadcasts than datagrams. */
  lemma BroadcastsSnoc(ds: seq<Datagram>, d: Datagram)
    ensures Broadcasts(ds + [d]) == Broadcasts(ds) + (if d.tagged then 1 else 0)
    ensures Broadcasts(ds) <= |ds|
  {
    assert (ds + [d])[..|ds|] == ds;
    BroadcastsAtMostLength(ds);
  }

  lemma {:induction false} BroadcastsAtMostLength(ds: seq<Datagram>)
    ensures Broadcasts(ds) <= |ds|
    decreases |ds|
  {
    if ds != [] {
      BroadcastsAtMostLength(ds[..|ds| - 1]);
    }
  }

  /** A fixed 32-byte text buffer as carried in label, location and group payloads. */
  type Field32 = s: seq<byte> | |s| == 32 witness seq(32, _ => 0)

  /** The characters of a C string: no NUL among them. */
  type CText = s: seq<byte> | forall i | 0 <= i < |s| :: s[i] != 0

  /** The C string held in a fixed buffer: the bytes before the first NUL, or the whole
      buffer when it holds no NUL. */
  function CString(buf: seq<byte>): (t: CText)
    ensures |t| <= |buf| && t == buf[..|t|]
    ensures |t| < |buf| ==> buf[|t|] == 0
  {
    if buf == [] || buf[0] == 0 then [] else [buf[0]] + CString(buf[1..])
  }

  /** Every view of the bytes after the header that the dispatcher reinterprets, one per
      payload struct it casts the buffer to. */
  datatype Body = Body(
    level: uint16,
    labelText: Field32,
    product: uint32,
    locationLabel: Field32,
    groupLabel: Field32,
    hue: uint16,
    saturation: uint16,
    brightness: uint16,
    kelvin: uint16,
    power: uint16)

  /** An inbound datagram: its decoded header, its length as reported by the socket, the
      IP address it came from, and its payload views. The views are whatever the receive
      buffer holds after the header; for a packet too short to carry a field, that field
      is whatever bytes the buffer held before. */
  datatype Packet = Packet(header: Header, len: nat, from: uint32, body: Body)
}
