/** A discovered light and the value-level rules that update its cached state: how an
    inbound reply is copied into the cache, and how a command is optimistically applied
    to the cache and turned into an outbound datagram. */
module LifxDevice {
  import opened LifxProtocol

  /** The mutable part of a device record: the last reply type seen and the cached state. */
  datatype DeviceCache = DeviceCache(
    lastMessageType: uint16,
    power: uint16,
    labelText: CText,
    groupText: CText,
    locationText: CText,
    hue: uint16,
    saturation: uint16,
    brightness: uint16,
    kelvin: uint16,
    product: uint32)

  /** A device as a value: its identity and its cache. */
  datatype DeviceRecord = DeviceRecord(mac: Mac, ip: uint32, cache: DeviceCache)

  /** Which text field a by-name command or query compares with its argument. */
  datatype TextKey = ByLabel | ByGroup

  function TextOf(c: DeviceCache, key: TextKey): CText {
    match key
    case ByLabel => c.labelText
    case ByGroup => c.groupText
  }

  predicate Matches(r: DeviceRecord, key: TextKey, text: CText) {
    TextOf(r.cache, key) == text
  }

  // ---------------------------------------------------------------------------------
  // Inbound replies

  /** The cache after a reply has been dealt with: the reply's type is recorded, and the
      reply types that carry state copy their fields. Each cached field changes only under
      the reply type that carries it. */
  function ApplyReply(c: DeviceCache, p: Packet): (r: DeviceCache)
    ensures r.labelText != c.labelText ==> p.header.messageType == DeviceStateLabel
    ensures r.groupText != c.groupText ==> p.header.messageType == DeviceStateGroup
    ensures r.locationText != c.locationText ==> p.header.messageType == DeviceStateLocation
    ensures r.product != c.product ==> p.header.messageType == DeviceStateVersion
    ensures r.power != c.power ==> p.header.messageType in {DeviceStatePower, LightState}
    ensures (r.hue, r.saturation, r.brightness, r.kelvin) != (c.hue, c.saturation, c.brightness, c.kelvin) ==>
      p.header.messageType == LightState
  {
    var t := p.header.messageType;
    var b := p.body;
    var c1 := c.(lastMessageType := t);
    if t == DeviceStatePower then c1.(power := b.level)
    else if t == DeviceStateLabel then c1.(labelText := CString(b.labelText))
    else if t == DeviceStateVersion then c1.(product := b.product)
    else if t == DeviceStateLocation then c1.(locationText := CString(b.locationLabel))
    else if t == DeviceStateGroup then c1.(groupText := CString(b.groupLabel))
    else if t == LightState then
      c1.(hue := b.hue, saturation := b.saturation, brightness := b.brightness,
          kelvin := b.kelvin, power := b.power)
    else c1
  }

  /** The reply types whose fields the dispatcher copies into the cache. */
  predicate CarriesState(t: uint16) {
    t in {DeviceStatePower, DeviceStateLabel, DeviceStateVersion, DeviceStateLocation,
          DeviceStateGroup, LightState}
  }

  /** Every reply is recorded as the last message type; a reply that carries no state
      (state-service, or a type the dispatcher does not know) changes nothing else. */
  lemma ReplyRecordsType(c: DeviceCache, p: Packet)
    ensures ApplyReply(c, p).lastMessageType == p.header.messageType
    ensures !CarriesState(p.header.messageType) ==>
      ApplyReply(c, p) == c.(lastMessageType := p.header.messageType)
  {
  }

  /** A label, location or group reply stores the text of its 32-byte buffer up to the
      first NUL, and leaves the other two text fields alone. */
  lemma ReplyStoresText(c: DeviceCache, p: Packet)
    ensures p.header.messageType == DeviceStateLabel ==>
      var r := ApplyReply(c, p);
      r.labelText == CString(p.body.labelText) && r.groupText == c.groupText && r.locationText == c.locationText
    ensures p.header.messageType == DeviceStateGroup ==>
      var r := ApplyReply(c, p);
      r.groupText == CString(p.body.groupLabel) && r.labelText == c.labelText && r.locationText == c.locationText
    ensures p.header.messageType == DeviceStateLocation ==>
      var r := ApplyReply(c, p);
      r.locationText == CString(p.body.locationLabel) && r.labelText == c.labelText && r.groupText == c.groupText
  {
  }

  /** A power, version or light-state reply copies its numeric fields into the cache and
      changes nothing else but the recorded type: the level on a power reply, the product
      id on a version reply, and hue, saturation, brightness, kelvin and power on a
      light-state reply. */
  lemma ReplyStoresState(c: DeviceCache, p: Packet)
    ensures p.header.messageType == DeviceStatePower ==>
      ApplyReply(c, p) == c.(lastMessageType := DeviceStatePower, power := p.body.level)
    ensures p.header.messageType == DeviceStateVersion ==>
      ApplyReply(c, p) == c.(lastMessageType := DeviceStateVersion, product := p.body.product)
    ensures p.header.messageType == LightState ==>
      ApplyReply(c, p) == c.(lastMessageType := LightState, hue := p.body.hue, saturation := p.body.saturation,
                             brightness := p.body.brightness, kelvin := p.body.kelvin, power := p.body.power)
  {
  }

  /** Duplicate replies are harmless, and of two replies of the same type the later one
      wins outright: the cache keeps the latest reply of each kind. */
  lemma ReplyLatestWins(c: DeviceCache, p: Packet, q: Packet)
    requires p.header.messageType == q.header.messageType
    ensures ApplyReply(ApplyReply(c, p), q) == ApplyReply(c, q)
  {
  }

  // ---------------------------------------------------------------------------------
  // Outbound commands

  /** The single-device commands SetDevicePower, SetDeviceBrightness and SetDeviceColor. */
  datatype Command =
    | PowerCmd(power: uint16)
    | BrightnessCmd(brightness: uint16, duration: uint32)
    | ColorCmd(hue: uint16, saturation: uint16, brightness: uint16, kelvin: uint16, duration: uint32)

  function CommandType(cmd: Command): uint16 {
    if cmd.PowerCmd? then DeviceSetPower else LightSetColor
  }

  /** The payload a command sends; a brightness change resends the cached hue,
      saturation and kelvin. */
  function CommandPayload(c: DeviceCache, cmd: Command): (p: Payload)
    ensures PayloadLen(p) == if cmd.PowerCmd? then 2 else 13
    ensures p.PowerLevel? ==> p.level == cmd.power
    ensures p.SetColor? ==> p.brightness == cmd.brightness && p.duration == cmd.duration
  {
    match cmd
    case PowerCmd(p) => PowerLevel(p)
    case BrightnessCmd(b, d) => SetColor(c.hue, c.saturation, b, c.kelvin, d)
    case ColorCmd(h, s, b, k, d) => SetColor(h, s, b, k, d)
  }

  /** The cache after a command, assuming it takes effect. Only the light state (power,
      hue, saturation, brightness, kelvin) can change. */
  function Optimistic(c: DeviceCache, cmd: Command): (n: DeviceCache)
    ensures n.(power := c.power, hue := c.hue, saturation := c.saturation,
               brightness := c.brightness, kelvin := c.kelvin) == c
  {
    match cmd
    case PowerCmd(p) => c.(power := p)
    case BrightnessCmd(b, _) => c.(brightness := b)
    case ColorCmd(h, s, b, k, _) => c.(hue := h, saturation := s, brightness := b, kelvin := k)
  }

  /** The datagram a command sends to a device: a unicast to the device's own address,
      sized header plus payload. */
  function Issue(r: DeviceRecord, cmd: Command): (d: Datagram)
    ensures !d.tagged && d.target == r.mac && d.ip == r.ip && d.messageType == CommandType(cmd)
    ensures d.size == HeaderSize + (if cmd.PowerCmd? then 2 else 13)
  {
    Outgoing(CommandType(cmd), Some(r.mac), r.ip, CommandPayload(r.cache, cmd))
  }

  /** After the optimistic update the cache holds exactly the state the device was told
      to take; power commands touch only the power, brightness commands only the
      brightness, and colour commands only hue, saturation, brightness and kelvin. */
  lemma OptimisticAgreesWithPayload(c: DeviceCache, cmd: Command)
    ensures var n := Optimistic(c, cmd);
      match CommandPayload(c, cmd)
      case PowerLevel(l) => n == c.(power := l)
      case SetColor(h, s, b, k, _) =>
        n == c.(hue := h, saturation := s, brightness := b, kelvin := k)
        && (cmd.BrightnessCmd? ==> n == c.(brightness := b))
      case NoPayload => false
  {
  }

  // ---------------------------------------------------------------------------------
  // Commands addressed by label or group, over the registry as a sequence of values

  /** The registry after a by-name command: every matching device updated, the others as
      they were. */
  function ApplyByText(rs: seq<DeviceRecord>, key: TextKey, text: CText, cmd: Command): (out: seq<DeviceRecord>)
    ensures |out| == |rs|
    ensures forall i | 0 <= i < |rs| :: out[i] == Commanded(rs[i], key, text, cmd)
  {
    if rs == [] then []
    else ApplyByText(rs[..|rs| - 1], key, text, cmd) + [Commanded(rs[|rs| - 1], key, text, cmd)]
  }

  /** One record under a by-name command: updated optimistically when its text matches. */
  function Commanded(r: DeviceRecord, key: TextKey, text: CText, cmd: Command): (c: DeviceRecord)
    ensures Matches(r, key, text) ==> c == r.(cache := Optimistic(r.cache, cmd))
    ensures !Matches(r, key, text) ==> c == r
  {
    if Matches(r, key, text) then r.(cache := Optimistic(r.cache, cmd)) else r
  }

  /** What a by-name command sends: one datagram per matching device, in registry order.
      Every one is a unicast of the command's type to a device of the registry. */
  function SendsByText(rs: seq<DeviceRecord>, key: TextKey, text: CText, cmd: Command): (ds: seq<Datagram>)
    ensures |ds| <= |rs|
    ensures forall i | 0 <= i < |ds| :: !ds[i].tagged && ds[i].messageType == CommandType(cmd)
    ensures forall i | 0 <= i < |ds| :: exists j | 0 <= j < |rs| :: ds[i].target == rs[j].mac && Matches(rs[j], key, text)
  {
    if rs == [] then []
    else
      var last := rs[|rs| - 1];
      SendsByText(rs[..|rs| - 1], key, text, cmd) + SendTo(last, key, text, cmd)
  }

  /** What a by-name command sends to one record: the command when its text matches. */
  function SendTo(r: DeviceRecord, key: TextKey, text: CText, cmd: Command): (ds: seq<Datagram>)
    ensures ds != [] <==> Matches(r, key, text)
    ensures |ds| <= 1 && forall d | d in ds :: d.target == r.mac && d.ip == r.ip
  {
    if Matches(r, key, text) then [Issue(r, cmd)] else []
  }

  /** Handling one more record extends ApplyByText and SendsByText by that record. */
  lemma ByTextSnoc(rs: seq<DeviceRecord>, key: TextKey, text: CText, cmd: Command, i: nat)
    requires i < |rs|
    ensures ApplyByText(rs[..i + 1], key, text, cmd) == ApplyByText(rs[..i], key, text, cmd) + [Commanded(rs[i], key, text, cmd)]
    ensures SendsByText(rs[..i + 1], key, text, cmd) == SendsByText(rs[..i], key, text, cmd) + SendTo(rs[i], key, text, cmd)
  {
    assert rs[..i + 1][..i] == rs[..i];
  }

  /** Replacing the element just after a prefix. */
  lemma UpdateAfterPrefix<T>(a: seq<T>, b: seq<T>, c: T)
    requires b != []
    ensures (a + b)[|a| := c] == a + [c] + b[1..]
  {
  }

  /** One step of the by-name loop over values: when the first i records have been
      handled (state snap, log log) the next record is still untouched, and handling it
      extends both by exactly one step of ApplyByText and SendsByText. */
  lemma ByTextStep(rs: seq<DeviceRecord>, key: TextKey, text: CText, cmd: Command, i: nat,
                   snap: seq<DeviceRecord>, log0: seq<Datagram>, log: seq<Datagram>)
    requires i < |rs|
    requires snap == ApplyByText(rs[..i], key, text, cmd) + rs[i..]
    requires log == log0 + SendsByText(rs[..i], key, text, cmd)
    ensures i < |snap| && snap[i] == rs[i]
    ensures snap[i := Commanded(rs[i], key, text, cmd)] == ApplyByText(rs[..i + 1], key, text, cmd) + rs[i + 1..]
    ensures log + SendTo(rs[i], key, text, cmd) == log0 + SendsByText(rs[..i + 1], key, text, cmd)
  {
    ByTextSnoc(rs, key, text, cmd, i);
    var done := ApplyByText(rs[..i], key, text, cmd);
    UpdateAfterPrefix(done, rs[i..], Commanded(rs[i], key, text, cmd));
    assert rs[i..][1..] == rs[i + 1..];
    var sends := SendsByText(rs[..i], key, text, cmd);
    assert log + SendTo(rs[i], key, text, cmd) == log0 + (sends + SendTo(rs[i], key, text, cmd));
  }

  /** A by-name command never changes any device's identity or text fields. */
  lemma {:induction false} ApplyByTextKeepsIdentity(rs: seq<DeviceRecord>, key: TextKey, text: CText, cmd: Command, i: nat)
    requires i < |rs|
    ensures var r := ApplyByText(rs, key, text, cmd)[i];
      r.mac == rs[i].mac && r.ip == rs[i].ip
      && r.cache.labelText == rs[i].cache.labelText && r.cache.groupText == rs[i].cache.groupText
      && r.cache.locationText == rs[i].cache.locationText
      && r.cache.lastMessageType == rs[i].cache.lastMessageType
  {
  }

  /** The position of the first record whose text equals the argument, as the State*By*
      queries look it up. */
  function FirstMatch(rs: seq<DeviceRecord>, key: TextKey, text: CText): (r: Option<nat>)
    ensures r.Some? ==> r.value < |rs| && Matches(rs[r.value], key, text)
    ensures r.Some? ==> forall j | 0 <= j < r.value :: !Matches(rs[j], key, text)
    ensures r.None? <==> forall j | 0 <= j < |rs| :: !Matches(rs[j], key, text)
  {
    if rs == [] then None
    else if Matches(rs[0], key, text) then Some(0)
    else match FirstMatch(rs[1..], key, text)
      case None => None
      case Some(k) => Some(k + 1)
  }

  /** The first matching position is the one before which nothing matches. */
  lemma FirstMatchAt(rs: seq<DeviceRecord>, key: TextKey, text: CText, i: nat)
    requires i < |rs| && Matches(rs[i], key, text)
    requires forall j | 0 <= j < i :: !Matches(rs[j], key, text)
    ensures FirstMatch(rs, key, text) == Some(i)
  {
  }

  /** Number of datagrams in ds addressed to mac. */
  function CountTo(ds: seq<Datagram>, mac: Mac): nat {
    if ds == [] then 0 else CountTo(ds[..|ds| - 1], mac) + (if ds[|ds| - 1].target == mac then 1 else 0)
  }

  lemma CountToAppend(ds: seq<Datagram>, es: seq<Datagram>, mac: Mac)
    ensures CountTo(ds + es, mac) == CountTo(ds, mac) + CountTo(es, mac)
    decreases |es|
  {
    if es == [] {
      assert ds + es == ds;
    } else {
      assert (ds + es)[..|ds + es| - 1] == ds + es[..|es| - 1];
      CountToAppend(ds, es[..|es| - 1], mac);
    }
  }

  /** What a by-name command sends to one record is addressed to that record only. */
  lemma CountToSendTo(r: DeviceRecord, key: TextKey, text: CText, cmd: Command, mac: Mac)
    ensures CountTo(SendTo(r, key, text, cmd), mac) == if Matches(r, key, text) && r.mac == mac then 1 else 0
  {
    if Matches(r, key, text) {
      assert SendTo(r, key, text, cmd)[..0] == [];
    }
  }

  /** Dropping the last record keeps the addresses distinct, and no earlier record
      carries the last one's address. */
  lemma DistinctInit(rs: seq<DeviceRecord>)
    requires rs != [] && Distinct(MacsOf(rs))
    ensures Distinct(MacsOf(rs[..|rs| - 1]))
    ensures forall j | 0 <= j < |rs| - 1 :: rs[j].mac != rs[|rs| - 1].mac
  {
    var ms, init := MacsOf(rs), MacsOf(rs[..|rs| - 1]);
    forall a, b | 0 <= a < b < |init| ensures init[a] != init[b] {
      assert init[a] == ms[a] && init[b] == ms[b];
    }
    forall j | 0 <= j < |rs| - 1 ensures rs[j].mac != rs[|rs| - 1].mac {
      assert ms[j] != ms[|rs| - 1];
    }
  }

  /** With distinct hardware addresses, as the registry keeps them, a by-name command
      sends exactly one datagram to each matching device and none to any other device. */
  lemma {:induction false} SendsByTextOncePerMatch(rs: seq<DeviceRecord>, key: TextKey, text: CText, cmd: Command, i: nat)
    requires Distinct(MacsOf(rs)) && i < |rs|
    ensures CountTo(SendsByText(rs, key, text, cmd), rs[i].mac) == if Matches(rs[i], key, text) then 1 else 0
    decreases |rs|
  {
    var init := rs[..|rs| - 1];
    var last := rs[|rs| - 1];
    var mac := rs[i].mac;
    var before, now := SendsByText(init, key, text, cmd), SendTo(last, key, text, cmd);
    assert SendsByText(rs, key, text, cmd) == before + now;
    CountToAppend(before, now, mac);
    CountToSendTo(last, key, text, cmd, mac);
    DistinctInit(rs);
    if i < |rs| - 1 {
      assert init[i] == rs[i] && last.mac != mac;
      SendsByTextOncePerMatch(init, key, text, cmd, i);
    } else {
      SendsByTextNoneTo(init, key, text, cmd, mac);
    }
  }

  /** A by-name command sends nothing to an address no record carries. */
  lemma {:induction false} SendsByTextNoneTo(rs: seq<DeviceRecord>, key: TextKey, text: CText, cmd: Command, mac: Mac)
    requires forall j | 0 <= j < |rs| :: rs[j].mac != mac
    ensures CountTo(SendsByText(rs, key, text, cmd), mac) == 0
    decreases |rs|
  {
    if rs != [] {
      var init := rs[..|rs| - 1];
      var last := rs[|rs| - 1];
      CountToAppend(SendsByText(init, key, text, cmd), SendTo(last, key, text, cmd), mac);
      CountToSendTo(last, key, text, cmd, mac);
      SendsByTextNoneTo(init, key, text, cmd, mac);
    }
  }

  // ---------------------------------------------------------------------------------
  // The device object

  /** A discovered device. Its hardware and IP addresses are set once, by the
      constructor; everything else is cached state that the engine overwrites. */
  class Device {
    const macAddress: Mac
    const ipAddress: uint32
    var LastMessageType: uint16
    var Power: uint16
    var Label: CText
    var Group: CText
    var Location: CText
    var Hue: uint16
    var Saturation: uint16
    var Brightness: uint16
    var Kelvin: uint16
    var Product: uint32

    /** Copies the address and empties the three text fields; the other cached fields
        are left as they come. */
    constructor (mac: Mac, ip: uint32)
      ensures macAddress == mac && ipAddress == ip
      ensures Label == [] && Group == [] && Location == []
    {
      macAddress := mac;
      ipAddress := ip;
      Label := [];
      Group := [];
      Location := [];
    }

    function Cache(): DeviceCache
      reads this
    {
      DeviceCache(LastMessageType, Power, Label, Group, Location, Hue, Saturation, Brightness, Kelvin, Product)
    }

    function Record(): DeviceRecord
      reads this
    {
      DeviceRecord(macAddress, ipAddress, Cache())
    }
  }

  /** The registry as a sequence of values. */
  ghost function Snapshot(ds: seq<Device>): (rs: seq<DeviceRecord>)
    reads ds
    ensures |rs| == |ds|
    ensures forall i | 0 <= i < |ds| :: rs[i] == ds[i].Record()
  {
    if ds == [] then [] else Snapshot(ds[..|ds| - 1]) + [ds[|ds| - 1].Record()]
  }

  /** The hardware addresses of a registry, in order. */
  function DeviceMacs(ds: seq<Device>): (ms: seq<Mac>)
    ensures |ms| == |ds| && forall i | 0 <= i < |ds| :: ms[i] == ds[i].macAddress
  {
    if ds == [] then [] else DeviceMacs(ds[..|ds| - 1]) + [ds[|ds| - 1].macAddress]
  }

  function MacsOf(rs: seq<DeviceRecord>): (ms: seq<Mac>)
    ensures |ms| == |rs| && forall i | 0 <= i < |rs| :: ms[i] == rs[i].mac
  {
    if rs == [] then [] else MacsOf(rs[..|rs| - 1]) + [rs[|rs| - 1].mac]
  }

  /** Appending a device appends its record. */
  lemma SnapshotSnoc(ds: seq<Device>, d: Device)
    ensures Snapshot(ds + [d]) == Snapshot(ds) + [d.Record()]
  {
    assert (ds + [d])[..|ds|] == ds;
  }

  lemma SnapshotMacs(ds: seq<Device>)
    ensures MacsOf(Snapshot(ds)) == DeviceMacs(ds)
  {
  }

  /** No hardware address occurs twice. */
  predicate Distinct(ms: seq<Mac>) {
    forall i, j | 0 <= i < j < |ms| :: ms[i] != ms[j]
  }

  /** The position of the first occurrence of mac, if any. */
  function IndexOfMac(ms: seq<Mac>, mac: Mac): (r: Option<nat>)
    ensures r.Some? ==> r.value < |ms| && ms[r.value] == mac
    ensures r.Some? ==> forall j | 0 <= j < r.value :: ms[j] != mac
    ensures r.None? <==> forall j | 0 <= j < |ms| :: ms[j] != mac
  {
    if ms == [] then None
    else if ms[0] == mac then Some(0)
    else match IndexOfMac(ms[1..], mac)
      case None => None
      case Some(k) => Some(k + 1)
  }

  /** A scan from the front that stops at the first match finds IndexOfMac's position. */
  lemma {:induction false} IndexOfMacFirst(ms: seq<Mac>, mac: Mac, i: nat)
    requires i < |ms| && ms[i] == mac && forall j | 0 <= j < i :: ms[j] != mac
    ensures IndexOfMac(ms, mac) == Some(i)
    decreases i
  {
    if i > 0 {
      assert ms[0] != mac;
      IndexOfMacFirst(ms[1..], mac, i - 1);
    }
  }

  /** Under distinct addresses the position found is the only one holding that address. */
  lemma IndexOfMacUnique(ms: seq<Mac>, mac: Mac, i: nat)
    requires Distinct(ms) && i < |ms| && ms[i] == mac
    ensures IndexOfMac(ms, mac) == Some(i)
  {
  }

  // ---------------------------------------------------------------------------------
  // The registry as a value: find-or-create and the dispatch of one inbound packet

  /** What the Device constructor guarantees of a new cache: the three texts are empty. */
  predicate Blank(c: DeviceCache) {
    c.labelText == [] && c.groupText == [] && c.locationText == []
  }

  /** A cache with empty texts and zero numbers. */
  const EmptyCache: DeviceCache := DeviceCache(0, 0, [], [], [], 0, 0, 0, 0, 0)

  /** DeviceAddToArray over values: the registry afterwards and the position of the device
      with that address. A new device takes the cache `blank`. */
  function FindOrCreate(rs: seq<DeviceRecord>, mac: Mac, ip: uint32, blank: DeviceCache): (res: (seq<DeviceRecord>, nat))
    ensures res.1 < |res.0| && res.0[res.1].mac == mac
    ensures rs <= res.0 && |res.0| <= |rs| + 1
  {
    match IndexOfMac(MacsOf(rs), mac)
    case Some(k) => (rs, k)
    case None => (rs + [DeviceRecord(mac, ip, blank)], |rs|)
  }

  /** Find-or-create read off the outcome of a scan of the addresses ms of rs: the
      registry rs1 is rs itself when the address was found at k, and rs with the new
      record appended, at k == |rs|, when it was not. */
  lemma FindOrCreateOutcome(rs: seq<DeviceRecord>, ms: seq<Mac>, mac: Mac, ip: uint32, blank: DeviceCache,
                            rs1: seq<DeviceRecord>, k: nat)
    requires ms == MacsOf(rs)
    requires IndexOfMac(ms, mac).Some? ==> rs1 == rs && k == IndexOfMac(ms, mac).value
    requires IndexOfMac(ms, mac).None? ==> rs1 == rs + [DeviceRecord(mac, ip, blank)] && k == |rs|
    ensures (rs1, k) == FindOrCreate(rs, mac, ip, blank)
  {
  }

  /** Find-or-create returns the device with the requested address. A known address leaves
      the registry exactly as it was, address and IP included; an unknown one appends one
      record, with that address and IP, at the end. */
  lemma FindOrCreateFinds(rs: seq<DeviceRecord>, mac: Mac, ip: uint32, blank: DeviceCache)
    ensures var (out, k) := FindOrCreate(rs, mac, ip, blank);
      k < |out| && out[k].mac == mac
      && (mac in MacsOf(rs) ==> out == rs)
      && (mac !in MacsOf(rs) ==> out == rs + [DeviceRecord(mac, ip, blank)] && k == |rs|)
  {
    var ms := MacsOf(rs);
    if mac in ms {
      var j :| 0 <= j < |ms| && ms[j] == mac;
      assert IndexOfMac(ms, mac).Some?;
    }
  }

  lemma MacsOfAppend(rs: seq<DeviceRecord>, r: DeviceRecord)
    ensures MacsOf(rs + [r]) == MacsOf(rs) + [r.mac]
  {
    assert (rs + [r])[..|rs|] == rs;
  }

  lemma MacsOfUpdate(rs: seq<DeviceRecord>, k: nat, r: DeviceRecord)
    requires k < |rs| && r.mac == rs[k].mac
    ensures MacsOf(rs[k := r]) == MacsOf(rs)
  {
    assert forall i | 0 <= i < |rs| :: MacsOf(rs[k := r])[i] == MacsOf(rs)[i];
  }

  /** Find-or-create keeps the addresses distinct and only ever extends the registry. */
  lemma FindOrCreateKeepsDistinct(rs: seq<DeviceRecord>, mac: Mac, ip: uint32, blank: DeviceCache)
    requires Distinct(MacsOf(rs))
    ensures var out := FindOrCreate(rs, mac, ip, blank).0;
      Distinct(MacsOf(out)) && rs <= out && |out| <= |rs| + 1
  {
  }

  /** Find-or-create is idempotent: asking again for the same address, from whatever IP,
      finds the same record and changes nothing, so the first IP seen is the one kept. */
  lemma {:induction false} FindOrCreateIdempotent(rs: seq<DeviceRecord>, mac: Mac, ip1: uint32, ip2: uint32, b1: DeviceCache, b2: DeviceCache)
    requires Distinct(MacsOf(rs))
    ensures var (out1, k1) := FindOrCreate(rs, mac, ip1, b1);
      FindOrCreate(out1, mac, ip2, b2) == (out1, k1)
      && (mac !in MacsOf(rs) ==> out1[k1].ip == ip1)
  {
    var (out1, k1) := FindOrCreate(rs, mac, ip1, b1);
    FindOrCreateKeepsDistinct(rs, mac, ip1, b1);
    FindOrCreateFinds(rs, mac, ip1, b1);
    IndexOfMacUnique(MacsOf(out1), mac, k1);
  }

  /** A record after the reply p has been dealt with. */
  function Replied(r: DeviceRecord, p: Packet): (out: DeviceRecord)
    ensures out.mac == r.mac && out.ip == r.ip
  {
    r.(cache := ApplyReply(r.cache, p))
  }

  /** The registry after one inbound packet: a get-service query changes nothing; any other
      packet finds or creates the device named by the header's target and applies the
      reply to its cache. */
  function Receive(rs: seq<DeviceRecord>, p: Packet, blank: DeviceCache): (out: seq<DeviceRecord>)
    ensures p.header.messageType == DeviceGetService ==> out == rs
    ensures |rs| <= |out| <= |rs| + 1
    ensures forall i | 0 <= i < |rs| :: out[i].mac == rs[i].mac && out[i].ip == rs[i].ip
  {
    if p.header.messageType == DeviceGetService then rs
    else
      var (out, k) := FindOrCreate(rs, p.header.target, p.from, blank);
      out[k := Replied(out[k], p)]
  }

  /** A reply lands on the record find-or-create picks for its target. */
  lemma ReceiveUpdatesFound(rs: seq<DeviceRecord>, p: Packet, blank: DeviceCache, out: seq<DeviceRecord>, k: nat)
    requires p.header.messageType != DeviceGetService
    requires (out, k) == FindOrCreate(rs, p.header.target, p.from, blank)
    ensures k < |out| && Receive(rs, p, blank) == out[k := Replied(out[k], p)]
  {
    FindOrCreateFinds(rs, p.header.target, p.from, blank);
  }

  /** Receiving keeps addresses distinct, never removes or reorders devices, never changes
      a known device's address or IP, and changes the cache of at most the one device the
      packet names. */
  lemma {:induction false} ReceiveShape(rs: seq<DeviceRecord>, p: Packet, blank: DeviceCache)
    requires Distinct(MacsOf(rs))
    ensures var out := Receive(rs, p, blank);
      && Distinct(MacsOf(out))
      && |rs| <= |out| <= |rs| + 1
      && MacsOf(rs) <= MacsOf(out)
      && (forall i | 0 <= i < |rs| :: out[i].ip == rs[i].ip)
      && (forall i | 0 <= i < |rs| && rs[i].mac != p.header.target :: out[i] == rs[i])
  {
    if p.header.messageType != DeviceGetService {
      FindOrCreateKeepsDistinct(rs, p.header.target, p.from, blank);
      FindOrCreateFinds(rs, p.header.target, p.from, blank);
      var (mid, k) := FindOrCreate(rs, p.header.target, p.from, blank);
      MacsOfUpdate(mid, k, Replied(mid[k], p));
      if p.header.target !in MacsOf(rs) {
        MacsOfAppend(rs, DeviceRecord(p.header.target, p.from, blank));
      }
    }
  }

  /** A repeated packet is harmless: receiving the same reply twice leaves the registry as
      receiving it once. */
  lemma {:induction false} ReceiveIdempotent(rs: seq<DeviceRecord>, p: Packet, b1: DeviceCache, b2: DeviceCache)
    requires Distinct(MacsOf(rs))
    ensures Receive(Receive(rs, p, b1), p, b2) == Receive(rs, p, b1)
  {
    if p.header.messageType != DeviceGetService {
      var mac := p.header.target;
      var (out, k) := FindOrCreate(rs, mac, p.from, b1);
      FindOrCreateKeepsDistinct(rs, mac, p.from, b1);
      FindOrCreateFinds(rs, mac, p.from, b1);
      var once := out[k := Replied(out[k], p)];
      assert MacsOf(once) == MacsOf(out);
      IndexOfMacUnique(MacsOf(once), mac, k);
      ReplyLatestWins(out[k].cache, p, p);
    }
  }
}
