# LIFX LAN engine, modelled in Dafny

This project models the core of an Arduino library that controls LIFX smart lights over the
LIFX LAN protocol (UDP). It covers four things:

- The `Lifx` engine (`Lifx.cpp`), in four parts:
  - a registry of discovered devices, keyed by 6-byte hardware address;
  - a timer-paced discovery sequencer. It sends three GET_SERVICE broadcasts, then walks the
    registry and asks each device, in a fixed chain, for its label, version, location,
    group and light state;
  - an inbound dispatcher that copies reply fields into each device's cached state;
  - an outbound command layer. Single-device commands update the cache optimistically.
    The by-label and by-group variants act on every match, and the state queries return
    the first match.
- The `Device` record class with its constructor and address fields.
- The product table `lifx_types` and its lookup `lifx_find_pid_index`
  (`LifxProducts.cpp`, types from `LifxProducts.h`).

Files:

- `protocol.dfy` (module `LifxProtocol`): integer widths and hardware addresses. Also the
  message-type codes and the frame header as a record. Also outbound payloads, the datagram
  log entry, inbound packets and NUL-terminated text.
- `device.dfy` (module `LifxDevice`): the `Device` class. It also gives value-level
  definitions that specify the engine's methods:
  - how a reply updates a cache (`ApplyReply`);
  - how a command updates a cache and what it sends (`Optimistic`, `Issue`);
  - the by-name loops and first-match query over the registry as a sequence of records
    (`ApplyByText`, `SendsByText`, `FirstMatch`);
  - find-or-create (`FindOrCreate`) and the handling of one inbound packet (`Receive`).
- `lifx.dfy` (module `Lifx`): the engine as a class whose methods update its fields in
  place. The UDP socket is replaced by a ghost log `sent` of every datagram, and the
  millisecond clock by a `now` parameter. Every state-changing method except the send
  primitive `SendMessage` keeps the invariant `Valid()`. `SendMessage` keeps only the
  header invariant and the split of the log into earlier rounds and this round; its
  callers restore `Valid()`. `Valid()` states:
  - the shared header stays well formed and describes the last datagram sent;
  - the discovery cursor stays within the registry;
  - the broadcast count equals the broadcasts sent this round and is at most 3;
  - a round completes at most once.

  The separate invariant `Unique()` keeps hardware addresses pairwise distinct.
- `products.dfy` (module `LifxProducts`): the 62-row product table and `FindPidIndex`.
- `scenarios.dfy` (module `LifxScenarios`): short sessions with a fresh engine that pin
  down concrete behaviour. These cover a round with no lights, a bulb's walk along the
  query chain, a second sighting of a known address, and the light-update flag.

The model follows what Lifx.cpp does in four places a reader might not expect:

- A known device's IP is never refreshed when it is seen again from another address
  (Lifx.cpp:253-254).
- A packet is accepted whenever its length is nonzero and below the buffer size. Nothing
  checks that it is long enough for its header or payload (Lifx.cpp:71, 157-216).
- A reply of a type the dispatcher does not know still overwrites the device's last
  message type (Lifx.cpp:179).
- `DeviceLightUpdateDone` returns the raw "update underway" flag. It is therefore true
  while an update is pending and false once its reply has arrived (Lifx.cpp:363-365).

## Model

| member | source | states |
|---|---|---|
| `LifxProtocol.PayloadLen` | Lifx.cpp:236-237 | The payload length is 0 exactly when no payload is sent, 2 for a power level and 13 for a set-colour payload, so never more than 13. |
| `LifxProtocol.InitialHeaderWellFormed` | Lifx.cpp:36-48 | The constructor's header has the static bits (addressable, protocol 1024, no ack, response required, sequence 100) set. It is tagged with the zero target. |
| `LifxProtocol.PrepareHeader` | Lifx.cpp:218-231 | The header after SendMessage: size is header size + payload length, the type is the message type, and it is tagged with the zero target exactly when no MAC is given, otherwise it targets that MAC. No other field changes. The first three ensures spell out the body; the frame fact and PrepareHeaderKeepsWellFormed carry the content. |
| `LifxProtocol.PrepareHeaderKeepsWellFormed` | Lifx.cpp:218-231 | Preparing a header, whatever random source it is then given, keeps the static bits and the tagged-means-zero-target rule. |
| `LifxProtocol.Outgoing` | Lifx.cpp:218-238 | The datagram SendMessage transmits: its type, its payload, its destination IP, its size (header + payload), and the tagged/target rule. The ensures spell out the body field by field; it is the reference definition the engine's log is stated against, and OutgoingIsPreparedHeader ties it to PrepareHeader. |
| `LifxProtocol.OutgoingIsPreparedHeader` | Lifx.cpp:218-235 | The logged datagram carries exactly the fields of the header SendMessage prepared. |
| `LifxProtocol.CString` | Lifx.cpp:191-193 | The text of a 32-byte label buffer is its longest NUL-free prefix, followed by a NUL unless it fills the buffer. |
| `LifxDevice.ReplyRecordsType` | Lifx.cpp:179-215 | Every reply sets the last message type. A reply carrying no state (state-service or an unknown type) changes nothing else. |
| `LifxDevice.ReplyStoresText` | Lifx.cpp:191-205 | A label, location or group reply stores its buffer's text in that field and leaves the other two text fields alone. |
| `LifxDevice.ReplyStoresState` | Lifx.cpp:187-214 | A power reply stores its level, a version reply its product id, and a light-state reply its hue, saturation, brightness, kelvin and power; each changes nothing else but the recorded type. |
| `LifxDevice.ReplyLatestWins` | Lifx.cpp:178-216 | Of two replies of the same type, the later one determines the cache outright, so a duplicate reply is harmless. |
| `LifxDevice.OptimisticAgreesWithPayload` | Lifx.cpp:270-297 | After a command, the cache holds exactly what the payload told the device. Power touches only power, brightness only brightness (the payload resends the cached hue, saturation and kelvin), and colour only hue, saturation, brightness and kelvin. |
| `LifxDevice.CommandPayload` | Lifx.cpp:270-297 | The payload a command sends: a power level (2 bytes) for power, a set-colour record (13 bytes) otherwise, carrying the command's level, or its brightness and duration. |
| `LifxDevice.Optimistic` | Lifx.cpp:270-297 | The cache after a command, assuming it takes effect: only power, hue, saturation, brightness and kelvin can change; last message type, texts and product stay. |
| `LifxDevice.Issue` | Lifx.cpp:270-297 | A command is an untagged datagram to the device's own MAC and IP, of the command's type, sized header + 2 or header + 13. |
| `LifxDevice.ApplyByText` | Lifx.cpp:299-356 | A by-name command leaves every record in place and updates exactly the records whose text matches. |
| `LifxDevice.Commanded` | Lifx.cpp:302-305 | One record under a by-name command: updated optimistically if its text equals the argument, otherwise unchanged. The ensures spell out the body; it is the per-record reference that ApplyByText, CommandAt and ApplyByTextKeepsIdentity are stated and proved against. |
| `LifxDevice.SendsByText` | Lifx.cpp:299-356 | What a by-name command sends, in registry order: at most one datagram per record, each a unicast of the command's type to a matching device of the registry. |
| `LifxDevice.SendTo` | Lifx.cpp:302-305 | What a by-name command sends to one record: something exactly when its text matches, at most one datagram, addressed to that record's MAC and IP. |
| `LifxDevice.ApplyByTextKeepsIdentity` | Lifx.cpp:299-356 | A by-name command never changes any device's MAC, IP, label, group, location or last message type. |
| `LifxDevice.SendsByTextOncePerMatch` | Lifx.cpp:299-356 | With distinct MACs, as the engine's `Unique()` keeps them, a by-name command sends exactly one datagram to each matching device and none to a non-matching one. |
| `LifxDevice.SendsByTextNoneTo` | Lifx.cpp:299-356 | A by-name command sends nothing to an address that is not in the registry. |
| `LifxDevice.FirstMatch` | Lifx.cpp:367-405 | The first position whose text matches; none exactly when no record matches. |
| `LifxDevice.Device.constructor` | Lifx.cpp:438-446 | A new device has the given MAC and IP and empty label, group and location. |
| `LifxDevice.IndexOfMac` | Lifx.cpp:251-255 | The first position holding the MAC; none exactly when the MAC is absent. |
| `LifxDevice.IndexOfMacFirst` | Lifx.cpp:251-254 | A front-to-back scan that stops at its first hit finds IndexOfMac's position. |
| `LifxDevice.FindOrCreate` | Lifx.cpp:248-260 | The registry after DeviceAddToArray, as a value, and the position it returns: that position holds the requested MAC, and the old registry is a prefix of the new one, which is at most one record longer. |
| `LifxDevice.FindOrCreateFinds` | Lifx.cpp:248-260 | Find-or-create returns the device with the requested MAC. A known MAC leaves the registry exactly as it was, IP included. An unknown one appends one record with that MAC and IP at the end. |
| `LifxDevice.FindOrCreateKeepsDistinct` | Lifx.cpp:248-260 | Find-or-create keeps MACs distinct, only extends the registry, and adds at most one record. |
| `LifxDevice.FindOrCreateIdempotent` | Lifx.cpp:253-254 | Asking again for the same MAC from any IP finds the same record and changes nothing, so the first IP seen is kept. |
| `LifxDevice.Replied` | Lifx.cpp:178-216 | Dealing with a reply never changes a record's MAC or IP. |
| `LifxDevice.ApplyReply` | Lifx.cpp:178-216 | The cache after the reply switch: each cached field changes only under the reply type that carries it (label, group, location, version; power under STATEPOWER or LIGHT_STATE; hue, saturation, brightness and kelvin only under LIGHT_STATE). The values stored are stated by ReplyStoresText and ReplyStoresState. |
| `LifxDevice.Receive` | Lifx.cpp:157-176 | The registry after one inbound packet: a GET_SERVICE packet changes nothing; otherwise at most one record is added and no existing record's MAC or IP changes. |
| `LifxDevice.ReceiveUpdatesFound` | Lifx.cpp:165-174 | A non-get-service packet's reply lands on the record that find-or-create picks for the header's target. |
| `LifxDevice.ReceiveShape` | Lifx.cpp:157-176 | One inbound packet has these effects: MACs stay distinct; no device is removed or reordered, and at most one is added; no known IP changes; only the device the header targets can change. |
| `LifxDevice.ReceiveIdempotent` | Lifx.cpp:157-216 | Receiving the same packet twice leaves the registry as receiving it once. |
| `Lifx.NextQuery` | Lifx.cpp:127-153 | The if-chain's query for a last reply type: there is one exactly for STATESERVICE, STATELABEL, STATEVERSION, STATELOCATION and STATEGROUP, and it is always one of GETLABEL, GETVERSION, GETLOCATION, GETGROUP, LIGHT_GET. |
| `Lifx.QueryShortensChain` | Lifx.cpp:127-153 | A reply type has a next query exactly when part of the chain remains, and that query's reply leaves one query fewer, so the chain cannot loop. |
| `Lifx.Chain` | Lifx.cpp:127-153 | The queries the chain sends from a reply type; their number is what remains of the chain. |
| `Lifx.ChainFromService` | Lifx.cpp:129-152 | From STATESERVICE the chain is GETLABEL, GETVERSION, GETLOCATION, GETGROUP, LIGHT_GET. It ends at LIGHT_STATE, which sends nothing. |
| `Lifx.ChainIsSuffix` | Lifx.cpp:127-153 | From any reply type the chain is a suffix of the full chain: nothing is repeated or out of order. |
| `Lifx.StepFor` | Lifx.cpp:115-153 | What one discovery step does. A step is due only once elapsed time passes the next-step mark. The round ends only when the cursor is past the last device. The cursor moves on only after LIGHT_STATE. A query is sent only along the chain, and it is NextQuery's. |
| `Lifx.BroadcastDue` | Lifx.cpp:109 | The broadcast test: never due once three broadcasts have gone out this round. |
| `Lifx.BroadcastStaysDue` | Lifx.cpp:109 | A due broadcast stays due as time passes; the broadcast after `count` earlier ones falls due exactly from 1000 × count + 1 ms. |
| `Lifx.ServiceBroadcast` | Lifx.cpp:112 | The discovery broadcast: GET_SERVICE, tagged, zero target, to 255.255.255.255. |
| `Lifx.Lifx.constructor` | Lifx.cpp:34-51 | A fresh engine: the initial header, an empty registry, no round or light update underway, nothing sent, and the invariants established. |
| `Lifx.Lifx.SendMessage` | Lifx.cpp:218-246 | Logs the datagram and leaves the header as PrepareHeader says, with an unconstrained source; keeps the header invariant. |
| `Lifx.Lifx.SendQuery` | Lifx.cpp:129-147 | A payload-free unicast query to a device is logged and leaves the round's broadcast count alone. |
| `Lifx.Lifx.StartDiscovery` | Lifx.cpp:89-100 | Timer set to now, next-step mark 3000, broadcast count 0, cursor 0, round underway; the registry is kept. |
| `Lifx.Lifx.DiscoveryBroadcast` | Lifx.cpp:107-113 | Exactly one GET_SERVICE broadcast when elapsed > 1000 × count and count < 3, otherwise none; the count follows. |
| `Lifx.Lifx.DiscoveryStep` | Lifx.cpp:115-154 | Some step happens only when elapsed time passes the mark. When the cursor is past the end, the round ends, the callback fires if one is registered, and nothing is sent. Otherwise the mark grows by exactly 250, then one of three things: the chain's next query goes to the cursor device, LIGHT_STATE moves the cursor on, or any other type does nothing. |
| `Lifx.Lifx.FinishRound` | Lifx.cpp:116-121 | Ending a round clears the underway flag, counts one completion, and fires the callback once if registered. |
| `Lifx.Lifx.StepCursorDevice` | Lifx.cpp:123-153 | On the cursor device: the mark grows by 250, then the query chosen by its last reply is sent unicast, or LIGHT_STATE advances the cursor. |
| `Lifx.Lifx.DoDiscovery` | Lifx.cpp:102-155 | The combined effect of the broadcast and the step on the count, the log (broadcast before query), the mark, the cursor, the flag and the completion counters. |
| `Lifx.Lifx.DiscoveryTick` | Lifx.cpp:77-86 | Runs DoDiscovery if a round is underway, then restarts the round whenever elapsed time since the last start exceeds the interval, even mid-round. The registry is untouched and at most two datagrams are sent. |
| `Lifx.Lifx.Loop` | Lifx.cpp:67-87 | Accepts a packet only when 0 < length < buffer size and dispatches it as Receive says. The light flag is cleared only by an accepted LIGHT_STATE. The registry only grows, by at most one. It then has DiscoveryTick's effects. |
| `Lifx.Lifx.ReceivePhase` | Lifx.cpp:69-75 | The receive half of loop: the registry after it is Receive of the one before, if the packet is accepted. |
| `Lifx.Lifx.ReceivedMessage` | Lifx.cpp:157-176 | GET_SERVICE changes nothing. Any other packet finds or creates the device named by the header's target, from the sender's IP, and applies the reply: the registry is Receive of the old one. |
| `Lifx.Lifx.LocateSender` | Lifx.cpp:167 | The registry after DeviceAddToArray, and the sender's position, are those FindOrCreate computes. |
| `Lifx.Lifx.DealWithReceivedMessage` | Lifx.cpp:178-216 | The device's cache becomes ApplyReply of the old cache, and LIGHT_STATE clears the light-update flag; nothing else changes. |
| `Lifx.Lifx.DealWithRegistered` | Lifx.cpp:173-216 | Within the registry only the replying device's record changes, to Replied. |
| `Lifx.Lifx.DeviceAddToArray` | Lifx.cpp:248-260 | If the MAC is known, returns the first device with it and leaves the registry unchanged (IP not refreshed). Otherwise appends a fresh device with that MAC, that IP and empty texts. MACs stay unique. |
| `Lifx.Lifx.DeviceCount` | Lifx.cpp:262-264 | The registry size truncated to 16 bits: exact below 65536, and congruent to the size modulo 65536. |
| `Lifx.Lifx.GetIndexedDevice` | Lifx.cpp:266-268 | The device at a valid position (the caller must pass one). |
| `Lifx.Lifx.IndexedDevicesDistinct` | Lifx.cpp:248-268 | Different positions hold different devices with different MACs. |
| `Lifx.Lifx.SetDevicePower` | Lifx.cpp:270-274 | Only the cached power changes; one SETPOWER datagram goes to the device. |
| `Lifx.Lifx.SetDeviceBrightness` | Lifx.cpp:276-284 | Only the cached brightness changes. One SETCOLOR datagram is sent, carrying the cached hue, saturation and kelvin. |
| `Lifx.Lifx.SetDeviceColor` | Lifx.cpp:286-297 | Hue, saturation, brightness and kelvin change, and one SETCOLOR datagram with them is sent. |
| `Lifx.Lifx.Apply` | Lifx.cpp:270-297 | A single-device command updates the cache by Optimistic and logs Issue. |
| `Lifx.Lifx.ApplyAt` | Lifx.cpp:299-356 | Commanding the device at one position changes only that record in the registry. |
| `Lifx.Lifx.CommandAt` | Lifx.cpp:300-305 | One iteration of a by-name loop: the record becomes Commanded and the log grows by SendTo. |
| `Lifx.Lifx.CommandStep` | Lifx.cpp:300-306 | One iteration extends the handled prefix by one record. |
| `Lifx.Lifx.CommandByText` | Lifx.cpp:299-356 | The by-name loop: the registry becomes ApplyByText and the log grows by SendsByText, in registry order. |
| `Lifx.Lifx.CommandByTextOncePerDevice` | Lifx.cpp:299-356 | While `Unique()` holds, a by-name command sends exactly one datagram to each device whose text matches and none to any other registry device. |
| `Lifx.Lifx.SetBrightnessByLabel` | Lifx.cpp:299-307 | Brightness to every device whose label matches, as CommandByText. |
| `Lifx.Lifx.SetBrightnessByGroup` | Lifx.cpp:309-317 | Brightness to every device whose group matches. |
| `Lifx.Lifx.SetColorByGroup` | Lifx.cpp:319-327 | Colour to every device whose group matches. |
| `Lifx.Lifx.SetColorByLabel` | Lifx.cpp:329-337 | Colour to every device whose label matches. |
| `Lifx.Lifx.SetPowerByGroup` | Lifx.cpp:339-346 | Power to every device whose group matches. |
| `Lifx.Lifx.SetPowerByLabel` | Lifx.cpp:348-356 | Power to every device whose label matches. |
| `Lifx.Lifx.DeviceLightUpdateDone` | Lifx.cpp:363-365 | Returns the raw light-update flag, so it is true while an update is pending, against what its name says. The ensures restates the body; what the flag means is stated by StartDeviceLightUpdate, DealWithReceivedMessage and LifxScenarios.LightUpdateFlag. |
| `Lifx.Lifx.StartDeviceLightUpdate` | Lifx.cpp:358-361 | Sends LIGHT_GET to the device and sets the light-update flag. |
| `Lifx.Lifx.DiscoveryCompleteCallback` | Lifx.cpp:407-409 | Registers (or clears) the discovery-complete callback. |
| `Lifx.Lifx.FindFirst` | Lifx.cpp:369-374 | The front-to-back scan of the State*By* queries finds FirstMatch's position. |
| `Lifx.Lifx.StatePowerByGroup` | Lifx.cpp:367-375 | The power of the first device in the group, or 0 if none. |
| `Lifx.Lifx.StatePowerByLabel` | Lifx.cpp:377-385 | The power of the first device with the label, or 0 if none. |
| `Lifx.Lifx.StateBrightnessByGroup` | Lifx.cpp:387-395 | The brightness of the first device in the group, or 0 if none. |
| `Lifx.Lifx.StateBrightnessByLabel` | Lifx.cpp:397-405 | The brightness of the first device with the label, or 0 if none. |
| `LifxProducts.Table` | LifxProducts.cpp:12-75 | The `lifx_types` array: the 61 product rows of the source in source order (name, vendor, id, light type, infrared, zone type, HEV), then the all-empty sentinel row. Its properties are stated by ProductRows and TableShape. |
| `LifxProducts.ProductRows` | LifxProducts.cpp:13-73 | The 61 product rows are all vendor 1, have nonzero ids, and are in strictly increasing order of id. |
| `LifxProducts.TableShape` | LifxProducts.cpp:12-75 | The table has 62 rows, all vendor 1. The last is the sentinel, the only row with id 0. The other ids strictly increase. |
| `LifxProducts.PidsDistinct` | LifxProducts.cpp:13-74 | No id occurs in two rows. |
| `LifxProducts.FirstPidIndex` | LifxProducts.cpp:82-95 | The first row with the id, or -1 exactly when no row has it. |
| `LifxProducts.FindPidIndex` | LifxProducts.cpp:82-95 | The while loop returns FirstPidIndex of the table. It never reads past the sentinel and it terminates. |
| `LifxProducts.FindPidIndexMeaning` | LifxProducts.cpp:78-95 | The result is -1 or a row index up to the sentinel's. A found row has the id and is the only row with it. -1 means no row, sentinel included, has it. |
| `LifxProducts.FindsEveryRow` | LifxProducts.cpp:12-90 | Looking up any row's id finds that row. |
| `LifxProducts.PidZeroFindsSentinel` | LifxProducts.cpp:74-89 | Looking up id 0 returns the sentinel's index, not -1, because the id is compared before the loop tests for the sentinel. |
| `LifxScenarios.EmptyRegistryRound` | Lifx.cpp:102-121 | With no lights, a round sends three broadcasts and then ends, sending nothing else. |
| `LifxScenarios.SecondSightingKeepsIp` | Lifx.cpp:248-260 | A second sighting of a MAC from another IP returns the first record, with the first IP; the count stays 1. |
| `LifxScenarios.LightUpdateFlag` | Lifx.cpp:207-365 | DeviceLightUpdateDone reads true while an update is pending and false after the LIGHT_STATE reply. |
| `LifxScenarios.LabelQueryFirst` | Lifx.cpp:109-131 | A bulb seen through STATESERVICE is asked for its label after 3000 ms, each query after that tick's broadcast, and asked again 250 ms later. |
| `LifxScenarios.VersionQueryAfterLabel` | Lifx.cpp:133-135 | Once the label has arrived, the next step asks for the version. |
| `LifxScenarios.RoundEndsAfterLightState` | Lifx.cpp:115-152 | After LIGHT_STATE the cursor moves past the bulb without sending, and the next step ends the round. |

## Left out

- UDP I/O: `begin`, `parsePacket`, `read` and the `beginPacket`/`write`/`endPacket` calls
  are replaced by the inbound-packet parameter of `Loop` and by the ghost `sent` log.
- Randomness: `randomSeed` and the random `source` field. SendMessage makes the source an
  arbitrary value, and the log does not record it.
- Debug output: `PrintDevices`, `MacAddressString` and all serial printing.
- Lifx.h is not part of this model. The header's byte layout, the payload unions and the
  numeric constants live there. Headers and payloads are records. The message-type codes,
  the header size (36) and the payload sizes (2 and 13) are the published LIFX LAN
  protocol values. Proofs depend only on the codes being distinct.
  `LIFX_REDISCOVERY_INTERVAL` and `LIFX_INCOMING_PACKET_BUFFER_LEN` are constructor
  parameters. The engine's discovery fields start at zero, as a zero-initialised global.
- Packet bytes: an inbound packet is its decoded header, its length, its sender and its
  payload views. The C++ reads the views without checking the length, so for a short
  packet they are stale buffer bytes; the model leaves them unconstrained.
- Text buffers: Label, Group and Location are 32-byte copies compared with `strcmp`. The
  model stores the text up to the first NUL, or all 32 bytes when there is none. Running
  past the end of a buffer with no NUL is not modelled.
- The shared `_payload` buffer is modelled as the payload value each send carries. The
  stores to `_payload.power.level` before the by-name power loops (Lifx.cpp:340, 349)
  have no observable effect of their own and are not modelled.
- The discovery-complete callback is modelled as a registered flag and a ghost count of
  calls. Its body and identity are not modelled.
- `Device::MacAddress` and `Device::IpAddress` are the constant fields `macAddress` and
  `ipAddress`, which the constructor sets and nothing writes. The fields the C++
  constructor leaves uninitialised start with arbitrary values.
- Lifx.Lifx.DoDiscovery: the timer is a natural number, `now` is at least the last start
  time, and `millis()` wrap-around (Lifx.cpp:80, 105) is not modelled.
- Lifx.Lifx.Loop: its contract summarises the discovery half as DiscoveryTick's bounds
  and monotonicity facts (at most two datagrams, counters that only grow within a round,
  the restart condition). It does not replay DoDiscovery's exact effects.
- Lifx.Lifx.DiscoveryTick: the same summary as Loop; the exact per-step effects are
  stated by DoDiscovery.
- Lifx.Lifx.DeviceLightUpdateDone: it only reads the flag, so its contract restates it.
  What the flag means is stated by StartDeviceLightUpdate, DealWithReceivedMessage and
  LifxScenarios.LightUpdateFlag.
- Lifx.Lifx.Loop: one pass of `loop()`, DiscoveryTick included, is modelled at a single
  instant `now`. The C++
  reads `millis()` three times per pass: for the rediscovery test (Lifx.cpp:80), for the
  timer stamp inside StartDiscovery (Lifx.cpp:95) and for the elapsed time in DoDiscovery
  (Lifx.cpp:105); time passing between those reads is not modelled.
