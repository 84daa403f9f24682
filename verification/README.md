# A verified model of the thermostat firmware and its web schedule

The repository is a room thermostat: an ESP8266 that enumerates 1-Wire sensors, talks MQTT, draws
on a small I2C display, and a web page where the weekly heating schedule is edited. This project
models the algorithms in it that carry state from call to call, or that replace a simple form by a
fast or packed one, and proves what they are for. Where the code updates state in place the model
does too: a class with the code's fields, methods with the code's branches, loops with invariants.
Each such method is tied to a specification, and the theorems are about that specification.

`dafny verify dfyconfig.toml` checks everything.

## What is modelled

| Files | Subject | Main results |
|---|---|---|
| `RomOrder`, `RomBytes`, `RomSearch` | 1-Wire ROM search on a wired-AND bus | repeated calls enumerate every device once, in order, exactly when no device has a zero family byte; exactly when a targeted search finds the least of its family |
| `Crc8`, `Crc16` | the two Dallas checksums | the 8-bit one is the remainder modulo x^8 + x^5 + x^4 + 1; linearity, residue, burst detection; the parity shortcut of the 16-bit one equals the bitwise CRC |
| `Bytes`, `RingBuf`, `Proto`, `Queue` | byte stuffing into a ring, torn frames, drop-oldest retry | the parser resynchronises; the retry loop's outcome in closed form |
| `MqttMsg`, `MqttParse`, `MqttWire` | MQTT 3.1.1 packets in a fixed buffer | exactly when each packet, CONNECT with its will and login included, fits; its bytes as in the standard; what parses back, also from a cut PUBLISH |
| `ClientModel`, `ClientLaws`, `Receive`, `MqttClient` | the client: calls, callbacks, timer, task, receive loop | over every interleaving: sent packets were accepted, in order, once; CONNECT and a CONNACK with code 0 come first; exactly what opens a link, when keep-alive and reconnect fall due, how each handshake is answered, when the receive loop ends |
| `Schedule`, `ScheduleWire` | change points, bars, charts, wire form | the passes keep the meaning and give a unique canonical form; what the page shows of any points is what it saves; exactly which tables survive the wire |
| `Screen`, `Divisors`, `Line`, `Pages`, `PageBuffer` | u8glib in 8-bit coordinates | exactly when a line is within half a pixel, and its rows, in closed form; exactly when pages tile and when the page loop ends; pages together are the full frame |
| `Font` | packed fonts | the jump offsets change nothing; a font has one reading |
| `I2cBus`, `I2cMaster` | the bit-banged I2C master | the waveform decodes to the transfer that was asked for, for every behaviour of the other end |

The environment enters as arguments: the devices on the bus, the answers of the other end of the
I2C bus (any function), what `espconn_send` returned, whether DNS found an address, which callback
comes next. `MQTT_SEND_TIMOUT` and `MQTT_RECONNECT_TIMEOUT` are 5, as in the code. Buffer sizes are
parameters. `Options` holds the one option type.

## Where the code does not do what one would expect

Each of these is proved, with the condition under which the code is right.

- A ROM whose first byte is zero makes every search on its bus fail, also for the other devices
  (`RomSearch.ZeroFamilyHidesAll`, `RomSearch.CompleteIffNoZeroFamily`).
- A targeted search takes a 1 at bit 64, so it finds the least member of a family if and only if
  no other device shares that member's first 63 bits (`RomSearch.TargetFindsLeastIff`,
  `RomSearch.TargetMissesTwin`). A family that is absent gives a device of another family, and
  family 0 is reported as not found also when present (`RomSearch.TargetCall`).
- A scratchpad whose checksum fails is reported, and its bytes are used all the same: the `return`
  behind the test is commented out, so a burst that is seen (`Crc8.ScratchpadBurstSeen`) is not
  acted on.
- A packet that fits an empty ring may still be refused: after the retries the ring is then empty
  (`Queue.RetryOutcome`). Writing a frame reports its length as a signed 16-bit number: one that
  is one byte short of a multiple of 65536 long is written and reported as a failure
  (`Proto.AddRb`).
- A client whose CONNECT cannot be printed (empty client id, or fields that do not fit the buffer)
  sends nothing on any link and never reaches MQTT_DATA (`ClientModel.GreetedIffPrinted`).
- `mqtt_get_id` gives 0 for a PUBLISH with an empty payload at the end of the data
  (`MqttParse.PublishParses`), for every UNSUBSCRIBE, and for a SUBSCRIBE of 128 bytes or more behind
  its header (`MqttWire.RequestIdParses`).
- In the receive loop nothing behind a packet other than PUBLISH is looked at
  (`Receive.SegmentHandled`). The loop never ends if and only if, walking from PUBLISH to PUBLISH
  by their 16-bit lengths, it meets one whose total length is 0 modulo 65536 (`Receive.EndsIff`,
  `Receive.RepeatsForever`, `Receive.SpinsOn65536`).
- A PUBLISH cut by the end of a segment is acknowledged and delivered truncated, and its rest is
  read as a packet of its own (`Receive.CutPublish`); cut before its payload it is acknowledged
  with an id that may come from bytes of an earlier segment (`Receive.CutEarly`).
- A subscription that does not fit its buffer is queued as an empty packet
  (`MqttClient.Client.Subscribe`).
- Temperatures below 0 or above 655.35 degrees do not survive the wire
  (`ScheduleWire.TableSurvives`, `ScheduleWire.FrostIsLost`).
- The bars of a day are late where two points lie between two half hours
  (`Schedule.CurrentIffNotCrowded`, `Schedule.LateBar`).
- Showing the default schedule edits it, so the second time it shows another one
  (`Schedule.Page.GetStatesByDay`, `Schedule.DefaultDrifts`).
- A line is drawn wrong once the error the code tests leaves 8 bits (`Line.PreciseIff`,
  `Line.PreciseExactly`, `Line.ShallowLineFails`), and column 255 is never drawn along the longer side
  (`Line.OnePixelPerColumn`).
- The page loop repeats rows or holds an empty page once the rows of its pages pass 255
  (`Pages.TilesIff`, `Pages.WrapSpoils`); it ends if and only if the display is at most 256 less
  the greatest common divisor of the page height and 256 high (`Pages.EndsIff`).
- A refused address or control byte does not stop an I2C transfer; a refused data byte does
  (`I2cMaster.Com.WriteSeq`).

## Model

| member | source | states |
|---|---|---|
| RomSearch.Searcher.ResetSearch | esp/src/driver/ds1820.c:137-147 | the next search starts from a fresh memory and a zero ROM buffer |
| RomSearch.Searcher.TargetSearch | esp/src/driver/one_wire.c:182-192 | the memory a targeted search starts from: the family byte in front, then zeros |
| RomSearch.Searcher.Direction | esp/src/driver/ds1820.c:233-261 | the search rule at one bit: the only bit offered; at a fork the old choice before the last discrepancy, 1 at it, 0 after it, and a 0 is noted |
| RomSearch.Searcher.StoreBit | esp/src/driver/ds1820.c:263-268 | storing through byte and mask changes exactly one of the 64 transmitted bits |
| RomSearch.Searcher.Slot | esp/src/driver/ds1820.c:226-283 | one slot never loses all devices, and keeps who listens, what is stored and the last zero position in step |
| RomSearch.Searcher.Walk | esp/src/driver/ds1820.c:224-284 | the 64 slots end on a device that obeys the search rule, with its last zero fork |
| RomSearch.Searcher.Search | esp/src/driver/ds1820.c:195-304 | one call as a relation between the memories before and after, and what is copied to the caller |
| RomSearch.LastZeroFork | esp/src/driver/ds1820.c:247-255 | the position is the greatest fork where the path takes 0, or 0 if there is none |
| RomSearch.ReadsTellForks | esp/src/driver/ds1820.c:226-241 | the two wired-AND reads are equal exactly when the listening devices disagree, and never both 1 |
| RomSearch.ForksAreAbove | esp/src/driver/ds1820.c:237-255 | a fork where the found code has 0 is a device that agrees before that bit and has 1 there |
| RomSearch.NoForkIffGreatest | esp/src/driver/ds1820.c:281-293 | last discrepancy 0, which sets the last-device flag, holds exactly when no device is above the found one |
| RomSearch.DiscrepancyMeaning | esp/src/driver/ds1820.c:280-296 | after a successful call LastDiscrepancy is the greatest position where some device agrees with the found code before it and has 1 against its 0, or 0 if there is none; LastDeviceFlag is set exactly when no device is above |
| RomSearch.FirstIsLeast | esp/src/driver/ds1820.c:210-291 | a search from a fresh memory finds the least device |
| RomSearch.NextIsSuccessor | esp/src/driver/ds1820.c:224-291 | the next search finds the least device above the last one: one integer of memory is enough |
| RomSearch.NothingBetween | esp/src/driver/ds1820.c:242-251 | no device that shares the path through the last zero fork is skipped |
| RomSearch.CallTakesLeast | esp/src/driver/ds1820.c:195-304 | each call takes the least of the devices still to come, and fails and resets when none is left |
| RomSearch.EnumeratesAll | esp/src/driver/ds1820.c:137-304 | after a reset the first calls, one for each device, report every device once in ascending order; the next call fails and leaves the search reset |
| RomSearch.ZeroFamilyHidesAll | esp/src/driver/ds1820.c:293-305 | with a zero family byte anywhere on the bus every call of the enumeration fails |
| RomSearch.CompleteIffNoZeroFamily | esp/src/driver/ds1820.c:293-305 | the enumeration is complete if and only if no device has a zero family byte |
| RomSearch.TargetFindsLeastIff | esp/src/driver/one_wire.c:182-192 | for the least member of the family asked for: a targeted search finds it if and only if no other device shares its first 63 bits |
| RomSearch.TargetCall | esp/src/driver/one_wire.c:182-192 | a present family gives a member of it, reported unless the family byte is 0; an absent one gives a device of another family; an empty bus nothing |
| RomSearch.TargetMissesTwin | esp/src/driver/one_wire.c:182-192 | of two devices that differ in bit 64 alone the greater one is found |
| RomBytes.WriteInRom | esp/src/driver/ds1820.c:263-268 | changing bit n % 8 of byte n / 8 is changing transmitted bit n |
| RomBytes.TransmittedBit | esp/src/driver/ds1820.c:226-283 | transmitted bit n is bit n % 8 of byte n / 8, by its mask |
| Crc8.ShiftByte8 | esp/src/driver/ds1820.c:424-432 | the inner loop shifts the eight bits of a byte, least significant first, into the register |
| Crc8.ComputeCrc8 | esp/src/driver/ds1820.c:420-435 | the loop computes the register over all transmitted bits, which `Crc8.ChecksumIsRemainder` identifies |
| Crc8.ChecksumIsRemainder | esp/src/driver/ds1820.c:420-435 | a message and one byte, as bits in the order sent, are a multiple of x^8 + x^5 + x^4 + 1 over GF(2) if and only if the byte is the checksum |
| Crc8.ChecksumOfOne | esp/src/driver/ds1820.c:420-435 | a check value: the checksum of the byte 1 is 0x5E |
| Crc8.Crc8Linear | esp/src/driver/ds1820.c:420-435 | the checksum of an XOR is the XOR of the checksums |
| Crc8.ResidueIffCrc | esp/src/driver/ds1820.c:420-435 | a message and one byte give 0 if and only if the byte is the message's checksum |
| Crc8.BitsClear | esp/src/driver/ds1820.c:424-432 | up to eight bits clear the register exactly when the register holds just them |
| Crc8.BurstChangesCrc | esp/src/driver/ds1820.c:420-435 | messages that differ only within eight consecutive transmitted bits have different checksums |
| Crc8.ScratchpadBurstSeen | esp/src/driver/ds1820.c:66-68 | the test of ds_read_temp sees every such burst in a good scratchpad, checksum byte included; the test only reports |
| Crc16.ParityByteIsEightSteps | esp/src/driver/one_wire.c:411-426 | the parity table and two shifts are eight plain steps with polynomial 0xA001, for every register |
| Crc16.MixByte | esp/src/driver/one_wire.c:416-427 | the loop body on one byte is the parity step on the register with the byte mixed in |
| Crc16.ComputeCrc16 | esp/src/driver/one_wire.c:409-430 | the parity form equals the plain reflected CRC for every input, length and starting value |
| RingBuf.Ring.Init | esp/src/mqtt/ringbuf.c:16-25 | an empty ring, or -1 for a store of fewer than two bytes |
| RingBuf.Ring.Put | esp/src/mqtt/ringbuf.c:32-46 | a byte joins the end of the content, or the full ring stays as it is |
| RingBuf.Ring.Get | esp/src/mqtt/ringbuf.c:53-67 | the oldest byte leaves the content, or the empty ring stays as it is |
| RingBuf.ViewPush | esp/src/mqtt/ringbuf.c:32-46 | writing at the wrapped write position appends to the sequence the pointers stand for |
| RingBuf.ViewPop | esp/src/mqtt/ringbuf.c:53-67 | advancing the wrapped read position takes the first element of that sequence |
| Proto.Parser.ParseByte | esp/src/mqtt/proto.c:13-47 | one byte read: END ends the packet, anything else moves the parser's memory as specified |
| Proto.ParseRb | esp/src/mqtt/proto.c:56-69 | reads through the first END and gives what the chunk decodes to; without END the ring is drained |
| Proto.AddRb | esp/src/mqtt/proto.c:106-128 | the whole frame is appended if it fits, else the ring is exactly full with its first bytes; the result is -1 if and only if it does not fit or its 16-bit length is 65535 |
| Proto.FrameInBytes | esp/src/mqtt/proto.c:106-128 | a frame in bytes: 0x7E, the packet with 0x7D, 0x7E and 0x7F escaped as 0x7D and the byte with bit 5 flipped, 0x7F |
| Proto.FeedStuffed | esp/src/mqtt/proto.c:13-47 | unstuffing undoes stuffing |
| Proto.DecodeAfterJunk | esp/src/mqtt/proto.c:13-47 | a frame is read whole behind any junk, also behind half an escape |
| Proto.GarbageForgotten | esp/src/mqtt/proto.c:3-11 | after a BEGIN the uninitialised isBegin no longer matters |
| Proto.TornAddsNothing | esp/src/mqtt/proto.c:106-128 | bytes of a torn frame add no message and hurt none |
| Proto.FrameAddsMessage | esp/src/mqtt/proto.c:106-128 | a whole frame adds exactly its packet as the last message, whatever torn frame it follows |
| Proto.FramedPut | esp/src/mqtt/proto.c:106-128 | adding a frame, whole or torn, keeps the content a sequence of pieces |
| Proto.FramedGet | esp/src/mqtt/proto.c:56-69 | taking the oldest chunk keeps it so |
| Proto.MessagesAreWholeFrames | esp/src/mqtt/proto.c:13-69 | such content reads back as its whole frames, in order, none of the torn ones |
| Proto.AnyGarbage | esp/src/mqtt/proto.c:3-11 | on such content the value isBegin happened to have changes nothing |
| Proto.OldestMessage | esp/src/mqtt/queue.c:46-50 | a read returns the oldest whole message and leaves the others as they were |
| Queue.MsgQueue.Puts | esp/src/mqtt/queue.c:42-45 | the frame fits, or the ring is full with a torn frame and no END added |
| Queue.MsgQueue.Gets | esp/src/mqtt/queue.c:46-50 | the oldest chunk is taken out and decoded, or the ring is drained |
| Queue.MsgQueue.IsEmpty | esp/src/mqtt/queue.c:52-57 | empty exactly when no byte waits |
| Queue.MsgQueue.PutsOrDrop | esp/src/mqtt/mqtt.c:592-599 | the retry loop ends, and does what the retry function says |
| Queue.DropShortens | esp/src/mqtt/mqtt.c:592-599 | each retry costs exactly the oldest chunk and message, which is why the loop ends |
| Queue.RetryOutcome | esp/src/mqtt/mqtt.c:583-600 | accepted if and only if the frame fits the free space or some chunk is as long; which messages survive; else the ring is empty |
| Queue.RetryFramed | esp/src/mqtt/mqtt.c:592-599 | however many frames were torn and dropped on the way, the content stays a sequence of pieces |
| MqttMsg.Connection.AppendString | esp/src/mqtt/mqtt_msg.c:63-74 | two length bytes and the text are appended, or -1 and nothing |
| MqttMsg.Connection.AppendMessageId | esp/src/mqtt/mqtt_msg.c:76-90 | a given id, or the next one that is not 0, is appended, or 0 is returned |
| MqttMsg.Connection.FiniMessage | esp/src/mqtt/mqtt_msg.c:105-126 | the message is header, Remaining Length in one or two bytes (MQTT 3.1.1, section 2.2.3) and the appended body; type, DUP, QoS and RETAIN read back from its first byte |
| MqttMsg.HeaderFields | esp/src/mqtt/include/mqtt_msg.h:111-115 | type, DUP, QoS and RETAIN read back from the first byte fini_message builds, for all arguments |
| MqttMsg.Connection.Publish | esp/src/mqtt/mqtt_msg.c:363-387 | fails if and only if the topic is empty or the packet with a three-byte header exceeds the buffer; else the exact packet of section 3.3 and the id used, with QoS and RETAIN as asked for and DUP 0 |
| MqttMsg.Connection.Acknowledge | esp/src/mqtt/mqtt_msg.c:389-419 | the four acknowledgements; an id of 0 is replaced by the next free one |
| MqttMsg.Connection.TopicRequest | esp/src/mqtt/mqtt_msg.c:421-455 | SUBSCRIBE and UNSUBSCRIBE, and exactly when they do not fit |
| MqttMsg.Connection.Bare | esp/src/mqtt/mqtt_msg.c:457-467 | a packet that is a fixed header with no body, id counter untouched |
| MqttMsg.Connection.AppendWill | esp/src/mqtt/mqtt_msg.c:330-342 | will topic and message with their flags join variable header and fields, or -1 exactly when they do not fit |
| MqttMsg.Connection.Connect | esp/src/mqtt/mqtt_msg.c:291-361 | fails if and only if the client id is empty or id, will, user and password do not fit behind header and variable header; else the exact packet of section 3.1 |
| MqttParse.GetTotalLength | esp/src/mqtt/mqtt_msg.c:135-152 | the loop computes the scanned length |
| MqttParse.GetPublishTopic | esp/src/mqtt/mqtt_msg.c:154-181 | the loop and its checks give the position and length the specification names, within the data |
| MqttParse.GetPublishData | esp/src/mqtt/mqtt_msg.c:183-227 | the same for the payload |
| MqttParse.GetPacketId | esp/src/mqtt/mqtt_msg.c:229-289 | the same for the packet id |
| MqttParse.ScanRemaining | esp/src/mqtt/mqtt_msg.c:135-152 | a printed Remaining Length of any number of bytes scans back to its number and its end |
| MqttParse.PublishParses | esp/src/mqtt/mqtt_msg.c:135-289 | a printed PUBLISH parses back, whatever follows: type, DUP, QoS, RETAIN, length, topic and payload always, the id if and only if a byte follows it |
| MqttParse.CutPublishParses | esp/src/mqtt/mqtt_msg.c:135-289 | a PUBLISH cut inside its payload parses to its full length, topic and id, and to what there is of the payload |
| MqttParse.CutEarlyParses | esp/src/mqtt/mqtt_msg.c:135-227 | a PUBLISH cut before its payload parses to its full length, to no payload, and to its topic exactly if that is whole |
| MqttWire.PublishOnWire | esp/src/mqtt/mqtt_msg.c:363-387 | the bytes of a PUBLISH, one by one, as in section 3.3 |
| MqttWire.AcksOnWire | esp/src/mqtt/mqtt_msg.c:389-419 | the bytes of the four acknowledgements, as in sections 3.4 to 3.7 |
| MqttWire.PingsOnWire | esp/src/mqtt/mqtt_msg.c:457-467 | the bytes of PINGREQ and PINGRESP |
| MqttWire.RequestsOnWire | esp/src/mqtt/mqtt_msg.c:421-455 | the bytes of SUBSCRIBE and UNSUBSCRIBE, as in sections 3.8 and 3.10 |
| MqttWire.AckIdParses | esp/src/mqtt/mqtt_msg.c:229-289 | the id of a printed acknowledgement reads back, whatever follows |
| MqttWire.RequestIdParses | esp/src/mqtt/mqtt_msg.c:229-289 | a printed SUBSCRIBE gives its id back if and only if less than 128 bytes follow its header, an UNSUBSCRIBE gives 0 |
| MqttWire.IdsCount | esp/src/mqtt/mqtt_msg.c:76-90 | ids count up from 1 and after 65535 from 1 again, never 0 |
| MqttWire.ConnectReadsBack | esp/src/mqtt/mqtt_msg.c:291-361 | a printed CONNECT, read by flags and fields as section 3.1 says, gives the settings back: client id, will, user, password, clean session, keep-alive |
| ClientModel.SentWasAccepted | esp/src/mqtt/mqtt.c:592-755 | in every run what the task sent is a subsequence of what the queue accepted: same bytes, same order, each at most once, never a fragment |
| ClientModel.ConnectComesFirst | esp/src/mqtt/mqtt.c:301-566 | in every run a CONNECT is sent only directly after its link came up, nothing else goes out before a CONNACK with return code 0 has come on that link, and MQTT_DATA and MQTT_KEEPALIVE_SEND come only after it |
| ClientModel.GreetedIffPrinted | esp/src/mqtt/mqtt.c:514-547 | in every run: if CONNECT can be printed every link gets exactly that packet at once; if not, no link gets anything and MQTT_DATA is never reached |
| ClientModel.NextKeeps | esp/src/mqtt/mqtt.c:62-931 | every step of the client keeps both properties |
| ClientModel.UnbrokenLog | esp/src/mqtt/mqtt.c:514-547 | the phase automaton of a link means just that: what must precede each packet |
| ClientModel.SendsOldest | esp/src/mqtt/mqtt.c:728-752 | the task's send takes the oldest message whatever the parser's garbage |
| ClientModel.DrainsTorn | esp/src/mqtt/mqtt.c:728-752 | a ring of torn frames alone is drained and nothing is sent |
| ClientLaws.OpensIff | esp/src/mqtt/mqtt.c:301-346 | from any state, MQTT_Connect, a link and a CONNACK lead to MQTT_DATA if and only if CONNECT can be printed and the return code is 0 |
| ClientLaws.KeepAliveFallsDue | esp/src/mqtt/mqtt.c:460-483 | k seconds on an open link: a keep-alive is due if and only if the counter has gone past half the keep-alive time; nothing but the counters changes |
| ClientLaws.TrafficDefers | esp/src/mqtt/mqtt.c:443-458 | a packet received, or one that is sent, puts the keep-alive off by the full time |
| ClientLaws.KeepAliveCycle | esp/src/mqtt/mqtt.c:121-155 | on a silent link one PINGREQ goes out past the queue after half the keep-alive time and a second; taken, the client is back in MQTT_DATA, refused, it gives the link up |
| ClientLaws.SendTimeoutRunsDown | esp/src/mqtt/mqtt.c:481-482 | in every state the send timeout runs down by one a second, to 0 |
| ClientLaws.OthersWait | esp/src/mqtt/mqtt.c:460-483 | in every other state seconds change nothing but the send timeout |
| ClientLaws.FoundHostWaits | esp/src/mqtt/mqtt.c:62-102 | a host found with a usable address is waited for without a reconnect |
| ClientLaws.GoesOut | esp/src/mqtt/mqtt.c:728-752 | a message put into an empty queue goes out with the next task, byte for byte |
| ClientLaws.NextMessageWaits | esp/src/mqtt/mqtt.c:728-752 | after a send the next message goes out if and only if five seconds have passed, or at once when espconn has sent the first |
| ClientLaws.SendStartsTimeout | esp/src/mqtt/mqtt.c:728-752 | every message sent by the task starts that timeout of five seconds |
| ClientLaws.LostLinkReopens | esp/src/mqtt/mqtt.c:471-479 | a link that is lost, cannot be made, or whose host is not found is opened again after the sixth second counted, and not before |
| ClientLaws.ReconnectTickBounded | esp/src/mqtt/mqtt.c:471-479 | in every run the reconnect counter stays at most 5, as that count needs |
| ClientLaws.StaysDisconnected | esp/src/mqtt/mqtt.c:908-914 | after MQTT_Disconnect no new connection is made, whatever happens, unless MQTT_Connect is called |
| ClientLaws.ClosedForGood | esp/src/mqtt/mqtt.c:485-505 | after MQTT_Disconnect or mqtt_client_delete on an open link, once it is down and the task has run, nothing happens on any link until MQTT_Connect is called |
| Receive.FrontPublish | esp/src/mqtt/mqtt.c:297-377 | a PUBLISH at the front is read with its length, id, topic and payload, whatever lies behind it |
| Receive.SegmentHandled | esp/src/mqtt/mqtt.c:279-436 | a segment of PUBLISH packets and possibly another packet: each PUBLISH acknowledged once with its id, in bytes, and delivered once, in order; then only the first other packet counts, answered as the handshakes ask; the loop ends |
| Receive.SegmentDelivers | esp/src/mqtt/mqtt.c:106-119 | dataCb is called once for each PUBLISH, in order, with its topic and payload, and for nothing else |
| Receive.Handshakes | esp/src/mqtt/mqtt.c:384-407 | on an open link a PUBREC queues exactly one PUBREL, a PUBREL exactly one PUBCOMP, with the id received, a PINGREQ one PINGRESP, in bytes; every other packet that is not a PUBLISH changes nothing (section 4.3.3) |
| Receive.ConnackOpens | esp/src/mqtt/mqtt.c:301-346 | while connecting, received bytes lead to MQTT_DATA if and only if CONNECT is pending, their type is CONNACK and the fourth byte is 0 |
| Receive.ReadPacketsIsRun | esp/src/mqtt/mqtt.c:279-436 | on any bytes the callback is a sequence of allowed client steps, so the run theorems cover it |
| Receive.RepeatsForever | esp/src/mqtt/mqtt.c:349-427 | with a total of 0 modulo 65536 in front, any number of goto turns leaves the loop reading at the same place |
| Receive.EndsIff | esp/src/mqtt/mqtt.c:279-436 | the goto loop ends on received bytes if and only if the walk over their PUBLISH lengths meets no total of 0 modulo 65536, or they are not read at all |
| Receive.ReadPacketsIsTurns | esp/src/mqtt/mqtt.c:279-436 | the specified reading is the loop turn by turn, and reports an endless loop exactly on those bytes |
| Receive.CutPublish | esp/src/mqtt/mqtt.c:291-427 | a segment that ends inside the payload of a PUBLISH, of any length: acknowledged, delivered truncated, and where the reading goes on |
| Receive.CutEarly | esp/src/mqtt/mqtt.c:291-427 | a segment that ends between the length and the payload of a PUBLISH: acknowledged with the id the buffer shows, delivered without payload, and where the reading goes on |
| Receive.SpinsOn65536 | esp/src/mqtt/mqtt.c:349-427 | five received bytes on which the loop never ends |
| MqttClient.Client.constructor | esp/src/mqtt/mqtt.c:789-834 | the client starts in the initial state of every run |
| MqttClient.Client.QueueOrDrop | esp/src/mqtt/mqtt.c:592-599 | the four queueing calls are the enqueue step, and true means the packet is in the queue |
| MqttClient.Client.Publish | esp/src/mqtt/mqtt.c:578-601 | refused without a trace if it does not fit, else the exact packet is queued or refused by the ring |
| MqttClient.Client.Subscribe | esp/src/mqtt/mqtt.c:610-630 | the SUBSCRIBE packet is queued; one that does not fit is queued as an empty packet |
| MqttClient.Client.UnSubscribe | esp/src/mqtt/mqtt.c:638-656 | the same for UNSUBSCRIBE |
| MqttClient.Client.Ping | esp/src/mqtt/mqtt.c:663-683 | a PINGREQ is queued |
| MqttClient.Client.TcpClientDelete | esp/src/mqtt/mqtt.c:162-179 | the connection is gone and no callback of it can come |
| MqttClient.Client.OpenConnection | esp/src/mqtt/mqtt.c:858-906 | any old connection is dropped, counters restart, the state is connecting |
| MqttClient.Client.Connect | esp/src/mqtt/mqtt.c:858-906 | is the connect step and keeps the client's invariants |
| MqttClient.Client.Disconnect | esp/src/mqtt/mqtt.c:908-914 | is the disconnect step and keeps the client's invariants |
| MqttClient.Client.DeleteClient | esp/src/mqtt/mqtt.c:916-931 | is the delete step and keeps the client's invariants |
| MqttClient.Client.DnsFoundCb | esp/src/mqtt/mqtt.c:62-102 | a host not found asks for a reconnect, a usable address for a connection |
| MqttClient.Client.ConnectedCb | esp/src/mqtt/mqtt.c:514-547 | CONNECT goes out first on the new link if it can be printed; if not nothing does, and the pending type is what the buffer held before; ids restart |
| MqttClient.Client.ReconnectedCb | esp/src/mqtt/mqtt.c:554-566 | the link is down and a reconnect is asked for |
| MqttClient.Client.DisconnectedCb | esp/src/mqtt/mqtt.c:485-505 | the link is down; a wanted disconnect or deletion is completed, else a reconnect is asked for |
| MqttClient.Client.SentDataCb | esp/src/mqtt/mqtt.c:443-458 | the send timeout and the keep-alive counter go back to 0, nothing else changes |
| MqttClient.Client.TickCounters | esp/src/mqtt/mqtt.c:460-480 | the switch of the timer: the keep-alive or the reconnect counter advances and falls due |
| MqttClient.Client.TimerTick | esp/src/mqtt/mqtt.c:460-483 | a second passes: keep-alive due, reconnect due, send timeout down to 0 |
| MqttClient.Client.SendKeepalive | esp/src/mqtt/mqtt.c:121-155 | a PINGREQ goes out past the queue; success returns to MQTT_DATA, failure to reconnecting |
| MqttClient.Client.TakeOldest | esp/src/mqtt/mqtt.c:735-742 | QUEUE_Gets into the local buffer, with the byte the type is read from |
| MqttClient.Client.SendOldest | esp/src/mqtt/mqtt.c:728-752 | the oldest message goes out, or a torn ring is drained |
| MqttClient.Client.RunTask | esp/src/mqtt/mqtt.c:685-755 | is the task step in every state and keeps the client's invariants |
| MqttClient.Client.AnswerWith | esp/src/mqtt/mqtt.c:364-394 | the acknowledgement is put once, a full ring ignored |
| MqttClient.Client.DeliverPublish | esp/src/mqtt/mqtt.c:106-119 | one call of dataCb with the parsed topic and payload |
| MqttClient.Client.HandlePacket | esp/src/mqtt/mqtt.c:353-410 | the switch is the run of answers the specification lists, which `Receive.Handshakes` and `Receive.FrontPublish` pin down |
| MqttClient.Client.HandleConnack | esp/src/mqtt/mqtt.c:301-346 | the CONNACK step, which `Receive.ConnackOpens` pins down |
| MqttClient.Client.ReadPacket | esp/src/mqtt/mqtt.c:291-430 | one turn of the goto loop, and that what is left gets shorter |
| MqttClient.Client.Receive | esp/src/mqtt/mqtt.c:279-436 | the whole callback is the specified reading of the segment; it does not end if and only if the bytes hit a zero length |
| Schedule.GetDataFromBars | web/js/dataFunctions.js:28-41 | the loop keeps exactly the states whose temperature changes |
| Schedule.ChangesInForce | web/js/dataFunctions.js:28-41 | the change points mean what the states mean at every minute |
| Schedule.ChangesDiffer | web/js/dataFunctions.js:28-41 | no change point repeats the temperature before it |
| Schedule.PrepareDataForBars | web/js/dataFunctions.js:46-60 | the 48 bars of a day by the code's moving index |
| Schedule.BarIndexKeepsUp | web/js/dataFunctions.js:46-60 | on the half-hour grid the index, which moves at most one point a slot, is never late |
| Schedule.CurrentIffNotCrowded | web/js/dataFunctions.js:46-60 | off the grid: all slots show the last point not after them if and only if no two points lie between two slots |
| Schedule.LateBar | web/js/dataFunctions.js:46-60 | three points in half an hour for which a bar is late |
| Schedule.BarsOfDay | web/js/dataFunctions.js:105-150 | for a schedule on the grid the bars of each day show what the week has in force at each half hour |
| Schedule.FillMissingDays | web/js/dataFunctions.js:105-128 | for any points: every day of the week gets points; a missing one carries the last temperature before it, over the end too |
| Schedule.MakeBars | web/js/dataFunctions.js:130-150 | for any days: each in its own time, started with the last bar before it, as bars |
| Schedule.DayCarriesOn | web/js/dataFunctions.js:136-147 | for any days: one with no point at its start begins with the last bar of the day before, the first with the last point of all |
| Schedule.RowsOfWeek | web/js/dataFunctions.js:105-150 | for a schedule on the grid these rows are the seven days with what is in force |
| Schedule.IndexOfItem | web/js/dataFunctions.js:171-177 | an equal chart is found if there is one, else -1 |
| Schedule.GroupDays | web/js/dataFunctions.js:152-168 | every day has a chart, a chart has only days with its bars, and charts differ |
| Schedule.Page.GetStatesByDay | web/js/dataFunctions.js:105-169 | for any points, none included: the charts of the rows made of them; without points the default ones are shown and edited to the times of their own days |
| Schedule.OwnTimesTwice | web/js/dataFunctions.js:130-134 | a second edit changes nothing, and the first nothing exactly if all points lie on the first day |
| Schedule.DefaultMeans | web/js/dataFunctions.js:1 | the default schedule is 18 degrees for fifty hours, then 20 |
| Schedule.DefaultDrifts | web/js/dataFunctions.js:1-134 | the default schedule shows 18 degrees at two on the first day, and 20 when shown again |
| Schedule.GetDataForESP | web/js/dataFunctions.js:3-26 | the days' charts one after the other, reduced to change points |
| Schedule.ByDayIsLast | web/js/dataFunctions.js:3-11 | of the charts that have a day on the last one counts; a day on in none has no bars |
| Schedule.DataOfCharts | web/js/dataFunctions.js:3-26 | what is sent depends on the table the charts show, not on how days are grouped |
| Schedule.DataForESPCanonical | web/js/dataFunctions.js:3-41 | for any table the result starts at 0, increases, repeats no temperature, and shows the table again |
| Schedule.SameSchedule | web/js/dataFunctions.js:3-169 | through the charts and back a schedule means the same at every minute of the week, is canonical, and a second pass changes nothing |
| Schedule.ShownIsSaved | web/js/dataFunctions.js:3-169 | for any points of one week, unsorted or off the grid: what is sent back is canonical and shows the same bars again |
| Schedule.CanonicalUnique | web/js/dataFunctions.js:3-41 | canonical schedules that mean the same are equal |
| Schedule.UnchangedIffCanonical | web/js/dataFunctions.js:3-169 | the passes leave a schedule as it is if and only if it is canonical |
| ScheduleWire.GenerateResponse | web/js/dataFunctions.js:62-76 | the numbers sent: a count and two 16-bit numbers a point |
| ScheduleWire.ResponseAt | web/js/dataFunctions.js:62-76 | where each point stands in the numbers sent: time before temperature, high byte before low |
| ScheduleWire.ConvertBase64ToPoints | web/js/dataFunctions.js:82-103 | the points a byte string stands for, bytes past its end read as 0 |
| ScheduleWire.ParseResponse | web/js/dataFunctions.js:183-189 | for any bytes: the charts of the points received, or of the default ones |
| ScheduleWire.WireRoundTrip | web/js/dataFunctions.js:62-103 | the numbers read back as the points, and are bytes if and only if every number fits 16 bits |
| ScheduleWire.TableSurvives | web/js/dataFunctions.js:3-189 | a table comes back unchanged if and only if its temperatures lie between 0 and 655.35 degrees; otherwise no bytes at all show it |
| ScheduleWire.FrostIsLost | web/js/dataFunctions.js:62-103 | a week at minus one degree cannot be sent |
| Line.DrawLine | esp/src/u8glib/u8g_line.c:39-91 | draws the specified pixels, row, error and end column in 8 bits, for every pair of points |
| Line.DrawWalk | esp/src/u8glib/u8g_line.c:66-90 | the loop over the longer side computes the specified walk |
| Line.PreciseIff | esp/src/u8glib/u8g_line.c:66-89 | every pixel is within half a pixel of the ideal line if and only if every error tested fits 8 bits |
| Line.AllTestsFitIff | esp/src/u8glib/u8g_line.c:66-89 | the errors tested take every value of one class modulo the greatest common divisor of the deltas, so least and greatest decide |
| Line.PreciseExactly | esp/src/u8glib/u8g_line.c:66-89 | the same condition in closed form: two comparisons on the deltas and their greatest common divisor |
| Line.ExactSteps | esp/src/u8glib/u8g_line.c:66-89 | the row of every pixel of such a line in closed form: the nearest one, a half towards the start |
| Line.WrongTurn | esp/src/u8glib/u8g_line.c:84-89 | the first test that does not fit puts the next pixel too far off |
| Line.SmallDeltasFit | esp/src/u8glib/u8g_line.c:84-89 | enough for it: the shorter delta and the difference of the two are at most 128 |
| Line.NoOverflow | esp/src/u8glib/u8g_line.c:84-89 | with deltas of at most 128 the stored error itself never leaves 8 bits |
| Line.ShallowLineFails | esp/src/u8glib/u8g_line.c:84-89 | a line from (0,0) to (130,1) reaches row 2 |
| Line.OnePixelPerColumn | esp/src/u8glib/u8g_line.c:69-78 | one pixel for each column of the longer side, in order, only column 255 left out |
| Line.ReachesBothEnds | esp/src/u8glib/u8g_line.c:51-90 | with deltas of at most 128 and off column 255 the line goes from one end to the other |
| Line.PixelIsOnLine | esp/src/u8glib/u8g_line.c:78-90 | each pixel lies in the box of the ends and within half a pixel of the line through them, in either orientation |
| Pages.PageCount | esp/src/u8glib/u8g_page.c:62-79 | the number of pages is the least whose rows cover the display |
| Pages.PagesOfFit | esp/src/u8glib/u8g_page.c:54-79 | page i holds rows i * height to (i + 1) * height - 1 of the display, and there is no page after the last |
| Pages.TilesIff | esp/src/u8glib/u8g_page.c:54-79 | for every page and display height: some number of non-empty pages holds every row exactly once and no other row, if and only if the page is no higher than the display and the rows of all pages fit 8 bits |
| Pages.WrapSpoils | esp/src/u8glib/u8g_page.c:65-76 | otherwise the last page is empty or row 0 is shown again |
| Pages.ShortDisplayFits | esp/src/u8glib/u8g_page.c:62-79 | total height plus page height of at most 256 is enough |
| Pages.EndsIff | esp/src/u8glib/u8g_page.c:62-79 | the page loop ends if and only if the display height is at most 256 - gcd(page height, 256) |
| Pages.NeverEnds | esp/src/u8glib/u8g_page.c:62-79 | on a higher display there is always a next page, and it starts on a multiple of that divisor |
| PageBuffer.Buffer.Clear | esp/src/u8glib/u8g_pb16v1.c:51-60 | both halves of the buffer are dark |
| PageBuffer.Buffer.Plot | esp/src/u8glib/u8g_pb16v1.c:72-95 | exactly one pixel of the page changes, by its byte and mask |
| PageBuffer.Buffer.SetPixel | esp/src/u8glib/u8g_pb16v1.c:98-107 | clipping: a pixel off the page or past the width changes nothing |
| PageBuffer.Buffer.Set8Pixel | esp/src/u8glib/u8g_pb16v1.c:130-153 | exactly the pixels the message touches are painted where they lie on the page; `PageBuffer.Directions` says which they are |
| PageBuffer.Directions | esp/src/u8glib/u8g_pb16v1.c:130-153 | the pixels of a message: its lit bits, most significant first, to the right, down, to the left or up by its direction, modulo 256 |
| PageBuffer.Buffer.Draw | esp/src/u8glib/u8g_pb16v1.c:159-167 | a message paints what it touches on the page, the visibility filter notwithstanding |
| PageBuffer.Buffer.PageFirst | esp/src/u8glib/u8g_pb16v1.c:172-175 | a dark buffer on the first page |
| PageBuffer.Buffer.PageNext | esp/src/u8glib/u8g_pb16v1.c:176-180 | the next page with a dark buffer, or the end with the buffer kept |
| PageBuffer.YIntersectsExactly | esp/src/u8glib/u8g_pb.c:91-114 | the minimised test holds if and only if the page and the wrapping range of rows share a row |
| PageBuffer.NothingIsLost | esp/src/u8glib/u8g_pb.c:165-184 | a message with a lit pixel on a page row passes the filter, for every page and every wrap |
| PageBuffer.DrawScreen | esp/src/user/drawing.c:242-249 | the draw loop ends after all pages, and each buffer sent out shows its page of the full frame |
| PageBuffer.PagesMakeTheFrame | esp/src/u8glib/u8g_pb16v1.c:156-202 | the buffers together are the full frame: the bit of each pixel, by byte and mask, has the colour of the last operation that touches it |
| PageBuffer.LastOperationDecides | esp/src/u8glib/u8g_pb16v1.c:72-95 | the full frame: an operation gives its colour to what it touches and changes nothing else |
| Font.UnpackHead | esp/src/u8glib/u8g_font.c:279-335 | the glyph cache gets back the metrics that were packed, in formats 0, 1 and 2 |
| Font.HeaderInBytes | esp/src/u8glib/u8g_font.c:81-204 | the header in bytes: format, first and last encoding, where the letters A and a are |
| Font.RecordInBytes | esp/src/u8glib/u8g_font.c:279-335 | a record in bytes: which byte or half byte holds which metric, with signs, and where the data is |
| Font.StepOver | esp/src/u8glib/u8g_font.c:228-236 | the walk sees a missing glyph as such and steps over a record by its exact length |
| Font.OneReading | esp/src/u8glib/u8g_font.c:208-243 | the bytes of a font determine its glyphs |
| Font.U8g.GetGlyph | esp/src/u8glib/u8g_font.c:351-419 | with or without the jumps to 'A' and 'a': the record a search from the first one finds, or none, and the cache to match |
| Font.GetSize | esp/src/u8glib/u8g_font.c:208-243 | the walk ends exactly behind the last record |
| I2cMaster.Master.SetDC | esp/src/driver/i2c_master.c:28-45 | the levels on the wires, with SDA low as long as the other end holds it |
| I2cMaster.Master.Start | esp/src/driver/i2c_master.c:130-139 | from an idle bus one START is heard and nothing else |
| I2cMaster.Master.Stop | esp/src/driver/i2c_master.c:147-158 | one STOP is heard and the bus is idle |
| I2cMaster.Master.WriteByte | esp/src/driver/i2c_master.c:291-316 | the eight bits of the byte are heard, the most significant first |
| I2cMaster.Master.GetAck | esp/src/driver/i2c_master.c:187-204 | one clock with SDA released; the level of the other end is heard and returned |
| I2cMaster.Com.StartWrite | esp/src/u8glib/u8g_com_null.c:44-54 | START and the address word are heard; reports a refusal |
| I2cMaster.Com.WriteBytes | esp/src/u8glib/u8g_com_null.c:56-66 | the words up to the first refusal are heard; fails if and only if a byte was refused |
| I2cMaster.Com.WriteSeq | esp/src/u8glib/u8g_com_null.c:93-99 | one transfer is heard, SDA moves under a high SCL exactly twice, and the bus is idle again |
| I2cMaster.SentAllIff | esp/src/u8glib/u8g_com_null.c:56-66 | all bytes are sent if and only if none before the last is refused |
| I2cMaster.TransferIsHeard | esp/src/u8glib/u8g_com_null.c:93-99 | what is heard parses to the address word 0x78, the control byte and data; with all acknowledged exactly the data written |
| I2cMaster.TwoConditions | esp/src/driver/i2c_master.c:130-158 | a transfer has two conditions, its START and its STOP |
| I2cBus.ChangesAreConditions | esp/src/driver/i2c_master.c:28-45 | SDA moves under a high SCL once for each START or STOP heard (UM10204, section 3.1) |
| I2cBus.ShortWaveforms | esp/src/driver/i2c_master.c:130-158 | SDA falling under a high SCL is a START, rising a STOP, and a clock with SDA still is its bit |
| I2cBus.MostSignificantFirst | esp/src/driver/i2c_master.c:302-315 | the bits of a byte by their masks, the most significant first |
| I2cBus.ValueOfBits | esp/src/driver/i2c_master.c:302-315 | eight bits, most significant first, read back as the byte |
| I2cBus.MessageOfWords | esp/src/u8glib/u8g_com_null.c:93-99 | a message reads back as the words put into it |

## Left out

- The 1-Wire electrical layer: time slots, a stuck bus (a reset without presence while devices are there), devices that come or go during an enumeration. `LastFamilyDiscrepancy` is written as in the code, but nothing reads it.
- The table-driven `oneWire_crc8`, `oneWire_check_crc16`, and the scaling in `ds_read_temp`.
- `PROTO_Add` and `PROTO_Parse`, which the client does not use.
- SSL, `espconn`, DNS and WiFi are events and answers; the settings CONNECT is made of (`MQTT_InitClient`, `MQTT_InitLWT`) are fixed when the client is made.
- MqttMsg.Connection.Connect: the protocol name and level of `PROTOCOL_NAMEv311`, which the two device configurations define; the variant for MQTT 3.1 is not part of this model.
- MqttClient.Client.DeleteClient: does not model `mqtt_client_delete` freeing the buffers, or use of the client after it.
- MqttClient.Client.Receive: user callbacks do not call back into the client in the middle of a step; runs interleave whole steps in every order.
- MqttClient.Client.constructor: buffers of at most 16386 bytes, as many as a two-byte Remaining Length covers, and rings shorter than 32768 bytes, as the code's 16-bit counters need.
- Receive.SegmentHandled: PUBLISH packets are well formed and no longer than the buffer; Remaining Length fields of more than four bytes, and the 32-bit shifts they overflow, are not modelled.
- Proto.Parser.constructor: the flag `isBegin`, which `PROTO_Init` does not set, is an arbitrary argument `garbage`; a packet of length 0 leaves the type byte of `dataBuffer` stale, which is the ghost value `stale`.
- Schedule.Page.GetStatesByDay: of the point objects that `val.time -=` edits only those of `defaultData`, which outlive the call, are modelled; points are not before the start of the week, as the wire has no negative numbers, and `d3.nest` (3.5.6) gives days in ascending order.
- Schedule.GetDataForESP: charts enable days 0 to 6 only; a received point behind the week gives a chart for a later day, which is shown (`Schedule.Rows`) but not followed back.
- Receive.CutEarly: the cut lies behind the Remaining Length; a cut inside those at most four bytes is read as `Receive.ReadPackets` says, with no statement of its own.
- ScheduleWire.GenerateResponse: numbers are exact hundredths and minutes; JavaScript's rounding of `temp * 100` is not modelled, and base64 is taken as the identity on bytes.
- PageBuffer.DrawScreen: requires that the pages tile the display (see `Pages.TilesIff`) and a page height of at most 16, the height of this buffer; the commands the display driver sends around each buffer are not modelled.
- Font.U8g.GetGlyph: fonts are well formed: a jump offset is 0 or leads to its letter, which the font then has.
- I2cMaster.Com.WriteSeq: waiting times, `i2c_master_init` and reading are left out; lengths are below 256 as the message's 8-bit length makes them.
- Circles, ellipses, cursors, other page buffers, the SPI, UART, key and timer drivers, charts and Angular code.
