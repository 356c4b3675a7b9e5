# A verified model of esp_dmx's RDM core

esp_dmx sends and receives DMX512 and implements RDM (ANSI E1.20-2010) on top of it. This project models
version 4.1.0 of the library in Dafny and proves what its protocol code promises, over every input and
every run. `dafny verify dfyconfig.toml` checks all of it.

The model is in layers, each proved on top of the one below.

**Bytes and packets.** `Bytes`, `Uids`, `Formats`, `Encoding`, `Encoder`, `Packets`, `PacketIO`,
`RoundTrip`. A format string drives one routine that both serializes and deserializes parameter data.
Formats are an inductive datatype; `Encoding` says what one pass over a format writes, `Encoder` is the
loop with its moving cursors, and they are proved to agree. `Packets` and `PacketIO` do the same for
headers, checksums and discovery replies, whose bytes are sent twice, in complementary halves. `Layouts`
and `PacketLayouts` say what all this means without naming the routines: which strings are formats, and
which number stands where on the wire.

**The port.** `Drivers` is the state that the UART interrupt, the timer interrupt and the calls of tasks
share, and each of them as a step on it. `DriverIsr` is the structure that the library updates in place;
each of its methods is proved to be the step. `Runs` interleaves the steps in any order. `ReceiveRuns`,
`PacketRuns` and `Notices` prove what every run keeps of what is received, and `TransmitRuns`, `UartRuns`
and `ReplyRuns` of what is sent. `Turnarounds` joins the two: what goes out, when the bus is turned around
after it, and that the answer is received.

**The parameter table and the queue.** `Parameters` and `Queues` are values with their operations, and
what every run keeps; `ParameterCode` and `QueueCode` are the arrays that the library updates in place.

**The responder.** `Responders` handles the packet in the buffer, from the target check to the response;
`ResponderCode` does it in place. `ResponderRuns` proves when a response is sent, and that the handlers
are the responders of the discovery protocol. `Answers` gives every response to the byte. `SetGet` follows a value from a SET to a later GET.

**Discovery.** `Discovery` is the search over 48-bit addresses, as a loop over a stack and as the
recursion it stands for, against a bus about which nothing is assumed; `Controller` is the loop over the
array of 49 branches. `DiscoveryExact` and `DiscoveryWork` prove what is found, and at what cost, on a
bus that follows the protocol. `Wired` closes the circle: it wires a bus up from responders, packets and
the controller's reception (`Requests`), proves that this bus follows the protocol, and so that every
device is found. `Registration` shows that installing a driver makes such a responder.

## Where the code does something else

The model follows the code. Some promises do not hold of it as they stand; each is proved exactly where
it does hold, and a lemma shows where it does not.

- The queue's search compares its index with the head before it wraps. With the head at the start and
  the tail elsewhere it goes past the head, looks at slots that are no longer in use, and ends only if
  the PID is in one of them (`Queues.SearchEndsExactly`, `Queues.PushIsExactWhen`,
  `Queues.HeadCanBeSkipped`).
- A NACK to a DISC_UNIQUE_BRANCH request is written as a discovery reply, as its PID and command class
  are those of one. A muted device, or one out of range, thus answers a request that is addressed to it
  and not broadcast, that is for a sub-device, or that is too long (`ResponderRuns.BranchIsAnsweredExactly`).
- A discovery reply is sent in order and once if and only if the timer is not running at the call;
  otherwise its alarm starts the reply again (`ReplyRuns.ReplyIsConservedExactly`, `ReplyRuns.TimerCanRun`).
- A transmission ends too early if slots are put into the UART while its flag that the transmission is
  done is latched, and are not all that is left. It is latched if the UART runs dry with more slots left
  than it has room for (`UartRuns.WholeUnlessCutShort`, `UartRuns.WholeUnlessDry`,
  `UartRuns.TransmissionCanEndEarly`).
- A task that is told of one packet marks whatever is under way by then as taken, so that the next packet
  can be lost; so does a call that asks for another size of which as much has come. A packet is declared
  if and only if neither happens while it is under way (`PacketRuns.PacketIsDeclaredExactly`,
  `PacketRuns.AdaptedPacketCanBeLost`).
- A receive call reads the size expected and stores it again later. A break in between adapts the size,
  and the call undoes that: the size stays adapted only while no other is asked for
  (`PacketRuns.LaterPacketsEndAtSlotN`, `PacketRuns.AdaptationCanBeUndone`).
- The break interrupt reads no more than the buffer has room for, and does not empty the UART. If the last
  slot of a full packet comes with the null byte of the next break, the packet is declared too short, and
  the null byte is taken for the start of the next one, whose header is then not found
  (`ReceiveRuns.BreakEmptiesUart`, `ReceiveRuns.StandardPacketIsReceived`, `PacketRuns.BreakAdaptsExactly`,
  `PacketRuns.FullPacketLeavesItsNull`, `PacketRuns.NextPacketIsShifted`).
- The validator accepts format tokens in upper case, the serializer does not know them
  (`Encoding.ValidFormatsEncode`).
- The command class test shifts an 8-bit value by 8, so that it looks at the low four bits only
  (`Packets.CcTestIsTooWide`).
- A parameter that could not be stored is forgotten until it is set again (`Parameters.LostUntilSet`,
  `Parameters.FailedStoreLosesTheValue`).
- A response with 230 bytes of parameter data is written and then replaced by a NACK, so that a SET of
  230 bytes is stored but cannot be read back (`SetGet.GetSends`, `SetGet.SetThenGet`).
- Restoring the buffer after a request restores as many bytes as the request has; the end of a longer
  response stays (`Requests.SendRequest`, `Requests.RestoreUndoes`).

## Model

| member | source | states |
|---|---|---|
| `Uids.OrderIsAddressOrder` | components/esp_dmx-4.1.0/src/rdm/include/uid.h:24-58 | the field-wise comparisons of UIDs are the order of 48-bit addresses, and two UIDs are equal exactly when their addresses are |
| `Uids.AddressPredicatesAgree` | components/esp_dmx-4.1.0/src/rdm/include/uid.h:89-119 | the broadcast and target tests on UIDs are the tests on addresses that the protocol proofs use |
| `Uids.ReachesAtOrBelow` | components/esp_dmx-4.1.0/src/rdm/include/uid.h:114-119 | a packet addressed below the all-devices broadcast reaches no device above its own address; a manufacturer broadcast is that manufacturer's last address |
| `Uids.ValueRoundTrip` | components/esp_dmx-4.1.0/src/rdm/controller/discovery.c:154-169 | the casts with which a midpoint is split into the two fields of a UID lose nothing |
| `Discovery.StepDecreases` | components/esp_dmx-4.1.0/src/rdm/controller/discovery.c:89-175 | on any bus, each round lowers the sum of 2 * width - 1 over the stack, so the search ends |
| `Discovery.EveryRunIsTiled` | components/esp_dmx-4.1.0/src/rdm/controller/discovery.c:63-75 | on any bus, after any number of rounds, at most 49 slots are used, slot i is at most 2^(48 - i) wide, and the ranges are contiguous, disjoint, and end at the largest UID |
| `Discovery.SplitKeepsBounded` | components/esp_dmx-4.1.0/src/rdm/controller/discovery.c:151-171 | overwriting the popped slot with the upper half and pushing the lower half keeps the width bound of every slot |
| `Discovery.FullStackEndsInAddress` | components/esp_dmx-4.1.0/src/rdm/controller/discovery.c:94-96 | when all 49 slots are in use, the top one is a single address, so nothing more is pushed |
| `Discovery.JammedBusDescends` | components/esp_dmx-4.1.0/src/rdm/controller/discovery.c:89-175 | on a bus that always answers, the search goes straight down: after n rounds there are n + 1 ranges |
| `Discovery.AllSlotsAreNeeded` | components/esp_dmx-4.1.0/src/rdm/controller/discovery.c:63-69 | the bound of 49 slots is tight: there is a bus on which all of them are in use |
| `Discovery.IterativeIsRecursive` | components/esp_dmx-4.1.0/src/rdm/controller/include/discovery.h:105-112 | the iterative search makes the same requests and reports the same addresses, in the same order, as the recursive search that splits a range in half, against any bus |
| `Discovery.FinishIsSearch` | components/esp_dmx-4.1.0/src/rdm/controller/discovery.c:89-175 | what is left to do for a whole stack is what the recursive search does for its ranges, from the top down |
| `DiscoveryExact.MuteVisit` | components/esp_dmx-4.1.0/src/rdm/controller/discovery.c:94-107 | handling a single address reports and mutes the device there, if there is one, and mutes no device above, although the request may be a manufacturer broadcast |
| `DiscoveryExact.SearchVisit` | components/esp_dmx-4.1.0/src/rdm/controller/discovery.c:108-114 | a range is given up only if no device that was un-muted is in it, and searching it changes no mute flag |
| `DiscoveryExact.EveryRunIsExact` | components/esp_dmx-4.1.0/src/rdm/controller/discovery.c:85-175 | after any number of rounds, of the devices below the range on top all that the first request un-muted were reported, in ascending order, and these devices are muted; the others have the flag they had after the first request |
| `DiscoveryExact.MutedExactlyWhenReported` | components/esp_dmx-4.1.0/src/rdm/controller/discovery.c:94-107 | in every run a device is muted if and only if it was reported, or the first request did not un-mute it |
| `DiscoveryExact.DiscoveryFindsAll` | components/esp_dmx-4.1.0/src/rdm/controller/discovery.c:85-184 | for any finite set of devices, if one of three equal requests gets through, every device that the first request un-muted is reported once, in ascending order, and nothing but devices is; if all were un-muted, the count is the number of devices |
| `DiscoveryWork.ThreeRequestsPerRange` | components/esp_dmx-4.1.0/src/rdm/controller/discovery.c:97-112 | a range costs at most three requests |
| `DiscoveryWork.SplitsPerDevice` | components/esp_dmx-4.1.0/src/rdm/controller/discovery.c:151-172 | without noise, at most 48 ranges are split for each device |
| `DiscoveryWork.WorkIsBounded` | components/esp_dmx-4.1.0/src/rdm/controller/discovery.c:89-175 | without noise, n devices cost at most 1 + 96n ranges and 4 + 288n requests |
| `Controller.PushHalves` | components/esp_dmx-4.1.0/src/rdm/controller/discovery.c:151-172 | overwriting the popped slot in place leaves the upper half in it, the lower half above it, and the slots below alone |
| `Controller.Port.MuteDevice` | components/esp_dmx-4.1.0/src/rdm/controller/discovery.c:97-99 | the retry loop is the specification's attempt |
| `Controller.Port.SearchBranch` | components/esp_dmx-4.1.0/src/rdm/controller/discovery.c:110-112 | the retry loop is the specification's attempt |
| `Controller.Port.VisitTop` | components/esp_dmx-4.1.0/src/rdm/controller/discovery.c:91-174 | a round over the array of branches is a round of the specification, and never needs a 50th slot |
| `Controller.Port.DiscoverWithCallback` | components/esp_dmx-4.1.0/src/rdm/controller/discovery.c:57-184 | the loop over the array of 49 branches calls the callback with what the recursive search finds, and in its order |
| `Controller.Context.Callback` | components/esp_dmx-4.1.0/src/rdm/controller/discovery.c:191-197 | the default callback keeps the first UIDs reported, in order, and touches nothing beyond the array's stated size |
| `Controller.Port.DiscoverDevicesSimple` | components/esp_dmx-4.1.0/src/rdm/controller/discovery.c:199-208 | on a bus that follows the protocol the array holds devices in ascending order, and if all were un-muted the result is their number |
| `Requests.SendRequest` | components/esp_dmx-4.1.0/src/rdm/controller/utils.c:10-177 | how a call ends: no reply for a broadcast, a failed send or silence; otherwise invalid, acknowledged or another type by the header received; the bytes of the request are written back over the buffer in every case |
| `Requests.RequestOnWire` | components/esp_dmx-4.1.0/src/rdm/controller/utils.c:40-60 | what a request is on the wire: its header is addressed to the destination, comes from this device, has transaction number, port, sub-device, command class and PID of the request, and its data follow |
| `Requests.RestoreUndoes` | components/esp_dmx-4.1.0/src/rdm/controller/utils.c:54-92 | writing the old bytes back restores the buffer, if and only if nothing was changed beyond them |
| `Requests.ReadResponse` | components/esp_dmx-4.1.0/src/rdm/controller/utils.c:116-177 | a response whose header is unreadable, or whose type is unknown, is invalid; only an acknowledgement gives a result other than 0 |
| `Requests.ResponseIsInterpreted` | components/esp_dmx-4.1.0/src/rdm/controller/utils.c:116-177 | for any standard packet received: type 0 is an acknowledgement by its sender, whose result is the length of its data or 1; types 1 to 3 are no acknowledgement and others invalid, with the result 0 |
| `Wired.DiscoveryReplyIsAck` | components/esp_dmx-4.1.0/src/rdm/controller/utils.c:116-162 | a discovery reply that has lost any part of its preamble is taken for an acknowledgement by its sender |
| `Wired.FlagDispatchIsAck` | components/esp_dmx-4.1.0/src/rdm/responder/discovery.c:43-76 | what a device sends after a mute request is an acknowledgement in a standard packet, from its own UID |
| `Wired.OnlyAddresseeSends` | components/esp_dmx-4.1.0/src/rdm/responder.c:31-51 | a mute request that is no broadcast is answered by no device but the one addressed |
| `Wired.RequestIsWritten` | components/esp_dmx-4.1.0/src/rdm/controller/discovery.c:9-55 | the packets that the devices of the end-to-end theorem receive are those that the request routine writes for the three discovery requests, and it waits for a response after the same ones |
| `Wired.Perceived` | components/esp_dmx-4.1.0/src/rdm/controller/utils.c:116-162 | what one device alone sends reaches the controller as its acknowledgement |
| `Wired.WireFollows` | components/esp_dmx-4.1.0/src/rdm/controller/discovery.c:57-184 | devices that run the handlers, and a controller that receives what they send, meet everything the discovery theorem assumes of a bus |
| `Wired.EveryDeviceIsFound` | components/esp_dmx-4.1.0/src/rdm/controller/discovery.c:57-184 | end to end, from packets to the callback: every device that hears the first request is found, once and in ascending order, and nothing but devices, even if up to two of three equal requests or replies are lost |
| `Wired.LossFreeIsWired` | components/esp_dmx-4.1.0/src/rdm/responder/discovery.c:11-47 | a bus that loses nothing meets what is assumed of a bus |
| `Bytes.HalvesRestore` | components/esp_dmx-4.1.0/src/rdm/driver.c:260-271 | the two halves in which a byte is sent give it back by a bitwise and, and add up to the byte and 0xff |
| `Bytes.ComplementSum` | components/esp_dmx-4.1.0/src/rdm/driver.c:260-264 | for any two complementary masks, the two masked copies of a byte add up to the byte and the full mask |
| `Bytes.HalvesKeepBits` | components/esp_dmx-4.1.0/src/rdm/driver.c:260-264 | the first half of a byte has all odd bits set, the second all even ones, and the other bits are those of the byte |
| `Formats.FormatIsValid` | components/esp_dmx-4.1.0/src/rdm/driver.c:311-395 | a format is accepted if and only if it has no stray character and describes between 1 and 231 bytes |
| `Encoding.ValidFormatsEncode` | components/esp_dmx-4.1.0/src/rdm/driver.c:21-107 | over an accepted format a pass writes at most 231 bytes, and meets an unknown token if and only if one is in upper case |
| `Encoding.PassFits` | components/esp_dmx-4.1.0/src/rdm/driver.c:21-107 | a pass writes no more than the format's size, and a string's terminating null |
| `Encoding.RepeatingPass` | components/esp_dmx-4.1.0/src/rdm/driver.c:21-107 | a pass over an unterminated format uses up exactly one format's worth of the source, so repeated passes end |
| `Encoding.PassRoundTrip` | components/esp_dmx-4.1.0/src/rdm/driver.c:21-107 | deserializing what was serialized gives back the source as the format describes it, for every lower-case format whose literals are in place, whatever follows in the buffer |
| `Encoding.SwapAllTwice` | components/esp_dmx-4.1.0/src/rdm/driver.c:36-90 | over fixed-size fields, serializing twice is the identity if and only if the source holds the format's literals |
| `Encoding.EncodeTwice` | components/esp_dmx-4.1.0/src/rdm/driver.c:13-108 | over formats of fixed-size fields, terminated or not, serializing twice is the identity, for any number of passes, if and only if the data hold the literals of the format on every pass |
| `Layouts.EveryFieldIsOnWire` | components/esp_dmx-4.1.0/src/rdm/driver.c:21-107 | for any format, and any pass over it, what is written for a field is the big-endian form of the number that is at the same place in memory in little-endian form, a UID being two numbers; for a literal it is that byte |
| `Layouts.PassPutsEnd` | components/esp_dmx-4.1.0/src/rdm/driver.c:55-82 | after its fields a pass writes what its terminator stands for: a UID unless it is null, the characters of a string up to its null and at most 32, nothing for "$"; nulls only if asked for |
| `Layouts.NumbersOnWire` | components/esp_dmx-4.1.0/src/rdm/driver.c:45-54 | a word or a dword, as it is in memory, goes to the wire as bytes that are read there as the same number |
| `Layouts.TokenOnWire` | components/esp_dmx-4.1.0/src/rdm/driver.c:40-98 | which character stands for which field: "b", "w" and "d" for numbers of 1, 2 and 4 bytes, "u" for a UID, "x" and two digits for a byte |
| `Layouts.FormatGrammar` | components/esp_dmx-4.1.0/src/rdm/driver.c:311-395 | the grammar of formats: a string is valid if and only if it is tokens, and then nothing, or a terminator that nothing but "$" follows, and it lays out 1 to 231 bytes |
| `Layouts.EveryStringIsSpelled` | components/esp_dmx-4.1.0/src/rdm/driver.c:311-395 | every string is of the form that the grammar speaks of |
| `Encoder.FormatEncode` | components/esp_dmx-4.1.0/src/rdm/driver.c:13-108 | the loop over the format string writes the specified bytes at the destination, changes nothing else, and returns their number |
| `Encoder.FormatEncodeOnce` | components/esp_dmx-4.1.0/src/rdm/driver.c:22-104 | one pass of the loop writes what one pass of the specification writes |
| `Packets.HeaderSerializes` | components/esp_dmx-4.1.0/src/rdm/driver.c:276-279 | the header's format string puts the structure in memory on the wire in the standard's byte order |
| `Packets.HeaderRoundTrip` | components/esp_dmx-4.1.0/src/rdm/driver.c:120-143 | every field of a header is read back as it was written |
| `Packets.ChecksumNeverOverflows` | components/esp_dmx-4.1.0/src/rdm/driver.c:298-303 | the 16-bit sum of a packet never overflows |
| `Packets.CcTestIsTooWide` | components/esp_dmx-4.1.0/src/rdm/include/types.h:28 | the command class test looks at the low nibble only, so that it accepts more than the command classes |
| `Packets.PacketRoundTrip` | components/esp_dmx-4.1.0/src/rdm/driver.c:110-143 | a packet is accepted, and its header read back, whatever follows it in the buffer |
| `PacketLayouts.StandardLayout` | components/esp_dmx-4.1.0/src/rdm/driver.c:276-304 | where everything is in a standard packet, by the numbers of its slots, and the sum of all slots before it in the last two |
| `PacketLayouts.HeaderIsReadExactly` | components/esp_dmx-4.1.0/src/rdm/driver.c:116-143 | in a buffer that begins with the start code of RDM a header is read if and only if the sub-start code follows and the checksum is the sum of all slots before it; with any other first slot but that of a discovery reply, none is |
| `PacketLayouts.OneWrongSlotIsFound` | components/esp_dmx-4.1.0/src/rdm/driver.c:121-128 | of a standard packet with any one slot after its length wrong, data or checksum, no header is read, whatever follows |
| `Packets.SumsAgree` | components/esp_dmx-4.1.0/src/rdm/driver.c:259-264 | the sender's sum of each byte and 0xff is the receiver's sum of the encoded bytes |
| `Packets.DiscoveryRoundTrip` | components/esp_dmx-4.1.0/src/rdm/driver.c:144-188 | a discovery reply with 0 to 7 preamble bytes left is accepted, its UID read back, and its length is the preamble and 17 |
| `PacketLayouts.ReplyLayout` | components/esp_dmx-4.1.0/src/rdm/driver.c:241-272 | where everything is in a discovery reply: preamble, delimiter, the bytes of the UID in two slots each, and the sum of these slots in four |
| `PacketLayouts.ReplyIsReadExactly` | components/esp_dmx-4.1.0/src/rdm/driver.c:144-188 | a discovery reply is read if and only if a delimiter is among the first eight slots and the sum of the twelve after it is what the next four hold |
| `PacketIO.ReadPacketHeader` | components/esp_dmx-4.1.0/src/rdm/driver.c:110-192 | the code that reads a header is the specified reading |
| `PacketIO.ReadPd` | components/esp_dmx-4.1.0/src/rdm/driver.c:194-217 | what is returned, and what is put in the destination: nothing if the length is 0 or more than 231 |
| `PacketIO.Write` | components/esp_dmx-4.1.0/src/rdm/driver.c:219-309 | a packet that fails a check leaves the buffer alone; any other is at the start of the buffer, and nothing else changes |
| `PacketIO.WriteStandard` | components/esp_dmx-4.1.0/src/rdm/driver.c:275-306 | header, data and checksum are written, with both lengths corrected when the data came out shorter than stated |
| `PacketIO.WriteReply` | components/esp_dmx-4.1.0/src/rdm/driver.c:247-274 | a discovery reply is written with seven preamble bytes |
| `RoundTrip.WrittenIsLegal` | components/esp_dmx-4.1.0/src/rdm/driver.c:219-244 | every packet that is written has right lengths, a legal sub-device and command class nibble, and a port if it is a request, or one of four types if it is a response |
| `RoundTrip.WriteThenReadFixed` | components/esp_dmx-4.1.0/src/rdm/driver.c:219-309 | for every header accepted and every format of fixed-size fields that the data fit, reading gives the same header, and the same data if and only if they hold the literals of the format on every pass |
| `RoundTrip.WriteThenReadTerminated` | components/esp_dmx-4.1.0/src/rdm/driver.c:194-217 | for every format that ends in an optional UID, a string or "$", reading into a destination that has room for what is on the wire gives the data as the format describes them, and the header has the length they took on the wire |
| `DriverIsr.DmxDriver.ReadFifo` | components/esp_dmx-4.1.0/src/dmx/hal/uart.c:57-80 | bytes go to the buffer while there is room, and are counted in any case |
| `DriverIsr.DmxDriver.ParsePacket` | components/esp_dmx-4.1.0/src/dmx/hal/uart.c:138-243 | the branches of the interrupt routine that classify a packet are the specified verdict and record |
| `DriverIsr.DmxDriver.RxInterrupt` | components/esp_dmx-4.1.0/src/dmx/hal/uart.c:56-261 | the receive branch of the interrupt routine is a step of the specification, including what the waiting task is told |
| `DriverIsr.DmxDriver.TxDataInterrupt` | components/esp_dmx-4.1.0/src/dmx/hal/uart.c:264-275 | the transmit branch is a step of the specification |
| `DriverIsr.DmxDriver.TxDoneInterrupt` | components/esp_dmx-4.1.0/src/dmx/hal/uart.c:276-321 | the end of a transmission, with the bus turned around if a response is expected, is a step of the specification |
| `DriverIsr.DmxDriver.TimerInterrupt` | components/esp_dmx-4.1.0/src/dmx/hal/timer.c:19-59 | the timer routine is a step of the specification |
| `DriverIsr.DmxDriver.SendNum` | components/esp_dmx-4.1.0/src/dmx/io.c:299-460 | the call that sends is a step of the specification, and returns the packet's size |
| `DriverIsr.DmxDriver.ReceiveNum` | components/esp_dmx-4.1.0/src/dmx/io.c:149-172 | the start of a receive call is a step of the specification |
| `DriverIsr.DmxDriver.ReadOffset` | components/esp_dmx-4.1.0/src/dmx/io.c:14-34 | as many bytes as the buffer has are copied, and no more |
| `DriverIsr.DmxDriver.WriteOffset` | components/esp_dmx-4.1.0/src/dmx/io.c:55-97 | bytes are clamped to the buffer and written, and their number returned, unless an RDM packet is being sent, when nothing is and the number is 0 |
| `ReceiveRuns.ReceiveConserves` | components/esp_dmx-4.1.0/src/dmx/hal/uart.c:57-80 | after a break, for any interrupts and errors, the buffer holds the first bytes, at most 513, in order, of what the break left in the UART followed by what is received; each is counted in `head` or still in the UART |
| `ReceiveRuns.FillKeepsStored` | components/esp_dmx-4.1.0/src/dmx/hal/uart.c:460-468 | each read keeps the buffer a prefix of what was received, before and after it is full |
| `ReceiveRuns.VerdictReadsReceived` | components/esp_dmx-4.1.0/src/dmx/hal/uart.c:126-249 | for any bytes at all, the verdict depends on those received only, not on what earlier packets left in the buffer, and is that the packet is complete from one number of bytes on |
| `ReceiveRuns.VerdictAtInterrupt` | components/esp_dmx-4.1.0/src/dmx/hal/uart.c:126-260 | an interrupt declares the packet exactly if the bytes received so far reach the number at which it ends, whatever they are |
| `ReceiveRuns.StandardPacketIsFramed` | components/esp_dmx-4.1.0/src/dmx/hal/uart.c:182-235 | a standard packet ends at the last byte of its checksum, however many slots are expected and whatever follows |
| `ReceiveRuns.DamagedPacketIsFramed` | components/esp_dmx-4.1.0/src/dmx/hal/uart.c:197-202 | a standard packet with a wrong checksum is taken for a packet that is not RDM once it has come in full |
| `ReceiveRuns.MalformedPacketIsFramed` | components/esp_dmx-4.1.0/src/dmx/hal/uart.c:189-196 | one with a wrong sub-start code, command class or length is so taken from 26 bytes on |
| `ReceiveRuns.DiscoveryReplyIsFramed` | components/esp_dmx-4.1.0/src/dmx/hal/uart.c:147-181 | a discovery reply ends at its last byte, whatever is left of its preamble and however many slots are expected |
| `ReceiveRuns.MalformedReplyIsFramed` | components/esp_dmx-4.1.0/src/dmx/hal/uart.c:150-178 | what begins like a discovery reply and is none is so taken: from 17 bytes on without a delimiter, from 25 after eight preamble bytes, once it has come in full with a wrong checksum |
| `ReceiveRuns.PlainPacketIsFramed` | components/esp_dmx-4.1.0/src/dmx/hal/uart.c:236-245 | a packet that is not RDM ends at the slot that makes it as long as expected, and no header is read from it |
| `ReceiveRuns.LeftBytesHideThePacket` | components/esp_dmx-4.1.0/src/dmx/hal/uart.c:95-101 | after bytes that a break left in the UART and that no RDM packet begins with, the end of a standard packet is found if and only if as many slots are expected as come in all |
| `ReceiveRuns.PacketEndsAtItsLastByte` | components/esp_dmx-4.1.0/src/dmx/hal/uart.c:102-113 | however the bytes of a packet, of any kind, are split over interrupts, and whatever the break left in the UART, its end is declared without an error at the first interrupt by which the byte has come at which it ends, and at no other |
| `ReceiveRuns.StandardPacketIsReceived` | components/esp_dmx-4.1.0/src/dmx/hal/uart.c:182-235 | however a packet written by a standard sender is split, and given that no RDM packet begins with what the break left in the UART: it is declared and read back with its header and data if and only if nothing was left |
| `ReceiveRuns.DiscoveryReplyIsReceived` | components/esp_dmx-4.1.0/src/dmx/hal/uart.c:300-319 | after a DISC_UNIQUE_BRANCH request was sent, a discovery reply is awaited without a break, and read however it is split |
| `ReceiveRuns.BreakEmptiesUart` | components/esp_dmx-4.1.0/src/dmx/hal/uart.c:57-101 | whatever the state, a break leaves the UART empty if and only if the UART did not hold more than the buffer had room for |
| `ReceiveRuns.SizeAdapts` | components/esp_dmx-4.1.0/src/dmx/hal/uart.c:83-93 | a plain packet of fewer slots than expected is ended by the next break, with an error, and its length becomes the size expected |
| `PacketRuns.PacketIsDeclaredExactly` | components/esp_dmx-4.1.0/src/dmx/hal/uart.c:108-260 | whatever bytes come, however they are split, whatever errors interrupts report, and whatever packets tasks ask for, wait for and take: the end is declared at the first interrupt that sees an error or a full packet, if and only if no task took a packet since it began, or asked for another size that had come by then; at no other event |
| `PacketRuns.StandardPacketIsDeclaredExactly` | components/esp_dmx-4.1.0/src/dmx/hal/uart.c:182-260 | a standard packet is declared at the interrupt that delivers its last byte, or at an error before, if and only if no task took a packet since it began, or asked for another size that had come by then |
| `PacketRuns.DiscoveryReplyIsDeclaredExactly` | components/esp_dmx-4.1.0/src/dmx/hal/uart.c:147-181 | so is a discovery reply, however much of its preamble is left |
| `PacketRuns.NothingIsNoPacket` | components/esp_dmx-4.1.0/src/dmx/hal/uart.c:236-245 | an interrupt that finds nothing sees no packet, whatever is left in the buffer, if and only if at least one slot is expected |
| `PacketRuns.TakingLosesPacket` | components/esp_dmx-4.1.0/src/dmx/io.c:149-172 | a packet under way when a task takes one (264-267), or asks for another size that has come, is never declared |
| `PacketRuns.BreakAdaptsExactly` | components/esp_dmx-4.1.0/src/dmx/hal/uart.c:57-105 | a break awaits the next packet whatever happened before, leaves in the UART exactly what the buffer had no room for, and changes the size expected if and only if the packet was under way, interrupted at least once, not complete and not given up: to the number of bytes the buffer took, at most 513, less one |
| `PacketRuns.DeclaredPacketKeepsSize` | components/esp_dmx-4.1.0/src/dmx/hal/uart.c:83-93 | a packet whose end was declared is not cut short: the break after it keeps the size expected |
| `PacketRuns.FullPacketIsOfItsSize` | components/esp_dmx-4.1.0/src/dmx/hal/uart.c:83-93 | a packet of n slots and the null byte of its break leaves n slots expected, wherever it is split and whether or not it is taken, if n is less than 513 or the buffer was full before the break |
| `PacketRuns.LaterPacketsEndAtSlotN` | components/esp_dmx-4.1.0/src/dmx/hal/uart.c:236-245 | once n slots are expected that stays so while no packet, of whatever kind, is cut short to another size and no other size is asked for; each later packet that is not RDM is declared at exactly its n-th slot, or at an error before, if and only if no task takes a packet between its break and that slot, however many packets came before or were lost |
| `PacketRuns.AdaptedPacketCanBeLost` | components/esp_dmx-4.1.0/src/dmx/io.c:238-267 | the task that is told of the packet cut short can take it while the next is under way, and that one is then lost |
| `PacketRuns.AdaptationCanBeUndone` | components/esp_dmx-4.1.0/src/dmx/io.c:285-297 | a receive call that read the size before the break asks for that many slots after it; then the end of an n-slot packet is not declared, although nothing is taken |
| `PacketRuns.FullPacketLeavesItsNull` | components/esp_dmx-4.1.0/src/dmx/hal/uart.c:57-101 | a run from an installed driver: a packet of 513 slots, the last of which comes with the null byte of the next break, is declared too short, 512 slots are expected from then on, and the null byte stays in the UART |
| `PacketRuns.NextPacketIsShifted` | components/esp_dmx-4.1.0/src/dmx/hal/uart.c:57-101 | a standard packet after that is stored behind the null byte, is not declared when it has come, and its header is not read |
| `Notices.OnlyArmedPortsDeclare` | components/esp_dmx-4.1.0/src/dmx/hal/uart.c:110-113 | a packet's end is declared only while a packet is being received, and declaring it ends that state, unless a new packet begins |
| `Notices.DeclaringStopsTimer` | components/esp_dmx-4.1.0/src/dmx/hal/uart.c:247-260 | a packet that is declared other than by a break leaves the port idle and the timer stopped; only a controller's wait starts the timer |
| `Notices.AtMostOneNoticePerPacket` | components/esp_dmx-4.1.0/src/dmx/hal/uart.c:252-260 | between any two notices of the receive path there is a break, or the end of a DISC_UNIQUE_BRANCH transmission, whatever calls, alarms and interrupts are interleaved |
| `Runs.StepKeepsConsistent` | components/esp_dmx-4.1.0/src/dmx/io.c:429-455 | whatever can happen to a port keeps this: one that sends does not read and has sent at most the packet, and one that does not send has no transmit interrupt enabled |
| `Runs.EveryRunIsConsistent` | components/esp_dmx-4.1.0/src/dmx/driver.c:164-175 | a driver that was just installed is consistent, and so is every state of every run |
| `TransmitRuns.TransmitConserves` | components/esp_dmx-4.1.0/src/dmx/io.c:429-455 | over a whole transmission, for any room in the UART at each interrupt, the bus has seen a break, unless the packet is a discovery reply, and then slots of the packet in order and once each, as many as there was room offered, or all |
| `TransmitRuns.WholePacketIsSent` | components/esp_dmx-4.1.0/src/dmx/hal/uart.c:264-278 | when the transmission ends, exactly the whole packet was sent if and only if the UART offered room for all of it before the interrupt that ends it |
| `Turnarounds.StandardGoesOut` | components/esp_dmx-4.1.0/src/dmx/io.c:395-403 | a standard packet in the buffer goes out as it is, after a break, whatever size is asked for |
| `Turnarounds.ReplyGoesOut` | components/esp_dmx-4.1.0/src/dmx/io.c:395-403 | a discovery reply in the buffer goes out as it is, without a break |
| `Turnarounds.SlotsGoOut` | components/esp_dmx-4.1.0/src/dmx/io.c:403-405 | of a packet that is not RDM, exactly as many slots go out as are asked for, from 1 to 513, and otherwise all |
| `UartRuns.WholeUnlessCutShort` | components/esp_dmx-4.1.0/src/dmx/hal/uart.c:264-282 | whatever is in the queue of the UART and whether its flag is latched at the call: the whole packet is sent if and only if slots are put in while the flag is latched only when they are all that is left |
| `UartRuns.WholeUnlessDry` | components/esp_dmx-4.1.0/src/dmx/hal/uart.c:264-282 | with a flag that is clear at the call: the whole packet is sent if and only if the UART never runs dry with more slots left than it has room for |
| `UartRuns.TransmissionCanEndEarly` | components/esp_dmx-4.1.0/src/dmx/hal/uart.c:264-282 | a run from an installed driver in which the interrupt for more slots is late, and only part of a packet of 513 slots is sent |
| `UartRuns.LatchedFlagCutsShort` | components/esp_dmx-4.1.0/src/dmx/hal/uart.c:276-279 | with a flag left latched by the last transmission and an empty queue, the next packet is sent whole if and only if it has no more slots than the UART has room for |
| `ReplyRuns.ReplyIsConservedExactly` | components/esp_dmx-4.1.0/src/dmx/hal/timer.c:29-47 | a discovery reply is sent in order and once, for every room and every interleaving, if and only if the timer is not running at the call |
| `ReplyRuns.RunningTimerRepeatsReply` | components/esp_dmx-4.1.0/src/dmx/hal/timer.c:36-47 | the alarm of a timer that is running starts the reply again |
| `ReplyRuns.TimerCanRun` | components/esp_dmx-4.1.0/src/dmx/io.c:230-255 | a run from an installed driver, with a packet sent and a wait given up, after which the timer runs when a task writes a reply |
| `Turnarounds.BusIsTurnedExactly` | components/esp_dmx-4.1.0/src/dmx/hal/uart.c:276-321 | at the end of a transmission the bus is turned to reading if and only if the packet in the buffer at the call is an RDM request, with a PID, that is no broadcast or a DISC_UNIQUE_BRANCH; after the latter the port is ready for slots at once, else it waits for a break; what is remembered of the packet is what its header says |
| `Turnarounds.ResponderTurnsBusItself` | components/esp_dmx-4.1.0/src/rdm/responder.c:123-129 | after a response the bus stays turned to sending until the call of the responder turns it, and then the port waits for a break |
| `Turnarounds.RequestIsListenedFor` | components/esp_dmx-4.1.0/src/rdm/controller/utils.c:77-97 | the port listens after the packet that the request routine writes exactly when the routine waits for a response |
| `Turnarounds.BreakOfAnswerIsSeen` | components/esp_dmx-4.1.0/src/dmx/hal/uart.c:57-105 | whatever bytes come and whatever tasks do while the port waits for the break of an answer, the break makes it ready for a packet of which nothing has come |
| `Turnarounds.ReplyIsReceivedAfterSend` | components/esp_dmx-4.1.0/src/dmx/hal/uart.c:300-320 | from the send to the reply: a discovery reply after a DISC_UNIQUE_BRANCH request is declared at its last byte if and only if no task gave it up, and then the UID of its sender is read, however it is split and however much of its preamble is lost |
| `Turnarounds.ResponseIsReceivedAfterSend` | components/esp_dmx-4.1.0/src/dmx/hal/uart.c:300-320 | from the send to the response: so is a standard packet after the next break, and header and data are in the buffer |
| `Turnarounds.SentIsRemembered` | components/esp_dmx-4.1.0/src/dmx/io.c:410-430 | what is remembered of a packet that is sent: which side sends it, its PID, and whether it is a broadcast |
| `Turnarounds.ReceivedIsRemembered` | components/esp_dmx-4.1.0/src/dmx/hal/uart.c:203-235 | a standard packet that has come in full is remembered by its PID and by which side sent it |
| `Turnarounds.ReceivedReplyIsRemembered` | components/esp_dmx-4.1.0/src/dmx/hal/uart.c:175-181 | a discovery reply is remembered as a response to DISC_UNIQUE_BRANCH |
| `Turnarounds.PlainIsRemembered` | components/esp_dmx-4.1.0/src/dmx/hal/uart.c:236-245 | a packet that is not RDM is remembered as a controller's, without a PID |
| `Turnarounds.AskTurnsBus` | components/esp_dmx-4.1.0/src/dmx/io.c:149-172 | a receive call turns the bus to reading; if it was turned to sending the port waits for a break, else what was received stays |
| `Turnarounds.WriteTurnsBus` | components/esp_dmx-4.1.0/src/dmx/io.c:55-97 | a write turns the bus to sending and puts each byte that there is room for at its place and nowhere else, unless an RDM packet is being sent |
| `TransmitRuns.RefillReachesTheEnd` | components/esp_dmx-4.1.0/src/dmx/hal/uart.c:264-275 | each interrupt that finds room makes progress, and the interrupt stays enabled until all slots are sent |
| `Queues.SearchEndsExactly` | components/esp_dmx-4.1.0/src/rdm/responder/queue_status.c:118-128 | the search before a push ends if and only if the head is not at the start with the tail elsewhere, or the PID is in some slot, used or not |
| `Queues.SearchFollowsContents` | components/esp_dmx-4.1.0/src/rdm/responder/queue_status.c:118-128 | in every other state the search looks at what is queued, in order, and then ends |
| `Queues.PushIsExactWhen` | components/esp_dmx-4.1.0/src/rdm/responder/queue_status.c:105-142 | a push that returns does what a plain queue without duplicates does, if and only if the head is not skipped or the PID is queued already |
| `Queues.PushWhileHeadIsSkipped` | components/esp_dmx-4.1.0/src/rdm/responder/queue_status.c:118-137 | when the head is skipped, a push that returns reports success and queues nothing |
| `Queues.PopRefines` | components/esp_dmx-4.1.0/src/rdm/responder/queue_status.c:144-165 | a pop takes the oldest PID and remembers it, and gives 0 if there is none |
| `Queues.Size` | components/esp_dmx-4.1.0/src/rdm/responder/queue_status.c:167-194 | the size is the number of PIDs that wait, clamped to 255 |
| `Queues.RunRefines` | components/esp_dmx-4.1.0/src/rdm/responder/queue_status.c:105-211 | over every run whose pushes are exact, results and contents are those of a plain queue of one slot less than the ring |
| `Queues.EveryRunIsDistinct` | components/esp_dmx-4.1.0/src/rdm/responder/queue_status.c:105-165 | in every run no PID waits twice |
| `Queues.HeadCanBeSkipped` | components/esp_dmx-4.1.0/src/rdm/responder/queue_status.c:118-128 | three calls on a ring of two slots lead to the state in which a popped PID is reported as queued and a new one makes the call run for ever |
| `QueueCode.RdmQueue.Search` | components/esp_dmx-4.1.0/src/rdm/responder/queue_status.c:118-128 | the loop that compares before it wraps finds what the specification says |
| `QueueCode.RdmQueue.Push` | components/esp_dmx-4.1.0/src/rdm/responder/queue_status.c:105-142 | the code updates the array and the head as the specification says |
| `QueueCode.RdmQueue.Pop` | components/esp_dmx-4.1.0/src/rdm/responder/queue_status.c:144-165 | the code updates the tail and the last PID as the specification says |
| `Parameters.EveryRunKeepsInv` | components/esp_dmx-4.1.0/src/dmx/parameter.c:131-204 | in every run of adding, setting, and committing in two halves: used slots are a prefix with distinct PIDs, the counter is the number of staged parameters, and every non-volatile parameter that was set, is neither staged nor being stored, and did not fail to be stored, is stored as it is in memory |
| `Parameters.AddKeepsInv` | components/esp_dmx-4.1.0/src/dmx/service.c:23-82 | adding fills the first unused slot, or finds the parameter there already |
| `Parameters.AddedIsFound` | components/esp_dmx-4.1.0/src/dmx/service.c:47-79 | a new dynamic or non-volatile parameter holds as many bytes of the caller's data as its size says, or zeros if there are none, in memory of its own; a static one is at the address of the data |
| `Parameters.AddFailsWithoutRoom` | components/esp_dmx-4.1.0/src/dmx/service.c:43-82 | a parameter that exists, a full table, or memory that cannot be had leave the table as it is, and the call says whether the parameter exists |
| `Parameters.AddKeepsOthers` | components/esp_dmx-4.1.0/src/dmx/service.c:43-82 | the size, address and contents of every other parameter stay |
| `Parameters.SetKeepsInv` | components/esp_dmx-4.1.0/src/dmx/parameter.c:131-163 | setting stages a non-volatile parameter and counts it once |
| `Parameters.SetIsCopied` | components/esp_dmx-4.1.0/src/dmx/parameter.c:131-163 | setting replaces the first bytes of a parameter, as many as there are in both, keeps the rest, and says how many; copying then gives them |
| `Parameters.TakeKeepsInv` | components/esp_dmx-4.1.0/src/dmx/parameter.c:165-198 | taking a staged parameter un-stages it and counts it down |
| `Parameters.StoreKeepsInv` | components/esp_dmx-4.1.0/src/dmx/parameter.c:199-203 | storing writes what is in memory by then; a failure only concerns that parameter |
| `Parameters.CommitFindsStaged` | components/esp_dmx-4.1.0/src/dmx/parameter.c:180-192 | while something is staged, the scan finds a parameter in use before any unused slot, whose type is arbitrary memory |
| `Parameters.CommitAllStoresAll` | components/esp_dmx-4.1.0/src/dmx/parameter.c:165-204 | as many commits as parameters are staged store everything that was set |
| `Parameters.LostUntilSet` | components/esp_dmx-4.1.0/src/dmx/parameter.c:199-203 | after storing a parameter failed, what is stored stays what it was, whatever happens, until the parameter is set again |
| `Parameters.FailedStoreLosesTheValue` | components/esp_dmx-4.1.0/src/dmx/parameter.c:180-203 | after a parameter is set to something new and storing it fails, nothing is staged and what is stored is not what is in memory |
| `Parameters.SharingBreaksCoherence` | components/esp_dmx-4.1.0/src/dmx/service.c:60-62 | a static parameter that shares a non-volatile one's data changes it without staging it |
| `Parameters.FlagIsShared` | components/esp_dmx-4.1.0/src/rdm/responder/discovery.c:110-196 | whichever of mute and un-mute is added first, both use one byte, which is 0 |
| `Registration.UniqueBranchIsRegistered` | components/esp_dmx-4.1.0/src/rdm/responder/discovery.c:79-109 | registering DISC_UNIQUE_BRANCH adds a parameter without data, and its definition |
| `Registration.FlagsAreRegistered` | components/esp_dmx-4.1.0/src/rdm/responder/discovery.c:111-196 | with the two mute parameters registered after it, a device has all that the protocol proofs ask of it |
| `Registration.RegisterKeepsRegistered` | components/esp_dmx-4.1.0/src/dmx/driver.c:198-223 | registering any other parameter, with whatever data and whether or not it succeeds, changes nothing about the discovery parameters |
| `Registration.InstalledWireIsWired` | components/esp_dmx-4.1.0/src/dmx/driver.c:195-223 | any set of installed drivers at addresses that are no broadcasts, whatever further parameters each registers, makes a bus that meets what is assumed of one, if one of three equal requests gets through |
| `Registration.InstalledDevicesAreFound` | components/esp_dmx-4.1.0/src/rdm/controller/discovery.c:57-184 | on a bus of installed drivers, even if up to two of three equal requests or replies are lost, discovery finds all that hear the first request, once and in ascending order, and nothing but their addresses |
| `Registration.AllInstalledAreFound` | components/esp_dmx-4.1.0/src/rdm/controller/discovery.c:57-184 | on a bus without loss, discovery finds exactly the addresses at which drivers were installed |
| `Parameters.SharedFlagIsCopied` | components/esp_dmx-4.1.0/src/dmx/parameter.c:105-163 | what is set through one of two such parameters is copied through the other |
| `ParameterCode.Device.GetEntry` | components/esp_dmx-4.1.0/src/dmx/service.c:84-111 | the lookup loop finds the first slot with the PID |
| `ParameterCode.Device.AddParameter` | components/esp_dmx-4.1.0/src/dmx/service.c:23-82 | the loop over the table adds as specified |
| `ParameterCode.Device.CopyParameter` | components/esp_dmx-4.1.0/src/dmx/parameter.c:105-129 | the size is clamped to the parameter's |
| `ParameterCode.Device.SetParameter` | components/esp_dmx-4.1.0/src/dmx/parameter.c:131-163 | the size is clamped, the entry and counter updated, as specified |
| `ParameterCode.Device.CommitOne` | components/esp_dmx-4.1.0/src/dmx/parameter.c:165-204 | a commit stores one staged parameter and returns its PID |
| `ResponderRuns.NackAnswers` | components/esp_dmx-4.1.0/src/rdm/responder/utils.c:36-60 | a NACK is always written; for a DISC_UNIQUE_BRANCH request it is a discovery reply |
| `ResponderRuns.AckAnswers` | components/esp_dmx-4.1.0/src/rdm/responder/utils.c:9-34 | an acknowledgement is always written, to the sender, with the request's transaction number, sub-device and PID |
| `ResponderRuns.EveryRequestIsAnswered` | components/esp_dmx-4.1.0/src/rdm/responder.c:46-145 | a packet for another device changes nothing; a broadcast is not answered; any other request is answered unless it is a GET or SET of a discovery parameter; the answer names the request |
| `Answers.EveryAnswerIsExact` | components/esp_dmx-4.1.0/src/rdm/responder.c:46-145 | to the byte, what goes out after every request but DISC_UNIQUE_BRANCH: a NACK with reason unknown PID, format error, unsupported class or hardware fault, each for its cause; an acknowledgement with the parameter for a GET, without data for a SET; nothing for a discovery parameter that is asked for otherwise, for broadcasts, or for other devices |
| `Answers.MuteDataOnWire` | components/esp_dmx-4.1.0/src/rdm/responder/discovery.c:49-75 | a mute reply carries the control field, and the UID after it unless that is null |
| `Answers.SoughtExactly` | components/esp_dmx-4.1.0/src/rdm/responder/discovery.c:19-40 | which device the branch handler seeks: one whose mute flag exists and is clear and whose address is within the bounds in the packet, themselves included, if there are 1 to 231 bytes of data |
| `Answers.OtherSubDevicesAreRefused` | components/esp_dmx-4.1.0/src/rdm/responder/utils.c:94-108 | a handler that is asked about another sub-device changes nothing, and answers with the NACK reason sub-device out of range, or not at all for a discovery parameter |
| `Answers.EmptySetChangesNothing` | components/esp_dmx-4.1.0/src/rdm/responder/utils.c:118-125 | a SET without data is acknowledged and changes nothing |
| `ResponderRuns.BranchIsAnsweredExactly` | components/esp_dmx-4.1.0/src/rdm/responder/discovery.c:11-47 | when a discovery reply is sent: if the device is un-muted and in range, and also for a request that is not a broadcast, or is for another sub-device, or is too long |
| `ResponderRuns.ResponderFollowsProtocol` | components/esp_dmx-4.1.0/src/rdm/responder/discovery.c:11-76 | for a controller's requests on the wire, the handler answers, and changes the mute flag, exactly as the protocol's responder |
| `ResponderRuns.FlagFollowsRun` | components/esp_dmx-4.1.0/src/rdm/responder/discovery.c:44-47 | over any run of requests the mute flag is that of the protocol's responder |
| `ResponderCode.RdmResponder.WriteAck` | components/esp_dmx-4.1.0/src/rdm/responder/utils.c:9-34 | the response header and what is written are as specified |
| `ResponderCode.RdmResponder.WriteNackReason` | components/esp_dmx-4.1.0/src/rdm/responder/utils.c:36-60 | the response header and what is written are as specified |
| `ResponderCode.RdmResponder.HandleDiscovery` | components/esp_dmx-4.1.0/src/rdm/responder/discovery.c:11-77 | the handler reads the range, compares, sets the flag and writes as specified |
| `ResponderCode.RdmResponder.HandleSimple` | components/esp_dmx-4.1.0/src/rdm/responder/utils.c:94-126 | the handler looks up, reads, sets and writes as specified |
| `ResponderCode.RdmResponder.SendResponse` | components/esp_dmx-4.1.0/src/rdm/responder.c:12-145 | target check, dispatch, validation and suppression are as specified |
| `SetGet.SetStores` | components/esp_dmx-4.1.0/src/rdm/responder/utils.c:110-125 | a SET request, addressed or broadcast, stores what its data stand for, and is acknowledged without data unless it is a broadcast |
| `SetGet.GetSends` | components/esp_dmx-4.1.0/src/rdm/responder/utils.c:110-117 | a GET request is answered with the bytes the parameter stands for, or, if these are 230, with a NACK |
| `SetGet.ResponseCarries` | components/esp_dmx-4.1.0/src/rdm/responder.c:92-99 | a response carries the bytes of the parameter if and only if these are at most 229 |
| `SetGet.OthersKeepParameter` | components/esp_dmx-4.1.0/src/dmx/parameter.c:131-163 | no packet but a SET of the parameter changes it |
| `SetGet.SetThenGet` | components/esp_dmx-4.1.0/src/rdm/responder/utils.c:94-126 | after a SET, whatever other requests come between, a GET carries exactly the bytes of the SET if and only if these are at most 229, in a response with the command class made a response, the transaction number echoed, and source and destination swapped; of 230 bytes, which are stored too, the answer is a NACK |

## Left out

Taken as given:

- A format of nothing but blanks: the validator computes a remainder by zero, so formats passed must hold a token. A NULL format is `None`.
- A format without a terminator must fit the data a whole number of times (`Encodable`): otherwise the remaining size, which is unsigned, passes below zero and the routine runs on through memory.
- What the library asserts, and aborts on: a request with a command class of a response, a PID of 0, or a sub-device of 513 or more.
- Atomicity: each interrupt, alarm and critical section is one step. A call that waits for the end of a transmission goes on only when the port no longer sends, and calls on one port exclude each other, as they take the same mutex.
- Reception only while the bus is turned to reading. The bytes a UART received by an interrupt, and the room it has, are arbitrary.
- A break's null byte, in `SizeAdapts`, is in the UART at the interrupt that reports the break.
- Callbacks of discovery do not use the bus. A device that does not hear the first request may stay muted and then need not be found.
- Memory can be had for the data of the discovery parameters when a driver is installed.
- The port ID in a request is the port's number and one, and so never 0.
- In `Turnarounds`, what a task may do between a request and its answer: ask for packets, wait for them, take them.
- In `UartRuns`, the UART raises the interrupt for more slots while at most eight are in its queue, latches a flag when its last slot leaves, and the interrupt routine serves what is raised before it returns, data first.

Not modelled:

- Time: alarm lengths, spacing between packets, the limit after which a response is given up. A send that comes too late is not a step of the port.
- The notices a task gets from the timer and from the end of a transmission; only those of the receive path are modelled.
- `dmx_driver_enable`, `dmx_driver_disable` and deletion of a driver.
- Freshly allocated driver fields that installation does not set are taken to be zero.
- The fields of an acknowledgement other than its type, sender and result; a caller's acknowledgement when the mutex or the wait fails, which is left unset.
- The contents of the structure a mute reply carries; it is any 8 bytes.
- Sub-devices other than the root: the library cannot add any. SET requests to all sub-devices abort in the lookups.
- Repeats of the last request, the boot-loader flag, callbacks after a response, and `rdm_rhd_get_queued_message`.
- String parameters in SET and GET: their terminating null is not copied. In the codec, strings are modelled.
- While a packet is received, in `PacketRuns`: tasks that write to the buffer or send, which turns the bus to sending, and the last step of a responder, which only follows sending in the same call.
- Concurrent writers to a packet that is not RDM while it is being sent; to one that is, writing has no effect, which is proved.
- Access to parameters through the pointer that `dmx_parameter_get_data` returns, and reading stored values at start-up.
- Memory behind addresses is a sequence of cells in `Parameters`; freeing is not modelled, as parameters are never removed.
- Sensors, labels, personalities, device information, the sniffer, parameter descriptions, and everything under `main` and `components/esp_lifx`: registration tables and plumbing.

Members whose statement is narrower than the whole behaviour:

- DriverIsr.DmxDriver.SendNum: the wait before sending and the early return of a late response are not part of it, because time is not modelled.
- DriverIsr.DmxDriver.ReceiveNum: only the part up to the wait; what follows are the steps `Await` and `TakePacket` of `Drivers`, because a task gives up the processor in between.
- Controller.Port.SendRequest: abstracts the packet to its request and reply; `Requests.SendRequest` is the routine on the buffer.
- SetGet.SetThenGet: for a parameter whose memory is its own, and formats of fixed-size fields without literals, because a literal in the format replaces the byte in the data.
- Encoding.EncodeTwice: for formats without strings and optional UIDs; `Encoding.PassRoundTrip` says what becomes of those.
- ReceiveRuns.PacketEndsAtItsLastByte: for at most 513 slots expected, and interrupts that find something; `PacketRuns.PacketIsDeclaredExactly` is for any number, and for interrupts that find nothing when at least one slot is expected.
- ReceiveRuns.StandardPacketIsReceived: for bytes left by a break that no RDM packet begins with, as a break's null byte is; `ReceiveRuns.PacketEndsAtItsLastByte` is for any.
