# A verified model of a Bluetooth Mesh node

This project models the protocol core of a Bluetooth Mesh node stack (Mesh Profile specification
v1.0.1) and proves what it guarantees over all runs, all orders of arrival and all payloads. The model
follows the code, including the places where the code departs from the specification; where a promise
of the specification does not hold of the code, the exact condition under which it does is proved, with
inputs that break it.

Check the project with `dafny verify dfyconfig.toml` (Dafny 4.11).

| files | part of the node |
|---|---|
| `LowerAccess`, `LowerControl`, `BlockAck`, `InboundSegmentation`, `OutboundSegmentation` | lower transport: headers, block acknowledgements, reassembly, cutting |
| `Segmentation`, `AckHistory`, `Delivery`, `SequenceZero`, `SpecifiedReassembly`, `SpecifiedDelivery`, `ControlMessages` | reassembly over whole runs: sources apart, bits and history, when a message is delivered and when a source is stuck, and what the specification's reassembly would deliver |
| `Counter`, `Storage`, `Lifecycle`, `CrashSafety`, `CrashLimits`, `SequenceAssignment` | sequence numbers: the counter, flash write-back, life before provisioning, crashes and boots, the exact limits, what each message takes |
| `ReplayProtection`, `ReplayHistory` | the bounded replay cache against a memory that never forgets |
| `Octets`, `Opcode`, `Nonce`, `NetworkLayer`, `DeviceMessages` | network and upper transport: device-key messages down to the air and back |
| `Fcs`, `PbAdvSegments`, `PbAdvInterface`, `PbAdvCodec`, `Leftover`, `Transactions`, `OutgoingTransactions`, `StopAndWait`, `StopAndWaitLimits`, `PduDelivery` | the advertising bearer for provisioning: check sequence, segments, transactions, octets, delivery within a link and exactly when it holds |
| `ProvisioningPdus`, `ProvisioningData`, `ProvisioningCodec`, `Provisionee`, `Provisioner`, `Handshake`, `HandshakeRuns` | provisioning: PDUs, data, both state machines, agreement and completion |

Main results:

- **Segmentation.** A message in segments is delivered by some order of arrival exactly when it has at
  most 96 octets (`Delivery.DeliverableIffShort`), and then exactly when its final segment first arrives
  after all the others (`Delivery.ShortMessageDelivered`); in any other order the source is stuck for good
  (`Delivery.StuckForGood`). With the offset looked up and encoded as specified, every message is delivered
  in every order, whatever is repeated (`SpecifiedReassembly.DeliveredWhenComplete`). Sources never disturb
  each other unless one is refused for lack of room (`Segmentation.NonInterference`).
- **Sequence numbers.** Over runs of sends, crashes and boots the numbers that are safe from reuse are
  determined exactly for every write-back threshold up to 100 (`CrashSafety.NeverReused`,
  `CrashLimits.SafeExactly`), also in terms of the messages sent
  (`SequenceAssignment.SafeForMessagesExactly`): with the threshold of 100, messages of at most twenty
  octets (`SequenceAssignment.SafeForPayloads`).
- **Full stack.** A device-key message is received as it was sent exactly when it fits one PDU and its
  opcode survives (`DeviceMessages.FullStackRoundTrip`, `DeviceMessages.ReceivableIffUnsegmented`). With
  specified reassembly and the metadata of the first segment, the opcode alone decides
  (`SpecifiedDelivery.ReceivedInAnyOrder`).
- **Replay.** The bounded cache gives the verdicts of an unbounded memory exactly while no needed source
  was forgotten (`ReplayHistory.VerdictIsIdeal`, `ReplayHistory.CacheRefinesMemory`), and then accepts
  exactly what is newer than everything accepted before (`ReplayHistory.AcceptedExactly`).
- **Stop and wait.** For a link opened on any closed device, over a channel that loses, repeats and delays:
  exactly when every run passes messages up once each and in order without a panic
  (`StopAndWaitLimits.SoundExactly`), and exactly when every run can be completed
  (`StopAndWaitLimits.CompletionExactly`). Both ask for numbers newer than the last acknowledged one and
  depend on what an earlier link left in the buffer: a second link that starts at zero again repeats its
  first message for ever (`StopAndWaitLimits.StaleRepeats`, `StopAndWaitLimits.SecondLink`). With
  the octets of the PDUs: `PduDelivery.PdusInOrderExactly` and `PduDelivery.PdusDelivered`.
- **Provisioning.** In every interleaving a provisioned device holds the provisioner's data and session
  (`Handshake.Agreement`); neither side fails as long as no confirmation is processed twice
  (`HandshakeRuns.NeverFails`), every such run can be completed (`HandshakeRuns.AlwaysCompletable`), and
  the first confirmation that is processed again is exactly what makes a failure possible
  (`HandshakeRuns.FailsExactly`).

## Model

| member | source | states |
|---|---|---|
| LowerAccess.ParseOfEmit | btmesh-pdu/src/provisioned/lower/access.rs:79-126 | what a receiver reads from every segmented header that a sender can emit, field by field |
| LowerAccess.HeaderRoundTrip | btmesh-pdu/src/provisioned/lower/access.rs:99-126 | parsing undoes emitting exactly when every field fits its width and the segment offset is below eight |
| LowerAccess.NeverReceived | btmesh-pdu/src/provisioned/lower/access.rs:119-122 | offsets 8 to 15 and 24 to 31 are never read by any receiver, whatever is sent |
| LowerAccess.HeaderOctets | btmesh-pdu/src/provisioned/lower/access.rs:99-126 | the four header octets of each of the first eight segments, in numbers |
| LowerAccess.ParseLimits | btmesh-pdu/src/provisioned/lower/access.rs:79-97 | which lengths are parsed, which are refused, and which make the parser panic |
| LowerControl.SegmentOctets | btmesh-pdu/src/provisioned/lower/control.rs:54-69 | exactly which octets are a segment of a control PDU and what is read from them, in numbers, and every error |
| BlockAck.AckSetsOneBit | btmesh-pdu/src/provisioned/lower/mod.rs:154-161 | acknowledging a segment sets its bit and leaves every other bit as it was |
| BlockAck.AckKeepsWidth | btmesh-pdu/src/provisioned/lower/mod.rs:140-165 | the value stays within its 32 bits |
| BlockAck.CompleteValue | btmesh-driver/src/stack/provisioned/lower/inbound_segmentation.rs:122-129 | all of segments 0 to n are acknowledged and no other exactly when the value is 2^(n+1) - 1 |
| BlockAck.IsComplete | btmesh-driver/src/stack/provisioned/lower/inbound_segmentation.rs:122-129 | the completeness loop returns true exactly when every bit up to the last segment is set |
| AckHistory.AcksAfter | btmesh-driver/src/stack/provisioned/lower/inbound_segmentation.rs:101-113 | one arbitrary segment sets the bit of its offset exactly when it is ingested, clears none, and the reported value is the new one |
| AckHistory.AcksAreTheIngested | btmesh-driver/src/stack/provisioned/lower/inbound_segmentation.rs:38-78 | in every reachable reassembly bit i is set exactly when segment i was ingested, and none lies above the last segment |
| InboundSegmentation.StoreWrites | btmesh-driver/src/stack/provisioned/lower/inbound_segmentation.rs:264-299 | a segment is stored exactly when it fits the buffer and, unless it is the last, fills its place; its octets are then in its place and every other octet and field is kept, only the last one sets the length |
| InboundSegmentation.InFlight.Ingest | btmesh-driver/src/stack/provisioned/lower/inbound_segmentation.rs:206-213 | the in-place ingest changes data, length and acknowledgement as specified, with every write in bounds |
| InboundSegmentation.InFlight.Accept | btmesh-driver/src/stack/provisioned/lower/inbound_segmentation.rs:38-78 | one segment for its source: refused, taken as seen, stored, or completing the message |
| InboundSegmentation.InFlight.ReassembleUpper | btmesh-driver/src/stack/provisioned/lower/inbound_segmentation.rs:301-310 | the upper PDU is the stored octets up to the length, with the MIC split off |
| InboundSegmentation.InboundSegmentation.Process | btmesh-driver/src/stack/provisioned/lower/inbound_segmentation.rs:38-78 | one segment of any source moves the table as the map specification does; only its own source's buffers change |
| Segmentation.NonInterference | btmesh-driver/src/stack/provisioned/lower/inbound_segmentation.rs:38-78 | for every interleaving of arbitrary segments the outcomes of one source are those of its segments alone, exactly when none of them was refused for room |
| Segmentation.FewSourcesNeverRefused | btmesh-driver/src/stack/provisioned/lower/inbound_segmentation.rs:38-60 | nothing is refused while the sources heard fit the table |
| Segmentation.ArrivedPdu | btmesh-pdu/src/provisioned/lower/access.rs:79-126 | what reassembly receives for each emitted segment of each message, as the parser reads it |
| SequenceZero.HeaderOnAir | btmesh-driver/src/stack/provisioned/lower/outbound_segmentation.rs:55-94 | in numbers, what a receiver reads from PDU i of every segmented message: the low thirteen bits of the message's number, the offset, the last segment and the octets of the payload |
| SequenceZero.MessagesKeptApart | btmesh-driver/src/stack/provisioned/lower/inbound_segmentation.rs:38-60 | while a message is in flight, each of the first sixteen segments of another message of its source is refused exactly when their numbers differ in the low thirteen bits |
| Delivery.StepOfSegment | btmesh-driver/src/stack/provisioned/lower/inbound_segmentation.rs:38-78 | a segment of an access PDU with either MIC size or of a control PDU never fails; it delivers exactly when it is the last one missing and the final segment was not in, and what it delivers is the payload that was cut, with a MIC of four or eight octets split off |
| Delivery.OutcomeOfRun | btmesh-driver/src/stack/provisioned/lower/inbound_segmentation.rs:38-78 | the outcome of every run of segments of such a PDU, in any order with any repetition |
| Delivery.SegmentsDelivered | btmesh-driver/src/stack/provisioned/lower/inbound_segmentation.rs:199-299 | an access or control PDU in segments of twelve or eight octets is delivered exactly when its final segment first arrives after all the others |
| Delivery.ShortMessageDelivered | btmesh-driver/src/stack/provisioned/lower/inbound_segmentation.rs:199-201 | a message of at most eight segments is delivered exactly when its final segment first arrives after all the others |
| Delivery.StuckForGood | btmesh-driver/src/stack/provisioned/lower/inbound_segmentation.rs:199-201 | once the final segment of a short message came before another one, no later segment of the source, of that message or with another sequence-zero, delivers anything, and those with another sequence-zero are refused |
| Delivery.LongMessageNeverDelivered | btmesh-pdu/src/provisioned/lower/access.rs:119-122 | no order of arrival delivers a message of more than eight segments |
| Delivery.OnlyTheFinalDelivers | btmesh-driver/src/stack/provisioned/system.rs:175-191 | a message is only ever completed by its final segment, and takes the metadata of that segment |
| Delivery.DeliverableIffShort | btmesh-driver/src/stack/provisioned/lower/inbound_segmentation.rs:38-78 | some order of arrival delivers a message exactly when it has at most 96 octets |
| SpecifiedReassembly.HeaderRoundTrip | btmesh-pdu/src/provisioned/lower/access.rs:119-122 | with the offset's high bits shifted by three, the header survives exactly when its fields fit their widths |
| SpecifiedReassembly.DeliveredWhenComplete | btmesh-driver/src/stack/provisioned/lower/inbound_segmentation.rs:199-201 | with the offset looked up instead of SegN and encoded in its place, from the octets of the segments on, every message is delivered as sent each time its last missing segment arrives, and at no other time |
| SpecifiedDelivery.UnderstoodWhenComplete | btmesh-driver/src/stack/provisioned/system.rs:175-191 | with that reassembly and the metadata of the first segment, a device-key message is understood at an arrival exactly when that completes it and its opcode survives |
| SpecifiedDelivery.ReceivedInAnyOrder | btmesh-driver/src/stack/provisioned/system.rs:175-191 | a segmented device-key message all of whose segments arrive, in any order with any repetition, is received exactly when its opcode survives |
| OutboundSegmentation.Process | btmesh-driver/src/stack/provisioned/lower/outbound_segmentation.rs:21-100 | the network PDUs of an upper PDU, and how far the shared counter moves, for first sends and retransmissions |
| OutboundSegmentation.NumbersOnAir | btmesh-driver/src/stack/provisioned/lower/outbound_segmentation.rs:55-94 | the number of each PDU of a segmented message and how far the counter moves, for a first transmission and for a retransmission |
| OutboundSegmentation.OutboundLimits | btmesh-driver/src/stack/provisioned/lower/outbound_segmentation.rs:28-54 | up to fifteen octets go out in one PDU behind the octet of their key, and more than 380 are refused |
| OutboundSegmentation.ChunksJoin | btmesh-driver/src/stack/provisioned/lower/outbound_segmentation.rs:55-94 | the chunks put together are the payload |
| Counter.AfterIsSum | btmesh-driver/src/stack/provisioned/sequence.rs:15-21 | numbers are consecutive while the counter does not wrap |
| Counter.Sequence.Next | btmesh-driver/src/stack/provisioned/sequence.rs:15-21 | a number is handed out and the counter moves past it |
| Storage.FlashBackingStore.Load | btmesh-driver/src/storage/flash.rs:43-67 | what is loaded, and the hash and number remembered of it |
| Storage.FlashBackingStore.Store | btmesh-driver/src/storage/flash.rs:69-126 | flash and what is remembered of it after a store, written or not |
| Storage.Storage.LoadIfNeeded | btmesh-driver/src/storage/mod.rs:134-141 | the cache is filled from flash once |
| Storage.Storage.Put | btmesh-driver/src/storage/mod.rs:106-115 | the cache always holds what was put; flash only a provisioned configuration due for writing |
| Storage.Storage.Init | btmesh-driver/src/storage/mod.rs:79-94 | the configuration and flash after start-up, with the sequence jumped ahead |
| Storage.Driver.Boot | btmesh-driver/src/lib.rs:280-302 | power-up on any flash content |
| Storage.Driver.SetUp | btmesh-driver/src/lib.rs:304-357 | which stack is in place at the start of a turn, and with which counter |
| Storage.Driver.Work | btmesh-driver/src/lib.rs:127-151 | a turn's numbers come off the shared counter; completed provisioning starts it at 800 |
| Storage.Driver.Save | btmesh-driver/src/lib.rs:387-394 | the configuration of the stack is put back at the end of a turn |
| Storage.Driver.Turn | btmesh-driver/src/lib.rs:300-396 | a whole turn: the next state of flash, cache and stack, and the numbers handed out |
| Lifecycle.WrittenWhen | btmesh-driver/src/storage/flash.rs:93-126 | exactly when a provisioned configuration is written back, also when the sequence has wrapped around |
| Lifecycle.UnprovisionedNotWritten | btmesh-driver/src/storage/mod.rs:106-115 | an unprovisioned configuration that is put goes to the cache only |
| Lifecycle.FirstPutIsWritten | btmesh-driver/src/storage/flash.rs:93-126 | the first provisioned configuration put after a load is always written, whatever was loaded |
| Lifecycle.JumpOnCircle | btmesh-driver/src/storage/mod.rs:79-94 | the sequence after a start-up is the second multiple of one hundred after the last, on 32 bits |
| Lifecycle.StackFollows | btmesh-driver/src/lib.rs:304-357 | at the start of a turn the stack is the one its configuration calls for, and one of the right kind is kept with its identity or counter |
| Lifecycle.KeepsIdentity | btmesh-driver/src/lib.rs:300-396 | over every run of turns before provisioning a node goes by one UUID, and leaves flash as it was |
| Lifecycle.ProvisionedAtOnce | btmesh-driver/src/lib.rs:127-151 | the turn that provisions a node writes its configuration with the sequence 800, from which its numbers start |
| CrashSafety.SaveKeepsBehind | btmesh-driver/src/storage/flash.rs:93-126 | after every put flash agrees with the cache in all hashed fields, and lags its sequence by less than the threshold |
| CrashSafety.BootJumps | btmesh-driver/src/storage/mod.rs:79-94 | every boot of a provisioned node starts and writes a sequence at least 101 above flash |
| CrashSafety.EventOfBehind | btmesh-driver/src/lib.rs:300-396 | turns, crashes in a turn and boots all resume above every number handed out |
| CrashSafety.NeverReused | btmesh-driver/src/storage/mod.rs:79-94 | over every run of turns, crashes and boots on any flash content the numbers strictly increase, given threshold plus burst of at most 102, or 103 for a threshold of two |
| CrashLimits.Reuse | btmesh-driver/src/storage/flash.rs:93-126 | for every threshold up to 100, a run that hands a number out twice, whose turns take up to three numbers or the first burst that is not covered |
| CrashLimits.SafeExactly | btmesh-driver/src/storage/flash.rs:93-126 | for every threshold up to 100 no run reuses a number exactly when threshold plus burst is at most 102, or the threshold is two and the burst at most 101 |
| CrashLimits.SafeAtHundred | btmesh-driver/src/storage/flash.rs:93-126 | with a threshold of 100 no run reuses a number exactly when no turn takes more than two |
| SequenceAssignment.MessageNumbers | btmesh-driver/src/stack/provisioned/upper/mod.rs:109-127 | segment i carries first + i, the first is the number in the upper nonce, and the counter resumes after the last |
| SequenceAssignment.RunNumbersIncrease | btmesh-driver/src/stack/provisioned/lower/outbound_segmentation.rs:60-65 | over every run of messages the network PDUs carry strictly increasing numbers |
| SequenceAssignment.RunNoncesDistinct | btmesh-common/src/crypto/nonce.rs:28-52 | network nonces of a run are pairwise distinct while numbers have 24 bits |
| SequenceAssignment.SafeForMessagesExactly | btmesh-driver/src/storage/flash.rs:93-126 | for every threshold up to 100 no run whose turns send messages of up to n octets reuses a number exactly when the most such a message takes is covered |
| SequenceAssignment.SafeForPayloads | btmesh-driver/src/storage/flash.rs:93-126 | with a threshold of 100 no run whose turns send messages of up to n octets reuses a number exactly when n is at most 20 |
| ReplayProtection.ReplayProtection.Check | btmesh-driver/src/stack/provisioned/network/replay_protection.rs:21-51 | the verdict and the cache after a PDU: updated, moved to the front, inserted, the last evicted |
| ReplayHistory.UnlimitedListsMemory | btmesh-driver/src/stack/provisioned/network/replay_protection.rs:21-51 | a cache without limit is the memory of newest accepted numbers, in order of recency |
| ReplayHistory.BeforeIsHeardSince | btmesh-driver/src/stack/provisioned/network/replay_protection.rs:21-51 | the position of a source is the number of other sources heard since |
| ReplayHistory.CacheOfRecentRun | btmesh-driver/src/stack/provisioned/network/replay_protection.rs:21-51 | the bounded cache is the unbounded one cut off, while every source is heard again in time |
| ReplayHistory.VerdictIsIdeal | btmesh-driver/src/stack/provisioned/network/replay_protection.rs:21-51 | a verdict is that of the memory exactly unless the source was evicted and the PDU is a replay |
| ReplayHistory.CacheRefinesMemory | btmesh-driver/src/stack/provisioned/network/replay_protection.rs:21-51 | every verdict of such a run is that of a map which never forgets |
| ReplayHistory.AcceptedExactly | btmesh-driver/src/stack/provisioned/network/replay_protection.rs:21-51 | in such a run the bounded cache accepts a PDU exactly when its IV index modulo 2^16 is above that of every PDU it accepted from the source before, or level with it and the number above |
| ReplayHistory.NeverAcceptedTwice | btmesh-driver/src/stack/provisioned/network/replay_protection.rs:27-38 | no source, IV index modulo 2^16 and number are accepted twice: of two accepted PDUs of a source the later is above |
| Opcode.SplitOfEmit | btmesh-common/src/opcode.rs:33-66 | an opcode is read back, for all parameters, exactly when its first octet announces its length and a one-octet opcode is below 0x40 |
| Nonce.NetworkNoncesEqual | btmesh-common/src/crypto/nonce.rs:28-52 | network nonces are equal exactly when CTL and TTL, source, IV index and the low 24 bits of the number are |
| Nonce.DeviceNoncesEqual | btmesh-common/src/crypto/nonce.rs:59-98 | the same for device nonces, with MIC size and destination |
| Nonce.NetworkNonceOctets | btmesh-common/src/crypto/nonce.rs:28-52 | the thirteen octets of a network nonce, in numbers |
| Nonce.DeviceNonceOctets | btmesh-common/src/crypto/nonce.rs:59-98 | the thirteen octets of a device nonce, in numbers |
| Nonce.KindsDiffer | btmesh-common/src/crypto/nonce.rs:25-30 | a network nonce is never a device nonce |
| Nonce.AcceptedIsSenders | btmesh-common/src/lib.rs:138-172 | a receiver rebuilds the sender's IV index exactly when it is level with it or one ahead, except at one |
| Nonce.TransmittedIndex | btmesh-common/src/lib.rs:159-164 | the index a node sends under: its own, and during an update the one before |
| Nonce.TransmittedIsAccepted | btmesh-driver/src/stack/provisioned/mod.rs:46-52 | what a node sends is accepted exactly by nodes level with it or one ahead outside an update, and level with it or one behind during one |
| NetworkLayer.ObfuscateTwice | btmesh-common/src/crypto/mod.rs:177-214 | obfuscating twice restores the header |
| NetworkLayer.TryDecrypt | btmesh-driver/src/stack/provisioned/network/mod.rs:191-209 | the loop over the keys yields the PDU under the first key of the right NID that opens it |
| NetworkLayer.ForNobody | btmesh-driver/src/stack/provisioned/network/mod.rs:191-209 | no key is found exactly when the PDU fails to decrypt under every key of its NID, without a panic |
| NetworkLayer.SealedSize | btmesh-driver/src/stack/provisioned/network/mod.rs:92-189 | destination, transport PDU and a MIC of four octets for access and eight for control PDUs are sealed; a PDU is sent exactly when that makes 7 to 28 octets |
| NetworkLayer.DecryptWith | btmesh-driver/src/stack/provisioned/network/mod.rs:211-281 | a PDU whose octets open under four or eight octets of MIC, as its first bit says, is exactly what opened, with the fields of its header |
| NetworkLayer.DecryptErrors | btmesh-driver/src/stack/provisioned/network/mod.rs:211-281 | which PDUs are not decrypted, and with which error or panic |
| NetworkLayer.DecryptLimits | btmesh-driver/src/stack/provisioned/network/mod.rs:211-281 | what opens is taken exactly when it has a destination and at most sixteen octets of transport PDU |
| NetworkLayer.DecryptOfEncrypt | btmesh-driver/src/stack/provisioned/network/mod.rs:92-281 | under the same key and IV index the receiver gets the sender's PDU with 24 bits of its number, if the TTL has seven bits |
| NetworkLayer.NetworkRoundTrip | btmesh-driver/src/stack/provisioned/network/mod.rs:92-281 | a network PDU survives encryption and obfuscation exactly when TTL < 128 and SEQ < 2^24 |
| DeviceMessages.ProcessOutbound | btmesh-driver/src/stack/provisioned/mod.rs:194-210 | the network PDUs of a message and the counter after it, errors included |
| DeviceMessages.EncryptNetworkPdus | btmesh-driver/src/stack/provisioned/mod.rs:204-208 | the encrypting loop stops at the first PDU that fails |
| DeviceMessages.OpensOwn | btmesh-driver/src/stack/provisioned/upper/mod.rs:253-278 | what decrypting yields for an upper PDU that keeps the low bits of its number |
| DeviceMessages.OpensLongMic | btmesh-driver/src/stack/provisioned/upper/mod.rs:182-282 | a message sealed elsewhere with a MIC of eight octets is received exactly when its opcode survives |
| DeviceMessages.NotUnderstood | btmesh-driver/src/stack/provisioned/upper/mod.rs:253-282 | a message under an application key, or one that does not open, is an invalid PDU |
| DeviceMessages.LowerCases | btmesh-pdu/src/provisioned/lower/mod.rs:102-129 | what every unsegmented transport PDU comes to, by its length and its first octet |
| DeviceMessages.ControlCases | btmesh-pdu/src/provisioned/lower/control.rs:14-22 | what every control PDU that is no segment comes to, by its length and its first octet, and which segments are refused |
| DeviceMessages.SegmentThroughStack | btmesh-driver/src/stack/provisioned/lower/mod.rs:29-72 | the octets of each segment of a message go to reassembly under their source, and what that hands over is decrypted |
| DeviceMessages.ControlThroughStack | btmesh-driver/src/stack/provisioned/lower/mod.rs:29-72 | every segment of a control PDU goes to reassembly under its source, and what completes is handed up as opcode and parameters |
| ControlMessages.ControlDelivered | btmesh-driver/src/stack/provisioned/lower/inbound_segmentation.rs:199-299 | from the octets of its segments on, a control message of up to thirty-two segments is delivered exactly when its final segment first arrives after all the others |
| DeviceMessages.NetworkCases | btmesh-driver/src/stack/provisioned/mod.rs:178-195 | a PDU that is not decrypted leaves the messages in flight as they were, and a control PDU that is no segment is handed up |
| DeviceMessages.SentLimits | btmesh-driver/src/stack/provisioned/upper/mod.rs:109-180 | messages of up to 376 octets are sent and longer ones refused |
| DeviceMessages.FullStackRoundTrip | btmesh-driver/src/stack/provisioned/mod.rs:164-210 | a message that fits one PDU is received with the same opcode, parameters, addresses and TTL exactly when its opcode survives, with whatever else is in flight |
| DeviceMessages.SegmentedNeverOpens | btmesh-driver/src/stack/provisioned/system.rs:175-191 | a device-key message reassembled under the number of any segment but the first is rejected |
| DeviceMessages.ReceivableIffUnsegmented | btmesh-driver/src/stack/provisioned/upper/mod.rs:182-282 | some order of arrival gets a device-key message through exactly when it is not segmented and its opcode survives |
| DeviceMessages.IdealCipherExists | btmesh-common/src/crypto/device.rs:50-66 | the assumptions made of the cipher can be met together |
| Fcs.EntryIsBitwise | btmesh-common/src/crc/mod.rs:1-18 | every entry of the table is eight bit steps of the reflected polynomial x^8 + x^2 + x + 1 |
| Fcs.Compute | btmesh-common/src/crc/mod.rs:20-27 | the table loop computes the bit-by-bit CRC of every octet sequence |
| Fcs.OneOctetDetected | btmesh-common/src/crc/mod.rs:20-27 | equally long sequences that differ in exactly one octet have different check sequences |
| Fcs.ReceiverCheck | btmesh-common/src/crc/mod.rs:20-27 | a receiver's register ends at 0xCF exactly when the check sequence sent with the octets is theirs |
| PbAdvSegments.NumChunks | btmesh-driver/src/interface/advertising/segmentation/outbound.rs:36-55 | the counting loop ends with the number of segments the iterator yields |
| PbAdvSegments.OutboundSegmentsIter.Next | btmesh-driver/src/interface/advertising/segmentation/outbound.rs:72-108 | each call yields the next piece of the PDU, and nothing after the last |
| PbAdvSegments.Chunk | btmesh-driver/src/interface/advertising/segmentation/outbound.rs:72-108 | chunks are adjacent, cover the PDU, and have at most 20 octets for the first and 23 for the others |
| PbAdvSegments.StartOnAir | btmesh-driver/src/interface/advertising/segmentation/outbound.rs:72-108 | the start of a PDU announces how many segments follow, its length and a check sequence that passes the receiver's check, and carries its first twenty octets |
| PbAdvSegments.ContinuationOnAir | btmesh-driver/src/interface/advertising/segmentation/outbound.rs:72-108 | continuation i carries the twenty-three octets of its place |
| PbAdvSegments.StartLimits | btmesh-driver/src/interface/advertising/segmentation/mod.rs:30-48 | what every start does to every buffer: up to 31 further segments open one |
| PbAdvSegments.ContinuationLimits | btmesh-driver/src/interface/advertising/segmentation/inbound.rs:28-58 | what every continuation does to every buffer: dropped, a panic, kept, or decoded when complete with at most 1024 octets |
| PbAdvSegments.InboundSegments.Receive | btmesh-driver/src/interface/advertising/segmentation/inbound.rs:28-49 | a continuation fills its slot once, and the PDU is decoded when all slots are full |
| PbAdvSegments.InboundSegments.Fill | btmesh-driver/src/interface/advertising/segmentation/inbound.rs:51-58 | the slots put together, unless they exceed the destination |
| PbAdvSegments.Segmentation.ProcessInbound | btmesh-driver/src/interface/advertising/segmentation/mod.rs:25-72 | the buffer's life: opened by a start, kept through failures, dropped after decoding |
| PbAdvSegments.StartOfPdu | btmesh-driver/src/interface/advertising/segmentation/mod.rs:30-48 | a start opens the buffer of its PDU, a repeated start changes nothing, and a short PDU is passed up at once |
| PbAdvSegments.ContinuationOfPdu | btmesh-driver/src/interface/advertising/segmentation/inbound.rs:28-58 | in any order with repetition the buffer holds chunks of the PDU only, and the PDU is passed up, unchanged, exactly with the last missing one |
| PbAdvCodec.RoundTrip | btmesh-pdu/src/provisioning/advertising.rs:20-48 | an advertising PDU that fits the bearer is read back exactly when its generic part survives |
| PbAdvCodec.GenericRoundTrip | btmesh-pdu/src/provisioning/generic/mod.rs:21-120 | starts, continuations and acknowledgements survive exactly when their fields fit and they carry data; link opens and closes do not |
| PbAdvCodec.LinkControl | btmesh-pdu/src/provisioning/generic/mod.rs:143-210 | exactly which octets are read as a link open with its UUID, a link acknowledgement and a link close with its reason |
| PbAdvCodec.TransactionOctets | btmesh-pdu/src/provisioning/generic/mod.rs:54-134 | exactly which octets are read as a start, a continuation and an acknowledgement, in numbers |
| PbAdvCodec.AdvertisingOctets | btmesh-pdu/src/provisioning/advertising.rs:20-38 | exactly which octets are read as an advertising PDU, in numbers |
| PbAdvCodec.EmittedOctets | btmesh-pdu/src/provisioning/advertising.rs:40-48 | the octets of every advertising PDU that is sent, among them its length, and exactly when it fits |
| PbAdvCodec.EmittedContinuation | btmesh-pdu/src/provisioning/generic/mod.rs:68-72 | the octets of every continuation that is sent |
| PbAdvCodec.EmittedAcks | btmesh-pdu/src/provisioning/generic/mod.rs:102-120 | the octet of each acknowledgement that is sent |
| PbAdvCodec.OctetsOpenLink | btmesh-driver/src/interface/advertising/mod.rs:142-170 | the octets of a link open for the device's UUID open the link of a closed device, with its number, and are acknowledged |
| PbAdvCodec.OctetsCloseLink | btmesh-driver/src/interface/advertising/mod.rs:180-185 | the octets of a link close close the link, on any link and in any state, and abandon the current transaction |
| PbAdvCodec.PieceOnTheAir | btmesh-pdu/src/provisioning/advertising.rs:40-48 | every segment of every provisioning PDU fits 31 octets and is read back as it was |
| PbAdvInterface.AdvertisingInterface.ReceivePbAdv | btmesh-driver/src/interface/advertising/mod.rs:130-220 | the interface's cells, what it transmits and what it passes up, for every advertising PDU |
| PbAdvInterface.AdvertisingInterface.ShouldProcessTransaction | btmesh-driver/src/interface/advertising/mod.rs:222-243 | which transaction is processed, and which becomes the current one |
| PbAdvInterface.AdvertisingInterface.AckCurrentTransaction | btmesh-driver/src/interface/advertising/mod.rs:259-289 | when a passed-up transaction is acknowledged and closed |
| PbAdvInterface.AdvertisingInterface.TryAckTransactionAgain | btmesh-driver/src/interface/advertising/mod.rs:245-257 | when an old transaction is acknowledged again |
| PbAdvInterface.AdvertisingInterface.TransmitSegments | btmesh-driver/src/interface/advertising/mod.rs:292-299 | all pieces of a PDU are transmitted, in order |
| PbAdvInterface.AdvertisingInterface.TransmitProvisioningPdu | btmesh-driver/src/interface/advertising/mod.rs:72-91 | sending takes a transaction number, and keeps the PDU for retransmission when there is a link |
| OutgoingTransactions.SentUnderNumber | btmesh-driver/src/interface/advertising/mod.rs:72-91 | over every run, the i-th PDU sent goes out in full with the number i after the first, modulo 256, on each of its pieces |
| OutgoingTransactions.NumbersApart | btmesh-driver/src/interface/advertising/mod.rs:75-77 | two PDUs with fewer than 255 others between them have different numbers |
| OutgoingTransactions.RefusedSegment | btmesh-driver/src/interface/advertising/mod.rs:198-257 | what every segment of another transaction brings about: an acknowledgement when it is not above the last acknowledged one, and the kept PDU again |
| OutgoingTransactions.ResentUntilAcknowledged | btmesh-driver/src/interface/advertising/mod.rs:198-220 | a PDU sent on an open link goes with each refused segment, in full, until its own number is acknowledged, over every run, and not after |
| Transactions.AckedNeverDecreases | btmesh-driver/src/interface/advertising/mod.rs:130-289 | no event in any state lowers the last acknowledged number |
| Transactions.AheadIsKept | btmesh-driver/src/interface/advertising/mod.rs:142-183 | "a current transaction is newer than the last acknowledged one" is kept by every event but one: opening a link with a number that is not newer |
| Transactions.PassedIsAcked | btmesh-driver/src/interface/advertising/mod.rs:259-289 | what is passed up is acknowledged at that moment, for the first time |
| Transactions.ControlReceived | btmesh-driver/src/interface/advertising/mod.rs:142-183 | what every link and acknowledgement PDU brings about in every state |
| Transactions.SegmentCollected | btmesh-driver/src/interface/advertising/mod.rs:184-289 | what every segment of the current or the next transaction brings about: collected, passed up and acknowledged, or passed up alone when its number is not newer |
| Transactions.PassedUpIncreases | btmesh-driver/src/interface/advertising/mod.rs:130-220 | over every run without such an opening, across links, the transactions passed up strictly increase |
| Transactions.StaleTransactionRepeats | btmesh-driver/src/interface/advertising/mod.rs:181-183 | a one-segment transaction is passed up without changing anything, and so again and again, exactly after such an opening |
| Transactions.OlderNumberIsLost | btmesh-driver/src/interface/advertising/mod.rs:222-257 | a number is acknowledged without being passed up exactly when it is not newer than the last acknowledged one |
| Transactions.FirstChunkStays | btmesh-driver/src/interface/advertising/segmentation/mod.rs:30-61 | nothing but a decoded message empties the buffer, not even closing the link; what is decoded starts with the chunk that opened it |
| Leftover.CollectPiece | btmesh-driver/src/interface/advertising/segmentation/mod.rs:30-61 | a segment of the next message, on a buffer that an earlier link may have left: more is collected, or exactly what the leftover and the message decode to is passed up, or its index is past the leftover |
| StopAndWait.StepKeepsInv | btmesh-driver/src/interface/advertising/mod.rs:130-289 | every step of channel, peer and device keeps the protocol invariant: acknowledged numbers, current transaction, and the buffer holding the leftover or chunks of the next message only |
| StopAndWait.StopAndWaitDelivery | btmesh-driver/src/interface/advertising/mod.rs:130-289 | on newer numbers and any leftover, in every run within one link: for the first messages sent, each once and in order, what is expected is passed up, the peer is at most one behind, and a panic happens only on the first long message with a leftover too short for it |
| StopAndWait.NeverStuck | btmesh-driver/src/interface/advertising/mod.rs:130-289 | every run within one link can be continued until all messages are delivered and acknowledged, when a leftover decodes to the message it meets |
| StopAndWaitLimits.SoundExactly | btmesh-driver/src/interface/advertising/mod.rs:181-183 | for any closed device: all runs deliver the first messages once, in order and without a panic exactly when, on newer numbers, a leftover is harmless and, on any others, it keeps everything from being delivered |
| StopAndWaitLimits.CleanExactly | btmesh-driver/src/interface/advertising/mod.rs:142-183 | with an empty buffer, exactly when the link's numbers are newer than the last one acknowledged |
| StopAndWaitLimits.CompletionExactly | btmesh-driver/src/interface/advertising/mod.rs:181-183 | every run can be continued until all is delivered and acknowledged exactly when the numbers are newer and a leftover decodes, with the first long message, to that message |
| StopAndWaitLimits.SecondLink | btmesh-driver/src/interface/advertising/mod.rs:181-183 | after a link that delivered everything, the next is sound, and completable, exactly when it goes on with higher numbers |
| StopAndWaitLimits.StaleRepeats | btmesh-driver/src/interface/advertising/mod.rs:259-289 | on numbers that are not newer, for every n a run passes up n copies of the first message, of any length, after what a leftover makes of it the first time |
| StopAndWaitLimits.StaleNeverAcknowledged | btmesh-driver/src/interface/advertising/mod.rs:259-289 | on such numbers no run acknowledges anything, and the peer stays at its first message |
| StopAndWaitLimits.ShortLeftoverCrashes | btmesh-driver/src/interface/advertising/segmentation/inbound.rs:28-42 | with a leftover that has too few slots for the first long message, a run in which the device panics on it |
| StopAndWaitLimits.NeverAsSent | btmesh-driver/src/interface/advertising/segmentation/mod.rs:30-61 | with a leftover whose first chunk does not begin the first long message, whatever any run passes up in its place was decoded from other octets |
| PduDelivery.PdusInOrderExactly | btmesh-driver/src/interface/advertising/mod.rs:130-289 | PDUs sent as octets over a link with newer numbers and a clean buffer come out as a prefix of what went in, in every run, exactly when each survives its octets |
| PduDelivery.PdusDelivered | btmesh-driver/src/interface/advertising/mod.rs:130-289 | and every run can be continued until exactly those PDUs have come out |
| ProvisioningData.RoundTrip | btmesh-pdu/src/provisioning/mod.rs:328-360 | provisioning data survives its 25 octets exactly when the address is a unicast address |
| ProvisioningData.ParsedData | btmesh-pdu/src/provisioning/mod.rs:328-348 | which octets are read as provisioning data, field by field, and with which error others are refused |
| ProvisioningCodec.ActionsRoundTrip | btmesh-pdu/src/provisioning/mod.rs:699-747 | a list of out-of-band actions is read back exactly when it is in order without repetition |
| ProvisioningCodec.RoundTrip | btmesh-pdu/src/provisioning/mod.rs:414-447 | a provisioning PDU is read back exactly when its lists are canonical, its sizes are 1 to 7, and a start has no out-of-band action |
| ProvisioningCodec.ParsedPdus | btmesh-pdu/src/provisioning/mod.rs:414-432 | exactly which octets are read as each PDU but starts and capabilities |
| ProvisioningCodec.ParseErrors | btmesh-pdu/src/provisioning/mod.rs:414-432 | with which error every other sequence of octets is refused |
| ProvisioningCodec.ParsedStart | btmesh-pdu/src/provisioning/mod.rs:126-167 | exactly which octets are read as a start, with every out-of-band method, action and size |
| ProvisioningCodec.ParsedCapabilities | btmesh-pdu/src/provisioning/mod.rs:73-100 | the octets that are read as capabilities, field by field |
| ProvisioningCodec.EmittedStart | btmesh-pdu/src/provisioning/mod.rs:169-180 | the octets of every start that is sent, of which an action takes two |
| ProvisioningCodec.InputSize | btmesh-driver/src/stack/unprovisioned/transcript.rs:30-74 | a PDU takes as much room in the confirmation inputs as it has octets after its type |
| ProvisioningPdus.RoomForInputs | btmesh-driver/src/stack/unprovisioned/transcript.rs:10-74 | how much room each PDU takes in the 256 octets of the confirmation inputs, and exactly when it fits |
| ProvisioningCodec.EmitFits | btmesh-pdu/src/provisioning/mod.rs:434-447 | every PDU fits a transaction |
| ProvisioningCodec.PanicsExactly | btmesh-pdu/src/provisioning/mod.rs:188-305 | the parser is total except on short public keys, data and failures, whose length check is never effective |
| Provisionee.UnprovisionedStack.Process | btmesh-driver/src/stack/unprovisioned/mod.rs:70-120 | the stack's state and answer for every PDU: repeats answered from memory, errors taking the machine away |
| Provisionee.ImmediateRepeat | btmesh-driver/src/stack/unprovisioned/mod.rs:79-91 | an immediate repeat leaves the stack unchanged, and has the same outcome unless the first one was the error that took the machine away |
| Provisionee.TranscriptFits | btmesh-driver/src/stack/unprovisioned/transcript.rs:30-74 | in no run do the confirmation inputs overflow their 256 octets |
| Provisionee.StepFollows | btmesh-driver/src/stack/unprovisioned/provisionee.rs:55-105 | every PDU keeps the phase tied to the PDUs that led to it; the one error is data that is not authentic |
| Provisionee.RunFollows | btmesh-driver/src/stack/unprovisioned/provisionee.rs:55-105 | in every run the phase, transcript and secrets are those of the milestones met in order; completion needs invite, start, public key, confirmation, matching random and data sealed for that session |
| Provisionee.PhasesGoForward | btmesh-driver/src/stack/unprovisioned/provisionee.rs:66-104 | phases never go back or skip, the two ends absorb every PDU, and failures come from a public key or a random only |
| Handshake.DeviceStepAgrees | btmesh-driver/src/lib.rs:110-152 | every PDU for the device, through restarts after failure, keeps both sides agreeing |
| Handshake.ProvisionerStepAgrees | btmesh-driver/src/stack/unprovisioned/provisioner.rs:48-97 | so does every PDU for the provisioner |
| Handshake.FailureIsRecorded | btmesh-driver/src/lib.rs:110-152 | a step counts as failed exactly on an error or the failure phase of the side that got the PDU, which starts again or is lost |
| Handshake.Agreement | btmesh-driver/src/stack/unprovisioned/provisionee.rs:224-244 | in every interleaving with loss, repetition and reordering a provisioned device holds exactly the provisioner's data and a key of its session, hence the same transcript, secret and randoms |
| HandshakeRuns.DeviceStepKeepsInv | btmesh-driver/src/stack/unprovisioned/mod.rs:70-120 | a PDU for the device never makes it fail and moves it on exactly when it is the one awaited, unless it processes a confirmation again |
| HandshakeRuns.ProvisionerStepKeepsInv | btmesh-driver/src/stack/unprovisioned/provisioner.rs:48-97 | the same for the provisioner, without exception |
| HandshakeRuns.NeverFails | btmesh-driver/src/stack/unprovisioned/provisionee.rs:193-244 | neither side fails in any interleaving in which no confirmation is processed again |
| HandshakeRuns.LossFreeRun | btmesh-driver/src/stack/unprovisioned/provisioner.rs:337-379 | without loss or repetition, eleven steps provision the device with the provisioner's data and end in success, whatever the random numbers |
| HandshakeRuns.AlwaysCompletable | btmesh-driver/src/stack/unprovisioned/provisionee.rs:55-105 | so do the steps that remain after every run in which no confirmation was processed again |
| HandshakeRuns.ReprocessedCanFail | btmesh-driver/src/stack/unprovisioned/provisionee.rs:193-203 | after any confirmation processed again with another random number, three deliveries make the handshake fail |
| HandshakeRuns.FailsExactly | btmesh-driver/src/stack/unprovisioned/provisionee.rs:193-203 | after any run without one, and whatever PDU the device gets next with a new random number: some continuation without another one fails exactly when that PDU was a confirmation processed again |
| HandshakeRuns.CanFail | btmesh-driver/src/stack/unprovisioned/mod.rs:79-91 | such a failing run exists between two honest sides |

## Where the code differs from its specification

The model follows the code in each of these places.

- Whether a segment was seen is decided by SegN, not SegO (inbound_segmentation.rs:200): once the final
  segment is in, the source's message is never completed.
- The two high bits of SegO are shifted by two instead of three (btmesh-pdu .../lower/access.rs:121).
- A reassembled PDU takes the sequence number of the completing segment (system.rs:185), which is not the
  one in its nonce.
- One-octet opcodes are masked to six bits (opcode.rs:38).
- An IV index of one has itself as its predecessor (btmesh-common/src/lib.rs:166).
- The hash remembered at load covers the provisioned configuration alone, the one at store the enum
  around it (flash.rs:57, :82, :111), so the first put after every boot is always written.
- Closing a link keeps the last acknowledged transaction number and the collected segments
  (advertising/mod.rs:181-183). The link identifier of a segment is not compared with that of the link.
- The check sequence and total length of a transaction start are not verified on receipt
  (segmentation/mod.rs:30-48).
- An out-of-band action is emitted as two octets and parsed as one (btmesh-pdu/src/provisioning/mod.rs:684).
- The length checks of public keys, data and failures join their two conditions with "and"
  (btmesh-pdu/src/provisioning/mod.rs:189, :295, :387).
- A repeated confirmation makes the device draw a new random number unless nothing else came in between
  (provisionee.rs:199, unprovisioned/mod.rs:79-91).
- A replay is only marked on the PDU; the layers above do not look at the mark.

## Left out

- Radio, GATT, timers, futures and channels between tasks: each handler is one atomic step, and what is
  transmitted is a trace.
- AES, CMAC, CCM, P-256 and random numbers: the handshake uses injective terms, with a secret of two
  scalars that does not depend on their order; the network and upper layers take any cipher for which
  decryption undoes encryption. Random numbers are parameters of the step that draws them.
- Hashes (FNV): taken to be injective.
- Arithmetic overflow checks: additions wrap around, as in a release build.
- A Rust panic (an index or slice out of range) is the outcome `Panic`, `Crashed` or `Panicked`; what
  happens afterwards is not modelled.
- Application-key messages, label UUIDs and virtual addresses: a node without application keys is
  modelled, because encryption under one seals a buffer of zeros (upper/mod.rs:161-171).
- What becomes of a control message once it has been handed up, and sending control messages and block
  acknowledgements: the code emits nothing for them.
- The transmit queue: it never holds an entry.
- `Storage::modify`, page erasure and serialisation: a flash write is atomic.
- Out-of-band authentication values: a random value is a parameter when the start asks for one.
- Configuration, sensor and other models, composition data, relaying, beacons.
- PbAdvSegments.Collect: the parser of provisioning PDUs is a parameter that returns a PDU or nothing; its own panics, which
  `ProvisioningCodec.PanicsExactly` characterises, do not reach the interface model.
- StopAndWait.StopAndWaitDelivery: numbers do not wrap within the link; `Transactions.OlderNumberIsLost` shows that
  a number that wraps around is acknowledged without being passed up. Segments that an earlier link's peer
  still has on the air are not part of a run.
- PduDelivery.PdusInOrderExactly: is for PDUs that the parser accepts in some form and for an empty buffer, because the
  parser's panics do not reach the interface model.
- CrashLimits.SafeExactly: is for thresholds of at most 100; above that the limit depends on which multiples of the
  threshold lie near a multiple of one hundred.
- CrashSafety.NeverReused: assumes that the 32-bit counter does not wrap during the run.
- SequenceAssignment.RunNumbersIncrease: assumes that the 32-bit counter does not wrap during the run.
- DeviceMessages.FullStackRoundTrip: assumes that no earlier key with the same NID opens the PDU too.
- DeviceMessages.SegmentedNeverOpens: assumes that the ciphertext of the message opens under no other nonce.
- Handshake.Agreement: both sides are honest; a third party on the channel is not modelled.
- Handshake.DeviceStep: an error leaves the device's stack without a machine; that it also ends the driver loop
  (lib.rs:364) is not modelled here.
- The phases of both provisioning machines, the transcript, and the buffers of the network and upper layers
  are values: that they are updated in place is not captured. The same holds of the codecs' buffers.
- The key handle and the local element index in network metadata.
