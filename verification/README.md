# Verified model of the LoRa bridge firmware

This project models the parts of the bridge firmware whose correctness does not show in any
single function, and proves what they promise over all inputs and all runs.

* **Counters that survive crashes.** The LoRaWAN frame counter (`FcntModel`, `FcntStore`,
  `DeviceTable`) and the C2 sequence numbers and replay floors (`PeerModel`, `PeerStore`) are
  reserved in flash before use. The models are step systems with reboots, table edits and
  writes that succeed, fail, or land without being reported. `C2System` puts any number of
  devices on one channel where every byte string may be delivered anywhere, any number of
  times, in any order; `C2Edits` says what edits of the peer tables may cost.
* **Frames.** AES-CMAC against RFC 4493 (`Rfc4493`, `Cmac`), LoRaWAN payload encryption and
  uplinks (`PayloadCipher`, `Uplink`, `UplinkRuns`), C2 frames (`C2Frame`, `C2Node`, `MessageRing`),
  Meshtastic and MeshCore packets (`MeshCodec`, `MeshFirmware`), Reticulum fragments
  (`Base64`, `RnsTunnel`).
* **The pipeline.** Duplicate table (`DedupModel`, `DedupCache`), fan-out and loop suppression
  (`LoopModel`, `LoopGuard`, `LoopTiming`, `Bridge`), queues and transmit scheduler
  (`RouteFifo`, `RouteQueue`, `Airtime`, `Scheduler`, `SchedulerProgress`, `RadioTask`).
* **The co-processor link.** CRC (`LinkCrc`), framing (`LinkFraming`, `LinkParsers`), damage
  (`LinkBursts`), and the transmit token (`LinkToken`, `CoprocRadio`).
* **The camera's files.** AVI recordings (`AviFormat`, `AviRecorder`) and the photo list
  (`PhotoList`).

`Bytes`, `Products`, `Folds`, `Rings` and `Reservation` hold what these share.

## How it is built

Code that changes state in place is a class or a method over arrays, with the source's
fields and loops. Its contract ties the new state to a function of the old one. The theorems
about runs are lemmas about those functions. A clock is an unbounded number of milliseconds;
wherever the firmware reads it as 32 bits, the model takes it modulo 2^32 and compares as the
firmware does. Link bytes are bit-vectors in `LinkCrc` and `LinkBursts`, bytes elsewhere are integers below 256.

## What is assumed

* Each call of `nextFcnt`, `nextTxSeq` and `acceptInboundSeq` is one step: the source has no
  lock around them. Flash reads succeed. A write either fails, or lands and is reported, or
  lands and is not reported.
* A DevAddr is drawn from only while one holder caches it. The code does not check this;
  `SetDeviceSafeIff` and `FallbackSafeIff` say exactly after which edits and fallback draws
  nothing that may follow, reboots included, repeats a value.
* An authentic frame of a sender is taken in only while one row of the peer table holds that
  sender, and an edit does not lower a floor in place. The code checks neither; `SafeIff` and
  `EditSafeIff` assume neither and say exactly, after any run, from when on and after which edits
  what is accepted stays in order. Nothing is assumed of the peer tables for what is sent.
* No entry of the duplicate table only looks live when a call is made: none was recorded a
  minute or less after a whole number of clock cycles (2^32 ms) ago. It is asked of the entries
  standing in the table at each call, not of the run's duration. Queue ages are taken by the
  firmware's wrapped subtraction.
* AES, HMAC-SHA256 and their modes are uninterpreted functions. The one law assumed of them
  is that block decryption inverts block encryption, and only MeshCore needs it.
* Random packet ids, the wall clock, name look-ups, channel sensing and the results of radio
  calls are parameters, different at every call.

## Where a promise does not hold

* A counter does repeat when two holders cache one DevAddr, and after a reboot when two saved
  rows hold it: the portal can return an error after its edits and before the save, so RAM and
  flash may differ. `SharedIdentityRepeats` and `SavedRepeats` continue any such state to a
  repeat; `SetDeviceSafeIff` and `FallbackSafeIff` are the exact conditions for an edit and for a
  fallback draw.
* A frame can be acted on twice after an edit that lowers its sender's floor in place, after one
  that puts its sender into a second row, and after a reboot that brings a second saved row back:
  `StaleFloorReplays`, `TwoRowsReplay` and `SavedTwinsRepeat` are such runs, `SafeIff` and
  `EditSafeIff` the exact conditions.
* A damaged link frame can be delivered although the CRC notices every burst of 16 bits within a
  message: a burst that reaches from the payload into the CRC bytes may match. `GarbledDeliveredIff`
  is the exact condition; bursts up to 14 bits in the order of the wire never get through
  (`ShortBurstNeverDelivered`), and one of 15 bits turns every frame with a payload into another
  that is delivered (`EscapingBurst`).
* A recording whose end finds the card's bus taken for five seconds keeps its unpatched header:
  it announces no length, and a player finds no frame (`UnfinishedReadsNothing`).
* A hash recorded a minute or less after a whole number of clock cycles ago is taken for fresh
  again: `ClockWrapFalseHit` is the family, `SeenIsRightIff` and `TableRefinesLog` the exact
  condition over all runs. Such an entry can also push out a live one: `ReturnedEvictsLive`.
* The comment in `coproc_main.cpp` that every MSG_TX is answered by exactly one MSG_TX_DONE is
  not true when a radio is configured while transmitting, is switched off or fails to start with
  jobs queued, or the co-processor is restarted. `AllAnsweredIff` is the exact condition;
  `ReconfigureWedges` and `DisableStrands` are runs that leave the host waiting. The four-deep
  queue there can overflow exactly when the host has given up four times:
  `OverflowNeedsFourGiveUps`.
* A radio that was silent for 2^31 ms (24.8 days) after its last transmission is held off the
  air for another 24.8 days by the signed comparison of its deadlines: `StartsIff`, `HeldBack`.

## Model

| member | source | states |
|---|---|---|
| `Reservation.Advance` | src/LoRaWANConfig.cpp:156-174 | a value is handed out only below a reservation confirmed in flash; a refused call changes no counter |
| `FcntModel.FcntStrictlyIncreases` | src/LoRaWANConfig.cpp:156-192 | over every run of issues, reboots, slot edits in any order, moves, swaps, clears, re-adds, fallback rebinds and failed or unconfirmed writes, the values issued for one DevAddr strictly increase, provided it is only drawn from while a single holder caches it; what happens to other addresses does not matter |
| `FcntModel.EditsAreFree` | src/CaptivePortal.cpp:647-684 | edits, saves and reboots alone never break that proviso, so the portal may rewrite its rows in any order, with an address in two rows in between |
| `FcntModel.IssuedInRange` | src/LoRaWANConfig.cpp:156-174 | over every run whatsoever, an issued value belongs to an address and is not the invalid marker |
| `FcntModel.SetDeviceSafeIff` | src/LoRaWANConfig.cpp:202-212 | after any such run, setting a slot to an address keeps all that may follow (draws, saves, clears, edits to other addresses, reboots, bad writes) from repeating a value of it if no other slot holds that address, no two saved rows do, and the fallback is not used with it; and, while counter values remain, only if |
| `FcntModel.FallbackSafeIff` | src/LoRaWANConfig.cpp:185-192 | drawing for an address through the fallback keeps this draw and all that may follow, reboots included, from repeating a value of it if no slot holds that address and no saved row does; and, while counter values remain, only if: the collision src/main.cpp:1624-1629 warns of |
| `FcntModel.SavedRepeats` | src/LoRaWANConfig.cpp:55-88 | from any state with counter values left whose saved table holds an address twice, or holds the fallback's, a reboot and some draws hand out a value of it twice |
| `FcntModel.SharedIdentityRepeats` | src/LoRaWANConfig.cpp:202-212 | from any state with counter values left in which two holders cache one address, a run of draws hands out some value of it twice |
| `FcntModel.WriteEconomy` | src/LoRaWANConfig.cpp:156-174 | with confirmed writes, n values of one address whose counter is loaded L times (at first, and again by each reboot, edit or rebind that brings it back) cost at most n/33 + L flash writes |
| `FcntModel.SkipsAtMost32` | src/LoRaWANConfig.cpp:55-88 | with confirmed writes, each value of an address is the first or at most 33 above an earlier one, reboots or not: a reboot skips at most 32 |
| `FcntStore.Store.constructor` | src/LoRaWANConfig.cpp:10-23 | the static variables of a first boot |
| `FcntStore.Store.LoadReserved` | src/LoRaWANConfig.cpp:33-41 | the reservation in flash, 0 when there is none or the address is 0 |
| `FcntStore.Store.PersistReserved` | src/LoRaWANConfig.cpp:45-53 | true exactly when the write was reported; flash changes when the write landed |
| `FcntStore.Store.AdvanceFcnt` | src/LoRaWANConfig.cpp:156-174 | the fail-closed core: on a full block, persist first; on any failure issue nothing and leave the counter |
| `FcntStore.Store.NextFcnt` | src/LoRaWANConfig.cpp:176-183 | takes the next value for a slot; anything but a configured slot yields the invalid marker and changes nothing |
| `FcntStore.Store.NextFcntForDevAddr` | src/LoRaWANConfig.cpp:185-192 | takes the next value for the fallback, reloading its reservation when the address changed |
| `FcntStore.Store.SetDevice` | src/LoRaWANConfig.cpp:202-212 | changes one slot; its counter survives when the address stays, else starts at the flash reservation |
| `FcntStore.Store.ClearDevice` | src/LoRaWANConfig.cpp:214-218 | empties one slot; the reservation in flash stays |
| `FcntStore.Store.SaveTable` | src/LoRaWANConfig.cpp:90-99 | the saved table is the one in RAM, or the old one when the write failed |
| `FcntStore.Store.Begin` | src/LoRaWANConfig.cpp:55-88 | after boot every saved slot counts on from its reservation and the fallback is empty |
| `DeviceTable.MatchesAtItsRank` | src/LoRaWANConfig.cpp:126-135 | an entry matches in exactly one of the three passes, and there exactly the sources it accepts |
| `DeviceTable.Resolve` | src/LoRaWANConfig.cpp:138-150 | the entry found accepts the source, is of the most specific kind that does, and is the first of these; none is found exactly when none accepts |
| `PeerModel.AcceptKeeps` | src/CamC2Config.cpp:177-195 | a number accepted through the only row of its sender was above every number accepted before; its floor is in flash before it is in RAM, and nothing accepted is forgotten |
| `PeerModel.DrawKeeps` | src/CamC2Config.cpp:197-213 | a number drawn is above all drawn before and is remembered across reboots, whatever the write did |
| `PeerModel.EditKeeps` | src/CamC2Config.cpp:223-234 | an edit, also one that puts a peer into a second row, forgets no accepted number of a peer unless it lowers that peer's floor in place |
| `PeerModel.ClearKeeps` | src/CamC2Config.cpp:236-239 | clearing a row forgets no accepted and no issued number |
| `PeerModel.BootKeeps` | src/CamC2Config.cpp:81-145 | a reboot forgets no accepted and no issued number, also of a build that brings a peer along |
| `PeerModel.TxEconomy` | src/CamC2Config.cpp:197-213 | with confirmed writes, n numbers over r restarts cost at most n/17 + r + 1 writes, and successive numbers are at most 17 apart: a restart skips at most 16 |
| `PeerStore.Store.LoadRxForPeer` | src/CamC2Config.cpp:33-41 | the floor in flash, 0 when there is none |
| `PeerStore.Store.PersistRxForPeer` | src/CamC2Config.cpp:44-52 | true exactly when the write was reported; flash changes when the write landed |
| `PeerStore.Store.PersistTxSeq` | src/CamC2Config.cpp:54-60 | the same for the outbound reservation |
| `PeerStore.Store.Begin` | src/CamC2Config.cpp:81-145 | the saved table with each floor as in flash, and the sequence at its reservation; the build's own peer, if any, in the first row when no saved row is in use, with its floor as in flash |
| `PeerStore.Store.SaveTable` | src/CamC2Config.cpp:147-156 | the saved table is the one in RAM, or the old one when the write failed |
| `PeerStore.Store.Resolve` | src/CamC2Config.cpp:164-175 | the first slot in use with this id; none for id 0 |
| `PeerStore.Store.AcceptInboundSeq` | src/CamC2Config.cpp:177-195 | accepts exactly a number above the floor of a configured slot whose write was confirmed, and raises the floor to it |
| `PeerStore.Store.NextTxSeq` | src/CamC2Config.cpp:197-213 | the next number, after a new block was persisted if one was needed; the invalid marker and no change otherwise |
| `PeerStore.Store.SetPeer` | src/CamC2Config.cpp:223-234 | changes one slot and nothing in flash |
| `PeerStore.Store.ClearPeer` | src/CamC2Config.cpp:236-239 | empties one slot; the floor in flash stays |
| `C2System.AcceptedIncrease` | src/CamC2Config.cpp:177-195 | over every run with loss, duplication, reordering, forgery, row moves and swaps, reboots and bad writes, the numbers a device accepts from one sender strictly increase, provided an authentic frame of that sender is only taken in while one row holds it and no edit lowers its floor in place |
| `C2System.AtMostOnce` | src/CamC2.cpp:179-217 | over every such run no device acts twice on the same frame |
| `C2System.SentNeverRepeat` | src/CamC2.cpp:384-436 | over every run, whatever is done to the peer tables, no two frames sent by devices with distinct ids carry the same sender and number, nor the same bytes |
| `C2System.KeystreamBlocksNeverRepeat` | src/CamC2.cpp:79-105 | over every run, across all frames ever built by devices with distinct ids, no AES input block is used twice |
| `C2System.FreshFrameAccepted` | src/CamC2.cpp:179-211 | a new frame from a listed sender under its key, addressed to the device, is accepted exactly as built once the floor is written |
| `C2System.FloorOverwriteSafeIff` | src/CamC2Config.cpp:223-234 | rewriting the row of a peer that stands in no other row makes a frame of that peer be refused, whatever the write does, if and only if the new floor is not below its number |
| `C2Edits.SafeIff` | src/CamC2Config.cpp:81-239 | after any run whatsoever, what a device accepts from a peer stays in order through everything that may follow (deliveries, forgeries, sends, saves, clears, edits for other peers, reboots, bad writes) until a row is written for the peer again, if it has been in order, at most one row in RAM and at most one saved row is in use for the peer, and neither the row's floor nor the one in flash is below what was accepted; and, while numbers remain above the floors, only if |
| `C2Edits.EditSafeIff` | src/CamC2Config.cpp:223-234 | after any run whatsoever, writing a peer into a row keeps all that is accepted from it afterwards in order, reboots included, if it was in order so far, no other row in use and no two saved rows hold the peer, a row that already held it gets no floor below what was accepted, and the floor in flash is not below it; and, while numbers remain, only if |
| `C2Edits.HeededEditSafeIff` | src/CamC2Config.cpp:223-234 | after a run that heeds the two provisos, the condition is what a caller can look at: no other row in use, no two saved rows, and a kept row's floor not below what was accepted |
| `C2Edits.KeptFloorIsNotBelow` | src/CamC2Config.cpp:233-233 | an edit that keeps the row's floor or raises it meets the last part of that condition |
| `C2Edits.SavedTwinsRepeat` | src/CamC2Config.cpp:81-112 | a peer saved in two rows, of which RAM has lost one: one row in use and nothing accepted yet, and still a restart leads to numbers out of order |
| `C2Edits.StaleFloorReplays` | src/CamC2Config.cpp:223-234 | a run in which the same frame is acted on twice: its sender's row is written again with a floor of zero |
| `C2Edits.TwoRowsReplay` | src/CamC2Config.cpp:223-239 | a run in which the same frame is acted on twice: its sender is written into two rows and the first is cleared, no floor being lowered |
| `C2Node.AuthInbound` | src/CamC2.cpp:179-211 | the checks in the source's order; the store is written only for a frame whose tag is right, and the packet is returned exactly when it is accepted |
| `C2Node.SendTo` | src/CamC2.cpp:384-436 | one number is spent exactly when the peer is known and the payload can fit; the frame returned is that packet's |
| `C2Node.NumbersAreValid` | src/CamC2Config.cpp:197-213 | the value reported for failure is never a number that was issued |
| `C2Frame.BuildFrame` | src/CamC2.cpp:79-105 | the bytes on air in the caller's buffer, or 0 and an untouched buffer exactly when payload or buffer size does not allow it |
| `C2Frame.CtEqual` | src/CamC2.cpp:50-54 | or-ing all differences into one byte decides equality of any two strings of equal length |
| `C2Frame.VerifyAndDecrypt` | src/CamC2.cpp:110-136 | the packet of a frame of valid length, version and tag, else nothing |
| `C2Frame.OpensExactlyWhatWasBuilt` | src/CamC2.cpp:79-136 | a byte string opens to a packet if and only if it is what building that packet under the same key gives |
| `C2Frame.TamperedTagRejected` | src/CamC2.cpp:110-136 | a built frame with any other tag is rejected |
| `MessageRing.Ring.Store` | src/CamC2.cpp:29-38 | the message, cut to its buffer, becomes the newest; at twelve the oldest is overwritten |
| `MessageRing.Ring.Recent` | src/CamC2.cpp:372-376 | index i is the i-th newest of all messages ever stored |
| `Rfc4493.MsbIsFirst` | src/LoRaWANCrypto.h:61-70 | testing the top bit of the first byte is testing the top bit of the 128-bit number |
| `Cmac.CmacShiftLeft` | src/LoRaWANCrypto.h:52-59 | the byte-wise carry loop is multiplication by two modulo 2^128 |
| `Cmac.CarryLoop` | src/LoRaWANCrypto.h:52-59 | after the loop, the output with the carry in front of it is twice the input |
| `Cmac.CmacDouble` | src/LoRaWANCrypto.h:61-70 | shift and conditional constant are doubling in the field of RFC 4493 section 2.3 |
| `Cmac.CmacSubkeys` | src/LoRaWANCrypto.h:61-70 | the two subkeys of RFC 4493 section 2.3 |
| `Cmac.LastBlock` | src/LoRaWANCrypto.h:74-104 | a complete last block is masked with K1, any other, also the empty one, padded with one bit and masked with K2 |
| `Cmac.ChainBlocks` | src/LoRaWANCrypto.h:74-104 | the loop runs exactly the blocks before the last through the chain |
| `Cmac.AesCmac` | src/LoRaWANCrypto.h:74-104 | the tag of RFC 4493 section 2.4, for every key, block function and message length |
| `PayloadCipher.CryptFrmPayload` | src/LoRaWANCrypto.h:109-134 | exactly the given stretch of the buffer is masked with the keystream of LoRaWAN 1.0.x section 4.3.3 |
| `PayloadCipher.CryptInvolutive` | src/LoRaWANCrypto.h:109-134 | masking twice gives back the payload |
| `PayloadCipher.ABlockInjective` | src/LoRaWANCrypto.h:114-127 | device, counter and block index below 256 can be read back from an A block |
| `Uplink.EncodeUplink` | src/LoRaWANCrypto.h:139-193 | the PHYPayload with its section 4.4 MIC, or 0 and an untouched buffer exactly when payload or buffer size does not allow it |
| `Uplink.UplinkRoundTrip` | src/MeshDecoderDebug.h:978-1012 | an uplink parses back to its type, address, low half of the counter, port and length, and decrypts to its payload |
| `UplinkRuns.KeystreamNeverRepeats` | src/LoRaWANCrypto.h:109-134 | over every run that draws an address only while one holder caches it, no AES input block that masks a payload of this address masks another: not within a frame, not between frames, not across reboots |
| `DedupModel.InsertKeeps` | src/DedupCache.cpp:58-80 | an insertion keeps one entry per hash with its last time, and, while no entry only looks live, loses a live hash only when a whole table of others is at least as young |
| `DedupModel.SeenAgreesWithLog` | src/DedupCache.cpp:46-56 | a false hit is exactly a returned hash still in the table; a miss of a live hash means it was crowded out |
| `DedupModel.SeenIsRightIff` | src/DedupCache.cpp:46-56 | for a hash in the table the answer agrees with the log if and only if the hash was not recorded a minute or less after a whole number of clock cycles ago |
| `DedupModel.TableRefinesLog` | src/DedupCache.cpp:46-96 | after every run of calls, however long, the table hits a hash the log has forgotten exactly when that hash has returned and stands in the table; and if no entry only looked live at a call, it misses a live hash only when as many other hashes as there are slots are at least as recent |
| `DedupModel.YoungIsSteady` | src/DedupCache.cpp:58-80 | that proviso holds over runs of any length whenever the entries in the table are younger than 2^32 ms at each call |
| `DedupModel.ReturnedEvictsLive` | src/DedupCache.cpp:58-80 | and is needed: a run in which an entry that only looks live stays and pushes out a live hash that nothing crowds |
| `DedupModel.LogIsLast` | src/DedupCache.cpp:82-96 | that log holds, for each hash recorded in the run, the latest time and nothing else |
| `DedupModel.ClockWrapFalseHit` | src/DedupCache.cpp:46-56 | a family of returned hashes: recorded once, taken for fresh after any whole number of clock cycles |
| `DedupCache.HashBytes` | src/DedupCache.cpp:27-44 | FNV-1a over body, sender and packet id, on 32 bits |
| `DedupCache.Cache.Seen` | src/DedupCache.cpp:46-56 | some slot holds the hash and is not expired |
| `DedupCache.Cache.InsertHash` | src/DedupCache.cpp:58-80 | its own slot, else the first free or expired one, else the oldest is written, no other |
| `DedupCache.Cache.SeenAndRecord` | src/DedupCache.cpp:82-89 | answers for the table before, and records either way |
| `DedupCache.Cache.Record` | src/DedupCache.cpp:91-96 | records without asking |
| `MeshCodec.DecodeMtPacket` | src/MeshDecoderDebug.h:380-453 | a packet built for a channel decodes there to its sender, id, port and payload, for one- and two-byte lengths |
| `MeshCodec.MtRelayInvisible` | src/MeshDecoderDebug.h:380-453 | rewriting the hop flags, next hop and relay byte of any packet changes nothing that is decoded |
| `MeshCodec.MtTextRoundTrip` | src/MeshEncoderDebug.h:121-206 | every text of 1 to 200 non-zero bytes is encoded and, after any relaying, decoded to the same text, sender and id |
| `MeshCodec.McPathInvisible` | src/MeshDecoderDebug.h:324-378 | route type, transport codes and path do not influence what is decoded behind them |
| `MeshCodec.McTextRoundTrip` | src/MeshEncoderDebug.h:44-108 | every text of 1 to 218 non-zero bytes is encoded and, after any change of path, decoded to the same text and timestamp |
| `MeshCodec.DecodeMcRestOf` | src/MeshDecoderDebug.h:349-378 | what is built behind the path is read back; an empty text is not read at all |
| `MeshFirmware.ReadVarint` | src/MeshDecoderDebug.h:58-69 | the loop reads the varint, or fails when it ends early or exceeds 64 bits |
| `MeshFirmware.SkipField` | src/MeshDecoderDebug.h:71-82 | steps over a field by wire type; fails on an unknown type or a field that does not fit |
| `MeshFirmware.WalkData` | src/MeshDecoderDebug.h:420-444 | the port and payload of the last such fields before the end or the first malformed field |
| `MeshFirmware.DecodePacket` | src/MeshDecoderDebug.h:385-444 | sender, id, port and payload of a decrypted packet of this channel; nothing for another channel or an impossible length |
| `MeshFirmware.EncodeMeshtasticText` | src/MeshEncoderDebug.h:121-206 | the packet in the caller's buffer, staged and encrypted in place; 0 and an untouched buffer when it cannot be built |
| `MeshFirmware.StagePacket` | src/MeshEncoderDebug.h:140-206 | header and Data message in the buffer, encrypted in place, are the packet |
| `MeshFirmware.ExtractMeshtasticBody` | src/MeshDecoderDebug.h:380-453 | the text of a packet of this channel, cut to the caller's buffer |
| `MeshFirmware.EcbInPlace` | src/MeshEncoderDebug.h:72-81 | block by block, exactly the given stretch becomes its ECB image |
| `MeshFirmware.EncodeMeshCoreGrpTxt` | src/MeshEncoderDebug.h:44-108 | the packet in the caller's buffer; 0 and an untouched buffer when text or buffer size does not allow it |
| `MeshFirmware.SkipPath` | src/MeshDecoderDebug.h:330-347 | where the group text begins behind header, transport codes and path; fails on other types or short frames |
| `MeshFirmware.ExtractMeshCoreBody` | src/MeshDecoderDebug.h:324-378 | timestamp and text up to its first zero byte, of a group text of this channel |
| `LoopModel.SenderScan` | src/main.cpp:607-626 | where the scan for a name has arrived, and that it reads past nothing it has excluded |
| `LoopModel.SenderFound` | src/main.cpp:607-626 | a name is found if and only if 1 to 31 plain characters stand before the first ": ", and is exactly those |
| `LoopGuard.EchoPrint` | src/main.cpp:1236-1320 | a packet and any relayed copy of it hash alike on every radio of that channel |
| `LoopGuard.SentTextHeard` | src/main.cpp:896-944 | a text sent to either mesh is heard there as the text, sender and id that were recorded |
| `LoopGuard.NameBecomesNode` | src/main.cpp:868-898 | "name: text" from MeshCore is heard on Meshtastic as the text, from the name's own virtual node |
| `LoopGuard.NodeBecomesName` | src/main.cpp:900-923 | a Meshtastic text is heard on MeshCore with its sender's name in front, if the buffer holds both |
| `LoopGuard.NodeInfoPrint` | src/main.cpp:633-659 | a NodeInfo we announce is absorbed when heard, so it needs no record |
| `LoopGuard.HopsRunOut` | src/main.cpp:982-1015 | a Meshtastic packet repeated by any bridges one after another is repeated at most as often as its hop limit, at most 7 |
| `LoopGuard.IngestCovered` | src/main.cpp:1031-1347 | whatever is heard, every packet it makes the bridge queue has its echo's hash recorded in that pass, or an echo that is absorbed |
| `LoopGuard.EchoQueuesNothing` | src/main.cpp:1316-1326 | for any log of records, however old, holding the packet's own, its echo on the same channel, relayed or not, inside the time to live and with the table not overrun, queues nothing |
| `LoopGuard.RunIsSafe` | src/main.cpp:1031-1347 | over every run of receptions, everything queued is so covered |
| `LoopGuard.NoLoops` | src/main.cpp:1031-1347 | over every run from boot, of any duration in which no table entry only looked live, the echo of anything ever queued, heard inside the time to live of its record and while the table is not overrun, adds nothing to what is queued |
| `LoopGuard.FreshPasses` | src/main.cpp:1316-1347 | a packet neither recorded within the time to live nor returned is always fanned out: the guard drops nothing new |
| `LoopTiming.StartedEchoQueuesNothing` | src/main.cpp:1472-1498 | a packet the scheduler starts has a record at most the queue's age limit, plus the delay of its push, old when checked; its echo queues nothing until the time to live less these has passed since |
| `LoopTiming.HalfAMinuteLeft` | src/main.cpp:1472-1498 | with the firmware's limits, the echo of a text or fragment the scheduler started queues nothing for 30 s after its last age check |
| `Bridge.ParseMcSenderName` | src/main.cpp:607-626 | the scanning loop finds the name the specification finds |
| `Bridge.EncodeMeshtasticNodeInfo` | src/MeshEncoderDebug.h:217-330 | the announcement in the caller's buffer; 0 when a name is too long or the buffer too small |
| `Bridge.Node.constructor` | src/main.cpp:1568-1720 | an empty table and empty queues |
| `Bridge.Node.RecordAndPush` | src/main.cpp:940-956 | the hash of the text is in the table and the packet at the end of its queue |
| `Bridge.Node.SendTextTo` | src/main.cpp:896-956 | encode in place, hash, record, push; nothing at all when the encoder refuses |
| `Bridge.Node.EnqueueVirtualNodeInfo` | src/main.cpp:633-659 | the announcement is queued when due, without a record |
| `Bridge.Node.EnqueueTextForDest` | src/main.cpp:827-957 | table and queues become what the specified records and packets make of them, by protocol of source and destination |
| `Bridge.Node.RawRepeatForDest` | src/main.cpp:982-1015 | one hop fewer and our relay byte on Meshtastic, the same bytes elsewhere; nothing at hop limit 0 or for our own packets |
| `Bridge.Node.EnqueueReticulumForDest` | src/main.cpp:500-598 | every fragment is recorded and queued in order |
| `Bridge.Node.ServeDest` | src/main.cpp:1338-1346 | one destination gets the raw repeat, the fragments or the text, by protocol and channel |
| `Bridge.Node.RelayDest` | src/main.cpp:1131-1137 | LoRaWAN frames go unchanged to other LoRaWAN radios |
| `Bridge.Node.DecodeMeshtastic` | src/main.cpp:1211-1305 | NodeInfo is absorbed; else position, telemetry or text, in this order, with sender and id |
| `Bridge.Node.DecodeMeshCore` | src/main.cpp:1306-1314 | the text of a MeshCore packet up to its first zero byte |
| `Bridge.Node.Fingerprint` | src/DedupCache.cpp:27-44 | the FNV loop computes the hash the loop theorems are instantiated with |
| `Bridge.Node.Identify` | src/main.cpp:1211-1320 | decode as the mesh's decoders do, then hash: the raw frame, or decoded text with sender and id, or nothing |
| `Bridge.Node.IngestAndFanout` | src/main.cpp:1031-1347 | shared table and queues after one reception are those of the specification that the loop theorems are about |
| `Base64.RoundTrip` | src/main.cpp:544-554 | decoding gives back every byte string (section 4 of RFC 4648) |
| `Base64.Canonical` | src/main.cpp:544-554 | whatever decodes is the encoding of what it decodes to |
| `Base64.EncodedLength` | src/main.cpp:544-554 | four characters for every three bytes begun |
| `RnsTunnel.SlicesTile` | src/main.cpp:540-542 | the slices from any one on are the rest of the frame |
| `RnsTunnel.Lossless` | src/main.cpp:527-560 | from all its texts, heard in any order and any number of times among any texts that are no fragments of its tag, the labels give the frame back |
| `RnsTunnel.MixLossless` | src/main.cpp:527-560 | from a mix of all fragments of any number of frames whose tags differ, each frame is put together again |
| `RnsTunnel.AtMostThree` | src/main.cpp:512-534 | a frame of 1 to 256 bytes makes one to three fragments: the overflow drop is unreachable |
| `RnsTunnel.FragmentFits` | src/main.cpp:544-579 | every fragment fits both buffers, is a text, and is accepted by its encoder |
| `RnsTunnel.TunnelLossless` | src/main.cpp:500-598 | the fragments queued for a mesh suffice to put together every frame of 1 to 256 bytes by their labels, among fragments of other tags too |
| `RnsTunnel.NextFragment` | src/main.cpp:540-579 | cutting, coding, labelling and encoding never gives up for such a frame |
| `RnsTunnel.BuildFragment` | src/main.cpp:544-579 | the packet of one slice, or nothing where a buffer or encoder refuses |
| `RnsTunnel.EncodePacket` | src/main.cpp:562-579 | the mesh's own in-place encoder on a packet buffer, or nothing when it refuses |
| `RouteQueue.Queue.constructor` | src/RouteQueue.cpp:11-32 | an empty ring |
| `RouteQueue.Queue.Push` | src/RouteQueue.cpp:34-50 | appends, dropping and counting the oldest entry when full; refuses empty and oversized packets |
| `RouteQueue.Queue.Pop` | src/RouteQueue.cpp:52-73 | discards and counts stale entries in front and takes the first fresh one, as the sequence specification does |
| `RouteQueue.Queue.Advance` | src/RouteQueue.cpp:37-41 | the head entry leaves, the others keep their order |
| `RouteQueue.Queue.Append` | src/RouteQueue.cpp:42-47 | the new entry stands last |
| `Airtime.EstimateAirtimeMs` | src/main.cpp:1353-1377 | the symbol formula of AN1200.13 over the reals, with the source's clamps and rounding |
| `Airtime.AirtimeBounded` | src/main.cpp:1353-1377 | at most 15 minutes for every length up to 256, spreading factor and bandwidth of the radio |
| `Airtime.LongerTakesLonger` | src/main.cpp:1353-1377 | a longer packet is never estimated shorter |
| `Scheduler.RunSound` | src/main.cpp:1413-1563 | over every run: each pushed packet has one fate, starts are in the order pushed, and none begins while one is in flight |
| `Scheduler.PacketsConserved` | src/main.cpp:1472-1559 | pushed = queued + latched + transmitted + dropped, over every run |
| `Scheduler.NeverStale` | src/main.cpp:1472-1487 | no transmission starts whose packet was over the age limit when checked in that pass, by the real clock while the age is below 2^32 |
| `Scheduler.GapNeverWraps` | src/main.cpp:1537-1547 | for real airtimes nothing in the gap computation exceeds 32 bits, and the gap is the larger of duty share and floor |
| `Scheduler.NotBefore` | src/main.cpp:1491-1493 | the wrapped comparison lets no deadline up to 2^31 ahead pass early |
| `Scheduler.DutyBound` | src/main.cpp:1491-1551 | over any consecutive starts of every run, 100 times the airtime is at most the duty times the time elapsed plus (n-1)(duty-1); without the excess when the duty divides 100 |
| `Scheduler.HalfTheTime` | src/main.cpp:1491-1551 | at the default 50 percent, the airtime of the packets started is at most half the time from one start to a later one |
| `Scheduler.OnAirBound` | src/RemoteRadio.cpp:95-116 | where a start only hands the packet over and the co-processor waits for a clear channel, the same ceiling holds between the times on air, with the first packet's wait added to the time |
| `Scheduler.NeverOverlaps` | src/main.cpp:1535-1548 | a start waits out the airtime and the minimum gap of the one before |
| `SchedulerProgress.StartsIff` | src/main.cpp:1471-1559 | after every run, a pass of an idle radio starts a transmission if and only if a packet is ready, nothing waits to be read, the channel is clear, no dwell limit applies, the chip accepts, and the true ends of the last gap and the last back-off count as passed |
| `SchedulerProgress.ReadyIff` | src/main.cpp:1472-1487 | a packet is ready exactly when the latched one, or else the first fresh one queued, is still fresh |
| `SchedulerProgress.PassedIff` | src/main.cpp:1491-1493 | the signed comparison takes a deadline for passed for exactly the first 2^31 ms after it |
| `SchedulerProgress.HeldBack` | src/main.cpp:1491-1493 | a radio that has not transmitted for 2^31 ms after its last gap starts nothing for another 2^31 ms |
| `RadioTask.Task.constructor` | src/main.cpp:1401-1410 | an idle radio with an empty queue |
| `RadioTask.Task.Service` | src/main.cpp:1413-1425 | in flight until done or timed out |
| `RadioTask.Task.Refill` | src/main.cpp:1472-1474 | an empty latch takes the first fresh entry |
| `RadioTask.Task.ExpireLatch` | src/main.cpp:1481-1487 | a stale latched packet is dropped |
| `RadioTask.Task.Due` | src/main.cpp:1491-1493 | the signed 32-bit comparison |
| `RadioTask.Task.Throttle` | src/main.cpp:1543-1547 | the gap for an airtime |
| `RadioTask.Task.Send` | src/main.cpp:1494-1558 | back-off, dwell drop, failed start or transmission, each with its new state |
| `RadioTask.Task.TrySend` | src/main.cpp:1491-1559 | nothing unless a packet is latched, nothing waits to be read and both deadlines passed |
| `RadioTask.Task.Turn` | src/main.cpp:1471-1559 | one pass on ring, latch and deadlines is one step of the scheduler specification |
| `LinkCrc.ComputeCrc16` | src/LinkProtocol.h:74-83 | the nested loops compute the bytewise fold the lemmas are about |
| `LinkCrc.CorruptionVisibleIff` | src/LinkProtocol.h:74-83 | the CRC is affine: a corruption changes it if and only if the error pattern alone does not leave a zero register zero |
| `LinkCrc.BurstChangesCrc` | src/LinkProtocol.h:74-83 | any burst of at most 16 consecutive bits, in either bit order, anywhere in a message of any length, changes the CRC |
| `LinkCrc.ByteChangesCrc` | src/LinkProtocol.h:74-83 | so does any damage to a single byte |
| `LinkFraming.BuildFrame` | src/LinkProtocol.h:87-103 | the frame in the caller's buffer, or 0 and an untouched buffer exactly when payload or buffer size does not allow it |
| `LinkFraming.BuiltFrameDelivered` | src/UartLink.cpp:70-109 | a built frame is delivered once and leaves the parser hunting |
| `LinkFraming.StreamDelivered` | src/UartLink.cpp:70-109 | built frames with any garbage free of AA 55 between them are delivered, exactly these and in order |
| `LinkFraming.OnlyBuiltFramesDelivered` | src/UartLink.cpp:70-109 | of any byte stream, what is delivered are built frames that stand in it one after another |
| `LinkFraming.LeavesFrame` | src/UartLink.cpp:70-109 | from any state the parser is out of a frame within MAX_FRAME bytes |
| `LinkFraming.BurstNeverDelivered` | src/UartLink.cpp:92-105 | a frame hit in type, radio or payload by a burst of at most 16 bits, in either bit order, is not delivered while its length and CRC bytes arrive intact |
| `LinkFraming.ByteNeverDelivered` | src/UartLink.cpp:92-105 | nor is one with a single damaged byte in type, radio or payload |
| `LinkFraming.CrcDamageNeverDelivered` | src/UartLink.cpp:92-105 | nor one damaged in its CRC bytes alone, in any way |
| `LinkBursts.GarbledDeliveredIff` | src/UartLink.cpp:92-105 | a frame damaged in any way behind its preamble but not in its length is delivered, in its damaged form, if and only if the error in its CRC bytes is the CRC that the error before them leaves from zero; otherwise nothing is delivered |
| `LinkBursts.ShortBurstNeverDelivered` | src/UartLink.cpp:92-105 | so a burst of at most 14 bits in wire order, or 12 most significant bit first, that spares preamble and length is never delivered, CRC bytes included |
| `LinkBursts.EscapingBurst` | src/UartLink.cpp:92-105 | longer ones can be: every frame with a payload has a form damaged by 15 bits in wire order, and one by 13 bits most significant bit first, that is delivered with another payload |
| `LinkParsers.HostParser.FeedByte` | src/UartLink.cpp:70-109 | the host's parser makes the specified step, and its indices stay in bounds |
| `LinkParsers.HostParser.FeedAll` | src/UartLink.cpp:60-67 | over a whole stream it hands on what the specification delivers |
| `LinkParsers.CoprocParser.FeedByte` | coproc-xiao-sx1262/src/coproc_main.cpp:237-269 | the co-processor's own parser makes the same step |
| `LinkParsers.CoprocParser.FeedAll` | coproc-xiao-sx1262/src/coproc_main.cpp:326-335 | and delivers the same over a whole stream |
| `LinkParsers.Lockstep` | coproc-xiao-sx1262/src/coproc_main.cpp:237-269 | fed the same bytes, both parsers reach the same state and hand on the same frames |
| `LinkToken.TokensBounded` | src/RemoteRadio.cpp:95-116 | over every run of both devices with loss, reconfiguration and reboots, tokens never exceed the host's give-ups plus the one it waits for |
| `LinkToken.OneToken` | src/UartLink.cpp:15-22 | while the host has not given up there is at most one token, only while it waits, and at most one queued job |
| `LinkToken.OverflowNeedsFourGiveUps` | coproc-xiao-sx1262/src/coproc_main.cpp:105-114 | the queue can overflow after g give-ups if and only if g is at least its depth |
| `LinkToken.FramesAccounted` | coproc-xiao-sx1262/src/coproc_main.cpp:185-203 | every frame that arrived is answered, outstanding or discarded |
| `LinkToken.AllAnsweredIff` | coproc-xiao-sx1262/src/coproc_main.cpp:138-203 | at every moment of a run the co-processor can still answer all that has reached it if and only if no radio was configured while on the air, none was switched off or failed to start with jobs queued, and no restart found anything outstanding |
| `LinkToken.AnswerableIff` | coproc-xiao-sx1262/src/coproc_main.cpp:348-400 | its own work suffices to answer everything that arrived if and only if nothing was discarded and what is queued is on an enabled radio |
| `LinkToken.DiscardWedgesUntilGiveUp` | src/main.cpp:1413-1425 | once its token is gone, a waiting host waits until it gives up |
| `LinkToken.ReconfigureWedges` | coproc-xiao-sx1262/src/coproc_main.cpp:138-184 | reconfiguring a radio in mid-transmission leaves the host in that state |
| `LinkToken.DisableStrands` | coproc-xiao-sx1262/src/coproc_main.cpp:153-184 | a radio switched off, or failing to start, with a job queued behind a busy channel: nothing is discarded, nothing answered, and the host waits as long as neither end gives up, restarts or switches it on |
| `CoprocRadio.Radio.Push` | coproc-xiao-sx1262/src/coproc_main.cpp:105-114 | appends the job, cut to its buffer, unless four are queued |
| `CoprocRadio.Radio.Pop` | coproc-xiao-sx1262/src/coproc_main.cpp:116-120 | the oldest job leaves |
| `CoprocRadio.Radio.HandleTx` | coproc-xiao-sx1262/src/coproc_main.cpp:185-203 | queues, or answers at once when disabled or full: a step of the token protocol |
| `CoprocRadio.Radio.Configure` | coproc-xiao-sx1262/src/coproc_main.cpp:138-184 | re-tuned or disabled, and whatever was on the air forgotten: a step of the token protocol |
| `CoprocRadio.Radio.Service` | coproc-xiao-sx1262/src/coproc_main.cpp:348-400 | finishes a transmission or dispatches the oldest job: a step of the token protocol |
| `AviFormat.FlatIsNested` | src/CameraNode.cpp:189-312 | header with its patched fields, frames and index written one after another are the nested RIFF structure, every length that of its contents |
| `AviFormat.FileTiles` | src/CameraNode.cpp:189-219 | read as chunks, the file is one RIFF chunk holding headers, movie and index and nothing else |
| `AviFormat.HeadersTile` | src/CameraNode.cpp:189-219 | the header lists are filled exactly by their chunks |
| `AviFormat.MovieTiles` | src/CameraNode.cpp:260-269 | the movie list holds exactly the frames, odd lengths included, in order |
| `AviFormat.IndexAgrees` | src/CameraNode.cpp:263-299 | following entry i finds exactly frame i, and no entry exists beyond the last |
| `AviRecorder.File.Write` | src/CameraNode.cpp:189-312 | bytes overwrite and extend the file at its position |
| `AviRecorder.BuildHeader` | src/CameraNode.cpp:189-219 | the 224 bytes with zeros in the fields to be patched |
| `AviRecorder.WriteFrame` | src/CameraNode.cpp:260-267 | one padded chunk more at the end of the file |
| `AviRecorder.TakeShot` | src/CameraNode.cpp:255-269 | header before the first frame, index entry, chunk and running size after each |
| `AviRecorder.WriteIndex` | src/CameraNode.cpp:292-299 | the index of all frames behind the movie |
| `AviRecorder.PatchAll` | src/CameraNode.cpp:304-309 | the six writes at fixed offsets set exactly the six fields |
| `AviRecorder.Finalize` | src/CameraNode.cpp:291-310 | index and patches turn the stream into the nested file |
| `AviRecorder.Close` | src/CameraNode.cpp:300-310 | with the counted sizes the patches make every length true |
| `AviRecorder.Record` | src/CameraNode.cpp:221-312 | for every sequence of shots, failed ones included, the file is that of the frames recorded, or empty and removed when there are none; unfinished frames behind a blank header when the bus cannot be had at the end |
| `AviRecorder.RecordMovie` | src/CameraNode.cpp:221-312 | with the firmware's little-endian fields, a finished recording plays every frame while below 4 GiB, and announces its true length exactly when 32 bits hold it |
| `AviRecorder.UnfinishedReadsNothing` | src/CameraNode.cpp:291-311 | an unfinished one announces length 0, and through its header no frame is found |
| `AviRecorder.RecordingPlays` | src/CameraNode.cpp:189-312 | following the index and walking the movie both give exactly the frames recorded |
| `AviRecorder.RecordingReads` | src/CameraNode.cpp:221-312 | a finished recording of less than 4 GiB reads back frame by frame through its index, and as its chunk list |
| `AviRecorder.RiffSizeTrueIff` | src/CameraNode.cpp:302-304 | the announced length is the true one if and only if 32 bits hold it |
| `PhotoList.Collect` | src/CameraNode.cpp:94-114 | of all directory entries the array keeps as many as fit, and none left out is newer than one kept |
| `PhotoList.InsertOne` | src/CameraNode.cpp:119-124 | one more entry is in its place, the same entries in all |
| `PhotoList.SortNewestFirst` | src/CameraNode.cpp:118-124 | newest first, a permutation of what was there |
| `PhotoList.List` | src/CameraNode.cpp:88-126 | the newest entries there is room for, newest first |

## Left out

- ABP uplinks in the loop model: the emitter records a hash over device address and counter and the LoRaWAN ingest hashes the frame alone, so no echo guarantee exists for them.
- Loop freedom across several bridges for text that changes protocol: each bridge mints a new sender and packet id. Only the hop limit of raw repeats is proved for several.
- Camera and commander roles, the custom repeater and the ABP encoder inside the fan-out: build flags not set in the stock bridge.
- Bridge.Node.IngestAndFanout: the queues are sequences here; that the ring is such a queue is proved in RouteQueue, and one call is one step although radio tasks run side by side.
- Position, telemetry and NodeInfo payload formats: any function of the decrypted payload; what they print is not modelled.
- MeshFirmware.SkipField: a varint is cut to 64 bits as in the source, but a position plus a length near 2^64 does not wrap here.
- MeshFirmware.WalkData: the same, for the length of the payload field.
- MeshFirmware.DecodePacket: the same, as its walker is WalkData.
- MeshFirmware.ExtractMeshtasticBody: the same, as it decodes with DecodePacket.
- PeerStore.Store.Begin: the key of a build's own peer comes as bytes; reading it from hexadecimal digits, and no peer when that fails, happen before.
- MeshFirmware.ExtractMeshCoreBody: the MAC is not checked, as in the source's decoder.
- Airtime.EstimateAirtimeMs: over the reals; rounding of floating-point numbers is not modelled.
- Virtual node ids, the node database and announcement timing: look-ups that may answer anything.
- Reassembly of Reticulum fragments: the source's reassembler is a stub; Receive is the receiver its labels are meant for. Frames whose CRCs share the low byte have the same tag, and it does not tell their fragments apart.
- AviRecorder.Record: every write to the card succeeds, and the card's own limits are not modelled; a shot whose locks fail is a failed shot.
- Scheduler.HalfTheTime: between the host's starts; what a remote radio has on the air is OnAirBound's.
- File deletion, streaming reads, still pictures and the recording task's clock: input and output without further logic.
- C2Node.SendTo: a text is cut to 48 bytes by its caller, before this.
- Execution of C2 commands, acknowledgements and beacons: each is one more frame through SendTo.
- Web portals, sessions, WiFi, name service and video streaming: user interface.
- Radio drivers, SPI, interrupts and the operating system: their results are parameters.
- Configuration schema, channel resolution and region tables: field copies and look-ups.
- Logging, self tests, clock learning and bench tools: nothing depends on them here.
