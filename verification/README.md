# Verified model of the STM32 CANopen reference firmware

This Dafny project models six parts of the firmware and proves, for every input, every run or every
reachable state, what the code and its documentation promise of them.

* **ISO-TP transport** (section 9.6 of ISO 15765-2:2016). `IsoTp` specifies the sender and receiver of `isotp.c`
  call by call; `IsoTpMachines` holds the two objects with their buffers and fields updated in place, proved
  equal to that specification. On it stand closed-loop delivery and absence of deadlock (`IsoTpLink`), what the
  receiver does with arbitrary input (`IsoTpStream`), what one transfer of the sender puts out under arbitrary input
  (`IsoTpTransfer`), timing and time-outs under clock wrap-around (`IsoTpTiming`), flow control and blocks
  (`IsoTpFlow`), and the host-side encoder and receiver that serve as the simple reference (`IsoTpHost`,
  `IsoTpAgreement`).
* **Flash persistence**. `FlashStorage` models two slots, the order of erase and program steps and every way a
  store can be cut short; `FlashImage` adds the actual CRC-32 (section 8 of RFC 1952: the code in `Crc32`, in
  `Crc32Law` what makes it this checksum and no other); `FlashDriver` is the driver working on two word arrays in
  place.
* **Frame queues between interrupt and main line**. `FrameQueue` interleaves producer and consumer at the grain of
  single memory accesses; `FrameDelivery` says what that makes of the traffic; `CanQueues` holds the rings as
  objects, with the transmit loop, and `CanTransport` passes ISO-TP frames through them.
* **Diagnostics**. `UdsDownload` and `UdsDownloader` are the firmware download (specification and object),
  `UdsServer` and `UdsResponder` the UDS server (specification, and the object that writes responses in place),
  `UdsRuntime` and `UdsDiagnostics` the two joined by the callbacks of the reference application. What each answers
  is stated independently of how it is computed: `UdsOutcomes` for the download, `UdsAnswers` and `UdsHistory` for
  the server, call by call and over runs, `UdsTold` for the two together.
* **NMT master**. `NmtMaster` supervises up to 127 nodes and keeps a log of what it emits; `NmtSupervisor` is the
  object with its array of node records and its loops; `NmtHistory` reads the master's state off its log and calls.
* **Two exactness results**: segmented SDO upload between mock node and client (`SdoUpload`,
  `SdoHistory`, section 7.2.4.3 of CiA 301), and the acceptance filter of the CAN controller (`AcceptanceFilter`).

The pattern is the same throughout. A state is a value; an operation is a function on it; a class with the source's
fields has a `State()` and methods whose `ensures` equate the new state and the result with that function; runs,
invariants and whole-system properties are lemmas about the function. Beside them, for the operations of each part,
stands what they answer and leave behind as read off the inputs so far. What the code cannot know (clock readings,
mailbox results, erase, program and verify outcomes, callback answers) is an input of the operation and ranges
over all values.

`Words` and `Buffers` hold the fixed-width arithmetic and the byte copy that everything shares.

Where the code does less than one might expect, the exact condition is stated, with an input that shows the other side:

* An image accepted by the download lies inside the staging region exactly if it does not start past the region's
  end, because `range_inside` subtracts unsigned (`UdsDownload.AcceptedInsideStagingExactly`,
  `UdsDownload.OutsideStagingCanBeAccepted`). It is outside every protected region unconditionally.
* The block counters of server and download stay together exactly unless a new image begins below while the
  response buffer has room for less than four bytes (`UdsRuntime.StepKeepsTwinExactly`,
  `UdsRuntime.ThreeBytesPartTheCounters`).
* With a separation time shorter than the sender's time-out, a transfer can be completed from every instant at
  which the sender's deadline has not passed; once it has passed, an unblocked sender cannot finish without a
  time-out for as long as the clock shows the deadline as passed (`IsoTpLink.ClosedLoopNeverStuck`,
  `IsoTpLink.LateSenderIsStuck`). With a separation time as long as the time-out or longer there is no instant, within
  half the clock range, for the next frame of a block or for the completion (`IsoTpTiming.NextFrameHasItsTimeExactly`,
  `IsoTpTiming.CompletionHasItsTimeExactly`).
* A byte that is no state counts as a sign of life: readiness can be announced for a node whose last valid state is
  older than its time-out (`NmtMaster.StaleNodeCanBeReady`). For a node that is up, this is ruled out exactly if its
  last sign of life is its last valid state, which holds unless an invalid byte came in since
  (`NmtMaster.PresentIsFreshExactly`, `NmtMaster.ReadyIsFresh`).
* The separation time holds in milliseconds of the clock. In real time it holds for every next frame exactly if the
  first call came early enough in its millisecond; for the codes 0xF1 to 0xF9 the rounding up to one millisecond
  leaves between 900 and 100 microseconds (`IsoTpTiming.SeparationHoldsExactly`).
* The host's receiver and the device's stay in the same reception exactly unless a single frame or a first frame of
  impossible length finds one open: the device gives it up, the host does not (`IsoTpAgreement.HostAgreesExactly`).
* A transfer-exit response fits the buffer exactly if the callback kept to its capacity or reported 0xFFFF, and a
  routine response exactly if the buffer has four bytes; a seed response is proper exactly unless its length is
  reported as 0xFFFE (`UdsServer.ExitResponseFitsExactly`, `UdsServer.RoutineNeedsFourBytes`,
  `UdsServer.SeedIsProperExactly`).
* An object value read by expedited SDO upload comes back exactly if it has at least one byte; an empty value reads
  as four zero bytes (`SdoUpload.ExpeditedExactly`).

## Model

| member | source | states |
|---|---|---|
| Words.ExpiredIsElapsed | middleware/diagnostics/isotp/isotp.c:8-10 | the signed comparison on a wrapping 32-bit clock answers "has the delay passed?" exactly, for instants and delays within half the clock range |
| IsoTp.MakeFrame | middleware/diagnostics/isotp/isotp.c:16-22 | the frame's meaningful bytes are the given content and all others are zero |
| IsoTp.RxFeed | middleware/diagnostics/isotp/isotp.c:83-170 | in every state, for every frame, an active reception stays strictly shorter than its declared length, which stays within 8..4095, with a 4-bit sequence number |
| IsoTp.TxFeedFlowControl | middleware/diagnostics/isotp/isotp.c:253-294 | the offset stays inside the payload and the stored separation time stays a legal one, whatever flow-control frame arrives |
| IsoTp.TxNext | middleware/diagnostics/isotp/isotp.c:296-340 | polling keeps the offset inside a payload of at most 4095 bytes and the sequence number 4 bits wide |
| IsoTpMachines.IsoTpReceiver.Reset | middleware/diagnostics/isotp/isotp.c:62-72 | the object is back in the reset state |
| IsoTpMachines.IsoTpReceiver.Feed | middleware/diagnostics/isotp/isotp.c:83-170 | the in-place receiver has exactly the specified effect and reports exactly the specified status, payload and flow-control frame, error cases included |
| IsoTpMachines.IsoTpReceiver.TakeSingle | middleware/diagnostics/isotp/isotp.c:99-111 | a single frame is copied out of the frame or refused, and a good one ends any open reception |
| IsoTpMachines.IsoTpReceiver.TakeFirst | middleware/diagnostics/isotp/isotp.c:113-133 | a first frame opens a reception with its bytes and asks for flow control, or is refused with the right error |
| IsoTpMachines.IsoTpReceiver.TakeConsecutive | middleware/diagnostics/isotp/isotp.c:135-166 | a consecutive frame extends, completes or resets the reception, and asks for flow control at the end of a block |
| IsoTpMachines.IsoTpReceiver.Tick | middleware/diagnostics/isotp/isotp.c:172-181 | the reception is dropped exactly at its deadline |
| IsoTpMachines.IsoTpSender.Reset | middleware/diagnostics/isotp/isotp.c:197-212 | every field, the wait counter included, is back at its initial value |
| IsoTpMachines.IsoTpSender.Start | middleware/diagnostics/isotp/isotp.c:214-251 | the payload is copied into the buffer and the single or first frame is handed out; the wait counter is not renewed |
| IsoTpMachines.IsoTpSender.FeedFlowControl | middleware/diagnostics/isotp/isotp.c:253-294 | clear-to-send, wait, overflow and malformed flow control have exactly the specified effect |
| IsoTpMachines.IsoTpSender.Next | middleware/diagnostics/isotp/isotp.c:296-340 | the next consecutive frame, completion, time-out or nothing, exactly as specified |
| IsoTpMachines.IsoTpSender.Tick | middleware/diagnostics/isotp/isotp.c:342-351 | the transfer is dropped exactly at its deadline |
| IsoTpLink.ReceiverAdvances | middleware/diagnostics/isotp/isotp.c:135-166 | the payload's next frame extends the received prefix, completes it at the end with exactly the payload, and draws flow control exactly at a block boundary before the end |
| IsoTpLink.SenderEmits | middleware/diagnostics/isotp/isotp.c:317-329 | a free sender emits exactly the payload's next frame, with the right number and bytes, and moves past it |
| IsoTpLink.SenderKeepsPace | middleware/diagnostics/isotp/isotp.c:325-334 | the sender blocks exactly when its block is full and bytes remain |
| IsoTpLink.StepKeepsInv | middleware/diagnostics/isotp/isotp.c:83-351 | every timely call of either side keeps the joint invariant of the pair, and either changes nothing or brings the transfer nearer to its end |
| IsoTpLink.ClosedLoopDelivers | middleware/diagnostics/isotp/isotp.c:83-340 | for every payload of 1..4095 bytes, block size, separation time, prior state of both sides and interleaving without time-outs: no call reports an error, the frames on the wire are the payload's frames, the payload is delivered exactly once, with its last frame |
| IsoTpLink.FlowControlLockstep | middleware/diagnostics/isotp/isotp.c:150-164 | after the first frame, a flow-control frame is under way exactly when the sender is blocked and nothing is under way to the receiver |
| IsoTpLink.SomeCallProgresses | middleware/diagnostics/isotp/isotp.c:296-340 | in every state of an unfinished transfer, from every instant at which the sender is in time, some call at that instant or later changes something and leaves the sender in time |
| IsoTpLink.ClosedLoopNeverStuck | middleware/diagnostics/isotp/isotp.c:83-351 | from every state a timely run reaches and every instant at which the sender's deadline has not passed, a bounded number of further calls at instants that never go back delivers the payload without a time-out, if the separation time is shorter than the sender's time-out; if it is shorter than the receiver's too and both sides are on time, ticks of either side at any instant of that schedule never time out either |
| IsoTpLink.BeginsOnTime | middleware/diagnostics/isotp/isotp.c:214-251 | a transfer starts with both sides on time, unless the receiver is late in an older reception |
| IsoTpLink.PassingTicksChangeNothing | middleware/diagnostics/isotp/isotp.c:172-181 | a tick of either side that reports no time-out leaves the whole pair as it was, so that any number of them may be interspersed |
| IsoTpLink.LateSenderIsStuck | middleware/diagnostics/isotp/isotp.c:306-309 | the other half: once the deadline of an unblocked sender has passed, no calls at instants that never go back finish its transfer without a time-out, for as long as the clock shows the deadline as passed |
| IsoTpTransfer.SenderSendsPayload | middleware/diagnostics/isotp/isotp.c:214-351 | for every segmented payload and whatever flow control, ticks and clock readings follow the start: the frames handed out are the payload's consecutive frames from the first on, none skipped or repeated, each shrinking the remainder; completion is reported only after exactly ceil((n - 6) / 7) of them |
| IsoTpTransfer.OutputIsPrefix | middleware/diagnostics/isotp/isotp.c:214-340 | for every payload of 1..4095 bytes the whole output of a transfer is a prefix of the payload's frames, and all of them on completion |
| IsoTpStream.ReceiverReflectsInput | middleware/diagnostics/isotp/isotp.c:83-181 | on arbitrary frames and ticks the receiver is active exactly if the input ends in an open reception, and holds exactly that reception's bytes, count, length and deadline |
| IsoTpStream.CompleteExactly | middleware/diagnostics/isotp/isotp.c:99-159 | on arbitrary input, COMPLETE is reported exactly for a good single frame or the correctly numbered frame that fills an open reception, with the declared-length prefix of that reception's bytes |
| IsoTpStream.AnswersExactly | middleware/diagnostics/isotp/isotp.c:83-170 | on arbitrary input the status of every frame is read off the input: sequence error exactly for a wrong number in an open reception, state error exactly for a consecutive frame outside one, a request for flow control exactly after a good first frame or a full block that does not complete; exactly those carry 30, block size and separation time; overflow is never reported |
| IsoTpStream.TickAnswersExactly | middleware/diagnostics/isotp/isotp.c:172-181 | a tick reports a time-out and resets exactly if a reception is open and the time-out has expired since its last frame |
| IsoTpTiming.SeparationRespected | middleware/diagnostics/isotp/isotp.c:306-334 | in the milliseconds of the caller's clock, two consecutive frames of one block are never closer than the peer's separation time, however the clock wraps |
| IsoTpTiming.SeparationInMicroseconds | middleware/diagnostics/isotp/isotp.c:28-35 | in real time a gap is at least the separation time rounded up to whole milliseconds, less the part of its millisecond that had passed at the first call |
| IsoTpTiming.SeparationFallsShort | middleware/diagnostics/isotp/isotp.c:28-35 | and exactly that gap occurs, for every separation time, when the second call comes at the start of the right millisecond |
| IsoTpTiming.SeparationHoldsExactly | middleware/diagnostics/isotp/isotp.c:28-35 | for every separation time, the microsecond codes included, every next frame keeps the distance in real time exactly if none was asked for or the first call came no later in its millisecond than the rounding up makes good |
| IsoTpTiming.DueFrameGoesOut | middleware/diagnostics/isotp/isotp.c:306-339 | once the separation time has passed, and before the time-out, the next frame does go out |
| IsoTpTiming.NextFrameHasItsTimeExactly | middleware/diagnostics/isotp/isotp.c:306-334 | within half the clock range there is an instant at which the next frame of a block can go out exactly if the separation time is shorter than the time-out |
| IsoTpTiming.CompletionHasItsTimeExactly | middleware/diagnostics/isotp/isotp.c:306-316 | after the last frame, within half the clock range there is an instant at which completion is reported exactly if the separation time is shorter than the time-out |
| IsoTpTiming.SeparationIsRoundedUp | middleware/diagnostics/isotp/isotp.c:28-35 | the milliseconds kept are the separation time rounded up, and no more |
| IsoTpTiming.TickTimesOutExactly | middleware/diagnostics/isotp/isotp.c:342-351 | after any run, a tick reports a time-out and resets exactly if the transfer is active, waiting for flow control or not, and the time-out has passed since its start, the last accepted flow control or the last frame, whichever came last |
| IsoTpTiming.PollAnswersExactly | middleware/diagnostics/isotp/isotp.c:296-340 | after any run, asking for the next frame answers nothing while idle, waiting or pausing, a time-out at the same instants as a tick, else a frame while bytes are left and completion after that |
| IsoTpFlow.FlowControlExactly | middleware/diagnostics/isotp/isotp.c:253-294 | after any run, which frames are accepted, which are an argument, state or flow-control error, which end the transfer and which are ignored; clear-to-send alone lets the sender go on |
| IsoTpFlow.BlockEndsExactly | middleware/diagnostics/isotp/isotp.c:325-334 | after any run, a frame makes the sender wait exactly if as many frames as the block size have gone out since the last clear-to-send, and bytes are left |
| IsoTpFlow.StartExactly | middleware/diagnostics/isotp/isotp.c:214-251 | exactly 1 to 4095 bytes are taken; up to seven end whatever was under way, more leave the sender waiting; a refusal changes nothing |
| IsoTpTiming.WaitBudget | middleware/diagnostics/isotp/isotp.c:280-289 | over every run the wait counter is the number of WAIT frames since the last clear-to-send or reset, and never exceeds the budget |
| IsoTpTiming.FirstWaitNeedsBudget | middleware/diagnostics/isotp/isotp.c:225-287 | after any run, a new transfer takes its first WAIT exactly if the WAITs since the last clear-to-send or reset, abandoned transfers included, leave something of the budget; otherwise it is given up with a flow-control error |
| IsoTpHost.IsotpEncode | middleware/diagnostics/uds_isotp.py:89-104 | the encoder raises exactly on an empty or oversized payload or a long identifier, and otherwise lists frame by frame what the embedded sender transmits |
| IsoTpHost.HostReceiver.Feed | middleware/diagnostics/uds_isotp.py:41-74 | the host receiver's fields, returned frames and payload follow the specification, and a raise leaves what the specification says |
| IsoTpHost.HostReceiver.TakeIfReady | middleware/diagnostics/uds_isotp.py:76-81 | the declared-length prefix is handed out and the receiver reset, exactly when enough bytes are there |
| IsoTpHost.HostRoundTrip | middleware/diagnostics/uds_isotp.py:41-104 | a host receiver in any state, fed the encoder's list, never raises, yields the payload with the last frame and nothing before it |
| IsoTpHost.SenderRefinesEncoder | middleware/diagnostics/uds_isotp.py:89-104 | whatever flow control, ticks and clock readings come in, what one transfer of the embedded sender puts out is byte for byte a prefix of the host encoder's list, and the whole list once completion is reported or one frame was enough |
| IsoTpHost.LinkRefinesEncoder | middleware/diagnostics/isotp/isotp.c:214-340 | in every timely closed-loop run the frames sent are a prefix of the host encoder's list, and the whole list once the link is quiet |
| IsoTpAgreement.HostAgreesExactly | middleware/diagnostics/uds_isotp.py:41-81 | host and device, in the same reception, refuse the same frames, deliver the same payloads and stay together, exactly unless a single frame or an impossible first frame finds a reception open; empty single frames and flow control are the other differences; exactly a good first frame is answered with 30 00 00 |
| Crc32.ComputeUpdate | middleware/diagnostics/uds/uds_download.c:28-37 | the nested loop computes the byte-wise specification |
| Crc32.UpdateInChunks | middleware/diagnostics/uds/uds_download.c:28-37 | the streaming checksum over any chunking is the checksum of the concatenation |
| Crc32.UpdateInjective | App/Src/canopen_reference_storage.c:48-59 | different registers stay different under the same bytes |
| Crc32.BytesBack | App/Src/canopen_reference_storage.c:48-59 | up to four bytes fed into one register can be told from the result |
| Crc32.BurstIsDetected | App/Src/canopen_reference_storage.c:48-59 | two byte strings of equal length that differ only within four consecutive bytes have different CRC-32 values |
| Crc32Law.ResidueLaw | middleware/diagnostics/uds/uds_download.c:28-37 | every message followed by its checksum, least significant byte first, leaves the register at DEBB20E3 |
| Crc32Law.ResidueTellsChecksum | middleware/diagnostics/uds/uds_download.c:168-169 | and no other four bytes behind the message do |
| Crc32Law.CheckValue | middleware/diagnostics/uds/uds_download.c:28-37 | the checksum of the nine digits is CBF43926 |
| FlashStorage.Layout.NewestIsLater | App/Src/canopen_reference_storage.c:75-89 | of two valid slots with adjacent sequence numbers the signed comparison picks the later one, across the 32-bit wrap |
| FlashStorage.Layout.TargetIsOlder | App/Src/canopen_reference_storage.c:126-134 | the slot a store erases is never the newest valid one |
| FlashStorage.Layout.WrittenIsValid | App/Src/canopen_reference_storage.c:97-156 | an attempt leaves the intended valid image exactly if its magic word was completed; otherwise its slot is untouched or invalid |
| FlashStorage.Layout.SuccessorIsNewest | App/Src/canopen_reference_storage.c:75-95 | a completed image with the next sequence number is the one found newest afterwards, and the numbers stay adjacent |
| FlashStorage.Layout.WreckIsIgnored | App/Src/canopen_reference_storage.c:75-89 | ruining the other slot changes nothing about which image is newest |
| FlashStorage.Layout.StoreIsAtomic | App/Src/canopen_reference_storage.c:113-169 | after one attempt cut anywhere, restoring gives the new payload if the magic word was completed and the old one if not; the newest slot is untouched and the sequence numbers of two valid slots stay adjacent |
| FlashStorage.Layout.PowerLossAtomicity | App/Src/canopen_reference_storage.c:67-169 | from blank Flash, after any sequence of attempts each cut at any erase or word, restoring gives the payload of the last completed attempt: never a mixture, never an older one |
| FlashStorage.Layout.ImageValidExactly | App/Src/canopen_reference_storage.c:67-73 | a slot is valid exactly if it holds magic, version 1, some number, the length in bytes, the checksum of the payload, and the payload |
| FlashStorage.Layout.NewestIsNumbered | App/Src/canopen_reference_storage.c:91-95 | from blank Flash the newest image carries the number of completed stores, modulo 2^32 |
| FlashImage.StorageCrc32 | App/Src/canopen_reference_storage.c:48-59 | the checksum over the payload seen as bytes |
| FlashImage.BytesMakeWord | App/Src/canopen_reference_storage.c:48-59 | the bytes of a word in memory order, the first the least significant, make the word again |
| FlashImage.CorruptionIsNoticed | App/Src/canopen_reference_storage.c:67-73 | a valid slot whose payload is changed only within four consecutive bytes is no longer valid |
| FlashImage.WordCorruptionIsNoticed | App/Src/canopen_reference_storage.c:67-73 | any change of one payload word invalidates the slot |
| FlashImage.DamagedNewestIsSkipped | App/Src/canopen_reference_storage.c:75-89 | with its newest image damaged in one word, restoring falls back to the other slot or to nothing |
| FlashDriver.FlashBackend.IsValid | App/Src/canopen_reference_storage.c:67-73 | the comparison of the header fields decides validity |
| FlashDriver.FlashBackend.FindNewest | App/Src/canopen_reference_storage.c:75-89 | the slot returned is the specified newest one, or none |
| FlashDriver.FlashBackend.FindNextSequence | App/Src/canopen_reference_storage.c:91-95 | the number returned is the specified successor, 1 on blank Flash |
| FlashDriver.FlashBackend.ProgramBody | App/Src/canopen_reference_storage.c:97-111 | after any number of loop turns exactly that many words behind the magic word are programmed and all others are erased |
| FlashDriver.FlashBackend.Store | App/Src/canopen_reference_storage.c:113-169 | the two word arrays end as specified for the given fault; the call returns true exactly on a fault-free store of the right length, and then the payload is the one restored; after a failed store the new or the old payload is, as the magic word was completed or not |
| FlashDriver.FlashBackend.Restore | App/Src/canopen_reference_storage.c:159-168 | the payload of the newest image, or nothing for a wrong length or without a valid image |
| FrameQueue.NextIndexWraps | middleware/diagnostics/uds_stm32/uds_stm32.c:29-31 | the index step is the successor modulo the capacity |
| FrameQueue.FullExactly | middleware/diagnostics/uds_stm32/uds_stm32.c:113-119 | comparing indices tells exactly whether capacity - 1 frames are queued |
| FrameQueue.EmptyExactly | middleware/diagnostics/uds_stm32/uds_stm32.c:133-137 | equal indices mean exactly an empty queue |
| FrameQueue.NoSharedSlot | middleware/diagnostics/uds_stm32/uds_stm32.c:121-142 | the slot being written is never the slot being read |
| FrameQueue.StepKeepsAccounts | middleware/diagnostics/uds_stm32/uds_stm32.c:101-127 | every atomic step keeps the account: an arrival that passed the filter is accepted, dropped or in hand, and the counters show it modulo 2^32 |
| FrameQueue.StepRefinesFifo | middleware/diagnostics/uds_stm32/uds_stm32.c:101-146 | every atomic step of either side is a push at the back, a pop at the front, or invisible; a drop happens only with capacity - 1 frames queued |
| FrameQueue.QueueIsFifo | middleware/canopen/port/can_port.c:160-240 | in every interleaving of atomic steps: popped frames are a prefix of the accepted ones, at most capacity - 1 are queued, the sides never share a slot, every matching arrival is accepted, counted as overflow or in hand |
| FrameDelivery.OfferedIsTaken | middleware/diagnostics/uds_stm32/uds_stm32.c:33-35 | in every interleaving the queue takes in, in order, the frames of at most eight bytes and eleven identifier bits that carry one of the two identifiers; what is left out is counted as dropped, without drops it is all of them, and exactly the malformed arrivals are counted as invalid |
| FrameDelivery.ArrivalIsServed | middleware/diagnostics/uds_stm32/uds_stm32.c:101-127 | undisturbed, the interrupt finishes with a frame in a bounded number of steps: accepted as the newest, or dropped exactly when capacity - 1 are queued |
| FrameDelivery.PollTakesOldest | middleware/diagnostics/uds_stm32/uds_stm32.c:129-146 | undisturbed, a poll gets the oldest queued frame in a bounded number of steps, or finds the queue empty |
| CanQueues.FrameRing.Put | middleware/diagnostics/uds_stm32/uds_stm32.c:154-167 | the frame goes behind the queued ones unless capacity - 1 are queued |
| CanQueues.FrameRing.Take | middleware/diagnostics/uds_stm32/uds_stm32.c:133-145 | the oldest frame comes out, byte for byte, and the rest stays in order |
| CanQueues.UdsCan.RxFromIsr | middleware/diagnostics/uds_stm32/uds_stm32.c:101-127 | a frame of at most eight bytes, eleven identifier bits and one of the two identifiers is queued, or counted as overflow when the ring is full; exactly the malformed ones count as invalid; nothing else changes anything |
| CanQueues.UdsCan.RxPop | middleware/diagnostics/uds_stm32/uds_stm32.c:129-146 | the oldest received frame, or none |
| CanQueues.UdsCan.TxQueue | middleware/diagnostics/uds_stm32/uds_stm32.c:148-168 | a frame is accepted, refused or turned away, and only accepted frames enter the account of conservation |
| CanQueues.UdsCan.ProcessTx | middleware/diagnostics/uds_stm32/uds_stm32.c:170-205 | under any mailbox behaviour: frames handed over plus frames queued are the frames accepted, in order; the number handed over is the drained count, and a full mailbox or a failed attempt is counted exactly when it stopped the drain |
| CanQueues.DrainedExactly | middleware/diagnostics/uds_stm32/uds_stm32.c:174-204 | a drain takes at most its budget and stops early only at an empty queue or at the first failed attempt |
| CanQueues.RingNeverOverfull | middleware/diagnostics/uds_stm32/uds_stm32.c:154-160 | a ring never holds more than capacity - 1 frames |
| CanTransport.PopFrames | App/Src/canopen_reference_uds.c:368-375 | the loop takes at most its budget of frames, the oldest first, and stops early only at an empty queue |
| CanTransport.FramesComeBack | middleware/diagnostics/uds_stm32/uds_stm32.c:101-146 | any burst of ISO-TP frames for the adapter that fits the ring is popped complete, in order and byte for byte |
| CanTransport.QueueFrame | middleware/diagnostics/uds_stm32/uds_stm32.c:148-168 | a frame of the sender is refused exactly if it is too long or has another identifier, and otherwise queued byte for byte or counted as overflow when the ring is full |
| UdsDownload.AcceptedIsUnprotected | middleware/diagnostics/uds/uds_download.c:61-70 | no byte of an accepted image lies in the bootloader, application, NVM or diagnostic region, for every memory map |
| UdsDownload.AcceptedInsideStagingExactly | middleware/diagnostics/uds/uds_download.c:13-18 | an accepted image lies inside staging exactly if it does not start past staging's end |
| UdsDownload.OutsideStagingCanBeAccepted | middleware/diagnostics/uds/uds_download.c:13-18 | a memory map and an image wholly outside staging that is accepted |
| UdsDownload.StepKeepsPlaced | middleware/diagnostics/uds/uds_download.c:54-210 | every operation keeps the account of the programmed bytes: tiles from the image address, count equal to the received length, alignment, and an activation pending only on a complete image |
| UdsDownload.StepKeepsSummed | middleware/diagnostics/uds/uds_download.c:118-183 | every operation keeps the checksum register equal to the checksum of the programmed bytes |
| UdsDownload.StepKeepsSound | middleware/diagnostics/uds/uds_download.c:54-210 | every operation keeps placement, checksum and block count together |
| UdsDownload.DownloadTiling | middleware/diagnostics/uds/uds_download.c:118-154 | in every run the program calls since the last begin lie end to end from the image address to the received length, aligned, below 2^32, in no protected region, and in staging unless the image starts past its end |
| UdsDownload.DownloadCompletion | middleware/diagnostics/uds/uds_download.c:156-183 | in every run COMPLETE means exactly the image length was programmed and a given checksum is the CRC-32 of those bytes; a pending activation means COMPLETE |
| UdsOutcomes.RangeAcceptedExactly | middleware/diagnostics/uds/uds_download.c:60-70 | a range is accepted exactly if it is not empty, does not wrap, lies inside staging or wholly behind it, and shares no byte with a protected region nor contains an empty one |
| UdsOutcomes.BeginExactly | middleware/diagnostics/uds/uds_download.c:54-96 | a download begins exactly if callbacks are there, range, alignment and block length are right and the erase starts; every refusal has its reason and changes nothing |
| UdsOutcomes.PollExactly | middleware/diagnostics/uds/uds_download.c:98-116 | in every run, a poll is refused outside an erase, times out exactly five seconds after the begin, and otherwise passes on what the erase reports; reception begins exactly on success |
| UdsOutcomes.WriteExactly | middleware/diagnostics/uds/uds_download.c:118-154 | in every run, a block is written exactly if it is the one due, fits, is aligned, comes within five seconds and the memory takes it; every other outcome has its reason |
| UdsOutcomes.FinishExactly | middleware/diagnostics/uds/uds_download.c:156-183 | in every run, a finish succeeds exactly if all bytes are in memory, in time, with the checksum asked for, and the image is found valid; activation is pending then exactly if the board cannot activate by itself |
| UdsOutcomes.TickExactly | middleware/diagnostics/uds/uds_download.c:185-199 | in every run, a tick gives a running download up exactly when five seconds have passed since it last got on |
| UdsDownloader.Downloader.CheckImage | middleware/diagnostics/uds/uds_download.c:56-79 | an image that passes the checks before an erase does not wrap around, touches no byte of a protected region, and lies in staging unless it starts past staging's end; the verdict and the order of the checks are the specified ones |
| UdsDownloader.Downloader.BeginDownload | middleware/diagnostics/uds/uds_download.c:54-96 | a refused begin changes nothing; an accepted one starts a record with nothing programmed for an image that touches nobody else's memory, and keeps the account of placement, checksum and block count |
| UdsDownloader.Downloader.Poll | middleware/diagnostics/uds/uds_download.c:98-116 | reception begins exactly when the erase is reported done in time; nothing programmed changes and the account is kept |
| UdsDownloader.Downloader.WriteBlock | middleware/diagnostics/uds/uds_download.c:118-154 | on success the programmed bytes grow by exactly the block, otherwise not at all; the error is the specified one and the account is kept |
| UdsDownloader.Downloader.FinishDownload | middleware/diagnostics/uds/uds_download.c:156-183 | on success exactly the image length was programmed and a checksum given is the CRC-32 of those bytes; completion, abort and refusal are as specified and the account is kept |
| UdsDownloader.Downloader.TickDownload | middleware/diagnostics/uds/uds_download.c:185-199 | a running download is aborted exactly at its deadline, with nothing programmed changed and the account kept |
| UdsDownloader.Downloader.AbortDownload | middleware/diagnostics/uds/uds_download.c:201-210 | the download is aborted, no activation is pending, and the account of what was programmed is kept |
| UdsServer.ReadBigEndian | middleware/diagnostics/uds/uds.c:16-22 | the shifting loop in a 32-bit word loses nothing of a number of up to four bytes |
| UdsServer.BigEndianReadsBack | middleware/diagnostics/uds/uds.c:16-22 | the four bytes of a word, most significant first, are read back as that word |
| UdsServer.ResponseAccounting | middleware/diagnostics/uds/uds.c:54-633 | for every request, buffer and callback answers, with room for a routine header, an exit reply that respects its capacity and a seed length other than 0xFFFE: an error exactly on an empty buffer or a request of no or too many bytes; otherwise silence, no room even for a refusal, or a response that fits and is either SID + 0x40 or exactly 7F SID NRC |
| UdsServer.ExitResponseFitsExactly | middleware/diagnostics/uds/uds.c:490-512 | a transfer-exit response fits the buffer exactly if the callback respected its capacity or reported 0xFFFF, where the length wraps to zero: nothing else checks it |
| UdsServer.SeedIsProperExactly | middleware/diagnostics/uds/uds.c:263-279 | a seed response is proper, or properly refused, exactly unless the reported length is 0xFFFE, where the response length wraps to zero |
| UdsServer.RoutineNeedsFourBytes | middleware/diagnostics/uds/uds.c:373-396 | an answered routine request fits the buffer exactly if the buffer has the four header bytes: with less the 16-bit difference wraps and every length passes |
| UdsServer.ReadDataExactly | middleware/diagnostics/uds/uds.c:208-247 | a read request is answered positively exactly if it is well formed, every callback answered and the whole reply fits; the reply is 0x62 and each requested identifier with its value, in order |
| UdsAnswers.RecordsEchoRequest | middleware/diagnostics/uds/uds.c:219-239 | the identifiers come back in the order and byte order of the request |
| UdsAnswers.ReadRefusedExactly | middleware/diagnostics/uds/uds.c:208-247 | a read request that fails is refused for its first failure, a malformed one for its length |
| UdsAnswers.AnswersExactly | middleware/diagnostics/uds/uds.c:54-633 | every other request gets the positive response, the silence or the refusal that its shape, the state of the transfer and the callback result call for: granted exactly if admissible and agreed to, with the exact bytes |
| UdsAnswers.KeyUnlocksExactly | middleware/diagnostics/uds/uds.c:281-295 | a key is acknowledged exactly if the callback accepts it, and exactly then its level is unlocked; a wrong key is answered 7F 27 35 |
| UdsAnswers.FailureIsTold | middleware/diagnostics/uds/uds.c:24-52 | each failure of a callback reaches the client under its own code |
| UdsHistory.ServerReflectsHistory | middleware/diagnostics/uds/uds.c:76-647 | over every run of requests and ticks: session, last activity, reset and fault memory, the open transfer and its due block are what the history says, and the security level is that of the last accepted key since the last change of session or lapse of S3 |
| UdsHistory.TickAnswersExactly | middleware/diagnostics/uds/uds.c:635-647 | in every run a tick reports the lapse exactly when S3 has expired since the client was last heard |
| UdsResponder.Responder.Refuse | middleware/diagnostics/uds/uds.c:54-64 | the buffer starts with 7F, the service and the code; in less than three bytes nothing is written and the response is too long |
| UdsResponder.Responder.ReadTroubleCodes | middleware/diagnostics/uds/uds.c:177-206 | the header and the callback's bytes, or the refusal, are in the buffer |
| UdsResponder.Responder.ReadIdentifiers | middleware/diagnostics/uds/uds.c:208-247 | the loop that grows the response in place leaves the specified reply in the buffer, refusals half-way included |
| UdsResponder.Responder.AccessSecurity | middleware/diagnostics/uds/uds.c:249-304 | a seed is handed out, or a level unlocked exactly when the callback accepts the key |
| UdsResponder.Responder.ControlRoutine | middleware/diagnostics/uds/uds.c:373-406 | the four header bytes and the callback's bytes, or the refusal, are in the buffer |
| UdsResponder.Responder.AppendRecord | middleware/diagnostics/uds/uds.c:219-239 | identifier and value go behind the response so far, or the first check that fails names the refusal |
| UdsResponder.Responder.CallFor | middleware/diagnostics/uds/uds.c:408-488 | which callback a download request reaches, and with which address, length, block, data or parameters |
| UdsResponder.Responder.AcceptDownload | middleware/diagnostics/uds/uds.c:408-449 | the transfer opens at block 1 exactly when the callback accepts the parsed address and length |
| UdsResponder.Responder.AcceptBlock | middleware/diagnostics/uds/uds.c:451-488 | a block with the expected number is passed on and only then counted |
| UdsResponder.Responder.EndTransfer | middleware/diagnostics/uds/uds.c:490-518 | the transfer closes exactly when the callback agrees |
| UdsResponder.Responder.Serve | middleware/diagnostics/uds/uds.c:586-633 | state, result and buffer contents after one request are those of the specification; a response to send fits the buffer and, if the callbacks respect what is not checked, starts with SID + 0x40 or is exactly 7F SID NRC |
| UdsResponder.Responder.TickSession | middleware/diagnostics/uds/uds.c:635-647 | session, security and transfer fall back exactly when S3 has expired |
| UdsDiagnostics.Diagnostics.OnRequestDownload | App/Src/canopen_reference_uds.c:197-210 | a begin is tried on the download, and every failure becomes "out of range" |
| UdsDiagnostics.Diagnostics.OnTransferData | App/Src/canopen_reference_uds.c:212-221 | a block is written to the download, and every failure becomes "programming failure" |
| UdsDiagnostics.Diagnostics.OnTransferExit | App/Src/canopen_reference_uds.c:223-247 | four parameter bytes after the first are the expected checksum, none mean no checksum, anything else an error without effect |
| UdsDiagnostics.Diagnostics.Serve | App/Src/canopen_reference_uds.c:385-391 | one request through server, callback and download has the specified joint effect and keeps the counters paired |
| UdsRuntime.EventIsAction | App/Src/canopen_reference_uds.c:197-247 | every request, tick, poll or abort is one operation of the download or leaves it alone |
| UdsRuntime.StepKeepsTwinExactly | middleware/diagnostics/uds/uds.c:408-488 | a step keeps the server's next block equal to the download's expected block exactly unless a begin succeeds below while the buffer is shorter than four bytes and another block than 1 is due |
| UdsRuntime.TwinBlockCounters | middleware/diagnostics/uds/uds.c:451-488 | over every run with room for four bytes, a block the server accepts is the one the download expects, numbered one more than the blocks programmed modulo 256, and never draws a sequence error |
| UdsRuntime.ThreeBytesPartTheCounters | middleware/diagnostics/uds/uds.c:431-437 | a run with room in every request, from initialisation to an open download with one block received, after which a request with a three-byte buffer parts the counters |
| UdsRuntime.AcknowledgedBlockIsProgrammed | middleware/diagnostics/uds/uds_download.c:118-154 | a positively answered block was programmed behind the earlier ones, exactly as sent |
| UdsRuntime.AcknowledgedExitIsComplete | middleware/diagnostics/uds/uds_download.c:156-183 | in every run a positively answered exit means the whole image was programmed, and a checksum sent along is its CRC-32 |
| UdsTold.RequestArrives | middleware/diagnostics/uds/uds.c:422-430 | address and length of a download request reach the download as sent |
| UdsTold.BeginIsTold | App/Src/canopen_reference_uds.c:197-210 | a begin that succeeds is answered with the block length, any other with "out of range" |
| UdsTold.BlockIsTold | App/Src/canopen_reference_uds.c:212-221 | a block that is written is acknowledged, any other answered as a programming failure |
| UdsTold.ExitIsTold | App/Src/canopen_reference_uds.c:223-247 | an exit is acknowledged exactly if the image is finished; another number of parameters is refused unseen |
| UdsTold.ChecksumArrives | App/Src/canopen_reference_uds.c:232-235 | the four parameter bytes, most significant first, are the checksum compared with |
| NmtMaster.FirstMissing | middleware/canopen/core/cia302_nmt_master.c:160-168 | the lowest mandatory node that is missing |
| NmtMaster.ExpireFromMarks | middleware/canopen/core/cia302_nmt_master.c:144-155 | the heartbeat check marks exactly the late nodes and changes nothing else about any node |
| NmtMaster.KeptTimeIsLastHeard | middleware/canopen/core/cia302_nmt_master.c:41-117 | in every run the time kept for a node is that of its last message, valid or not, or of the last start since it was first assigned, as the log has it |
| NmtMaster.TimeoutsAreSeparated | middleware/canopen/core/cia302_nmt_master.c:85-155 | in every run, between two heartbeat time-outs of a node lies a valid heartbeat or boot-up of it, its configuration or a start |
| NmtMaster.OncePerStart | middleware/canopen/core/cia302_nmt_master.c:67-183 | in every run, two NETWORK_READY, two BOOT_TIMEOUT or two automatic START commands to one node have a start between them |
| NmtMaster.NetworkReadyExactly | middleware/canopen/core/cia302_nmt_master.c:85-174 | processing announces readiness exactly when it is not yet announced, some node is assigned, and every mandatory node, by the log, has reported a valid state since the start and since its configuration, has not timed out since, and was last heard of, be it with an invalid byte, within its time-out |
| NmtMaster.PresentIsFreshExactly | middleware/canopen/core/cia302_nmt_master.c:100-155 | for a node that is up and supervised, its last valid state is within its time-out whenever the master takes it for present exactly if its last sign of life is that valid state; and it is, unless an invalid byte came in since |
| NmtMaster.ReadyIsFresh | middleware/canopen/core/cia302_nmt_master.c:100-174 | readiness announced with no invalid byte since the last valid state of any mandatory node finds every one of them valid within its time-out |
| NmtMaster.BootTimeoutExactly | middleware/canopen/core/cia302_nmt_master.c:85-171 | processing reports the boot time-out exactly when it is due, not yet reported, and a mandatory node is absent by the log; it names the lowest such node |
| NmtMaster.InvalidByteRenews | middleware/canopen/core/cia302_nmt_master.c:100-116 | a byte that is no state renews a node's time-out and changes nothing else about its standing |
| NmtMaster.StaleNodeCanBeReady | middleware/canopen/core/cia302_nmt_master.c:100-116 | a run in which readiness is announced although the last valid state of a mandatory node is older than its time-out |
| NmtMaster.AutoStartExactly | middleware/canopen/core/cia302_nmt_master.c:172-182 | on readiness exactly the assigned auto-start nodes are started, and none if the policy leaves that to the application |
| NmtHistory.OverdueExactly | middleware/canopen/core/cia302_nmt_master.c:139-155 | in every reachable running state, processing leaves any node, mandatory or not, marked overdue exactly if it was, or if it is configured and by the log silent for longer than its time-out |
| NmtHistory.StateIsLastHeard | middleware/canopen/core/cia302_nmt_master.c:85-155 | in every run the state kept for a node is the one last heard, waited for or lost, by the log |
| NmtHistory.FrameIsLogged | middleware/canopen/core/cia302_nmt_master.c:85-117 | which event a frame on the bus causes, by its identifier, length and byte |
| NmtHistory.StartsExactly | middleware/canopen/core/cia302_nmt_master.c:67-83 | supervision starts exactly on a device that is master and can send, and then waits for every node anew |
| NmtHistory.PolicyBits | middleware/canopen/core/cia302_nmt_master.c:67-70 | bit 0 of the policy word makes the device master, bit 3 leaves starting to the application |
| NmtHistory.CommandsAreSent | middleware/canopen/core/cia302_nmt_master.c:12-16 | exactly the five commands to nodes up to 127 go out |
| NmtHistory.ConfiguredAsAsked | middleware/canopen/core/cia302_nmt_master.c:41-52 | in every run a node is configured as the last accepted call asked |
| NmtHistory.PolicyIsLastSet | middleware/canopen/core/cia302_nmt_master.c:31-39 | in every run boot time and policy are those last set, ten seconds and none before |
| NmtHistory.RunsSinceStart | middleware/canopen/core/cia302_nmt_master.c:67-83 | in every run the master runs exactly since a start, and boot time counts from the last one |
| NmtSupervisor.Supervisor.Assign | middleware/canopen/core/cia302_nmt_master.c:41-52 | the node record is replaced, except its last heartbeat, or the call is refused |
| NmtSupervisor.Supervisor.Begin | middleware/canopen/core/cia302_nmt_master.c:67-83 | every assigned node waits for its boot-up from now on, and the latches are cleared |
| NmtSupervisor.Supervisor.Hear | middleware/canopen/core/cia302_nmt_master.c:85-117 | the frame has the specified effect on one node record at most, and the specified event |
| NmtSupervisor.Supervisor.Expire | middleware/canopen/core/cia302_nmt_master.c:144-155 | the loop over the node ids has the specified effect |
| NmtSupervisor.Supervisor.AllMandatoryReady | middleware/canopen/core/cia302_nmt_master.c:119-128 | true exactly if no mandatory node is missing |
| NmtSupervisor.Supervisor.SomeAssigned | middleware/canopen/core/cia302_nmt_master.c:130-137 | true exactly if a node is assigned |
| NmtSupervisor.Supervisor.Command | middleware/canopen/core/cia302_nmt_master.c:54-65 | a command goes out exactly if it is well formed and can be sent |
| NmtSupervisor.Supervisor.Advance | middleware/canopen/core/cia302_nmt_master.c:139-183 | one round of processing has the specified effect and keeps the invariant |
| SdoUpload.ExpeditedExactly | scripts/mock_canopen_runner.py:210-213 | a value of at most four bytes is decoded to itself exactly if it is not empty; an empty one reads as four zero bytes |
| SdoUpload.SegmentRoundTrips | scripts/mock_canopen_runner.py:225-230 | a segment decodes to its bytes and its last flag |
| SdoUpload.SegmentExchange | scripts/mock_canopen_runner.py:219-234 | the k-th segment request is answered with the k-th seven bytes or the rest, flagged last exactly at the end, and the toggle turns |
| SdoUpload.TogglesAlternate | scripts/mock_canopen_runner.py:341-351 | the segment commands of one upload alternate, starting from toggle zero |
| SdoHistory.NodeReflectsRequests | scripts/mock_canopen_runner.py:205-234 | after any upload requests of any clients, the node is sending exactly the object last opened, as many segments on as were asked for with the right toggle |
| SdoHistory.SegmentExactly | scripts/mock_canopen_runner.py:219-234 | a segment request gets the next seven bytes or the rest exactly if an upload is open and the toggle is the one due; otherwise the toggle abort, and nothing changes |
| SdoHistory.FirstAnswerExactly | scripts/mock_canopen_runner.py:205-217 | a first request gets the abort for what is missing, the short value, or the length of the long one |
| SdoHistory.OtherRequestsExactly | scripts/mock_canopen_runner.py:270-280 | other requests are refused as type mismatch, frames for others or of another length ignored |
| SdoUpload.MockNode.Answer | scripts/mock_canopen_runner.py:270-280 | the node's fields and its response are those of the specification |
| SdoUpload.MockNode.BeginUpload | scripts/mock_canopen_runner.py:205-217 | an abort, the whole short value, or the announcement of a long one |
| SdoUpload.MockNode.SendSegment | scripts/mock_canopen_runner.py:219-234 | the next segment, or an abort for a wrong toggle |
| SdoUpload.CollectSegments | scripts/mock_canopen_runner.py:340-351 | the client's loop ends, collects exactly the value being sent, and asks ceil(n / 7) times with alternating toggles |
| SdoUpload.ClientUpload | scripts/mock_canopen_runner.py:330-353 | for every object value of at least one byte the client returns exactly the value and never raises; an absent object aborts, an empty value reads as four zero bytes |
| AcceptanceFilter.AddAllExactly | middleware/canopen/core/can_acceptance_filter.c:4-23 | with room for all requests only the global identifier causes failure; on success the list holds exactly what it held and what was asked for, each once |
| AcceptanceFilter.IdList.Add | middleware/canopen/core/can_acceptance_filter.c:4-23 | one identifier is added, found present or refused, and a refusal changes nothing |
| AcceptanceFilter.RequestsAreWanted | App/Src/CO_app_STM32_reference.c:92-125 | the builder asks for exactly the CANopen services of the node and the COB-IDs its dictionary has in use |
| AcceptanceFilter.BanksAcceptExactlyTheList | App/Src/CO_app_STM32_reference.c:131-169 | the packed banks accept exactly the list and the diagnostic pair: padding adds nothing |
| AcceptanceFilter.PackBanks | App/Src/CO_app_STM32_reference.c:131-151 | the first banks hold the list four by four, the others are untouched, and only a failed configuration call stops it |
| AcceptanceFilter.ConfigureCanFilter | App/Src/CO_app_STM32_reference.c:76-172 | from no active banks the builder succeeds exactly when controller, node id, identifiers and configuration calls allow it, never failing for lack of room, and then the controller accepts exactly the wanted identifiers and the diagnostic pair |

## Left out

- NULL arguments and unbound adapters: every pointer check that has no counterpart in a value; an absent callback table is a flag or a set.
- Flash erase cut short: taken to leave the slot either as it was or without a valid image; a half-erased sector that still passes for a valid image is not modelled.
- FlashStorage.Partly: a word is programmed once after an erase; programming over programmed words does not occur in the source and is not modelled. A word cut short may hold any value, which is more than clearing bits allows.
- FlashDriver.FlashBackend.Write: the fault is an input of the call, so the erase and program results of the HAL appear as where it stops.
- Storage bookkeeping around the backend (RAM image, factory defaults, store counters, rate limit): plain copies and counters.
- FrameQueue.QueueIsFifo: interleavings are sequentially consistent, one step per load, store or copied byte; effects of the C memory model beyond acquire and release are not modelled.
- CanQueues.UdsCan.RxFromIsr: one call at a time; its interleaving with the consumer is the subject of `FrameQueue`.
- `CANopenReference_UDS_Process`: its transmitter is set up with the request id of line 308 and fed only frames of the other id (lines 404-405 of App/Src/canopen_reference_uds.c), so flow control never reaches it there; the closed loop is proved on `isotp.c` with crossed identifiers.
- The reference application passes no callbacks to `uds_download_init`, so a begin is always refused there (`UdsDownload.BeginCheck` with `hasCallbacks` false); the download properties are proved for any callbacks.
- UdsResponder.Responder.Serve: a well-formed routine request needs a buffer of four bytes, because `service_routine_control` writes four bytes before it checks, and a seed reported as 65534 or 65535 bytes one of two; what the source's arithmetic makes of less is in `UdsServer.Handle`, the memory it would overwrite is not modelled. The one-branch services have no row of their own; `Serve` covers them.
- UdsServer.ResponseAccounting: the exit callback must respect its capacity and a seed not be reported as 0xFFFE bytes long, because the source does not check the one and adds to the other in 16 bits; the other callbacks may report any length.
- Callbacks see neither each other's effects nor the server's fields: their answers are inputs, which covers every stateful callback.
- Service 0x2F (input/output control) and the other compile-time options of the server: modelled as switched by default, 0x2F off and answered 0x11, all others on.
- Security provider, DID registry, fault tables: table look-ups and a demonstration key scheme.
- UdsHistory.ServerReflectsHistory: the application's clearing of a pending reset is not an event; the flag is read as "a reset was agreed to so far".
- NmtMaster.Run: the event callback is taken to be present; without one the same states are reached and nothing is emitted. The result of sending a command is returned to the caller in the source and is not part of the state.
- SdoUpload.MockNode.Answer: NMT commands and SDO downloads of the mock node are not modelled; the client sends neither during an upload. The requests `SdoHistory.NodeReflectsRequests` ranges over are those for uploads.
- AcceptanceFilter.ConfigureCanFilter: which receive FIFO a bank feeds, and the bank's HAL encoding beyond the shifted identifiers, are not modelled.
- SocketCAN port, virtual devices, clock, interrupt and board set-up, generated object dictionaries and their generators, CiA 401/402/418 profiles, LSS and gateway: input/output, data tables or small state machines that would only add easy members.
