# Verification of the OK8MP M7 services

This project models the protocol code that runs on the Cortex-M7 of the OK8MP board
and on the ESP32 that simulates an ECU, and proves what the code promises for all
inputs and all interleavings. `dafny verify dfyconfig.toml` checks it.

**CAN diagnostics.** `IsotpSpec` states ISO 15765-2 segmentation (section 9.6) as
sender and receiver automata. `M7Isotp` and `EcuIsotp` are the two stations' loops
over frame buffers, each proved to run those automata over a port that may fail or
go silent at any point. `IsotpContract` says what every run of the automata sends
and waits for, `IsotpLayout` the frames octet by octet and exactly which inboxes a
reception takes for which message, `IsotpChannel` what the receivers make of a
channel that loses and duplicates, and `IsotpExchange` composes both stations into a
step system: safety with losses and expiring deadlines, termination and exactly-once
delivery without, from any state an earlier exchange left the ECU's reception in.
`EcuSplice` says exactly when the ECU mixes two messages, and shows a run that does.
`RouterSpec`, `CanRouter` and `RouterRace` are the CAN service's subscriber queues:
as a table of logs over any history, as rings with a drop counter, and under any
interleaving of the daemon and its receivers; the queue's overflow is shown to be a
channel the transport survives. `CommandMailbox` is the transmit mailbox. `EcuModel`
and `EcuServer` are the ECU's fault memory and UDS and OBD-II services (ISO 14229-1,
sections 9.2, 10.2, 10.7, 11.2, 11.3 and 13.2); `EcuHistory` reads the ECU's state
off any history of events and `EcuAnswers` gives its answers as octets. `DiagClient`
and `DiagReadings` are the M7's diagnostic client, proved to agree with that server
end to end over the transport.

**Messaging channel.** `ProtoSpec` and `ProtoCodec` are the hand-written protobuf
codec: `ProtoSpec` says what octets mean, `ProtoMeaning` the same without the
parser, `ProtoCodec` holds the cursor loops. `WsFrames` states the two WebSocket
codecs on octets (RFC 6455, sections 5.2 and 5.3), `WsLayout` the frames octet by
octet, `WsClient` and `WsServer` are their loops over `WsStream`, a connection whose
calls may block or be short. `Utf8Chunks` cuts messages, `RateLimiter` limits them,
`MessageQueue` is the bus's ring, and `BusRace` its lock and condition variables
under any interleaving, time-outs and spurious wake-ups included.

**Ethernet driver.** `InternetChecksum` is the checksum (RFC 1071, section 1) and
the ICMP echo frame. `RxRing` and `TxRing` are the descriptor rings shared with the
DMA engine, for rings of any size, and `FecDriver` the transmit call and the receive
loop. `Rings` holds the facts about circular buffers, `Bytes` the bitwise
operations, `Errno` and `EthernetBuffers` shared constants, `CanBus` the CAN frames
and the port, `FrameBuffer` the buffer both transport stations fill.

Loops and in-place updates of the sources are methods over arrays and fields; each
is proved equal to a function, and the properties are lemmas about that function.
Concurrency is a step relation whose histories are lists of events, where an event
that is not possible when its turn comes does nothing, so a statement about a
history covers every interleaving.

What the environment decides is a parameter: which frames arrive and how many
transmissions succeed (`CanPort`), which frames are lost and when deadlines pass
(`Fault`), the CAN driver's result for a command, the masking key, how reads and
writes are cut (`Stream`), the clock of the rate limiter, and what the DMA engine
receives.

## Model

| member | source | states |
|---|---|---|
| IsotpExchange.LossyExchange | app/ok8mp_m7_services/overlays/apps/examples/ok8mp_can_service/ok8mp_can_isotp.c:174-383 | Over every run of the M7 and the ECU with any frames lost and any deadline passing, whatever an earlier exchange left in the ECU's receive context: the request is processed at most once and unaltered, a success at the M7 holds the answer to it, an active reception has 6 + 7k of at most 128 octets and expects number k + 1 modulo 16, and one that was granted is of this request's length |
| IsotpExchange.ReliableExchange | app/ok8mp_m7_services/esp32_can_ecu/src/main.cpp:650-701 | Over every loss-free interleaving, from any receive context: the run has a bounded length, the octets of a granted reception are always a prefix of the request, and where no station can act any more the request was processed exactly once, unaltered, and the M7 holds the answer (or the size error if its buffer is too small) |
| IsotpExchange.StuckIsDone | app/ok8mp_m7_services/overlays/apps/examples/ok8mp_can_service/ok8mp_can_isotp.c:385-429 | While nothing is lost some station can act until the exchange is over |
| IsotpExchange.StepSafe | app/ok8mp_m7_services/overlays/apps/examples/ok8mp_can_service/ok8mp_can_isotp.c:174-383 | The safety invariant is kept by every step of either station, by every loss and by every expiry |
| IsotpExchange.StepExact | app/ok8mp_m7_services/esp32_can_ecu/src/main.cpp:321-380 | Without loss each reader is exactly where the accepted frames put it |
| IsotpExchange.StepDescends | app/ok8mp_m7_services/esp32_can_ecu/src/main.cpp:650-701 | Every step uses up part of a bounded measure, so no run is infinite |
| IsotpExchange.Collect | app/ok8mp_m7_services/overlays/apps/examples/ok8mp_can_service/ok8mp_can_isotp.c:351-380 | One more consecutive frame at the M7: lost frames leave the stored count behind for good, and a message completes only with every octet in place |
| IsotpExchange.EcuStoreCounts | app/ok8mp_m7_services/esp32_can_ecu/src/main.cpp:676-699 | The same at the ECU: the last store happens only if the buffer holds the whole request |
| IsotpChannel.NoWrongPayload | app/ok8mp_m7_services/overlays/apps/examples/ok8mp_can_service/ok8mp_can_isotp.c:275-383 | Over any in-order channel that loses and duplicates frames of one message, an accepted payload is that message, in spite of the 4-bit sequence number |
| IsotpChannel.EcuNoWrongPayload | app/ok8mp_m7_services/esp32_can_ecu/src/main.cpp:650-701 | Over the same channel the ECU hands over no other request, from any idle context and from any active one that the message's first frame reaches first |
| IsotpChannel.ConsecutiveTracks | app/ok8mp_m7_services/overlays/apps/examples/ok8mp_can_service/ok8mp_can_isotp.c:351-380 | An accepted consecutive frame is at least as far on in the message as the number of frames accepted |
| IsotpChannel.EcuStoreTracks | app/ok8mp_m7_services/esp32_can_ecu/src/main.cpp:676-699 | The same for the ECU's receive context |
| EcuSplice.SplicesExactly | app/ok8mp_m7_services/esp32_can_ecu/src/main.cpp:676-699 | Over the same channel, from any context: the ECU hands over a foreign request if and only if it was still receiving, the message's first frame is not the first to arrive, and the frames that arrive carry the awaited numbers and complete another payload |
| EcuSplice.ConsumesExactly | app/ok8mp_m7_services/esp32_can_ecu/src/main.cpp:676-699 | A receiving context given only consecutive frames, wherever they come from, hands over one payload if and only if enough come with the awaited numbers, and it is the stored octets completed by theirs |
| EcuSplice.LateClearToSendSplices | app/ok8mp_m7_services/overlays/apps/examples/ok8mp_can_service/ok8mp_can_isotp.c:204-214 | A run of both stations in which that happens: the M7 gives up on one request, the first frame of the next is lost, the late clear-to-send of the former lets the M7 go on, and the ECU processes a request nobody sent |
| IsotpContract.TransferSends | app/ok8mp_m7_services/overlays/apps/examples/ok8mp_can_service/ok8mp_can_isotp.c:174-260 | A transfer transmits exactly the first frames of its payload in order, and reports success exactly when it transmitted all of them |
| IsotpContract.TransferPaced | app/ok8mp_m7_services/overlays/apps/examples/ok8mp_can_service/ok8mp_can_isotp.c:217-257 | For every stream of flow control with block sizes that change at each clear-to-send, no consecutive frame exceeds the block it was granted |
| IsotpContract.AwaitedVerdict | app/ok8mp_m7_services/overlays/apps/examples/ok8mp_can_service/ok8mp_can_isotp.c:125-172 | Waiting succeeds exactly if the first status that is not a wait is a clear-to-send and at most three waits precede it; the failures are told apart |
| IsotpContract.StationsSendAlike | app/ok8mp_m7_services/esp32_can_ecu/src/main.cpp:321-380 | Given the same payload and the same flow control, the M7's and the ECU's sender transmit the same octets frame by frame and end in the same state |
| IsotpLayout.ReceivedExactly | app/ok8mp_m7_services/overlays/apps/examples/ok8mp_can_service/ok8mp_can_isotp.c:275-383 | For every inbox whatever: a reception ends with a message if and only if the inbox begins with that message's frames, octet for octet and long enough, the message fits, and the clear-to-send of a long one goes out |
| IsotpLayout.AnswersExactly | app/ok8mp_m7_services/overlays/apps/examples/ok8mp_can_service/ok8mp_can_isotp.c:262-349 | For every inbox: a reception sends at most one frame; a first frame announcing 8 to 128 octets that fit is answered with the octets 30 00 05, any other length with 32 00 05, nothing else at all |
| IsotpLayout.FirstRefused | app/ok8mp_m7_services/overlays/apps/examples/ok8mp_can_service/ok8mp_can_isotp.c:296-345 | A first frame is refused with -71 if it is empty, of another kind or short, with -90 if its length is out of range, and accepted otherwise |
| IsotpLayout.ConsecutiveRefused | app/ok8mp_m7_services/overlays/apps/examples/ok8mp_can_service/ok8mp_can_isotp.c:359-375 | A consecutive frame is refused, with -71, exactly if its first octet is not 0x20 plus the awaited number or it is shorter than what it carries |
| IsotpLayout.WaitsOnlyWhenDue | app/ok8mp_m7_services/overlays/apps/examples/ok8mp_can_service/ok8mp_can_isotp.c:210-257 | The sender reads flow control only behind the first frame or when the block of the last clear-to-send is used up: with TransferPaced, it stops exactly there |
| IsotpLayout.MessageFrames | app/ok8mp_m7_services/overlays/apps/examples/ok8mp_can_service/ok8mp_can_isotp.c:189-229 | The eight octets of every frame of a message: length and payload, first frame, numbered consecutive frames, zero padding (ISO 15765-2, section 9.6) |
| IsotpLayout.Addresses | app/ok8mp_m7_services/esp32_can_ecu/src/main.cpp:193-200 | The M7 sends on 0x7e0 and the ECU on 0x7e8, in standard data frames of eight octets, and the ECU listens to 0x7e0 alone |
| IsotpLayout.FlowControlIs | app/ok8mp_m7_services/esp32_can_ecu/src/main.cpp:300-306 | What each station takes for flow control, and what for its status |
| IsotpLayout.EcuReacts | app/ok8mp_m7_services/esp32_can_ecu/src/main.cpp:650-689 | The ECU's reaction to single and first frames, and to consecutive ones with a wrong number or outside a reception |
| IsotpLayout.SendCodes | app/ok8mp_m7_services/overlays/apps/examples/ok8mp_can_service/ok8mp_can_isotp.c:125-260 | The return codes of a transfer as numbers |
| IsotpSpec.TransferAwaited | app/ok8mp_m7_services/overlays/apps/examples/ok8mp_can_service/ok8mp_can_isotp.c:204-210 | Waiting for flow control is a stage of the transfer |
| IsotpSpec.EcuStore | app/ok8mp_m7_services/esp32_can_ecu/src/main.cpp:685-692 | An accepted consecutive frame keeps the context well formed and inside its 128 octets |
| IsotpSpec.EcuOnFrame | app/ok8mp_m7_services/esp32_can_ecu/src/main.cpp:650-701 | Any frame leaves the receive context well formed |
| IsotpSpec.AfterEmit | app/ok8mp_m7_services/overlays/apps/examples/ok8mp_can_service/ok8mp_can_isotp.c:217-257 | Emitting keeps the sender valid: it ends in success exactly at its last frame |
| IsotpSpec.OnFlow | app/ok8mp_m7_services/overlays/apps/examples/ok8mp_can_service/ok8mp_can_isotp.c:147-171 | Reading any frame while waiting keeps the sender valid |
| M7Isotp.WaitFlowControl | app/ok8mp_m7_services/overlays/apps/examples/ok8mp_can_service/ok8mp_can_isotp.c:125-172 | The waiting loop ends in the state, error code and block size the automaton ends in |
| M7Isotp.SendPayload | app/ok8mp_m7_services/overlays/apps/examples/ok8mp_can_service/ok8mp_can_isotp.c:174-260 | The sender leaves the port exactly as the sending automaton does, with its result as error code |
| M7Isotp.SendConsecutive | app/ok8mp_m7_services/overlays/apps/examples/ok8mp_can_service/ok8mp_can_isotp.c:217-259 | The block loop runs the automaton from the first clear-to-send to its end |
| M7Isotp.OpenBlock | app/ok8mp_m7_services/overlays/apps/examples/ok8mp_can_service/ok8mp_can_isotp.c:247-252 | A new block continues the transfer where the previous one stopped |
| M7Isotp.SendFlowControl | app/ok8mp_m7_services/overlays/apps/examples/ok8mp_can_service/ok8mp_can_isotp.c:262-273 | A flow control frame has unlimited block size and 5 ms separation |
| M7Isotp.ReceivePayload | app/ok8mp_m7_services/overlays/apps/examples/ok8mp_can_service/ok8mp_can_isotp.c:275-383 | The receiver ends as the receiving automaton does: payload and errors; the length reported is the announced one, also with an error; nothing past the caller's capacity is written |
| M7Isotp.ReceiveLong | app/ok8mp_m7_services/overlays/apps/examples/ok8mp_can_service/ok8mp_can_isotp.c:331-382 | The part behind a first frame: what does not fit is answered and refused, anything else acknowledged and collected |
| M7Isotp.ReceiveConsecutive | app/ok8mp_m7_services/overlays/apps/examples/ok8mp_can_service/ok8mp_can_isotp.c:351-380 | The reassembly loop runs the automaton from the first frame to its end |
| M7Isotp.SendAndReceive | app/ok8mp_m7_services/overlays/apps/examples/ok8mp_can_service/ok8mp_can_isotp.c:413-422 | Sends, and only after a successful transfer receives |
| M7Isotp.Request | app/ok8mp_m7_services/overlays/apps/examples/ok8mp_can_service/ok8mp_can_isotp.c:385-429 | Rejects bad arguments and a full subscription table untouched; otherwise opens a subscription, sends, receives, and closes it again whatever the outcome |
| M7Isotp.TakesOnlyItsResponses | app/ok8mp_m7_services/overlays/apps/examples/ok8mp_can_service/ok8mp_can_isotp.c:406-409 | The subscription of a request takes exactly the frames of the response identifier, standard or extended |
| EcuIsotp.EcuStation.HandleIsotpFrame | app/ok8mp_m7_services/esp32_can_ecu/src/main.cpp:650-701 | The in-place receive context changes as the automaton says, a request is handed over exactly when it says so, and flow control goes out exactly then |
| EcuIsotp.EcuStation.HandleConsecutive | app/ok8mp_m7_services/esp32_can_ecu/src/main.cpp:676-699 | The same for a consecutive frame |
| EcuIsotp.WaitFlowControl | app/ok8mp_m7_services/esp32_can_ecu/src/main.cpp:288-319 | The ECU's own waiting loop runs the same automaton on the unfiltered wire |
| EcuIsotp.SendPayload | app/ok8mp_m7_services/esp32_can_ecu/src/main.cpp:321-380 | The ECU's own sender leaves the port as the automaton does and succeeds exactly if it does; an empty payload is refused |
| EcuIsotp.SendConsecutive | app/ok8mp_m7_services/esp32_can_ecu/src/main.cpp:344-379 | The ECU's block loop runs the automaton to its end |
| FrameBuffer.FillFirst | app/ok8mp_m7_services/overlays/apps/examples/ok8mp_can_service/ok8mp_can_isotp.c:191-206 | The frame buffer holds the single or first frame of the payload |
| FrameBuffer.FillConsecutive | app/ok8mp_m7_services/overlays/apps/examples/ok8mp_can_service/ok8mp_can_isotp.c:219-228 | The frame buffer holds the consecutive frame with the right number and zero padding |
| FrameBuffer.EmitConsecutive | app/ok8mp_m7_services/overlays/apps/examples/ok8mp_can_service/ok8mp_can_isotp.c:219-245 | One round of the block loop is one step of the automaton |
| RouterSpec.Log.Offer | app/ok8mp_m7_services/overlays/apps/examples/ok8mp_can_service/ok8mp_can_service_main.c:122-138 | The queue keeps the newest sixteen unread frames in arrival order, giving up the oldest |
| RouterSpec.Log.Take | app/ok8mp_m7_services/overlays/apps/examples/ok8mp_can_service/ok8mp_can_service_main.c:559-568 | Taking removes the oldest queued frame |
| RouterSpec.Conservation | app/ok8mp_m7_services/overlays/apps/examples/ok8mp_can_service/ok8mp_can_service_main.c:111-142 | Every frame that arrived was received, is queued, or is one of the positions that are neither |
| RouterSpec.NewestUnread | app/ok8mp_m7_services/overlays/apps/examples/ok8mp_can_service/ok8mp_can_service_main.c:122-138 | The queue is the newest, at most sixteen, of the frames behind the last one handed out |
| RouterSpec.EachLogIsItsArrivals | app/ok8mp_m7_services/overlays/apps/examples/ok8mp_can_service/ok8mp_can_service_main.c:104-142 | Over every history of arrivals, receives, openings and closings and for each of the six slots: a live subscription's log is exactly the frames that arrived since it was opened and match its slot, and receivers were handed exactly what the log says |
| RouterSpec.LogIsWhatWasAsked | app/ok8mp_m7_services/overlays/apps/examples/ok8mp_can_service/ok8mp_can_service_main.c:104-142 | Over every history: an open slot's log is exactly the frames since its opening that have the extended bit of the call that opened it and agree with the call's identifier in every bit set in the call's mask |
| RouterSpec.SlotIsAsOpened | app/ok8mp_m7_services/overlays/apps/examples/ok8mp_can_service/ok8mp_can_service_main.c:465-530 | A slot is live exactly from its opening to its closing and matches what the opening call asked for, bit by bit |
| RouterSpec.FullMaskTakesOne | app/ok8mp_m7_services/overlays/apps/examples/ok8mp_can_service/ok8mp_can_service_main.c:104-109 | A mask with all identifier bits set takes exactly one identifier |
| RouterSpec.OverflowsAreDrops | app/ok8mp_m7_services/overlays/apps/examples/ok8mp_can_service/ok8mp_can_service_main.c:125-129 | Over every history the number of overflows is the sum over live subscriptions of arrived less received less queued, plus what closed ones had dropped |
| RouterSpec.StepDrops | app/ok8mp_m7_services/overlays/apps/examples/ok8mp_can_service/ok8mp_can_service_main.c:111-142 | Only an arrival changes that sum, by the number of full queues it meets |
| CanRouter.Subscriber.Offer | app/ok8mp_m7_services/overlays/apps/examples/ok8mp_can_service/ok8mp_can_service_main.c:122-138 | The ring holds the queue of the log after the frame arrived; overflow is reported exactly if it was full |
| CanRouter.Subscriber.TakeOldest | app/ok8mp_m7_services/overlays/apps/examples/ok8mp_can_service/ok8mp_can_service_main.c:559-570 | The oldest frame is returned and leaves the ring |
| CanRouter.Subscriber.Receive | app/ok8mp_m7_services/overlays/apps/examples/ok8mp_can_service/ok8mp_can_service_main.c:532-571 | The non-blocking receive: a closed slot, an empty queue and a frame are told apart |
| CanRouter.Router.constructor | app/ok8mp_m7_services/overlays/apps/examples/ok8mp_can_service/ok8mp_can_service_main.c:465-504 | Zeroed slots are the empty table |
| CanRouter.Router.Dispatch | app/ok8mp_m7_services/overlays/apps/examples/ok8mp_can_service/ok8mp_can_service_main.c:111-142 | Every live subscription that matches gets the frame, nothing else about any subscription changes, and rx_dropped stays the table's drops modulo 2^32 |
| CanRouter.Router.DispatchTo | app/ok8mp_m7_services/overlays/apps/examples/ok8mp_can_service/ok8mp_can_service_main.c:114-138 | One subscription's queue gets the frame, its displaced frame is counted, and all else in the table stays |
| CanRouter.Router.Subscribe | app/ok8mp_m7_services/overlays/apps/examples/ok8mp_can_service/ok8mp_can_service_main.c:465-504 | The first free slot is opened empty with the identifier, mask and kind of the call, all others are untouched, or -ENOSPC exactly if none is free |
| CanRouter.Router.Unsubscribe | app/ok8mp_m7_services/overlays/apps/examples/ok8mp_can_service/ok8mp_can_service_main.c:506-530 | Closes that live slot and no other; bad numbers and free slots are told apart, and the drops stay counted |
| CanRouter.Router.Receive | app/ok8mp_m7_services/overlays/apps/examples/ok8mp_can_service/ok8mp_can_service_main.c:532-571 | Takes the oldest frame of that subscription and touches no other; bad numbers, free slots and empty queues are told apart |
| RouterRace.SemaphoreCountsQueue | app/ok8mp_m7_services/overlays/apps/examples/ok8mp_can_service/ok8mp_can_service_main.c:111-142 | Under every interleaving of arrivals and any number of receivers the queue length is the semaphore value plus the receivers past it, so none of those finds the queue empty |
| RouterRace.EveryFrameOnce | app/ok8mp_m7_services/overlays/apps/examples/ok8mp_can_service/ok8mp_can_service_main.c:532-571 | In every interleaving the receivers together get exactly the frames the log hands out of those that arrived, each the oldest queued |
| RouterRace.PassesExactly | app/ok8mp_m7_services/overlays/apps/examples/ok8mp_can_service/ok8mp_can_service_main.c:540-556 | A waiting receiver can pass the semaphore exactly if there are more queued frames than receivers on their way |
| RouterRace.StepKeepsInv | app/ok8mp_m7_services/overlays/apps/examples/ok8mp_can_service/ok8mp_can_service_main.c:532-571 | Every event keeps that equation |
| RouterRace.OverflowFeedsIsotp | app/ok8mp_m7_services/overlays/apps/examples/ok8mp_can_service/ok8mp_can_service_main.c:122-138 | The queue's overflow is an in-order loss: a reception fed from it succeeds only with the message whose frames arrived |
| CommandMailbox.OwnResult | app/ok8mp_m7_services/overlays/apps/examples/ok8mp_can_service/ok8mp_can_service_main.c:573-601 | In every interleaving of clients and daemon the i-th call returns the result of its own request, which was carried out once, as number i |
| CommandMailbox.FreeLockIsQuiet | app/ok8mp_m7_services/overlays/apps/examples/ok8mp_can_service/ok8mp_can_service_main.c:617-637 | With the lock free nothing is pending, nothing in service and the completion count is 0; a pending command means a holder |
| CommandMailbox.CallsComplete | app/ok8mp_m7_services/overlays/apps/examples/ok8mp_can_service/ok8mp_can_service_main.c:573-637 | In every reachable state each statement of the lock holder or the daemon brings the holder's call nearer to its end by a bounded measure, and its last one returns and frees the lock |
| CommandMailbox.NobodyIsStuck | app/ok8mp_m7_services/overlays/apps/examples/ok8mp_can_service/ok8mp_can_service_main.c:573-637 | In every reachable state with the lock taken its holder or the daemon can go on; with it free every waiting call can take it |
| CommandMailbox.OthersWait | app/ok8mp_m7_services/overlays/apps/examples/ok8mp_can_service/ok8mp_can_service_main.c:573-601 | Nothing another task does touches the holder's call, the slot or the daemon |
| CommandMailbox.ServiceKeepsInv | app/ok8mp_m7_services/overlays/apps/examples/ok8mp_can_service/ok8mp_can_service_main.c:217-244 | Each statement of the daemon keeps the mailbox invariant |
| CommandMailbox.ClientKeepsInv | app/ok8mp_m7_services/overlays/apps/examples/ok8mp_can_service/ok8mp_can_service_main.c:573-601 | Each statement of a client keeps the mailbox invariant |
| MessageQueue.Queue.Push | app/ok8mp_m7_services/overlays/packages/ai_agent/src/core/message_bus.c:94-103 | A push appends to the ring, or refuses and changes nothing if it is full |
| MessageQueue.Queue.Pop | app/ok8mp_m7_services/overlays/packages/ai_agent/src/core/message_bus.c:139-144 | A pop takes the oldest message, or refuses and changes nothing if there is none |
| BusRace.FifoDelivery | app/ok8mp_m7_services/overlays/packages/ai_agent/src/core/message_bus.c:71-148 | In every interleaving popped messages followed by queued ones are the pushed ones in lock order |
| BusRace.NoLostWakeup | app/ok8mp_m7_services/overlays/packages/ai_agent/src/core/message_bus.c:71-148 | With a message queued (a slot free) no popper (pusher) waits unless enough others are already on their way, or as many wake-ups reached timed waits that expired all the same |
| BusRace.LeavesOnlyDone | app/ok8mp_m7_services/overlays/packages/ai_agent/src/core/message_bus.c:71-148 | Over every history: a patient pusher leaves only by appending its message or after its timed wait expired, an impatient one also from a full queue with nothing changed, a popper only by taking the oldest message, after an expiry, or from an empty queue after shutdown |
| BusRace.ImpatientAlways | app/ok8mp_m7_services/overlays/packages/ai_agent/src/core/message_bus.c:78-82 | A pusher with time-out 0 never waits |
| BusRace.ExpiresOnlyByClock | app/ok8mp_m7_services/overlays/packages/ai_agent/src/core/message_bus.c:94-137 | A wait expires only by the clock, and only where there is one |
| BusRace.WaitingPusherGetsIn | app/ok8mp_m7_services/overlays/packages/ai_agent/src/core/message_bus.c:84-108 | From every reachable state with a full queue and a free lock: a patient pusher goes to sleep, and one pop later its message can be in the queue, once, behind all others |
| BusRace.ExpiryLosesWakeup | app/ok8mp_m7_services/overlays/packages/ai_agent/src/core/message_bus.c:134-137 | A run that needs that count: a woken wait expires, and a popper sleeps beside a queued message with nobody on the way |
| BusRace.ExpireKeepsWakeups | app/ok8mp_m7_services/overlays/packages/ai_agent/src/core/message_bus.c:94-137 | A timed wait that ends, woken or not, keeps the bound |
| BusRace.NobodySleepsAfterWakeup | app/ok8mp_m7_services/overlays/packages/ai_agent/src/core/message_bus.c:198-209 | Once the shutdown wake-up was delivered no popper waits, then or later |
| BusRace.OnlyPushAndPop | app/ok8mp_m7_services/overlays/packages/ai_agent/src/core/message_bus.c:71-148 | Only a push with room or a pop of the oldest message changes the queue, each leaving its record |
| BusRace.DrainsAfterWakeup | app/ok8mp_m7_services/overlays/packages/ai_agent/src/core/message_bus.c:111-148 | From every state after the shutdown wake-up poppers can still empty the queue, and then everything ever pushed has been popped, in order |
| BusRace.PushKeepsWakeups | app/ok8mp_m7_services/overlays/packages/ai_agent/src/core/message_bus.c:71-109 | A push, waiting or not, keeps the wake-up bounds: it sends a popper to its message |
| BusRace.PopKeepsWakeups | app/ok8mp_m7_services/overlays/packages/ai_agent/src/core/message_bus.c:111-148 | A pop sends a pusher to its free slot |
| BusRace.BroadcastKeepsInv | app/ok8mp_m7_services/overlays/packages/ai_agent/src/core/message_bus.c:198-209 | The shutdown broadcast keeps the invariant |
| BusRace.SignalCounts | app/ok8mp_m7_services/overlays/packages/ai_agent/src/core/message_bus.c:105-107 | A signal takes one sleeper, if there is one, to the queue and no thread of the other kind |
| EcuModel.FaultMemory | app/ok8mp_m7_services/esp32_can_ecu/src/main.cpp:84-164 | Over every history of requests, serial commands and status frames each status is 0x00, 0x08 or 0x0f, fails exactly in its state, and the measured values fit the state |
| EcuHistory.HistoryTells | app/ok8mp_m7_services/esp32_can_ecu/src/main.cpp:84-240 | Over every history, from its events alone: state, session, measured values, each trouble code's status (failing, failed since the last clear, or clean) and how often it began to fail, and the sequence number of the status frames |
| EcuHistory.EventDoes | app/ok8mp_m7_services/esp32_can_ecu/src/main.cpp:109-164 | One event more: what it does to the state and to one trouble code |
| EcuAnswers.RefusedExactly | app/ok8mp_m7_services/esp32_can_ecu/src/main.cpp:382-640 | Every request, from every valid state: refused exactly with the code 0x11, 0x12, 0x13, 0x31 or 0x22 that its octets and the session call for, with no change, or answered positively |
| EcuAnswers.Readings | app/ok8mp_m7_services/esp32_can_ecu/src/main.cpp:566-585 | Coolant is reported as 150 in over-temperature and 100 otherwise, the voltage as 29 04 in low voltage and 31 38 otherwise, PID 01 as 81 while a fault is active and 0 otherwise |
| EcuAnswers.SupportedIsServed | app/ok8mp_m7_services/esp32_can_ecu/src/main.cpp:539-591 | The three maps of supported identifiers mark exactly the identifiers that are served |
| EcuAnswers.Identification | app/ok8mp_m7_services/esp32_can_ecu/src/main.cpp:440-444 | The VIN's seventeen octets, over 0x22 F190 and over 0x09 02 |
| EcuAnswers.VehicleStatusIs | app/ok8mp_m7_services/esp32_can_ecu/src/main.cpp:425-439 | The status record octet by octet, from the state alone |
| EcuAnswers.ChecksumIsParity | app/ok8mp_m7_services/esp32_can_ecu/src/main.cpp:435-437 | A bit of the status checksum is set exactly if it is set in an odd number of the eight octets |
| EcuAnswers.ReportByMask | app/ok8mp_m7_services/esp32_can_ecu/src/main.cpp:472-494 | For every mask: P0217 and P0562, in this order, each listed with its status exactly if that shares a bit with the mask |
| EcuAnswers.ReportStored | app/ok8mp_m7_services/esp32_can_ecu/src/main.cpp:593-611 | The emission report lists the upper octets of the stored codes |
| EcuAnswers.Changes | app/ok8mp_m7_services/esp32_can_ecu/src/main.cpp:400-414 | The octets of the positive answers that change something, and the session's timing |
| EcuModel.OnlyClearForgets | app/ok8mp_m7_services/esp32_can_ecu/src/main.cpp:109-164 | A confirmed bit disappears only through a clear, after which stored means active |
| EcuModel.SessionIsLatest | app/ok8mp_m7_services/esp32_can_ecu/src/main.cpp:400-414 | The session is that of the latest accepted session request |
| EcuModel.RemoteChangeNeedsSession | app/ok8mp_m7_services/esp32_can_ecu/src/main.cpp:452-470 | A remote request changes the state only by the write request, and only in the extended session |
| EcuModel.PositiveOrNegative | app/ok8mp_m7_services/esp32_can_ecu/src/main.cpp:382-648 | Every response is positive, for the service that was asked, or negative, and then nothing has changed |
| EcuServer.Server.constructor | app/ok8mp_m7_services/esp32_can_ecu/src/main.cpp:722-753 | The server starts in the model's initial state |
| EcuServer.Server.ProcessRequest | app/ok8mp_m7_services/esp32_can_ecu/src/main.cpp:388-648 | The in-place server, response buffer included, computes the model's new state and response for every request |
| EcuServer.Server.SetDtcActive | app/ok8mp_m7_services/esp32_can_ecu/src/main.cpp:109-125 | The status bits and the occurrence count of one trouble code change as modelled, the other stays |
| EcuServer.Server.ApplyState | app/ok8mp_m7_services/esp32_can_ecu/src/main.cpp:127-152 | State, coolant, voltage and both trouble codes change together |
| EcuServer.Server.ClearDtcs | app/ok8mp_m7_services/esp32_can_ecu/src/main.cpp:154-164 | Clearing forgets both codes and reactivates the one that still fails |
| EcuServer.Server.ActiveCount | app/ok8mp_m7_services/esp32_can_ecu/src/main.cpp:89-97 | The number of failing codes |
| EcuServer.Server.StoredCount | app/ok8mp_m7_services/esp32_can_ecu/src/main.cpp:99-107 | The number of codes with any status bit |
| EcuServer.Server.ReportDtcs | app/ok8mp_m7_services/esp32_can_ecu/src/main.cpp:472-494 | The buffer holds exactly the records selected by the mask |
| EcuServer.Server.ReportObd | app/ok8mp_m7_services/esp32_can_ecu/src/main.cpp:593-611 | The buffer holds exactly the stored codes' upper octets |
| EcuServer.Server.ReadVehicle | app/ok8mp_m7_services/esp32_can_ecu/src/main.cpp:416-450 | The buffer holds the status record and its checksum |
| EcuServer.Server.Current | app/ok8mp_m7_services/esp32_can_ecu/src/main.cpp:531-591 | The buffer holds the current data the PID asks for |
| DiagClient.TransportIsFaithful | app/ok8mp_m7_services/overlays/apps/examples/ok8mp_can_service/ok8mp_can_diag.c:54-77 | Every finished loss-free run of the two transport stations, from any receive context, processed the request once and left the model server's answer with the client |
| DiagClient.SessionIsFaithful | app/ok8mp_m7_services/overlays/apps/examples/ok8mp_can_service/ok8mp_can_diag.c:54-77 | Over any number of exchanges, each a finished loss-free run of both stations over the server that the requests delivered before have left: each leaves the client with the answer of the server after exactly the requests asked before it |
| DiagClient.SessionDelivers | app/ok8mp_m7_services/overlays/apps/examples/ok8mp_can_service/ok8mp_can_diag.c:54-77 | Over such a sequence the requests delivered are the requests asked, in order and once each |
| DiagClient.Exchange | app/ok8mp_m7_services/overlays/apps/examples/ok8mp_can_service/ok8mp_can_isotp.c:385-429 | One request over that transport, on the model server: bad arguments, a too large answer and the answer are told apart |
| DiagClient.Request | app/ok8mp_m7_services/overlays/apps/examples/ok8mp_can_service/ok8mp_can_diag.c:54-77 | A negative response is -EPROTO |
| DiagClient.Expect | app/ok8mp_m7_services/overlays/apps/examples/ok8mp_can_service/ok8mp_can_diag.c:79-100 | A short, empty or foreign response is -EPROTO, anything else is returned whole |
| DiagClient.UdsSession | app/ok8mp_m7_services/overlays/apps/examples/ok8mp_can_service/ok8mp_can_diag.c:102-117 | Succeeds exactly for the two sessions the ECU knows, and then the ECU is in it |
| DiagClient.UdsSetState | app/ok8mp_m7_services/overlays/apps/examples/ok8mp_can_service/ok8mp_can_diag.c:173-205 | From every ECU state: succeeds for the three states and leaves the ECU in the requested one, otherwise nothing is sent |
| DiagClient.UdsReadStatus | app/ok8mp_m7_services/overlays/apps/examples/ok8mp_can_service/ok8mp_can_diag.c:129-171 | From every valid ECU state: succeeds and decodes exactly the ECU's state, coolant, voltage, counts and sequence number |
| DiagClient.ReadBack | app/ok8mp_m7_services/overlays/apps/examples/ok8mp_can_service/ok8mp_can_diag.c:129-205 | A state set and read back: its coolant and voltage, one active fault if any, and every fault ever confirmed still stored |
| DiagClient.DecodeStatus | app/ok8mp_m7_services/overlays/apps/examples/ok8mp_can_service/ok8mp_can_diag.c:145-170 | Accepts exactly a well-formed response with a matching checksum and tells a damaged checksum from any other mistake |
| DiagClient.AcceptedIsEncoding | app/ok8mp_m7_services/overlays/apps/examples/ok8mp_can_service/ok8mp_can_diag.c:145-170 | A response is accepted exactly if it encodes some status in range, and that status is the one decoded |
| DiagClient.ServerReportsStatus | app/ok8mp_m7_services/esp32_can_ecu/src/main.cpp:416-450 | The ECU's response encodes what it should report about itself |
| DiagClient.ReportsListStored | app/ok8mp_m7_services/esp32_can_ecu/src/main.cpp:472-611 | The UDS and the OBD-II report list exactly the stored codes, record by record in the same order |
| DiagClient.RecordOfOctets | app/ok8mp_m7_services/overlays/apps/examples/ok8mp_can_service/ok8mp_can_diag.c:240-250 | A record's octets decode to its code and status; the OBD-II octets to the code shifted right by 8 |
| DiagClient.UdsReadDtcs | app/ok8mp_m7_services/overlays/apps/examples/ok8mp_can_service/ok8mp_can_diag.c:207-254 | Returns exactly the stored codes with their status, or -ENOSPC if the caller has no room |
| DiagClient.ObdReadDtcs | app/ok8mp_m7_services/overlays/apps/examples/ok8mp_can_service/ok8mp_can_diag.c:427-472 | Returns the same codes shifted right by 8, or -ENOSPC |
| DiagClient.UdsClearDtcs | app/ok8mp_m7_services/overlays/apps/examples/ok8mp_can_service/ok8mp_can_diag.c:256-266 | Always succeeds and leaves the ECU cleared |
| DiagClient.UdsEcho | app/ok8mp_m7_services/overlays/apps/examples/ok8mp_can_service/ok8mp_can_diag.c:300-338 | Every payload of up to 124 octets comes back unchanged, and only those are accepted |
| DiagReadings.ObdReadCoolant | app/ok8mp_m7_services/overlays/apps/examples/ok8mp_can_service/ok8mp_can_diag.c:371-397 | From every valid ECU state: asks 01 05 and decodes 110 degrees in over-temperature, 60 otherwise |
| DiagReadings.ObdReadVoltage | app/ok8mp_m7_services/overlays/apps/examples/ok8mp_can_service/ok8mp_can_diag.c:399-425 | From every valid ECU state: asks 01 42 and decodes 10500 mV in low voltage, 12600 otherwise |
| DiagReadings.ObdSupportedPids | app/ok8mp_m7_services/overlays/apps/examples/ok8mp_can_service/ok8mp_can_diag.c:340-369 | The three maps decode to 0x88000001, 0x00000001 and 0x40000000; any identifier that is no map is -EPROTO |
| DiagReadings.UdsReadVin | app/ok8mp_m7_services/overlays/apps/examples/ok8mp_can_service/ok8mp_can_diag.c:268-298 | From every valid ECU state: asks 22 F1 90 and returns "OK8MP2026CAN00001" with its NUL |
| DiagReadings.ObdReadVin | app/ok8mp_m7_services/overlays/apps/examples/ok8mp_can_service/ok8mp_can_diag.c:486-515 | The same over 09 02 |
| DiagReadings.UdsTesterPresent | app/ok8mp_m7_services/overlays/apps/examples/ok8mp_can_service/ok8mp_can_diag.c:119-127 | Always succeeds and changes nothing |
| DiagReadings.ObdClearDtcs | app/ok8mp_m7_services/overlays/apps/examples/ok8mp_can_service/ok8mp_can_diag.c:474-484 | Always succeeds and leaves the ECU cleared |
| DiagReadings.ReadingsAgree | app/ok8mp_m7_services/esp32_can_ecu/src/main.cpp:416-585 | Identifiers 01, 05 and 42 carry the counts, temperature and voltage of the status record |
| ProtoSpec.VarintRoundTrip | app/ok8mp_m7_services/overlays/packages/ai_agent/src/channels/feishu_proto.c:37-191 | Reading back a 64-bit varint gives its value and stops right behind it, whatever surrounds it |
| ProtoSpec.VarintSizes | app/ok8mp_m7_services/overlays/packages/ai_agent/src/channels/feishu_proto.c:181-191 | At most ten octets for 64 bits, five for 32 |
| ProtoSpec.ReadVarint | app/ok8mp_m7_services/overlays/packages/ai_agent/src/channels/feishu_proto.c:37-51 | Reading advances unless at the end, and never past it |
| ProtoSpec.ParseField | app/ok8mp_m7_services/overlays/packages/ai_agent/src/channels/feishu_proto.c:126-173 | Every field moves the index forward, on any input |
| ProtoSpec.FrameRoundTrip | app/ok8mp_m7_services/overlays/packages/ai_agent/src/channels/feishu_proto.c:121-177 | Parsing the encoding of any list of fields, in any order and with repetition, gives what its fields do one after another (FrameSays reads that off the list); fields nobody asked for leave no trace |
| ProtoMeaning.FrameSays | app/ok8mp_m7_services/overlays/packages/ai_agent/src/channels/feishu_proto.c:77-177 | For every list of fields: type, message_id, trace_id, sum and seq are each the C string of the last entry under exactly that key, cut to 31, 63, 63, 127 and 127 octets, sequence number, service and method the last numbers 1, 3 and 4, the payload the last payload; what no field sets stays empty or 0 |
| ProtoMeaning.HeaderSaysLast | app/ok8mp_m7_services/overlays/packages/ai_agent/src/channels/feishu_proto.c:77-108 | A header message of any parts, in any order and with repetition: key and value are its last parts 1 and 2, cut to 31 and 127 octets |
| ProtoMeaning.OverrunRefused | app/ok8mp_m7_services/overlays/packages/ai_agent/src/channels/feishu_proto.c:150-168 | A header or payload whose length is negative or overruns the buffer refuses the frame, with what the fields before it said |
| ProtoMeaning.OverrunEndsScan | app/ok8mp_m7_services/overlays/packages/ai_agent/src/channels/feishu_proto.c:88-92 | Such a length in a header message ends its scan, and what was read before it stays |
| ProtoMeaning.FrameSkips | app/ok8mp_m7_services/overlays/packages/ai_agent/src/channels/feishu_proto.c:53-75 | Behind any other tag a field is skipped: the number, eight octets, four, its length if that many octets are there, or nothing |
| ProtoMeaning.HeaderSkips | app/ok8mp_m7_services/overlays/packages/ai_agent/src/channels/feishu_proto.c:103-105 | The same in a header message |
| ProtoMeaning.NumbersIgnoreWire | app/ok8mp_m7_services/overlays/packages/ai_agent/src/channels/feishu_proto.c:132-143 | Fields 1 to 4 are read as numbers whatever their wire type |
| ProtoMeaning.VarintIsGroups | app/ok8mp_m7_services/overlays/packages/ai_agent/src/channels/feishu_proto.c:37-51 | On any octets, overlong or cut short: reading ends behind the first octet below 128 or at the end, and gives the seven-bit groups modulo 2^64 |
| ProtoMeaning.VarintShape | app/ok8mp_m7_services/overlays/packages/ai_agent/src/channels/feishu_proto.c:181-191 | A varint's octets: all but the last have the top bit, none is wasted, and their groups make the number |
| ProtoMeaning.AckLayout | app/ok8mp_m7_services/overlays/packages/ai_agent/src/channels/feishu_proto.c:236-276 | The acknowledgement octet by octet, for every frame |
| ProtoSpec.ScanRoundTrip | app/ok8mp_m7_services/overlays/packages/ai_agent/src/channels/feishu_proto.c:83-108 | Scanning the encoding of any list of header parts gives what they mean |
| ProtoSpec.HeaderRoundTrip | app/ok8mp_m7_services/overlays/packages/ai_agent/src/channels/feishu_proto.c:77-119 | A header message gives back key and value, cut to the sizes the parser keeps |
| ProtoSpec.AckRoundTrip | app/ok8mp_m7_services/overlays/packages/ai_agent/src/channels/feishu_proto.c:236-276 | An acknowledgement parses to the request's sequence number, service and method (negative ones too), the type, both identifiers and the fixed payload |
| ProtoSpec.AckSize | app/ok8mp_m7_services/overlays/packages/ai_agent/src/channels/feishu_proto.c:236-276 | No acknowledgement is longer than 208 octets |
| ProtoSpec.ParsedIsValid | app/ok8mp_m7_services/overlays/packages/ai_agent/src/channels/feishu_proto.c:77-177 | Whatever arrives, the identifiers kept are at most 63 octets and NUL-free, so they can be echoed |
| ProtoCodec.ParseVarint | app/ok8mp_m7_services/overlays/packages/ai_agent/src/channels/feishu_proto.c:37-51 | The shifting loop computes the value modulo 2^64 and the next index |
| ProtoCodec.Skip | app/ok8mp_m7_services/overlays/packages/ai_agent/src/channels/feishu_proto.c:53-75 | Skips as specified for every wire type |
| ProtoCodec.DecodeHeader | app/ok8mp_m7_services/overlays/packages/ai_agent/src/channels/feishu_proto.c:77-119 | The header loop, with its early end on a bad length, updates the frame as specified |
| ProtoCodec.DecodeValue | app/ok8mp_m7_services/overlays/packages/ai_agent/src/channels/feishu_proto.c:131-173 | One field's value, or a refusal that leaves the frame as it was |
| ProtoCodec.DecodeFrame | app/ok8mp_m7_services/overlays/packages/ai_agent/src/channels/feishu_proto.c:121-177 | The decoder ends on every input with the specified verdict and frame, whose identifiers are echoable |
| ProtoCodec.PutVarint | app/ok8mp_m7_services/overlays/packages/ai_agent/src/channels/feishu_proto.c:181-191 | Writes exactly the varint or fails because it does not fit; nothing else changes |
| ProtoCodec.PutLengthField | app/ok8mp_m7_services/overlays/packages/ai_agent/src/channels/feishu_proto.c:193-208 | The same for a length-delimited field |
| ProtoCodec.PutNumberField | app/ok8mp_m7_services/overlays/packages/ai_agent/src/channels/feishu_proto.c:210-217 | The same for a number field |
| ProtoCodec.PutEntry | app/ok8mp_m7_services/overlays/packages/ai_agent/src/channels/feishu_proto.c:219-234 | The same for a header entry, which must also fit 256 octets |
| ProtoCodec.EncodeAck | app/ok8mp_m7_services/overlays/packages/ai_agent/src/channels/feishu_proto.c:236-276 | Writes exactly the acknowledgement or fails because it does not fit; 208 octets always suffice |
| ProtoCodec.SendDataAck | app/ok8mp_m7_services/overlays/packages/ai_agent/src/channels/feishu_recv.c:246-254 | The acknowledgement of any decoded frame fits the caller's 512 octets and reads back as what it acknowledges |
| InternetChecksum.ComputeChecksum | board/ok8mp_m7_openvela/src/ok8mp_fec.c:455-477 | The loops end and give the complement of the 16-bit one's-complement sum for every length up to 65535, and the plain sum stays below 2^32 |
| InternetChecksum.FoldIsOnesSum | board/ok8mp_m7_openvela/src/ok8mp_fec.c:461-474 | Adding first and folding carries at the end equals adding with end-around carry word by word (RFC 1071, section 1) |
| InternetChecksum.PublishedExample | board/ok8mp_m7_openvela/src/ok8mp_fec.c:455-477 | The example of RFC 1071, section 3 |
| InternetChecksum.OddLengthIsPadded | board/ok8mp_m7_openvela/src/ok8mp_fec.c:467-470 | A block of odd length counts as if a zero followed it |
| InternetChecksum.ChecksumVerifies | board/ok8mp_m7_openvela/src/ok8mp_fec.c:524-526 | Storing a block's checksum into its own zeroed even-offset field makes the block sum to zero |
| InternetChecksum.SingleChangeIsSeen | board/ok8mp_m7_openvela/src/ok8mp_fec.c:455-477 | A verifying block with one word changed still verifies exactly if the change is between the two representations of zero |
| InternetChecksum.BuildIcmpEcho | board/ok8mp_m7_openvela/src/ok8mp_fec.c:479-545 | For all addresses: the headers are the intended ones, both checksums verify, and the padding is zero |
| InternetChecksum.BuildIpv4 | board/ok8mp_m7_openvela/src/ok8mp_fec.c:502-526 | The IPv4 header verifies and the rest of the frame is untouched |
| InternetChecksum.BuildIcmp | board/ok8mp_m7_openvela/src/ok8mp_fec.c:528-544 | The ICMP message verifies and the rest of the frame is untouched |
| InternetChecksum.FillChecksum | board/ok8mp_m7_openvela/src/ok8mp_fec.c:524-526 | Stores a checksum that makes the block verify and changes only the field |
| RxRing.InOrderDelivery | board/ok8mp_m7_openvela/src/ok8mp_fec.c:1320-1364 | In every interleaving of the engine and the driver's statements, for every ring size: frames handed up are exactly the sensible ones among the first arrivals, once each, in order and before the slot is given back; full slots are one run from the oldest on and keep their frames; only the last slot wraps |
| RxRing.EngineKeeps | board/ok8mp_m7_openvela/src/ok8mp_fec.c:891-899 | The engine keeps the invariant and stores a frame exactly if a slot is free |
| RxRing.DriverKeeps | board/ok8mp_m7_openvela/src/ok8mp_fec.c:1328-1363 | Every statement of the receive loop keeps the invariant |
| RxRing.OneRound | board/ok8mp_m7_openvela/src/ok8mp_fec.c:1328-1363 | A whole round of the loop keeps the invariant |
| RxRing.Drained | board/ok8mp_m7_openvela/src/ok8mp_fec.c:1330-1336 | A loop that finds the next slot empty has handed up everything |
| TxRing.InOrderTransmission | board/ok8mp_m7_openvela/src/ok8mp_fec.c:1157-1257 | In every interleaving, for every ring size, what was sent is the beginning of what was accepted: once each, in order, whole and padded |
| TxRing.OneRun | board/ok8mp_m7_openvela/src/ok8mp_fec.c:1184-1251 | In every interleaving ready slots are one run from the engine's slot that ends just before the slot of the next call; only the last slot wraps |
| TxRing.DriverLeavesReadySlots | board/ok8mp_m7_openvela/src/ok8mp_fec.c:1184-1230 | No call and no statement of the driver touches a slot the engine owns |
| TxRing.DriverKeeps | board/ok8mp_m7_openvela/src/ok8mp_fec.c:1213-1251 | Every statement of the transmit call keeps the invariant |
| TxRing.FourSteps | board/ok8mp_m7_openvela/src/ok8mp_fec.c:1184-1257 | The call that runs through is its statements in a row, so what Transmit computes is one path of the step system |
| TxRing.TransmittedKeeps | board/ok8mp_m7_openvela/src/ok8mp_fec.c:1157-1257 | A call that runs through keeps the invariant |
| TxRing.AcceptedExactly | board/ok8mp_m7_openvela/src/ok8mp_fec.c:1171-1256 | A call is accepted exactly if the frame has 1 to 1536 octets and a slot is free, as it is, filled with zeros to 60 octets |
| TxRing.CallGoesOn | board/ok8mp_m7_openvela/src/ok8mp_fec.c:1213-1251 | Every statement of a call brings it on, the third hands the frame over, the fourth ends it |
| TxRing.EngineSends | board/ok8mp_m7_openvela/src/ok8mp_fec.c:901-909 | The engine sends the oldest accepted frame and keeps the invariant |
| TxRing.Padded | board/ok8mp_m7_openvela/src/ok8mp_fec.c:1193-1221 | A frame keeps its octets and is filled with zeros to 60 |
| FecDriver.FecNet.constructor | board/ok8mp_m7_openvela/src/ok8mp_fec.c:891-909 | Both rings start in the step systems' initial states, with WRAP on the last slot |
| FecDriver.FecNet.Transmit | board/ok8mp_m7_openvela/src/ok8mp_fec.c:1157-1257 | A frame fills and grants exactly the slot at txhead; a too long frame, a busy slot and an empty frame leave the ring alone, with the right code and counter; the invariant holds again for the next call |
| FecDriver.FecNet.FillSlot | board/ok8mp_m7_openvela/src/ok8mp_fec.c:1213-1221 | The copy and padding loops change only the slot's buffer |
| FecDriver.FecNet.Receive | board/ok8mp_m7_openvela/src/ok8mp_fec.c:1320-1364 | The loop hands up every waiting frame in order, counts exactly the too long ones as errors, and leaves every slot empty |
| FecDriver.FecNet.TakeSlot | board/ok8mp_m7_openvela/src/ok8mp_fec.c:1330-1363 | One round of the loop is one round of the step system |
| WsFrames.ServerReadsClient | app/ok8mp_m7_services/overlays/packages/ai_agent/src/channels/ws_server.c:231-337 | For every mask, reading exactly the frame: a ping gives -2 and the reply 8a, its length, its payload; a pong -2 and no reply; a text or binary frame that fits its length and its payload |
| WsFrames.ServerEndsAndSkips | app/ok8mp_m7_services/overlays/packages/ai_agent/src/channels/ws_server.c:231-297 | A close gives 0, any other unknown opcode -2 after its first two octets, a stream that ends within them -1 |
| WsFrames.ServerRefuses | app/ok8mp_m7_services/overlays/packages/ai_agent/src/channels/ws_server.c:244-317 | A frame that does not fit, a ping or pong of more than 125 octets and any 64-bit length give -1, and nothing is sent back |
| WsFrames.ServerReadsUnmasked | app/ok8mp_m7_services/overlays/packages/ai_agent/src/channels/ws_server.c:319-337 | A frame without a mask is taken as it stands |
| WsFrames.ClientReadsMasked | app/ok8mp_m7_services/overlays/packages/ai_agent/src/channels/feishu_ws.c:313-391 | The client unmasks what is masked and takes lengths of 64 bits |
| WsLayout.CutFrameFails | app/ok8mp_m7_services/overlays/packages/ai_agent/src/channels/ws_server.c:231-325 | A frame cut off anywhere gives -1 at the end of the stream, and nothing is sent back |
| WsLayout.LengthForms | app/ok8mp_m7_services/overlays/packages/ai_agent/src/channels/feishu_ws.c:261-285 | The three length forms octet by octet, each where RFC 6455, section 5.2 asks for it |
| WsLayout.ClientFrameLayout | app/ok8mp_m7_services/overlays/packages/ai_agent/src/channels/feishu_ws.c:253-311 | A client's frame octet by octet: final, opcode, masking bit, length, mask, masked payload |
| WsLayout.Hello | app/ok8mp_m7_services/overlays/packages/ai_agent/src/channels/feishu_ws.c:253-311 | The two "Hello" examples of RFC 6455, section 5.7 |
| WsFrames.ClientReadsServer | app/ok8mp_m7_services/overlays/packages/ai_agent/src/channels/feishu_ws.c:313-391 | A server frame is received up to the buffer's capacity and read exactly to its end |
| WsFrames.LoopDelivers | app/ok8mp_m7_services/overlays/packages/ai_agent/src/channels/ws_server.c:417-440 | Any concatenation of such client frames, control frames among them, and whatever a close hides behind them: the receive loop delivers exactly the payloads sent, in order, and sends back exactly the pongs of its pings, in order |
| WsFrames.ClientLoopDelivers | app/ok8mp_m7_services/overlays/packages/ai_agent/src/channels/feishu_bot.c:138-142 | Any concatenation of server frames is taken frame by frame: the client gets the payloads in order, each as far as its buffer holds it |
| WsFrames.UnmaskRoundTrip | app/ok8mp_m7_services/overlays/packages/ai_agent/src/channels/feishu_ws.c:297-301 | Masking twice with the same key restores the payload (RFC 6455, section 5.3) |
| WsFrames.MaskedAt | app/ok8mp_m7_services/overlays/packages/ai_agent/src/channels/feishu_ws.c:299-301 | Octet i meets octet i modulo 4 of the key |
| WsFrames.HeadRoundTrip | app/ok8mp_m7_services/overlays/packages/ai_agent/src/channels/feishu_ws.c:330-357 | The length octets of every size and the mask read back (RFC 6455, section 5.2) |
| WsFrames.BigEndianRoundTrip | app/ok8mp_m7_services/overlays/packages/ai_agent/src/channels/feishu_ws.c:271-274 | The octets of a long length read back |
| WsClient.SendFrame | app/ok8mp_m7_services/overlays/packages/ai_agent/src/channels/feishu_ws.c:253-311 | Exactly the masked frame goes out, the 256-octet chunks leave no trace, and on a failing connection a beginning of it |
| WsClient.BuildHeader | app/ok8mp_m7_services/overlays/packages/ai_agent/src/channels/feishu_ws.c:261-291 | The header array holds flag, opcode, length and mask |
| WsClient.SendPayload | app/ok8mp_m7_services/overlays/packages/ai_agent/src/channels/feishu_ws.c:297-309 | The chunk loop sends the masked payload or the part the connection takes |
| WsClient.RecvFrame | app/ok8mp_m7_services/overlays/packages/ai_agent/src/channels/feishu_ws.c:313-391 | The receiver gives what the octets of the stream say, however reads are cut or block |
| WsClient.RecvPayload | app/ok8mp_m7_services/overlays/packages/ai_agent/src/channels/feishu_ws.c:359-390 | Keeps what fits, drops the rest, unmasks, and ends the text |
| WsClient.ReadHead | app/ok8mp_m7_services/overlays/packages/ai_agent/src/channels/feishu_ws.c:330-357 | Length and mask are read, or the stream ended |
| WsServer.SendFrame | app/ok8mp_m7_services/overlays/packages/ai_agent/src/channels/ws_server.c:201-225 | Success means exactly the frame went out, failure only a beginning of it, and a steady connection succeeds for every payload under 65536 octets |
| WsServer.RecvFrame | app/ok8mp_m7_services/overlays/packages/ai_agent/src/channels/ws_server.c:231-337 | The receiver gives what the octets of the stream say, however reads are cut, and answers as they say |
| WsServer.RunClient | app/ok8mp_m7_services/overlays/packages/ai_agent/src/channels/ws_server.c:415-424 | The receive loop takes from the stream and, on a connection that takes it, sends exactly what that says |
| WsServer.RecvControl | app/ok8mp_m7_services/overlays/packages/ai_agent/src/channels/ws_server.c:244-291 | A control frame is consumed whole, a ping answered, a too long one refused |
| WsServer.RecvData | app/ok8mp_m7_services/overlays/packages/ai_agent/src/channels/ws_server.c:319-337 | A data frame is received whole, unmasked and ended, or refused if it does not fit |
| WsStream.Stream.ReadExact | app/ok8mp_m7_services/overlays/packages/ai_agent/src/channels/feishu_ws.c:51-66 | Reads exactly the octets asked for through short and blocking reads, or reports the end |
| WsStream.Stream.WriteAll | app/ok8mp_m7_services/overlays/packages/ai_agent/src/channels/feishu_ws.c:69-84 | Writes everything through short and blocking writes, or up to where the connection failed |
| WsStream.Unmask | app/ok8mp_m7_services/overlays/packages/ai_agent/src/channels/ws_server.c:331-334 | Unmasks in place the first n octets and no other |
| Utf8Chunks.SendMessageChunks | app/ok8mp_m7_services/overlays/packages/ai_agent/src/channels/feishu_send.c:176-248 | Segments of any text are non-empty, at most 4000 octets and join to the text; of well-formed text every segment is well-formed and all but the last nearly full |
| Utf8Chunks.EncodedIsWellFormed | app/ok8mp_m7_services/overlays/packages/ai_agent/src/channels/feishu_send.c:183-187 | The encoding of any scalar values is well-formed (RFC 3629, section 3) |
| Utf8Chunks.WellFormedIsEncoded | app/ok8mp_m7_services/overlays/packages/ai_agent/src/channels/feishu_send.c:183-187 | And every well-formed text is the encoding of some |
| Utf8Chunks.NextChunk | app/ok8mp_m7_services/overlays/packages/ai_agent/src/channels/feishu_send.c:177-191 | One segment, cut between characters if the rest is well-formed |
| Utf8Chunks.BackToCharacter | app/ok8mp_m7_services/overlays/packages/ai_agent/src/channels/feishu_send.c:181-190 | The longest cut within the limit that is not before a continuation octet, or the limit |
| Utf8Chunks.CutBeforeCharacter | app/ok8mp_m7_services/overlays/packages/ai_agent/src/channels/feishu_send.c:183-187 | Well-formed text may be cut before any octet that is not a continuation (RFC 3629, section 4) |
| Utf8Chunks.CharacterNearby | app/ok8mp_m7_services/overlays/packages/ai_agent/src/channels/feishu_send.c:183-187 | Of four successive octets of well-formed text one starts a character |
| RateLimiter.RefusedExactly | app/ok8mp_m7_services/overlays/packages/ai_agent/src/channels/feishu_recv.c:138-195 | With a positive clock that never goes back and at most eight chats a message is refused exactly if two of its chat were accepted in the last 120 s |
| RateLimiter.ThreeSpanWindow | app/ok8mp_m7_services/overlays/packages/ai_agent/src/channels/feishu_recv.c:138-195 | Any three accepted messages of one chat span at least 120 s |
| RateLimiter.LimitedExactly | app/ok8mp_m7_services/overlays/packages/ai_agent/src/channels/feishu_recv.c:138-195 | For any number of chats: a message is refused exactly if two of its chat were accepted in the last 120 s since the chat last got its slot |
| RateLimiter.LimitHoldsExactly | app/ok8mp_m7_services/overlays/packages/ai_agent/src/channels/feishu_recv.c:138-195 | For any number of chats: the limit of two in 120 s is enforced on a message if and only if its chat had two accepted since it last got its slot, or its last but one accepted message, if any, is at least 120 s old |
| RateLimiter.LimitHoldsBySlot | app/ok8mp_m7_services/overlays/packages/ai_agent/src/channels/feishu_recv.c:138-195 | The same condition by the table: the chat has a slot with both stamps set, or its last but one accepted message, if any, is at least 120 s old |
| RateLimiter.VictimIsLeast | app/ok8mp_m7_services/overlays/packages/ai_agent/src/channels/feishu_recv.c:151-171 | In a full table the slot taken is one whose older stamp is the least of all |
| RateLimiter.OneStampGoesFirst | app/ok8mp_m7_services/overlays/packages/ai_agent/src/channels/feishu_recv.c:159-171 | An unset stamp counts as time 0: as long as some chat has only one accepted message, no chat with two is evicted, however recent that one message is |
| RateLimiter.NineChatsSlip | app/ok8mp_m7_services/overlays/packages/ai_agent/src/channels/feishu_recv.c:151-174 | A run of nine chats in which a third message of one chat is accepted at one time |
| RateLimiter.NinthChatForgets | app/ok8mp_m7_services/overlays/packages/ai_agent/src/channels/feishu_recv.c:151-174 | In a full table a new chat is accepted and takes a slot whose chat is then accepted whatever came before |
| RateLimiter.NobodyEvicted | app/ok8mp_m7_services/overlays/packages/ai_agent/src/channels/feishu_recv.c:151-174 | With at most eight chats none ever loses its slot |
| RateLimiter.TableRemembers | app/ok8mp_m7_services/overlays/packages/ai_agent/src/channels/feishu_recv.c:138-195 | Over every run, for any number of chats, a slot holds the last two times accepted since its chat got it |
| RateLimiter.Limiter.BotRateLimited | app/ok8mp_m7_services/overlays/packages/ai_agent/src/channels/feishu_recv.c:138-195 | The search, eviction and counting loops decide and update as specified |
| RateLimiter.Limiter.PickVictim | app/ok8mp_m7_services/overlays/packages/ai_agent/src/channels/feishu_recv.c:151-171 | The first free slot, or in a full table one whose older stamp is the least of all |

## Left out

- Real time: STmin delays, `usleep` and the millisecond arithmetic of deadlines; a deadline is a point after which nothing arrives or is sent. Reserved STmin values are mapped to 0 by the code, so nothing is claimed about the standard there.
- CanBus.CanPort.Send: a failed transmission puts nothing on the bus and every later one fails too.
- CAN frames are classic ones with eight data octets; the router's refusal of `dlc > 8` and CAN FD are not modelled.
- IsotpExchange.ReliableExchange: one exchange at a time, as the M7's lock enforces, from any receive context but with no frame of a previous exchange still in the channels; LateClearToSendSplices shows what such a frame can do.
- IsotpExchange.LossyExchange: starts from empty channels, too.
- EcuSplice.LateClearToSendSplices: frames that were on the bus when the M7 gave up reach its next subscription; those that had reached the closed one do not.
- M7Isotp.Request: the transport lock; what the daemon does to the subscription meanwhile is the port's inbox.
- IsotpExchange.LossyExchange: a station that gave up after a deadline stays silent for the rest of the exchange.
- DiagClient.Exchange: calls the server directly instead of running the two stations; SessionIsFaithful is the statement that any sequence of finished loss-free runs of them has that effect. A sequence with frames left over between exchanges has no system-level theorem beyond SplicesExactly and LateClearToSendSplices.
- Router and mailbox start, stop and restart, liveness across `g_stop`, and unsubscribing with a receiver in flight; one running daemon is assumed.
- RouterRace.SemaphoreCountsQueue: the critical sections under the lock are single steps.
- CanRouter.Subscriber.Receive: the non-blocking call, without the timed wait; the blocking one is in RouterRace.
- BusRace: messages are numbers, and the absolute time of a timed wait is not modelled.
- EcuServer: the periodic status frame's octets, the injected faults other than the jumped counter, and the 0x700 command of the serial test path.
- ProtoSpec.ReadVarint: shift counts of 64 and more, which C leaves undefined, contribute nothing; index sums are unbounded integers.
- ProtoSpec.Frame: the `sum` and `seq` headers are kept as text, `atoi` is not modelled; the payload is the octets, not an address in the buffer.
- ProtoMeaning.FrameSays: field numbers below 2^28, tags of at most 32 bits; an entry's parts are a key and a value, other orders of parts are in HeaderSaysLast.
- ProtoCodec.DecodeFrame: reads a sequence, as the C buffer is never written; the ping encoder has the shape of the acknowledgement.
- WsFrames.ServerEndsAndSkips: of a frame with an unknown opcode the server skips only the first two octets, so what follows is read as frames; nothing more is claimed of such a stream.
- WsServer.RunClient: what the gateway does with a message, and the flag that stops it.
- WsFrames.LoopDelivers: a client's empty text frame is returned as a close by the server, so the theorem asks for non-empty ones.
- WsFrames.ClientLoopDelivers: the loop of the model ends at the first failed read; the client's own sends a ping and reads on.
- WsStream.Stream.Write: a connection that failed stays failed.
- Utf8Chunks.SendMessageChunks: the HTTP request, its retry and failing allocations, which drop the segment or end the call.
- RateLimiter.LimitedExactly: chat identifiers are non-empty and at most 63 octets; longer ones never match their truncated copy.
- InternetChecksum.BuildIcmpEcho: the ARP frames and the capture of replies.
- RxRing and TxRing: copying a frame is one step, since the slot is not the engine's; memory barriers, doorbell registers, cache maintenance and the network stack's own writes through `dev->d_buf` are not modelled.
- FecDriver.FecNet.Transmit: the counters of ARP and IPv4 attempts and NuttX's statistics.
- FlexCAN bit packing, register, clock, PHY and I2C access, TLS, HTTP, MQTT, BLE, cJSON, agent logic, stores and command lines.
