# Scrutiny embedded: a verified model

Scrutiny embedded is a library that runs inside firmware. A remote client reads and writes the
firmware's memory over a byte protocol, and lets a datalogger record variables around a trigger.
This project models the parts of it that are state machines and arithmetic, and proves what they
keep. Eight-bit bytes, 64-bit support, eight-byte addresses and a little-endian target are fixed;
the 16-bit and 32-bit widths are written out.

## What is modelled

| Files | Part |
|---|---|
| `ownership.dfy`, `ownership_runs.dfy`, `ownership_calls.dfy`, `ownership_handover.dfy`, `ownership_reads.dfy`, `ownership_progress.dfy`, `ownership_arming.dfy`, `ownership_status.dfy`, `handlers.dfy` | How one datalogger is handed between loops through single-slot mailboxes: the machine with its invariant, its runs, runs of whole process calls, what is handed over, what main reads of it, how a request gets it back, what arm and disarm requests come to, what main knows of an acquisition, and the objects that take its steps |
| `raw_encoder.dfy`, `chunks.dfy` | The ring of log entries and its chunked reader |
| `acquisition.dfy`, `acquisition_end.dfy`, `hold_time.dfy`, `datalogging.dfy`, `logger_types.dfy`, `timebase.dfy` | Trigger, hold time, decimation and the end of an acquisition: its place around the trigger, its timeout, its number |
| `download.dfy` | The transfer of an acquisition to the client |
| `checksum.dfy` | The nibble-table CRC-32 |
| `comm_receive.dfy`, `comm_line.dfy`, `comm_link.dfy`, `comm_transmit.dfy`, `comm_session.dfy`, `comm_handler.dfy` | The receiver as a byte machine, the frames it accepts, chunks over time, the transmitter, the session |
| `comm_serving.dfy`, `comm_keeping.dfy`, `comm_server.dfy` | What the main handler does with a stored request until its answer has left, and how long a session lasts meanwhile |
| `memory_read.dfy`, `memory_write.dfy` | Block lists, protected regions, reading and (masked) writing |
| `config_codec.dfy`, `configure.dfy` | The Configure request: its codec and its checks |
| `trigger_operands.dfy` | Bitfield fetch, sign extension, mixed-sign comparison |
| `words.dfy`, `protocol.dfy`, `wrappers.dfy` | Fixed-width words, response codes, optional values |

Objects whose methods update their fields are classes; each method's contract ties the new state
to a function of the old one, and lemmas about those functions carry the results. Members that the
source keeps in one struct are one field holding a datatype.

Environment, stated where it is used:

- Quiet take: no Configure or Reset is handled between main sending TAKE and reading TAKEN
  (`Ownership.QuietTake`). `OwnershipRuns.QuietTakeIsNeeded` shows it is exactly what exclusive
  access needs.
- Target memory is disjoint from the communication buffers, and written blocks do not wrap the
  address space where protection is claimed.
- Time, samples, trigger conditions and published values are inputs, arbitrary at every step.

## What the proofs found

- Two Configures in a row, before a loop has taken the logger, give it two owners and end in a
  fault that never clears (`LoudTakeFaults`, `FaultIsReachable`, `FaultIsForever`).
- A Reset or a rejected Configure does not cancel a hand-over that waits for mailbox room: the loop
  gets a logger that is not configured (`UnconfiguredOwnerIsReachable`); it gets a configured one
  exactly when the last request served was an accepted Configure (`OwnedLoggerIsConfigured`).
- Exclusive access covers what main writes, not all it reads. The logic reads the state of an owned
  logger exactly while a TAKEN waits (`StateReadAloneIff`, `StateReadWhileOwned`). A transfer and a
  metadata request always read the log of an owned logger (`CompletedIsOwned`: the metadata request
  needs no owner check); that log stands still exactly as long as the owner obeys no arm and no
  disarm (`LogStandsStillIff`), and main does not wait for that (`MovingLogIsRead`).
- A held-back request gets the logger after two takes of the owner with room to answer
  (`TwoTakesRelease`, exactly when is `ReleasedIff`). If main reads the owner's mailbox always
  between the owner's taking of messages and its report, it never does (`HeldBackForever`).
- Accepted arm and disarm requests can be obeyed out of order: an arm, a disarm and an arm accepted
  in this order can leave the logger disarmed with nothing waiting (`LastArmIsLost`; what is sent
  when is `AcceptedIsSent`).
- With a 16-bit buffer size an acquisition can miss its end because the byte count wraps
  (`MissedEnd`); exactly when is `EndsOnTimeIff`.
- The points reported after the trigger can exceed the entries of the log (`TriggerOutsideLog`).
- A completed acquisition without entries, which a timeout can produce (`CompletedEmpty`), is
  announced as empty but read as the whole used buffer (`TotalSizeIsStream`).
- A trigger that is armed again can fire on a condition that was false while it was disarmed
  (`HeldWhileDisarmed`), or that was never seen to become true because the trigger was forced before
  (`HeldAfterForced`); exactly when is `FiresExactly`.
- Read requests that fit are refused for some response buffers above 32769 bytes
  (`LargeBuffersRefuse`); a write response can lack its last receipt (`LastReceiptDropped`, exactly
  when is `CommitAcknowledges`).
- The region check treats an empty block as touching a range it starts inside, and at address 0
  every range (`EmptyBlockTouches`).
- The largest signed value compares equal to every larger unsigned one (`CompareIsExact`).
- Bytes that arrive after a complete request mark the link as receiving again, and the request is
  dropped without an answer (`LateBytes`, `DiscoverThenByte`). Only a Connect that opens a session
  is answered, because opening it restarts the receiver (`ConnectThenByte`; exactly when a request
  is answered is `AnsweredIff`).
- A request that replaces a held-back one after a silence is given up when the old one would have
  been (`OldTimeCounts`, `GivenUpEarly`).
- A boolean field of several bits reads as its truth value exactly if it is zero or its first byte
  is one (`BooleanIsTruthIff`).

## Model

| member | source | states |
|---|---|---|
| `OwnershipRuns.RunsAreSafe` | lib/src/scrutiny_main_handler.cpp:281-399 | For any number of loops and every interleaving without a Configure or Reset during a hand-over: no fault, owners differ only while the matching TAKEN or RELEASED is in flight, no full mailbox is overwritten, status comes from the recorded owner, main touches the logger only when nobody owns it or is about to, a loop changes it only as owner, a RELEASE is always honoured, an arm or disarm takes effect only in the ownership period that accepted it |
| `OwnershipRuns.InvMeansSafe` | lib/src/scrutiny_loop_handler.cpp:31-111 | Every step from a state of the invariant is safe in that sense |
| `OwnershipRuns.PlayKeeps` | lib/src/scrutiny_main_handler.cpp:281-381 | The protocol invariant (free, taking or owned, with matching mailbox contents and periods) holds after every quiet run |
| `Ownership.PopKeeps` | lib/src/scrutiny_main_handler.cpp:281-321 | Reading one loop message keeps the invariant |
| `Ownership.LogicKeeps` | lib/src/scrutiny_main_handler.cpp:323-381 | The datalogging logic keeps the invariant, whatever it sends |
| `Ownership.ServeKeeps` | lib/src/scrutiny_main_handler.cpp:1425-1694 | Serving a request keeps the invariant if no hand-over is interrupted |
| `Ownership.TakeMessageKeeps` | lib/src/scrutiny_loop_handler.cpp:38-74 | A loop obeying a message keeps the invariant |
| `Ownership.LoopRunsKeeps` | lib/src/scrutiny_loop_handler.cpp:76-109 | The owner running the logger and reporting keeps the invariant, whatever the logger does |
| `OwnershipRuns.SlotsKept` | lib/inc/ipc/scrutiny_ipc_std_atomic.hpp:34-65 | No step replaces a message in a full mailbox; only its reader takes it |
| `OwnershipRuns.MainTouchesIsAll` | lib/src/scrutiny_main_handler.cpp:294-305 | Main changes the logger in no other steps than those that count as touching it |
| `OwnershipRuns.QuietTakeIsNeeded` | lib/src/scrutiny_main_handler.cpp:1430-1438 | A Configure or Reset that passes the owner check finds the logger unowned if and only if no hand-over is under way |
| `OwnershipRuns.LoudTakeFaults` | lib/src/scrutiny_main_handler.cpp:1430-1530 | From any state with a TAKE pending, a Configure for another free loop leads to two owners and UnexpectedClaim |
| `OwnershipRuns.FaultIsReachable` | lib/src/scrutiny_main_handler.cpp:285-293 | Concrete run from initialization to UnexpectedClaim with two Configures in a row |
| `OwnershipRuns.FaultIsForever` | lib/src/scrutiny_main_handler.cpp:323-328 | Once a fault is set it stays, and no loop is ever sent a message again |
| `OwnershipHandover.OwnedLoggerIsConfigured` | lib/src/scrutiny_main_handler.cpp:1425-1537 | In every quiet run from the start, a logger that is being handed over or owned is configured if and only if the last Configure or Reset that main served, rather than held back, was an accepted Configure |
| `OwnershipHandover.WaitingHandOver` | lib/src/scrutiny_main_handler.cpp:1664-1694 | While a hand-over waits for mailbox room: a request leaves the logger configured if and only if it is no Reset and no rejected Configure; the TAKE is sent in any case |
| `OwnershipHandover.UnconfiguredOwnerIsReachable` | lib/src/scrutiny_main_handler.cpp:1687-1694 | For a Reset or any rejected Configure, a quiet run from the start, of whole process calls of main and of one loop with their steps interleaved, that ends with the loop owning an unconfigured logger: the hand-over waits behind a stale arm message |
| `OwnershipReads.StateReadAloneIff` | lib/src/scrutiny_main_handler.cpp:330-333 | The logic's own read of the logger state finds the logger unowned if and only if no loop has a TAKEN waiting |
| `OwnershipReads.StateReadIsAll` | lib/src/scrutiny_main_handler.cpp:306-333 | Main learns the logger state by that read or by a message, never otherwise |
| `OwnershipReads.StateReadWhileOwned` | lib/src/scrutiny_main_handler.cpp:330-333 | A run of process calls from the start in which the state is read while a loop owns the logger |
| `OwnershipReads.LogStandsStillIff` | lib/src/scrutiny_main_handler.cpp:1590-1662 | In every quiet run, a log that main reads for a transfer, and in every quiet run of process calls also one that it reads for the metadata, has an owner and has stood still since the completion was reported if and only if the owner has obeyed no arm and no disarm since; the logger is completed then |
| `OwnershipReads.CompletedIsOwned` | lib/src/scrutiny_main_handler.cpp:1600-1604 | The metadata request has no owner check: in every quiet run of process calls, with any number of loops, main records an owner whenever it serves a request while it believes an acquisition to be complete, and an unowned logger is never armed, triggered or completed then |
| `OwnershipReads.LogReadIsAll` | lib/src/scrutiny_main_handler.cpp:1590-1660 | A transfer request is answered exactly when an owner is recorded and believed to have completed, a metadata request exactly when a completion is believed |
| `OwnershipReads.MovingLogIsRead` | lib/src/scrutiny_main_handler.cpp:1539-1554 | A run of process calls to a completed acquisition that is armed again while main still answers requests for the log and its metadata |
| `OwnershipRuns.ThirdCallPasses` | lib/src/scrutiny_main_handler.cpp:401-464 | With main and owner alternating and other loops running freely, a request that finds an owner, recorded before or learnt of in the same process call, and is held back twice passes the owner check at the third call |
| `OwnershipProgress.ReleasedIff` | lib/src/scrutiny_main_handler.cpp:351-380 | For any number of loops and every interleaving of single steps: a logger that main wants back is given up in a run if and only if the run gets over each of the at most four stages ahead; otherwise so many fewer are ahead |
| `OwnershipProgress.StepGetsOn` | lib/src/scrutiny_main_handler.cpp:281-381 | Exactly one step gets a release to its next stage (the owner takes what is in the way, main sends RELEASE, the owner takes it, main reads RELEASED); no step of main or of any loop sets it back |
| `OwnershipProgress.TwoTakesRelease` | lib/src/scrutiny_loop_handler.cpp:38-74 | Two messages taken by the owner, main's logic between and main's reading after them release the logger, wherever they fall and whatever happens in between |
| `OwnershipProgress.HoldingBackReleases` | lib/src/scrutiny_main_handler.cpp:1430-1438 | A request that is held back sets the release going |
| `OwnershipProgress.HeldBackForever` | lib/src/scrutiny_loop_handler.cpp:38-109 | From the start, for any number of rounds, a run of whole process calls in which the owner calls twice as often as main and a Reset is held back each time: every take of the owner is blocked by its own last report |
| `OwnershipArming.StateIsAsObeyed` | lib/src/scrutiny_loop_handler.cpp:50-61 | In every quiet run from the start: without a configuration the logger is idle; if its owners, since the last accepted Configure, obeyed no ARM, or a DISARM last, it is configured or failed; if an ARM last, it is armed, triggered, completed or failed, and triggered or completed only if the owner ran it since |
| `OwnershipArming.IdleAndFailedStay` | lib/src/datalogging/scrutiny_datalogger.cpp:245-259 | In every quiet run an idle or failed logger stays so, whatever is obeyed, until main reads RELEASED or serves a Configure or a Reset |
| `OwnershipArming.AcceptedIsSent` | lib/src/scrutiny_main_handler.cpp:351-380 | In every quiet run: arm and disarm requests are accepted exactly with an owner recorded and no release under way; the logic sends ARM exactly to the owner with an empty mailbox, no release wanted and an accepted arm request not sent yet, and DISARM exactly there if only a disarm request waits |
| `OwnershipArming.LastArmIsLost` | lib/src/scrutiny_main_handler.cpp:363-380 | A run of process calls from the start in which arm, disarm and arm are accepted in this order and the logger ends disarmed, with nothing waiting |
| `OwnershipStatus.StatusWasTrue` | lib/src/scrutiny_main_handler.cpp:306-318 | In every quiet run the status that main holds is the one the logger had when the last report that main read was made, or when main last saw it itself; a transfer goes on exactly if some response left more to come and nothing ended the transfer since |
| `OwnershipStatus.AnnouncedOnce` | lib/src/scrutiny_loop_handler.cpp:82-107 | In every quiet run an owner with room to speak announces the data exactly if the logger is completed and it has not done so since it took the logger, and reports the status otherwise |
| `OwnershipRuns.OwnerIsInvolved` | lib/src/scrutiny_main_handler.cpp:285-293 | An owner that main records before it serves a request was recorded before, or its TAKEN was just read |
| `OwnershipRuns.FirstMainCall` | lib/src/scrutiny_main_handler.cpp:351-380 | A held-back request leaves the RELEASE sent, or waiting behind one arm or disarm message |
| `OwnershipRuns.SecondMainCall` | lib/src/scrutiny_main_handler.cpp:353-362 | Once the owner emptied its mailbox, the next call sends the RELEASE |
| `OwnershipRuns.LoopAsked` | lib/src/scrutiny_loop_handler.cpp:62-69 | A loop process call answers the RELEASE and gives the logger up |
| `OwnershipRuns.OthersStayOut` | lib/src/scrutiny_loop_handler.cpp:38-79 | Loops outside the hand-over change neither main, nor logger, nor the owner's mailboxes |
| `Handlers.IpcMessage.Send` | lib/inc/ipc/scrutiny_ipc_std_atomic.hpp:44-56 | A sent message is the mailbox content |
| `Handlers.IpcMessage.Pop` | lib/inc/ipc/scrutiny_ipc_std_atomic.hpp:60-65 | Popping returns the data and empties the mailbox |
| `Handlers.LoopHandler.TakeMessage` | lib/src/scrutiny_loop_handler.cpp:38-74 | The message part of process_common is the loop step of the machine; what obeyed arms and disarms come to is OwnershipArming.StateIsAsObeyed |
| `Handlers.LoopHandler.RunLogger` | lib/src/scrutiny_loop_handler.cpp:76-109 | The logger part of process_common is the run step of the machine, with a legal move of the logger state |
| `Handlers.MainHandler.ProcessDataloggingLoopMessage` | lib/src/scrutiny_main_handler.cpp:281-321 | Handles one loop message as the machine does |
| `Handlers.MainHandler.ProcessLoops` | lib/src/scrutiny_main_handler.cpp:385-399 | Reads one message of every loop in order |
| `Handlers.MainHandler.ProcessDataloggingLogic` | lib/src/scrutiny_main_handler.cpp:323-381 | Sends at most one message, to the right loop, as the machine does |
| `Handlers.MainHandler.ProcessLoopsAndLogic` | lib/src/scrutiny_main_handler.cpp:415-418 | The part of a process call before a request is served, as used in the progress result |
| `Handlers.MainHandler.ConfigureDatalog` | lib/src/scrutiny_main_handler.cpp:1425-1537 | From the payload: held back while owned; otherwise the verdict in the order of the checks, a configured logger with an empty log and a new owner on success, a reset logger on any failure |
| `ConfigureRequests.ConfiguresIff` | lib/src/scrutiny_main_handler.cpp:1440-1535 | A payload configures an unowned logger if and only if it is the encoding of a request for an existing loop that may log, whose operands and items are clear of the forbidden ranges and name existing published values, and which the logger accepts |
| `ConfigureRequests.ChecksOkIff` | lib/src/scrutiny_main_handler.cpp:1460-1518 | The checks pass if and only if every operand and item passes |
| `ConfigureRequests.RefusalIsExact` | lib/src/scrutiny_main_handler.cpp:1440-1535 | Which code a decoded request gets: FailureToProceed for no such loop, Forbidden for one that may not log, then the problem of the first item that has one, then that of the first operand, then InvalidRequest if the logger does not accept it |
| `ConfigureRequests.FieldIsInVariable` | lib/src/scrutiny_main_handler.cpp:1474-1486 | The bytes fetched for an accepted bitfield lie within its variable, whose whole type was checked |
| `ConfigureRequests.AcceptedIsClear` | lib/src/scrutiny_main_handler.cpp:1460-1518 | An accepted Configure makes the logger read and log no byte of a forbidden range, bitfields with their whole type included |
| `ConfigureRequests.OperandPassesIff` | lib/src/scrutiny_main_handler.cpp:1460-1493 | A memory operand passes if and only if no byte of its variable is in a forbidden range; a published value if and only if it exists; a literal always |
| `ConfigureRequests.ItemPassesIff` | lib/src/scrutiny_main_handler.cpp:1494-1518 | The same for the logged items, a time item always |
| `ConfigureRequests.CheckAddresses` | lib/src/scrutiny_main_handler.cpp:1460-1518 | The two loops give the verdict on the first problem, an item's before an operand's |
| `Handlers.MainHandler.GetAcquisitionMetadata` | lib/src/scrutiny_main_handler.cpp:1590-1616 | The step of the machine; acquisition and configuration number; the announced size is that of the download if and only if the log is not empty; the announced points are the entries of the log |
| `Handlers.MainHandler.StartReading` | lib/src/scrutiny_main_handler.cpp:1628-1634 | Starting a transfer sets the reader to the whole log, not finished, with counter 0 and CRC 0, whatever an earlier transfer left |
| `Handlers.MainHandler.ArmTrigger` | lib/src/scrutiny_main_handler.cpp:1539-1554 | Accepted only with an owner and no release under way |
| `Handlers.MainHandler.DisarmTrigger` | lib/src/scrutiny_main_handler.cpp:1555-1570 | Accepted only with an owner and no release under way |
| `Handlers.MainHandler.ResetDatalogger` | lib/src/scrutiny_main_handler.cpp:1664-1680 | Holds back while owned, otherwise resets the logger |
| `Handlers.MainHandler.ReadAcquisition` | lib/src/scrutiny_main_handler.cpp:1617-1662 | Whatever was logged meanwhile, each response is the packet of what the reader has still ahead; what is ahead, rolling counter and CRC advance by it; refused without owner or completed acquisition |
| `Handlers.MainHandler.ExpectedIs` | lib/src/scrutiny_main_handler.cpp:1628-1646 | The next packet: the first one of the whole log with counter and CRC 0, or in a transfer the next one of what is ahead with counter and CRC so far |
| `Handlers.DownloadAcquisition` | lib/src/scrutiny_main_handler.cpp:1617-1662 | From any handler without a transfer under way, whatever earlier transfers left: the requests up to the finished response deliver the recent entries oldest first, in the fewest responses of that size, numbered from 0 modulo 256, the finished flag in the last one only, and the CRC-32 of the whole log, counted from 0, at its end |
| `RawEncoder.RawFormatEncoder.Reset` | lib/src/datalogging/scrutiny_datalogger_raw_encoder.cpp:221-290 | Entry size and capacity from the item sizes; error exactly for no items, an item without size, or a buffer smaller than one entry |
| `RawEncoder.RawFormatEncoder.EncodeNextEntry` | lib/src/datalogging/scrutiny_datalogger_raw_encoder.cpp:126-204 | Appends the sample to the log, advances the ring by one slot, keeps the ring equal to the most recent entries |
| `RawEncoder.RawFormatEncoder.WriteEntry` | lib/src/datalogging/scrutiny_datalogger_raw_encoder.cpp:144-194 | Changes exactly the slot at the write index to the sample's bytes |
| `RawEncoder.RawFormatEncoder.GetWriteCursor` | lib/inc/datalogging/scrutiny_datalogger_raw_encoder.hpp:78 | The byte offset of the next slot |
| `RawEncoder.RawFormatEncoder.GetBufferEffectiveSize` | lib/inc/datalogging/scrutiny_datalogger_raw_encoder.hpp:81 | The byte offset behind the last slot |
| `RawEncoder.RawFormatReader.GetTotalSize` | lib/src/datalogging/scrutiny_datalogger_raw_encoder.cpp:90-98 | The announced size is what a reset reader delivers if and only if the log is not empty |
| `RawEncoder.MeasureEntry` | lib/src/datalogging/scrutiny_datalogger_raw_encoder.cpp:236-275 | Sums the item sizes and stops at the first item without one |
| `RawEncoder.Ring.AdvanceKeeps` | lib/src/datalogging/scrutiny_datalogger_raw_encoder.cpp:134-141 | Overwriting the write slot and advancing keeps the ring equal to the last entries, before and after it fills |
| `RawEncoder.Ring.StreamIsLog` | lib/src/datalogging/scrutiny_datalogger_raw_encoder.cpp:31-87 | With at least one entry, the bytes from read to write cursor are the most recent entries, oldest first |
| `RawEncoder.Ring.ChunksAreLog` | lib/src/datalogging/scrutiny_datalogger_raw_encoder.cpp:31-98 | Concatenated reads of any positive sizes are a prefix of the most recent entries, and all of them once enough reads were made; their length is the announced total size |
| `RawEncoder.Ring.TotalSizeIsStream` | lib/src/datalogging/scrutiny_datalogger_raw_encoder.cpp:90-98 | The reader delivers the announced total size if and only if there is an entry; an empty log reads as the whole used buffer |
| `RawEncoder.RawFormatReader.Reset` | lib/src/datalogging/scrutiny_datalogger_raw_encoder.cpp:101-106 | The whole log is ahead, from the oldest entry, and the reader is not finished |
| `RawEncoder.RawFormatReader.Read` | lib/src/datalogging/scrutiny_datalogger_raw_encoder.cpp:31-87 | Whatever was logged since the reset, copies exactly the next piece of what is ahead in at most two passes, touches nothing else, and becomes finished exactly with the last byte ahead |
| `RawEncoder.ReadPieces` | lib/src/datalogging/scrutiny_datalogger_raw_encoder.cpp:31-87 | Reads of any list of sizes, one after the other, are together the drained stream of what is ahead, and leave the rest ahead; finished exactly if nothing is left |
| `RawEncoder.ReadLog` | lib/src/datalogging/scrutiny_datalogger_raw_encoder.cpp:31-106 | Reset and then reads of any list of sizes are the drained stream of the whole log |
| `RawEncoder.RawFormatReader.Pass` | lib/src/datalogging/scrutiny_datalogger_raw_encoder.cpp:61-84 | One pass of the copy loop copies the first bytes ahead and leaves the others ahead |
| `RawEncoder.AheadMoves` | lib/src/datalogging/scrutiny_datalogger_raw_encoder.cpp:63-78 | Moving the cursor past some bytes, with the wrap at the end of the used part, leaves the remaining ones ahead |
| `Chunks.DrainIsPrefix` | lib/src/datalogging/scrutiny_datalogger_raw_encoder.cpp:59-86 | Pieces taken one after the other are the stream up to the total asked for |
| `Chunks.DrainsWhole` | lib/src/datalogging/scrutiny_datalogger_raw_encoder.cpp:59-86 | As many positive requests as there are bytes drain the stream |
| `Acquisition.AcquisitionEnds` | lib/src/datalogging/scrutiny_datalogger.cpp:261-362 | With timeout 0 and a byte count that fits its word, a triggered acquisition completes after exactly the needed entries and in exactly so many process calls (at most decimation times the entries), with a full ring; the trigger point lies in the log if and only if the bytes asked for fit the used buffer; where that is, is AcquisitionEnd.TriggerIsPlaced |
| `Acquisition.EndsOnTimeIff` | lib/src/datalogging/scrutiny_datalogger.cpp:346-349 | It completes on that call if and only if needed entries times entry size is below the buffer size modulus |
| `Acquisition.RoomForOneMoreEntry` | lib/src/datalogging/scrutiny_datalogger.cpp:309-327 | Buffer size plus entry size within the modulus is enough for that |
| `Acquisition.MissedEnd` | lib/src/datalogging/scrutiny_datalogger.cpp:346-349 | Concrete 16-bit configuration whose byte count wraps and whose acquisition misses its end |
| `Acquisition.TriggerOutsideLog` | lib/src/datalogging/scrutiny_datalogger.cpp:315-326 | Concrete configuration that reports more points after the trigger than the log has entries |
| `Acquisition.RemainingFills` | lib/src/datalogging/scrutiny_datalogger.cpp:315-326 | The bytes asked for at the trigger always fill the ring |
| `Acquisition.EntriesForCovers` | lib/src/datalogging/scrutiny_datalogger.cpp:346-349 | The number of needed entries is the ceiling of bytes over entry size |
| `Acquisition.RunCounts` | lib/src/datalogging/scrutiny_datalogger.cpp:261-362 | Where a counting acquisition is after any number of process calls |
| `Acquisition.RunMisses` | lib/src/datalogging/scrutiny_datalogger.cpp:346-349 | A wrapping byte count leaves the acquisition running at its last needed entry |
| `Acquisition.CompletedEmpty` | lib/src/datalogging/scrutiny_datalogger.cpp:338-344 | Concrete run that completes by timeout without an entry |
| `AcquisitionEnd.BytesAsked` | lib/src/datalogging/scrutiny_datalogger.cpp:309-327 | When the trigger fires the logger asks for the larger of the bytes the ring lacks and the largest n with 256 n within buffer size times (255 - probe location) |
| `AcquisitionEnd.TriggerIsPlaced` | lib/src/datalogging/scrutiny_datalogger.cpp:309-327 | So on completion the points after the trigger are the fewest entries that hold those bytes; in a ring that was full, those of the share right of the probe location |
| `AcquisitionEnd.TimeoutEndsIff` | lib/src/datalogging/scrutiny_datalogger.cpp:336-350 | From the call in which the trigger fires, on a clock that wraps: with a timeout the acquisition is completed if and only if it has the entries it needs or a process call came a timeout after that call |
| `AcquisitionEnd.RunWithTimeout` | lib/src/datalogging/scrutiny_datalogger.cpp:329-353 | The same from any call after the trigger |
| `AcquisitionEnd.NumberCounts` | lib/src/datalogging/scrutiny_datalogger.cpp:295-303 | Over every run of process calls, arms, disarms and forced triggers the acquisition number counts the completions, modulo 2 to the 16th |
| `AcquisitionEnd.LogsEveryNth` | lib/src/datalogging/scrutiny_datalogger.cpp:355-362 | Over every such run, each decimation-th process call of a running logger, and no other, logs an entry, across arms, disarms and the trigger |
| `AcquisitionEnd.ArmedIsReady` | lib/src/datalogging/scrutiny_datalogger.cpp:104-307 | Whatever happens after an accepted Configure with a usable encoder, an armed logger meets all that the results on the end of an acquisition ask for, timeout aside |
| `AcquisitionEnd.UnusableEncoderFails` | lib/src/datalogging/scrutiny_datalogger.cpp:272-278 | With an encoder in error the first process call of a running logger fails it for good, and nothing is logged |
| `HoldTime.FiresExactly` | lib/src/datalogging/scrutiny_datalogger.cpp:364-417 | In any run of process calls, arms, disarms and forced triggers after a configure, the trigger fires in a process call of an armed logger exactly when it was forced while armed with no check since, or when its condition is true and the last check that saw it become true, or time 0 if no check ever did, lies the hold time back |
| `HoldTime.ForcedIff` | lib/src/datalogging/scrutiny_datalogger.cpp:380-386 | The manual flag is set exactly when some event forced the trigger of an armed logger and no check was made since |
| `HoldTime.TriggerIsChecks` | lib/src/datalogging/scrutiny_datalogger.cpp:386-415 | Previous value and rising edge depend on the checks made while armed alone |
| `HoldTime.EdgeTimeIsLast` | lib/src/datalogging/scrutiny_datalogger.cpp:402-407 | The recorded edge is the last check that saw the condition become true |
| `HoldTime.HoldsInEveryCall` | lib/src/datalogging/scrutiny_datalogger.cpp:386-415 | While the logger stays armed, the trigger fires exactly when its condition was true in every process call since one that lies the hold time back |
| `HoldTime.HeldWhileDisarmed` | lib/src/datalogging/scrutiny_datalogger.cpp:245-259 | Concrete run in which the condition was false while disarmed and the trigger fires on re-arming without a hold |
| `HoldTime.HeldAfterForced` | lib/src/datalogging/scrutiny_datalogger.cpp:380-415 | Concrete run in which a forced trigger counts as a true condition: after arming again the trigger fires on a condition that no check saw become true, one tick after it was false, with a hold time of 100 |
| `HoldTime.FiresAfterHold` | lib/src/datalogging/scrutiny_datalogger.cpp:386-415 | The same over checks: true in every check since one that lies the hold time back |
| `HoldTime.EdgeIsTracked` | lib/src/datalogging/scrutiny_datalogger.cpp:402-414 | The rising edge is the time of the first call of the unbroken stretch of true conditions |
| `Acquisition.Remaining` | lib/src/datalogging/scrutiny_datalogger.cpp:315-326 | Never more than the buffer, never less than what a ring that is not full still lacks; exactly what is AcquisitionEnd.BytesAsked |
| `Datalogging.DataLogger.Process` | lib/src/datalogging/scrutiny_datalogger.cpp:261-307 | One call is one step of the acquisition machine and appends the sample exactly when the decimation says so |
| `Datalogging.DataLogger.ProcessAcquisition` | lib/src/datalogging/scrutiny_datalogger.cpp:355-362 | Decimation counting and encoding |
| `Datalogging.DataLogger.CheckTrigger` | lib/src/datalogging/scrutiny_datalogger.cpp:364-417 | Trigger and hold-time state as in the machine |
| `Datalogging.DataLogger.StampTriggerPoint` | lib/src/datalogging/scrutiny_datalogger.cpp:309-327 | Trigger point, cleared write counter and bytes to go, as in the machine; their value is AcquisitionEnd.BytesAsked |
| `Datalogging.DataLogger.Configure` | lib/src/datalogging/scrutiny_datalogger.cpp:104-243 | Configured with an empty log exactly for an acceptable configuration, failed otherwise |
| `Datalogging.DataLogger.CheckConfiguration` | lib/src/datalogging/scrutiny_datalogger.cpp:112-226 | Accepts exactly the acceptable configurations |
| `Datalogging.CheckOperands` | lib/src/datalogging/scrutiny_datalogger.cpp:145-197 | Accepts exactly lists of valid operands |
| `Datalogging.DataLogger.ArmTrigger` | lib/src/datalogging/scrutiny_datalogger.cpp:245-251 | Arms from configured, completed or triggered |
| `Datalogging.DataLogger.DisarmTrigger` | lib/src/datalogging/scrutiny_datalogger.cpp:253-259 | Disarms from armed, completed or triggered |
| `Datalogging.DataLogger.ForceTrigger` | lib/inc/datalogging/scrutiny_datalogger.hpp:139-145 | Forces the trigger only if armed |
| `Datalogging.ReaderStaysValid` | lib/src/datalogging/scrutiny_datalogger.cpp:261-307 | A process call leaves a transfer under way readable |
| `Datalogging.ProcessMovesHold` | lib/src/datalogging/scrutiny_datalogger.cpp:261-307 | The state moves a process call can make |
| `Download.DownloadIsLog` | lib/src/protocol/scrutiny_codec_v1_0.cpp:952-981 | The whole download takes the ceiling of log size plus 4 over response size minus 4 responses, rolls its counters from 0 modulo 256, reassembles to the log, finishes in the last response only and ends with the CRC of the whole log |
| `Download.DownloadIsRecentEntries` | lib/src/scrutiny_main_handler.cpp:1625-1655 | Applied to a ring: the download is the most recent entries, oldest first, with their CRC |
| `Download.PacketsDeliver` | lib/src/protocol/scrutiny_codec_v1_0.cpp:967-976 | The same for any remaining part of the log with the CRC so far |
| `Download.PacketsAreDelivered` | lib/src/protocol/scrutiny_codec_v1_0.cpp:952-981 | The encoded download on the wire: in the fewest responses of that size, finished flag, rolling counter and acquisition number in the first four bytes, the log in the data, and its CRC in the last four bytes of the last response |
| `Download.ResponseDecodes` | lib/src/protocol/scrutiny_codec_v1_0.cpp:963-978 | A client that keeps the running CRC decodes every response to the packet that was sent |
| `Download.EncodeReadAcquisition` | lib/src/protocol/scrutiny_codec_v1_0.cpp:952-981 | The response bytes are the encoded next packet of what the reader has ahead, also if it cannot read |
| `Download.CompleteResponse` | lib/src/protocol/scrutiny_codec_v1_0.cpp:968-978 | Running CRC, trailing CRC only if the reader is finished and it fits, flag set last |
| `Checksum.ComputeCrc32` | lib/src/scrutiny_tools.cpp:142-155 | The table loop computes the CRC function, which is Checksum.Crc32IsBitwise |
| `Checksum.Crc32IsBitwise` | lib/src/scrutiny_tools.cpp:142-155 | For every byte string and start value it is the complement of the bit-at-a-time shift register, with polynomial 0xEDB88320, run from the complement of the start value: the CRC-32 of section 8 of RFC 1952 |
| `Checksum.WordValue` | lib/src/scrutiny_tools.cpp:151-152 | The register takes in every byte at its own value |
| `Checksum.KnownValues` | lib/src/scrutiny_tools.cpp:142-155 | The CRC of no bytes is 0, of one byte 0 it is 0xD202EF8D |
| `Checksum.Crc32Concat` | lib/src/scrutiny_tools.cpp:142-155 | The CRC of a concatenation chains over any split |
| `Checksum.BurstDetected` | lib/src/scrutiny_tools.cpp:142-155 | Different strings that agree outside four consecutive bytes never have the same CRC |
| `Checksum.WindowInjective` | lib/src/scrutiny_tools.cpp:151-152 | From one register, windows of at most four bytes with the same result are equal |
| `Checksum.NibbleStepBack` | lib/src/scrutiny_tools.cpp:144-152 | A lookup step can be undone: table rows have distinct top nibbles |
| `Checksum.TwoLookupsAreEightBits` | lib/src/scrutiny_tools.cpp:151-152 | Two table lookups are eight shifts of the register |
| `Checksum.RowIsTableEntry` | lib/src/scrutiny_tools.cpp:144-146 | The table is generated by its power-of-two rows |
| `Checksum.CrcBytesUnique` | lib/src/protocol/scrutiny_comm_handler.cpp:195-218 | Four received bytes give a CRC back exactly when they are its big-endian bytes |
| `Checksum.CrcBytesAreBigEndian` | lib/src/protocol/scrutiny_comm_handler.cpp:355-380 | The four bytes sent are those of the CRC, most significant first |
| `Comm.CommHandler.ReceiveData` | lib/src/protocol/scrutiny_comm_handler.cpp:57-224 | A chunk of any size is one arrival at the line: what its bytes do one at a time, from a fresh receiver after a silence, with the link idle exactly after a completed CRC field; nothing when disabled or transmitting |
| `CommLine.StoredRequestStays` | lib/src/protocol/scrutiny_comm_handler.cpp:73-90 | For every list of chunks without a timeout after a stored request, the request stays as it is, and the link is receiving as soon as a byte comes |
| `CommLine.FrameArrives` | lib/src/protocol/scrutiny_comm_handler.cpp:57-224 | A client's frame, cut into chunks anywhere without a gap as long as the timeout, and whatever the silence before it, is stored as it was sent and leaves the link idle |
| `CommLine.LateChunkDropsRequest` | lib/src/protocol/scrutiny_comm_handler.cpp:75-79 | After a timeout a nonempty chunk drops the stored request; what is stored then is what the chunk alone carries |
| `CommServing.AnsweredIff` | lib/src/scrutiny_main_handler.cpp:401-483 | For every run of chunks in time and of process calls that ask for it again, after a request was stored with an idle link: the next process call sends a response if and only if the session has not timed out, there is a response and it fits, and no byte came since or the request is the Connect that opens a session; otherwise the request is kept if asked for again, and dropped if not |
| `CommServing.WaitingStays` | lib/src/scrutiny_main_handler.cpp:425-443 | Meanwhile request and session stay, the link receives as soon as a byte comes, and the time counted from is that of the first process call that asked for the request again |
| `CommServing.RunSettles` | lib/src/scrutiny_main_handler.cpp:466-483 | In every run of chunks, process calls and transmissions, a request is being answered exactly while a response is on its way |
| `CommServing.SentMeansReady` | lib/inc/scrutiny_main_handler.hpp:66-71 | In every run, the last byte of a response leaves a handler that is ready for the next request, with the session closed if a Disconnect was answered |
| `CommServing.RequestIsAnswered` | lib/src/scrutiny_main_handler.cpp:420-464 | A request whose frame comes in chunks without a gap, with nothing after it, is answered with any response that fits, and the handler is ready again |
| `CommServing.DialogueRuns` | lib/src/scrutiny_main_handler.cpp:401-483 | In every dialogue of such requests, of any length, every response is sent, whatever was opened, closed or refused before |
| `CommServing.LateBytes` | lib/src/scrutiny_main_handler.cpp:420-464 | Bytes that follow a request before it is served: a Connect that opens a session is answered all the same, any other request is dropped without an answer |
| `CommServing.ConnectThenByte` | lib/src/scrutiny_main_handler.cpp:922-947 | Any Connect of the right length without a session, and any byte: the link is receiving, and the response is sent |
| `CommServing.DiscoverThenByte` | lib/src/protocol/scrutiny_comm_handler.cpp:267-271 | A Discover without a session, and any byte: stored, and dropped without a response |
| `CommServing.OldTimeCounts` | lib/src/scrutiny_main_handler.cpp:425-443 | A late chunk that replaces a request being asked for again leaves the time of the old one: the new request is given up at its first process call exactly when the old one would be, and would wait otherwise |
| `CommServing.GivenUpEarly` | lib/src/scrutiny_main_handler.cpp:466-474 | Concrete run: a Reset sent again after 60 ms of silence is given up 40 ms later |
| `CommServer.Server.Process` | lib/src/scrutiny_main_handler.cpp:401-464 | The communication part of a process call is one call of the machine; a response that starts is the frame of the request that was stored, also if Connect restarted the receiver |
| `CommServer.Server.Answer` | lib/src/scrutiny_main_handler.cpp:420-456 | Serving, asking again, giving up and answering the stored request, as the machine does |
| `CommServer.Server.Execute` | lib/src/scrutiny_main_handler.cpp:882-968 | Connect, Heartbeat and Disconnect act on the session exactly for requests of the right length, session state and identifier |
| `CommServer.Server.CheckFinished` | lib/src/scrutiny_main_handler.cpp:466-483 | Once nothing is on its way the receiver restarts, and a pending disconnect is done |
| `CommServer.Server.PopData` | lib/inc/scrutiny_main_handler.hpp:66-71 | Pops the next piece of the response; with its last byte the handler is ready for the next request |
| `CommServer.PopAll` | lib/src/protocol/scrutiny_comm_handler.cpp:295-390 | Pops of any list of sizes, one after the other, are together the drained frame |
| `CommLine.StoringCompletes` | lib/src/protocol/scrutiny_comm_handler.cpp:195-216 | A request is stored only when a CRC field is completed, so the link is idle then |
| `Comm.CommHandler.ReceiveTurn` | lib/src/protocol/scrutiny_comm_handler.cpp:92-222 | One turn of the loop is a run of byte steps |
| `Comm.CommHandler.ReceiveLength` | lib/src/protocol/scrutiny_comm_handler.cpp:122-166 | The length field, in one turn or two |
| `Comm.CommHandler.ReceivePayload` | lib/src/protocol/scrutiny_comm_handler.cpp:168-193 | The bulk copy is the byte steps of its bytes, or an overflow with nothing consumed |
| `Comm.CommHandler.ReceiveCrcByte` | lib/src/protocol/scrutiny_comm_handler.cpp:195-218 | A CRC byte, and the verdict after the fourth |
| `Comm.CommHandler.ProcessActiveRequest` | lib/src/protocol/scrutiny_comm_handler.cpp:226-250 | Without a session only Discover with its magic and Connect are kept; over whole streams that is CommReceive.OnlyForNewcomers |
| `CommReceive.FeedConcat` | lib/src/protocol/scrutiny_comm_handler.cpp:57-224 | Two chunks in a row are their concatenation |
| `CommReceive.ChunksDoNotMatter` | lib/src/protocol/scrutiny_comm_handler.cpp:57-224 | Any list of chunks is their concatenation |
| `CommReceive.FeedData` | lib/src/protocol/scrutiny_comm_handler.cpp:177-190 | The bulk path equals the byte steps |
| `CommReceive.FeedTwoLengthBytes` | lib/src/protocol/scrutiny_comm_handler.cpp:127-134 | The two-byte length path equals the byte steps |
| `CommReceive.FeedIsParse` | lib/src/protocol/scrutiny_comm_handler.cpp:90-250 | From a fresh receiver a stream is accepted if and only if whole-stream parsing finds a frame with command below 0x80, fitting length and matching CRC, which in absence of a session is a Connect or a Discover with its magic, after dropping failed frames, with the stored fields and payload of that frame; it fails exactly when parsing refuses, with the same error |
| `CommReceive.FeedFrame` | lib/src/protocol/scrutiny_comm_handler.cpp:195-216 | A whole frame is kept with its fields, or leaves a fresh receiver |
| `CommReceive.FeedPrefix` | lib/src/protocol/scrutiny_comm_handler.cpp:90-223 | A proper prefix of an acceptable frame leaves the receiver waiting |
| `CommReceive.MatchingIsRequestFrame` | lib/src/protocol/scrutiny_comm_handler.cpp:195-208 | Of all strings of the announced length exactly the client's frames have a matching CRC |
| `CommReceive.RequestArrives` | lib/src/protocol/scrutiny_comm_handler.cpp:90-250 | A client's frame, fed to a fresh receiver, is stored as it was sent if a session is active or it is a Connect or a Discover with its magic, and leaves a fresh receiver otherwise |
| `CommReceive.OnlyForNewcomers` | lib/src/protocol/scrutiny_comm_handler.cpp:226-250 | Whatever stream comes without a session: a request that is stored has command 2 and is subfunction 4, or subfunction 1 with a payload that begins with the magic bytes |
| `CommReceive.CorruptedPayloadDropped` | lib/src/protocol/scrutiny_comm_handler.cpp:195-216 | A good frame whose payload is then corrupted within four consecutive bytes leaves a fresh receiver |
| `CommSession.StaysOpenIff` | lib/src/protocol/scrutiny_comm_handler.cpp:434-461 | A session stays open if and only if every process call comes within the timeout of its opening or of the last heartbeat with a challenge different from the one before; repeating a challenge does not count |
| `CommKeeping.SessionLastsIff` | lib/src/scrutiny_main_handler.cpp:882-968 | A session that was just opened is open throughout a run of chunks, process calls and transmissions if and only if every process call comes within the timeout of the opening or of the last served heartbeat with a new challenge, and no Disconnect was answered |
| `CommKeeping.EventSigns` | lib/src/scrutiny_main_handler.cpp:882-968 | While a session is open, an event ends it by a Disconnect that is done with, or acts on it as its process call and its served heartbeat |
| `CommKeeping.SessionFromConnect` | lib/src/scrutiny_main_handler.cpp:922-947 | From its Connect on, a session is open throughout any such run under the same condition, with its time counted from the Connect |
| `CommKeeping.OpenedIff` | lib/src/protocol/scrutiny_comm_handler.cpp:532-546 | Without a session, an event opens one exactly if it is a process call that serves a Connect of the right length; the session has the next number and has seen no heartbeat |
| `CommKeeping.SessionsAreNumbered` | lib/src/protocol/scrutiny_comm_handler.cpp:539 | The n-th session opened in a run of chunks, process calls and transmissions has the number of the counter at its start plus n - 1, modulo 2 to the 32nd |
| `CommKeeping.OldNumberIsNotReused` | lib/src/protocol/scrutiny_comm_handler.cpp:539 | In every run, a later session has another number than an earlier one, unless 2 to the 32nd sessions were opened between |
| `Comm.CommHandler.Heartbeat` | lib/src/protocol/scrutiny_comm_handler.cpp:445-461 | Accepted exactly in a session for the first or a changed challenge |
| `Comm.CommHandler.Process` | lib/src/protocol/scrutiny_comm_handler.cpp:434-443 | Closes a session without sign of life and starts over; otherwise changes nothing |
| `Comm.CommHandler.Reset` | lib/src/protocol/scrutiny_comm_handler.cpp:488-502 | Session closed, link idle, receiver fresh, nothing to send |
| `Comm.CommHandler.Connect` | lib/src/protocol/scrutiny_comm_handler.cpp:532-546 | Opens a session with the next identifier only if enabled and closed; the receiver is fresh |
| `Comm.CommHandler.Disconnect` | lib/src/protocol/scrutiny_comm_handler.cpp:548-555 | Closes the session; receiver fresh, link idle, nothing to send |
| `Comm.CommHandler.SendResponse` | lib/src/protocol/scrutiny_comm_handler.cpp:258-293 | Accepted only when enabled, idle and fitting; then the exact frame is to be sent; otherwise the error and no change of the link |
| `Comm.CommHandler.AddCrc` | lib/src/protocol/scrutiny_comm_handler.cpp:473-486 | The CRC of header and payload |
| `Comm.CommHandler.PopData` | lib/src/protocol/scrutiny_comm_handler.cpp:295-390 | Pops exactly the next piece of the frame; popped plus left is constant; idle with a fresh receiver exactly when the last byte leaves |
| `Comm.CommHandler.PopHeader` | lib/src/protocol/scrutiny_comm_handler.cpp:312-337 | The header bytes, resumed anywhere |
| `Comm.CommHandler.PopPayload` | lib/src/protocol/scrutiny_comm_handler.cpp:339-353 | The payload bytes, resumed anywhere |
| `Comm.CommHandler.PopCrc` | lib/src/protocol/scrutiny_comm_handler.cpp:355-380 | The CRC bytes, resumed anywhere |
| `CommTransmit.FrameChecks` | lib/src/protocol/scrutiny_comm_handler.cpp:473-486 | A peer finds command, subfunction, code, length, payload and a CRC that matches everything before it |
| `MemoryRead.AnswerIsExact` | lib/src/scrutiny_main_handler.cpp:1030-1075 | OK if and only if the request is a nonempty list of whole blocks, the echo fits, no block is forbidden and every block fits beside the running total; the payload is the echo of address, length and memory in order |
| `MemoryRead.RefusalIsExact` | lib/src/scrutiny_main_handler.cpp:1037-1074 | Which code a refused request gets: InvalidRequest for anything but whole blocks within the largest buffer, Overflow if all blocks but the last do not fit, then what the first block with a problem has: no fit beside the total, a forbidden byte, no room |
| `MemoryRead.FirstTroubleDecides` | lib/src/scrutiny_main_handler.cpp:1050-1073 | The serving pass stops at the first block with a problem |
| `MemoryRead.EchoIs` | lib/src/protocol/scrutiny_codec_v1_0.cpp:347-369 | The echo of a block: address and length, most significant byte first, and behind them byte by byte the memory from that address on |
| `MemoryRead.EchoAllAt` | lib/src/protocol/scrutiny_codec_v1_0.cpp:347-369 | The echo of each block stands behind those of the blocks before it |
| `MemoryRead.SmallBuffersAnswerAll` | lib/src/protocol/scrutiny_codec_v1_0.cpp:63-87 | Up to responses of 32769 bytes the second parse never refuses what the first accepted |
| `MemoryRead.LargeBuffersRefuse` | lib/src/protocol/scrutiny_codec_v1_0.cpp:82-87 | For every larger response size a fitting request exists that is refused |
| `MemoryRead.ScanAccepts` | lib/src/protocol/scrutiny_codec_v1_0.cpp:33-51 | The validating pass accepts exactly nonempty lists of whole blocks within the largest buffer; its total misses the last block |
| `MemoryRead.ReadParser.Validate` | lib/src/protocol/scrutiny_codec_v1_0.cpp:33-51 | The validating loop computes that pass |
| `MemoryRead.ReadParser.Next` | lib/src/protocol/scrutiny_codec_v1_0.cpp:53-98 | Reads the next block, or refuses it |
| `MemoryRead.RequestParses` | lib/src/protocol/scrutiny_codec_v1_0.cpp:53-98 | The server reads the blocks the client asked for |
| `MemoryRead.BlockEncoder.Write` | lib/src/protocol/scrutiny_codec_v1_0.cpp:347-369 | Appends the echo of a block if it fits |
| `MemoryRead.ProcessRead` | lib/src/scrutiny_main_handler.cpp:1030-1075 | The service computes the answer and fills the response with it |
| `MemoryRead.TouchesIsOverlap` | lib/src/scrutiny_main_handler.cpp:1292-1312 | For a nonempty block that does not wrap, the region check is byte overlap |
| `MemoryRead.TouchesIsOverlapIff` | lib/src/scrutiny_main_handler.cpp:1299-1306 | For any nonempty block the check is byte overlap if and only if the block does not wrap, or its parts before and after the wrap agree about the range |
| `MemoryRead.EmptyBlockTouches` | lib/src/scrutiny_main_handler.cpp:1299-1306 | What the region check says of an empty block |
| `MemoryRead.TouchesRegion` | lib/src/scrutiny_main_handler.cpp:1292-1312 | The loop over the ranges |
| `MemoryWrite.AnswerIsExact` | lib/src/scrutiny_main_handler.cpp:1078-1169 | OK exactly when enabled, well formed, receipts fit but for the last and no block is protected; then all blocks are written in order; otherwise exactly which code; invalid requests and overflows leave memory alone; a refusal leaves exactly the blocks before the first protected one written |
| `MemoryWrite.RunKeepsProtected` | lib/src/scrutiny_main_handler.cpp:1115-1125 | Over every run of write requests, no byte of a forbidden or read-only range changes, as long as no block wraps |
| `MemoryWrite.CommitKeepsProtected` | lib/src/scrutiny_main_handler.cpp:1105-1167 | The same for the serving pass of one request |
| `MemoryWrite.CommitAcknowledges` | lib/src/protocol/scrutiny_codec_v1_0.cpp:371-384 | The response has a receipt for every block, or for all but the last if there is no room for it |
| `MemoryWrite.ReceiptLayout` | lib/src/protocol/scrutiny_codec_v1_0.cpp:371-384 | A receipt names address and length, most significant byte first |
| `MemoryWrite.LastReceiptDropped` | lib/src/protocol/scrutiny_codec_v1_0.cpp:375-379 | Concrete request of four blocks that is answered with three receipts |
| `MemoryWrite.OnesThenZerosMerges` | lib/src/scrutiny_main_handler.cpp:1144-1145 | Setting ones then clearing zeros takes the masked bits from the source and keeps the others |
| `MemoryWrite.ApplyBytesAt` | lib/src/scrutiny_main_handler.cpp:1139-1165 | What a block changes, address by address |
| `MemoryWrite.MaskedBits` | lib/src/scrutiny_main_handler.cpp:1139-1165 | After a masked write every bit of every byte is the source's if the mask has it, and the one in memory before if not |
| `MemoryWrite.TargetMemory.Write` | lib/src/scrutiny_main_handler.cpp:1130-1166 | The byte loop has that effect |
| `MemoryWrite.WriteRequestParses` | lib/src/protocol/scrutiny_codec_v1_0.cpp:131-194 | The parser reads the blocks the client wrote |
| `MemoryWrite.RequestLayout` | lib/src/protocol/scrutiny_codec_v1_0.cpp:131-194 | A block on the wire: address, length, the bytes to write, and behind them the mask |
| `MemoryWrite.AcceptedReencodes` | lib/src/protocol/scrutiny_codec_v1_0.cpp:131-194 | Every accepted request re-encodes to itself |
| `MemoryWrite.WriteParser.Validate` | lib/src/protocol/scrutiny_codec_v1_0.cpp:110-129 | The validating loop accepts exactly well-formed requests; its total misses the last receipt |
| `MemoryWrite.WriteParser.Next` | lib/src/protocol/scrutiny_codec_v1_0.cpp:131-194 | Reads the next block with source and mask, or refuses it |
| `MemoryWrite.ProcessWrite` | lib/src/scrutiny_main_handler.cpp:1078-1169 | The service computes the answer, the memory and the response |
| `ConfigCodec.DecodeOfEncode` | test/commands/test_datalog_control.cpp:162-271 | Every configuration within the limits is decoded from its encoding unchanged |
| `ConfigCodec.EncodeOfDecode` | lib/src/protocol/scrutiny_codec_v1_0.cpp:983-1139 | Every payload the decoder accepts is the encoding of what it decodes |
| `ConfigCodec.Layout` | lib/src/protocol/scrutiny_codec_v1_0.cpp:983-1139 | The fields of a Configure request byte by byte, operands and items behind their counts |
| `ConfigCodec.OperandLayout` | lib/src/protocol/scrutiny_codec_v1_0.cpp:1011-1073 | The bytes of each kind of operand |
| `ConfigCodec.ItemLayout` | lib/src/protocol/scrutiny_codec_v1_0.cpp:1090-1130 | The bytes of each kind of logged item |
| `ConfigCodec.OverflowMeansTooMany` | lib/src/protocol/scrutiny_codec_v1_0.cpp:1003-1086 | The overflow verdict exactly for too many operands, or too many items after readable operands; anything else refused is invalid |
| `ConfigCodec.DecodeConfigureRequest` | lib/src/protocol/scrutiny_codec_v1_0.cpp:983-1139 | The decoder with its cursor, all reads in bounds, gives that verdict |
| `ConfigCodec.DecodeOperand` | lib/src/protocol/scrutiny_codec_v1_0.cpp:1011-1073 | One operand |
| `ConfigCodec.DecodeItem` | lib/src/protocol/scrutiny_codec_v1_0.cpp:1090-1130 | One loggable item |
| `TriggerOperands.FetchOperand` | lib/src/scrutiny_main_handler.cpp:147-279 | For every signed or unsigned field of at least one bit within 64, and for boolean fields of value 0 or 1, fetch then widen is the mathematical value of the field of the little-endian memory word; nothing past 64 bits or without bits |
| `TriggerOperands.FetchVariableBitfield` | lib/src/scrutiny_main_handler.cpp:147-279 | Content and type of the fetched field |
| `TriggerOperands.BooleanIsTruthIff` | lib/src/datalogging/scrutiny_datalogging.cpp:41-53 | A boolean field reads as its truth value on every compiler if and only if it is zero or its first byte is one |
| `TriggerOperands.FillAbove` | lib/src/scrutiny_main_handler.cpp:209-215 | Or with the complement of the mask fills all bits above the field |
| `TriggerOperands.WideningIsMeaning` | lib/src/datalogging/scrutiny_datalogging.cpp:27-100 | Widening the sign-extended content gives the value of the field |
| `TriggerOperands.FieldOfLow` | lib/src/scrutiny_main_handler.cpp:155-159 | The bytes fetched are enough for the field |
| `TriggerOperands.CompareIsExact` | lib/src/datalogging/scrutiny_datalogging_trigger.cpp:48-107 | Comparison of two integers by each of the six relations is that relation of their values, except for the largest signed against an unsigned beyond it, which compare as equal and so are wrong for exactly four relations |
| `Words.DecodeEncode` | lib/inc/scrutiny_common_codecs.hpp:32-78 | Big-endian decoding inverts encoding |
| `Words.EncodeDecode` | lib/inc/scrutiny_common_codecs.hpp:228-400 | Big-endian encoding inverts decoding |
| `Words.MostSignificantFirst` | lib/inc/scrutiny_common_codecs.hpp:228-405 | The first byte read is the most significant one, whatever the width |

## Left out

- Comm.CommHandler.constructor: runs of a handler disabled at initialization are covered only as far as a disabled handler ignores data; uninitialised fields are not modelled.
- Acquisition.EndsOnTimeIff: the 16-bit product of counter and entry size is taken modulo the buffer size type; its promotion to a signed C integer, which matters only past the missed end, is not modelled.
- Acquisition.AcquisitionEnds: timeout 0 and no arm or disarm during the acquisition; the timeout is AcquisitionEnd.TimeoutEndsIff.
- AcquisitionEnd.TriggerIsPlaced: timeout 0 and a byte count that fits its word, as for Acquisition.AcquisitionEnds.
- AcquisitionEnd.TimeoutEndsIff: a byte count that fits its word; no arm or disarm after the trigger.
- ConfigureRequests.AcceptedIsClear: operands and items that wrap the address space are excluded; what the region check says of them is MemoryRead.TouchesIsOverlapIff.
- Handlers.DownloadAcquisition: the log stands still and no other request comes between; when it does stand still is OwnershipReads.LogStandsStillIff.
- MemoryWrite.RunKeepsProtected: blocks that wrap the address space are excluded, because the region check compares a wrapped end address; when it is still right is TouchesIsOverlapIff.
- MemoryWrite.TargetMemory.Write: memory is a map from addresses to bytes; memory-mapped side effects and aliasing with the request buffer are not captured.
- MemoryRead.TouchesIsOverlap: pointers past the end of the address space wrap modulo 2 to the 64th, which C leaves undefined.
- TriggerOperands.FetchOperand: whole-type operands, literals and published values are not modelled, nor a read refused by a forbidden region.
- Handlers.MainHandler.ConfigureDatalog: what a failed decoding leaves in the configuration object is arbitrary.
- HoldTime.HoldsInEveryCall: calls in which every operand can be read; FiresExactly has no such limit.
- Comm.CommHandler.Connect: the session counter is a field of the handler, not shared by all handlers.
- TriggerOperands.CompareIsExact: two integer operands; float operands, ChangeMoreThan and IsWithin are not modelled.
- OwnershipRuns.RunsAreSafe: steps are atomic and sequentially consistent, one mailbox variant; weaker memory orders and the other IPC variants are not modelled.
- OwnershipRuns.ThirdCallPasses: main's and the owner's process calls alternate; for any interleaving see OwnershipProgress. The request timeout that gives up on a held-back request is in CommServing, not in this machine.
- OwnershipReads.CompletedIsOwned: runs of process calls serve any requests in any order; that a held-back request comes again at the next call is not required of them.
- CommServer.Server.Process: the payload of a response is what the transmit buffer holds when it is sent; filling it is part of the services.
- CommServing.AnsweredIff: what serving comes to (asked again, or a response of some length) is an input, except for Connect, Heartbeat and Disconnect.
- GetInfo, GetParams, Discover, published value reads and writes, user commands and the fixed-layout response encoders are copies of fields.
- The C wrapper, the command line projects, the ELF tool and ports with 16-bit characters.
