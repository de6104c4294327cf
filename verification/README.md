# FastFtp: the NACK-based transfer, modelled and proved

FastFtp sends a file as four parts. One thread per part sends 1450-byte datagrams over UDP; the
receiver of a part notices gaps in the offsets and reports them on one shared TCP connection; the
sender's `nackHandler` puts the reported offsets in a set from which the part's thread resends. When
every part has arrived the roles flip and the file is sent back. `just_submitted/` is that program;
`adhip/cpp/` is an earlier, one-pass form that only reports what it missed.

The datagram size `d`, the part lengths, the number of parts `k` and the file are parameters; `d >= 4`
because the second header store of a message needs twelve bytes, and `k <= d` where the server's decode matters. A *slot* is a multiple of `d` below the
part's length.

## Layout

| file | content |
|---|---|
| `Bytes.dfy`, `Wire.dfy` | little-endian stores, `htonl`, `memcpy`; the datagram with its overlapping header |
| `Nacks.dfy`, `Report.dfy` | NACK frames and `nackHandler`; the earlier variant's missed-set report |
| `Splits.dfy`, `Slots.dfy` | part sizes and offsets; slot arithmetic and byte counting |
| `Receiving.dfy`, `Deliveries.dfy` | the receive loop in atomic steps, its invariant; any sequence of arrivals |
| `Parts.dfy` | `receiveUdp` and `sendUdp` as classes, proved against those steps |
| `Lanes.dfy`, `LaneRuns.dfy` | one part end to end: what holds in every reachable state of every interleaving |
| `LanePaths.dfy`, `LaneMoves.dfy` | runs of one part from a given state, and the pieces they are put together from |
| `LaneFaults.dfy`, `LaneCopies.dfy` | runs that leave a part incomplete, and exactly which parts have one |
| `LaneLoss.dfy`, `LaneProgress.dfy` | what loss costs: the lost tail, and exactly which states can still be completed |
| `System.dfy`, `Barrier.dfy`, `Transfer.dfy`, `Echo.dfy` | all parts with the shared connection, counters and buffer; both directions |
| `SystemPaths.dfy`, `Ending.dfy` | runs of a part as runs of the system; the end of a direction, at which the roles flip |
| `SystemProgress.dfy`, `SystemFaults.dfy` | transfers that complete, go wrong or hang |
| `ServerReturn.dfy`, `ServerFaults.dfy` | the direction in which the server sends, with its handler as written |
| `RacyCounters.dfy` | the shared counters as plain, non-atomic increments |
| `OnePass.dfy`, `ShortStride.dfy` | the earlier server, and exactly when its written stride reports wrongly |

## How the steps map to the code

A lane (`Lanes.Step`) has a step for each place where another thread or the network can intervene:
`SendFirst` (just_submitted/client.cpp:174-193), `SeeDone`/`SeeNotDone` (line 195), `SeeEmpty`/`SeeNonempty`
(196), the unlocked `Read` of `begin()` (197), `Send` (198-214), the locked `Erase` of `begin()` (215-217), the
locked insert `TakeNack` (133-140), and on the other side `Deliver` (just_submitted/server.cpp:263-283 with the
in-order and late branches), `FillGap` (one locked iteration of 284-291), `EndGap` (292-294), `LeaveLoop` (297)
and `CountDone` (312). `Drop` and `Duplicate` are the network's. What is delivered is the decoding of the message
the sender encoded over whatever its reused buffer held. `System.SystemStep` runs all lanes side by side, takes
NACKs off one FIFO (`HandleFrame`) and adds the main thread (just_submitted/server.cpp:405-411).

## Where the code departs from its intent

Each of these is modelled in both forms, and the exact condition is proved under which the code still does what it
is meant to do. Where that is a matter of whole runs, a run that goes wrong is proved to exist whenever the
condition fails.

* Gap guard `<=` (just_submitted/server.cpp:284): the slot that has just arrived is NACKed too, and the next slot
  is stepped over without a NACK. `AsWritten` is the code, `Repaired` uses `<`, as adhip/cpp/server.cpp:139 does.
* `recvSize` counts repeated arrivals (just_submitted/server.cpp:274). `EveryArrival` is the code, `FreshOnly` counts
  an offset once. Counting every arrival, the loop can be left with a slot missing, although the network neither
  loses nor duplicates, for exactly the parts longer than two datagrams or, as written, just as long
  (`LaneCopies.ReorderingDefeatsIff`, and up to the disk `SystemFaults.IncompleteWriteIff`); the file on disk then
  lacks a whole slot (`SystemFaults.ReorderingCorrupts`).
* The offset loop adds `splitSize[idx]` (just_submitted/server.cpp:127-129), which displaces the last part by
  `(k - 1) * (fileSize % k)` bytes. The written offsets are modelled with memory that reaches that far. A completed
  transfer goes wrong exactly when a byte left out is not zero (`SystemProgress.WrittenOffsetsCorruptIff`).
* The server's handler compares `values.idx` before byte-swapping it (just_submitted/server.cpp:87), so it serves no
  NACK outside part 0 and mostly ends at the first one (`Nacks.ServerHandlerAgreesIff`, `Nacks.ServerMisreads`). When
  the server sends, a lost datagram of any other part is therefore lost for good (`ServerReturn.LossIsFinal`,
  `ServerFaults.LostDatagramBlocks`), and even without a loss, and with both repairs of the receiver, the disk can be
  written without a slot of part 0 (`ServerFaults.MisreadCorrupts`) and the handler can end long before the transfer
  does (`ServerFaults.EndsEarlyIff`). A run in which it handles no NACK of another part is as good as the client's
  (`ServerReturn.ServerRunAgreesIff`).
* A lost tail of a part is never noticed, and a NACK is sent and served once, so that a lost retransmission is final
  (`LaneLoss.LostTwice`). One lost datagram can block the whole transfer for ever
  (`SystemFaults.LostTailBlocks`), which nothing but a loss can (`LaneLoss.HangsIff`); with both repairs, which states
  can still be completed is known exactly (`SystemProgress.TransferCompletableIff`).
* `doneReceiveCount++` and `totalRecvSize +=` (just_submitted/server.cpp:297, 312) are not atomic. `System` takes them
  as atomic; `RacyCounters` treats them as the loads and stores they are. With two threads or more a lost increment of
  the first can leave all of them waiting (`RacyCounters.BarrierHangsIff`), and a lost addition to the second can
  let the wait end with a total that falls short, so that the disk gets a proper prefix of a file that was received in
  full (`RacyCounters.TruncatesIff`); exactly which values the two can end with is `RacyCounters.EndValuesIff`.
* In the earlier variant the gap loop strides by the size of the datagram that revealed the gap
  (adhip/cpp/server.cpp:145), which spoils the report of exactly the parts that have a short slot besides others
  (`ShortStride.WrongReportIff`); and `operator<` (54-56) is no order; the report uses the lexicographic one.

## Model

| member | source | states |
|---|---|---|
| Bytes.NetworkOrder | just_submitted/client.cpp:181-184 | byte j of what `htonl` leaves in memory is digit 3 - j of its argument to the base 256, for any 64-bit argument |
| Wire.HeaderRoundTrip | just_submitted/client.cpp:181-185 | the two overlapping eight-byte header stores and the payload decode back to size, payload and the offset modulo 2^32 whatever the reused buffer held; the offset survives exactly when below 2^32 |
| Wire.FillMessage | just_submitted/client.cpp:180-185 | filling the reused message buffer in place leaves the offset in bytes 0 to 4 and the size in 4 to 8, each highest byte first, then the payload; and it decodes to the datagram intended |
| Nacks.SendNack | just_submitted/client.cpp:224-236 | the frame sent is the index in four bytes and the offset in four, each highest byte first, with the padding between and four zeros behind |
| Nacks.ClientDecodesNack | just_submitted/client.cpp:117-124 | the client decodes every NACK of a real part to itself |
| Nacks.ClientTellsFieldsApart | just_submitted/client.cpp:117-124 | it reads the two fields in either order as long as exactly one of them can be the number of a part |
| Nacks.SentinelDecodes | just_submitted/client.cpp:121-131 | the sentinel (k+1, k+1) decodes to itself with either side's test, hence ends the handler |
| Nacks.ServerDecodesNack | just_submitted/server.cpp:86-93 | the server's test swaps index and offset of every NACK that is not for part 0 |
| Nacks.ServerTestAgreesIff | just_submitted/server.cpp:87-93 | the two decodes of a NACK agree exactly for part 0 or equal fields |
| Nacks.NackHandler.HandleFrame | just_submitted/client.cpp:117-140 | one handler iteration, in place |
| Nacks.NackHandler.Run | just_submitted/client.cpp:110-141 | the handler's loop leaves the sets and the done flag that the stream determines |
| Nacks.ClientHandlerExact | just_submitted/client.cpp:101-142 | over any stream of NACKs, with or without the sentinel, exactly the NACKs below the file size are recorded, each for its part, and the handler stops exactly at the sentinel |
| Nacks.ServerHandlerAgreesIff | just_submitted/server.cpp:69-111 | on a complete report the server's handler does what the client's does if and only if every NACK is for part 0 |
| Nacks.ServerNeverServes | just_submitted/server.cpp:87-109 | the server's handler records no request for any other part |
| Nacks.ServerMisreads | just_submitted/server.cpp:87-109 | wherever the server's handler is in the stream, a NACK of another part beyond its first slot ends it whatever follows, and one for offset 0 is recorded as a request of part 0 for offset idx |
| Splits.SplitSize | just_submitted/server.cpp:306-310 | a part is an equal share of the file and the last one the whole remainder on top; it ends where the next one begins, the last with the file |
| Splits.ExactStartAsWritten | just_submitted/server.cpp:127-129 | the offset loop as written yields idx times the thread's own size |
| Splits.ExactStartRepaired | just_submitted/server.cpp:127-129 | with splitSize[i] it yields the prefix sum |
| Splits.SizesSum | just_submitted/client.cpp:339-343 | part sizes sum to the file size, for every size |
| Splits.Tiling | just_submitted/client.cpp:339-343 | prefix-sum offsets partition the file: no gap, no overlap, nothing beyond the end |
| Splits.WrittenDisplacement | just_submitted/client.cpp:159-161 | the written offset equals the prefix sum except for the last part, displaced by (k-1)*(n%k) |
| Splits.WrittenFitsIff | just_submitted/server.cpp:241-243 | the written parts stay inside the file, and equal the tiling, exactly when k divides the size |
| Slots.BytesInFullIff | just_submitted/server.cpp:261-274 | bytes of distinct slots received never exceed the part and reach it exactly when all are in |
| Slots.StoppedCompleteIff | just_submitted/server.cpp:261-274 | the loop that counts every arrival stops complete if and only if the repeated bytes are fewer than those of the datagram it stops on |
| Slots.StoppedWithoutRepeats | just_submitted/server.cpp:261-274 | without repeats the count never exceeds the part and equals it exactly when complete |
| Receiving.ArriveKeeps | just_submitted/server.cpp:270-283 | an arrival in any of the three branches keeps the gap account, the NACK range, the byte count and the high-water mark |
| Receiving.NackNextKeeps | just_submitted/server.cpp:284-291 | so does each iteration of the gap loop, and what it NACKs is a slot |
| Receiving.FinishKeeps | just_submitted/server.cpp:292-295 | so does the end of the gap branch |
| Receiving.SettleKeeps | just_submitted/server.cpp:284-295 | hence a whole iteration of the receive loop, which ends back in recvfrom |
| Deliveries.RepairedGapAccount | adhip/cpp/server.cpp:138-150 | repaired guard, any arrivals: the missed set is exactly the slots below expectedSeqNum that did not arrive, nothing at or above it arrived, and it is the end of the highest slot received |
| Deliveries.WrittenGapAccount | just_submitted/server.cpp:284-294 | guard as written, any arrivals: the missed set is the slots below expectedSeqNum neither received nor next after a gap opener; of the slots below it that did not arrive no NACK was sent for exactly those followers, and none is for any follower; every opener is NACKed though it arrived |
| Deliveries.StopsCompleteIff | just_submitted/server.cpp:261-297 | when the receive loop stops on a sequence of arrivals: the exact condition for completeness as written, and completeness always when fresh offsets only are counted |
| Deliveries.CopyAllContent | just_submitted/server.cpp:276-295 | after any arrivals a buffer byte is the part's own byte if its slot arrived and untouched otherwise |
| Deliveries.StopsWithThePart | just_submitted/server.cpp:261-296 | once recvSize has reached the part's size, and nothing it counted arrived twice, the buffer is the old one with the part in its place |
| Parts.PartReceiver.FillGap | just_submitted/server.cpp:284-291 | the gap loop in place agrees with iterating the atomic step |
| Parts.PartReceiver.Receive | just_submitted/server.cpp:262-295 | one loop iteration: new state and new file content |
| Parts.PartReceiver.ReceiveLoop | just_submitted/server.cpp:261-296 | the loop consumes arrivals until recvSize first reaches splitSize; state and file content are those of the consumed arrivals; if it stopped and counted no repeat, the file holds the part in its place and is otherwise unchanged |
| Parts.PartSender.SendOne | just_submitted/server.cpp:166-182 | the message sent for a slot decodes to that slot's datagram |
| Parts.PartSender.FirstPass | just_submitted/server.cpp:142-161 | the first pass sends one message per offset 0, d, 2d, ... |
| Parts.FirstPassCovers | just_submitted/server.cpp:142-161 | those are all the slots, ceil(len/d) of them, and their payloads concatenate to the part |
| Parts.PartSender.ServeRequests | just_submitted/server.cpp:164-186 | whatever increasing NACKs the handler inserts between the reads and the erases, the resend loop sends every request, old or new, once and in ascending order, and empties the set |
| Lanes.OneDatagramPerOffset | just_submitted/client.cpp:198-208 | what arrives for an offset is the slot's own bytes, for first sends and resends, any stale buffer |
| Lanes.EraseRemovesWhatWasSent | just_submitted/client.cpp:197-217 | begin() at the locked erase is the element the unlocked read returned and that was sent |
| Lanes.StepKeeps | just_submitted/client.cpp:174-219 | every step of sender, handler, network and receiver keeps the lane invariant |
| LaneRuns.NackConservation | just_submitted/client.cpp:195-219 | in every run each missed offset is on the TCP connection, in the sender's set, in flight as a retransmission, or its retransmission was dropped |
| LaneRuns.LostIsDropped | just_submitted/client.cpp:195-219 | an offset is recorded as lost exactly when the run has dropped a retransmission of it |
| LaneRuns.ServedInOrderOnce | just_submitted/client.cpp:195-219 | in every run the retransmissions are a prefix of the NACKs in order, each once; no request leaves the set unsent |
| LaneRuns.EraseMatchesIff | just_submitted/client.cpp:215-217 | whatever is inserted between read and erase, the erase removes what was sent exactly when nothing inserted is smaller; otherwise it removes an insert that nobody has read |
| LaneRuns.ResendsAreFirstSends | just_submitted/client.cpp:174-218 | all datagrams in flight for an offset are the same, with length min(d, len - offset) and the source bytes |
| LaneRuns.NackRangeHolds | just_submitted/server.cpp:284-291 | every NACK is a slot of the part at or below a datagram that arrived; splitSize - sendPtr never wraps |
| LaneRuns.QuietMissesNothing | just_submitted/client.cpp:195-219 | quiescent and no retransmission dropped: the missed set is empty |
| LaneRuns.QuietCompleteIff | just_submitted/server.cpp:284-294 | such a state is complete exactly when the final slot and, as written, every stepped-over slot arrived |
| LaneRuns.LeavesCompleteIff | just_submitted/server.cpp:261-297 | in every run: leaving the loop means complete when fresh offsets are counted; as written, exactly under the repeated-bytes condition |
| LaneRuns.CountIsExact | just_submitted/server.cpp:261-274 | without repeats recvSize equals the part exactly when every slot is in |
| LaneFaults.ReorderingAloneDefeatsWrittenGuard | just_submitted/server.cpp:284-294 | as written, every part of at least two datagrams: a run, nothing dropped or duplicated, that leaves the loop without the first slot |
| LaneFaults.ReorderingAloneDefeatsEveryArrival | just_submitted/server.cpp:274 | guard repaired, every part longer than two datagrams: such a run that leaves the loop without the final slot, because every arrival is counted |
| LaneFaults.OutOfOrderLosesRequest | just_submitted/client.cpp:197-217 | why NACK order matters: in any lane whose next two NACKs were out of order, the sender can drop the smaller one unsent and send the larger one twice |
| LaneCopies.ArrivesTwiceAtMost | just_submitted/client.cpp:174-219 | unless the network duplicates, a slot arrives at most once, or twice if it was NACKed |
| LaneCopies.ReorderingDefeatsIff | just_submitted/server.cpp:261-297 | exactly which parts can be left incomplete when the network reorders, or reorders and loses: every arrival counted and longer than two datagrams, or as written just as long |
| LaneCopies.DuplicationDefeatsIff | just_submitted/server.cpp:261-297 | when it may also duplicate: every arrival counted and longer than one datagram |
| LaneLoss.AliveStep | just_submitted/client.cpp:174-219 | a slot that has arrived, is in flight, is still to be sent or to be resent stays so unless a datagram is dropped, and is so again only by a new NACK |
| LaneLoss.RecoverableStep | just_submitted/client.cpp:195-219 | without loss, the final slot and every missed one stay within reach |
| LaneLoss.LostForGood | just_submitted/server.cpp:284-294 | once one of them is out of reach no continuation whatever completes the part |
| LaneLoss.LostTail | just_submitted/server.cpp:261-296 | every part that is not empty, every variant: a run in which the final slot's datagram is dropped, after which nothing is under way, nothing was NACKed and only that slot is missing |
| LaneLoss.LostTwice | just_submitted/server.cpp:284-294 | every part of two datagrams or more, every variant: a run in which the first slot's datagram and its retransmission are dropped and everything else arrives; no second NACK is sent, so no continuation completes the part |
| LaneLoss.HungForGood | just_submitted/server.cpp:261-264 | from such a state the receiver never moves again, whatever is done |
| LaneLoss.HangsIff | just_submitted/server.cpp:261-264 | every variant, every kind of network: a part can hang if and only if it is not empty and the network drops |
| LaneProgress.CompletableIff | just_submitted/client.cpp:195-219 | both repairs, any reachable state before the sentinel, whatever was lost: the part can still be completed, and by a continuation without further loss, if and only if the final slot and every missed slot is within reach |
| LaneProgress.OnlyTheTailCounts | just_submitted/server.cpp:284-294 | as long as no retransmission was dropped that is so exactly when the final slot has arrived, is in flight, or has not come up in the first pass |
| LaneProgress.ComeToStop | just_submitted/client.cpp:174-219 | once the sentinel has arrived a sender stops from wherever it is, the receiver untouched |
| System.HandleIsHandlers | just_submitted/client.cpp:117-140 | a handler step of the system does to the request sets and the done flag what `nackHandler` does for the bytes of the frame, with either side's test, and changes nothing else |
| System.HeadIsNext | just_submitted/client.cpp:133-140 | the frame at the head of the shared connection is its part's next NACK and below the file size, so the handler's filter drops none |
| System.LanesStep | just_submitted/client.cpp:412-434 | all parts together on one connection: each is a lane run with its NACKs in order |
| Barrier.StepWeights | just_submitted/server.cpp:297 | a part adds its recvSize once and counts itself done once, after which its receiver is frozen |
| Barrier.BarrierStep | just_submitted/server.cpp:302-319 | counters, frame order and gates are kept by every step; from when the sentinel is sent until it is handled it is the last frame on the connection |
| Transfer.PartsAreLanes | just_submitted/server.cpp:302-319 | every theorem about lanes holds of every part of every system run |
| Transfer.ContentSafety | just_submitted/server.cpp:276-295 | in every reachable state the shared buffer equals the source on received slots and is zero elsewhere |
| Transfer.BarrierSafety | just_submitted/server.cpp:405-411 | disk write, sentinel and the end of any sender happen only after every receiver has finished; once the sentinel is sent, the done flag is set exactly when the connection has been read to its end |
| Transfer.HandlesTheBytes | just_submitted/client.cpp:110-141 | in every reachable state the next handler step is the one `nackHandler` makes of the bytes `sendNack` wrote for the frame at the head, NACK or sentinel |
| Transfer.WrittenFile | just_submitted/server.cpp:405-411 | if nothing counted arrived twice, every part is complete at the disk write, totalRecvSize is the sum of the parts and the disk holds exactly that |
| Echo.OneWay | just_submitted/server.cpp:61-65 | one direction, either offset rule: totalRecvSize is the file size and the disk equals the file outside the displaced hole |
| Echo.ThereAndBack | just_submitted/client.cpp:412-434 | both directions, either offset rule: what returns |
| Echo.EchoRoundTrip | just_submitted/client.cpp:412-434 | with prefix-sum offsets the server's copy and the returned file equal the original |
| Echo.WrittenEchoIff | just_submitted/client.cpp:159-161 | with the written offsets they do if and only if the bytes the displacement leaves out are zero |
| SystemPaths.Lift | just_submitted/server.cpp:302-319 | a run of one part, alone or with the connection to itself, is a run of the whole system in which nothing else moves |
| Ending.HandlerEnds | just_submitted/client.cpp:126-130 | every schedule: once the sentinel is sent the handler has set the done flag exactly when it has made as many iterations as frames were waiting, and until then it can make the next |
| Ending.SendersEnd | just_submitted/client.cpp:195-219 | every schedule: once the sentinel is handled a sender makes at most a known number of steps, can make one until it has stopped, and has stopped when it has made them all; one that was resending then has first sent again everything ever NACKed |
| Ending.DirectionCanEnd | just_submitted/server.cpp:405-422 | from every reachable state in which the disk is written a run without loss leads to the flip: sentinel handled, connection empty, every sender stopped, receivers and disk as they were |
| SystemProgress.TransferIsPossible | just_submitted/server.cpp:321-422 | for every variant some system run, without loss, reaches the disk write without repeats and then the flip of the roles; it is a run with either side's handler |
| SystemProgress.EchoIsPossible | just_submitted/client.cpp:351-434 | both directions, the second with the server's own handler, can be completed up to the flip for every file below 4 GiB, with either offset rule |
| SystemProgress.FileCanReturn | just_submitted/client.cpp:351-434 | with prefix-sum offsets the file then comes back unchanged |
| SystemProgress.WrittenOffsetsCorruptIff | just_submitted/server.cpp:241-243 | with the written offsets a completed transfer with a wrong file exists exactly when a byte the displacement leaves out is not zero |
| SystemProgress.TransferCompletableIff | just_submitted/server.cpp:302-319 | both repairs, any reachable state before the disk write, whatever was lost: the disk can still be written, and by a continuation without further loss that goes on to the flip of the roles, if and only if every part is within reach |
| SystemFaults.IncompleteWriteIff | just_submitted/server.cpp:274-294 | without drops and duplicates, the disk can be written with some slot missing if and only if every arrival is counted and some part is long enough |
| SystemFaults.ReorderingCorrupts | just_submitted/server.cpp:274-294 | every arrival counted, prefix-sum offsets, or the written ones for a part before the last: with a part that is long enough such a run writes a file in which a whole slot is zero |
| SystemFaults.LostTailBlocks | just_submitted/server.cpp:261-264 | every variant: a reachable state in which only one part's final slot is missing, no gap was noticed and every other part has finished, after which no continuation writes the disk |
| ServerReturn.ReadsAsDecoded | just_submitted/server.cpp:86-93 | what the system takes a frame for under the server's test is what the decoding of the frame's bytes gives |
| ServerReturn.ServerHandlesTheBytes | just_submitted/server.cpp:79-109 | a handler step of the server's direction is the one its `nackHandler` makes of the frame's bytes |
| ServerReturn.PartZeroIsServed | just_submitted/server.cpp:86-109 | server sending, any run: a NACK of part 0 that is handled is put into part 0's set, and nothing else changes |
| ServerReturn.ServerNextIff | just_submitted/server.cpp:86-109 | a step of the server's direction is one of the client's if and only if it does not handle a NACK of a part other than 0 |
| ServerReturn.ServerRunAgreesIff | just_submitted/server.cpp:69-111 | a run of the server's direction is one of the client's, so that all theorems about those hold of it, if and only if no NACK of another part than 0 is handled in it |
| ServerReturn.AgreesSoFar | just_submitted/server.cpp:69-111 | as long as that is so part 0 is a lane run with its NACKs in order on the connection, and each of its NACKs is on the connection, in its set or has been served |
| ServerReturn.UnNackedIsServers | just_submitted/server.cpp:69-111 | conversely a run in which no part but part 0 has NACKed anything is one of the server's direction |
| ServerReturn.LossIsFinal | just_submitted/server.cpp:69-111 | server sending: a slot of a part other than 0 that has not arrived, is not in flight and is past the first pass never arrives, whatever follows; counting fresh offsets only, the disk is never written |
| ServerFaults.LostDatagramBlocks | just_submitted/server.cpp:69-111 | for every such slot a run that drops its datagram leads there |
| ServerFaults.MisreadCorrupts | just_submitted/server.cpp:87-109 | server sending, every receiver variant, parts 0 and 1 longer than a datagram: a run that drops and duplicates nothing writes the disk without the final slot of part 0, a NACK of part 1 having been served as offset 1 of part 0 |
| ServerFaults.EndsEarlyIff | just_submitted/server.cpp:94-99 | server sending, any variant: its handler, and with it its senders, can be told to end before the receivers have finished if and only if some part other than 0 is long enough to NACK a slot that is not its first; nothing need be lost |
| RacyCounters.AccessKeeps | just_submitted/server.cpp:312 | a load or store of a plain increment keeps the counter at or below what is due, and strictly below after a lost update |
| RacyCounters.PlainIncrements | just_submitted/server.cpp:302-319 | even with lost updates no thread passes the wait early; it can be passed exactly if no done increment was lost; totalRecvSize never exceeds what is due |
| RacyCounters.HoldsLastStore | just_submitted/server.cpp:297-312 | in every interleaving each counter holds the sum of the increments of some threads that have stored, the last one to store among them: at least that one's, and 0 only as long as nothing positive was stored |
| RacyCounters.EndValuesIff | just_submitted/server.cpp:297-312 | exactly what the two counters can hold when all threads have made both increments: totalRecvSize the sum of any parts, at least one, and doneReceiveCount any number from 1 to k, in every combination |
| RacyCounters.SendingIsPassed | just_submitted/server.cpp:313-317 | the threads that are sending are exactly those that have passed the wait |
| RacyCounters.AllPass | just_submitted/server.cpp:313-317 | when all have finished and no done increment was lost, all of them can pass it |
| RacyCounters.BarrierHangsIff | just_submitted/server.cpp:312-315 | for any number of threads: a lost increment can leave them all waiting for ever exactly if there are two or more |
| RacyCounters.TruncatesIff | just_submitted/server.cpp:297 | for any number of non-empty parts: the wait can end, everything received, with totalRecvSize too small exactly if there are two threads or more |
| OnePass.HighWaterExit | adhip/cpp/server.cpp:123-165 | in every lock-ordered interleaving a part's loop is over exactly when its final slot arrived, and its report is exact if and only if no gap was revealed by a short datagram as written, always when repaired |
| OnePass.CounterIsSetSize | adhip/cpp/server.cpp:141-161 | missedDataPtr equals the size of the shared set exactly when no part received a datagram twice |
| OnePass.ReportIsFinal | adhip/cpp/server.cpp:123-165 | once a part's loop is over it takes no further step, and what it reports stays as it is whatever the other parts do |
| ShortStride.WrongReportIff | adhip/cpp/server.cpp:139-150 | some run leaves a part's loop with a wrong report if and only if the stride is the written one, the part has more than one slot and its last one is short |
| OnePass.StepKeeps | adhip/cpp/server.cpp:138-163 | every atomic step of every part keeps the account of the shared set and counter |
| OnePass.GapNotes | adhip/cpp/server.cpp:139-150 | what one uninterrupted iteration leaves: the offsets noted, their number, and the mark, which ends the arrival's size past the first of them not below the arrival |
| OnePass.OnePassServer.FillGap | adhip/cpp/server.cpp:139-148 | the gap loop in place agrees with iterating its locked step; it notes exactly the offsets from the old mark on, in strides of the arrival's size as written or of the datagram size, below the arrival, and adds their number to missedDataPtr |
| OnePass.OnePassServer.Receive | adhip/cpp/server.cpp:124-163 | one loop iteration in place: the header is decoded, the account of the gaps agrees with the steps, and the payload is copied to its offset |
| Report.MissRoundTrip | adhip/cpp/server.cpp:211-215 | a frame decodes to its index and offset although they overlap, and is never taken for END |
| Report.TakenForEndIff | adhip/cpp/client.cpp:183 | for every index and offset, exactly which frames the reader takes for END: none with an index a part can have |
| Report.FillFrame | adhip/cpp/server.cpp:211-215 | the two overlapping stores in place leave the index in two bytes and the offset in four, each highest byte first, then two zeros, and two more behind the frame |
| Report.SendMissedSet | adhip/cpp/server.cpp:202-229 | the stream sent reads back as exactly the set, each entry once, part by part and by rising offset within a part; one END frame closes it |
| Report.ReceiveReport | adhip/cpp/client.cpp:174-191 | the client's loop returns what the stream holds up to END, and counts it |

## Left out

- Sockets, name lookup, timeouts, mmap, printing, timing: library calls. UDP is a bag that may drop, reorder and duplicate; TCP is a FIFO of whole frames; a disk write takes a prefix of the buffer.
- The C++ memory model: steps are sequentially consistent, so the unlocked read of a set that another thread is changing is one step.
- The order of `usleep`, of allocating `fileRecv`, and of the client's disk write after its sentinel: the second direction starts from the first one's buffer once its main thread has written the disk.
- `continousNACK`: it exits at once on the server and starts after reception on the client. `resendNACK`, `totalPackets` and the printing helpers decide nothing.
- A negative `int idx` in the handler, which the server's test can produce from an offset of 2^31 or more, indexes outside the array of sets in C++; the model leaves the sets unchanged.
- Reads and writes outside the mapped file and the allocated buffer, which the written offsets of the last part cause when k does not divide the size, are modelled as reaching further memory that exists and belongs to the buffer.
- Datagrams and frames that the program itself does not send: `Wire.Decode` cuts a payload at the end of its message where the code reads on.
- Partial TCP reads, closed connections, and files of 4 GiB and more.
- Echo.ThereAndBack: assumes the client's NACK decode on both sides; the direction in which the server sends with its own test is the subject of ServerReturn and ServerFaults.
- Echo.EchoRoundTrip: the same.
- Echo.WrittenEchoIff: the same, and the memory beyond the file that the written offsets reach is taken to exist.
- SystemProgress.EchoIsPossible: says it of the empty file, too, which `mmap` refuses and for which the server's threads wait for ever for a size other than 0 (just_submitted/server.cpp:305).
- SystemProgress.FileCanReturn: the same.
- System.LanesStep: takes the increments of the two counters as atomic; RacyCounters treats them alone, without the datagrams.
- Barrier.BarrierStep: the same.
- Transfer.BarrierSafety: the same.
- Transfer.WrittenFile: the same; without it totalRecvSize can fall short, as RacyCounters.TruncatesIff says.
- LaneProgress.CompletableIff: says that a completing continuation exists, not that every fair schedule takes it, because a sender with an empty set spins. With the gap guard or the counting as written completeness is no matter of loss alone.
- SystemProgress.TransferCompletableIff: the same.
- SystemFaults.ReorderingCorrupts: leaves out the last part with the written offsets, whose displaced slots may lie beyond the file, and names one slot that is lost, not every set of slots that can be.
- The send loop of the earlier client, which repeats the later one's.
- adhip/client.c, adhip/server.c: an earlier draft of the same idea; the programs in the other directories: plain copy loops and experiments without a protocol.
