# libusnet, modelled and verified in Dafny

libusnet is a user-space TCP stack split over two processes, a network process and an application
process, that share lock-free buffers. This project models its shared-memory message queue, the
receive path up to the acknowledgement number, the passive-open state machine, the timers and
dispatch lists, the round-trip and congestion estimators, the pool allocator, the multi-layer hash
table, the TCP checksum and the TCP option printer and parsers, and proves what each of them keeps
over every input, every run or every interleaving.

`dafny verify dfyconfig.toml` checks the whole project.

| module | what it models |
|---|---|
| `Words`, `SeqNum` | machine words with explicit wrap-around; the two renderings of sequence-number order |
| `Ring` | registers that range over [0, size] inclusive, seen from unbounded stream positions |
| `MessageQueue`, `QueueProtocol` | the message queue as a sequential FIFO, and byte by byte under every interleaving of writer and reader |
| `Intervals`, `Reassembly`, `ReceiveBuffer`, `ReceiveRing` | the fragment list as a linked heap structure refining set union; `head_seq`; the byte ring between the processes |
| `Connection` | the state machine, from creation through close, over whole runs |
| `Lists`, `RtoWheel`, `Expiry`, `DispatchState`, `Dispatch` | tail queues, the retransmission wheel with timewait, the time-ordered scans; all lists and timers together with the dispatch loops, as a state with one function per operation and as the loops that refine it |
| `Rtt`, `Congestion` | the round-trip estimator with back-off, congestion and flight control |
| `Pool`, `HashCache`, `Checksum`, `Options` | allocator, index and codecs |

Conventions. Code that the source runs by updating objects is a class with methods; lists and
dictionaries it mutates are fields of type `seq` or `map`; linked fragments are heap objects. Ghost
state carries unbounded stream positions, and each 32-bit field is proved to be its position modulo
2^32. The clock, randomness, the wire, allocators of other modules and the choices of the
application are parameters. The host is little-endian, as the byte order of the checksum and of the
frame header in the source implies.

Findings, each with its exact condition and an input that meets it:

- A FIN whose own bytes could not be stored is consumed at `rcv_nxt`, so an unreceived byte is
  acknowledged. `Connection.Connection.Input` names exactly these segments,
  `AcknowledgesOnlyReceived` says that nothing else breaks the acknowledgement law, and
  `LostByteIsAcknowledged` carries one out.
- The assertion against being in timewait and in an RTO bucket at once fails exactly when a FIN is
  taken in FIN_WAIT_2 and the acknowledgement in the same segment left the timer armed
  (`Connection.Connection.HandleFinWait2`, over whole runs `Connection.Connection.Run`, `Connection.RearmsIff`); from FIN_WAIT_1 and CLOSING it
  always holds. It never fails while nothing is buffered behind our FIN
  (`Connection.EmptyNeverRearms`, `Connection.Connection.Run`); `Connection.TimewaitTrips` carries out a
  run in which it does. Also then the code goes on to take the connection off the wheel, so no
  reachable state has it on both (`Dispatch.Dispatcher.Run`).
- An acknowledgement older than `snd_una` that is the third duplicate, or compares as newer than
  everything sent, puts `snd_nxt` before the head of the send buffer, where the flush loop's assertion
  fails (`Congestion.Sender.ProcessAck`); `StaleDuplicate` carries such a run out.
- The first acknowledgement of data divides by zero exactly when the peer sent no MSS option or one of
  0 or 12 (`Congestion.DivisorIsZero`).
- The receive ring accepts a segment that fills it, after which it looks empty
  (`ReceiveRing.FullLooksEmpty`) and loses bytes (`FilledRingLosesBytes`); and `usnet_read` loads
  `head` twice, which gives a negative length exactly if `head` wrapped in between
  (`ReceiveRing.TwoLoads`, `WrappedSecondLoad`). A read of wrapped data copies the whole end of the
  ring, past a buffer that is smaller (`CopiesTooMuchIff`, `ReadOfTwoCopiesFive`).
- An out-of-order segment also moves `head`, to the right register exactly under the condition of
  `ReceiveBuffer.HeadMovesIff`, and otherwise possibly out of the ring (`HeadLeavesRing`). A ring filled
  before anything was read leaves a window of 2^32 - 1 (`ReceiveBuffer.WindowIff`).
- An entry moved out of the overflow bucket comes up before its deadline exactly under the condition
  of `RtoWheel.RearrangedEarlyIff`.
- The first round-trip sample gives a zero timeout exactly for one value (`Rtt.FreshTimeoutIsPositive`).
- The modulus search accepts 1 after the primes run out (`HashCache.Moduli`); inserting a key that is
  already stored puts it in two layers (`HashCache.HashCache.Insert`).
- The printer's length assertion fails exactly for a non-SYN segment that asks for SACK
  (`Options.Print`); either parser loops forever exactly on the areas `Options.TerminatesIff` describes,
  such as `[5, 0]`.

## Model

| member | source | states |
|---|---|---|
| `SeqNum.SeqOrder` | src/usnet/tcp.h:126-130 | for positions less than 2^31 apart, across any number of wraps, the comparison macros and `minseq`/`maxseq` both agree with the order of the unbounded stream |
| `SeqNum.SeqOrderBreaksHalfway` | src/usnet/ringbuf.c:148-166 | exactly half-way round each number precedes the other, so the bound is sharp |
| `MessageQueue.HeaderReadBack` | src/usnet/mq.c:277-278 | the eight header bytes determine length and flow |
| `MessageQueue.ShmMq.Write` | src/usnet/mq.c:245-335 | accepted exactly when used bytes + payload + 8 < block size, then the frame is appended; a refusal changes nothing; 1 exactly on an empty queue |
| `MessageQueue.ShmMq.CopyIn` | src/usnet/mq.c:280-325 | whichever of the three splits is taken, the bytes land in consecutive ring cells and no other cell changes |
| `MessageQueue.ShmMq.CopyOut` | src/usnet/mq.c:390-431 | the reader's split returns the bytes of consecutive ring cells, for registers up to and including the block size |
| `MessageQueue.ShmMq.Read` | src/usnet/mq.c:367-436 | returns and removes the oldest frame whole; an empty queue or a short buffer leaves the frames alone; the assertion `total_len <= used_len` holds |
| `QueueProtocol.NoUnreadByteOverwritten` | src/usnet/mq.c:280-325 | a writer's copy, made on a stale view of `head`, touches no cell of an unread frame |
| `QueueProtocol.StepKeeps` | src/usnet/mq.c:245-436 | every byte copy and every publication by either process keeps the protocol invariant |
| `QueueProtocol.DeliveredIsPrefix` | src/usnet/mq.c:245-436 | in every run of one writer and one reader the delivered (payload, flow) sequence is a prefix of the accepted one, and equal registers mean nothing is missing |
| `QueueProtocol.ReaderAdvances` | src/usnet/mq.c:367-436 | whatever the writer is in the middle of, the reader has a step of its own and finishes the oldest frame in a bounded number of them |
| `QueueProtocol.WriterAdvances` | src/usnet/mq.c:245-335 | whatever the reader is in the middle of, the writer has its answer in one step and its frame accepted in a bounded number of its own |
| `QueueProtocol.WriterAnswers` | src/usnet/mq.c:259-275 | a frame is taken on exactly if it and its header fit behind the unread frames with a byte to spare |
| `QueueProtocol.ReaderSees` | src/usnet/mq.c:375-388 | a read begins exactly if a frame is unread |
| `QueueProtocol.ReaderAnswers` | src/usnet/mq.c:405-417 | a frame whose payload is longer than the buffer stays in the queue; any other is delivered in its whole length |
| `Reassembly.CanMergeIsTouch` | src/usnet/ringbuf.c:168-178 | `canmerge` on wrapped numbers holds exactly if the two position intervals overlap or touch |
| `Reassembly.MergeFragments` | src/usnet/ringbuf.c:180-190 | the merged fragment stands for the hull of the two intervals |
| `Intervals.SpliceIsUnion` | src/usnet/ringbuf.c:279-323 | replacing the absorbed intervals by their hull covers exactly the old positions and the new ones |
| `Intervals.SpliceKeepsChain` | src/usnet/ringbuf.c:279-323 | the list stays sorted, disjoint and non-touching |
| `Reassembly.FragmentList.Traverse` | src/usnet/ringbuf.c:279-306 | the pointer-chasing loop swallows exactly the touching fragments, unlinks each and counts those released |
| `Reassembly.FragmentList.LinkInOrder` | src/usnet/ringbuf.c:308-323 | an unmerged fragment is linked at its place; the assertion at line 318 holds |
| `Reassembly.FragmentList.Insert` | src/usnet/ringbuf.c:271-323 | received positions become the union with the new interval, for any arrival order; fails exactly when the fragment pool is empty; list and pool fragments are conserved |
| `ReceiveBuffer.ReceiveBuffer.constructor` | src/usnet/ringbuf.c:91-116 | a new buffer has received nothing beyond its initial sequence number |
| `ReceiveBuffer.ReceiveBuffer.HeadIsFirstGap` | src/usnet/ringbuf.c:325-333 | `head_seq` is the end of the maximal received prefix |
| `ReceiveBuffer.ReceiveBuffer.Insert` | src/usnet/ringbuf.c:213-340 | each refusal under exactly its condition, which `AdmissionByPosition` gives in stream positions; otherwise exactly the segment's positions are added, `head_seq` moves to the first gap and `merged_len` is how far it moved |
| `ReceiveBuffer.AdmissionByPosition` | src/usnet/ringbuf.c:225-239 | across any number of wraps a segment is old exactly if it begins before the first gap, and admitted exactly if it begins at or after it and ends inside the free bytes |
| `ReceiveBuffer.AvailIsFree` | src/usnet/ringbuf.c:233-234 | the room computed from the registers is the size less the bytes between them |
| `ReceiveBuffer.InOrderHead` | src/usnet/ringbuf.c:247-263 | an in-order segment moves `head` to the register of the position behind it |
| `ReceiveBuffer.HeadMovesIff` | src/usnet/ringbuf.c:247-263 | any other moves it by its length exactly if its copy wraps where the register does |
| `ReceiveBuffer.HeadLeavesRing` | src/usnet/ringbuf.c:247-263 | an instance in which `head` ends outside the ring |
| `ReceiveBuffer.WindowIff` | src/usnet/ringbuf.c:334-335 | the new window is the free bytes less one exactly unless the ring was filled before anything was read, when it is 2^32 - 1 |
| `ReceiveRing.NoUnreadByteOverwritten` | src/usnet/ringbuf.c:247-269 | a store into the ring, on a stale view of `data`, touches no unread byte |
| `ReceiveRing.OfferAnswers` | src/usnet/ringbuf.c:230-239 | a segment is taken exactly if it fits behind the unread bytes |
| `ReceiveRing.RequestTakes` | src/usnet/core.c:888-908 | a read takes the smaller of what is unread and what was asked for, and nothing exactly from an empty ring |
| `ReceiveRing.WriterFinishes` | src/usnet/ringbuf.c:247-263 | a segment stored in full can always be published, and is then unread behind the others |
| `ReceiveRing.ReaderFinishes` | src/usnet/core.c:892-917 | bytes gathered in full can always be handed out, and are the oldest unread ones |
| `ReceiveRing.FetchedIsPrefix` | src/usnet/core.c:888-920 | under every interleaving, until a segment fills the ring, the bytes read are a prefix of the bytes stored, at all wrap positions |
| `ReceiveRing.FullLooksEmpty` | src/usnet/ringbuf.c:233-239 | an accepted segment leaves equal registers exactly if it fills the ring |
| `ReceiveRing.FilledRingLosesBytes` | src/usnet/ringbuf.c:233-263 | a run from the initial state in which, after a filled ring, the bytes read are no prefix of those stored |
| `ReceiveRing.TwoLoads` | src/usnet/core.c:889-893 | the length computed from a second load of `head` is right exactly if `head` did not wrap in between, and negative otherwise |
| `ReceiveRing.WrappedSecondLoad` | src/usnet/core.c:889-893 | an instance in which the length is -1 |
| `ReceiveRing.CopiesTooMuchIff` | src/usnet/core.c:903-917 | a read copies more bytes than its caller's buffer holds exactly if the data wraps and the buffer is smaller than the end of the ring |
| `ReceiveRing.ReadOfTwoCopiesFive` | src/usnet/core.c:903-912 | an instance: two bytes asked for, five copied |
| `Connection.PassiveOpen` | src/usnet/tcp.c:996-1062 | a connection results exactly for a SYN without ACK to the listener while the table has room; when an answer is sent |
| `Connection.Connection.constructor` | src/usnet/tcb.c:241-261 | a created connection is in LISTEN at `irs` |
| `Connection.Connection.Validate` | src/usnet/tcp.c:436-512 | the verdict of timestamp and window tests, by stream positions in `ScreenByPosition`, the new `ts_recent`, and that a passing segment sends nothing |
| `Connection.ScreenByPosition` | src/usnet/tcp.c:436-512 | across any number of wraps a segment passes exactly if its timestamp is there and not older, where timestamps are in use, and its last byte lies in the window; which refusal otherwise |
| `Connection.Connection.TakePayload` | src/usnet/tcp.c:364-434 | bytes are recorded exactly when every window, ring and allocator test passes, by stream positions in `StorableByPosition`; `rcv_nxt` follows the first gap and then no longer equals the segment's number; the answer, 0 for stored in-order bytes |
| `Connection.WindowByPosition` | src/usnet/tcp.c:373-380 | refused as old exactly if it ends before the first gap, as outside exactly if it ends behind the window |
| `Connection.StorableByPosition` | src/usnet/tcp.c:373-415 | bytes are stored exactly if they lie between the first gap and the end of the window and of the ring, with a buffer and a fragment to be had |
| `Connection.Connection.InOrderIsReceived` | src/usnet/tcp.c:364-434 | in-order data that fits, to a connection that takes data, is received, and `rcv_nxt` ends at or behind its end |
| `Connection.Connection.HandleListen` | src/usnet/tcp.c:578-593 | SYN_RECEIVED exactly on SYN, `rcv_nxt` one further |
| `Connection.Connection.HandleSynReceived` | src/usnet/tcp.c:674-712 | ESTABLISHED exactly on ACK of `iss + 1`, with the timer disarmed |
| `Connection.Connection.HandleEstablished` | src/usnet/tcp.c:714-766 | the new state, exactly which bytes are recorded and exactly which FIN is consumed |
| `Connection.Connection.HandleCloseWait` | src/usnet/tcp.c:768-786 | the state stays; exactly when an acknowledgement goes out and when the segment's own acknowledgement is processed |
| `Connection.Connection.HandleFinWait1` | src/usnet/tcp.c:788-851 | the new state in every case: when our FIN counts as acknowledged, when the peer's is taken, and CLOSED exactly for payload without a receive buffer; which bytes are recorded; the timer is disarmed before TIME_WAIT |
| `Connection.Connection.HandleClosing` | src/usnet/tcp.c:853-895 | TIME_WAIT exactly on the acknowledgement of our sent FIN, and the timer is disarmed before it |
| `Connection.Connection.HandleLastAck` | src/usnet/tcp.c:897-943 | CLOSED exactly on an in-order acknowledgement of our sent FIN |
| `Connection.Connection.HandleFinWait2` | src/usnet/tcp.c:945-982 | the new state, exactly which bytes are recorded and which FIN is consumed, and that entering timewait fails its assertion exactly if the same segment left the timer armed |
| `Connection.RearmsIff` | src/usnet/timer.c:93-104 | exactly which acknowledgement arms a timer that was not armed |
| `Connection.EmptyNeverRearms` | src/usnet/tcp.c:176-304 | with an empty send buffer and no more than a window sent, none does |
| `Connection.FinAckedSettles` | src/usnet/tcp.c:808-815 | once our FIN is acknowledged nothing before it is outstanding and no timer runs |
| `Connection.TimewaitTrips` | src/usnet/tcp.c:945-982 | a `Run` over seven events from the SYN on at the end of which entering timewait has failed its assertion |
| `Connection.Connection.HandleTimeWait` | src/usnet/tcp.c:984-994 | stays in timewait and acknowledges again |
| `Connection.Connection.HandleRst` | src/usnet/tcp.c:524-576 | where a RST leaves each state |
| `Connection.Connection.SendControl` | src/usnet/tcp_out.c:364-466 | exactly when a control packet goes out, when it is our FIN, what it does to `snd_nxt` and the timer, and when the connection is released |
| `Connection.Connection.Input` | src/usnet/tcp.c:1111-1188 | every state change is an allowed edge earned by this segment and its validation; the segment joins the history exactly if it reaches its handler; exactly which positions become received, which FIN is consumed, and when the assertion on entering timewait fails |
| `Connection.Connection.Timeout` | src/usnet/timer.c:219-358 | which expiry closes and which releases, and that an expired timer is not armed |
| `Connection.Connection.Run` | src/usnet/tcp.c:1064-1188 | for any events, segments, control packets, data, timers and the application in any order: acknowledgements never go back, received bytes stay received, every segment of the history arrived, every transition is allowed, CLOSED is absorbing, without a close by the application only LISTEN, SYN_RECEIVED, ESTABLISHED, CLOSE_WAIT and CLOSED occur; each moment follows from the one before and the event, with the exact condition under which the timewait assertion fails, and it never does while nothing is buffered behind our FIN |
| `Connection.Connection.AcknowledgesOnlyReceived` | src/usnet/tcp.c:395-412 | in every reachable state `rcv_nxt` is the first gap plus one once a FIN was consumed, and covers only received bytes and that FIN if and only if the FIN's own bytes were not lost |
| `Connection.Connection.EveryAckIsSound` | src/usnet/tcp_out.c:305-310 | hence every acknowledgement ever sent covers only received bytes, and they are non-decreasing |
| `Connection.Connection.LostByteIsAcknowledged` | src/usnet/tcp.c:750-757 | in every established connection with a window, a FIN with a byte (and a timestamp in order where one is due) while the fragment pool is empty leaves `rcv_nxt` past a position that is neither received nor the FIN |
| `Connection.Connection.TimeWaitIsEarned` | src/usnet/tcp.c:834-850 | in TIME_WAIT our FIN was acknowledged at `fss + 1`, the peer's FIN consumed at `rcv_nxt`, and the handshake completed at `iss + 1`, each by a segment of the history, which `Run` ties to the arrivals |
| `Lists.RemoveExact` | src/usnet/tcp_out.c:495-556 | unlinking takes out exactly the one entry and keeps the rest |
| `DispatchState.Queue.AddOk` | src/usnet/tcp_out.c:519-546 | adding keeps flag, list and counter in agreement |
| `DispatchState.Queue.DropOk` | src/usnet/tcp_out.c:495-517 | removing keeps flag, list and counter in agreement |
| `DispatchState.Queue.TouchOk` | src/usnet/timer.c:147-154 | moving to the tail keeps flag, list and counter in agreement |
| `Dispatch.Dispatcher.Release` | src/usnet/tcb.c:334-355 | a released connection is on none of the five lists and off the wheel, and everyone else is where they were |
| `Dispatch.Dispatcher.SendControlPacket` | src/usnet/tcp_out.c:364-466 | exactly when it succeeds, when the connection leaves the ack list, when it is armed, and when it is released |
| `Dispatch.Dispatcher.AddControl` | src/usnet/tcp_out.c:468-493 | off the control list exactly if the packet could be sent at once, on it otherwise |
| `Dispatch.Dispatcher.EnqueueAck` | src/usnet/tcp_out.c:558-583 | the new count, modulo its six bits, and membership in the ack list |
| `Dispatch.Dispatcher.SendControlList` | src/usnet/core.c:212-259 | the loop by saved `next` does what serving the list from its head does, and keeps all four lists consistent: exactly a prefix is served, all the threshold reaches, unless an entry could not be sent in the world its predecessors left; the "not on control list" arm is unreachable |
| `DispatchState.WalkStep` | src/usnet/core.c:272-369 | in a walk that drops entries behind it, the entry after the current one is the original next |
| `Dispatch.Dispatcher.SendAcks` | src/usnet/core.c:284-349 | how many of the owed acknowledgements go out, and off the list exactly if none is left |
| `Dispatch.Dispatcher.SendAckList` | src/usnet/core.c:261-373 | the loop serves the first entries in order although each may leave any list or be released; one of them stays only if the wire, as it was at its turn, did not take all it was owed; the rest keep their order; the "not on ack list" arm is unreachable |
| `Dispatch.Dispatcher.Flush` | src/usnet/tcp_out.c:620-719 | what the flush answers and queues for each sequence of outcomes, and that it touches no other connection |
| `Dispatch.Dispatcher.ServeData` | src/usnet/core.c:395-450 | the entry, unlinked with its flag still set, leaves the list for good exactly if it is not waiting for the control list and its flush succeeds, and goes to the tail otherwise |
| `Dispatch.Dispatcher.SendDataList` | src/usnet/core.c:375-464 | a prefix is served in order, all the threshold reaches, unless an entry could not be served in what its predecessors left of the world; that one moves to the tail; the "not on send list" arm is unreachable |
| `Dispatch.Dispatcher.HandleRto` | src/usnet/timer.c:328-356 | what an expiry makes of every list and connection, in every state that is kept, and that it does not arm |
| `Dispatch.Dispatcher.JoinTimeout` | src/usnet/timer.c:125-135 | the assertion holds exactly if the connection is not on the timeout list |
| `Dispatch.Dispatcher.OnEstablished` | src/usnet/tcp.c:695-703 | a connection that completes the handshake is not yet on the timeout list, joins it, and is disarmed |
| `Dispatch.Dispatcher.OnIdle` | src/usnet/timer.c:480-492 | an idle connection leaves the timeout list and is released unless a socket holds it |
| `Dispatch.Dispatcher.OnTimewaited` | src/usnet/timer.c:440-452 | a timewait entry is released exactly if it is not on the control list |
| `Dispatch.Dispatcher.OnTick` | src/usnet/timer.c:361-415 | those handled leave the wheel, no armed connection of the wheel proper before its due tick and, unless cut short, all that are due; each then gets exactly what its expiry calls for, in order, and nobody is armed |
| `DispatchState.TickRetransmits` | src/usnet/timer.c:328-356 | after a tick each connection handled has its data on the send list, or waits for it with its FIN, or its control packet was sent in the world of its turn, or waits on the control list exactly because it could not be |
| `DispatchState.TickElsewhere` | src/usnet/timer.c:361-415 | and every other connection is in the state and on the lists it was on |
| `DispatchState.AsConnections` | src/usnet/tcp_out.c:364-466 | which states wait, arm, flush and acknowledge agrees with what the connection of module `Connection` does in them |
| `DispatchState.ConnectionsMove` | src/usnet/tcp.c:1131-1188 | every transition of such a connection is among the changes the runs below range over |
| `DispatchState.SentExactly` | src/usnet/core.c:318-326 | the packets sent are the first outcomes that took one, up to the first that did not |
| `DispatchState.RequestsWrap` | src/usnet/tcp_out.c:558-583 | requests are counted modulo 64 |
| `Dispatch.Dispatcher.Run` | src/usnet/core.c:466-530 | in every state reachable by any order of list and timer operations, expiries, releases and dispatch loops each connection is on each of the five lists exactly once iff flagged, each counter is the list length, and none is in an RTO bucket and in timewait at once; every state is exactly what the event makes of the one before, and every tick handles what its timers show as expired |
| `Dispatch.Dispatcher.Step` | src/usnet/timer.c:66-83 | one such event and exactly its effect; the assertion on entering timewait fails exactly for an armed connection |
| `RtoWheel.SlotIsNotEarly` | src/usnet/timer.c:172-191 | the slot computed in unsigned arithmetic is never before the deadline's, and exactly it iff the deadline is not past |
| `RtoWheel.ReadingIsTime` | src/usnet/timer.c:178 | a 32-bit time less than half the range away from the wheel is read as the tick it stands for |
| `RtoWheel.TimerStore.Add` | src/usnet/timer.c:156-191 | an entry comes up no earlier than its deadline, exactly at it iff not behind the wheel; one already armed or in timewait is left alone; the wheel and every other entry's tick stay as they were |
| `RtoWheel.TimerStore.Disarm` | src/usnet/timer.c:193-207 | off every bucket, counter down by one exactly if it was armed |
| `RtoWheel.TimerStore.HandleSlot` | src/usnet/timer.c:382-403 | exactly entries of the current slot are handled, all of them unless the threshold is passed |
| `RtoWheel.TimerStore.Rearrange` | src/usnet/timer.c:501-523 | every overflow entry goes to exactly the list its difference gives, and no other entry moves |
| `RtoWheel.TimerStore.Check` | src/usnet/timer.c:361-415 | no entry of the wheel proper is handled before its due tick or changes its slot, and unless cut short, which needs the threshold to be reached, exactly those due have been handled; the loop terminates |
| `RtoWheel.TimerStore.Run` | src/usnet/timer.c:156-415 | for every run of arming, disarming, rewriting `ts_rto`, checking and timewait: a report of each event that tells exactly what it armed, cleared and handled, and the log of all reports obeys the law of the deadline |
| `RtoWheel.LawfulAt` | src/usnet/timer.c:361-415 | at every entry of such a log: an entry that never spilled is not handled before the deadline it was armed for, and none due by the clock of a check that was not cut short is left |
| `RtoWheel.RearrangedEarlyIff` | src/usnet/timer.c:507-518 | with the opposite sign of the rearrangement an overflow entry comes up before its deadline exactly under the stated condition on its distance and the slot |
| `RtoWheel.TimerStore.EarlyIff` | src/usnet/timer.c:507-518 | the same for an entry the rearrangement has moved, by its `ts_rto` |
| `RtoWheel.TimerStore.LeavesOverflow` | src/usnet/timer.c:501-523 | a rearranged entry leaves the overflow bucket exactly if it is not a whole wheel behind, and comes up within one turn |
| `RtoWheel.RearrangedLate` | src/usnet/timer.c:507-518 | one that is not ahead comes up as much later as it was behind |
| `RtoWheel.RearrangedEntryMayBeEarly` | src/usnet/timer.c:507-518 | an instance: armed for tick 3100, up at 1196 |
| `RtoWheel.TimerStore.AddTimewait` | src/usnet/timer.c:61-84 | to the tail of timewait, once, and off the wheel; the assertion holds exactly if the connection was not armed |
| `RtoWheel.TimerStore.RemoveTimewait` | src/usnet/timer.c:112-123 | off timewait, the others in order |
| `Expiry.TimedList.Touch` | src/usnet/tcp.c:1129-1130 | with a non-decreasing clock restamping and moving to the tail keeps the list sorted by time |
| `Expiry.OldIsAge` | src/usnet/timer.c:453-455 | the test of both scans is the age of the entry, across any number of wraps |
| `Expiry.SelectedIn` | src/usnet/timer.c:467-499 | what a full scan selects and leaves |
| `Expiry.NothingBehind` | src/usnet/timer.c:453-455 | where nothing further on is old enough, stopping early is the whole scan |
| `Expiry.TimedList.Scan` | src/usnet/timer.c:423-499 | the early-exit scan acts on exactly the connections a full scan would, for timewait those not on the control list, unless cut short; that happens only with more entries than the threshold, and then as many as it allows were old enough |
| `Rtt.SmoothBounded` | src/usnet/tcp.c:101-104 | samples in [L, M] keep 8L <= srtt <= 8M |
| `Rtt.SmoothIsAverage` | src/usnet/tcp.c:102-104 | the integer average is at most 7/8 tick above the exact exponential average and never below |
| `Rtt.DeviateBounded` | src/usnet/tcp.c:105-114 | mdev <= 4M |
| `Rtt.DeviateIsAverage` | src/usnet/tcp.c:105-114 | the deviation is the exact average to a tick, except when the round trip falls sharply, when it grows by at most an eighth |
| `Rtt.FreshTimeoutIsPositive` | src/usnet/tcp.c:128-134 | after a first sample of any size the timeout is zero exactly for 2^31 |
| `Rtt.Estimator.Measure` | src/usnet/tcp.c:88-134 | L <= rto <= 5M after a sample, a zero one counting as one, and the assertion that it is positive |
| `Rtt.Estimator.Settle` | src/usnet/tcp.c:115-127 | rttvar never falls below the current deviation, and decays by a quarter of the gap once per round trip |
| `Rtt.Estimator.Backoff` | src/usnet/timer.c:217-259 | the backed-off timeout, unchanged without a sample, and when retransmissions are exhausted |
| `Rtt.Estimator.Restart` | src/usnet/timer.c:86-96 | an acknowledgement of new data finds a positive timeout and starts the count anew |
| `Rtt.Estimator.Run` | src/usnet/timer.c:86-90 | over every history of samples, expiries, fast retransmissions and restarts all bounds hold and rto > 0, so no rto assertion fails; each estimate follows exactly from the one before and the event |
| `Congestion.DivisorIsZero` | src/usnet/tcp.c:307-333 | the first acknowledgement of data divides by zero, by `eff_mss` or by `cwnd`, exactly without an MSS option or with MSS 0 or 12 |
| `Congestion.Sender.NeverDividesByZero` | src/usnet/tcp.c:307-333 | for every other option no later acknowledgement does |
| `Congestion.ProductsFit` | src/usnet/tcp.c:307-333 | for every segment size and every acknowledgement the send buffer allows, no product overflows, and the segments counted are the whole ones acknowledged |
| `Congestion.GrownIsMonotone` | src/usnet/tcp.c:322-341 | new acknowledgements never shrink cwnd, and grow it by at most one segment for each full segment acknowledged, without overflow |
| `Congestion.GrownExactly` | src/usnet/tcp.c:324-341 | slow start adds a segment for each one acknowledged, congestion avoidance the share of the window acknowledged of a segment for each, rounded down |
| `Congestion.HalvedBounds` | src/usnet/tcp.c:249-255 | the threshold after a loss is two segments or half the smaller window, whichever is more |
| `Congestion.FirstWindows` | src/usnet/tcp.c:689-693 | the first windows are two segments, or what a timeout in the handshake leaves |
| `Congestion.GrowthPerWindow` | src/usnet/tcp.c:324-341 | a whole window acknowledged doubles cwnd in slow start and adds one segment in congestion avoidance |
| `Congestion.Sender.constructor` | src/usnet/tcp.c:689-693 | after the handshake cwnd is at least one segment |
| `Congestion.Sender.Timeout` | src/usnet/timer.c:262-267 | after a timeout cwnd is one segment, ssthresh exactly half the usable window or two segments, nothing counts as in flight |
| `Congestion.Sender.OnDuplicate` | src/usnet/tcp.c:236-276 | threshold and window of fast retransmission and of inflation |
| `Congestion.Sender.ProcessAck` | src/usnet/tcp.c:142-362 | from any state: the answer, both windows exactly (growth by the segments acknowledged, fast retransmission at the third duplicate, inflation after it), `snd_una` and `snd_nxt`; and from an ordered state `snd_nxt` falls behind if and only if the stated stale acknowledgement arrives |
| `Congestion.Sender.AnswerByPosition` | src/usnet/tcp.c:176-286 | an acknowledgement is refused exactly if it lies beyond the buffer, and new exactly if it lies behind `snd_una` and inside it |
| `Congestion.AsConnection` | src/usnet/tcp.c:142-362 | the numbers move as in the send side by which module `Connection` decides about timers |
| `Congestion.Sender.Arrive` | src/usnet/tcp.c:1121-1127 | the same with `peer_wnd` overwritten first and an acknowledgement of our FIN stepped back |
| `Congestion.Sender.StaleDuplicate` | src/usnet/tcp.c:220-249 | a run from a new connection that ends with `snd_nxt` behind the send buffer |
| `Congestion.Sender.SendOne` | src/usnet/tcp_out.c:679-698 | refused for the window exactly if the true flight would exceed it |
| `Congestion.Sender.Flush` | src/usnet/tcp_out.c:616-719 | the sequence assertion fails exactly if `snd_nxt` is behind on entry; the segments go out in the order of the offers, after each the flight fits both windows, and the loop stops only at an empty buffer, a refusal of the wire or a full window |
| `Congestion.Sender.Run` | src/usnet/tcp.c:236-346 | over every run, stale acknowledgements included, cwnd >= mss at every moment, ssthresh >= 2 mss once there was a loss before or in the run, a timeout or the third duplicate, `snd_una` never goes back; numbers and both windows follow exactly at each moment; it ends early only where a flush fails its assertion or at the number without an order |
| `Pool.Create` | src/usnet/mempool.c:43-104 | refused exactly for a chunk under 16 bytes or not a multiple of four; just enough chunks |
| `Pool.SpellsFrame` | src/usnet/mempool.c:99-144 | writes outside free chunks cannot change the in-band free list |
| `Pool.Pool.Conservation` | src/usnet/mempool.c:66-68 | free plus live chunks always equals total |
| `Pool.Pool.Allocate` | src/usnet/mempool.c:106-128 | never a live chunk, NULL exactly if none is free, live contents untouched |
| `Pool.Pool.Free` | src/usnet/mempool.c:130-144 | exactly that chunk becomes free again, live contents untouched |
| `Pool.Pool.ClientWrite` | src/usnet/mempool.c:130-144 | a client's writes into its chunk leave the free list as it was |
| `HashCache.TrialDecides` | src/usnet/cache.c:59-72 | above the root, division by the numbers up to the root decides primality |
| `HashCache.CandidatesAreModuli` | src/usnet/cache.c:60-82 | the candidates decrease strictly, lie in [1, len], and are prime but for a final 1 |
| `HashCache.Moduli` | src/usnet/cache.c:43-84 | the moduli are the largest primes above the root in order, then 1, and the search gives up exactly if more are asked for |
| `HashCache.HashCache.Search` | src/usnet/cache.c:203-225 | a key is found, in its own cell, if and only if it is stored |
| `HashCache.HashCache.Get` | src/usnet/cache.c:179-201 | the first empty probe cell, none exactly if all are occupied |
| `HashCache.HashCache.Insert` | src/usnet/cache.c:227-251 | fails exactly if every probe cell is occupied, and touches nobody else; an absent key ends up in exactly one layer, a stored one in two |
| `HashCache.HashCache.Remove` | src/usnet/cache.c:253-260 | no other key is hidden, and the key is gone unless it had been inserted twice |
| `Checksum.FoldIsOnesComplement` | src/usnet/utils.c:192-193 | the two foldings give the one's-complement sum |
| `Checksum.TcpCksum` | src/usnet/utils.c:165-198 | for every length below 65536, odd or even, the complement of the one's-complement sum of the pseudo header of RFC 9293 and the segment, with no 32-bit overflow |
| `Checksum.PseudoWords` | src/usnet/utils.c:186-190 | the additions for addresses, length and protocol are the words of the twelve bytes of the pseudo header |
| `Checksum.OddIsPadded` | src/usnet/utils.c:182-184 | an odd segment sums as if a zero byte followed it |
| `Checksum.EmittedSegmentVerifies` | src/usnet/tcp_out.c:334-336 | the receiver's check over an emitted segment yields zero, in either order of the addresses |
| `Checksum.OneWordChanged` | src/usnet/tcp.c:1085-1090 | a changed word is accepted if and only if it is congruent modulo 65535, that is equal or the other zero |
| `Options.Print` | src/usnet/tcp_out.c:95-155 | the bytes are those of the option list; the length assertion holds exactly for a SYN or without SACK |
| `Options.WireBytes` | src/usnet/tcp_out.c:95-155 | those bytes are, kind by kind, what RFC 9293 and RFC 7323 prescribe |
| `Options.TerminatesIff` | src/usnet/tcp.c:62-84 | on any bytes, either parser loop ends if and only if it never comes to an option it skips whose length byte is zero |
| `Options.FiveZeroNeverEnds` | src/usnet/tcp.c:70-81 | an area on which neither ends |
| `Options.ParseOptions` | src/usnet/tcb.c:196-239 | on any bytes on which it terminates, what it reads at each cursor takes effect in order |
| `Options.WellFormed` | src/usnet/tcb.c:203-238 | on every well-formed list both parsers terminate, every option before its end takes effect in the one, and the other finds the first timestamp before its end or fails iff there is none |
| `Options.ParseTimestamp` | src/usnet/tcp.c:55-86 | on any bytes on which it terminates, it succeeds exactly if a cursor comes to a timestamp, and returns the words there |
| `Options.SynRoundTrip` | src/usnet/tcp_out.c:101-136 | parsing generated SYN options recovers segment size, window scale and timestamp, whatever bytes follow |
| `Options.StampRoundTrip` | src/usnet/tcp_out.c:138-145 | the timestamp parser recovers both timestamps of any generated segment |

## Left out

- `ReceiveBuffer.ReceiveBuffer.Insert`: does not place the payload bytes, because the source moves `head` even for out-of-order segments; byte placement is in `ReceiveRing`, for in-order segments.
- `ReceiveRing.FetchedIsPrefix`: only for segments that do not fill the ring, because a full ring looks empty to the reader (`FullLooksEmpty`), with one load of `head` per read (`TwoLoads`), and of the copied bytes those that the read reports (`CopiesTooMuchIff`).
- `RtoWheel.TimerStore.Check`: excludes overflow-bucket entries from the deadline, because their rearrangement may bring them up early, and models a tick whose handling releases no connection, because the source unlinks again after a release.
- `Dispatch.Dispatcher.HandleRto`: leaves a connection in a state in which the source would release it where it is, for the same reason.
- `Congestion.Sender.ProcessAck`: takes windows below 2^30, as a scale of at most 14 bits gives, and excludes the acknowledgement number exactly half-way round over an empty send buffer, which has no order.
- `Congestion.Sender.constructor`: needs an MSS option other than 0 and 12, because with any other the source divides by zero (`DivisorIsZero`).
- `Rtt.Estimator.Measure`: for samples between bounds for which 640 M fits 32 bits.
- `Options.ParseTimestamp`: on areas on which the source loops forever (`TerminatesIff`) there is nothing to compute.
- `Connection.Connection.AppClose`: the close step is the environment's, because the source never assigns `fss` and its close is a stub.
- `Connection.SendVars`: has of the send side only what the timers depend on; windows and congestion are in `Congestion`.
- `Reassembly.FragmentList.Insert`: fragments taken from the C heap when the pool is empty, which the receive path does not do.
- Send-buffer bytes and the choice of the data pointer in the flush loop: the send buffer is abstract.
- The signed narrowing of the window in `usnet_process_ack`, active open, and the SYN_SENT handler behind it.
- The list counters are taken to start at zero, although the context is cleared by the size of a pointer.
- Memory reads after a connection was released (the flags stay as the release left them).
- The backlog queue of accepted connections, epoll, event marshalling, sockets and adaptive notification: plumbing.
- Netmap, poll, shared-memory and fifo calls, fork, logging: foreign input and output.
- `ip_fast_csum` (assembly), `cksum` and `in_cksum`: not the standard sum.
- ARP, UDP, ICMP and Ethernet handling, and the sample server.
