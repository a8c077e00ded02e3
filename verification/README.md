# Verified model of the event loop library

This project models the parts of the library that carry state and promises, and proves those
promises in Dafny. `dafny verify dfyconfig.toml` checks all of it.

**KCP** (`src/third/ikcp.cpp`, `ikcp.h`) is the main part.

- `Word32` has the 32-bit arithmetic and the comparison `_itimediff`; `Wire` the packet format,
  the parser and the packing into datagrams.
- `Sender`, `Receiver`, `Rtt`, `Congestion` have the pieces of the control block, and `Endpoint`
  the whole of it: send, receive, input, flush, update and check as functions. They take a
  `Numbering`, which is `Mod32`, the code, or `Unbounded`, the same protocol with sequence
  numbers that never wrap.
- `IQueue` is the intrusive ring of nodes, and `SegmentQueues` the four lists of a control block
  as such rings. The loops of send, receive, input and the admission of a flush follow and change
  the links, and are proved to keep every segment in at most one list, in one place, and to do to
  the segments in the rings what the functions do to sequences.
- `Kcp` is the control block as an object with those lists, which the C functions update in
  place. Each method is proved to compute the `Mod32` function of its name, so what is proved of
  the functions holds of the linked lists and the loops over them. `Loops` has the facts about
  sequences that the loops need, `Output` is its packet buffer, `AckList` its growing array of
  acknowledgements.
- `Invariant` is what every call keeps, `Calls` what that means for the 32-bit code given any
  bytes at all, `Wraparound` the refinement of `Unbounded` by `Mod32`.
- `Network` is a system of two ends. Each keeps every datagram it ever handed out, and a step may
  deliver any of them at any time, so that loss, repetition and reordering are all included.
  `Messages` has the end-to-end theorems, and `ByteNetwork` carries them over to 32-bit code
  that exchanges encoded bytes. `StaleRun` and `StaleUna` show what happens beyond its
  hypothesis.
- `FlushLaws`, `InputLaws` and `WakeUp` tell what a flush, a datagram and the two clock calls do by
  the states before and after them, without the functions that compute it: what is sent again and
  why, how timeouts back off, when the window grows and what cuts it, when to wake up.
- `Schedule` compares `ikcp_check` with polling, and `Probing` is about the zero-window probe.

**The library around it.** `TimerHeap`, `TimerRuns` and `TimerQueue` are the timer queue, first
the heap as a value, then runs of the queue and the draining loop, then the objects with
their back-pointers. `Buffers` is the byte buffer, `Unpack` the package splitter on it, and
`TcpOutput` the output path of a connection. `LogRuns` and `AsyncLogger` are the logger's
hand-off between threads, `PollerRuns` and `Poller` the registration of descriptors. In each
pair the first module has the steps as functions and the theorems over all runs, the second
the classes whose methods are proved to take those steps.

## Hypotheses

- A control block's configuration is fixed when it is created: MTU from 50 up, windows below
  2^31, interval from 10 to 5000, minimum timeout from 30 to 100 (what `ikcp_setmtu`,
  `ikcp_wndsize` and `ikcp_nodelay` allow).
- The 32-bit theorems over two ends suppose that a packet is delivered before 2^31 newer numbers
  have been used, counting for data from the end of the receive window
  (`ByteNetwork.Recent`). For `una` that bound is exact (`StaleUna.StaleUnaIff`,
  `StaleUna.StaleUnaLosesData`); `StaleRun.StalePacketFoolsReceiver` is about data. The theorems
  about a single end (`Calls`) suppose nothing about the bytes it is given.
- `long` has 64 bits, as the length check of `ikcp_input` needs.
- Clocks, what `read`, `write` and `epoll_wait` return, and the order of threads are arbitrary
  parameters.

## Where the code does something else than one would expect

- `heapDelete` only sifts down, so a cancel can break the heap order (`TimerHeap.DeleteOrderIff`,
  `TimerRuns.CancelMisorders`).
- `ikcp_send` accepts up to 255 segments of data while the default receive window is 32; a message
  of more segments than the window jams the receiver for good (`Messages.JamForever`,
  `Messages.JamReachable`).
- With congestion control on, the first flush sends nothing (`FlushLaws.FirstFlushIsEmpty`).
- In stream mode `ikcp_send` can return -2 after it has extended the last queued segment
  (`Sender.FailedSendChangesQueue`, `Sender.StreamSendFails`).
- A free window of 65536 segments is announced as 0, since the field has 16 bits
  (`Probing.WindowComesBack`).
- The branch of `ikcp_input` that caps `cwnd` at the remote window is never taken when `cwnd`
  is below it before the growth; the model keeps the branch.
- Right after a flush `ikcp_check` answers "now" when some timeout has grown beyond 31 bits or is
  due exactly half the clock away (`Schedule.CheckAfterUpdate`, `Schedule.UntimelyReachable`).
- A send that is written whole does not call the write-complete callback but queues it; when it
  runs, bytes of a later send may be waiting (`TcpOutput.CallbackMeetsEmptyIff`,
  `TcpOutput.CallbackMeetsData`).
- `handleWriteInLoop` stops watching the socket when a write takes nothing, even if it would only
  block, and the output stalls until the next send (`TcpOutput.StalledIff`); and a `shutdown`
  that finds output waiting is forgotten (`TcpOutput.EndOfStreamIff`,
  `TcpOutput.ForgottenReachable`).
- A package length of zero or less blocks the package splitter for good (`Unpack.StuckIff`).
- The logger's thread leaves its loop without a last round (`LogRuns.StopLosesTail`).
- Enabling events on a descriptor that is on no loop goes through a null pointer
  (`PollerRuns.StepFailsIff`).

## Model

| member | source | states |
|---|---|---|
| Word32.DiffOfNear | src/third/ikcp.cpp:135-138 | `_itimediff` is the comparison of section 3.2 of RFC 1982: on words whose true values are less than 2^31 apart it gives the true difference, sign included |
| Wire.HeaderRoundTrip | src/third/ikcp.cpp:52-120 | the 24 header bytes that `ikcp_encode_seg` writes read back as the same eight fields, least significant byte first |
| Wire.HeaderLayout | src/third/ikcp.cpp:52-120 | the place of each field in the header, and the least significant byte first in each |
| Wire.ParseOfEncode | src/third/ikcp.cpp:754-853 | parser undoes printer: a datagram of any number of well-formed packets of this conversation is accepted with status 0 and yields exactly those packets, headers and payloads, in order |
| Wire.ParseGoesOn | src/third/ikcp.cpp:754-853 | whole packets are taken and what follows them decides the status, the packets before an error having been taken |
| Wire.RejectedBy | src/third/ikcp.cpp:760-779 | -1 for a header of another conversation, then -2 for data that is not all there, then -3 for an unknown command; less than a header ends the loop with 0 |
| Wire.PackingIsWhole | src/third/ikcp.cpp:936-992 | however the size checks of a flush cut the packets into datagrams: the datagrams hold exactly the packets, whole and in order, none is empty and each fits the MTU |
| Wire.PackingIsGreedy | src/third/ikcp.cpp:936-992 | and no datagram is handed out before a packet comes that does not fit it |
| Sender.SendQueuesBytes | src/third/ikcp.cpp:467-535 | `ikcp_send` queues exactly the bytes it takes over, after those already queued, in message and in stream mode, on success and on failure |
| Sender.SendSlices | src/third/ikcp.cpp:467-535 | what `ikcp_send` answers and queues: -1 exactly for a negative length, -2 exactly when more than 255 * mss bytes are left once the last queued segment is filled up in stream mode; otherwise those bytes are queued behind it in pieces of mss bytes, only the last of which is shorter, and empty only for an empty message, numbered downwards to 0 outside stream mode |
| Sender.SlicedCount | src/third/ikcp.cpp:505-508 | so the pieces are as few as can hold the data: n with (n - 1) * mss < len <= n * mss, and one for no data |
| Sender.FailedSendChangesQueue | src/third/ikcp.cpp:476-508 | a failed send has changed the queue exactly in stream mode with room in the last queued segment, and -2 comes exactly for more than 255 * mss bytes beyond that room |
| Sender.StreamSendFails | src/third/ikcp.cpp:476-517 | two sends from a new block are enough for that: the second returns -2 and has already filled up the segment of the first |
| Sender.InFlightBound | src/third/ikcp.cpp:997-1022 | a sender in its invariant has at most `snd_nxt` - `snd_una` segments in `snd_buf`, by pigeonhole on strictly increasing numbers |
| Sender.ParseUnaKeepsInv | src/third/ikcp.cpp:591-605 | for any incoming `una`: the sender invariant is kept, exactly a leading run of segments below `una` is gone, and `snd_una` does not go back |
| Sender.ParseAckKeepsInv | src/third/ikcp.cpp:569-589 | for any incoming ack: the invariant is kept, at most the one segment of that number is gone, and `snd_una` does not go back |
| Sender.ParseFastAckKeepsInv | src/third/ikcp.cpp:607-624 | counting overtaken segments changes counters only |
| Receiver.ParseDataKeepsInv | src/third/ikcp.cpp:676-725 | whatever packet arrives in whatever order: `rcv_buf` stays strictly sorted, free of duplicates and inside the window, its head waits only for a full `rcv_queue`, no ack is lost and `rcv_nxt` does not go back |
| Receiver.InsertAt | src/third/ikcp.cpp:680-707 | the backward scan finds the one place the number belongs, or finds the number already there |
| Receiver.DrainMoves | src/third/ikcp.cpp:412-423 | the drain loop moves a front part of `rcv_buf` to the end of `rcv_queue`, as long as numbers follow on and there is room, and advances `rcv_nxt` by as many |
| Receiver.DrainKeepsAccepted | src/third/ikcp.cpp:710-725 | a number that was accepted stays accepted through the drain |
| Receiver.WindowBound | src/third/ikcp.cpp:899-905 | `nrcv_buf` never exceeds `rcv_wnd`, by pigeonhole |
| Rtt.SampleKeepsBound | src/third/ikcp.cpp:541-556 | one sample computes, without overflow, the updates of sections 2.2 (first sample) and 2.3 of RFC 6298 with gains 1/8 and 1/4, keeps `srtt` and `rttval` in [0, max(limit, 1)] and `rx_rto` in [`rx_minrto`, 60000] |
| Rtt.EstimatorBound | src/third/ikcp.cpp:541-556 | the same for every sequence of samples up to any limit below 2^28 |
| Congestion.GrowKeepsAccount | src/third/ikcp.cpp:859-877 | for `mss` up to 65535, through slow start and congestion avoidance no 32-bit sum or product wraps, `cwnd` stays `incr / mss`, does not shrink, and where it grows stays within the remote window |
| Congestion.CutKeepsAccount | src/third/ikcp.cpp:1091-1112 | through fast resend and loss `cwnd` stays `incr / mss`, `ssthresh` at least 2 and `cwnd` at least 1 |
| Invariant.SendKeepsInv | src/third/ikcp.cpp:467-535 | `ikcp_send`, successful or not, keeps the invariant of the whole control block |
| Invariant.RecvKeepsInv | src/third/ikcp.cpp:356-433 | `ikcp_recv`, peeking or not, keeps it, and nothing goes back |
| Invariant.InputKeepsInv | src/third/ikcp.cpp:742-880 | a datagram of any well-formed packets, in any order and repeated at will, keeps it, and nothing goes back |
| Invariant.AdmitMoves | src/third/ikcp.cpp:1001-1022 | admission takes the head of `snd_queue` to the tail of `snd_buf`, numbered one after the other from `snd_nxt`, never past `snd_una` + window |
| Invariant.WalkKeepsSnd | src/third/ikcp.cpp:1029-1083 | the walk over `snd_buf` resends in place: same segments, same order |
| Invariant.FlushKeepsInv | src/third/ikcp.cpp:911-1113 | `ikcp_flush` keeps the invariant, and nothing goes back |
| Invariant.FlushDatagrams | src/third/ikcp.cpp:936-1089 | the datagrams a flush hands out hold exactly the acks, probes and data it writes, whole and in order, and each fits the MTU |
| Invariant.UpdateKeepsInv | src/third/ikcp.cpp:1121-1146 | `ikcp_update` at any time keeps the invariant |
| Wraparound.RecvWraps | src/third/ikcp.cpp:356-433 | 32-bit `ikcp_recv` is the image of the unbounded one |
| Wraparound.ParseDataWraps | src/third/ikcp.cpp:676-725 | 32-bit insertion and drain take the same branches as the unbounded ones |
| Wraparound.InputWraps | src/third/ikcp.cpp:742-880 | on a datagram whose live numbers are within 2^31, 32-bit `ikcp_input` is the image of the unbounded one |
| Wraparound.AnyBytes | src/third/ikcp.cpp:742-880 | any bytes at all, with success or any early error return, leave the image of a state that keeps the invariant and has not gone back |
| Wraparound.FlushWraps | src/third/ikcp.cpp:911-1113 | 32-bit `ikcp_flush` is the image of the unbounded one, and so is every datagram it hands out |
| Wraparound.UpdateWraps | src/third/ikcp.cpp:1121-1146 | the same of `ikcp_update` |
| Network.ActKeepsSystem | src/third/ikcp.cpp:742-880 | any API call at one end, including the delivery of any datagram the peer ever handed out, keeps the invariant that ties the two ends together |
| Network.ParseDataLinks | src/third/ikcp.cpp:676-725 | data is accepted before its ack is queued: what the receiver buffers carries what the sender numbered |
| Network.UnaLosesNothing | src/third/ikcp.cpp:591-605 | a segment dropped because of `una` has been accepted by the peer |
| Network.AckLosesNothing | src/third/ikcp.cpp:569-589 | a segment dropped because of an ack has been accepted by the peer |
| Network.FlushHonest | src/third/ikcp.cpp:911-1083 | every packet a flush writes is true: acks and `una` only for accepted data, data as it was numbered |
| Messages.NothingLost | src/third/ikcp.cpp:569-605 | in every run over a network that loses, repeats and reorders, in both directions: each number below `snd_nxt` is still in `snd_buf` or accepted by the receiver, and what was ever moved to `rcv_queue` is exactly the sender's segments 0 to `rcv_nxt` - 1, in order |
| Messages.RoundTrip | src/third/ikcp.cpp:356-433 | in every such run, in both directions, the bytes received are a prefix of the bytes sent, and outside stream mode the messages received are a prefix of the messages of successful sends, byte for byte with boundaries kept |
| Messages.RunTurned | src/third/ikcp.cpp:356-433 | a run with the two ends exchanged is the run exchanged, so that what is said of left to right below holds from right to left |
| Messages.SendQueuesMessage | src/third/ikcp.cpp:505-532 | outside stream mode a send queues one whole message or nothing |
| Messages.HeadMessage | src/third/ikcp.cpp:439-461 | `ikcp_peeksize` finds the head message exactly when the queue has full segments enough for its bytes |
| Messages.RecvIsNextMessage | src/third/ikcp.cpp:356-433 | `ikcp_recv` returns the next message sent, whole, exactly when the queue has full segments enough for its bytes and the caller has room; otherwise -1 for an empty queue, -2 for an incomplete message, -3 for too little room |
| Messages.FullQueueReadable | src/third/ikcp.cpp:439-461 | in every run, a full receive queue can be read, by a caller with room, exactly when its head message has at most `rcv_wnd` * mss bytes |
| Messages.JamForever | src/third/ikcp.cpp:452-452 | in every run, once a message of more than `rcv_wnd` * mss bytes is the next to be read no receive returns anything again, whatever happens later |
| Messages.JamReachable | src/third/ikcp.cpp:505-517 | one send is enough: every message of more than the peer's `rcv_wnd` * mss bytes and at most 255 * mss jams the receiver if it is the first |
| ByteNetwork.DatagramRoundTrip | src/third/ikcp.cpp:754-853 | `ikcp_input` of the peer reads back exactly the packets that a flush encoded |
| ByteNetwork.RecentIsFresh | src/third/ikcp.cpp:573-597 | a datagram whose acks and `una` are at most 2^31 numbers behind, and whose data is a receive window less than that behind, is compared correctly by every test of `ikcp_input` |
| ByteNetwork.ByteRunRefines | src/third/ikcp.cpp:135-138 | wraparound refinement: while delivered packets are that recent, two ends of 32-bit code exchanging bytes are at each moment the image of the unbounded system |
| ByteNetwork.ByteRoundTrip | src/third/ikcp.cpp:356-433 | the round trip, in both directions, for the 32-bit code over bytes |
| ByteNetwork.ByteFullQueueReadable | src/third/ikcp.cpp:439-461 | the same condition for reading a full queue, for the 32-bit code over bytes |
| ByteNetwork.ByteJamForever | src/third/ikcp.cpp:452-452 | and the same jam, while deliveries are recent |
| ByteNetwork.ByteJamReachable | src/third/ikcp.cpp:505-517 | which one send reaches |
| ByteNetwork.ByteRunTurned | src/third/ikcp.cpp:356-433 | the two ends of the 32-bit system can be exchanged too |
| StaleRun.StalePacketFoolsReceiver | src/third/ikcp.cpp:682-695 | without the bound on age it fails, by a run of API calls: after 2^32 packets, each delivered once and read, the very first one delivered again is read a second time, where unbounded numbers drop it |
| StaleUna.StaleUnaIff | src/third/ikcp.cpp:591-605 | the bound is tight for `una`: one that is `age` numbers behind `snd_una` makes the 32-bit comparison drop a segment exactly when `age` is more than 2^31, where unbounded numbers drop none |
| StaleUna.StaleUnaLosesData | src/third/ikcp.cpp:591-605 | a run of API calls that loses data so: after 2^31 + 1 acknowledged bytes, the first packet the peer ever sent arrives again and takes the byte on its way for received |
| Calls.StateStaysOk | src/third/ikcp.cpp:754-853 | after any sequence of API calls with any bytes: `snd_buf` strictly increasing in [`snd_una`, `snd_nxt`) with `snd_una` at its head, in flight at most `snd_wnd`, `rcv_buf` sorted in its window, both receive lists within `rcv_wnd`, nothing left undrained, `rx_rto` in [30, 60000] |
| Calls.NothingGoesBack | src/third/ikcp.cpp:558-605 | no call, whatever it is given, moves `snd_una` back or past `snd_nxt` |
| Calls.WindowStaysAccounted | src/third/ikcp.cpp:859-877 | over every sequence of calls with window and MTU for which no product wraps: `ssthresh` >= 2 and `cwnd` == `incr / mss` |
| Schedule.QuietUntilCheck | src/third/ikcp.cpp:1158-1194 | `ikcp_update` at any time in [now, `ikcp_check(now)`) sets the clock, flushes nothing and changes nothing else |
| Schedule.PollingIsQuiet | src/third/ikcp.cpp:1158-1194 | the same for any number of such calls, so waiting for `ikcp_check` is as good as polling every tick |
| Schedule.CheckAfterUpdate | src/third/ikcp.cpp:1121-1146 | right after an update that flushed, `ikcp_check` names a time in (now, now + interval] exactly when every segment in flight is timely; otherwise (some timeout has outgrown 31 bits, or is due exactly half the clock away) it answers `now` |
| Schedule.CheckAfterUpdate32 | src/third/ikcp.cpp:1158-1194 | the same of the 32-bit code after any sequence of API calls with any bytes |
| Schedule.PollingIsQuiet32 | src/third/ikcp.cpp:1158-1194 | and after any such sequence, polling before the time `ikcp_check` names hands out nothing and only sets the clock |
| Schedule.UntimelyReachable | src/third/ikcp.cpp:1158-1194 | a send, an update and a jump of the clock to half its range from the resend time are enough for `ikcp_check` to answer `now` right after a flush |
| WakeUp.UpdateFlushesIff | src/third/ikcp.cpp:1121-1146 | `ikcp_update` flushes exactly the first time, at or after `ts_flush`, or when that lies more than ten seconds ahead; the next flush is set an interval after the one that was due, or from now if that has passed |
| WakeUp.CheckSaysNowIff | src/third/ikcp.cpp:1158-1194 | `ikcp_check` answers `now` exactly when the block was never updated, a flush is due or some segment's resend time is not in the future |
| WakeUp.CheckNamesLeast | src/third/ikcp.cpp:1158-1194 | otherwise the wait is the least of the interval, the time to the flush and the times to the segments: not longer than any of them, and equal to one |
| InputLaws.InputLeaves | src/third/ikcp.cpp:569-624 | a datagram leaves in `snd_buf` exactly the segments that neither an `una` of it lies beyond nor an ack of it names, with `fastack` one higher exactly for those the greatest ack has overtaken |
| InputLaws.InputBytesWindow | src/third/ikcp.cpp:859-877 | on any bytes: the window grows only when the status is 0 and `snd_una` has moved; the remote window becomes the one announced last |
| InputLaws.WindowGrowsIff | src/third/ikcp.cpp:859-877 | after any calls: exactly then, below the window announced last, by one segment in slow start and else by mss^2 / incr + mss / 16 bytes; a malformed datagram and one that acknowledges nothing leave cwnd, incr and ssthresh alone |
| InputLaws.AckIsSampled | src/third/ikcp.cpp:785-788 | an ack that echoes a time not in the future makes of the estimates what RFC 6298 says, the first as the others; one from the future is no sample |
| InputLaws.FirstAckSetsTimeout | src/third/ikcp.cpp:541-556 | over every run `rx_rto` is 200 until an ack comes, and the first one makes it R + max(interval, 4 (R / 2)) in [`rx_minrto`, 60000] |
| InputLaws.PushIsOwed | src/third/ikcp.cpp:811-830 | a data packet is owed an ack exactly when it lies below the end of the window, new or not |
| FlushLaws.FlushSegments | src/third/ikcp.cpp:1000-1083 | every segment in flight after a flush: one never sent goes out with `rx_rto`, one whose time has come backs off by `rx_rto` (half of it with nodelay) and is due that much later, one overtaken often enough is sent with its timeout kept and `fastack` 0, and any other is as before; and from the queue exactly as many are numbered on and sent as the window leaves room for, the least of the two ends' windows and, unless turned off, cwnd |
| FlushLaws.FlushCuts | src/third/ikcp.cpp:1091-1112 | with any timeout cwnd is 1 and ssthresh half the send window, with fast resends alone ssthresh is half of what is in flight and cwnd that plus the threshold of fast resend, at least 2 and 1, and else both stay; `xmit` counts the timeouts, and a twentieth transmission marks the link dead |
| FlushLaws.FlushAfterCalls | src/third/ikcp.cpp:911-1113 | all of that after any calls with any bytes |
| FlushLaws.BacksOff | src/third/ikcp.cpp:1041-1045 | over any flushes between two datagrams the timeout of a segment grows by the same increment at each of its timeouts and by nothing else |
| FlushLaws.WrittenIff | src/third/ikcp.cpp:1029-1083 | after any calls a flush writes a segment exactly when it was never sent, its time has come or it was overtaken often enough, and writes it as it stands afterwards |
| FlushLaws.HeadersTell | src/third/ikcp.cpp:919-926 | after any calls every packet of a flush carries the conversation, `rcv_nxt` and the free part of the receive window, and data the time of the flush |
| FlushLaws.AckEchoes | src/third/ikcp.cpp:936-948 | after any calls, a data packet that arrives below the end of the window, new or not, is acked by the next flush with its number and time stamp |
| FlushLaws.FirstFlushIsEmpty | src/third/ikcp.cpp:1013-1016 | with congestion control on, the first flush of a block sends no data, whatever is queued, and then opens the window to 1 |
| Probing.OpenedIsTold | src/third/ikcp.cpp:425-431 | after any calls, a flush after a receive tells the window unasked exactly when the receive has made room in a full queue |
| Probing.ToldOnce | src/third/ikcp.cpp:972-994 | after any calls, a flush right after another tells no window again |
| Probing.ProbeStaysBounded | src/third/ikcp.cpp:950-970 | over every sequence of API calls with any bytes the zero-window probe interval is 0 or from 7000 to 120000 ms, and no question is left over between calls |
| Probing.ProbeSentIff | src/third/ikcp.cpp:950-994 | after any such sequence an update that flushes asks for the window exactly when the peer has announced none and the probe time has come; it then waits half as long again, at most 120 s, and leaves a running timer alone otherwise |
| Probing.WindowComesBack | src/third/ikcp.cpp:781-836 | a flush after a probe has arrived answers it, and a datagram of that flush makes the free window, in 16 bits, known where it arrives |
| Output.OutBuffer.PutSegment | src/third/ikcp.cpp:1064-1077 | one segment written to the output buffer; the buffer is handed out first when the segment does not fit |
| Output.OutBuffer.Finish | src/third/ikcp.cpp:1085-1089 | at the end of a flush the callback has been given the packing of everything written |
| Kcp.Kcp.constructor | src/third/ikcp.cpp:233-296 | a new block, its four lists linked up and empty, is `Create` of its configuration |
| Kcp.Kcp.PeekSize | src/third/ikcp.cpp:439-461 | the size of the head message, or -1 |
| Kcp.Kcp.Recv | src/third/ikcp.cpp:356-433 | the new block, its lists of nodes included, the result and the bytes copied are those of `Endpoint.Recv` |
| Kcp.Kcp.Send | src/third/ikcp.cpp:467-535 | the new block, its lists included, and the result are those of `Endpoint.Send` |
| Kcp.Kcp.UpdateAck | src/third/ikcp.cpp:541-556 | the estimator after one sample |
| Kcp.Kcp.ShrinkBuf | src/third/ikcp.cpp:558-567 | `snd_una` after a removal |
| Kcp.Kcp.ParseAck | src/third/ikcp.cpp:569-589 | an ack outside [`snd_una`, `snd_nxt`) changes nothing, any other one removes its segment |
| Kcp.Kcp.ParseFastAck | src/third/ikcp.cpp:607-624 | the same for counting overtaken segments |
| Kcp.Kcp.TakeUna | src/third/ikcp.cpp:782-783 | `Sender.ParseUna` |
| Kcp.Kcp.TakeAck | src/third/ikcp.cpp:785-798 | `Sender.ParseAck` and the estimator |
| Kcp.Kcp.TakePush | src/third/ikcp.cpp:811-830 | `Receiver.InputPush`: the ack, and the new node when the number is in the window |
| Kcp.Kcp.DecodePacket | src/third/ikcp.cpp:760-779 | one header decoded and checked in the order of the code, with its error |
| Kcp.Kcp.TakePacket | src/third/ikcp.cpp:781-852 | one turn of the loop of `ikcp_input` |
| Kcp.Kcp.GrowWindow | src/third/ikcp.cpp:859-877 | the growth of the window |
| Kcp.Kcp.Input | src/third/ikcp.cpp:742-880 | on any bytes the new block, its lists included, and the status are those of `Endpoint.InputBytes`, so its theorems hold of the loop |
| Kcp.Kcp.FlushAcks | src/third/ikcp.cpp:936-948 | the ack loop |
| Kcp.Kcp.UpdateProbe | src/third/ikcp.cpp:950-970 | the zero-window probe timer |
| Kcp.Kcp.FlushProbes | src/third/ikcp.cpp:972-994 | the probe packets |
| Kcp.Kcp.WalkSegments | src/third/ikcp.cpp:1028-1083 | the walk along the nodes, resending in place and writing |
| Kcp.Kcp.CutWindow | src/third/ikcp.cpp:1091-1112 | the window cuts |
| Kcp.Kcp.Flush | src/third/ikcp.cpp:911-1113 | the new block, its lists included, and the bytes given to the callback are those of `Endpoint.Flush` |
| Kcp.Kcp.Update | src/third/ikcp.cpp:1121-1146 | the same of `Endpoint.Update` |
| Kcp.Kcp.Check | src/third/ikcp.cpp:1158-1194 | the loop computes `Endpoint.Check` |
| AckList.AckList.Push | src/third/ikcp.cpp:630-664 | the pair is added at the end of the list and no earlier one is lost, also when the array has to grow |
| AckList.AckList.Grow | src/third/ikcp.cpp:635-658 | the new array is 8 or less than twice what is needed, and holds the same pairs |
| AckList.AckList.Get | src/third/ikcp.cpp:666-670 | the pair at that place |
| IQueue.Add | src/third/ikcp.h:165-167 | in a ring of mutually inverse links, `IQUEUE_ADD` after any member gives the ring with the node inserted there |
| IQueue.AddTail | src/third/ikcp.h:169-171 | `IQUEUE_ADD_TAIL` gives the ring with the node at the end |
| IQueue.Del | src/third/ikcp.h:175-178 | `IQUEUE_DEL` gives the ring without the entry, whose links become null |
| SegmentQueues.Queues.Append | src/third/ikcp.cpp:528-530 | on nodes that carry segments: the new one joins the end of one of the four lists, no other list changes, and every node stays in at most one list, in one place |
| SegmentQueues.Queues.InsertAfter | src/third/ikcp.cpp:700-704 | a new one goes in behind any place of one list; the same is kept |
| SegmentQueues.Queues.Delete | src/third/ikcp.cpp:579-582 | one leaves its list and is in none, and the walk goes on at its successor; the same is kept |
| SegmentQueues.Queues.MoveFirst | src/third/ikcp.cpp:1005-1010 | the first of one list becomes the last of another; the same is kept |
| SegmentQueues.Queues.ParseUna | src/third/ikcp.cpp:591-605 | deleting during the walk, the links of `snd_buf` become a ring of the segments of `Sender.DropBelow` |
| SegmentQueues.Queues.ParseAck | src/third/ikcp.cpp:569-589 | the walk stops and deletes so that the ring holds `Sender.RemoveAcked` |
| SegmentQueues.Queues.ParseFastAck | src/third/ikcp.cpp:607-624 | counting in the nodes, the ring holds `Sender.BumpBefore` |
| SegmentQueues.Queues.InsertReceived | src/third/ikcp.cpp:680-707 | the backward scan over `prev`, to the head if need be, links the node in so that the ring holds `Receiver.Insert` |
| SegmentQueues.Queues.DrainReceived | src/third/ikcp.cpp:412-423 | nodes move from ring to ring so that the two hold `Receiver.Drain`, with the counters and `rcv_nxt` |
| SegmentQueues.Queues.ParseData | src/third/ikcp.cpp:676-725 | scan, link and drain on nodes give `Receiver.ParseData` |
| SegmentQueues.Queues.PeekSize | src/third/ikcp.cpp:439-461 | the walk over nodes gives `Receiver.PeekSize` |
| SegmentQueues.Queues.MergeFragments | src/third/ikcp.cpp:382-407 | reading and deleting during the walk: the bytes of `MergeData`, and the ring loses `MergeCount` entries unless it peeks |
| SegmentQueues.Queues.Recv | src/third/ikcp.cpp:356-433 | on nodes, the result and the two rings are those of `Receiver.Recv`; it needs nothing but the lists as every call leaves them |
| SegmentQueues.Queues.ExtendTail | src/third/ikcp.cpp:476-497 | a longer copy is linked in behind the last segment, which is then deleted: the ring holds `Sender.Extend` |
| SegmentQueues.Queues.QueueFragments | src/third/ikcp.cpp:513-532 | the fragments of `Sender.Fragments` join the ring |
| SegmentQueues.Queues.Send | src/third/ikcp.cpp:467-535 | on nodes, the result and the ring are those of `Sender.Send`, also when it fails after extending |
| SegmentQueues.Queues.AdmitSegments | src/third/ikcp.cpp:1000-1022 | nodes move from ring to ring and are filled in so that the two hold `Endpoint.Admit` |
| TimerHeap.InsertOrders | src/net/TimerQueue.cpp:72-78 | insertion keeps the heap order |
| TimerHeap.DeleteOrderIff | src/net/TimerQueue.cpp:92-101 | `heapDelete`, which only sifts down, keeps the heap order exactly when the timer moved into the hole is not earlier than the hole's parent |
| TimerHeap.DeleteBreaksOrder | src/net/TimerQueue.cpp:92-101 | otherwise that timer stays in the hole, earlier than its parent |
| TimerHeap.InsertContents | src/net/TimerQueue.cpp:72-78 | insertion adds the one timer to the contents |
| TimerHeap.DeleteContents | src/net/TimerQueue.cpp:92-101 | deletion takes the one timer out of the contents |
| TimerHeap.RootIsEarliest | src/net/TimerQueue.cpp:47-53 | in an ordered heap nothing is earlier than the root that `checkTimers` looks at |
| TimerRuns.RunStaysOrdered | src/net/TimerQueue.cpp:30-45 | over any run of adds, pops and cancels the heap stays ordered as long as every cancel meets that condition |
| TimerRuns.SevenTimersReachable | src/net/TimerQueue.cpp:30-34 | the heap of timers 1, 10, 2, 11, 12, 20, 4 is reachable |
| TimerRuns.CancelMisorders | src/net/TimerQueue.cpp:92-101 | a run that adds these and cancels the 11 leaves the heap out of order: the draining loop then fires them as 1, 2, 10, 4, 12, 20 |
| TimerRuns.PerformContents | src/net/TimerQueue.cpp:30-45 | a cancelled timer is gone and only that one; an added one is there under a new number, due its delay from now |
| TimerRuns.PopContents | src/net/TimerQueue.cpp:55-70 | after a pop the fired timer is gone, or back at its interval from now if it repeats, and the others are as before |
| TimerRuns.RunTimers | src/net/EventLoop.cpp:220-226 | with the clock standing still the loop ends, repeating timers included, and leaves nothing due: each turn leaves fewer timers strictly before now |
| TimerRuns.FiresAllInOrder | src/net/EventLoop.cpp:220-226 | from an ordered heap and with callbacks that only add timers, it fires exactly the timers that were due, each once, in order of time |
| TimerQueue.TimerQueue.HeapSwap | src/net/TimerQueue.cpp:147-152 | two places exchanged, both timers told their new index |
| TimerQueue.TimerQueue.HeapUp | src/net/TimerQueue.cpp:133-145 | the loop computes `TimerHeap.Up` |
| TimerQueue.TimerQueue.HeapDown | src/net/TimerQueue.cpp:103-131 | the loop computes `TimerHeap.Down` |
| TimerQueue.TimerQueue.HeapInsert | src/net/TimerQueue.cpp:72-78 | computes `TimerHeap.Insert`; every timer knows its place |
| TimerQueue.TimerQueue.HeapPop | src/net/TimerQueue.cpp:80-90 | null on an empty heap, otherwise the root, and `TimerHeap.Delete` of place 1 |
| TimerQueue.TimerQueue.HeapDelete | src/net/TimerQueue.cpp:92-101 | false out of range, otherwise `TimerHeap.Delete` |
| TimerQueue.TimerQueue.AddTimer | src/net/TimerQueue.cpp:30-34 | `heap[i].heapIndex == i`, and the heap's timers are exactly the map's values: kept, with the timer in both |
| TimerQueue.TimerQueue.CreateTimer | src/net/TimerQueue.cpp:23-28 | the timer has a number no timer of the queue has |
| TimerQueue.TimerQueue.CancelTimer | src/net/TimerQueue.cpp:36-45 | the same kept; a number that is not in the map changes nothing |
| TimerQueue.TimerQueue.CheckTimers | src/net/TimerQueue.cpp:47-53 | whether the root is strictly before now |
| TimerQueue.TimerQueue.PopTimer | src/net/TimerQueue.cpp:55-70 | the same kept; a repeating timer is back in the heap at its next time, any other one is in neither |
| TimerQueue.TimerQueue.StartTimer | src/net/EventLoop.cpp:135-142 | the step `Add` of a run: `createTimer` always gives a number `addTimer` can take |
| Buffers.PeekedOfBigEndian | src/net/Buffer.h:182-188 | `peekInt32` gives back, sign included, what `appendInt32` wrote |
| Buffers.BigEndianLayout | src/net/Buffer.h:127-131 | and that is most significant byte first |
| Buffers.Buffer.Retrieve | src/net/Buffer.h:51-62 | the first `len` bytes leave the queue |
| Buffers.Buffer.RetrieveAs | src/net/Buffer.h:81-87 | the first `len` bytes, in order, and they leave the queue |
| Buffers.Buffer.ShiftToFront | src/net/Buffer.h:241-249 | the overlapping forward copy moves the readable bytes to the front unharmed |
| Buffers.Buffer.MakeSpace | src/net/Buffer.h:235-251 | room for `len` bytes by either branch, same contents, its assertion holds, and the array is replaced exactly when the contents and `len` together do not fit it |
| Buffers.Buffer.EnsureWritableBytes | src/net/Buffer.h:226-233 | its assertion holds |
| Buffers.Buffer.Append | src/net/Buffer.h:104-109 | the bytes join the end of the queue |
| Buffers.Buffer.AppendInt32 | src/net/Buffer.h:127-131 | four bytes join the end of the queue, from which the number can be read |
| Buffers.Buffer.PeekInt32 | src/net/Buffer.h:182-188 | the signed number at the head of the queue, most significant byte first |
| Buffers.Buffer.ReadFd | src/net/Buffer.cpp:14-42 | for any result of `readv`, the scattered bytes join the end of the queue in order, also through the extra buffer; an error changes nothing |
| Buffers.Buffer.ReadFrom | src/net/Buffer.cpp:44-59 | a datagram joins the end of the queue |
| Unpack.DrainInTwo | src/net/handler/UnpackHandler.cpp:12-32 | unpacking what has arrived and going on later gives the same packages as unpacking it all at once |
| Unpack.ChunkingIsInvisible | src/net/handler/UnpackHandler.cpp:12-32 | the packages do not depend on how the stream is cut into reads, for any header length of at least 4 |
| Unpack.UnpackOfFrames | src/net/handler/UnpackHandler.cpp:12-32 | framed packages come out as they went in, in order |
| Unpack.PackagesSurviveChunking | src/net/handler/UnpackHandler.cpp:12-32 | of a stream of frames cut anywhere, exactly the packages that arrived whole come out |
| Unpack.StuckIff | src/net/handler/UnpackHandler.cpp:12-32 | some continuation completes a package exactly when the length at the head is positive: otherwise nothing is ever unpacked again |
| Unpack.Process | src/net/handler/UnpackHandler.cpp:12-32 | one call over the buffer: the first package leaves it whole, or nothing changes |
| Unpack.ProcessAll | src/net/handler/UnpackHandler.cpp:12-32 | calls until one fails take all the packages that are there |
| Unpack.Receive | src/net/Buffer.cpp:14-42 | reads into the buffer, each as large as `readv` makes it with the room there is then, unpacked after each, give the packages of the whole stream |
| TcpOutput.FaithfulStream | src/net/tcp/TcpConnection.cpp:90-134 | for every pattern of short writes and refusals, what the socket took followed by the output buffer is what was sent, apart from sends that met a broken connection; and the socket is watched for writing only while the buffer is not empty |
| TcpOutput.NothingMissingIff | src/net/tcp/TcpConnection.cpp:112-126 | it is all that was sent exactly when no send with data met EPIPE or ECONNRESET |
| TcpOutput.CompletionIsHonest | src/net/tcp/TcpConnection.cpp:172-184 | `handleWrite` calls the write-complete callback exactly when it empties the buffer, and the socket has then taken everything that was sent and not dropped on a broken connection |
| TcpOutput.CallsAreCounted | src/net/tcp/TcpConnection.cpp:101-109 | the write-complete callback is called once for each queued call that runs and once for each write event that empties the buffer |
| TcpOutput.CallbacksInOrder | src/net/tcp/TcpConnection.cpp:101-109 | a send that is written whole queues the callback instead: those queued and not yet run are exactly the latest of such sends, one each, in order |
| TcpOutput.CallbackMeetsEmptyIff | src/net/tcp/TcpConnection.cpp:101-109 | a queued callback finds everything taken by the socket exactly when no send since the one that queued it has left bytes that were not written since |
| TcpOutput.CallbackMeetsData | src/net/tcp/TcpConnection.cpp:101-109 | two sends in a row are enough for it to come with bytes still in the buffer |
| TcpOutput.WritesDrain | src/net/tcp/TcpConnection.cpp:172-184 | write events that each take something empty the buffer within as many events as it has bytes |
| TcpOutput.StalledIff | src/net/tcp/TcpConnection.cpp:185-189 | the output stalls, with bytes queued and the socket not watched, exactly when the last refused write event was not followed by a send with data |
| TcpOutput.StalledStays | src/net/tcp/TcpConnection.cpp:168-195 | and while stalled nothing more is written |
| TcpOutput.StallReachable | src/net/tcp/TcpConnection.cpp:185-189 | a would-block answer is enough to stall |
| TcpOutput.ShutdownIff | src/net/tcp/TcpConnection.cpp:61-74 | `shutdown` closes the writing side at once exactly when the socket is not watched, and the peer then has the whole stream exactly when the output was not stalled |
| TcpOutput.EndOfStreamIff | src/net/tcp/TcpConnection.cpp:61-74 | over every run: the peer sees the end of the stream exactly when there was a shutdown and the first one found the socket not watched, and has then everything sent before it and not dropped exactly when the output was not stalled |
| TcpOutput.FirstShutdownDecides | src/net/tcp/TcpConnection.cpp:61-74 | what the first shutdown leaves is final: later shutdowns do nothing, and once the socket is shut down nothing more reaches it |
| TcpOutput.ShutdownIsForgotten | src/net/tcp/TcpConnection.cpp:61-74 | a shutdown that finds the socket watched never closes it, whatever comes later |
| TcpOutput.ForgottenReachable | src/net/tcp/TcpConnection.cpp:61-74 | also not when everything has been written: a short write, the shutdown and the write event that empties the buffer are enough |
| TcpOutput.TcpConnection.SendInLoop | src/net/tcp/TcpConnection.cpp:90-134 | its assertion holds and the new state is `SendStep`, with one more callback queued when all is written at once |
| TcpOutput.TcpConnection.RunCallback | src/net/EventLoop.cpp:206-218 | one queued callback runs |
| TcpOutput.TcpConnection.HandleWriteInLoop | src/net/tcp/TcpConnection.cpp:168-195 | the new state is `WritableStep` |
| TcpOutput.TcpConnection.Shutdown | src/net/tcp/TcpConnection.cpp:61-74 | the new state is `ShutdownStep` |
| LogRuns.NothingLost | src/base/AsyncLogger.cpp:58-104 | in every interleaving of appending threads with the writer: file, buffers in flight, queued buffers and current buffer hold exactly the lines shorter than 131072 bytes given to `append`, whole, once, in the order of the lock |
| LogRuns.AppendRotatesIff | src/base/AsyncLogger.cpp:58-69 | a line starts a new buffer exactly when it and a byte more do not fit the current one |
| LogRuns.FileIsPrefix | src/base/AsyncLogger.cpp:90-96 | at every moment the file is a prefix of those lines, none of them cut |
| LogRuns.RoundIsDurable | src/base/AsyncLogger.cpp:78-103 | a finished round has written exactly the lines appended before it took the buffers |
| LogRuns.StopLosesTail | src/base/AsyncLogger.cpp:114-122 | once the writer has left its loop, what is missing from the file is exactly the lines of appends after it last took the buffers, and the file is complete exactly when there was no such append of a line shorter than 131072 bytes |
| LogRuns.UntakenIsTail | src/base/AsyncLogger.cpp:78-88 | at every moment of every run the buffers that wait for the writer hold exactly those lines |
| LogRuns.TailCanBeLost | src/base/AsyncLogger.cpp:76-76 | a line appended before the stop can be missing |
| AsyncLogger.FixedBuffer.Append | src/base/AsyncLogger.h:27-34 | the line is copied whole, or ignored when it does not fit |
| AsyncLogger.AsyncLogger.Append | src/base/AsyncLogger.cpp:58-69 | the step of `append`; no buffer is in two hands |
| AsyncLogger.AsyncLogger.Take | src/base/AsyncLogger.cpp:79-88 | the swap; the buffer that becomes current is empty and in nobody else's hands |
| AsyncLogger.AsyncLogger.Write | src/base/AsyncLogger.cpp:91-96 | one buffer appended to the file |
| AsyncLogger.AsyncLogger.Finish | src/base/AsyncLogger.cpp:101-102 | the spare buffer is emptied only after it was written |
| PollerRuns.StepFailsIff | src/net/poller/EPollPoller.cpp:33-84 | an operation fails an assertion, meets a null loop or is refused by the kernel exactly when it enables events on a descriptor that is on no loop |
| PollerRuns.KernelMirrors | src/net/poller/EPollPoller.cpp:33-84 | over any operations without that misuse on any descriptors: the kernel's interest set is exactly the attached descriptors with non-zero events, with those masks; status is ADDED exactly for non-zero events; a detached descriptor is as created |
| PollerRuns.WatchedAsAsked | src/net/fd/IOFd.cpp:36-84 | over any such operations the kernel watches a descriptor for reading exactly when the last call about its reading enabled it, for writing likewise, and for nothing else |
| PollerRuns.SetEventsKeeps | src/net/fd/IOFd.cpp:36-84 | changed events of an attached descriptor always reach the kernel |
| PollerRuns.DetachKeeps | src/net/fd/IOFd.cpp:171-186 | a detach leaves the descriptor as created |
| Poller.IOFd.EnableReadInLoop | src/net/fd/IOFd.cpp:36-43 | the step `EnableRead` |
| Poller.IOFd.EnableWriteInLoop | src/net/fd/IOFd.cpp:45-52 | the step `EnableWrite` |
| Poller.IOFd.DisableReadInLoop | src/net/fd/IOFd.cpp:54-61 | the step `DisableRead` |
| Poller.IOFd.DisableWriteInLoop | src/net/fd/IOFd.cpp:63-70 | the step `DisableWrite` |
| Poller.IOFd.DisableAllInLoop | src/net/fd/IOFd.cpp:72-79 | the step `DisableAll` |
| Poller.IOFd.AttachInLoop | src/net/fd/IOFd.cpp:149-169 | the step `Attach`; there are never events to pass on |
| Poller.IOFd.DetachInLoop | src/net/fd/IOFd.cpp:171-186 | the step `Detach`, after which the destructor's assertions hold |
| Poller.EPollPoller.UpdateFd | src/net/poller/EPollPoller.cpp:33-67 | the poller's assertions hold, the kernel accepts the call, and map, status and interest set are those of `Update` |
| Poller.EPollPoller.RemoveFd | src/net/poller/EPollPoller.cpp:69-84 | the same of `Remove` |

## Left out

- `ikcp_setmtu`, `ikcp_wndsize`, `ikcp_nodelay`, `ikcp_interval` after the first send: the configuration is fixed at creation.
- `ikcp_log`, `ikcp_canlog`, `ikcp_qprint`, the allocator hooks, `ikcp_release`, `ikcp_waitsnd`, `ikcp_getconv`: no state of the protocol depends on them, and memory is never short in the model.
- Kcp.Kcp.Flush: the output callback is a list of the byte strings it is given; a callback that calls back into the control block is not modelled. `dead_link` has its default 20.
- Fields of a queued segment that the code leaves unset until `ikcp_flush` fills them are not in the model: `Sender` and `Receiver` have a record for each list.
- ByteNetwork.ByteRunRefines: supposes that delivered packets are younger than half the number space; eventual delivery is not claimed.
- Rtt.EstimatorBound: samples of 2^28 ms and more, for which the code's arithmetic can overflow, are outside the bound.
- Congestion.GrowKeepsAccount: for an MTU above 65559 `mss * mss` wraps and nothing is claimed; `Calls.WindowStaysAccounted` names the window sizes for which a cut window, counted in bytes, fits a word.
- Timer delays are whole milliseconds; the conversion from a float number of seconds, the wrap-around of the timer counter after 2^31 timers, and a callback that destroys its queue are left out.
- TimerRuns.FiresAllInOrder: a callback that cancels timers during the drain may break the order, as any cancel may; termination is proved with such callbacks too.
- `Buffer::readInt8` to `readInt64` retrieve as many bytes as the number has bits; the model uses `peekInt32` and `retrieve`. The 8-, 16- and 64-bit variants of append and peek would only repeat the 32-bit ones.
- `Pipeline::process` and the lifetime of `HandlerData` objects: `Unpack` calls `process` directly.
- TcpOutput.TcpConnection.SendInLoop: the socket is whatever `write` returns and a flag for its write interest; logging and the text of errors are left out, and so are the reading side of the connection beyond `Unpack.Receive`, `close` and the status values kConnecting and kDisconnected.
- `TcpClient`, `TcpConnector`, `TcpServer`, the UDP classes and the acceptors: wiring of callbacks around sockets.
- AsyncLogger.AsyncLogger.Write: the file is the sequence of bytes appended to it; `flush`, `setPath` and file errors are left out, and the condition variable only delays the writer.
- Poller.IOFd.AttachInLoop: one loop. A second loop in a thread is fatal, and the assertions on threads stop an attach while the descriptor is on the loop of another thread, so the branch that detaches from another loop is not modelled. `handleEvent` and `epoll_wait` are left out.
- `EventLoop::queueInLoop` and `runFunctors`: a swap of one vector under a lock, of which the logger's hand-off is the harder case.
- `ThreadPool`, `CountDownLatch`, `EventLoopCluster`, `ObjectBinder`: small, with no invariant that spans operations.
