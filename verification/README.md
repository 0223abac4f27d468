# Verification of the game server's transport, rooms and gate link

This project models four parts of the game server and proves what they are for.

**The KCP engine** (`kcpsess/ikcp.c`, `kcpsess/ikcp.h`), a selective-repeat ARQ over datagrams.
`Engine` states each C function as a function on values, with the same branches, error returns and
32-bit arithmetic, once for wrapping and once for unbounded sequence numbers. `Kcp` is the control
block as C keeps it, a class whose methods update fields, lists, the growing ack list and the
output buffer in place; each method is proved to compute its `Engine` function, and `Flush` to
output exactly the bytes of its datagrams. `IQueue` does the same for the intrusive lists: link
rewrites and list walks are the sequence operations the rest uses. On top of that:

- `Serial`, `Refinement`: sequence comparison is serial-number arithmetic as in section 3.2 of
  RFC 1982; as long as nothing is 2^31 numbers late, the 32-bit engine is the unbounded one.
- `System`, `Safety`, `Runs`: two endpoints and a network that is the set of all datagrams ever
  sent, so loss, duplication, reordering and delay are runs like any other. End-to-end safety, no
  segment lost, `snd_una` bounded by the first segment the peer does not hold.
- `Progress`, `Ahead`: what one round trip in which nothing is lost achieves when all timers have run
  out, and when `snd_una` runs ahead of `rcv_nxt`.
- `Liveness`, `Delivery`: endpoints that flush in `ikcp_update` only, as the server's main loop does
  (kcpsess/sessServer.cpp:132-139). A bounded number of round trips delivers everything; each needs
  only the timer of the oldest unacknowledged segment to have run out. Such round trips always exist.
- `Messages`, `Reorder`: whole messages in order, which of them can be received, and confluence of
  the reorder buffer.
- `Endpoint`: one endpoint fed arbitrary bytes: window shape, packing, flush/parse round trip,
  congestion and timeout ranges. `Window`, `Sending`, `Congestion` hold the single steps;
  congestion control follows section 3.1 of RFC 5681 with an extra `mss / 16`, the estimator
  section 2 of RFC 6298 with another minimum.
- `Timers`, `Skips`: when a segment is transmitted again, over any run: exactly when its wait since
  the last transmission is over, with the growth of that wait, or when datagrams passed over it.
- `Reaction`: how flushes and datagrams move the congestion window, the flight, the round-trip
  estimate, the window probes and announcements.
- `Schedule`: the flush clock of `ikcp_update` and `ikcp_check`: no drift, and the exact wake-up time.

**The rooms** (`core/room.cpp`): `Room` states the lockstep clock, the command log and the object
pools as functions, `Lockstep` has the classes, `Rooms` proves the steps of one room beside others,
and `Lobby` whole runs of a server with many rooms; `Ending` says which tick finishes a room, `Roster`
who is in it.

**The gate link** (`recvBuff.cpp`, `tcpclient.cpp`): `Rpc` states the frame codec, the stream
reassembler and the send caches; `TcpClient` fills the arrays in place.

**The outgoing byte queue** of a connection (`conn.cpp`): `Conn`.

## Where the code differs from the obvious claim

- `ikcp_send` in stream mode may return -2 after extending the last segment
  (`Sending.RefusedAfterExtending`; exactly when, `Sending.RefusedWithEffect`). "Accepted" means
  what was appended (`Sending.SendBytes`).
- `snd_una` may run ahead of the peer's `rcv_nxt` (`Ahead.SndUnaAhead`): segments parked behind a
  full receive queue are acked. With room in the queue it does not (`Runs.UnaBehind`;
  exactly when, after any loss-free round trip, `Ahead.AheadAfterRound`). The bound that always
  holds is the first segment the peer does not hold (`Runs.UnaIsHeld`).
- `ikcp_send` takes messages of up to 255 fragments, whatever the peer's receive window, and one
  with more fragments than that window blocks the connection for good (`Messages.OversizedBlocks`).
- The clamp of `cwnd` to `rmt_wnd` (kcpsess/ikcp.c:872-875) is unreachable (`Congestion.ClampIsDead`).
- Without `fastresend`, `ssthresh + resent` wraps: the branch that would use it cannot be taken
  before 2^32 - 1 skips, and then gives `ssthresh - 1` (`Congestion.ResentWindow`).
- `decodeBuffer` copies the result from its length byte on (recvBuff.cpp:277-278), so the result
  field never arrives; nothing reads it. Names longer than 255 bytes are cut (`Rpc.NamesArrive`).
- `AppendSend` compares the room left with the size of a frame without its 4-byte length
  (`Rpc.RoomCheckCounterexample`, `Rpc.FitsExactly`).
- The final record of a room lacks the commands that came after its last frame
  (`Lobby.FinalRecordCounterexample`; exactly when, `Lobby.FinalRecord` and `Lobby.FinalRecordAtTick`),
  and the frame object they wait in is neither logged nor recycled (`Lobby.ObjectsAccounted`).

## Model

| member | source | states |
|---|---|---|
| Serial.DiffIsExact | kcpsess/ikcp.c:135-138 | the signed 32-bit difference of two wrapped numbers is their true difference if and only if that lies in [-2^31, 2^31) |
| Serial.WrapInjective | kcpsess/ikcp.c:569-582 | for numbers less than 2^32 apart, equal 32-bit forms mean equal numbers, both ways |
| Wire.DecodeSegRoundTrip | kcpsess/ikcp.c:754-771 | decoding an encoded segment gives back every field and the payload, whatever bytes follow |
| Wire.DecodeAllRoundTrip | kcpsess/ikcp.c:754-852 | the decode loop inverts the encoder on any list of well-formed segments and reports no error |
| Wire.MalformedTail | kcpsess/ikcp.c:754-783 | after well-formed segments a piece of another decides the return code: fewer than 24 bytes are ignored, then a foreign conversation gives -1, a payload cut short -2, an unknown command -3, in this order; what came before is processed |
| Wire.HeaderLayout | kcpsess/ikcp.c:886-897 | the header is 24 bytes: conv, cmd, frg, wnd, ts, sn, una and len at their offsets, least significant byte first |
| Wire.PackProperties | kcpsess/ikcp.c:937-947 | packing segments into datagrams keeps every segment once and in order; no datagram is empty or above the mtu, and none has room for the segment that starts the next |
| Sending.SendBytes | kcpsess/ikcp.c:467-535 | a send extends the byte stream held by the queue by exactly the bytes taken: all of them on success, and on the -2 return what the last segment absorbed |
| Sending.SendRefused | kcpsess/ikcp.c:476-513 | -2 is returned if and only if what is left after extending the last segment needs more than 255 fragments |
| Sending.RefusedAfterExtending | kcpsess/ikcp.c:476-508 | "a refused send changes nothing" is false: in every stream-mode configuration there are a queue and a buffer with a -2 return and bytes taken |
| Sending.RefusedWithEffect | kcpsess/ikcp.c:476-508 | it fails if and only if, in stream mode, the last segment has room and what does not fit into it needs more than 255 fragments |
| Sending.SendKeepsSizes | kcpsess/ikcp.c:505-532 | every queued segment keeps to the mss and to an 8-bit fragment number |
| Sending.SendKeepsPacking | kcpsess/ikcp.c:476-532 | in stream mode every queued segment but the last stays exactly full |
| Endpoint.PackingInvariant | kcpsess/ikcp.c:467-535 | in stream mode, over any interleaving of sends, receives, inputs, flushes and updates, every queued segment but the last is exactly mss bytes |
| Window.DropUntilContents | kcpsess/ikcp.c:591-605 | the cumulative ack removes exactly the segments below it and keeps the rest sorted |
| Window.RemoveSnContents | kcpsess/ikcp.c:569-589 | the selective ack removes exactly the segment it names |
| Window.InputAcksKeeps | kcpsess/ikcp.c:781-790 | one decoded segment keeps the send window, moves its ends forward only, and removes from the buffer exactly what it acknowledges |
| Window.ParseFastAckKeeps | kcpsess/ikcp.c:607-624 | fast-ack counting keeps the send window and every segment in it |
| Skips.InputCounts | kcpsess/ikcp.c:839-856 | in every reachable state, a datagram of the peer gives each segment still unacknowledged one skip more if it acknowledges a later segment, and changes nothing else of it; the C state is the wrapped one |
| Skips.RunSkips | kcpsess/ikcp.c:607-624 | over any run, the count of a segment that stays unacknowledged and is not resent early grows by exactly the number of datagrams that acknowledge later segments |
| Skips.SkippedIsSent | kcpsess/ikcp.c:1052-1058 | from any reachable state on, a segment that stays unacknowledged while fastresend datagrams acknowledge later ones is in the datagrams of the next flush, unless one in between resent it for that reason |
| Window.AdmitForm | kcpsess/ikcp.c:1002-1023 | the numbering loop in closed form: the next segments of the queue, in order, with consecutive numbers, as many as the window has room for |
| Window.FlushKeepsSender | kcpsess/ikcp.c:998-1090 | a flush keeps the send window and numbers exactly that prefix of the queue |
| Window.InsertContents | kcpsess/ikcp.c:688-706 | the backward scan inserts a new number at its place, ignores a repeated one, and keeps the reorder buffer sorted |
| Window.DrainForm | kcpsess/ikcp.c:411-423 | draining moves some number of consecutive segments from the buffer to the tail of the queue and stops only at a gap or a full queue |
| Window.ParseDataKeeps | kcpsess/ikcp.c:676-725 | a data segment keeps the receive window: sorted inside [rcv_nxt, rcv_nxt + rcv_wnd), drained, and holding what it held before and the new number |
| Window.InputPushKeeps | kcpsess/ikcp.c:805-829 | the PUSH branch keeps the receive window and acks every segment below the window end, held or not |
| Window.RecvKeeps | kcpsess/ikcp.c:356-433 | a receive keeps the receive window and advances rcv_nxt by what it drains |
| Window.BufferFits | kcpsess/ikcp.c:688-706 | the reorder buffer never holds more than rcv_wnd segments |
| Refinement.InputWraps | kcpsess/ikcp.c:742-880 | a datagram that is not stale is processed on 32-bit numbers as it would be on unbounded ones, acks, una, fast acks and data alike |
| Refinement.InputSegWraps | kcpsess/ikcp.c:781-829 | the same for one decoded segment |
| Refinement.ParseFastAckWraps | kcpsess/ikcp.c:607-624 | fast-ack counting agrees on wrapped and unwrapped numbers |
| Refinement.ParseDataWraps | kcpsess/ikcp.c:676-725 | reordering agrees on wrapped and unwrapped numbers |
| Refinement.AdmitWraps | kcpsess/ikcp.c:1002-1023 | the flush window loop agrees on wrapped and unwrapped numbers |
| Refinement.FlushWraps | kcpsess/ikcp.c:911-1114 | a flush on 32-bit numbers leaves the wrapped state and emits the wrapped segments |
| Refinement.RecvWraps | kcpsess/ikcp.c:356-433 | a receive agrees on wrapped and unwrapped numbers |
| Refinement.UpdateWraps | kcpsess/ikcp.c:1122-1147 | an update takes the same decision and, when it flushes, emits the wrapped segments |
| Runs.FreshIsTimely | kcpsess/ikcp.c:742-880 | in every reachable state a datagram not 2^31 numbers late meets all the bounds the comparisons need |
| Runs.InputRefines | kcpsess/ikcp.c:742-880 | in every reachable state the C input of a datagram's bytes is the unbounded input of the segments it was made from |
| Runs.UnaIsHeld | kcpsess/ikcp.c:558-605 | snd_una never passes the first segment the peer does not hold |
| Runs.UnaBehind | kcpsess/ikcp.c:716-725 | snd_una is ahead of the peer's rcv_nxt only past a segment parked behind a full receive queue; with room in the queue it never is |
| Ahead.AheadAfterRound | kcpsess/ikcp.c:805-829 | after a round trip of any two endpoints in which the timers had run out and nothing is lost, snd_una is ahead if and only if the receive queue is full and a segment behind it was numbered |
| Ahead.SecondIsListed | kcpsess/ikcp.c:805-829 | once the segment rcv_nxt waits for has arrived, the one just behind the old window end is acknowledged as well |
| Ahead.FlushOrder | kcpsess/ikcp.c:1030-1084 | with everything due, a flush transmits smaller numbers first |
| Ahead.SndUnaAhead | kcpsess/ikcp.c:811-829 | a run of the C program in which it is: two segments, a receive window of one, both acknowledged |
| Runs.WindowsClose | kcpsess/ikcp.c:682-686 | snd_una is at most the end of the peer's window and snd_nxt at most one send window further; the peer's rcv_nxt is at most snd_nxt |
| Runs.RunKeeps | kcpsess/ikcp.c:742-880 | every run of the two-endpoint system keeps the whole connection invariant |
| Runs.EndToEnd | kcpsess/ikcp.c:356-1114 | end-to-end safety over every run with loss, duplication, reordering and delay, both ways: returned bytes and those queued are a prefix of the accepted ones, every numbered segment is in the send buffer or with the peer, and the C state is the wrapped unbounded one |
| Messages.PeekIsMerged | kcpsess/ikcp.c:370-409 | for every queue, the size peeked is the size the merge loop copies, so the assertion cannot fail |
| Messages.RecvReturnsNext | kcpsess/ikcp.c:356-433 | a successful receive in message mode returns exactly the next message sent |
| Messages.WholeMessages | kcpsess/ikcp.c:370-409 | over every run in message mode, the receives have returned exactly the first messages sent, whole and in order |
| Messages.ReceivesExactly | kcpsess/ikcp.c:356-433 | in every reachable state a receive in message mode succeeds if and only if there is a next message, all its fragments are in the queue and the buffer is long enough, and then returns that message |
| Messages.OversizedBlocks | kcpsess/ikcp.c:451-509 | a message with more fragments than the peer's receive window is sent but never returned, nor anything after it, over every run |
| Messages.FullQueueIsRead | kcpsess/ikcp.c:439-461 | a full receive queue holds the next message whole if and only if that message has no more fragments than the receive window |
| Messages.SumIsMerged | kcpsess/ikcp.c:453-458 | the peek loop adds up exactly the segments the merge loop copies |
| Progress.RoundClearsWindow | kcpsess/ikcp.c:569-605 | with every timer expired, one flush and its answer, both delivered, remove every send-buffer segment inside the peer's window and advance snd_una accordingly |
| Progress.RoundStaysPaired | kcpsess/ikcp.c:937-949 | that round leaves the connection invariant, hence the refinement, in place |
| Liveness.EverythingArrives | kcpsess/ikcp.c:742-1147 | liveness, with all flushes in ikcp_update: two cycles for every segment not yet received (and one more if the receive queue is full at the start) are enough, after any run; a cycle is any waiting with loss, an update at which the oldest unacknowledged segment's timer (or the window probe's) has run out, the receiver's next flushing update, both without loss, and reading that leaves room; then exactly the accepted bytes are read or queued |
| Liveness.CycleMoves | kcpsess/ikcp.c:898-1147 | one cycle never moves rcv_nxt back; with room in the queue it moves it forward, or leaves all before it acknowledged and both windows open, from where the next cycle moves it |
| Progress.Arrived | kcpsess/ikcp.c:676-725 | a delivered flush of all timers brings rcv_nxt to the end of what was numbered or the queue to its limit |
| Liveness.HeadSent | kcpsess/ikcp.c:1030-1084 | when its timer has run out or it was skipped often enough, a flush transmits the oldest unacknowledged segment |
| Liveness.SomethingToAnswer | kcpsess/ikcp.c:742-852 | after the departing flush the receiver has an ack or its window to tell, unless nothing is unacknowledged and the window is known to be open |
| Liveness.NewArrives | kcpsess/ikcp.c:998-1090 | from a sender with open windows and all before rcv_nxt acknowledged, the departing flush moves rcv_nxt |
| Liveness.AskArrives | kcpsess/ikcp.c:949-979 | with the peer's window last seen closed and the probe timer run out, the flush asks, and the peer notes the question |
| Liveness.AnswerOpens | kcpsess/ikcp.c:742-790 | the answering flush keeps cwnd open, acknowledges everything received, and opens the known window when the receiver has room |
| Liveness.StreamIsRead | kcpsess/ikcp.c:356-433 | in stream mode a buffer of one mss reads from any queue that is not empty |
| Delivery.DueExactly | kcpsess/ikcp.c:1122-1147 | an update flushes at a time if and only if it is the first, the flush time has come, or the clock is off by more than 10 s |
| Delivery.DepartsExactly | kcpsess/ikcp.c:1030-1084 | the exact clock condition for the update that starts a round trip |
| Delivery.SomeNow | kcpsess/ikcp.c:1122-1147 | in every state such a time exists, unless a closed window has not started its probe timer yet |
| Delivery.CycleExists | kcpsess/ikcp.c:898-1147 | in stream mode, from every state of a connection such a cycle exists |
| Delivery.DeliveryPossible | kcpsess/ikcp.c:356-1147 | in stream mode no run is a dead end: after any run there is a continuation, without further sends, that delivers every accepted byte |
| Reorder.Confluent | kcpsess/ikcp.c:676-725 | on unbounded numbers, any two arrival sequences with the same numbers and one payload per number give the same rcv_nxt, queue and buffer |
| Reorder.ParseDataConfluent | kcpsess/ikcp.c:676-725 | the same for the C function in every reachable state, wrap-around included |
| Endpoint.WindowsInvariant | kcpsess/ikcp.c:558-605 | over every interleaving, with arbitrary bytes as input and all early returns, both windows keep their shape: sorted, starting at snd_una, at most snd_wnd and rcv_wnd wide, drained |
| Endpoint.NumbersAreMonotone | kcpsess/ikcp.c:558-605 | snd_una, snd_nxt and rcv_nxt only move forward, each by at most its window per event |
| Endpoint.DueSegsExact | kcpsess/ikcp.c:1030-1084 | the segments transmitted are exactly the due ones, in sequence order |
| Endpoint.FlushParse | kcpsess/ikcp.c:937-1090 | flush and parse round trip in every reachable state: each datagram is at most mtu bytes, and decoding them yields the pending acks once each in order with their timestamps, then a question if the probe timer has run out, then an answer if one is owed, then exactly the due segments, in strictly increasing sequence order from snd_una, each with its number and payload; all carry rcv_nxt and the free receive slots, and data the present time |
| Timers.InputFrom | kcpsess/ikcp.c:742-880 | no datagram, whatever its bytes, touches the number, payload, timer or transmission count of a segment it leaves in the send buffer |
| Timers.RunTimed | kcpsess/ikcp.c:1030-1059 | over any run with arbitrary input, each buffered segment's xmit, rto and resendts follow from its transmissions: how many, when, why, and rx_rto at each |
| Timers.SendsExactly | kcpsess/ikcp.c:1030-1078 | a flush transmits a segment if and only if the loop does not hold it |
| Timers.NewIsSent | kcpsess/ikcp.c:1015-1040 | a flush transmits what it numbers, for the first time and with no skips counted |
| Timers.TimeoutExactly | kcpsess/ikcp.c:1030-1059 | over any run, at any later flush: a segment last transmitted at t is overdue if and only if its wait since t is over (rx_rto and an eighth after the first transmission, rx_rto with nodelay; after a timeout the old wait plus rx_rto or half of it; its own timeout after a fast resend), it is transmitted if and only if overdue or skipped often enough, and only a fast resend sets its skips to zero |
| Timers.BackOff | kcpsess/ikcp.c:1041-1051 | after k timeouts under one rx_rto r the wait is (k + 1) * r, or r + k * (r / 2) with nodelay |
| Reaction.LossReacts | kcpsess/ikcp.c:1092-1113 | a flush that finds an old segment overdue sets cwnd to 1 and ssthresh to half the flight limit; otherwise one that resends a skipped segment sets ssthresh to half of what is in flight and cwnd to that plus fastresend; any other leaves both, cwnd at least 1 |
| Reaction.FlushCounts | kcpsess/ikcp.c:1041-1083 | xmit counts the overdue segments; the link is dead from the first flush on that transmits a segment for the dead_link-th time |
| Reaction.FlushFills | kcpsess/ikcp.c:998-1003 | in every reachable state a flush numbers queued segments until the flight reaches snd_wnd, the peer's window or, unless nocwnd is set, cwnd, and never past them |
| Reaction.ProbeReacts | kcpsess/ikcp.c:949-971 | the probe timer of a closed window runs 7 s, then half as long again after each question up to 120 s; a flush asks if and only if it has run out; an open window stops it |
| Reaction.NothingAsked | kcpsess/ikcp.c:974-996 | over any run, no question is left over from one flush to the next |
| Reaction.RecvAnnounces | kcpsess/ikcp.c:425-430 | a receive owes the peer an announcement if and only if it was owed before or the receive succeeded and made room in a full queue; it changes no other timer or window |
| Reaction.SampleIsElapsed | kcpsess/ikcp.c:785-788 | the round-trip sample of an ack is the time since the transmission it names, on a wrapping clock; a time stamp in the future gives none |
| Reaction.EstimateOfRun | kcpsess/ikcp.c:785-788 | over any run with arbitrary input, srtt, rttval and the timeout are the estimator fed with the samples of all acks, in order, and nothing else |
| Reaction.EstimateInRange | kcpsess/ikcp.c:541-556 | over any run whose samples lie in [lo, hi] with 8 * hi < 2^31, so does srtt, and the timeout in [minrto, 60000] |
| Reaction.InputReacts | kcpsess/ikcp.c:742-880 | in every reachable state, a datagram leaves the window last announced in it, and cwnd grows, as Congestion.GrowsExactly says, if and only if it is well-formed and moves snd_una; one shorter than 24 bytes returns -1 and does nothing |
| Reaction.FirstUpdate | kcpsess/ikcp.c:233-294 | the first update of a connection, whatever was given to send before, transmits nothing and opens cwnd to 1 under congestion control, and otherwise transmits up to min(snd_wnd, 32) segments; the timeout starts at 200 ms, ssthresh at 2 |
| Endpoint.TuningInvariant | kcpsess/ikcp.c:859-877 | over every interleaving incr / mss == cwnd, cwnd and ssthresh stay in range and the timeout between its bounds |
| Endpoint.FlushTuned | kcpsess/ikcp.c:1092-1113 | after a flush cwnd is at least 1, ssthresh at least 2 and incr still counts cwnd segments |
| Congestion.GrowCwndKeeps | kcpsess/ikcp.c:859-877 | new acks keep cwnd * mss <= incr < (cwnd + 1) * mss and grow cwnd by at most one and never past the peer's window |
| Congestion.GrowsExactly | kcpsess/ikcp.c:859-871 | below the peer's window cwnd grows by one in slow start; in congestion avoidance incr grows by between mss / (cwnd + 1) and mss / cwnd, and mss / 16, and cwnd is incr / mss |
| Congestion.AvoidanceRate | kcpsess/ikcp.c:864-871 | over n acknowledgements in congestion avoidance incr grows at least n and at most n times these shares |
| Congestion.ClampIsDead | kcpsess/ikcp.c:872-875 | for every state, the growth step before the clamp does not pass the peer's window, so the clamp never changes anything |
| Congestion.CwndAfterFlushKeeps | kcpsess/ikcp.c:1092-1113 | fast retransmit and timeout keep the same relation and leave cwnd >= 1 |
| Congestion.ResentWindow | kcpsess/ikcp.c:1092-1099 | without a fast-retransmit threshold the 32-bit sum ssthresh + resent wraps to ssthresh - 1 |
| Congestion.UpdateAckInRange | kcpsess/ikcp.c:541-556 | one sample in [lo, hi] with 8 * hi < 2^31 overflows nothing and is the estimator of section 2 of RFC 6298 with the code's gains |
| Congestion.EstimatorInRange | kcpsess/ikcp.c:541-556 | over any history of such samples srtt stays in [lo, hi], rttval at most hi, and the timeout in [minrto, 60000] |
| Congestion.RtoBounded | kcpsess/ikcp.c:541-556 | whatever the sample, the timeout ends in [minrto, 60000] |
| Schedule.TickFlushes | kcpsess/ikcp.c:1122-1147 | an update flushes if and only if the flush time has come or the 10 s reset applies |
| Schedule.TickAdvances | kcpsess/ikcp.c:1122-1147 | the flush time after an update: one interval on if the update was less than an interval late, one interval after the update if it was later, unchanged if it was early |
| Schedule.FlushRate | kcpsess/ikcp.c:1122-1147 | over any non-decreasing clock, at most floor((t - t0) / interval) + 1 flushes by time t; exactly that many, at times that do not drift, while no two updates are more than an interval apart |
| Schedule.FlushRateOfRun | kcpsess/ikcp.c:1122-1147 | the same in every run of an endpoint, whatever happens between the updates |
| Schedule.ClockSetBack | kcpsess/ikcp.c:1135-1138 | a clock set back by more than 10 s makes the update flush and starts the schedule anew |
| Schedule.CheckIsExact | kcpsess/ikcp.c:1159-1195 | the time ikcp_check returns is the earliest of the next flush, the next retransmission and one interval; it is the present one if and only if something is due |
| Schedule.CheckBeforeStart | kcpsess/ikcp.c:1167-1169 | before the first update the time ikcp_check returns is the present |
| Schedule.CheckIsSafe | kcpsess/ikcp.c:1159-1195 | no update strictly before that time would flush |
| Kcp.AckList.Push | kcpsess/ikcp.c:630-664 | an ack is appended in order, through any growth of the block |
| Kcp.AckList.Get | kcpsess/ikcp.c:666-670 | reads back the pair stored at a position |
| Kcp.Session.constructor | kcpsess/ikcp.c:233-294 | a new control block is the initial state of its configuration |
| Kcp.Session.PeekSize | kcpsess/ikcp.c:439-461 | the loop computes the size of the next message, or -1 |
| Kcp.Session.MoveReady | kcpsess/ikcp.c:411-423 | the loop drains the reorder buffer, counters included |
| Kcp.Session.Recv | kcpsess/ikcp.c:356-433 | new state, return code and bytes of a receive or peek, all error returns included |
| Kcp.Session.Fragment | kcpsess/ikcp.c:512-532 | the loop appends the fragments, counting down in message mode |
| Kcp.Session.Send | kcpsess/ikcp.c:467-535 | new queue and return code of a send, the -2 return after extending included |
| Kcp.Session.UpdateAck | kcpsess/ikcp.c:541-556 | the estimator fields after a sample |
| Kcp.Session.ShrinkBuf | kcpsess/ikcp.c:558-567 | snd_una becomes the first buffered number or snd_nxt |
| Kcp.Session.ParseAck | kcpsess/ikcp.c:569-589 | the named segment leaves the buffer, counter included |
| Kcp.Session.ParseUna | kcpsess/ikcp.c:591-605 | the segments below una leave the buffer, counter included |
| Kcp.Session.ParseFastAck | kcpsess/ikcp.c:607-624 | skipped segments are counted in place (which: Skips.InputCounts) |
| Kcp.Session.Place | kcpsess/ikcp.c:688-706 | the backward scan inserts or ignores the segment |
| Kcp.Session.ParseData | kcpsess/ikcp.c:676-725 | the receive side after a data segment |
| Kcp.Session.AcceptAll | kcpsess/ikcp.c:754-852 | the decode loop over arbitrary bytes: the state after the segments before the first malformed one, the return code and the largest ack |
| Kcp.Session.OpenWindow | kcpsess/ikcp.c:859-877 | the congestion fields after new data was acknowledged |
| Kcp.Session.Input | kcpsess/ikcp.c:742-880 | new state and return code for any bytes at all |
| Kcp.Session.PutHeader | kcpsess/ikcp.c:886-897 | writes the header behind what the buffer holds |
| Kcp.Session.Output | kcpsess/ikcp.c:203-212 | hands over the filled part of the buffer, and nothing when it is empty |
| Kcp.Session.Emit | kcpsess/ikcp.c:1060-1078 | adds a segment to the buffer, outputting first when it would pass the mtu |
| Kcp.Session.FreeSlots | kcpsess/ikcp.c:899-905 | the free receive window |
| Kcp.Session.FlushAcks | kcpsess/ikcp.c:937-947 | every pending ack enters the datagrams once, in order |
| Kcp.Session.TickProbe | kcpsess/ikcp.c:951-971 | the probe timer fields, back-off included |
| Kcp.Session.FlushProbes | kcpsess/ikcp.c:974-996 | the probe commands enter the datagrams and their flags are cleared |
| Kcp.Session.NumberSegs | kcpsess/ikcp.c:1002-1023 | the numbering loop, both lists and counters |
| Kcp.Session.TransmitOne | kcpsess/ikcp.c:1030-1083 | one segment of the transmission loop: timers (what they mean: Timers.TimeoutExactly), counters, emission, dead link |
| Kcp.Session.Transmit | kcpsess/ikcp.c:1030-1084 | the whole transmission loop |
| Kcp.Session.AdjustWindow | kcpsess/ikcp.c:1092-1113 | the congestion fields at the end of a flush |
| Kcp.Session.Flush | kcpsess/ikcp.c:911-1114 | new state and the exact bytes of every datagram output |
| Kcp.Session.Tick | kcpsess/ikcp.c:1122-1144 | the clock fields of an update and whether it flushes |
| Kcp.Session.Update | kcpsess/ikcp.c:1122-1147 | new state and datagrams of an update |
| Kcp.Session.Check | kcpsess/ikcp.c:1159-1195 | the time returned, with the early returns |
| Loops.SkipStep | kcpsess/ikcp.c:614-623 | one turn of the fast-ack loop extends the counted prefix by one |
| Loops.NextTurn | kcpsess/ikcp.c:1030-1083 | one turn of the transmission loop extends the handled prefix by one: list, segments sent, xmit, dead link, loss and fast-retransmit counts |
| Loops.ParseNext | kcpsess/ikcp.c:754-783 | one turn of the decode loop: a malformed segment ends it with its code, another is processed |
| IQueue.IsEmpty | kcpsess/ikcp.h:183 | a ring is empty when its head points to itself |
| IQueue.Add | kcpsess/ikcp.h:165-167 | rewriting four links inserts the node behind any node of the ring |
| IQueue.AddTail | kcpsess/ikcp.h:169-171 | rewriting four links appends the node |
| IQueue.Del | kcpsess/ikcp.h:175-178 | unlinks the node, whose own links become null |
| IQueue.ParseUna | kcpsess/ikcp.c:591-605 | the list walk leaves exactly the segments not below una, and counts those removed |
| IQueue.ParseAck | kcpsess/ikcp.c:575-588 | the list walk unlinks exactly the named segment |
| IQueue.ParseFastAck | kcpsess/ikcp.c:614-623 | the list walk counts skipped segments where they are |
| IQueue.Place | kcpsess/ikcp.c:688-706 | the backward list walk links the new node at its place, or leaves the ring alone for a repeat |
| IQueue.MoveReady | kcpsess/ikcp.c:411-423 | nodes move from one ring to the tail of the other until a gap or a full queue |
| Rooms.FetchPtKeeps | core/room.cpp:448-459 | a fetched command object is in no frame and no pool, and no other object changes |
| Rooms.FetchFrameKeeps | core/room.cpp:430-441 | a fetched frame object is empty, in no pool, and no other frame changes |
| Rooms.RecycleKeeps | core/room.cpp:420-428 | recycling a frame gives it and its commands to the pools once each and touches nothing in use |
| Rooms.AddCmdSteps | core/room.cpp:196-242 | a command is appended to the log of its room and seen by no other room |
| Rooms.CommitSteps | core/room.cpp:112-127 | committing a frame changes no room's log |
| Rooms.UpdateSteps | core/room.cpp:89-134 | neither does a whole update |
| Rooms.RecycledKeeps | core/room.cpp:346-355 | the end of a room puts every frame of its log into the pool and nothing another room uses |
| Rooms.BroadcastIsLog | core/room.cpp:112-127 | the frames a catch-up loop broadcasts are exactly those it adds to the log, in order, and earlier ones never change |
| Rooms.IndexIsRank | core/room.cpp:183-194 | the index of a playing role is its rank among the playing roles, from 1 |
| Rooms.ServerCommand | core/room.cpp:196-206 | the server's command holds its kind, the index of the role and whether it enters, each in its bits |
| Rooms.CatchUpClock | core/room.cpp:112-127 | the catch-up loop commits one frame per whole tick and keeps the remainder |
| Rooms.UpdateClock | core/room.cpp:89-134 | an update at a later time keeps the frame number and the remainder those of the time since the start |
| Rooms.FrameClock | core/room.cpp:89-134 | for any spacing of updates with non-decreasing nonzero times: m_frameId has grown by floor((m_lastMs - t0) / tick) and m_accMs is the remainder |
| Lobby.ApplyKeeps | core/room.cpp:196-242 | every event of the server keeps the ownership and log invariant of all rooms |
| Lobby.LogConserved | core/room.cpp:112-127 | in every run, the commands of frames 0..m_frameId-1 followed by the pending ones are the accepted ones in order; frame keys are exactly 0..m_frameId-1 |
| Lobby.PoolsApart | core/room.cpp:420-459 | in every run, no frame or command object in use is in a pool or in use elsewhere |
| Lobby.CatchUpIsSuffix | core/room.cpp:170-181 | the catch-up answer from k is the suffix of the log from k |
| Lobby.FinalRecord | core/room.cpp:326-356 | the final record with the pending commands is everything accepted; it is the whole log if and only if none is pending |
| Lobby.FinalRecordCounterexample | core/room.cpp:326-356 | "the final record is the whole log" is false: a run in which a room ends by force right after a player entered |
| Lobby.FinalRecordAtTick | core/room.cpp:502-534 | for a room at any position of the queue of finished rooms, whatever happens to other rooms before its turn: the record is the whole log if and only if the tick that ended the room commits a frame or nothing was pending before it |
| Lobby.BystanderSame | core/room.cpp:502-534 | an event for another room leaves a room, what it accepted and its pending commands alone |
| Lobby.ObjectsAccounted | core/room.cpp:326-356 | in every run each frame object is in the pool, held by a room, or was the pending frame of a finished room and is in no pool and no room any more; each command object is in the pool or in a frame |
| Rooms.UpdatePending | core/room.cpp:89-134 | after an update no command is pending if and only if the update committed a frame or none was pending before |
| Lobby.BroadcastsAreTheLog | core/room.cpp:112-127 | in every run, what a tick broadcasts is exactly what it adds to the log |
| Lobby.FirstTickStartsClock | core/room.cpp:102-107 | the first update of a running room starts its clock |
| Lobby.ClockOfRun | core/room.cpp:89-134 | the frame clock over any run, with commands, other rooms and their ends interleaved |
| Ending.EndsExactly | core/room.cpp:89-134 | after any run, a tick finishes a room if and only if, since it was opened, it was ended by force, or it was told to end (other than at frame 2^31, the mark for never) and is running, populated and its clock started; a finished room stops running and no other does |
| Ending.ToldRoomEnds | core/room.cpp:252-258 | after the call that ends a room, whatever happens in it and to others, the next tick that finds it running, populated and its clock started finishes it; by force, any tick does |
| Ending.OnlyToldEnd | core/room.cpp:502-534 | over any run, a room among the finished ones was told to end, and is there once |
| Ending.RunsWhileGoing | core/room.cpp:322-324 | over any run, a room runs from the time it is set ready until a tick finishes it |
| Ending.IdleTick | core/room.cpp:94-100 | the tick of a room that is not running or has no players changes nothing |
| Roster.RunEnrolls | core/room.cpp:68-82 | over any run, the players, the roles with their camps and the tick length of a room are those of the events since it was opened |
| Roster.CommandsOfPlayers | core/room.cpp:223-242 | over any run, a command is logged if and only if its player has entered the room |
| Lockstep.Pools.FetchPt | core/room.cpp:448-459 | oldest free object or a new one |
| Lockstep.Pools.FetchPt2001 | core/room.cpp:430-441 | oldest free object or a new one |
| Lockstep.Pools.RecyclePt2001 | core/room.cpp:420-428 | commands to the pool, last first, then the frame |
| Lockstep.RoomObj.constructor | core/room.cpp:37-60 | an initialised room |
| Lockstep.RoomObj.AddAllocated | core/room.cpp:225-238 | a filled command object joins the pending frame, fetched when there is none |
| Lockstep.RoomObj.GetPIdx | core/room.cpp:183-194 | the loop counts the playing roles not above the given one |
| Lockstep.RoomObj.FrameCmd | core/room.cpp:223-242 | unknown players are ignored, others' commands added |
| Lockstep.RoomObj.EnterP | core/room.cpp:73-82 | the three maps and the server command of an entering player, with or without a connection |
| Lockstep.RoomObj.CommitFrame | core/room.cpp:112-127 | one turn of the loop and the frame it broadcasts |
| Lockstep.RoomObj.Update | core/room.cpp:89-134 | new state, return code and broadcasts of an update |
| Lockstep.RoomObj.Over | core/room.cpp:252-258 | the end frame and the forced flag (what they do: Ending.EndsExactly) |
| Lockstep.RoomObj.GetCacheFrames | core/room.cpp:170-181 | the loop collects the frames from the given one on |
| Lockstep.RoomObj.Finnal | core/room.cpp:326-356 | the record, after which every frame is recycled and the log empty |
| Rpc.DecodeOfEncode | recvBuff.cpp:256-299 | decoding a frame gives back pid, msgid and body, the names cut to their length modulo 256, and a result that starts at its own length byte |
| Rpc.NamesArrive | recvBuff.cpp:338-382 | the names arrive unchanged if and only if both are at most 255 bytes; the result never does |
| Rpc.ParseMore | tcpclient.cpp:300-339 | parsing what has arrived and later the rest equals parsing everything at once |
| Rpc.FeedAll | tcpclient.cpp:300-339 | chunk independence: any division of the stream into reads leaves the same queue and the same rest |
| Rpc.ParseStream | tcpclient.cpp:300-339 | of any prefix of a stream of calls, exactly the complete frames are queued, in order, and exactly the unfinished suffix stays |
| Rpc.StreamFidelity | tcpclient.cpp:300-339 | both together, and the buffer is never full when every frame fits it |
| Rpc.RoomCheckCounterexample | tcpclient.cpp:358-369 | the room check alone does not keep a frame inside its cache: a cache and a size where it does not |
| Rpc.FitsExactly | tcpclient.cpp:358-369 | a frame stays inside its cache if and only if an empty cache has room for it and its length, and it fails the room check or leaves 4 bytes of the room |
| Rpc.BatchingIsStream | tcpclient.cpp:355-373 | the caches in queue order hold the stream of the calls, none beyond its size |
| Rpc.BatchingIsTight | tcpclient.cpp:358-366 | a new cache is started only for a call that does not fit: any two neighbouring caches hold more than one could |
| Rpc.CallsArrive | tcpclient.cpp:300-373 | from call to call: what one side appends is what the other side queues, however the bytes are cut |
| TcpClient.Client.ParseFrames | tcpclient.cpp:307-333 | the parse loop finds the complete frames and how far they reach |
| TcpClient.Client.MoveToFront | tcpclient.cpp:335 | the unfinished rest moves to the front |
| TcpClient.Client.DealReadBuffer | tcpclient.cpp:300-339 | buffer and queue after a read was handled |
| TcpClient.Client.OnRead | tcpclient.cpp:274-297 | the return code, and whether the connection is closed, for a full buffer, bytes, EAGAIN, an error and the end of the stream; the bytes delivered are appended |
| TcpClient.Client.GetRpcSize | recvBuff.cpp:302-334 | the accumulated size |
| TcpClient.Client.EncodeBuffer | recvBuff.cpp:335-382 | the bytes written and the returned size, getRpcSize + 4 |
| TcpClient.Client.AppendSend | tcpclient.cpp:355-373 | the caches after a call was appended, rotation included |
| Conn.PushConserves | conn.cpp:87-115 | whatever the kernel answers, written then pending bytes are the bytes there were; nothing is pending if and only if the loop ran dry |
| Conn.SendExactly | conn.cpp:51-117 | a send writes, in order, the shorter of what there is and what the kernel takes before it first refuses; it ends drained if and only if that is everything, broken or blocked as the refusal says, and idle if and only if the connection is closed or there is nothing to send |
| Conn.EverythingIsWritten | conn.cpp:84-115 | after any sends, one whose replies take everything leaves nothing pending and all that was ever submitted written |
| Conn.NothingIsLost | conn.cpp:51-117 | for any sends and any pattern of partial writes and errors, written then pending bytes are the bytes submitted while open |
| Conn.ConnObj.Enqueue | conn.cpp:61-79 | queueing appends to the pending bytes, in place or through reallocation, with offset <= len <= capacity |
| Conn.ConnObj.WriteLoop | conn.cpp:84-115 | what was written and what is left; the window is not empty before any write |
| Conn.ConnObj.Send | conn.cpp:51-117 | the same for a whole send, closed and empty cases included, and how many bytes it writes |

## Left out

- Runs.EndToEnd: a datagram 2^31 or more sequence numbers late is excluded; the 32-bit comparison cannot tell it from a new one.
- Progress.RoundClearsWindow: the acks pending when the round starts must name numbers at most 2^30 below `rcv_nxt`, for the same reason.
- Ahead.AheadAfterRound: the same.
- Liveness.EverythingArrives: the sender accepts nothing more meanwhile, all datagrams of the two updates of a round trip arrive, and reading leaves room in the queue at the end of each cycle; pending acks name numbers at most 2^30 below `rcv_nxt` when the cycles start.
- Delivery.CycleExists: stream mode, as the server configures it; in message mode reading can leave room only as far as `Messages.FullQueueIsRead` says.
- Endpoint.TuningInvariant: `(cwnd + 1) * mss` is taken to fit 32 bits for every value `cwnd` can reach; the products in the code wrap otherwise.
- Rooms.FrameClock: times are nonzero, do not go back and stay below 2^32, and the tick is positive; a zero time restarts the clock and a zero tick never leaves the loop.
- Timers.TimeoutExactly: at most 35000 transmissions of one segment and less than 2^31 ms since the last, so that its timer fits the 31-bit range of the comparison.
- Skips.SkippedIsSent: fewer than 2^32 events, so that the 32-bit count does not wrap.
- Schedule.FlushRate: no two consecutive updates are 2^32 - 10000 ms apart; beyond that the 32-bit difference looks like a step back.
- Rpc.StreamFidelity: frame lengths are below 2^31 and complete frames hold the lengths they announce, as encoded ones do.
- TcpClient.Client.ParseFrames: the received bytes are taken to be such frames; on a negative length the C loop steps back or stays where it is, and on a frame that is too short it reads past it.
- TcpClient.Client.DealReadBuffer: the same.
- TcpClient.Client.AppendSend: the caller sees to it that the frame with its length fits the cache, which the code does not check; queued caches are kept by their contents.
- Kcp.Session.NumberSegs: queued segments become numbered ones in another list of values; moving the node itself is `IQueue.Del` followed by `IQueue.AddTail`.
- Configuration is fixed before traffic: mtu from 50 to 2^29, windows below 2^16, as the 16-bit window field needs.
- Null buffers, failing allocation, `ikcp_release`, log callbacks and the log mask.
- Signed overflow of the `int` byte counts in `ikcp_recv` and `ikcp_send`; lengths are unbounded here.
- The two bits of `probe` are two booleans; `ts_recent` and `ts_lastack` are never read.
- `m_tmpDiff`, counters and log lines of a room; frame numbers are unbounded, where the code has an `int`.
- Protobuf encoding and parsing: a command is an integer, a frame a number and a list of commands.
- `GetFramesData`, `VerifyFrame`, the player and connection tables, and, at the end of a room, the message to its players and their removal.
- `roomMgr::Update` and `UpdateFinnal` are any order of `TickRoom` and `Finalize` events; their map iteration and locks are not modelled.
- A `send` with a null buffer and a nonzero size; `OnRead`, `parseBuff` and `resetBuffer` of a connection.
- `dealSend`, sockets, threads, mutexes, RPC dispatch and counters.
