# FlexProxy's KCP engine: a model and its proofs

FlexProxy carries a TCP connection over UDP between a client-side and a server-side forwarder.
Between them runs KCP, an ARQ protocol: `ikcp_send` cuts messages into fragments, `ikcp_flush`
numbers them, sends and resends them in datagrams, `ikcp_input` takes in any datagram and acts on
acknowledgements and data, and `ikcp_recv` puts messages together again. This project models that
engine, the linked lists under it, the in-place encryption and checksum around it and the two
forwarders' pump loops, and proves what they promise each other.

## How it is laid out

- *Operations, on values.* `Numbers` (32-bit arithmetic), `Wire` (byte codec), `MiscUtils`
  (encryption, checksum), `SendWindow`, `ReceiveWindow`, `Fragments`, `RttEstimation`,
  `Congestion`, `Timers`, `Transmission`, `Packing`, and `Kcp`, which assembles them into the
  control block and its entry points. Every operation on sequence numbers is written once, over a
  `Numbering`: `Wrapped` is the arithmetic of the program, `Unbounded` the ideal one.
- *The program in its own form.* `Engine` is the control block as a class updated in place: fields
  and counters, the growing acknowledgement array, the output buffer that the callback encrypts in
  the middle of a flush. Each method is proved against the function it refines. `IQueue` has the
  intrusive circular lists with their `next` and `prev` pointers and which queue owns a segment,
  `SegmentQueues` the loops of the entry points over those lists.
- *One endpoint.* `Invariants` (unbounded numbers), `Wraparound` (32-bit steps are images of
  unbounded ones), `Staleness` (which outdated numbers the 32-bit program misreads, exactly),
  `Robustness` and `History` (the invariants and the sender's log in 32 bits, for arbitrary input
  bytes).
- *Two endpoints.* `Delivery` and `Connection` put two of them on a network that keeps every
  datagram ever emitted and may deliver any of them at any time, any number of times or never, and
  even with data segments blanked (that is how the 32-bit program hears segments too old to be
  acknowledged again); each call of the engine is one step, as in the single-threaded coroutines. `EndToEnd` is what
  the applications see; `WireRun` brings the result down to 32 bits and encrypted bytes, `Program`
  the other facts; `Forwarding` instantiates them for the forwarders.
- *Time and recovery.* `Progress`, `FlowControl`, `ZeroWindow`, `WindowProbes`,
  `Acknowledgement`, `FastRetransmit`, `Retransmission`, `RttSamples`.

Times reach the model as parameters of `ikcp_update` and `ikcp_check`; which datagram arrives when
is part of a run. Memory allocation always succeeds.

`dafny verify dfyconfig.toml` checks everything.

## What the code does that its comments or a first reading do not say

- The header comment says `rcvwnd=32 by default`; the code starts with 128 and never goes below it
  (ikcp.h:387-388, ikcp.c:1278-1280). `NoReassemblyDeadlock` depends on that.
- A stream-mode `ikcp_send` that returns -2 may have absorbed bytes already; `RefusedSendUnchanged`
  gives the exact condition, and `DeliveredBytesArePrefix` counts the bytes absorbed.
- `snd_una` may pass the peer's `rcv_nxt`, since segments parked behind a full `rcv_queue` are
  acknowledged. The relation that holds is "acknowledged implies received" (`NoSegmentLost`).
- Old `una` and `wnd` values are taken from reordered datagrams; the proofs allow for both.
- Neither delivery nor "no segment is lost" holds for datagrams of any age, and failure does not
  start at 2^32 segments. A data segment is harmless up to 2^32 - `rcv_wnd` numbers behind
  `rcv_nxt` and may be taken for new data one number older (`PushAge`); a `una` is harmless up to
  2^31 numbers old and makes the sender drop an unacknowledged segment one number older
  (`UnaAge`). The exact conditions, for every age, are `StalePushHarmless`, `StaleUnaHarmless` and
  `StaleAckHarmless`. `ProgramDeliversRecent` asks for the first two and, for acknowledged numbers,
  that they lie within 2^31 of `snd_nxt`.

## Model

| member | source | states |
|---|---|---|
| `WireRun.ProgramDelivers` | FlexProxy/FlexCommon/src/FlexCommon/ikcp.c:358-535 | In every run of two 32-bit, byte-level endpoints over a network that drops, duplicates, delays and reorders, the messages `ikcp_recv` returns at each end are a prefix, in order and byte for byte, of those `ikcp_send` accepted at the other, if each direction needs at most 2^31 segments |
| `WireRun.ProgramDeliversRecent` | FlexProxy/FlexCommon/src/FlexCommon/ikcp.c:749-900 | The same without any bound on the length of the run and in stream mode too (bytes received are a prefix of bytes taken in), as long as each delivered datagram is legible: its acknowledged numbers are within reach of the comparisons, and its una and data numbers are, or are old in a way the exact conditions below find harmless |
| `WireRun.ShortRunRecent` | FlexProxy/FlexCommon/src/FlexCommon/ikcp.c:136-139 | A run of at most 2^31 segments each way delivers only legible datagrams, whatever the network does |
| `WireRun.HostsFollow` | FlexProxy/FlexCommon/src/FlexCommon/ikcp.c:749-1171 | Refinement over whole runs: the program's state, its output bytes and what its applications see are the 32-bit image of a run of the connection with unbounded numbers, in which data segments too old to be acknowledged again count for their headers only |
| `WireRun.LateDuplicateAccepted` | FlexProxy/FlexCommon/src/FlexCommon/ikcp.c:827-838 | For each free place of the window, the duplicate 2^32 numbers older than it is taken for new data there, while the unbounded receiver only acknowledges it again |
| `Staleness.StalePushHarmless` | FlexProxy/FlexCommon/src/FlexCommon/ikcp.c:689-732 | Exactly when a data segment of any age does no harm: `rcv_nxt`, `rcv_buf` and `rcv_queue` stay as they were if and only if its number, read in 32 bits from `rcv_nxt` on, lies beyond the window or waits in `rcv_buf`; otherwise it is taken for the new segment at that place |
| `Staleness.PushAge` | FlexProxy/FlexCommon/src/FlexCommon/ikcp.c:827-829 | In numbers: never harmful up to 2^32 - `rcv_wnd` behind `rcv_nxt`; one older, it is taken for the last segment of the window unless that waits |
| `Staleness.StaleUnaHarmless` | FlexProxy/FlexCommon/src/FlexCommon/ikcp.c:593-607 | An old `una` removes nothing if and only if `snd_buf` is empty or it compares as old |
| `Staleness.StaleUnaRead` | FlexProxy/FlexCommon/src/FlexCommon/ikcp.c:593-607 | Otherwise it removes exactly what a una that far beyond `snd_una` would |
| `Staleness.UnaAge` | FlexProxy/FlexCommon/src/FlexCommon/ikcp.c:593-607 | In numbers: harmless up to 2^31 old; at 2^31 + 1 it costs the first unacknowledged segment, so that no segment is lost only while una is younger |
| `Staleness.StaleAckHarmless` | FlexProxy/FlexCommon/src/FlexCommon/ikcp.c:571-591 | An acknowledgement of any age removes a segment if and only if one in flight has the same 32 bits |
| `Staleness.PushWrapsAny` | FlexProxy/FlexCommon/src/FlexCommon/ikcp.c:827-845 | Each harmless data segment is treated as on true numbers, but for not being acknowledged again when it is too old |
| `Forwarding.BytesForwarded` | FlexProxy/FlexClient/src/FlexClient/ClientSideForwarder.cpp:76-158 | For the two forwarders as they run: the chunks written to each TCP connection are a prefix of the chunks read from the other, while those take at most 2^31 segments each way |
| `Forwarding.BytesForwardedRecent` | FlexProxy/FlexServer/src/FlexServer/Forwarder.cpp:77-161 | The same in runs of any length in which each delivered datagram is legible |
| `Forwarding.AcceptedIsRead` | FlexProxy/FlexClient/src/FlexClient/ClientSideForwarder.cpp:80-98 | With reads of at most 8192 bytes `ikcp_send` never refuses, in any run of the program, so everything read from TCP enters the engine, in order |
| `Forwarding.PumpReceives` | FlexProxy/FlexServer/src/FlexServer/Forwarder.cpp:125-134 | At either end of the program, with a 16384-byte buffer, the receive pump stops (`n <= 0`) exactly when the next chunk is not complete; otherwise it gets precisely the next chunk, never an empty or a too large one |
| `Forwarding.OpenForwarder` | FlexProxy/FlexServer/src/FlexServer/Forwarder.cpp:225-246 | Both forwarders start from a well-formed control block with windows 1024/1024 and nodelay 2/10/2/1 |
| `EndToEnd.DeliveredIsPrefix` | FlexProxy/FlexCommon/src/FlexCommon/ikcp.c:358-535 | Message-mode safety for unbounded numbers, for runs of any length |
| `EndToEnd.DeliveredBytesArePrefix` | FlexProxy/FlexCommon/src/FlexCommon/ikcp.c:477-505 | Stream-mode safety: the bytes received are a prefix of the bytes taken in, refused sends included |
| `EndToEnd.RunEndsOk` | FlexProxy/FlexCommon/src/FlexCommon/ikcp.c:358-535 | The invariant behind both: log plus send queue is always exactly the fragments of the accepted messages, and the receiver stands at a message boundary |
| `EndToEnd.NextMessage` | FlexProxy/FlexCommon/src/FlexCommon/ikcp.c:441-463 | Whenever `rcv_queue` is not empty its head is the first fragment of the next undelivered message |
| `EndToEnd.NoReassemblyDeadlock` | FlexProxy/FlexCommon/src/FlexCommon/ikcp.c:380-409 | In every reachable state a full `rcv_queue` makes `ikcp_peeksize` succeed, so the application can always make room |
| `Connection.RunOk` | FlexProxy/FlexCommon/src/FlexCommon/ikcp.c:749-1138 | Every step (send, update, any delivery, receive) keeps both control blocks well formed, every datagram ever emitted true, and no segment lost |
| `Connection.NoSegmentLost` | FlexProxy/FlexCommon/src/FlexCommon/ikcp.c:571-607 | In every reachable state each number below `snd_nxt` is in `snd_buf`, or below the peer's `rcv_nxt`, or in its `rcv_buf`, although `snd_una` may be ahead of that `rcv_nxt` |
| `Program.ProgramKeeps` | FlexProxy/FlexCommon/src/FlexCommon/ikcp.c:571-607 | The same for the program, in 32 bits and both directions, in runs of any length with legible datagrams: each number from `snd_una` up to `snd_nxt` is in `snd_buf`, or before the peer's `rcv_nxt`, or in its `rcv_buf` |
| `Program.ShortKeeps` | FlexProxy/FlexCommon/src/FlexCommon/ikcp.c:571-607 | For runs of at most 2^31 segments, each number the program ever used |
| `Program.ProgramReadable` | FlexProxy/FlexCommon/src/FlexCommon/ikcp.c:380-409 | In every such state of the program a full `rcv_queue` can be read |
| `Delivery.DeliverKeeps` | FlexProxy/FlexCommon/src/FlexCommon/ikcp.c:749-900 | One delivery of any datagram ever emitted keeps both directions of the connection invariant |
| `Delivery.FlushSender` | FlexProxy/FlexCommon/src/FlexCommon/ikcp.c:1017-1042 | A flush only moves fragments from the queue to the log: log plus queue is unchanged, and nothing numbered is lost |
| `Delivery.FlushPacketsOk` | FlexProxy/FlexCommon/src/FlexCommon/ikcp.c:956-1108 | Each emitted acknowledgement and `una` names only received segments, and each copy of a number carries the logged frg and data |
| `Progress.ExchangeClears` | FlexProxy/FlexCommon/src/FlexCommon/ikcp.c:1049-1102 | One loss-free exchange leaves in `snd_buf` only segments beyond the receiver's window |
| `Progress.ExchangeProgress` | FlexProxy/FlexCommon/src/FlexCommon/ikcp.c:827-845 | Hence it strictly decreases `snd_nxt - snd_una` whenever something is outstanding and the receiver's queue has room |
| `Progress.RunProgress` | FlexProxy/FlexCommon/src/FlexCommon/ikcp.c:749-1138 | The same in every reachable state of the connection, with no assumption on how it was reached |
| `Program.ProgramProgress` | FlexProxy/FlexCommon/src/FlexCommon/ikcp.c:749-1138 | For the program in every state a short run reaches: an exchange of the actual bytes, flush, feed, flush, feed, strictly reduces what is outstanding |
| `Invariants.FlushFillsWindow` | FlexProxy/FlexCommon/src/FlexCommon/ikcp.c:1017-1042 | The sending limit in numbers: with room = max(0, min(snd_wnd, rmt_wnd, and cwnd unless nocwnd) - (snd_nxt - snd_una)), a flush numbers exactly the first min(room, queue length) fragments, consecutively from `snd_nxt`, and nothing else |
| `Invariants.FlushRespectsWindow` | FlexProxy/FlexCommon/src/FlexCommon/ikcp.c:1017-1021 | A flush that numbers anything leaves at most `rmt_wnd` numbers outstanding; with a closed window it numbers nothing |
| `FlowControl.WindowKnown` | FlexProxy/FlexCommon/src/FlexCommon/ikcp.c:788 | In every run with arbitrary input, `rmt_wnd` is the window field of the last segment processed, 128 before any |
| `FlowControl.WindowRespected` | FlexProxy/FlexCommon/src/FlexCommon/ikcp.c:1017-1042 | Hence over 32-bit runs with arbitrary input: whenever an update numbers fragments, at most as many numbers as the last processed segment announced, and at most `snd_wnd`, are outstanding afterwards |
| `FlowControl.WindowFilled` | FlexProxy/FlexCommon/src/FlexCommon/ikcp.c:1017-1042 | And the window is used: without a congestion window, as in the forwarders, a flushing update numbers exactly min(queue length, max(0, min(snd_wnd, announced window) - outstanding)) fragments |
| `Acknowledgement.AcksConserved` | FlexProxy/FlexCommon/src/FlexCommon/ikcp.c:827-831 | In every run with arbitrary input, the acknowledgements emitted so far followed by those pending are exactly those asked for: one for each data segment before the end of the window it met, new or repeated, with its number and time stamp, in order of arrival |
| `Acknowledgement.FlushAcksAll` | FlexProxy/FlexCommon/src/FlexCommon/ikcp.c:956-966 | After a flush all of them have been emitted, each once |
| `FastRetransmit.FastResendEarned` | FlexProxy/FlexCommon/src/FlexCommon/ikcp.c:1072-1080 | Over a segment's life: a fast resend comes only after at least `fastresend` calls of `ikcp_input` acknowledged a later number since its last fast resend, and at most `fastlimit` times in all |
| `FastRetransmit.LifeInvariant` | FlexProxy/FlexCommon/src/FlexCommon/ikcp.c:609-631 | The counting invariant over any mix of sends, inputs, updates and receives that gives the above |
| `FastRetransmit.LargestIsAck` | FlexProxy/FlexCommon/src/FlexCommon/ikcp.c:797-805 | The number passed to the fastack walk is acknowledged in the datagram and none there is greater; there is one if and only if the datagram has an ACK |
| `FastRetransmit.InputCounts` | FlexProxy/FlexCommon/src/FlexCommon/ikcp.c:871-873 | Over `ikcp_input`: each remaining segment below the greatest acknowledged number, when that is still in flight, gains exactly one skip; every other one, and everything in a refused datagram, keeps its count |
| `FastRetransmit.FastResendExactly` | FlexProxy/FlexCommon/src/FlexCommon/ikcp.c:1072-1080 | The converse too: after any run a flush fast-resends an unacknowledged segment if and only if it was sent, is not overdue, was skipped `fastresend` times since its last fast resend, and went out at most `fastlimit` times when there is a limit |
| `FastRetransmit.FastResendOff` | FlexProxy/FlexCommon/src/FlexCommon/ikcp.c:1044-1045 | With `fastresend` 0 nothing is ever fast-resent |
| `Retransmission.TimeoutsBackOff` | FlexProxy/FlexCommon/src/FlexCommon/ikcp.c:1052-1071 | In each mode, on true times over its whole life, a segment that timed out n times is not timed out again before it rested for the patience of n timeouts (doubled each time in mode 0, half as long again in mode 1, half an estimate more in the others, an eighth more after the first transmission in mode 0) at the least estimate, and a flush after that patience at the greatest estimate sends it |
| `Retransmission.BackoffGrows` | FlexProxy/FlexCommon/src/FlexCommon/ikcp.c:1062-1068 | One timeout in numbers, without overflow, for the three modes |
| `Retransmission.FlushSteps` | FlexProxy/FlexCommon/src/FlexCommon/ikcp.c:1049-1108 | `ikcp_flush` of a configured block, in either numbering, is exactly one such event for each segment of `snd_buf`, and emits the segment if and only if the event is a transmission |
| `Forwarding.ForwarderTimeouts` | FlexProxy/FlexServer/src/FlexServer/Forwarder.cpp:246 | For the forwarders: at least 30 + 15n ms of rest after n timeouts, and a flush 60000 + 30000n ms after the last transmission sends in any case |
| `Forwarding.ForwarderFastResends` | FlexProxy/FlexClient/src/FlexClient/ClientSideForwarder.cpp:73 | For the forwarders: fast-resent exactly after two skips, at most five transmissions, and not overdue |
| `Forwarding.ForwarderEstimate` | FlexProxy/FlexServer/src/FlexServer/Forwarder.cpp:246 | In any reachable state of a forwarder the timeout estimate lies between 30 and 60000 ms |
| `RttSamples.SamplesAreGenuine` | FlexProxy/FlexCommon/src/FlexCommon/ikcp.c:792-795 | In every run, whenever an ACK the peer emitted arrives, the sample taken is the sender's clock minus the clock at the emission of an actual copy of that very segment |
| `RttSamples.RunHonest` | FlexProxy/FlexCommon/src/FlexCommon/ikcp.c:964-965 | The invariant over runs: time stamps held, queued and in flight all stem from real emissions |
| `Program.ProgramSamples` | FlexProxy/FlexCommon/src/FlexCommon/ikcp.c:792-795 | Each ACK the program puts on the wire echoes the clock at which its peer sent a datagram carrying that segment |
| `RttEstimation.RunBounds` | FlexProxy/FlexCommon/src/FlexCommon/ikcp.c:543-558 | For samples in [lo, hi] below 2^28: `rx_srtt` and `rx_rttval` stay in range after any number of samples, no 32-bit step overflows, and `rx_rto` is srtt + max(interval, 4 rttvar) clamped to [rx_minrto, 60000] |
| `RttEstimation.FollowsRfc` | FlexProxy/FlexCommon/src/FlexCommon/ikcp.c:546-555 | Each update is that of section 2 of RFC 6298 rounded down, except that srtt is kept at 1 or more and a zero srtt starts over |
| `ZeroWindow.WaskDatagram` | FlexProxy/FlexCommon/src/FlexCommon/ikcp.c:848-851 | A delivered datagram raises the window request if and only if it carries a WASK or the request was up, even when parsing ends in an error |
| `ZeroWindow.WindowRecovered` | FlexProxy/FlexCommon/src/FlexCommon/ikcp.c:848-851 | Zero-window recovery over runs: after any calls, a delivered WASK or an `ikcp_recv` that un-fills a full queue, and any calls that do not flush, the next flushing update emits a WINS; the bytes of any datagram of that flush then set the other end's `rmt_wnd`, in whatever state it is, to the receiver's free space at that flush (in the 16 bits of the field) |
| `ZeroWindow.WinsExact` | FlexProxy/FlexCommon/src/FlexCommon/ikcp.c:1003-1014 | In every run with arbitrary input, a flush emits a WINS if and only if some call since the flush before it carried a WASK or un-filled a full queue |
| `ZeroWindow.RequestExact` | FlexProxy/FlexCommon/src/FlexCommon/ikcp.c:427-432 | The state behind it: the request flag is up exactly in those cases, and nothing but a flush clears it |
| `ZeroWindow.RequestAnswered` | FlexProxy/FlexCommon/src/FlexCommon/ikcp.c:1003-1014 | The next flush emits a WINS with the window of that moment, and clears the request |
| `ZeroWindow.WindowLearned` | FlexProxy/FlexCommon/src/FlexCommon/ikcp.c:788 | Delivering any datagram of that flush sets the peer's `rmt_wnd` to the free space of the receiver at the flush |
| `ZeroWindow.WindowReopens` | FlexProxy/FlexCommon/src/FlexCommon/ikcp.c:1017-1042 | A stalled sender with an empty `snd_buf` then numbers its next fragment, unless its own congestion window is still closed because it never flushed |
| `Timers.WasksSpaced` | FlexProxy/FlexCommon/src/FlexCommon/ikcp.c:970-1001 | Over any run of flushes and announced windows, two WASKs are at least 7000 ms apart |
| `Timers.ProbesExactly` | FlexProxy/FlexCommon/src/FlexCommon/ikcp.c:970-1001 | Over any flushes and announced windows: from the first flush that finds the window closed, the first flush at or after 7000 ms asks, and the k-th wait is the k-th of the series 7000, 10500, 15750 and so on up to 120000, each counted from the asking flush; an open window starts over, and nothing else asks |
| `WindowProbes.WaskExact` | FlexProxy/FlexCommon/src/FlexCommon/ikcp.c:970-1001 | For the 32-bit program in runs with arbitrary input, on true clock values: a flush emits a WASK if and only if the announced window was 0 at it and at each flush since the running wait of that series began, and that wait is over |
| `Timers.ProbeFollows` | FlexProxy/FlexCommon/src/FlexCommon/ikcp.c:970-990 | `probe_wait` is always 0 or in [7000, 120000] and `ts_probe` is a deadline in the true future |
| `Timers.ScheduleFollows` | FlexProxy/FlexCommon/src/FlexCommon/ikcp.c:1146-1171 | After each update the next flush is strictly in the future and at most one interval away, and an update flushes exactly when it is due |
| `Timers.FlushesSpaced` | FlexProxy/FlexCommon/src/FlexCommon/ikcp.c:1157-1170 | The k-th flush comes at least (k-1) intervals after the first |
| `Timers.CheckSkipsNothing` | FlexProxy/FlexCommon/src/FlexCommon/ikcp.c:1183-1219 | At any time before the one `ikcp_check` returns, `ikcp_update` would not flush and no unacknowledged segment is due |
| `Timers.CheckIsTight` | FlexProxy/FlexCommon/src/FlexCommon/ikcp.c:1183-1219 | And not too early: at the time returned an update would flush, or a segment is due, or a whole interval has passed |
| `Timers.ClockJumpsBack` | FlexProxy/FlexCommon/src/FlexCommon/ikcp.c:1157-1170 | When the clock jumps back by up to 10000 ms before the next flush, the update waits for it; by more, it flushes at once and restarts the schedule from there |
| `Congestion.GrowOpens` | FlexProxy/FlexCommon/src/FlexCommon/ikcp.c:875-897 | When and by how much the window opens: by one below `ssthresh`; otherwise the byte window gains mss*mss/incr + mss/16 and the window moves up exactly when that completes a segment, to the least number of segments that holds it or to `rmt_wnd` |
| `Congestion.AvoidanceOpensWithin` | FlexProxy/FlexCommon/src/FlexCommon/ikcp.c:882-890 | Below the peer's window, congestion avoidance opens the window within any n acknowledging inputs with n*(mss/16) >= 2*mss: 32 with the forwarders' mss |
| `Invariants.AckOpensWindow` | FlexProxy/FlexCommon/src/FlexCommon/ikcp.c:875-897 | Over `ikcp_input`: a datagram that moves `snd_una` forward grows the window so, one that does not leaves it |
| `Congestion.GrowKeeps` | FlexProxy/FlexCommon/src/FlexCommon/ikcp.c:875-897 | (cwnd-1)*mss < incr < (cwnd+1)*mss is kept with all 32-bit products exact; one input opens the window by at most 1 in slow start, at most 2 in avoidance, never beyond `rmt_wnd` |
| `Congestion.AfterFlushKeeps` | FlexProxy/FlexCommon/src/FlexCommon/ikcp.c:1116-1137 | The same invariant, `ssthresh >= 2` and `cwnd >= 1` after a flush with any losses and fast resends |
| `Invariants.LossReaction` | FlexProxy/FlexCommon/src/FlexCommon/ikcp.c:1052-1137 | A flush that finds an overdue segment among those buffered before it falls back to one segment and half its sending limit; if only skipped ones, it halves what is in flight; newly numbered segments never count, and otherwise the window stays |
| `Congestion.AvoidanceExact` | FlexProxy/FlexCommon/src/FlexCommon/ikcp.c:882-890 | Within the window bound, no wrap-around occurs in the avoidance step |
| `Robustness.ReachableOk` | FlexProxy/FlexCommon/src/FlexCommon/ikcp.c:749-900 | After any sequence of calls with arbitrary input bytes, the 32-bit control block meets the sender, receiver, fragment and congestion invariants |
| `History.HistoryKept` | FlexProxy/FlexCommon/src/FlexCommon/ikcp.c:1017-1042 | After any calls with arbitrary input bytes: the fragments numbered so far followed by `snd_queue` are all fragments of the accepted messages (in stream mode: exactly the bytes taken in, in full segments), `snd_nxt` counts them, and each segment of `snd_buf` carries the fragment logged under its number |
| `Robustness.InputBytesKeep` | FlexProxy/FlexCommon/src/FlexCommon/ikcp.c:749-900 | Any byte string: the invariants hold, `snd_una` only moves forward, and the congestion window grows by at most 1 or 2 and not beyond the peer's window |
| `Robustness.InputReturns` | FlexProxy/FlexCommon/src/FlexCommon/ikcp.c:749-900 | The code of `ikcp_input`, read off the bytes: -1 and nothing changed for less than a header; otherwise the code of the first refused segment, with all before it processed but without the fastack walk and the window growth; 0 when none is refused |
| `Robustness.SendKeeps32` | FlexProxy/FlexCommon/src/FlexCommon/ikcp.c:469-535 | `ikcp_send` keeps them in 32-bit arithmetic |
| `Robustness.RecvKeeps32` | FlexProxy/FlexCommon/src/FlexCommon/ikcp.c:358-435 | So does `ikcp_recv` |
| `Robustness.UpdateKeeps32` | FlexProxy/FlexCommon/src/FlexCommon/ikcp.c:1146-1171 | So does `ikcp_update` with any clock value |
| `Robustness.FlushPacketsFit32` | FlexProxy/FlexCommon/src/FlexCommon/ikcp.c:1089-1102 | Each segment the program emits fits one mtu, whatever it received before |
| `Invariants.InputKeeps` | FlexProxy/FlexCommon/src/FlexCommon/ikcp.c:749-900 | Unbounded numbers: a whole datagram, accepted or cut short by an error, keeps the invariants and changes neither `snd_nxt` nor `snd_queue` |
| `Invariants.InputPacketKeeps` | FlexProxy/FlexCommon/src/FlexCommon/ikcp.c:788-853 | One segment removes from `snd_buf` exactly the segments below its `una` and, for an ACK, its own number; nothing else changes there |
| `Invariants.FlushOrder` | FlexProxy/FlexCommon/src/FlexCommon/ikcp.c:956-1108 | A flush's segments: one ACK per pushed acknowledgement in arrival order, then WASK and WINS when asked for, then data in strictly rising order |
| `Invariants.FlushHeaders` | FlexProxy/FlexCommon/src/FlexCommon/ikcp.c:949-953 | Each of them carries `rcv_nxt` as una and the free space as window; only data segments have contents, stamped with the clock |
| `Invariants.FlushShape` | FlexProxy/FlexCommon/src/FlexCommon/ikcp.c:956-1114 | Those segments, none missing and none split, in datagrams of 24 to mtu bytes |
| `Invariants.FlushKeeps` | FlexProxy/FlexCommon/src/FlexCommon/ikcp.c:931-1138 | A flush keeps the invariants; in particular at most `snd_wnd` numbers are ever outstanding |
| `Invariants.SettersKeep` | FlexProxy/FlexCommon/src/FlexCommon/ikcp.c:1246-1283 | The setters keep the ranges the engine relies on: `rcv_wnd` is at least 128, so it always holds a whole message |
| `Invariants.ForwarderConfigOk` | FlexProxy/FlexClient/src/FlexClient/ClientSideForwarder.cpp:72-73 | The forwarders' configuration, setting by setting (nodelay 2, `rx_minrto` 30, interval 10, `fastresend` 2, `fastlimit` 5, nocwnd, windows 1024), lies in those ranges, its congestion arithmetic included |
| `Invariants.NoDelaySets` | FlexProxy/FlexCommon/src/FlexCommon/ikcp.c:1246-1269 | Each argument of `ikcp_nodelay` that is not negative sets its field, with the interval clamped to [10, 5000] and `rx_minrto` 30 or 100 by mode; a negative one leaves it |
| `Invariants.WndSizeSets` | FlexProxy/FlexCommon/src/FlexCommon/ikcp.c:1272-1283 | Likewise for the two windows |
| `Invariants.FreshBlock` | FlexProxy/FlexCommon/src/FlexCommon/ikcp.c:234-295 | What a new block holds, field by field, in numbers |
| `Invariants.DeadExactly` | FlexProxy/FlexCommon/src/FlexCommon/ikcp.c:1105-1107 | A flush marks the link dead if and only if it was, or a segment it sends goes out for the `dead_link`-th time or more |
| `Invariants.RecvCodes` | FlexProxy/FlexCommon/src/FlexCommon/ikcp.c:366-378 | Exactly when `ikcp_recv` returns -1, -2, -3 or the size, and that a refused call changes nothing |
| `Wraparound.InputWraps` | FlexProxy/FlexCommon/src/FlexCommon/ikcp.c:749-900 | `ikcp_input` in 32 bits is the image of `ikcp_input` on true numbers while those compared are less than 2^31 apart |
| `Wraparound.InputPacketWraps` | FlexProxy/FlexCommon/src/FlexCommon/ikcp.c:785-853 | The same for one segment |
| `Wraparound.FlushWraps` | FlexProxy/FlexCommon/src/FlexCommon/ikcp.c:931-1138 | `ikcp_flush`: state and emitted segments, with no condition on the numbers beyond the invariant |
| `Wraparound.RecvWraps` | FlexProxy/FlexCommon/src/FlexCommon/ikcp.c:358-435 | `ikcp_recv`: code, data and state |
| `Wraparound.UpdateWraps` | FlexProxy/FlexCommon/src/FlexCommon/ikcp.c:1146-1171 | `ikcp_update`: state and datagrams |
| `SendWindow.UnaWraps` | FlexProxy/FlexCommon/src/FlexCommon/ikcp.c:560-607 | A cumulative acknowledgement decides in 32 bits as on true numbers |
| `SendWindow.AckWraps` | FlexProxy/FlexCommon/src/FlexCommon/ikcp.c:571-591 | So does a selective one, range test included |
| `SendWindow.FastackWraps` | FlexProxy/FlexCommon/src/FlexCommon/ikcp.c:609-631 | So does the fastack walk |
| `SendWindow.MoveWraps` | FlexProxy/FlexCommon/src/FlexCommon/ikcp.c:1021-1042 | So does the numbering loop, for any numbers |
| `ReceiveWindow.AcceptPushWraps` | FlexProxy/FlexCommon/src/FlexCommon/ikcp.c:827-845 | So does the treatment of a data segment |
| `ReceiveWindow.TakeWraps` | FlexProxy/FlexCommon/src/FlexCommon/ikcp.c:413-425 | So does moving waiting segments up |
| `Numbers.TimeDiffExact` | FlexProxy/FlexCommon/src/FlexCommon/ikcp.c:136-139 | `_itimediff` of two residues is the true difference if and only if that difference fits 32 signed bits |
| `SendWindow.ParseUnaKeeps` | FlexProxy/FlexCommon/src/FlexCommon/ikcp.c:593-607 | On a sorted `snd_buf`, `una` removes exactly the segments numbered below it |
| `SendWindow.RemoveSnKeeps` | FlexProxy/FlexCommon/src/FlexCommon/ikcp.c:571-591 | An ACK removes exactly its own segment, although the walk stops early |
| `SendWindow.BumpFastackSpec` | FlexProxy/FlexCommon/src/FlexCommon/ikcp.c:609-631 | Exactly the segments below the number gain one skip |
| `SendWindow.ParseFastackSpec` | FlexProxy/FlexCommon/src/FlexCommon/ikcp.c:609-631 | A number from `snd_una` up to `snd_nxt` adds exactly one skip to each segment below it and changes nothing else; a number outside changes nothing |
| `SendWindow.MoveToBufSpec` | FlexProxy/FlexCommon/src/FlexCommon/ikcp.c:1021-1042 | The loop numbers the first min(queue, room) fragments consecutively and appends them in order |
| `SendWindow.UnaKeeps` | FlexProxy/FlexCommon/src/FlexCommon/ikcp.c:560-607 | Sortedness within [una, nxt), una = first number, and the window bound survive; una never moves back |
| `SendWindow.AckKeeps` | FlexProxy/FlexCommon/src/FlexCommon/ikcp.c:560-591 | The same for a selective acknowledgement |
| `ReceiveWindow.InsertKeeps` | FlexProxy/FlexCommon/src/FlexCommon/ikcp.c:695-713 | The walk from the tail keeps `rcv_buf` sorted without duplicates: a new number is added, a repeated one changes nothing |
| `ReceiveWindow.AcceptPushKeeps` | FlexProxy/FlexCommon/src/FlexCommon/ikcp.c:683-743 | `rcv_buf` stays within [rcv_nxt, rcv_nxt+rcv_wnd), `rcv_queue` holds consecutive numbers up to `rcv_nxt`-1, rcv_nxt waits only behind a full queue; a segment is acknowledged iff below the window's end and stored only inside the window |
| `ReceiveWindow.AcceptPushReceived` | FlexProxy/FlexCommon/src/FlexCommon/ikcp.c:827-845 | A data segment makes exactly its own number received, and exactly when it lies in the window |
| `ReceiveWindow.TakeKeeps` | FlexProxy/FlexCommon/src/FlexCommon/ikcp.c:384-425 | Reading k segments advances the application by k and keeps everything else, in order |
| `ReceiveWindow.BufFits` | FlexProxy/FlexCommon/src/FlexCommon/ikcp.c:707-709 | `nrcv_buf` never exceeds `rcv_wnd` |
| `Fragments.MergeLength` | FlexProxy/FlexCommon/src/FlexCommon/ikcp.c:383-411 | The assertion `len == peeksize` holds for any queue contents |
| `Invariants.PeekChangesNothing` | FlexProxy/FlexCommon/src/FlexCommon/ikcp.c:361-434 | A peek (negative length) leaves the whole control block as it was, although it runs the loop that moves segments up and the window-update test |
| `Fragments.CountExact` | FlexProxy/FlexCommon/src/FlexCommon/ikcp.c:507-512 | The fragment count is the least that holds the data |
| `Fragments.SendMessage` | FlexProxy/FlexCommon/src/FlexCommon/ikcp.c:507-534 | Message mode: accepted iff fewer than 128 fragments, then exactly the message's fragments are appended; otherwise -2 and nothing changes |
| `Fragments.SendStream` | FlexProxy/FlexCommon/src/FlexCommon/ikcp.c:477-534 | Stream mode: exactly when a send is accepted, that it appends exactly its bytes, and that all queued segments but the last stay exactly mss long |
| `Fragments.RefusedSendUnchanged` | FlexProxy/FlexCommon/src/FlexCommon/ikcp.c:478-510 | A refused send leaves the queued bytes alone if and only if not in stream mode or the last segment had no room |
| `Fragments.MessageReady` | FlexProxy/FlexCommon/src/FlexCommon/ikcp.c:441-463 | `ikcp_peeksize` succeeds on the start of a message exactly when all its fragments are there |
| `Fragments.MessageWhole` | FlexProxy/FlexCommon/src/FlexCommon/ikcp.c:383-409 | `ikcp_recv` then returns the original message and takes its fragments only |
| `Fragments.MergeSplit` | FlexProxy/FlexCommon/src/FlexCommon/ikcp.c:383-409 | Reassembly undoes fragmentation, whatever follows in the queue |
| `Wire.IntRoundTrip` | FlexProxy/FlexCommon/src/FlexCommon/ikcp.c:54-121 | Little-endian encoding and decoding undo each other for every width |
| `Wire.ByteOrder` | FlexProxy/FlexCommon/src/FlexCommon/ikcp.c:54-121 | Little-endian: byte i is x / 256^i mod 256 |
| `Wire.HeaderBytes` | FlexProxy/FlexCommon/src/FlexCommon/ikcp.c:906-917 | The layout byte by byte: conv, cmd, frg, wnd, ts, sn, una, length, then the payload, and the four command codes |
| `Wire.RefusedBytes` | FlexProxy/FlexCommon/src/FlexCommon/ikcp.c:762-783 | Exactly when a segment is refused: a foreign conversation gives -1, else a payload that is not all there or too long -2, else an unknown command -3 |
| `Wire.ParseStops` | FlexProxy/FlexCommon/src/FlexCommon/ikcp.c:759-858 | Parsing stops at the first refused segment with its code and keeps all before it |
| `Wire.HeaderRoundTrip` | FlexProxy/FlexCommon/src/FlexCommon/ikcp.c:759-786 | A decoded header is the encoded one and passes every test of the input loop |
| `Wire.ParseRoundTrip` | FlexProxy/FlexCommon/src/FlexCommon/ikcp.c:759-858 | The input loop decodes a datagram into exactly the segments it was made of, in order, with code 0 |
| `Wire.ParsedEncodable` | FlexProxy/FlexCommon/src/FlexCommon/ikcp.c:759-786 | Whatever the bytes, each processed segment has fields in range |
| `MiscUtils.OpenSeal` | FlexProxy/FlexServer/src/FlexServer/Forwarder.cpp:227-271 | Every datagram handed to the socket passes the peer's check and decrypts to the encoded bytes |
| `MiscUtils.CorruptionDetected` | FlexProxy/FlexServer/src/FlexServer/Forwarder.cpp:251-263 | With the checksum compiled in, changing any one byte of a datagram gets it dropped |
| `MiscUtils.EncryptedTwice` | FlexProxy/FlexCommon/include/FlexCommon/MiscUtils.h:9-14 | Encryption is its own inverse |
| `MiscUtils.EncryptedBits` | FlexProxy/FlexCommon/include/FlexCommon/MiscUtils.h:9-14 | Each byte is changed, and in exactly the bits of 0xA5 |
| `MiscUtils.XorAllParity` | FlexProxy/FlexCommon/include/FlexCommon/MiscUtils.h:16-23 | Each bit of the checksum is the parity of that bit over the bytes |
| `MiscUtils.SealedBytes` | FlexProxy/FlexServer/src/FlexServer/Forwarder.cpp:227-244 | A datagram byte by byte: the checksum over the cipher bytes when compiled in, then each byte differing from the plain one by 0xA5 |
| `MiscUtils.XorAllUpdate` | FlexProxy/FlexCommon/include/FlexCommon/MiscUtils.h:16-23 | Replacing one byte changes the checksum by the difference of the two |
| `MiscUtils.XorGroup` | FlexProxy/FlexCommon/include/FlexCommon/MiscUtils.h:9-23 | The byte operation both rest on, defined on bits, is a commutative group in which each element is its own inverse |
| `MiscUtils.Encrypt` | FlexProxy/FlexCommon/include/FlexCommon/MiscUtils.h:9-14 | In place: each byte of the range is changed by exactly 0xA5, the bytes around it are untouched |
| `MiscUtils.XorCheck` | FlexProxy/FlexCommon/include/FlexCommon/MiscUtils.h:16-23 | The loop computes the checksum of exactly the given range |
| `Packing.DatagramsConcat` | FlexProxy/FlexCommon/src/FlexCommon/ikcp.c:956-1114 | The datagrams of a flush, concatenated, are the segments in order, none lost, split or repeated |
| `Packing.DatagramsSized` | FlexProxy/FlexCommon/src/FlexCommon/ikcp.c:1089-1095 | Each datagram has at least one segment, is at most one mtu, and could not have taken the first segment of the next |
| `Transmission.SweptMembers` | FlexProxy/FlexCommon/src/FlexCommon/ikcp.c:1049-1108 | The data segments emitted are exactly those that are new, timed out or fast-resent |
| `Transmission.SweptInOrder` | FlexProxy/FlexCommon/src/FlexCommon/ikcp.c:1049-1108 | They leave in the order of their numbers |
| `Engine.ControlBlock.constructor` | FlexProxy/FlexCommon/src/FlexCommon/ikcp.c:234-295 | A fresh block is the initial state of the proofs above |
| `Engine.ControlBlock.SetWndSize` | FlexProxy/FlexCommon/src/FlexCommon/ikcp.c:1272-1283 | Refines the configuration function of WndSizeSets and SettersKeep |
| `Engine.ControlBlock.SetNoDelay` | FlexProxy/FlexCommon/src/FlexCommon/ikcp.c:1246-1269 | Refines that of NoDelaySets and SettersKeep |
| `Engine.ControlBlock.ParseUnaNumber` | FlexProxy/FlexCommon/src/FlexCommon/ikcp.c:593-607 | The loop with early exit refines the function of ParseUnaKeeps, counter included |
| `Engine.ControlBlock.ParseAckNumber` | FlexProxy/FlexCommon/src/FlexCommon/ikcp.c:571-591 | Loop refines the function of RemoveSnKeeps, range test and counter included |
| `Engine.ControlBlock.ParseFastackNumber` | FlexProxy/FlexCommon/src/FlexCommon/ikcp.c:609-631 | Loop refines the function of ParseFastackSpec and InputCounts |
| `Engine.ControlBlock.GrowAcks` | FlexProxy/FlexCommon/src/FlexCommon/ikcp.c:642-665 | The doubled array is large enough and keeps all pushed pairs |
| `Engine.ControlBlock.AckPush` | FlexProxy/FlexCommon/src/FlexCommon/ikcp.c:637-671 | The acknowledgements grow by exactly this pair at the end, across any reallocation |
| `Engine.ControlBlock.MoveUp` | FlexProxy/FlexCommon/src/FlexCommon/ikcp.c:413-425 | Loop refines the move of TakeKeeps and AcceptPushKeeps |
| `Engine.ControlBlock.InsertOnly` | FlexProxy/FlexCommon/src/FlexCommon/ikcp.c:695-713 | Walk from the tail refines the sorted insertion |
| `Engine.ControlBlock.ParseDataSegment` | FlexProxy/FlexCommon/src/FlexCommon/ikcp.c:683-743 | Refines the whole treatment of a data segment |
| `Engine.ControlBlock.Process` | FlexProxy/FlexCommon/src/FlexCommon/ikcp.c:788-853 | The body of the input loop refines the step of InputPacketKeeps |
| `Engine.ControlBlock.GrowWindow` | FlexProxy/FlexCommon/src/FlexCommon/ikcp.c:875-897 | Refines the window growth of GrowOpens and GrowKeeps |
| `Engine.ControlBlock.Input` | FlexProxy/FlexCommon/src/FlexCommon/ikcp.c:749-900 | For any bytes: result code and state are those of the proofs above; the output buffer and what was sent are untouched |
| `Engine.ControlBlock.PeekNext` | FlexProxy/FlexCommon/src/FlexCommon/ikcp.c:441-463 | Computes the size that MergeLength relates to the merged data |
| `Engine.ControlBlock.MergeFragments` | FlexProxy/FlexCommon/src/FlexCommon/ikcp.c:383-409 | Returns the merged message and removes its fragments, unless it only looks |
| `Engine.ControlBlock.Recv` | FlexProxy/FlexCommon/src/FlexCommon/ikcp.c:358-435 | Code, data and new state are those for which delivery is proved |
| `Engine.ControlBlock.ExtendLast` | FlexProxy/FlexCommon/src/FlexCommon/ikcp.c:478-501 | Fills the last queued segment and returns what is left |
| `Engine.ControlBlock.QueueFragments` | FlexProxy/FlexCommon/src/FlexCommon/ikcp.c:514-534 | Loop refines fragmentation |
| `Engine.ControlBlock.Send` | FlexProxy/FlexCommon/src/FlexCommon/ikcp.c:469-535 | Code and new state, -1 for a negative length with nothing changed |
| `Engine.ControlBlock.EncodeSegment` | FlexProxy/FlexCommon/src/FlexCommon/ikcp.c:906-917 | Writes exactly the header bytes at the write position and nothing before it |
| `Engine.ControlBlock.Output` | FlexProxy/FlexServer/src/FlexServer/Forwarder.cpp:227-244 | The datagram sent is the sealed image of the buffer, which is encrypted in place |
| `Engine.ControlBlock.Append` | FlexProxy/FlexCommon/src/FlexCommon/ikcp.c:1089-1102 | Emit-if-full then append stays inside the buffer and keeps it equal to the encoding of the segments not yet sent, although earlier output overwrote it with ciphertext |
| `Engine.ControlBlock.FlushAcks` | FlexProxy/FlexCommon/src/FlexCommon/ikcp.c:956-966 | Packs one ACK per pushed acknowledgement, in order |
| `Engine.ControlBlock.ProbeWindow` | FlexProxy/FlexCommon/src/FlexCommon/ikcp.c:970-990 | Refines the probe step of ProbesExactly and WasksSpaced |
| `Engine.ControlBlock.NumberQueued` | FlexProxy/FlexCommon/src/FlexCommon/ikcp.c:1021-1042 | Loop refines the numbering of MoveToBufSpec and FlushFillsWindow |
| `Engine.ControlBlock.Reschedule` | FlexProxy/FlexCommon/src/FlexCommon/ikcp.c:1052-1081 | The decision and new deadline of one segment, those of TimeoutsBackOff and FastResendEarned |
| `Engine.ControlBlock.SweepSegments` | FlexProxy/FlexCommon/src/FlexCommon/ikcp.c:1049-1108 | Loop over `snd_buf`: packs exactly the due segments and reschedules them in place |
| `Engine.ControlBlock.UpdateWindow` | FlexProxy/FlexCommon/src/FlexCommon/ikcp.c:1116-1137 | Refines the window adjustment of AfterFlushKeeps |
| `Engine.ControlBlock.Flush` | FlexProxy/FlexCommon/src/FlexCommon/ikcp.c:931-1138 | New state and every byte string sent are those of the proved flush, sealed; nothing is sent before the first update |
| `Engine.ControlBlock.UpdateClock` | FlexProxy/FlexCommon/src/FlexCommon/ikcp.c:1150-1168 | Refines the clock step of ScheduleFollows |
| `Engine.ControlBlock.Update` | FlexProxy/FlexCommon/src/FlexCommon/ikcp.c:1146-1171 | State and bytes sent |
| `Engine.ControlBlock.Check` | FlexProxy/FlexCommon/src/FlexCommon/ikcp.c:1183-1219 | Loop refines the prediction of CheckSkipsNothing and CheckIsTight |
| `Engine.ControlBlock.OnUdpData` | FlexProxy/FlexServer/src/FlexServer/Forwarder.cpp:251-271 | A datagram is checked, decrypted in place and fed exactly when it opens; otherwise the block is unchanged |
| `IQueue.Init` | FlexProxy/FlexCommon/include/FlexCommon/ikcp.h:151-152 | The head alone is the empty ring |
| `IQueue.Add` | FlexProxy/FlexCommon/include/FlexCommon/ikcp.h:165-167 | At any node of a ring: forward and backward links are those of the sequence with the node inserted after it; every disjoint ring is untouched |
| `IQueue.AddTail` | FlexProxy/FlexCommon/include/FlexCommon/ikcp.h:169-171 | Appends to the sequence; every disjoint ring is untouched |
| `IQueue.Del` | FlexProxy/FlexCommon/include/FlexCommon/ikcp.h:175-178 | Removes the node from the sequence; every disjoint ring is untouched |
| `IQueue.IsEmpty` | FlexProxy/FlexCommon/include/FlexCommon/ikcp.h:183 | True exactly for the empty sequence |
| `IQueue.FindPlace` | FlexProxy/FlexCommon/src/FlexCommon/ikcp.c:695-705 | The walk over `prev` pointers finds where the sorted insertion of ReceiveWindow puts the segment, or that its number is there |
| `IQueue.Queues.NewSegment` | FlexProxy/FlexCommon/src/FlexCommon/ikcp.c:173-182 | A new segment is held by the call and linked nowhere; all others stay accounted for |
| `IQueue.Queues.Drop` | FlexProxy/FlexCommon/src/FlexCommon/ikcp.c:179-182 | A held segment is freed, and had not been freed before |
| `IQueue.Queues.LinkAt` | FlexProxy/FlexCommon/include/FlexCommon/ikcp.h:165-167 | A held segment enters its queue at any place; counters, the other queues and the accounting are kept |
| `IQueue.Queues.Unlink` | FlexProxy/FlexCommon/include/FlexCommon/ikcp.h:175-178 | A segment leaves its one queue and is held; counters, the other queues and the accounting are kept |
| `IQueue.Queues.Release` | FlexProxy/FlexCommon/src/FlexCommon/ikcp.c:301-328 | Afterwards every segment ever allocated has been freed, by as many deletions as there were segments, and all queues are empty |
| `IQueue.Queues.FreedExactly` | FlexProxy/FlexCommon/src/FlexCommon/ikcp.c:179-182 | The freed segments are exactly those allocated and linked in no queue |
| `IQueue.Attached` | FlexProxy/FlexCommon/src/FlexCommon/ikcp.c:489-490 | On sets: a segment that enters a queue is in exactly one |
| `IQueue.Detached` | FlexProxy/FlexCommon/src/FlexCommon/ikcp.c:401-403 | On sets: a segment that leaves a queue was in exactly one and not freed |
| `SegmentQueues.SendList` | FlexProxy/FlexCommon/src/FlexCommon/ikcp.c:477-534 | `ikcp_send` on the linked list, stream mode's replacement of the last segment included: code and `snd_queue` are those of the proved function, every segment accounted for |
| `SegmentQueues.NumberList` | FlexProxy/FlexCommon/src/FlexCommon/ikcp.c:1021-1042 | The numbering loop moves nodes from `snd_queue` to `snd_buf` and rewrites them: both lists are those of the proved numbering, no other segment changes |
| `SegmentQueues.ParseUnaList` | FlexProxy/FlexCommon/src/FlexCommon/ikcp.c:593-607 | The walk that deletes while it goes along `next` leaves exactly the segments of the proved function and frees the others |
| `SegmentQueues.ParseAckList` | FlexProxy/FlexCommon/src/FlexCommon/ikcp.c:571-591 | The walk to the acknowledged number frees exactly that segment |
| `SegmentQueues.PushList` | FlexProxy/FlexCommon/src/FlexCommon/ikcp.c:683-732 | A data segment on the lists, out-of-window and repeated ones freed at once: `rcv_buf`, `rcv_queue` and `rcv_nxt` are those of the proved function, and one segment was allocated |
| `SegmentQueues.MoveUpList` | FlexProxy/FlexCommon/src/FlexCommon/ikcp.c:413-425 | The loop that moves waiting segments up refines the proved one |
| `SegmentQueues.TakeList` | FlexProxy/FlexCommon/src/FlexCommon/ikcp.c:383-409 | The merging loop, which steps to `next` before it deletes: it returns the message and frees its segments, none when it only looks |
| `SegmentQueues.Lifetime` | FlexProxy/FlexCommon/src/FlexCommon/ikcp.c:301-328 | From creation over any sequence of these calls with any arguments to `ikcp_release`: every segment ever allocated is freed, by exactly one deletion each, and no queue holds any |

## Left out

- Sockets, timers, accept loops, start and stop of the forwarders, configuration, addresses and logging: plumbing around the engine.
- The coroutines: only used as the reason why each call of the engine is one step.
- `ikcp_setmtu`, and window or interval changes once there is traffic: never made here, and they break the window invariants by design.
- The `IKCP_FASTACK_CONSERVE` variant, the alignment variant of the codec, `iqueue_splice`: not compiled or not used.
- Fields that nothing reads back (`kcp->xmit`, `ts_recent`, `ts_lastack`, log masks, `user`): not part of the state. A queued segment keeps number, fragment, deadline, timeout, skips and transmissions; its conv, cmd, ts, wnd and una are written anew before each use and belong to the emitted segment.
- Null buffers and lengths beyond `int`: data is a byte sequence; allocation failure is not modelled.
- Liveness under a fair network: progress is stated for one exchange without loss. A segment's timeout has no cap, so deadlines would need a bound on transmissions.
- Engine.ControlBlock: keeps its four queues as sequences. The same loops on linked nodes are proved in SegmentQueues, against the same functions, but the two are not one class.
- SegmentQueues.Lifetime: covers the passes that link, unlink, allocate or free. The fastack walk and the sending loop of a flush only read `next` and are modelled in Engine. A node carries its segment as one value.
- IQueue.Queues: owns its four heads as separate nodes, where the C struct embeds them; `ikcp_release` is modelled for the segments, not for the acknowledgement array and the buffer.
- WireRun.ProgramDelivers: message mode only; ProgramDeliversRecent covers stream mode but asks that delivered datagrams be legible.
- WireRun.ProgramDeliversRecent: for acknowledged numbers asks for the reach of the comparisons rather than the exact condition of StaleAckHarmless, since a stale one may also move fastack counters.
- Program.ProgramProgress: the two windows that face each other sum to at most 2^31, else a fresh segment can compare as beyond the window and go unacknowledged.
- FastRetransmit.FastResendEarned: runs of fewer than 2^31 - 2 calls, since the transmission counter is compared as a signed 32-bit value.
- Retransmission.TimeoutsBackOff: as long as the timeout stays below 2^30 ms, past which the 32-bit deadline is meaningless.
- ZeroWindow.WindowLearned: receive windows of at most 65535, since the header field has 16 bits; WindowRecovered has the value modulo 65536 for any window.
- RttEstimation.RunBounds: samples below 2^28 ms, above which a signed 32-bit product of the C code could overflow; the model then goes on with unbounded srtt and rttval, and only the clamped `rx_rto` is bounded (Invariants).
- Congestion.GrowKeeps: windows and mss whose product fits 32 bits, as any configured here; the largest peer window of 65535 is included.
