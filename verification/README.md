# molehill, verified

A Dafny model of the protocol core of molehill, a reverse tunnel, with proofs about it.
`dafny verify dfyconfig.toml` checks the whole project.

| file | what it models |
|---|---|
| `Words.dfy` | machine words: wrapping `u32` arithmetic, the signed clock difference, byte orders |
| `KcpWire.dfy` | the KCP segment format, the receive loop that splits a datagram, the packing of segments into datagrams |
| `KcpSpec.dfy` | every operation of the KCP engine as a function of its state, wrap-around included |
| `KcpWindow.dfy`, `KcpOps.dfy` | what each operation keeps: sorted windows, bounds, whole segments within the MTU |
| `KcpAlone.dfy` | one engine facing arbitrary bytes, over every run |
| `KcpHears.dfy`, `KcpFlow.dfy` | what one datagram and one flush do, spelled out, and flow control over every run |
| `KcpRun.dfy` | two engines and a network that loses, duplicates, reorders and replays, over every run |
| `KcpResend.dfy`, `KcpTimers.dfy`, `KcpProbe.dfy`, `KcpCongestion.dfy` | retransmission, the round-trip estimator, `check`, window probes, the congestion window |
| `KcpEngine.dfy` | the engine as an object that changes in place, proved to do what `KcpSpec` says |
| `StripeFrame.dfy`, `StripeSend.dfy`, `StripeRecv.dfy`, `StripeRun.dfy` | one byte stream over several channels: frames, the round-robin writer, the reassembler, and whole transfers |
| `StripeGroups.dfy`, `StripePlan.dfy` | the registry of half-assembled groups with its tombstones, and the lock-free growth gate |
| `Utf8.dfy`, `SessionWire.dfy` | text and integers on the wire, control commands and acknowledgements on one shared stream |
| `IpFrames.dfy`, `UdpFrames.dfy` | the incremental IP frame reader and the UDP frame reader |
| `ClientSessions.dfy` | placing services on shared sessions and driving a session through its request queue |
| `FlowHash.dfy` | the direction-agnostic flow key |

Code that changes state in place is a class or a method with loops, proved equal to a
specification function; the theorems are about those functions and the runs made of them.
The theorems about runs quantify over every finite sequence of steps, with every choice of
the environment (which datagram arrives, how many bytes a channel takes, which call moves
next) left open.

Assumptions of the KCP runs: sequence numbers stay below 2^31 (`KcpWindow.InRange`), the
settings do not change during a run, and the engine is in stream mode, which is the only
mode its constructor offers.

Where code and prose disagree the model follows the code:

- `src/stripe.rs` calls the stripe target never shrunk. Two overlapping `note_stall` calls can
  shrink it; `StripePlan.TargetCanShrink` is such a run, `StripePlan.ShrinksExactlyWhenStale`
  says for every run which stores do it, and `StripePlan.NeverShrinksAlone` when it cannot happen.
- The `u16` sum in `update_ssthresh` can wrap and leave a window below the threshold: it does not
  for any amount in flight if and only if the fast-resend count is at most 32768
  (`KcpCongestion.FastResendFits`).
- With segments of fewer than 16 bytes, which `set_mtu` allows, congestion avoidance can add
  nothing: the window then stays where it is, whatever is acknowledged
  (`KcpCongestion.StuckForGood`). `KcpCongestion.StuckExactly` says when, and
  `KcpCongestion.WindowOpens` that it cannot happen otherwise.
- The comment at `src/stripe.rs:501-504` speaks of bounded reorder buffering. The loop bounds
  the event queue only: what is held back is everything that arrived beyond the first gap
  (`StripeRecv.HeldExactly`), however much that is (`StripeRecv.HoldsBackAnyNumber`).
- The comment on `retransmit_sn` says the next flush or update sends the segment. A flush does
  (`KcpResend.ForcedResend`). An update does if and only if it does not come in the ten seconds
  before the flush time (`KcpResend.ForcedUpdate`); `KcpResend.EarlyUpdateSendsNothing` is a
  state in which it does not, and `check` then still answers 0. The resend of a segment sent
  before also counts as a loss and closes the congestion window to one segment.
- A data segment numbered 2^31 or more above the receive window is taken for an old one and
  acknowledged although it was never received (`KcpWindow.AcceptPushKeeps`).
- Window probes reuse the number and timestamp of the last acknowledgement written, because
  the header template is shared; `flush_ack` stages acknowledgements without writing the last
  batch out. Both are modelled as they are.
- A comment in `src/protocol.rs` gives smaller command tag ranges than the code, which reads tags 1 to 8.

## Model

| member | source | states |
|---|---|---|
| `Words.TimediffExact` | src/kcp.rs:185-187 | The clock difference is the integer difference exactly when the two values are closer than half the number circle, and a clock that advances by less than 2^31 is measured exactly across the wrap |
| `KcpWire.ParseEncoded` | src/kcp.rs:229-262 | Parsing an encoded segment gives back every field and the payload, and the reader stands right behind it, whatever follows |
| `KcpWire.ParsedIsEncoded` | src/kcp.rs:1389-1433 | The other way round: the encoding of a parsed segment is exactly the bytes read |
| `KcpWire.SplitEncoded` | src/kcp.rs:1005-1068 | The receive loop over any concatenation of encoded segments recovers exactly those segments in order, then whatever the tail holds |
| `KcpWire.AcceptsExactly` | src/kcp.rs:1005-1068 | A datagram is read without an error if and only if it is a run of segments of this conversation with fewer bytes than a header behind it, and then exactly those are read |
| `KcpWire.EmitAllKeeps` | src/kcp.rs:1591-1631 | Packing loses, reorders and invents nothing, packed or header-plus-payload; no datagram exceeds the MTU |
| `KcpWire.ControlFills` | src/kcp.rs:1437-1479 | Control segments fill their datagrams: whatever is written while they are emitted had no room for one more |
| `KcpWindow.MoveBufShape` | src/kcp.rs:578-596 | `move_buf` moves exactly the longest consecutive run that the queue has room for |
| `KcpWindow.InsertIndexExact` | src/kcp.rs:945-974 | The backward scan finds the one place that keeps the buffer strictly sorted, and reports a repeat if and only if the number is already there |
| `KcpWindow.AcceptPushKeeps` | src/kcp.rs:1087-1114 | Any arriving data segment keeps the receive window and forgets and invents nothing; it is acknowledged if and only if its number is below the window's end or at least 2^31 above it, and only in the second case has it not been received |
| `KcpWindow.RecvKeeps` | src/kcp.rs:638-665 | Handing out a segment takes exactly the next number, leaves everything else held, and an error changes nothing |
| `KcpWindow.UnaExact` | src/kcp.rs:911-921 | `una` releases exactly the segments below it |
| `KcpWindow.ParseAckExact` | src/kcp.rs:893-909 | A selective acknowledgement removes exactly the segment it names |
| `KcpWindow.FillShape` | src/kcp.rs:1648-1668 | Queued payloads get consecutive numbers in order, and admission stops only at an empty queue or a full window |
| `KcpWindow.FillKeeps` | src/kcp.rs:1648-1668 | Admission keeps the send window sorted and the number in flight within `snd_wnd` |
| `KcpOps.ChunksExact` | src/kcp.rs:839-862 | Cutting a write into segments loses no byte and leaves no empty and no oversized segment |
| `KcpOps.SendOwnedExact` | src/kcp.rs:790-865 | The stream spelled by the queue grows by exactly the accepted bytes; refusal, which changes nothing, happens if and only if the last segment has no room and the data needs 128 segments or more |
| `KcpOps.InputKeeps` | src/kcp.rs:989-1080 | Any bytes as input keep both windows sorted and bounded, and neither `snd_una` nor `rcv_nxt` moves back |
| `KcpHears.InputWindow` | src/kcp.rs:1005-1012 | A datagram leaves the peer's window at what its last readable segment advertises, also when an error ends the reading |
| `KcpHears.InputVerdict` | src/kcp.rs:989-1080 | The answer is an error if and only if the datagram is shorter than a header or not a run of whole segments of the conversation |
| `KcpHears.InputReceives` | src/kcp.rs:1087-1114 | Every data segment of a datagram below the end of the window has then been received, nothing else has that was not before, and each is acknowledged once, in order, with its own timestamp |
| `KcpHears.InputReleases` | src/kcp.rs:893-938 | What a datagram acknowledges, by `una` or by name, goes and nothing else; what stays earns one credit if and only if it is older than the newest acknowledgement and was not sent after that transmission |
| `KcpHears.NewestAckExact` | src/kcp.rs:1028-1038 | The acknowledgement credited is one the datagram carries, and none it carries is newer in both number and timestamp |
| `KcpHears.InputSamples` | src/kcp.rs:1016-1023 | A datagram feeds the estimator exactly one sample for each acknowledgement of a transmission not in the future, in order |
| `KcpHears.InputProgress` | src/kcp.rs:911-921 | The clock of the last sign of life is set if and only if `una` releases something |
| `KcpHears.InputProbe` | src/kcp.rs:1050-1055 | A question for the window, and nothing else in a datagram, makes an answer owed |
| `KcpOps.FlushEmits` | src/kcp.rs:1500-1643 | A peer that splits the datagrams in order reads what was staged before, then the acknowledgements, the probes and the due data, each once; every datagram is within the MTU |
| `KcpFlow.FlushShape` | src/kcp.rs:1500-1643 | Every segment of a flush carries the receive position and the free receive window; first the acknowledgements, each echoing the number and timestamp it answers, then at most one probe and one answer, then data in rising order |
| `KcpFlow.FlushData` | src/kcp.rs:1550-1625 | The data of a flush is exactly the buffered segments never sent, timed out or credited often enough, and everything it numbers, each with its payload and the current time |
| `KcpFlow.FlushAdmits` | src/kcp.rs:1522-1529 | A flush numbers the queue's front, in order, as far as the own window, the peer's and the congestion window all allow, and no less |
| `KcpFlow.FlowControl` | src/kcp.rs:1522-1529 | Over every run: numbers are given out only in a flush, never beyond what the peer advertised last nor beyond the other windows, and something stays queued only when one of them is full |
| `KcpFlow.FlushReacts` | src/kcp.rs:1679-1703 | A timeout closes the window to one segment and halves the threshold from the window before; a fast retransmit alone halves it from what is in flight and reopens at that plus the count; otherwise only a window of zero is opened to one |
| `KcpFlow.FlushRetimes` | src/kcp.rs:1550-1594 | A segment that does not go out keeps its timer; one that does is counted and is due again exactly when its wait is over: the timeout and an eighth at first, half or as much again after a timeout, the same after a fast retransmit |
| `KcpFlow.TimeoutsDouble` | src/kcp.rs:1557-1575 | Timeouts in a row double the wait each time, while the estimate is not above it |
| `KcpFlow.FlushCounts` | src/kcp.rs:1557-1562 | The retransmission count grows by the number of segments that timed out |
| `KcpFlow.FlushDeclaresDead` | src/kcp.rs:1364-1366 | A link is declared dead if and only if nothing was released for more than five seconds and a segment goes out for the configured number of times |
| `KcpOps.FlushKeeps` | src/kcp.rs:1500-1643 | A flush keeps the window invariant and changes no payload and no number of what is buffered |
| `KcpOps.FlushAckKeeps` | src/kcp.rs:1482-1497 | The acknowledgement flush keeps the invariant, adds exactly the owed acknowledgements to what the peer will read, and touches nothing when it fails |
| `KcpOps.RetransmitKeeps` | src/kcp.rs:1320-1331 | Forcing a resend keeps the invariant and every payload |
| `KcpAlone.WindowsAlwaysKept` | src/kcp.rs:886-974 | Over every run of owner operations and arbitrary incoming bytes: both buffers strictly sorted within their windows, `snd_una` at the front of the send buffer, at most `snd_wnd` in flight, receive buffer and queue at most `rcv_wnd` long, no counter ever moves back |
| `KcpRun.ReliableDelivery` | src/kcp.rs:989-1114 | In every state of every run of two engines under loss, duplication, reordering and replay, what each side has handed out is a prefix of what the other side's `send_owned` accepted |
| `KcpRun.NothingReleasedEarly` | src/kcp.rs:886-921 | In every state each number the sender used is still buffered with its payload, or the receiver has handed it out or holds it unchanged |
| `KcpRun.IdleMeansComplete` | src/kcp.rs:578-660 | When the sender has nothing queued or buffered and the reader has drained its queue, the reader has exactly what was accepted |
| `KcpResend.CreditExact` | src/kcp.rs:923-938 | An acknowledgement credits exactly the segments older than the one it names and not sent after the transmission it answers |
| `KcpResend.RetransmitExact` | src/kcp.rs:1320-1331 | The answer is whether the number is still buffered; only that segment's resend time changes |
| `KcpResend.ForcedResend` | src/kcp.rs:1320-1331 | The next flush within 2^31 ms puts the forced segment on the wire with its payload; if it had been sent before, the congestion window closes to one segment |
| `KcpResend.ForcedUpdate` | src/kcp.rs:1708-1732 | The next update within 2^31 ms of `retransmit_sn` sends the segment if and only if it does not come in the ten seconds before the flush time; if it does, it writes nothing |
| `KcpResend.EarlyUpdateSendsNothing` | src/kcp.rs:1316-1331 | A state in which the segment is forced, the next update sends nothing and `check` still answers 0 |
| `KcpTimers.EstimatorBounds` | src/kcp.rs:867-883 | For any samples in [0, 2^29) no step overflows, srtt stays between the smallest and largest sample, and min(60000, srtt + srtt/8) <= rto <= 60000 with rto at least the floor |
| `KcpTimers.EstimatorStep` | src/kcp.rs:867-883 | The first sample is taken over with half of it as variation; any other moves the estimate an eighth of the way to it and the variation a quarter of the way to its distance; the timeout is the smallest with all its margins, within its bounds |
| `KcpTimers.EstimateConverges` | src/kcp.rs:867-883 | After a step in the round-trip time, n samples leave the estimate within (7/8)^n of the old distance, up to a rounding of seven |
| `KcpTimers.ConstantStream` | src/kcp.rs:867-883 | A constant stream of samples r keeps srtt = r and, after at most r/2 + 1 samples, holds the timeout at bound(floor, r + max(interval, r/8), 60000) |
| `KcpTimers.CheckZero` | src/kcp.rs:1189-1226 | `check` answers 0 if and only if `update` was never called, would flush now, or a resend is due |
| `KcpTimers.CheckMissesNothing` | src/kcp.rs:1189-1226 | No flush and no resend falls due strictly before the delay `check` returns, also across the clock's wrap |
| `KcpTimers.CheckIsTight` | src/kcp.rs:1189-1226 | A positive delay is at most the interval, and is the interval unless the flush or a resend falls due exactly at its end |
| `KcpTimers.FlushCadence` | src/kcp.rs:1708-1732 | When `update` flushes, and that the next flush is due one interval after the old time, whatever the delay, if the delay was less than an interval |
| `KcpTimers.NoDrift` | src/kcp.rs:1708-1732 | Over any number of updates that each come before the next deadline all flush and the delays never add up, across the clock's wrap |
| `KcpTimers.FlushRearms` | src/kcp.rs:1550-1594 | After a flush a segment is due if and only if one buffered before has a timer that left the signed 32-bit range; every other timer runs into the future |
| `KcpTimers.UpdateThenCheck` | src/transport/kcp.rs:1279-1294 | Right after `update`, `check` still answers 0 if and only if that update was too early to flush and a resend is already due, or it flushed and a timer had left the signed 32-bit range |
| `KcpAlone.RtoAlwaysKept` | src/kcp.rs:867-883 | Over every run of owner operations and arbitrary incoming bytes the retransmission timeout stays positive and at most 60000 ms |
| `KcpAlone.UpdateThenCheckAlways` | src/kcp.rs:1708-1732 | So the same holds in every state of every run |
| `KcpProbe.LadderTop` | src/kcp.rs:1159-1183 | The waits between window probes rise strictly from 5000 ms and stay at 120000 ms from the eighth probe on |
| `KcpProbe.ProbeBackoff` | src/kcp.rs:1159-1183 | Over every run: a flush emits a window probe if and only if the peer last advertised a closed window, an earlier flush found it so, and the wait has run out that began there or with the last probe; a flush that finds the window open starts the count afresh |
| `KcpProbe.AnnouncesWindow` | src/kcp.rs:1467-1479 | Over every run: a flush tells the peer the free receive window if and only if the peer has asked, or taking a segment has reopened a closed window, since the last flush |
| `KcpCongestion.AcksKeep` | src/kcp.rs:1121-1148 | A batch of acknowledgements never lowers the window, widens it by at most two segments and never past the advertised window, and keeps incr < (cwnd + 1) * mss |
| `KcpCongestion.AckGrowth` | src/kcp.rs:1121-1148 | Without progress, or at the peer's window, nothing changes; below the threshold progress adds exactly one segment; above it the byte counter gains, by how much is stated, and the window follows when the counter is worth a segment more |
| `KcpCongestion.WindowOpens` | src/kcp.rs:1121-1148 | For segments of 16 bytes and more, 31 advancing batches for each segment of the peer's window open it fully, and 31 for each segment of the own window and one more widen that |
| `KcpCongestion.LifeOpens` | src/kcp.rs:1121-1148 | The same over every run of datagrams between flushes |
| `KcpCongestion.StuckExactly` | src/kcp.rs:1121-1148 | Above the threshold progress changes nothing if and only if a segment has fewer than 16 bytes and the byte counter exceeds its square |
| `KcpCongestion.StuckForGood` | src/kcp.rs:1121-1148 | For every segment size below 16 bytes a state whose window no number of acknowledgements opens |
| `KcpCongestion.FlushKeeps` | src/kcp.rs:1679-1703 | After the bookkeeping of a flush ssthresh >= 2, cwnd >= 1 and incr < (cwnd + 1) * mss |
| `KcpCongestion.FastResendFits` | src/kcp.rs:1679-1703 | After a fast retransmit without loss the window is threshold plus fast-resend count for every amount in flight, if and only if the count is at most 32768; above that some amount in flight leaves a window below the threshold |
| `KcpCongestion.InputCongestion` | src/kcp.rs:989-1080 | No datagram lowers the window or raises it past what its last segment advertises |
| `KcpCongestion.FlushCongestion` | src/kcp.rs:1500-1643 | Every flush leaves at least one segment of window |
| `KcpCongestion.CongestionRun` | src/kcp.rs:1121-1148 | In every state of every run of two engines ssthresh >= 2 and incr < (cwnd + 1) * mss, and from a side's first flush on, by `flush` or `update`, cwnd >= 1 |
| `KcpEngine.Engine.NewStream` | src/kcp.rs:484-575 | A fresh engine satisfies every invariant and setting the theorems assume |
| `KcpEngine.Engine.SetMtu` | src/kcp.rs:506-513 | Any size is accepted and leaves room for one payload byte; the settings then meet what the theorems assume if and only if the size is below 2^32 |
| `KcpEngine.Engine.SetWndsize` | src/kcp.rs:1260-1268 | Zero leaves a window as it is; the receive window never falls below 128 |
| `KcpEngine.Engine.SetNodelay` | src/kcp.rs:1234-1256 | The interval is clamped to 10..5000 and the floor is 30 or 100, which is what the timer theorems assume |
| `KcpEngine.Engine.MoveBuf` | src/kcp.rs:578-596 | The in-place loop performs the specified move |
| `KcpEngine.Engine.RecvOwned` | src/kcp.rs:638-665 | In place: the next segment or the error, the refilled queue and the window announcement |
| `KcpEngine.Engine.ParseData` | src/kcp.rs:945-974 | The backward loop inserts where the specification does, or recognises the repeat |
| `KcpEngine.Engine.AcceptPush` | src/kcp.rs:1087-1114 | Window check, acknowledgement and insertion in place |
| `KcpEngine.Engine.SendOwned` | src/kcp.rs:790-865 | The filling and cutting loop gives the specified queue and answer |
| `KcpEngine.Engine.ShrinkBuf` | src/kcp.rs:886-891 | `snd_una` becomes the front of the buffer, or `snd_nxt` |
| `KcpEngine.Engine.ParseUna` | src/kcp.rs:911-921 | The popping loop removes exactly the specified front and notes progress only if something went |
| `KcpEngine.Engine.ParseAck` | src/kcp.rs:893-909 | The scan removes the named segment if it is there |
| `KcpEngine.Engine.ParseFastack` | src/kcp.rs:923-938 | The in-place pass gives the specified credit |
| `KcpEngine.Engine.RetransmitSn` | src/kcp.rs:1320-1331 | The scan makes the named segment due, or answers that it is gone |
| `KcpEngine.Engine.FillSndBuf` | src/kcp.rs:1648-1668 | The loop admits exactly the specified segments |
| `KcpEngine.Engine.UpdateAck` | src/kcp.rs:867-883 | The in-place estimator, each `u32` operation wrapping |
| `KcpEngine.Engine.UpdateCwndAfterAcks` | src/kcp.rs:1121-1148 | The in-place window growth |
| `KcpEngine.Engine.HandleSegment` | src/kcp.rs:1009-1061 | One segment of a datagram: window, release, then by command |
| `KcpEngine.Engine.Input` | src/kcp.rs:989-1080 | The reading loop applies the segments one by one; a malformed one ends it with the earlier ones applied |
| `KcpEngine.Engine.FlushAckInner` | src/kcp.rs:1437-1455 | Every owed acknowledgement is emitted once, in order, and the list is emptied |
| `KcpEngine.Engine.FlushProbeCommands` | src/kcp.rs:1457-1479 | The asked-for probes are emitted and the flags cleared |
| `KcpEngine.Engine.UpdateSsthresh` | src/kcp.rs:1679-1703 | The in-place congestion bookkeeping |
| `KcpEngine.Engine.Retime` | src/kcp.rs:1550-1594 | First transmission, timeout, fast retransmit or neither, with the timers each sets |
| `KcpEngine.Engine.TransmitPass` | src/kcp.rs:1544-1625 | The pass emits exactly the due segments in buffer order, counts losses and fast retransmits, and declares a dead link only after the grace period |
| `KcpEngine.Engine.Flush` | src/kcp.rs:1500-1643 | The whole flush in place: control segments, admission, transmission, batch end, congestion |
| `KcpEngine.Engine.FlushAck` | src/kcp.rs:1482-1497 | The acknowledgement flush in place |
| `KcpEngine.Engine.Update` | src/kcp.rs:1708-1732 | The clock step: when it flushes and when the next flush is due |
| `KcpEngine.Engine.Check` | src/kcp.rs:1189-1226 | The scan over resend times returns the specified delay |
| `StripeFrame.EncodeHeader` | src/stripe.rs:213-231 | A length above 65535 is refused; otherwise the header decodes to the same number and length |
| `StripeFrame.ReadAllExact` | src/stripe.rs:422-466 | On whole frames followed by a proper part of one, the reader reports exactly the whole frames and a break if and only if there is such a part |
| `StripeFrame.StripeReader` | src/stripe.rs:422-466 | The reading loop does so |
| `StripeSend.PollSendExact` | src/stripe.rs:307-359 | However the channels answer, a frame that completes is whole on exactly one channel and the others are untouched; otherwise a proper part sits only on the stripe the next poll resumes with |
| `StripeSend.FirstWilling` | src/stripe.rs:307-359 | Between frames the frame goes to the first stripe in turn that takes it, past all that refuse; a failure or an empty write there is the answer; only when every stripe refuses does the writer wait |
| `StripeSend.StripeSender.PollSend` | src/stripe.rs:307-359 | The poll loop in place; it ends because each turn uses up a stripe to try or commits a byte |
| `StripeRecv.OnFrameAssembles` | src/stripe.rs:505-554 | An early, due or stale frame keeps the destination the front of the stream, and nothing held is lost |
| `StripeRecv.StaleFrame` | src/stripe.rs:529-545 | A frame already delivered or already held changes nothing |
| `StripeRecv.HeldExactly` | src/stripe.rs:525-545 | After any frames `next` is the first number missing, and what is held back is exactly what has arrived beyond it |
| `StripeRecv.HoldsBackAnyNumber` | src/stripe.rs:501-545 | For every n, n frames that arrive before frame 0 are all held back |
| `StripeRecv.Reassembler.Frame` | src/stripe.rs:525-545 | The in-place event step with its draining loop |
| `StripeRun.DestIsPrefix` | src/stripe.rs:375-408 | For every way of reading the source, accepting the writes and scheduling the readers, the destination holds a prefix of the source |
| `StripeRun.CompleteIsExact` | src/stripe.rs:505-554 | Once every frame has been read the destination holds exactly the source and nothing is held back |
| `StripeRun.ChannelsCarryWholeFrames` | src/stripe.rs:307-359 | In every state each channel holds whole frames in increasing order plus, only where the round robin stands, a proper part of the current one; each completed frame is on exactly one channel |
| `StripeGroups.PopIsFilter` | src/stripe.rs:777-782 | On a time-ordered list popping expired tombstones off the front is filtering all of it |
| `StripeGroups.RegisterKeeps` | src/stripe.rs:754-824 | Parked groups stay incomplete and untombstoned; groups of other ids younger than 60 s stay unchanged and older ones go; a refusal does nothing else; a returned group has one stream per index in order, all registered under its id and count |
| `StripeGroups.StripesConserved` | src/stripe.rs:754-824 | Exactly when a stripe is refused; and otherwise it is dropped with a group released in the last 60 s, parked beside the ones of the last 60 s, or returned with exactly those |
| `StripeGroups.CompletesExactly` | src/stripe.rs:809-821 | A stripe completes its group if and only if every other index has been parked within the minute |
| `StripeGroups.GroupCompletes` | src/stripe.rs:754-824 | In every run, when the stripes of one group come in any order, with anything in between, within 60 s of the first, and the group is not released, the last one returns exactly those streams in index order, with the first one's address |
| `StripeGroups.ReleaseKeeps` | src/stripe.rs:835-851 | A release takes out exactly its group, leaves a tombstone, and answers whether the group was parked |
| `StripeGroups.ReleaseForgets` | src/stripe.rs:835-851 | A release leaves its own tombstone and those younger than 60 s, except that the oldest go beyond 512 |
| `StripeGroups.TombstoneDrops` | src/stripe.rs:754-824 | A stripe that lands after its release is dropped, not parked, as long as the tombstone is younger than its time to live |
| `StripeGroups.RegistryRun` | src/stripe.rs:754-851 | Over every run with a clock that does not run back: parked groups incomplete, none tombstoned, at most 512 tombstones in time order |
| `StripeGroups.StripeRegistry.Register` | src/stripe.rs:754-824 | The in-place registration with its popping loop |
| `StripeGroups.StripeRegistry.Release` | src/stripe.rs:835-851 | The in-place release |
| `StripePlan.GrowthIsGated` | src/stripe.rs:131-158 | Under every interleaving of the atomic steps of concurrent calls, won timestamps are at least 500 ms apart, W ms see at most 1 + W/500 growth steps, and the target stays in 1..64 |
| `StripePlan.StallAlone` | src/stripe.rs:131-158 | A call with no other in between grows the target by one, up to 64, if and only if nothing ever grew it or the last growth is at least 500 ms back |
| `StripePlan.NeverShrinksAlone` | src/stripe.rs:131-158 | While no two calls overlap between exchange and store, the target is the starting width plus one per growth step and never shrinks |
| `StripePlan.ShrinksExactlyWhenStale` | src/stripe.rs:146-158 | In every run a step lowers the target if and only if it is a store whose call had loaded the target when it was at least two below what it is now |
| `StripePlan.TargetCanShrink` | src/stripe.rs:146-158 | A run in which the target shrinks |
| `Utf8.RoundTrip` | src/protocol.rs:373-391 | Decoding encoded text gives the text back, and nothing but its encoding by section 3 of RFC 3629 decodes to it |
| `Utf8.MaxPrefixBoundary` | src/protocol.rs:380-391 | The longest prefix of characters that fits is the last character boundary at or before the limit |
| `SessionWire.FitRejectionReason` | src/protocol.rs:380-391 | Walking back to a boundary yields the longest fitting prefix and the ellipsis: valid text of at most 250 bytes, or the reason itself if it fits |
| `SessionWire.ReadEncodedCmd` | src/protocol.rs:1309-1410 | Every command of tags 1 to 8 reads back whole, with the reader right behind it |
| `SessionWire.ReadCmdExact` | src/protocol.rs:1309-1410 | The reader accepts exactly what begins with the encoding of a command, and returns that command and what follows |
| `SessionWire.AckFrameStartsWithZero` | src/protocol.rs:1276-1301 | Every acknowledgement, whatever its reason, is written, is shorter than 256 bytes and starts with a zero byte |
| `SessionWire.FirstByteRule` | src/protocol.rs:1276-1301 | A frame starts with zero if and only if its payload is shorter than 256 bytes, so the shortening is needed |
| `SessionWire.ReadWrittenAck` | src/protocol.rs:1253-1301 | A written acknowledgement reads back with its reason shortened at most, and the reader right behind it |
| `SessionWire.AwaitVerdictLoop` | src/core/client.rs:4145-4199 | The waiting loop dispatches commands in order, queues the drops among them for later, and stops at the acknowledgement |
| `SessionWire.DropsExact` | src/core/client.rs:4145-4199 | Each service drop among the commands is queued, in its place, and nothing else is |
| `SessionWire.VerdictInSync` | src/core/client.rs:4145-4199 | On any commands followed by any framed acknowledgement the wait dispatches exactly those commands in order and returns that acknowledgement |
| `IpFrames.VerdictStands` | src/protocol.rs:984-1010 | A verdict reached on part of the stream stands when more arrives, also when the version byte comes after the length |
| `IpFrames.NextOfEncoded` | src/protocol.rs:984-1010 | An encoded frame reads back if and only if it is long enough for its format; otherwise it is an error |
| `IpFrames.Frames.ReadMore` | src/protocol.rs:926-946 | Compacting and reading keep the unread bytes; an end inside a frame is told from a clean end |
| `IpFrames.Frames.Next` | src/protocol.rs:913-922 | The next frame or error depends on the bytes only, not on how they were read |
| `IpFrames.ReadChannel` | src/protocol.rs:897-946 | For every way of cutting a stream into reads: the same frames and the same ending |
| `IpFrames.BatchRoundTrip` | src/protocol.rs:960-1010 | Reading a batch built from well-sized frames gives exactly those frames, then whatever follows |
| `UdpFrames.AlwaysFramed` | src/protocol.rs:675-706 | A datagram is framed if and only if it has at most 65535 bytes: the header always fits its 32 bytes |
| `UdpFrames.ReadsWithinLimit` | src/protocol.rs:772-818 | Reading any concatenation of encoded frames gives exactly the datagrams within the receiver's limit, in order and with their addresses |
| `UdpFrames.ReadChannel` | src/protocol.rs:708-793 | The reading loop, draining what is oversized |
| `ClientSessions.AddKeeps` | src/core/client.rs:707-795 | An add, re-add or move keeps the invariant, puts the service on the session it resolves to, under its old id if it was there, and leaves every other service alone; a failing one changes nothing |
| `ClientSessions.DeleteKeeps` | src/core/client.rs:890-901 | A delete keeps the invariant and takes the service out |
| `ClientSessions.PlacementRun` | src/core/client.rs:707-908 | After any run of changes: session keys distinct, no session idle, every service on a live session under an id unique there and below `next_id`, and replaying what was sent to a session yields exactly the services mapped to it with their current configuration |
| `ClientSessions.HistoryDecides` | src/core/client.rs:880-908 | After any run of changes the configuration holds what was added last, and a service runs, with the last configuration that could be started and on the session that one resolves to, if and only if there is one not deleted since |
| `ClientSessions.ReplayBatches` | src/core/client.rs:4046-4072 | Taking the request queue in batches is the same as taking it at once |
| `ClientSessions.ClientSession.ApplyPendingRequests` | src/core/client.rs:4046-4072 | The draining loop replays the queue and empties it |
| `ClientSessions.ClientObject.ReapIdleSessions` | src/core/client.rs:803-818 | The removal loop leaves exactly the sessions in use, in order |
| `ClientSessions.ClientObject.SessionIndex` | src/core/client.rs:821-876 | The first session with the key, started at the end if there is none |
| `ClientSessions.ClientObject.AddService` | src/core/client.rs:707-795 | The in-place add |
| `ClientSessions.ClientObject.HandleHotReload` | src/core/client.rs:880-908 | The in-place change, a failing add remembered in the configuration only |
| `FlowHash.MixLoop` | src/transparent/flow.rs:136-142 | The byte loop computes FNV-1a |
| `FlowHash.AvalancheBijective` | src/transparent/flow.rs:98-104 | The finalizer is a bijection on 64-bit values, with its inverse given |
| `FlowHash.OneByteApart` | src/transparent/flow.rs:136-142 | Byte strings of equal length that differ in exactly one place never hash alike |
| `FlowHash.HashIsCanonical` | src/transparent/flow.rs:107-133 | The piecewise hash is FNV-1a over one canonical byte string |
| `FlowHash.CanonicalIsFlow` | src/transparent/flow.rs:107-133 | Two packets share the canonical byte string if and only if they are of the same flow, in either direction |
| `FlowHash.KeyIsHash` | src/transparent/flow.rs:68-70 | The inverse of the finalizer takes the key back to FNV-1a of that string |
| `FlowHash.PublishedValues` | src/transparent/flow.rs:98-142 | The constants give the published values of FNV-1a and splitmix64 |
| `FlowHash.DirectionAgnostic` | src/transparent/flow.rs:68-120 | Both directions of any packet have the same key and slot |
| `FlowHash.NearbyFlowsDiffer` | src/transparent/flow.rs:68-70 | Flows whose canonical strings have equal length and differ in exactly one byte never share a key |
| `FlowHash.SlotIsRemainder` | src/transparent/flow.rs:83-154 | The slot is below every width of at least one and differs from the key by a multiple of the width |

## Left out

- KcpEngine.Engine.SetMtu: the theorems say nothing of sizes of 2^32 bytes and more, because the length field of a segment has 32 bits.
- KcpRun.ReliableDelivery: sequence numbers of 2^31 and more, changes of MTU or window during a run, and message mode are outside the runs, because the code compares numbers that do not wrap and offers stream mode only.
- KcpHears.InputReleases: for datagrams whose numbers stay below 2^31, as a peer's do; arbitrary ones are in KcpOps.InputKeeps. The same holds of KcpHears.InputProgress and KcpHears.NewestAckExact.
- KcpTimers.EstimatorStep: samples and estimates below 2^29 ms, where no step wraps.
- FlowHash.CanonicalIsFlow: packets of one address family with ports at both ends or at neither, as the parser yields them.
- StripeSend.StripeSender.PollSend: the channels' answers are a parameter; waking, flushing and the stall clock are not modelled.
- StripePlan.GrowthIsGated: a stall shorter than the backpressure threshold returns before any step; timestamps are positive, as the wall clock is; the atomic steps interleave, weaker memory orders are not modelled.
- ClientSessions.ClientObject.AddService: whether transports and device can be set up is a flag of the configuration; `next_id` is unbounded where the code has a `u32`.
- ClientSessions.PlacementRun: speaks of the requests replayed, not of what a session's failed activation does to an entry it took out.
- SessionWire.AwaitVerdictLoop: a dispatched command is recorded, and only the queueing of drops among its effects is modelled.
- Liveness: that data arrives when the network is fair is not claimed.
- Errors of the output sink and the byte count `input` returns; the process-wide statistics counters.
- The copying variants `send` and `recv` of the engine, and `peeksize`: they differ from the owned ones in the buffer only.
- Serializer layouts are taken from the widths the source documents; the serializer itself is foreign code.
- Tasks, wakers, sockets, timeouts, aborts, the group monitor and its grace timers.
- The Noise handshake, digests, tokens and the hello exchange.
- Registration verdict handling beyond the wait, and status asks.
- Lane pool, carrier policy, tunnel pool, pin registry and the stream multiplexer.
- Configuration parsing and diffing, command line, status output, device preparation, logging.
