/** The KCP engine's state and its operations as functions of that state.

    `KcpEngine` performs the same operations in place and is proved against
    these functions; the theorems about windows, runs, timers and congestion
    are proved of them. Stream mode only: the one constructor of the engine
    builds it, so every queued segment has `frg == 0`. */
module KcpSpec {
  import opened Words
  import opened KcpWire

  const WND_RCV: u16 := 128
  const THRESH_MIN: u16 := 2
  const RTO_MAX: u32 := 60000
  const RTO_HEADROOM_DIVISOR: u32 := 8
  const PROBE_INIT: u32 := 5000
  const PROBE_LIMIT: u32 := 120000
  const DEAD_GRACE_MS: int := 5000
  const SLAP_LIMIT: int := 10000

  /** Settings that stay fixed for a session. */
  datatype Config = Config(
    conv: u32, mtu: nat, mss: nat, sndWnd: u16, rcvWnd: u16, interval: u32, minrto: u32,
    fastresend: u32, fastlimit: u32, deadLink: u32, nodelay: bool, nocwnd: bool)

  /** A segment in the send buffer: what goes on the wire and its retransmission state. */
  datatype Segment = Segment(pkt: Packet, resendts: u32, rto: u32, fastack: u32, xmit: u32)

  /** The send half. A queued segment is only its payload: every other field is
      overwritten when it enters `buf`. */
  datatype Sender = Sender(una: u32, nxt: u32, queue: seq<bytes>, buf: seq<Segment>)

  datatype Ack = Ack(sn: u32, ts: u32)

  /** The receive half: out-of-order segments, segments ready for the
      application, and the acknowledgements owed to the peer. */
  datatype Receiver = Receiver(nxt: u32, buf: seq<Packet>, queue: seq<Packet>, acks: seq<Ack>)

  datatype Rtt = Rtt(srtt: u32, rttval: u32, rto: u32)

  datatype Congestion = Congestion(cwnd: u16, ssthresh: u16, incr: nat)

  datatype Probe = Probe(ask: bool, tell: bool, ts: u32, wait: u32)

  datatype Kcp = Kcp(
    cfg: Config, snd: Sender, rcv: Receiver, rtt: Rtt, cc: Congestion, probe: Probe, box: Outbox,
    rmtWnd: u16, current: u32, tsFlush: u32, updated: bool, xmit: u32, dead: bool, lastProgress: u32)

  function Wrap32(x: nat): u32 {
    x % TWO32
  }

  // ------------------------------------------------------------ receive half

  /** `move_buf`. */
  function MoveBuf(r: Receiver, wnd: u16): Receiver
    decreases |r.buf|
  {
    if r.buf != [] && r.buf[0].sn == r.nxt && |r.queue| < wnd then
      MoveBuf(r.(nxt := Add32(r.nxt, 1), buf := r.buf[1..], queue := r.queue + [r.buf[0]]), wnd)
    else
      r
  }

  /** Where the backward scan of `parse_data` inserts `sn`; `None` for a repeat. */
  function InsertIndex(buf: seq<Packet>, sn: u32): (r: Option<nat>)
    ensures r.Some? ==> r.value <= |buf|
  {
    if buf == [] then Some(0)
    else
      var last := buf[|buf| - 1];
      if last.sn == sn then None
      else if Timediff(sn, last.sn) > 0 then Some(|buf|)
      else InsertIndex(buf[..|buf| - 1], sn)
  }

  /** `parse_data`. */
  function ParseData(r: Receiver, wnd: u16, p: Packet): Receiver {
    if Timediff(p.sn, Add32(r.nxt, wnd)) >= 0 || Timediff(p.sn, r.nxt) < 0 then r
    else
      var at := InsertIndex(r.buf, p.sn);
      MoveBuf(if at.None? then r else r.(buf := r.buf[..at.value] + [p] + r.buf[at.value..]), wnd)
  }

  /** `accept_push`: beyond the window nothing happens; otherwise the segment is
      acknowledged, and kept unless it was already taken in. */
  function AcceptPush(r: Receiver, wnd: u16, p: Packet): Receiver {
    if Timediff(p.sn, Add32(r.nxt, wnd)) >= 0 then r
    else
      var r1 := r.(acks := r.acks + [Ack(p.sn, p.ts)]);
      if Timediff(p.sn, r.nxt) < 0 then r1 else ParseData(r1, wnd, p)
  }

  /** `recv_owned`. */
  function RecvOwned(k: Kcp): (Kcp, Result<bytes, Error>) {
    if k.rcv.queue == [] then (k, Err(RecvQueueEmpty))
    else if k.rcv.queue[0].frg != 0 then (k, Err(ExpectingFragment))
    else
      var full := |k.rcv.queue| >= k.cfg.rcvWnd;
      var r := MoveBuf(k.rcv.(queue := k.rcv.queue[1..]), k.cfg.rcvWnd);
      (k.(rcv := r, probe := k.probe.(tell := k.probe.tell || (full && |r.queue| < k.cfg.rcvWnd))),
       Ok(k.rcv.queue[0].data))
  }

  function WndUnused(r: Receiver, wnd: u16): u16 {
    if |r.queue| >= wnd then 0 else wnd - |r.queue|
  }

  // --------------------------------------------------------------- send half

  /** `data` cut into runs of `mss` bytes, the last one possibly shorter. */
  function Chunks(data: bytes, mss: nat): (c: seq<bytes>)
    requires mss > 0
    decreases |data|
  {
    if data == [] then [] else
      var n := Min(mss, |data|);
      [data[..n]] + Chunks(data[n..], mss)
  }

  /** How many bytes the last queued segment still takes. */
  function Room(queue: seq<bytes>, mss: nat): nat {
    if queue == [] || |queue[|queue| - 1]| >= mss then 0 else mss - |queue[|queue| - 1]|
  }

  /** `send_owned` on the send queue: fill the last segment, then cut the rest. */
  function SendOwned(queue: seq<bytes>, mss: nat, data: bytes): (seq<bytes>, Result<nat, Error>)
    requires mss > 0
  {
    var ext := Min(|data|, Room(queue, mss));
    var filled := if ext > 0 then queue[..|queue| - 1] + [queue[|queue| - 1] + data[..ext]] else queue;
    var rest := data[ext..];
    if rest == [] then (filled, Ok(ext))
    else if CeilDiv(|rest|, mss) >= WND_RCV then
      (filled, if ext > 0 then Ok(ext) else Err(UserBufTooBig))
    else (filled + Chunks(rest, mss), Ok(|data|))
  }

  /** How many segments at the front of the send buffer `una` releases. */
  function UnaCount(buf: seq<Segment>, una: u32): (n: nat)
    ensures n <= |buf|
  {
    if buf == [] || Timediff(una, buf[0].pkt.sn) <= 0 then 0 else 1 + UnaCount(buf[1..], una)
  }

  /** `shrink_buf`. */
  function Shrink(s: Sender): Sender {
    s.(una := if s.buf == [] then s.nxt else s.buf[0].pkt.sn)
  }

  /** The first position whose number is not below `sn`. */
  function AckIndex(buf: seq<Segment>, sn: u32): (i: nat)
    ensures i <= |buf|
  {
    if buf == [] || sn <= buf[0].pkt.sn then 0 else 1 + AckIndex(buf[1..], sn)
  }

  /** `parse_ack`. */
  function ParseAck(s: Sender, sn: u32): Sender {
    if Timediff(sn, s.una) < 0 || Timediff(sn, s.nxt) >= 0 then s
    else
      var i := AckIndex(s.buf, sn);
      if i < |s.buf| && s.buf[i].pkt.sn == sn then s.(buf := s.buf[..i] + s.buf[i + 1..]) else s
  }

  function Credited(seg: Segment, sn: u32, ts: u32): Segment {
    if sn != seg.pkt.sn && Timediff(ts, seg.pkt.ts) >= 0 then seg.(fastack := Add32(seg.fastack, 1)) else seg
  }

  /** The credit `parse_fastack` hands to segments older than `sn`. */
  function Credit(buf: seq<Segment>, sn: u32, ts: u32): (c: seq<Segment>)
    ensures |c| == |buf|
  {
    if buf == [] || Timediff(sn, buf[0].pkt.sn) < 0 then buf
    else [Credited(buf[0], sn, ts)] + Credit(buf[1..], sn, ts)
  }

  function ParseFastack(s: Sender, sn: u32, ts: u32): Sender {
    if Timediff(sn, s.una) < 0 || Timediff(sn, s.nxt) >= 0 then s
    else s.(buf := Credit(s.buf, sn, ts))
  }

  /** `retransmit_sn`: the index the forward scan stops at, if it is `sn`'s. */
  function RetransmitSn(s: Sender, sn: u32, current: u32): (Sender, bool) {
    var i := ResendIndex(s.buf, sn);
    if i < |s.buf| then (s.(buf := s.buf[i := s.buf[i].(resendts := current)]), true) else (s, false)
  }

  function ResendIndex(buf: seq<Segment>, sn: u32): (i: nat)
    ensures i < |buf| ==> buf[i].pkt.sn == sn
  {
    if buf == [] then 0
    else if buf[0].pkt.sn == sn then 0
    else if Timediff(sn, buf[0].pkt.sn) < 0 then |buf|
    else
      var i := ResendIndex(buf[1..], sn);
      if i < |buf| - 1 then i + 1 else |buf|
  }

  /** What `fill_snd_buf` writes into every segment it admits. */
  datatype FillCtx = FillCtx(conv: u32, wnd: u16, current: u32, una: u32, rto: u32)

  function Admit(c: FillCtx, sn: u32, data: bytes): Segment {
    Segment(Packet(c.conv, CMD_PUSH, 0, c.wnd, c.current, sn, c.una, data), c.current, c.rto, 0, 0)
  }

  /** `fill_snd_buf`. */
  function Fill(s: Sender, c: FillCtx, cwnd: u16): Sender
    decreases |s.queue|
  {
    if s.queue != [] && Timediff(s.nxt, Add32(s.una, cwnd)) < 0 then
      Fill(Sender(s.una, Add32(s.nxt, 1), s.queue[1..], s.buf + [Admit(c, s.nxt, s.queue[0])]), c, cwnd)
    else
      s
  }

  // ------------------------------------------------------- round-trip times

  function Bound(lower: u32, v: u32, upper: u32): u32 {
    Min(Max(lower, v), upper)
  }

  /** `update_ack`, every `u32` operation wrapping. */
  function UpdateAck(r: Rtt, interval: u32, minrto: u32, sample: u32): Rtt {
    var delta := if sample >= r.srtt then sample - r.srtt else r.srtt - sample;
    var rttval := if r.srtt == 0 then sample / 2 else Wrap32(3 * r.rttval + delta) / 4;
    var srtt := if r.srtt == 0 then sample else Max(1, Wrap32(7 * r.srtt + sample) / 8);
    var headroom := Max(Max(interval, Wrap32(4 * rttval)), srtt / RTO_HEADROOM_DIVISOR);
    Rtt(srtt, rttval, Bound(minrto, Add32(srtt, headroom), RTO_MAX))
  }

  // ------------------------------------------------------ congestion window

  function ToU16(x: nat): u16 {
    Min(x, 0xFFFF)
  }

  /** `update_cwnd_after_acks`; `advanced` is whether `snd_una` moved. */
  function UpdateCwnd(c: Congestion, mss: nat, rmtWnd: u16, advanced: bool): Congestion
    requires mss > 0
  {
    if !advanced || c.cwnd >= rmtWnd then c
    else
      var c1 :=
        if c.cwnd < c.ssthresh then c.(cwnd := c.cwnd + 1, incr := c.incr + mss)
        else
          var incr0 := Max(c.incr, mss);
          var incr := incr0 + Quotient(Times(mss, mss), incr0) + mss / 16;
          if Times(c.cwnd + 1, mss) <= incr
          then c.(cwnd := ToU16(CeilDiv(incr, mss)), incr := incr)
          else c.(incr := incr);
      if c1.cwnd > rmtWnd then c1.(cwnd := rmtWnd, incr := Times(rmtWnd, mss)) else c1
  }

  /** `update_ssthresh`; the `u16` addition wraps. */
  function UpdateSsthresh(c: Congestion, mss: nat, change: nat, resent: u32, lost: bool, prior: u16, inflight: u32)
    : Congestion
  {
    var c1 :=
      if change > 0 then
        var ssthresh := Max(ToU16(inflight) / 2, THRESH_MIN);
        var cwnd := (ssthresh + ToU16(resent)) % 0x1_0000;
        Congestion(cwnd, ssthresh, Times(cwnd, mss))
      else c;
    var c2 := if lost then Congestion(1, Max(prior / 2, THRESH_MIN), mss) else c1;
    if c2.cwnd == 0 then c2.(cwnd := 1, incr := mss) else c2
  }

  // ------------------------------------------------------------------- input

  /** One segment of a datagram: the body of the loop of `input`. */
  function OnPacket(k: Kcp, p: Packet): Kcp {
    var n := UnaCount(k.snd.buf, p.una);
    var k1 := k.(rmtWnd := p.wnd, snd := Shrink(k.snd.(buf := k.snd.buf[n..])),
                 lastProgress := if n > 0 then k.current else k.lastProgress);
    if p.cmd == CMD_ACK then
      var rtt := Timediff(k.current, p.ts);
      k1.(rtt := if rtt >= 0 then UpdateAck(k.rtt, k.cfg.interval, k.cfg.minrto, rtt) else k.rtt,
          snd := Shrink(ParseAck(k1.snd, p.sn)))
    else if p.cmd == CMD_PUSH then
      k1.(rcv := AcceptPush(k.rcv, k.cfg.rcvWnd, p))
    else if p.cmd == CMD_WASK then
      k1.(probe := k.probe.(tell := true))
    else
      k1
  }

  function OnPackets(k: Kcp, ps: seq<Packet>): Kcp
    decreases |ps|
  {
    if ps == [] then k else OnPackets(OnPacket(k, ps[0]), ps[1..])
  }

  /** The newest acknowledgement of the datagram: only one that is newer in both
      number and timestamp replaces the one held. */
  function NewestAck(best: Option<Ack>, ps: seq<Packet>): Option<Ack>
    decreases |ps|
  {
    if ps == [] then best else NewestAck(BetterAck(best, ps[0]), ps[1..])
  }

  function BetterAck(best: Option<Ack>, p: Packet): Option<Ack> {
    if p.cmd != CMD_ACK then best
    else if best.None? then Some(Ack(p.sn, p.ts))
    else if Timediff(p.sn, best.value.sn) > 0 && Timediff(p.ts, best.value.ts) > 0 then Some(Ack(p.sn, p.ts))
    else best
  }

  /** What `input` does once the whole datagram is consumed. */
  function AfterPackets(k: Kcp, best: Option<Ack>, oldUna: u32): Kcp
    requires k.cfg.mss > 0
  {
    k.(snd := if best.Some? then ParseFastack(k.snd, best.value.sn, best.value.ts) else k.snd,
       cc := UpdateCwnd(k.cc, k.cfg.mss, k.rmtWnd, Timediff(k.snd.una, oldUna) > 0))
  }

  lemma {:induction false} OnPacketsKeepsConfig(k: Kcp, ps: seq<Packet>)
    ensures OnPackets(k, ps).cfg == k.cfg
    decreases |ps|
  {
    if ps != [] {
      OnPacketsKeepsConfig(OnPacket(k, ps[0]), ps[1..]);
    }
  }

  /** `input`: a malformed segment ends it with the earlier ones applied. */
  function Input(k: Kcp, d: bytes): (Kcp, Option<Error>)
    requires k.cfg.mss > 0
  {
    if |d| < OVERHEAD then (k, Some(InvalidSegmentSize(|d|)))
    else
      var c := Split(d, k.cfg.conv);
      var k1 := OnPackets(k, c.packets);
      OnPacketsKeepsConfig(k, c.packets);
      if c.error.Some? then (k1, c.error)
      else (AfterPackets(k1, NewestAck(None, c.packets), k.snd.una), None)
  }

  // ------------------------------------------------------------------- flush

  function AckPackets(conv: u32, wnd: u16, una: u32, acks: seq<Ack>): seq<Packet> {
    seq(|acks|, i requires 0 <= i < |acks| => Packet(conv, CMD_ACK, 0, wnd, acks[i].ts, acks[i].sn, una, []))
  }

  /** `probe_wnd_size`. */
  function ProbeWndSize(p: Probe, rmtWnd: u16, current: u32): Probe {
    if rmtWnd != 0 then p.(ts := 0, wait := 0)
    else if p.wait == 0 then p.(wait := PROBE_INIT, ts := Add32(current, PROBE_INIT))
    else if Timediff(current, p.ts) >= 0 then
      var w := Max(p.wait, PROBE_INIT);
      var w' := Min(w + w / 2, PROBE_LIMIT);
      p.(wait := w', ts := Add32(current, w'), ask := true)
    else p
  }

  function ProbeHeaders(ask: bool, tell: bool, conv: u32, wnd: u16, una: u32, last: Ack): seq<Packet> {
    (if ask then [Packet(conv, CMD_WASK, 0, wnd, last.ts, last.sn, una, [])] else [])
    + (if tell then [Packet(conv, CMD_WINS, 0, wnd, last.ts, last.sn, una, [])] else [])
  }

  /** `flush_probe_commands`: the header template still carries the number and
      the timestamp of the last acknowledgement written. */
  function ProbePackets(p: Probe, conv: u32, wnd: u16, una: u32, acks: seq<Ack>): seq<Packet> {
    ProbeHeaders(p.ask, p.tell, conv, wnd, una, if acks == [] then Ack(0, 0) else acks[|acks| - 1])
  }

  /** What one pass over the send buffer sees. */
  datatype TxCtx = TxCtx(
    current: u32, rto: u32, rtomin: u32, resent: u32, fastlimit: u32, nodelay: bool, wnd: u16, una: u32)

  datatype Kind = Idle | First | Timeout | Fast

  function KindOf(seg: Segment, c: TxCtx): Kind {
    if seg.xmit == 0 then First
    else if Timediff(c.current, seg.resendts) >= 0 then Timeout
    else if seg.fastack >= c.resent && (seg.xmit <= c.fastlimit || c.fastlimit == 0) then Fast
    else Idle
  }

  function Transmit(seg: Segment, c: TxCtx): Segment {
    var s1 := match KindOf(seg, c)
      case First =>
        seg.(xmit := Add32(seg.xmit, 1), rto := c.rto,
             resendts := Add32(Add32(c.current, c.rto), c.rtomin))
      case Timeout =>
        var rto := Add32(seg.rto, if c.nodelay then seg.rto / 2 else Max(seg.rto, c.rto));
        seg.(xmit := Add32(seg.xmit, 1), rto := rto, resendts := Add32(c.current, rto))
      case Fast =>
        seg.(xmit := Add32(seg.xmit, 1), fastack := 0, resendts := Add32(c.current, seg.rto))
      case Idle => seg;
    if KindOf(seg, c).Idle? then seg
    else s1.(pkt := seg.pkt.(ts := c.current, wnd := c.wnd, una := c.una))
  }

  function TransmitAll(buf: seq<Segment>, c: TxCtx): seq<Segment> {
    seq(|buf|, i requires 0 <= i < |buf| => Transmit(buf[i], c))
  }

  /** The segments a pass puts on the wire, in buffer order. */
  function Due(buf: seq<Segment>, c: TxCtx): seq<Packet> {
    if buf == [] then []
    else
      var last := buf[|buf| - 1];
      Due(buf[..|buf| - 1], c) + (if KindOf(last, c).Idle? then [] else [Transmit(last, c).pkt])
  }

  function CountKind(buf: seq<Segment>, c: TxCtx, kind: Kind): nat {
    if buf == [] then 0
    else CountKind(buf[..|buf| - 1], c, kind) + (if KindOf(buf[|buf| - 1], c) == kind then 1 else 0)
  }

  predicate AnyGone(buf: seq<Segment>, c: TxCtx, deadLink: u32) {
    exists i :: 0 <= i < |buf| && !KindOf(buf[i], c).Idle? && Transmit(buf[i], c).xmit >= deadLink
  }

  function SendWindow(k: Kcp): u16 {
    var w := Min(k.cfg.sndWnd, k.rmtWnd);
    if k.cfg.nocwnd then w else Min(k.cc.cwnd, w)
  }

  function FillCtxOf(k: Kcp): FillCtx {
    FillCtx(k.cfg.conv, WndUnused(k.rcv, k.cfg.rcvWnd), k.current, k.rcv.nxt, k.rtt.rto)
  }

  function TxCtxOf(k: Kcp): TxCtx {
    TxCtx(k.current, k.rtt.rto, if k.cfg.nodelay then 0 else k.rtt.rto / 8,
          if k.cfg.fastresend > 0 then k.cfg.fastresend else TWO32 - 1,
          k.cfg.fastlimit, k.cfg.nodelay, WndUnused(k.rcv, k.cfg.rcvWnd), k.rcv.nxt)
  }

  /** Everything one flush puts on the wire: acknowledgements, probes, due data. */
  function Emission(k: Kcp): seq<Packet> {
    var wnd := WndUnused(k.rcv, k.cfg.rcvWnd);
    AckPackets(k.cfg.conv, wnd, k.rcv.nxt, k.rcv.acks)
    + ProbePackets(ProbeWndSize(k.probe, k.rmtWnd, k.current), k.cfg.conv, wnd, k.rcv.nxt, k.rcv.acks)
    + Due(Fill(k.snd, FillCtxOf(k), SendWindow(k)).buf, TxCtxOf(k))
  }

  function Sub32(a: u32, b: u32): u32 {
    if a >= b then a - b else a - b + TWO32
  }

  /** `flush` once `update` has run. */
  function FlushNow(k: Kcp): Kcp {
    var s := Fill(k.snd, FillCtxOf(k), SendWindow(k));
    var c := TxCtxOf(k);
    var timeouts := CountKind(s.buf, c, Timeout);
    var still := Timediff(k.current, k.lastProgress) > DEAD_GRACE_MS;
    k.(snd := s.(buf := TransmitAll(s.buf, c)),
       rcv := k.rcv.(acks := []),
       cc := UpdateSsthresh(k.cc, k.cfg.mss, CountKind(s.buf, c, Fast), c.resent, timeouts > 0, k.cc.cwnd,
                            Sub32(s.nxt, s.una)),
       probe := ProbeWndSize(k.probe, k.rmtWnd, k.current).(ask := false, tell := false),
       box := Seal(EmitAll(k.box, k.cfg.mtu, Emission(k))),
       xmit := Wrap32(k.xmit + timeouts),
       dead := k.dead || (still && AnyGone(s.buf, c, k.cfg.deadLink)))
  }

  function Flush(k: Kcp): (Kcp, Option<Error>) {
    if k.updated then (FlushNow(k), None) else (k, Some(NeedUpdate))
  }

  /** `flush_ack`: the acknowledgements are staged, and written only as the
      staging buffer overflows. */
  function FlushAck(k: Kcp): (Kcp, Option<Error>) {
    if !k.updated then (k, Some(NeedUpdate))
    else
      var acks := AckPackets(k.cfg.conv, WndUnused(k.rcv, k.cfg.rcvWnd), k.rcv.nxt, k.rcv.acks);
      (k.(box := EmitAll(k.box, k.cfg.mtu, acks), rcv := k.rcv.(acks := [])), None)
  }

  /** The clock half of `update`: the new schedule, and whether a flush is due. */
  function Tick(k: Kcp, current: u32): (Kcp, bool) {
    var ts0 := if k.updated then k.tsFlush else current;
    var slap0 := Timediff(current, ts0);
    var reset := slap0 < -SLAP_LIMIT || slap0 >= SLAP_LIMIT;
    var ts1 := if reset then current else ts0;
    if reset || slap0 >= 0 then
      var ts2 := Add32(ts1, k.cfg.interval);
      (k.(current := current, updated := true,
          tsFlush := if Timediff(current, ts2) >= 0 then Add32(current, k.cfg.interval) else ts2), true)
    else
      (k.(current := current, updated := true, tsFlush := ts1), false)
  }

  function Update(k: Kcp, current: u32): Kcp {
    var (k1, due) := Tick(k, current);
    if due then FlushNow(k1) else k1
  }

  // ------------------------------------------------------------------- check

  /** The smallest delay until a resend falls due, `None` once one is due. */
  function ResendDelay(buf: seq<Segment>, current: u32): Option<u32> {
    if buf == [] then Some(TWO32 - 1)
    else
      var d := Timediff(buf[|buf| - 1].resendts, current);
      var rest := ResendDelay(buf[..|buf| - 1], current);
      if rest.None? || d <= 0 then None else Some(Min(rest.value, d))
  }

  /** `check`. */
  function Check(k: Kcp, current: u32): u32 {
    var slap := Timediff(current, k.tsFlush);
    if !k.updated || slap >= 0 || slap < -SLAP_LIMIT then 0
    else
      var resend := ResendDelay(k.snd.buf, current);
      if resend.None? then 0 else Min(Min(resend.value, -slap), k.cfg.interval)
  }
}
