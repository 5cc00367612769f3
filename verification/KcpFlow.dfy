/** What a flush admits and what it puts on the wire, spelled out from the state. */
module KcpFlow {
  import opened Words
  import opened KcpWire
  import opened KcpSpec
  import opened KcpWindow
  import opened KcpOps
  import opened KcpAlone
  import B = KcpResend
  import T = KcpTimers

  // ------------------------------------------------------------ flow control

  /** The number in flight respects every window that applies. */
  predicate WithinWindows(cfg: Config, peer: u16, cwnd: u16, inflight: int) {
    inflight <= cfg.sndWnd && inflight <= peer && (cfg.nocwnd || inflight <= cwnd)
  }

  /** The number in flight has reached one of the windows that apply. */
  predicate WindowFull(cfg: Config, peer: u16, cwnd: u16, inflight: int) {
    inflight >= cfg.sndWnd || inflight >= peer || (!cfg.nocwnd && inflight >= cwnd)
  }

  /** A flush numbers the queue's front, in order, as far as the own window, the peer's
      and the congestion window all allow, and no less. */
  lemma FlushAdmits(k: Kcp)
    requires KcpInv(k) && InRange(k)
    ensures var s, n := FlushNow(k).snd, FlushNow(k).snd.nxt - k.snd.nxt;
            && s.una == k.snd.una && 0 <= n <= |k.snd.queue| && s.queue == k.snd.queue[n..]
            && (n > 0 ==> WithinWindows(k.cfg, k.rmtWnd, k.cc.cwnd, s.nxt - s.una))
            && (s.queue != [] ==> WindowFull(k.cfg, k.rmtWnd, k.cc.cwnd, s.nxt - s.una))
  {
    hide CleanBox, PayloadInv, ReceiverInv, SortedSegments;
    var n := FillShape(k.snd, FillCtxOf(k), SendWindow(k));
    hide Fill, FillCtxOf, Emission, EmitAll, UpdateSsthresh, TxCtxOf, TransmitAll, CountKind, Seal;
    assert FlushNow(k).snd == Fill(k.snd, FillCtxOf(k), SendWindow(k)).(buf := FlushNow(k).snd.buf);
  }

  /** Flow control over every life: a number is given out only in a flush, never beyond
      what the peer advertised last nor beyond the other windows, and a flush leaves
      something queued only when one of them is full. */
  lemma FlowControl(states: seq<Kcp>, events: seq<Event>, i: nat)
    requires IsLife(states, events) && i < |events|
    ensures var k, s, s' := states[i], states[i].snd, states[i + 1].snd;
            && (s'.nxt > s.nxt ==>
                  && FlushPoint(k, events[i]).Some?
                  && WithinWindows(states[0].cfg, Advertised(states, events, i), k.cc.cwnd, s'.nxt - s'.una))
            && (FlushPoint(k, events[i]).Some? && s'.queue != [] ==>
                  WindowFull(states[0].cfg, Advertised(states, events, i), k.cc.cwnd, s'.nxt - s'.una))
  {
    hide KcpInv, InRange, Apply, FlushPoint, Advertised, WithinWindows, WindowFull, FlushNow, Input;
    var k, e := states[i], events[i];
    WindowsAlwaysKept(states, events, 0, i);
    AdvertisedIs(states, events, i);
    assert states[i + 1] == Apply(k, e) && ConfigOk(k.cfg);
    if FlushPoint(k, e).Some? {
      FlushApplies(k, e);
      PointIs(k, e);
      PointKeeps(k, e);
      FlushAdmits(FlushPoint(k, e).value);
    } else if e.Owner? {
      QuietIs(k, e);
    } else {
      HearIs(k, e);
      InputKeeps(k, e.d);
    }
  }

  lemma HearIs(k: Kcp, e: Event)
    requires ConfigOk(k.cfg) && e.Hear?
    ensures Apply(k, e) == Input(k, e.d).0 && FlushPoint(k, e).None?
  {
    hide Input;
  }

  // -------------------------------------------------------------- the wire

  /** Why a buffered segment goes out: it never did, its timer has run out, or later
      ones have been acknowledged often enough and it has not been resent too often. */
  predicate GoesOut(k: Kcp, seg: Segment) {
    || seg.xmit == 0
    || Timediff(k.current, seg.resendts) >= 0
    || (seg.fastack >= (if k.cfg.fastresend > 0 then k.cfg.fastresend else TWO32 - 1)
        && (seg.xmit <= k.cfg.fastlimit || k.cfg.fastlimit == 0))
  }

  /** Data segment `p` is a buffered one that goes out, or a queued payload numbered now. */
  predicate DataFor(k: Kcp, admitted: nat, p: Packet) {
    || (exists i :: 0 <= i < |k.snd.buf| && GoesOut(k, k.snd.buf[i])
                    && k.snd.buf[i].pkt.sn == p.sn && k.snd.buf[i].pkt.data == p.data)
    || (exists j :: 0 <= j < admitted <= |k.snd.queue| && p.sn == k.snd.nxt + j && p.data == k.snd.queue[j])
  }

  /** Acknowledgements before probes before answers before data. */
  function Rank(p: Packet): nat {
    if p.cmd == CMD_ACK then 0 else if p.cmd == CMD_WASK then 1 else if p.cmd == CMD_WINS then 2 else 3
  }

  predicate InRank(p: Packet, q: Packet) {
    Rank(p) < Rank(q) || (Rank(p) == Rank(q) == 0) || (Rank(p) == Rank(q) == 3 && p.sn < q.sn)
  }

  lemma KindMeans(k: Kcp, seg: Segment)
    ensures !KindOf(seg, TxCtxOf(k)).Idle? <==> GoesOut(k, seg)
  {
  }

  predicate Rising(ps: seq<Packet>) {
    forall i, j :: 0 <= i < j < |ps| ==> ps[i].sn < ps[j].sn
  }

  predicate Below(ps: seq<Packet>, sn: u32) {
    forall i :: 0 <= i < |ps| ==> ps[i].sn < sn
  }

  lemma {:induction false} DueRises(buf: seq<Segment>, c: TxCtx)
    requires SortedSegments(buf)
    ensures Rising(Due(buf, c))
    ensures forall sn: u32 :: (buf == [] || buf[|buf| - 1].pkt.sn < sn) ==> Below(Due(buf, c), sn)
  {
    if buf != [] {
      var front, last := buf[..|buf| - 1], buf[|buf| - 1];
      DueRises(front, c);
      assert Transmit(last, c).pkt.sn == last.pkt.sn;
      assert front != [] ==> buf[|front| - 1].pkt.sn < buf[|buf| - 1].pkt.sn;
      assert Below(Due(front, c), last.pkt.sn);
      hide Transmit, KindOf, SortedSegments;
      assert Due(buf, c) == Due(front, c) || Due(buf, c) == Due(front, c) + [Transmit(last, c).pkt];
    }
  }

  /** Everything about a due packet but why it is due. */
  lemma DueStamp(k: Kcp, s: Sender, p: Packet)
    requires PayloadInv(s, k.cfg) && p in Due(s.buf, TxCtxOf(k))
    ensures p.cmd == CMD_PUSH && p.frg == 0 && p.conv == k.cfg.conv && p.ts == k.current
            && p.una == k.rcv.nxt && p.wnd == WndUnused(k.rcv, k.cfg.rcvWnd)
  {
    var c := TxCtxOf(k);
    DueFrom(s.buf, c, p);
    var i :| 0 <= i < |s.buf| && !KindOf(s.buf[i], c).Idle? && p == Transmit(s.buf[i], c).pkt;
    assert s.buf[i].pkt.cmd == CMD_PUSH;
  }

  /** What is due after admission, traced to what was there before. */
  lemma DueTraced(k: Kcp, s: Sender, n: nat, p: Packet)
    requires Admitted(k.snd, s, n) && p in Due(s.buf, TxCtxOf(k))
    ensures DataFor(k, n, p)
  {
    var c := TxCtxOf(k);
    DueFrom(s.buf, c, p);
    var i :| 0 <= i < |s.buf| && !KindOf(s.buf[i], c).Idle? && p == Transmit(s.buf[i], c).pkt;
    assert p.sn == s.buf[i].pkt.sn && p.data == s.buf[i].pkt.data;
    KindMeans(k, s.buf[i]);
    hide KindOf, Transmit, GoesOut, Due;
    if i < |k.snd.buf| {
      assert s.buf[i] == k.snd.buf[i];
    } else {
      assert p.data == k.snd.queue[i - |k.snd.buf|];
    }
  }

  lemma BufferedIsDue(k: Kcp, s: Sender, n: nat, i: nat) returns (p: Packet)
    requires Admitted(k.snd, s, n) && i < |k.snd.buf| && GoesOut(k, k.snd.buf[i])
    ensures p in Due(s.buf, TxCtxOf(k)) && p.sn == k.snd.buf[i].pkt.sn && p.data == k.snd.buf[i].pkt.data
  {
    assert s.buf[i] == k.snd.buf[i];
    KindMeans(k, s.buf[i]);
    p := Transmit(s.buf[i], TxCtxOf(k)).pkt;
    hide KindOf, Due;
    B.DueHas(s.buf, TxCtxOf(k), i);
  }

  lemma AdmittedIsDue(k: Kcp, s: Sender, n: nat, j: nat) returns (p: Packet)
    requires Admitted(k.snd, s, n) && j < n && forall i :: |k.snd.buf| <= i < |s.buf| ==> s.buf[i].xmit == 0
    ensures p in Due(s.buf, TxCtxOf(k)) && p.sn == k.snd.nxt + j && p.data == k.snd.queue[j]
  {
    var i := |k.snd.buf| + j;
    KindMeans(k, s.buf[i]);
    p := Transmit(s.buf[i], TxCtxOf(k)).pkt;
    assert s.buf[i].pkt.data == k.snd.queue[i - |k.snd.buf|];
    hide KindOf, Due;
    B.DueHas(s.buf, TxCtxOf(k), i);
  }

  /** The three parts of a flush's output. */
  function AcksOf(k: Kcp): seq<Packet> {
    AckPackets(k.cfg.conv, WndUnused(k.rcv, k.cfg.rcvWnd), k.rcv.nxt, k.rcv.acks)
  }

  function ProbesOf(k: Kcp): seq<Packet> {
    ProbePackets(ProbeWndSize(k.probe, k.rmtWnd, k.current), k.cfg.conv, WndUnused(k.rcv, k.cfg.rcvWnd), k.rcv.nxt, k.rcv.acks)
  }

  function DataOf(k: Kcp): seq<Packet> {
    Due(Fill(k.snd, FillCtxOf(k), SendWindow(k)).buf, TxCtxOf(k))
  }

  lemma Parts(k: Kcp)
    ensures Emission(k) == AcksOf(k) + ProbesOf(k) + DataOf(k)
  {
  }

  /** What every segment of a flush says of its sender. */
  predicate Stamped(k: Kcp, p: Packet) {
    p.conv == k.cfg.conv && p.frg == 0 && p.una == k.rcv.nxt && p.wnd + |k.rcv.queue| == k.cfg.rcvWnd
  }

  lemma DataStamped(k: Kcp)
    requires KcpInv(k) && InRange(k)
    ensures forall p :: p in DataOf(k) ==> Stamped(k, p) && p.cmd == CMD_PUSH && p.ts == k.current
    ensures Rising(DataOf(k))
  {
    hide Due, TxCtxOf, FillCtxOf, SendWindow, Fill, InRange;
    FreeIs(k);
    var n := FillKeeps(k);
    var s := Fill(k.snd, FillCtxOf(k), SendWindow(k));
    hide KcpInv, WndUnused;
    DueRises(s.buf, TxCtxOf(k));
    forall p | p in DataOf(k) ensures Stamped(k, p) && p.cmd == CMD_PUSH && p.ts == k.current {
      DueStamp(k, s, p);
    }
  }

  lemma AcksStamped(k: Kcp)
    requires KcpInv(k)
    ensures |AcksOf(k)| == |k.rcv.acks|
    ensures forall i :: 0 <= i < |k.rcv.acks| ==> Stamped(k, AcksOf(k)[i]) && Echoes(AcksOf(k)[i], k.rcv.acks[i])
  {
    hide KcpInv, WndUnused;
    FreeIs(k);
  }

  /** `p` acknowledges exactly the transmission `a`. */
  predicate Echoes(p: Packet, a: Ack) {
    p.cmd == CMD_ACK && p.sn == a.sn && p.ts == a.ts && p.data == []
  }

  predicate IsProbe(p: Packet) {
    (p.cmd == CMD_WASK || p.cmd == CMD_WINS) && p.data == []
  }

  lemma ProbesStamped(k: Kcp)
    requires KcpInv(k)
    ensures forall i :: 0 <= i < |ProbesOf(k)| ==> Stamped(k, ProbesOf(k)[i]) && IsProbe(ProbesOf(k)[i])
    ensures |ProbesOf(k)| <= 2 && (|ProbesOf(k)| == 2 ==> ProbesOf(k)[0].cmd == CMD_WASK && ProbesOf(k)[1].cmd == CMD_WINS)
  {
    hide KcpInv, WndUnused, ProbeWndSize;
    FreeIs(k);
  }

  /** The shape of a flush's output: every segment carries this side's receive position
      and free window; first the acknowledgements, each echoing the number and timestamp
      it answers, then at most one probe and one answer, then data in rising order. */
  lemma FlushShape(k: Kcp)
    requires KcpInv(k) && InRange(k)
    ensures var e := Emission(k);
            && |k.rcv.acks| <= |e| && (forall i :: 0 <= i < |e| ==> Stamped(k, e[i]))
            && (forall i :: 0 <= i < |k.rcv.acks| ==> Echoes(e[i], k.rcv.acks[i]))
            && (forall i :: |k.rcv.acks| <= i < |e| ==> e[i].cmd != CMD_ACK)
            && (forall i, j :: 0 <= i < j < |e| ==> InRank(e[i], e[j]))
  {
    hide KcpInv, InRange, Emission, AcksOf, ProbesOf, DataOf, Stamped;
    Parts(k);
    DataStamped(k);
    AcksStamped(k);
    ProbesStamped(k);
    var a, p, d := AcksOf(k), ProbesOf(k), DataOf(k);
    forall i | 0 <= i < |d| ensures Stamped(k, d[i]) && d[i].cmd == CMD_PUSH {
      assert d[i] in d;
    }
    Ranked(k, a, p, d);
  }

  lemma Ranked(k: Kcp, a: seq<Packet>, p: seq<Packet>, d: seq<Packet>)
    requires |a| == |k.rcv.acks| && forall i :: 0 <= i < |a| ==> Stamped(k, a[i]) && Echoes(a[i], k.rcv.acks[i])
    requires forall i :: 0 <= i < |p| ==> Stamped(k, p[i]) && IsProbe(p[i])
    requires |p| <= 2 && (|p| == 2 ==> p[0].cmd == CMD_WASK && p[1].cmd == CMD_WINS)
    requires forall i :: 0 <= i < |d| ==> Stamped(k, d[i]) && d[i].cmd == CMD_PUSH
    requires Rising(d)
    ensures var e := a + p + d;
            && (forall i :: 0 <= i < |e| ==> Stamped(k, e[i]))
            && (forall i :: 0 <= i < |a| ==> Echoes(e[i], k.rcv.acks[i]))
            && (forall i :: |a| <= i < |e| ==> e[i].cmd != CMD_ACK)
            && (forall i, j :: 0 <= i < j < |e| ==> InRank(e[i], e[j]))
  {
    hide Stamped;
  }

  lemma OnlyDataPushes(k: Kcp, p: Packet)
    requires KcpInv(k) && InRange(k) && p.cmd == CMD_PUSH
    ensures p in Emission(k) <==> p in DataOf(k)
  {
    hide KcpInv, InRange, Emission, AcksOf, ProbesOf, DataOf, Stamped;
    Parts(k);
    AcksStamped(k);
    ProbesStamped(k);
    forall q | q in AcksOf(k) ensures q.cmd == CMD_ACK {
      var i :| 0 <= i < |AcksOf(k)| && AcksOf(k)[i] == q;
      assert Echoes(q, k.rcv.acks[i]);
    }
  }

  /** Emitted data is `sn` with `data`. */
  predicate Pushed(e: seq<Packet>, sn: u32, data: bytes) {
    exists p :: p in e && p.cmd == CMD_PUSH && p.sn == sn && p.data == data
  }

  lemma DataIs(k: Kcp) returns (s: Sender, n: nat)
    requires KcpInv(k) && InRange(k)
    ensures DataOf(k) == Due(s.buf, TxCtxOf(k)) && Admitted(k.snd, s, n) && n == FlushNow(k).snd.nxt - k.snd.nxt
    ensures forall i :: |k.snd.buf| <= i < |s.buf| ==> s.buf[i].xmit == 0
  {
    hide KcpInv, InRange, Fill, FillCtxOf, SendWindow, TxCtxOf, TransmitAll, UpdateSsthresh, CountKind, EmitAll, Seal, Due;
    T.FillBehind(k.snd, FillCtxOf(k), SendWindow(k));
    n := FillKeeps(k);
    s := Fill(k.snd, FillCtxOf(k), SendWindow(k));
  }

  lemma PushIsOwed(k: Kcp, p: Packet)
    requires KcpInv(k) && InRange(k) && p in Emission(k) && p.cmd == CMD_PUSH
    ensures var n := FlushNow(k).snd.nxt - k.snd.nxt; 0 <= n && p.ts == k.current && DataFor(k, n, p)
  {
    hide KcpInv, InRange, Emission, DataOf, Stamped, DataFor, FlushNow, Due, TxCtxOf;
    OnlyDataPushes(k, p);
    DataStamped(k);
    var s, n := DataIs(k);
    DueTraced(k, s, n, p);
  }

  lemma OwedIsPushed(k: Kcp, i: nat)
    requires KcpInv(k) && InRange(k) && i < |k.snd.buf| && GoesOut(k, k.snd.buf[i])
    ensures Pushed(Emission(k), k.snd.buf[i].pkt.sn, k.snd.buf[i].pkt.data)
  {
    hide KcpInv, InRange, Emission, DataOf, Stamped, GoesOut, FlushNow, Due, TxCtxOf;
    var s, n := DataIs(k);
    DataStamped(k);
    var p := BufferedIsDue(k, s, n, i);
    OnlyDataPushes(k, p);
  }

  lemma NumberedIsPushed(k: Kcp, j: nat)
    requires KcpInv(k) && InRange(k) && j < FlushNow(k).snd.nxt - k.snd.nxt
    ensures j < |k.snd.queue| && k.snd.nxt + j < TWO32 && Pushed(Emission(k), k.snd.nxt + j, k.snd.queue[j])
  {
    hide KcpInv, InRange, Emission, DataOf, Stamped, FlushNow, Due, TxCtxOf;
    var s, n := DataIs(k);
    DataStamped(k);
    var p := AdmittedIsDue(k, s, n, j);
    OnlyDataPushes(k, p);
  }

  /** Which data a flush puts on the wire: of what is buffered exactly the segments that
      go out, and everything it numbers, each with its payload and the current time. */
  lemma FlushData(k: Kcp)
    requires KcpInv(k) && InRange(k)
    ensures var e, n := Emission(k), FlushNow(k).snd.nxt - k.snd.nxt;
            && 0 <= n <= |k.snd.queue| && k.snd.nxt + n < TWO32
            && (forall p :: p in e && p.cmd == CMD_PUSH ==> p.ts == k.current && DataFor(k, n, p))
            && (forall i :: 0 <= i < |k.snd.buf| && GoesOut(k, k.snd.buf[i]) ==>
                  Pushed(e, k.snd.buf[i].pkt.sn, k.snd.buf[i].pkt.data))
            && (forall j :: 0 <= j < n ==> Pushed(e, k.snd.nxt + j, k.snd.queue[j]))
  {
    hide KcpInv, InRange, Emission, GoesOut, DataFor, FlushNow, Pushed, Due, DataOf, TxCtxOf;
    var s, n := DataIs(k);
    forall p | p in Emission(k) && p.cmd == CMD_PUSH ensures p.ts == k.current && DataFor(k, n, p) {
      PushIsOwed(k, p);
    }
    forall i | 0 <= i < |k.snd.buf| && GoesOut(k, k.snd.buf[i])
      ensures Pushed(Emission(k), k.snd.buf[i].pkt.sn, k.snd.buf[i].pkt.data)
    {
      OwedIsPushed(k, i);
    }
    forall j | 0 <= j < n ensures k.snd.nxt + j < TWO32 && Pushed(Emission(k), k.snd.nxt + j, k.snd.queue[j]) {
      NumberedIsPushed(k, j);
    }
  }

  // ------------------------------------------------- reactions to a flush

  /** The segment was sent before and its timer has run out. */
  predicate TimedOut(k: Kcp, seg: Segment) {
    seg.xmit != 0 && Timediff(k.current, seg.resendts) >= 0
  }

  /** The segment goes out for the credit it has, before its timer has run out. */
  predicate FastLost(k: Kcp, seg: Segment) {
    seg.xmit != 0 && !TimedOut(k, seg) && GoesOut(k, seg)
  }

  predicate AnyTimedOut(k: Kcp) {
    exists i :: 0 <= i < |k.snd.buf| && TimedOut(k, k.snd.buf[i])
  }

  predicate AnyFastLost(k: Kcp) {
    exists i :: 0 <= i < |k.snd.buf| && FastLost(k, k.snd.buf[i])
  }

  lemma KindIs(k: Kcp, seg: Segment)
    ensures KindOf(seg, TxCtxOf(k)).Timeout? <==> TimedOut(k, seg)
    ensures KindOf(seg, TxCtxOf(k)).Fast? <==> FastLost(k, seg)
    ensures seg.xmit == 0 ==> KindOf(seg, TxCtxOf(k)).First?
  {
  }

  lemma {:induction false} CountPositive(buf: seq<Segment>, c: TxCtx, kind: Kind)
    ensures CountKind(buf, c, kind) > 0 <==> exists i :: 0 <= i < |buf| && KindOf(buf[i], c) == kind
  {
    hide KindOf;
    if buf != [] {
      CountPositive(buf[..|buf| - 1], c, kind);
      assert forall i :: 0 <= i < |buf| - 1 ==> buf[..|buf| - 1][i] == buf[i];
    }
  }

  function Places(buf: seq<Segment>, c: TxCtx, kind: Kind): set<int> {
    set i | 0 <= i < |buf| && KindOf(buf[i], c) == kind
  }

  lemma PlacesLast(buf: seq<Segment>, c: TxCtx, kind: Kind)
    requires buf != []
    ensures var n, before := |buf| - 1, Places(buf[..|buf| - 1], c, kind);
            n !in before && Places(buf, c, kind) == if KindOf(buf[n], c) == kind then before + {n} else before
  {
    hide KindOf;
    var front := buf[..|buf| - 1];
    forall i | 0 <= i < |front| ensures front[i] == buf[i] {}
  }

  lemma {:induction false} CountIsSize(buf: seq<Segment>, c: TxCtx, kind: Kind)
    ensures CountKind(buf, c, kind) == |Places(buf, c, kind)|
  {
    hide KindOf, Places;
    if buf == [] {
      assert Places(buf, c, kind) == {} by { NoPlaces(c, kind); }
    } else {
      CountIsSize(buf[..|buf| - 1], c, kind);
      PlacesLast(buf, c, kind);
    }
  }

  lemma NoPlaces(c: TxCtx, kind: Kind)
    ensures Places([], c, kind) == {}
  {
  }

  lemma CountsMean(k: Kcp, buf: seq<Segment>)
    requires k.snd.buf <= buf && forall i :: |k.snd.buf| <= i < |buf| ==> buf[i].xmit == 0
    ensures CountKind(buf, TxCtxOf(k), Timeout) > 0 <==> AnyTimedOut(k)
    ensures CountKind(buf, TxCtxOf(k), Fast) > 0 <==> AnyFastLost(k)
  {
    CountPositive(buf, TxCtxOf(k), Timeout);
    CountPositive(buf, TxCtxOf(k), Fast);
    forall i | 0 <= i < |buf|
      ensures KindOf(buf[i], TxCtxOf(k)).Timeout? <==> i < |k.snd.buf| && TimedOut(k, k.snd.buf[i])
      ensures KindOf(buf[i], TxCtxOf(k)).Fast? <==> i < |k.snd.buf| && FastLost(k, k.snd.buf[i])
    {
      KindIs(k, buf[i]);
    }
  }

  /** `t` is half of `x`, rounded down, and at least two. */
  predicate Halves(t: u16, x: int) {
    if x < 4 then t == 2 else 2 * t <= x <= 2 * t + 1
  }

  /** How a flush changes the congestion window. A timeout closes it to one segment and
      halves the threshold from the window before; a fast retransmit alone halves it
      from what is in flight and reopens at that plus the count; without either only a
      window of zero is opened to one. */
  lemma FlushReacts(k: Kcp)
    requires KcpInv(k) && InRange(k)
    ensures var s, cc := FlushNow(k).snd, FlushNow(k).cc;
            if AnyTimedOut(k) then cc == Congestion(1, cc.ssthresh, k.cfg.mss) && Halves(cc.ssthresh, k.cc.cwnd)
            else if AnyFastLost(k) then
              && Halves(cc.ssthresh, s.nxt - s.una) && (cc.incr == Times(cc.cwnd, k.cfg.mss) || cc.cwnd == 1)
              && (0 < k.cfg.fastresend <= 0x8000 ==> cc.cwnd == cc.ssthresh + k.cfg.fastresend)
            else cc == if k.cc.cwnd == 0 then Congestion(1, k.cc.ssthresh, k.cfg.mss) else k.cc
  {
    hide Fill, FillCtxOf, SendWindow, CountKind, Emission, EmitAll, Seal, TransmitAll, Times, KcpInv, InRange, AnyTimedOut,
         AnyFastLost, UpdateSsthresh, Sub32, Halves;
    T.FillBehind(k.snd, FillCtxOf(k), SendWindow(k));
    FlushFlight(k);
    var s, c := Fill(k.snd, FillCtxOf(k), SendWindow(k)), TxCtxOf(k);
    CountsMean(k, s.buf);
    SndWndFits(k.cfg);
    BookkeepingMeans(k.cc, k.cfg.mss, CountKind(s.buf, c, Fast), c.resent, CountKind(s.buf, c, Timeout) > 0, s.nxt - s.una);
  }

  lemma SndWndFits(cfg: Config)
    ensures cfg.sndWnd <= 0xFFFF
  {
  }

  lemma BookkeepingMeans(c: Congestion, mss: nat, change: nat, resent: u32, lost: bool, inflight: u32)
    requires inflight <= 0xFFFF
    ensures var c' := UpdateSsthresh(c, mss, change, resent, lost, c.cwnd, inflight);
            if lost then c' == Congestion(1, c'.ssthresh, mss) && Halves(c'.ssthresh, c.cwnd)
            else if change > 0 then
              && Halves(c'.ssthresh, inflight) && (c'.incr == Times(c'.cwnd, mss) || c'.cwnd == 1)
              && (0 < resent <= 0x8000 ==> c'.cwnd == c'.ssthresh + resent)
            else c' == if c.cwnd == 0 then Congestion(1, c.ssthresh, mss) else c
  {
    hide Times;
  }

  /** The retransmission count grows by the number of segments that timed out. */
  lemma FlushCounts(k: Kcp)
    ensures FlushNow(k).xmit == (k.xmit + |set i | 0 <= i < |k.snd.buf| && TimedOut(k, k.snd.buf[i])|) % TWO32
  {
    T.FillBehind(k.snd, FillCtxOf(k), SendWindow(k));
    var buf, c := Fill(k.snd, FillCtxOf(k), SendWindow(k)).buf, TxCtxOf(k);
    CountIsSize(buf, c, Timeout);
    assert FlushNow(k).xmit == Wrap32(k.xmit + CountKind(buf, c, Timeout)) by {
      hide Fill, CountKind, Wrap32, Emission, EmitAll, UpdateSsthresh, TransmitAll;
    }
    hide Fill, FillCtxOf, SendWindow, CountKind, FlushNow;
    forall i | 0 <= i < |buf| ensures KindOf(buf[i], c) == Timeout <==> i < |k.snd.buf| && TimedOut(k, k.snd.buf[i]) {
      KindIs(k, buf[i]);
    }
    hide KindOf, TimedOut, TxCtxOf;
    assert Places(buf, c, Timeout)
        == (set i | 0 <= i < |k.snd.buf| && TimedOut(k, k.snd.buf[i]));
  }

  lemma FlushFlight(k: Kcp)
    requires KcpInv(k) && InRange(k)
    ensures var s := Fill(k.snd, FillCtxOf(k), SendWindow(k));
            && 0 <= s.nxt - s.una <= k.cfg.sndWnd && Sub32(s.nxt, s.una) == s.nxt - s.una
            && FlushNow(k).snd.nxt == s.nxt && FlushNow(k).snd.una == s.una
  {
    hide Fill, FillCtxOf, SendWindow, InRange, Emission, EmitAll, UpdateSsthresh, CountKind, TransmitAll;
    var n := FillKeeps(k);
  }

  /** A link is declared dead if and only if nothing was released for more than five
      seconds and the flush sends some segment for the configured number of times. */
  lemma FlushDeclaresDead(k: Kcp)
    requires KcpInv(k) && InRange(k)
    ensures FlushNow(k).dead <==>
            || k.dead
            || (Timediff(k.current, k.lastProgress) > 5000
                && ((exists i :: 0 <= i < |k.snd.buf| && GoesOut(k, k.snd.buf[i])
                                 && Add32(k.snd.buf[i].xmit, 1) >= k.cfg.deadLink)
                    || (FlushNow(k).snd.nxt > k.snd.nxt && k.cfg.deadLink <= 1)))
  {
    hide KcpInv, InRange, Emission, EmitAll, UpdateSsthresh, CountKind, TransmitAll, Seal, Fill, FillCtxOf, SendWindow, Timediff;
    T.FillBehind(k.snd, FillCtxOf(k), SendWindow(k));
    var n := FillKeeps(k);
    var s := Fill(k.snd, FillCtxOf(k), SendWindow(k));
    GoneMeans(k, s.buf);
    assert FlushNow(k).dead <==> k.dead || (Timediff(k.current, k.lastProgress) > 5000 && AnyGone(s.buf, TxCtxOf(k), k.cfg.deadLink));
    assert |s.buf| - |k.snd.buf| == n == FlushNow(k).snd.nxt - k.snd.nxt;
  }

  lemma GoneMeans(k: Kcp, buf: seq<Segment>)
    requires k.snd.buf <= buf && forall i :: |k.snd.buf| <= i < |buf| ==> buf[i].xmit == 0
    ensures AnyGone(buf, TxCtxOf(k), k.cfg.deadLink) <==>
            || (exists i :: 0 <= i < |k.snd.buf| && GoesOut(k, k.snd.buf[i])
                            && Add32(k.snd.buf[i].xmit, 1) >= k.cfg.deadLink)
            || (|buf| > |k.snd.buf| && k.cfg.deadLink <= 1)
  {
    var c := TxCtxOf(k);
    forall i | 0 <= i < |buf|
      ensures !KindOf(buf[i], c).Idle? && Transmit(buf[i], c).xmit >= k.cfg.deadLink <==>
              GoesOut(k, buf[i]) && Add32(buf[i].xmit, 1) >= k.cfg.deadLink
    {
      KindMeans(k, buf[i]);
    }
    hide KindOf, Transmit, TxCtxOf;
    if |buf| > |k.snd.buf| {
      assert buf[|k.snd.buf|].xmit == 0 && GoesOut(k, buf[|k.snd.buf|]);
    }
    hide GoesOut, Add32;
    if i :| 0 <= i < |k.snd.buf| && GoesOut(k, k.snd.buf[i]) && Add32(k.snd.buf[i].xmit, 1) >= k.cfg.deadLink {
      assert buf[i] == k.snd.buf[i];
    }
  }

  // ------------------------------------------------------------- the timers

  /** How long a segment waits after the transmission this flush makes of it. */
  function Wait(k: Kcp, seg: Segment): nat {
    if seg.xmit == 0 then k.rtt.rto + (if k.cfg.nodelay then 0 else k.rtt.rto / 8)
    else if TimedOut(k, seg) then seg.rto + (if k.cfg.nodelay then seg.rto / 2 else Max(seg.rto, k.rtt.rto))
    else seg.rto
  }

  /** What a flush does to a buffered segment's timer: one that does not go out is left
      alone; one that does is counted, and is due again exactly when its wait is over. */
  lemma FlushRetimes(k: Kcp, i: nat, dt: u32)
    requires KcpInv(k) && InRange(k) && i < |k.snd.buf| && dt < TWO31
    ensures i < |FlushNow(k).snd.buf|
    ensures var seg, seg' := k.snd.buf[i], FlushNow(k).snd.buf[i];
            && (!GoesOut(k, seg) ==> seg' == seg)
            && (GoesOut(k, seg) ==> seg'.xmit == Add32(seg.xmit, 1) && seg'.pkt.ts == k.current)
            && (GoesOut(k, seg) && Wait(k, seg) < TWO31 ==>
                  (Timediff(Add32(k.current, dt), seg'.resendts) >= 0 <==> dt >= Wait(k, seg)))
            && (TimedOut(k, seg) && Wait(k, seg) < TWO32 ==> seg'.rto == Wait(k, seg))
            && (seg.xmit == 0 ==> seg'.rto == k.rtt.rto)
            && (FastLost(k, seg) ==> seg'.rto == seg.rto && seg'.fastack == 0)
  {
    T.FillBehind(k.snd, FillCtxOf(k), SendWindow(k));
    var buf := Fill(k.snd, FillCtxOf(k), SendWindow(k)).buf;
    assert buf[i] == k.snd.buf[i];
    assert FlushNow(k).snd.buf[i] == Transmit(k.snd.buf[i], TxCtxOf(k)) by {
      hide Fill, FillCtxOf, SendWindow, Transmit, TxCtxOf, Emission, EmitAll, UpdateSsthresh, CountKind;
    }
    RetimedIs(k, k.snd.buf[i], dt);
  }

  lemma RetimedIs(k: Kcp, seg: Segment, dt: u32)
    requires dt < TWO31
    ensures var seg' := Transmit(seg, TxCtxOf(k));
            && (!GoesOut(k, seg) ==> seg' == seg)
            && (GoesOut(k, seg) ==> seg'.xmit == Add32(seg.xmit, 1) && seg'.pkt.ts == k.current)
            && (GoesOut(k, seg) && Wait(k, seg) < TWO31 ==>
                  (Timediff(Add32(k.current, dt), seg'.resendts) >= 0 <==> dt >= Wait(k, seg)))
            && (TimedOut(k, seg) && Wait(k, seg) < TWO32 ==> seg'.rto == Wait(k, seg))
            && (seg.xmit == 0 ==> seg'.rto == k.rtt.rto)
            && (FastLost(k, seg) ==> seg'.rto == seg.rto && seg'.fastack == 0)
  {
    KindMeans(k, seg);
    KindIs(k, seg);
    var seg' := Transmit(seg, TxCtxOf(k));
    if GoesOut(k, seg) && Wait(k, seg) < TWO31 {
      assert seg'.resendts == Add32(k.current, Wait(k, seg)) by {
        hide Timediff, GoesOut, TimedOut, FastLost;
      }
      Reached(k.current, dt, Wait(k, seg));
    }
    hide Timediff;
  }

  lemma Reached(now: u32, a: u32, b: u32)
    requires a < TWO31 && b < TWO31
    ensures Timediff(Add32(now, a), Add32(now, b)) >= 0 <==> a >= b
  {
  }

  /** A segment through a run of passes. */
  function Passes(seg: Segment, cs: seq<TxCtx>): Segment {
    if cs == [] then seg else Transmit(Passes(seg, cs[..|cs| - 1]), cs[|cs| - 1])
  }

  /** Each of the passes finds the segment's timer run out. */
  predicate AllTimeouts(seg: Segment, cs: seq<TxCtx>) {
    forall i :: 0 <= i < |cs| ==> KindOf(Passes(seg, cs[..i]), cs[i]).Timeout?
  }

  /** Without `nodelay`, timeouts in a row double the wait each time, while the estimate
      is not above it and the wait fits 32 bits. */
  lemma {:induction false} TimeoutsDouble(seg: Segment, cs: seq<TxCtx>)
    requires AllTimeouts(seg, cs) && T.Power(2, |cs|) * seg.rto < TWO32
    requires forall i :: 0 <= i < |cs| ==> !cs[i].nodelay && cs[i].rto <= seg.rto
    ensures Passes(seg, cs).rto == T.Power(2, |cs|) * seg.rto
  {
    if cs != [] {
      var front, n := cs[..|cs| - 1], |cs|;
      var p := T.Power(2, n - 1);
      assert T.Power(2, n) == 2 * p;
      PowerPositive(n - 1);
      Doubling(p, seg.rto);
      assert AllTimeouts(seg, front) by {
        forall i | 0 <= i < |front| ensures KindOf(Passes(seg, front[..i]), front[i]).Timeout? {
          assert front[..i] == cs[..i];
          assert KindOf(Passes(seg, cs[..i]), cs[i]).Timeout?;
        }
      }
      hide KindOf, Passes, T.Power;
      TimeoutsDouble(seg, front);
      assert KindOf(Passes(seg, cs[..n - 1]), cs[n - 1]).Timeout?;
      LastPass(seg, cs);
      TimeoutRto(Passes(seg, front), cs[n - 1]);
    }
  }

  lemma LastPass(seg: Segment, cs: seq<TxCtx>)
    requires cs != []
    ensures Passes(seg, cs) == Transmit(Passes(seg, cs[..|cs| - 1]), cs[|cs| - 1])
  {
  }

  lemma PowerPositive(n: nat)
    ensures T.Power(2, n) >= 1
  {
  }

  lemma Doubling(p: nat, rto: nat)
    requires p >= 1
    ensures (2 * p) * rto == 2 * (p * rto) && rto <= p * rto
  {
    assert 1 * rto <= p * rto;
  }

  lemma TimeoutRto(seg: Segment, c: TxCtx)
    requires KindOf(seg, c).Timeout? && !c.nodelay && c.rto <= seg.rto && 2 * seg.rto < TWO32
    ensures Transmit(seg, c).rto == 2 * seg.rto
  {
    hide Timediff;
  }
}
