/** One engine facing anything: its owner acts as it likes and the network hands
    it arbitrary bytes, not only datagrams a peer emitted. */
module KcpAlone {
  import opened Words
  import opened KcpWire
  import opened KcpSpec
  import opened KcpWindow
  import opened KcpOps
  import R = KcpRun
  import T = KcpTimers
  import H = KcpHears

  datatype Event = Owner(op: R.Op) | Hear(d: bytes)

  function Apply(k: Kcp, e: Event): Kcp
    requires ConfigOk(k.cfg)
  {
    match e
    case Owner(op) => R.Act(R.Endpoint(k, [], [], []), op).k
    case Hear(d) => Input(k, d).0
  }

  /** The states an engine goes through; sequence numbers stay clear of 2^31. */
  predicate IsLife(states: seq<Kcp>, events: seq<Event>) {
    && |states| == |events| + 1
    && KcpInv(states[0])
    && (forall i :: 0 <= i < |states| ==> InRange(states[i]))
    && (forall i :: 0 <= i < |events| ==>
          ConfigOk(states[i].cfg) && states[i + 1] == Apply(states[i], events[i]))
  }

  /** Settings stay, and no counter moves back. */
  predicate Forward(k: Kcp, k': Kcp) {
    && k'.cfg == k.cfg && k.snd.una <= k'.snd.una && k.snd.nxt <= k'.snd.nxt
    && k.rcv.nxt <= k'.rcv.nxt && Base(k.rcv) <= Base(k'.rcv)
  }

  lemma SendKeeps(k: Kcp, data: bytes)
    requires KcpInv(k)
    ensures var k' := Apply(k, Owner(R.Send(data))); KcpInv(k') && Forward(k, k')
  {
    hide CleanBox, ReceiverInv, SendOwned;
    SendOwnedExact(k.snd.queue, k.cfg.mss, data);
  }

  lemma FlushedKeeps(k: Kcp)
    requires KcpInv(k) && InRange(k)
    ensures KcpInv(FlushNow(k)) && Forward(k, FlushNow(k))
  {
    hide KcpInv, FlushNow, Fill, SamePackets, FillCtxOf, SendWindow;
    var n := FlushKeeps(k);
  }

  lemma TickKeeps(k: Kcp, current: u32)
    requires KcpInv(k) && InRange(k)
    ensures var k' := Tick(k, current).0; KcpInv(k') && InRange(k') && Forward(k, k')
  {
    hide CleanBox, ReceiverInv, SenderInv, PayloadInv;
  }

  lemma UpdateKeeps(k: Kcp, current: u32)
    requires KcpInv(k) && InRange(k)
    ensures KcpInv(Update(k, current)) && Forward(k, Update(k, current))
  {
    hide KcpInv, InRange, FlushNow, Tick;
    TickKeeps(k, current);
    if Tick(k, current).1 {
      FlushedKeeps(Tick(k, current).0);
    }
  }

  lemma OwnerKeeps(k: Kcp, op: R.Op)
    requires KcpInv(k) && InRange(k)
    ensures ConfigOk(k.cfg) && KcpInv(Apply(k, Owner(op))) && Forward(k, Apply(k, Owner(op)))
  {
    InvHasConfig(k);
    hide KcpInv, InRange, FlushNow, RetransmitSn, RecvOwned, SendOwned, Update, FlushAck;
    match op
    case Send(data) => SendKeeps(k, data);
    case Recv => RecvKeeps(k);
    case Update(current) => UpdateKeeps(k, current);
    case Flush =>
      if k.updated {
        FlushedKeeps(k);
      }
    case FlushAck => FlushAckKeeps(k);
    case Retransmit(sn) => RetransmitKeeps(k, sn);
  }

  lemma EventKeeps(k: Kcp, e: Event)
    requires KcpInv(k) && InRange(k)
    ensures ConfigOk(k.cfg) && KcpInv(Apply(k, e)) && Forward(k, Apply(k, e))
  {
    hide KcpInv, InRange, R.Act, Input;
    match e
    case Hear(d) =>
      InvHasConfig(k);
      InputKeeps(k, d);
    case Owner(op) => OwnerKeeps(k, op);
  }

  /** Both windows hold no more than they are configured to. */
  predicate Bounded(k: Kcp) {
    |k.snd.buf| <= k.cfg.sndWnd && |k.rcv.buf| <= k.cfg.rcvWnd && |k.rcv.queue| <= k.cfg.rcvWnd
  }

  lemma InvBounds(k: Kcp)
    requires KcpInv(k)
    ensures Bounded(k)
  {
    hide CleanBox, PayloadInv;
    RisingFits(seq(|k.snd.buf|, i requires 0 <= i < |k.snd.buf| => k.snd.buf[i].pkt.sn), k.snd.una, k.snd.nxt);
    SortedSpan(k.rcv.buf, k.rcv.nxt, k.rcv.nxt + k.cfg.rcvWnd);
  }

  /** Whatever the owner does and whatever bytes arrive: in every state both buffers
      are strictly sorted windows within their bounds, and from any state to any
      later one no counter moves back. */
  lemma {:induction false} WindowsAlwaysKept(states: seq<Kcp>, events: seq<Event>, i: nat, j: nat)
    requires IsLife(states, events) && i <= j < |states|
    ensures KcpInv(states[j]) && Bounded(states[j]) && Forward(states[i], states[j])
    decreases j
  {
    hide KcpInv, InRange, Apply, Bounded;
    if j > 0 {
      WindowsAlwaysKept(states, events, if i < j then i else j - 1, j - 1);
      assert states[j] == Apply(states[j - 1], events[j - 1]);
      EventKeeps(states[j - 1], events[j - 1]);
    }
    InvBounds(states[j]);
  }

  // ------------------------------------------------------ flushes in a life

  /** The state an event's flush starts from, if the event flushes. */
  function FlushPoint(k: Kcp, e: Event): Option<Kcp> {
    if e.Owner? && R.Flushes(k, e.op) then Some(if e.op.Update? then Tick(k, e.op.current).0 else k) else None
  }

  lemma PointKeeps(k: Kcp, e: Event)
    requires KcpInv(k) && InRange(k) && FlushPoint(k, e).Some?
    ensures var f := FlushPoint(k, e).value; KcpInv(f) && InRange(f)
  {
    hide KcpInv, InRange, Tick;
    if e.op.Update? {
      TickKeeps(k, e.op.current);
    }
  }

  /** What a flushing event does is that flush. */
  lemma FlushApplies(k: Kcp, e: Event)
    requires ConfigOk(k.cfg) && FlushPoint(k, e).Some?
    ensures Apply(k, e) == FlushNow(FlushPoint(k, e).value)
  {
    hide FlushNow, Timediff;
  }

  /** Up to its flush an event moves nothing but the clock. */
  lemma PointIs(k: Kcp, e: Event)
    requires FlushPoint(k, e).Some?
    ensures var f := FlushPoint(k, e).value;
            && f.cfg == k.cfg && f.snd == k.snd && f.rcv == k.rcv && f.rtt == k.rtt && f.cc == k.cc
            && f.probe == k.probe && f.box == k.box && f.rmtWnd == k.rmtWnd
  {
    hide Timediff;
  }

  /** An event that is neither a flush nor a datagram. */
  lemma QuietIs(k: Kcp, e: Event)
    requires ConfigOk(k.cfg) && FlushPoint(k, e).None? && e.Owner?
    ensures var k' := Apply(k, e);
            && k'.snd.nxt == k.snd.nxt && k'.snd.una == k.snd.una && k'.cc == k.cc && k'.rmtWnd == k.rmtWnd
            && H.SameTimer(k.probe, k'.probe)
            && (k'.probe.tell <==>
                  || k.probe.tell
                  || (e.op.Recv? && |k.rcv.queue| >= k.cfg.rcvWnd && |k'.rcv.queue| < k.cfg.rcvWnd))
  {
    hide SendOwned, MoveBuf, EmitAll, FlushNow, Timediff, ResendIndex;
  }

  // --------------------------------------------------- the peer's window

  /** What the peer advertised last before state `i`. */
  function Advertised(states: seq<Kcp>, events: seq<Event>, i: nat): u16
    requires i <= |events| < |states|
  {
    if i == 0 then states[0].rmtWnd
    else if events[i - 1].Hear? then
      H.WindowAfter(Advertised(states, events, i - 1), Split(events[i - 1].d, states[0].cfg.conv).packets)
    else Advertised(states, events, i - 1)
  }

  lemma EventWindow(k: Kcp, e: Event)
    requires ConfigOk(k.cfg)
    ensures Apply(k, e).rmtWnd ==
            if e.Hear? then H.WindowAfter(k.rmtWnd, Split(e.d, k.cfg.conv).packets) else k.rmtWnd
  {
    hide Input, FlushNow;
    if e.Hear? {
      H.InputWindow(k, e.d);
    } else if FlushPoint(k, e).Some? {
      FlushApplies(k, e);
      PointIs(k, e);
      FlushWindow(FlushPoint(k, e).value);
    } else {
      QuietIs(k, e);
    }
  }

  lemma FlushWindow(k: Kcp)
    ensures FlushNow(k).rmtWnd == k.rmtWnd
  {
  }

  lemma {:induction false} AdvertisedIs(states: seq<Kcp>, events: seq<Event>, i: nat)
    requires IsLife(states, events) && i < |states|
    ensures states[i].rmtWnd == Advertised(states, events, i) && states[i].cfg == states[0].cfg
  {
    hide KcpInv, InRange, Apply, Split;
    if i > 0 {
      AdvertisedIs(states, events, i - 1);
      WindowsAlwaysKept(states, events, 0, i);
      assert states[i] == Apply(states[i - 1], events[i - 1]) && ConfigOk(states[i - 1].cfg);
      EventWindow(states[i - 1], events[i - 1]);
    }
  }

  // ------------------------------------------------- the timeout along a life

  predicate RtoInRange(k: Kcp) {
    0 < k.rtt.rto <= RTO_MAX
  }

  lemma {:induction false} PacketsKeepRto(k: Kcp, ps: seq<Packet>)
    requires T.TimerConfig(k.cfg.interval, k.cfg.minrto) && RtoInRange(k)
    ensures RtoInRange(OnPackets(k, ps))
    decreases |ps|
  {
    if ps != [] {
      OnPacketKeepsRto(k, ps[0]);
      hide OnPacket;
      PacketsKeepRto(OnPacket(k, ps[0]), ps[1..]);
    }
  }

  lemma OnPacketKeepsRto(k: Kcp, p: Packet)
    requires T.TimerConfig(k.cfg.interval, k.cfg.minrto) && RtoInRange(k)
    ensures RtoInRange(OnPacket(k, p)) && OnPacket(k, p).cfg == k.cfg
  {
    hide Wrap32, UnaCount, ParseAck, AcceptPush, Timediff;
  }

  lemma EventKeepsRto(k: Kcp, e: Event)
    requires ConfigOk(k.cfg) && T.TimerConfig(k.cfg.interval, k.cfg.minrto) && RtoInRange(k)
    ensures RtoInRange(Apply(k, e))
  {
    hide UpdateAck, OnPackets, Split, SendOwned, MoveBuf, RetransmitSn, EmitAll, Fill, UpdateSsthresh, Emission, Timediff;
    match e
    case Hear(d) => PacketsKeepRto(k, Split(d, k.cfg.conv).packets);
    case Owner(op) =>
  }

  /** Whatever arrives, the retransmission timeout stays positive and at most a minute. */
  lemma {:induction false} RtoAlwaysKept(states: seq<Kcp>, events: seq<Event>, i: nat)
    requires IsLife(states, events) && i < |states|
    requires T.TimerConfig(states[0].cfg.interval, states[0].cfg.minrto) && RtoInRange(states[0])
    ensures states[i].cfg == states[0].cfg && RtoInRange(states[i])
  {
    hide KcpInv, InRange, Apply;
    if i > 0 {
      RtoAlwaysKept(states, events, i - 1);
      WindowsAlwaysKept(states, events, 0, i);
      assert states[i] == Apply(states[i - 1], events[i - 1]);
      EventKeepsRto(states[i - 1], events[i - 1]);
    }
  }

  /** So at any point of any life: when a caller that has just called `update` is told
      by `check` to call it again at once. */
  lemma UpdateThenCheckAlways(states: seq<Kcp>, events: seq<Event>, i: nat, now: u32)
    requires IsLife(states, events) && i < |states|
    requires T.TimerConfig(states[0].cfg.interval, states[0].cfg.minrto) && RtoInRange(states[0])
    ensures var k := states[i];
            Check(Update(k, now), now) == 0 <==>
            if Tick(k, now).1 then T.AnyRunaway(k.snd.buf, TxCtxOf(Tick(k, now).0)) else T.ResendDue(k.snd.buf, now)
  {
    hide IsLife, Check, Update, Tick;
    RtoAlwaysKept(states, events, i);
    T.UpdateThenCheck(states[i], now);
  }
}
