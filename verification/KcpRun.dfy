/** Two KCP endpoints and a network that may lose, duplicate, reorder and replay
    every datagram either of them ever emitted.

    Each endpoint carries a history beside its engine: the bytes its owner
    handed to `send_owned` and the engine accepted, the payload each sequence
    number was given, and the bytes `recv_owned` has handed out. */
module KcpRun {
  import opened Words
  import opened KcpWire
  import opened KcpSpec
  import opened KcpWindow
  import opened KcpOps

  datatype Endpoint = Endpoint(k: Kcp, accepted: bytes, log: seq<bytes>, delivered: bytes)

  datatype Net = Net(a: Endpoint, b: Endpoint)

  datatype Op =
    | Send(data: bytes)
    | Recv
    | Update(current: u32)
    | Flush
    | FlushAck
    | Retransmit(sn: u32)

  /** An operation of one endpoint's owner. */
  function Act(e: Endpoint, op: Op): Endpoint
    requires ConfigOk(e.k.cfg)
  {
    match op
    case Send(data) =>
      var (q, r) := KcpSpec.SendOwned(e.k.snd.queue, e.k.cfg.mss, data);
      e.(k := e.k.(snd := e.k.snd.(queue := q)),
         accepted := e.accepted + if r.Ok? && r.value <= |data| then data[..r.value] else [])
    case Recv =>
      var (k', got) := RecvOwned(e.k);
      e.(k := k', delivered := e.delivered + if got.Ok? then got.value else [])
    case Update(current) => Numbered(e, KcpSpec.Update(e.k, current))
    case Flush => Numbered(e, KcpSpec.Flush(e.k).0)
    case FlushAck => e.(k := KcpSpec.FlushAck(e.k).0)
    case Retransmit(sn) => e.(k := e.k.(snd := RetransmitSn(e.k.snd, sn, e.k.current).0))
  }

  /** The log grows by the payloads that were given a number. */
  function Numbered(e: Endpoint, k': Kcp): Endpoint {
    var n := k'.snd.nxt - e.k.snd.nxt;
    e.(k := k', log := e.log + if 0 <= n <= |e.k.snd.queue| then e.k.snd.queue[..n] else [])
  }

  /** Whether the operation makes the engine flush. */
  predicate Flushes(k: Kcp, op: Op) {
    (op.Flush? && k.updated) || (op.Update? && Tick(k, op.current).1)
  }

  datatype Step =
    | OwnerA(op: Op)
    | OwnerB(op: Op)
    | ToA(d: bytes)
    | ToB(d: bytes)

  /** One step: an owner acts, or the network hands an endpoint any datagram the
      other one emitted at any time before. */
  predicate Next(s: Net, s': Net, step: Step) {
    && ConfigOk(s.a.k.cfg) && ConfigOk(s.b.k.cfg)
    && match step
       case OwnerA(op) => s' == s.(a := Act(s.a, op))
       case OwnerB(op) => s' == s.(b := Act(s.b, op))
       case ToA(d) => d in s.b.k.box.out && s' == s.(a := s.a.(k := Input(s.a.k, d).0))
       case ToB(d) => d in s.a.k.box.out && s' == s.(b := s.b.(k := Input(s.b.k, d).0))
  }

  predicate Fresh(e: Endpoint) {
    && ConfigOk(e.k.cfg)
    && e.k.snd == Sender(0, 0, [], []) && e.k.rcv == Receiver(0, [], [], []) && e.k.box == Outbox([], [])
    && e.accepted == [] && e.log == [] && e.delivered == []
  }

  /** A finite run; sequence numbers stay clear of 2^31 while it lasts. */
  predicate IsRun(run: seq<Net>, steps: seq<Step>) {
    && |run| == |steps| + 1
    && Fresh(run[0].a) && Fresh(run[0].b) && run[0].a.k.cfg.conv == run[0].b.k.cfg.conv
    && (forall i :: 0 <= i < |steps| ==> Next(run[i], run[i + 1], steps[i]))
    && (forall i :: 0 <= i < |run| ==> InRange(run[i].a.k) && InRange(run[i].b.k))
  }

  // -------------------------------------------------------------- invariants

  /** What is true of every segment `e` ever put on the wire: data is the logged
      payload of its number, `una` does not exceed what `e` has received in order,
      and an acknowledged number has been received. */
  predicate Honest(e: Endpoint, p: Packet) {
    && p.una <= e.k.rcv.nxt
    && (p.cmd == CMD_PUSH ==> p.frg == 0 && p.sn < |e.log| && p.data == e.log[p.sn])
    && (p.cmd == CMD_ACK ==> p.sn < TWO31 && Received(e.k.rcv, p.sn))
  }

  predicate HonestRun(e: Endpoint, d: bytes) {
    forall p :: p in Split(d, e.k.cfg.conv).packets ==> Honest(e, p)
  }

  predicate HonestBox(e: Endpoint) {
    && HonestRun(e, e.k.box.staged)
    && forall d :: d in e.k.box.out ==> HonestRun(e, d)
  }

  /** The log spells the accepted stream, and the send buffer holds it. */
  predicate LogInv(e: Endpoint) {
    && |e.log| == e.k.snd.nxt
    && Flat(e.log) + Flat(e.k.snd.queue) == e.accepted
    && forall i :: 0 <= i < |e.k.snd.buf| && e.k.snd.buf[i].pkt.sn < |e.log| ==>
         e.k.snd.buf[i].pkt.data == e.log[e.k.snd.buf[i].pkt.sn]
  }

  predicate AckInv(e: Endpoint) {
    forall i :: 0 <= i < |e.k.rcv.acks| ==>
      e.k.rcv.acks[i].sn < TWO31 && Received(e.k.rcv, e.k.rcv.acks[i].sn)
  }

  predicate EndpointInv(e: Endpoint) {
    KcpInv(e.k) && LogInv(e) && AckInv(e) && HonestBox(e)
  }

  predicate Genuine(log: seq<bytes>, p: Packet) {
    p.frg == 0 && p.sn < |log| && p.data == log[p.sn]
  }

  /** What `rx` holds is what `tx` sent, and what it handed out is the front of it. */
  predicate InStep(tx: Endpoint, rx: Endpoint) {
    && rx.k.rcv.nxt <= |tx.log|
    && (forall p :: p in rx.k.rcv.queue + rx.k.rcv.buf ==> Genuine(tx.log, p))
    && 0 <= Base(rx.k.rcv) && rx.delivered == Flat(tx.log[..Base(rx.k.rcv)])
  }

  predicate InBuffer(buf: seq<Segment>, sn: u32) {
    exists i :: 0 <= i < |buf| && buf[i].pkt.sn == sn
  }

  /** Nothing is released too early: a number `tx` has used is still in its send
      buffer or has been received. */
  predicate NoneLost(tx: Endpoint, rx: Endpoint) {
    forall sn: u32 :: sn < tx.k.snd.nxt ==> InBuffer(tx.k.snd.buf, sn) || Received(rx.k.rcv, sn)
  }

  // ------------------------------------------------- honesty is never undone

  /** `e'` has at least the log and the receptions of `e`. */
  predicate Grows(e: Endpoint, e': Endpoint) {
    && e'.k.cfg == e.k.cfg
    && e.log <= e'.log && e.k.rcv.nxt <= e'.k.rcv.nxt
    && forall sn: u32 :: Received(e.k.rcv, sn) ==> Received(e'.k.rcv, sn)
  }

  lemma HonestGrows(e: Endpoint, e': Endpoint, d: bytes)
    requires Grows(e, e') && HonestRun(e, d)
    ensures HonestRun(e', d)
  {
  }

  lemma HonestBoxGrows(e: Endpoint, e': Endpoint)
    requires Grows(e, e') && HonestBox(e) && e'.k.box == e.k.box
    ensures HonestBox(e')
  {
    HonestGrows(e, e', e.k.box.staged);
    forall d | d in e.k.box.out ensures HonestRun(e', d) {
      HonestGrows(e, e', d);
    }
  }

  lemma {:induction false} CarriedHolds(out: seq<bytes>, conv: u32, d: bytes, p: Packet)
    requires d in out && p in Split(d, conv).packets
    ensures p in Carried(out, conv)
  {
    if d != out[|out| - 1] {
      CarriedHolds(out[..|out| - 1], conv, d, p);
    }
  }

  lemma {:induction false} CarriedFrom(out: seq<bytes>, conv: u32, p: Packet) returns (d: bytes)
    requires p in Carried(out, conv)
    ensures d in out && p in Split(d, conv).packets
  {
    if p in Split(out[|out| - 1], conv).packets {
      d := out[|out| - 1];
    } else {
      d := CarriedFrom(out[..|out| - 1], conv, p);
    }
  }

  predicate AllHonest(e: Endpoint, ps: seq<Packet>) {
    forall p :: p in ps ==> Honest(e, p)
  }

  /** An outbox is honest exactly when every segment it carries is. */
  lemma HonestInOrder(e: Endpoint)
    ensures HonestBox(e) <==> AllHonest(e, InOrder(e.k.box, e.k.cfg.conv))
  {
    var conv := e.k.cfg.conv;
    var ps := InOrder(e.k.box, conv);
    if HonestBox(e) {
      forall p | p in ps ensures Honest(e, p) {
        if p in Split(e.k.box.staged, conv).packets {
          assert HonestRun(e, e.k.box.staged);
        } else {
          var d := CarriedFrom(e.k.box.out, conv, p);
          assert HonestRun(e, d);
        }
      }
    }
    if AllHonest(e, ps) {
      forall d, p | d in e.k.box.out && p in Split(d, conv).packets ensures Honest(e, p) {
        CarriedHolds(e.k.box.out, conv, d, p);
        assert p in ps;
      }
      forall p | p in Split(e.k.box.staged, conv).packets ensures Honest(e, p) {
        assert p in ps;
      }
    }
  }

  // ------------------------------------------------------- the owner's steps

  /** What an owner's step guarantees to both directions. */
  predicate OwnerKeeps(e: Endpoint, e': Endpoint) {
    && EndpointInv(e') && Grows(e, e')
    && (forall sn: u32 :: Received(e'.k.rcv, sn) <==> Received(e.k.rcv, sn))
    && e'.k.snd.una == e.k.snd.una && e'.k.snd.nxt == |e'.log|
    && (forall sn: u32 :: InBuffer(e.k.snd.buf, sn) || e.k.snd.nxt <= sn < e'.k.snd.nxt
          ==> InBuffer(e'.k.snd.buf, sn))
  }

  lemma SendOwner(e: Endpoint, data: bytes)
    requires EndpointInv(e)
    ensures OwnerKeeps(e, Act(e, Send(data)))
    ensures Act(e, Send(data)).delivered == e.delivered && Act(e, Send(data)).k.rcv == e.k.rcv
  {
    hide KcpSpec.SendOwned, HonestBox, CleanBox, SenderInv, ReceiverInv, Received;
    var e' := Act(e, Send(data));
    SendOwnedExact(e.k.snd.queue, e.k.cfg.mss, data);
    SenderInvQueue(e.k.snd, e'.k.snd.queue, e.k.cfg.sndWnd);
    HonestBoxGrows(e, e');
    var (q, r) := KcpSpec.SendOwned(e.k.snd.queue, e.k.cfg.mss, data);
    var more := if r.Ok? then data[..r.value] else [];
    assert Flat(q) == Flat(e.k.snd.queue) + more;
    assert Flat(e.log) + (Flat(e.k.snd.queue) + more) == e.accepted + more;
  }

  lemma SenderInvQueue(s: Sender, queue: seq<bytes>, wnd: u16)
    requires SenderInv(s, wnd)
    ensures SenderInv(s.(queue := queue), wnd)
  {
  }

  lemma SameBuffer(a: seq<Segment>, b: seq<Segment>, sn: u32)
    requires SamePackets(a, b)
    ensures InBuffer(a, sn) <==> InBuffer(b, sn)
  {
    if InBuffer(a, sn) {
      var i :| 0 <= i < |a| && a[i].pkt.sn == sn;
      assert SameButTimers(a[i], b[i]);
    }
    if InBuffer(b, sn) {
      var i :| 0 <= i < |b| && b[i].pkt.sn == sn;
      assert SameButTimers(a[i], b[i]);
    }
  }

  lemma TimersTouched(e: Endpoint, buf: seq<Segment>)
    requires EndpointInv(e) && SamePackets(e.k.snd.buf, buf)
    requires KcpInv(e.k.(snd := e.k.snd.(buf := buf)))
    ensures OwnerKeeps(e, e.(k := e.k.(snd := e.k.snd.(buf := buf))))
  {
    hide KcpInv, HonestBox, Received, SamePackets, LogInv, AckInv;
    var e' := e.(k := e.k.(snd := e.k.snd.(buf := buf)));
    LogSame(e, e');
    LogLength(e');
    HonestBoxGrows(e, e');
    assert AckInv(e') by { SameAcks(e, e'); }
    forall m: u32 | InBuffer(e.k.snd.buf, m) ensures InBuffer(buf, m) {
      SameBuffer(e.k.snd.buf, buf, m);
    }
  }

  lemma SameAcks(e: Endpoint, e': Endpoint)
    requires AckInv(e) && e'.k.rcv == e.k.rcv
    ensures AckInv(e')
  {
  }

  lemma RetransmitOwner(e: Endpoint, sn: u32)
    requires EndpointInv(e)
    ensures ConfigOk(e.k.cfg) && OwnerKeeps(e, Act(e, Retransmit(sn)))
    ensures Act(e, Retransmit(sn)).delivered == e.delivered && Act(e, Retransmit(sn)).k.rcv == e.k.rcv
  {
    InvHasConfig(e.k);
    RetransmitKeeps(e.k, sn);
    hide KcpInv, EndpointInv, OwnerKeeps, RetransmitSn, SamePackets;
    TimersTouched(e, RetransmitSn(e.k.snd, sn, e.k.current).0.buf);
  }

  lemma LogSame(e: Endpoint, e': Endpoint)
    requires LogInv(e) && SamePackets(e.k.snd.buf, e'.k.snd.buf)
    requires e'.log == e.log && e'.accepted == e.accepted
    requires e'.k.snd.nxt == e.k.snd.nxt && e'.k.snd.queue == e.k.snd.queue
    ensures LogInv(e')
  {
    forall i | 0 <= i < |e'.k.snd.buf| ensures SameButTimers(e.k.snd.buf[i], e'.k.snd.buf[i]) {}
  }

  lemma OwnerIdle(e: Endpoint)
    requires EndpointInv(e)
    ensures OwnerKeeps(e, e)
  {
    hide KcpInv, HonestBox, AckInv, Received;
  }

  lemma FlushAckHonest(e: Endpoint, k': Kcp)
    requires EndpointInv(e) && e.k.updated && k' == KcpSpec.FlushAck(e.k).0
    ensures HonestBox(e.(k := k'))
  {
    var e' := e.(k := k');
    var acks := AckPackets(e.k.cfg.conv, WndUnused(e.k.rcv, e.k.cfg.rcvWnd), e.k.rcv.nxt, e.k.rcv.acks);
    FlushAckKeeps(e.k);
    assert k'.cfg == e.k.cfg && k'.rcv == e.k.rcv.(acks := []);
    assert InOrder(k'.box, k'.cfg.conv) == InOrder(e.k.box, e.k.cfg.conv) + acks;
    hide KcpInv, HonestBox, AckPackets, InOrder, EmitAll, Honest, WndUnused, LogInv, AckInv, KcpSpec.FlushAck;
    HonestInOrder(e);
    HonestInOrder(e');
    forall p | p in InOrder(k'.box, k'.cfg.conv) ensures Honest(e', p) {
      if p in acks {
        AckHonest(e, p);
      }
      SameHonesty(e, e', p);
    }
  }

  lemma AcksCleared(e: Endpoint, k': Kcp)
    requires EndpointInv(e) && KcpInv(k') && HonestBox(e.(k := k'))
    requires k'.cfg == e.k.cfg && k'.snd == e.k.snd && k'.rcv == e.k.rcv.(acks := [])
    ensures OwnerKeeps(e, e.(k := k'))
  {
    hide KcpInv, HonestBox;
  }

  lemma FlushAckOwner(e: Endpoint)
    requires EndpointInv(e)
    ensures ConfigOk(e.k.cfg)
    ensures var e' := Act(e, FlushAck);
            OwnerKeeps(e, e') && e'.delivered == e.delivered && e'.k.rcv.(acks := []) == e.k.rcv.(acks := [])
  {
    InvHasConfig(e.k);
    hide EndpointInv, OwnerKeeps, HonestBox, AckPackets, EmitAll, KcpInv;
    var k' := KcpSpec.FlushAck(e.k).0;
    assert Act(e, FlushAck) == e.(k := k');
    if e.k.updated {
      FlushAckHonest(e, k');
      InvHasLog(e);
      FlushAckKeeps(e.k);
      AcksCleared(e, k');
    } else {
      OwnerIdle(e);
    }
  }

  lemma LogUntouched(e: Endpoint, e': Endpoint)
    requires LogInv(e) && e'.k.snd == e.k.snd && e'.log == e.log && e'.accepted == e.accepted
    ensures LogInv(e') && e'.k.snd.nxt == |e'.log|
  {
  }

  lemma SameHonesty(e: Endpoint, e': Endpoint, p: Packet)
    requires e'.log == e.log && e'.k.rcv.(acks := []) == e.k.rcv.(acks := [])
    ensures Honest(e, p) <==> Honest(e', p)
  {
  }

  lemma AckHonest(e: Endpoint, p: Packet)
    requires AckInv(e)
    requires p in AckPackets(e.k.cfg.conv, WndUnused(e.k.rcv, e.k.cfg.rcvWnd), e.k.rcv.nxt, e.k.rcv.acks)
    ensures Honest(e, p)
  {
    var ps := AckPackets(e.k.cfg.conv, WndUnused(e.k.rcv, e.k.cfg.rcvWnd), e.k.rcv.nxt, e.k.rcv.acks);
    var i :| 0 <= i < |ps| && ps[i] == p;
    assert e.k.rcv.acks[i].sn == p.sn;
  }

  /** A flush gives numbers to the front of the queue and logs their payloads. */
  lemma FlushLog(e: Endpoint, s: Sender, n: nat)
    requires LogInv(e) && SenderInv(e.k.snd, e.k.cfg.sndWnd) && Admitted(e.k.snd, s, n)
    ensures LogInv(e.(k := e.k.(snd := s), log := e.log + e.k.snd.queue[..n]))
  {
    hide SenderInv, Flat;
    var q := e.k.snd.queue;
    FlatAppend(e.log, q[..n]);
    FlatAppend(q[..n], q[n..]);
    assert q == q[..n] + q[n..];
    assert Flat(e.log) + Flat(q[..n]) + Flat(q[n..]) == Flat(e.log) + (Flat(q[..n]) + Flat(q[n..]));
    forall i | 0 <= i < |e.k.snd.buf| ensures s.buf[i] == e.k.snd.buf[i] && s.buf[i].pkt.sn < |e.log| {
      SenderBelow(e.k.snd, e.k.cfg.sndWnd, i);
    }
  }

  lemma SenderBelow(s: Sender, wnd: u16, i: nat)
    requires SenderInv(s, wnd) && i < |s.buf|
    ensures s.buf[i].pkt.sn < s.nxt
  {
  }

  lemma FlushBuffer(s: Sender, s': Sender, wnd: u16, n: nat)
    requires SenderInv(s, wnd) && Admitted(s, s', n)
    ensures forall sn: u32 :: InBuffer(s.buf, sn) || s.nxt <= sn < s'.nxt ==> InBuffer(s'.buf, sn)
    ensures forall i :: 0 <= i < |s'.buf| ==> s'.buf[i].pkt.sn < s'.nxt
  {
    assert forall i :: 0 <= i < |s.buf| ==> s'.buf[i] == s.buf[i];
    forall sn: u32 | InBuffer(s.buf, sn) || s.nxt <= sn < s'.nxt ensures InBuffer(s'.buf, sn) {
      if s.nxt <= sn {
        assert s'.buf[|s.buf| + (sn - s.nxt)].pkt.sn == sn;
      } else {
        var i :| 0 <= i < |s.buf| && s.buf[i].pkt.sn == sn;
        assert s'.buf[i].pkt.sn == sn;
      }
    }
  }

  lemma SpeaksHonest(e: Endpoint, e': Endpoint, s: Sender, p: Packet)
    requires Speaks(e.k, s.buf, p) && AckInv(e)
    requires e'.k.snd == s && LogInv(e') && e'.k.rcv == e.k.rcv
    requires forall i :: 0 <= i < |s.buf| ==> s.buf[i].pkt.sn < s.nxt
    ensures Honest(e', p)
  {
  }

  lemma FlushOwner(e: Endpoint)
    requires EndpointInv(e) && InRange(e.k)
    ensures var e' := Numbered(e, FlushNow(e.k));
            && OwnerKeeps(e, e') && e'.delivered == e.delivered
            && e'.k.rcv.(acks := []) == e.k.rcv.(acks := [])
  {
    hide CleanBox, SenderInv, ReceiverInv, PayloadInv, InOrder, EmitAll, Seal, HonestBox, Speaks, Emission, FlushNow,
         Fill, LogInv, SamePackets, InBuffer, Honest, AckPackets;
    var k' := FlushNow(e.k);
    var n := FlushKeeps(e.k);
    var s := Fill(e.k.snd, FillCtxOf(e.k), SendWindow(e.k));
    FlushLog(e, s, n);
    FlushBuffer(e.k.snd, s, e.k.cfg.sndWnd, n);
    var e' := Numbered(e, k');
    var filled := e'.(k := e.k.(snd := s));
    assert filled == e.(k := e.k.(snd := s), log := e.log + e.k.snd.queue[..n]);
    LogSame(filled, e');
    forall sn: u32 | InBuffer(s.buf, sn) ensures InBuffer(k'.snd.buf, sn) {
      SameBuffer(s.buf, k'.snd.buf, sn);
    }
    HonestAfterFlush(e, e', filled, s);
    assert e'.k.snd.nxt == |e'.log| by { LogLength(e'); }
  }

  lemma LogLength(e: Endpoint)
    requires LogInv(e)
    ensures e.k.snd.nxt == |e.log|
  {
  }

  lemma HonestAfterFlush(e: Endpoint, e': Endpoint, filled: Endpoint, s: Sender)
    requires EndpointInv(e) && InRange(e.k)
    requires s == Fill(e.k.snd, FillCtxOf(e.k), SendWindow(e.k))
    requires filled.k == e.k.(snd := s) && LogInv(filled) && e.log <= filled.log
    requires forall i :: 0 <= i < |s.buf| ==> s.buf[i].pkt.sn < s.nxt
    requires e'.k == FlushNow(e.k) && e'.log == filled.log
    ensures HonestBox(e')
  {
    hide KcpInv, Clean, InOrder, Carried, EmitAll, Seal, HonestBox, Speaks, Emission, Fill, LogInv, UpdateSsthresh;
    FlushEmits(e.k);
    EmissionSpeaks(e.k);
    HonestInOrder(e);
    HonestInOrder(e');
    var conv := e.k.cfg.conv;
    assert InOrder(e'.k.box, conv) == Carried(e'.k.box.out, conv) by { NothingStaged(e'.k.box, conv); }
    forall p | p in InOrder(e'.k.box, conv) ensures Honest(e', p) {
      if p in Emission(e.k) {
        SpeaksHonest(e, filled, s, p);
      } else {
        assert p in InOrder(e.k.box, conv);
      }
    }
  }

  lemma NothingStaged(box: Outbox, conv: u32)
    requires box.staged == []
    ensures InOrder(box, conv) == Carried(box.out, conv)
  {
  }

  /** The clock half of `update` leaves everything the network can see. */
  lemma TickOwner(e: Endpoint, current: u32)
    requires EndpointInv(e)
    ensures var k1 := Tick(e.k, current).0;
            && EndpointInv(e.(k := k1)) && k1.snd == e.k.snd && k1.rcv == e.k.rcv && k1.box == e.k.box
            && k1.cfg == e.k.cfg
  {
    hide CleanBox, SenderInv, ReceiverInv, PayloadInv, HonestBox;
    HonestBoxGrows(e, e.(k := Tick(e.k, current).0));
  }

  lemma UpdateOwner(e: Endpoint, current: u32)
    requires EndpointInv(e) && InRange(e.k)
    ensures var e' := Act(e, Update(current));
            && OwnerKeeps(e, e') && e'.delivered == e.delivered
            && e'.k.rcv.(acks := []) == e.k.rcv.(acks := [])
  {
    hide EndpointInv, FlushNow, Received, InBuffer, Tick;
    TickOwner(e, current);
    var (k1, due) := Tick(e.k, current);
    var e1 := e.(k := k1);
    if due {
      FlushOwner(e1);
      assert Numbered(e1, FlushNow(k1)) == Numbered(e, FlushNow(k1));
    } else {
      assert e.log + e.k.snd.queue[..0] == e.log;
      assert e1.k.snd.nxt == |e1.log| by { InvHasLog(e1); }
    }
  }

  lemma InvHasLog(e: Endpoint)
    requires EndpointInv(e)
    ensures e.k.snd.nxt == |e.log| && |e.log| < TWO31 && KcpInv(e.k)
  {
  }

  /** Reading hands out exactly the next logged payload. */
  lemma RecvOwner(tx: Endpoint, e: Endpoint)
    requires EndpointInv(e) && InRange(e.k) && InStep(tx, e) && |tx.log| < TWO31
    ensures OwnerKeeps(e, Act(e, Recv)) && InStep(tx, Act(e, Recv))
  {
    hide CleanBox, SenderInv, PayloadInv, HonestBox, Honest, RecvOwned, Received;
    var e' := Act(e, Recv);
    var (k', got) := RecvOwned(e.k);
    RecvKeeps(e.k);
    HonestBoxGrows(e, e');
    if got.Ok? {
      var first, base := e.k.rcv.queue[0], Base(e.k.rcv);
      assert first in e.k.rcv.queue + e.k.rcv.buf;
      assert Genuine(tx.log, first) && first.sn == base;
      assert tx.log[..base + 1] == tx.log[..base] + [first.data];
      FlatAppend(tx.log[..base], [first.data]);
      FlatOne(first.data);
      forall p | p in k'.rcv.queue + k'.rcv.buf ensures Genuine(tx.log, p) {
        assert p in [first] + (k'.rcv.queue + k'.rcv.buf);
      }
      NextWithinLog(tx, e, e');
    } else {
      assert e.delivered + [] == e.delivered;
    }
  }

  /** The receive position cannot pass the end of the peer's log. */
  lemma NextWithinLog(tx: Endpoint, e: Endpoint, e': Endpoint)
    requires InStep(tx, e) && e.k.rcv.nxt <= |tx.log| < TWO31
    requires forall sn: u32 :: Received(e'.k.rcv, sn) ==> Received(e.k.rcv, sn)
    ensures e'.k.rcv.nxt <= |tx.log|
  {
    forall i | 0 <= i < |e.k.rcv.buf| ensures e.k.rcv.buf[i].sn < |tx.log| {
      assert e.k.rcv.buf[i] in e.k.rcv.queue + e.k.rcv.buf;
    }
    assert !Received(e.k.rcv, |tx.log|);
  }

  // ------------------------------------------------------ the network's steps

  /** Both directions, seen from the endpoint `rx` that hears a segment of `tx`. */
  predicate PairInv(tx: Endpoint, rx: Endpoint) {
    && tx.k.cfg.conv == rx.k.cfg.conv
    && EndpointInv(tx) && EndpointInv(rx)
    && InStep(tx, rx) && InStep(rx, tx) && NoneLost(tx, rx) && NoneLost(rx, tx)
  }

  /** A data segment of the peer: what is taken in is the logged payload. */
  lemma HearData(tx: Endpoint, rx: Endpoint, p: Packet)
    requires InStep(tx, rx) && ReceiverInv(rx.k.rcv, rx.k.cfg.rcvWnd) && AckInv(rx)
    requires Base(rx.k.rcv) + 2 * rx.k.cfg.rcvWnd < TWO31 && |tx.log| < TWO31
    requires p.cmd == CMD_PUSH && Honest(tx, p)
    ensures var rx' := rx.(k := rx.k.(rcv := AcceptPush(rx.k.rcv, rx.k.cfg.rcvWnd, p)));
            && InStep(tx, rx') && AckInv(rx')
            && (forall sn: u32 :: Received(rx.k.rcv, sn) ==> Received(rx'.k.rcv, sn))
  {
    hide AcceptPush, ReceiverInv, Received;
    var r, r' := rx.k.rcv, AcceptPush(rx.k.rcv, rx.k.cfg.rcvWnd, p);
    AcceptPushKeeps(r, rx.k.cfg.rcvWnd, p);
    assert Genuine(tx.log, p);
    NoNumberBeyond(tx, rx, r', p);
    forall i | 0 <= i < |r'.acks| ensures r'.acks[i].sn < TWO31 && Received(r', r'.acks[i].sn) {
      if i < |r.acks| {
        assert r'.acks[i] == r.acks[i];
      }
    }
  }

  lemma NoNumberBeyond(tx: Endpoint, rx: Endpoint, r': Receiver, p: Packet)
    requires InStep(tx, rx) && |tx.log| < TWO31 && p.sn < |tx.log|
    requires forall sn: u32 :: Received(r', sn) ==> Received(rx.k.rcv, sn) || sn == p.sn
    ensures r'.nxt <= |tx.log|
  {
    forall i | 0 <= i < |rx.k.rcv.buf| ensures rx.k.rcv.buf[i].sn < |tx.log| {
      assert rx.k.rcv.buf[i] in rx.k.rcv.queue + rx.k.rcv.buf;
    }
    assert !Received(rx.k.rcv, |tx.log|);
  }

  /** What `una` or a selective acknowledgement of the peer releases, the peer
      has received. */
  lemma HearAcks(tx: Endpoint, rx: Endpoint, p: Packet, s': Sender)
    requires KcpInv(rx.k) && LogInv(rx) && tx.k.rcv.nxt <= |rx.log| < TWO31
    requires Honest(tx, p) && NoneLost(rx, tx)
    requires s'.nxt == rx.k.snd.nxt && s'.queue == rx.k.snd.queue
    requires forall seg :: seg in s'.buf <==>
               seg in rx.k.snd.buf[UnaCount(rx.k.snd.buf, p.una)..] && !(p.cmd == CMD_ACK && seg.pkt.sn == p.sn)
    ensures NoneLost(rx.(k := rx.k.(snd := s')), tx) && LogInv(rx.(k := rx.k.(snd := s')))
  {
    var buf := rx.k.snd.buf;
    BufSorted(rx.k);
    HonestUna(tx, p);
    hide KcpInv, LogInv, Received, InBuffer;
    forall sn: u32 | sn < s'.nxt && !Received(tx.k.rcv, sn) ensures InBuffer(s'.buf, sn) {
      ReceivedBelow(tx.k.rcv, sn);
      StillBuffered(buf, s'.buf, p, sn);
    }
    forall seg | seg in s'.buf ensures seg in buf {
      assert seg in buf[UnaCount(buf, p.una)..];
    }
    LogOfPart(rx, s');
  }

  lemma StillBuffered(buf: seq<Segment>, buf': seq<Segment>, p: Packet, sn: u32)
    requires SortedSegments(buf) && p.una < TWO31 && forall i :: 0 <= i < |buf| ==> buf[i].pkt.sn < TWO31
    requires forall seg :: seg in buf[UnaCount(buf, p.una)..] && !(p.cmd == CMD_ACK && seg.pkt.sn == p.sn) ==> seg in buf'
    requires InBuffer(buf, sn) && p.una <= sn && !(p.cmd == CMD_ACK && p.sn == sn)
    ensures InBuffer(buf', sn)
  {
    UnaExact(buf, p.una);
    var n := UnaCount(buf, p.una);
    var i :| 0 <= i < |buf| && buf[i].pkt.sn == sn;
    assert buf[i] == buf[n..][i - n];
    var j :| 0 <= j < |buf'| && buf'[j] == buf[i];
  }

  lemma LogOfPart(e: Endpoint, s': Sender)
    requires LogInv(e) && s'.nxt == e.k.snd.nxt && s'.queue == e.k.snd.queue
    requires forall seg :: seg in s'.buf ==> seg in e.k.snd.buf
    ensures LogInv(e.(k := e.k.(snd := s')))
  {
    hide Flat;
    forall i | 0 <= i < |s'.buf| && s'.buf[i].pkt.sn < |e.log| ensures s'.buf[i].pkt.data == e.log[s'.buf[i].pkt.sn] {
      assert s'.buf[i] in s'.buf;
    }
  }

  lemma ReceivedBelow(r: Receiver, sn: u32)
    requires !Received(r, sn)
    ensures r.nxt <= sn
  {
  }

  lemma HearPacket(tx: Endpoint, rx: Endpoint, p: Packet)
    requires PairInv(tx, rx) && Base(rx.k.rcv) + 2 * rx.k.cfg.rcvWnd < TWO31
    requires Honest(tx, p)
    ensures var rx' := rx.(k := OnPacket(rx.k, p));
            PairInv(tx, rx') && Base(rx'.k.rcv) == Base(rx.k.rcv) && rx'.k.cfg == rx.k.cfg
  {
    hide KcpInv, LogInv, AckInv, HonestBox, Honest, OnPacket, AcceptPush, Received, InBuffer, NoneLost;
    var rx' := rx.(k := OnPacket(rx.k, p));
    InvHasLog(tx);
    InvHasLog(rx);
    OnPacketKeeps(rx.k, p);
    HonestUna(tx, p);
    HearAcks(tx, rx, p, rx'.k.snd);
    LogUntouched(rx.(k := rx.k.(snd := rx'.k.snd)), rx');
    if p.cmd == CMD_PUSH {
      InvHasReceiver(rx.k);
      HearData(tx, rx, p);
      StepDepends(tx, rx.(k := rx.k.(rcv := rx'.k.rcv)), rx');
    } else {
      StepDepends(tx, rx, rx');
    }
    HonestBoxGrows(rx, rx');
    NoneLostDepends(tx, rx, rx');
    NoneLostFrom(rx.(k := rx.k.(snd := rx'.k.snd)), rx', tx);
  }

  lemma HonestUna(e: Endpoint, p: Packet)
    requires Honest(e, p)
    ensures p.una <= e.k.rcv.nxt
  {
  }

  lemma StepDepends(tx: Endpoint, rx: Endpoint, rx': Endpoint)
    requires InStep(tx, rx) && AckInv(rx) && rx'.k.rcv == rx.k.rcv && rx'.delivered == rx.delivered
    ensures InStep(tx, rx') && AckInv(rx')
  {
  }

  lemma NoneLostDepends(tx: Endpoint, rx: Endpoint, rx': Endpoint)
    requires NoneLost(tx, rx)
    requires forall sn: u32 :: Received(rx.k.rcv, sn) ==> Received(rx'.k.rcv, sn)
    ensures NoneLost(tx, rx')
  {
  }

  lemma NoneLostFrom(rx: Endpoint, rx': Endpoint, tx: Endpoint)
    requires NoneLost(rx, tx) && rx'.k.snd == rx.k.snd
    ensures NoneLost(rx', tx)
  {
  }

  lemma {:induction false} HearPackets(tx: Endpoint, rx: Endpoint, ps: seq<Packet>)
    requires PairInv(tx, rx) && Base(rx.k.rcv) + 2 * rx.k.cfg.rcvWnd < TWO31
    requires AllHonest(tx, ps)
    ensures PairInv(tx, rx.(k := OnPackets(rx.k, ps)))
    decreases |ps|
  {
    hide PairInv, Honest, OnPacket;
    if ps == [] {
      assert rx.(k := OnPackets(rx.k, ps)) == rx;
    } else {
      assert ps[0] in ps;
      var rx1 := rx.(k := OnPacket(rx.k, ps[0]));
      HearPacket(tx, rx, ps[0]);
      HearPackets(tx, rx1, ps[1..]);
      assert rx1.(k := OnPackets(rx1.k, ps[1..])) == rx.(k := OnPackets(rx.k, ps));
    }
  }

  /** Timers and congestion state do not matter to either direction. */
  lemma TimersOnly(tx: Endpoint, rx: Endpoint, rx': Endpoint)
    requires PairInv(tx, rx) && KcpInv(rx'.k) && rx'.k.cfg == rx.k.cfg && rx'.k.box == rx.k.box
    requires rx' == rx.(k := rx'.k) && rx'.k.rcv == rx.k.rcv && SamePackets(rx.k.snd.buf, rx'.k.snd.buf)
    requires rx'.k.snd.nxt == rx.k.snd.nxt && rx'.k.snd.queue == rx.k.snd.queue
    ensures PairInv(tx, rx')
  {
    hide KcpInv, LogInv, HonestBox, Received, InBuffer, SamePackets, Genuine;
    LogSame(rx, rx');
    HonestBoxGrows(rx, rx');
    forall sn: u32 | InBuffer(rx.k.snd.buf, sn) ensures InBuffer(rx'.k.snd.buf, sn) {
      SameBuffer(rx.k.snd.buf, rx'.k.snd.buf, sn);
    }
  }

  lemma HearEnd(tx: Endpoint, rx: Endpoint, best: Option<Ack>, oldUna: u32)
    requires PairInv(tx, rx)
    ensures rx.k.cfg.mss > 0 && PairInv(tx, rx.(k := AfterPackets(rx.k, best, oldUna)))
  {
    InvHasLog(rx);
    InvHasConfig(rx.k);
    hide PairInv, KcpInv, AfterPackets, SamePackets;
    AfterPacketsKeeps(rx.k, best, oldUna);
    TimersOnly(tx, rx, rx.(k := AfterPackets(rx.k, best, oldUna)));
  }

  /** Hearing any datagram the peer ever emitted keeps both directions. */
  lemma HearDatagram(tx: Endpoint, rx: Endpoint, d: bytes)
    requires PairInv(tx, rx) && InRange(rx.k) && d in tx.k.box.out
    ensures rx.k.cfg.mss > 0 && PairInv(tx, rx.(k := Input(rx.k, d).0))
  {
    InvHasConfig(rx.k);
    var conv := rx.k.cfg.conv;
    var c := Split(d, conv);
    assert c.error.None? by {
      var i :| 0 <= i < |tx.k.box.out| && tx.k.box.out[i] == d;
      assert Clean(tx.k.box.out[i], conv);
    }
    assert AllHonest(tx, c.packets) by { assert HonestRun(tx, d); }
    hide PairInv, Honest, OnPackets, AfterPackets, Split;
    HearPackets(tx, rx, c.packets);
    OnPacketsKeepsConfig(rx.k, c.packets);
    HearEnd(tx, rx.(k := OnPackets(rx.k, c.packets)), NewestAck(None, c.packets), rx.k.snd.una);
  }

  // --------------------------------------------------------------- every run

  lemma OwnerPair(me: Endpoint, me': Endpoint, peer: Endpoint)
    requires PairInv(me, peer) && OwnerKeeps(me, me') && InStep(peer, me')
    ensures PairInv(me', peer)
  {
    hide EndpointInv, Received, InBuffer, Genuine;
    InvHasLog(me);
    assert me'.log[..Base(peer.k.rcv)] == me.log[..Base(peer.k.rcv)];
    forall p | Genuine(me.log, p) ensures Genuine(me'.log, p) {
      GenuineGrows(me.log, me'.log, p);
    }
  }

  lemma GenuineGrows(a: seq<bytes>, b: seq<bytes>, p: Packet)
    requires a <= b && Genuine(a, p)
    ensures Genuine(b, p)
  {
  }

  /** Neither the acknowledgement list nor the outbox matters to the stream read. */
  lemma InStepSame(tx: Endpoint, rx: Endpoint, rx': Endpoint)
    requires InStep(tx, rx) && rx'.delivered == rx.delivered
    requires rx'.k.rcv.(acks := []) == rx.k.rcv.(acks := [])
    ensures InStep(tx, rx')
  {
  }

  lemma OwnerStep(me: Endpoint, peer: Endpoint, op: Op)
    requires PairInv(me, peer) && InRange(me.k)
    ensures ConfigOk(me.k.cfg) && PairInv(Act(me, op), peer)
  {
    InvHasConfig(me.k);
    InvHasLog(peer);
    hide EndpointInv, OwnerKeeps, NoneLost, InStep, Act, InRange;
    match op {
      case Send(data) => SendOwner(me, data);
      case Recv => RecvOwner(peer, me);
      case Update(current) => UpdateOwner(me, current);
      case Flush => FlushPublic(me);
      case FlushAck => FlushAckOwner(me);
      case Retransmit(sn) => RetransmitOwner(me, sn);
    }
    if !op.Recv? {
      InStepSame(peer, me, Act(me, op));
    }
    OwnerPair(me, Act(me, op), peer);
  }

  lemma FlushPublic(e: Endpoint)
    requires EndpointInv(e) && InRange(e.k)
    ensures ConfigOk(e.k.cfg)
    ensures var e' := Act(e, Flush);
            && OwnerKeeps(e, e') && e'.delivered == e.delivered
            && e'.k.rcv.(acks := []) == e.k.rcv.(acks := [])
  {
    InvHasConfig(e.k);
    hide EndpointInv, OwnerKeeps, InRange, FlushNow;
    assert Act(e, Flush) == Numbered(e, KcpSpec.Flush(e.k).0);
    if e.k.updated {
      FlushOwner(e);
    } else {
      assert e.log + e.k.snd.queue[..0] == e.log;
      assert Act(e, Flush) == e;
      OwnerIdle(e);
    }
  }

  lemma PairSwap(x: Endpoint, y: Endpoint)
    requires PairInv(x, y)
    ensures PairInv(y, x)
  {
  }

  lemma StepKeeps(s: Net, s': Net, step: Step)
    requires PairInv(s.a, s.b) && InRange(s.a.k) && InRange(s.b.k) && Next(s, s', step)
    ensures PairInv(s'.a, s'.b)
  {
    hide PairInv, InRange;
    PairSwap(s.a, s.b);
    match step
    case OwnerA(op) =>
      OwnerStep(s.a, s.b, op);
    case OwnerB(op) =>
      OwnerStep(s.b, s.a, op);
      PairSwap(s'.b, s'.a);
    case ToA(d) =>
      HearDatagram(s.b, s.a, d);
      PairSwap(s'.b, s'.a);
    case ToB(d) =>
      HearDatagram(s.a, s.b, d);
  }

  lemma FreshPair(a: Endpoint, b: Endpoint)
    requires Fresh(a) && Fresh(b) && a.k.cfg.conv == b.k.cfg.conv && InRange(a.k) && InRange(b.k)
    ensures PairInv(a, b)
  {
    FreshAlone(a);
    FreshAlone(b);
    FreshInStep(a, b);
    FreshInStep(b, a);
    hide EndpointInv, InStep, NoneLost, Fresh;
  }

  lemma FreshAlone(e: Endpoint)
    requires Fresh(e) && InRange(e.k)
    ensures EndpointInv(e)
  {
    CleanEmpty(e.k.cfg.conv);
  }

  lemma FreshInStep(tx: Endpoint, rx: Endpoint)
    requires Fresh(tx) && Fresh(rx)
    ensures InStep(tx, rx) && NoneLost(tx, rx)
  {
  }

  lemma {:induction false} RunKeeps(run: seq<Net>, steps: seq<Step>, i: nat)
    requires IsRun(run, steps) && i < |run|
    ensures PairInv(run[i].a, run[i].b)
  {
    hide PairInv, Next, Fresh, InRange;
    if i == 0 {
      FreshPair(run[0].a, run[0].b);
    } else {
      RunKeeps(run, steps, i - 1);
      assert Next(run[i - 1], run[i], steps[i - 1]);
      StepKeeps(run[i - 1], run[i], steps[i - 1]);
    }
  }

  lemma DeliveredIsPrefix(tx: Endpoint, rx: Endpoint)
    requires PairInv(tx, rx)
    ensures rx.delivered <= tx.accepted
  {
    FlatPrefix(tx.log, Base(rx.k.rcv));
  }

  /** Reliable in-order delivery: in every state of every run, each side has
      handed out a prefix of what the other side's engine accepted. */
  lemma ReliableDelivery(run: seq<Net>, steps: seq<Step>, i: nat)
    requires IsRun(run, steps) && i < |run|
    ensures run[i].b.delivered <= run[i].a.accepted
    ensures run[i].a.delivered <= run[i].b.accepted
  {
    hide PairInv, IsRun;
    RunKeeps(run, steps, i);
    PairSwap(run[i].a, run[i].b);
    DeliveredIsPrefix(run[i].a, run[i].b);
    DeliveredIsPrefix(run[i].b, run[i].a);
  }

  /** A buffered copy of number `sn` still carries the payload the number was given. */
  predicate Kept(e: Endpoint, sn: u32) {
    sn < |e.log| && exists i :: 0 <= i < |e.k.snd.buf| && e.k.snd.buf[i].pkt.sn == sn
                                && e.k.snd.buf[i].pkt.data == e.log[sn]
  }

  /** The receiver handed the payload out already, or holds it unchanged. */
  predicate Secured(tx: Endpoint, rx: Endpoint, sn: u32) {
    sn < |tx.log| &&
    (sn < Base(rx.k.rcv)
     || exists p :: p in rx.k.rcv.queue + rx.k.rcv.buf && p.sn == sn && p.data == tx.log[sn])
  }

  /** No data is released too early: every number the sender used is still
      buffered with its payload, or the receiver has delivered or holds it. */
  lemma NothingReleasedEarly(run: seq<Net>, steps: seq<Step>, i: nat, sn: u32)
    requires IsRun(run, steps) && i < |run|
    ensures sn < run[i].a.k.snd.nxt ==> Kept(run[i].a, sn) || Secured(run[i].a, run[i].b, sn)
    ensures sn < run[i].b.k.snd.nxt ==> Kept(run[i].b, sn) || Secured(run[i].b, run[i].a, sn)
  {
    hide PairInv, IsRun, Kept, Secured;
    RunKeeps(run, steps, i);
    PairSwap(run[i].a, run[i].b);
    KeptOrSecured(run[i].a, run[i].b, sn);
    KeptOrSecured(run[i].b, run[i].a, sn);
  }

  lemma KeptOrSecured(tx: Endpoint, rx: Endpoint, sn: u32)
    requires PairInv(tx, rx)
    ensures sn < tx.k.snd.nxt ==> Kept(tx, sn) || Secured(tx, rx, sn)
  {
    hide CleanBox, HonestBox, Flat;
    var r := rx.k.rcv;
    if sn < tx.k.snd.nxt {
      if InBuffer(tx.k.snd.buf, sn) {
        assert Kept(tx, sn);
      } else if Base(r) <= sn {
        var held := r.queue + r.buf;
        var i := if sn < r.nxt then sn - Base(r) else
                   (var j :| 0 <= j < |r.buf| && r.buf[j].sn == sn; |r.queue| + j);
        assert held[i] in held && held[i].sn == sn;
        assert Genuine(tx.log, held[i]);
      }
    }
  }

  lemma DrainedIsAtEnd(tx: Endpoint, rx: Endpoint)
    requires PairInv(tx, rx)
    requires tx.k.snd.buf == [] && rx.k.rcv.queue == []
    ensures rx.k.rcv.nxt == |tx.log|
  {
    hide CleanBox, HonestBox, PayloadInv, Flat, Genuine;
    var r := rx.k.rcv;
    InvHasLog(tx);
    assert !Received(r, r.nxt) by {
      forall j | 0 <= j < |r.buf| ensures r.buf[j].sn > r.nxt {
        assert r.buf[0].sn != r.nxt && (j == 0 || r.buf[0].sn < r.buf[j].sn);
      }
    }
    assert !InBuffer(tx.k.snd.buf, r.nxt);
  }

  /** Nothing is stuck behind an idle sender: once the sender has nothing queued
      or unacknowledged and the reader has drained what is ready, the reader has
      exactly what was accepted. */
  lemma IdleMeansComplete(run: seq<Net>, steps: seq<Step>, i: nat)
    requires IsRun(run, steps) && i < |run|
    requires run[i].a.k.snd.queue == [] && run[i].a.k.snd.buf == [] && run[i].b.k.rcv.queue == []
    ensures run[i].b.delivered == run[i].a.accepted
  {
    hide IsRun, KcpInv, HonestBox, AckInv, NoneLost;
    RunKeeps(run, steps, i);
    var tx, rx := run[i].a, run[i].b;
    DrainedIsAtEnd(tx, rx);
    assert tx.log[..|tx.log|] == tx.log;
  }
}
