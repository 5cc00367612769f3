/** Every public operation of the engine keeps the window invariant: `send_owned`,
    `input` on arbitrary bytes, `recv_owned`, `flush`, `flush_ack`, `update` and
    `retransmit_sn`. */
module KcpOps {
  import opened Words
  import opened KcpWire
  import opened KcpSpec
  import opened KcpWindow

  // -------------------------------------------------------------- send_owned

  /** Cutting loses no byte and leaves no empty and no oversized run. */
  lemma {:induction false} ChunksExact(data: bytes, mss: nat)
    requires mss > 0
    ensures Flat(Chunks(data, mss)) == data
    ensures forall i :: 0 <= i < |Chunks(data, mss)| ==> 0 < |Chunks(data, mss)[i]| <= mss
    decreases |data|
  {
    if data != [] {
      var n := Min(mss, |data|);
      ChunksExact(data[n..], mss);
      assert data == data[..n] + data[n..];
      assert Chunks(data, mss)[1..] == Chunks(data[n..], mss);
    }
  }

  /** Filling the last queued segment extends the stream by the bytes taken. */
  lemma FilledExact(queue: seq<bytes>, mss: nat, more: bytes)
    requires forall i :: 0 <= i < |queue| ==> |queue[i]| <= mss
    requires 0 < |more| <= Room(queue, mss)
    ensures var filled := queue[..|queue| - 1] + [queue[|queue| - 1] + more];
            && Flat(filled) == Flat(queue) + more
            && forall i :: 0 <= i < |filled| ==> |filled[i]| <= mss
  {
    var front, last := queue[..|queue| - 1], queue[|queue| - 1];
    assert queue == front + [last];
    FlatAppend(front, [last]);
    FlatAppend(front, [last + more]);
    FlatOne(last);
    FlatOne(last + more);
  }

  /** `send_owned` appends exactly the accepted bytes to the stream the queue
      spells; it refuses, changing nothing, exactly when the last segment has no
      room and the data needs 128 segments or more. */
  lemma SendOwnedExact(queue: seq<bytes>, mss: nat, data: bytes)
    requires mss > 0 && forall i :: 0 <= i < |queue| ==> |queue[i]| <= mss
    ensures var (q, r) := SendOwned(queue, mss, data);
            && (forall i :: 0 <= i < |q| ==> |q[i]| <= mss)
            && (r.Ok? ==> r.value <= |data| && Flat(q) == Flat(queue) + data[..r.value])
            && (r.Err? ==> q == queue)
            && (r.Err? <==> Room(queue, mss) == 0 && CeilDiv(|data|, mss) >= WND_RCV)
            && (r.Ok? && r.value < |data| ==> r.value == Room(queue, mss) > 0)
  {
    hide Chunks, CeilDiv, Flat;
    var ext := Min(|data|, Room(queue, mss));
    var filled := if ext > 0 then queue[..|queue| - 1] + [queue[|queue| - 1] + data[..ext]] else queue;
    var rest := data[ext..];
    assert data == data[..ext] + rest && data[..|data|] == data && data[..0] == [] && data[0..] == data;
    if ext > 0 {
      FilledExact(queue, mss, data[..ext]);
    }
    assert Flat(filled) == Flat(queue) + data[..ext];
    assert rest == [] ==> CeilDiv(|rest|, mss) == 0 by { NoPieces(mss); }
    if rest != [] && CeilDiv(|rest|, mss) < WND_RCV {
      ChunksExact(rest, mss);
      FlatAppend(filled, Chunks(rest, mss));
      assert Flat(queue) + data[..ext] + rest == Flat(queue) + data;
    }
  }

  lemma NoPieces(mss: nat)
    requires mss > 0
    ensures CeilDiv(0, mss) == 0
  {
  }

  // ------------------------------------------------------------------- input

  /** One segment of a datagram, whatever it says. */
  lemma OnPacketKeeps(k: Kcp, p: Packet)
    requires KcpInv(k) && Base(k.rcv) + 2 * k.cfg.rcvWnd < TWO31
    ensures var k' := OnPacket(k, p);
            && KcpInv(k') && k'.cfg == k.cfg && k'.box == k.box && Base(k'.rcv) == Base(k.rcv)
            && k'.snd.una >= k.snd.una && k'.snd.nxt == k.snd.nxt && k'.snd.queue == k.snd.queue
            && k'.rcv.nxt >= k.rcv.nxt
            && k'.rcv == (if p.cmd == CMD_PUSH then AcceptPush(k.rcv, k.cfg.rcvWnd, p) else k.rcv)
            && (forall seg :: seg in k'.snd.buf <==>
                  seg in k.snd.buf[UnaCount(k.snd.buf, p.una)..] && !(p.cmd == CMD_ACK && seg.pkt.sn == p.sn))
  {
    hide SenderInv, ReceiverInv, PayloadInv, CleanBox, AcceptPush, ParseAck, Shrink, UpdateAck, NothingInvented, Received;
    var n := UnaCount(k.snd.buf, p.una);
    var s1 := Shrink(k.snd.(buf := k.snd.buf[n..]));
    UnaKeeps(k.snd, k.cfg, n);
    ShrinkOnlyUna(k.snd.(buf := k.snd.buf[n..]));
    if p.cmd == CMD_ACK {
      ParseAckKeeps(s1, k.cfg, p.sn);
    } else if p.cmd == CMD_PUSH {
      AcceptPushKeeps(k.rcv, k.cfg.rcvWnd, p);
    }
  }

  lemma ShrinkOnlyUna(s: Sender)
    ensures var s' := Shrink(s); s'.buf == s.buf && s'.nxt == s.nxt && s'.queue == s.queue
  {
  }

  lemma {:induction false} OnPacketsKeeps(k: Kcp, ps: seq<Packet>)
    requires KcpInv(k) && Base(k.rcv) + 2 * k.cfg.rcvWnd < TWO31
    ensures var k' := OnPackets(k, ps);
            && KcpInv(k') && k'.cfg == k.cfg && k'.box == k.box && Base(k'.rcv) == Base(k.rcv)
            && k'.snd.una >= k.snd.una && k'.snd.nxt == k.snd.nxt && k'.snd.queue == k.snd.queue
            && k'.rcv.nxt >= k.rcv.nxt
    decreases |ps|
  {
    hide KcpInv, OnPacket;
    if ps != [] {
      OnPacketKeeps(k, ps[0]);
      OnPacketsKeeps(OnPacket(k, ps[0]), ps[1..]);
    }
  }

  lemma AfterPacketsKeeps(k: Kcp, best: Option<Ack>, oldUna: u32)
    requires KcpInv(k)
    ensures var k' := AfterPackets(k, best, oldUna);
            && KcpInv(k') && k'.cfg == k.cfg && k'.box == k.box && k'.rcv == k.rcv
            && k'.snd.una == k.snd.una && k'.snd.nxt == k.snd.nxt && k'.snd.queue == k.snd.queue
            && SamePackets(k.snd.buf, k'.snd.buf)
  {
    hide SenderInv, ReceiverInv, PayloadInv, CleanBox, UpdateCwnd;
    if best.Some? {
      CreditKeeps(k.snd.buf, best.value.sn, best.value.ts);
      SamePacketsKeeps(k.snd, Credit(k.snd.buf, best.value.sn, best.value.ts), k.cfg);
    }
  }

  /** Any datagram, well-formed or not: both windows stay sorted and bounded and
      neither counter moves back. */
  lemma InputKeeps(k: Kcp, d: bytes)
    requires KcpInv(k) && InRange(k)
    ensures var k' := Input(k, d).0;
            && KcpInv(k') && k'.cfg == k.cfg && k'.box == k.box && Base(k'.rcv) == Base(k.rcv)
            && k'.snd.una >= k.snd.una && k'.snd.nxt == k.snd.nxt && k'.snd.queue == k.snd.queue
            && k'.rcv.nxt >= k.rcv.nxt
  {
    hide KcpInv, OnPackets, Split, AfterPackets;
    assert ConfigOk(k.cfg) by { InvHasConfig(k); }
    var c := Split(d, k.cfg.conv);
    OnPacketsKeeps(k, c.packets);
    if c.error.None? {
      AfterPacketsKeeps(OnPackets(k, c.packets), NewestAck(None, c.packets), k.snd.una);
    }
  }

  lemma InvHasConfig(k: Kcp)
    requires KcpInv(k)
    ensures ConfigOk(k.cfg)
  {
  }

  lemma BufSorted(k: Kcp)
    requires KcpInv(k)
    ensures SortedSegments(k.snd.buf) && k.snd.nxt < TWO31
    ensures forall i :: 0 <= i < |k.snd.buf| ==> k.snd.buf[i].pkt.sn < TWO31
  {
  }

  lemma InvHasReceiver(k: Kcp)
    requires KcpInv(k)
    ensures ReceiverInv(k.rcv, k.cfg.rcvWnd)
  {
  }

  // ------------------------------------------------------------------- flush

  /** The window an engine advertises is the room left in its receive queue. */
  lemma FreeIs(k: Kcp)
    requires KcpInv(k)
    ensures WndUnused(k.rcv, k.cfg.rcvWnd) + |k.rcv.queue| == k.cfg.rcvWnd
  {
    hide CleanBox, SenderInv, PayloadInv;
  }

  lemma TransmitSame(buf: seq<Segment>, c: TxCtx)
    ensures SamePackets(buf, TransmitAll(buf, c))
  {
    forall i | 0 <= i < |buf| ensures SameButTimers(buf[i], TransmitAll(buf, c)[i]) {}
  }

  /** The data a flush emits is the current payload of buffered segments, stamped
      with this side's receive position. */
  lemma {:induction false} DueFrom(buf: seq<Segment>, c: TxCtx, p: Packet)
    requires p in Due(buf, c)
    ensures exists i :: 0 <= i < |buf| && !KindOf(buf[i], c).Idle? && p == Transmit(buf[i], c).pkt
  {
    var front, last := buf[..|buf| - 1], buf[|buf| - 1];
    if p in Due(front, c) {
      DueFrom(front, c, p);
      var i :| 0 <= i < |front| && !KindOf(front[i], c).Idle? && p == Transmit(front[i], c).pkt;
      assert buf[i] == front[i];
    } else {
      assert buf[|buf| - 1] == last;
    }
  }

  /** What an endpoint says in any segment it emits: data segments come from its
      send buffer, acknowledgements from its list, `una` is its receive position. */
  predicate Speaks(k: Kcp, buf: seq<Segment>, p: Packet) {
    && Sendable(p, k.cfg.conv) && OVERHEAD + |p.data| <= k.cfg.mtu && p.una == k.rcv.nxt
    && (p.cmd == CMD_PUSH ==>
          && p.frg == 0
          && exists i :: 0 <= i < |buf| && buf[i].pkt.sn == p.sn && buf[i].pkt.data == p.data)
    && (p.cmd == CMD_ACK ==> exists i :: 0 <= i < |k.rcv.acks| && k.rcv.acks[i].sn == p.sn)
  }

  lemma DueSpeaks(k: Kcp, s: Sender, p: Packet)
    requires ConfigOk(k.cfg) && PayloadInv(s, k.cfg) && p in Due(s.buf, TxCtxOf(k))
    ensures Speaks(k, s.buf, p)
  {
    var c := TxCtxOf(k);
    DueFrom(s.buf, c, p);
    var i :| 0 <= i < |s.buf| && !KindOf(s.buf[i], c).Idle? && p == Transmit(s.buf[i], c).pkt;
    assert s.buf[i].pkt.sn == p.sn && s.buf[i].pkt.data == p.data;
  }

  lemma AckSpeaks(k: Kcp, buf: seq<Segment>, p: Packet)
    requires ConfigOk(k.cfg)
    requires p in AckPackets(k.cfg.conv, WndUnused(k.rcv, k.cfg.rcvWnd), k.rcv.nxt, k.rcv.acks)
    ensures Speaks(k, buf, p)
  {
    var ps := AckPackets(k.cfg.conv, WndUnused(k.rcv, k.cfg.rcvWnd), k.rcv.nxt, k.rcv.acks);
    var i :| 0 <= i < |ps| && ps[i] == p;
    assert k.rcv.acks[i].sn == p.sn;
  }

  lemma ProbeSpeaks(k: Kcp, buf: seq<Segment>, p: Packet)
    requires ConfigOk(k.cfg)
    requires p in ProbePackets(ProbeWndSize(k.probe, k.rmtWnd, k.current), k.cfg.conv,
                               WndUnused(k.rcv, k.cfg.rcvWnd), k.rcv.nxt, k.rcv.acks)
    ensures Speaks(k, buf, p)
  {
  }

  lemma EmissionSpeaks(k: Kcp)
    requires KcpInv(k) && InRange(k)
    ensures var s := Fill(k.snd, FillCtxOf(k), SendWindow(k));
            forall p :: p in Emission(k) ==> Speaks(k, s.buf, p)
  {
    hide Speaks, Due, AckPackets, ProbePackets, ProbeWndSize, CleanBox, ReceiverInv, SenderInv, PayloadInv, Fill;
    hide FillCtxOf, TxCtxOf, SendWindow, WndUnused;
    var s := Fill(k.snd, FillCtxOf(k), SendWindow(k));
    var n := FillKeeps(k);
    var wnd := WndUnused(k.rcv, k.cfg.rcvWnd);
    var acks := AckPackets(k.cfg.conv, wnd, k.rcv.nxt, k.rcv.acks);
    var probes := ProbePackets(ProbeWndSize(k.probe, k.rmtWnd, k.current), k.cfg.conv, wnd, k.rcv.nxt, k.rcv.acks);
    var due := Due(s.buf, TxCtxOf(k));
    forall p | p in acks + probes + due ensures Speaks(k, s.buf, p) {
      if p in acks {
        AckSpeaks(k, s.buf, p);
      } else if p in probes {
        ProbeSpeaks(k, s.buf, p);
      } else {
        DueSpeaks(k, s, p);
      }
    }
  }

  /** The wire contract of one flush: every datagram fits the MTU, and a peer
      splitting the new datagrams in order recovers what an earlier `flush_ack`
      left staged, then the acknowledgements, the probes and the due segments,
      each exactly once. */
  lemma FlushEmits(k: Kcp)
    requires KcpInv(k) && InRange(k)
    ensures var k' := FlushNow(k);
            && CleanBox(k'.box, k.cfg.conv, k.cfg.mtu) && k.box.out <= k'.box.out && k'.box.staged == []
            && Carried(k'.box.out, k.cfg.conv) == InOrder(k.box, k.cfg.conv) + Emission(k)
  {
    hide CleanBox, InOrder, Carried, Emission, EmitAll, Seal, SenderInv, ReceiverInv, PayloadInv, UpdateSsthresh, Fill;
    EmissionSpeaks(k);
    var ps := Emission(k);
    forall i | 0 <= i < |ps| ensures Sendable(ps[i], k.cfg.conv) && OVERHEAD + |ps[i].data| <= k.cfg.mtu {
      assert ps[i] in ps;
    }
    EmitAllKeeps(k.box, k.cfg.mtu, k.cfg.conv, Emission(k));
    SealKeeps(EmitAll(k.box, k.cfg.mtu, Emission(k)), k.cfg.mtu, k.cfg.conv);
  }

  lemma FlushKeeps(k: Kcp) returns (n: nat)
    requires KcpInv(k) && InRange(k)
    ensures var k' := FlushNow(k);
            var s := Fill(k.snd, FillCtxOf(k), SendWindow(k));
            && KcpInv(k') && k'.cfg == k.cfg && k'.rcv == k.rcv.(acks := [])
            && Admitted(k.snd, s, n) && k'.snd == s.(buf := k'.snd.buf) && SamePackets(s.buf, k'.snd.buf)
  {
    hide CleanBox, Emission, SenderInv, PayloadInv, UpdateSsthresh, Fill, SamePackets, EmitAll, Seal;
    FlushEmits(k);
    n := FillKeeps(k);
    var s := Fill(k.snd, FillCtxOf(k), SendWindow(k));
    TransmitSame(s.buf, TxCtxOf(k));
    SamePacketsKeeps(s, TransmitAll(s.buf, TxCtxOf(k)), k.cfg);
  }

  lemma FlushAckKeeps(k: Kcp)
    requires KcpInv(k)
    ensures var (k', e) := FlushAck(k);
            && KcpInv(k') && k'.cfg == k.cfg && k'.snd == k.snd
            && (e.Some? <==> !k.updated) && (e.Some? ==> k' == k)
            && (e.None? ==>
                  && k'.rcv == k.rcv.(acks := []) && k.box.out <= k'.box.out
                  && InOrder(k'.box, k.cfg.conv) == InOrder(k.box, k.cfg.conv)
                       + AckPackets(k.cfg.conv, WndUnused(k.rcv, k.cfg.rcvWnd), k.rcv.nxt, k.rcv.acks))
  {
    hide CleanBox, InOrder, EmitAll, SenderInv, PayloadInv;
    EmitAllKeeps(k.box, k.cfg.mtu, k.cfg.conv,
                 AckPackets(k.cfg.conv, WndUnused(k.rcv, k.cfg.rcvWnd), k.rcv.nxt, k.rcv.acks));
  }

  lemma RetransmitKeeps(k: Kcp, sn: u32)
    requires KcpInv(k)
    ensures var s := RetransmitSn(k.snd, sn, k.current).0;
            && KcpInv(k.(snd := s)) && SamePackets(k.snd.buf, s.buf)
            && s == k.snd.(buf := s.buf)
  {
    hide CleanBox, ReceiverInv;
    var s := RetransmitSn(k.snd, sn, k.current).0;
    assert SamePackets(k.snd.buf, s.buf);
    SamePacketsKeeps(k.snd, s.buf, k.cfg);
  }
}
