/** Who gets retransmitted: the credit that triggers a fast retransmit, and the
    forced resend of a segment the peer reports missing. */
module KcpResend {
  import opened Words
  import opened KcpWire
  import opened KcpSpec
  import opened KcpWindow
  import opened KcpOps
  import T = KcpTimers

  /** An acknowledgement credits exactly the segments older than the one it names
      and not sent after the transmission it answers. */
  lemma {:induction false} CreditExact(buf: seq<Segment>, sn: u32, ts: u32)
    requires SortedSegments(buf) && sn < TWO31 && forall i :: 0 <= i < |buf| ==> buf[i].pkt.sn < TWO31
    ensures forall i :: 0 <= i < |buf| ==>
              Credit(buf, sn, ts)[i] ==
              if buf[i].pkt.sn < sn && Timediff(ts, buf[i].pkt.ts) >= 0
              then buf[i].(fastack := Add32(buf[i].fastack, 1)) else buf[i]
  {
    if buf != [] && buf[0].pkt.sn <= sn {
      var rest := buf[1..];
      CreditExact(rest, sn, ts);
      hide Timediff, Add32;
      assert Credit(buf, sn, ts) == [Credited(buf[0], sn, ts)] + Credit(rest, sn, ts) by { HeadCredited(buf, sn, ts); }
      assert Credited(buf[0], sn, ts) ==
             if buf[0].pkt.sn < sn && Timediff(ts, buf[0].pkt.ts) >= 0
             then buf[0].(fastack := Add32(buf[0].fastack, 1)) else buf[0];
      hide Credit, Credited;
      forall i | 1 <= i < |buf| ensures buf[i] == rest[i - 1] && Credit(buf, sn, ts)[i] == Credit(rest, sn, ts)[i - 1] {}
    } else if buf != [] {
      forall i | 0 <= i < |buf| ensures !(buf[i].pkt.sn < sn) {
        assert i > 0 ==> buf[0].pkt.sn < buf[i].pkt.sn;
      }
    }
  }

  lemma HeadCredited(buf: seq<Segment>, sn: u32, ts: u32)
    requires buf != [] && buf[0].pkt.sn <= sn < TWO31
    ensures Credit(buf, sn, ts) == [Credited(buf[0], sn, ts)] + Credit(buf[1..], sn, ts)
  {
  }

  predicate At(buf: seq<Segment>, i: nat, sn: u32) {
    i < |buf| && buf[i].pkt.sn == sn
  }

  /** The forward scan stops early without missing anything. */
  lemma {:induction false} ResendIndexExact(buf: seq<Segment>, sn: u32)
    requires SortedSegments(buf) && sn < TWO31 && forall i :: 0 <= i < |buf| ==> buf[i].pkt.sn < TWO31
    ensures var i := ResendIndex(buf, sn);
            if i < |buf| then At(buf, i, sn) else forall j: nat :: !At(buf, j, sn)
  {
    if buf != [] && buf[0].pkt.sn < sn {
      ResendIndexExact(buf[1..], sn);
      forall j: nat | At(buf, j, sn) ensures At(buf[1..], j - 1, sn) {}
    } else if buf != [] && sn < buf[0].pkt.sn {
      forall j: nat | j < |buf| ensures !At(buf, j, sn) {
        assert j > 0 ==> buf[0].pkt.sn < buf[j].pkt.sn;
      }
    }
  }

  /** `retransmit_sn` answers whether the number is buffered, and only makes it due. */
  lemma RetransmitExact(k: Kcp, sn: u32)
    requires KcpInv(k) && sn < TWO31
    ensures var (s, found) := RetransmitSn(k.snd, sn, k.current);
            && (found <==> exists i: nat :: At(k.snd.buf, i, sn))
            && s == k.snd.(buf := s.buf) && |s.buf| == |k.snd.buf|
            && forall i :: 0 <= i < |s.buf| ==>
                 s.buf[i] == if k.snd.buf[i].pkt.sn == sn then k.snd.buf[i].(resendts := k.current) else k.snd.buf[i]
  {
    hide CleanBox, ReceiverInv, PayloadInv, ResendIndex;
    ResendIndexExact(k.snd.buf, sn);
    var at := ResendIndex(k.snd.buf, sn);
    forall i | 0 <= i < |k.snd.buf| ensures k.snd.buf[i].pkt.sn == sn <==> i == at {
      if k.snd.buf[i].pkt.sn == sn {
        assert At(k.snd.buf, i, sn);
      }
    }
  }

  lemma {:induction false} DueHas(buf: seq<Segment>, c: TxCtx, i: nat)
    requires i < |buf| && !KindOf(buf[i], c).Idle?
    ensures Transmit(buf[i], c).pkt in Due(buf, c)
    ensures CountKind(buf, c, KindOf(buf[i], c)) > 0
  {
    hide Transmit, KindOf;
    if i < |buf| - 1 {
      DueHas(buf[..|buf| - 1], c, i);
    }
  }

  /** The engine some milliseconds after `retransmit_sn`. */
  function Forced(k: Kcp, sn: u32, dt: u32): Kcp {
    k.(snd := RetransmitSn(k.snd, sn, k.current).0, current := Add32(k.current, dt))
  }

  /** A segment forced at index `i` is due in whatever pass comes within 2^31 ms. */
  lemma ForcedIsDue(k: Kcp, sn: u32, dt: u32, i: nat)
    requires KcpInv(k) && sn < TWO31 && dt < TWO31 && At(k.snd.buf, i, sn)
    ensures var k1 := Forced(k, sn, dt);
            && i < |k1.snd.buf| && k1.snd.buf[i].pkt == k.snd.buf[i].pkt && k1.snd.buf[i].xmit == k.snd.buf[i].xmit
            && KindOf(k1.snd.buf[i], TxCtxOf(k1)) == (if k.snd.buf[i].xmit == 0 then First else Timeout)
  {
    hide KcpInv, RetransmitSn;
    RetransmitExact(k, sn);
  }

  lemma ForcedInv(k: Kcp, sn: u32, dt: u32)
    requires KcpInv(k) && InRange(k)
    ensures KcpInv(Forced(k, sn, dt)) && InRange(Forced(k, sn, dt))
  {
    hide CleanBox, ReceiverInv, SenderInv, PayloadInv, RetransmitSn, SamePackets;
    RetransmitKeeps(k, sn);
  }

  /** The next flush after `retransmit_sn` puts the segment on the wire with its
      payload. A segment that had been sent before counts as a timeout: the window
      collapses to one segment. */
  lemma ForcedResend(k: Kcp, sn: u32, dt: u32, i: nat)
    requires KcpInv(k) && InRange(k) && sn < TWO31 && dt < TWO31 && At(k.snd.buf, i, sn)
    ensures var k1 := Forced(k, sn, dt);
            && (exists p :: p in Emission(k1) && p.cmd == CMD_PUSH && p.sn == sn && p.data == k.snd.buf[i].pkt.data)
            && (k.snd.buf[i].xmit > 0 ==> FlushNow(k1).cc.cwnd == 1)
  {
    var k1 := Forced(k, sn, dt);
    ForcedInv(k, sn, dt);
    ForcedIsDue(k, sn, dt, i);
    var pushed := k.snd.buf[i].pkt.cmd == CMD_PUSH;
    assert pushed;
    hide KcpInv, InRange, Forced, Fill, TxCtxOf, FillCtxOf, SendWindow, KindOf, Due, AckPackets, ProbePackets;
    var n := FillKeeps(k1);
    var s, c := Fill(k1.snd, FillCtxOf(k1), SendWindow(k1)), TxCtxOf(k1);
    assert s.buf[i] == k1.snd.buf[i];
    DueHas(s.buf, c, i);
    var p := Transmit(s.buf[i], c).pkt;
    assert p in Emission(k1);
    if k.snd.buf[i].xmit > 0 {
      LossCollapses(k1);
    }
  }

  lemma LossCollapses(k: Kcp)
    requires CountKind(Fill(k.snd, FillCtxOf(k), SendWindow(k)).buf, TxCtxOf(k), Timeout) > 0
    ensures FlushNow(k).cc.cwnd == 1
  {
    hide Fill, TxCtxOf, FillCtxOf, SendWindow, CountKind, Emission, EmitAll, Seal;
  }

  /** The guard of `update`: it does not flush from up to ten seconds before the
      flush time on until that time. */
  predicate HeldBack(k: Kcp, now: u32) {
    k.updated && -SLAP_LIMIT <= Timediff(now, k.tsFlush) < 0
  }

  lemma HeldBackExact(k: Kcp, now: u32)
    ensures Tick(k, now).1 <==> !HeldBack(k, now)
  {
  }

  /** Behind everything `k` had emitted or staged, the datagrams `out` carry the data
      segment `sn`. */
  predicate SentBehind(k: Kcp, out: seq<bytes>, sn: u32, data: bytes) {
    var before, all := InOrder(k.box, k.cfg.conv), Carried(out, k.cfg.conv);
    && before <= all
    && exists p :: p in all[|before|..] && p.cmd == CMD_PUSH && p.sn == sn && p.data == data
  }

  lemma NothingBehind(k: Kcp, sn: u32, data: bytes)
    ensures !SentBehind(k, k.box.out, sn, data)
  {
    hide Carried, Split;
    var before, all := InOrder(k.box, k.cfg.conv), Carried(k.box.out, k.cfg.conv);
    if before <= all {
      assert |before| == |all| && all[|before|..] == [];
    }
  }

  /** The clock half of `update` after `retransmit_sn`. */
  lemma ForcedTick(k: Kcp, sn: u32, dt: u32)
    requires KcpInv(k) && InRange(k)
    ensures var kt := Tick(k.(snd := RetransmitSn(k.snd, sn, k.current).0), Add32(k.current, dt)).0;
            var k' := k.(updated := true, tsFlush := kt.tsFlush);
            KcpInv(k') && InRange(k') && Forced(k', sn, dt) == kt
  {
    hide CleanBox, ReceiverInv, SenderInv, PayloadInv, RetransmitSn;
  }

  /** The next update after `retransmit_sn`, whenever it comes, sends the segment if
      and only if it is not held back; if it is, it writes nothing at all. */
  lemma ForcedUpdate(k: Kcp, sn: u32, dt: u32, i: nat)
    requires KcpInv(k) && InRange(k) && sn < TWO31 && dt < TWO31 && At(k.snd.buf, i, sn)
    ensures var now := Add32(k.current, dt);
            var k' := Update(k.(snd := RetransmitSn(k.snd, sn, k.current).0), now);
            && (SentBehind(k, k'.box.out, sn, k.snd.buf[i].pkt.data) <==> !HeldBack(k, now))
            && (HeldBack(k, now) ==> k'.box == k.box)
  {
    var now := Add32(k.current, dt);
    var k1 := k.(snd := RetransmitSn(k.snd, sn, k.current).0);
    HeldBackExact(k1, now);
    ForcedTick(k, sn, dt);
    var kt := Tick(k1, now).0;
    assert kt.box == k.box && kt.cfg == k.cfg && (HeldBack(k, now) <==> HeldBack(k1, now));
    hide Tick, HeldBack, KcpInv, InRange, Forced, RetransmitSn, FlushNow, Emission, InOrder, Carried, At;
    if HeldBack(k, now) {
      NothingBehind(k, sn, k.snd.buf[i].pkt.data);
    } else {
      ForcedResend(k.(updated := true, tsFlush := kt.tsFlush), sn, dt, i);
      ForcedInv(k.(updated := true, tsFlush := kt.tsFlush), sn, dt);
      FlushEmits(kt);
      var all := Carried(FlushNow(kt).box.out, k.cfg.conv);
      assert all[|InOrder(k.box, k.cfg.conv)|..] == Emission(kt);
    }
  }

  /** A held-back update: the flush is due at 100, one segment is in flight and is
      forced at 10, and the update at 20 sends nothing although `check` then still
      says "now". */
  lemma EarlyUpdateSendsNothing() returns (k: Kcp)
    ensures KcpInv(k) && InRange(k) && k.updated && k.current == 10 && k.tsFlush == 100
    ensures At(k.snd.buf, 0, 0) && k.snd.buf[0].xmit == 1
    ensures var k' := Update(k.(snd := RetransmitSn(k.snd, 0, k.current).0), 20);
            && HeldBack(k, 20) && k'.box == k.box && Check(k', 20) == 0
            && !SentBehind(k, k'.box.out, 0, k.snd.buf[0].pkt.data)
  {
    CleanEmpty(1);
    var seg := Segment(Packet(1, CMD_PUSH, 0, 128, 0, 0, 0, [7]), 225, 200, 0, 1);
    k := Kcp(Config(1, 1400, 1376, 32, 128, 100, 100, 0, 5, 20, false, false), Sender(0, 1, [], [seg]),
             Receiver(0, [], [], []), Rtt(0, 0, 200), Congestion(1, 2, 1376), Probe(false, false, 0, 0),
             Outbox([], []), 128, 10, 100, true, 0, false, 0);
    assert KcpInv(k) && InRange(k) && At(k.snd.buf, 0, 0) && HeldBack(k, 20);
    hide KcpInv, InRange, SentBehind, FlushNow;
    var k1 := k.(snd := RetransmitSn(k.snd, 0, k.current).0);
    HeldBackExact(k1, 20);
    assert Update(k1, 20).snd.buf[0].resendts == 10;
    hide Update, RetransmitSn, HeldBack, Check;
    T.CheckZero(Update(k1, 20), 20);
    ForcedUpdate(k, 0, 10, 0);
  }
}
