/** The engine itself: an object whose methods update its queues, counters and
    timers in place, each proved to do what `KcpSpec` says on the state it
    abstracts to. The output sink is the list of datagrams written to it. */
module KcpEngine {
  import opened Words
  import opened KcpWire
  import S = KcpSpec
  import W = KcpWindow
  import T = KcpTimers

  class Engine {
    var cfg: S.Config
    var snd: S.Sender
    var rcv: S.Receiver
    var rtt: S.Rtt
    var cc: S.Congestion
    var probe: S.Probe
    var box: Outbox
    var rmtWnd: u16
    var current: u32
    var tsFlush: u32
    var updated: bool
    var xmit: u32
    var dead: bool
    var lastProgress: u32

    /** The abstract state. */
    ghost function View(): S.Kcp
      reads this
    {
      S.Kcp(cfg, snd, rcv, rtt, cc, probe, box, rmtWnd, current, tsFlush, updated, xmit, dead, lastProgress)
    }

    /** A fresh stream-mode engine is idle, within every window, and its settings
        are the ones the invariants assume. */
    constructor NewStream(conv: u32)
      ensures W.KcpInv(View()) && W.InRange(View()) && cfg.conv == conv
      ensures snd == S.Sender(0, 0, [], []) && rcv == S.Receiver(0, [], [], []) && box == Outbox([], [])
      ensures rtt == T.Unmeasured && cc == S.Congestion(0, 2, 0)
      ensures T.TimerConfig(cfg.interval, cfg.minrto) && !updated && !dead && rmtWnd == 128
      ensures cfg == S.Config(conv, 1400, 1400 - OVERHEAD, 32, 128, 100, 100, 0, 5, 20, false, false)
      ensures probe == S.Probe(false, false, 0, 0) && current == 0 && lastProgress == 0 && tsFlush == 100
    {
      cfg := S.Config(conv, 1400, 1376, 32, 128, 100, 100, 0, 5, 20, false, false);
      snd, rcv := S.Sender(0, 0, [], []), S.Receiver(0, [], [], []);
      rtt, cc := S.Rtt(0, 0, 200), S.Congestion(0, 2, 0);
      probe, box := S.Probe(false, false, 0, 0), Outbox([], []);
      rmtWnd, current, tsFlush, updated := 128, 0, 100, false;
      xmit, dead, lastProgress := 0, false, 0;
      new;
      CleanEmpty(conv);
    }

    /** A datagram always has room for one payload byte, whatever the caller asks; the
        invariants assume a size that the segments' length field can express. */
    method SetMtu(size: nat) returns (now: nat)
      requires W.ConfigOk(cfg)
      modifies `cfg
      ensures now == Max(size, OVERHEAD + 1) && (W.ConfigOk(cfg) <==> size < TWO32)
      ensures cfg == old(cfg).(mtu := now, mss := now - OVERHEAD)
    {
      var m := Max(size, OVERHEAD + 1);
      if m != cfg.mtu {
        cfg := cfg.(mtu := m, mss := m - OVERHEAD);
      }
      now := cfg.mtu;
    }

    method SetWndsize(sndwnd: u16, rcvwnd: u16)
      requires W.ConfigOk(cfg)
      modifies `cfg
      ensures W.ConfigOk(cfg)
      ensures cfg == old(cfg).(sndWnd := if sndwnd > 0 then sndwnd else old(cfg.sndWnd),
                               rcvWnd := if rcvwnd > 0 then Max(rcvwnd, S.WND_RCV) else old(cfg.rcvWnd))
    {
      if sndwnd > 0 {
        cfg := cfg.(sndWnd := sndwnd);
      }
      if rcvwnd > 0 {
        cfg := cfg.(rcvWnd := Max(rcvwnd, S.WND_RCV));
      }
    }

    method SetNodelay(on: bool, wanted: int, resend: int, nc: bool)
      requires W.ConfigOk(cfg) && -TWO31 <= wanted < TWO31 && -TWO31 <= resend < TWO31
      modifies `cfg
      ensures W.ConfigOk(cfg) && T.TimerConfig(cfg.interval, cfg.minrto)
      ensures cfg == old(cfg).(nodelay := on, nocwnd := nc, minrto := if on then 30 else 100,
                               interval := Max(10, Min(wanted, 5000)),
                               fastresend := if resend >= 0 then resend else old(cfg.fastresend))
    {
      cfg := cfg.(nodelay := on, minrto := if on then 30 else 100);
      cfg := cfg.(interval := if wanted < 10 then 10 else if wanted > 5000 then 5000 else wanted);
      if resend >= 0 {
        cfg := cfg.(fastresend := resend);
      }
      cfg := cfg.(nocwnd := nc);
    }

    // ---------------------------------------------------------- receive half

    method MoveBuf()
      modifies `rcv
      ensures rcv == S.MoveBuf(old(rcv), cfg.rcvWnd)
    {
      while rcv.buf != [] && rcv.buf[0].sn == rcv.nxt && |rcv.queue| < cfg.rcvWnd
        invariant S.MoveBuf(rcv, cfg.rcvWnd) == S.MoveBuf(old(rcv), cfg.rcvWnd)
        decreases |rcv.buf|
      {
        var seg := rcv.buf[0];
        rcv := rcv.(nxt := Add32(rcv.nxt, 1), buf := rcv.buf[1..]);
        rcv := rcv.(queue := rcv.queue + [seg]);
      }
    }

    method RecvOwned() returns (r: Result<bytes, Error>)
      modifies `rcv, `probe
      ensures (View(), r) == S.RecvOwned(old(View()))
    {
      hide S.MoveBuf;
      if rcv.queue != [] && rcv.queue[0].frg != 0 {
        return Err(ExpectingFragment);
      }
      var recover := |rcv.queue| >= cfg.rcvWnd;
      if rcv.queue == [] {
        return Err(RecvQueueEmpty);
      }
      var data := rcv.queue[0].data;
      rcv := rcv.(queue := rcv.queue[1..]);
      MoveBuf();
      if |rcv.queue| < cfg.rcvWnd && recover {
        probe := probe.(tell := true);
      }
      r := Ok(data);
    }

    method ParseData(p: Packet)
      modifies `rcv
      ensures rcv == S.ParseData(old(rcv), cfg.rcvWnd, p)
    {
      if Timediff(p.sn, Add32(rcv.nxt, cfg.rcvWnd)) >= 0 || Timediff(p.sn, rcv.nxt) < 0 {
        return;
      }
      var repeated := false;
      var at := |rcv.buf|;
      assert rcv.buf[..at] == rcv.buf;
      while at > 0
        invariant at <= |rcv.buf| && !repeated && rcv == old(rcv)
        invariant S.InsertIndex(rcv.buf[..at], p.sn) == S.InsertIndex(rcv.buf, p.sn)
      {
        assert rcv.buf[..at][..at - 1] == rcv.buf[..at - 1];
        if rcv.buf[at - 1].sn == p.sn {
          repeated := true;
          break;
        }
        if Timediff(p.sn, rcv.buf[at - 1].sn) > 0 {
          break;
        }
        at := at - 1;
      }
      assert S.InsertIndex(rcv.buf, p.sn) == if repeated then None else Some(at);
      if !repeated {
        rcv := rcv.(buf := rcv.buf[..at] + [p] + rcv.buf[at..]);
      }
      MoveBuf();
    }

    method AcceptPush(p: Packet)
      modifies `rcv
      ensures rcv == S.AcceptPush(old(rcv), cfg.rcvWnd, p)
    {
      if Timediff(p.sn, Add32(rcv.nxt, cfg.rcvWnd)) >= 0 {
        return;
      }
      rcv := rcv.(acks := rcv.acks + [S.Ack(p.sn, p.ts)]);
      if Timediff(p.sn, rcv.nxt) < 0 {
        return;
      }
      ParseData(p);
    }

    // ------------------------------------------------------------- send half

    method SendOwned(bytes0: bytes) returns (r: Result<nat, Error>)
      requires cfg.mss > 0
      modifies `snd
      ensures snd == old(snd).(queue := snd.queue)
      ensures (snd.queue, r) == S.SendOwned(old(snd.queue), cfg.mss, bytes0)
    {
      var data, sent := bytes0, 0;
      if snd.queue != [] {
        var last := snd.queue[|snd.queue| - 1];
        if |last| < cfg.mss {
          var extend := Min(|data|, cfg.mss - |last|);
          snd := snd.(queue := snd.queue[..|snd.queue| - 1] + [last + data[..extend]]);
          assert extend == 0 ==> last + data[..extend] == last && snd.queue == old(snd.queue);
          data := data[extend..];
          sent := extend;
        }
      }
      if data == [] {
        return Ok(sent);
      }
      assert sent == Min(|bytes0|, S.Room(old(snd.queue), cfg.mss)) && data == bytes0[sent..];
      var count := CeilDiv(|data|, cfg.mss);
      if count >= S.WND_RCV {
        return if sent > 0 then Ok(sent) else Err(UserBufTooBig);
      }
      ghost var all := snd.queue + S.Chunks(data, cfg.mss);
      for i := 0 to count
        invariant count - i == CeilDiv(|data|, cfg.mss)
        invariant snd.queue + S.Chunks(data, cfg.mss) == all
        invariant sent + |data| == |bytes0| && snd == old(snd).(queue := snd.queue)
      {
        hide CeilDiv, S.Chunks;
        PiecesPositive(|data|, cfg.mss);
        PiecesStep(|data|, cfg.mss);
        ChunksMove(snd.queue, data, cfg.mss);
        var size := Min(cfg.mss, |data|);
        snd := snd.(queue := snd.queue + [data[..size]]);
        data := data[size..];
        sent := sent + size;
      }
      PiecesPositive(|data|, cfg.mss);
      assert snd.queue + S.Chunks(data, cfg.mss) == snd.queue;
      r := Ok(sent);
    }

    method ShrinkBuf()
      modifies `snd
      ensures snd == S.Shrink(old(snd))
    {
      snd := snd.(una := if snd.buf != [] then snd.buf[0].pkt.sn else snd.nxt);
    }

    method ParseUna(una: u32)
      modifies `snd, `lastProgress
      ensures var n := S.UnaCount(old(snd.buf), una);
              snd == old(snd).(buf := old(snd.buf)[n..]) && lastProgress == (if n > 0 then current else old(lastProgress))
    {
      ghost var n := 0;
      while snd.buf != [] && Timediff(una, snd.buf[0].pkt.sn) > 0
        invariant n <= |old(snd.buf)| && snd == old(snd).(buf := old(snd.buf)[n..])
        invariant n + S.UnaCount(snd.buf, una) == S.UnaCount(old(snd.buf), una)
        invariant lastProgress == if n > 0 then current else old(lastProgress)
        decreases |snd.buf|
      {
        snd := snd.(buf := snd.buf[1..]);
        n := n + 1;
        lastProgress := current;
      }
    }

    method ParseAck(sn: u32)
      modifies `snd
      ensures snd == S.ParseAck(old(snd), sn)
    {
      if Timediff(sn, snd.una) < 0 || Timediff(sn, snd.nxt) >= 0 {
        return;
      }
      var i := 0;
      while i < |snd.buf| && sn > snd.buf[i].pkt.sn
        invariant i <= |snd.buf| && snd == old(snd)
        invariant i + S.AckIndex(snd.buf[i..], sn) == S.AckIndex(snd.buf, sn)
      {
        assert snd.buf[i..][1..] == snd.buf[i + 1..];
        i := i + 1;
      }
      if i < |snd.buf| && sn == snd.buf[i].pkt.sn {
        snd := snd.(buf := snd.buf[..i] + snd.buf[i + 1..]);
      }
    }

    method ParseFastack(sn: u32, ts: u32)
      modifies `snd
      ensures snd == S.ParseFastack(old(snd), sn, ts)
    {
      if Timediff(sn, snd.una) < 0 || Timediff(sn, snd.nxt) >= 0 {
        return;
      }
      hide S.Credit, S.Credited;
      ghost var was := snd.buf;
      var i := 0;
      assert CreditDone(was, snd.buf, i, sn, ts) by { assert was[0..] == was; }
      while i < |snd.buf| && Timediff(sn, snd.buf[i].pkt.sn) >= 0
        invariant CreditDone(was, snd.buf, i, sn, ts) && snd == old(snd).(buf := snd.buf)
        decreases |snd.buf| - i
      {
        hide CreditDone, Timediff, Add32;
        CreditStep(was, snd.buf, i, sn, ts);
        var seg := snd.buf[i];
        CreditedIs(seg, sn, ts);
        if sn != seg.pkt.sn && Timediff(ts, seg.pkt.ts) >= 0 {
          snd := snd.(buf := snd.buf[i := seg.(fastack := Add32(seg.fastack, 1))]);
        }
        i := i + 1;
      }
      CreditStop(was, snd.buf, i, sn, ts);
    }

    method RetransmitSn(sn: u32) returns (found: bool)
      modifies `snd
      ensures snd == S.RetransmitSn(old(snd), sn, current).0
      ensures found == S.RetransmitSn(old(snd), sn, current).1
    {
      var i := 0;
      while i < |snd.buf|
        invariant i <= |snd.buf| && snd == old(snd)
        invariant S.ResendIndex(snd.buf, sn) ==
                  (if S.ResendIndex(snd.buf[i..], sn) < |snd.buf| - i then i + S.ResendIndex(snd.buf[i..], sn) else |snd.buf|)
      {
        assert snd.buf[i..][1..] == snd.buf[i + 1..];
        var seg := snd.buf[i];
        if seg.pkt.sn == sn {
          snd := snd.(buf := snd.buf[i := seg.(resendts := current)]);
          return true;
        }
        if Timediff(sn, seg.pkt.sn) < 0 {
          break;
        }
        i := i + 1;
      }
      found := false;
    }

    method FillSndBuf(window: u16, wnd: u16)
      modifies `snd
      ensures snd == S.Fill(old(snd), S.FillCtx(cfg.conv, wnd, current, rcv.nxt, rtt.rto), window)
    {
      ghost var c := S.FillCtx(cfg.conv, wnd, current, rcv.nxt, rtt.rto);
      while Timediff(snd.nxt, Add32(snd.una, window)) < 0
        invariant S.Fill(snd, c, window) == S.Fill(old(snd), c, window)
        decreases |snd.queue|
      {
        if snd.queue == [] {
          break;
        }
        var seg := S.Segment(Packet(cfg.conv, CMD_PUSH, 0, wnd, current, snd.nxt, rcv.nxt, snd.queue[0]), current, rtt.rto, 0, 0);
        snd := snd.(queue := snd.queue[1..], nxt := Add32(snd.nxt, 1), buf := snd.buf + [seg]);
      }
    }

    // ----------------------------------------------------------------- input

    method UpdateAck(sample: u32)
      modifies `rtt
      ensures rtt == S.UpdateAck(old(rtt), cfg.interval, cfg.minrto, sample)
    {
      if rtt.srtt == 0 {
        rtt := rtt.(srtt := sample, rttval := sample / 2);
      } else {
        var delta := if sample >= rtt.srtt then sample - rtt.srtt else rtt.srtt - sample;
        rtt := rtt.(rttval := S.Wrap32(3 * rtt.rttval + delta) / 4);
        rtt := rtt.(srtt := S.Wrap32(7 * rtt.srtt + sample) / 8);
        if rtt.srtt < 1 {
          rtt := rtt.(srtt := 1);
        }
      }
      var headroom := Max(Max(cfg.interval, S.Wrap32(4 * rtt.rttval)), rtt.srtt / S.RTO_HEADROOM_DIVISOR);
      rtt := rtt.(rto := S.Bound(cfg.minrto, Add32(rtt.srtt, headroom), S.RTO_MAX));
    }

    method UpdateCwndAfterAcks(oldUna: u32)
      requires cfg.mss > 0
      modifies `cc
      ensures cc == S.UpdateCwnd(old(cc), cfg.mss, rmtWnd, Timediff(snd.una, oldUna) > 0)
    {
      hide Quotient, CeilDiv, Times;
      if Timediff(snd.una, oldUna) <= 0 || cc.cwnd >= rmtWnd {
        return;
      }
      if cc.cwnd < cc.ssthresh {
        cc := cc.(cwnd := cc.cwnd + 1, incr := cc.incr + cfg.mss);
      } else {
        if cc.incr < cfg.mss {
          cc := cc.(incr := cfg.mss);
        }
        cc := cc.(incr := cc.incr + Quotient(Times(cfg.mss, cfg.mss), cc.incr) + cfg.mss / 16);
        if Times(cc.cwnd + 1, cfg.mss) <= cc.incr {
          cc := cc.(cwnd := S.ToU16(CeilDiv(cc.incr, cfg.mss)));
        }
      }
      if cc.cwnd > rmtWnd {
        cc := cc.(cwnd := rmtWnd, incr := Times(rmtWnd, cfg.mss));
      }
    }

    /** The body of the loop of `Input` for one parsed segment. */
    method HandleSegment(p: Packet)
      modifies this
      ensures View() == S.OnPacket(old(View()), p)
    {
      hide S.UnaCount, S.ParseAck, S.UpdateAck, S.AcceptPush;
      rmtWnd := p.wnd;
      ParseUna(p.una);
      ShrinkBuf();
      if p.cmd == CMD_ACK {
        var sample := Timediff(current, p.ts);
        if sample >= 0 {
          UpdateAck(sample);
        }
        ParseAck(p.sn);
        ShrinkBuf();
      } else if p.cmd == CMD_PUSH {
        AcceptPush(p);
      } else if p.cmd == CMD_WASK {
        probe := probe.(tell := true);
      }
    }

    method Input(datagram: bytes) returns (error: Option<Error>)
      requires cfg.mss > 0
      modifies this
      ensures (View(), error) == S.Input(old(View()), datagram)
    {
      if |datagram| < OVERHEAD {
        return Some(InvalidSegmentSize(|datagram|));
      }
      ghost var k0 := View();
      var oldUna := snd.una;
      var best: Option<S.Ack> := None;
      var rest := datagram;
      while |rest| >= OVERHEAD
        invariant PartlyRead(k0, datagram, View(), best, rest)
        decreases |rest|
      {
        hide S.OnPacket, S.BetterAck, ParseSegment, PartlyRead;
        var head := ParseSegment(rest, cfg.conv);
        if head.Err? {
          ReadFails(k0, datagram, View(), best, rest);
          return Some(head.error);
        }
        ReadStep(k0, datagram, View(), best, rest);
        HandleSegment(head.value);
        best := S.BetterAck(best, head.value);
        rest := rest[OVERHEAD + |head.value.data|..];
      }
      ReadEnds(k0, datagram, View(), best, rest);
      hide PartlyRead, S.Input, S.ParseFastack, S.UpdateCwnd;
      if best.Some? {
        ParseFastack(best.value.sn, best.value.ts);
      }
      UpdateCwndAfterAcks(oldUna);
      error := None;
    }

    // ----------------------------------------------------------------- flush

    function WndUnused(): (w: u16)
      reads this
      ensures w == S.WndUnused(rcv, cfg.rcvWnd)
    {
      if |rcv.queue| >= cfg.rcvWnd then 0 else cfg.rcvWnd - |rcv.queue|
    }

    /** The packing path: write what is staged when the next segment would not fit. */
    method Stage(p: Packet)
      requires box.staged != [] || p.cmd != CMD_PUSH
      modifies `box
      ensures box == EmitOne(old(box), cfg.mtu, p)
    {
      if |box.staged| + OVERHEAD + |p.data| > cfg.mtu {
        box := Outbox([], box.out + [box.staged]);
      }
      box := box.(staged := box.staged + Encode(p));
    }

    method FlushAckInner(wnd: u16)
      modifies `box, `rcv
      ensures rcv == old(rcv).(acks := [])
      ensures box
           == EmitAll(old(box), cfg.mtu, S.AckPackets(cfg.conv, wnd, rcv.nxt, old(rcv.acks)))
    {
      hide EmitOne, EmitAll, S.AckPackets;
      ghost var box0 := box;
      NothingEmitted(box0, cfg.mtu, cfg.conv, wnd, rcv.nxt, rcv.acks);
      for i := 0 to |rcv.acks|
        invariant rcv == old(rcv)
        invariant box == EmitAll(box0, cfg.mtu, S.AckPackets(cfg.conv, wnd, rcv.nxt, rcv.acks[..i]))
      {
        var p := Packet(cfg.conv, CMD_ACK, 0, wnd, rcv.acks[i].ts, rcv.acks[i].sn, rcv.nxt, []);
        AckPrefix(cfg.conv, wnd, rcv.nxt, rcv.acks, i);
        EmitMore(box0, cfg.mtu, S.AckPackets(cfg.conv, wnd, rcv.nxt, rcv.acks[..i]), p);
        Stage(p);
      }
      assert rcv.acks[..|rcv.acks|] == rcv.acks;
      rcv := rcv.(acks := []);
    }

    method ProbeWndSize()
      modifies `probe
      ensures probe == S.ProbeWndSize(old(probe), rmtWnd, current)
    {
      if rmtWnd == 0 {
        if probe.wait == 0 {
          probe := probe.(wait := S.PROBE_INIT, ts := Add32(current, S.PROBE_INIT));
        } else if Timediff(current, probe.ts) >= 0 {
          var wait: nat := Max(probe.wait, S.PROBE_INIT);
          probe := probe.(wait := Min(wait + wait / 2, S.PROBE_LIMIT));
          probe := probe.(ts := Add32(current, probe.wait), ask := true);
        }
      } else {
        probe := probe.(ts := 0, wait := 0);
      }
    }

    /** `last` is the acknowledgement whose number and timestamp the header
        template still holds. */
    method FlushProbeCommands(wnd: u16, last: S.Ack)
      modifies `box, `probe
      ensures probe == old(probe).(ask := false, tell := false)
      ensures box ==
              EmitAll(old(box), cfg.mtu,
                      S.ProbeHeaders(old(probe.ask), old(probe.tell), cfg.conv, wnd, rcv.nxt, last))
    {
      hide EmitOne;
      ghost var box0 := box;
      var ask := Packet(cfg.conv, CMD_WASK, 0, wnd, last.ts, last.sn, rcv.nxt, []);
      var tell := Packet(cfg.conv, CMD_WINS, 0, wnd, last.ts, last.sn, rcv.nxt, []);
      EmitMore(box0, cfg.mtu, [], ask);
      EmitMore(box0, cfg.mtu, [], tell);
      EmitMore(box0, cfg.mtu, [ask], tell);
      assert [] + [ask] == [ask] && [] + [tell] == [tell];
      if probe.ask {
        Stage(ask);
      }
      if probe.tell {
        Stage(tell);
      }
      probe := probe.(ask := false, tell := false);
    }

    method UpdateSsthresh(change: nat, resent: u32, lost: bool, prior: u16)
      modifies `cc
      ensures cc == S.UpdateSsthresh(old(cc), cfg.mss, change, resent, lost, prior, S.Sub32(snd.nxt, snd.una))
    {
      hide Times;
      TimesZero(cfg.mss);
      TimesNext(0, cfg.mss);
      if change > 0 {
        var inflight := S.Sub32(snd.nxt, snd.una);
        cc := cc.(ssthresh := S.ToU16(inflight) / 2);
        if cc.ssthresh < S.THRESH_MIN {
          cc := cc.(ssthresh := S.THRESH_MIN);
        }
        cc := cc.(cwnd := (cc.ssthresh + S.ToU16(resent)) % 0x1_0000);
        cc := cc.(incr := Times(cc.cwnd, cfg.mss));
      }
      if lost {
        cc := cc.(ssthresh := prior / 2);
        if cc.ssthresh < S.THRESH_MIN {
          cc := cc.(ssthresh := S.THRESH_MIN);
        }
        cc := cc.(cwnd := 1, incr := cfg.mss);
      }
      if cc.cwnd == 0 {
        cc := cc.(cwnd := 1, incr := cfg.mss);
      }
    }

    /** Put one due segment on the wire: directly when nothing is staged. */
    method EmitData(p: Packet)
      modifies `box
      ensures box == EmitOne(old(box), cfg.mtu, p)
    {
      if box.staged == [] && p.cmd == CMD_PUSH {
        box := box.(out := box.out + [EncodeHeader(p) + p.data]);
      } else {
        Stage(p);
      }
    }

    /** The branches of the transmission loop for one segment: first transmission,
        timeout, fast resend, or nothing yet. */
    method Retime(seg: S.Segment, c: S.TxCtx) returns (sent: S.Segment, kind: S.Kind)
      ensures kind == S.KindOf(seg, c) && sent == S.Transmit(seg, c)
    {
      sent, kind := seg, S.Idle;
      if seg.xmit == 0 {
        kind := S.First;
        sent := sent.(xmit := Add32(sent.xmit, 1), rto := c.rto);
        sent := sent.(resendts := Add32(Add32(c.current, sent.rto), c.rtomin));
      } else if Timediff(c.current, seg.resendts) >= 0 {
        kind := S.Timeout;
        sent := sent.(xmit := Add32(sent.xmit, 1));
        if c.nodelay {
          var step := sent.rto;
          sent := sent.(rto := Add32(sent.rto, step / 2));
        } else {
          sent := sent.(rto := Add32(sent.rto, Max(sent.rto, c.rto)));
        }
        sent := sent.(resendts := Add32(c.current, sent.rto));
      } else if seg.fastack >= c.resent && (seg.xmit <= c.fastlimit || c.fastlimit == 0) {
        kind := S.Fast;
        sent := sent.(xmit := Add32(sent.xmit, 1), fastack := 0);
        sent := sent.(resendts := Add32(c.current, sent.rto));
      }
      if kind != S.Idle {
        sent := sent.(pkt := sent.pkt.(ts := c.current, wnd := c.wnd, una := c.una));
      }
    }

    /** The transmission loop of `flush` over the send buffer. */
    method TransmitPass(c: S.TxCtx) returns (change: nat, lost: bool)
      modifies `snd, `box, `xmit, `dead
      requires c == S.TxCtxOf(View())
      ensures snd == old(snd).(buf := S.TransmitAll(old(snd.buf), c))
      ensures box == EmitAll(old(box), cfg.mtu, S.Due(old(snd.buf), c))
      ensures change == S.CountKind(old(snd.buf), c, S.Fast) && (lost <==> S.CountKind(old(snd.buf), c, S.Timeout) > 0)
      ensures xmit == S.Wrap32(old(xmit) + S.CountKind(old(snd.buf), c, S.Timeout))
      ensures dead == (old(dead) || (Timediff(current, lastProgress) > S.DEAD_GRACE_MS
                                     && S.AnyGone(old(snd.buf), c, cfg.deadLink)))
    {
      hide S.TransmitAll, S.Due, S.CountKind, S.AnyGone, EmitAll, EmitOne, S.Transmit, S.KindOf, S.TxCtxOf, S.Wrap32,
           Timediff, Add32;
      ghost var was, box0 := snd.buf, box;
      PassStart(was, c, box0, cfg.mtu, xmit);
      var still := Timediff(current, lastProgress) > S.DEAD_GRACE_MS;
      change, lost := 0, false;
      ghost var timeouts := 0;
      for i := 0 to |snd.buf|
        invariant |snd.buf| == |was| && snd == old(snd).(buf := snd.buf)
        invariant snd.buf[i..] == was[i..] && snd.buf[..i] == S.TransmitAll(was[..i], c)
        invariant box == EmitAll(box0, cfg.mtu, S.Due(was[..i], c))
        invariant change == S.CountKind(was[..i], c, S.Fast)
        invariant timeouts == S.CountKind(was[..i], c, S.Timeout) && (lost <==> timeouts > 0)
        invariant xmit == S.Wrap32(old(xmit) + timeouts)
        invariant dead == (old(dead) || (still && S.AnyGone(was[..i], c, cfg.deadLink)))
      {
        PassStep(was, i, c);
        var seg := snd.buf[i];
        assert seg == was[i..][0];
        var sent, kind := Retime(seg, c);
        IdleUntouched(seg, c);
        Spliced(snd.buf, i, sent);
        Spliced(was, i, seg);
        snd := snd.(buf := snd.buf[i := sent]);
        if kind == S.Timeout {
          xmit := Add32(xmit, 1);
          WrapNext(old(xmit), timeouts);
          timeouts := timeouts + 1;
          lost := true;
        }
        if kind == S.Fast {
          change := change + 1;
        }
        if kind != S.Idle {
          EmitMore(box0, cfg.mtu, S.Due(was[..i], c), sent.pkt);
          EmitData(sent.pkt);
          if sent.xmit >= cfg.deadLink && still {
            dead := true;
          }
        }
      }
      assert was[..|was|] == was && snd.buf[..|was|] == snd.buf;
    }

    /** The part of `flush` before any data: acknowledgements and window probes. */
    method FlushControl(wnd: u16)
      modifies `box, `rcv, `probe
      ensures rcv == old(rcv).(acks := [])
      ensures probe == S.ProbeWndSize(old(probe), rmtWnd, current).(ask := false, tell := false)
      ensures box == EmitAll(old(box), cfg.mtu,
                             S.AckPackets(cfg.conv, wnd, rcv.nxt, old(rcv.acks))
                             + S.ProbePackets(S.ProbeWndSize(old(probe), rmtWnd, current), cfg.conv, wnd, rcv.nxt,
                                              old(rcv.acks)))
    {
      hide EmitAll, EmitOne, S.AckPackets, S.ProbeHeaders, S.ProbeWndSize;
      ghost var box0, acks := box, S.AckPackets(cfg.conv, wnd, rcv.nxt, rcv.acks);
      var last := if rcv.acks == [] then S.Ack(0, 0) else rcv.acks[|rcv.acks| - 1];
      FlushAckInner(wnd);
      ProbeWndSize();
      EmitAllAppend(box0, cfg.mtu, acks, S.ProbeHeaders(probe.ask, probe.tell, cfg.conv, wnd, rcv.nxt, last));
      FlushProbeCommands(wnd, last);
    }

    /** The part of `flush` after the control segments: admit queued payloads,
        transmit what is due, close the batch, adjust the congestion window. */
    method FlushData(wnd: u16)
      modifies `snd, `box, `cc, `xmit, `dead
      requires wnd == S.WndUnused(rcv, cfg.rcvWnd)
      ensures var c := S.TxCtxOf(old(View()));
              var s := S.Fill(old(snd), S.FillCtxOf(old(View())), S.SendWindow(old(View())));
              var timeouts := S.CountKind(s.buf, c, S.Timeout);
              && snd == s.(buf := S.TransmitAll(s.buf, c))
              && box == Seal(EmitAll(old(box), cfg.mtu, S.Due(s.buf, c)))
              && cc == S.UpdateSsthresh(old(cc), cfg.mss, S.CountKind(s.buf, c, S.Fast), c.resent, timeouts > 0,
                                        old(cc.cwnd), S.Sub32(s.nxt, s.una))
              && xmit == S.Wrap32(old(xmit) + timeouts)
              && dead == (old(dead) || (Timediff(current, lastProgress) > S.DEAD_GRACE_MS
                                        && S.AnyGone(s.buf, c, cfg.deadLink)))
    {
      hide EmitAll, S.Fill, S.TransmitAll, S.Due, S.CountKind, S.AnyGone, S.UpdateSsthresh, S.Wrap32, S.WndUnused,
           Timediff, S.Sub32;
      var prior := cc.cwnd;
      var window := Min(cfg.sndWnd, rmtWnd);
      if !cfg.nocwnd {
        window := Min(cc.cwnd, window);
      }
      ghost var k := View();
      assert window == S.SendWindow(k);
      FillSndBuf(window, wnd);
      var c := S.TxCtx(current, rtt.rto, if cfg.nodelay then 0 else rtt.rto / 8,
                       if cfg.fastresend > 0 then cfg.fastresend else TWO32 - 1, cfg.fastlimit, cfg.nodelay, wnd, rcv.nxt);
      assert c == S.TxCtxOf(k) && c == S.TxCtxOf(View());
      hide S.TxCtxOf, S.SendWindow;
      var change, lost := TransmitPass(c);
      if box.staged != [] {
        box := Outbox([], box.out + [box.staged]);
      }
      UpdateSsthresh(change, c.resent, lost, prior);
    }

    /** `flush` past its guard. */
    method FlushUpdated()
      modifies this
      ensures View() == S.FlushNow(old(View()))
    {
      ghost var k := View();
      hide EmitAll, S.AckPackets, S.ProbePackets, S.ProbeWndSize, S.Fill, S.TransmitAll, S.Due, S.CountKind,
           S.AnyGone, S.UpdateSsthresh, S.Wrap32, S.WndUnused, Timediff, S.Sub32, Seal;
      var wnd := WndUnused();
      FlushControl(wnd);
      SameContext(k, View());
      ghost var due := S.Due(S.Fill(snd, S.FillCtxOf(k), S.SendWindow(k)).buf, S.TxCtxOf(k));
      ghost var control := S.AckPackets(cfg.conv, wnd, rcv.nxt, k.rcv.acks)
        + S.ProbePackets(S.ProbeWndSize(k.probe, rmtWnd, current), cfg.conv, wnd, rcv.nxt, k.rcv.acks);
      assert S.Emission(k) == control + due;
      hide S.TxCtxOf, S.SendWindow, S.FillCtxOf, S.Emission;
      FlushData(wnd);
      EmitAllAppend(k.box, cfg.mtu, control, due);
    }

    method Flush() returns (error: Option<Error>)
      modifies this
      ensures (View(), error) == S.Flush(old(View()))
    {
      if !updated {
        return Some(NeedUpdate);
      }
      hide S.FlushNow;
      FlushUpdated();
      error := None;
    }

    method FlushAck() returns (error: Option<Error>)
      modifies `box, `rcv
      ensures (View(), error) == S.FlushAck(old(View()))
    {
      if !updated {
        return Some(NeedUpdate);
      }
      hide EmitAll, S.AckPackets;
      FlushAckInner(WndUnused());
      error := None;
    }

    method Update(now: u32)
      modifies this
      ensures View() == S.Update(old(View()), now)
    {
      hide S.FlushNow;
      current := now;
      if !updated {
        updated := true;
        tsFlush := current;
      }
      var slap := Timediff(current, tsFlush);
      if slap < -S.SLAP_LIMIT || slap >= S.SLAP_LIMIT {
        tsFlush := current;
        slap := 0;
      }
      if slap >= 0 {
        tsFlush := Add32(tsFlush, cfg.interval);
        if Timediff(current, tsFlush) >= 0 {
          tsFlush := Add32(current, cfg.interval);
        }
        var _ := Flush();
      }
    }

    method Check(now: u32) returns (delay: u32)
      ensures delay == S.Check(View(), now)
    {
      if !updated {
        return 0;
      }
      var due := tsFlush;
      if Timediff(now, due) >= S.SLAP_LIMIT || Timediff(now, due) < -S.SLAP_LIMIT {
        due := now;
      }
      if Timediff(now, due) >= 0 {
        return 0;
      }
      var flushDue := Timediff(due, now);
      var resendDue: u32 := TWO32 - 1;
      for i := 0 to |snd.buf|
        invariant S.ResendDelay(snd.buf[..i], now) == Some(resendDue)
      {
        DelayStep(snd.buf, i, now);
        var diff := Timediff(snd.buf[i].resendts, now);
        if diff <= 0 {
          DelayStops(snd.buf, i + 1, now);
          return 0;
        }
        if diff < resendDue {
          resendDue := diff;
        }
      }
      assert snd.buf[..|snd.buf|] == snd.buf;
      delay := Min(resendDue, flushDue);
      if delay >= cfg.interval {
        delay := cfg.interval;
      }
    }
  }

  lemma PiecesPositive(n: nat, mss: nat)
    requires mss > 0
    ensures CeilDiv(n, mss) > 0 <==> n > 0
  {
    CeilBound(n, mss, 0);
    TimesZero(mss);
  }

  /** Taking one run off the front leaves one piece fewer. */
  lemma PiecesStep(n: nat, mss: nat)
    requires mss > 0 && n > 0
    ensures CeilDiv(n - Min(mss, n), mss) == CeilDiv(n, mss) - 1
  {
    hide CeilDiv, Times;
    var c, d := CeilDiv(n, mss), CeilDiv(n - Min(mss, n), mss);
    PiecesPositive(n, mss);
    CeilBound(n, mss, c);
    CeilBound(n - Min(mss, n), mss, c - 1);
    CeilBound(n - Min(mss, n), mss, d);
    CeilBound(n, mss, d + 1);
    TimesNext(c - 1, mss);
    TimesNext(d, mss);
  }

  lemma ChunksMove(queue: seq<bytes>, data: bytes, mss: nat)
    requires mss > 0 && data != []
    ensures var n := Min(mss, |data|);
            queue + S.Chunks(data, mss) == (queue + [data[..n]]) + S.Chunks(data[n..], mss)
  {
  }

  lemma CreditMove(done: seq<S.Segment>, todo: seq<S.Segment>, sn: u32, ts: u32)
    requires todo != [] && Timediff(sn, todo[0].pkt.sn) >= 0
    ensures done + S.Credit(todo, sn, ts)
         == (done + [S.Credited(todo[0], sn, ts)]) + S.Credit(todo[1..], sn, ts)
  {
  }

  lemma Spliced<A>(s: seq<A>, i: nat, x: A)
    requires i < |s|
    ensures s[i := x][..i + 1] == s[..i] + [x] && s[i := x][i + 1..] == s[i + 1..] == s[i..][1..]
    ensures s[i := s[i]] == s
  {
  }

  /** The pass of `parse_fastack` has dealt with the first `i` segments. */
  ghost predicate CreditDone(was: seq<S.Segment>, now: seq<S.Segment>, i: nat, sn: u32, ts: u32) {
    && i <= |now| == |was| && now[i..] == was[i..]
    && now[..i] + S.Credit(was[i..], sn, ts) == S.Credit(was, sn, ts)
  }

  lemma CreditStep(was: seq<S.Segment>, now: seq<S.Segment>, i: nat, sn: u32, ts: u32)
    requires CreditDone(was, now, i, sn, ts) && i < |now| && Timediff(sn, now[i].pkt.sn) >= 0
    ensures CreditDone(was, now[i := S.Credited(now[i], sn, ts)], i + 1, sn, ts)
    ensures now[i := now[i]] == now
  {
    hide S.Credit, S.Credited, Timediff;
    assert now[i] == now[i..][0] == was[i..][0];
    Spliced(was, i, was[i]);
    Spliced(now, i, S.Credited(now[i], sn, ts));
    CreditMove(now[..i], was[i..], sn, ts);
  }

  lemma CreditStop(was: seq<S.Segment>, now: seq<S.Segment>, i: nat, sn: u32, ts: u32)
    requires CreditDone(was, now, i, sn, ts) && (i == |now| || Timediff(sn, now[i].pkt.sn) < 0)
    ensures now == S.Credit(was, sn, ts)
  {
    assert i < |now| ==> now[i] == was[i..][0];
    assert S.Credit(was[i..], sn, ts) == was[i..];
    assert now == now[..i] + now[i..];
  }

  lemma CreditedIs(seg: S.Segment, sn: u32, ts: u32)
    ensures S.Credited(seg, sn, ts)
         == if sn != seg.pkt.sn && Timediff(ts, seg.pkt.ts) >= 0 then seg.(fastack := Add32(seg.fastack, 1)) else seg
  {
  }

  /** Reading `d` from state `k0` has reached state `k` and newest acknowledgement
      `best` with `rest` still to read. */
  ghost predicate PartlyRead(k0: S.Kcp, d: bytes, k: S.Kcp, best: Option<S.Ack>, rest: bytes) {
    var whole, left := Split(d, k0.cfg.conv), Split(rest, k0.cfg.conv);
    && k.cfg == k0.cfg
    && S.OnPackets(k, left.packets) == S.OnPackets(k0, whole.packets)
    && S.NewestAck(best, left.packets) == S.NewestAck(None, whole.packets)
    && left.error == whole.error
  }

  /** One turn of the loop of `input`. */
  lemma ReadStep(k0: S.Kcp, d: bytes, k: S.Kcp, best: Option<S.Ack>, rest: bytes)
    requires PartlyRead(k0, d, k, best, rest)
    requires |rest| >= OVERHEAD && ParseSegment(rest, k.cfg.conv).Ok?
    ensures var p := ParseSegment(rest, k.cfg.conv).value;
            && |rest[OVERHEAD + |p.data|..]| < |rest|
            && PartlyRead(k0, d, S.OnPacket(k, p), S.BetterAck(best, p), rest[OVERHEAD + |p.data|..])
  {
    hide S.OnPacket, ParseSegment, S.BetterAck;
    var p := ParseSegment(rest, k.cfg.conv).value;
    var more := Split(rest[OVERHEAD + |p.data|..], k.cfg.conv).packets;
    assert ([p] + more)[1..] == more;
    PacketConfig(k, p);
  }

  lemma ReadFails(k0: S.Kcp, d: bytes, k: S.Kcp, best: Option<S.Ack>, rest: bytes)
    requires PartlyRead(k0, d, k, best, rest) && k0.cfg.mss > 0 && |d| >= OVERHEAD
    requires |rest| >= OVERHEAD && ParseSegment(rest, k.cfg.conv).Err?
    ensures S.Input(k0, d) == (k, Some(ParseSegment(rest, k.cfg.conv).error))
  {
    hide ParseSegment, S.AfterPackets;
  }

  lemma ReadEnds(k0: S.Kcp, d: bytes, k: S.Kcp, best: Option<S.Ack>, rest: bytes)
    requires PartlyRead(k0, d, k, best, rest) && k0.cfg.mss > 0 && |d| >= OVERHEAD
    requires |rest| < OVERHEAD
    ensures k.cfg == k0.cfg && S.Input(k0, d) == (S.AfterPackets(k, best, k0.snd.una), None)
  {
    hide S.AfterPackets;
  }

  lemma AckPrefix(conv: u32, wnd: u16, una: u32, acks: seq<S.Ack>, i: nat)
    requires i < |acks|
    ensures S.AckPackets(conv, wnd, una, acks[..i + 1])
         == S.AckPackets(conv, wnd, una, acks[..i]) + [Packet(conv, CMD_ACK, 0, wnd, acks[i].ts, acks[i].sn, una, [])]
  {
  }

  lemma EmitMore(box: Outbox, mtu: nat, ps: seq<Packet>, p: Packet)
    ensures EmitAll(box, mtu, ps + [p]) == EmitOne(EmitAll(box, mtu, ps), mtu, p)
  {
    assert (ps + [p])[..|ps|] == ps;
  }

  lemma PassStart(buf: seq<S.Segment>, c: S.TxCtx, box: Outbox, mtu: nat, xmit: u32)
    ensures S.TransmitAll(buf[..0], c) == [] && EmitAll(box, mtu, S.Due(buf[..0], c)) == box
    ensures forall kind :: S.CountKind(buf[..0], c, kind) == 0
    ensures forall n: u32 :: !S.AnyGone(buf[..0], c, n)
    ensures S.Wrap32(xmit + 0) == xmit
  {
  }

  /** One turn of the transmission loop. */
  lemma PassStep(buf: seq<S.Segment>, i: nat, c: S.TxCtx)
    requires i < |buf|
    ensures S.TransmitAll(buf[..i + 1], c) == S.TransmitAll(buf[..i], c) + [S.Transmit(buf[i], c)]
    ensures S.Due(buf[..i + 1], c)
         == if S.KindOf(buf[i], c).Idle? then S.Due(buf[..i], c) else S.Due(buf[..i], c) + [S.Transmit(buf[i], c).pkt]
    ensures forall kind ::
              S.CountKind(buf[..i + 1], c, kind)
              == S.CountKind(buf[..i], c, kind) + (if S.KindOf(buf[i], c) == kind then 1 else 0)
    ensures forall n: u32 ::
              S.AnyGone(buf[..i + 1], c, n)
              <==> (S.AnyGone(buf[..i], c, n) || (!S.KindOf(buf[i], c).Idle? && S.Transmit(buf[i], c).xmit >= n))
  {
    hide S.Transmit, S.KindOf;
    assert buf[..i + 1][..i] == buf[..i];
    forall n: u32
      ensures S.AnyGone(buf[..i + 1], c, n)
              <==> (S.AnyGone(buf[..i], c, n) || (!S.KindOf(buf[i], c).Idle? && S.Transmit(buf[i], c).xmit >= n))
    {
      if S.AnyGone(buf[..i], c, n) {
        var j :| 0 <= j < i && !S.KindOf(buf[..i][j], c).Idle? && S.Transmit(buf[..i][j], c).xmit >= n;
        assert buf[..i + 1][j] == buf[..i][j];
      }
      assert buf[..i + 1][i] == buf[i];
      if S.AnyGone(buf[..i + 1], c, n) {
        var j :| 0 <= j < i + 1 && !S.KindOf(buf[..i + 1][j], c).Idle? && S.Transmit(buf[..i + 1][j], c).xmit >= n;
        assert j < i ==> buf[..i][j] == buf[..i + 1][j];
      }
    }
  }

  lemma DelayStep(buf: seq<S.Segment>, i: nat, now: u32)
    requires i < |buf|
    ensures var d := Timediff(buf[i].resendts, now);
            var rest := S.ResendDelay(buf[..i], now);
            S.ResendDelay(buf[..i + 1], now) == if rest.None? || d <= 0 then None else Some(Min(rest.value, d))
  {
    assert buf[..i + 1][..i] == buf[..i];
  }

  lemma {:induction false} DelayStops(buf: seq<S.Segment>, i: nat, now: u32)
    requires i <= |buf| && S.ResendDelay(buf[..i], now).None?
    ensures S.ResendDelay(buf, now).None?
    decreases |buf| - i
  {
    if i < |buf| {
      DelayStep(buf, i, now);
      DelayStops(buf, i + 1, now);
    } else {
      assert buf[..i] == buf;
    }
  }

  lemma PacketConfig(k: S.Kcp, p: Packet)
    ensures S.OnPacket(k, p).cfg == k.cfg
  {
  }

  lemma NothingEmitted(box: Outbox, mtu: nat, conv: u32, wnd: u16, una: u32, acks: seq<S.Ack>)
    ensures EmitAll(box, mtu, S.AckPackets(conv, wnd, una, acks[..0])) == box
  {
  }

  lemma IdleUntouched(seg: S.Segment, c: S.TxCtx)
    ensures S.KindOf(seg, c).Idle? ==> S.Transmit(seg, c) == seg
  {
  }

  lemma WrapNext(x: u32, n: nat)
    ensures Add32(S.Wrap32(x + n), 1) == S.Wrap32(x + n + 1)
  {
  }

  /** The contexts of a pass depend on neither the outbox, the probe flags nor the
      acknowledgement list. */
  lemma SameContext(k: S.Kcp, k': S.Kcp)
    requires k' == k.(box := k'.box, probe := k'.probe, rcv := k.rcv.(acks := []))
    ensures S.TxCtxOf(k') == S.TxCtxOf(k) && S.FillCtxOf(k') == S.FillCtxOf(k) && S.SendWindow(k') == S.SendWindow(k)
    ensures S.WndUnused(k'.rcv, k'.cfg.rcvWnd) == S.WndUnused(k.rcv, k.cfg.rcvWnd)
  {
  }
}
