/** What one datagram does to an engine, told from the segments it carries. */
module KcpHears {
  import opened Words
  import opened KcpWire
  import opened KcpSpec
  import opened KcpWindow
  import opened KcpOps
  import T = KcpTimers
  import B = KcpResend

  /** Every number of a datagram stays clear of 2^31, as those of a peer do. */
  predicate Plain(ps: seq<Packet>) {
    forall p :: p in ps ==> p.sn < TWO31 && p.una < TWO31 && p.ts < TWO31
  }

  // ------------------------------------------------- the advertised window

  /** The window the last of the segments advertises. */
  function WindowAfter(w: u16, ps: seq<Packet>): u16 {
    if ps == [] then w else ps[|ps| - 1].wnd
  }

  lemma {:induction false} PacketsWindow(k: Kcp, ps: seq<Packet>)
    ensures OnPackets(k, ps).rmtWnd == WindowAfter(k.rmtWnd, ps)
    decreases |ps|
  {
    if ps != [] {
      assert OnPacket(k, ps[0]).rmtWnd == ps[0].wnd;
      hide OnPacket;
      PacketsWindow(OnPacket(k, ps[0]), ps[1..]);
    }
  }

  /** A datagram leaves the peer's window at what its last readable segment advertises,
      also when an error ends the reading. */
  lemma InputWindow(k: Kcp, d: bytes)
    requires k.cfg.mss > 0
    ensures Input(k, d).0.rmtWnd == WindowAfter(k.rmtWnd, Split(d, k.cfg.conv).packets)
  {
    hide OnPackets, UpdateCwnd, ParseFastack, NewestAck;
    PacketsWindow(k, Split(d, k.cfg.conv).packets);
  }

  /** A datagram is taken in without an error if and only if it has a header's length
      and is a run of whole segments with fewer bytes than a header behind it. */
  lemma InputVerdict(k: Kcp, d: bytes)
    requires k.cfg.mss > 0
    ensures Input(k, d).1.None? <==> |d| >= OVERHEAD && exists ps, tail :: Readable(d, k.cfg.conv, ps, tail)
  {
    hide OnPackets, UpdateCwnd, ParseFastack, NewestAck, Split, Readable;
    AcceptsExactly(d, k.cfg.conv);
  }

  // ------------------------------------------------------ window questions

  predicate SameTimer(p: Probe, p': Probe) {
    p'.ask == p.ask && p'.ts == p.ts && p'.wait == p.wait
  }

  predicate AsksWindow(ps: seq<Packet>) {
    exists p :: p in ps && p.cmd == CMD_WASK
  }

  lemma {:induction false} PacketsProbe(k: Kcp, ps: seq<Packet>)
    ensures SameTimer(k.probe, OnPackets(k, ps).probe)
    ensures OnPackets(k, ps).probe.tell <==> k.probe.tell || AsksWindow(ps)
    decreases |ps|
  {
    if ps != [] {
      var k1 := OnPacket(k, ps[0]);
      assert SameTimer(k.probe, k1.probe) && (k1.probe.tell <==> k.probe.tell || ps[0].cmd == CMD_WASK);
      hide OnPacket;
      PacketsProbe(k1, ps[1..]);
      assert forall p :: p in ps <==> p == ps[0] || p in ps[1..];
    }
  }

  /** A question for the window, and nothing else, makes an answer owed. */
  lemma InputProbe(k: Kcp, d: bytes)
    requires k.cfg.mss > 0
    ensures SameTimer(k.probe, Input(k, d).0.probe)
    ensures Input(k, d).0.probe.tell <==> k.probe.tell || AsksWindow(Split(d, k.cfg.conv).packets)
  {
    hide OnPackets, UpdateCwnd, ParseFastack, NewestAck;
    PacketsProbe(k, Split(d, k.cfg.conv).packets);
  }

  // ---------------------------------------------------------- round trips

  /** The round-trip times a datagram yields: one for each acknowledgement of a
      transmission that is not in the future, in order. */
  function Samples(ps: seq<Packet>, now: u32): seq<u32> {
    if ps == [] then []
    else
      (if ps[0].cmd == CMD_ACK && Timediff(now, ps[0].ts) >= 0 then [Timediff(now, ps[0].ts) as u32] else [])
      + Samples(ps[1..], now)
  }

  lemma {:induction false} FeedFirst(r: Rtt, interval: u32, minrto: u32, x: u32, xs: seq<u32>)
    ensures T.Feed(r, interval, minrto, [x] + xs) == T.Feed(UpdateAck(r, interval, minrto, x), interval, minrto, xs)
  {
    hide UpdateAck;
    if xs == [] {
      assert ([x] + xs)[..0] == [] && [x] + xs == [x];
    } else {
      assert ([x] + xs)[..|xs|] == [x] + xs[..|xs| - 1];
      FeedFirst(r, interval, minrto, x, xs[..|xs| - 1]);
    }
  }

  lemma OnPacketRtt(k: Kcp, p: Packet)
    ensures var k1 := OnPacket(k, p);
            && k1.current == k.current && k1.cfg == k.cfg
            && k1.rtt == if p.cmd == CMD_ACK && Timediff(k.current, p.ts) >= 0
                         then UpdateAck(k.rtt, k.cfg.interval, k.cfg.minrto, Timediff(k.current, p.ts)) else k.rtt
  {
    hide UpdateAck, ParseAck, AcceptPush, UnaCount;
  }

  lemma {:induction false} PacketsRtt(k: Kcp, ps: seq<Packet>)
    ensures OnPackets(k, ps).rtt == T.Feed(k.rtt, k.cfg.interval, k.cfg.minrto, Samples(ps, k.current))
    decreases |ps|
  {
    hide OnPacket, UpdateAck, Timediff;
    if ps != [] {
      var k1, rest := OnPacket(k, ps[0]), Samples(ps[1..], k.current);
      OnPacketRtt(k, ps[0]);
      PacketsRtt(k1, ps[1..]);
      if ps[0].cmd == CMD_ACK && Timediff(k.current, ps[0].ts) >= 0 {
        FeedFirst(k.rtt, k.cfg.interval, k.cfg.minrto, Timediff(k.current, ps[0].ts), rest);
      } else {
        assert [] + rest == rest;
      }
    }
  }

  /** A datagram feeds the estimator exactly its samples, in order. */
  lemma InputSamples(k: Kcp, d: bytes)
    requires k.cfg.mss > 0
    ensures Input(k, d).0.rtt ==
            T.Feed(k.rtt, k.cfg.interval, k.cfg.minrto, Samples(Split(d, k.cfg.conv).packets, k.current))
  {
    hide OnPackets, UpdateCwnd, ParseFastack, NewestAck, UpdateAck;
    PacketsRtt(k, Split(d, k.cfg.conv).packets);
    if |d| < OVERHEAD {
      assert Samples([], k.current) == [];
    }
  }

  // ------------------------------------------------------------ receiving

  /** The acknowledgements the data segments call for. */
  function Owed(ps: seq<Packet>): seq<Ack> {
    if ps == [] then []
    else (if ps[0].cmd == CMD_PUSH then [Ack(ps[0].sn, ps[0].ts)] else []) + Owed(ps[1..])
  }

  /** Every data segment is below the end of the receive window. */
  predicate AllWithin(r: Receiver, wnd: u16, ps: seq<Packet>) {
    forall p :: p in ps && p.cmd == CMD_PUSH ==> p.sn < r.nxt + wnd
  }

  lemma OnPacketReceives(k: Kcp, p: Packet)
    requires KcpInv(k) && Base(k.rcv) + 2 * k.cfg.rcvWnd < TWO31
    ensures var k1 := OnPacket(k, p);
            && k1.rcv.nxt >= k.rcv.nxt
            && (forall sn: u32 :: Received(k.rcv, sn) ==> Received(k1.rcv, sn))
            && (forall sn: u32 :: Received(k1.rcv, sn) ==> Received(k.rcv, sn) || (p.cmd == CMD_PUSH && sn == p.sn))
            && (p.cmd == CMD_PUSH && p.sn < k.rcv.nxt + k.cfg.rcvWnd ==>
                  Received(k1.rcv, p.sn) && k1.rcv.acks == k.rcv.acks + [Ack(p.sn, p.ts)])
            && (p.cmd != CMD_PUSH ==> k1.rcv == k.rcv)
  {
    OnPacketKeeps(k, p);
    InvHasReceiver(k);
    hide KcpInv, OnPacket, AcceptPush, Received, ReceiverInv;
    if p.cmd == CMD_PUSH {
      AcceptPushKeeps(k.rcv, k.cfg.rcvWnd, p);
    }
  }

  lemma {:induction false} PacketsReceive(k: Kcp, ps: seq<Packet>)
    requires KcpInv(k) && Base(k.rcv) + 2 * k.cfg.rcvWnd < TWO31
    ensures var k' := OnPackets(k, ps);
            && (forall sn: u32 :: Received(k.rcv, sn) ==> Received(k'.rcv, sn))
            && (forall sn: u32 :: Received(k'.rcv, sn) ==>
                  Received(k.rcv, sn) || exists p :: p in ps && p.cmd == CMD_PUSH && p.sn == sn)
            && (forall p :: p in ps && p.cmd == CMD_PUSH && p.sn < k.rcv.nxt + k.cfg.rcvWnd ==> Received(k'.rcv, p.sn))
            && (AllWithin(k.rcv, k.cfg.rcvWnd, ps) ==> k'.rcv.acks == k.rcv.acks + Owed(ps))
    decreases |ps|
  {
    hide KcpInv, OnPacket, Received;
    if ps == [] {
      assert k.rcv.acks + [] == k.rcv.acks;
    } else {
      var k1, rest := OnPacket(k, ps[0]), ps[1..];
      OnPacketKeeps(k, ps[0]);
      OnPacketReceives(k, ps[0]);
      PacketsReceive(k1, rest);
      assert forall p :: p in ps <==> p == ps[0] || p in rest;
      assert k.rcv.acks + ([Ack(ps[0].sn, ps[0].ts)] + Owed(rest)) == k.rcv.acks + [Ack(ps[0].sn, ps[0].ts)] + Owed(rest);
      assert [] + Owed(rest) == Owed(rest);
    }
  }

  /** A datagram's data: every segment below the end of the window has then been
      received, nothing else has been that was not before, and each is acknowledged
      once, in order, with its own timestamp. */
  lemma InputReceives(k: Kcp, d: bytes)
    requires KcpInv(k) && InRange(k)
    ensures var k', ps := Input(k, d).0, Split(d, k.cfg.conv).packets;
            && (forall sn: u32 :: Received(k.rcv, sn) ==> Received(k'.rcv, sn))
            && (forall sn: u32 :: Received(k'.rcv, sn) ==>
                  Received(k.rcv, sn) || exists p :: p in ps && p.cmd == CMD_PUSH && p.sn == sn)
            && (forall p :: p in ps && p.cmd == CMD_PUSH && p.sn < k.rcv.nxt + k.cfg.rcvWnd ==> Received(k'.rcv, p.sn))
            && (AllWithin(k.rcv, k.cfg.rcvWnd, ps) ==> k'.rcv.acks == k.rcv.acks + Owed(ps))
  {
    hide KcpInv, OnPackets, UpdateCwnd, ParseFastack, NewestAck, Received;
    InvHasConfig(k);
    PacketsReceive(k, Split(d, k.cfg.conv).packets);
    assert k.rcv.acks + [] == k.rcv.acks;
  }

  // ------------------------------------------------------------ releasing

  /** No segment of the datagram releases `seg`. */
  predicate Spared(ps: seq<Packet>, seg: Segment) {
    forall p :: p in ps ==> p.una <= seg.pkt.sn && !(p.cmd == CMD_ACK && p.sn == seg.pkt.sn)
  }

  lemma OnPacketReleases(k: Kcp, p: Packet)
    requires KcpInv(k) && Base(k.rcv) + 2 * k.cfg.rcvWnd < TWO31 && p.una < TWO31
    ensures forall seg :: seg in OnPacket(k, p).snd.buf <==> seg in k.snd.buf && Spared([p], seg)
    ensures OnPacket(k, p).lastProgress ==
            if exists i :: 0 <= i < |k.snd.buf| && k.snd.buf[i].pkt.sn < p.una then k.current else k.lastProgress
  {
    hide KcpInv, OnPacket, UnaCount, SortedSegments, AcceptPush;
    OnPacketKeeps(k, p);
    ProgressIs(k, p);
    BufSorted(k);
    UnaLeaves(k.snd.buf, p.una);
    SparedOne(p);
  }

  lemma SparedOne(p: Packet)
    ensures forall seg :: Spared([p], seg) <==> p.una <= seg.pkt.sn && !(p.cmd == CMD_ACK && p.sn == seg.pkt.sn)
  {
    assert p in [p];
  }

  lemma UnaLeaves(buf: seq<Segment>, una: u32)
    requires SortedSegments(buf) && una < TWO31 && forall i :: 0 <= i < |buf| ==> buf[i].pkt.sn < TWO31
    ensures var n := UnaCount(buf, una);
            && (forall seg :: seg in buf[n..] <==> seg in buf && una <= seg.pkt.sn)
            && (n > 0 <==> exists i :: 0 <= i < |buf| && buf[i].pkt.sn < una)
  {
    hide UnaCount, SortedSegments;
    UnaExact(buf, una);
    var n := UnaCount(buf, una);
    forall seg ensures seg in buf[n..] <==> seg in buf && una <= seg.pkt.sn {
      Behind(buf, n, una, seg);
    }
    if n > 0 {
      assert buf[0].pkt.sn < una;
    }
  }

  lemma Behind(buf: seq<Segment>, n: nat, una: u32, seg: Segment)
    requires n <= |buf| && forall i :: 0 <= i < |buf| ==> (buf[i].pkt.sn < una <==> i < n)
    ensures seg in buf[n..] <==> seg in buf && una <= seg.pkt.sn
  {
    var rest := buf[n..];
    if seg in rest {
      var i :| 0 <= i < |rest| && rest[i] == seg;
      assert buf[n + i] == seg;
    }
    if seg in buf && una <= seg.pkt.sn {
      var i :| 0 <= i < |buf| && buf[i] == seg;
      assert rest[i - n] == seg;
    }
  }

  lemma ProgressIs(k: Kcp, p: Packet)
    ensures OnPacket(k, p).lastProgress == if UnaCount(k.snd.buf, p.una) > 0 then k.current else k.lastProgress
  {
    hide UnaCount, ParseAck, AcceptPush, UpdateAck;
  }

  lemma {:induction false} PacketsRelease(k: Kcp, ps: seq<Packet>)
    requires KcpInv(k) && Base(k.rcv) + 2 * k.cfg.rcvWnd < TWO31 && Plain(ps)
    ensures forall seg :: seg in OnPackets(k, ps).snd.buf <==> seg in k.snd.buf && Spared(ps, seg)
    decreases |ps|
  {
    hide KcpInv, OnPacket;
    if ps != [] {
      assert ps[0] in ps;
      OnPacketKeeps(k, ps[0]);
      OnPacketReleases(k, ps[0]);
      PacketsRelease(OnPacket(k, ps[0]), ps[1..]);
      assert forall p :: p in ps <==> p == ps[0] || p in ps[1..];
      assert ps[0] in [ps[0]];
    }
  }

  /** Segment `j` of the datagram releases `seg` by its `una`, and none before it
      acknowledges `seg` selectively. */
  predicate ReleasedBy(seg: Segment, ps: seq<Packet>, j: nat) {
    && j < |ps| && seg.pkt.sn < ps[j].una
    && forall i :: 0 <= i < j ==> !(ps[i].cmd == CMD_ACK && ps[i].sn == seg.pkt.sn)
  }

  predicate Progress(buf: seq<Segment>, ps: seq<Packet>) {
    exists seg, j :: seg in buf && 0 <= j < |ps| && ReleasedBy(seg, ps, j)
  }

  lemma {:induction false} PacketsProgress(k: Kcp, ps: seq<Packet>)
    requires KcpInv(k) && Base(k.rcv) + 2 * k.cfg.rcvWnd < TWO31 && Plain(ps)
    ensures OnPackets(k, ps).lastProgress == if Progress(k.snd.buf, ps) then k.current else k.lastProgress
    decreases |ps|
  {
    hide KcpInv, OnPacket, Spared;
    if ps != [] {
      var k1, rest := OnPacket(k, ps[0]), ps[1..];
      assert ps[0] in ps;
      OnPacketKeeps(k, ps[0]);
      OnPacketReleases(k, ps[0]);
      OnPacketRtt(k, ps[0]);
      PacketsProgress(k1, rest);
      ProgressSplits(k.snd.buf, k1.snd.buf, ps);
    }
  }

  lemma ReleasedLater(seg: Segment, ps: seq<Packet>, j: nat)
    requires ps != []
    ensures ReleasedBy(seg, ps, j + 1) <==>
            ReleasedBy(seg, ps[1..], j) && !(ps[0].cmd == CMD_ACK && ps[0].sn == seg.pkt.sn)
  {
    var rest := ps[1..];
    assert forall i :: 0 <= i < |rest| ==> rest[i] == ps[i + 1];
    if ReleasedBy(seg, ps, j + 1) {
      forall i | 0 <= i < j ensures !(rest[i].cmd == CMD_ACK && rest[i].sn == seg.pkt.sn) {
        assert rest[i] == ps[i + 1];
      }
    }
    if ReleasedBy(seg, rest, j) && !(ps[0].cmd == CMD_ACK && ps[0].sn == seg.pkt.sn) {
      forall i | 0 <= i < j + 1 ensures !(ps[i].cmd == CMD_ACK && ps[i].sn == seg.pkt.sn) {
        assert i > 0 ==> ps[i] == rest[i - 1];
      }
    }
  }

  lemma ProgressSplits(buf: seq<Segment>, left: seq<Segment>, ps: seq<Packet>)
    requires ps != [] && forall seg :: seg in left <==> seg in buf && Spared([ps[0]], seg)
    ensures Progress(buf, ps) <==> (exists i :: 0 <= i < |buf| && buf[i].pkt.sn < ps[0].una) || Progress(left, ps[1..])
  {
    assert ps[0] in [ps[0]];
    if i :| 0 <= i < |buf| && buf[i].pkt.sn < ps[0].una {
      assert buf[i] in buf && ReleasedBy(buf[i], ps, 0);
    } else {
      if Progress(buf, ps) {
        var seg, j :| seg in buf && 0 <= j < |ps| && ReleasedBy(seg, ps, j);
        assert j > 0;
        ReleasedLater(seg, ps, j - 1);
        assert seg in left && ReleasedBy(seg, ps[1..], j - 1);
      }
      if Progress(left, ps[1..]) {
        var seg, j :| seg in left && 0 <= j < |ps[1..]| && ReleasedBy(seg, ps[1..], j);
        ReleasedLater(seg, ps, j);
        assert seg in buf && ReleasedBy(seg, ps, j + 1);
      }
    }
  }

  /** The clock of the last sign of life: a datagram sets it if and only if its `una`
      releases something. */
  lemma InputProgress(k: Kcp, d: bytes)
    requires KcpInv(k) && InRange(k) && Plain(Split(d, k.cfg.conv).packets)
    ensures Input(k, d).0.lastProgress ==
            if Progress(k.snd.buf, Split(d, k.cfg.conv).packets) then k.current else k.lastProgress
  {
    InvHasConfig(k);
    PacketsProgress(k, Split(d, k.cfg.conv).packets);
    hide KcpInv, OnPackets, UpdateCwnd, ParseFastack, NewestAck, Progress;
    if |d| < OVERHEAD {
      assert !Progress(k.snd.buf, []) by { NoProgress(k.snd.buf); }
    }
  }

  lemma NoProgress(buf: seq<Segment>)
    ensures !Progress(buf, [])
  {
  }

  // --------------------------------------------------------------- credit

  /** Newer in number and in timestamp. */
  predicate Newer(p: Packet, a: Ack) {
    p.sn > a.sn && p.ts > a.ts
  }

  /** The acknowledgement a datagram is credited for is one it carries, and none it
      carries is newer. */
  predicate IsNewest(best: Option<Ack>, ps: seq<Packet>) {
    match best
    case None => forall p :: p in ps ==> p.cmd != CMD_ACK
    case Some(a) =>
      && (exists p :: p in ps && p.cmd == CMD_ACK && Ack(p.sn, p.ts) == a)
      && forall p :: p in ps && p.cmd == CMD_ACK ==> !Newer(p, a)
  }

  /** Reading on from `best`. */
  lemma {:induction false} NewestFrom(best: Option<Ack>, ps: seq<Packet>)
    requires Plain(ps) && (best.Some? ==> best.value.sn < TWO31 && best.value.ts < TWO31)
    ensures var r := NewestAck(best, ps);
            && (best.None? ==> IsNewest(r, ps))
            && (best.Some? ==>
                  && r.Some? && best.value.sn <= r.value.sn && best.value.ts <= r.value.ts
                  && (r == best || exists p :: p in ps && p.cmd == CMD_ACK && Ack(p.sn, p.ts) == r.value)
                  && forall p :: p in ps && p.cmd == CMD_ACK ==> !Newer(p, r.value))
    decreases |ps|
  {
    if ps != [] {
      assert ps[0] in ps && forall p :: p in ps <==> p == ps[0] || p in ps[1..];
      var next := BetterAck(best, ps[0]);
      assert next.Some? ==> next.value.sn < TWO31 && next.value.ts < TWO31;
      BetterIs(best, ps[0]);
      hide BetterAck, Timediff;
      NewestFrom(next, ps[1..]);
    }
  }

  lemma BetterIs(best: Option<Ack>, p: Packet)
    requires p.sn < TWO31 && p.ts < TWO31 && (best.Some? ==> best.value.sn < TWO31 && best.value.ts < TWO31)
    ensures BetterAck(best, p) ==
            if p.cmd == CMD_ACK && (best.None? || Newer(p, best.value)) then Some(Ack(p.sn, p.ts)) else best
  {
  }

  lemma NewestAckExact(ps: seq<Packet>)
    requires Plain(ps)
    ensures IsNewest(NewestAck(None, ps), ps)
  {
    NewestFrom(None, ps);
  }

  /** `seg` after a datagram whose newest acknowledgement is `best`: one credit if it
      is older than the acknowledged one and was not sent after its transmission. */
  function AfterHearing(seg: Segment, best: Option<Ack>, nxt: u32): Segment {
    if best.Some? && seg.pkt.sn < best.value.sn < nxt && Timediff(best.value.ts, seg.pkt.ts) >= 0
    then seg.(fastack := Add32(seg.fastack, 1)) else seg
  }

  lemma Fastacked(s: Sender, wnd: u16, a: Ack)
    requires SenderInv(s, wnd) && a.sn < TWO31
    ensures var s' := ParseFastack(s, a.sn, a.ts);
            |s'.buf| == |s.buf| && forall i :: 0 <= i < |s.buf| ==> s'.buf[i] == AfterHearing(s.buf[i], Some(a), s.nxt)
  {
    B.CreditExact(s.buf, a.sn, a.ts);
    hide Credit, Add32;
    if Timediff(a.sn, s.una) < 0 || Timediff(a.sn, s.nxt) >= 0 {
      assert a.sn < s.una || a.sn >= s.nxt;
    }
  }

  /** The acknowledgement a datagram is credited for: none if an error ends it. */
  function CreditedAck(c: Contents): Option<Ack> {
    if c.error.Some? then None else NewestAck(None, c.packets)
  }

  /** The acknowledgements of a whole datagram: what it releases goes and nothing else,
      and what stays earns at most one credit, for the newest acknowledgement of a
      datagram read to its end. */
  lemma InputReleases(k: Kcp, d: bytes)
    requires KcpInv(k) && InRange(k) && Plain(Split(d, k.cfg.conv).packets)
    ensures var c, buf' := Split(d, k.cfg.conv), Input(k, d).0.snd.buf;
            && (c.error.None? ==> IsNewest(CreditedAck(c), c.packets))
            && (forall seg :: seg in k.snd.buf && Spared(c.packets, seg) ==>
                  AfterHearing(seg, CreditedAck(c), k.snd.nxt) in buf')
            && (forall seg' :: seg' in buf' ==>
                  exists seg :: seg in k.snd.buf && Spared(c.packets, seg) && seg' == AfterHearing(seg, CreditedAck(c), k.snd.nxt))
  {
    var c := Split(d, k.cfg.conv);
    var best, k1 := CreditedAck(c), OnPackets(k, c.packets);
    NewestAckExact(c.packets);
    PacketsRelease(k, c.packets);
    OnPacketsKeeps(k, c.packets);
    InvHasConfig(k);
    InvHasSender(k1);
    InputSender(k, d);
    NewestPlain(c.packets);
    CreditedBuffer(k1.snd, k.cfg.sndWnd, best);
    hide KcpInv, InRange, ConfigOk, Plain, OnPackets, NewestAck, Input, Split;
    Mapped(k.snd.buf, c.packets, k1.snd.buf, Input(k, d).0.snd.buf, best, k.snd.nxt);
  }

  lemma NewestPlain(ps: seq<Packet>)
    requires Plain(ps)
    ensures NewestAck(None, ps).Some? ==> NewestAck(None, ps).value.sn < TWO31
  {
    hide NewestAck;
    NewestAckExact(ps);
  }

  lemma Mapped(buf: seq<Segment>, ps: seq<Packet>, left: seq<Segment>, buf': seq<Segment>, best: Option<Ack>, nxt: u32)
    requires forall seg :: seg in left <==> seg in buf && Spared(ps, seg)
    requires |buf'| == |left| && forall i :: 0 <= i < |left| ==> buf'[i] == AfterHearing(left[i], best, nxt)
    ensures forall seg :: seg in buf && Spared(ps, seg) ==> AfterHearing(seg, best, nxt) in buf'
    ensures forall seg' :: seg' in buf' ==>
              exists seg :: seg in buf && Spared(ps, seg) && seg' == AfterHearing(seg, best, nxt)
  {
    hide Spared, AfterHearing;
    forall seg | seg in buf && Spared(ps, seg) ensures AfterHearing(seg, best, nxt) in buf' {
      var i :| 0 <= i < |left| && left[i] == seg;
      assert buf'[i] in buf';
    }
    forall seg' | seg' in buf' ensures exists seg :: seg in buf && Spared(ps, seg) && seg' == AfterHearing(seg, best, nxt) {
      var i :| 0 <= i < |buf'| && buf'[i] == seg';
      assert left[i] in left;
    }
  }

  lemma InputSender(k: Kcp, d: bytes)
    requires k.cfg.mss > 0
    ensures var c := Split(d, k.cfg.conv);
            var s, best := OnPackets(k, c.packets).snd, CreditedAck(c);
            Input(k, d).0.snd == if best.Some? then ParseFastack(s, best.value.sn, best.value.ts) else s
  {
    hide UpdateCwnd, ParseFastack, OnPacket;
  }

  lemma InvHasSender(k: Kcp)
    requires KcpInv(k)
    ensures SenderInv(k.snd, k.cfg.sndWnd)
  {
  }

  lemma CreditedBuffer(s: Sender, wnd: u16, best: Option<Ack>)
    requires SenderInv(s, wnd) && (best.Some? ==> best.value.sn < TWO31)
    ensures var buf' := (if best.Some? then ParseFastack(s, best.value.sn, best.value.ts) else s).buf;
            |buf'| == |s.buf| && forall i :: 0 <= i < |buf'| ==> buf'[i] == AfterHearing(s.buf[i], best, s.nxt)
  {
    hide ParseFastack;
    if best.Some? {
      Fastacked(s, wnd, best.value);
    }
  }
}
