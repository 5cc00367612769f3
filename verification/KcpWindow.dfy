/** What every operation of the engine keeps, whatever arrives: both buffers
    stay sorted windows, the counters only move forward, and every datagram is
    a run of whole segments within the MTU. */
module KcpWindow {
  import opened Words
  import opened KcpWire
  import opened KcpSpec

  predicate ConfigOk(c: Config) {
    && OVERHEAD < c.mtu < TWO32 && c.mss == c.mtu - OVERHEAD
    && c.sndWnd > 0 && c.rcvWnd >= WND_RCV
  }

  /** Numbers this far below 2^31 leave room for one more step of either half. */
  predicate InRange(k: Kcp) {
    && k.snd.una + k.cfg.sndWnd < TWO31
    && k.rcv.nxt - |k.rcv.queue| + 2 * k.cfg.rcvWnd + 1 < TWO31
  }

  predicate SortedSegments(buf: seq<Segment>) {
    forall i, j :: 0 <= i < j < |buf| ==> buf[i].pkt.sn < buf[j].pkt.sn
  }

  predicate SenderInv(s: Sender, wnd: u16) {
    && SortedSegments(s.buf)
    && (forall i :: 0 <= i < |s.buf| ==> s.una <= s.buf[i].pkt.sn < s.nxt)
    && s.una == (if s.buf == [] then s.nxt else s.buf[0].pkt.sn)
    && s.nxt - s.una <= wnd
    && s.nxt < TWO31
  }

  predicate SortedPackets(buf: seq<Packet>) {
    forall i, j :: 0 <= i < j < |buf| ==> buf[i].sn < buf[j].sn
  }

  /** `buf` is a gap-separated window above `nxt`; `queue` holds the numbers
      just below it; whatever could be moved to `queue` has been. */
  predicate ReceiverInv(r: Receiver, wnd: u16) {
    && SortedPackets(r.buf)
    && (forall i :: 0 <= i < |r.buf| ==> r.nxt <= r.buf[i].sn < r.nxt + wnd)
    && |r.queue| <= wnd && |r.queue| <= r.nxt
    && (forall i :: 0 <= i < |r.queue| ==> r.queue[i].sn == r.nxt - |r.queue| + i)
    && (r.buf != [] && r.buf[0].sn == r.nxt ==> |r.queue| == wnd)
    && r.nxt + wnd < TWO31
  }

  /** Payloads fit one datagram and every buffered segment is a PUSH of ours. */
  predicate PayloadInv(s: Sender, c: Config) {
    && (forall i :: 0 <= i < |s.queue| ==> |s.queue[i]| <= c.mss)
    && (forall i :: 0 <= i < |s.buf| ==>
          var p := s.buf[i].pkt;
          |p.data| <= c.mss && p.conv == c.conv && p.cmd == CMD_PUSH && p.frg == 0)
  }

  predicate KcpInv(k: Kcp) {
    && ConfigOk(k.cfg)
    && SenderInv(k.snd, k.cfg.sndWnd)
    && ReceiverInv(k.rcv, k.cfg.rcvWnd)
    && PayloadInv(k.snd, k.cfg)
    && CleanBox(k.box, k.cfg.conv, k.cfg.mtu)
  }

  /** The number was delivered to the application or is held in either buffer. */
  predicate Received(r: Receiver, sn: u32) {
    sn < r.nxt || exists i :: 0 <= i < |r.buf| && r.buf[i].sn == sn
  }

  /** How far the application has read: the number of the next segment it gets. */
  function Base(r: Receiver): int {
    r.nxt - |r.queue|
  }

  // ------------------------------------------------------------ receive half

  /** `move_buf` moves the longest consecutive run the queue has room for. */
  lemma {:induction false} MoveBufShape(r: Receiver, wnd: u16) returns (n: nat)
    requires r.nxt + |r.buf| < TWO32
    ensures n <= |r.buf|
    ensures MoveBuf(r, wnd) == Receiver(r.nxt + n, r.buf[n..], r.queue + r.buf[..n], r.acks)
    ensures forall i :: 0 <= i < n ==> r.buf[i].sn == r.nxt + i
    ensures n > 0 ==> |r.queue| + n <= wnd
    ensures n < |r.buf| && r.buf[n].sn == r.nxt + n ==> |r.queue| + n >= wnd
    decreases |r.buf|
  {
    if r.buf != [] && r.buf[0].sn == r.nxt && |r.queue| < wnd {
      var r1 := r.(nxt := r.nxt + 1, buf := r.buf[1..], queue := r.queue + [r.buf[0]]);
      var m := MoveBufShape(r1, wnd);
      n := m + 1;
      assert MoveBuf(r, wnd) == MoveBuf(r1, wnd);
      hide MoveBuf;
      assert r1.buf[m..] == r.buf[n..];
      assert r1.queue + r1.buf[..m] == r.queue + r.buf[..n];
      assert forall i :: 1 <= i < n ==> r.buf[i] == r1.buf[i - 1];
    } else {
      n := 0;
      assert r.queue + r.buf[..0] == r.queue;
    }
  }

  /** Numbers that rise strictly through `[lo, hi)` are at most `hi - lo` many. */
  lemma {:induction false} RisingFits(s: seq<int>, lo: int, hi: int)
    requires lo <= hi
    requires forall i :: 0 <= i < |s| ==> lo <= s[i] < hi
    requires forall i, j :: 0 <= i < j < |s| ==> s[i] < s[j]
    ensures |s| <= hi - lo
  {
    if s != [] {
      RisingFits(s[..|s| - 1], lo, s[|s| - 1]);
    }
  }

  lemma SortedSpan(buf: seq<Packet>, lo: int, hi: int)
    requires SortedPackets(buf) && lo <= hi
    requires forall i :: 0 <= i < |buf| ==> lo <= buf[i].sn < hi
    ensures |buf| <= hi - lo
  {
    RisingFits(seq(|buf|, i requires 0 <= i < |buf| => buf[i].sn), lo, hi);
  }

  /** The backward scan finds the one place that keeps the buffer sorted, and
      reports a repeat exactly when the number is there. */
  lemma {:induction false} InsertIndexExact(buf: seq<Packet>, sn: u32)
    requires SortedPackets(buf) && sn < TWO31
    requires forall i :: 0 <= i < |buf| ==> buf[i].sn < TWO31
    ensures var at := InsertIndex(buf, sn);
            && (at.None? <==> exists i :: 0 <= i < |buf| && buf[i].sn == sn)
            && (at.Some? ==> (forall i :: 0 <= i < at.value ==> buf[i].sn < sn)
                             && forall i :: at.value <= i < |buf| ==> sn < buf[i].sn)
  {
    if buf != [] {
      var last, front := buf[|buf| - 1], buf[..|buf| - 1];
      if last.sn > sn {
        InsertIndexExact(front, sn);
        assert forall i :: 0 <= i < |front| ==> front[i] == buf[i];
      }
    }
  }

  /** A receiver whose buffer is in order but may hold a run that `move_buf` has
      yet to move. */
  predicate Unmoved(r: Receiver, wnd: u16) {
    && SortedPackets(r.buf)
    && (forall i :: 0 <= i < |r.buf| ==> r.nxt <= r.buf[i].sn < r.nxt + wnd)
    && |r.queue| <= wnd && |r.queue| <= r.nxt
    && (forall i :: 0 <= i < |r.queue| ==> r.queue[i].sn == r.nxt - |r.queue| + i)
    && Base(r) + 2 * wnd < TWO31
  }

  lemma MoveBufWindow(r: Receiver, wnd: u16)
    requires Unmoved(r, wnd)
    ensures var r' := MoveBuf(r, wnd);
            && ReceiverInv(r', wnd) && Base(r') == Base(r) && r'.nxt >= r.nxt && r'.acks == r.acks
  {
    hide MoveBuf;
    SortedSpan(r.buf, r.nxt, r.nxt + wnd);
    var n := MoveBufShape(r, wnd);
    if 0 < n < |r.buf| {
      assert r.buf[n - 1].sn < r.buf[n].sn;
    }
  }

  lemma MoveBufHeld(r: Receiver, wnd: u16)
    requires Unmoved(r, wnd)
    ensures MoveBuf(r, wnd).queue + MoveBuf(r, wnd).buf == r.queue + r.buf
  {
    hide MoveBuf;
    SortedSpan(r.buf, r.nxt, r.nxt + wnd);
    var n := MoveBufShape(r, wnd);
    hide Unmoved;
    Rejoined(r.queue, r.buf, n);
  }

  lemma Rejoined<T>(a: seq<T>, b: seq<T>, n: nat)
    requires n <= |b|
    ensures (a + b[..n]) + b[n..] == a + b
  {
  }

  lemma MoveBufReceived(r: Receiver, wnd: u16, sn: u32)
    requires Unmoved(r, wnd)
    ensures Received(MoveBuf(r, wnd), sn) <==> Received(r, sn)
  {
    hide MoveBuf;
    SortedSpan(r.buf, r.nxt, r.nxt + wnd);
    var n := MoveBufShape(r, wnd);
    var r' := MoveBuf(r, wnd);
    if r.nxt <= sn < r'.nxt {
      assert r.buf[sn - r.nxt].sn == sn;
    } else if sn >= r'.nxt {
      if Received(r, sn) {
        var i :| 0 <= i < |r.buf| && r.buf[i].sn == sn;
        assert r'.buf[i - n] == r.buf[i];
      }
      if Received(r', sn) {
        var i :| 0 <= i < |r'.buf| && r'.buf[i].sn == sn;
        assert r.buf[i + n] == r'.buf[i];
      }
    }
  }

  lemma MoveBufKeeps(r: Receiver, wnd: u16)
    requires Unmoved(r, wnd)
    ensures var r' := MoveBuf(r, wnd);
            && ReceiverInv(r', wnd) && Base(r') == Base(r) && r'.nxt >= r.nxt && r'.acks == r.acks
            && r'.queue + r'.buf == r.queue + r.buf
            && (forall sn: u32 :: Received(r', sn) <==> Received(r, sn))
  {
    hide MoveBuf, Received, ReceiverInv;
    var r' := MoveBuf(r, wnd);
    MoveBufHeld(r, wnd);
    MoveBufWindow(r, wnd);
    forall sn: u32 ensures Received(r', sn) <==> Received(r, sn) {
      MoveBufReceived(r, wnd, sn);
    }
  }

  /** What the receiver holds afterwards was held before or is the segment that
      arrived. */
  predicate NothingInvented(r: Receiver, r': Receiver, p: Packet) {
    forall q :: q in r'.queue + r'.buf ==> q in r.queue + r.buf || q == p
  }

  function Inserted(buf: seq<Packet>, at: nat, p: Packet): seq<Packet>
    requires at <= |buf|
  {
    buf[..at] + [p] + buf[at..]
  }

  lemma InsertWindow(buf: seq<Packet>, at: nat, p: Packet, lo: int, hi: int)
    requires SortedPackets(buf) && at <= |buf| && lo <= p.sn < hi
    requires forall i :: 0 <= i < |buf| ==> lo <= buf[i].sn < hi
    requires forall i :: 0 <= i < at ==> buf[i].sn < p.sn
    requires forall i :: at <= i < |buf| ==> p.sn < buf[i].sn
    ensures var b := Inserted(buf, at, p);
            && SortedPackets(b) && (forall i :: 0 <= i < |b| ==> lo <= b[i].sn < hi)
            && (forall q :: q in b <==> q in buf || q == p)
  {
    var b := Inserted(buf, at, p);
    assert forall i :: 0 <= i < |b| ==> b[i] == if i < at then buf[i] else if i == at then p else buf[i - 1];
    assert b[at] == p;
    forall q | q in buf ensures q in b {
      var i :| 0 <= i < |buf| && buf[i] == q;
      assert b[if i < at then i else i + 1] == q;
    }
  }

  lemma InsertKeeps(r: Receiver, wnd: u16, p: Packet)
    requires ReceiverInv(r, wnd) && Base(r) + 2 * wnd < TWO31
    requires r.nxt <= p.sn < r.nxt + wnd
    requires InsertIndex(r.buf, p.sn).Some?
    ensures var r1 := r.(buf := Inserted(r.buf, InsertIndex(r.buf, p.sn).value, p));
            && Unmoved(r1, wnd) && NothingInvented(r, r1, p)
            && (forall sn: u32 :: Received(r1, sn) <==> Received(r, sn) || sn == p.sn)
  {
    hide InsertIndex, Inserted;
    InsertIndexExact(r.buf, p.sn);
    var at := InsertIndex(r.buf, p.sn).value;
    InsertWindow(r.buf, at, p, r.nxt, r.nxt + wnd);
    var r1 := r.(buf := Inserted(r.buf, at, p));
    forall sn: u32 ensures Received(r1, sn) <==> Received(r, sn) || sn == p.sn {
      if sn >= r.nxt && Received(r, sn) {
        var i :| 0 <= i < |r.buf| && r.buf[i].sn == sn;
        assert r.buf[i] in r1.buf;
      }
      if sn >= r.nxt && Received(r1, sn) {
        var i :| 0 <= i < |r1.buf| && r1.buf[i].sn == sn;
        assert r1.buf[i] in r1.buf;
      }
      assert p in r1.buf;
    }
  }

  lemma ParseDataKeeps(r: Receiver, wnd: u16, p: Packet)
    requires ReceiverInv(r, wnd) && Base(r) + 2 * wnd < TWO31
    requires r.nxt <= p.sn < r.nxt + wnd
    ensures var r' := ParseData(r, wnd, p);
            && ReceiverInv(r', wnd) && Base(r') == Base(r) && r'.nxt >= r.nxt && r'.acks == r.acks
            && NothingInvented(r, r', p)
            && (forall sn: u32 :: Received(r', sn) <==> Received(r, sn) || sn == p.sn)
  {
    assert Timediff(p.sn, Add32(r.nxt, wnd)) < 0 && Timediff(p.sn, r.nxt) >= 0;
    var at := InsertIndex(r.buf, p.sn);
    InsertIndexExact(r.buf, p.sn);
    if at.Some? {
      InsertKeeps(r, wnd, p);
      MoveBufKeeps(r.(buf := Inserted(r.buf, at.value, p)), wnd);
    } else {
      MoveBufKeeps(r, wnd);
    }
  }

  /** One arriving PUSH, whatever its number: the window invariant and the read
      position stay and nothing received is forgotten. It is acknowledged if and only
      if its number is below the window's end, or so far above that the signed
      difference takes it for old; only in the second case has it not been received. */
  lemma AcceptPushKeeps(r: Receiver, wnd: u16, p: Packet)
    requires ReceiverInv(r, wnd) && Base(r) + 2 * wnd < TWO31
    ensures var r' := AcceptPush(r, wnd, p);
            && ReceiverInv(r', wnd) && Base(r') == Base(r) && r'.nxt >= r.nxt
            && NothingInvented(r, r', p)
            && (forall sn: u32 :: Received(r, sn) ==> Received(r', sn))
            && (forall sn: u32 :: Received(r', sn) ==> Received(r, sn) || sn == p.sn)
            && (r'.acks == r.acks || r'.acks == r.acks + [Ack(p.sn, p.ts)])
            && (r'.acks != r.acks && p.sn < TWO31 ==> Received(r', p.sn))
            && (p.sn < r.nxt + wnd ==> r'.acks != r.acks && Received(r', p.sn))
            && (r'.acks != r.acks <==> p.sn < r.nxt + wnd || p.sn >= r.nxt + wnd + TWO31)
            && (r'.acks != r.acks && !Received(r', p.sn) <==> p.sn >= r.nxt + wnd + TWO31)
  {
    hide ParseData;
    if r.nxt <= p.sn < r.nxt + wnd {
      ParseDataKeeps(r.(acks := r.acks + [Ack(p.sn, p.ts)]), wnd, p);
    } else {
      assert Timediff(p.sn, Add32(r.nxt, wnd)) >= 0 || Timediff(p.sn, r.nxt) < 0;
    }
  }

  /** Handing one segment to the application frees a slot and keeps the window. */
  lemma RecvKeeps(k: Kcp)
    requires KcpInv(k) && InRange(k)
    ensures var (k', got) := RecvOwned(k);
            && KcpInv(k') && k'.snd == k.snd && k'.box == k.box && k'.cfg == k.cfg
            && k'.rcv.nxt >= k.rcv.nxt && k'.rcv.acks == k.rcv.acks
            && (forall sn: u32 :: Received(k'.rcv, sn) <==> Received(k.rcv, sn))
            && (got.Ok? ==> k.rcv.queue != [] && k.rcv.queue[0].data == got.value
                            && Base(k'.rcv) == Base(k.rcv) + 1
                            && [k.rcv.queue[0]] + (k'.rcv.queue + k'.rcv.buf) == k.rcv.queue + k.rcv.buf)
            && (got.Err? ==> k' == k)
  {
    hide MoveBuf, Clean, SenderInv, PayloadInv;
    if k.rcv.queue != [] && k.rcv.queue[0].frg == 0 {
      var r := k.rcv.(queue := k.rcv.queue[1..]);
      assert forall i :: 0 <= i < |r.queue| ==> r.queue[i] == k.rcv.queue[i + 1];
      MoveBufKeeps(r, k.cfg.rcvWnd);
      assert [k.rcv.queue[0]] + (r.queue + r.buf) == k.rcv.queue + k.rcv.buf;
    }
  }

  // --------------------------------------------------------------- send half

  /** `una` releases exactly the segments below it. */
  lemma {:induction false} UnaExact(buf: seq<Segment>, una: u32)
    requires SortedSegments(buf) && una < TWO31
    requires forall i :: 0 <= i < |buf| ==> buf[i].pkt.sn < TWO31
    ensures var n := UnaCount(buf, una);
            && (forall i :: 0 <= i < n ==> buf[i].pkt.sn < una)
            && (forall i :: n <= i < |buf| ==> una <= buf[i].pkt.sn)
  {
    if buf != [] && una > buf[0].pkt.sn {
      UnaExact(buf[1..], una);
      assert forall i :: 1 <= i < |buf| ==> buf[i] == buf[1..][i - 1];
    }
  }

  lemma UnaKeeps(s: Sender, c: Config, n: nat)
    requires SenderInv(s, c.sndWnd) && PayloadInv(s, c) && n <= |s.buf|
    ensures var s' := Shrink(s.(buf := s.buf[n..]));
            SenderInv(s', c.sndWnd) && PayloadInv(s', c) && s'.una >= s.una
  {
  }

  lemma {:induction false} AckIndexExact(buf: seq<Segment>, sn: u32)
    ensures var i := AckIndex(buf, sn);
            && (forall j :: 0 <= j < i ==> buf[j].pkt.sn < sn)
            && (i < |buf| ==> sn <= buf[i].pkt.sn)
  {
    if buf != [] && sn > buf[0].pkt.sn {
      AckIndexExact(buf[1..], sn);
      assert forall i :: 1 <= i < |buf| ==> buf[i] == buf[1..][i - 1];
    }
  }

  lemma RemoveAt(buf: seq<Segment>, i: nat)
    requires SortedSegments(buf) && i < |buf|
    ensures var b := buf[..i] + buf[i + 1..];
            SortedSegments(b) && forall seg :: seg in b <==> seg in buf && seg.pkt.sn != buf[i].pkt.sn
  {
    var b := buf[..i] + buf[i + 1..];
    assert forall j :: 0 <= j < |b| ==> b[j] == buf[if j < i then j else j + 1];
    forall seg | seg in buf && seg.pkt.sn != buf[i].pkt.sn ensures seg in b {
      var j :| 0 <= j < |buf| && buf[j] == seg;
      assert b[if j < i then j else j - 1] == seg;
    }
  }

  /** A selective acknowledgement removes exactly the segment it names. */
  lemma ParseAckExact(s: Sender, wnd: u16, sn: u32)
    requires SenderInv(s, wnd)
    ensures var s' := ParseAck(s, sn);
            && SortedSegments(s'.buf)
            && s'.una == s.una && s'.nxt == s.nxt && s'.queue == s.queue
            && (forall seg :: seg in s'.buf <==> seg in s.buf && seg.pkt.sn != sn)
  {
    hide AckIndex;
    AckIndexExact(s.buf, sn);
    var i := AckIndex(s.buf, sn);
    if i < |s.buf| && s.buf[i].pkt.sn == sn {
      assert s.una <= sn < s.nxt;
      RemoveAt(s.buf, i);
    } else {
      forall seg | seg in s.buf ensures seg.pkt.sn != sn {
        var j :| 0 <= j < |s.buf| && s.buf[j] == seg;
        if i < j {
          assert s.buf[i].pkt.sn < s.buf[j].pkt.sn;
        }
      }
    }
  }

  lemma ParseAckKeeps(s: Sender, c: Config, sn: u32)
    requires SenderInv(s, c.sndWnd) && PayloadInv(s, c)
    ensures var s' := Shrink(ParseAck(s, sn));
            && SenderInv(s', c.sndWnd) && PayloadInv(s', c) && s'.una >= s.una
            && s'.nxt == s.nxt && s'.queue == s.queue
            && (forall seg :: seg in s'.buf <==> seg in s.buf && seg.pkt.sn != sn)
  {
    hide ParseAck;
    ParseAckExact(s, c.sndWnd, sn);
    var s1 := ParseAck(s, sn);
    forall i | 0 <= i < |s1.buf| ensures s1.buf[i] in s.buf {
      assert s1.buf[i] in s1.buf;
    }
  }

  /** Equal in everything but what a retransmission restamps. */
  predicate SameButTimers(a: Segment, b: Segment) {
    a.pkt.conv == b.pkt.conv && a.pkt.cmd == b.pkt.cmd && a.pkt.frg == b.pkt.frg
    && a.pkt.sn == b.pkt.sn && a.pkt.data == b.pkt.data
  }

  predicate SamePackets(a: seq<Segment>, b: seq<Segment>) {
    |a| == |b| && forall i :: 0 <= i < |a| ==> SameButTimers(a[i], b[i])
  }

  /** Fast-retransmit credit touches no number and no payload. */
  lemma {:induction false} CreditKeeps(buf: seq<Segment>, sn: u32, ts: u32)
    ensures SamePackets(buf, Credit(buf, sn, ts))
  {
    if buf != [] && Timediff(sn, buf[0].pkt.sn) >= 0 {
      CreditKeeps(buf[1..], sn, ts);
      var c := Credit(buf, sn, ts);
      assert forall i :: 1 <= i < |buf| ==> buf[i] == buf[1..][i - 1] && c[i] == Credit(buf[1..], sn, ts)[i - 1];
    }
  }

  lemma SamePacketsKeeps(s: Sender, buf: seq<Segment>, c: Config)
    requires SenderInv(s, c.sndWnd) && PayloadInv(s, c) && SamePackets(s.buf, buf)
    ensures SenderInv(s.(buf := buf), c.sndWnd) && PayloadInv(s.(buf := buf), c)
  {
    forall i, j | 0 <= i < j < |buf| ensures buf[i].pkt.sn < buf[j].pkt.sn {
      assert SameButTimers(s.buf[i], buf[i]) && SameButTimers(s.buf[j], buf[j]);
    }
    forall i | 0 <= i < |buf| ensures SameButTimers(s.buf[i], buf[i]) {}
  }

  /** `fill_snd_buf` numbers the next `n` queued payloads consecutively; it stops
      only when the queue is empty or the window is full. */
  lemma {:induction false} FillShape(s: Sender, c: FillCtx, cwnd: u16) returns (n: nat)
    requires s.una <= s.nxt < TWO31 && s.una + cwnd < TWO31
    ensures n <= |s.queue|
    ensures var s' := Fill(s, c, cwnd);
            && s'.una == s.una && s'.nxt == s.nxt + n && s'.queue == s.queue[n..]
            && |s'.buf| == |s.buf| + n && s.buf <= s'.buf
            && (forall i :: 0 <= i < n ==> s'.buf[|s.buf| + i] == Admit(c, s.nxt + i, s.queue[i]))
    ensures n > 0 ==> s.nxt + n <= s.una + cwnd
    ensures n == |s.queue| || s.nxt + n >= s.una + cwnd
    decreases |s.queue|
  {
    n := 0;
    if s.queue != [] && Timediff(s.nxt, Add32(s.una, cwnd)) < 0 {
      assert s.nxt < s.una + cwnd;
      var s1 := Sender(s.una, s.nxt + 1, s.queue[1..], s.buf + [Admit(c, s.nxt, s.queue[0])]);
      var m := FillShape(s1, c, cwnd);
      n := m + 1;
      var s' := Fill(s1, c, cwnd);
      assert s1.queue[m..] == s.queue[n..];
      assert s'.buf[|s.buf|] == s1.buf[|s.buf|];
      forall i | 1 <= i < n ensures s'.buf[|s.buf| + i] == Admit(c, s.nxt + i, s.queue[i]) {
        assert s'.buf[|s1.buf| + (i - 1)] == Admit(c, s1.nxt + (i - 1), s1.queue[i - 1]);
      }
    }
  }

  /** `s'` is `s` after its next `n` queued payloads were numbered and buffered. */
  predicate Admitted(s: Sender, s': Sender, n: nat) {
    && n <= |s.queue| && s'.una == s.una && s'.nxt == s.nxt + n && s'.queue == s.queue[n..]
    && |s'.buf| == |s.buf| + n && s.buf <= s'.buf
    && forall j :: |s.buf| <= j < |s'.buf| ==>
         s'.buf[j].pkt.sn == s.nxt + (j - |s.buf|) && s'.buf[j].pkt.data == s.queue[j - |s.buf|]
  }

  lemma FillKeeps(k: Kcp) returns (n: nat)
    requires KcpInv(k) && InRange(k)
    ensures var s := Fill(k.snd, FillCtxOf(k), SendWindow(k));
            Admitted(k.snd, s, n) && SenderInv(s, k.cfg.sndWnd) && PayloadInv(s, k.cfg)
  {
    hide Fill, CleanBox, ReceiverInv;
    var c, a := FillCtxOf(k), k.snd;
    n := FillShape(a, c, SendWindow(k));
    var s := Fill(a, c, SendWindow(k));
    forall i | 0 <= i < |s.buf|
      ensures s.buf[i] == if i < |a.buf| then a.buf[i] else Admit(c, a.nxt + (i - |a.buf|), a.queue[i - |a.buf|])
    {
      if i >= |a.buf| {
        assert s.buf[|a.buf| + (i - |a.buf|)] == Admit(c, a.nxt + (i - |a.buf|), a.queue[i - |a.buf|]);
      }
    }
  }
}
