/** The congestion window over every run of acknowledgements, timeouts and fast
    retransmits. */
module KcpCongestion {
  import opened Words
  import opened KcpWire
  import opened KcpSpec
  import opened KcpWindow
  import opened KcpRun
  import A = KcpAlone
  import O = KcpOps
  import H = KcpHears

  predicate CcInv(c: Congestion, mss: nat) {
    c.ssthresh >= THRESH_MIN && c.incr < Times(c.cwnd + 1, mss)
  }

  lemma QuotientBound(a: nat, b: nat)
    requires b > 0
    ensures Quotient(a, b) * b <= a
  {
  }

  lemma TimesMonotone(a: nat, b: nat, m: nat)
    requires a <= b
    ensures Times(a, m) <= Times(b, m)
  {
  }

  lemma MulLe(a: nat, b: nat, c: nat, d: nat)
    requires a <= b && c <= d
    ensures a * c <= b * d
  {
    assert a * c <= b * c <= b * d;
  }

  /** Once the byte counter is worth a window step, the step is small. */
  lemma SmallStep(mss: nat, incr0: nat)
    requires mss > 0 && incr0 >= mss
    ensures Quotient(Times(mss, mss), incr0) <= mss
    ensures 2 * incr0 >= 3 * mss ==> 3 * Quotient(Times(mss, mss), incr0) <= 2 * mss
  {
    hide Quotient;
    var q := Quotient(Times(mss, mss), incr0);
    QuotientBound(Times(mss, mss), incr0);
    assert (mss + 1) * mss == mss * mss + mss;
    assert (2 * mss + 1) * (3 * mss) == 6 * (mss * mss) + 3 * mss;
    assert (3 * q) * (2 * incr0) == 6 * (q * incr0);
    if q > mss {
      MulLe(mss + 1, q, mss, incr0);
    }
    if 2 * incr0 >= 3 * mss && 3 * q > 2 * mss {
      MulLe(2 * mss + 1, 3 * q, 3 * mss, 2 * incr0);
    }
  }

  /** Congestion avoidance: the counter stays below the next window. */
  lemma AvoidanceStep(c: Congestion, mss: nat)
    requires mss > 0 && CcInv(c, mss) && c.cwnd >= 2
    ensures var incr0 := Max(c.incr, mss);
            var incr := incr0 + Quotient(Times(mss, mss), incr0) + mss / 16;
            Times(c.cwnd + 1, mss) <= incr ==>
              incr < Times(c.cwnd + 2, mss) && c.cwnd + 1 <= CeilDiv(incr, mss) <= c.cwnd + 2
  {
    hide Quotient, CeilDiv, Times;
    var incr0 := Max(c.incr, mss);
    var incr := incr0 + Quotient(Times(mss, mss), incr0) + mss / 16;
    SmallStep(mss, incr0);
    TimesNext(c.cwnd + 1, mss);
    TimesNext(c.cwnd, mss);
    TimesNext(1, mss);
    TimesNext(0, mss);
    TimesMonotone(2, c.cwnd, mss);
    CeilBound(incr, mss, c.cwnd);
    CeilBound(incr, mss, c.cwnd + 2);
    assert Times(0, mss) == 0 by { TimesZero(mss); }
  }

  /** A batch of acknowledgements never lowers the window, widens it by at most
      two segments, and never past what the peer advertises. */
  lemma AcksKeep(c: Congestion, mss: nat, rmtWnd: u16, advanced: bool)
    requires mss > 0 && CcInv(c, mss)
    ensures var c' := UpdateCwnd(c, mss, rmtWnd, advanced);
            && CcInv(c', mss) && c.cwnd <= c'.cwnd <= c.cwnd + 2
            && (c'.cwnd != c.cwnd ==> c'.cwnd <= rmtWnd)
  {
    hide Quotient, CeilDiv, Times;
    TimesNext(c.cwnd, mss);
    TimesNext(c.cwnd + 1, mss);
    TimesNext(c.cwnd + 2, mss);
    TimesNext(rmtWnd, mss);
    if c.cwnd >= 2 {
      AvoidanceStep(c, mss);
      var incr0 := Max(c.incr, mss);
      var incr := incr0 + Quotient(Times(mss, mss), incr0) + mss / 16;
      CeilBound(incr, mss, CeilDiv(incr, mss));
      TimesNext(CeilDiv(incr, mss), mss);
    }
  }

  // ------------------------------------------------------------- it grows

  /** What an advancing batch adds to the byte counter in congestion avoidance: a
      sixteenth of a segment, and a segment's square over the counter, rounded down. */
  predicate Gains(was: nat, now: nat, mss: nat) {
    var extra := now - Max(was, mss) - mss / 16;
    extra >= 0 && extra * Max(was, mss) <= mss * mss < (extra + 1) * Max(was, mss)
  }

  lemma QuotientExact(a: nat, b: nat)
    requires b > 0
    ensures Quotient(a, b) * b <= a < (Quotient(a, b) + 1) * b
  {
  }

  /** One batch: without progress nothing changes, nor once the peer's window is
      reached. Below the threshold progress adds exactly one segment; above it the
      counter gains, and the window follows when the counter is worth a segment more. */
  lemma AckGrowth(c: Congestion, mss: nat, rmtWnd: u16, advanced: bool)
    requires mss > 0 && CcInv(c, mss)
    ensures var c' := UpdateCwnd(c, mss, rmtWnd, advanced);
            if !advanced || c.cwnd >= rmtWnd then c' == c
            else if c.cwnd < c.ssthresh then c' == Congestion(c.cwnd + 1, c.ssthresh, c.incr + mss)
            else exists now: nat ::
                && Gains(c.incr, now, mss) && c'.ssthresh == c.ssthresh
                && (c'.cwnd > c.cwnd <==> now >= Times(c.cwnd + 1, mss))
                && (c'.cwnd > c.cwnd ==> c'.cwnd == rmtWnd || Times(c'.cwnd - 1, mss) < now <= Times(c'.cwnd, mss))
                && (c'.incr == now || (c'.cwnd == rmtWnd && c'.incr == Times(rmtWnd, mss)))
  {
    hide Quotient, CeilDiv, Times;
    AcksKeep(c, mss, rmtWnd, advanced);
    if advanced && c.ssthresh <= c.cwnd < rmtWnd {
      var base := Max(c.incr, mss);
      var now: nat := base + Quotient(Times(mss, mss), base) + mss / 16;
      QuotientExact(Times(mss, mss), base);
      TimesIs(mss, mss);
      assert Gains(c.incr, now, mss);
      AvoidanceStep(c, mss);
      CeilBound(now, mss, CeilDiv(now, mss));
      if CeilDiv(now, mss) > 0 {
        CeilBound(now, mss, CeilDiv(now, mss) - 1);
      }
      hide Gains;
    }
  }

  lemma TimesIs(a: nat, b: nat)
    ensures Times(a, b) == a * b
  {
  }

  /** The counter gains a sixteenth of a segment at least, unless the window is open. */
  lemma OneGain(c: Congestion, mss: nat, rmtWnd: u16)
    requires mss > 0 && CcInv(c, mss)
    ensures var c' := UpdateCwnd(c, mss, rmtWnd, true);
            CcInv(c', mss) && (c'.cwnd >= rmtWnd || c'.incr >= c.incr + mss / 16)
  {
    AcksKeep(c, mss, rmtWnd, true);
    AckGrowth(c, mss, rmtWnd, true);
    hide UpdateCwnd, Times, CcInv;
  }

  function Batches(c: Congestion, mss: nat, rmtWnd: u16, n: nat): Congestion
    requires mss > 0
  {
    if n == 0 then c else UpdateCwnd(Batches(c, mss, rmtWnd, n - 1), mss, rmtWnd, true)
  }

  lemma {:induction false} BatchesGain(c: Congestion, mss: nat, rmtWnd: u16, n: nat)
    requires mss > 0 && CcInv(c, mss)
    ensures var c' := Batches(c, mss, rmtWnd, n);
            && CcInv(c', mss) && c.cwnd <= c'.cwnd <= Max(c.cwnd, rmtWnd)
            && (c'.cwnd >= rmtWnd || c'.incr >= Times(n, mss / 16))
  {
    hide UpdateCwnd, Times, CcInv;
    if n == 0 {
      TimesZero(mss / 16);
    } else {
      BatchesGain(c, mss, rmtWnd, n - 1);
      var c1 := Batches(c, mss, rmtWnd, n - 1);
      OneGain(c1, mss, rmtWnd);
      AcksKeep(c1, mss, rmtWnd, true);
      TimesNext(n - 1, mss / 16);
    }
  }

  /** Thirty-one sixteenths, rounded down, are at least a segment. */
  lemma Enough(mss: nat, n: nat, w: nat)
    requires mss >= 16 && n >= 31 * w
    ensures Times(n, mss / 16) >= Times(w, mss)
  {
    var q := mss / 16;
    assert 31 * q >= mss;
    MulLe(31 * w, n, q, q);
    MulLe(w, w, mss, 31 * q);
    assert (31 * w) * q == w * (31 * q);
  }

  lemma Contradicts(c: Congestion, mss: nat, n: nat, w: nat)
    requires mss >= 16 && n >= 31 * w && CcInv(c, mss) && c.cwnd < w
    ensures c.incr < Times(n, mss / 16)
  {
    Enough(mss, n, w);
    TimesMonotone(c.cwnd + 1, w, mss);
  }

  /** Segments of sixteen bytes and more: 31 advancing batches for each segment of the
      peer's window open it fully, and 31 for each segment of the own window and one
      more widen that by at least one. */
  lemma WindowOpens(c: Congestion, mss: nat, rmtWnd: u16, n: nat)
    requires mss >= 16 && CcInv(c, mss)
    ensures n >= 31 * rmtWnd ==> Batches(c, mss, rmtWnd, n).cwnd == Max(c.cwnd, rmtWnd)
    ensures c.cwnd < rmtWnd && n >= 31 * (c.cwnd + 1) ==> Batches(c, mss, rmtWnd, n).cwnd > c.cwnd
  {
    hide Batches, Times, CcInv;
    BatchesGain(c, mss, rmtWnd, n);
    var c' := Batches(c, mss, rmtWnd, n);
    if n >= 31 * rmtWnd && c'.cwnd < rmtWnd {
      Contradicts(c', mss, n, rmtWnd);
    }
    if c.cwnd < rmtWnd && n >= 31 * (c.cwnd + 1) && c'.cwnd == c.cwnd {
      Contradicts(c', mss, n, c.cwnd + 1);
    }
  }

  /** Above the threshold and below the peer's window, progress changes nothing if and
      only if a segment has fewer than sixteen bytes and the counter exceeds its square. */
  lemma StuckExactly(c: Congestion, mss: nat, rmtWnd: u16)
    requires mss > 0 && CcInv(c, mss) && c.ssthresh <= c.cwnd < rmtWnd
    ensures UpdateCwnd(c, mss, rmtWnd, true) == c <==> mss < 16 && c.incr > mss * mss
  {
    AckGrowth(c, mss, rmtWnd, true);
    AcksKeep(c, mss, rmtWnd, true);
    hide UpdateCwnd;
    var now: nat :| Gains(c.incr, now, mss) && (UpdateCwnd(c, mss, rmtWnd, true).cwnd > c.cwnd <==> now >= Times(c.cwnd + 1, mss))
      && (UpdateCwnd(c, mss, rmtWnd, true).incr == now
          || (UpdateCwnd(c, mss, rmtWnd, true).cwnd == rmtWnd
              && UpdateCwnd(c, mss, rmtWnd, true).incr == Times(rmtWnd, mss)));
    StuckGain(c.incr, now, mss);
  }

  lemma StuckGain(was: nat, now: nat, mss: nat)
    requires mss > 0 && Gains(was, now, mss)
    ensures now >= was && (now == was <==> mss < 16 && was > mss * mss)
  {
    var base := Max(was, mss);
    var extra := now - base - mss / 16;
    if extra > 0 {
      MulLe(1, extra, base, base);
    }
    if was > mss * mss {
      MulLe(1, mss, mss, mss);
    }
  }

  /** So a window can stay closed for good, whatever is acknowledged: for every segment
      size below sixteen there is such a state. */
  lemma StuckForGood(mss: nat, rmtWnd: u16, n: nat) returns (c: Congestion)
    requires 0 < mss < 16 && rmtWnd > mss + 1
    ensures CcInv(c, mss) && c.cwnd == mss + 1 && Batches(c, mss, rmtWnd, n) == c
  {
    c := Congestion(mss + 1, 2, (mss + 1) * mss);
    StaysStuck(c, mss, rmtWnd, n);
  }

  lemma {:induction false} StaysStuck(c: Congestion, mss: nat, rmtWnd: u16, n: nat)
    requires 0 < mss < 16 && CcInv(c, mss) && c.ssthresh <= c.cwnd < rmtWnd && c.incr > mss * mss
    ensures Batches(c, mss, rmtWnd, n) == c
  {
    if n > 0 {
      StaysStuck(c, mss, rmtWnd, n - 1);
      StuckExactly(c, mss, rmtWnd);
    }
  }

  /** The bookkeeping after a flush leaves a window of at least one segment and a
      threshold of at least two. */
  lemma FlushKeeps(c: Congestion, mss: nat, change: nat, resent: u32, lost: bool, prior: u16, inflight: u32)
    requires mss > 0 && CcInv(c, mss)
    ensures var c' := UpdateSsthresh(c, mss, change, resent, lost, prior, inflight);
            CcInv(c', mss) && c'.cwnd >= 1
  {
    hide Times;
    forall n: nat ensures Times(n + 1, mss) == Times(n, mss) + mss {
      TimesNext(n, mss);
    }
    TimesZero(mss);
    assert Times(2, mss) == Times(1, mss) + mss && Times(1, mss) == Times(0, mss) + mss;
  }

  /** What a fast retransmit without a timeout leaves: the threshold plus the
      fast-resend count for every amount in flight, if and only if the count is at
      most 32768. Above that some amount in flight wraps the sixteen-bit sum, and the
      window ends up below the threshold. */
  lemma FastResendFits(c: Congestion, mss: nat, change: nat, resent: u32, prior: u16)
    requires change > 0 && resent > 0
    ensures (forall inflight: u32 ::
               var c' := UpdateSsthresh(c, mss, change, resent, false, prior, inflight);
               c'.cwnd == c'.ssthresh + resent)
            <==> resent <= 0x8000
    ensures (forall inflight: u32 ::
               var c' := UpdateSsthresh(c, mss, change, resent, false, prior, inflight);
               c'.cwnd >= c'.ssthresh)
            <==> resent <= 0x8000
  {
    hide Times;
    if resent > 0x8000 {
      var c' := UpdateSsthresh(c, mss, change, resent, false, prior, 0xFFFF);
      assert c'.ssthresh == 0x7FFF && c'.cwnd < c'.ssthresh;
    }
  }

  /** What the counters of the engine promise at any point of a run. */
  predicate CongestionInv(k: Kcp) {
    CcInv(k.cc, k.cfg.mss)
  }

  lemma {:induction false} PacketsKeepCongestion(k: Kcp, ps: seq<Packet>)
    ensures OnPackets(k, ps).cc == k.cc && OnPackets(k, ps).cfg == k.cfg
    decreases |ps|
  {
    if ps != [] {
      PacketsKeepCongestion(OnPacket(k, ps[0]), ps[1..]);
    }
  }

  /** A datagram never lowers the window, and raises it at most to what the last of
      its segments advertises. */
  lemma InputCongestion(k: Kcp, d: bytes)
    requires k.cfg.mss > 0 && CongestionInv(k)
    ensures var k' := Input(k, d).0;
            && CongestionInv(k') && k'.cfg == k.cfg
            && k.cc.cwnd <= k'.cc.cwnd <= Max(k.cc.cwnd, H.WindowAfter(k.rmtWnd, Split(d, k.cfg.conv).packets))
  {
    hide UpdateCwnd, OnPackets, Split, ParseFastack, NewestAck, Times;
    H.InputWindow(k, d);
    if |d| >= OVERHEAD {
      var c := Split(d, k.cfg.conv);
      PacketsKeepCongestion(k, c.packets);
      var k1 := OnPackets(k, c.packets);
      AcksKeep(k1.cc, k.cfg.mss, k1.rmtWnd, Timediff(k1.snd.una, k.snd.una) > 0);
    }
  }

  lemma FlushCongestion(k: Kcp)
    requires k.cfg.mss > 0 && CongestionInv(k)
    ensures CongestionInv(FlushNow(k)) && FlushNow(k).cc.cwnd >= 1 && FlushNow(k).cfg == k.cfg
  {
    hide UpdateSsthresh, EmitAll, Emission, Fill, TransmitAll, CountKind, Times, Seal;
    var s := Fill(k.snd, FillCtxOf(k), SendWindow(k));
    var c := TxCtxOf(k);
    FlushKeeps(k.cc, k.cfg.mss, CountKind(s.buf, c, Fast), c.resent, CountKind(s.buf, c, Timeout) > 0, k.cc.cwnd,
               Sub32(s.nxt, s.una));
  }

  /** Of the owner's operations only a flush changes the window, and it leaves at
      least one segment. */
  lemma OwnerCongestion(e: Endpoint, op: Op)
    requires ConfigOk(e.k.cfg) && CongestionInv(e.k)
    ensures CongestionInv(Act(e, op).k) && Act(e, op).k.cfg == e.k.cfg
    ensures if Flushes(e.k, op) then Act(e, op).k.cc.cwnd >= 1 else Act(e, op).k.cc == e.k.cc
  {
    hide FlushNow, KcpSpec.SendOwned, MoveBuf, EmitAll, RetransmitSn, CcInv;
    FlushCongestion(e.k);
    if op.Update? {
      FlushCongestion(Tick(e.k, op.current).0);
    }
  }

  /** Whether side A, or B, has flushed before state `i`. */
  predicate FlushedA(run: seq<Net>, steps: seq<Step>, i: nat)
    requires i <= |steps| < |run|
  {
    exists j :: 0 <= j < i && steps[j].OwnerA? && Flushes(run[j].a.k, steps[j].op)
  }

  predicate FlushedB(run: seq<Net>, steps: seq<Step>, i: nat)
    requires i <= |steps| < |run|
  {
    exists j :: 0 <= j < i && steps[j].OwnerB? && Flushes(run[j].b.k, steps[j].op)
  }

  /** Over every run of two endpoints, from the window a fresh engine starts with:
      the threshold is at least two, the byte counter below the next window, and from
      a side's first flush on its window is at least one segment. */
  lemma {:induction false} CongestionRun(run: seq<Net>, steps: seq<Step>, i: nat)
    requires IsRun(run, steps) && i < |run|
    requires run[0].a.k.cc == Congestion(0, 2, 0) && run[0].b.k.cc == Congestion(0, 2, 0)
    ensures ConfigOk(run[i].a.k.cfg) && ConfigOk(run[i].b.k.cfg)
    ensures CongestionInv(run[i].a.k) && CongestionInv(run[i].b.k)
    ensures FlushedA(run, steps, i) ==> run[i].a.k.cc.cwnd >= 1
    ensures FlushedB(run, steps, i) ==> run[i].b.k.cc.cwnd >= 1
  {
    hide InRange, Act, Input, CongestionInv, ConfigOk, Flushes;
    if i == 0 {
      StartCongestion(run[0].a);
      StartCongestion(run[0].b);
    } else {
      CongestionRun(run, steps, i - 1);
      var s, s', step := run[i - 1], run[i], steps[i - 1];
      assert Next(s, s', step);
      PositiveMss(s.a.k.cfg);
      PositiveMss(s.b.k.cfg);
      match step
      case OwnerA(op) => OwnerCongestion(s.a, op);
      case OwnerB(op) => OwnerCongestion(s.b, op);
      case ToA(d) => InputCongestion(s.a.k, d);
      case ToB(d) => InputCongestion(s.b.k, d);
    }
  }

  lemma PositiveMss(c: Config)
    requires ConfigOk(c)
    ensures c.mss > 0
  {
  }

  lemma StartCongestion(e: Endpoint)
    requires Fresh(e) && e.k.cc == Congestion(0, 2, 0)
    ensures CongestionInv(e.k) && ConfigOk(e.k.cfg)
  {
  }

  // ------------------------------------------------------- growth in a life

  lemma InputCc(k: Kcp, d: bytes)
    requires KcpInv(k) && InRange(k) && k.cfg.mss > 0
    ensures var (k', error) := Input(k, d);
            k'.cc == if error.None? then UpdateCwnd(k.cc, k.cfg.mss, k'.rmtWnd, k'.snd.una > k.snd.una) else k.cc
  {
    hide UpdateCwnd, OnPackets, Split, NewestAck, KcpInv, InRange, Timediff, Credit;
    if |d| >= OVERHEAD {
      var ps := Split(d, k.cfg.conv).packets;
      PacketsKeepCongestion(k, ps);
      PacketsForward(k, ps);
    }
  }

  lemma PacketsForward(k: Kcp, ps: seq<Packet>)
    requires KcpInv(k) && InRange(k)
    ensures var una := OnPackets(k, ps).snd.una; Timediff(una, k.snd.una) > 0 <==> una > k.snd.una
  {
    O.OnPacketsKeeps(k, ps);
    hide OnPackets, CleanBox, ReceiverInv, PayloadInv;
  }

  /** A whole datagram that acknowledges something new. */
  predicate Advances(k: Kcp, e: A.Event) {
    k.cfg.mss > 0 && e.Hear? && Input(k, e.d).1.None? && Input(k, e.d).0.snd.una > k.snd.una
  }

  /** How many of the events from `i` to `j` do. */
  function Advancing(states: seq<Kcp>, events: seq<A.Event>, i: nat, j: nat): nat
    requires i <= j <= |events| < |states|
  {
    if i == j then 0
    else Advancing(states, events, i, j - 1) + (if Advances(states[j - 1], events[j - 1]) then 1 else 0)
  }

  /** From state `i` to `j` there is no flush, and the peer advertises `w` throughout. */
  predicate Undisturbed(states: seq<Kcp>, events: seq<A.Event>, i: nat, j: nat, w: u16)
    requires i <= j <= |events| < |states|
  {
    forall m :: i <= m < j ==> Calm(states, events, m, w)
  }

  predicate Calm(states: seq<Kcp>, events: seq<A.Event>, m: nat, w: u16)
    requires m < |events| < |states|
  {
    A.FlushPoint(states[m], events[m]).None? && A.Advertised(states, events, m + 1) == w
  }

  lemma EventGain(k: Kcp, e: A.Event, w: u16)
    requires KcpInv(k) && InRange(k) && ConfigOk(k.cfg) && CcInv(k.cc, k.cfg.mss)
    requires A.FlushPoint(k, e).None? && A.Apply(k, e).rmtWnd == w
    ensures var k' := A.Apply(k, e);
            && CcInv(k'.cc, k.cfg.mss) && k.cc.cwnd <= k'.cc.cwnd
            && (Advances(k, e) ==> k'.cc.cwnd >= w || k'.cc.incr >= k.cc.incr + k.cfg.mss / 16)
            && (k'.cc == k.cc || k'.cc.cwnd >= w || k'.cc.incr >= k.cc.incr)
  {
    hide KcpInv, InRange, Input, UpdateCwnd, CcInv, A.FlushPoint;
    if e.Owner? {
      A.QuietIs(k, e);
    } else {
      InputCc(k, e.d);
      OneGain(k.cc, k.cfg.mss, w);
      AcksKeep(k.cc, k.cfg.mss, w, true);
      NoProgressNoChange(k.cc, k.cfg.mss, w);
    }
  }

  lemma NoProgressNoChange(c: Congestion, mss: nat, rmtWnd: u16)
    requires mss > 0
    ensures UpdateCwnd(c, mss, rmtWnd, false) == c
  {
  }

  lemma {:induction false} LifeGains(states: seq<Kcp>, events: seq<A.Event>, i: nat, j: nat, w: u16)
    requires A.IsLife(states, events) && i <= j < |states| && CcInv(states[i].cc, states[i].cfg.mss)
    requires Undisturbed(states, events, i, j, w)
    ensures var mss, cc := states[i].cfg.mss, states[j].cc;
            && states[j].cfg == states[i].cfg && CcInv(cc, mss) && states[i].cc.cwnd <= cc.cwnd
            && (cc.cwnd >= w || cc.incr >= Times(Advancing(states, events, i, j), mss / 16))
  {
    hide KcpInv, InRange, A.Apply, A.FlushPoint, A.Advertised, CcInv, Advances, Times, ConfigOk;
    if i == j {
      TimesZero(states[i].cfg.mss / 16);
    } else {
      assert Calm(states, events, j - 1, w);
      LifeGains(states, events, i, j - 1, w);
      A.WindowsAlwaysKept(states, events, j - 1, j - 1);
      A.WindowsAlwaysKept(states, events, j - 1, j);
      A.AdvertisedIs(states, events, j);
      var k, e := states[j - 1], events[j - 1];
      assert states[j] == A.Apply(k, e) && ConfigOk(k.cfg);
      EventGain(k, e, w);
      TimesNext(Advancing(states, events, i, j - 1), k.cfg.mss / 16);
    }
  }

  /** In every life, between flushes and while the peer advertises `w`: once 31 times
      `w` datagrams have acknowledged something new, the window is open to the peer's. */
  lemma LifeOpens(states: seq<Kcp>, events: seq<A.Event>, i: nat, j: nat, w: u16)
    requires A.IsLife(states, events) && i <= j < |states| && CcInv(states[i].cc, states[i].cfg.mss)
    requires Undisturbed(states, events, i, j, w) && states[i].cfg.mss >= 16
    ensures Advancing(states, events, i, j) >= 31 * w ==> states[j].cc.cwnd >= w
  {
    hide KcpInv, InRange, A.Apply, CcInv, Advances, Times, Undisturbed, Advancing;
    LifeGains(states, events, i, j, w);
    if Advancing(states, events, i, j) >= 31 * w && states[j].cc.cwnd < w {
      Contradicts(states[j].cc, states[i].cfg.mss, Advancing(states, events, i, j), w);
    }
  }
}
