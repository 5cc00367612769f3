/** The retransmission timer and the wake-up time: the round-trip estimator of
    section 2 of RFC 6298 in wrapping integer arithmetic, and `check`. */
module KcpTimers {
  import opened Words
  import opened KcpWire
  import opened KcpSpec

  const SAMPLE_LIMIT: int := 0x2000_0000

  /** The estimator after a list of samples. */
  function Feed(r: Rtt, interval: u32, minrto: u32, samples: seq<u32>): Rtt {
    if samples == [] then r
    else UpdateAck(Feed(r, interval, minrto, samples[..|samples| - 1]), interval, minrto, samples[|samples| - 1])
  }

  /** The interval and the floor `set_nodelay` and the constructor leave in force. */
  predicate TimerConfig(interval: u32, minrto: u32) {
    10 <= interval <= 5000 && 30 <= minrto <= 100
  }

  const Unmeasured := Rtt(0, 0, 200)

  predicate Measured(r: Rtt, lo: u32, hi: u32) {
    lo <= r.srtt <= hi && r.rttval <= hi
  }

  /** Every intermediate value of one update fits `u32`, so nothing wraps. */
  predicate NoOverflow(r: Rtt, interval: u32, sample: u32) {
    var delta := if sample >= r.srtt then sample - r.srtt else r.srtt - sample;
    var rttval := if r.srtt == 0 then sample / 2 else (3 * r.rttval + delta) / 4;
    var srtt := if r.srtt == 0 then sample else Max(1, (7 * r.srtt + sample) / 8);
    && 3 * r.rttval + delta < TWO32 && 7 * r.srtt + sample < TWO32
    && 4 * rttval < TWO32 && srtt + Max(Max(interval, 4 * rttval), srtt / 8) < TWO32
  }

  lemma WrapSmall(x: nat)
    requires x < TWO32
    ensures Wrap32(x) == x
  {
  }

  /** The two weighted means stay within the range of what they average. */
  lemma Means(r: Rtt, sample: u32, lo: u32, hi: u32)
    requires lo <= sample <= hi < SAMPLE_LIMIT && Measured(r, lo, hi)
    ensures var delta := if sample >= r.srtt then sample - r.srtt else r.srtt - sample;
            3 * r.rttval + delta < TWO32 && (3 * r.rttval + delta) / 4 <= hi
    ensures 7 * r.srtt + sample < TWO32 && lo <= (7 * r.srtt + sample) / 8 <= hi
  {
  }

  /** The new state by its parts, where nothing wraps. */
  lemma SampleIs(r: Rtt, interval: u32, minrto: u32, sample: u32, lo: u32, hi: u32)
    requires TimerConfig(interval, minrto) && lo <= sample <= hi < SAMPLE_LIMIT
    requires r == Unmeasured || Measured(r, lo, hi)
    ensures NoOverflow(r, interval, sample) && Measured(UpdateAck(r, interval, minrto, sample), lo, hi)
  {
    hide Wrap32, Bound;
    var delta := if sample >= r.srtt then sample - r.srtt else r.srtt - sample;
    if r != Unmeasured {
      Means(r, sample, lo, hi);
      WrapSmall(3 * r.rttval + delta);
      WrapSmall(7 * r.srtt + sample);
    }
  }

  lemma OneSample(r: Rtt, interval: u32, minrto: u32, sample: u32, lo: u32, hi: u32)
    requires TimerConfig(interval, minrto) && lo <= sample <= hi < SAMPLE_LIMIT
    requires r == Unmeasured || Measured(r, lo, hi)
    ensures NoOverflow(r, interval, sample)
    ensures var r' := UpdateAck(r, interval, minrto, sample);
            && Measured(r', lo, hi)
            && Min(RTO_MAX, r'.srtt + r'.srtt / 8) <= r'.rto <= RTO_MAX && minrto <= r'.rto
  {
    SampleIs(r, interval, minrto, sample, lo, hi);
    hide Wrap32, NoOverflow;
    var r' := UpdateAck(r, interval, minrto, sample);
    WrapSmall(4 * r'.rttval);
  }

  /** For any samples between `lo` and `hi` no step of the estimator overflows, the
      smoothed value stays between them, and the timeout keeps its headroom of an
      eighth below the cap. */
  lemma {:induction false} EstimatorBounds(interval: u32, minrto: u32, samples: seq<u32>, lo: u32, hi: u32)
    requires TimerConfig(interval, minrto) && samples != []
    requires lo <= hi < SAMPLE_LIMIT && forall i :: 0 <= i < |samples| ==> lo <= samples[i] <= hi
    ensures NoOverflow(Feed(Unmeasured, interval, minrto, samples[..|samples| - 1]), interval, samples[|samples| - 1])
    ensures var r := Feed(Unmeasured, interval, minrto, samples);
            && Measured(r, lo, hi)
            && Min(RTO_MAX, r.srtt + r.srtt / 8) <= r.rto <= RTO_MAX && minrto <= r.rto
  {
    hide UpdateAck, NoOverflow, Measured;
    var front := samples[..|samples| - 1];
    if front == [] {
      assert Feed(Unmeasured, interval, minrto, front) == Unmeasured;
    } else {
      EstimatorBounds(interval, minrto, front, lo, hi);
    }
    OneSample(Feed(Unmeasured, interval, minrto, front), interval, minrto, samples[|samples| - 1], lo, hi);
  }

  lemma SteadySample(r: Rtt, interval: u32, minrto: u32, rtt: u32)
    requires TimerConfig(interval, minrto) && rtt < SAMPLE_LIMIT
    requires r == Unmeasured || (r.srtt == rtt && r.rttval <= rtt)
    ensures var r' := UpdateAck(r, interval, minrto, rtt);
            && r'.srtt == rtt
            && r'.rttval <= (if r == Unmeasured then rtt / 2 else Max(0, r.rttval - 1))
            && (r'.rttval == 0 ==> r'.rto == Bound(minrto, rtt + Max(interval, rtt / 8), RTO_MAX))
  {
    hide Wrap32;
    if r != Unmeasured {
      WrapSmall(3 * r.rttval);
      WrapSmall(7 * rtt + rtt);
    }
    WrapSmall(4 * UpdateAck(r, interval, minrto, rtt).rttval);
  }

  /** A constant stream of samples: the estimate is exact at once, and after at
      most `rtt / 2 + 1` samples the timeout has settled on it plus the larger of
      the flush interval and an eighth. */
  lemma {:induction false} ConstantStream(interval: u32, minrto: u32, rtt: u32, samples: seq<u32>)
    requires TimerConfig(interval, minrto) && rtt < SAMPLE_LIMIT && samples != []
    requires forall i :: 0 <= i < |samples| ==> samples[i] == rtt
    ensures var r := Feed(Unmeasured, interval, minrto, samples);
            && r.srtt == rtt
            && r.rttval <= Max(0, rtt / 2 + 1 - |samples|)
            && (|samples| > rtt / 2 ==> r.rto == Bound(minrto, rtt + Max(interval, rtt / 8), RTO_MAX))
  {
    hide UpdateAck, Bound;
    var front := samples[..|samples| - 1];
    if front == [] {
      assert Feed(Unmeasured, interval, minrto, front) == Unmeasured;
    } else {
      ConstantStream(interval, minrto, rtt, front);
    }
    SteadySample(Feed(Unmeasured, interval, minrto, front), interval, minrto, rtt);
  }

  // ---------------------------------------------- how far one sample moves it

  function Distance(a: nat, b: nat): nat {
    if a <= b then b - a else a - b
  }

  predicate Between(x: nat, a: nat, b: nat) {
    a <= x <= b || b <= x <= a
  }

  /** `now` lies between `was` and `target`, one `n`th of the way, up to rounding. */
  predicate Moved(was: nat, target: nat, now: nat, n: nat) {
    && Between(now, was, target)
    && Distance(was, target) - (n - 1) <= n * Distance(was, now) <= Distance(was, target) + (n - 1)
  }

  lemma WeightedMean(was: nat, target: nat, now: nat, n: nat)
    requires (n == 8 && now == (7 * was + target) / 8) || (n == 4 && now == (3 * was + target) / 4)
    ensures Moved(was, target, now, n)
  {
  }

  /** The smallest timeout with all its margins, within its bounds. */
  predicate RtoIs(r: Rtt, interval: u32, minrto: u32) {
    && minrto <= r.rto <= RTO_MAX
    && Min(RTO_MAX, r.srtt + interval) <= r.rto && Min(RTO_MAX, r.srtt + 4 * r.rttval) <= r.rto
    && Min(RTO_MAX, r.srtt + r.srtt / 8) <= r.rto
    && (|| r.rto == minrto || r.rto == RTO_MAX
        || r.rto == r.srtt + interval || r.rto == r.srtt + 4 * r.rttval || r.rto == r.srtt + r.srtt / 8)
  }

  lemma RtoStep(r: Rtt, interval: u32, minrto: u32, sample: u32)
    requires TimerConfig(interval, minrto)
    requires var r' := UpdateAck(r, interval, minrto, sample); r'.srtt < SAMPLE_LIMIT && r'.rttval < SAMPLE_LIMIT
    ensures RtoIs(UpdateAck(r, interval, minrto, sample), interval, minrto)
  {
    hide Wrap32;
    var r' := UpdateAck(r, interval, minrto, sample);
    WrapSmall(4 * r'.rttval);
    assert r'.rto == Bound(minrto, Add32(r'.srtt, Max(Max(interval, 4 * r'.rttval), r'.srtt / 8)), RTO_MAX);
    hide UpdateAck;
  }

  /** One sample: the first is taken over with half of it as variation. Any other moves
      the estimate an eighth of the way to the sample, and the variation a quarter of
      the way to the sample's distance from the old estimate. */
  lemma EstimatorStep(r: Rtt, interval: u32, minrto: u32, sample: u32)
    requires TimerConfig(interval, minrto)
    requires r.srtt < SAMPLE_LIMIT && r.rttval < SAMPLE_LIMIT && sample < SAMPLE_LIMIT
    ensures var r' := UpdateAck(r, interval, minrto, sample);
            && (r.srtt == 0 ==> r'.srtt == sample && r'.rttval == sample / 2)
            && (r.srtt > 0 ==> Moved(r.srtt, sample, r'.srtt, 8) && Moved(r.rttval, Distance(sample, r.srtt), r'.rttval, 4))
            && RtoIs(r', interval, minrto)
  {
    var r', delta := UpdateAck(r, interval, minrto, sample), Distance(sample, r.srtt);
    WrapSmall(3 * r.rttval + delta);
    WrapSmall(7 * r.srtt + sample);
    hide Wrap32, Bound, Add32;
    if r.srtt > 0 {
      assert r'.rttval == (3 * r.rttval + delta) / 4 && r'.srtt == Max(1, (7 * r.srtt + sample) / 8);
      hide UpdateAck;
      WeightedMean(r.rttval, delta, r'.rttval, 4);
      MeanAtLeastOne(r.srtt, sample, r'.srtt);
    }
    RtoStep(r, interval, minrto, sample);
  }

  lemma MeanAtLeastOne(was: nat, target: nat, now: nat)
    requires was > 0 && now == Max(1, (7 * was + target) / 8)
    ensures Moved(was, target, now, 8)
  {
    WeightedMean(was, target, (7 * was + target) / 8, 8);
    if (7 * was + target) / 8 == 0 {
      assert was == 1 && target == 0;
    }
  }

  function Power(b: nat, n: nat): nat {
    if n == 0 then 1 else b * Power(b, n - 1)
  }

  lemma Scaled(p: nat, q: nat, a: int, b: int, c: int)
    requires 8 * a <= 7 * b && p * b <= q * c
    ensures (8 * p) * a <= (7 * q) * c
  {
    assert (8 * p) * a == p * (8 * a);
    assert p * (8 * a) <= p * (7 * b);
    assert p * (7 * b) == 7 * (p * b);
    assert (7 * q) * c == 7 * (q * c);
  }

  predicate AllEqual(samples: seq<u32>, b: u32) {
    forall i :: 0 <= i < |samples| ==> samples[i] == b
  }

  /** After a step in the round-trip time to `b`, the distance of the estimate from `b`
      shrinks by an eighth with each sample, up to a rounding of seven. */
  lemma {:induction false} EstimateConverges(r: Rtt, interval: u32, minrto: u32, samples: seq<u32>, b: u32)
    requires TimerConfig(interval, minrto) && AllEqual(samples, b)
    requires 0 < r.srtt < SAMPLE_LIMIT && r.rttval < SAMPLE_LIMIT && 0 < b < SAMPLE_LIMIT
    ensures var r', n := Feed(r, interval, minrto, samples), |samples|;
            && 0 < r'.srtt < SAMPLE_LIMIT && r'.rttval < SAMPLE_LIMIT && Between(r'.srtt, r.srtt, b)
            && Power(8, n) * (Distance(r'.srtt, b) - 7) <= Power(7, n) * (Distance(r.srtt, b) - 7)
  {
    hide UpdateAck, Moved, RtoIs;
    if samples != [] {
      var front, n := samples[..|samples| - 1], |samples|;
      EstimateConverges(r, interval, minrto, front, b);
      var r1 := Feed(r, interval, minrto, front);
      var r' := UpdateAck(r1, interval, minrto, b);
      assert samples[|samples| - 1] == b;
      EstimatorStep(r1, interval, minrto, b);
      MovedCloser(r1.srtt, b, r'.srtt);
      MovedStays(r1.rttval, Distance(b, r1.srtt), r'.rttval, 4);
      hide Power;
      assert Power(8, n) == 8 * Power(8, n - 1) && Power(7, n) == 7 * Power(7, n - 1) by { PowerNext(8, n); PowerNext(7, n); }
      Scaled(Power(8, n - 1), Power(7, n - 1), Distance(r'.srtt, b) - 7, Distance(r1.srtt, b) - 7, Distance(r.srtt, b) - 7);
    }
  }

  lemma PowerNext(b: nat, n: nat)
    requires n > 0
    ensures Power(b, n) == b * Power(b, n - 1)
  {
  }

  lemma MovedCloser(was: nat, target: nat, now: nat)
    requires Moved(was, target, now, 8)
    ensures Between(now, was, target) && 8 * (Distance(now, target) - 7) <= 7 * (Distance(was, target) - 7)
  {
  }

  lemma MovedStays(was: nat, target: nat, now: nat, n: nat)
    requires Moved(was, target, now, n)
    ensures now <= Max(was, target)
  {
  }

  // ------------------------------------------------------------------- check

  predicate ResendDue(buf: seq<Segment>, now: u32) {
    exists i :: 0 <= i < |buf| && Timediff(buf[i].resendts, now) <= 0
  }

  lemma {:induction false} ResendDelayExact(buf: seq<Segment>, now: u32)
    ensures var d := ResendDelay(buf, now);
            && (d.None? <==> ResendDue(buf, now))
            && (d.Some? ==>
                  && (forall i :: 0 <= i < |buf| ==> 0 < d.value <= Timediff(buf[i].resendts, now))
                  && (d.value == TWO32 - 1
                      || exists i :: 0 <= i < |buf| && d.value == Timediff(buf[i].resendts, now)))
  {
    if buf != [] {
      var front, last := buf[..|buf| - 1], buf[|buf| - 1];
      ResendDelayExact(front, now);
      assert forall i :: 0 <= i < |front| ==> front[i] == buf[i];
      assert buf[|buf| - 1] == last;
    }
  }

  /** When `check` says "now". */
  lemma CheckZero(k: Kcp, now: u32)
    requires k.cfg.interval > 0
    ensures Check(k, now) == 0 <==>
            !k.updated || Tick(k, now).1 || ResendDue(k.snd.buf, now)
  {
    hide ResendDelay, ResendDue;
    ResendDelayExact(k.snd.buf, now);
    EmptyDelay(k.snd.buf, now);
  }

  lemma EmptyDelay(buf: seq<Segment>, now: u32)
    ensures ResendDelay(buf, now).Some? ==> ResendDelay(buf, now).value > 0
  {
    ResendDelayExact(buf, now);
  }

  /** Sleeping as long as `check` says misses nothing: at every earlier instant,
      also across the clock's wrap, `update` would not flush and no segment is due
      for a timeout. */
  lemma CheckMissesNothing(k: Kcp, now: u32, dt: u32)
    requires k.updated && dt < Check(k, now)
    ensures !Tick(k, Add32(now, dt)).1
    ensures forall i :: 0 <= i < |k.snd.buf| ==> Timediff(Add32(now, dt), k.snd.buf[i].resendts) < 0
  {
    hide ResendDelay;
    ResendDelayExact(k.snd.buf, now);
  }

  /** The delay is not needlessly short: it is the interval, or the flush or some
      resend falls due exactly at its end. */
  lemma CheckIsTight(k: Kcp, now: u32)
    requires k.updated && Check(k, now) > 0
    ensures Check(k, now) <= k.cfg.interval
    ensures var d := Check(k, now);
            || d == k.cfg.interval
            || Tick(k, Add32(now, d)).1
            || exists i :: 0 <= i < |k.snd.buf| && Timediff(Add32(now, d), k.snd.buf[i].resendts) == 0
  {
    hide ResendDelay;
    ResendDelayExact(k.snd.buf, now);
    var d := Check(k, now);
    var resend := ResendDelay(k.snd.buf, now).value;
    if d == resend {
      var i :| 0 <= i < |k.snd.buf| && d == Timediff(k.snd.buf[i].resendts, now);
      assert Timediff(Add32(now, d), k.snd.buf[i].resendts) == 0;
    }
  }

  // ----------------------------------------------------------- the schedule

  /** When the next flush is due after `update`: at the old time if this call did not
      flush; one interval after the old time, whatever the delay of this call, if that
      delay was less than an interval; one interval from now otherwise. */
  lemma FlushCadence(k: Kcp, now: u32)
    requires TimerConfig(k.cfg.interval, k.cfg.minrto)
    ensures var (k', flushes) := Tick(k, now);
            var late := Timediff(now, k.tsFlush);
            && (flushes <==> !k.updated || late >= 0 || late < -10000)
            && k'.tsFlush == (if !flushes then k.tsFlush
                              else if k.updated && 0 <= late < k.cfg.interval then Add32(k.tsFlush, k.cfg.interval)
                              else Add32(now, k.cfg.interval))
            && (flushes ==> 0 < Timediff(k'.tsFlush, now) <= k.cfg.interval)
  {
  }

  /** A run of updates. */
  function Updates(k: Kcp, times: seq<u32>): Kcp {
    if times == [] then k else Update(Updates(k, times[..|times| - 1]), times[|times| - 1])
  }

  /** The clock at the `i`th deadline after `start`, and `late` milliseconds more. */
  function Deadline(start: u32, interval: u32, i: nat, late: nat): u32 {
    Wrap32(start + Times(i, interval) + late)
  }

  predicate InSlot(now: u32, start: u32, interval: u32, i: nat) {
    exists late :: 0 <= late < interval && now == Deadline(start, interval, i, late)
  }

  predicate OnSchedule(times: seq<u32>, start: u32, interval: u32) {
    forall i :: 0 <= i < |times| ==> InSlot(times[i], start, interval, i)
  }

  lemma WrapDistance(a: nat, d: nat)
    requires d < TWO31
    ensures Timediff(Wrap32(a + d), Wrap32(a)) == d && Add32(Wrap32(a), d) == Wrap32(a + d)
  {
  }

  /** Updates that each come after their deadline and before the next all flush, and
      their delays never add up: the schedule stays on its grid, across the clock's wrap. */
  lemma {:induction false} NoDrift(k: Kcp, times: seq<u32>)
    requires TimerConfig(k.cfg.interval, k.cfg.minrto) && k.updated && OnSchedule(times, k.tsFlush, k.cfg.interval)
    ensures var k' := Updates(k, times);
            k'.updated && k'.cfg == k.cfg && k'.tsFlush == Deadline(k.tsFlush, k.cfg.interval, |times|, 0)
    ensures times != [] ==> Tick(Updates(k, times[..|times| - 1]), times[|times| - 1]).1
  {
    hide Tick, FlushNow, Wrap32, Add32, Timediff, Times;
    if times == [] {
      TimesZero(k.cfg.interval);
      WrapSmall(k.tsFlush);
    } else {
      var front, n, interval := times[..|times| - 1], |times| - 1, k.cfg.interval;
      assert OnSchedule(front, k.tsFlush, interval) by {
        forall i | 0 <= i < |front| ensures InSlot(front[i], k.tsFlush, interval, i) {
          assert InSlot(times[i], k.tsFlush, interval, i);
        }
      }
      NoDrift(k, front);
      assert InSlot(times[n], k.tsFlush, interval, n);
      var k1, now := Updates(k, front), times[n];
      var late :| 0 <= late < interval && times[n] == Deadline(k.tsFlush, interval, n, late);
      var at := k.tsFlush + Times(n, interval);
      WrapDistance(at, late);
      WrapDistance(at, interval);
      TimesNext(n, interval);
      FlushCadence(k1, now);
      TickKeepsRest(k1, now);
      FlushKeepsClock(Tick(k1, now).0);
    }
  }

  lemma TickKeepsRest(k: Kcp, now: u32)
    ensures var k' := Tick(k, now).0; k'.updated && k'.cfg == k.cfg && k'.current == now
  {
  }

  // ------------------------------------------------------ update, then check

  /** A segment whose timer a pass at `c` leaves in the past: its timeout has backed
      off past the signed 32-bit range, or it is not touched and its timer is exactly
      half the clock's circle away. */
  predicate Runaway(seg: Segment, c: TxCtx) {
    match KindOf(seg, c)
    case First => false
    case Timeout =>
      var rto := Wrap32(seg.rto + if c.nodelay then seg.rto / 2 else Max(seg.rto, c.rto));
      rto == 0 || rto >= TWO31
    case Fast => seg.rto == 0 || seg.rto >= TWO31
    case Idle => Timediff(seg.resendts, c.current) == -TWO31
  }

  predicate AnyRunaway(buf: seq<Segment>, c: TxCtx) {
    exists i :: 0 <= i < |buf| && Runaway(buf[i], c)
  }

  lemma RearmedExact(seg: Segment, c: TxCtx)
    requires 0 < c.rto <= RTO_MAX && c.rtomin <= c.rto
    ensures Timediff(Transmit(seg, c).resendts, c.current) <= 0 <==> Runaway(seg, c)
  {
    hide Timediff, Add32, Wrap32;
    match KindOf(seg, c)
    case First =>
      AheadTwice(c.current, c.rto, c.rtomin);
    case Timeout =>
      var step := if c.nodelay then seg.rto / 2 else Max(seg.rto, c.rto);
      AddWraps(seg.rto, step);
      Ahead(c.current, Add32(seg.rto, step));
    case Fast =>
      Ahead(c.current, seg.rto);
    case Idle =>
      Mirrored(c.current, seg.resendts);
  }

  /** When `d` milliseconds from now is not in the future. */
  lemma Ahead(now: u32, d: u32)
    ensures Timediff(Add32(now, d), now) <= 0 <==> d == 0 || d >= TWO31
  {
  }

  lemma AheadTwice(now: u32, a: u32, b: u32)
    requires 0 < a + b < TWO31
    ensures Timediff(Add32(Add32(now, a), b), now) > 0
  {
  }

  lemma AddWraps(a: u32, b: u32)
    ensures Add32(a, b) == Wrap32(a + b)
  {
  }

  lemma Mirrored(a: u32, b: u32)
    ensures Timediff(a, b) < 0 ==> (Timediff(b, a) <= 0 <==> Timediff(b, a) == -TWO31)
  {
  }

  /** What was buffered stays in front, and what is admitted was never sent. */
  lemma {:induction false} FillBehind(s: Sender, c: FillCtx, cwnd: u16)
    ensures var buf := Fill(s, c, cwnd).buf;
            s.buf <= buf && forall i :: |s.buf| <= i < |buf| ==> buf[i].xmit == 0
    decreases |s.queue|
  {
    hide Timediff;
    if s.queue != [] && Timediff(s.nxt, Add32(s.una, cwnd)) < 0 {
      FillBehind(Sender(s.una, Add32(s.nxt, 1), s.queue[1..], s.buf + [Admit(c, s.nxt, s.queue[0])]), c, cwnd);
    }
  }

  /** After a flush a segment is due if and only if one of those buffered before has
      run away; every other timer runs into the future. */
  lemma FlushRearms(k: Kcp)
    requires 0 < k.rtt.rto <= RTO_MAX
    ensures ResendDue(FlushNow(k).snd.buf, k.current) <==> AnyRunaway(k.snd.buf, TxCtxOf(k))
  {
    FillBehind(k.snd, FillCtxOf(k), SendWindow(k));
    var buf, c := Fill(k.snd, FillCtxOf(k), SendWindow(k)).buf, TxCtxOf(k);
    hide Fill, Timediff, Transmit, SendWindow, FillCtxOf, Emission, EmitAll, UpdateSsthresh;
    forall i | 0 <= i < |buf|
      ensures Timediff(TransmitAll(buf, c)[i].resendts, k.current) <= 0 <==> i < |k.snd.buf| && Runaway(k.snd.buf[i], c)
    {
      RearmedExact(buf[i], c);
    }
    assert FlushNow(k).snd.buf == TransmitAll(buf, c);
  }

  lemma FlushKeepsClock(k: Kcp)
    ensures var k' := FlushNow(k);
            k'.cfg == k.cfg && k'.updated == k.updated && k'.tsFlush == k.tsFlush && k'.current == k.current
  {
  }

  /** A flush schedules the next one into the future. */
  lemma TickSettles(k: Kcp, now: u32)
    requires TimerConfig(k.cfg.interval, k.cfg.minrto)
    ensures var k1 := Tick(k, now).0;
            && k1.updated && k1.current == now && k1.cfg == k.cfg && k1.snd == k.snd && k1.rtt == k.rtt
            && -SLAP_LIMIT <= Timediff(now, k1.tsFlush) < 0
  {
  }

  lemma TickQuiet(k: Kcp, now: u32)
    requires k.updated && -SLAP_LIMIT <= Timediff(now, k.tsFlush) < 0
    ensures !Tick(k, now).1
  {
  }

  /** Right after `update`, `check` still says "now" if and only if that update was
      too early to flush and a resend is already due, or it flushed and a timer had
      run away: the cases in which a caller that trusts `check` would spin. */
  lemma UpdateThenCheck(k: Kcp, now: u32)
    requires TimerConfig(k.cfg.interval, k.cfg.minrto) && 0 < k.rtt.rto <= RTO_MAX
    ensures Check(Update(k, now), now) == 0 <==>
            if Tick(k, now).1 then AnyRunaway(k.snd.buf, TxCtxOf(Tick(k, now).0)) else ResendDue(k.snd.buf, now)
  {
    hide Tick, FlushNow, ResendDue, Check, Timediff, AnyRunaway, TxCtxOf;
    var k1, k' := Tick(k, now).0, Update(k, now);
    TickSettles(k, now);
    if Tick(k, now).1 {
      FlushRearms(k1);
      FlushKeepsClock(k1);
    }
    TickQuiet(k', now);
    CheckZero(k', now);
  }
}
