/** Window probes: how often an engine asks a peer whose receive window is closed. */
module KcpProbe {
  import opened Words
  import opened KcpWire
  import opened KcpSpec
  import opened KcpWindow
  import opened KcpOps
  import opened KcpAlone
  import H = KcpHears

  /** How long to wait after `n` probes: five seconds, half as long again after each
      probe, at most two minutes. */
  function Ladder(n: nat): (w: u32)
    ensures PROBE_INIT <= w <= PROBE_LIMIT
  {
    if n == 0 then PROBE_INIT else Min(Ladder(n - 1) + Ladder(n - 1) / 2, PROBE_LIMIT)
  }

  /** The waits rise strictly and reach the limit with the eighth probe. */
  lemma {:induction false} LadderTop(n: nat)
    ensures n < 8 <==> Ladder(n) < PROBE_LIMIT
    ensures Ladder(n) < Ladder(n + 1) <==> n < 8
  {
    if n == 0 {
    } else if n <= 8 {
      assert Ladder(1) == 7500 && Ladder(2) == 11250 && Ladder(3) == 16875 && Ladder(4) == 25312;
      assert Ladder(5) == 37968 && Ladder(6) == 56952 && Ladder(7) == 85428 && Ladder(8) == 120000;
    } else {
      LadderTop(n - 1);
    }
  }

  /** A flush from `k` puts a window probe on the wire. */
  predicate Asks(k: Kcp) {
    exists p :: p in Emission(k) && p.cmd == CMD_WASK
  }

  lemma NoProbeAmongData(k: Kcp, s: Sender, p: Packet)
    requires PayloadInv(s, k.cfg) && p in Due(s.buf, TxCtxOf(k))
    ensures p.cmd == CMD_PUSH
  {
    var c := TxCtxOf(k);
    DueFrom(s.buf, c, p);
    var i :| 0 <= i < |s.buf| && !KindOf(s.buf[i], c).Idle? && p == Transmit(s.buf[i], c).pkt;
    assert s.buf[i].pkt.cmd == CMD_PUSH;
  }

  lemma AsksOnlyByProbe(k: Kcp)
    requires KcpInv(k) && InRange(k)
    ensures Asks(k) <==> ProbeWndSize(k.probe, k.rmtWnd, k.current).ask
  {
    hide Due, ProbeWndSize, KcpInv, InRange, FillCtxOf, SendWindow, TxCtxOf, WndUnused, Fill;
    var s := Fill(k.snd, FillCtxOf(k), SendWindow(k));
    var n := FillKeeps(k);
    var wnd := WndUnused(k.rcv, k.cfg.rcvWnd);
    var acks := AckPackets(k.cfg.conv, wnd, k.rcv.nxt, k.rcv.acks);
    var probes := ProbePackets(ProbeWndSize(k.probe, k.rmtWnd, k.current), k.cfg.conv, wnd, k.rcv.nxt, k.rcv.acks);
    forall p | p in Emission(k) && p.cmd == CMD_WASK ensures p in probes {
      if p in Due(s.buf, TxCtxOf(k)) {
        NoProbeAmongData(k, s, p);
      }
    }
    if ProbeWndSize(k.probe, k.rmtWnd, k.current).ask {
      assert probes[0] in Emission(k) && probes[0].cmd == CMD_WASK;
    }
  }

  /** What the peer has been asked since its window was last found closed: how often,
      and when the wait that runs now began. */
  datatype Story = Story(asked: nat, since: Option<u32>)

  function Continued(story: Story, flush: Option<Kcp>, window: u16): Story {
    match flush
    case None => story
    case Some(k) =>
      if window != 0 then Story(0, None)
      else if story.since.None? then Story(0, Some(k.current))
      else if Asks(k) then Story(story.asked + 1, Some(k.current))
      else story
  }

  function Told(states: seq<Kcp>, events: seq<Event>, i: nat): Story
    requires i <= |events| < |states|
  {
    if i == 0 then Story(0, None)
    else Continued(Told(states, events, i - 1), FlushPoint(states[i - 1], events[i - 1]), Advertised(states, events, i - 1))
  }

  /** The engine's probe timer is the story's. */
  predicate Tells(p: Probe, story: Story) {
    && !p.ask
    && match story.since
       case None => p.wait == 0
       case Some(t) => p.wait == Ladder(story.asked) && p.ts == Add32(t, Ladder(story.asked))
  }

  /** Nothing but a flush touches the probe timer. */
  lemma QuietKeepsTimer(k: Kcp, e: Event)
    requires ConfigOk(k.cfg) && FlushPoint(k, e).None?
    ensures H.SameTimer(k.probe, Apply(k, e).probe)
  {
    hide Input, FlushNow;
    if e.Hear? {
      H.InputProbe(k, e.d);
    } else {
      QuietIs(k, e);
    }
  }

  lemma FlushProbe(k: Kcp)
    ensures FlushNow(k).probe == ProbeWndSize(k.probe, k.rmtWnd, k.current).(ask := false, tell := false)
  {
    hide ProbeWndSize;
  }

  lemma TimerStep(k: Kcp, e: Event, story: Story)
    requires KcpInv(k) && InRange(k) && ConfigOk(k.cfg) && Tells(k.probe, story)
    ensures Tells(Apply(k, e).probe, Continued(story, FlushPoint(k, e), k.rmtWnd))
  {
    hide KcpInv, InRange, Apply, FlushPoint, Asks, ProbeWndSize, Timediff, Add32, Ladder, FlushNow;
    if FlushPoint(k, e).None? {
      QuietKeepsTimer(k, e);
    } else {
      FlushApplies(k, e);
      PointIs(k, e);
      PointKeeps(k, e);
      var f := FlushPoint(k, e).value;
      FlushProbe(f);
      AsksOnlyByProbe(f);
      LadderStep(f.probe, f.rmtWnd, f.current, story);
    }
  }

  /** The probe timer follows the story through every life. */
  lemma {:induction false} TimerTells(states: seq<Kcp>, events: seq<Event>, i: nat)
    requires IsLife(states, events) && i < |states| && Tells(states[0].probe, Story(0, None))
    ensures Tells(states[i].probe, Told(states, events, i))
  {
    hide KcpInv, InRange, Apply, FlushPoint, Tells, Continued, Advertised;
    if i > 0 {
      TimerTells(states, events, i - 1);
      WindowsAlwaysKept(states, events, 0, i - 1);
      AdvertisedIs(states, events, i - 1);
      assert states[i] == Apply(states[i - 1], events[i - 1]) && ConfigOk(states[i - 1].cfg);
      TimerStep(states[i - 1], events[i - 1], Told(states, events, i - 1));
    }
  }

  /** One flush by the story. */
  lemma LadderStep(p: Probe, rmtWnd: u16, now: u32, story: Story)
    requires Tells(p, story)
    ensures var p' := ProbeWndSize(p, rmtWnd, now);
            var asks := rmtWnd == 0 && story.since.Some?
                        && Timediff(now, Add32(story.since.value, Ladder(story.asked))) >= 0;
            && (p'.ask <==> asks)
            && Tells(p'.(ask := false, tell := false),
                     if rmtWnd != 0 then Story(0, None)
                     else if story.since.None? then Story(0, Some(now))
                     else if asks then Story(story.asked + 1, Some(now))
                     else story)
  {
    hide Timediff, Add32;
  }

  /** In every life, whatever arrives: a flush probes the peer if and only if the
      peer last advertised a closed window, an earlier flush found it so, and the wait
      has run out that began with that flush or with the last probe; the wait is five
      seconds, half as long again after each probe, and two minutes from the eighth on. */
  lemma ProbeBackoff(states: seq<Kcp>, events: seq<Event>, i: nat)
    requires IsLife(states, events) && i < |events| && Tells(states[0].probe, Story(0, None))
    requires FlushPoint(states[i], events[i]).Some?
    ensures var f, story := FlushPoint(states[i], events[i]).value, Told(states, events, i);
            Asks(f) <==>
            && Advertised(states, events, i) == 0 && story.since.Some?
            && Timediff(f.current, Add32(story.since.value, Ladder(story.asked))) >= 0
  {
    hide KcpInv, InRange, Apply, FlushPoint, Asks, ProbeWndSize, Timediff, Add32, Told, Advertised;
    TimerTells(states, events, i);
    AdvertisedIs(states, events, i);
    WindowsAlwaysKept(states, events, 0, i);
    var k, e := states[i], events[i];
    PointIs(k, e);
    PointKeeps(k, e);
    var f := FlushPoint(k, e).value;
    AsksOnlyByProbe(f);
    LadderStep(f.probe, f.rmtWnd, f.current, Told(states, events, i));
  }

  // ------------------------------------------------------------ answers

  /** The event makes an answer owed: the peer asks for the window, or the application
      takes a segment and so reopens a receive window that was closed. */
  predicate Owes(k: Kcp, e: Event)
    requires ConfigOk(k.cfg)
  {
    match e
    case Hear(d) => H.AsksWindow(Split(d, k.cfg.conv).packets)
    case Owner(op) => op.Recv? && |k.rcv.queue| >= k.cfg.rcvWnd && |Apply(k, e).rcv.queue| < k.cfg.rcvWnd
  }

  /** An answer was made owed before state `j`, and no flush came since. */
  predicate Outstanding(states: seq<Kcp>, events: seq<Event>, j: nat)
    requires j <= |events| < |states| && forall i :: 0 <= i < |events| ==> ConfigOk(states[i].cfg)
  {
    exists i :: 0 <= i < j && Owes(states[i], events[i])
                && forall m :: i < m < j ==> FlushPoint(states[m], events[m]).None?
  }

  lemma TellStep(k: Kcp, e: Event)
    requires ConfigOk(k.cfg)
    ensures Apply(k, e).probe.tell <==> FlushPoint(k, e).None? && (k.probe.tell || Owes(k, e))
    ensures Owes(k, e) ==> FlushPoint(k, e).None?
  {
    hide Input, FlushNow, Timediff;
    if e.Hear? {
      H.InputProbe(k, e.d);
    } else if FlushPoint(k, e).None? {
      QuietIs(k, e);
    } else {
      FlushApplies(k, e);
      FlushProbe(FlushPoint(k, e).value);
    }
  }

  lemma {:induction false} TellIs(states: seq<Kcp>, events: seq<Event>, j: nat)
    requires IsLife(states, events) && j < |states| && !states[0].probe.tell
    ensures states[j].probe.tell <==> Outstanding(states, events, j)
  {
    hide KcpInv, InRange, Apply, FlushPoint, Owes;
    if j > 0 {
      TellIs(states, events, j - 1);
      var k, e := states[j - 1], events[j - 1];
      assert states[j] == Apply(k, e) && ConfigOk(k.cfg);
      TellStep(k, e);
      OutstandingStep(states, events, j);
    }
  }

  lemma OutstandingStep(states: seq<Kcp>, events: seq<Event>, j: nat)
    requires 0 < j <= |events| < |states| && forall i :: 0 <= i < |events| ==> ConfigOk(states[i].cfg)
    ensures Outstanding(states, events, j) <==>
            || Owes(states[j - 1], events[j - 1])
            || (FlushPoint(states[j - 1], events[j - 1]).None? && Outstanding(states, events, j - 1))
  {
    hide Owes, FlushPoint, ConfigOk;
    if Outstanding(states, events, j) && !Owes(states[j - 1], events[j - 1]) {
      var i :| 0 <= i < j && Owes(states[i], events[i]) && forall m :: i < m < j ==> FlushPoint(states[m], events[m]).None?;
      assert i < j - 1;
    }
    if Outstanding(states, events, j - 1) && FlushPoint(states[j - 1], events[j - 1]).None? {
      var i :| 0 <= i < j - 1 && Owes(states[i], events[i])
               && forall m :: i < m < j - 1 ==> FlushPoint(states[m], events[m]).None?;
      assert forall m :: i < m < j ==> FlushPoint(states[m], events[m]).None?;
    }
  }

  /** A flush from `k` tells the peer how much room is left. */
  predicate Announces(k: Kcp) {
    exists p :: p in Emission(k) && p.cmd == CMD_WINS && p.wnd + |k.rcv.queue| == k.cfg.rcvWnd
  }

  lemma TellKept(p: Probe, rmtWnd: u16, now: u32)
    ensures ProbeWndSize(p, rmtWnd, now).tell == p.tell
  {
  }

  lemma AnnouncesByFlag(k: Kcp)
    requires KcpInv(k) && InRange(k)
    ensures Announces(k) <==> k.probe.tell
  {
    hide Due, ProbeWndSize, KcpInv, InRange, FillCtxOf, SendWindow, TxCtxOf, WndUnused, Fill;
    FreeIs(k);
    TellKept(k.probe, k.rmtWnd, k.current);
    var s := Fill(k.snd, FillCtxOf(k), SendWindow(k));
    var n := FillKeeps(k);
    var wnd := WndUnused(k.rcv, k.cfg.rcvWnd);
    var acks := AckPackets(k.cfg.conv, wnd, k.rcv.nxt, k.rcv.acks);
    var probes := ProbePackets(ProbeWndSize(k.probe, k.rmtWnd, k.current), k.cfg.conv, wnd, k.rcv.nxt, k.rcv.acks);
    forall p | p in Emission(k) && p.cmd == CMD_WINS ensures p in probes {
      if p in Due(s.buf, TxCtxOf(k)) {
        NoProbeAmongData(k, s, p);
      }
    }
    if k.probe.tell {
      assert probes[|probes| - 1] in probes && probes[|probes| - 1].cmd == CMD_WINS;
    }
  }

  /** In every life a flush tells the peer the free receive window if and only if the
      peer has asked, or the window has reopened, since the last flush. */
  lemma AnnouncesWindow(states: seq<Kcp>, events: seq<Event>, j: nat)
    requires IsLife(states, events) && j < |events| && !states[0].probe.tell
    requires FlushPoint(states[j], events[j]).Some?
    ensures Announces(FlushPoint(states[j], events[j]).value) <==> Outstanding(states, events, j)
  {
    hide KcpInv, InRange, Apply, FlushPoint, Owes, Announces, Outstanding;
    TellIs(states, events, j);
    WindowsAlwaysKept(states, events, 0, j);
    PointIs(states[j], events[j]);
    PointKeeps(states[j], events[j]);
    AnnouncesByFlag(FlushPoint(states[j], events[j]).value);
  }
}
