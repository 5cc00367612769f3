/** The round-robin writer over the channels of one stripe group. */
module StripeSend {
  import opened Words

  /** How a channel answers one `poll_write`: it takes some bytes, refuses for now,
      or fails. A writer never takes more than it is offered. */
  datatype Answer = Accept(n: nat) | Park | Fail

  datatype Poll = Done | Pending | WriteZero | Failed

  /** `outs` is what each channel has accepted so far. */
  datatype Sender = Sender(outs: seq<bytes>, next: nat, committed: seq<nat>)

  /** Every channel is either untouched by `frame` or holds a proper part of it. */
  predicate Ready(s: Sender, frame: bytes) {
    && |s.outs| == |s.committed| > 0 && |frame| > 0
    && forall j :: 0 <= j < |s.committed| ==> s.committed[j] < |frame|
  }

  /** One `poll_write` that was answered with `n` bytes at stripe `idx`. */
  function Take(s: Sender, frame: bytes, idx: nat, n: nat): Sender
    requires Ready(s, frame) && idx < |s.outs|
  {
    var off := s.committed[idx];
    var end := Min(off + n, |frame|);
    var outs := s.outs[idx := s.outs[idx] + frame[off..end]];
    if end == |frame| then Sender(outs, idx + 1, s.committed[idx := 0])
    else Sender(outs, s.next, s.committed[idx := end])
  }

  /** `poll_send`. The loop ends because each turn uses up a stripe left to try or
      commits another byte of the frame. */
  function RunPoll(s: Sender, frame: bytes, answers: nat -> Answer, call: nat, tried: nat): (Sender, Poll)
    requires Ready(s, frame) && tried < |s.outs|
    decreases |s.outs| - tried, |frame| - s.committed[s.next % |s.outs|]
  {
    var idx := s.next % |s.outs|;
    var off := s.committed[idx];
    match answers(call)
    case Accept(n) =>
      if n == 0 then (s, WriteZero)
      else if off + n >= |frame| then (Take(s, frame, idx, n), Done)
      else RunPoll(Take(s, frame, idx, n), frame, answers, call + 1, tried)
    case Fail => (s, Failed)
    case Park =>
      if off > 0 then (s, Pending)
      else if tried + 1 == |s.outs| then (s.(next := idx + 1), Pending)
      else RunPoll(s.(next := idx + 1), frame, answers, call + 1, tried + 1)
  }

  /** What each channel holds: `base` and, on stripe `next % k` only, a proper part
      of the frame in flight. */
  predicate Carries(s: Sender, base: seq<bytes>, frame: bytes) {
    && |base| == |s.outs| == |s.committed| > 0
    && (forall j :: 0 <= j < |base| ==> s.committed[j] == 0 || s.committed[j] < |frame|)
    && (forall j :: 0 <= j < |base| && j != s.next % |base| ==> s.committed[j] == 0)
    && (forall j :: 0 <= j < |base| ==>
          s.committed[j] <= |frame| && s.outs[j] == base[j] + frame[..s.committed[j]])
  }

  predicate AllClear(s: Sender) {
    forall j :: 0 <= j < |s.committed| ==> s.committed[j] == 0
  }

  lemma TakeCarries(s: Sender, base: seq<bytes>, frame: bytes, n: nat)
    requires Carries(s, base, frame) && |frame| > 0 && n > 0
    ensures Ready(s, frame)
    ensures var idx := s.next % |base|;
            var s' := Take(s, frame, idx, n);
            && |s'.outs| == |s.outs|
            && (s.committed[idx] + n < |frame| ==>
                  Carries(s', base, frame) && s'.next == s.next && s'.committed[idx] > s.committed[idx])
            && (s.committed[idx] + n >= |frame| ==>
                  && s'.outs == base[idx := base[idx] + frame] && s'.next == idx + 1
                  && AllClear(s') && |s'.committed| == |base|)
  {
    var idx := s.next % |base|;
    var off := s.committed[idx];
    var end := Min(off + n, |frame|);
    assert frame[..off] + frame[off..end] == frame[..end];
    assert base[idx] + frame[..off] + frame[off..end] == base[idx] + frame[..end];
    assert frame[..|frame|] == frame;
    var s' := Take(s, frame, idx, n);
    if end == |frame| {
      forall j | 0 <= j < |base| ensures s'.outs[j] == base[idx := base[idx] + frame][j] {
        assert j != idx ==> base[j] + frame[..0] == base[j];
      }
    }
  }

  /** One poll, whatever the channels answer: a frame that completes has gone whole
      to exactly one stripe and every other channel is as it was; one that does not
      is parked as a proper part on the stripe the next poll resumes with. */
  lemma {:induction false} PollSendExact(s: Sender, base: seq<bytes>, frame: bytes, answers: nat -> Answer,
                                         call: nat, tried: nat) returns (home: nat)
    requires Carries(s, base, frame) && |frame| > 0 && tried < |s.outs|
    ensures Ready(s, frame) && home < |base|
    ensures var (s', poll) := RunPoll(s, frame, answers, call, tried);
            && |s'.outs| == |base|
            && (poll.Done? ==>
                  && s'.outs == base[home := base[home] + frame] && s'.next == home + 1
                  && AllClear(s') && |s'.committed| == |base|)
            && (!poll.Done? ==> Carries(s', base, frame))
    decreases |s.outs| - tried, |frame| - s.committed[s.next % |s.outs|]
  {
    hide Take;
    var idx := s.next % |s.outs|;
    var off := s.committed[idx];
    home := idx;
    match answers(call)
    case Accept(n) =>
      if n > 0 {
        TakeCarries(s, base, frame, n);
        if off + n < |frame| {
          home := PollSendExact(Take(s, frame, idx, n), base, frame, answers, call + 1, tried);
        }
      }
    case Fail =>
    case Park =>
      if off == 0 {
        StepOver(s, base, frame);
        if tried + 1 < |s.outs| {
          home := PollSendExact(s.(next := idx + 1), base, frame, answers, call + 1, tried + 1);
        }
      }
  }

  /** A stripe that refused before taking a byte can be skipped. */
  lemma StepOver(s: Sender, base: seq<bytes>, frame: bytes)
    requires Carries(s, base, frame) && s.committed[s.next % |base|] == 0
    ensures Carries(s.(next := s.next % |base| + 1), base, frame)
  {
  }

  /** One turn of the poll loop. */
  lemma PollTurn(s: Sender, frame: bytes, answers: nat -> Answer, call: nat, tried: nat)
    requires Ready(s, frame) && tried < |s.outs|
    ensures var idx := s.next % |s.outs|;
            RunPoll(s, frame, answers, call, tried) ==
            match answers(call)
            case Accept(n) =>
              if n == 0 then (s, WriteZero)
              else if s.committed[idx] + n >= |frame| then (Take(s, frame, idx, n), Done)
              else RunPoll(Take(s, frame, idx, n), frame, answers, call + 1, tried)
            case Fail => (s, Failed)
            case Park =>
              if s.committed[idx] > 0 then (s, Pending)
              else if tried + 1 == |s.outs| then (s.(next := idx + 1), Pending)
              else RunPoll(s.(next := idx + 1), frame, answers, call + 1, tried + 1)
  {
  }

  // ------------------------------------------------- who gets the frame

  lemma ModNext(a: nat, t: nat, k: nat)
    requires k > 0
    ensures (a % k + 1 + t) % k == (a + 1 + t) % k
  {
    var y := a % k + 1 + t;
    DivMod(a, k);
    DivMod(y, k);
    assert Times(a / k, k) + Times(y / k, k) == Times(a / k + y / k, k);
    hide Times;
    ModUnique(a + 1 + t, a / k + y / k, y % k, k);
  }

  /** Stripes that refuse before taking a byte are passed over, in order. */
  lemma {:induction false} RefusalsPassOn(s: Sender, frame: bytes, answers: nat -> Answer, call: nat, tried: nat, t: nat)
    returns (next: nat)
    requires Ready(s, frame) && AllClear(s) && tried + t < |s.outs|
    requires forall m :: call <= m < call + t ==> answers(m) == Park
    ensures next % |s.outs| == (s.next + t) % |s.outs|
    ensures RunPoll(s, frame, answers, call, tried) == RunPoll(s.(next := next), frame, answers, call + t, tried + t)
    decreases t
  {
    if t == 0 {
      next := s.next;
      assert s.(next := next) == s;
    } else {
      var idx := s.next % |s.outs|;
      assert answers(call) == Park && s.committed[idx] == 0;
      var s1 := s.(next := idx + 1);
      next := RefusalsPassOn(s1, frame, answers, call + 1, tried + 1, t - 1);
      ModNext(s.next, t - 1, |s.outs|);
      assert s1.(next := next) == s.(next := next);
    }
  }

  /** Between frames, after `t` refusals in a row: if the next stripe in turn takes the
      frame, it goes there; if it fails or takes nothing, that is the answer; and only
      when every stripe has refused does the writer wait, with nothing written. */
  lemma FirstWilling(s: Sender, frame: bytes, answers: nat -> Answer, t: nat)
    requires Ready(s, frame) && AllClear(s) && t <= |s.outs|
    requires forall m :: 0 <= m < t ==> answers(m) == Park
    ensures var k, (s', poll) := |s.outs|, RunPoll(s, frame, answers, 0, 0);
            if t == k then poll == Pending && s'.outs == s.outs && s'.committed == s.committed
            else match answers(t)
                 case Accept(n) =>
                   && (n == 0 ==> poll == WriteZero && s'.outs == s.outs)
                   && (n >= |frame| ==>
                         var home := (s.next + t) % k; poll == Done && s'.outs == s.outs[home := s.outs[home] + frame])
                 case Fail => poll == Failed && s'.outs == s.outs
                 case Park => true
  {
    var k := |s.outs|;
    if t < k {
      var next := RefusalsPassOn(s, frame, answers, 0, 0, t);
      var s1 := s.(next := next);
      PollTurn(s1, frame, answers, t, t);
      assert s1.committed[s1.next % k] == 0;
      assert frame[0..|frame|] == frame;
    } else {
      var next := RefusalsPassOn(s, frame, answers, 0, 0, t - 1);
      var s1 := s.(next := next);
      assert answers(t - 1) == Park;
      PollTurn(s1, frame, answers, t - 1, t - 1);
      assert s1.committed[s1.next % k] == 0;
    }
  }

  class StripeSender {
    var streams: seq<bytes>
    var next: nat
    var committed: seq<nat>

    ghost function View(): Sender
      reads this
    {
      Sender(streams, next, committed)
    }

    constructor (k: nat)
      requires k > 0
      ensures Carries(View(), seq(k, _ => []), []) && AllClear(View())
    {
      streams, next, committed := seq(k, _ => []), 0, seq(k, _ => 0);
    }

    /** The poll loop, in place. */
    method PollSend(frame: bytes, answers: nat -> Answer) returns (poll: Poll)
      requires Ready(View(), frame)
      modifies this
      ensures (View(), poll) == RunPoll(old(View()), frame, answers, 0, 0)
    {
      var k := |streams|;
      var tried, call := 0, 0;
      while true
        invariant Ready(View(), frame) && tried < k == |streams|
        invariant RunPoll(View(), frame, answers, call, tried)
               == RunPoll(old(View()), frame, answers, 0, 0)
        decreases k - tried, |frame| - committed[next % k]
      {
        hide RunPoll;
        PollTurn(View(), frame, answers, call, tried);
        var idx := next % k;
        var off := committed[idx];
        var answer := answers(call);
        call := call + 1;
        match answer {
          case Accept(n) =>
            if n == 0 {
              return WriteZero;
            }
            var end := Min(off + n, |frame|);
            streams := streams[idx := streams[idx] + frame[off..end]];
            if end == |frame| {
              committed := committed[idx := 0];
              next := idx + 1;
              return Done;
            }
            committed := committed[idx := end];
          case Fail =>
            return Failed;
          case Park =>
            if off > 0 {
              return Pending;
            }
            next := idx + 1;
            tried := tried + 1;
            if tried == k {
              return Pending;
            }
        }
      }
    }
  }
}
