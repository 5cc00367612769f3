/** One direction of a stripe group from the source to the destination: the source
    is cut into frames, a poll-driven writer spreads them over `k` channels, the
    channel readers race each other into one bounded queue, and the receive loop
    reassembles. Every schedule of these steps is a run. */
module StripeRun {
  import opened Words
  import opened StripeFrame
  import SS = StripeSend
  import SR = StripeRecv

  const REORDER_QUEUE: int := 32

  datatype Event = Arrived(frame: Frame) | Broken

  /** `chunks` records every payload read from the source, the one in flight
      included; `lanes` the frames that completed on each stripe and `home` the stripe
      each frame completed on; `seen` and `pos` how many frames and bytes each stripe's reader has taken. */
  datatype Group = Group(
    source: bytes, taken: nat, chunks: seq<bytes>, inflight: bool, failed: bool,
    sender: SS.Sender, lanes: seq<seq<Frame>>, home: seq<nat>, seen: seq<nat>, pos: seq<nat>,
    queue: seq<Event>, recv: SR.Receiver, broken: bool)

  function Done(g: Group): int {
    |g.chunks| - (if g.inflight then 1 else 0)
  }

  /** The frame the writer is working on. */
  function Current(g: Group): Frame
    requires g.inflight && 0 < |g.chunks| < 0x1_0000_0000_0000_0000
  {
    Frame(|g.chunks| - 1, g.chunks[|g.chunks| - 1])
  }

  function Wire(g: Group): bytes {
    if g.inflight && 0 < |g.chunks| < 0x1_0000_0000_0000_0000 && WellSized(Current(g)) then Encode(Current(g)) else []
  }

  datatype Step =
    | ReadSource(n: nat)
    | Poll(answers: nat -> SS.Answer)
    | ReadStripe(j: nat)
    | Break(j: nat)
    | Receive

  predicate Next(g: Group, g': Group, step: Step) {
    match step
    case ReadSource(n) =>
      // the source yields its next bytes and they become the next frame
      && !g.inflight && !g.failed && 0 < n <= CHUNK_SIZE && g.taken + n <= |g.source|
      && g' == g.(taken := g.taken + n, chunks := g.chunks + [g.source[g.taken..g.taken + n]], inflight := true)
    case Poll(answers) =>
      // one poll of the writer, the channels answering as they like
      && g.inflight && !g.failed && SS.Ready(g.sender, Wire(g))
      && 0 < |g.chunks| < 0x1_0000_0000_0000_0000
      && var (sender, poll) := SS.RunPoll(g.sender, Wire(g), answers, 0, 0);
         if poll.Done? then
           // the frame is whole on the channel the round robin now stands behind
           && 0 < sender.next <= |g.lanes|
           && g' == g.(sender := sender, inflight := false, home := g.home + [sender.next - 1],
                       lanes := g.lanes[sender.next - 1 := g.lanes[sender.next - 1] + [Current(g)]])
         else
           g' == g.(sender := sender, failed := !poll.Pending?)
    case ReadStripe(j) =>
      // a reader takes the next whole frame off its channel while the queue has room
      && j < |g.sender.outs| == |g.seen| == |g.pos| && |g.queue| < REORDER_QUEUE
      && g.pos[j] <= |g.sender.outs[j]|
      && var f := ReadFrame(g.sender.outs[j][g.pos[j]..]);
         f.Some? && g' == g.(queue := g.queue + [Arrived(f.value)], seen := g.seen[j := g.seen[j] + 1],
                             pos := g.pos[j := g.pos[j] + HEADER_LEN + |f.value.payload|])
    case Break(j) =>
      // a channel fails, or ends inside a frame
      |g.queue| < REORDER_QUEUE && g' == g.(queue := g.queue + [Broken])
    case Receive =>
      // the receive loop handles the oldest event; a break ends it
      && g.queue != [] && !g.broken
      && g' == match g.queue[0]
               case Broken => g.(queue := g.queue[1..], broken := true)
               case Arrived(f) => g.(queue := g.queue[1..], recv := SR.OnFrame(g.recv, f.seqno, f.payload))
  }

  predicate Fresh(g: Group) {
    var k := |g.lanes|;
    && k > 0 && |g.source| < 0x1_0000_0000_0000_0000
    && g == Group(g.source, 0, [], false, false,
                  SS.Sender(seq(k, _ => []), 0, seq(k, _ => 0)), seq(k, _ => []), [], seq(k, _ => 0),
                  seq(k, _ => 0), [], SR.Receiver(0, map[], []), false)
  }

  predicate IsRun(run: seq<Group>, steps: seq<Step>) {
    && |run| == |steps| + 1 && Fresh(run[0])
    && forall i :: 0 <= i < |steps| ==> Next(run[i], run[i + 1], steps[i])
  }

  // -------------------------------------------------------------- invariants

  predicate SourceInv(g: Group) {
    && |g.source| < 0x1_0000_0000_0000_0000 && g.taken <= |g.source|
    && Flat(g.chunks) == g.source[..g.taken] && |g.chunks| <= g.taken
    && (forall i :: 0 <= i < |g.chunks| ==> 0 < |g.chunks[i]| <= CHUNK_SIZE)
    && (g.inflight ==> g.chunks != [])
  }

  /** `f` is the frame of one of the chunks whose write has completed. */
  predicate Genuine(g: Group, f: Frame) {
    f.seqno < Done(g) <= |g.chunks| && f.payload == g.chunks[f.seqno] && WellSized(f)
  }

  predicate Increasing(fs: seq<Frame>) {
    forall i, j :: 0 <= i < j < |fs| ==> fs[i].seqno < fs[j].seqno
  }

  /** Every channel holds whole genuine frames in increasing order. */
  predicate LanesGenuine(g: Group) {
    forall j :: 0 <= j < |g.lanes| ==>
      Increasing(g.lanes[j]) && forall i :: 0 <= i < |g.lanes[j]| ==> Genuine(g, g.lanes[j][i])
  }

  predicate OnLane(g: Group, j: nat, n: nat) {
    j < |g.lanes| && exists i :: 0 <= i < |g.lanes[j]| && g.lanes[j][i].seqno == n
  }

  /** Each completed frame is whole on exactly one channel. */
  ghost predicate OneHome(g: Group) {
    && |g.home| == Done(g)
    && (forall n: nat :: n < |g.home| ==> OnLane(g, g.home[n], n))
    && (forall j: nat, n: nat :: OnLane(g, j, n) ==> n < |g.home| && j == g.home[n])
  }

  function Bases(lanes: seq<seq<Frame>>): seq<bytes>
    requires forall j :: 0 <= j < |lanes| ==> AllWellSized(lanes[j])
  {
    seq(|lanes|, j requires 0 <= j < |lanes| => EncodeAll(lanes[j]))
  }

  predicate Sized(g: Group) {
    forall j :: 0 <= j < |g.lanes| ==> AllWellSized(g.lanes[j])
  }

  /** The writer: whole frames everywhere, plus a proper part of the current frame
      on the stripe the round robin stands at. */
  predicate WriterInv(g: Group) {
    Sized(g) && SS.Carries(g.sender, Bases(g.lanes), Wire(g))
  }

  /** Each reader stands at a frame boundary. */
  predicate ReaderInv(g: Group) {
    && Sized(g) && |g.seen| == |g.pos| == |g.lanes|
    && forall j :: 0 <= j < |g.lanes| ==>
         g.seen[j] <= |g.lanes[j]| && g.pos[j] == |EncodeAll(g.lanes[j][..g.seen[j]])|
  }

  predicate QueueGenuine(g: Group) {
    forall i :: 0 <= i < |g.queue| && g.queue[i].Arrived? ==> Genuine(g, g.queue[i].frame)
  }

  predicate Unread(g: Group, n: nat) {
    exists j, i :: 0 <= j < |g.lanes| && |g.seen| == |g.lanes| && g.seen[j] <= i < |g.lanes[j]|
                   && g.lanes[j][i].seqno == n
  }

  predicate Queued(g: Group, n: nat) {
    exists i :: 0 <= i < |g.queue| && g.queue[i].Arrived? && g.queue[i].frame.seqno == n
  }

  predicate Held(g: Group, n: nat) {
    n < g.recv.next || n in g.recv.pending
  }

  /** Where every completed frame is: unread on its channel, in the queue, or with
      the receiver. */
  predicate NoneLost(g: Group) {
    forall n :: 0 <= n < Done(g) ==> Unread(g, n) || Queued(g, n) || Held(g, n)
  }

  predicate RecvInv(g: Group) {
    && 0 <= Done(g) <= |g.chunks|
    && SR.Assembled(g.recv, g.chunks[..Done(g)]) && SR.Settled(g.recv)
  }

  ghost predicate Inv(g: Group) {
    && SourceInv(g) && LanesGenuine(g) && OneHome(g) && WriterInv(g) && ReaderInv(g)
    && QueueGenuine(g) && RecvInv(g) && NoneLost(g)
  }

  // ------------------------------------------------------------------- steps

  lemma ReadSourceKeeps(g: Group, g': Group, n: nat)
    requires Inv(g) && Next(g, g', ReadSource(n))
    ensures Inv(g')
  {
    hide EncodeAll, Encode, Next, Flat;
    assert !g.inflight && 0 < n <= CHUNK_SIZE && g.taken + n <= |g.source|
      && g' == g.(taken := g.taken + n, chunks := g.chunks + [g.source[g.taken..g.taken + n]], inflight := true)
      by { ReadSourceIs(g, g', n); }
    var c := g.source[g.taken..g.taken + n];
    FlatAppend(g.chunks, [c]);
    FlatOne(c);
    assert g.source[..g.taken] + c == g.source[..g.taken + n];
    assert Done(g') == Done(g) && g'.chunks[..Done(g')] == g.chunks[..Done(g)];
    forall f | Genuine(g, f) ensures Genuine(g', f) {}
    assert LanesGenuine(g');
    SameLanes(g, g');
    assert Wire(g) == [];
    assert SS.Carries(g'.sender, Bases(g'.lanes), Wire(g')) by { StartFrame(g.sender, Bases(g.lanes), Wire(g')); }
    forall m: nat | Unread(g, m) ensures Unread(g', m) {}
    forall m: nat | Queued(g, m) ensures Queued(g', m) {}
  }

  lemma ReadSourceIs(g: Group, g': Group, n: nat)
    requires Next(g, g', ReadSource(n))
    ensures !g.inflight && 0 < n <= CHUNK_SIZE && g.taken + n <= |g.source|
      && g' == g.(taken := g.taken + n, chunks := g.chunks + [g.source[g.taken..g.taken + n]], inflight := true)
  {
  }

  lemma StartFrame(s: SS.Sender, base: seq<bytes>, frame: bytes)
    requires SS.Carries(s, base, [])
    ensures SS.Carries(s, base, frame)
  {
    forall j | 0 <= j < |base| ensures s.committed[j] == 0 && s.outs[j] == base[j] + frame[..0] {}
  }

  lemma EndFrame(s: SS.Sender, base: seq<bytes>)
    requires |base| == |s.outs| == |s.committed| > 0 && s.outs == base && SS.AllClear(s)
    ensures SS.Carries(s, base, [])
  {
  }

  /** Genuine frames stay genuine as more frames complete. */
  lemma GenuineGrows(g: Group, g': Group, f: Frame)
    requires Genuine(g, f) && g'.chunks == g.chunks && Done(g) <= Done(g') <= |g'.chunks|
    ensures Genuine(g', f)
  {
  }

  /** `g'` is `g` with one more frame completed on channel `home`. */
  predicate Completed(g: Group, g': Group, home: nat) {
    && 0 < |g.chunks| < 0x1_0000_0000_0000_0000 && g.inflight && home < |g.lanes| && WellSized(Current(g))
    && g' == g.(sender := g'.sender, inflight := false, home := g.home + [home],
                lanes := g.lanes[home := g.lanes[home] + [Current(g)]])
  }

  lemma CompletedLanes(g: Group, g': Group, home: nat)
    requires SourceInv(g) && LanesGenuine(g) && OneHome(g) && Completed(g, g', home)
    ensures LanesGenuine(g') && OneHome(g')
  {
    var f := Current(g);
    assert Done(g') == Done(g) + 1 == |g.chunks| && f.seqno == Done(g);
    forall j | 0 <= j < |g'.lanes|
      ensures Increasing(g'.lanes[j]) && forall i :: 0 <= i < |g'.lanes[j]| ==> Genuine(g', g'.lanes[j][i])
    {
      forall i | 0 <= i < |g.lanes[j]| ensures Genuine(g', g.lanes[j][i]) {
        GenuineGrows(g, g', g.lanes[j][i]);
      }
    }
    forall j: nat, m: nat ensures OnLane(g', j, m) <==> OnLane(g, j, m) || (j == home && m == f.seqno) {
      CompletedOnLane(g, g', home, j, m);
    }
    forall m: nat | m < |g'.home| ensures OnLane(g', g'.home[m], m) {
      assert m < |g.home| ==> OnLane(g, g.home[m], m);
    }
  }

  lemma CompletedOnLane(g: Group, g': Group, home: nat, j: nat, m: nat)
    requires Completed(g, g', home)
    ensures OnLane(g', j, m) <==> OnLane(g, j, m) || (j == home && m == Current(g).seqno)
  {
    if j == home {
      var lane, lane' := g.lanes[j], g'.lanes[j];
      assert lane'[|lane|] == Current(g);
      assert forall i :: 0 <= i < |lane| ==> lane'[i] == lane[i];
    }
  }

  lemma CompletedBases(g: Group, g': Group, home: nat)
    requires Sized(g) && Completed(g, g', home)
    ensures Sized(g') && Bases(g'.lanes) == Bases(g.lanes)[home := Bases(g.lanes)[home] + Encode(Current(g))]
  {
    hide EncodeAll, Encode;
    EncodeAllAppend(g.lanes[home], [Current(g)]);
    EncodeAllOne(Current(g));
  }

  lemma CompletedReaders(g: Group, g': Group, home: nat)
    requires ReaderInv(g) && Completed(g, g', home) && Sized(g')
    ensures ReaderInv(g')
    ensures forall m: nat :: Unread(g, m) || m == Current(g).seqno ==> Unread(g', m)
  {
    hide EncodeAll, Encode;
    var f := Current(g);
    forall j | 0 <= j < |g'.lanes|
      ensures g'.seen[j] <= |g'.lanes[j]| && g'.pos[j] == |EncodeAll(g'.lanes[j][..g'.seen[j]])|
    {
      assert g'.lanes[j][..g.seen[j]] == g.lanes[j][..g.seen[j]];
    }
    assert g'.lanes[home][|g.lanes[home]|] == f;
    forall m: nat | Unread(g, m) ensures Unread(g', m) {
      var j, i :| 0 <= j < |g.lanes| && |g.seen| == |g.lanes| && g.seen[j] <= i < |g.lanes[j]|
                  && g.lanes[j][i].seqno == m;
      assert g'.lanes[j][i] == g.lanes[j][i];
    }
  }

  lemma CompletedKeeps(g: Group, g': Group, home: nat)
    requires Inv(g) && Completed(g, g', home)
    requires g'.sender.outs == Bases(g.lanes)[home := Bases(g.lanes)[home] + Encode(Current(g))]
    requires SS.AllClear(g'.sender) && |g'.sender.committed| == |g.lanes|
    ensures Inv(g')
  {
    hide EncodeAll, Encode, Genuine, OnLane, LanesGenuine, OneHome, Unread, Queued, Flat, ReaderInv;
    CompletedLanes(g, g', home);
    CompletedBases(g, g', home);
    EndFrame(g'.sender, Bases(g'.lanes));
    CompletedReaders(g, g', home);
    assert Done(g') == Done(g) + 1;
    forall f | Genuine(g, f) ensures Genuine(g', f) {
      GenuineGrows(g, g', f);
    }
    assert RecvInv(g') by { MoreChunks(g.recv, g.chunks[..Done(g)], g'.chunks[..Done(g')]); }
    forall m: nat | Queued(g, m) ensures Queued(g', m) {
      SameQueue(g, g', m);
    }
  }

  lemma SameQueue(g: Group, g': Group, m: nat)
    requires Queued(g, m) && g'.queue == g.queue
    ensures Queued(g', m)
  {
  }

  lemma MoreChunks(r: SR.Receiver, a: seq<bytes>, b: seq<bytes>)
    requires SR.Assembled(r, a) && a <= b
    ensures SR.Assembled(r, b)
  {
    assert b[..r.next] == a[..r.next];
  }

  lemma PollKeeps(g: Group, g': Group, answers: nat -> SS.Answer)
    requires Inv(g) && Next(g, g', Poll(answers))
    ensures Inv(g')
  {
    var f := Current(g);
    var base := Bases(g.lanes);
    assert WellSized(f);
    hide EncodeAll, Encode, Genuine, OnLane, LanesGenuine, OneHome, Unread, Queued, Flat, ReaderInv, SS.RunPoll, Bases;
    var home := SS.PollSendExact(g.sender, base, Wire(g), answers, 0, 0);
    var (sender, poll) := SS.RunPoll(g.sender, Wire(g), answers, 0, 0);
    if poll.Done? {
      assert Completed(g, g', home);
      LanesCount(g);
      CompletedKeeps(g, g', home);
    } else {
      SenderOnly(g, g');
    }
  }

  lemma LanesCount(g: Group)
    requires Sized(g)
    ensures |Bases(g.lanes)| == |g.lanes|
  {
  }

  /** A poll that parks or fails only moves the writer. */
  lemma SenderOnly(g: Group, g': Group)
    requires Inv(g) && g' == g.(sender := g'.sender, failed := g'.failed)
    requires SS.Carries(g'.sender, Bases(g.lanes), Wire(g))
    ensures Inv(g')
  {
    hide EncodeAll, Encode, Flat, SS.Carries, OneHome;
    forall f | Genuine(g, f) ensures Genuine(g', f) {}
    SameLanes(g, g');
    forall m: nat | Unread(g, m) ensures Unread(g', m) {}
    forall m: nat | Queued(g, m) ensures Queued(g', m) {}
  }

  /** What a reader finds next on its channel is the next frame completed there, and
      nothing while only a part has arrived. */
  lemma NextOnStripe(g: Group, j: nat)
    requires WriterInv(g) && ReaderInv(g) && j < |g.lanes|
    ensures |g.sender.outs| == |g.lanes| && g.pos[j] <= |g.sender.outs[j]|
    ensures var f := ReadFrame(g.sender.outs[j][g.pos[j]..]);
            if g.seen[j] < |g.lanes[j]| then f == Some(g.lanes[j][g.seen[j]]) else f.None?
  {
    hide Encode, ReadFrame, EncodeAll;
    var lane, n := g.lanes[j], g.seen[j];
    var part := Wire(g)[..g.sender.committed[j]];
    EncodeAllAppend(lane[..n], lane[n..]);
    assert lane == lane[..n] + lane[n..];
    assert g.sender.outs[j] == EncodeAll(lane) + part;
    assert g.sender.outs[j][g.pos[j]..] == EncodeAll(lane[n..]) + part;
    if n < |lane| {
      EncodeAllAppend([lane[n]], lane[n + 1..]);
      EncodeAllOne(lane[n]);
      assert lane[n..] == [lane[n]] + lane[n + 1..];
      assert EncodeAll(lane[n..]) + part == Encode(lane[n]) + (EncodeAll(lane[n + 1..]) + part);
      ReadEncoded(lane[n], EncodeAll(lane[n + 1..]) + part);
    } else {
      assert lane[n..] == [];
      NoFrames();
      assert EncodeAll(lane[n..]) + part == part;
      PartUnread(g, j);
    }
  }

  lemma NoFrames()
    ensures EncodeAll([]) == []
  {
  }

  lemma PartUnread(g: Group, j: nat)
    requires WriterInv(g) && j < |g.lanes|
    ensures g.sender.committed[j] <= |Wire(g)| && ReadFrame(Wire(g)[..g.sender.committed[j]]).None?
  {
    hide EncodeAll;
    var n := g.sender.committed[j];
    if Wire(g) == [] || n == 0 {
      assert Wire(g)[..n] == [];
    } else {
      ReadPartial(Current(g), n);
    }
  }

  /** A reader that takes its next frame stands at the next frame boundary. */
  lemma ReaderAdvances(g: Group, g': Group, j: nat)
    requires ReaderInv(g) && j < |g.lanes| && g.seen[j] < |g.lanes[j]| && g'.lanes == g.lanes
    requires var f := g.lanes[j][g.seen[j]];
             && g'.seen == g.seen[j := g.seen[j] + 1]
             && g'.pos == g.pos[j := g.pos[j] + HEADER_LEN + |f.payload|]
    ensures ReaderInv(g')
    ensures forall m: nat :: Unread(g, m) && m != g.lanes[j][g.seen[j]].seqno ==> Unread(g', m)
  {
    hide Encode, EncodeAll;
    var lane, n := g.lanes[j], g.seen[j];
    var f := lane[n];
    EncodeAllAppend(lane[..n], [f]);
    EncodeAllOne(f);
    assert lane[..n + 1] == lane[..n] + [f];
    forall m: nat | Unread(g, m) && m != f.seqno ensures Unread(g', m) {
      var l, i :| 0 <= l < |g.lanes| && |g.seen| == |g.lanes| && g.seen[l] <= i < |g.lanes[l]|
                  && g.lanes[l][i].seqno == m;
      assert g'.seen[l] <= i;
    }
  }

  lemma ReadStripeKeeps(g: Group, g': Group, j: nat)
    requires Inv(g) && Next(g, g', ReadStripe(j))
    ensures Inv(g')
  {
    hide Encode, ReadFrame, EncodeAll, Flat, OneHome, SS.Carries, Genuine, Unread, Bases;
    NextOnStripe(g, j);
    var f := g.lanes[j][g.seen[j]];
    SameFrames(g, g');
    assert Genuine(g, f);
    hide LanesGenuine;
    ReaderAdvances(g, g', j);
    hide ReaderInv;
    assert g'.queue[|g.queue|] == Arrived(f);
    forall m: nat | Queued(g, m) ensures Queued(g', m) {
      var i :| 0 <= i < |g.queue| && g.queue[i].Arrived? && g.queue[i].frame.seqno == m;
      assert g'.queue[i] == g.queue[i];
    }
  }

  lemma SameLanes(g: Group, g': Group)
    requires OneHome(g) && g'.lanes == g.lanes && g'.home == g.home && Done(g') == Done(g)
    ensures OneHome(g')
  {
    forall j: nat, m: nat ensures OnLane(g', j, m) <==> OnLane(g, j, m) {}
  }

  /** Nothing about the frames themselves changes after they completed. */
  lemma SameFrames(g: Group, g': Group)
    requires LanesGenuine(g) && OneHome(g)
    requires g'.lanes == g.lanes && g'.home == g.home && g'.chunks == g.chunks && g'.inflight == g.inflight
    ensures LanesGenuine(g') && OneHome(g')
    ensures forall f :: Genuine(g, f) ==> Genuine(g', f)
  {
    SameLanes(g, g');
  }

  lemma BreakKeeps(g: Group, g': Group, j: nat)
    requires Inv(g) && Next(g, g', Break(j))
    ensures Inv(g')
  {
    hide EncodeAll, Encode, Flat, OneHome, SS.Carries;
    SameLanes(g, g');
    forall m: nat | Unread(g, m) ensures Unread(g', m) {}
    forall m: nat | Queued(g, m) ensures Queued(g', m) {
      var i :| 0 <= i < |g.queue| && g.queue[i].Arrived? && g.queue[i].frame.seqno == m;
      assert g'.queue[i] == g.queue[i];
    }
  }

  /** Taking the oldest event off the queue. */
  lemma QueueShifts(g: Group, g': Group)
    requires g.queue != [] && g'.queue == g.queue[1..] && QueueGenuine(g)
    requires forall f :: Genuine(g, f) ==> Genuine(g', f)
    ensures QueueGenuine(g') && (g.queue[0].Arrived? ==> Genuine(g, g.queue[0].frame))
    ensures forall m: nat ::
              Queued(g, m) ==> Queued(g', m) || (g.queue[0].Arrived? && g.queue[0].frame.seqno == m)
  {
    hide Genuine;
    assert forall i :: 0 <= i < |g'.queue| ==> g'.queue[i] == g.queue[i + 1];
    forall m: nat | Queued(g, m)
      ensures Queued(g', m) || (g.queue[0].Arrived? && g.queue[0].frame.seqno == m)
    {
      var i :| 0 <= i < |g.queue| && g.queue[i].Arrived? && g.queue[i].frame.seqno == m;
      if i > 0 {
        assert g'.queue[i - 1] == g.queue[i];
      }
    }
  }

  lemma SameUnread(g: Group, g': Group, m: nat)
    requires g'.lanes == g.lanes && g'.seen == g.seen && Unread(g, m)
    ensures Unread(g', m)
  {
  }

  /** What the receiver holds is never dropped; the frame taken in is held. */
  lemma StillAccounted(g: Group, g': Group)
    requires NoneLost(g) && Done(g') == Done(g)
    requires forall m: nat :: Unread(g, m) ==> Unread(g', m)
    requires forall m: nat :: Queued(g, m) || Held(g, m) ==> Queued(g', m) || Held(g', m)
    ensures NoneLost(g')
  {
    hide Unread, Queued, Held;
  }

  lemma ReceiveKeeps(g: Group, g': Group)
    requires Inv(g) && Next(g, g', Receive)
    ensures Inv(g')
  {
    hide EncodeAll, Encode, Flat, OneHome, SS.Carries, SR.OnFrame, SR.Assembled, Genuine, LanesGenuine, Bases, ReaderInv,
         Unread, Queued, QueueGenuine, NoneLost;
    SameFrames(g, g');
    SameReaders(g, g');
    QueueShifts(g, g');
    forall m: nat | Unread(g, m) ensures Unread(g', m) {
      SameUnread(g, g', m);
    }
    if g.queue[0].Arrived? {
      var f := g.queue[0].frame;
      GenuinePayload(g, f);
      SR.OnFrameAssembles(g.recv, g.chunks[..Done(g)], f.seqno);
    }
    StillAccounted(g, g');
  }

  lemma GenuinePayload(g: Group, f: Frame)
    requires Genuine(g, f)
    ensures 0 <= Done(g) <= |g.chunks| && f.seqno < Done(g) && g.chunks[..Done(g)][f.seqno] == f.payload
  {
  }

  lemma SameReaders(g: Group, g': Group)
    requires ReaderInv(g) && g'.lanes == g.lanes && g'.seen == g.seen && g'.pos == g.pos
    ensures ReaderInv(g')
  {
    hide EncodeAll;
  }

  lemma FreshInv(g: Group)
    requires Fresh(g)
    ensures Inv(g)
  {
    assert forall j :: 0 <= j < |g.lanes| ==> g.lanes[j] == [] && g.seen[j] == 0 && g.pos[j] == 0;
    NoFrames();
    assert forall j :: 0 <= j < |g.lanes| ==> Bases(g.lanes)[j] == [];
    assert forall j :: 0 <= j < |g.lanes| ==> g.sender.outs[j] == [] && g.sender.committed[j] == 0;
    assert g.source[..0] == [] && g.chunks[..0] == [];
  }

  lemma StepKeeps(g: Group, g': Group, step: Step)
    requires Inv(g) && Next(g, g', step)
    ensures Inv(g')
  {
    hide Inv, Next;
    match step
    case ReadSource(n) => ReadSourceKeeps(g, g', n);
    case Poll(answers) => PollKeeps(g, g', answers);
    case ReadStripe(j) => ReadStripeKeeps(g, g', j);
    case Break(j) => BreakKeeps(g, g', j);
    case Receive => ReceiveKeeps(g, g');
  }

  lemma {:induction false} RunKeeps(run: seq<Group>, steps: seq<Step>, i: nat)
    requires IsRun(run, steps) && i < |run|
    ensures Inv(run[i]) && run[i].source == run[0].source
  {
    hide Inv, Next;
    if i == 0 {
      FreshInv(run[0]);
    } else {
      RunKeeps(run, steps, i - 1);
      assert Next(run[i - 1], run[i], steps[i - 1]);
      StepKeeps(run[i - 1], run[i], steps[i - 1]);
      SourceFixed(run[i - 1], run[i], steps[i - 1]);
    }
  }

  lemma SourceFixed(g: Group, g': Group, step: Step)
    requires Next(g, g', step)
    ensures g'.source == g.source
  {
    hide SS.RunPoll, SR.OnFrame, ReadFrame, Encode, EncodeAll;
  }

  // ---------------------------------------------------------------- theorems

  /** However the source was read, the writes were accepted and the readers were
      scheduled, the destination holds a prefix of the source. */
  lemma DestIsPrefix(run: seq<Group>, steps: seq<Step>, i: nat)
    requires IsRun(run, steps) && i < |run|
    ensures run[i].recv.dest <= run[0].source
  {
    hide IsRun;
    RunKeeps(run, steps, i);
    var g := run[i];
    FlatPrefix(g.chunks, g.recv.next);
    assert g.chunks[..Done(g)][..g.recv.next] == g.chunks[..g.recv.next];
  }

  /** Once the source is exhausted, no frame is in flight, every channel has been
      read out and the queue is empty, the destination holds exactly the source and
      nothing is held back. */
  lemma CompleteIsExact(run: seq<Group>, steps: seq<Step>, i: nat)
    requires IsRun(run, steps) && i < |run|
    requires run[i].taken == |run[i].source| && !run[i].inflight && run[i].queue == []
    requires |run[i].seen| == |run[i].lanes| && forall j :: 0 <= j < |run[i].lanes| ==> run[i].seen[j] == |run[i].lanes[j]|
    ensures run[i].recv.dest == run[0].source && run[i].recv.pending == map[]
  {
    hide IsRun;
    RunKeeps(run, steps, i);
    var g := run[i];
    hide SS.Carries, ReaderInv, LanesGenuine, OneHome, Flat;
    assert g.chunks[..Done(g)] == g.chunks;
    assert !Unread(g, g.recv.next) && !Queued(g, g.recv.next) && !Held(g, g.recv.next);
    assert g.recv.next == |g.chunks|;
    assert g.chunks[..|g.chunks|] == g.chunks && g.source[..|g.source|] == g.source;
    assert g.recv.pending.Keys == {};
  }

  /** In every state each channel carries whole frames plus, on the stripe at which
      the round robin stands only, a proper part of the current one; each completed
      frame is whole on exactly one channel, and channels keep sequence order. */
  lemma ChannelsCarryWholeFrames(run: seq<Group>, steps: seq<Step>, i: nat, j: nat)
    requires IsRun(run, steps) && i < |run| && j < |run[i].lanes|
    ensures var g := run[i];
            && Sized(g) && |g.sender.outs| == |g.sender.committed| == |g.lanes|
            && g.sender.committed[j] <= |Wire(g)|
            && g.sender.outs[j] == EncodeAll(g.lanes[j]) + Wire(g)[..g.sender.committed[j]]
            && (g.sender.committed[j] > 0 ==> j == g.sender.next % |g.lanes| && g.sender.committed[j] < |Wire(g)|)
            && Increasing(g.lanes[j])
            && (forall n: nat :: n < Done(g) ==> n < |g.home| && (OnLane(g, j, n) <==> j == g.home[n]))
  {
    hide IsRun;
    RunKeeps(run, steps, i);
    var g := run[i];
    hide EncodeAll, Encode, Flat;
  }
}
