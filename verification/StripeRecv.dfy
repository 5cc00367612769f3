/** The receive direction: frames in any order, bytes in sequence order. */
module StripeRecv {
  import opened Words

  datatype Receiver = Receiver(next: nat, pending: map<nat, bytes>, dest: bytes)

  /** The inner loop of `recv_loop`: release what has become contiguous. */
  function Drain(r: Receiver): Receiver
    decreases |r.pending|
  {
    if r.next in r.pending then
      MinusOne(r.pending, r.next);
      Drain(Receiver(r.next + 1, r.pending - {r.next}, r.dest + r.pending[r.next]))
    else
      r
  }

  lemma MinusOne<A, B>(m: map<A, B>, a: A)
    requires a in m
    ensures |m - {a}| == |m| - 1
  {
    assert (m - {a}).Keys == m.Keys - {a};
  }

  /** One frame event of `recv_loop`. */
  function OnFrame(r: Receiver, seqno: nat, payload: bytes): Receiver {
    if seqno == r.next then Drain(Receiver(r.next + 1, r.pending, r.dest + payload))
    else if seqno > r.next then r.(pending := r.pending[seqno := payload])
    else r
  }

  /** `dest` is the first `next` chunks, and what is held back is later chunks. */
  predicate Assembled(r: Receiver, chunks: seq<bytes>) {
    && r.next <= |chunks| && r.dest == Flat(chunks[..r.next])
    && forall n :: n in r.pending ==> r.next <= n < |chunks| && r.pending[n] == chunks[n]
  }

  /** Between frames nothing releasable is held back. */
  predicate Settled(r: Receiver) {
    r.next !in r.pending
  }

  lemma {:induction false} DrainAssembles(r: Receiver, chunks: seq<bytes>)
    requires Assembled(r, chunks)
    ensures var r' := Drain(r);
            && Assembled(r', chunks) && Settled(r') && r'.next >= r.next
            && forall n :: n in r.pending && n >= r'.next ==> n in r'.pending
    decreases |r.pending|
  {
    if r.next in r.pending {
      MinusOne(r.pending, r.next);
      NextChunk(r.dest, chunks, r.next);
      DrainAssembles(Receiver(r.next + 1, r.pending - {r.next}, r.dest + r.pending[r.next]), chunks);
    }
  }

  lemma NextChunk(dest: bytes, chunks: seq<bytes>, n: nat)
    requires n < |chunks| && dest == Flat(chunks[..n])
    ensures dest + chunks[n] == Flat(chunks[..n + 1])
  {
    assert chunks[..n + 1] == chunks[..n] + [chunks[n]];
    FlatAppend(chunks[..n], [chunks[n]]);
    FlatOne(chunks[n]);
  }

  /** A genuine frame, early, due or stale: the destination stays the front of the
      stream, the frame is accounted for, and nothing held is lost. */
  lemma OnFrameAssembles(r: Receiver, chunks: seq<bytes>, n: nat)
    requires Assembled(r, chunks) && Settled(r) && n < |chunks|
    ensures var r' := OnFrame(r, n, chunks[n]);
            && Assembled(r', chunks) && Settled(r') && r'.next >= r.next
            && (n < r'.next || n in r'.pending)
            && (forall m :: m in r.pending && m >= r'.next ==> m in r'.pending)
  {
    if n == r.next {
      NextChunk(r.dest, chunks, n);
      DrainAssembles(Receiver(r.next + 1, r.pending, r.dest + chunks[n]), chunks);
    }
  }

  /** A frame already delivered or already held changes nothing. */
  lemma StaleFrame(r: Receiver, chunks: seq<bytes>, n: nat)
    requires Assembled(r, chunks) && Settled(r) && n < |chunks|
    requires n < r.next || n in r.pending
    ensures OnFrame(r, n, chunks[n]) == r
  {
    if n in r.pending {
      assert r.pending[n := chunks[n]] == r.pending;
    }
  }

  // -------------------------------------------------------- what is held back

  /** The receiver after some frames, whatever they carry. */
  function Fed(frames: seq<(nat, bytes)>): Receiver {
    if frames == [] then Receiver(0, map[], [])
    else OnFrame(Fed(frames[..|frames| - 1]), frames[|frames| - 1].0, frames[|frames| - 1].1)
  }

  predicate Arrived(frames: seq<(nat, bytes)>, n: nat) {
    exists i :: 0 <= i < |frames| && frames[i].0 == n
  }

  lemma {:induction false} DrainExact(r: Receiver)
    requires forall n :: n in r.pending ==> n >= r.next
    ensures var r' := Drain(r);
            && r'.next >= r.next && Settled(r')
            && (forall n: nat :: r.next <= n < r'.next ==> n in r.pending)
            && (forall n :: n in r'.pending <==> n in r.pending && n >= r'.next)
    decreases |r.pending|
  {
    if r.next in r.pending {
      MinusOne(r.pending, r.next);
      var r1 := Receiver(r.next + 1, r.pending - {r.next}, r.dest + r.pending[r.next]);
      DrainExact(r1);
      forall n: nat | r.next <= n < Drain(r).next ensures n in r.pending {
        assert n > r.next ==> n in r1.pending;
      }
    }
  }

  lemma ArrivedLast(frames: seq<(nat, bytes)>, n: nat)
    requires frames != []
    ensures Arrived(frames, n) <==> Arrived(frames[..|frames| - 1], n) || n == frames[|frames| - 1].0
  {
    var front := frames[..|frames| - 1];
    if Arrived(front, n) {
      var i :| 0 <= i < |front| && front[i].0 == n;
      assert frames[i].0 == n;
    }
  }

  /** `next` is the first number missing, and what is held back is exactly what has
      arrived beyond it. So nothing but the frames beyond the first gap bounds it. */
  lemma {:induction false} HeldExactly(frames: seq<(nat, bytes)>)
    ensures var r := Fed(frames);
            && !Arrived(frames, r.next) && (forall n: nat :: n < r.next ==> Arrived(frames, n))
            && (forall n: nat :: n in r.pending <==> Arrived(frames, n) && n > r.next)
  {
    hide Drain;
    if frames != [] {
      var front := frames[..|frames| - 1];
      var (seqno, payload) := frames[|frames| - 1];
      HeldExactly(front);
      hide Fed, Arrived;
      var r, r' := Fed(front), Fed(frames);
      assert r' == OnFrame(r, seqno, payload) by { FedLast(frames); }
      if seqno == r.next {
        DrainExact(Receiver(r.next + 1, r.pending, r.dest + payload));
      }
      forall n: nat ensures Arrived(frames, n) <==> Arrived(front, n) || n == seqno {
        ArrivedLast(frames, n);
      }
    }
  }

  lemma FedLast(frames: seq<(nat, bytes)>)
    requires frames != []
    ensures Fed(frames) == OnFrame(Fed(frames[..|frames| - 1]), frames[|frames| - 1].0, frames[|frames| - 1].1)
  {
  }

  /** Frames 1 to `n` before frame 0: all of them are held, however many. */
  lemma {:induction false} HoldsBackAnyNumber(n: nat) returns (frames: seq<(nat, bytes)>)
    ensures |frames| == n && Fed(frames).next == 0 && |Fed(frames).pending| == n
    ensures forall m: nat :: m in Fed(frames).pending <==> 1 <= m <= n
  {
    if n == 0 {
      frames := [];
    } else {
      var front := HoldsBackAnyNumber(n - 1);
      frames := front + [(n, [])];
      assert frames[..|frames| - 1] == front;
      var held := Fed(front).pending;
      assert held[n := []].Keys == held.Keys + {n} && n !in held;
      assert |held[n := []].Keys| == |held.Keys| + 1;
    }
  }

  class Reassembler {
    var next: nat
    var pending: map<nat, bytes>
    var dest: bytes

    ghost function View(): Receiver
      reads this
    {
      Receiver(next, pending, dest)
    }

    constructor ()
      ensures View() == Receiver(0, map[], [])
    {
      next, pending, dest := 0, map[], [];
    }

    /** The `Frame` arm of the event loop. */
    method Frame(seqno: nat, payload: bytes)
      modifies this
      ensures View() == OnFrame(old(View()), seqno, payload)
    {
      if seqno == next {
        dest := dest + payload;
        next := next + 1;
        while next in pending
          invariant Drain(View()) == OnFrame(old(View()), seqno, payload)
          decreases |pending|
        {
          MinusOne(pending, next);
          dest := dest + pending[next];
          pending := pending - {next};
          next := next + 1;
        }
      } else if seqno > next {
        pending := pending[seqno := payload];
      }
    }
  }
}
