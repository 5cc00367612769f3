/** The framing of a transparent channel, `[u32 length][frame]`, and the batched
    reader that must give the same frames however the bytes were cut into reads. */
module IpFrames {
  import opened Words

  const VNET_HDR_LEN: nat := 10
  const IPV4_MIN_HEADER: nat := 20
  const IPV6_MIN_HEADER: nat := 40

  datatype FrameFormat = Ip | Vnet

  datatype Error =
    | EmptyFrame
    | ShortVnet(len: nat)
    | ShortIp(len: nat)
    | EndedMidFrame(left: nat)
    | Ended
    | TooLong(len: nat)

  /** `frame_at`: the length of the frame at the front, once all of it is there. The
      IP version is looked at as soon as its byte has arrived. */
  function FrameAt(available: bytes, format: FrameFormat): (r: Result<Option<nat>, Error>)
    ensures r.Ok? && r.value.Some? ==> 4 + r.value.value <= |available| && r.value.value > 0
  {
    if |available| < 4 then Ok(None)
    else
      var len := FromBe32(available[..4]);
      var version := if |available| > 4 then available[4] / 16 else 4;
      if len == 0 then Err(EmptyFrame)
      else if format.Vnet? && len < VNET_HDR_LEN then Err(ShortVnet(len))
      else if format.Ip? && len < (if version == 6 then IPV6_MIN_HEADER else IPV4_MIN_HEADER) then Err(ShortIp(len))
      else if |available| < 4 + len then Ok(None)
      else Ok(Some(len))
  }

  /** What a reader that has the whole rest of the stream gives next. */
  function NextFrame(stream: bytes, format: FrameFormat): (r: Result<(bytes, bytes), Error>)
    ensures r.Ok? ==> |r.value.1| < |stream|
  {
    match FrameAt(stream, format)
    case Err(e) => Err(e)
    case Ok(Some(len)) => Ok((stream[4..4 + len], stream[4 + len..]))
    case Ok(None) => if stream == [] then Err(Ended) else Err(EndedMidFrame(|stream|))
  }

  /** Every frame of the stream, and how it ends. */
  function AllFrames(stream: bytes, format: FrameFormat): (seq<bytes>, Error) {
    match NextFrame(stream, format)
    case Err(e) => ([], e)
    case Ok((f, rest)) =>
      var (more, e) := AllFrames(rest, format);
      ([f] + more, e)
  }

  /** A verdict reached on part of the stream stands when more arrives, also when
      the version byte comes after the length. */
  lemma VerdictStands(available: bytes, more: bytes, format: FrameFormat)
    requires FrameAt(available, format) != Ok(None)
    ensures FrameAt(available + more, format) == FrameAt(available, format)
  {
    hide FromBe32;
    assert (available + more)[..4] == available[..4];
  }

  class Frames {
    /** The reads still to come, none empty; then the channel ends. */
    var reads_: seq<bytes>
    var format: FrameFormat
    var buf: bytes
    var start: nat

    ghost predicate Valid()
      reads this
    {
      start <= |buf| && forall i :: 0 <= i < |reads_| ==> reads_[i] != []
    }

    /** What is still to be framed: read ahead or yet to be read. */
    ghost function Rest(): bytes
      reads this
      requires Valid()
    {
      buf[start..] + Flat(reads_)
    }

    constructor (chunks: seq<bytes>, format: FrameFormat)
      requires forall i :: 0 <= i < |chunks| ==> chunks[i] != []
      ensures Valid() && Rest() == Flat(chunks) && this.format == format
    {
      reads_, this.format, buf, start := chunks, format, [], 0;
    }

    /** Compact, then read once; the end of the stream is an error. */
    method ReadMore() returns (r: Result<(), Error>)
      requires Valid()
      modifies `reads_, `buf, `start
      ensures Valid() && Rest() == old(Rest())
      ensures r.Ok? ==> start == 0 && |reads_| < old(|reads_|)
      ensures r.Err? ==>
                && old(reads_) == []
                && r.error == if old(Rest()) == [] then Ended else EndedMidFrame(|old(Rest())|)
    {
      if start > 0 {
        buf := buf[start..];
        start := 0;
      }
      assert buf[0..] == buf;
      if reads_ == [] {
        assert buf + Flat([]) == buf;
        return if buf != [] then Err(EndedMidFrame(|buf|)) else Err(Ended);
      }
      ghost var was := reads_;
      var chunk := reads_[0];
      assert buf + (chunk + Flat(reads_[1..])) == (buf + chunk) + Flat(reads_[1..]);
      buf := buf + chunk;
      reads_ := reads_[1..];
      assert buf[0..] == buf;
      r := Ok(());
    }

    /** `next`: what it gives depends only on the bytes, not on how they were read. */
    method Next() returns (r: Result<bytes, Error>)
      requires Valid()
      modifies `reads_, `buf, `start
      ensures Valid()
      ensures match NextFrame(old(Rest()), format)
              case Err(e) => r == Err(e)
              case Ok((f, rest)) => r == Ok(f) && Rest() == rest
    {
      ghost var stream := Rest();
      while true
        invariant Valid() && Rest() == stream
        decreases |reads_|
      {
        hide FrameAt;
        var have := buf[start..];
        var at := FrameAt(have, format);
        if at != Ok(None) {
          VerdictStands(have, Flat(reads_), format);
        }
        if at.Err? {
          return Err(at.error);
        }
        if at.value.Some? {
          var len := at.value.value;
          FrameFits(have, format);
          var from := start + 4;
          start := from + len;
          r := Ok(buf[from..from + len]);
          assert stream[4..4 + len] == have[4..4 + len] == buf[from..from + len];
          assert stream[4 + len..] == have[4 + len..] + Flat(reads_) && buf[start..] == have[4 + len..];
          return;
        }
        var more := ReadMore();
        if more.Err? {
          assert have + Flat([]) == have;
          return Err(more.error);
        }
      }
    }
  }

  lemma FrameFits(available: bytes, format: FrameFormat)
    ensures var r := FrameAt(available, format);
            r.Ok? && r.value.Some? ==> 4 + r.value.value <= |available| && r.value.value > 0
  {
  }

  /** Reading a channel to its end: for every way of cutting the same bytes into
      reads, the same frames and the same ending. */
  method ReadChannel(chunks: seq<bytes>, format: FrameFormat) returns (frames: seq<bytes>, ending: Error)
    requires forall i :: 0 <= i < |chunks| ==> chunks[i] != []
    ensures (frames, ending) == AllFrames(Flat(chunks), format)
  {
    hide NextFrame;
    var reader := new Frames(chunks, format);
    frames := [];
    while true
      invariant reader.Valid() && fresh(reader) && reader.format == format
      invariant frames + AllFrames(reader.Rest(), format).0 == AllFrames(Flat(chunks), format).0
      invariant AllFrames(reader.Rest(), format).1 == AllFrames(Flat(chunks), format).1
      decreases |reader.Rest()|
    {
      ghost var stream := reader.Rest();
      Consumes(stream, format);
      var r := reader.Next();
      if r.Err? {
        assert frames + [] == frames;
        return frames, r.error;
      }
      assert frames + ([r.value] + AllFrames(reader.Rest(), format).0)
          == (frames + [r.value]) + AllFrames(reader.Rest(), format).0;
      frames := frames + [r.value];
    }
  }

  lemma Consumes(stream: bytes, format: FrameFormat)
    ensures NextFrame(stream, format).Ok? ==> |NextFrame(stream, format).value.1| < |stream|
  {
  }

  // ----------------------------------------------------------------- batches

  /** `encode_into`: a frame longer than the prefix can say is refused. */
  function EncodeInto(batch: bytes, frame: bytes): (r: Result<bytes, Error>)
    ensures r.Ok? <==> |frame| < TWO32
  {
    if |frame| >= TWO32 then Err(TooLong(|frame|)) else Ok(batch + Be32(|frame|) + frame)
  }

  /** A frame that can name a packet in its format. */
  predicate WellSized(frame: bytes, format: FrameFormat) {
    && 0 < |frame| < TWO32
    && match format
       case Vnet => |frame| >= VNET_HDR_LEN
       case Ip => |frame| >= (if frame[0] / 16 == 6 then IPV6_MIN_HEADER else IPV4_MIN_HEADER)
  }

  /** The batch a writer builds from frames one after the other. */
  function Batch(frames: seq<bytes>): bytes {
    if frames == [] then []
    else
      var batch := Batch(frames[..|frames| - 1]);
      var r := EncodeInto(batch, frames[|frames| - 1]);
      if r.Ok? then r.value else batch
  }

  /** An encoded frame reads back if and only if it can name a packet; otherwise it is
      an error, whatever follows. */
  lemma NextOfEncoded(frame: bytes, rest: bytes, format: FrameFormat)
    requires |frame| < TWO32
    ensures var r := NextFrame(Be32(|frame|) + frame + rest, format);
            if WellSized(frame, format) then r == Ok((frame, rest)) else r.Err?
  {
    hide FromBe32, Be32;
    var prefix := Be32(|frame|);
    var stream := prefix + frame + rest;
    assert stream[..4] == prefix && (frame != [] ==> stream[4] == frame[0]);
    assert stream[4..4 + |frame|] == frame && stream[4 + |frame|..] == rest;
  }

  lemma {:induction false} BatchSplit(frames: seq<bytes>)
    requires frames != [] && forall i :: 0 <= i < |frames| ==> |frames[i]| < TWO32
    ensures Batch(frames) == Be32(|frames[0]|) + frames[0] + Batch(frames[1..])
  {
    hide Be32;
    if |frames| == 1 {
      assert frames[..0] == [] && frames[1..] == [];
    } else {
      var front, last := frames[..|frames| - 1], frames[|frames| - 1];
      BatchSplit(front);
      assert front[1..] == frames[1..][..|frames| - 2];
      var head := Be32(|frames[0]|) + frames[0];
      assert head + Batch(front[1..]) + Be32(|last|) + last == head + (Batch(front[1..]) + Be32(|last|) + last);
    }
  }

  /** Reading a batch of well-sized frames gives exactly those frames, then whatever
      follows the batch. */
  lemma {:induction false} BatchRoundTrip(frames: seq<bytes>, tail: bytes, format: FrameFormat)
    requires forall i :: 0 <= i < |frames| ==> WellSized(frames[i], format)
    ensures AllFrames(Batch(frames) + tail, format)
         == (frames + AllFrames(tail, format).0, AllFrames(tail, format).1)
  {
    hide NextFrame, Be32, WellSized;
    if frames == [] {
      assert Batch(frames) + tail == tail;
      assert frames + AllFrames(tail, format).0 == AllFrames(tail, format).0;
    } else {
      Sizes(frames, format);
      BatchSplit(frames);
      var f, rest := frames[0], Batch(frames[1..]) + tail;
      assert Batch(frames) + tail == Be32(|f|) + f + rest;
      NextOfEncoded(f, rest, format);
      BatchRoundTrip(frames[1..], tail, format);
      assert [f] + (frames[1..] + AllFrames(tail, format).0) == frames + AllFrames(tail, format).0;
    }
  }

  lemma Sizes(frames: seq<bytes>, format: FrameFormat)
    requires forall i :: 0 <= i < |frames| ==> WellSized(frames[i], format)
    ensures forall i :: 0 <= i < |frames| ==> 0 < |frames[i]| < TWO32
  {
  }
}
