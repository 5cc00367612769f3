/** The stripe frame: a big-endian `u64` sequence number, a big-endian `u16`
    payload length, and the payload. */
module StripeFrame {
  import opened Words

  const HEADER_LEN: int := 10
  const CHUNK_SIZE: int := 32 * 1024

  datatype Frame = Frame(seqno: u64, payload: bytes)

  datatype HeaderError = PayloadTooLong(len: nat)

  /** `encode_header`: a length that does not fit `u16` is refused, not truncated. */
  function EncodeHeader(seqno: u64, len: nat): (r: Result<bytes, HeaderError>)
    ensures r.Err? <==> len > 0xFFFF
    ensures r.Ok? ==> |r.value| == HEADER_LEN && DecodeHeader(r.value) == (seqno, len)
  {
    if len > 0xFFFF then Err(PayloadTooLong(len))
    else
      var hi, lo := Be64(seqno), Be16(len);
      assert (hi + lo)[..8] == hi && (hi + lo)[8..] == lo;
      Ok(hi + lo)
  }

  function DecodeHeader(h: bytes): (u64, nat)
    requires |h| == HEADER_LEN
  {
    (FromBe64(h[..8]), FromBe16(h[8..]))
  }

  /** What the send direction produces: payloads fit a frame. */
  predicate WellSized(f: Frame) {
    0 < |f.payload| <= CHUNK_SIZE
  }

  function Encode(f: Frame): (b: bytes)
    requires WellSized(f)
    ensures |b| == HEADER_LEN + |f.payload|
    ensures DecodeHeader(b[..HEADER_LEN]) == (f.seqno, |f.payload|) && b[HEADER_LEN..] == f.payload
  {
    var h := EncodeHeader(f.seqno, |f.payload|).value;
    assert (h + f.payload)[..HEADER_LEN] == h;
    h + f.payload
  }

  /** The first whole frame of what has arrived, if it is all there. */
  function ReadFrame(b: bytes): (r: Option<Frame>)
    ensures r.Some? ==> |b| >= HEADER_LEN + |r.value.payload|
  {
    if |b| < HEADER_LEN then None
    else
      var (seqno, len) := DecodeHeader(b[..HEADER_LEN]);
      if |b| < HEADER_LEN + len then None
      else Some(Frame(seqno, b[HEADER_LEN..HEADER_LEN + len]))
  }

  predicate AllWellSized(fs: seq<Frame>) {
    forall i :: 0 <= i < |fs| ==> WellSized(fs[i])
  }

  /** Whole frames one after the other. */
  function EncodeAll(fs: seq<Frame>): bytes
    requires AllWellSized(fs)
  {
    if fs == [] then [] else EncodeAll(fs[..|fs| - 1]) + Encode(fs[|fs| - 1])
  }

  lemma ReadEncoded(f: Frame, rest: bytes)
    requires WellSized(f)
    ensures ReadFrame(Encode(f) + rest) == Some(f)
  {
    hide DecodeHeader;
    var b := Encode(f) + rest;
    assert b[..HEADER_LEN] == Encode(f)[..HEADER_LEN];
    assert b[HEADER_LEN..HEADER_LEN + |f.payload|] == Encode(f)[HEADER_LEN..];
  }

  /** A frame that has only partly arrived is not read. */
  lemma ReadPartial(f: Frame, n: nat)
    requires WellSized(f) && n < HEADER_LEN + |f.payload|
    ensures ReadFrame(Encode(f)[..n]).None?
  {
    hide DecodeHeader;
    if n >= HEADER_LEN {
      assert Encode(f)[..n][..HEADER_LEN] == Encode(f)[..HEADER_LEN];
    }
  }

  lemma {:induction false} EncodeAllAppend(a: seq<Frame>, b: seq<Frame>)
    requires AllWellSized(a) && AllWellSized(b)
    ensures EncodeAll(a + b) == EncodeAll(a) + EncodeAll(b)
  {
    hide Encode;
    if b == [] {
      assert a + b == a;
    } else {
      var front, last := b[..|b| - 1], b[|b| - 1];
      assert (a + b)[..|a + b| - 1] == a + front;
      EncodeAllAppend(a, front);
      assert EncodeAll(a + b) == EncodeAll(a + front) + Encode(last);
      hide EncodeAll;
      assert EncodeAll(a) + EncodeAll(front) + Encode(last) == EncodeAll(a) + (EncodeAll(front) + Encode(last));
    }
  }

  lemma EncodeAllOne(f: Frame)
    requires WellSized(f)
    ensures EncodeAll([f]) == Encode(f)
  {
    hide Encode;
    assert [f][..0] == [];
    assert EncodeAll([f][..0]) + Encode(f) == Encode(f);
  }

  /** `stripe_reader` run to the end of its stripe: the frames it reports, and
      whether it ends with a broken frame instead of a clean half-close. */
  function ReadAll(b: bytes): (r: (seq<Frame>, bool)) {
    match ReadFrame(b)
    case None => ([], b != [])
    case Some(f) =>
      var (fs, broken) := ReadAll(b[HEADER_LEN + |f.payload|..]);
      ([f] + fs, broken)
  }

  /** On a stripe holding whole frames and a proper part of one more, the reader
      reports exactly the whole frames, in order, and a break exactly when there is
      such a part. */
  lemma {:induction false} ReadAllExact(fs: seq<Frame>, last: Frame, n: nat)
    requires AllWellSized(fs) && WellSized(last) && n < HEADER_LEN + |last.payload|
    ensures ReadAll(EncodeAll(fs) + Encode(last)[..n]) == (fs, n > 0)
  {
    hide ReadFrame, Encode;
    var tail := Encode(last)[..n];
    if fs == [] {
      assert EncodeAll(fs) + tail == tail;
      ReadPartial(last, n);
    } else {
      var f, rest := fs[0], fs[1..];
      EncodeAllAppend([f], rest);
      EncodeAllOne(f);
      assert fs == [f] + rest;
      assert EncodeAll(fs) + tail == Encode(f) + (EncodeAll(rest) + tail);
      ReadAllFirst(f, EncodeAll(rest) + tail);
      hide ReadAll, EncodeAll;
      ReadAllExact(rest, last, n);
    }
  }

  lemma ReadAllFirst(f: Frame, rest: bytes)
    requires WellSized(f)
    ensures ReadAll(Encode(f) + rest) == ([f] + ReadAll(rest).0, ReadAll(rest).1)
  {
    hide ReadFrame, Encode;
    ReadEncoded(f, rest);
    assert (Encode(f) + rest)[HEADER_LEN + |f.payload|..] == rest;
  }

  /** The reader task on a stripe that has closed. */
  method StripeReader(stripe: bytes) returns (frames: seq<Frame>, broken: bool)
    ensures (frames, broken) == ReadAll(stripe)
  {
    hide ReadFrame;
    frames, broken := [], false;
    var rest := stripe;
    while true
      invariant frames + ReadAll(rest).0 == ReadAll(stripe).0 && ReadAll(rest).1 == ReadAll(stripe).1
      decreases |rest|
    {
      if rest == [] {
        NothingToRead();
        assert frames + [] == frames;
        return;
      }
      var f := ReadFrame(rest);
      if f.None? {
        assert frames + [] == frames;
        return frames, true;
      }
      assert frames + ([f.value] + ReadAll(rest[HEADER_LEN + |f.value.payload|..]).0)
          == (frames + [f.value]) + ReadAll(rest[HEADER_LEN + |f.value.payload|..]).0;
      frames := frames + [f.value];
      rest := rest[HEADER_LEN + |f.value.payload|..];
    }
  }

  lemma NothingToRead()
    ensures ReadFrame([]).None?
  {
  }
}
