/** The KCP wire format: the 24-byte segment header, the datagram-splitting
    loop of `input`, and the packing of segments into datagrams of at most one
    MTU that `flush` performs. */
module KcpWire {
  import opened Words

  const CMD_PUSH: u8 := 81
  const CMD_ACK: u8 := 82
  const CMD_WASK: u8 := 83
  const CMD_WINS: u8 := 84

  const OVERHEAD: int := 24

  /** One segment as it travels: the header fields and the payload (the header's
      length field is the payload's). */
  datatype Packet = Packet(conv: u32, cmd: u8, frg: u8, wnd: u16, ts: u32, sn: u32, una: u32, data: bytes)

  datatype Error =
    | InvalidSegmentSize(size: nat)
    | ConvInconsistent(expected: u32, found: u32)
    | SegmentDataSizeMismatch(len: nat, remaining: nat)
    | UnsupportedCmd(cmd: u8)
    | NeedUpdate
    | UserBufTooBig
    | ExpectingFragment
    | RecvQueueEmpty

  predicate KnownCmd(cmd: u8) {
    CMD_PUSH <= cmd <= CMD_WINS
  }

  /** What the peer accepts on conversation `conv`: the payload fits the
      length field and the command is one of the four. */
  predicate Sendable(p: Packet, conv: u32) {
    p.conv == conv && KnownCmd(p.cmd) && |p.data| < TWO32
  }

  function EncodeHeader(p: Packet): (h: bytes)
    ensures |h| == OVERHEAD
  {
    Le32(p.conv) + [p.cmd, p.frg] + Le16(p.wnd) + Le32(p.ts) + Le32(p.sn) + Le32(p.una)
    + Le32(Min(|p.data|, TWO32 - 1))
  }

  /** `KcpSegment::encode`; also what the two-part emission puts on the wire. */
  function Encode(p: Packet): (b: bytes)
    ensures |b| == OVERHEAD + |p.data|
  {
    EncodeHeader(p) + p.data
  }

  function EncodeAll(ps: seq<Packet>): bytes {
    if ps == [] then [] else EncodeAll(ps[..|ps| - 1]) + Encode(ps[|ps| - 1])
  }

  /** `SegHead::parse` at the front of `d`, together with the payload the header
      announces. The checks come in the source's order. */
  function ParseSegment(d: bytes, conv: u32): (r: Result<Packet, Error>)
    requires |d| >= OVERHEAD
    ensures r.Ok? ==> Sendable(r.value, conv) && OVERHEAD + |r.value.data| <= |d|
  {
    var found := FromLe32(d[..4]);
    var len := FromLe32(d[20..24]);
    if found != conv then
      Err(ConvInconsistent(conv, found))
    else if |d| - OVERHEAD < len then
      Err(SegmentDataSizeMismatch(len, |d| - OVERHEAD))
    else if !KnownCmd(d[4]) then
      Err(UnsupportedCmd(d[4]))
    else
      Ok(Packet(found, d[4], d[5], FromLe16(d[6..8]), FromLe32(d[8..12]), FromLe32(d[12..16]),
                FromLe32(d[16..20]), d[24..24 + len]))
  }

  /** The segments the loop of `input` takes out of one datagram, and the error
      that stopped it, if any. Fewer than 24 trailing bytes are ignored. */
  datatype Contents = Contents(packets: seq<Packet>, error: Option<Error>)

  function Split(d: bytes, conv: u32): (c: Contents)
    ensures forall i :: 0 <= i < |c.packets| ==> Sendable(c.packets[i], conv)
  {
    if |d| < OVERHEAD then
      Contents([], None)
    else
      match ParseSegment(d, conv)
      case Err(e) => Contents([], Some(e))
      case Ok(p) =>
        var rest := Split(d[OVERHEAD + |p.data|..], conv);
        Contents([p] + rest.packets, rest.error)
  }

  /** Where eight consecutive fields land, whatever their contents. */
  lemma FieldOffsets(conv: bytes, ops: bytes, wnd: bytes, ts: bytes, sn: bytes, una: bytes, len: bytes,
                     data: bytes, rest: bytes)
    requires |conv| == |ts| == |sn| == |una| == |len| == 4 && |ops| == |wnd| == 2
    ensures var d := conv + ops + wnd + ts + sn + una + len + data + rest;
            && d[..4] == conv && d[4..6] == ops && d[6..8] == wnd && d[8..12] == ts && d[12..16] == sn
            && d[16..20] == una && d[20..24] == len && d[24..24 + |data|] == data && d[24 + |data|..] == rest
  {
  }

  lemma ParseEncoded(p: Packet, conv: u32, rest: bytes)
    requires Sendable(p, conv)
    ensures ParseSegment(Encode(p) + rest, conv) == Ok(p)
    ensures (Encode(p) + rest)[OVERHEAD + |p.data|..] == rest
  {
    hide Le16, Le32, FromLe16, FromLe32;
    var d := Encode(p) + rest;
    FieldOffsets(Le32(p.conv), [p.cmd, p.frg], Le16(p.wnd), Le32(p.ts), Le32(p.sn), Le32(p.una),
                 Le32(Min(|p.data|, TWO32 - 1)), p.data, rest);
    assert d[4..6] == [p.cmd, p.frg];
    assert d[4] == d[4..6][0] && d[5] == d[4..6][1];
  }

  lemma SplitHead(p: Packet, conv: u32, tail: bytes)
    requires Sendable(p, conv)
    ensures Split(Encode(p) + tail, conv) == Contents([p] + Split(tail, conv).packets, Split(tail, conv).error)
  {
    hide Encode, ParseSegment;
    ParseEncoded(p, conv, tail);
  }

  lemma Cut(d: bytes, n: nat)
    requires 24 + n <= |d|
    ensures d[..24 + n] == d[..4] + d[4..6] + d[6..8] + d[8..12] + d[12..16] + d[16..20] + d[20..24] + d[24..24 + n]
  {
  }

  /** What is parsed is what was there: the segment's encoding is the bytes read. */
  lemma ParsedIsEncoded(d: bytes, conv: u32)
    requires |d| >= OVERHEAD && ParseSegment(d, conv).Ok?
    ensures var p := ParseSegment(d, conv).value; Encode(p) == d[..OVERHEAD + |p.data|]
  {
    var p := ParseSegment(d, conv).value;
    var len := FromLe32(d[20..24]);
    assert p.data == d[24..24 + len] && |p.data| == len;
    Le32Back(d[..4]);
    Le16Back(d[6..8]);
    Le32Back(d[8..12]);
    Le32Back(d[12..16]);
    Le32Back(d[16..20]);
    Le32Back(d[20..24]);
    assert d[4..6] == [p.cmd, p.frg];
    Cut(d, len);
    hide Le16, Le32, FromLe16, FromLe32;
  }

  /** A run of segments the peer sends, and fewer bytes than a header behind it. */
  predicate Readable(d: bytes, conv: u32, ps: seq<Packet>, tail: bytes) {
    && (forall i :: 0 <= i < |ps| ==> Sendable(ps[i], conv))
    && |tail| < OVERHEAD && d == EncodeAll(ps) + tail
  }

  lemma EncodeAllFirst(p: Packet, ps: seq<Packet>)
    ensures EncodeAll([p] + ps) == Encode(p) + EncodeAll(ps)
  {
    hide Encode;
    EncodeAllJoin([p], ps);
    assert [p][..0] == [] && EncodeAll([p]) == EncodeAll([]) + Encode(p);
  }

  lemma {:induction false} EncodeAllJoin(a: seq<Packet>, b: seq<Packet>)
    ensures EncodeAll(a + b) == EncodeAll(a) + EncodeAll(b)
  {
    hide Encode;
    if b == [] {
      assert a + b == a;
    } else {
      assert (a + b)[..|a + b| - 1] == a + b[..|b| - 1];
      EncodeAllJoin(a, b[..|b| - 1]);
    }
  }

  lemma {:induction false} AcceptedIsReadable(d: bytes, conv: u32) returns (tail: bytes)
    requires Split(d, conv).error.None?
    ensures Readable(d, conv, Split(d, conv).packets, tail)
    decreases |d|
  {
    if |d| < OVERHEAD {
      tail := d;
      assert EncodeAll([]) + d == d;
    } else {
      var p := ParseSegment(d, conv).value;
      ParsedIsEncoded(d, conv);
      hide Encode, ParseSegment, Readable;
      tail := AcceptedIsReadable(d[OVERHEAD + |p.data|..], conv);
      ReadableFirst(d, conv, p, Split(d[OVERHEAD + |p.data|..], conv).packets, tail);
    }
  }

  lemma ReadableFirst(d: bytes, conv: u32, p: Packet, rest: seq<Packet>, tail: bytes)
    requires OVERHEAD + |p.data| <= |d| && Sendable(p, conv) && Encode(p) == d[..OVERHEAD + |p.data|]
    requires Readable(d[OVERHEAD + |p.data|..], conv, rest, tail)
    ensures Readable(d, conv, [p] + rest, tail)
  {
    var n := OVERHEAD + |p.data|;
    EncodeAllFirst(p, rest);
    hide Encode, EncodeAll;
    assert d == d[..n] + d[n..];
    assert Encode(p) + (EncodeAll(rest) + tail) == (Encode(p) + EncodeAll(rest)) + tail;
  }

  /** The wire round trip: the splitting loop recovers exactly the segments that
      were encoded one after the other, in order, whatever follows them. */
  lemma {:induction false} SplitEncoded(ps: seq<Packet>, conv: u32, tail: bytes)
    requires forall i :: 0 <= i < |ps| ==> Sendable(ps[i], conv)
    ensures Split(EncodeAll(ps) + tail, conv)
         == Contents(ps + Split(tail, conv).packets, Split(tail, conv).error)
  {
    hide Encode, ParseSegment;
    if ps == [] {
      assert EncodeAll(ps) + tail == tail;
      assert ps + Split(tail, conv).packets == Split(tail, conv).packets;
    } else {
      var front, last := ps[..|ps| - 1], ps[|ps| - 1];
      assert EncodeAll(ps) + tail == EncodeAll(front) + (Encode(last) + tail);
      SplitEncoded(front, conv, Encode(last) + tail);
      SplitHead(last, conv, tail);
      hide Split;
      assert ps == front + [last];
      assert front + ([last] + Split(tail, conv).packets) == ps + Split(tail, conv).packets;
    }
  }

  /** A datagram is read without an error if and only if it is a run of segments of this
      conversation and fewer bytes than a header behind it, and then those are read. */
  lemma AcceptsExactly(d: bytes, conv: u32)
    ensures Split(d, conv).error.None? <==> exists ps, tail :: Readable(d, conv, ps, tail)
    ensures forall ps, tail :: Readable(d, conv, ps, tail) ==> Split(d, conv) == Contents(ps, None)
  {
    if Split(d, conv).error.None? {
      var tail := AcceptedIsReadable(d, conv);
    }
    forall ps, tail | Readable(d, conv, ps, tail) ensures Split(d, conv) == Contents(ps, None) {
      SplitEncoded(ps, conv, tail);
      assert ps + [] == ps;
    }
  }

  lemma SplitEncodedAll(ps: seq<Packet>, conv: u32)
    requires forall i :: 0 <= i < |ps| ==> Sendable(ps[i], conv)
    ensures Split(EncodeAll(ps), conv) == Contents(ps, None)
  {
    SplitEncoded(ps, conv, []);
    assert EncodeAll(ps) + [] == EncodeAll(ps);
  }

  // ------------------------------------------------------------------ packing

  /** The staging buffer and the datagrams already handed to the sink. */
  datatype Outbox = Outbox(staged: bytes, out: seq<bytes>)

  /** One segment through the output path of `flush`: a PUSH with nothing staged
      goes out at once as header plus payload; anything else is staged, after
      what is staged already has been written when the two would not fit. */
  function EmitOne(box: Outbox, mtu: nat, p: Packet): Outbox {
    if box.staged == [] && p.cmd == CMD_PUSH then
      box.(out := box.out + [Encode(p)])
    else if |box.staged| + OVERHEAD + |p.data| > mtu then
      Outbox(Encode(p), box.out + [box.staged])
    else
      box.(staged := box.staged + Encode(p))
  }

  function EmitAll(box: Outbox, mtu: nat, ps: seq<Packet>): Outbox {
    if ps == [] then box
    else EmitOne(EmitAll(box, mtu, ps[..|ps| - 1]), mtu, ps[|ps| - 1])
  }

  /** The write that ends a flush. */
  function Seal(box: Outbox): Outbox {
    if box.staged == [] then box else Outbox([], box.out + [box.staged])
  }

  lemma {:induction false} EmitAllAppend(box: Outbox, mtu: nat, ps: seq<Packet>, qs: seq<Packet>)
    ensures EmitAll(box, mtu, ps + qs) == EmitAll(EmitAll(box, mtu, ps), mtu, qs)
  {
    if qs == [] {
      assert ps + qs == ps;
    } else {
      assert (ps + qs)[..|ps + qs| - 1] == ps + qs[..|qs| - 1];
      EmitAllAppend(box, mtu, ps, qs[..|qs| - 1]);
    }
  }

  /** A byte run that is a concatenation of whole segments the peer accepts. */
  predicate Clean(d: bytes, conv: u32) {
    var c := Split(d, conv);
    c.error.None? && EncodeAll(c.packets) == d
  }

  predicate CleanBox(box: Outbox, conv: u32, mtu: nat) {
    && Clean(box.staged, conv) && |box.staged| <= mtu
    && forall i :: 0 <= i < |box.out| ==> Clean(box.out[i], conv) && |box.out[i]| <= mtu
  }

  /** What a peer reading `out` in order recovers. */
  function Carried(out: seq<bytes>, conv: u32): seq<Packet> {
    if out == [] then []
    else Carried(out[..|out| - 1], conv) + Split(out[|out| - 1], conv).packets
  }

  function InOrder(box: Outbox, conv: u32): seq<Packet> {
    Carried(box.out, conv) + Split(box.staged, conv).packets
  }

  lemma CleanEmpty(conv: u32)
    ensures Clean([], conv) && Split([], conv) == Contents([], None)
  {
  }

  lemma CleanAppend(d: bytes, conv: u32, p: Packet)
    requires Clean(d, conv) && Sendable(p, conv)
    ensures Clean(d + Encode(p), conv)
    ensures Split(d + Encode(p), conv).packets == Split(d, conv).packets + [p]
  {
    var ps := Split(d, conv).packets + [p];
    assert ps[..|ps| - 1] == Split(d, conv).packets;
    assert EncodeAll(ps) == d + Encode(p);
    SplitEncodedAll(ps, conv);
  }

  lemma CarriedOne(out: seq<bytes>, d: bytes, conv: u32)
    ensures Carried(out + [d], conv) == Carried(out, conv) + Split(d, conv).packets
  {
    assert (out + [d])[..|out|] == out;
  }

  lemma EmitOneKeeps(box: Outbox, mtu: nat, conv: u32, p: Packet)
    requires CleanBox(box, conv, mtu) && Sendable(p, conv) && OVERHEAD + |p.data| <= mtu
    ensures var b := EmitOne(box, mtu, p);
            && CleanBox(b, conv, mtu) && box.out <= b.out
            && InOrder(b, conv) == InOrder(box, conv) + [p]
  {
    hide Encode, Clean, Split;
    CleanEmpty(conv);
    var alone := Encode(p);
    CleanAppend([], conv, p);
    assert [] + alone == alone;
    if box.staged == [] && p.cmd == CMD_PUSH {
      CarriedOne(box.out, alone, conv);
    } else if |box.staged| + OVERHEAD + |p.data| > mtu {
      CarriedOne(box.out, box.staged, conv);
    } else {
      CleanAppend(box.staged, conv, p);
    }
  }

  /** Packing loses, reorders and invents nothing, and no datagram outgrows the
      MTU: a peer that splits the datagrams in order reads what was staged
      before, then exactly the emitted segments in emission order. */
  lemma {:induction false} EmitAllKeeps(box: Outbox, mtu: nat, conv: u32, ps: seq<Packet>)
    requires CleanBox(box, conv, mtu)
    requires forall i :: 0 <= i < |ps| ==> Sendable(ps[i], conv) && OVERHEAD + |ps[i].data| <= mtu
    ensures var b := EmitAll(box, mtu, ps);
            && CleanBox(b, conv, mtu) && box.out <= b.out
            && InOrder(b, conv) == InOrder(box, conv) + ps
  {
    hide CleanBox, EmitOne, InOrder;
    if ps == [] {
    } else {
      var front := ps[..|ps| - 1];
      EmitAllKeeps(box, mtu, conv, front);
      EmitOneKeeps(EmitAll(box, mtu, front), mtu, conv, ps[|ps| - 1]);
      assert ps == front + [ps[|ps| - 1]];
      assert InOrder(box, conv) + front + [ps[|ps| - 1]] == InOrder(box, conv) + ps;
    }
  }

  lemma SealKeeps(box: Outbox, mtu: nat, conv: u32)
    requires CleanBox(box, conv, mtu)
    ensures var b := Seal(box);
            && CleanBox(b, conv, mtu) && box.out <= b.out && b.staged == []
            && Carried(b.out, conv) == InOrder(box, conv)
  {
    CleanEmpty(conv);
    CarriedOne(box.out, box.staged, conv);
    hide Split, Carried, Clean;
    assert Carried(box.out, conv) + [] == Carried(box.out, conv);
  }

  /** Control segments fill their datagrams: whatever is written while they are emitted
      had no room for one more. */
  lemma {:induction false} ControlFills(box: Outbox, mtu: nat, ps: seq<Packet>)
    requires OVERHEAD <= mtu && forall i :: 0 <= i < |ps| ==> ps[i].cmd != CMD_PUSH && ps[i].data == []
    ensures var b := EmitAll(box, mtu, ps);
            box.out <= b.out && forall i :: |box.out| <= i < |b.out| ==> |b.out[i]| + OVERHEAD > mtu
  {
    hide Encode;
    if ps != [] {
      ControlFills(box, mtu, ps[..|ps| - 1]);
    }
  }
}
