/** UDP datagrams on a data channel: `[header length][header][payload]`, and the
    reader that drops what it cannot hold without losing the frame boundary. */
module UdpFrames {
  import opened Words
  import Utf8

  const MAX_HEADER_LEN: nat := 32

  datatype Addr = V4(octets4: seq<u8>, port: u16) | V6(octets6: seq<u8>, port: u16)

  predicate AddrOk(a: Addr) {
    match a
    case V4(o, _) => |o| == 4
    case V6(o, _) => |o| == 16
  }

  datatype Datagram = Datagram(from: Addr, data: bytes)

  datatype Error = TooLong(len: nat) | HeaderTooLong(len: nat) | Truncated | Malformed

  /** The serialized header: address tag, address bytes, port and length as varints. */
  function Header(from: Addr, len: u16): bytes {
    match from
    case V4(o, port) => [0] + o + Utf8.Varint(port) + Utf8.Varint(len)
    case V6(o, port) => [1] + o + Utf8.Varint(port) + Utf8.Varint(len)
  }

  /** `encode_udp_frame`. */
  function EncodeFrame(d: Datagram): Result<bytes, Error> {
    if |d.data| > 0xFFFF then Err(TooLong(|d.data|))
    else
      var h := Header(d.from, |d.data|);
      if |h| > MAX_HEADER_LEN then Err(HeaderTooLong(|h|)) else Ok([|h|] + h + d.data)
  }

  function DecodePorts(b: bytes): Option<(u16, u16)> {
    match Utf8.ReadVarint(b, 3, 3)
    case None => None
    case Some((port, rest)) =>
      match Utf8.ReadVarint(rest, 3, 3)
      case None => None
      case Some((len, _)) => if port <= 0xFFFF && len <= 0xFFFF then Some((port, len)) else None
  }

  function DecodeHeader(b: bytes): (r: Result<(Addr, u16), Error>) {
    match Utf8.ReadVarint(b, 5, 15)
    case None => Err(Malformed)
    case Some((tag, rest)) =>
      var n := if tag == 0 then 4 else 16;
      if tag > 1 || |rest| < n then Err(Malformed)
      else
        match DecodePorts(rest[n..])
        case None => Err(Malformed)
        case Some((port, len)) => Ok((if tag == 0 then V4(rest[..n], port) else V6(rest[..n], port), len))
  }

  /** The header length byte and `UdpTraffic::read` behind it: a payload above the
      receiver's limit is drained and reported as dropped. */
  function ReadFrame(stream: bytes, maxLen: nat): (r: Result<(Option<Datagram>, bytes), Error>)
    ensures r.Ok? ==> |r.value.1| < |stream|
  {
    if stream == [] then Err(Truncated)
    else
      var n := stream[0];
      if n > MAX_HEADER_LEN then Err(HeaderTooLong(n))
      else if |stream| < 1 + n then Err(Truncated)
      else
        match DecodeHeader(stream[1..1 + n])
        case Err(e) => Err(e)
        case Ok((from, len)) =>
          var rest := stream[1 + n..];
          if |rest| < len then Err(Truncated)
          else if len > Min(maxLen, 0xFFFF) then Ok((None, rest[len..]))
          else Ok((Some(Datagram(from, rest[..len])), rest[len..]))
  }

  /** Every datagram of a channel until it ends or breaks. */
  function ReadAll(stream: bytes, maxLen: nat): (seq<Datagram>, Option<Error>) {
    if stream == [] then ([], None)
    else
      match ReadFrame(stream, maxLen)
      case Err(e) => ([], Some(e))
      case Ok((d, rest)) =>
        var (more, e) := ReadAll(rest, maxLen);
        ((if d.Some? then [d.value] else []) + more, e)
  }

  predicate Sendable(d: Datagram) {
    AddrOk(d.from) && |d.data| <= 0xFFFF
  }

  lemma PortCapacity()
    ensures Utf8.Capacity(3, 3) == 0x1_0000
  {
    assert Utf8.Capacity(3, 3) == 0x80 * Utf8.Capacity(2, 3);
    assert Utf8.Capacity(2, 3) == 0x80 * Utf8.Capacity(1, 3);
  }

  lemma PortsRoundTrip(port: u16, len: u16)
    ensures DecodePorts(Utf8.Varint(port) + Utf8.Varint(len)) == Some((port, len))
    ensures |Utf8.Varint(port)| <= 3 && |Utf8.Varint(len)| <= 3
  {
    PortCapacity();
    hide Utf8.Varint, Utf8.ReadVarint, Utf8.Capacity;
    Utf8.VarintRoundTrip(port, 3, 3, Utf8.Varint(len));
    Utf8.VarintRoundTrip(len, 3, 3, []);
    assert Utf8.Varint(len) + [] == Utf8.Varint(len);
  }

  lemma HeaderRoundTrip(from: Addr, len: u16)
    requires AddrOk(from)
    ensures DecodeHeader(Header(from, len)) == Ok((from, len)) && |Header(from, len)| <= 23
  {
    hide Utf8.Varint, Utf8.ReadVarint, DecodePorts;
    PortsRoundTrip(from.port, len);
    var ports := Utf8.Varint(from.port) + Utf8.Varint(len);
    var o := if from.V4? then from.octets4 else from.octets6;
    var tag: u8 := if from.V4? then 0 else 1;
    Utf8.SmallTag(tag, o + ports);
    assert Header(from, len) == [tag] + (o + ports);
    assert (o + ports)[..|o|] == o && (o + ports)[|o|..] == ports;
  }

  /** A header always fits its 32-byte buffer, so every datagram of at most 65535
      bytes can be framed. */
  lemma AlwaysFramed(d: Datagram)
    requires AddrOk(d.from)
    ensures EncodeFrame(d).Ok? <==> |d.data| <= 0xFFFF
  {
    hide Header;
    if |d.data| <= 0xFFFF {
      HeaderRoundTrip(d.from, |d.data|);
    }
  }

  /** Where a frame's parts lie in the stream. */
  lemma Cuts(h: bytes, data: bytes, rest: bytes)
    requires |h| <= MAX_HEADER_LEN
    ensures var stream := ([|h|] + h + data) + rest;
            && stream[0] == |h| && stream[1..1 + |h|] == h
            && |stream[1 + |h|..]| == |data| + |rest|
            && stream[1 + |h|..][..|data|] == data && stream[1 + |h|..][|data|..] == rest
  {
    var stream := ([|h|] + h + data) + rest;
    assert stream == [|h|] + (h + (data + rest));
    assert stream[1..1 + |h|] == (h + (data + rest))[..|h|] == h;
    assert stream[1 + |h|..] == (h + (data + rest))[|h|..] == data + rest;
  }

  lemma ReadEncoded(d: Datagram, rest: bytes, maxLen: nat)
    requires Sendable(d)
    ensures EncodeFrame(d).Ok? && EncodeFrame(d).value != []
    ensures ReadFrame(EncodeFrame(d).value + rest, maxLen)
         == Ok((if |d.data| <= maxLen then Some(d) else None, rest))
  {
    AlwaysFramed(d);
    HeaderRoundTrip(d.from, |d.data|);
    hide Header, DecodeHeader;
    var h := Header(d.from, |d.data|);
    Cuts(h, d.data, rest);
  }

  function EncodeAll(ds: seq<Datagram>): bytes {
    if ds == [] then []
    else
      var r := EncodeFrame(ds[0]);
      (if r.Ok? then r.value else []) + EncodeAll(ds[1..])
  }

  function Within(ds: seq<Datagram>, maxLen: nat): seq<Datagram> {
    if ds == [] then [] else (if |ds[0].data| <= maxLen then [ds[0]] else []) + Within(ds[1..], maxLen)
  }

  /** The receiver gets exactly the datagrams within its limit, in order and with
      their addresses: an oversized one is skipped, not a loss of sync. */
  lemma {:induction false} ReadsWithinLimit(ds: seq<Datagram>, maxLen: nat)
    requires forall i :: 0 <= i < |ds| ==> Sendable(ds[i])
    ensures ReadAll(EncodeAll(ds), maxLen) == (Within(ds, maxLen), None)
  {
    hide EncodeFrame, ReadFrame;
    if ds != [] {
      var rest := EncodeAll(ds[1..]);
      ReadEncoded(ds[0], rest, maxLen);
      ReadsWithinLimit(ds[1..], maxLen);
    }
  }

  /** The reading loop of a channel. */
  method ReadChannel(stream: bytes, maxLen: nat) returns (got: seq<Datagram>, error: Option<Error>)
    ensures (got, error) == ReadAll(stream, maxLen)
  {
    hide ReadFrame;
    got := [];
    var rest := stream;
    while rest != []
      invariant got + ReadAll(rest, maxLen).0 == ReadAll(stream, maxLen).0
      invariant ReadAll(rest, maxLen).1 == ReadAll(stream, maxLen).1
      decreases |rest|
    {
      Consumes(rest, maxLen);
      var r := ReadFrame(rest, maxLen);
      if r.Err? {
        assert got + [] == got;
        return got, Some(r.error);
      }
      var (d, more) := r.value;
      ghost var after := ReadAll(more, maxLen).0;
      assert d.Some? ==> got + ([d.value] + after) == (got + [d.value]) + after;
      assert d.None? ==> got + ([] + after) == got + after;
      if d.Some? {
        got := got + [d.value];
      }
      rest := more;
    }
    assert got + [] == got;
    error := None;
  }

  lemma Consumes(stream: bytes, maxLen: nat)
    ensures ReadFrame(stream, maxLen).Ok? ==> |ReadFrame(stream, maxLen).value.1| < |stream|
  {
  }
}
