/** One session stream carries commands and framed acknowledgements; the reader
    tells them apart by the first byte and must never lose the frame boundary. */
module SessionWire {
  import opened Words
  import Utf8

  const MAX_REGISTRATION_LEN: nat := 1024
  const MAX_REASON_LEN: nat := 250

  /** Four raw bytes: a service, group, lane or tunnel id, or a saturated counter. */
  type Quad = b: bytes | |b| == 4 witness [0, 0, 0, 0]

  datatype Ack =
    | Accepted
    | AuthFailed
    | RegisterRejected(reason: string)
    | SessionOk(heartbeat: u64)
    | TunnelRefused

  /** The commands a session can receive; their tags are 1 to 8. */
  datatype Cmd =
    | HeartBeat
    | CreateDataChannelFor(service: Quad)
    | ServiceDropped(service: Quad)
    | CreateDataChannelForStripe(service: Quad, group: Quad, index: u8, count: u8)
    | CarrierReport(service: Quad, lane: Quad, offered: Quad, refused: Quad, sample: u8)
    | LaneDrainAck(service: Quad, lane: Quad, state: u8)
    | TunnelHealth(service: Quad, tunnel: Quad, emitted: Quad, resent: Quad, handed: Quad, sample: u8)
    | ReleaseStripedGroup(service: Quad, group: Quad)

  datatype Error =
    | Closed
    | Truncated
    | UnknownTag(tag: u8)
    | TooLarge(len: nat)
    | Malformed
    | OldDialect

  // ---------------------------------------------------------------- commands

  function Tag(c: Cmd): (t: u8)
    ensures 1 <= t <= 8
  {
    match c
    case HeartBeat => 1
    case CreateDataChannelFor(_) => 2
    case ServiceDropped(_) => 3
    case CreateDataChannelForStripe(_, _, _, _) => 4
    case CarrierReport(_, _, _, _, _) => 5
    case LaneDrainAck(_, _, _) => 6
    case TunnelHealth(_, _, _, _, _, _) => 7
    case ReleaseStripedGroup(_, _) => 8
  }

  function Fields(c: Cmd): bytes {
    match c
    case HeartBeat => []
    case CreateDataChannelFor(s) => s
    case ServiceDropped(s) => s
    case CreateDataChannelForStripe(s, g, i, n) => s + g + [i, n]
    case CarrierReport(s, l, o, r, q) => s + l + o + r + [q]
    case LaneDrainAck(s, l, st) => s + l + [st]
    case TunnelHealth(s, t, e, r, h, q) => s + t + e + r + h + [q]
    case ReleaseStripedGroup(s, g) => s + g
  }

  function EncodeCmd(c: Cmd): bytes {
    [Tag(c)] + Fields(c)
  }

  function EncodeCmds(cs: seq<Cmd>): bytes {
    if cs == [] then [] else EncodeCmd(cs[0]) + EncodeCmds(cs[1..])
  }

  /** The suffix table of `read_control_cmd`: the tag alone decides the length. */
  function SuffixLen(tag: u8): Option<nat> {
    if tag == 1 then Some(0)
    else if tag == 2 || tag == 3 then Some(4)
    else if tag == 4 then Some(10)
    else if tag == 5 then Some(17)
    else if tag == 6 then Some(9)
    else if tag == 7 then Some(21)
    else if tag == 8 then Some(8)
    else None
  }

  function DecodeFields(tag: u8, f: bytes): Cmd
    requires SuffixLen(tag) == Some(|f|)
  {
    if tag == 1 then HeartBeat
    else if tag == 2 then CreateDataChannelFor(f)
    else if tag == 3 then ServiceDropped(f)
    else if tag == 4 then CreateDataChannelForStripe(f[..4], f[4..8], f[8], f[9])
    else if tag == 5 then CarrierReport(f[..4], f[4..8], f[8..12], f[12..16], f[16])
    else if tag == 6 then LaneDrainAck(f[..4], f[4..8], f[8])
    else if tag == 7 then TunnelHealth(f[..4], f[4..8], f[8..12], f[12..16], f[16..20], f[20])
    else ReleaseStripedGroup(f[..4], f[4..])
  }

  /** `read_control_cmd`; `Ok` carries what follows the command. The tag 0 of the
      older dialect is refused by every caller. */
  function ReadCmd(stream: bytes): (r: Result<(Cmd, bytes), Error>)
    ensures r.Ok? ==> |r.value.1| < |stream|
  {
    if stream == [] then Err(Truncated)
    else if stream[0] == 0 then Err(OldDialect)
    else
      match SuffixLen(stream[0])
      case None => Err(UnknownTag(stream[0]))
      case Some(n) =>
        if |stream| < 1 + n then Err(Truncated)
        else Ok((DecodeFields(stream[0], stream[1..1 + n]), stream[1 + n..]))
  }

  lemma FieldsRoundTrip(c: Cmd)
    ensures SuffixLen(Tag(c)) == Some(|Fields(c)|)
    ensures DecodeFields(Tag(c), Fields(c)) == c
  {
    var f := Fields(c);
    match c
    case HeartBeat =>
    case CreateDataChannelFor(_) =>
    case ServiceDropped(_) =>
    case CreateDataChannelForStripe(s, g, i, n) =>
      assert f[..4] == s && f[4..8] == g;
    case CarrierReport(s, l, o, r, q) =>
      assert f[..4] == s && f[4..8] == l && f[8..12] == o && f[12..16] == r;
    case LaneDrainAck(s, l, st) =>
      assert f[..4] == s && f[4..8] == l;
    case TunnelHealth(s, t, e, r, h, q) =>
      assert f[..4] == s && f[4..8] == t && f[8..12] == e && f[12..16] == r && f[16..20] == h;
    case ReleaseStripedGroup(s, g) =>
      assert f[..4] == s && f[4..] == g;
  }

  /** A command is read back whole and the reader stands right behind it. */
  lemma ReadEncodedCmd(c: Cmd, rest: bytes)
    ensures EncodeCmd(c)[0] != 0 && ReadCmd(EncodeCmd(c) + rest) == Ok((c, rest))
  {
    FieldsRoundTrip(c);
    hide Fields, DecodeFields, SuffixLen, Tag;
    var f := Fields(c);
    var stream := EncodeCmd(c) + rest;
    assert stream[0] == Tag(c) && stream[1..1 + |f|] == f && stream[1 + |f|..] == rest;
  }

  lemma FieldsBack(tag: u8, f: bytes)
    requires SuffixLen(tag) == Some(|f|)
    ensures Tag(DecodeFields(tag, f)) == tag && Fields(DecodeFields(tag, f)) == f
  {
    if tag == 4 {
      assert f == f[..4] + f[4..8] + [f[8], f[9]];
    } else if tag == 5 {
      assert f == f[..4] + f[4..8] + f[8..12] + f[12..16] + [f[16]];
    } else if tag == 6 {
      assert f == f[..4] + f[4..8] + [f[8]];
    } else if tag == 7 {
      assert f == f[..4] + f[4..8] + f[8..12] + f[12..16] + f[16..20] + [f[20]];
    } else if tag == 8 {
      assert f == f[..4] + f[4..];
    }
  }

  /** The reader accepts exactly what begins with the encoding of a command, and returns
      that command and what follows it. */
  lemma ReadCmdExact(stream: bytes, c: Cmd, rest: bytes)
    ensures ReadCmd(stream) == Ok((c, rest)) <==> stream == EncodeCmd(c) + rest
  {
    ReadEncodedCmd(c, rest);
    if ReadCmd(stream) == Ok((c, rest)) {
      var n := SuffixLen(stream[0]).value;
      FieldsBack(stream[0], stream[1..1 + n]);
      hide Fields, DecodeFields, Tag;
      assert stream == [stream[0]] + stream[1..1 + n] + stream[1 + n..];
    }
  }

  // -------------------------------------------------------- acknowledgements

  /** The rejection reason that goes on the wire: itself if it fits, otherwise its
      longest prefix that leaves room for the ellipsis. */
  function Fitted(reason: string): string {
    if |Utf8.Encode(reason)| <= MAX_REASON_LEN then reason
    else reason[..Utf8.MaxPrefix(reason, MAX_REASON_LEN - 3)] + ['\U{2026}']
  }

  lemma EllipsisBytes()
    ensures Utf8.EncodeChar('\U{2026}') == [0xE2, 0x80, 0xA6]
    ensures Utf8.Encode(['\U{2026}']) == [0xE2, 0x80, 0xA6]
  {
    assert ['\U{2026}'][1..] == [];
  }

  lemma FittedFits(reason: string)
    ensures |Utf8.Encode(Fitted(reason))| <= MAX_REASON_LEN
    ensures |Utf8.Encode(reason)| > MAX_REASON_LEN ==>
              var cut := |Utf8.Encode(reason[..Utf8.MaxPrefix(reason, MAX_REASON_LEN - 3)])|;
              && MAX_REASON_LEN - 7 < cut <= MAX_REASON_LEN - 3
              && Utf8.Encode(Fitted(reason)) == Utf8.Encode(reason)[..cut] + [0xE2, 0x80, 0xA6]
  {
    if |Utf8.Encode(reason)| > MAX_REASON_LEN {
      EllipsisBytes();
      Utf8.MaxPrefixBoundary(reason, MAX_REASON_LEN - 3);
      Utf8.EncodeAppend(reason[..Utf8.MaxPrefix(reason, MAX_REASON_LEN - 3)], ['\U{2026}']);
    }
  }

  /** `fit_rejection_reason` on the bytes of the text: walking back to a character
      boundary yields exactly the longest fitting prefix. */
  method FitRejectionReason(reason: string) returns (fitted: bytes)
    ensures fitted == Utf8.Encode(Fitted(reason)) && |fitted| <= MAX_REASON_LEN
    ensures Utf8.Decode(fitted) == Some(Fitted(reason))
  {
    FittedFits(reason);
    Utf8.EncodedIsRead(Fitted(reason));
    var text := Utf8.Encode(reason);
    if |text| <= MAX_REASON_LEN {
      return text;
    }
    Utf8.MaxPrefixBoundary(reason, MAX_REASON_LEN - 3);
    ghost var cut := |Utf8.Encode(reason[..Utf8.MaxPrefix(reason, MAX_REASON_LEN - 3)])|;
    var end := MAX_REASON_LEN - 3;
    while !Utf8.IsBoundary(text, end)
      invariant cut <= end <= MAX_REASON_LEN - 3
      decreases end
    {
      end := end - 1;
    }
    fitted := text[..end] + [0xE2, 0x80, 0xA6];
  }

  function EncodeAck(a: Ack): bytes {
    match a
    case Accepted => [0]
    case AuthFailed => [1]
    case RegisterRejected(reason) => [2] + Utf8.Varint(|Utf8.Encode(reason)|) + Utf8.Encode(reason)
    case SessionOk(heartbeat) => [3] + Utf8.Varint(heartbeat)
    case TunnelRefused => [4]
  }

  /** The deserializer: a variant number of at most five bytes, then the fields;
      bytes behind the value are ignored. */
  function DecodeAck(b: bytes): Result<Ack, Error> {
    match Utf8.ReadVarint(b, 5, 15)
    case None => Err(Malformed)
    case Some((tag, rest)) =>
      if tag == 0 then Ok(Accepted)
      else if tag == 1 then Ok(AuthFailed)
      else if tag == 2 then
        match Utf8.ReadVarint(rest, 10, 1)
        case None => Err(Malformed)
        case Some((len, text)) =>
          if |text| < len then Err(Malformed)
          else
            match Utf8.Decode(text[..len])
            case None => Err(Malformed)
            case Some(reason) => Ok(RegisterRejected(reason))
      else if tag == 3 then
        match Utf8.ReadVarint(rest, 10, 1)
        case None => Err(Malformed)
        case Some((v, _)) => if v < 0x1_0000_0000_0000_0000 then Ok(SessionOk(v)) else Err(Malformed)
      else if tag == 4 then Ok(TunnelRefused)
      else Err(Malformed)
  }

  /** What the server actually sends for `a`. */
  function Shortened(a: Ack): Ack {
    if a.RegisterRejected? then RegisterRejected(Fitted(a.reason)) else a
  }

  /** `write_register_result`. */
  function WriteAck(a: Ack): Result<bytes, Error> {
    var payload := EncodeAck(Shortened(a));
    if |payload| > MAX_REGISTRATION_LEN then Err(TooLarge(|payload|)) else Ok(Be16(|payload|) + payload)
  }

  /** `read_register_result`. */
  function ReadAck(stream: bytes): Result<(Ack, bytes), Error> {
    if |stream| < 2 then Err(Truncated)
    else
      var len := FromBe16(stream[..2]);
      if len > MAX_REGISTRATION_LEN then Err(TooLarge(len))
      else if |stream| < 2 + len then Err(Truncated)
      else
        match DecodeAck(stream[2..2 + len])
        case Err(e) => Err(e)
        case Ok(a) => Ok((a, stream[2 + len..]))
  }

  lemma Capacities()
    ensures Utf8.Capacity(5, 15) > 0x80 && Utf8.Capacity(10, 1) == 0x1_0000_0000_0000_0000
    ensures Utf8.Capacity(2, 0x7F) == 0x4000
  {
    assert Utf8.Capacity(5, 15) == 0x80 * Utf8.Capacity(4, 15);
    assert Utf8.Capacity(4, 15) == 0x80 * Utf8.Capacity(3, 15);
    assert Utf8.Capacity(3, 15) == 0x80 * Utf8.Capacity(2, 15);
    assert Utf8.Capacity(2, 15) == 0x80 * Utf8.Capacity(1, 15);
    var c2 := Utf8.Capacity(2, 1);
    var c4 := Utf8.Capacity(4, 1);
    assert c2 == 0x80 * Utf8.Capacity(1, 1) == 0x100;
    assert c4 == 0x80 * Utf8.Capacity(3, 1) && Utf8.Capacity(3, 1) == 0x80 * c2;
    assert Utf8.Capacity(6, 1) == 0x80 * Utf8.Capacity(5, 1) && Utf8.Capacity(5, 1) == 0x80 * c4;
    assert Utf8.Capacity(8, 1) == 0x80 * Utf8.Capacity(7, 1) && Utf8.Capacity(7, 1) == 0x80 * Utf8.Capacity(6, 1);
    assert Utf8.Capacity(10, 1) == 0x80 * Utf8.Capacity(9, 1) && Utf8.Capacity(9, 1) == 0x80 * Utf8.Capacity(8, 1);
    assert Utf8.Capacity(2, 0x7F) == 0x80 * Utf8.Capacity(1, 0x7F);
  }

  lemma AckRoundTrip(a: Ack)
    requires a.RegisterRejected? ==> |Utf8.Encode(a.reason)| < 0x1_0000_0000_0000_0000
    ensures DecodeAck(EncodeAck(a)) == Ok(a)
  {
    Capacities();
    hide Utf8.ReadVarint, Utf8.Varint, Utf8.Capacity, Utf8.Encode, Utf8.Decode;
    match a
    case Accepted => Utf8.SmallTag(0, []); assert [0] + [] == EncodeAck(a);
    case AuthFailed => Utf8.SmallTag(1, []); assert [1] + [] == EncodeAck(a);
    case TunnelRefused => Utf8.SmallTag(4, []); assert [4] + [] == EncodeAck(a);
    case RegisterRejected(reason) =>
      var text := Utf8.Encode(reason);
      var len := Utf8.Varint(|text|);
      Utf8.SmallTag(2, len + text);
      assert EncodeAck(a) == [2] + (len + text);
      Utf8.VarintRoundTrip(|text|, 10, 1, text);
      Utf8.EncodedIsRead(reason);
      assert text[..|text|] == text;
    case SessionOk(heartbeat) =>
      var v := Utf8.Varint(heartbeat);
      Utf8.SmallTag(3, v);
      Utf8.VarintRoundTrip(heartbeat, 10, 1, []);
      assert v + [] == v;
  }

  /** Every acknowledgement the server frames is shorter than 256 bytes, so the
      frame starts with a zero byte, which no command does. */
  lemma AckFrameStartsWithZero(a: Ack)
    ensures WriteAck(a).Ok? && |EncodeAck(Shortened(a))| < 0x100
    ensures WriteAck(a).value[0] == 0
  {
    Capacities();
    hide Utf8.Varint, Utf8.Capacity, Utf8.Encode, Fitted;
    match a
    case Accepted =>
    case AuthFailed =>
    case TunnelRefused =>
    case RegisterRejected(reason) =>
      FittedFits(reason);
      Utf8.VarintRoundTrip(|Utf8.Encode(Fitted(reason))|, 2, 0x7F, []);
    case SessionOk(heartbeat) =>
      Utf8.VarintRoundTrip(heartbeat, 10, 1, []);
  }

  /** Without the shortening the rule would fail: a frame's first byte is zero
      exactly while its payload is shorter than 256 bytes. */
  lemma FirstByteRule(payload: bytes)
    requires |payload| <= 0xFFFF
    ensures (Be16(|payload|) + payload)[0] == 0 <==> |payload| < 0x100
  {
  }

  lemma ReadWrittenAck(a: Ack, rest: bytes)
    ensures WriteAck(a).Ok? && ReadAck(WriteAck(a).value + rest) == Ok((Shortened(a), rest))
  {
    AckFrameStartsWithZero(a);
    var payload := EncodeAck(Shortened(a));
    if a.RegisterRejected? {
      FittedFits(a.reason);
    }
    AckRoundTrip(Shortened(a));
    hide EncodeAck, DecodeAck, Shortened, FromBe16;
    var prefix := Be16(|payload|);
    var stream := WriteAck(a).value + rest;
    assert stream[..2] == prefix && stream[2..2 + |payload|] == payload && stream[2 + |payload|..] == rest;
  }

  // ----------------------------------------------------------- await_verdict

  /** `await_verdict`: commands dispatched, in order, until an acknowledgement. */
  function AwaitVerdict(stream: bytes): (seq<Cmd>, Result<(Ack, bytes), Error>) {
    if stream == [] then ([], Err(Closed))
    else if stream[0] == 0 then ([], ReadAck(stream))
    else
      match ReadCmd(stream)
      case Err(e) => ([], Err(e))
      case Ok((c, rest)) =>
        var (more, verdict) := AwaitVerdict(rest);
        ([c] + more, verdict)
  }

  /** One turn of the wait. */
  lemma AwaitTurn(stream: bytes)
    ensures AwaitVerdict(stream) ==
            if stream == [] then ([], Err(Closed))
            else if stream[0] == 0 then ([], ReadAck(stream))
            else if ReadCmd(stream).Err? then ([], Err(ReadCmd(stream).error))
            else var (c, rest) := ReadCmd(stream).value; ([c] + AwaitVerdict(rest).0, AwaitVerdict(rest).1)
  {
    hide ReadCmd, ReadAck;
  }

  /** The services whose drops the wait queued for later. */
  function Drops(cs: seq<Cmd>): seq<Quad> {
    if cs == [] then []
    else Drops(cs[..|cs| - 1]) + (if cs[|cs| - 1].ServiceDropped? then [cs[|cs| - 1].service] else [])
  }

  /** Each drop among the commands is kept, in its place, and nothing else is. */
  lemma {:induction false} DropsExact(before: seq<Cmd>, c: Cmd, behind: seq<Cmd>)
    ensures Drops(before + [c] + behind) ==
            Drops(before) + (if c.ServiceDropped? then [c.service] else []) + Drops(behind)
  {
    if behind == [] {
      assert before + [c] + behind == before + [c] && (before + [c])[..|before|] == before;
    } else {
      var front, last := behind[..|behind| - 1], behind[|behind| - 1];
      var all := before + [c] + behind;
      assert all[..|all| - 1] == before + [c] + front && all[|all| - 1] == last;
      DropsExact(before, c, front);
    }
  }

  /** The loop itself: `pending` is the session's list of drops to serve later. */
  method AwaitVerdictLoop(stream: bytes, pending: seq<Quad>)
    returns (dispatched: seq<Cmd>, drops: seq<Quad>, verdict: Result<(Ack, bytes), Error>)
    ensures (dispatched, verdict) == AwaitVerdict(stream)
    ensures drops == pending + Drops(dispatched)
  {
    hide ReadAck, ReadCmd, AwaitVerdict;
    dispatched, drops := [], pending;
    var rest := stream;
    while true
      invariant dispatched + AwaitVerdict(rest).0 == AwaitVerdict(stream).0
      invariant AwaitVerdict(rest).1 == AwaitVerdict(stream).1
      invariant drops == pending + Drops(dispatched)
      decreases |rest|
    {
      AwaitTurn(rest);
      assert dispatched + [] == dispatched;
      if rest == [] {
        return dispatched, drops, Err(Closed);
      }
      if rest[0] == 0 {
        verdict := ReadAck(rest);
        return;
      }
      var r := ReadCmd(rest);
      if r.Err? {
        return dispatched, drops, Err(r.error);
      }
      Shorter(rest);
      var c := r.value.0;
      assert dispatched + ([c] + AwaitVerdict(r.value.1).0) == (dispatched + [c]) + AwaitVerdict(r.value.1).0;
      assert (dispatched + [c])[..|dispatched|] == dispatched;
      dispatched := dispatched + [c];
      if c.ServiceDropped? {
        drops := drops + [c.service];
      }
      rest := r.value.1;
    }
  }

  lemma Shorter(stream: bytes)
    ensures ReadCmd(stream).Ok? ==> |ReadCmd(stream).value.1| < |stream|
  {
  }

  /** On a stream of any commands followed by one framed acknowledgement, whatever
      its reason, the wait dispatches exactly those commands in order, returns that
      acknowledgement with its reason shortened at most, and stands right behind it. */
  lemma {:induction false} VerdictInSync(cs: seq<Cmd>, a: Ack, rest: bytes)
    ensures WriteAck(a).Ok?
    ensures AwaitVerdict(EncodeCmds(cs) + WriteAck(a).value + rest) == (cs, Ok((Shortened(a), rest)))
  {
    hide ReadCmd, ReadAck, WriteAck, EncodeCmd, AwaitVerdict;
    AckFrameStartsWithZero(a);
    var frame := WriteAck(a).value;
    AwaitTurn(EncodeCmds(cs) + frame + rest);
    if cs == [] {
      ReadWrittenAck(a, rest);
      assert EncodeCmds(cs) + frame + rest == frame + rest;
      assert frame != [] by { FrameNotEmpty(a); }
    } else {
      VerdictInSync(cs[1..], a, rest);
      var more := EncodeCmds(cs[1..]) + frame + rest;
      assert EncodeCmds(cs) + frame + rest == EncodeCmd(cs[0]) + more;
      ReadEncodedCmd(cs[0], more);
      assert EncodeCmd(cs[0]) != [] by { CmdNotEmpty(cs[0]); }
      assert [cs[0]] + cs[1..] == cs;
    }
  }

  lemma FrameNotEmpty(a: Ack)
    requires WriteAck(a).Ok?
    ensures WriteAck(a).value != []
  {
  }

  lemma CmdNotEmpty(c: Cmd)
    ensures EncodeCmd(c) != []
  {
  }
}
