/** UTF-8 as section 3 of RFC 3629 defines it, and the variable-length integers
    the serializer writes. */
module Utf8 {
  import opened Words

  function EncodeChar(c: char): (b: bytes)
    ensures 1 <= |b| <= 4
  {
    var n := c as int;
    var n1 := n / 0x40;
    var n2 := n1 / 0x40;
    if n < 0x80 then [n]
    else if n < 0x800 then [0xC0 + n1, 0x80 + n % 0x40]
    else if n < 0x1_0000 then [0xE0 + n2, 0x80 + n1 % 0x40, 0x80 + n % 0x40]
    else [0xF0 + n2 / 0x40, 0x80 + n2 % 0x40, 0x80 + n1 % 0x40, 0x80 + n % 0x40]
  }

  function Encode(s: string): bytes {
    if s == "" then [] else EncodeChar(s[0]) + Encode(s[1..])
  }

  predicate Continuation(b: u8) {
    0x80 <= b < 0xC0
  }

  /** How many bytes the lead byte announces; 0 for a byte that cannot lead. */
  function Width(lead: u8): nat {
    if lead < 0x80 then 1
    else if 0xC2 <= lead < 0xE0 then 2
    else if 0xE0 <= lead < 0xF0 then 3
    else if 0xF0 <= lead < 0xF5 then 4
    else 0
  }

  /** Six more bits from a continuation byte. */
  function Join(high: nat, b: u8): (n: nat)
    requires Continuation(b)
    ensures n / 0x40 == high && n % 0x40 == b - 0x80
  {
    0x40 * high + (b - 0x80) as int
  }

  /** The scalar value of one well-formed sequence: no overlong form, no surrogate,
      nothing above U+10FFFF. */
  function DecodeChar(b: bytes): (r: Option<char>) {
    if b == [] || Width(b[0]) == 0 || |b| < Width(b[0]) then None
    else if Width(b[0]) == 1 then Some(b[0] as char)
    else if !Continuation(b[1]) then None
    else if Width(b[0]) == 2 then Some(Join(b[0] - 0xC0, b[1]) as char)
    else if !Continuation(b[2]) then None
    else if Width(b[0]) == 3 then
      var n := Join(Join(b[0] - 0xE0, b[1]), b[2]);
      if n < 0x800 || 0xD800 <= n < 0xE000 then None else Some(n as char)
    else if !Continuation(b[3]) then None
    else
      var n := Join(Join(Join(b[0] - 0xF0, b[1]), b[2]), b[3]);
      if n < 0x1_0000 || n >= 0x11_0000 then None else Some(n as char)
  }

  function Decode(b: bytes): Option<string> {
    if b == [] then Some("")
    else
      var c := DecodeChar(b);
      if c.None? then None
      else
        var rest := Decode(b[Width(b[0])..]);
        if rest.None? then None else Some([c.value] + rest.value)
  }

  lemma JoinDigits(n: nat)
    ensures Join(n / 0x40, 0x80 + n % 0x40) == n
  {
  }

  lemma CharRoundTrip(c: char, rest: bytes)
    ensures Width(EncodeChar(c)[0]) == |EncodeChar(c)|
    ensures DecodeChar(EncodeChar(c) + rest) == Some(c)
  {
    hide Join;
    var n := c as int;
    JoinDigits(n);
    JoinDigits(n / 0x40);
    JoinDigits(n / 0x40 / 0x40);
    var e := EncodeChar(c);
    assert forall i :: 0 <= i < |e| ==> (e + rest)[i] == e[i];
  }

  /** A sequence the decoder accepts is the one encoding of its character. */
  lemma CharIsCanonical(b: bytes)
    requires DecodeChar(b).Some?
    ensures 0 < Width(b[0]) <= |b| && EncodeChar(DecodeChar(b).value) == b[..Width(b[0])]
  {
  }

  lemma DecodeFirst(b: bytes)
    requires b != [] && Decode(b).Some?
    ensures DecodeChar(b).Some? && 0 < Width(b[0]) <= |b| && Decode(b[Width(b[0])..]).Some?
    ensures Decode(b).value == [DecodeChar(b).value] + Decode(b[Width(b[0])..]).value
  {
  }

  lemma EncodeFirst(c: char, s: string)
    ensures Encode([c] + s) == EncodeChar(c) + Encode(s)
  {
    assert ([c] + s)[1..] == s;
  }

  /** The decoder accepts nothing but encodings: what it reads is what it would write. */
  lemma {:induction false} DecodedIsCanonical(b: bytes)
    requires Decode(b).Some?
    ensures Encode(Decode(b).value) == b
  {
    hide EncodeChar, DecodeChar, Width;
    if b != [] {
      CharIsCanonical(b);
      DecodeFirst(b);
      hide Decode, Encode;
      var n := Width(b[0]);
      DecodedIsCanonical(b[n..]);
      EncodeFirst(DecodeChar(b).value, Decode(b[n..]).value);
      assert b == b[..n] + b[n..];
    }
  }

  /** Text survives the wire, and the decoder accepts exactly the encoded forms. */
  lemma RoundTrip(s: string, b: bytes)
    ensures Decode(Encode(s)) == Some(s)
    ensures Decode(b) == Some(s) <==> b == Encode(s)
  {
    EncodedIsRead(s);
    if Decode(b) == Some(s) {
      DecodedIsCanonical(b);
    }
  }

  lemma {:induction false} EncodedIsRead(s: string)
    ensures Decode(Encode(s)) == Some(s)
  {
    hide EncodeChar, DecodeChar, Width;
    if s != "" {
      var e, rest := EncodeChar(s[0]), Encode(s[1..]);
      CharRoundTrip(s[0], rest);
      assert (e + rest)[0] == e[0] && (e + rest)[|e|..] == rest;
      EncodedIsRead(s[1..]);
      assert [s[0]] + s[1..] == s;
    }
  }

  lemma {:induction false} EncodeAppend(a: string, b: string)
    ensures Encode(a + b) == Encode(a) + Encode(b)
  {
    hide EncodeChar;
    if a == "" {
      assert a + b == b;
    } else {
      assert (a + b)[1..] == a[1..] + b;
      EncodeAppend(a[1..], b);
    }
  }

  /** `str::is_char_boundary`. */
  predicate IsBoundary(b: bytes, i: nat) {
    i == 0 || i == |b| || (i < |b| && !Continuation(b[i]))
  }

  /** How many leading characters fit into `limit` bytes. */
  function MaxPrefix(s: string, limit: nat): (m: nat)
    ensures m <= |s|
  {
    if s == "" || |EncodeChar(s[0])| > limit then 0
    else 1 + MaxPrefix(s[1..], limit - |EncodeChar(s[0])|)
  }

  lemma CharBytes(c: char)
    ensures var e := EncodeChar(c);
            !Continuation(e[0]) && forall i :: 1 <= i < |e| ==> Continuation(e[i])
  {
  }

  /** The longest prefix that fits ends on a boundary, and every later position up
      to the limit is inside a character. */
  lemma {:induction false} MaxPrefixBoundary(s: string, limit: nat)
    requires limit <= |Encode(s)|
    ensures var cut := |Encode(s[..MaxPrefix(s, limit)])|;
            && cut <= limit && limit < cut + 4
            && Encode(s[..MaxPrefix(s, limit)]) == Encode(s)[..cut]
            && IsBoundary(Encode(s), cut)
            && forall i :: cut < i <= limit ==> !IsBoundary(Encode(s), i)
  {
    hide EncodeChar, Continuation;
    if s == "" {
      assert s[..0] == "";
    } else {
      var e, rest := EncodeChar(s[0]), Encode(s[1..]);
      CharBytes(s[0]);
      if |e| > limit {
        assert s[..0] == "" && Encode("") == [];
        forall i | 0 < i <= limit ensures !IsBoundary(Encode(s), i) {
          assert (e + rest)[i] == e[i];
        }
      } else {
        MaxPrefixBoundary(s[1..], limit - |e|);
        var m := MaxPrefix(s[1..], limit - |e|);
        assert s[..m + 1][1..] == s[1..][..m];
        var cut := |Encode(s[1..][..m])|;
        assert (e + rest)[..|e| + cut] == e + rest[..cut];
        assert forall i :: |e| <= i < |e + rest| ==> (e + rest)[i] == rest[i - |e|];
        forall i | |e| + cut < i <= limit ensures !IsBoundary(Encode(s), i) {
          assert !IsBoundary(rest, i - |e|);
        }
        assert IsBoundary(rest, cut);
        if cut == 0 && rest != [] {
          FirstByte(s[1..]);
        }
      }
    }
  }

  lemma FirstByte(s: string)
    requires s != ""
    ensures Encode(s) != [] && !Continuation(Encode(s)[0])
  {
    CharBytes(s[0]);
  }

  // -------------------------------------------------- variable-length integers

  /** Seven bits per byte, least significant first, the top bit set on all but the last. */
  function Varint(n: nat): (b: bytes)
    ensures |b| > 0
  {
    if n < 0x80 then [n] else [0x80 + n % 0x80] + Varint(n / 0x80)
  }

  /** The reader of an integer of at most `room` bytes whose last byte may be at
      most `top`; what follows it is returned. */
  function ReadVarint(b: bytes, room: nat, top: u8): (r: Option<(nat, bytes)>)
    ensures r.Some? ==> |r.value.1| < |b|
  {
    if b == [] || room == 0 then None
    else if b[0] < 0x80 then
      if room == 1 && b[0] > top then None else Some((b[0], b[1..]))
    else
      match ReadVarint(b[1..], room - 1, top)
      case None => None
      case Some((v, rest)) => Some(((b[0] - 0x80) as int + 0x80 * v, rest))
  }

  /** How many values such an integer has. */
  function Capacity(room: nat, top: u8): nat {
    if room == 0 then 0 else if room == 1 then top + 1 else 0x80 * Capacity(room - 1, top)
  }

  lemma {:induction false} VarintRoundTrip(n: nat, room: nat, top: u8, rest: bytes)
    requires n < Capacity(room, top) && top < 0x80
    ensures ReadVarint(Varint(n) + rest, room, top) == Some((n, rest))
    ensures |Varint(n)| <= room
  {
    var b := Varint(n) + rest;
    if n < 0x80 {
      assert b[0] == n && b[1..] == rest;
    } else {
      assert room > 1;
      VarintRoundTrip(n / 0x80, room - 1, top, rest);
      assert b[0] == 0x80 + n % 0x80 && b[1..] == Varint(n / 0x80) + rest;
    }
  }

  /** A variant number below 128 is one byte. */
  lemma SmallTag(tag: u8, rest: bytes)
    requires tag < 0x80
    ensures ReadVarint([tag] + rest, 5, 15) == Some((tag as nat, rest))
  {
    assert ([tag] + rest)[1..] == rest;
  }
}
