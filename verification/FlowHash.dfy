/** Placing a flow on a member: FNV-1a over a direction-agnostic five-tuple, and
    the splitmix64 finalizer that makes its low bits usable. */
module FlowHash {
  import opened Words

  const OFFSET_BASIS: bv64 := 0xcbf2_9ce4_8422_2325
  const PRIME: bv64 := 0x0000_0100_0000_01b3
  const PRIME_INVERSE: bv64 := 0xce96_5057_aff6_957b

  const FIRST: bv64 := 0xbf58_476d_1ce4_e5b9
  const FIRST_INVERSE: bv64 := 0x96de_1b17_3f11_9089
  const SECOND: bv64 := 0x94d0_49bb_1331_11eb
  const SECOND_INVERSE: bv64 := 0x3196_42b2_d24d_8ec3

  datatype IpAddr = V4(octets: seq<bv8>) | V6(octets: seq<bv8>)

  /** A port number by its two bytes, the high one first. */
  datatype Port = NoPort | Port(high: bv8, low: bv8)

  datatype Endpoint = Endpoint(addr: IpAddr, port: Port)

  datatype PacketInfo = PacketInfo(protocol: bv8, src: Endpoint, dst: Endpoint)

  predicate AddrOk(a: IpAddr) {
    |a.octets| == if a.V4? then 4 else 16
  }

  predicate InfoOk(i: PacketInfo) {
    AddrOk(i.src.addr) && AddrOk(i.dst.addr)
  }

  // ------------------------------------------------------------------ mixing

  /** `wrapping_mul`. */
  function Mul(a: bv64, b: bv64): bv64 {
    a * b
  }

  /** One FNV-1a step. */
  function Step(hash: bv64, b: bv8): bv64 {
    Mul(hash ^ (b as bv64), PRIME)
  }

  function Mix(hash: bv64, bytes: seq<bv8>): bv64 {
    if bytes == [] then hash else Step(Mix(hash, bytes[..|bytes| - 1]), bytes[|bytes| - 1])
  }

  /** `mix`. */
  method MixLoop(start: bv64, bytes: seq<bv8>) returns (hash: bv64)
    ensures hash == Mix(start, bytes)
  {
    hide Mul;
    hash := start;
    for i := 0 to |bytes|
      invariant hash == Mix(start, bytes[..i])
    {
      assert bytes[..i + 1][..i] == bytes[..i];
      hash := hash ^ (bytes[i] as bv64);
      hash := Mul(hash, PRIME);
    }
    assert bytes[..|bytes|] == bytes;
  }

  /** Each step is undone by the inverse of the prime, for every byte. */
  lemma StepInvertible(hash: bv64, b: bv8)
    ensures Mul(Step(hash, b), PRIME_INVERSE) ^ (b as bv64) == hash
  {
    Inverses();
    hide Mul;
    var x := hash ^ (b as bv64);
    TimesInverse(x, PRIME, PRIME_INVERSE);
    XorTwice(hash, b as bv64);
  }

  lemma XorTwice(a: bv64, b: bv64)
    ensures (a ^ b) ^ b == a
  {
  }

  lemma Inverses()
    ensures Mul(PRIME, PRIME_INVERSE) == 1
    ensures Mul(FIRST, FIRST_INVERSE) == 1 && Mul(FIRST_INVERSE, FIRST) == 1
    ensures Mul(SECOND, SECOND_INVERSE) == 1 && Mul(SECOND_INVERSE, SECOND) == 1
  {
  }

  /** Multiplication by a number with an inverse is undone by it. */
  lemma TimesInverse(x: bv64, m: bv64, inverse: bv64)
    requires Mul(m, inverse) == 1
    ensures Mul(Mul(x, m), inverse) == x
  {
    calc {
      Mul(Mul(x, m), inverse);
    == { MulIs(x, m); hide Mul; }
      Mul(x * m, inverse);
    == { MulIs(x * m, inverse); hide Mul; }
      x * m * inverse;
    == { ProductInverse(x, m, inverse); }
      x;
    }
  }

  lemma MulIs(a: bv64, b: bv64)
    ensures Mul(a, b) == a * b
  {
  }

  lemma ProductInverse(x: bv64, m: bv64, inverse: bv64)
    requires m * inverse == 1
    ensures x * m * inverse == x
  {
    assert x * m * inverse == x * (m * inverse);
  }

  lemma StepInjective(h1: bv64, h2: bv64, b: bv8)
    requires Step(h1, b) == Step(h2, b)
    ensures h1 == h2
  {
    hide Mul, Step;
    StepInvertible(h1, b);
    StepInvertible(h2, b);
  }

  lemma StepSeparatesBytes(hash: bv64, b1: bv8, b2: bv8)
    requires b1 != b2
    ensures Step(hash, b1) != Step(hash, b2)
  {
    Inverses();
    hide Mul;
    TimesInverse(hash ^ (b1 as bv64), PRIME, PRIME_INVERSE);
    TimesInverse(hash ^ (b2 as bv64), PRIME, PRIME_INVERSE);
    SameLowByte(hash, b1, b2);
  }

  lemma SameLowByte(hash: bv64, b1: bv8, b2: bv8)
    requires b1 != b2
    ensures hash ^ (b1 as bv64) != hash ^ (b2 as bv64)
  {
  }

  lemma {:induction false} MixInjective(h1: bv64, h2: bv64, bytes: seq<bv8>)
    requires h1 != h2
    ensures Mix(h1, bytes) != Mix(h2, bytes)
  {
    hide Step;
    if bytes != [] {
      var front, last := bytes[..|bytes| - 1], bytes[|bytes| - 1];
      MixInjective(h1, h2, front);
      if Step(Mix(h1, front), last) == Step(Mix(h2, front), last) {
        StepInjective(Mix(h1, front), Mix(h2, front), last);
      }
    }
  }

  lemma {:induction false} MixAppend(hash: bv64, a: seq<bv8>, b: seq<bv8>)
    ensures Mix(hash, a + b) == Mix(Mix(hash, a), b)
  {
    hide Step;
    if b == [] {
      assert a + b == a;
    } else {
      assert (a + b)[..|a + b| - 1] == a + b[..|b| - 1];
      MixAppend(hash, a, b[..|b| - 1]);
    }
  }

  /** Two byte strings of equal length that differ in exactly one place never hash
      alike. */
  lemma OneByteApart(hash: bv64, a: seq<bv8>, b: seq<bv8>, i: nat)
    requires |a| == |b| && i < |a| && a[i] != b[i]
    requires forall j :: 0 <= j < |a| && j != i ==> a[j] == b[j]
    ensures Mix(hash, a) != Mix(hash, b)
  {
    hide Step;
    var front, tail := a[..i], a[i + 1..];
    assert b[..i] == front && b[i + 1..] == tail;
    assert a == front + ([a[i]] + tail) && b == front + ([b[i]] + tail);
    var h := Mix(hash, front);
    MixAppend(hash, front, [a[i]] + tail);
    MixAppend(hash, front, [b[i]] + tail);
    MixAppend(h, [a[i]], tail);
    MixAppend(h, [b[i]], tail);
    MixOne(h, a[i]);
    MixOne(h, b[i]);
    StepSeparatesBytes(h, a[i], b[i]);
    MixInjective(Step(h, a[i]), Step(h, b[i]), tail);
  }

  lemma MixOne(h: bv64, b: bv8)
    ensures Mix(h, [b]) == Step(h, b)
  {
    assert [b][..0] == [];
    assert Mix(h, [b][..0]) == h;
  }

  // --------------------------------------------------------------- avalanche

  /** The shifts of the finalizer, each at least a third of the width. */
  datatype Shift = By30 | By27 | By31

  function Xor(a: bv64, b: bv64): bv64 {
    a ^ b
  }

  function Down(x: bv64, s: Shift): bv64 {
    match s
    case By30 => x >> 30
    case By27 => x >> 27
    case By31 => x >> 31
  }

  function Fold(x: bv64, s: Shift): bv64 {
    Xor(x, Down(x, s))
  }

  /** The inverse of a fold. */
  function Unfold(x: bv64, s: Shift): bv64 {
    Xor(Xor(x, Down(x, s)), Down(Down(x, s), s))
  }

  /** `avalanche`. */
  function Avalanche(hash: bv64): bv64 {
    Fold(Mul(Fold(Mul(Fold(hash, By30), FIRST), By27), SECOND), By31)
  }

  function Calm(hash: bv64): bv64 {
    Unfold(Mul(Unfold(Mul(Unfold(hash, By31), SECOND_INVERSE), By27), FIRST_INVERSE), By30)
  }

  lemma XorIs(a: bv64, b: bv64)
    ensures Xor(a, b) == a ^ b
  {
  }

  lemma XorAssociates(a: bv64, b: bv64, c: bv64)
    ensures Xor(Xor(a, b), c) == Xor(a, Xor(b, c))
  {
    calc {
      Xor(Xor(a, b), c);
    == { XorIs(a, b); hide Xor; }
      Xor(a ^ b, c);
    == { XorIs(a ^ b, c); hide Xor; }
      (a ^ b) ^ c;
    == { hide Xor; }
      a ^ (b ^ c);
    == { XorIs(a, b ^ c); hide Xor; }
      Xor(a, b ^ c);
    == { XorIs(b, c); hide Xor; }
      Xor(a, Xor(b, c));
    }
  }

  lemma XorBack(a: bv64, b: bv64)
    ensures Xor(Xor(a, b), b) == a && Xor(a, 0) == a
  {
  }

  lemma ShiftXor(x: bv64, y: bv64, s: Shift)
    ensures Down(x ^ y, s) == Down(x, s) ^ Down(y, s)
  {
    match s
    case By30 =>
    case By27 =>
    case By31 =>
  }

  lemma DownXor(x: bv64, y: bv64, s: Shift)
    ensures Down(Xor(x, y), s) == Xor(Down(x, s), Down(y, s))
  {
    calc {
      Down(Xor(x, y), s);
    == { XorIs(x, y); hide Down, Xor; }
      Down(x ^ y, s);
    == { ShiftXor(x, y, s); hide Down, Xor; }
      Down(x, s) ^ Down(y, s);
    == { XorIs(Down(x, s), Down(y, s)); hide Down, Xor; }
      Xor(Down(x, s), Down(y, s));
    }
  }

  lemma DownOut(x: bv64, s: Shift)
    ensures Down(Down(Down(x, s), s), s) == 0
  {
    match s
    case By30 =>
    case By27 =>
    case By31 =>
  }

  /** Folding a number into itself by such a shift is undone by two more folds, and
      the other way round. */
  lemma FoldInvertible(x: bv64, s: Shift)
    ensures Unfold(Fold(x, s), s) == x && Fold(Unfold(x, s), s) == x
  {
    hide Down, Xor;
    var b := Down(x, s);
    var c := Down(b, s);
    DownOut(x, s);
    DownXor(x, b, s);
    DownXor(b, c, s);
    DownXor(Xor(x, b), c, s);
    XorBack(c, 0);
    XorBack(Xor(b, c), 0);
    XorAssociates(Xor(x, b), Xor(b, c), c);
    XorBack(b, c);
    XorBack(x, b);
    XorAssociates(x, b, c);
    XorBack(x, Xor(b, c));
  }

  /** The finalizer is a bijection on 64-bit values: `Calm` undoes it both ways. */
  lemma AvalancheBijective(hash: bv64)
    ensures Calm(Avalanche(hash)) == hash
    ensures Avalanche(Calm(hash)) == hash
  {
    Inverses();
    hide Mul, Fold, Unfold, Xor, Down;
    var h1 := Fold(hash, By30);
    var h3 := Fold(Mul(h1, FIRST), By27);
    FoldInvertible(hash, By30);
    FoldInvertible(Mul(h1, FIRST), By27);
    FoldInvertible(Mul(h3, SECOND), By31);
    TimesInverse(h1, FIRST, FIRST_INVERSE);
    TimesInverse(h3, SECOND, SECOND_INVERSE);
    var g4 := Unfold(hash, By31);
    var g2 := Unfold(Mul(g4, SECOND_INVERSE), By27);
    FoldInvertible(hash, By31);
    FoldInvertible(Mul(g4, SECOND_INVERSE), By27);
    FoldInvertible(Mul(g2, FIRST_INVERSE), By30);
    TimesInverse(g2, FIRST_INVERSE, FIRST);
    TimesInverse(g4, SECOND_INVERSE, SECOND);
  }

  // -------------------------------------------------------------------- keys

  function PortBytes(p: Port): seq<bv8> {
    match p
    case NoPort => []
    case Port(high, low) => [high, low]
  }

  function EndpointBytes(e: Endpoint): seq<bv8> {
    e.addr.octets + PortBytes(e.port)
  }

  predicate OctetsLeq(a: seq<bv8>, b: seq<bv8>) {
    if a == [] then true
    else if b == [] then false
    else if a[0] != b[0] then a[0] < b[0]
    else OctetsLeq(a[1..], b[1..])
  }

  /** No port below any, then by number. */
  predicate PortLeq(a: Port, b: Port) {
    a.NoPort? || (b.Port? && OctetsLeq(PortBytes(a), PortBytes(b)))
  }

  /** The order of `(IpAddr, Option<u16>)`: IPv4 below IPv6, then octets, then port. */
  predicate Leq(a: Endpoint, b: Endpoint) {
    if a.addr.V4? != b.addr.V4? then a.addr.V4?
    else if a.addr.octets != b.addr.octets then OctetsLeq(a.addr.octets, b.addr.octets)
    else PortLeq(a.port, b.port)
  }

  /** The byte string the key is the hash of: protocol, low endpoint, high endpoint. */
  function Canonical(i: PacketInfo): seq<bv8> {
    var (first, second) := if Leq(i.src, i.dst) then (i.src, i.dst) else (i.dst, i.src);
    [i.protocol] + EndpointBytes(first) + EndpointBytes(second)
  }

  /** `endpoint`. */
  function MixEndpoint(hash: bv64, e: Endpoint): bv64 {
    var h := Mix(hash, e.addr.octets);
    match e.port
    case NoPort => h
    case Port(_, _) => Mix(h, PortBytes(e.port))
  }

  /** `hash`. */
  function Hash(i: PacketInfo): bv64 {
    var (first, second) := if Leq(i.src, i.dst) then (i.src, i.dst) else (i.dst, i.src);
    MixEndpoint(MixEndpoint(Mix(OFFSET_BASIS, [i.protocol]), first), second)
  }

  /** `key`. */
  function Key(i: PacketInfo): bv64 {
    Avalanche(Hash(i))
  }

  /** `slot`. */
  function Slot(i: PacketInfo, width: nat): (s: nat)
    ensures width >= 1 ==> s < width
  {
    if width <= 1 then 0 else (Key(i) as nat) % width
  }

  lemma EndpointIsBytes(hash: bv64, e: Endpoint)
    ensures MixEndpoint(hash, e) == Mix(hash, EndpointBytes(e))
  {
    hide Step;
    MixAppend(hash, e.addr.octets, PortBytes(e.port));
    assert e.port.NoPort? ==> e.addr.octets + [] == e.addr.octets;
  }

  /** The incremental hash is FNV-1a over the canonical byte string. */
  lemma HashIsCanonical(i: PacketInfo)
    ensures Hash(i) == Mix(OFFSET_BASIS, Canonical(i))
  {
    hide MixEndpoint, Mix, EndpointBytes;
    var (first, second) := if Leq(i.src, i.dst) then (i.src, i.dst) else (i.dst, i.src);
    var h := Mix(OFFSET_BASIS, [i.protocol]);
    EndpointIsBytes(h, first);
    EndpointIsBytes(MixEndpoint(h, first), second);
    MixAppend(OFFSET_BASIS, [i.protocol], EndpointBytes(first));
    MixAppend(OFFSET_BASIS, [i.protocol] + EndpointBytes(first), EndpointBytes(second));
  }

  lemma {:induction false} OctetsTotal(a: seq<bv8>, b: seq<bv8>)
    requires |a| == |b|
    ensures OctetsLeq(a, b) || OctetsLeq(b, a)
    ensures OctetsLeq(a, b) && OctetsLeq(b, a) ==> a == b
  {
    if a != [] && a[0] == b[0] {
      OctetsTotal(a[1..], b[1..]);
      assert a == [a[0]] + a[1..] && b == [b[0]] + b[1..];
    }
  }

  lemma PortTotal(a: Port, b: Port)
    ensures PortLeq(a, b) || PortLeq(b, a)
    ensures PortLeq(a, b) && PortLeq(b, a) ==> a == b
  {
    hide OctetsLeq;
    if a.Port? && b.Port? {
      OctetsTotal(PortBytes(a), PortBytes(b));
      PortBytesTell(a, b);
    }
  }

  /** The order is total and antisymmetric, so sorting two endpoints does not depend
      on which came first. */
  lemma LeqTotal(a: Endpoint, b: Endpoint)
    requires AddrOk(a.addr) && AddrOk(b.addr)
    ensures Leq(a, b) || Leq(b, a)
    ensures Leq(a, b) && Leq(b, a) ==> a == b
  {
    hide OctetsLeq, PortLeq;
    PortTotal(a.port, b.port);
    if a.addr.V4? == b.addr.V4? {
      OctetsTotal(a.addr.octets, b.addr.octets);
    }
  }

  /** Both directions of a flow have the same key and the same slot. */
  lemma DirectionAgnostic(i: PacketInfo, width: nat)
    requires InfoOk(i)
    ensures var back := i.(src := i.dst, dst := i.src);
            Key(back) == Key(i) && Slot(back, width) == Slot(i, width)
  {
    hide MixEndpoint, Avalanche, Mix;
    LeqTotal(i.src, i.dst);
  }

  /** Flows whose canonical byte strings have equal length and differ in exactly one
      byte never share a key. */
  lemma NearbyFlowsDiffer(a: PacketInfo, b: PacketInfo, i: nat)
    requires var x, y := Canonical(a), Canonical(b);
             |x| == |y| && i < |x| && x[i] != y[i] && forall j :: 0 <= j < |x| && j != i ==> x[j] == y[j]
    ensures Key(a) != Key(b)
  {
    hide Canonical, Avalanche, Calm, Mix, Hash;
    HashIsCanonical(a);
    HashIsCanonical(b);
    OneByteApart(OFFSET_BASIS, Canonical(a), Canonical(b), i);
    AvalancheBijective(Hash(a));
    AvalancheBijective(Hash(b));
  }

  // ------------------------------------------------------- what a key tells

  /** A packet as the parser yields it: one address family, and ports at both ends or
      at neither. */
  predicate Proper(i: PacketInfo) {
    InfoOk(i) && i.src.addr.V4? == i.dst.addr.V4? && i.src.port.Port? == i.dst.port.Port?
  }

  function Reversed(i: PacketInfo): PacketInfo {
    i.(src := i.dst, dst := i.src)
  }

  predicate SameKind(e: Endpoint, f: Endpoint) {
    AddrOk(e.addr) && AddrOk(f.addr) && e.addr.V4? == f.addr.V4? && e.port.Port? == f.port.Port?
  }

  lemma PortBytesTell(p: Port, q: Port)
    requires p.Port? && q.Port?
    ensures PortBytes(p) == PortBytes(q) <==> p == q
  {
    assert PortBytes(p)[0] == p.high && PortBytes(p)[1] == p.low;
    assert PortBytes(q)[0] == q.high && PortBytes(q)[1] == q.low;
  }

  lemma EndpointBytesTell(e: Endpoint, f: Endpoint)
    requires SameKind(e, f) && EndpointBytes(e) == EndpointBytes(f)
    ensures e == f
  {
    hide PortBytes;
    var n := |e.addr.octets|;
    assert EndpointBytes(e)[..n] == e.addr.octets && EndpointBytes(f)[..n] == f.addr.octets;
    assert EndpointBytes(e)[n..] == PortBytes(e.port) && EndpointBytes(f)[n..] == PortBytes(f.port);
    if e.port.Port? {
      PortBytesTell(e.port, f.port);
    }
  }

  function Sorted(i: PacketInfo): (Endpoint, Endpoint) {
    if Leq(i.src, i.dst) then (i.src, i.dst) else (i.dst, i.src)
  }

  lemma EndpointLength(e: Endpoint)
    requires AddrOk(e.addr)
    ensures |EndpointBytes(e)| == (if e.addr.V4? then 4 else 16) + (if e.port.Port? then 2 else 0)
  {
  }

  /** The canonical string is the flow: two packets share it if and only if they are of
      the same flow, in either direction. So protocol, addresses and ports all count. */
  lemma CanonicalIsFlow(a: PacketInfo, b: PacketInfo)
    requires Proper(a) && Proper(b)
    ensures Canonical(a) == Canonical(b) <==> b == a || b == Reversed(a)
  {
    hide Canonical, Leq, EndpointBytes, Reversed;
    if Canonical(a) == Canonical(b) {
      SortedTells(a, b);
      UnsortedTells(a, b);
    }
    if b == Reversed(a) {
      ReversedSame(a);
    }
  }

  lemma ReversedSame(a: PacketInfo)
    requires InfoOk(a)
    ensures Canonical(Reversed(a)) == Canonical(a)
  {
    hide EndpointBytes, Leq;
    LeqTotal(a.src, a.dst);
  }

  lemma UnsortedTells(a: PacketInfo, b: PacketInfo)
    requires a.protocol == b.protocol && Sorted(a) == Sorted(b)
    ensures b == a || b == Reversed(a)
  {
    hide Leq;
  }

  lemma SortedTells(a: PacketInfo, b: PacketInfo)
    requires Proper(a) && Proper(b) && Canonical(a) == Canonical(b)
    ensures a.protocol == b.protocol && Sorted(a) == Sorted(b)
  {
    hide EndpointBytes, Leq;
    var (a1, a2) := Sorted(a);
    var (b1, b2) := Sorted(b);
    assert Canonical(a) == [a.protocol] + EndpointBytes(a1) + EndpointBytes(a2);
    assert Canonical(b) == [b.protocol] + EndpointBytes(b1) + EndpointBytes(b2);
    hide Canonical;
    SameParts(a.protocol, a1, a2, b.protocol, b1, b2);
  }

  lemma SameParts(p: bv8, a1: Endpoint, a2: Endpoint, q: bv8, b1: Endpoint, b2: Endpoint)
    requires SameKind(a1, a2) && SameKind(b1, b2)
    requires [p] + EndpointBytes(a1) + EndpointBytes(a2) == [q] + EndpointBytes(b1) + EndpointBytes(b2)
    ensures p == q && a1 == b1 && a2 == b2
  {
    hide EndpointBytes;
    var l, r := [p] + EndpointBytes(a1) + EndpointBytes(a2), [q] + EndpointBytes(b1) + EndpointBytes(b2);
    assert |l| == |r|;
    LengthTells(a1, a2, b1, b2);
    Pieces(p, EndpointBytes(a1), EndpointBytes(a2), q, EndpointBytes(b1), EndpointBytes(b2));
    EndpointBytesTell(a1, b1);
    EndpointBytesTell(a2, b2);
  }

  lemma LengthTells(a1: Endpoint, a2: Endpoint, b1: Endpoint, b2: Endpoint)
    requires SameKind(a1, a2) && SameKind(b1, b2)
    requires |EndpointBytes(a1)| + |EndpointBytes(a2)| == |EndpointBytes(b1)| + |EndpointBytes(b2)|
    ensures SameKind(a1, b1) && SameKind(a2, b2) && |EndpointBytes(a1)| == |EndpointBytes(b1)|
  {
    hide EndpointBytes;
    EndpointLength(a1);
    EndpointLength(a2);
    EndpointLength(b1);
    EndpointLength(b2);
  }

  lemma Pieces(p: bv8, x: seq<bv8>, y: seq<bv8>, q: bv8, u: seq<bv8>, v: seq<bv8>)
    requires [p] + x + y == [q] + u + v && |x| == |u|
    ensures p == q && x == u && y == v
  {
    var l, r, n := [p] + x + y, [q] + u + v, 1 + |x|;
    assert l[0] == p && r[0] == q;
    assert l[1..n] == x && r[1..n] == u;
    assert l[n..] == y && r[n..] == v;
  }

  /** The key determines the hash of the flow's string. */
  lemma KeyIsHash(i: PacketInfo)
    ensures Calm(Key(i)) == Mix(OFFSET_BASIS, Canonical(i))
  {
    hide Avalanche, Calm, Mix, Hash, Canonical;
    HashIsCanonical(i);
    AvalancheBijective(Hash(i));
  }

  lemma Remainder(k: nat, width: nat)
    requires width >= 1
    ensures exists q: nat :: k == q * width + (if width <= 1 then 0 else k % width)
  {
    DivMod(k, width);
    var q := if width == 1 then k else k / width;
    assert k == q * width + (if width <= 1 then 0 else k % width);
  }

  /** The slot is what the width leaves of the key. */
  lemma SlotIsRemainder(i: PacketInfo, width: nat)
    requires width >= 1
    ensures Slot(i, width) < width
    ensures exists q: nat :: Key(i) as nat == q * width + Slot(i, width)
  {
    hide Key;
    Remainder(Key(i) as nat, width);
  }

  /** Published values: FNV-1a of the letter a and of foobar, and the first output of
      splitmix64 from seed zero. */
  lemma PublishedValues()
    ensures Mix(OFFSET_BASIS, [0x61]) == 0xaf63_dc4c_8601_ec8c
    ensures Mix(OFFSET_BASIS, [0x66, 0x6f, 0x6f, 0x62, 0x61, 0x72]) == 0x8594_4171_f739_67e8
    ensures Avalanche(0x9e37_79b9_7f4a_7c15) == 0xe220_a839_7b1d_cdaf
  {
    MixOne(OFFSET_BASIS, 0x61);
    FooBar();
  }

  lemma MixSnoc(h: bv64, bytes: seq<bv8>, b: bv8)
    ensures Mix(h, bytes + [b]) == Step(Mix(h, bytes), b)
  {
    assert (bytes + [b])[..|bytes|] == bytes;
  }

  lemma FooBarSteps()
    ensures Step(0xcbf2_9ce4_8422_2325, 0x66) == 0xaf63_db4c_8601_ead9
    ensures Step(0xaf63_db4c_8601_ead9, 0x6f) == 0x0898_5907_b541_d342
    ensures Step(0x0898_5907_b541_d342, 0x6f) == 0xdcb2_7518_fed9_d577
    ensures Step(0xdcb2_7518_fed9_d577, 0x62) == 0xdd12_0e79_0c25_12af
    ensures Step(0xdd12_0e79_0c25_12af, 0x61) == 0xcac1_65af_a2fe_f40a
    ensures Step(0xcac1_65af_a2fe_f40a, 0x72) == 0x8594_4171_f739_67e8
  {
  }

  lemma FooBar()
    ensures Mix(OFFSET_BASIS, [0x66, 0x6f, 0x6f, 0x62, 0x61, 0x72]) == 0x8594_4171_f739_67e8
  {
    hide Step;
    var w: seq<bv8> := [0x66, 0x6f, 0x6f, 0x62, 0x61, 0x72];
    FooBarSteps();
    MixNothing(OFFSET_BASIS);
    hide Mix;
    assert w[..0] == [] && w[..6] == w;
    MixSnoc(OFFSET_BASIS, w[..0], w[0]);
    assert w[..1] == w[..0] + [w[0]];
    MixSnoc(OFFSET_BASIS, w[..1], w[1]);
    assert w[..2] == w[..1] + [w[1]];
    MixSnoc(OFFSET_BASIS, w[..2], w[2]);
    assert w[..3] == w[..2] + [w[2]];
    MixSnoc(OFFSET_BASIS, w[..3], w[3]);
    assert w[..4] == w[..3] + [w[3]];
    MixSnoc(OFFSET_BASIS, w[..4], w[4]);
    assert w[..5] == w[..4] + [w[4]];
    MixSnoc(OFFSET_BASIS, w[..5], w[5]);
    assert w[..6] == w[..5] + [w[5]];
  }

  lemma MixNothing(h: bv64)
    ensures Mix(h, []) == h
  {
  }
}
