/** Fixed-width machine words and their wire forms.

    The engine runs on `u32` clocks and counters whose additions wrap (the
    release profile leaves overflow checks off), so the wrap is written out. */
module Words {

  const TWO31: int := 0x8000_0000
  const TWO32: int := 0x1_0000_0000

  type u8 = x: int | 0 <= x < 0x100
  type u16 = x: int | 0 <= x < 0x1_0000
  type u32 = x: int | 0 <= x < 0x1_0000_0000
  type u64 = x: int | 0 <= x < 0x1_0000_0000_0000_0000
  type bytes = seq<u8>

  datatype Option<+T> = None | Some(value: T)

  datatype Result<+T, +E> = Ok(value: T) | Err(error: E)

  function Min(a: int, b: int): int {
    if a <= b then a else b
  }

  function Max(a: int, b: int): int {
    if a <= b then b else a
  }

  /** `a + b` on `u32` with wrap-around. */
  function Add32(a: u32, b: u32): u32 {
    if a + b < TWO32 then a + b else a + b - TWO32
  }

  /** The mod-2^32 clock difference, read as a signed 32-bit value. */
  function Timediff(later: u32, earlier: u32): (d: int)
    ensures -TWO31 <= d < TWO31
    ensures d == later - earlier || d == later - earlier - TWO32 || d == later - earlier + TWO32
  {
    var w := if later >= earlier then later - earlier else later - earlier + TWO32;
    if w < TWO31 then w else w - TWO32
  }

  /** The signed difference is exact for values closer than half the number
      circle, and a clock that advances by less than that is measured exactly
      across the wrap. */
  lemma TimediffExact(later: u32, earlier: u32)
    ensures Timediff(later, earlier) == later - earlier <==> -TWO31 <= later - earlier < TWO31
    ensures forall dt: u32 :: dt < TWO31 ==> Timediff(Add32(earlier, dt), earlier) == dt
  {
  }

  function Times(a: nat, b: nat): nat {
    a * b
  }

  function Quotient(a: nat, b: nat): nat
    requires b > 0
  {
    a / b
  }

  function CeilDiv(a: nat, b: nat): nat
    requires b > 0
  {
    (a + b - 1) / b
  }

  /** Rounding up is the least number of `b`s that cover `a`. */
  lemma CeilBound(a: nat, b: nat, n: nat)
    requires b > 0
    ensures CeilDiv(a, b) <= n <==> a <= Times(n, b)
  {
    var q := (a + b - 1) / b;
    assert a + b - 1 == q * b + (a + b - 1) % b;
    if q <= n {
      assert q * b <= n * b;
    } else {
      assert (n + 1) * b <= q * b;
    }
  }

  lemma TimesNext(n: nat, m: nat)
    ensures Times(n + 1, m) == Times(n, m) + m
  {
  }

  lemma DivMod(a: nat, k: nat)
    requires k > 0
    ensures a == Times(a / k, k) + a % k
  {
  }

  lemma ModUnique(a: nat, q: nat, r: nat, k: nat)
    requires r < k && a == Times(q, k) + r
    ensures a % k == r
  {
    DivMod(a, k);
    if a / k > q {
      TimesGap(q, a / k, k);
    } else if a / k < q {
      TimesGap(a / k, q, k);
    }
  }

  lemma TimesGap(p: nat, q: nat, k: nat)
    requires p < q
    ensures Times(p, k) + k <= Times(q, k)
  {
    assert (p + 1) * k <= q * k;
  }

  lemma TimesZero(m: nat)
    ensures Times(0, m) == 0
  {
  }

  /** Concatenation of a list of byte runs. */
  function Flat(runs: seq<bytes>): bytes {
    if runs == [] then [] else runs[0] + Flat(runs[1..])
  }

  lemma {:induction false} FlatAppend(a: seq<bytes>, b: seq<bytes>)
    ensures Flat(a + b) == Flat(a) + Flat(b)
  {
    if a == [] {
      assert a + b == b;
    } else {
      assert (a + b)[1..] == a[1..] + b;
      FlatAppend(a[1..], b);
    }
  }

  lemma FlatOne(a: bytes)
    ensures Flat([a]) == a
  {
    assert Flat([a]) == a + Flat([]);
  }

  /** A longer list of runs flattens to an extension of a shorter one. */
  lemma FlatPrefix(a: seq<bytes>, n: nat)
    requires n <= |a|
    ensures Flat(a[..n]) <= Flat(a)
  {
    FlatAppend(a[..n], a[n..]);
    assert a == a[..n] + a[n..];
  }

  // Little-endian fields (the KCP header).

  function Le16(x: u16): (b: bytes)
    ensures |b| == 2 && FromLe16(b) == x
  {
    [x % 0x100, x / 0x100]
  }

  function FromLe16(b: bytes): u16
    requires |b| == 2
  {
    var lo: int, hi: int := b[0], b[1];
    lo + 0x100 * hi
  }

  function Le32(x: u32): (b: bytes)
    ensures |b| == 4 && FromLe32(b) == x
  {
    var lo, hi := Le16(x % 0x1_0000), Le16(x / 0x1_0000);
    assert (lo + hi)[..2] == lo && (lo + hi)[2..] == hi;
    lo + hi
  }

  function FromLe32(b: bytes): u32
    requires |b| == 4
  {
    var lo: int, hi: int := FromLe16(b[..2]), FromLe16(b[2..]);
    lo + 0x1_0000 * hi
  }

  lemma Le16Back(b: bytes)
    requires |b| == 2
    ensures Le16(FromLe16(b)) == b
  {
  }

  lemma Le32Back(b: bytes)
    requires |b| == 4
    ensures Le32(FromLe32(b)) == b
  {
    hide Le16, FromLe16;
    var x := FromLe32(b);
    assert x % 0x1_0000 == FromLe16(b[..2]) && x / 0x1_0000 == FromLe16(b[2..]);
    Le16Back(b[..2]);
    Le16Back(b[2..]);
    assert b == b[..2] + b[2..];
  }

  // Big-endian fields (the stripe header and the length prefixes).

  function Be16(x: u16): (b: bytes)
    ensures |b| == 2 && FromBe16(b) == x
  {
    [x / 0x100, x % 0x100]
  }

  function FromBe16(b: bytes): u16
    requires |b| == 2
  {
    var hi: int, lo: int := b[0], b[1];
    0x100 * hi + lo
  }

  function Be32(x: u32): (b: bytes)
    ensures |b| == 4 && FromBe32(b) == x
  {
    var hi, lo := Be16(x / 0x1_0000), Be16(x % 0x1_0000);
    assert (hi + lo)[..2] == hi && (hi + lo)[2..] == lo;
    hi + lo
  }

  function FromBe32(b: bytes): u32
    requires |b| == 4
  {
    var hi: int, lo: int := FromBe16(b[..2]), FromBe16(b[2..]);
    0x1_0000 * hi + lo
  }

  function Be64(x: u64): (b: bytes)
    ensures |b| == 8 && FromBe64(b) == x
  {
    var hi, lo := Be32(x / TWO32), Be32(x % TWO32);
    assert (hi + lo)[..4] == hi && (hi + lo)[4..] == lo;
    hi + lo
  }

  function FromBe64(b: bytes): u64
    requires |b| == 8
  {
    var hi: int, lo: int := FromBe32(b[..4]), FromBe32(b[4..]);
    TWO32 * hi + lo
  }
}
