/** Fixed-width unsigned integers, byte swapping and byte orders.

    Rust's `u8`..`u64` are subset types of `int`.  Shifts by a constant are
    written as multiplication or division by a literal power of two, masks
    as `%`, and the `|` of fields that occupy disjoint bit ranges as `+`. */
module Ints {

  type uint8 = x: int | 0 <= x < 0x100
  type uint16 = x: int | 0 <= x < 0x1_0000
  type uint32 = x: int | 0 <= x < 0x1_0000_0000
  type uint64 = x: int | 0 <= x < 0x1_0000_0000_0000_0000

  /** `usize::MAX` on a 64-bit target.  Integer overflow follows release
      builds throughout the model: arithmetic wraps instead of panicking. */
  const USIZE_MAX: nat := 0xffff_ffff_ffff_ffff

  /** `n as u32`: keeps the low 32 bits. */
  function TruncateU32(n: nat): (r: uint32)
    ensures n < 0x1_0000_0000 ==> r == n
  {
    n % 0x1_0000_0000
  }

  /** `u16::swap_bytes`. */
  function SwapBytes16(v: uint16): (r: uint16)
    ensures r % 0x100 == v / 0x100 && r / 0x100 == v % 0x100
  {
    (v % 0x100) * 0x100 + v / 0x100
  }

  lemma SwapBytes16Involution(v: uint16)
    ensures SwapBytes16(SwapBytes16(v)) == v
  {
  }

  /** The byte order of the machine the program runs on. */
  datatype ByteOrder = LittleEndianHost | BigEndianHost

  /** The model fixes the host byte order to little-endian (x86, ARM). */
  const HOST: ByteOrder := LittleEndianHost

  /** `u16::to_be` (and `u16::from_be`, which is the same map) on `host`. */
  function ToBeOn(host: ByteOrder, v: uint16): uint16
  {
    if host == LittleEndianHost then SwapBytes16(v) else v
  }

  /** `u16::to_le` (and `u16::from_le`) on `host`. */
  function ToLeOn(host: ByteOrder, v: uint16): uint16
  {
    if host == BigEndianHost then SwapBytes16(v) else v
  }

  /** Converting to a byte order and back is the identity on either host. */
  lemma ToFromOrderOnAnyHost(host: ByteOrder, v: uint16)
    ensures ToBeOn(host, ToBeOn(host, v)) == v
    ensures ToLeOn(host, ToLeOn(host, v)) == v
  {
    SwapBytes16Involution(v);
  }

  /** `u32::to_be_bytes`. */
  function BeBytes32(v: uint32): (b: seq<uint8>)
    ensures |b| == 4
  {
    var v1 := v / 0x100;
    var v2 := v1 / 0x100;
    [v2 / 0x100, v2 % 0x100, v1 % 0x100, v % 0x100]
  }

  /** `u32::from_be_bytes`. */
  function FromBeBytes32(b: seq<uint8>): uint32
    requires |b| == 4
  {
    var b0: int, b1: int, b2: int, b3: int := b[0], b[1], b[2], b[3];
    ((b0 * 0x100 + b1) * 0x100 + b2) * 0x100 + b3
  }

  lemma BeBytes32RoundTrip(v: uint32)
    ensures FromBeBytes32(BeBytes32(v)) == v
  {
    var v1 := v / 0x100;
    var v2 := v1 / 0x100;
    assert v == (v2 * 0x100 + v1 % 0x100) * 0x100 + v % 0x100;
    assert v2 == v2 / 0x100 * 0x100 + v2 % 0x100;
  }

  lemma FromBeBytes32RoundTrip(b: seq<uint8>)
    requires |b| == 4
    ensures BeBytes32(FromBeBytes32(b)) == b
  {
    var b0: int, b1: int, b2: int, b3: int := b[0], b[1], b[2], b[3];
    var v2 := b0 * 0x100 + b1;
    var v1 := v2 * 0x100 + b2;
    DivMod256(v1, b3);
    DivMod256(v2, b2);
    DivMod256(b0, b1);
  }

  /** `u64::to_le_bytes`: least significant byte first. */
  function LeBytes64(v: uint64): (b: seq<uint8>)
    ensures |b| == 8
  {
    var v1 := v / 0x100;
    var v2 := v1 / 0x100;
    var v3 := v2 / 0x100;
    var v4 := v3 / 0x100;
    var v5 := v4 / 0x100;
    var v6 := v5 / 0x100;
    var v7 := v6 / 0x100;
    [v % 0x100, v1 % 0x100, v2 % 0x100, v3 % 0x100, v4 % 0x100, v5 % 0x100, v6 % 0x100, v7]
  }

  /** `u64::from_le_bytes`. */
  function FromLeBytes64(b: seq<uint8>): uint64
    requires |b| == 8
  {
    var b0: int, b1: int, b2: int, b3: int := b[0], b[1], b[2], b[3];
    var b4: int, b5: int, b6: int, b7: int := b[4], b[5], b[6], b[7];
    ((((((b7 * 0x100 + b6) * 0x100 + b5) * 0x100 + b4) * 0x100 + b3) * 0x100 + b2) * 0x100 + b1) * 0x100 + b0
  }

  lemma LeBytes64RoundTrip(v: uint64)
    ensures FromLeBytes64(LeBytes64(v)) == v
  {
  }

  lemma FromLeBytes64RoundTrip(b: seq<uint8>)
    requires |b| == 8
    ensures LeBytes64(FromLeBytes64(b)) == b
  {
    var b0: int, b1: int, b2: int, b3: int := b[0], b[1], b[2], b[3];
    var b4: int, b5: int, b6: int, b7: int := b[4], b[5], b[6], b[7];
    var v6 := b7 * 0x100 + b6;
    var v5 := v6 * 0x100 + b5;
    var v4 := v5 * 0x100 + b4;
    var v3 := v4 * 0x100 + b3;
    var v2 := v3 * 0x100 + b2;
    var v1 := v2 * 0x100 + b1;
    var v := v1 * 0x100 + b0;
    DivMod256(v1, b0);
    DivMod256(v2, b1);
    DivMod256(v3, b2);
    DivMod256(v4, b3);
    DivMod256(v5, b4);
    DivMod256(v6, b5);
    DivMod256(b7, b6);
  }

  /** Dividing `q * d + r` by `d`, with `r < d`, gives back `q` and `r`. */
  lemma DivModOf(q: nat, r: nat, d: nat)
    requires r < d
    ensures (q * d + r) / d == q && (q * d + r) % d == r
  {
    var k := q * d + r;
    var q', r' := k / d, k % d;
    assert k == q' * d + r' && 0 <= r' < d;
    if q' > q {
      MulMono(q + 1, q', d);
      assert false;
    } else if q' < q {
      MulMono(q' + 1, q, d);
      assert false;
    }
  }

  /** Dividing `q * 256 + r` by 256 recovers `q` and `r`. */
  lemma DivMod256(q: nat, r: uint8)
    ensures (q * 0x100 + r) / 0x100 == q && (q * 0x100 + r) % 0x100 == r
  {
  }

  /** `u64::to_be_bytes`: most significant byte first. */
  function BeBytes64(v: uint64): (b: seq<uint8>)
    ensures |b| == 8
  {
    var le := LeBytes64(v);
    [le[7], le[6], le[5], le[4], le[3], le[2], le[1], le[0]]
  }

  /** `u64::to_ne_bytes` on `host`. */
  function NeBytes64On(host: ByteOrder, v: uint64): (b: seq<uint8>)
    ensures |b| == 8
  {
    if host == LittleEndianHost then LeBytes64(v) else BeBytes64(v)
  }

  /** `u64::swap_bytes`: reverses the eight bytes. */
  function SwapBytes64(v: uint64): uint64
  {
    FromLeBytes64(BeBytes64(v))
  }

  /** Swapping the bytes of a 16-bit value sitting in slot `k` (bits 16k..16k+15)
      of a 64-bit word moves it, byte-swapped, to slot 3 - k. */
  lemma SwapBytes64Slot(s: uint16, k: nat)
    requires k < 4
    ensures k == 0 ==> SwapBytes64(s) == SwapBytes16(s) * 0x1_0000_0000_0000
    ensures k == 1 ==> SwapBytes64(s * 0x1_0000) == SwapBytes16(s) * 0x1_0000_0000
    ensures k == 2 ==> SwapBytes64(s * 0x1_0000_0000) == SwapBytes16(s) * 0x1_0000
    ensures k == 3 ==> SwapBytes64(s * 0x1_0000_0000_0000) == SwapBytes16(s)
  {
    var lo, hi := s % 0x100, s / 0x100;
    assert s == hi * 0x100 + lo;
    assert SwapBytes16(s) == lo * 0x100 + hi;
    var z: uint8 := 0;
    var b, rev: seq<uint8>;
    if k == 0 {
      b, rev := [lo, hi, z, z, z, z, z, z], [z, z, z, z, z, z, hi, lo];
      assert FromLeBytes64(b) == s && FromLeBytes64(rev) == SwapBytes16(s) * 0x1_0000_0000_0000;
    } else if k == 1 {
      b, rev := [z, z, lo, hi, z, z, z, z], [z, z, z, z, hi, lo, z, z];
      assert FromLeBytes64(b) == s * 0x1_0000 && FromLeBytes64(rev) == SwapBytes16(s) * 0x1_0000_0000;
    } else if k == 2 {
      b, rev := [z, z, z, z, lo, hi, z, z], [z, z, hi, lo, z, z, z, z];
      assert FromLeBytes64(b) == s * 0x1_0000_0000 && FromLeBytes64(rev) == SwapBytes16(s) * 0x1_0000;
    } else {
      b, rev := [z, z, z, z, z, z, lo, hi], [hi, lo, z, z, z, z, z, z];
      assert FromLeBytes64(b) == s * 0x1_0000_0000_0000 && FromLeBytes64(rev) == SwapBytes16(s);
    }
    SwapBytes64Of(b);
    assert rev == [b[7], b[6], b[5], b[4], b[3], b[2], b[1], b[0]];
  }

  /** `swap_bytes` of the word with little-endian bytes `b` is the word with
      those bytes reversed. */
  lemma SwapBytes64Of(b: seq<uint8>)
    requires |b| == 8
    ensures SwapBytes64(FromLeBytes64(b)) == FromLeBytes64([b[7], b[6], b[5], b[4], b[3], b[2], b[1], b[0]])
  {
    FromLeBytes64RoundTrip(b);
  }

  /** Multiplying by the same natural number keeps the order. */
  lemma MulMono(x: nat, y: nat, a: nat)
    requires x <= y
    ensures x * a <= y * a
  {
    var d: nat := y - x;
    assert y * a == x * a + d * a;
  }

  /** `2^k`. */
  function Pow2(k: nat): (p: nat)
    ensures p >= 1
  {
    if k == 0 then 1 else 2 * Pow2(k - 1)
  }
}
