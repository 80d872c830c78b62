/** Declarations shared by the colour types (crate/src/color/mod.rs): the
    endianness tags and the premultiplied 16-bit RGBA value `as_rgba` returns. */
module Color {
  import opened Ints

  /** The phantom type parameter `E` of `Nrgba64<E>`, `Gray16<E>` and `Rgb48<E>`:
      how a logical 16-bit channel is laid out in the stored word. */
  datatype Endian = NativeEndian | BigEndian | LittleEndian

  /** `Color::as_rgba`'s result: alpha-premultiplied 16-bit channels in `u32`s. */
  datatype Rgba = Rgba(r: uint32, g: uint32, b: uint32, a: uint32)

  /** What a setter or constructor of a `tag`-tagged colour stores for the logical
      value `v` on `host`: unchanged for native, `to_be` / `to_le` otherwise. */
  function StoreOn(host: ByteOrder, tag: Endian, v: uint16): uint16
  {
    match tag
    case NativeEndian => v
    case BigEndian => ToBeOn(host, v)
    case LittleEndian => ToLeOn(host, v)
  }

  /** What a getter of a `tag`-tagged colour returns for the stored word `w` on
      `host`; `from_be`/`from_le` are the same byte maps as `to_be`/`to_le`. */
  function LoadOn(host: ByteOrder, tag: Endian, w: uint16): uint16
  {
    StoreOn(host, tag, w)
  }

  /** A getter after a setter returns the value set, for every tag on either host. */
  lemma LoadStoreOnAnyHost(host: ByteOrder, tag: Endian, v: uint16)
    ensures LoadOn(host, tag, StoreOn(host, tag, v)) == v
    ensures StoreOn(host, tag, LoadOn(host, tag, v)) == v
  {
    ToFromOrderOnAnyHost(host, v);
  }

  function Store(tag: Endian, v: uint16): uint16
  {
    StoreOn(HOST, tag, v)
  }

  function Load(tag: Endian, w: uint16): uint16
  {
    LoadOn(HOST, tag, w)
  }

  lemma LoadStore(tag: Endian, v: uint16)
    ensures Load(tag, Store(tag, v)) == v
    ensures Store(tag, Load(tag, v)) == v
  {
    LoadStoreOnAnyHost(HOST, tag, v);
  }

  /** `(x & 0xffff) as u16`. */
  function Low16(x: uint32): (r: uint16)
    ensures x <= 0xffff ==> r == x
  {
    x % 0x1_0000
  }

  /** The bytes of a stored 16-bit word as it lies in memory on `host`. */
  function MemBytes16On(host: ByteOrder, w: uint16): (b: seq<uint8>)
    ensures |b| == 2
  {
    if host == LittleEndianHost then [w % 0x100, w / 0x100] else [w / 0x100, w % 0x100]
  }

  function MemBytes16(w: uint16): (b: seq<uint8>)
    ensures |b| == 2
  {
    MemBytes16On(HOST, w)
  }

  /** `x * a / 0xffff` never exceeds `a`, and `x * a` fits in a `u32`. */
  lemma PremultiplyBound(x: uint16, a: uint16)
    ensures x * a <= 0xffff * 0xffff < 0x1_0000_0000
    ensures 0 <= x * a / 0xffff <= a
  {
    MulMono(x, 0xffff, a);
    var n := x * a;
    assert n <= 0xffff * a;
  }

  /** `x * a / 0xffff`: a 16-bit channel scaled by a 16-bit alpha. */
  function Premultiply(x: uint16, a: uint16): (p: uint16)
    ensures p <= a
    ensures a == 0xffff ==> p == x
    ensures a == 0 ==> p == 0
  {
    PremultiplyBound(x, a);
    if a == 0xffff then
      DivModOf(x, 0, 0xffff);
      x * a / 0xffff
    else
      x * a / 0xffff
  }

  /** The BT.601 luma sum `19595 r + 38470 g + 7471 b + 0x8000` in `u32`
      arithmetic; the weights add up to 65536. */
  function LumaSum(c: Rgba): (s: uint32)
    ensures c.r <= 0xffff && c.g <= 0xffff && c.b <= 0xffff ==>
      s == 19595 * c.r + 38470 * c.g + 7471 * c.b + 0x8000 && s <= 0xffff * 0x1_0000 + 0x8000
  {
    TruncateU32(19595 * c.r + 38470 * c.g + 7471 * c.b + 0x8000)
  }
}
