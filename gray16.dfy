/** `Gray16<E>` (crate/src/color/gray16/mod.rs): one 16-bit luma channel
    stored in the byte order of the tag `E`. */
module ColorGray16 {
  import opened Ints
  import opened Color

  datatype Gray16 = Gray16(y: uint16, tag: Endian)

  /** `cast`: retags without touching the stored word. */
  function Cast(c: Gray16, tag: Endian): (d: Gray16)
    ensures d.tag == tag && d.y == c.y
  {
    c.(tag := tag)
  }

  /** The getter `y()`: `from_be`/`from_le` of the stored word for the tag. */
  function Y(c: Gray16): uint16 { Load(c.tag, c.y) }

  /** `ne`, `le` and `be`: store the value in the tag's byte order. */
  function Make(tag: Endian, v: uint16): (c: Gray16)
    ensures c.tag == tag && Y(c) == v
  {
    LoadStore(tag, v);
    Gray16(Store(tag, v), tag)
  }

  /** `set_y`. */
  function SetY(c: Gray16, v: uint16): (d: Gray16)
    ensures d.tag == c.tag && Y(d) == v
  {
    LoadStore(c.tag, v);
    c.(y := Store(c.tag, v))
  }

  /** `Zero::ZERO`. */
  function Zero(tag: Endian): (c: Gray16)
    ensures c.tag == tag && Y(c) == 0
  {
    Gray16(0, tag)
  }

  /** `gray16_to_rgba`, which `as_rgba` applies to the logical value. */
  function AsRgba(c: Gray16): (rgba: Rgba)
    ensures rgba.a == 0xffff && rgba.r == rgba.g == rgba.b <= 0xffff
  {
    var y := Y(c);
    Rgba(y, y, y, 0xffff)
  }

  /** `(19595 r + 38470 g + 7471 b + 0x8000) >> 16` as `u16`. */
  function Luma16(c: Rgba): uint16
  {
    LumaSum(c) / 0x1_0000
  }

  /** For components within 16 bits the sum does not wrap and a grey input
      (`r = g = b = v`) has luma `v`. */
  lemma Luma16Grey(c: Rgba)
    requires c.r <= 0xffff && c.g <= 0xffff && c.b <= 0xffff
    ensures Luma16(c) == (19595 * c.r + 38470 * c.g + 7471 * c.b + 0x8000) / 0x1_0000
    ensures c.r == c.g == c.b ==> Luma16(c) == c.r
  {
  }

  /** `ConvertFrom<C>` for each tag: the luma, stored with `to_be`/`to_le`. */
  function ConvertFromRgba(tag: Endian, c: Rgba): (d: Gray16)
    ensures d.tag == tag && Y(d) == Luma16(c)
  {
    Make(tag, Luma16(c))
  }

  /** Converting a `Gray16`'s own `as_rgba` back to the same tag gives the
      same colour: the luma of a grey is its level. */
  lemma AsRgbaRoundTrip(c: Gray16)
    ensures ConvertFromRgba(c.tag, AsRgba(c)) == c
  {
    Luma16Grey(AsRgba(c));
    LoadStore(c.tag, c.y);
  }

  /** `u16::from(Gray16<E>)`: the logical value. */
  function ToU16(c: Gray16): uint16
  {
    Load(c.tag, c.y)
  }

  /** `Gray16<E>::from(u16)`. */
  function FromU16(tag: Endian, v: uint16): (c: Gray16)
    ensures c.tag == tag
  {
    Gray16(Store(tag, v), tag)
  }

  /** `u16` to `Gray16<E>` and back is the identity, and so is the reverse. */
  lemma U16RoundTrip(tag: Endian, v: uint16, c: Gray16)
    ensures ToU16(FromU16(tag, v)) == v
    ensures FromU16(c.tag, ToU16(c)) == c
  {
    LoadStore(tag, v);
    LoadStore(c.tag, c.y);
  }

  /** The specialised conversion between tags goes through `u16`. */
  function ConvertSpecialized(c: Gray16, tag: Endian): (d: Gray16)
    ensures d.tag == tag
  {
    FromU16(tag, ToU16(c))
  }

  /** Unlike `Nrgba64`, the specialised conversion keeps the logical value. */
  lemma {:induction false} SpecializedKeepsValue(c: Gray16, tag: Endian)
    ensures Y(ConvertSpecialized(c, tag)) == Y(c)
    ensures ConvertSpecialized(c, c.tag) == c
  {
    U16RoundTrip(tag, ToU16(c), c);
  }
}
