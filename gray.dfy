/** `Gray` (crate/src/color/gray/mod.rs): one 8-bit luma channel, opaque. */
module ColorGray {
  import opened Ints
  import opened Color
  import ColorNrgba64

  datatype Gray = Gray(y: uint8)

  /** `as_rgba`: the luma widened to 16 bits (`y | y << 8`) in each colour channel. */
  function AsRgba(c: Gray): (rgba: Rgba)
    ensures rgba == Rgba(257 * c.y, 257 * c.y, 257 * c.y, 0xffff)
  {
    var y := c.y * 0x100 + c.y;
    Rgba(y, y, y, 0xffff)
  }

  /** `ConvertFrom<C>`: `(19595 r + 38470 g + 7471 b + 0x8000) >> 24` as `u8`. */
  function ConvertFromRgba(c: Rgba): (d: Gray)
    ensures c.r <= 0xffff && c.g <= 0xffff && c.b <= 0xffff ==>
      d.y == (19595 * c.r + 38470 * c.g + 7471 * c.b + 0x8000) / 0x100_0000
  {
    Gray(LumaSum(c) / 0x100_0000)
  }

  /** Widening then taking the luma returns the grey level. */
  lemma AsRgbaRoundTrip(c: Gray)
    ensures ConvertFromRgba(AsRgba(c)) == c
  {
    var y := 257 * c.y;
    assert 19595 * y + 38470 * y + 7471 * y + 0x8000 == c.y * 0x100_0000 + (c.y * 0x1_0000 + 0x8000);
  }

  /** `u8::from(Gray)`. */
  function ToU8(c: Gray): uint8 { c.y }

  /** `Gray::from(u8)`. */
  function FromU8(y: uint8): Gray { Gray(y) }

  lemma U8RoundTrip(c: Gray, y: uint8)
    ensures FromU8(ToU8(c)) == c && ToU8(FromU8(y)) == y
  {
  }

  /** `convert_into::<Gray>` of an `Nrgba64` pixel, as the drivers use it: the
      luma of its premultiplied channels. */
  function Luma(c: ColorNrgba64.Nrgba64): uint8
  {
    ConvertFromRgba(ColorNrgba64.AsRgba(c)).y
  }

  /** An opaque grey pixel whose channels are the 8-bit level `y` widened to
      16 bits has luma `y`. */
  lemma LumaOfGrey(y: uint8)
    ensures Luma(ColorNrgba64.Be(257 * y, 257 * y, 257 * y, 0xffff)) == y
  {
    var c := ColorNrgba64.Be(257 * y, 257 * y, 257 * y, 0xffff);
    assert ColorNrgba64.AsRgba(c) == AsRgba(Gray(y));
    AsRgbaRoundTrip(Gray(y));
  }
}
