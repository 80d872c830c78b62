/** `Nrgba` (crate/src/color/nrgba/mod.rs): four 8-bit channels, not
    alpha-premultiplied. */
module ColorNrgba {
  import opened Ints
  import opened Color

  datatype Nrgba = Nrgba(r: uint8, g: uint8, b: uint8, a: uint8)

  /** `Zero::ZERO`. */
  const Zero: Nrgba := Nrgba(0, 0, 0, 0)

  /** `v | v << 8`. */
  function Widen(v: uint8): (w: uint16)
    ensures w == 257 * v && w / 0x100 == v && w % 0x100 == v
  {
    v * 0x100 + v
  }

  /** `as_rgba`: every channel, alpha included, widened to 16 bits. */
  function AsRgba(c: Nrgba): (rgba: Rgba)
    ensures rgba == Rgba(257 * c.r, 257 * c.g, 257 * c.b, 257 * c.a)
  {
    Rgba(Widen(c.r), Widen(c.g), Widen(c.b), Widen(c.a))
  }

  /** `((v >> 8) & 0xff) as u8`: bits 8 to 15, the high byte of the low 16
      bits. */
  function Narrow(v: uint32): (n: uint8)
    ensures n * 0x100 <= v % 0x1_0000 < n * 0x100 + 0x100
  {
    v / 0x100 % 0x100
  }

  /** `ConvertFrom<C>`. */
  function ConvertFromRgba(c: Rgba): (d: Nrgba)
    ensures d.r * 0x100 <= c.r % 0x1_0000 < d.r * 0x100 + 0x100
    ensures d.g * 0x100 <= c.g % 0x1_0000 < d.g * 0x100 + 0x100
    ensures d.b * 0x100 <= c.b % 0x1_0000 < d.b * 0x100 + 0x100
    ensures d.a * 0x100 <= c.a % 0x1_0000 < d.a * 0x100 + 0x100
  {
    Nrgba(Narrow(c.r), Narrow(c.g), Narrow(c.b), Narrow(c.a))
  }

  /** Narrowing undoes widening. */
  lemma NarrowWiden(b: uint8)
    ensures Narrow(Widen(b)) == b
  {
  }

  /** Widening then narrowing returns the colour. */
  lemma AsRgbaRoundTrip(c: Nrgba)
    ensures ConvertFromRgba(AsRgba(c)) == c
  {
    NarrowWiden(c.r); NarrowWiden(c.g); NarrowWiden(c.b); NarrowWiden(c.a);
  }

  /** `u32::from(Nrgba)`: `r | g << 8 | b << 16 | a << 24`. */
  function ToU32(c: Nrgba): uint32
  {
    ((c.a * 0x100 + c.b) * 0x100 + c.g) * 0x100 + c.r
  }

  /** `Nrgba::from(u32)`. */
  function FromU32(v: uint32): Nrgba
  {
    var v1 := v / 0x100;
    var v2 := v1 / 0x100;
    Nrgba(v % 0x100, v1 % 0x100, v2 % 0x100, v2 / 0x100)
  }

  /** Packing and unpacking are mutual inverses. */
  lemma {:induction false} U32RoundTrip(c: Nrgba, v: uint32)
    ensures FromU32(ToU32(c)) == c
    ensures ToU32(FromU32(v)) == v
  {
    DivMod256((c.a * 0x100 + c.b) * 0x100 + c.g, c.r);
    DivMod256(c.a * 0x100 + c.b, c.g);
    DivMod256(c.a, c.b);
    var v1 := v / 0x100;
    var v2 := v1 / 0x100;
    assert v == (v2 * 0x100 + v1 % 0x100) * 0x100 + v % 0x100;
  }
}
