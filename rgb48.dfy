/** `Rgb48<E>` (crate/src/color/rgb48/mod.rs): three 16-bit channels
    stored in the byte order of the tag `E`, opaque. */
module ColorRgb48 {
  import opened Ints
  import opened Color

  datatype Rgb48 = Rgb48(r: uint16, g: uint16, b: uint16, tag: Endian)

  /** `get_channels`: the stored words. */
  function GetChannels(c: Rgb48): (uint16, uint16, uint16)
  {
    (c.r, c.g, c.b)
  }

  /** `cast`: retags without touching the stored words. */
  function Cast(c: Rgb48, tag: Endian): (d: Rgb48)
    ensures d.tag == tag && GetChannels(d) == GetChannels(c)
  {
    c.(tag := tag)
  }

  function R(c: Rgb48): uint16 { Load(c.tag, c.r) }
  function G(c: Rgb48): uint16 { Load(c.tag, c.g) }
  function B(c: Rgb48): uint16 { Load(c.tag, c.b) }

  /** `ne(r, b, g)`, `le(r, b, g)` and `be(r, b, g)`: the parameters are
      declared red, blue, green, so the second argument becomes blue. */
  function Make(tag: Endian, r: uint16, b: uint16, g: uint16): (c: Rgb48)
    ensures c.tag == tag && R(c) == r && B(c) == b && G(c) == g
  {
    LoadStore(tag, r); LoadStore(tag, g); LoadStore(tag, b);
    Rgb48(Store(tag, r), Store(tag, g), Store(tag, b), tag)
  }

  /** A caller passing the channels in red, green, blue order gets green and
      blue exchanged whenever they differ. */
  lemma MakeArgumentOrder(tag: Endian)
    ensures var c := Make(tag, 0, 1, 2); G(c) == 2 && B(c) == 1
  {
  }

  function SetR(c: Rgb48, v: uint16): (d: Rgb48)
    ensures d.tag == c.tag && R(d) == v && G(d) == G(c) && B(d) == B(c)
  {
    LoadStore(c.tag, v);
    c.(r := Store(c.tag, v))
  }

  function SetG(c: Rgb48, v: uint16): (d: Rgb48)
    ensures d.tag == c.tag && R(d) == R(c) && G(d) == v && B(d) == B(c)
  {
    LoadStore(c.tag, v);
    c.(g := Store(c.tag, v))
  }

  function SetB(c: Rgb48, v: uint16): (d: Rgb48)
    ensures d.tag == c.tag && R(d) == R(c) && G(d) == G(c) && B(d) == v
  {
    LoadStore(c.tag, v);
    c.(b := Store(c.tag, v))
  }

  /** `rgb48_to_rgba` on the logical channels. */
  function AsRgba(c: Rgb48): (rgba: Rgba)
    ensures rgba.a == 0xffff && rgba.r <= 0xffff && rgba.g <= 0xffff && rgba.b <= 0xffff
  {
    Rgba(R(c), G(c), B(c), 0xffff)
  }

  /** `ConvertFrom<C>` for each tag: the low 16 bits of each component,
      stored with `to_be`/`to_le`. */
  function ConvertFromRgba(tag: Endian, c: Rgba): (d: Rgb48)
    ensures d.tag == tag
    ensures R(d) == Low16(c.r) && G(d) == Low16(c.g) && B(d) == Low16(c.b)
  {
    Make(tag, Low16(c.r), Low16(c.b), Low16(c.g))
  }

  /** Converting an `Rgb48`'s own `as_rgba` back gives the same colour. */
  lemma {:induction false} ConvertFromAsRgba(c: Rgb48)
    ensures ConvertFromRgba(c.tag, AsRgba(c)) == c
  {
    var d := ConvertFromRgba(c.tag, AsRgba(c));
    LoadStore(c.tag, c.r); LoadStore(c.tag, c.g); LoadStore(c.tag, c.b);
    LoadStore(c.tag, d.r); LoadStore(c.tag, d.g); LoadStore(c.tag, d.b);
  }
}
