/** `Cmyk` (crate/src/color/cmyk/mod.rs): four 8-bit ink levels. */
module ColorCmyk {
  import opened Ints
  import opened Color
  import opened Results

  datatype Cmyk = Cmyk(c: uint8, m: uint8, y: uint8, k: uint8)

  const Black: Cmyk := Cmyk(0, 0, 0, 0xff)

  /** `as_rgba`: each ink removes its share of the white left over by black. */
  function AsRgba(col: Cmyk): (rgba: Rgba)
    ensures rgba.a == 0xffff
    ensures rgba.r <= 0xffff - 0x101 * col.k && rgba.g <= 0xffff - 0x101 * col.k
    ensures rgba.b <= 0xffff - 0x101 * col.k
    ensures col.c == col.m == col.y == 0 ==> rgba.r == rgba.g == rgba.b == 0xffff - 0x101 * col.k
  {
    var w := 0xffff - col.k * 0x101;
    PremultiplyBound(0xffff - col.c * 0x101, w);
    PremultiplyBound(0xffff - col.m * 0x101, w);
    PremultiplyBound(0xffff - col.y * 0x101, w);
    Rgba((0xffff - col.c * 0x101) * w / 0xffff, (0xffff - col.m * 0x101) * w / 0xffff,
         (0xffff - col.y * 0x101) * w / 0xffff, 0xffff)
  }

  function Min3(r: int, g: int, b: int): (w: int)
    ensures w <= r && w <= g && w <= b && (w == r || w == g || w == b)
  {
    if r <= g && r <= b then r else if g <= b then g else b
  }

  function Max3(r: int, g: int, b: int): (w: int)
    ensures w >= r && w >= g && w >= b && (w == r || w == g || w == b)
  {
    if r >= g && r >= b then r else if g >= b then g else b
  }

  /** `((v >> 8) & 0xff) as u8`. */
  function HighByte(v: nat): uint8
  {
    v / 0x100 % 0x100
  }

  /** `u32` arithmetic: the result wraps modulo 2^32. */
  function Wrap32(n: int): (r: uint32)
    ensures 0 <= n < 0x1_0000_0000 ==> r == n
  {
    n % 0x1_0000_0000
  }

  /** `(w - v) * 0xffff / w` in wrapping `u32` arithmetic. */
  function WrappedShare(w: uint32, v: uint32): (s: uint32)
    requires w > 0
    ensures v == w ==> s == 0
  {
    var d := Wrap32(w - v);
    var q := Wrap32(d * 0xffff);
    DivAtMost(q, w);
    if v == w then assert q == 0; 0 else q / w
  }

  lemma DivAtMost(x: nat, d: nat)
    requires d > 0
    ensures 0 <= x / d <= x
  {
    MulMono(1, d, x / d);
  }

  /** `ConvertFrom<C>` as written (lines 31-57): `w` is the MINIMUM of the
      components, so `w - r`, `w - g` and `w - b` wrap around for every
      channel above the minimum. */
  function ConvertFromRgbaAsWritten(col: Rgba): (d: Cmyk)
    ensures Min3(col.r, col.g, col.b) == 0 ==> d == Black
    ensures Min3(col.r, col.g, col.b) > 0 ==>
      d.k == HighByte(Wrap32(0xffff - Min3(col.r, col.g, col.b)))
    ensures Min3(col.r, col.g, col.b) > 0 && col.r == Min3(col.r, col.g, col.b) ==> d.c == 0
    ensures Min3(col.r, col.g, col.b) > 0 && col.g == Min3(col.r, col.g, col.b) ==> d.m == 0
    ensures Min3(col.r, col.g, col.b) > 0 && col.b == Min3(col.r, col.g, col.b) ==> d.y == 0
  {
    var w := Min3(col.r, col.g, col.b);
    if w == 0 then Black
    else
      assert HighByte(0) == 0;
      Cmyk(HighByte(WrappedShare(w, col.r)), HighByte(WrappedShare(w, col.g)),
           HighByte(WrappedShare(w, col.b)), HighByte(Wrap32(0xffff - w)))
  }

  /** A pure red is converted to black: its minimum component is 0. */
  lemma ConvertFromAsWrittenRedIsBlack()
    ensures ConvertFromRgbaAsWritten(Rgba(0xffff, 0, 0, 0xffff)) == Black
  {
  }

  /** `ConvertFrom<C>` with `w` the MAXIMUM of the components, as in the usual
      RGB to CMYK formula: no difference can underflow. */
  function ConvertFromRgba(col: Rgba): (d: Cmyk)
    requires col.r <= 0xffff && col.g <= 0xffff && col.b <= 0xffff
    ensures Max3(col.r, col.g, col.b) == 0 ==> d == Black
    ensures d.k == HighByte(0xffff - Max3(col.r, col.g, col.b))
    ensures col.r == Max3(col.r, col.g, col.b) ==> d.c == 0
    ensures col.g == Max3(col.r, col.g, col.b) ==> d.m == 0
    ensures col.b == Max3(col.r, col.g, col.b) ==> d.y == 0
  {
    var w := Max3(col.r, col.g, col.b);
    if w == 0 then Black
    else
      var sr, sg, sb := Share(w, col.r), Share(w, col.g), Share(w, col.b);
      assert HighByte(0) == 0;
      Cmyk(HighByte(sr), HighByte(sg), HighByte(sb), HighByte(0xffff - w))
  }

  /** `(w - v) * 0xffff / w`: the ink needed for a channel `v` below the maximum `w`. */
  function Share(w: nat, v: nat): (s: nat)
    requires 0 < w <= 0xffff && v <= w
    ensures (w - v) * 0xffff < 0x1_0000_0000
    ensures v == w ==> s == 0
  {
    (w - v) * 0xffff / w
  }

  /** The corrected conversion turns pure red into full magenta and yellow
      ink, and agrees with the code as written on every grey. */
  lemma ConvertFromCorrected(v: uint32)
    requires v <= 0xffff
    ensures ConvertFromRgba(Rgba(0xffff, 0, 0, 0xffff)) == Cmyk(0, 0xff, 0xff, 0)
    ensures ConvertFromRgbaAsWritten(Rgba(v, v, v, 0xffff)) == ConvertFromRgba(Rgba(v, v, v, 0xffff))
  {
    assert Share(0xffff, 0) == 0xffff by { DivModOf(0xffff, 0, 0xffff); }
    assert HighByte(0xffff) == 0xff && HighByte(0) == 0;
    if v > 0 {
      assert (v - v) * 0xffff / v == 0;
    }
  }

  /** A pure black ink level survives `as_rgba` followed by the conversion. */
  lemma {:induction false} BlackInkRoundTrip(k: uint8)
    ensures ConvertFromRgba(AsRgba(Cmyk(0, 0, 0, k))) == Cmyk(0, 0, 0, k)
  {
    var w := 0xffff - k * 0x101;
    var rgba := AsRgba(Cmyk(0, 0, 0, k));
    assert rgba.r == rgba.g == rgba.b == w;
    assert 0xffff - w == k * 0x100 + k;
  }

  /** `u32::from(Cmyk)`: `c | m << 8 | y << 16 | k << 24`. */
  function ToU32(col: Cmyk): uint32
  {
    ((col.k * 0x100 + col.y) * 0x100 + col.m) * 0x100 + col.c
  }

  /** `Cmyk::from(u32)`. */
  function FromU32(v: uint32): Cmyk
  {
    var v1 := v / 0x100;
    var v2 := v1 / 0x100;
    Cmyk(v % 0x100, v1 % 0x100, v2 % 0x100, v2 / 0x100)
  }

  lemma {:induction false} U32RoundTrip(col: Cmyk, v: uint32)
    ensures FromU32(ToU32(col)) == col
    ensures ToU32(FromU32(v)) == v
  {
    DivMod256((col.k * 0x100 + col.y) * 0x100 + col.m, col.c);
    DivMod256(col.k * 0x100 + col.y, col.m);
    DivMod256(col.k, col.y);
    var v1 := v / 0x100;
    var v2 := v1 / 0x100;
    assert v == (v2 * 0x100 + v1 % 0x100) * 0x100 + v % 0x100;
  }
}
