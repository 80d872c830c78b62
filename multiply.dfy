/** The `multiply` driver (drivers/multiply/src/main.rs): two images are
    multiplied as matrices, channel by channel, on the high bytes of the
    channels. */
module Multiply {
  import opened Ints
  import opened Results
  import opened Color
  import opened ColorNrgba64
  import opened PixBuf

  /** `Chan`: which channel `sum_channel` works on. */
  datatype Chan = Red | Green | Blue | Alpha

  function ChannelOf(c: Nrgba64Be, which: Chan): uint16
  {
    match which
    case Red => R(c)
    case Green => G(c)
    case Blue => B(c)
    case Alpha => A(c)
  }

  /** An image as `sum_channel` reads it: its pixels row by row and its size. */
  datatype Grid = Grid(cells: seq<Nrgba64Be>, width: nat, height: nat)
  {
    predicate Fits()
    {
      |cells| == width * height
    }

    /** `color_get(x, y)`. */
    function At(x: nat, y: nat): Nrgba64Be
      requires Fits() && x < width && y < height
    {
      IndexInGrid(x, y, width, height);
      cells[Offset(width, x, y)]
    }
  }

  function GridOf(im: RawPixBuf<Nrgba64Be>): (g: Grid)
    reads im.buf
    ensures im.Valid() ==> g.Fits()
  {
    Grid(im.buf[..], im.width, im.height)
  }

  /** `v >> 8`. */
  function HighByte(v: uint16): (h: uint8)
    ensures h * 256 <= v < h * 256 + 256
  {
    v / 256
  }

  /** Shifting left by 8 and keeping 16 bits keeps the low byte, moved up. */
  lemma ShiftKeepsLowByte(p: nat)
    ensures (p * 256) % 0x10000 == (p % 256) * 256
  {
    var q, r := p / 256, p % 256;
    assert p * 256 == q * 0x10000 + r * 256;
    DivModOf(q, r * 256, 0x10000);
  }

  /** The product of the high bytes of two channel words, as `c1 * c2` in a `u64`. */
  function HighProduct(u: uint16, v: uint16): (p: nat)
    ensures p <= 255 * 255
  {
    MulMono(HighByte(u), 255, HighByte(v));
    MulMono(HighByte(v), 255, 255);
    HighByte(u) * HighByte(v)
  }

  /** One summand of `sum_channel`: `((c1 * c2) << 8) & 0xffff` on the high
      bytes; it is the low byte of their product, in the high byte. */
  function Summand(u: uint16, v: uint16): (t: uint16)
    ensures t == (HighProduct(u, v) % 256) * 256
  {
    ShiftKeepsLowByte(HighProduct(u, v));
    (HighProduct(u, v) * 256) % 0x10000
  }

  /** Shapes under which `sum_channel(fst, snd, which, i, j)` reads its first
      `n` summands without leaving either buffer. */
  predicate InReach(fst: Grid, snd: Grid, i: nat, j: nat, n: nat)
  {
    fst.Fits() && snd.Fits() && i < fst.height && j < snd.width
    && n <= fst.width && n <= snd.height
  }

  /** `c1`: the channel of `fst.color_get(k, i)`. */
  function Left(fst: Grid, snd: Grid, which: Chan, i: nat, j: nat, k: nat): uint16
    requires InReach(fst, snd, i, j, k + 1)
  {
    ChannelOf(fst.At(k, i), which)
  }

  /** `c2`: the channel of `snd.color_get(j, k)`. */
  function Right(fst: Grid, snd: Grid, which: Chan, i: nat, j: nat, k: nat): uint16
    requires InReach(fst, snd, i, j, k + 1)
  {
    ChannelOf(snd.At(j, k), which)
  }

  /** The first `n` summands of `sum_channel`, added without wrapping. */
  function Terms(fst: Grid, snd: Grid, which: Chan, i: nat, j: nat, n: nat): (t: nat)
    requires InReach(fst, snd, i, j, n)
    ensures t <= n * 0xffff
  {
    if n == 0 then 0
    else
      Terms(fst, snd, which, i, j, n - 1)
      + Summand(Left(fst, snd, which, i, j, n - 1), Right(fst, snd, which, i, j, n - 1))
  }

  /** The reference: row `i` of `fst` times column `j` of `snd`, on the high
      bytes of the channel, as plain integers. */
  function Dot(fst: Grid, snd: Grid, which: Chan, i: nat, j: nat, n: nat): nat
    requires InReach(fst, snd, i, j, n)
  {
    if n == 0 then 0
    else
      Dot(fst, snd, which, i, j, n - 1)
      + HighProduct(Left(fst, snd, which, i, j, n - 1), Right(fst, snd, which, i, j, n - 1))
  }

  /** Adding a low byte moved up to a sum that already holds one. */
  lemma AddHighByte(a: nat, d: nat, p: nat)
    requires a % 0x10000 == (d % 256) * 256
    ensures (a + (p % 256) * 256) % 0x10000 == ((d + p) % 256) * 256
  {
    var s := d % 256 + p % 256;
    assert d + p == (d / 256 + p / 256 + s / 256) * 256 + s % 256;
    DivModOf(d / 256 + p / 256 + s / 256, s % 256, 256);
    var q := a / 0x10000;
    assert a + (p % 256) * 256 == (q + s / 256) * 0x10000 + (s % 256) * 256;
    DivModOf(q + s / 256, (s % 256) * 256, 0x10000);
  }

  /** Modulo 2^16 the summands add up to the dot product's low byte, moved up. */
  lemma {:induction false} TermsModDot(fst: Grid, snd: Grid, which: Chan, i: nat, j: nat, n: nat)
    requires InReach(fst, snd, i, j, n)
    ensures Terms(fst, snd, which, i, j, n) % 0x10000 == (Dot(fst, snd, which, i, j, n) % 256) * 256
  {
    if n > 0 {
      TermsModDot(fst, snd, which, i, j, n - 1);
      var u, v := Left(fst, snd, which, i, j, n - 1), Right(fst, snd, which, i, j, n - 1);
      AddHighByte(Terms(fst, snd, which, i, j, n - 1), Dot(fst, snd, which, i, j, n - 1), HighProduct(u, v));
    }
  }

  /** Keeping 16 bits of a 64-bit wrapped value keeps 16 bits of the value. */
  lemma WrapKeepsLow16(t: nat)
    ensures (t % 0x1_0000_0000_0000_0000) % 0x10000 == t % 0x10000
  {
    var q, r := t / 0x1_0000_0000_0000_0000, t % 0x1_0000_0000_0000_0000;
    assert t == (q * 0x1_0000_0000_0000) * 0x10000 + r;
    var q', r' := r / 0x10000, r % 0x10000;
    assert t == (q * 0x1_0000_0000_0000 + q') * 0x10000 + r';
    DivModOf(q * 0x1_0000_0000_0000 + q', r', 0x10000);
  }

  /** `sum_channel`: the summands added in a `u64` (wrapping), then `& 0xffff`. */
  function SumChannel(fst: Grid, snd: Grid, which: Chan, i: nat, j: nat): uint16
    requires InReach(fst, snd, i, j, fst.width)
  {
    var sum := Terms(fst, snd, which, i, j, fst.width) % 0x1_0000_0000_0000_0000;
    sum % 0x10000
  }

  /** The channel `sum_channel` computes is the low byte of the high-byte dot
      product, in the high byte. */
  lemma SumChannelIsDot(fst: Grid, snd: Grid, which: Chan, i: nat, j: nat)
    requires InReach(fst, snd, i, j, fst.width)
    ensures SumChannel(fst, snd, which, i, j) == (Dot(fst, snd, which, i, j, fst.width) % 256) * 256
  {
    WrapKeepsLow16(Terms(fst, snd, which, i, j, fst.width));
    TermsModDot(fst, snd, which, i, j, fst.width);
  }

  /** The pixel `multiply` stores at `(j, i)`. */
  function ProductPixel(fst: Grid, snd: Grid, i: nat, j: nat): Nrgba64Be
    requires InReach(fst, snd, i, j, fst.width)
  {
    Be(SumChannel(fst, snd, Red, i, j), SumChannel(fst, snd, Green, i, j),
       SumChannel(fst, snd, Blue, i, j), SumChannel(fst, snd, Alpha, i, j))
  }

  /** Each channel of a product pixel is its own dot product's low byte. */
  lemma ProductPixelChannels(fst: Grid, snd: Grid, i: nat, j: nat)
    requires InReach(fst, snd, i, j, fst.width)
    ensures R(ProductPixel(fst, snd, i, j)) == (Dot(fst, snd, Red, i, j, fst.width) % 256) * 256
    ensures G(ProductPixel(fst, snd, i, j)) == (Dot(fst, snd, Green, i, j, fst.width) % 256) * 256
    ensures B(ProductPixel(fst, snd, i, j)) == (Dot(fst, snd, Blue, i, j, fst.width) % 256) * 256
    ensures A(ProductPixel(fst, snd, i, j)) == (Dot(fst, snd, Alpha, i, j, fst.width) % 256) * 256
  {
    SumChannelIsDot(fst, snd, Red, i, j);
    SumChannelIsDot(fst, snd, Green, i, j);
    SumChannelIsDot(fst, snd, Blue, i, j);
    SumChannelIsDot(fst, snd, Alpha, i, j);
  }

  /** Operands `multiply` can finish on: every read stays in bounds, or the
      output is empty and nothing is read. */
  predicate Multipliable(fst: Grid, snd: Grid)
  {
    fst.Fits() && snd.Fits() && (fst.width <= snd.height || snd.width == 0 || fst.height == 0)
  }

  /** Pixel `(x, y)` of the output of `multiply`, where it can be computed. */
  function ProductCell(fst: Grid, snd: Grid): (nat, nat) --> Nrgba64Be
  {
    (x: nat, y: nat) requires InReach(fst, snd, y, x, fst.width) => ProductPixel(fst, snd, y, x)
  }

  /** The product image, `snd.width` wide and `fst.height` high. */
  function ProductImage(fst: Grid, snd: Grid): (t: seq<Nrgba64Be>)
    requires Multipliable(fst, snd)
    ensures |t| == snd.width * fst.height
  {
    Tabulate(snd.width, fst.height, ProductCell(fst, snd))
  }

  /** Pixel `(j, i)` of the product is row `i` of `fst` times column `j` of `snd`. */
  lemma ProductImageAt(fst: Grid, snd: Grid, i: nat, j: nat)
    requires Multipliable(fst, snd) && i < fst.height && j < snd.width
    ensures Offset(snd.width, j, i) < |ProductImage(fst, snd)|
    ensures fst.width <= snd.height
    ensures ProductImage(fst, snd)[Offset(snd.width, j, i)] == ProductPixel(fst, snd, i, j)
  {
    TabulateAt(snd.width, fst.height, ProductCell(fst, snd), j, i);
  }

  /** Why `multiply` gives up: the check at the start, or the unchecked
      `snd.color_get(j, k)` with `k >= snd.height`, which panics. */
  datatype MultiplyError = WidthMismatch | IndexOutOfBounds

  /** `multiply`. When `fst.width > snd.height` the first out-of-bounds read is
      `snd.color_get(0, snd.height)`, summand `k = snd.height` of pixel `(0, 0)`,
      at index `snd.height * snd.width`; this happens before anything is stored,
      so the panic is decided before the loops. */
  method Multiply(fst: RawPixBuf<Nrgba64Be>, snd: RawPixBuf<Nrgba64Be>)
    returns (r: Result<RawPixBuf<Nrgba64Be>, MultiplyError>)
    requires fst.Valid() && snd.Valid()
    ensures r == Err(WidthMismatch) <==> snd.width != fst.height
    ensures r == Err(IndexOutOfBounds)
      <==> snd.width == fst.height && snd.width > 0 && fst.width > snd.height
    ensures r.Ok? ==> fresh(r.value) && fresh(r.value.buf) && r.value.Valid()
    ensures r.Ok? ==> r.value.width == snd.width && r.value.height == fst.height
    ensures r.Ok? ==> Multipliable(GridOf(fst), GridOf(snd))
    ensures r.Ok? ==> r.value.buf[..] == ProductImage(GridOf(fst), GridOf(snd))
  {
    if snd.width != fst.height {
      return Err(WidthMismatch);
    }
    var zero: Nrgba64Be := Nrgba64(0, 0, 0, 0, BigEndian);
    var output := new RawPixBuf<Nrgba64Be>(snd.width, fst.height, zero);
    if output.width > 0 && fst.width > snd.height {
      return Err(IndexOutOfBounds);
    }
    var f, s := GridOf(fst), GridOf(snd);
    assert f.width == fst.width && f.height == fst.height && f.Fits();
    assert s.width == snd.width && s.height == snd.height && s.Fits();
    assert Multipliable(f, s);
    FillBy(output, ProductCell(f, s));
    return Ok(output);
  }

  /** `usage`: always an error, carrying the message shown to the user. */
  function Usage(): (r: Result<(), string>)
    ensures r.Err? && |r.error| > 0
  {
    Err("Need to provide two image args")
  }
}
