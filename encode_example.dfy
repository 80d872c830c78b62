/** The encode example (examples/encode/src/main.rs): a 500 by 500 `Nrgba`
    image is drawn by blending a running colour towards red inside a circle
    and towards white outside it, pixel by pixel in row-major order. */
module EncodeExample {
  import opened Ints
  import opened ColorNrgba
  import opened PixBuf

  const DIM: nat := 500
  /** `DIM / 2`, the centre of the circle on both axes. */
  const HALF: nat := 250
  const RED: Nrgba := Nrgba(255, 0, 0, 255)
  const WHITE: Nrgba := Nrgba(255, 255, 255, 255)
  const DIST: uint8 := 128

  function Min(a: int, b: int): int { if a <= b then a else b }
  function Max(a: int, b: int): int { if a <= b then b else a }

  /** The weighted sum of `lerp` lies between `255 * v0` and `255 * v1`. */
  lemma WeightedSumBetween(v0: uint8, v1: uint8, t: uint8)
    ensures 255 * Min(v0, v1) <= v0 * (255 - t) + v1 * t <= 255 * Max(v0, v1)
  {
    assert v0 * (255 - t) == 255 * v0 - v0 * t;
    if v0 <= v1 {
      MulMono(v0, v1, t);
      MulMono(t, 255, v1 - v0);
      assert v1 * t - v0 * t == t * (v1 - v0);
    } else {
      MulMono(v1, v0, t);
      MulMono(t, 255, v0 - v1);
      assert v0 * t - v1 * t == t * (v0 - v1);
    }
  }

  /** `lerp`: `(v0 * (255 - t) + v1 * t) / 255` in `u32`, cast to `u8`.  The
      result lies between `v0` and `v1`, so the cast never truncates. */
  function Lerp(v0: uint8, v1: uint8, t: uint8): (v: uint8)
    ensures Min(v0, v1) <= v <= Max(v0, v1)
  {
    WeightedSumBetween(v0, v1, t);
    var sum: uint32 := v0 * (255 - t) + v1 * t;
    (sum / 255) % 0x100
  }

  /** `t = 0` gives the first value, `t = 255` the second. */
  lemma LerpEnds(v0: uint8, v1: uint8)
    ensures Lerp(v0, v1, 0) == v0 && Lerp(v0, v1, 255) == v1
  {
  }

  /** Blending a value with itself gives it back. */
  lemma LerpSame(v: uint8, t: uint8)
    ensures Lerp(v, v, t) == v
  {
  }

  /** `lerp_nrgba`: `lerp` on each channel, alpha included. */
  function LerpNrgba(v0: Nrgba, v1: Nrgba, t: uint8): (c: Nrgba)
    ensures Min(v0.r, v1.r) <= c.r <= Max(v0.r, v1.r) && Min(v0.g, v1.g) <= c.g <= Max(v0.g, v1.g)
    ensures Min(v0.b, v1.b) <= c.b <= Max(v0.b, v1.b) && Min(v0.a, v1.a) <= c.a <= Max(v0.a, v1.a)
  {
    Nrgba(Lerp(v0.r, v1.r, t), Lerp(v0.g, v1.g, t), Lerp(v0.b, v1.b, t), Lerp(v0.a, v1.a, t))
  }

  /** The channels are blended independently: `t = 0` keeps the first colour,
      `t = 255` gives the second, and a colour blended with itself stays. */
  lemma LerpNrgbaEnds(v0: Nrgba, v1: Nrgba, t: uint8)
    ensures LerpNrgba(v0, v1, 0) == v0 && LerpNrgba(v0, v1, 255) == v1
    ensures LerpNrgba(v0, v0, t) == v0
  {
    LerpEnds(v0.r, v1.r); LerpEnds(v0.g, v1.g); LerpEnds(v0.b, v1.b); LerpEnds(v0.a, v1.a);
    LerpSame(v0.r, t); LerpSame(v0.g, t); LerpSame(v0.b, t); LerpSame(v0.a, t);
  }

  // ------------------------------------------------------------ draw_image

  const WORD: nat := 0x1_0000_0000_0000_0000

  /** `a - b` on `usize`: wraps modulo 2^64 when `b > a`, as in a release
      build (a debug build panics). */
  function WrappingSub(a: nat, b: nat): uint64
  {
    (a - b) % WORD
  }

  /** `a * b` on `usize`, modulo 2^64. */
  function WrappingMul(a: uint64, b: uint64): uint64
  {
    (a * b) % WORD
  }

  /** `a + b` on `usize`, modulo 2^64. */
  function WrappingAdd(a: uint64, b: uint64): uint64
  {
    (a + b) % WORD
  }

  /** `xh * xh + yh * yh < HALF * HALF` with `xh = x - HALF` and `yh = y - HALF`
      in wrapping `usize` arithmetic. */
  predicate InCircle(x: nat, y: nat)
  {
    var xh, yh := WrappingSub(x, HALF), WrappingSub(y, HALF);
    WrappingAdd(WrappingMul(xh, xh), WrappingMul(yh, yh)) < HALF * HALF
  }

  /** A difference of at most `HALF` in size wraps to itself or to itself
      plus 2^64. */
  lemma WrappedDifference(a: nat, b: nat)
    requires a < DIM && b == HALF
    ensures a >= b ==> WrappingSub(a, b) == a - b
    ensures a < b ==> WrappingSub(a, b) == a - b + WORD
  {
    if a < b {
      DivModOf(0, a - b + WORD, WORD);
      assert a - b == -1 * WORD + (a - b + WORD);
    } else {
      DivModOf(0, a - b, WORD);
    }
  }

  /** `(d + 2^64)^2` is `d^2` modulo 2^64. */
  lemma SquarePlusWord(e: nat)
    requires 0 < e <= HALF
    ensures ((WORD - e) * (WORD - e)) % WORD == e * e
  {
    MulMono(e, HALF, e);
    MulMono(e, HALF, HALF);
    var q: nat := WORD - 2 * e;
    assert (WORD - e) * (WORD - e) == q * WORD + e * e;
    DivModOf(q, e * e, WORD);
  }

  /** The square of a wrapped difference is the square of the difference. */
  lemma WrappedSquare(a: nat, b: nat)
    requires a < DIM && b == HALF
    ensures WrappingMul(WrappingSub(a, b), WrappingSub(a, b)) == (a - b) * (a - b)
  {
    WrappedDifference(a, b);
    SquareAtMost(a);
    if a < b {
      var e: nat := b - a;
      SquarePlusWord(e);
      assert WrappingSub(a, b) == WORD - e;
      assert (a - b) * (a - b) == e * e;
    } else {
      DivModOf(0, (a - b) * (a - b), WORD);
    }
  }

  /** No pixel is further than `HALF` from the centre along one axis. */
  lemma SquareAtMost(a: nat)
    requires a < DIM
    ensures 0 <= (a - HALF) * (a - HALF) <= HALF * HALF
  {
    var e: nat := if a < HALF then HALF - a else a - HALF;
    assert (a - HALF) * (a - HALF) == e * e;
    MulMono(e, HALF, e);
    MulMono(e, HALF, HALF);
  }

  /** The wrapping arithmetic draws the disc it means to: a pixel is inside
      exactly when its squared distance from the centre is below `HALF^2`. */
  lemma InCircleIsDisc(x: nat, y: nat)
    requires x < DIM && y < DIM
    ensures InCircle(x, y)
      <==> (x - HALF) * (x - HALF) + (y - HALF) * (y - HALF) < HALF * HALF
  {
    var xh, yh := WrappingSub(x, HALF), WrappingSub(y, HALF);
    var sx, sy := (x - HALF) * (x - HALF), (y - HALF) * (y - HALF);
    WrappedSquare(x, HALF);
    WrappedSquare(y, HALF);
    SquareAtMost(x);
    SquareAtMost(y);
    assert sx + sy <= 2 * HALF * HALF;
    assert WrappingAdd(sx, sy) == sx + sy by {
      DivModOf(0, sx + sy, WORD);
    }
    assert InCircle(x, y) <==> WrappingAdd(WrappingMul(xh, xh), WrappingMul(yh, yh)) < HALF * HALF;
  }

  /** `color` after the first `n` pixels in row-major order (`WHITE` before
      the first): blended towards red at pixels `inside` the figure, towards
      white elsewhere. `draw_image` draws with `inside == InCircle`. */
  function ColorAfter(n: nat, inside: (nat, nat) -> bool): Nrgba
  {
    if n == 0 then WHITE
    else if inside((n - 1) % DIM, (n - 1) / DIM) then LerpNrgba(ColorAfter(n - 1, inside), RED, DIST)
    else LerpNrgba(ColorAfter(n - 1, inside), WHITE, DIST)
  }

  /** Opaque, full red, and the same in green and blue: a shade between red
      and white. */
  predicate RedToWhite(c: Nrgba)
  {
    c.r == 255 && c.a == 255 && c.g == c.b
  }

  /** Every running colour is a shade between red and white, because the
      starting colour and both targets are. */
  lemma {:induction false} ColorAfterShape(n: nat, inside: (nat, nat) -> bool)
    ensures RedToWhite(ColorAfter(n, inside))
  {
    if n > 0 {
      ColorAfterShape(n - 1, inside);
      if inside((n - 1) % DIM, (n - 1) / DIM) {
        LerpKeepsShape(ColorAfter(n - 1, inside), RED);
      } else {
        LerpKeepsShape(ColorAfter(n - 1, inside), WHITE);
      }
    }
  }

  /** Blending two shades between red and white gives another. */
  lemma LerpKeepsShape(c: Nrgba, t: Nrgba)
    requires RedToWhite(c) && RedToWhite(t)
    ensures RedToWhite(LerpNrgba(c, t, DIST))
  {
    LerpSame(255, DIST);
  }

  /** The image `draw_image` leaves in the buffer. */
  function DrawnImage(inside: (nat, nat) -> bool): (t: seq<Nrgba>)
    ensures |t| == DIM * DIM
  {
    seq(DIM * DIM, k requires 0 <= k < DIM * DIM => ColorAfter(k + 1, inside))
  }

  /** Every pixel of the drawn image is a shade between red and white. */
  lemma DrawnImageShades(inside: (nat, nat) -> bool, k: nat)
    requires k < |DrawnImage(inside)|
    ensures RedToWhite(DrawnImage(inside)[k])
  {
    DrawnImageIndex(inside, k);
    ColorAfterShape(k + 1, inside);
  }

  /** Pixel `(x, y)` holds the running colour after it: the colour before it,
      blended towards red inside the figure and towards white outside. */
  lemma DrawnImageAt(inside: (nat, nat) -> bool, x: nat, y: nat)
    requires x < DIM && y < DIM
    ensures Offset(DIM, x, y) < DIM * DIM
    ensures DrawnImage(inside)[Offset(DIM, x, y)] == ColorAfter(Offset(DIM, x, y) + 1, inside)
    ensures inside(x, y) ==>
      ColorAfter(Offset(DIM, x, y) + 1, inside) == LerpNrgba(ColorAfter(Offset(DIM, x, y), inside), RED, DIST)
    ensures !inside(x, y) ==>
      ColorAfter(Offset(DIM, x, y) + 1, inside) == LerpNrgba(ColorAfter(Offset(DIM, x, y), inside), WHITE, DIST)
  {
    var k := Offset(DIM, x, y);
    OffsetCell(x, y);
    DrawnImageIndex(inside, k);
    ColorAfterStep(k, inside);
  }

  /** Element `k` of the drawn image is the running colour after `k + 1`
      pixels. */
  lemma DrawnImageIndex(inside: (nat, nat) -> bool, k: nat)
    requires k < DIM * DIM
    ensures DrawnImage(inside)[k] == ColorAfter(k + 1, inside)
  {
    assert DrawnImage(inside) == seq(DIM * DIM, j requires 0 <= j < DIM * DIM => ColorAfter(j + 1, inside));
  }

  /** The pixel at index `k` is `(k % DIM, k / DIM)`. */
  lemma OffsetCell(x: nat, y: nat)
    requires x < DIM && y < DIM
    ensures Offset(DIM, x, y) < DIM * DIM
    ensures Offset(DIM, x, y) % DIM == x && Offset(DIM, x, y) / DIM == y
  {
    DivModOf(y, x, DIM);
    MulMono(y + 1, DIM, DIM);
  }

  /** One step of the running colour. */
  lemma ColorAfterStep(k: nat, inside: (nat, nat) -> bool)
    ensures inside(k % DIM, k / DIM) ==>
      ColorAfter(k + 1, inside) == LerpNrgba(ColorAfter(k, inside), RED, DIST)
    ensures !inside(k % DIM, k / DIM) ==>
      ColorAfter(k + 1, inside) == LerpNrgba(ColorAfter(k, inside), WHITE, DIST)
  {
  }

  /** `draw_image`: rows top to bottom, each left to right; the running colour
      is blended and stored at each pixel. */
  method DrawImage(buf: RawPixBuf<Nrgba>)
    requires buf.Valid() && buf.width == DIM && buf.height == DIM
    modifies buf.buf
    ensures buf.buf[..] == DrawnImage(InCircle)
  {
    ghost var z := buf.buf[..];
    ghost var target := DrawnImage(InCircle);
    OverlayEnds(target, z);
    var color := WHITE;
    var y := 0;
    while y < DIM
      invariant y <= DIM
      invariant color == ColorAfter(Offset(DIM, 0, y), InCircle)
      invariant buf.buf[..] == Overlay(target, z, Offset(DIM, 0, y))
    {
      color := DrawRow(buf, y, color, target, z);
      y := y + 1;
    }
  }

  /** One pass of the inner loop of `draw_image`: row `y`, left to right,
      carrying the running colour from the previous row to the next. */
  method DrawRow(buf: RawPixBuf<Nrgba>, y: nat, color0: Nrgba, ghost target: seq<Nrgba>, ghost z: seq<Nrgba>)
    returns (color: Nrgba)
    requires buf.Valid() && buf.width == DIM && buf.height == DIM && y < DIM
    requires target == DrawnImage(InCircle) && |z| == DIM * DIM
    requires color0 == ColorAfter(Offset(DIM, 0, y), InCircle)
    requires buf.buf[..] == Overlay(target, z, Offset(DIM, 0, y))
    modifies buf.buf
    ensures color == ColorAfter(Offset(DIM, 0, y + 1), InCircle)
    ensures buf.buf[..] == Overlay(target, z, Offset(DIM, 0, y + 1))
  {
    color := color0;
    var x := 0;
    while x < DIM
      invariant x <= DIM
      invariant color == ColorAfter(Offset(DIM, x, y), InCircle)
      invariant buf.buf[..] == Overlay(target, z, Offset(DIM, x, y))
    {
      DrawnImageAt(InCircle, x, y);
      color := if InCircle(x, y) then LerpNrgba(color, RED, DIST) else LerpNrgba(color, WHITE, DIST);
      ghost var before := buf.buf[..];
      buf.PixelSet(x, y, color);
      OverlayStore(target, z, Offset(DIM, x, y), before, buf.buf[..], color);
      x := x + 1;
    }
    NextRow(DIM, y);
  }

  /** `RawPixBuf::new(DIM, DIM)` followed by `draw_image`. */
  method NewDrawnImage() returns (image: RawPixBuf<Nrgba>)
    ensures fresh(image) && fresh(image.buf) && image.Valid()
    ensures image.width == DIM && image.height == DIM
    ensures image.buf[..] == DrawnImage(InCircle)
  {
    var zero := Nrgba(0, 0, 0, 0);
    image := new RawPixBuf<Nrgba>(DIM, DIM, zero);
    DrawImage(image);
  }
}
