/** The `invert` driver (drivers/invert/src/main.rs): every pixel's colour
    channels are complemented in place, alpha is kept. */
module Invert {
  import opened Ints
  import opened ColorNrgba64
  import opened PixBuf

  lemma Pow2Sixteen()
    ensures Pow2(16) == 0x1_0000
  {
    assert Pow2(2) == 4;
    assert Pow2(4) == 16;
    assert Pow2(6) == 64;
    assert Pow2(8) == 256;
    assert Pow2(10) == 1024;
    assert Pow2(12) == 4096;
    assert Pow2(14) == 16384;
  }

  /** Bitwise exclusive or of the low `k` bits of `a` and `b`. */
  function Xor(a: nat, b: nat, k: nat): (r: nat)
    ensures r < Pow2(k)
  {
    if k == 0 then 0
    else 2 * Xor(a / 2, b / 2, k - 1) + (if a % 2 == b % 2 then 0 else 1)
  }

  /** Exclusive or with all ones complements a `k`-bit value. */
  lemma {:induction false} XorAllOnes(v: nat, k: nat)
    requires v < Pow2(k)
    ensures Xor(v, Pow2(k) - 1, k) == Pow2(k) - 1 - v
  {
    if k > 0 {
      XorAllOnes(v / 2, k - 1);
      assert (Pow2(k) - 1) / 2 == Pow2(k - 1) - 1 && (Pow2(k) - 1) % 2 == 1;
    }
  }

  /** `v ^ 0xffff` on a 16-bit word. */
  function Complement(v: uint16): (r: uint16)
    ensures r == 0xffff - v
  {
    Pow2Sixteen();
    XorAllOnes(v, 16);
    Xor(v, 0xffff, 16)
  }

  /** The colour `invert` writes for `c`: `be(r ^ 0xffff, g ^ 0xffff, b ^ 0xffff, a)`. */
  function InvertPixel(c: Nrgba64Be): (d: Nrgba64Be)
    ensures R(d) == 0xffff - R(c) && G(d) == 0xffff - G(c) && B(d) == 0xffff - B(c)
    ensures A(d) == A(c)
  {
    Be(Complement(R(c)), Complement(G(c)), Complement(B(c)), A(c))
  }

  /** Inverting a pixel twice gives it back. */
  lemma InvertPixelTwice(c: Nrgba64Be)
    ensures InvertPixel(InvertPixel(c)) == c
  {
    var d := InvertPixel(c);
    var e := InvertPixel(d);
    assert R(e) == R(c) && G(e) == G(c) && B(e) == B(c) && A(e) == A(c);
    LogicalChannelsDetermine(e, c);
  }

  /** The buffer after `invert`: each element replaced by its inverse. */
  function InvertAll(s: seq<Nrgba64Be>): (t: seq<Nrgba64Be>)
    ensures |t| == |s|
  {
    seq(|s|, i requires 0 <= i < |s| => InvertPixel(s[i]))
  }

  /** `invert` twice returns the original buffer. */
  lemma InvertAllTwice(s: seq<Nrgba64Be>)
    ensures InvertAll(InvertAll(s)) == s
  {
    forall i | 0 <= i < |s|
      ensures InvertAll(InvertAll(s))[i] == s[i]
    {
      InvertPixelTwice(s[i]);
    }
  }

  /** `invert`: rows top to bottom, each left to right; pixel `(x, y)` is
      read and written back inverted, and no other pixel is touched. */
  method InvertImage(im: RawPixBuf<Nrgba64Be>)
    requires im.Valid()
    modifies im.buf
    ensures im.buf[..] == InvertAll(old(im.buf[..]))
  {
    ghost var orig := im.buf[..];
    ghost var inv := InvertAll(orig);
    OverlayEnds(inv, orig);
    var y := 0;
    while y < im.height
      invariant y <= im.height && Offset(im.width, 0, y) <= im.buf.Length
      invariant im.buf[..] == Overlay(inv, orig, Offset(im.width, 0, y))
    {
      var x := 0;
      while x < im.width
        invariant x <= im.width
        invariant im.buf[..] == Overlay(inv, orig, Offset(im.width, x, y))
      {
        IndexInGrid(x, y, im.width, im.height);
        var c := im.ColorGet(x, y);
        ghost var before := im.buf[..];
        im.PixelSet(x, y, InvertPixel(c));
        OverlayStore(inv, orig, Offset(im.width, x, y), before, im.buf[..], InvertPixel(c));
        x := x + 1;
      }
      NextRow(im.width, y);
      MulMono(y + 1, im.height, im.width);
      y := y + 1;
    }
    im.RowsFillBuffer();
  }
}
