/** The bentley driver (drivers/bentley/src/main.rs): every pixel of a farbfeld
    image takes the colour of a pixel higher up in its own column; the
    brighter the pixel and the taller the image, the further up. */
module Bentley {
  import opened Ints
  import opened ColorNrgba64
  import opened PixBuf
  import ColorGray

  /** `(height / 255) * luma / 8`: how many rows up the colour comes from.
      Images shorter than 255 rows shift nothing. */
  function Shift(height: nat, luma: uint8): (s: nat)
    ensures s <= height / 8
    ensures height < 255 ==> s == 0
  {
    MulMono(luma, 255, height / 255);
    (height / 255) * luma / 8
  }

  /** `y.saturating_sub(shift)`: the row the colour of row `y` comes from. */
  function SourceRow(height: nat, luma: uint8, y: nat): (r: nat)
    ensures r <= y
    ensures height < 255 ==> r == y
  {
    if Shift(height, luma) <= y then y - Shift(height, luma) else 0
  }

  /** The subtraction saturates: the source row is `shift` rows up, or row 0
      when that would leave the image. */
  lemma SourceRowSaturates(height: nat, luma: uint8, y: nat)
    ensures Shift(height, luma) <= y ==> SourceRow(height, luma, y) + Shift(height, luma) == y
    ensures Shift(height, luma) > y ==> SourceRow(height, luma, y) == 0
  {
  }

  /** The colour `bentley` stores at `(x, y)`: the pixel of the original image
      `SourceRow` rows down column `x`, for the luma of the original `(x, y)`. */
  function BentleyPixel<T>(s: seq<T>, width: nat, height: nat, luma: T -> uint8, x: nat, y: nat): T
    requires |s| == width * height && x < width && y < height
  {
    At(s, width, height, x, SourceRow(height, luma(At(s, width, height, x, y)), y))
  }

  function BentleyCell<T>(s: seq<T>, width: nat, height: nat, luma: T -> uint8): (nat, nat) --> T
  {
    (x: nat, y: nat) requires |s| == width * height && x < width && y < height =>
      BentleyPixel(s, width, height, luma, x, y)
  }

  /** The image `bentley` returns for the original buffer `s`. */
  function BentleyImage<T>(s: seq<T>, width: nat, height: nat, luma: T -> uint8): (t: seq<T>)
    requires |s| == width * height
    ensures |t| == |s|
  {
    Tabulate(width, height, BentleyCell(s, width, height, luma))
  }

  /** Pixel `(x, y)` of the result is the original pixel of column `x` in the
      source row, which lies between row 0 and row `y`. */
  lemma BentleyImageAt<T>(s: seq<T>, width: nat, height: nat, luma: T -> uint8, x: nat, y: nat)
    requires |s| == width * height && x < width && y < height
    ensures SourceRow(height, luma(At(s, width, height, x, y)), y) <= y
    ensures At(BentleyImage(s, width, height, luma), width, height, x, y)
         == At(s, width, height, x, SourceRow(height, luma(At(s, width, height, x, y)), y))
  {
    TabulateAt(width, height, BentleyCell(s, width, height, luma), x, y);
  }

  /** An image shorter than 255 rows comes out unchanged. */
  lemma ShortImageUnchanged<T>(s: seq<T>, width: nat, height: nat, luma: T -> uint8)
    requires |s| == width * height && height < 255
    ensures BentleyImage(s, width, height, luma) == s
  {
    forall k | 0 <= k < |s|
      ensures BentleyImage(s, width, height, luma)[k] == s[k]
    {
      ShortImageKeeps(s, width, height, luma, k);
    }
  }

  lemma ShortImageKeeps<T>(s: seq<T>, width: nat, height: nat, luma: T -> uint8, k: nat)
    requires |s| == width * height && height < 255 && k < |s|
    ensures BentleyImage(s, width, height, luma)[k] == s[k]
  {
    CellOfIndex(k, width, height);
    BentleyImageAt(s, width, height, luma, k % width, k / width);
  }

  /** `bentley` for any pixel type and luma: a clone of `orig` in which every
      pixel is overwritten, reading only from `orig`. */
  method BentleyBy<T>(orig: RawPixBuf<T>, luma: T -> uint8) returns (img: RawPixBuf<T>)
    requires orig.Valid()
    ensures fresh(img) && fresh(img.buf) && img.Valid()
    ensures img.width == orig.width && img.height == orig.height
    ensures img.buf[..] == BentleyImage(orig.buf[..], orig.width, orig.height, luma)
  {
    img := orig.Clone();
    ghost var s := orig.buf[..];
    ghost var target := BentleyImage(s, orig.width, orig.height, luma);
    OverlayEnds(target, s);
    var y := 0;
    while y < orig.height
      invariant y <= orig.height && Offset(orig.width, 0, y) <= |s|
      invariant img.buf[..] == Overlay(target, s, Offset(orig.width, 0, y))
    {
      var x := 0;
      while x < orig.width
        invariant x <= orig.width
        invariant img.buf[..] == Overlay(target, s, Offset(orig.width, x, y))
      {
        IndexInGrid(x, y, orig.width, orig.height);
        var brightness := luma(orig.ColorGet(x, y));
        var yb := SourceRow(orig.height, brightness, y);
        IndexInGrid(x, yb, orig.width, orig.height);
        var c := orig.ColorGet(x, yb);
        BentleyImageAt(s, orig.width, orig.height, luma, x, y);
        assert target[Offset(orig.width, x, y)] == c;
        ghost var before := img.buf[..];
        img.PixelSet(x, y, c);
        OverlayStore(target, s, Offset(orig.width, x, y), before, img.buf[..], c);
        x := x + 1;
      }
      NextRow(orig.width, y);
      MulMono(y + 1, orig.height, orig.width);
      y := y + 1;
    }
    img.RowsFillBuffer();
  }

  /** `bentley` on a farbfeld image, with the luma of `convert_into::<Gray>`. */
  method BentleyImageOf(orig: RawPixBuf<Nrgba64Be>) returns (img: RawPixBuf<Nrgba64Be>)
    requires orig.Valid()
    ensures fresh(img) && fresh(img.buf) && img.Valid()
    ensures img.width == orig.width && img.height == orig.height
    ensures img.buf[..] == BentleyImage(orig.buf[..], orig.width, orig.height, c => ColorGray.Luma(c))
  {
    img := BentleyBy(orig, c => ColorGray.Luma(c));
  }
}
