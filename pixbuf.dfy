/** `RawPixBuf<T>` (src/buffer/mod.rs): a row-major pixel buffer of
    `width * height` elements, with its byte views. */
module PixBuf {
  import opened Ints

  /** The elements' bytes one after the other, given each element's bytes. */
  function Flatten<T>(s: seq<T>, enc: T -> seq<uint8>): seq<uint8>
  {
    if |s| == 0 then [] else Flatten(s[..|s| - 1], enc) + enc(s[|s| - 1])
  }

  /** When every element takes `size` bytes, the byte view takes `|s| * size`. */
  lemma {:induction false} FlattenLength<T>(s: seq<T>, enc: T -> seq<uint8>, size: nat)
    requires forall e :: |enc(e)| == size
    ensures |Flatten(s, enc)| == |s| * size
  {
    if |s| > 0 {
      FlattenLength(s[..|s| - 1], enc, size);
      assert |s| * size == (|s| - 1) * size + size;
    }
  }

  /** The element index of the pixel at `(x, y)` in a row-major buffer that is
      `width` wide. */
  function Offset(width: nat, x: nat, y: nat): nat
  {
    y * width + x
  }

  /** The element at position `x + y * width` of a row-major buffer is found
      again from its index. */
  lemma RowColumn(x: nat, y: nat, width: nat)
    requires x < width
    ensures (y * width + x) / width == y && (y * width + x) % width == x
  {
    DivModOf(y, x, width);
  }

  /** Rows before row `y` and the columns before `x` in it come before `(x, y)`,
      and every position of the grid lies inside the buffer. */
  lemma IndexInGrid(x: nat, y: nat, width: nat, height: nat)
    requires x < width && y < height
    ensures y * width + x < width * height
  {
    MulMono(y + 1, height, width);
  }

  /** Pixel `(x, y)` of a row-major buffer `s` that is `width` wide. */
  function At<T>(s: seq<T>, width: nat, height: nat, x: nat, y: nat): T
    requires |s| == width * height && x < width && y < height
  {
    IndexInGrid(x, y, width, height);
    s[Offset(width, x, y)]
  }

  /** A grid without rows has no pixels. */
  lemma NoRows(width: nat, height: nat)
    requires height == 0
    ensures width * height == 0
  {
  }

  /** Every index below `width * height` names a pixel of the grid. */
  lemma CellOfIndex(k: nat, width: nat, height: nat)
    requires k < width * height
    ensures width > 0 && 0 <= k / width < height && k % width < width
    ensures Offset(width, k % width, k / width) == k
  {
    if k / width >= height {
      MulMono(height, k / width, width);
    }
  }

  /** The row-major buffer whose pixel `(x, y)` is `cell(x, y)`: its rows
      top to bottom, each `width` long. */
  function Tabulate<T>(width: nat, height: nat, cell: (nat, nat) --> T): (t: seq<T>)
    requires forall x: nat, y: nat :: x < width && y < height ==> cell.requires(x, y)
    ensures |t| == width * height
  {
    if height == 0 then []
    else
      Tabulate(width, height - 1, cell)
      + seq(width, x requires 0 <= x < width => cell(x, height - 1))
  }

  /** Pixel `(x, y)` of a tabulated buffer is `cell(x, y)`. */
  lemma {:induction false} TabulateAt<T>(width: nat, height: nat, cell: (nat, nat) --> T, x: nat, y: nat)
    requires forall x: nat, y: nat :: x < width && y < height ==> cell.requires(x, y)
    requires x < width && y < height
    ensures Offset(width, x, y) < |Tabulate(width, height, cell)|
    ensures Tabulate(width, height, cell)[Offset(width, x, y)] == cell(x, y)
  {
    IndexInGrid(x, y, width, height);
    if y < height - 1 {
      TabulateAt(width, height - 1, cell, x, y);
      IndexInGrid(x, y, width, height - 1);
    } else {
      assert Offset(width, x, y) == width * (height - 1) + x;
    }
  }

  /** A buffer whose first `n` elements already hold their final values `e`,
      the rest still their earlier values `z`: the state of a loop that fills
      the buffer in index order. */
  function Overlay<T>(e: seq<T>, z: seq<T>, n: nat): (t: seq<T>)
    requires |e| == |z|
    ensures |t| == |z|
    ensures forall i :: 0 <= i < |z| ==> t[i] == if i < n then e[i] else z[i]
  {
    seq(|z|, i requires 0 <= i < |z| => if i < n then e[i] else z[i])
  }

  /** Storing element `n` moves the boundary one place on. */
  lemma OverlayStep<T>(e: seq<T>, z: seq<T>, n: nat)
    requires |e| == |z| && n < |z|
    ensures Overlay(e, z, n)[n := e[n]] == Overlay(e, z, n + 1)
  {
  }

  /** The same step, for a buffer known to hold the overlay before the store. */
  lemma OverlayStore<T>(e: seq<T>, z: seq<T>, n: nat, before: seq<T>, after: seq<T>, v: T)
    requires |e| == |z| && n < |z| && v == e[n]
    requires before == Overlay(e, z, n) && after == before[n := v]
    ensures after == Overlay(e, z, n + 1)
  {
    OverlayStep(e, z, n);
  }

  /** Before any store the buffer is the old one, after the last it is the new one. */
  lemma OverlayEnds<T>(e: seq<T>, z: seq<T>)
    requires |e| == |z|
    ensures Overlay(e, z, 0) == z && Overlay(e, z, |z|) == e
  {
  }

  /** The first position of row `y + 1` follows the last one of row `y`. */
  lemma NextRow(w: nat, y: nat)
    ensures Offset(w, w, y) == Offset(w, 0, y + 1)
  {
  }

  class RawPixBuf<T> {
    const width: nat
    const height: nat
    const buf: array<T>

    predicate Valid()
    {
      buf.Length == width * height
    }

    /** `RawPixBuf::new`: `width * height` elements, all equal to the
        all-zero-bytes value `zero`. */
    constructor (width: nat, height: nat, zero: T)
      ensures this.width == width && this.height == height && Valid()
      ensures fresh(buf) && forall i :: 0 <= i < buf.Length ==> buf[i] == zero
    {
      this.width := width;
      this.height := height;
      buf := new T[width * height](_ => zero);
    }

    /** `clone`. */
    method Clone() returns (c: RawPixBuf<T>)
      ensures fresh(c) && fresh(c.buf)
      ensures c.width == width && c.height == height && c.buf[..] == buf[..]
    {
      c := new RawPixBuf.FromElements(width, height, buf[..]);
    }

    /** A buffer holding the given elements. */
    constructor FromElements(width: nat, height: nat, elems: seq<T>)
      ensures this.width == width && this.height == height
      ensures fresh(buf) && buf[..] == elems
    {
      this.width := width;
      this.height := height;
      buf := new T[|elems|](i requires 0 <= i < |elems| => elems[i]);
    }

    /** The element index `y * width + x` of the pixel at `(x, y)`. */
    function Index(x: nat, y: nat): nat
    {
      Offset(width, x, y)
    }

    /** There is no `x < width` check: column `width + x` of row `y` is column
        `x` of row `y + 1`. */
    lemma ColumnOverflow(x: nat, y: nat)
      ensures Index(x + width, y) == Index(x, y + 1)
    {
    }

    /** Row `y` occupies the indices from `Index(0, y)` up to `Index(0, y + 1)`,
        inside the buffer, and the rows together fill it. */
    lemma RowInBuffer(y: nat)
      requires Valid() && y < height
      ensures Index(0, y) + width == Index(0, y + 1) <= buf.Length
    {
      MulMono(y + 1, height, width);
    }

    lemma RowsFillBuffer()
      requires Valid()
      ensures Index(0, height) == buf.Length
    {
    }

    /** `as_typed`. */
    function AsTyped(): seq<T>
      reads buf
    {
      buf[..]
    }

    /** `Image::color_get`; an index past the buffer panics. */
    function ColorGet(x: nat, y: nat): T
      reads buf
      requires Index(x, y) < buf.Length
    {
      buf[Index(x, y)]
    }

    /** `ImageMut::color_set`: stores the converted colour at the pixel's index
        and nothing else. */
    method ColorSet<P>(x: nat, y: nat, color: P, convert: P -> T)
      requires Index(x, y) < buf.Length
      modifies buf
      ensures buf[..] == old(buf[..])[Index(x, y) := convert(color)]
      ensures ColorGet(x, y) == convert(color)
    {
      buf[Index(x, y)] := convert(color);
    }

    /** `ImageMut::color_set_generic`, which forwards to `color_set`. */
    method ColorSetGeneric<P>(x: nat, y: nat, color: P, convert: P -> T)
      requires Index(x, y) < buf.Length
      modifies buf
      ensures buf[..] == old(buf[..])[Index(x, y) := convert(color)]
    {
      ColorSet(x, y, color, convert);
    }

    /** `ImageMut::pixel_set`, which forwards to `color_set` with the identity
        conversion of the pixel type. */
    method PixelSet(x: nat, y: nat, color: T)
      requires Index(x, y) < buf.Length
      modifies buf
      ensures buf[..] == old(buf[..])[Index(x, y) := color]
      ensures ColorGet(x, y) == color
    {
      ColorSet(x, y, color, c => c);
    }

    /** Every pixel below the dimensions lies inside the buffer. */
    lemma PixelsInBuffer()
      requires Valid()
      ensures forall x: nat, y: nat :: x < width && y < height ==> Index(x, y) < buf.Length
    {
      forall x: nat, y: nat | x < width && y < height
        ensures Index(x, y) < buf.Length
      {
        IndexInGrid(x, y, width, height);
      }
    }

    /** `Dimensions::dimensions`: the width and the height, which for a valid
        buffer multiply to its length and bound the pixels inside it. */
    function Dimensions(): (d: (nat, nat))
      ensures d.0 == width && d.1 == height
      ensures Valid() <==> d.0 * d.1 == buf.Length
      ensures Valid() ==> forall x: nat, y: nat :: x < d.0 && y < d.1 ==> Index(x, y) < buf.Length
    {
      if Valid() then PixelsInBuffer(); (width, height) else (width, height)
    }

    /** The byte views `as_ref`/`as_mut`, given each element's bytes. */
    function AsBytes(enc: T -> seq<uint8>): seq<uint8>
      reads buf
    {
      Flatten(buf[..], enc)
    }

    /** The byte view holds `size_of::<T>()` bytes per element. */
    lemma AsBytesLength(enc: T -> seq<uint8>, size: nat)
      requires forall e :: |enc(e)| == size
      ensures |AsBytes(enc)| == buf.Length * size
    {
      FlattenLength(buf[..], enc, size);
    }
  }

  /** Stores `cell(x, y)` at every pixel of `im`, rows top to bottom, each row
      left to right, as the nested `pixel_set` loops of the drivers do. */
  method FillBy<T>(im: RawPixBuf<T>, cell: (nat, nat) --> T)
    requires im.Valid()
    requires forall x: nat, y: nat :: x < im.width && y < im.height ==> cell.requires(x, y)
    modifies im.buf
    ensures im.buf[..] == Tabulate(im.width, im.height, cell)
  {
    ghost var z := im.buf[..];
    ghost var target := Tabulate(im.width, im.height, cell);
    OverlayEnds(target, z);
    var y := 0;
    while y < im.height
      invariant y <= im.height
      invariant im.buf[..] == Overlay(target, z, Offset(im.width, 0, y))
    {
      var x := 0;
      while x < im.width
        invariant x <= im.width
        invariant im.buf[..] == Overlay(target, z, Offset(im.width, x, y))
      {
        TabulateAt(im.width, im.height, cell, x, y);
        ghost var before := im.buf[..];
        im.PixelSet(x, y, cell(x, y));
        OverlayStore(target, z, Offset(im.width, x, y), before, im.buf[..], cell(x, y));
        x := x + 1;
      }
      NextRow(im.width, y);
      y := y + 1;
    }
    im.RowsFillBuffer();
  }
}
