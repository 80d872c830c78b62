/** The braille driver (drivers/braille/src/main.rs): a farbfeld image is
    printed as text, one braille character per 2 by 4 block of pixels, a dot
    raised for each pixel whose luma is below a threshold (or, inverted, not
    below it), one line per row of blocks. */
module Braille {
  import opened Ints
  import opened Results
  import opened Io
  import opened PixBuf
  import ColorNrgba64
  import ColorGray

  /** `lum_at`'s test on a pixel's luma: below the threshold, flipped by
      `inverted`. */
  function Lit(luma: uint8, luminance: uint8, inverted: bool): (lit: bool)
    ensures !inverted ==> (lit <==> luma < luminance)
    ensures inverted ==> (lit <==> luma >= luminance)
  {
    (luma < luminance) != inverted
  }

  /** `b as u32`. */
  function Bit(b: bool): nat
  {
    if b then 1 else 0
  }

  // ------------------------------------------------------------ dot pattern

  /** The pattern of a braille character: dot `k + 1` of the Unicode
      numbering is bit `k` of the offset from U+2800. */
  function DotBits(dots: seq<bool>): (bits: nat)
    ensures bits < Pow2(|dots|)
  {
    if |dots| == 0 then 0 else Bit(dots[0]) + 2 * DotBits(dots[1..])
  }

  /** Halving `b + 2 * rest`, `b` a bit, and dividing by `p` is dividing
      `rest` by `p`. */
  lemma ShiftStep(b: nat, rest: nat, p: nat)
    requires b < 2 && p > 0
    ensures (b + 2 * rest) / (2 * p) == rest / p
  {
    var q, r := rest / p, rest % p;
    assert rest == q * p + r;
    assert b + 2 * rest == q * (2 * p) + (b + 2 * r) by {
      assert q * (2 * p) == 2 * (q * p);
    }
    DivModOf(q, b + 2 * r, 2 * p);
  }

  /** Dividing the pattern by `2^k` drops its first `k` dots. */
  lemma {:induction false} DotBitsShift(dots: seq<bool>, k: nat)
    requires k <= |dots|
    ensures DotBits(dots) / Pow2(k) == DotBits(dots[k..])
  {
    if k > 0 {
      DotBitsShift(dots[1..], k - 1);
      assert dots[1..][k - 1..] == dots[k..];
      ShiftStep(Bit(dots[0]), DotBits(dots[1..]), Pow2(k - 1));
    }
  }

  /** Every dot is found again at its own bit. */
  lemma DotBitsDecode(dots: seq<bool>, k: nat)
    requires k < |dots|
    ensures (DotBits(dots) / Pow2(k)) % 2 == Bit(dots[k])
  {
    DotBitsShift(dots, k);
    assert dots[k..][1..] == dots[k + 1..];
    LowBit(DotBits(dots) / Pow2(k), DotBits(dots[k + 1..]), Bit(dots[k]));
  }

  /** `2 * rest + b`, `b` a bit, has `b` as its low bit. */
  lemma LowBit(v: nat, rest: nat, b: nat)
    requires b < 2 && v == b + 2 * rest
    ensures v % 2 == b
  {
    DivModOf(rest, b, 2);
  }

  /** Two patterns with the same bits are the same pattern. */
  lemma DotBitsInjective(a: seq<bool>, b: seq<bool>)
    requires |a| == |b| && DotBits(a) == DotBits(b)
    ensures a == b
  {
    forall k | 0 <= k < |a|
      ensures a[k] == b[k]
    {
      DotBitsDecode(a, k);
      DotBitsDecode(b, k);
    }
  }

  /** The eight dots of a braille cell, written out. */
  lemma DotBitsOfEight(d: seq<bool>)
    requires |d| == 8
    ensures DotBits(d) == Bit(d[0]) + 2 * Bit(d[1]) + 4 * Bit(d[2]) + 8 * Bit(d[3])
                        + 16 * Bit(d[4]) + 32 * Bit(d[5]) + 64 * Bit(d[6]) + 128 * Bit(d[7])
    ensures DotBits(d) < 256
  {
    assert DotBits(d[7..]) == Bit(d[7]) by { assert d[7..][1..] == []; }
    assert DotBits(d[6..]) == Bit(d[6]) + 2 * DotBits(d[7..]) by { assert d[6..][1..] == d[7..]; }
    assert DotBits(d[5..]) == Bit(d[5]) + 2 * DotBits(d[6..]) by { assert d[5..][1..] == d[6..]; }
    assert DotBits(d[4..]) == Bit(d[4]) + 2 * DotBits(d[5..]) by { assert d[4..][1..] == d[5..]; }
    assert DotBits(d[3..]) == Bit(d[3]) + 2 * DotBits(d[4..]) by { assert d[3..][1..] == d[4..]; }
    assert DotBits(d[2..]) == Bit(d[2]) + 2 * DotBits(d[3..]) by { assert d[2..][1..] == d[3..]; }
    assert DotBits(d[1..]) == Bit(d[1]) + 2 * DotBits(d[2..]) by { assert d[1..][1..] == d[2..]; }
  }

  // ------------------------------------------------------------------ UTF-8

  /** `char::encode_utf8` for a character of the three-byte range
      U+0800..U+FFFF: `1110xxxx 10xxxxxx 10xxxxxx`. */
  function EncodeUtf8(cp: nat): (bytes: seq<uint8>)
    requires 0x800 <= cp < 0x1_0000
    ensures |bytes| == 3
    ensures 0xE0 <= bytes[0] < 0xF0 && 0x80 <= bytes[1] < 0xC0 && 0x80 <= bytes[2] < 0xC0
  {
    [0xE0 + cp / 0x1000, 0x80 + (cp / 0x40) % 0x40, 0x80 + cp % 0x40]
  }

  /** The code point of a three-byte UTF-8 sequence. */
  function DecodeUtf8(bytes: seq<uint8>): nat
    requires |bytes| == 3
    requires 0xE0 <= bytes[0] < 0xF0 && 0x80 <= bytes[1] < 0xC0 && 0x80 <= bytes[2] < 0xC0
  {
    (bytes[0] as nat - 0xE0) * 0x1000 + (bytes[1] as nat - 0x80) * 0x40 + (bytes[2] as nat - 0x80)
  }

  lemma Utf8RoundTrip(cp: nat)
    requires 0x800 <= cp < 0x1_0000
    ensures DecodeUtf8(EncodeUtf8(cp)) == cp
  {
    DivModOf(cp / 0x1000, (cp / 0x40) % 0x40, 0x40);
    DivModOf(cp / 0x40, cp % 0x40, 0x40);
    assert cp / 0x1000 == (cp / 0x40) / 0x40;
  }

  /** A braille character takes the bytes `E2`, `A0 + bits / 64` and
      `80 + bits % 64`. */
  lemma BrailleUtf8(bits: nat)
    requires bits < 256
    ensures EncodeUtf8(0x2800 + bits) == [0xE2, 0xA0 + bits / 0x40, 0x80 + bits % 0x40]
  {
    DivModOf(2, 0x800 + bits, 0x1000);
    DivModOf(0xA0 + bits / 0x40, bits % 0x40, 0x40);
    DivModOf(2, 0x20 + bits / 0x40, 0x40);
  }

  // --------------------------------------------------------------- the text

  /** Each read of a cell lies at or before its last read, `(x + 1, y + 3)`. */
  lemma CellReads(width: nat, x: nat, y: nat, len: nat)
    requires Offset(width, x + 1, y + 3) < len
    ensures Offset(width, x, y) < len && Offset(width, x + 1, y) < len
    ensures Offset(width, x, y + 1) < len && Offset(width, x + 1, y + 1) < len
    ensures Offset(width, x, y + 2) < len && Offset(width, x + 1, y + 2) < len
    ensures Offset(width, x, y + 3) < len
  {
    MulMono(y, y + 3, width);
    MulMono(y + 1, y + 3, width);
    MulMono(y + 2, y + 3, width);
  }

  /** The dots of the cell at `(x, y)` in Unicode order: the left column top
      to bottom, the right column top to bottom, then the bottom pair. */
  function CellDots<T>(s: seq<T>, width: nat, dot: T -> bool, x: nat, y: nat): (d: seq<bool>)
    requires Offset(width, x + 1, y + 3) < |s|
    ensures |d| == 8
  {
    CellReads(width, x, y, |s|);
    [dot(s[Offset(width, x, y)]), dot(s[Offset(width, x, y + 1)]), dot(s[Offset(width, x, y + 2)]),
     dot(s[Offset(width, x + 1, y)]), dot(s[Offset(width, x + 1, y + 1)]), dot(s[Offset(width, x + 1, y + 2)]),
     dot(s[Offset(width, x, y + 3)]), dot(s[Offset(width, x + 1, y + 3)])]
  }

  /** The UTF-8 bytes of the cell at `(x, y)`. */
  function CellBytes<T>(s: seq<T>, width: nat, dot: T -> bool, x: nat, y: nat): (bytes: seq<uint8>)
    requires Offset(width, x + 1, y + 3) < |s|
    ensures |bytes| == 3
  {
    DotBitsOfEight(CellDots(s, width, dot, x, y));
    EncodeUtf8(0x2800 + DotBits(CellDots(s, width, dot, x, y)))
  }

  /** Whether row `y` is finished from column `x` on: a cell whose last
      read `(x + 1, y + 3)` lies past a buffer of `len` pixels panics in
      `color_get`. */
  predicate RowCompletes(len: nat, width: nat, x: nat, y: nat)
    decreases width - x
  {
    x >= width || (Offset(width, x + 1, y + 3) < len && RowCompletes(len, width, x + 2, y))
  }

  /** Whether `braille` gets through the rows from `y` on. */
  predicate RowsComplete(len: nat, width: nat, height: nat, y: nat)
    decreases height - y
  {
    y >= height || (RowCompletes(len, width, 0, y) && RowsComplete(len, width, height, y + 4))
  }

  /** The bytes of row `y` from column `x` on, given each cell's bytes
      `cell(x, y)`: each cell's character and the closing newline, cut off
      where a cell would read past a buffer of `len` pixels and panic. */
  function RowBytes(len: nat, width: nat, cell: (nat, nat) -> seq<uint8>, x: nat, y: nat): seq<uint8>
    decreases width - x
  {
    if x >= width then [0x0A]
    else if Offset(width, x + 1, y + 3) >= len then []
    else cell(x, y) + RowBytes(len, width, cell, x + 2, y)
  }

  /** The bytes of the rows from `y` on, up to the first panic. */
  function RowsBytes(len: nat, width: nat, height: nat, cell: (nat, nat) -> seq<uint8>, y: nat): seq<uint8>
    decreases height - y
  {
    if y >= height then []
    else if !RowCompletes(len, width, 0, y) then RowBytes(len, width, cell, 0, y)
    else RowBytes(len, width, cell, 0, y) + RowsBytes(len, width, height, cell, y + 4)
  }

  /** What follows row `y` in the text of the rows from `y`. */
  function RowsAfter(len: nat, width: nat, height: nat, cell: (nat, nat) -> seq<uint8>, y: nat): seq<uint8>
  {
    if RowCompletes(len, width, 0, y) then RowsBytes(len, width, height, cell, y + 4) else []
  }

  /** The cell at `x` comes first in what is left of the row. */
  lemma RowStep(len: nat, width: nat, cell: (nat, nat) -> seq<uint8>, x: nat, y: nat)
    requires x < width && Offset(width, x + 1, y + 3) < len
    ensures RowBytes(len, width, cell, x, y) == cell(x, y) + RowBytes(len, width, cell, x + 2, y)
    ensures RowCompletes(len, width, x, y) == RowCompletes(len, width, x + 2, y)
  {
  }

  /** A cell that reads past the buffer ends the row without output. */
  lemma RowPanics(len: nat, width: nat, cell: (nat, nat) -> seq<uint8>, x: nat, y: nat)
    requires x < width && Offset(width, x + 1, y + 3) >= len
    ensures RowBytes(len, width, cell, x, y) == [] && !RowCompletes(len, width, x, y)
  {
  }

  /** Past the last column only the newline is left. */
  lemma RowEnds(len: nat, width: nat, cell: (nat, nat) -> seq<uint8>, x: nat, y: nat)
    requires x >= width
    ensures RowBytes(len, width, cell, x, y) == [0x0A] && RowCompletes(len, width, x, y)
  {
  }

  /** One row of the outer loop: the rows from `y` are row `y` and what
      follows it, and after a finished row they finish as the rows from
      `y + 4` do. */
  lemma RowsStep(len: nat, width: nat, height: nat, cell: (nat, nat) -> seq<uint8>, y: nat)
    requires y < height
    ensures RowsBytes(len, width, height, cell, y)
         == RowBytes(len, width, cell, 0, y) + RowsAfter(len, width, height, cell, y)
    ensures !RowCompletes(len, width, 0, y) ==>
      RowsAfter(len, width, height, cell, y) == [] && !RowsComplete(len, width, height, y)
    ensures RowCompletes(len, width, 0, y) ==>
      RowsAfter(len, width, height, cell, y) == RowsBytes(len, width, height, cell, y + 4)
      && RowsComplete(len, width, height, y) == RowsComplete(len, width, height, y + 4)
  {
  }

  /** The bytes of each cell of the buffer `s`, and nothing for a cell that
      would read past it. */
  function CellText<T>(s: seq<T>, width: nat, dot: T -> bool): (nat, nat) -> seq<uint8>
  {
    (x: nat, y: nat) => if Offset(width, x + 1, y + 3) < |s| then CellBytes(s, width, dot, x, y) else []
  }

  /** `cell` gives the bytes of every cell of `s` that lies inside it. */
  ghost predicate CellsOf<T>(cell: (nat, nat) -> seq<uint8>, s: seq<T>, width: nat, dot: T -> bool)
  {
    forall x: nat, y: nat {:trigger CellBytes(s, width, dot, x, y)} ::
      Offset(width, x + 1, y + 3) < |s| ==> cell(x, y) == CellBytes(s, width, dot, x, y)
  }

  lemma CellTextCells<T>(s: seq<T>, width: nat, dot: T -> bool)
    ensures CellsOf(CellText(s, width, dot), s, width, dot)
  {
  }

  /** What `braille` writes for the buffer `s`, and whether it returns. */
  function BrailleText<T>(s: seq<T>, width: nat, height: nat, dot: T -> bool): (seq<uint8>, bool)
  {
    (RowsBytes(|s|, width, height, CellText(s, width, dot), 0), RowsComplete(|s|, width, height, 0))
  }

  /** Every cell inside a buffer of `len` pixels is written as three bytes. */
  ghost predicate ThreeByteCells(len: nat, width: nat, cell: (nat, nat) -> seq<uint8>)
  {
    forall x: nat, y: nat {:trigger cell(x, y)} :: Offset(width, x + 1, y + 3) < len ==> |cell(x, y)| == 3
  }

  /** A finished row from column `x` on is one three-byte character per
      cell, `x`, `x + 2`, ... below `width`, and the closing newline. */
  lemma {:induction false} RowLength(len: nat, width: nat, cell: (nat, nat) -> seq<uint8>, x: nat, y: nat)
    requires ThreeByteCells(len, width, cell)
    requires x <= width + 1 && RowCompletes(len, width, x, y)
    ensures |RowBytes(len, width, cell, x, y)| == 3 * ((width - x + 1) / 2) + 1
    ensures RowBytes(len, width, cell, x, y)[3 * ((width - x + 1) / 2)] == 0x0A
    decreases width - x
  {
    if x < width {
      var rest := RowBytes(len, width, cell, x + 2, y);
      RowLength(len, width, cell, x + 2, y);
      assert |cell(x, y)| == 3;
      assert RowBytes(len, width, cell, x, y) == cell(x, y) + rest;
      assert (width - x + 1) / 2 == (width - (x + 2) + 1) / 2 + 1;
    } else {
      assert RowBytes(len, width, cell, x, y) == [0x0A];
    }
  }

  /** When `braille` finishes, the `n` bands of four rows from `y` on are one
      line each, of `ceil(width / 2)` characters and a newline. */
  lemma {:induction false} RowsLength(len: nat, width: nat, height: nat, cell: (nat, nat) -> seq<uint8>, y: nat, n: nat)
    requires ThreeByteCells(len, width, cell)
    requires height <= y + 4 * n < height + 4 && RowsComplete(len, width, height, y)
    ensures |RowsBytes(len, width, height, cell, y)| == n * (3 * ((width + 1) / 2) + 1)
    decreases n
  {
    if y < height {
      RowsHead(len, width, height, cell, y);
      RowLength(len, width, cell, 0, y);
      RowsLength(len, width, height, cell, y + 4, n - 1);
      LinesStep(n - 1, 3 * ((width + 1) / 2) + 1);
    }
  }

  /** The finished rows from `y` are row `y` and the finished rows from
      `y + 4`. */
  lemma RowsHead(len: nat, width: nat, height: nat, cell: (nat, nat) -> seq<uint8>, y: nat)
    requires y < height && RowsComplete(len, width, height, y)
    ensures RowCompletes(len, width, 0, y) && RowsComplete(len, width, height, y + 4)
    ensures RowsBytes(len, width, height, cell, y)
         == RowBytes(len, width, cell, 0, y) + RowsBytes(len, width, height, cell, y + 4)
  {
  }

  lemma LinesStep(n: nat, line: nat)
    ensures (n + 1) * line == line + n * line
  {
  }

  /** The text of an image `braille` finishes: `ceil(height / 4)` lines of
      `ceil(width / 2)` braille characters, each line ending in a newline. */
  lemma BrailleTextLength<T>(s: seq<T>, width: nat, height: nat, dot: T -> bool)
    requires BrailleText(s, width, height, dot).1
    ensures |BrailleText(s, width, height, dot).0| == (height + 3) / 4 * (3 * ((width + 1) / 2) + 1)
  {
    var n := (height + 3) / 4;
    assert height <= 4 * n < height + 4;
    CellTextCells(s, width, dot);
    CellsThree(CellText(s, width, dot), s, width, dot);
    RowsLength(|s|, width, height, CellText(s, width, dot), 0, n);
  }

  lemma CellsThree<T>(cell: (nat, nat) -> seq<uint8>, s: seq<T>, width: nat, dot: T -> bool)
    requires CellsOf(cell, s, width, dot)
    ensures ThreeByteCells(|s|, width, cell)
  {
    forall x: nat, y: nat | Offset(width, x + 1, y + 3) < |s|
      ensures |cell(x, y)| == 3
    {
      var bytes := CellBytes(s, width, dot, x, y);
    }
  }

  // ------------------------------------------------------ when it finishes

  /** In an image of even width whose height is a multiple of 4, every cell
      lies inside the image. */
  lemma {:induction false} RowFinishes(width: nat, height: nat, x: nat, y: nat)
    requires width % 2 == 0 && height % 4 == 0
    requires x % 2 == 0 && y % 4 == 0 && y < height
    ensures RowCompletes(width * height, width, x, y)
    decreases width - x
  {
    if x < width {
      IndexInGrid(x + 1, y + 3, width, height);
      RowFinishes(width, height, x + 2, y);
    }
  }

  lemma {:induction false} RowsFinish(width: nat, height: nat, y: nat)
    requires width % 2 == 0 && height % 4 == 0 && y % 4 == 0
    ensures RowsComplete(width * height, width, height, y)
    decreases height - y
  {
    if y < height {
      RowFinishes(width, height, 0, y);
      RowsFinish(width, height, y + 4);
    }
  }

  /** Without columns every row is just a newline. */
  lemma {:induction false} EmptyRowsFinish(len: nat, height: nat, y: nat)
    ensures RowsComplete(len, 0, height, y)
    decreases height - y
  {
    if y < height {
      EmptyRowsFinish(len, height, y + 4);
    }
  }

  /** A row whose cell at `xf` panics does not finish. */
  lemma {:induction false} RowStops(len: nat, width: nat, x: nat, xf: nat, y: nat)
    requires x <= xf < width && (xf - x) % 2 == 0 && Offset(width, xf + 1, y + 3) >= len
    ensures !RowCompletes(len, width, x, y)
    decreases xf - x
  {
    if x < xf {
      RowStops(len, width, x + 2, xf, y);
    }
  }

  /** The rows from `y` do not finish when a later row does not. */
  lemma {:induction false} RowsStop(len: nat, width: nat, height: nat, y: nat, yf: nat)
    requires y <= yf < height && (yf - y) % 4 == 0 && !RowCompletes(len, width, 0, yf)
    ensures !RowsComplete(len, width, height, y)
    decreases yf - y
  {
    if y < yf {
      RowsStop(len, width, height, y + 4, yf);
    }
  }

  /** In a non-empty image whose width is odd or whose height is not a
      multiple of 4, the last cell of the loops reads past the buffer. */
  lemma LastCell(width: nat, height: nat) returns (xl: nat, yl: nat)
    requires width > 0 && height > 0 && !(width % 2 == 0 && height % 4 == 0)
    ensures xl < width && xl % 2 == 0 && yl < height && yl % 4 == 0
    ensures Offset(width, xl + 1, yl + 3) >= width * height
  {
    yl := height - 1 - (height - 1) % 4;
    xl := width - 1 - (width - 1) % 2;
    if yl + 3 >= height {
      MulMono(height, yl + 3, width);
    } else {
      assert yl + 3 == height - 1 && xl + 1 == width;
      assert (height - 1) * width + width == height * width;
    }
  }

  /** `braille` writes its whole text and returns exactly when the image is
      empty or its width is even and its height a multiple of 4; otherwise
      the last cell's reads leave the buffer and `color_get` panics. */
  lemma BrailleFinishesIff<T>(s: seq<T>, width: nat, height: nat, dot: T -> bool)
    requires |s| == width * height
    ensures BrailleText(s, width, height, dot).1
        <==> width == 0 || height == 0 || (width % 2 == 0 && height % 4 == 0)
  {
    if width == 0 {
      EmptyRowsFinish(|s|, height, 0);
    } else if height == 0 {
    } else if width % 2 == 0 && height % 4 == 0 {
      RowsFinish(width, height, 0);
    } else {
      var xl, yl := LastCell(width, height);
      RowStops(|s|, width, 0, xl, yl);
      RowsStop(|s|, width, height, 0, yl);
    }
  }

  // ------------------------------------------------------------- the method

  /** The character of the cell at `(x, y)`: U+2800 plus the cell's pattern,
      written as the three UTF-8 bytes `E2`, `A0 + bits / 64`, `80 + bits % 64`,
      where each of the eight sampled pixels owns one bit of the pattern. */
  lemma CellCharacter<T>(s: seq<T>, width: nat, dot: T -> bool, x: nat, y: nat)
    requires Offset(width, x + 1, y + 3) < |s|
    ensures Offset(width, x, y) < |s| && Offset(width, x + 1, y) < |s|
    ensures Offset(width, x, y + 1) < |s| && Offset(width, x + 1, y + 1) < |s|
    ensures Offset(width, x, y + 2) < |s| && Offset(width, x + 1, y + 2) < |s|
    ensures Offset(width, x, y + 3) < |s|
    ensures DotBits(CellDots(s, width, dot, x, y)) < 256
    ensures DecodeUtf8(CellBytes(s, width, dot, x, y)) == 0x2800 + DotBits(CellDots(s, width, dot, x, y))
    ensures CellBytes(s, width, dot, x, y) == [0xE2, 0xA0 + DotBits(CellDots(s, width, dot, x, y)) / 0x40,
                                               0x80 + DotBits(CellDots(s, width, dot, x, y)) % 0x40]
    ensures DotBits(CellDots(s, width, dot, x, y)) % 2 == Bit(dot(s[Offset(width, x, y)]))
    ensures DotBits(CellDots(s, width, dot, x, y)) / 2 % 2 == Bit(dot(s[Offset(width, x, y + 1)]))
    ensures DotBits(CellDots(s, width, dot, x, y)) / 4 % 2 == Bit(dot(s[Offset(width, x, y + 2)]))
    ensures DotBits(CellDots(s, width, dot, x, y)) / 8 % 2 == Bit(dot(s[Offset(width, x + 1, y)]))
    ensures DotBits(CellDots(s, width, dot, x, y)) / 16 % 2 == Bit(dot(s[Offset(width, x + 1, y + 1)]))
    ensures DotBits(CellDots(s, width, dot, x, y)) / 32 % 2 == Bit(dot(s[Offset(width, x + 1, y + 2)]))
    ensures DotBits(CellDots(s, width, dot, x, y)) / 64 % 2 == Bit(dot(s[Offset(width, x, y + 3)]))
    ensures DotBits(CellDots(s, width, dot, x, y)) / 128 % 2 == Bit(dot(s[Offset(width, x + 1, y + 3)]))
  {
    CellReads(width, x, y, |s|);
    var d := CellDots(s, width, dot, x, y);
    DotBitsOfEight(d);
    BrailleUtf8(DotBits(d));
    Utf8RoundTrip(0x2800 + DotBits(d));
    EightBits(d);
  }

  /** Bit `k` of the pattern of eight dots is dot `k`. */
  lemma EightBits(d: seq<bool>)
    requires |d| == 8
    ensures DotBits(d) % 2 == Bit(d[0]) && DotBits(d) / 2 % 2 == Bit(d[1])
    ensures DotBits(d) / 4 % 2 == Bit(d[2]) && DotBits(d) / 8 % 2 == Bit(d[3])
    ensures DotBits(d) / 16 % 2 == Bit(d[4]) && DotBits(d) / 32 % 2 == Bit(d[5])
    ensures DotBits(d) / 64 % 2 == Bit(d[6]) && DotBits(d) / 128 % 2 == Bit(d[7])
  {
    DotBitsDecode(d, 0);
    DotBitsDecode(d, 1);
    DotBitsDecode(d, 2);
    DotBitsDecode(d, 3);
    DotBitsDecode(d, 4);
    DotBitsDecode(d, 5);
    DotBitsDecode(d, 6);
    DotBitsDecode(d, 7);
  }

  /** A chunk `c` that follows `p` in a prefix of `out` is the slice of
      `out` after `p`. */
  lemma PrefixChunk(p: seq<uint8>, c: seq<uint8>, q: seq<uint8>, out: seq<uint8>)
    requires p + c + q <= out
    ensures |p| + |c| <= |out|
    ensures out[..|p|] == p && out[|p|..|p| + |c|] == c && out[..|p| + |c|] == p + c
  {
    assert (p + c + q)[..|p| + |c|] == p + c;
    assert (p + c)[..|p|] == p;
  }

  /** How `braille` ends other than by returning `Ok`: a failed `write_all`,
      or the panic of a `color_get` past the buffer. */
  datatype Failure = WriteError(error: IoError) | IndexPanic

  /** `lum_at`: 1 when the pixel at `(x, y)` of the row-major pixels `s` of
      an image `width` wide raises its dot. */
  function LumAt<T>(s: seq<T>, width: nat, dot: T -> bool, x: nat, y: nat): nat
    requires Offset(width, x, y) < |s|
  {
    Bit(dot(s[Offset(width, x, y)]))
  }

  /** How a run of `braille` that started on the sink contents `base` is
      reported: the sink holds the part of `text` it had room for; `Ok` when
      all of it fit and the run got to the end, a panic when all of it fit
      but the run did not get to the end, and a write error exactly when the
      sink filled up. */
  ghost predicate Reported(data: seq<uint8>, base: seq<uint8>, text: (seq<uint8>, bool), kept: nat,
                           r: Result<(), Failure>)
  {
    && kept <= |text.0| && data == base + text.0[..kept]
    && (r.Ok? <==> text.1 && kept == |text.0|)
    && (r == Err(IndexPanic) <==> !text.1 && kept == |text.0|)
    && (r.Err? && r.error.WriteError? <==> kept < |text.0|)
    && (r.Err? && r.error.WriteError? ==> r.error.error == StorageFull)
  }

  /** The part of `out` that a full sink kept. */
  ghost predicate Truncated(w: Writer, base: seq<uint8>, out: seq<uint8>)
    reads w
  {
    w.Kept(|base|, |out|) < |out| && w.data == base + out[..w.Kept(|base|, |out|)]
  }

  /** `braille` with the dot test `dot`: for each row of cells, each cell's
      character, then a newline. `braille` holds the image by a shared
      reference, so its pixels are read from one snapshot of the buffer. */
  method BrailleBy<T>(im: RawPixBuf<T>, dot: T -> bool, w: Writer) returns (r: Result<(), Failure>)
    requires im.Valid() && w.Valid()
    modifies w
    ensures w.Valid()
    ensures Reported(w.data, old(w.data), BrailleText(im.buf[..], im.width, im.height, dot),
                     w.Kept(|old(w.data)|, |BrailleText(im.buf[..], im.width, im.height, dot).0|), r)
  {
    var s := im.buf[..];
    r := BraillePixels(s, im.width, im.height, dot, w);
  }

  /** The loops of `braille` over the row-major pixels `s` of an image
      `width` by `height`. */
  method BraillePixels<T>(s: seq<T>, width: nat, height: nat, dot: T -> bool, w: Writer)
      returns (r: Result<(), Failure>)
    requires w.Valid()
    modifies w
    ensures w.Valid()
    ensures Reported(w.data, old(w.data), BrailleText(s, width, height, dot),
                     w.Kept(|old(w.data)|, |BrailleText(s, width, height, dot).0|), r)
  {
    ghost var base := w.data;
    ghost var cell := CellText(s, width, dot);
    CellTextCells(s, width, dot);
    r := BrailleRows(s, width, height, dot, w, cell, base, RowsBytes(|s|, width, height, cell, 0));
    Ends(w, base, BrailleText(s, width, height, dot), r);
  }

  /** The outer loop over the rows of cells, each written by `BrailleRow`. */
  method BrailleRows<T>(s: seq<T>, width: nat, height: nat, dot: T -> bool, w: Writer,
                        ghost cell: (nat, nat) -> seq<uint8>, ghost base: seq<uint8>, ghost out: seq<uint8>)
      returns (r: Result<(), Failure>)
    requires w.Valid() && w.data == base && CellsOf(cell, s, width, dot)
    requires out == RowsBytes(|s|, width, height, cell, 0)
    modifies w
    ensures w.Valid()
    ensures r.Ok? ==> RowsComplete(|s|, width, height, 0) && w.data == base + out
    ensures r == Err(IndexPanic) ==> !RowsComplete(|s|, width, height, 0) && w.data == base + out
    ensures r.Err? && r.error.WriteError? ==> r.error.error == StorageFull && Truncated(w, base, out)
  {
    ghost var done: seq<uint8> := [];
    var y := 0;
    while y < height
      invariant w.Valid() && w.data == base + done
      invariant done + RowsBytes(|s|, width, height, cell, y) == out
      invariant RowsComplete(|s|, width, height, y) == RowsComplete(|s|, width, height, 0)
    {
      ghost var row, after := RowsPlan(|s|, width, height, cell, y, done, out);
      r := BrailleRow(s, width, dot, w, y, cell, base, out, done, row, after);
      if r.Err? {
        return;
      }
      done := done + row;
      y := y + 4;
    }
    RowsEnd(|s|, width, height, cell, y, done, out);
    r := Ok(());
  }

  /** Row `y` of the text still to write, and what follows it: the rows from
      `y + 4` after a finished row, nothing after an unfinished one. */
  lemma RowsPlan(len: nat, width: nat, height: nat, cell: (nat, nat) -> seq<uint8>, y: nat,
                 done: seq<uint8>, out: seq<uint8>) returns (row: seq<uint8>, after: seq<uint8>)
    requires y < height && done + RowsBytes(len, width, height, cell, y) == out
    ensures row == RowBytes(len, width, cell, 0, y) && done + row + after == out
    ensures !RowCompletes(len, width, 0, y) ==> after == [] && !RowsComplete(len, width, height, y)
    ensures RowCompletes(len, width, 0, y) ==>
      after == RowsBytes(len, width, height, cell, y + 4)
      && RowsComplete(len, width, height, y + 4) == RowsComplete(len, width, height, y)
  {
    row := RowBytes(len, width, cell, 0, y);
    if RowCompletes(len, width, 0, y) {
      after := RowsBytes(len, width, height, cell, y + 4);
      assert RowsBytes(len, width, height, cell, y) == row + after;
    } else {
      after := [];
      assert RowsBytes(len, width, height, cell, y) == row;
    }
  }

  /** Past the last band nothing is left to write and the rows finish. */
  lemma RowsEnd(len: nat, width: nat, height: nat, cell: (nat, nat) -> seq<uint8>, y: nat,
                done: seq<uint8>, out: seq<uint8>)
    requires y >= height && done + RowsBytes(len, width, height, cell, y) == out
    ensures done == out && RowsComplete(len, width, height, y)
  {
    assert RowsBytes(len, width, height, cell, y) == [];
  }

  /** The three ways a run ends, each reported as `Reported` says. */
  lemma Ends(w: Writer, base: seq<uint8>, text: (seq<uint8>, bool), r: Result<(), Failure>)
    requires w.Valid()
    requires r.Ok? ==> text.1 && w.data == base + text.0
    requires r == Err(IndexPanic) ==> !text.1 && w.data == base + text.0
    requires r.Err? && r.error.WriteError? ==> r.error.error == StorageFull && Truncated(w, base, text.0)
    ensures Reported(w.data, base, text, w.Kept(|base|, |text.0|), r)
  {
    if !(r.Err? && r.error.WriteError?) {
      assert text.0[..|text.0|] == text.0;
    }
  }

  /** One pass of the outer loop: the cells of row `y`, then the newline;
      `row` is the text of row `y` and `after` what follows it. */
  method BrailleRow<T>(s: seq<T>, width: nat, dot: T -> bool, w: Writer, y: nat,
                       ghost cell: (nat, nat) -> seq<uint8>, ghost base: seq<uint8>, ghost out: seq<uint8>,
                       ghost done: seq<uint8>, ghost row: seq<uint8>, ghost after: seq<uint8>)
      returns (r: Result<(), Failure>)
    requires w.Valid() && w.data == base + done && CellsOf(cell, s, width, dot)
    requires RowBytes(|s|, width, cell, 0, y) == row && done + row + after == out
    requires !RowCompletes(|s|, width, 0, y) ==> after == []
    modifies w
    ensures w.Valid()
    ensures r.Ok? ==> (RowCompletes(|s|, width, 0, y) && w.data == base + (done + row))
    ensures r == Err(IndexPanic) ==> (!RowCompletes(|s|, width, 0, y) && w.data == base + out)
    ensures r.Err? && r.error.WriteError? ==> r.error.error == StorageFull && Truncated(w, base, out)
  {
    ghost var start := base + done;
    assert out == done + (row + after);
    ghost var rowDone;
    r, rowDone := RowCells(s, width, dot, w, y, cell, start, row, after);
    if r.Err? {
      Rebased(w, base, done, row + after, out);
      return;
    }
    var newline: seq<uint8> := [0x0A];
    Chunk(done, rowDone, newline, [], row, after, out);
    var written := w.WriteAllOf(base, out, |done + rowDone|, newline);
    r := if written.Ok? then Ok(()) else Err(WriteError(written.error));
  }

  /** What the sink holds, described from `base + done` on, described from
      `base` on. */
  lemma Rebased(w: Writer, base: seq<uint8>, done: seq<uint8>, rest: seq<uint8>, out: seq<uint8>)
    requires out == done + rest
    requires w.capacity.Some? ==> |base| + |done| <= w.capacity.value
    requires w.data == base + done + rest || Truncated(w, base + done, rest)
    ensures w.data == base + out || Truncated(w, base, out)
    ensures Truncated(w, base + done, rest) ==> Truncated(w, base, out)
  {
    if Truncated(w, base + done, rest) {
      OutcomeAfter(w, base, done, rest, Err(StorageFull));
    } else {
      assert base + done + rest == base + out;
    }
  }

  /** The inner loop over the cells of row `y`, started on the sink contents
      `start`; `rowDone` is what it wrote, all of the row but its newline when
      it got to the end. */
  method RowCells<T>(s: seq<T>, width: nat, dot: T -> bool, w: Writer, y: nat,
                     ghost cell: (nat, nat) -> seq<uint8>,
                     ghost start: seq<uint8>, ghost row: seq<uint8>, ghost after: seq<uint8>)
      returns (r: Result<(), Failure>, ghost rowDone: seq<uint8>)
    requires w.Valid() && w.data == start && CellsOf(cell, s, width, dot)
    requires RowBytes(|s|, width, cell, 0, y) == row
    requires !RowCompletes(|s|, width, 0, y) ==> after == []
    modifies w
    ensures w.Valid()
    ensures r.Ok? ==> (RowCompletes(|s|, width, 0, y) && w.data == start + rowDone
                       && rowDone + [0x0A] == row)
    ensures r == Err(IndexPanic) ==> (!RowCompletes(|s|, width, 0, y) && w.data == start + row + after)
    ensures r.Err? && r.error.WriteError? ==> r.error.error == StorageFull && Truncated(w, start, row + after)
  {
    rowDone := [];
    var x := 0;
    while x < width
      invariant w.Valid()
      invariant w.data == start + rowDone
      invariant rowDone + RowBytes(|s|, width, cell, x, y) == row
      invariant RowCompletes(|s|, width, x, y) == RowCompletes(|s|, width, 0, y)
    {
      ghost var next;
      r, next := RowCell(s, width, dot, w, x, y, cell, start, rowDone, row, after);
      if r.Err? {
        return;
      }
      rowDone := next;
      x := x + 2;
    }
    RowEnds(|s|, width, cell, x, y);
    r := Ok(());
  }

  /** One pass of the inner loop: the panic of a read past the buffer, or
      the cell's character written. */
  method RowCell<T>(s: seq<T>, width: nat, dot: T -> bool, w: Writer, x: nat, y: nat,
                    ghost cell: (nat, nat) -> seq<uint8>,
                    ghost start: seq<uint8>, ghost rowDone: seq<uint8>, ghost row: seq<uint8>,
                    ghost after: seq<uint8>)
      returns (r: Result<(), Failure>, ghost next: seq<uint8>)
    requires w.Valid() && x < width && CellsOf(cell, s, width, dot)
    requires w.data == start + rowDone
    requires rowDone + RowBytes(|s|, width, cell, x, y) == row
    requires !RowCompletes(|s|, width, x, y) ==> after == []
    modifies w
    ensures w.Valid()
    ensures r.Ok? ==> (Offset(width, x + 1, y + 3) < |s|
      && next == rowDone + cell(x, y)
      && w.data == start + next
      && next + RowBytes(|s|, width, cell, x + 2, y) == row
      && RowCompletes(|s|, width, x, y) == RowCompletes(|s|, width, x + 2, y))
    ensures r == Err(IndexPanic) ==> (!RowCompletes(|s|, width, x, y) && w.data == start + row + after)
    ensures r.Err? && r.error.WriteError? ==> r.error.error == StorageFull && Truncated(w, start, row + after)
  {
    next := rowDone;
    if Offset(width, x + 1, y + 3) >= |s| {
      CellPanics(|s|, width, cell, x, y, rowDone, row, after);
      return Err(IndexPanic), next;
    }
    var bytes := Cell(s, width, dot, x, y);
    assert bytes == cell(x, y);
    CellFits(|s|, width, cell, x, y, rowDone, row, after);
    var written := w.WriteAllOf(start, row + after, |rowDone|, bytes);
    if written.Err? {
      return Err(WriteError(written.error)), next;
    }
    r, next := Ok(()), rowDone + bytes;
  }

  /** A cell that reads past the buffer ends the row, and the text, with
      what was written before it. */
  lemma CellPanics(len: nat, width: nat, cell: (nat, nat) -> seq<uint8>, x: nat, y: nat,
                   rowDone: seq<uint8>, row: seq<uint8>, after: seq<uint8>)
    requires x < width && Offset(width, x + 1, y + 3) >= len
    requires rowDone + RowBytes(len, width, cell, x, y) == row
    requires !RowCompletes(len, width, x, y) ==> after == []
    ensures !RowCompletes(len, width, x, y) && rowDone == row + after
  {
    RowPanics(len, width, cell, x, y);
    assert rowDone + [] == rowDone;
  }

  /** A cell inside the buffer is the next chunk of the text. */
  lemma CellFits(len: nat, width: nat, cell: (nat, nat) -> seq<uint8>, x: nat, y: nat,
                 rowDone: seq<uint8>, row: seq<uint8>, after: seq<uint8>)
    requires x < width && Offset(width, x + 1, y + 3) < len
    requires rowDone + RowBytes(len, width, cell, x, y) == row
    ensures rowDone + cell(x, y) + RowBytes(len, width, cell, x + 2, y) == row
    ensures RowCompletes(len, width, x, y) == RowCompletes(len, width, x + 2, y)
    ensures |rowDone| + |cell(x, y)| <= |row + after| && (row + after)[..|rowDone|] == rowDone
    ensures (row + after)[|rowDone|..|rowDone| + |cell(x, y)|] == cell(x, y)
    ensures (row + after)[..|rowDone| + |cell(x, y)|] == rowDone + cell(x, y)
  {
    RowStep(len, width, cell, x, y);
    Chunk([], rowDone, cell(x, y), RowBytes(len, width, cell, x + 2, y), row, after, row + after);
  }

  /** The next chunk of a row, as a slice of the whole text. */
  lemma Chunk(done: seq<uint8>, rowDone: seq<uint8>, c: seq<uint8>, rest: seq<uint8>,
              row: seq<uint8>, after: seq<uint8>, out: seq<uint8>)
    requires rowDone + (c + rest) == row && done + row + after == out
    ensures rowDone + c + rest == row
    ensures |done + rowDone| + |c| <= |out|
    ensures out[..|done + rowDone|] == done + rowDone
    ensures out[|done + rowDone|..|done + rowDone| + |c|] == c
    ensures out[..|done + rowDone| + |c|] == done + (rowDone + c)
  {
    assert done + row + after == (done + rowDone) + c + (rest + after);
    PrefixChunk(done + rowDone, c, rest + after, out);
  }

  /** The body of the inner loop: the eight `lum_at` bits of the cell at
      `(x, y)` or-ed in, the braille base U+2800 added, and the character
      encoded as UTF-8. The bits are disjoint, so `|` is `+`. */
  method Cell<T>(s: seq<T>, width: nat, dot: T -> bool, x: nat, y: nat) returns (bytes: seq<uint8>)
    requires Offset(width, x + 1, y + 3) < |s|
    ensures bytes == CellBytes(s, width, dot, x, y)
  {
    CellReads(width, x, y, |s|);
    var bits := 0;
    bits := bits + LumAt(s, width, dot, x, y);
    bits := bits + LumAt(s, width, dot, x + 1, y) * 8;
    bits := bits + LumAt(s, width, dot, x, y + 1) * 2;
    bits := bits + LumAt(s, width, dot, x + 1, y + 1) * 16;
    bits := bits + LumAt(s, width, dot, x, y + 2) * 4;
    bits := bits + LumAt(s, width, dot, x + 1, y + 2) * 32;
    bits := bits + LumAt(s, width, dot, x, y + 3) * 64;
    bits := bits + LumAt(s, width, dot, x + 1, y + 3) * 128;
    CellBits(s, width, dot, x, y);
    bits := bits + 0x2800;
    bytes := EncodeUtf8(bits);
  }

  /** The pattern of a cell is the sum of its eight `lum_at` bits, each
      moved to its braille dot position. */
  lemma CellBits<T>(s: seq<T>, width: nat, dot: T -> bool, x: nat, y: nat)
    requires Offset(width, x + 1, y + 3) < |s|
    requires Offset(width, x, y) < |s| && Offset(width, x + 1, y) < |s|
    requires Offset(width, x, y + 1) < |s| && Offset(width, x + 1, y + 1) < |s|
    requires Offset(width, x, y + 2) < |s| && Offset(width, x + 1, y + 2) < |s|
    requires Offset(width, x, y + 3) < |s|
    ensures DotBits(CellDots(s, width, dot, x, y))
         == LumAt(s, width, dot, x, y) + LumAt(s, width, dot, x + 1, y) * 8
          + LumAt(s, width, dot, x, y + 1) * 2 + LumAt(s, width, dot, x + 1, y + 1) * 16
          + LumAt(s, width, dot, x, y + 2) * 4 + LumAt(s, width, dot, x + 1, y + 2) * 32
          + LumAt(s, width, dot, x, y + 3) * 64 + LumAt(s, width, dot, x + 1, y + 3) * 128
  {
    DotBitsOfEight(CellDots(s, width, dot, x, y));
  }

  /** `braille` with the program's arguments: a dot is raised where `lum_at`
      finds the luma of `convert_into::<Gray>` below `luminance`, or not
      below it when `inverted`. */
  method BrailleOf(luminance: uint8, inverted: bool, im: RawPixBuf<ColorNrgba64.Nrgba64Be>, w: Writer)
      returns (r: Result<(), Failure>)
    requires im.Valid() && w.Valid()
    modifies w
    ensures w.Valid()
    ensures var text := BrailleText(im.buf[..], im.width, im.height, c => Lit(ColorGray.Luma(c), luminance, inverted));
      Reported(w.data, old(w.data), text, w.Kept(|old(w.data)|, |text.0|), r)
  {
    r := BrailleBy(im, c => Lit(ColorGray.Luma(c), luminance, inverted), w);
  }
}
