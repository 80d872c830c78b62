/** The halftone example (examples/halftone/src/main.rs): ordered dithering of
    a farbfeld image with a 4 by 4 Bayer mask. Every pixel becomes black or
    white, depending on its luma and on its position in the mask; the blocks
    at the right and bottom edges are clamped to the image. */
module Halftone {
  import opened Ints
  import opened Color
  import opened ColorNrgba64
  import opened PixBuf
  import ColorGray

  /** `MASK.width` and `MASK.height`: the mask is square. */
  const SIDE: nat := 4
  /** `MASK.m`: the scale of a mask entry against a luma. */
  const SCALE: nat := 16
  /** `MASK.pix`: the Bayer matrix, row by row. */
  const MASK: seq<nat> := [1, 9, 3, 11, 13, 5, 15, 7, 4, 12, 2, 10, 16, 8, 14, 6]

  /** `Nrgba64Be::be(0, 0, 0, 0xffff)`; both stored words read the same in
      either byte order. */
  const BLACK: Nrgba64Be := Nrgba64(0, 0, 0, 0xffff, BigEndian)
  /** `Nrgba64Be::be(0xffff, 0xffff, 0xffff, 0xffff)`. */
  const WHITE: Nrgba64Be := Nrgba64(0xffff, 0xffff, 0xffff, 0xffff, BigEndian)
  /** The all-zero pixel `RawPixBuf::new` fills the new image with. */
  const ZERO: Nrgba64Be := Nrgba64(0, 0, 0, 0, BigEndian)

  /** `BLACK` is the colour `be` builds from its channels, whatever the host. */
  lemma BlackIsBe()
    ensures BLACK == Be(0, 0, 0, 0xffff)
  {
    assert SwapBytes16(0xffff) == 0xffff;
  }

  /** `WHITE` is the colour `be` builds from its channels, whatever the host. */
  lemma WhiteIsBe()
    ensures WHITE == Be(0xffff, 0xffff, 0xffff, 0xffff)
  {
    assert SwapBytes16(0xffff) == 0xffff;
  }

  /** Where each threshold `m` sits in the mask: `MASK[POSITION[m - 1]] == m`. */
  const POSITION: seq<nat> := [0, 10, 2, 8, 5, 15, 7, 13, 1, 11, 3, 9, 4, 14, 6, 12]

  /** The mask holds every threshold from 1 to 16, each exactly once: its
      sixteen entries lie between 1 and 16 and each of those values occurs. */
  lemma MaskIsPermutation()
    ensures |MASK| == SIDE * SIDE
    ensures forall k :: 0 <= k < |MASK| ==> 1 <= MASK[k] <= SIDE * SIDE
    ensures forall m :: 1 <= m <= SIDE * SIDE ==> m in MASK
  {
    forall k | 0 <= k < |MASK|
      ensures 1 <= MASK[k] <= SIDE * SIDE
    {
      MaskBounds(k);
    }
    forall m | 1 <= m <= SIDE * SIDE
      ensures m in MASK
    {
      ThresholdPosition(m);
    }
  }

  lemma ThresholdPosition(m: nat)
    requires 1 <= m <= SIDE * SIDE
    ensures POSITION[m - 1] < |MASK| && MASK[POSITION[m - 1]] == m
  {
  }

  /** `color.y as u16 + self.pix[k] * self.m`: at most `255 + 16 * 16`, so the
      `u16` arithmetic never overflows. */
  function Pix(luma: uint8, k: nat): (p: uint16)
    requires k < |MASK|
    ensures p > 0xff <==> luma + SCALE * MASK[k] > 255
  {
    luma + MASK[k] * SCALE
  }

  /** The colour stored for a pixel of luma `luma` under mask entry `k`. */
  function Tone(luma: uint8, k: nat): (c: Nrgba64Be)
    requires k < |MASK|
    ensures c == BLACK || c == WHITE
    ensures c == WHITE <==> luma + SCALE * MASK[k] > 255
  {
    if Pix(luma, k) > 0xff then WHITE else BLACK
  }

  /** A brighter pixel under the same mask entry is at least as white. */
  lemma ToneMonotone(dark: uint8, bright: uint8, k: nat)
    requires k < |MASK| && dark <= bright
    ensures Tone(dark, k) == WHITE ==> Tone(bright, k) == WHITE
    ensures Tone(bright, k) == BLACK ==> Tone(dark, k) == BLACK
  {
  }

  /** Full luma is white everywhere; zero luma is white only under the entry
      16, which sits in row 3, column 0 of the mask. */
  lemma ToneExtremes(k: nat)
    requires k < |MASK|
    ensures Tone(255, k) == WHITE
    ensures Tone(0, k) == WHITE <==> k == 12
  {
  }

  /** `(v).clamp(0, max)` on `usize`; the lower bound never binds. */
  function Clamp(v: nat, max: nat): (r: nat)
    ensures r <= max && r <= v
    ensures r == v || r == max
  {
    if v > max then max else v
  }

  // ------------------------------------------------------------ Mask::apply

  /** The stores of `apply` at block `(x, y)`, in order: step `k` is row
      `k / 4` and column `k % 4` of the mask, clamped into the image, and
      stores the tone of the original pixel there under mask entry `k`. */
  function BlockWrites(orig: seq<Nrgba64Be>, width: nat, height: nat, luma: Nrgba64Be -> uint8, x: nat, y: nat)
    : (ws: seq<(nat, Nrgba64Be)>)
    requires |orig| == width * height && x < width && y < height
    ensures |ws| == SIDE * SIDE
    ensures forall k :: 0 <= k < |ws| ==> ws[k].0 < width * height
  {
    seq(SIDE * SIDE, k requires 0 <= k < SIDE * SIDE =>
      BlockWrite(orig, width, height, luma, x, y, k))
  }

  function BlockWrite(orig: seq<Nrgba64Be>, width: nat, height: nat, luma: Nrgba64Be -> uint8, x: nat, y: nat, k: nat)
    : (w: (nat, Nrgba64Be))
    requires |orig| == width * height && x < width && y < height && k < SIDE * SIDE
    ensures w.0 < width * height
  {
    var cx, cy := Clamp(x + k % SIDE, width - 1), Clamp(y + k / SIDE, height - 1);
    IndexInGrid(cx, cy, width, height);
    (Offset(width, cx, cy), Tone(luma(At(orig, width, height, cx, cy)), k))
  }

  /** The buffer `s` after the stores `ws`, one after the other. */
  function Stores<T>(s: seq<T>, ws: seq<(nat, T)>): (t: seq<T>)
    requires forall k :: 0 <= k < |ws| ==> ws[k].0 < |s|
    ensures |t| == |s|
  {
    if |ws| == 0 then s
    else Stores(s, ws[..|ws| - 1])[ws[|ws| - 1].0 := ws[|ws| - 1].1]
  }

  /** The last store to an index decides its value. */
  lemma {:induction false} StoresLastWins<T>(s: seq<T>, ws: seq<(nat, T)>, n: nat, k: nat)
    requires forall i :: 0 <= i < |ws| ==> ws[i].0 < |s|
    requires k < |ws| && ws[k].0 == n
    requires forall i :: k < i < |ws| ==> ws[i].0 != n
    ensures Stores(s, ws)[n] == ws[k].1
  {
    if k < |ws| - 1 {
      StoresLastWins(s, ws[..|ws| - 1], n, k);
    }
  }

  /** One more store on a prefix of the stores. */
  lemma StoresStep<T>(s: seq<T>, ws: seq<(nat, T)>, n: nat)
    requires forall i :: 0 <= i < |ws| ==> ws[i].0 < |s|
    requires n < |ws|
    ensures Stores(s, ws[..n + 1]) == Stores(s, ws[..n])[ws[n].0 := ws[n].1]
  {
    assert ws[..n + 1][..n] == ws[..n];
  }

  /** An index no store names keeps its value. */
  lemma {:induction false} StoresMiss<T>(s: seq<T>, ws: seq<(nat, T)>, n: nat)
    requires forall i :: 0 <= i < |ws| ==> ws[i].0 < |s|
    requires n < |s| && forall i :: 0 <= i < |ws| ==> ws[i].0 != n
    ensures Stores(s, ws)[n] == s[n]
  {
    if |ws| > 0 {
      StoresMiss(s, ws[..|ws| - 1], n);
    }
  }

  /** `Mask::apply` at block `(x, y)`: for each mask row and column, the
      clamped pixel of the original image is read, converted to `Gray`, and
      the pixel of `im` at the same place is set to white or black. */
  method Apply(orig: RawPixBuf<Nrgba64Be>, im: RawPixBuf<Nrgba64Be>, luma: Nrgba64Be -> uint8, x: nat, y: nat)
    requires orig.Valid() && im.Valid() && orig.buf != im.buf
    requires orig.width == im.width && orig.height == im.height
    requires x < im.width && y < im.height
    modifies im.buf
    ensures im.buf[..] == Stores(old(im.buf[..]), BlockWrites(orig.buf[..], orig.width, orig.height, luma, x, y))
  {
    ghost var s := im.buf[..];
    ghost var ws := BlockWrites(orig.buf[..], orig.width, orig.height, luma, x, y);
    var i := 0;
    while i < SIDE
      invariant i <= SIDE
      invariant im.buf[..] == Stores(s, ws[..i * SIDE])
    {
      var j := 0;
      while j < SIDE
        invariant j <= SIDE
        invariant im.buf[..] == Stores(s, ws[..i * SIDE + j])
      {
        ApplyStep(orig, im, luma, x, y, i, j, s);
        j := j + 1;
      }
      i := i + 1;
    }
    assert ws[..SIDE * SIDE] == ws;
  }

  /** The body of `apply`'s inner loop: the pixel of mask row `i` and column
      `j`, clamped into the image, read, converted to its luma and set to
      white where the luma plus the scaled mask entry passes 255, black
      elsewhere. */
  method ApplyStep(orig: RawPixBuf<Nrgba64Be>, im: RawPixBuf<Nrgba64Be>, luma: Nrgba64Be -> uint8,
                   x: nat, y: nat, i: nat, j: nat, ghost s: seq<Nrgba64Be>)
    requires orig.Valid() && im.Valid() && orig.buf != im.buf
    requires orig.width == im.width && orig.height == im.height
    requires x < im.width && y < im.height && i < SIDE && j < SIDE && |s| == im.buf.Length
    requires im.buf[..] == Stores(s, BlockWrites(orig.buf[..], orig.width, orig.height, luma, x, y)[..i * SIDE + j])
    modifies im.buf
    ensures im.buf[..] == Stores(s, BlockWrites(orig.buf[..], orig.width, orig.height, luma, x, y)[..i * SIDE + j + 1])
  {
    ghost var ws := BlockWrites(orig.buf[..], orig.width, orig.height, luma, x, y);
    var cy := Clamp(y + i, im.height - 1);
    var cx := Clamp(x + j, im.width - 1);
    StepWrite(orig.buf[..], orig.width, orig.height, luma, x, y, i, j, cx, cy);
    var color := luma(orig.ColorGet(cx, cy));
    MaskBounds(i * SIDE + j);
    var pix: uint16 := color + MASK[i * SIDE + j] * SCALE;
    assert ws[i * SIDE + j] == (im.Index(cx, cy), Tone(color, i * SIDE + j));
    assert Tone(color, i * SIDE + j) == if pix > 0xff then WHITE else BLACK;
    StoresStep(s, ws, i * SIDE + j);
    im.PixelSet(cx, cy, if pix > 0xff then WHITE else BLACK);
  }

  /** Step `4 * i + j` of `apply` stores at row `i`, column `j` of the mask,
      clamped into the image, under mask entry `4 * i + j`. */
  lemma StepWrite(orig: seq<Nrgba64Be>, width: nat, height: nat, luma: Nrgba64Be -> uint8, x: nat, y: nat,
                  i: nat, j: nat, cx: nat, cy: nat)
    requires |orig| == width * height && x < width && y < height && i < SIDE && j < SIDE
    requires cx == Clamp(x + j, width - 1) && cy == Clamp(y + i, height - 1)
    ensures i * SIDE + j < SIDE * SIDE && cx < width && cy < height && Offset(width, cx, cy) < |orig|
    ensures BlockWrite(orig, width, height, luma, x, y, i * SIDE + j)
         == (Offset(width, cx, cy), Tone(luma(At(orig, width, height, cx, cy)), i * SIDE + j))
    ensures BlockWrites(orig, width, height, luma, x, y)[i * SIDE + j]
         == (Offset(width, cx, cy), Tone(luma(orig[Offset(width, cx, cy)]), i * SIDE + j))
  {
    RowColumn(j, i, SIDE);
    IndexInGrid(cx, cy, width, height);
  }

  /** Every mask entry lies between 1 and 16. */
  lemma MaskBounds(k: nat)
    requires k < |MASK|
    ensures 1 <= MASK[k] <= SCALE && MASK[k] * SCALE <= 256
  {
  }

  // ------------------------------------------------------------- halftone

  /** The mask entry that decides pixel `(px, py)`: row and column of the
      pixel within its 4 by 4 block, except that the last row and the last
      column of the image take the last row and column of the mask, since
      `apply` clamps every later step of a cut-off block onto them. */
  function MaskIndex(width: nat, height: nat, px: nat, py: nat): (k: nat)
    ensures k < SIDE * SIDE
  {
    var i := if py + 1 == height then SIDE - 1 else py % SIDE;
    var j := if px + 1 == width then SIDE - 1 else px % SIDE;
    i * SIDE + j
  }

  /** The colour `halftone` gives pixel `(px, py)` of the original `orig`. */
  function Halftoned(orig: seq<Nrgba64Be>, width: nat, height: nat, luma: Nrgba64Be -> uint8, px: nat, py: nat)
    : Nrgba64Be
    requires |orig| == width * height && px < width && py < height
  {
    Tone(luma(At(orig, width, height, px, py)), MaskIndex(width, height, px, py))
  }

  function HalftoneCell(orig: seq<Nrgba64Be>, width: nat, height: nat, luma: Nrgba64Be -> uint8)
    : (nat, nat) --> Nrgba64Be
  {
    (px: nat, py: nat) requires |orig| == width * height && px < width && py < height =>
      Halftoned(orig, width, height, luma, px, py)
  }

  /** The image `halftone` returns for the original buffer `orig`. */
  function HalftoneImage(orig: seq<Nrgba64Be>, width: nat, height: nat, luma: Nrgba64Be -> uint8)
    : (t: seq<Nrgba64Be>)
    requires |orig| == width * height
    ensures |t| == |orig|
  {
    Tabulate(width, height, HalftoneCell(orig, width, height, luma))
  }

  /** Pixel `(px, py)` of the result is black or white, and white exactly when
      the pixel's luma plus 16 times its mask entry exceeds 255. */
  lemma HalftoneImageAt(orig: seq<Nrgba64Be>, width: nat, height: nat, luma: Nrgba64Be -> uint8, px: nat, py: nat)
    requires |orig| == width * height && px < width && py < height
    ensures At(HalftoneImage(orig, width, height, luma), width, height, px, py) in {BLACK, WHITE}
    ensures At(HalftoneImage(orig, width, height, luma), width, height, px, py) == WHITE
        <==> luma(At(orig, width, height, px, py)) + SCALE * MASK[MaskIndex(width, height, px, py)] > 255
  {
    TabulateAt(width, height, HalftoneCell(orig, width, height, luma), px, py);
  }

  /** The blocks `halftone` has applied the mask to before block `(x, y)`, in
      row-major order of blocks: every earlier block row, and the blocks to
      the left in the current one. */
  predicate Done(px: nat, py: nat, x: nat, y: nat)
  {
    py < y || (py < y + SIDE && px < x)
  }

  function ProgressCell(orig: seq<Nrgba64Be>, width: nat, height: nat, luma: Nrgba64Be -> uint8, x: nat, y: nat)
    : (nat, nat) --> Nrgba64Be
  {
    (px: nat, py: nat) requires |orig| == width * height && px < width && py < height =>
      var c: Nrgba64Be := if Done(px, py, x, y) then Halftoned(orig, width, height, luma, px, py) else ZERO;
      c
  }

  /** The new image when the loops of `halftone` reach block `(x, y)`: the
      pixels of the blocks done hold their final colour, the rest are zero. */
  function Progress(orig: seq<Nrgba64Be>, width: nat, height: nat, luma: Nrgba64Be -> uint8, x: nat, y: nat)
    : (t: seq<Nrgba64Be>)
    requires |orig| == width * height
    ensures |t| == |orig|
  {
    Tabulate(width, height, ProgressCell(orig, width, height, luma, x, y))
  }

  lemma ProgressAt(orig: seq<Nrgba64Be>, width: nat, height: nat, luma: Nrgba64Be -> uint8, x: nat, y: nat, px: nat, py: nat)
    requires |orig| == width * height && px < width && py < height
    ensures Offset(width, px, py) < |orig|
    ensures Progress(orig, width, height, luma, x, y)[Offset(width, px, py)]
         == if Done(px, py, x, y) then Halftoned(orig, width, height, luma, px, py) else ZERO
  {
    TabulateAt(width, height, ProgressCell(orig, width, height, luma, x, y), px, py);
  }

  lemma ResultAt(orig: seq<Nrgba64Be>, width: nat, height: nat, luma: Nrgba64Be -> uint8, px: nat, py: nat)
    requires |orig| == width * height && px < width && py < height
    ensures Offset(width, px, py) < |orig|
    ensures HalftoneImage(orig, width, height, luma)[Offset(width, px, py)] == Halftoned(orig, width, height, luma, px, py)
  {
    TabulateAt(width, height, HalftoneCell(orig, width, height, luma), px, py);
  }

  /** The target of step `k` of `apply`, as a pixel: the clamped row and column. */
  lemma WriteTarget(orig: seq<Nrgba64Be>, width: nat, height: nat, luma: Nrgba64Be -> uint8, x: nat, y: nat, k: nat)
    requires |orig| == width * height && x < width && y < height && k < SIDE * SIDE
    ensures BlockWrite(orig, width, height, luma, x, y, k).0 % width == Clamp(x + k % SIDE, width - 1)
    ensures BlockWrite(orig, width, height, luma, x, y, k).0 / width == Clamp(y + k / SIDE, height - 1)
    ensures x <= Clamp(x + k % SIDE, width - 1) < x + SIDE && y <= Clamp(y + k / SIDE, height - 1) < y + SIDE
  {
    RowColumn(Clamp(x + k % SIDE, width - 1), Clamp(y + k / SIDE, height - 1), width);
  }

  /** A pixel outside block `(x, y)` is not touched by `apply` there. */
  lemma ApplyMisses(orig: seq<Nrgba64Be>, width: nat, height: nat, luma: Nrgba64Be -> uint8, x: nat, y: nat, n: nat)
    requires |orig| == width * height && x < width && y < height && n < width * height
    requires !(x <= n % width < x + SIDE && y <= n / width < y + SIDE)
    ensures forall k :: 0 <= k < SIDE * SIDE ==> BlockWrites(orig, width, height, luma, x, y)[k].0 != n
  {
    forall k | 0 <= k < SIDE * SIDE
      ensures BlockWrites(orig, width, height, luma, x, y)[k].0 != n
    {
      WriteTarget(orig, width, height, luma, x, y, k);
    }
  }

  /** No step of `apply` after step `k` stores at pixel `(px, py)` when step
      `k` takes the pixel's last row and column: a later step has a later row,
      or the same row and a later column, and clamping sends it elsewhere. */
  lemma LaterStepMisses(orig: seq<Nrgba64Be>, width: nat, height: nat, luma: Nrgba64Be -> uint8, x: nat, y: nat,
                        px: nat, py: nat, k: nat, k': nat)
    requires |orig| == width * height && x < width && y < height
    requires x <= px < x + SIDE && y <= py < y + SIDE && px < width && py < height
    requires k < k' < SIDE * SIDE
    requires k / SIDE == (if py + 1 == height then SIDE - 1 else py - y)
    requires k % SIDE == (if px + 1 == width then SIDE - 1 else px - x)
    ensures BlockWrite(orig, width, height, luma, x, y, k').0 != Offset(width, px, py)
  {
    WriteTarget(orig, width, height, luma, x, y, k');
    RowColumn(px, py, width);
    var target := BlockWrite(orig, width, height, luma, x, y, k').0;
    DivModOf(k / SIDE, k % SIDE, SIDE);
    DivModOf(k' / SIDE, k' % SIDE, SIDE);
    if k' / SIDE > k / SIDE {
      assert target / width != py;
    } else {
      assert k' % SIDE > k % SIDE;
      assert target % width != px;
    }
  }

  /** Inside block `(x, y)`, `apply` leaves pixel `(px, py)` with its halftone
      colour: step `MaskIndex` stores it, and no later step touches it. */
  lemma ApplyHits(orig: seq<Nrgba64Be>, width: nat, height: nat, luma: Nrgba64Be -> uint8, x: nat, y: nat,
                  px: nat, py: nat, s: seq<Nrgba64Be>)
    requires |orig| == width * height && |s| == width * height && x < width && y < height
    requires x % SIDE == 0 && y % SIDE == 0
    requires x <= px < x + SIDE && y <= py < y + SIDE && px < width && py < height
    ensures Offset(width, px, py) < |s|
    ensures Stores(s, BlockWrites(orig, width, height, luma, x, y))[Offset(width, px, py)]
         == Halftoned(orig, width, height, luma, px, py)
  {
    IndexInGrid(px, py, width, height);
    var ws := BlockWrites(orig, width, height, luma, x, y);
    var i := if py + 1 == height then SIDE - 1 else py - y;
    var j := if px + 1 == width then SIDE - 1 else px - x;
    BlockOffsets(x, px);
    BlockOffsets(y, py);
    assert i * SIDE + j == MaskIndex(width, height, px, py);
    StepWrite(orig, width, height, luma, x, y, i, j, px, py);
    LaterStepsMiss(orig, width, height, luma, x, y, px, py, i, j);
    StoresLastWins(s, ws, Offset(width, px, py), i * SIDE + j);
  }

  /** No step after the one at mask row `i`, column `j` of pixel `(px, py)`
      stores at that pixel. */
  lemma LaterStepsMiss(orig: seq<Nrgba64Be>, width: nat, height: nat, luma: Nrgba64Be -> uint8, x: nat, y: nat,
                       px: nat, py: nat, i: nat, j: nat)
    requires |orig| == width * height && x < width && y < height
    requires x <= px < x + SIDE && y <= py < y + SIDE && px < width && py < height
    requires i == (if py + 1 == height then SIDE - 1 else py - y)
    requires j == (if px + 1 == width then SIDE - 1 else px - x)
    ensures forall k' | i * SIDE + j < k' < SIDE * SIDE ::
      BlockWrites(orig, width, height, luma, x, y)[k'].0 != Offset(width, px, py)
  {
    RowColumn(j, i, SIDE);
    forall k' | i * SIDE + j < k' < SIDE * SIDE
      ensures BlockWrites(orig, width, height, luma, x, y)[k'].0 != Offset(width, px, py)
    {
      LaterStepMisses(orig, width, height, luma, x, y, px, py, i * SIDE + j, k');
    }
  }

  /** Within a block starting at a multiple of 4, the offset from the start is
      the remainder by 4. */
  lemma BlockOffsets(x: nat, px: nat)
    requires x % SIDE == 0 && x <= px < x + SIDE
    ensures px % SIDE == px - x
  {
    DivModOf(x / SIDE, px - x, SIDE);
  }

  /** `apply` at block `(x, y)` finishes that block and touches nothing else. */
  lemma ApplyAdvances(orig: seq<Nrgba64Be>, width: nat, height: nat, luma: Nrgba64Be -> uint8, x: nat, y: nat)
    requires |orig| == width * height && x < width && y < height && x % SIDE == 0 && y % SIDE == 0
    ensures Stores(Progress(orig, width, height, luma, x, y), BlockWrites(orig, width, height, luma, x, y))
         == Progress(orig, width, height, luma, x + SIDE, y)
  {
    var before := Progress(orig, width, height, luma, x, y);
    var after := Stores(before, BlockWrites(orig, width, height, luma, x, y));
    forall n | 0 <= n < width * height
      ensures after[n] == Progress(orig, width, height, luma, x + SIDE, y)[n]
    {
      ApplyAdvancesAt(orig, width, height, luma, x, y, n);
    }
  }

  lemma ApplyAdvancesAt(orig: seq<Nrgba64Be>, width: nat, height: nat, luma: Nrgba64Be -> uint8, x: nat, y: nat, n: nat)
    requires |orig| == width * height && x < width && y < height && x % SIDE == 0 && y % SIDE == 0
    requires n < width * height
    ensures Stores(Progress(orig, width, height, luma, x, y), BlockWrites(orig, width, height, luma, x, y))[n]
         == Progress(orig, width, height, luma, x + SIDE, y)[n]
  {
    CellOfIndex(n, width, height);
    if x <= n % width < x + SIDE && y <= n / width < y + SIDE {
      BlockPixelAdvances(orig, width, height, luma, x, y, n % width, n / width);
    } else {
      OtherPixelStays(orig, width, height, luma, x, y, n);
    }
  }

  /** A pixel of block `(x, y)` goes from not done to its halftone colour. */
  lemma BlockPixelAdvances(orig: seq<Nrgba64Be>, width: nat, height: nat, luma: Nrgba64Be -> uint8, x: nat, y: nat,
                           px: nat, py: nat)
    requires |orig| == width * height && x < width && y < height && x % SIDE == 0 && y % SIDE == 0
    requires x <= px < x + SIDE && y <= py < y + SIDE && px < width && py < height
    ensures Offset(width, px, py) < width * height
    ensures Stores(Progress(orig, width, height, luma, x, y), BlockWrites(orig, width, height, luma, x, y))[Offset(width, px, py)]
         == Progress(orig, width, height, luma, x + SIDE, y)[Offset(width, px, py)]
  {
    TabulateAt(width, height, ProgressCell(orig, width, height, luma, x + SIDE, y), px, py);
    assert Done(px, py, x + SIDE, y);
    ApplyHits(orig, width, height, luma, x, y, px, py, Progress(orig, width, height, luma, x, y));
  }

  /** A pixel outside block `(x, y)` keeps its colour and its state. */
  lemma OtherPixelStays(orig: seq<Nrgba64Be>, width: nat, height: nat, luma: Nrgba64Be -> uint8, x: nat, y: nat, n: nat)
    requires |orig| == width * height && x < width && y < height
    requires n < width * height
    requires !(x <= n % width < x + SIDE && y <= n / width < y + SIDE)
    ensures Stores(Progress(orig, width, height, luma, x, y), BlockWrites(orig, width, height, luma, x, y))[n]
         == Progress(orig, width, height, luma, x + SIDE, y)[n]
  {
    var px, py := n % width, n / width;
    CellOfIndex(n, width, height);
    assert Offset(width, px, py) == n;
    ProgressAt(orig, width, height, luma, x, y, px, py);
    ProgressAt(orig, width, height, luma, x + SIDE, y, px, py);
    assert Done(px, py, x, y) == Done(px, py, x + SIDE, y);
    ApplyMisses(orig, width, height, luma, x, y, n);
    StoresMiss(Progress(orig, width, height, luma, x, y), BlockWrites(orig, width, height, luma, x, y), n);
  }

  /** Two stages of the loops that have done the same pixels are the same image. */
  lemma SameProgress(orig: seq<Nrgba64Be>, width: nat, height: nat, luma: Nrgba64Be -> uint8,
                     x: nat, y: nat, x': nat, y': nat)
    requires |orig| == width * height
    requires forall px: nat, py: nat :: px < width && py < height ==> Done(px, py, x, y) == Done(px, py, x', y')
    ensures Progress(orig, width, height, luma, x, y) == Progress(orig, width, height, luma, x', y')
  {
    forall n | 0 <= n < width * height
      ensures Progress(orig, width, height, luma, x, y)[n] == Progress(orig, width, height, luma, x', y')[n]
    {
      CellOfIndex(n, width, height);
      ProgressAt(orig, width, height, luma, x, y, n % width, n / width);
      ProgressAt(orig, width, height, luma, x', y', n % width, n / width);
    }
  }

  /** Before the first block nothing is done: the zeroed new image. */
  lemma NothingDone(orig: seq<Nrgba64Be>, width: nat, height: nat, luma: Nrgba64Be -> uint8, t: seq<Nrgba64Be>)
    requires |orig| == width * height && |t| == width * height
    requires forall n :: 0 <= n < |t| ==> t[n] == ZERO
    ensures t == Progress(orig, width, height, luma, 0, 0)
  {
    forall n | 0 <= n < width * height
      ensures t[n] == Progress(orig, width, height, luma, 0, 0)[n]
    {
      CellOfIndex(n, width, height);
      ProgressAt(orig, width, height, luma, 0, 0, n % width, n / width);
      NoBlockDone(n % width, n / width);
    }
  }

  lemma NoBlockDone(px: nat, py: nat)
    ensures !Done(px, py, 0, 0)
  {
  }

  /** Once every block row is done, the image is the result. */
  lemma AllDone(orig: seq<Nrgba64Be>, width: nat, height: nat, luma: Nrgba64Be -> uint8, y: nat)
    requires |orig| == width * height && y >= height
    ensures Progress(orig, width, height, luma, 0, y) == HalftoneImage(orig, width, height, luma)
  {
    forall n | 0 <= n < width * height
      ensures Progress(orig, width, height, luma, 0, y)[n] == HalftoneImage(orig, width, height, luma)[n]
    {
      CellOfIndex(n, width, height);
      ProgressAt(orig, width, height, luma, 0, y, n % width, n / width);
      ResultAt(orig, width, height, luma, n % width, n / width);
    }
  }

  /** `halftone` for a given luma: a zeroed image of the same size, to which
      the mask is applied block by block, rows of blocks top to bottom. */
  method HalftoneBy(orig: RawPixBuf<Nrgba64Be>, luma: Nrgba64Be -> uint8) returns (img: RawPixBuf<Nrgba64Be>)
    requires orig.Valid()
    ensures fresh(img) && fresh(img.buf) && img.Valid()
    ensures img.width == orig.width && img.height == orig.height
    ensures img.buf[..] == HalftoneImage(orig.buf[..], orig.width, orig.height, luma)
  {
    var zero: Nrgba64Be := Nrgba64(0, 0, 0, 0, BigEndian);
    img := new RawPixBuf<Nrgba64Be>(orig.width, orig.height, zero);
    ghost var s := orig.buf[..];
    NothingDone(s, orig.width, orig.height, luma, img.buf[..]);
    var y := 0;
    while y < orig.height
      invariant y % SIDE == 0
      invariant img.buf[..] == Progress(s, orig.width, orig.height, luma, 0, y)
    {
      HalftoneRow(orig, img, luma, y);
      Aligned(y);
      y := y + SIDE;
    }
    AllDone(s, orig.width, orig.height, luma, y);
  }

  /** One pass of the outer loop of `halftone`: the blocks of the band of
      rows from `y`, left to right. */
  method HalftoneRow(orig: RawPixBuf<Nrgba64Be>, img: RawPixBuf<Nrgba64Be>, luma: Nrgba64Be -> uint8, y: nat)
    requires orig.Valid() && img.Valid() && orig.buf != img.buf
    requires orig.width == img.width && orig.height == img.height
    requires y < orig.height && y % SIDE == 0
    requires img.buf[..] == Progress(orig.buf[..], orig.width, orig.height, luma, 0, y)
    modifies img.buf
    ensures img.buf[..] == Progress(orig.buf[..], orig.width, orig.height, luma, 0, y + SIDE)
  {
    ghost var s := orig.buf[..];
    var x := 0;
    while x < orig.width
      invariant x % SIDE == 0
      invariant img.buf[..] == Progress(s, orig.width, orig.height, luma, x, y)
    {
      Apply(orig, img, luma, x, y);
      ApplyAdvances(s, orig.width, orig.height, luma, x, y);
      Aligned(x);
      x := x + SIDE;
    }
    RowDone(s, orig.width, orig.height, luma, x, y);
  }

  /** Stepping by a block keeps a coordinate on the block grid. */
  lemma Aligned(v: nat)
    requires v % SIDE == 0
    ensures (v + SIDE) % SIDE == 0
  {
  }

  /** Past the last column of a band, the band is done and the next has not
      begun. */
  lemma RowDone(orig: seq<Nrgba64Be>, width: nat, height: nat, luma: Nrgba64Be -> uint8, x: nat, y: nat)
    requires |orig| == width * height && x >= width
    ensures Progress(orig, width, height, luma, x, y) == Progress(orig, width, height, luma, 0, y + SIDE)
  {
    SameProgress(orig, width, height, luma, x, y, 0, y + SIDE);
  }

  /** `halftone` on a farbfeld image, with the luma of `convert_into::<Gray>`. */
  method HalftoneImageOf(orig: RawPixBuf<Nrgba64Be>) returns (img: RawPixBuf<Nrgba64Be>)
    requires orig.Valid()
    ensures fresh(img) && fresh(img.buf) && img.Valid()
    ensures img.width == orig.width && img.height == orig.height
    ensures img.buf[..] == HalftoneImage(orig.buf[..], orig.width, orig.height, c => ColorGray.Luma(c))
  {
    img := HalftoneBy(orig, c => ColorGray.Luma(c));
  }
}
