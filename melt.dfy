/** The melt driver (drivers/melt/src/main.rs): random columns of a farbfeld
    image are "melted" by bubbling a pixel down its column for as long as it
    is not brighter, in the `u64` packing, than the pixel below it.

    The random numbers come from the xoshiro256** stream of `Prng.State`
    seeded by the clock; here they are the parameter `values`, the numbers
    the stream yields (a `u64` read as a `usize` keeps its value on a 64-bit
    host). */
module Melt {
  import opened Ints
  import opened Results
  import opened PixBuf
  import opened ColorNrgba64

  // ------------------------------------------------------------ NextTwo

  /** The pairs `NextTwo` yields from `values`, at most `n` of them:
      `(values[0], values[1])`, `(values[2], values[3])`, ... */
  function Pairs<T>(values: seq<T>, n: nat): (ps: seq<(T, T)>)
    ensures |ps| == if n <= |values| / 2 then n else |values| / 2
    ensures forall i :: 0 <= i < |ps| ==> ps[i] == (values[2 * i], values[2 * i + 1])
  {
    var m := if n <= |values| / 2 then n else |values| / 2;
    seq(m, i requires 0 <= i < m => (values[2 * i], values[2 * i + 1]))
  }

  /** With at least `2 * n` values, `take(n)` of the pairs yields exactly `n`
      of them, and asking for fewer yields a prefix. */
  lemma PairsPrefix<T>(values: seq<T>, n: nat, m: nat)
    requires m <= n
    ensures 2 * n <= |values| ==> |Pairs(values, n)| == n
    ensures Pairs(values, m) == Pairs(values, n)[..|Pairs(values, m)|]
  {
  }

  /** `NextTwo`: pairs up consecutive items of an iterator over `values`. */
  class NextTwo<T> {
    const values: seq<T>
    var pos: nat

    predicate Valid()
      reads this
    {
      pos <= |values|
    }

    constructor (values: seq<T>)
      ensures Valid() && this.values == values && pos == 0
    {
      this.values := values;
      pos := 0;
    }

    /** `next`: two items, or `None` as soon as either is missing (the first
        one is consumed even when the second is missing). */
    method Next() returns (r: Option<(T, T)>)
      requires Valid()
      modifies this
      ensures Valid()
      ensures old(pos) + 2 <= |values| ==>
        r == Some((values[old(pos)], values[old(pos) + 1])) && pos == old(pos) + 2
      ensures old(pos) + 2 > |values| ==> r == None && pos == |values|
    {
      if pos == |values| {
        return None;
      }
      var x := values[pos];
      pos := pos + 1;
      if pos == |values| {
        return None;
      }
      var y := values[pos];
      pos := pos + 1;
      r := Some((x, y));
    }
  }

  // ---------------------------------------------------- columns and bubbling

  /** Column `x` of a row-major buffer, top to bottom. */
  function Column<T>(s: seq<T>, w: nat, h: nat, x: nat): (c: seq<T>)
    requires |s| == w * h && x < w
    ensures |c| == h
  {
    seq(h, j requires 0 <= j < h => IndexInGrid(x, j, w, h); s[Offset(w, x, j)])
  }

  /** Distinct pixels of the grid have distinct offsets. */
  lemma OffsetInjective(w: nat, x: nat, y: nat, x': nat, y': nat)
    requires x < w && x' < w && Offset(w, x, y) == Offset(w, x', y')
    ensures x == x' && y == y'
  {
    RowColumn(x, y, w);
    RowColumn(x', y', w);
  }

  /** Swapping rows `y` and `y + 1` of a column `c`. */
  function SwapRows<T>(c: seq<T>, y: nat): (d: seq<T>)
    requires y + 1 < |c|
    ensures |d| == |c| && multiset(d) == multiset(c)
    ensures d[y] == c[y + 1] && d[y + 1] == c[y]
    ensures forall j :: 0 <= j < |c| && j != y && j != y + 1 ==> d[j] == c[j]
  {
    c[y := c[y + 1]][y + 1 := c[y]]
  }

  /** The two `pixel_set` calls of one melt step: the pixels at `(x, y)` and
      `(x, y + 1)` trade places. */
  function SwapDown<T>(s: seq<T>, w: nat, h: nat, x: nat, y: nat): (r: seq<T>)
    requires |s| == w * h && x < w && y + 1 < h
    ensures |r| == |s|
  {
    IndexInGrid(x, y + 1, w, h);
    s[Offset(w, x, y) := s[Offset(w, x, y + 1)]][Offset(w, x, y + 1) := s[Offset(w, x, y)]]
  }

  /** What a swap in column `x` leaves at the pixel `(x', j)`. */
  lemma SwapDownAt<T>(s: seq<T>, w: nat, h: nat, x: nat, y: nat, x': nat, j: nat)
    requires |s| == w * h && x < w && y + 1 < h && x' < w && j < h
    requires Offset(w, x', j) < |s| && Offset(w, x, y + 1) < |s|
    ensures SwapDown(s, w, h, x, y)[Offset(w, x', j)]
         == if x' == x && j == y then s[Offset(w, x, y + 1)]
            else if x' == x && j == y + 1 then s[Offset(w, x, y)]
            else s[Offset(w, x', j)]
  {
    IndexInGrid(x', j, w, h);
    IndexInGrid(x, y + 1, w, h);
    if Offset(w, x', j) == Offset(w, x, y) { OffsetInjective(w, x', j, x, y); }
    if Offset(w, x', j) == Offset(w, x, y + 1) { OffsetInjective(w, x', j, x, y + 1); }
  }

  /** A swap in column `x` swaps two rows of that column ... */
  lemma SwapDownColumn<T>(s: seq<T>, w: nat, h: nat, x: nat, y: nat)
    requires |s| == w * h && x < w && y + 1 < h
    ensures Column(SwapDown(s, w, h, x, y), w, h, x) == SwapRows(Column(s, w, h, x), y)
  {
    var r := SwapDown(s, w, h, x, y);
    forall j | 0 <= j < h
      ensures Column(r, w, h, x)[j] == SwapRows(Column(s, w, h, x), y)[j]
    {
      IndexInGrid(x, j, w, h);
      IndexInGrid(x, y + 1, w, h);
      SwapDownAt(s, w, h, x, y, x, j);
    }
  }

  /** ... and leaves every other column alone. */
  lemma SwapDownOtherColumn<T>(s: seq<T>, w: nat, h: nat, x: nat, y: nat, x': nat)
    requires |s| == w * h && x < w && y + 1 < h && x' < w && x' != x
    ensures Column(SwapDown(s, w, h, x, y), w, h, x') == Column(s, w, h, x')
  {
    var r := SwapDown(s, w, h, x, y);
    forall j | 0 <= j < h ensures Column(r, w, h, x')[j] == Column(s, w, h, x')[j] {
      IndexInGrid(x', j, w, h);
      IndexInGrid(x, y + 1, w, h);
      SwapDownAt(s, w, h, x, y, x', j);
    }
  }

  /** The inner loop of `melt` on one column: from row `y` on, the pixel swaps
      with the one below while its key is not greater; it stops at the last row
      or at the first pixel below with a smaller key. */
  function ColumnBubble<T>(c: seq<T>, key: T -> int, y: nat): (d: seq<T>)
    requires y < |c|
    ensures |d| == |c|
    decreases |c| - y
  {
    if y + 1 >= |c| || key(c[y]) > key(c[y + 1]) then c
    else ColumnBubble(SwapRows(c, y), key, y + 1)
  }

  /** The inner loop of `melt` on the whole buffer, column `x` from row `y`. */
  function Bubble<T>(s: seq<T>, key: T -> int, w: nat, h: nat, x: nat, y: nat): (r: seq<T>)
    requires |s| == w * h && x < w && y < h
    ensures |r| == |s|
    decreases h - y
  {
    if y + 1 >= h then s
    else
      IndexInGrid(x, y + 1, w, h);
      if key(s[Offset(w, x, y)]) > key(s[Offset(w, x, y + 1)]) then s
      else Bubble(SwapDown(s, w, h, x, y), key, w, h, x, y + 1)
  }

  /** Bubbling in the buffer bubbles column `x` and no other column. */
  lemma {:induction false} BubbleColumns<T>(s: seq<T>, key: T -> int, w: nat, h: nat, x: nat, y: nat)
    requires |s| == w * h && x < w && y < h
    ensures Column(Bubble(s, key, w, h, x, y), w, h, x) == ColumnBubble(Column(s, w, h, x), key, y)
    ensures forall x' :: 0 <= x' < w && x' != x ==>
      Column(Bubble(s, key, w, h, x, y), w, h, x') == Column(s, w, h, x')
    decreases h - y
  {
    if y + 1 < h {
      IndexInGrid(x, y + 1, w, h);
      var c := Column(s, w, h, x);
      assert c[y] == s[Offset(w, x, y)] && c[y + 1] == s[Offset(w, x, y + 1)];
      if key(c[y]) <= key(c[y + 1]) {
        var s' := SwapDown(s, w, h, x, y);
        SwapDownColumn(s, w, h, x, y);
        BubbleColumns(s', key, w, h, x, y + 1);
        forall x' | 0 <= x' < w && x' != x
          ensures Column(Bubble(s, key, w, h, x, y), w, h, x') == Column(s, w, h, x')
        {
          SwapDownOtherColumn(s, w, h, x, y, x');
        }
      }
    }
  }

  /** Bubbling keeps the pixels of the column, only reordered. */
  lemma {:induction false} ColumnBubblePerm<T>(c: seq<T>, key: T -> int, y: nat)
    requires y < |c|
    ensures multiset(ColumnBubble(c, key, y)) == multiset(c)
    decreases |c| - y
  {
    if y + 1 < |c| && key(c[y]) <= key(c[y + 1]) {
      ColumnBubblePerm(SwapRows(c, y), key, y + 1);
    }
  }

  /** The row where a pixel `p` coming down from row `y` comes to rest: the
      first row with nothing below it or with a smaller key below it. */
  function RestRow<T>(c: seq<T>, key: T -> int, p: T, y: nat): (k: nat)
    requires y < |c|
    ensures y <= k < |c|
    ensures forall j :: y < j <= k ==> key(p) <= key(c[j])
    ensures k + 1 < |c| ==> key(p) > key(c[k + 1])
    decreases |c| - y
  {
    if y + 1 >= |c| || key(p) > key(c[y + 1]) then y else RestRow(c, key, p, y + 1)
  }

  /** `RestRow` only looks below row `y`. */
  lemma {:induction false} RestRowBelow<T>(c: seq<T>, d: seq<T>, key: T -> int, p: T, y: nat)
    requires y < |c| == |d| && forall j :: y < j < |c| ==> c[j] == d[j]
    ensures RestRow(c, key, p, y) == RestRow(d, key, p, y)
    decreases |c| - y
  {
    if y + 1 < |c| && key(p) <= key(c[y + 1]) {
      RestRowBelow(c, d, key, p, y + 1);
    }
  }

  /** Column `c` with the pixel at row `y` moved down to row `k` and the
      pixels of rows `y + 1 .. k` moved up one row. */
  function MovedDown<T>(c: seq<T>, y: nat, k: nat): (d: seq<T>)
    requires y <= k < |c|
  {
    c[..y] + c[y + 1..k + 1] + [c[y]] + c[k + 1..]
  }

  /** The shape `MovedDown` is kept by the swap of the first step. */
  lemma MovedDownAfterSwap<T>(c: seq<T>, y: nat, k: nat)
    requires y + 1 <= k < |c|
    ensures MovedDown(SwapRows(c, y), y + 1, k) == MovedDown(c, y, k)
  {
    var c' := SwapRows(c, y);
    var lhs := c'[..y + 1] + c'[y + 2..k + 1] + [c'[y + 1]] + c'[k + 1..];
    var rhs := c[..y] + c[y + 1..k + 1] + [c[y]] + c[k + 1..];
    assert |lhs| == |rhs|;
    forall i | 0 <= i < |lhs| ensures lhs[i] == rhs[i] {
      if i < y {
      } else if i == y {
        assert rhs[i] == c[y + 1];
      } else if i < k {
        assert lhs[i] == c'[i + 1] && rhs[i] == c[i + 1];
      } else if i == k {
        assert lhs[i] == c'[y + 1] && rhs[i] == c[y];
      }
    }
  }

  /** What bubbling does to a column: the pixel at row `y` moves down to its
      rest row and the pixels in between move up one row. */
  lemma {:induction false} ColumnBubbleShifts<T>(c: seq<T>, key: T -> int, y: nat)
    requires y < |c|
    ensures ColumnBubble(c, key, y) == MovedDown(c, y, RestRow(c, key, c[y], y))
    decreases |c| - y
  {
    var k := RestRow(c, key, c[y], y);
    if y + 1 < |c| && key(c[y]) <= key(c[y + 1]) {
      var c' := SwapRows(c, y);
      RestRowBelow(c', c, key, c[y], y + 1);
      ColumnBubbleShifts(c', key, y + 1);
      MovedDownAfterSwap(c, y, k);
    } else {
      assert c[..y] + c[y + 1..y + 1] + [c[y]] + c[y + 1..] == c;
    }
  }

  // ---------------------------------------------------------------- melt

  /** `u64::from` of the pixel, the key the inner loop compares, in the
      closed form it has for a big-endian colour on the little-endian host:
      the logical channels packed as `a | b << 16 | g << 32 | r << 48`. */
  function Key(c: Nrgba64Be): int
  {
    Pack(A(c), B(c), G(c), R(c))
  }

  lemma KeyIsU64(c: Nrgba64Be)
    ensures Key(c) == ToU64(c)
  {
    BigEndianU64Layout(c);
  }

  /** One pass of the outer loop for the pair `(r0, r1)`: column `r0 % width`,
      from row `r1 % (height - 1)`. */
  function MeltPair<T>(s: seq<T>, key: T -> int, w: nat, h: nat, pair: (nat, nat)): (r: seq<T>)
    requires |s| == w * h && w > 0 && h >= 2
    ensures |r| == |s|
  {
    Bubble(s, key, w, h, pair.0 % w, pair.1 % (h - 1))
  }

  /** The buffer after the outer loop has run over `pairs`, in order. */
  function MeltPairs<T>(s: seq<T>, key: T -> int, w: nat, h: nat, pairs: seq<(nat, nat)>): (r: seq<T>)
    requires |s| == w * h && (|pairs| > 0 ==> w > 0 && h >= 2)
    ensures |r| == |s|
  {
    if |pairs| == 0 then s
    else MeltPair(MeltPairs(s, key, w, h, pairs[..|pairs| - 1]), key, w, h, pairs[|pairs| - 1])
  }

  /** The buffer after the outer loop has taken `n` pairs straight from the
      random stream. */
  function MeltStream<T>(s: seq<T>, key: T -> int, w: nat, h: nat, values: seq<nat>, n: nat): (r: seq<T>)
    requires |s| == w * h && (n > 0 ==> w > 0 && h >= 2) && 2 * n <= |values|
    ensures |r| == |s|
  {
    if n == 0 then s
    else MeltPair(MeltStream(s, key, w, h, values, n - 1), key, w, h, (values[2 * (n - 1)], values[2 * (n - 1) + 1]))
  }

  /** With at least `2 * n` values, `take(n)` of the pairs is `take(n - 1)`
      followed by the `n`-th pair. */
  lemma PairsSnoc<T>(values: seq<T>, n: nat)
    requires 0 < n && 2 * n <= |values|
    ensures |Pairs(values, n)| == n
    ensures Pairs(values, n)[..n - 1] == Pairs(values, n - 1)
    ensures Pairs(values, n)[n - 1] == (values[2 * (n - 1)], values[2 * (n - 1) + 1])
  {
    PairsPrefix(values, n, n - 1);
  }

  /** Taking the pairs straight from the stream melts as taking them from `Pairs`. */
  lemma {:induction false} MeltStreamPairs<T>(s: seq<T>, key: T -> int, w: nat, h: nat, values: seq<nat>, n: nat)
    requires |s| == w * h && (n > 0 ==> w > 0 && h >= 2) && 2 * n <= |values|
    ensures MeltStream(s, key, w, h, values, n) == MeltPairs(s, key, w, h, Pairs(values, n))
  {
    if n > 0 {
      MeltStreamPairs(s, key, w, h, values, n - 1);
      PairsSnoc(values, n);
    }
  }

  /** One more pair from the stream is one more bubbling pass. */
  lemma MeltStreamNext<T>(s: seq<T>, key: T -> int, w: nat, h: nat, values: seq<nat>, n: nat)
    requires |s| == w * h && w > 0 && h >= 2 && 2 * n + 2 <= |values|
    ensures MeltStream(s, key, w, h, values, n + 1)
         == Bubble(MeltStream(s, key, w, h, values, n), key, w, h, values[2 * n] % w, values[2 * n + 1] % (h - 1))
  {
  }

  /** Once `take(n)` or the stream is exhausted, the pairs taken so far are
      all the pairs `take(n)` yields. */
  lemma MeltStreamTake<T>(s: seq<T>, key: T -> int, w: nat, h: nat, values: seq<nat>, taken: nat, n: nat)
    requires |s| == w * h && (taken > 0 ==> w > 0 && h >= 2) && 2 * taken <= |values|
    requires taken <= n && (taken == n || |values| < 2 * taken + 2)
    ensures MeltStream(s, key, w, h, values, taken) == MeltPairs(s, key, w, h, Pairs(values, n))
  {
    MeltStreamPairs(s, key, w, h, values, taken);
    PairsPrefix(values, n, taken);
  }

  /** Melting keeps every column's pixels, only reordered within the column. */
  lemma {:induction false} MeltKeepsColumns<T>(s: seq<T>, key: T -> int, w: nat, h: nat, pairs: seq<(nat, nat)>, x: nat)
    requires |s| == w * h && (|pairs| > 0 ==> w > 0 && h >= 2) && x < w
    ensures multiset(Column(MeltPairs(s, key, w, h, pairs), w, h, x)) == multiset(Column(s, w, h, x))
  {
    if |pairs| > 0 {
      var prev := MeltPairs(s, key, w, h, pairs[..|pairs| - 1]);
      MeltKeepsColumns(s, key, w, h, pairs[..|pairs| - 1], x);
      var pair := pairs[|pairs| - 1];
      var cx := pair.0 % w;
      BubbleColumns(prev, key, w, h, cx, pair.1 % (h - 1));
      if x == cx {
        ColumnBubblePerm(Column(prev, w, h, x), key, pair.1 % (h - 1));
      }
    }
  }

  /** One turn of the inner loop: a pixel whose key is not greater than the
      one below it swaps with it and bubbling goes on from the next row. */
  lemma BubbleSwaps<T>(s: seq<T>, key: T -> int, w: nat, h: nat, x: nat, y: nat)
    requires |s| == w * h && x < w && y + 1 < h
    requires Offset(w, x, y + 1) < |s| && key(s[Offset(w, x, y)]) <= key(s[Offset(w, x, y + 1)])
    ensures Bubble(s, key, w, h, x, y) == Bubble(SwapDown(s, w, h, x, y), key, w, h, x, y + 1)
  {
  }

  /** The inner loop's `break`: a pixel whose key is greater than the one
      below it stays where it is. */
  lemma BubbleRests<T>(s: seq<T>, key: T -> int, w: nat, h: nat, x: nat, y: nat)
    requires |s| == w * h && x < w && y < h
    requires y + 1 < h ==> Offset(w, x, y + 1) < |s| && key(s[Offset(w, x, y)]) > key(s[Offset(w, x, y + 1)])
    ensures Bubble(s, key, w, h, x, y) == s
  {
  }

  /** The inner loop of `melt` (`for y in y0..height_1`): swaps the pixel at
      `(x, y)` with the one below it until its key is the greater one; `melt`
      passes `u64::from` as `key`. */
  method BubbleDown<T>(im: RawPixBuf<T>, key: T -> int, x: nat, y0: nat)
    requires im.Valid() && x < im.width && y0 + 1 < im.height
    modifies im.buf
    ensures im.buf[..] == Bubble(old(im.buf[..]), key, im.width, im.height, x, y0)
  {
    var width, height1 := im.width, im.height - 1;
    ghost var before := im.buf[..];
    var y := y0;
    while y < height1
      invariant y0 <= y <= height1
      invariant Bubble(im.buf[..], key, width, im.height, x, y)
             == Bubble(before, key, width, im.height, x, y0)
      decreases height1 - y
    {
      IndexInGrid(x, y, width, im.height);
      IndexInGrid(x, y + 1, width, im.height);
      var fst := im.ColorGet(x, y);
      var snd := im.ColorGet(x, y + 1);
      if key(fst) > key(snd) {
        BubbleRests(im.buf[..], key, width, im.height, x, y);
        break;
      }
      BubbleSwaps(im.buf[..], key, width, im.height, x, y);
      im.PixelSet(x, y, snd);
      im.PixelSet(x, y + 1, fst);
      y := y + 1;
    }
    BubbleRests(im.buf[..], key, width, im.height, x, y);
  }

  /** Why `melt` panics: `% (height - 1)` divides by zero. (A `height` of 0
      makes `height - 1` wrap to `usize::MAX`, as in a release build; the loop
      then takes no pairs.) */
  datatype Panic = DivideByZero

  /** The outer loop of `melt` for any ordering `key` of the pixels: `values`
      are the numbers of the random stream, and `take(width * height)` stops
      the loop after that many pairs. */
  method MeltBy<T>(im: RawPixBuf<T>, key: T -> int, values: seq<nat>) returns (r: Result<(), Panic>)
    requires im.Valid()
    modifies im.buf
    ensures r == Err(DivideByZero) <==> im.height == 1 && im.width > 0 && |values| >= 2
    ensures r.Err? ==> im.buf[..] == old(im.buf[..])
    ensures r.Ok? ==>
      im.buf[..] == MeltPairs(old(im.buf[..]), key, im.width, im.height, Pairs(values, im.width * im.height))
  {
    var width := im.width;
    var height := im.height;
    var height1 := if height == 0 then USIZE_MAX else height - 1;
    if height == 0 {
      NoRows(width, height);
    }
    ghost var orig := im.buf[..];
    var randomPairs := new NextTwo(values);
    var total := width * height;
    var taken := 0;
    while taken < total
      invariant randomPairs.Valid() && randomPairs.values == values
      invariant taken <= total && randomPairs.pos == 2 * taken
      invariant taken > 0 ==> width > 0 && height >= 2
      invariant 2 * taken <= |values|
      invariant im.buf[..] == MeltStream(orig, key, width, height, values, taken)
      decreases total - taken
    {
      var next := randomPairs.Next();
      if next.None? {
        break;
      }
      var (r0, r1) := next.value;
      assert width > 0;
      var x := r0 % width;
      if height1 == 0 {
        assert taken == 0 && |values| >= 2;
        return Err(DivideByZero);
      }
      var y0 := r1 % height1;
      assert x == values[2 * taken] % width && y0 == values[2 * taken + 1] % (height - 1);
      MeltStreamNext(orig, key, width, height, values, taken);
      BubbleDown(im, key, x, y0);
      taken := taken + 1;
    }
    MeltStreamTake(orig, key, width, height, values, taken, total);
    assert height == 1 ==> width == 0 || |values| < 2;
    r := Ok(());
  }

  /** `melt`, on the image in place: the outer loop ordering pixels by
      `u64::from`. */
  method Melt(im: RawPixBuf<Nrgba64Be>, values: seq<nat>) returns (r: Result<(), Panic>)
    requires im.Valid()
    modifies im.buf
    ensures r == Err(DivideByZero) <==> im.height == 1 && im.width > 0 && |values| >= 2
    ensures r.Err? ==> im.buf[..] == old(im.buf[..])
    ensures r.Ok? ==>
      im.buf[..] == MeltPairs(old(im.buf[..]), Key, im.width, im.height, Pairs(values, im.width * im.height))
  {
    r := MeltBy(im, Key, values);
  }
}
