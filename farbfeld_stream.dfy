/** The farbfeld pixel-stream encoder (crate/src/image/farbfeld/stream/mod.rs):
    pixels arrive one by one in any order, wait in a max-heap keyed by their
    coordinates, and are written as 8-byte records behind the 16-byte header
    whenever a `window` cursor says so. */
module FarbfeldStream {
  import opened Ints
  import opened Results
  import opened Io
  import opened Color
  import opened ColorNrgba64
  import opened PixBuf
  import Farbfeld

  /** A pixel message: coordinates truncated to `u32` and a big-endian colour. */
  datatype Pixel = Pixel(x: uint32, y: uint32, color: Nrgba64Be)

  /** `Pixel::bind`: `x as u32`, `y as u32`, no bounds or duplicate check. */
  function Bind(x: nat, y: nat, color: Nrgba64Be): (p: Pixel)
    ensures p.x == x % 0x1_0000_0000 && p.y == y % 0x1_0000_0000 && p.color == color
  {
    Pixel(TruncateU32(x), TruncateU32(y), color)
  }

  /** `Pixel::coords`: `x` in the high 32 bits, `y` in the low 32 bits. */
  function Coords(p: Pixel): (c: uint64)
  {
    p.x * 0x1_0000_0000 + p.y
  }

  /** Coordinates order pixels by `x` first, then by `y`, and tell apart any
      two pixels at different positions. */
  lemma {:induction false} CoordsOrder(p: Pixel, q: Pixel)
    ensures Coords(p) < Coords(q) <==> p.x < q.x || (p.x == q.x && p.y < q.y)
    ensures Coords(p) == Coords(q) <==> p.x == q.x && p.y == q.y
  {
    if p.x < q.x {
      MulMono(p.x + 1, q.x, 0x1_0000_0000);
    } else if q.x < p.x {
      MulMono(q.x + 1, p.x, 0x1_0000_0000);
    }
  }

  datatype Ordering = Less | Equal | Greater

  function Compare(a: int, b: int): Ordering
  {
    if a < b then Less else if a == b then Equal else Greater
  }

  /** Lexicographic comparison of two pairs, as Rust's tuple `cmp`. */
  function ComparePairs(a0: int, a1: int, b0: int, b1: int): Ordering
  {
    if a0 != b0 then Compare(a0, b0) else Compare(a1, b1)
  }

  /** `PartialOrd::partial_cmp`: the order of the coordinates.  `BinaryHeap`
      compares with `<=`, so this is the order the heap uses. */
  function PartialCmp(p: Pixel, q: Pixel): Ordering
  {
    Compare(Coords(p), Coords(q))
  }

  /** `Ord::cmp` as written (line 31): the right-hand pair is `(other.x, other.x)`. */
  function CmpAsWritten(p: Pixel, q: Pixel): Ordering
  {
    ComparePairs(p.x, p.y, q.x, q.x)
  }

  /** Two pixels at different positions that `cmp` as written calls equal, and
      that `partial_cmp` orders. */
  lemma CmpAsWrittenDisagrees(c: Nrgba64Be)
    ensures var p, q := Pixel(0, 0, c), Pixel(0, 1, c);
      CmpAsWritten(p, q) == Equal && PartialCmp(p, q) == Less && (p.x, p.y) != (q.x, q.y)
  {
  }

  /** `Ord::cmp` comparing `(self.x, self.y)` with `(other.x, other.y)`. */
  function Cmp(p: Pixel, q: Pixel): Ordering
  {
    ComparePairs(p.x, p.y, q.x, q.y)
  }

  /** The corrected `cmp` agrees with `partial_cmp` on every pair of pixels,
      and says `Equal` exactly when `eq` holds. */
  lemma CmpAgreesWithPartialCmp(p: Pixel, q: Pixel)
    ensures Cmp(p, q) == PartialCmp(p, q)
    ensures Cmp(p, q) == Equal <==> (p.x, p.y) == (q.x, q.y)
  {
    CoordsOrder(p, q);
  }

  /** The colours of a sequence of pixels, in order. */
  function Colors(s: seq<Pixel>): (cs: seq<Nrgba64Be>)
    ensures |cs| == |s| && forall i :: 0 <= i < |s| ==> cs[i] == s[i].color
  {
    seq(|s|, i requires 0 <= i < |s| => s[i].color)
  }

  /** The 8-byte records of the pixels, in order. */
  function Records(s: seq<Pixel>): seq<uint8>
  {
    if |s| == 0 then [] else Records(s[..|s| - 1]) + Farbfeld.Record(s[|s| - 1].color)
  }

  /** Everything the stream encoder writes when the pixels go out in the order
      `emitted`. */
  function StreamOut(width: uint32, height: uint32, emitted: seq<Pixel>): seq<uint8>
  {
    Farbfeld.Header(width, height) + Records(emitted)
  }

  /** The records of the pixels are the farbfeld body of their colours. */
  lemma {:induction false} RecordsAreBody(s: seq<Pixel>)
    ensures Records(s) == Farbfeld.Body(Colors(s))
  {
    if |s| > 0 {
      RecordsAreBody(s[..|s| - 1]);
      assert Colors(s)[..|s| - 1] == Colors(s[..|s| - 1]);
    }
  }

  /** The stream output is the farbfeld file of the emitted colours. */
  lemma StreamOutEncoded(width: uint32, height: uint32, emitted: seq<Pixel>)
    ensures StreamOut(width, height, emitted) == Farbfeld.Encoded(width, height, Colors(emitted))
  {
    RecordsAreBody(emitted);
  }

  /** When exactly `width * height` pixels go out, the farbfeld decoder reads
      the output back as a `width` by `height` image whose pixels are their
      colours in the order they were written. */
  lemma StreamOutDecodes(width: uint32, height: uint32, emitted: seq<Pixel>,
                         opts: Farbfeld.DecodeOptions, rest: seq<uint8>)
    requires |emitted| == width * height
    ensures Farbfeld.DecodeBytes(StreamOut(width, height, emitted) + rest, opts)
      == Ok((width as nat, height as nat, Colors(emitted)))
  {
    StreamOutEncoded(width, height, emitted);
    Farbfeld.EncodeDecodeRoundTrip(width, height, Colors(emitted), opts, rest);
  }

  /** The output starts with the header for the stream's dimensions and holds one
      8-byte record per emitted pixel. */
  lemma StreamOutLayout(width: uint32, height: uint32, emitted: seq<Pixel>)
    ensures |StreamOut(width, height, emitted)| == 16 + 8 * |emitted|
    ensures StreamOut(width, height, emitted)[..16] == Farbfeld.Header(width, height)
    ensures StreamOut(width, height, emitted)[..8] == Farbfeld.MagicPrefix()
    ensures StreamOut(width, height, emitted)[8..12] == BeBytes32(width)
    ensures StreamOut(width, height, emitted)[12..16] == BeBytes32(height)
  {
    StreamOutEncoded(width, height, emitted);
    Farbfeld.BodyLength(Colors(emitted));
  }

  /** The header the stream encoder writes reads back as its dimensions. */
  lemma StreamHeaderParses(width: uint32, height: uint32, emitted: seq<Pixel>, opts: Farbfeld.DecodeOptions)
    ensures Farbfeld.ParseHeader(StreamOut(width, height, emitted)[..16], opts) == Ok((width as nat, height as nat))
  {
    StreamOutLayout(width, height, emitted);
    Farbfeld.HeaderRoundTrip(width, height, opts);
  }

  /** A pixel of the heap with the largest coordinates exists whenever the heap
      is not empty. */
  lemma {:induction false} MaxExists(heap: multiset<Pixel>)
    requires heap != multiset{}
    ensures exists p :: p in heap && forall q :: q in heap ==> Coords(q) <= Coords(p)
    decreases |heap|
  {
    var p :| p in heap;
    var rest := heap - multiset{p};
    if rest == multiset{} {
      forall q | q in heap ensures Coords(q) <= Coords(p) {
        assert heap[q] == rest[q] + multiset{p}[q];
      }
    } else {
      MaxExists(rest);
      var m :| m in rest && forall q :: q in rest ==> Coords(q) <= Coords(m);
      assert forall q :: q in heap ==> q == p || q in rest;
      if Coords(p) <= Coords(m) {
        assert m in heap;
      }
    }
  }

  /** `BinaryHeap::pop`: removes a pixel with the largest coordinates; which of
      several pixels at the same position comes first is not specified. */
  method Pop(heap: multiset<Pixel>) returns (p: Pixel, rest: multiset<Pixel>)
    requires heap != multiset{}
    ensures p in heap && rest == heap - multiset{p}
    ensures HeapBelow(heap, Coords(p))
  {
    MaxExists(heap);
    p :| p in heap && forall q :: q in heap ==> Coords(q) <= Coords(p);
    rest := heap - multiset{p};
  }

  /** Writes one popped pixel after the records so far: the eight bytes of
      `to_ne_bytes(u64::from(color.cast::<NativeEndian>()))`. */
  method WritePixel(w: Writer, ghost prefix: seq<uint8>, ghost emitted: seq<Pixel>, p: Pixel)
      returns (r: Result<(), IoError>)
    requires w.Valid() && w.data == prefix + Records(emitted)
    modifies w
    ensures w.Valid()
    ensures w.Outcome(prefix, Records(emitted + [p]), r)
  {
    ghost var out := Records(emitted + [p]);
    var bytes := NeBytes64On(HOST, ToU64(Cast(p.color, NativeEndian)));
    NativeRecordIsMemBytes(p.color);
    ghost var n := |Records(emitted)|;
    assert (emitted + [p])[..|emitted|] == emitted;
    assert out == Records(emitted) + bytes;
    assert out[..n] == Records(emitted);
    r := w.WriteAllOf(prefix, out, n, bytes);
    if r.Ok? {
      assert out[..n + |bytes|] == out;
    }
  }

  /** Coordinates never increase along `s`. */
  ghost predicate NonIncreasing(s: seq<Pixel>)
  {
    |s| <= 1 || (Coords(s[|s| - 1]) <= Coords(s[|s| - 2]) && NonIncreasing(s[..|s| - 1]))
  }

  /** Every pixel of `heap` has coordinates at most `c`. */
  ghost predicate HeapBelow(heap: multiset<Pixel>, c: int)
  {
    forall q :: q in heap ==> Coords(q) <= c
  }

  /** In a non-increasing sequence every later pixel has coordinates at most
      those of every earlier one. */
  lemma {:induction false} NonIncreasingOrdered(s: seq<Pixel>, i: nat, j: nat)
    requires NonIncreasing(s) && i <= j < |s|
    ensures Coords(s[j]) <= Coords(s[i])
    decreases |s|
  {
    if j == |s| - 1 && i < j {
      NonIncreasingOrdered(s[..|s| - 1], i, j - 1);
    } else if j < |s| - 1 {
      NonIncreasingOrdered(s[..|s| - 1], i, j);
    }
  }

  /** Emitting `p` after `emitted + popped` extends `popped`. */
  lemma AppendAssoc(emitted: seq<Pixel>, popped: seq<Pixel>, p: Pixel)
    ensures emitted + popped + [p] == emitted + (popped + [p])
  {
  }

  /** Moving pixels from the heap to the output keeps them all. */
  lemma UnionShift(a: multiset<Pixel>, b: multiset<Pixel>, c: multiset<Pixel>, d: multiset<Pixel>)
    requires b + c == d
    ensures a + b + c == a + d
  {
  }

  /** Pixels written while others still wait are part of the input. */
  lemma PartOfInput(out: multiset<Pixel>, waiting: multiset<Pixel>, seen: multiset<Pixel>, all: multiset<Pixel>)
    requires out + waiting == seen && seen <= all
    ensures out <= all
  {
  }

  /** `popped` came off `heap` in this order, largest coordinates first, and
      `rest` is what the heap still holds. */
  ghost predicate Popping(heap: multiset<Pixel>, popped: seq<Pixel>, rest: multiset<Pixel>)
  {
    && multiset(popped) + rest == heap
    && NonIncreasing(popped)
    && (|popped| == 0 ==> rest == heap)
    && (|popped| >= 1 ==> HeapBelow(heap, Coords(popped[0])) && HeapBelow(rest, Coords(popped[|popped| - 1])))
  }

  /** One more pop of the heap keeps `Popping`. */
  lemma PopStep(heap: multiset<Pixel>, popped: seq<Pixel>, rest: multiset<Pixel>, p: Pixel, rest': multiset<Pixel>)
    requires Popping(heap, popped, rest)
    requires p in rest && rest' == rest - multiset{p} && HeapBelow(rest, Coords(p))
    ensures Popping(heap, popped + [p], rest')
  {
    forall q | q in rest' ensures Coords(q) <= Coords(p) {
      assert q in rest;
    }
    assert multiset(popped + [p]) == multiset(popped) + multiset{p};
    assert (popped + [p])[..|popped|] == popped;
    if |popped| >= 1 {
      assert p in multiset(popped) + rest;
    }
  }

  /** One turn of either `while let Some(pixel) = heap.pop()` loop: pop the
      pixel with the largest coordinates and write it. */
  method PopWrite(w: Writer, ghost prefix: seq<uint8>, ghost emitted: seq<Pixel>, heap: multiset<Pixel>)
      returns (r: Result<(), IoError>, p: Pixel, rest: multiset<Pixel>)
    requires heap != multiset{}
    requires w.Valid() && w.data == prefix + Records(emitted)
    modifies w
    ensures w.Valid()
    ensures p in heap && rest == heap - multiset{p} && HeapBelow(heap, Coords(p))
    ensures w.Outcome(prefix, Records(emitted + [p]), r)
  {
    p, rest := Pop(heap);
    r := WritePixel(w, prefix, emitted, p);
  }

  /** The inner `while let Some(pixel) = heap.pop()` of one received pixel
      whose coordinates are not above `window`: pops and writes pixels, largest
      coordinates first, and stops right after the first one above `window`,
      which becomes the new `window`.  Since the first pixel popped is the
      largest, the loop either writes that one pixel and moves `window` up to
      it, or empties the heap. */
  method Flush(w: Writer, ghost prefix: seq<uint8>, ghost emitted: seq<Pixel>,
               window: uint64, heap: multiset<Pixel>)
      returns (r: Result<(), IoError>, window': uint64, heap': multiset<Pixel>, ghost popped: seq<Pixel>)
    requires heap != multiset{}
    requires w.Valid() && w.data == prefix + Records(emitted)
    modifies w
    ensures w.Valid()
    ensures |popped| >= 1 && Popping(heap, popped, heap')
    ensures r.Ok? && Coords(popped[0]) > window ==> |popped| == 1 && window' == Coords(popped[0])
    ensures r.Ok? && Coords(popped[0]) <= window ==> heap' == multiset{} && window' == window
    ensures w.Outcome(prefix, Records(emitted + popped), r)
  {
    window' := window;
    heap' := heap;
    popped := [];
    r := Ok(());
    assert emitted + popped == emitted;
    while heap' != multiset{}
      invariant w.Valid() && r.Ok? && window' == window && Popping(heap, popped, heap')
      invariant w.data == prefix + Records(emitted + popped)
      invariant |popped| >= 1 ==> Coords(popped[0]) <= window
      decreases |heap'|
    {
      var p, rest;
      r, p, rest := PopWrite(w, prefix, emitted + popped, heap');
      PopStep(heap, popped, heap', p, rest);
      AppendAssoc(emitted, popped, p);
      heap' := rest;
      popped := popped + [p];
      if r.Err? {
        return;
      }
      var coords := Coords(p);
      if coords > window' {
        window' := coords;
        return;
      }
    }
  }

  /** The final `while let Some(pixel) = heap.pop()`: writes every pixel left,
      largest coordinates first.  `left` is what is still in the heap when a
      write fails. */
  method Drain(w: Writer, ghost prefix: seq<uint8>, ghost emitted: seq<Pixel>, heap: multiset<Pixel>)
      returns (r: Result<(), IoError>, ghost popped: seq<Pixel>, left: multiset<Pixel>)
    requires w.Valid() && w.data == prefix + Records(emitted)
    modifies w
    ensures w.Valid()
    ensures Popping(heap, popped, left) && (r.Ok? ==> left == multiset{})
    ensures w.Outcome(prefix, Records(emitted + popped), r)
  {
    left := heap;
    popped := [];
    r := Ok(());
    assert emitted + popped == emitted;
    while left != multiset{}
      invariant w.Valid() && r.Ok? && Popping(heap, popped, left)
      invariant w.data == prefix + Records(emitted + popped)
      decreases |left|
    {
      var p, rest;
      r, p, rest := PopWrite(w, prefix, emitted + popped, left);
      PopStep(heap, popped, left, p, rest);
      AppendAssoc(emitted, popped, p);
      left := rest;
      popped := popped + [p];
      if r.Err? {
        return;
      }
    }
  }

  /** `Encode<FarbfeldPixelStream>::encode`.  The channel is the finite sequence
      `input`; its end is the sender hanging up.  The pixels are written in the
      order `emitted`: with `Ok` every received pixel exactly once, and on a
      failed write the output stops inside that write. */
  method Encode(w: Writer, width: uint32, height: uint32, input: seq<Pixel>)
      returns (r: Result<(), IoError>, ghost emitted: seq<Pixel>)
    requires w.Valid()
    modifies w
    ensures w.Valid()
    ensures multiset(emitted) <= multiset(input)
    ensures r.Ok? ==> multiset(emitted) == multiset(input)
    ensures w.Outcome(old(w.data), StreamOut(width, height, emitted), r)
    ensures w.capacity.None? ==> r.Ok?
  {
    ghost var base := w.data;
    emitted := [];
    StreamOutLayout(width, height, []);
    r := Farbfeld.WriteHeader(w, width, height, base, StreamOut(width, height, []));
    if r.Err? {
      return;
    }
    ghost var head := Farbfeld.Header(width, height);
    ghost var prefix := base + head;
    assert w.data == prefix + Records(emitted);
    var heap;
    r, heap, emitted := ReceiveAll(w, prefix, input);
    if r.Err? {
      OutcomeAfter(w, base, head, Records(emitted), r);
      return;
    }
    ghost var popped;
    var left;
    r, popped, left := Drain(w, prefix, emitted, heap);
    assert multiset(emitted + popped) == multiset(emitted) + multiset(popped);
    UnionShift(multiset(emitted), multiset(popped), left, heap);
    PartOfInput(multiset(emitted + popped), left, multiset(input), multiset(input));
    emitted := emitted + popped;
    OutcomeAfter(w, base, head, Records(emitted), r);
  }

  /** `while let Ok(pixel) = stream.pixels.recv()` until the sender hangs up:
      every received pixel is written or still waits in the heap. */
  method ReceiveAll(w: Writer, ghost prefix: seq<uint8>, input: seq<Pixel>)
      returns (r: Result<(), IoError>, heap: multiset<Pixel>, ghost emitted: seq<Pixel>)
    requires w.Valid() && w.data == prefix
    modifies w
    ensures w.Valid()
    ensures multiset(emitted) <= multiset(input)
    ensures r.Ok? ==> multiset(emitted) + heap == multiset(input)
    ensures w.Outcome(prefix, Records(emitted), r)
  {
    emitted := [];
    r := Ok(());
    assert w.data == prefix + Records(emitted);
    var window: uint64 := 0;
    heap := multiset{};
    var n := 0;
    while n < |input|
      invariant 0 <= n <= |input| && w.Valid() && r.Ok?
      invariant multiset(emitted) + heap == multiset(input[..n])
      invariant w.data == prefix + Records(emitted)
    {
      var pixel := input[n];
      assert input[..n + 1] == input[..n] + [pixel];
      UnionShift(multiset(emitted), heap, multiset{pixel}, heap + multiset{pixel});
      r, window, heap, emitted := Receive(w, prefix, emitted, window, heap, pixel);
      if r.Err? {
        assert multiset(input[..n + 1]) <= multiset(input) by {
          assert input == input[..n + 1] + input[n + 1..];
        }
        PartOfInput(multiset(emitted), heap, multiset(input[..n + 1]), multiset(input));
        return;
      }
      n := n + 1;
    }
    assert input[..n] == input;
    PartOfInput(multiset(emitted), heap, multiset(input), multiset(input));
  }

  /** One iteration of `while let Ok(pixel) = stream.pixels.recv()`: push the
      pixel; if its coordinates are above `window`, that is all, otherwise
      flush. */
  method Receive(w: Writer, ghost prefix: seq<uint8>, ghost emitted: seq<Pixel>,
                 window: uint64, heap: multiset<Pixel>, pixel: Pixel)
      returns (r: Result<(), IoError>, window': uint64, heap': multiset<Pixel>, ghost emitted': seq<Pixel>)
    requires w.Valid() && w.data == prefix + Records(emitted)
    modifies w
    ensures w.Valid()
    ensures multiset(emitted') + heap' == multiset(emitted) + (heap + multiset{pixel})
    ensures |emitted| <= |emitted'| && emitted'[..|emitted|] == emitted
    ensures Coords(pixel) > window ==>
      r.Ok? && window' == window && emitted' == emitted && heap' == heap + multiset{pixel}
    ensures Coords(pixel) <= window ==> |emitted'| > |emitted|
    ensures r.Ok? && Coords(pixel) <= window ==>
      || (window' > window && |emitted'| == |emitted| + 1 && window' == Coords(emitted'[|emitted|]))
      || (window' == window && heap' == multiset{})
    ensures w.Outcome(prefix, Records(emitted'), r)
  {
    var coords := Coords(pixel);
    heap' := heap + multiset{pixel};
    if coords > window {
      return Ok(()), window, heap', emitted;
    }
    ghost var popped;
    r, window', heap', popped := Flush(w, prefix, emitted, window, heap');
    emitted' := emitted + popped;
    assert emitted'[..|emitted|] == emitted;
    assert multiset(emitted') == multiset(emitted) + multiset(popped);
    UnionShift(multiset(emitted), multiset(popped), heap', heap + multiset{pixel});
  }
}
