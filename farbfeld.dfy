/** The farbfeld whole-image codec (crate/src/image/farbfeld/mod.rs): a
    16-byte header (`farbfeld`, big-endian `u32` width and height) followed by
    one 8-byte big-endian RGBA record per pixel, row by row. */
module Farbfeld {
  import opened Ints
  import opened Results
  import opened Io
  import Image
  import opened Color
  import opened ColorNrgba64
  import opened PixBuf

  /** `FarbfeldDecodeOptions`. */
  datatype DecodeOptions = DecodeOptions(checkHeader: bool)

  /** `FarbfeldDecodeOptions::default`. */
  function DefaultDecodeOptions(): (o: DecodeOptions)
    ensures o.checkHeader
  {
    DecodeOptions(true)
  }

  const InvalidMagic: string := "Invalid farbfeld magic."

  /** The first eight bytes of the magic, `farbfeld`. */
  function MagicPrefix(): (m: seq<uint8>)
    ensures |m| == 8
  {
    Image.Farbfeld.magic[..8]
  }

  /** The 16-byte header for the given dimensions, each truncated to `u32`. */
  function Header(width: nat, height: nat): (h: seq<uint8>)
    ensures |h| == 16
  {
    MagicPrefix() + BeBytes32(TruncateU32(width)) + BeBytes32(TruncateU32(height))
  }

  /** The header read back: `Err` when `checkHeader` is set and the magic is
      wrong, otherwise width from bytes 8..12 and height from bytes 12..16. */
  function ParseHeader(m: seq<uint8>, opts: DecodeOptions): (r: Result<(nat, nat), IoError>)
    requires |m| == 16
    ensures r.Err? <==> opts.checkHeader && !Image.IsValidMagic(Image.Farbfeld.magic, m)
    ensures r.Err? ==> r.error == Other(InvalidMagic)
  {
    if opts.checkHeader && !Image.IsValidMagic(Image.Farbfeld.magic, m) then Err(Other(InvalidMagic))
    else Ok((FromBeBytes32(m[8..12]), FromBeBytes32(m[12..16])))
  }

  /** Every header is accepted, and it gives back the dimensions it was made
      from whenever both are below 2^32. */
  lemma {:induction false} HeaderRoundTrip(width: nat, height: nat, opts: DecodeOptions)
    requires width < 0x1_0000_0000 && height < 0x1_0000_0000
    ensures ParseHeader(Header(width, height), opts) == Ok((width, height))
  {
    var h := Header(width, height);
    Image.FarbfeldMagicAccepts(h);
    assert h[..8] == MagicPrefix();
    assert h[8..12] == BeBytes32(width);
    assert h[12..16] == BeBytes32(height);
    BeBytes32RoundTrip(width);
    BeBytes32RoundTrip(height);
  }

  /** The 8-byte record of a pixel: its stored words as they lie in memory. */
  function Record(c: Nrgba64Be): (b: seq<uint8>)
    ensures |b| == 8
  {
    MemBytes(c)
  }

  /** The records of the pixels in order. */
  function Body(pixels: seq<Nrgba64Be>): seq<uint8>
  {
    Flatten(pixels, Record)
  }

  lemma BodyLength(pixels: seq<Nrgba64Be>)
    ensures |Body(pixels)| == 8 * |pixels|
  {
    FlattenLength(pixels, Record, 8);
  }

  /** The `i`-th record of the body is the `i`-th pixel's record. */
  lemma {:induction false} BodyRecord(pixels: seq<Nrgba64Be>, i: nat)
    requires i < |pixels|
    ensures |Body(pixels)| == 8 * |pixels|
    ensures Body(pixels)[8 * i..8 * i + 8] == Record(pixels[i])
    decreases |pixels|
  {
    BodyLength(pixels);
    var n := |pixels| - 1;
    BodyLength(pixels[..n]);
    assert Body(pixels) == Body(pixels[..n]) + Record(pixels[n]);
    if i < n {
      BodyRecord(pixels[..n], i);
      assert pixels[..n][i] == pixels[i];
    }
  }

  /** The pixels of a body: record `i` is pixel `i`. */
  function Pixels(body: seq<uint8>): (ps: seq<Nrgba64Be>)
    ensures |ps| == |body| / 8
  {
    seq(|body| / 8, i requires 0 <= i < |body| / 8 => FromMemBytes(body[8 * i..8 * i + 8], BigEndian))
  }

  /** Reading the records back gives the pixels. */
  lemma {:induction false} PixelsOfBody(pixels: seq<Nrgba64Be>)
    ensures Pixels(Body(pixels)) == pixels
  {
    BodyLength(pixels);
    forall i | 0 <= i < |pixels|
      ensures Pixels(Body(pixels))[i] == pixels[i]
    {
      BodyRecord(pixels, i);
      MemBytesRoundTrip(pixels[i], Record(pixels[i]));
    }
  }

  /** Everything the whole-image encoders write for a `width` by `height` image. */
  function Encoded(width: nat, height: nat, pixels: seq<Nrgba64Be>): seq<uint8>
  {
    Header(width, height) + Body(pixels)
  }

  /** The number of pixels of a `width` by `height` image. */
  function Area(width: nat, height: nat): nat
  {
    width * height
  }

  /** What `decode` produces from an input: the dimensions and the pixels. */
  function DecodeBytes(input: seq<uint8>, opts: DecodeOptions): (r: Result<(nat, nat, seq<Nrgba64Be>), IoError>)
    ensures r.Ok? ==> |r.value.2| == r.value.0 * r.value.1
  {
    if |input| < 16 then Err(UnexpectedEof)
    else
      match ParseHeader(input[..16], opts)
      case Err(e) => Err(e)
      case Ok((w, h)) =>
        var n := Area(w, h);
        if |input| - 16 < 8 * n then Err(UnexpectedEof)
        else Ok((w, h, Pixels(input[16..16 + 8 * n])))
  }

  /** Decoding what the encoders write returns the image, whatever follows it. */
  lemma {:induction false} EncodeDecodeRoundTrip(width: nat, height: nat, pixels: seq<Nrgba64Be>,
                                                 opts: DecodeOptions, rest: seq<uint8>)
    requires width < 0x1_0000_0000 && height < 0x1_0000_0000 && |pixels| == width * height
    ensures DecodeBytes(Encoded(width, height, pixels) + rest, opts) == Ok((width, height, pixels))
  {
    var input := Encoded(width, height, pixels) + rest;
    BodyLength(pixels);
    HeaderRoundTrip(width, height, opts);
    assert input[..16] == Header(width, height);
    assert input[16..16 + 8 * (width * height)] == Body(pixels);
    PixelsOfBody(pixels);
  }

  /** The header fails only on a wrong magic with `checkHeader` set. */
  lemma DecodeRejectsOnlyBadMagic(input: seq<uint8>, opts: DecodeOptions)
    requires |input| >= 16
    ensures DecodeBytes(input, opts) == Err(Other(InvalidMagic)) <==>
      opts.checkHeader && !Image.IsValidMagic(Image.Farbfeld.magic, input[..16])
  {
  }

  /** The three `write_all` calls of the header, shared by both encoders: the
      first eight magic bytes, then width and height as big-endian `u32`. */
  method WriteHeader(w: Writer, width: nat, height: nat, ghost base: seq<uint8>, ghost out: seq<uint8>)
      returns (r: Result<(), IoError>)
    requires w.Valid() && |out| >= 16 && out[..16] == Header(width, height) && w.data == base
    modifies w
    ensures w.Valid()
    ensures r.Ok? ==> w.data == base + out[..16]
    ensures r.Err? ==> (r.error == StorageFull && w.Kept(|base|, |out|) < |out|
      && w.data == base + out[..w.Kept(|base|, |out|)])
  {
    assert out[..8] == MagicPrefix();
    assert w.data == base + out[..0];
    r := w.WriteAllOf(base, out, 0, MagicPrefix());
    if r.Err? { return; }
    assert out[8..12] == BeBytes32(TruncateU32(width));
    r := w.WriteAllOf(base, out, 8, BeBytes32(TruncateU32(width)));
    if r.Err? { return; }
    assert out[12..16] == BeBytes32(TruncateU32(height));
    r := w.WriteAllOf(base, out, 12, BeBytes32(TruncateU32(height)));
  }

  /** The specialised `Encode` for `RawPixBuf<Nrgba64Be>`: the header, then the
      buffer's bytes unchanged. */
  method EncodeBuffer(w: Writer, buf: RawPixBuf<Nrgba64Be>) returns (r: Result<(), IoError>)
    requires w.Valid()
    modifies w
    ensures w.Valid()
    ensures var out := Encoded(buf.width, buf.height, buf.buf[..]);
      && w.data == old(w.data) + out[..w.Kept(|old(w.data)|, |out|)]
      && (r.Ok? <==> w.Kept(|old(w.data)|, |out|) == |out|)
      && (r.Err? ==> r.error == StorageFull)
  {
    ghost var base := w.data;
    ghost var out := Encoded(buf.width, buf.height, buf.buf[..]);
    r := WriteHeader(w, buf.width, buf.height, base, out);
    if r.Err? { return; }
    assert out[16..] == buf.AsBytes(Record);
    r := w.WriteAllOf(base, out, 16, buf.AsBytes(Record));
    if r.Err? { return; }
    assert out[..|out|] == out;
  }

  /** The generic `Encode` for any image: the header, then for each row `y`
      and each column `x` the record of `color_get(x, y)` converted to
      `Nrgba64Be` through `as_rgba`. */
  method EncodeImage<T>(w: Writer, img: RawPixBuf<T>, asRgba: T -> Rgba) returns (r: Result<(), IoError>)
    requires w.Valid() && img.Valid()
    modifies w
    ensures w.Valid()
    ensures var out := Encoded(img.width, img.height, Converted(img.buf[..], asRgba));
      && w.data == old(w.data) + out[..w.Kept(|old(w.data)|, |out|)]
      && (r.Ok? <==> w.Kept(|old(w.data)|, |out|) == |out|)
      && (r.Err? ==> r.error == StorageFull)
  {
    var (width, height) := img.Dimensions();
    ghost var base := w.data;
    ghost var pixels := Converted(img.buf[..], asRgba);
    ghost var out := Encoded(width, height, pixels);
    EncodedRecords(width, height, pixels);
    assert |out| == 16 + 8 * img.buf.Length;
    r := WriteHeader(w, width, height, base, out);
    if r.Err? { return; }
    var y := 0;
    ghost var k := 0;
    while y < height
      invariant 0 <= y <= height && k == img.Index(0, y) <= img.buf.Length && r.Ok?
      invariant w.Valid() && w.data == base + out[..16 + 8 * k]
    {
      img.RowInBuffer(y);
      r := WriteRow(w, img, asRgba, y, base, out, pixels, k);
      if r.Err? { return; }
      k := k + width;
      y := y + 1;
    }
    img.RowsFillBuffer();
    assert out[..|out|] == out;
  }

  /** The inner loop of the generic `Encode`: the records of row `y`, whose
      first pixel is pixel `k`. */
  method WriteRow<T>(w: Writer, img: RawPixBuf<T>, asRgba: T -> Rgba, y: nat,
                     ghost base: seq<uint8>, ghost out: seq<uint8>, ghost pixels: seq<Nrgba64Be>, ghost k: nat)
      returns (r: Result<(), IoError>)
    requires w.Valid() && k == img.Index(0, y) && k + img.width <= img.buf.Length
    requires pixels == Converted(img.buf[..], asRgba) && RecordsAt(out, pixels)
    requires w.data == base + out[..16 + 8 * k]
    modifies w
    ensures w.Valid()
    ensures r.Ok? ==> w.data == base + out[..16 + 8 * (k + img.width)]
    ensures r.Err? ==> (r.error == StorageFull && w.Kept(|base|, |out|) < |out|
      && w.data == base + out[..w.Kept(|base|, |out|)])
  {
    r := Ok(());
    var x := 0;
    while x < img.width
      invariant 0 <= x <= img.width && w.Valid() && r.Ok?
      invariant w.data == base + out[..16 + 8 * (k + x)]
    {
      r := WritePixel(w, img, asRgba, x, y, base, out, pixels, k + x);
      if r.Err? { return; }
      x := x + 1;
    }
  }

  /** One step of the inner loop: `color_get(x, y)`, converted, written as
      record `i`. */
  method WritePixel<T>(w: Writer, img: RawPixBuf<T>, asRgba: T -> Rgba, x: nat, y: nat,
                       ghost base: seq<uint8>, ghost out: seq<uint8>, ghost pixels: seq<Nrgba64Be>, ghost i: nat)
      returns (r: Result<(), IoError>)
    requires w.Valid() && i == img.Index(x, y) < img.buf.Length
    requires pixels == Converted(img.buf[..], asRgba) && RecordsAt(out, pixels)
    requires w.data == base + out[..16 + 8 * i]
    modifies w
    ensures w.Valid()
    ensures r.Ok? ==> w.data == base + out[..16 + 8 * (i + 1)]
    ensures r.Err? ==> (r.error == StorageFull && w.Kept(|base|, |out|) < |out|
      && w.data == base + out[..w.Kept(|base|, |out|)])
  {
    var c := img.ColorGet(x, y);
    assert c == img.buf[..][i];
    var record := EncodePixel(asRgba(c));
    assert record == Record(pixels[i]);
    assert out[16 + 8 * i..16 + 8 * i + 8] == record;
    r := w.WriteAllOf(base, out, 16 + 8 * i, record);
  }

  /** The bytes the generic `Encode` writes for a pixel given by `as_rgba`:
      the farbfeld record of its `Nrgba64Be` conversion. */
  function EncodePixel(c: Rgba): (b: seq<uint8>)
    ensures b == Record(ConvertFromRgba(BigEndian, c))
  {
    var be := ConvertFromRgba(BigEndian, c);
    NativeRecordIsMemBytes(be);
    NeBytes64On(HOST, ToU64(Cast(be, NativeEndian)))
  }

  /** `out` holds, after 16 header bytes, the records of `pixels` in order. */
  ghost predicate RecordsAt(out: seq<uint8>, pixels: seq<Nrgba64Be>)
  {
    |out| == 16 + 8 * |pixels| &&
    forall i :: 0 <= i < |pixels| ==> out[16 + 8 * i..16 + 8 * i + 8] == Record(pixels[i])
  }

  /** Record `i` of the encoding lies at bytes `16 + 8 i` to `16 + 8 i + 8`. */
  lemma EncodedRecords(width: nat, height: nat, pixels: seq<Nrgba64Be>)
    ensures RecordsAt(Encoded(width, height, pixels), pixels)
  {
    BodyLength(pixels);
    var h, body := Header(width, height), Body(pixels);
    forall i | 0 <= i < |pixels|
      ensures (h + body)[16 + 8 * i..16 + 8 * i + 8] == Record(pixels[i])
    {
      BodyRecord(pixels, i);
      assert (h + body)[16 + 8 * i..16 + 8 * i + 8] == body[8 * i..8 * i + 8];
    }
  }

  /** Each pixel converted to `Nrgba64Be` through `as_rgba`. */
  function Converted<T>(s: seq<T>, asRgba: T -> Rgba): (ps: seq<Nrgba64Be>)
    ensures |ps| == |s|
    ensures forall i :: 0 <= i < |s| ==> ps[i] == ConvertFromRgba(BigEndian, asRgba(s[i]))
  {
    seq(|s|, i requires 0 <= i < |s| => ConvertFromRgba(BigEndian, asRgba(s[i])))
  }

  /** The `Decode` for `RawPixBuf<Nrgba64Be>`: reads the 16-byte header, checks
      it if asked to, then reads `width * height * 8` bytes into a new buffer. */
  method Decode(rd: Reader, opts: DecodeOptions) returns (r: Result<RawPixBuf<Nrgba64Be>, IoError>)
    requires rd.Valid()
    modifies rd
    ensures rd.Valid()
    ensures rd.fault.Some? ==> r == Err(rd.fault.value)
    ensures rd.fault.None? ==>
      match DecodeBytes(rd.input[old(rd.pos)..], opts)
      case Err(e) => r == Err(e)
      case Ok((w, h, pixels)) =>
        r.Ok? && fresh(r.value) && fresh(r.value.buf) && r.value.Valid()
        && r.value.width == w && r.value.height == h && r.value.buf[..] == pixels
  {
    ghost var input := rd.input[rd.pos..];
    var m := rd.ReadExact(16);
    if m.Err? { return Err(m.error); }
    assert m.value == input[..16];
    var header := ParseHeader(m.value, opts);
    if header.Err? { return Err(header.error); }
    var (width, height) := header.value;
    var n := Area(width, height);
    var img := NewImage(width, height);
    var body := rd.ReadExact(8 * n);
    if body.Err? { return Err(body.error); }
    assert body.value == input[16..16 + 8 * n];
    assert DecodeBytes(input, opts) == Ok((width, height, Pixels(body.value)));
    LoadPixels(img, body.value);
    r := Ok(img);
  }

  /** `RawPixBuf::new` for the decoder: `Area(width, height)` zero pixels. */
  method NewImage(width: nat, height: nat) returns (img: RawPixBuf<Nrgba64Be>)
    ensures fresh(img) && fresh(img.buf) && img.width == width && img.height == height
    ensures img.buf.Length == Area(width, height)
    ensures forall i :: 0 <= i < img.buf.Length ==> img.buf[i] == Zero(BigEndian)
  {
    var zero: Nrgba64Be := Nrgba64(0, 0, 0, 0, BigEndian);
    img := new RawPixBuf(width, height, zero);
  }

  /** `read_exact` into the byte view of a fresh buffer: record `i` of the body
      becomes element `i`. */
  method LoadPixels(img: RawPixBuf<Nrgba64Be>, body: seq<uint8>)
    requires |body| == 8 * img.buf.Length
    modifies img.buf
    ensures img.buf[..] == Pixels(body)
  {
    var i := 0;
    while i < img.buf.Length
      invariant 0 <= i <= img.buf.Length
      invariant img.buf[..i] == Pixels(body)[..i]
    {
      img.buf[i] := FromMemBytes(body[8 * i..8 * i + 8], BigEndian);
      i := i + 1;
    }
    assert img.buf[..] == img.buf[..i];
  }
}
