# feim, modelled in Dafny

feim is a small Rust image library built around farbfeld, an uncompressed
format: a 16-byte header (`farbfeld`, then width and height as big-endian
`u32`) followed by one 8-byte big-endian RGBA record per pixel. This project
models the integer and byte-level core of the library and of the drivers and
examples that use it, and proves what the code promises about it.

What is modelled, module by module:

- `Ints`, `Results`, `Io`: fixed-width integers as subsets of `int`, byte
  order and byte swapping, the `Result`/`Option` wrappers, and the parts of
  `std::io` the library calls (a byte sink for `write_all`, a byte source for
  `read_exact` and `fill_buf`). The host byte order is a constant,
  little-endian.
- `Color`, `ColorGray`, `ColorGray16`, `ColorRgb48`, `ColorNrgba`,
  `ColorNrgba64`, `ColorCmyk`: the colour types with their endianness tags,
  constructors, getters and setters, `as_rgba`, the `ConvertFrom`
  conversions (luma, narrowing, premultiplication, CMYK) and the integer
  packings.
- `PixBuf`: `RawPixBuf`, a row-major pixel buffer held in an array, with
  `new`, `color_get`, `color_set`, `pixel_set`, `clone`, the dimensions and
  the byte views.
- `Image`, `Serialize`: the magic-number matcher with `?` wildcards, the
  first-match format selector `try_format`, and the encode and decode
  forwarders.
- `Farbfeld`: the specialised encoder (header plus raw bytes), the generic
  encoder (header plus one record per pixel, row by row), and the decoder
  (optional magic check, header parse, body read), with their round trip.
- `FarbfeldStream`: the streaming encoder. It receives pixels from a
  channel, holds them in a max-heap ordered by `coords()`, and writes them
  behind a `window` cursor.
- `Bitlang`: the bitlang tokenizer `compile`, with its keyword table and
  signed radix literals parsed as `isize::from_str_radix` does.
- `Prng`: xoshiro256**, with `next_state`, `long_jump` and the iterator.
- `Melt`, `Invert`, `Multiply`, `Bentley`, `Halftone`, `Braille`: the image
  filters of the drivers and examples. These are melt (random in-place
  column bubbling), invert, matrix multiply, bentley (a luma-driven
  vertical smear), 4 × 4 Bayer halftoning, and braille text rendering.
  Braille characters are U+2800 plus an 8-dot pattern, written in UTF-8 as
  section 3 of RFC 3629 describes.
- `EncodeExample`: `lerp`, `lerp_nrgba` and `draw_image` of the encode
  example, which draws a red disc by running blends.

Stateful code is imperative Dafny: `RawPixBuf`, the sink and source, the
prng state and melt's `NextTwo` iterator are classes, and the loops are
methods with invariants. Each such method is proved against a specification
function of the old state, and the properties are proved about those
functions. Arithmetic follows release builds throughout: unsigned
subtraction, `as` casts and multiplication wrap. The panics that the model
keeps are listed under "Left out".

Behaviour worth noting, in each case modelled as the code is written:

- `melt` with width 0 takes no pairs and so never divides by zero. With
  height 0, `height - 1` wraps and no pair is taken either. Only height 1
  with width > 0 divides by zero.
- `halftone` on an image with a zero dimension never calls `apply`, so
  `width - 1` never underflows.
- `braille` writes one line per started band of four rows. Unless the image
  is empty, or its width is even and its height a multiple of 4, the last
  cell reads past the buffer and panics.
- The streaming encoder does not write pixels in row-major order. Its heap
  pops the largest `coords()` first and `window` only grows, so the pixels
  A = (0, 0), B = (1, 0), C = (0, 1), D = (1, 1) of a 2 × 2 image, sent in
  row-major order, come out as A, D, B, C. The model proves only facts that
  do not depend on the order: the header, each pixel written exactly once,
  and `window` never decreasing.
- `Nrgba::as_rgba` widens without premultiplying, although `Color::as_rgba`
  is documented to return an alpha-premultiplied colour
  (crate/src/color/mod.rs:26). `ColorNrgba.AsRgba` states the widening as
  written, and the farbfeld encoders that call it inherit it.
- The `Rgb48` constructors take their channels in the order
  `(r, b, g)`.

## Model

| member | source | states |
|---|---|---|
| Ints.TruncateU32 | crate/src/color/gray/mod.rs:27 | `as u32` keeps a value that already fits unchanged |
| Ints.SwapBytes16Involution | crate/src/color/gray16/mod.rs:94-117 | swapping the two bytes of a `u16` twice gives the value back |
| Ints.ToFromOrderOnAnyHost | crate/src/color/gray16/mod.rs:50-117 | `to_be`/`to_le` followed by `from_be`/`from_le` is the identity on either host byte order |
| Ints.BeBytes32RoundTrip | crate/src/image/farbfeld/mod.rs:45-46 | `u32::from_be_bytes(to_be_bytes(v)) == v` for the header's width and height |
| Ints.FromBeBytes32RoundTrip | crate/src/image/farbfeld/mod.rs:90-91 | four header bytes decoded and re-encoded are the same four bytes |
| Color.LoadStoreOnAnyHost | crate/src/color/gray16/mod.rs:32-117 | for each endianness tag and either host, a channel getter after the setter (or constructor) returns the value set, and the setter after the getter restores the stored word |
| Color.LoadStore | crate/src/color/gray16/mod.rs:32-117 | the same getter/setter round trip on the modelled little-endian host |
| Color.Low16 | crate/src/color/rgb48/mod.rs:252-256 | `(x & 0xffff) as u16` keeps every value that already fits in 16 bits |
| Color.Premultiply | crate/src/color/nrgba64/mod.rs:198-210 | a premultiplied channel is at most the alpha, equals the channel when opaque and is 0 when transparent |
| Color.LumaSum | crate/src/color/gray16/mod.rs:197 | for 16-bit components the weighted sum does not wrap and is at most 0xffff·65536 + 0x8000 |
| ColorGray.AsRgba | crate/src/color/gray/mod.rs:10-22 | an opaque grey whose 16-bit channels are the 8-bit level replicated into both bytes (257·y) |
| ColorGray.ConvertFromRgba | crate/src/color/gray/mod.rs:24-30 | for 16-bit components the level is the BT.601 luma `(19595 r + 38470 g + 7471 b + 0x8000) >> 24` |
| ColorGray.AsRgbaRoundTrip | crate/src/color/gray/mod.rs:10-30 | converting a `Gray`'s own `as_rgba` back to `Gray` gives the same grey |
| ColorGray.U8RoundTrip | crate/src/color/gray/mod.rs:32-42 | `Gray::from(u8)` and `u8::from(Gray)` are inverse |
| ColorGray.LumaOfGrey | drivers/braille/src/main.rs:73-80 | an opaque grey `Nrgba64` pixel with 8-bit level y widened to 16 bits has luma y |
| ColorGray16.Cast | crate/src/color/gray16/mod.rs:14-22 | `cast` changes the tag and keeps the stored word |
| ColorGray16.Make | crate/src/color/gray16/mod.rs:32-91 | `ne`/`le`/`be` build a colour of that tag whose getter returns the argument |
| ColorGray16.SetY | crate/src/color/gray16/mod.rs:44-117 | `set_y` keeps the tag and the getter then returns the value set |
| ColorGray16.Zero | crate/src/color/gray16/mod.rs:134-142 | `ZERO` reads back as 0 under every tag |
| ColorGray16.AsRgba | crate/src/color/gray16/mod.rs:122-176 | an opaque grey: three equal channels within 16 bits and alpha `0xffff`; `ColorGray16.AsRgbaRoundTrip` pins the level to the logical value |
| ColorGray16.AsRgbaRoundTrip | crate/src/color/gray16/mod.rs:122-225 | converting a `Gray16`'s own `as_rgba` back to its tag gives the same colour, because the luma of a grey is its level |
| ColorGray16.Luma16Grey | crate/src/color/gray16/mod.rs:194-225 | for 16-bit components the luma is the unwrapped weighted sum >> 16, and a grey input keeps its level |
| ColorGray16.ConvertFromRgba | crate/src/color/gray16/mod.rs:194-225 | the converted colour has the requested tag and its getter returns the luma |
| ColorGray16.FromU16 | crate/src/color/gray16/mod.rs:265-290 | `From<u16>` builds a colour of the requested tag |
| ColorGray16.U16RoundTrip | crate/src/color/gray16/mod.rs:229-290 | `u16` to `Gray16<E>` and back is the identity, and so is the reverse |
| ColorGray16.ConvertSpecialized | crate/src/color/gray16/mod.rs:180-192 | the specialised conversion produces the target tag |
| ColorGray16.SpecializedKeepsValue | crate/src/color/gray16/mod.rs:180-192 | converting between byte orders through `u16` keeps the logical value, and converting to the same tag is the identity |
| ColorRgb48.Cast | crate/src/color/rgb48/mod.rs:15-25 | `cast` changes the tag and keeps the stored words |
| ColorRgb48.Make | crate/src/color/rgb48/mod.rs:121-166 | `ne(r, b, g)`/`le`/`be` store their second parameter as blue and third as green, read back through the tag's getters |
| ColorRgb48.MakeArgumentOrder | crate/src/color/rgb48/mod.rs:121-128 | a caller passing (r, g, b) positionally gets green and blue exchanged |
| ColorRgb48.SetR | crate/src/color/rgb48/mod.rs:35-78 | `set_r` changes red only, under every tag |
| ColorRgb48.SetG | crate/src/color/rgb48/mod.rs:35-78 | `set_g` changes green only, under every tag |
| ColorRgb48.SetB | crate/src/color/rgb48/mod.rs:35-78 | `set_b` changes blue only, under every tag |
| ColorRgb48.AsRgba | crate/src/color/rgb48/mod.rs:186-244 | an opaque colour whose channels fit in 16 bits, as the CMYK conversion needs; `ColorRgb48.ConvertFromAsRgba` pins each channel to the logical value |
| ColorRgb48.ConvertFromRgba | crate/src/color/rgb48/mod.rs:248-282 | each channel's logical value is the low 16 bits of the component, stored in the tag's byte order |
| ColorRgb48.ConvertFromAsRgba | crate/src/color/rgb48/mod.rs:186-282 | converting an `Rgb48`'s own `as_rgba` back gives the same colour |
| ColorNrgba64.Cast | crate/src/color/nrgba64/mod.rs:17-28 | `cast` changes the tag and keeps the four stored words |
| ColorNrgba64.LogicalChannelsDetermine | crate/src/color/nrgba64/mod.rs:83-121 | two colours with the same tag are equal exactly when their four getters agree |
| ColorNrgba64.Ne | crate/src/color/nrgba64/mod.rs:130-139 | `ne` builds a native colour whose getters return the arguments |
| ColorNrgba64.Le | crate/src/color/nrgba64/mod.rs:152-161 | `le` builds a little-endian colour whose getters return the arguments |
| ColorNrgba64.Be | crate/src/color/nrgba64/mod.rs:174-183 | `be` builds a big-endian colour whose getters return the arguments |
| ColorNrgba64.SetR | crate/src/color/nrgba64/mod.rs:38-81 | `set_r` changes red only, under every tag |
| ColorNrgba64.SetG | crate/src/color/nrgba64/mod.rs:38-81 | `set_g` changes green only, under every tag |
| ColorNrgba64.SetB | crate/src/color/nrgba64/mod.rs:38-81 | `set_b` changes blue only, under every tag |
| ColorNrgba64.SetA | crate/src/color/nrgba64/mod.rs:38-81 | `set_a` changes alpha only, under every tag |
| ColorNrgba64.Zero | crate/src/color/nrgba64/mod.rs:212-223 | `ZERO` reads back as four zero channels under every tag |
| ColorNrgba64.ToRgba | crate/src/color/nrgba64/mod.rs:198-210 | premultiplied channels never exceed alpha; an opaque colour is unchanged and a transparent one becomes all zero |
| ColorNrgba64.ConvertFromRgbaAsWritten | crate/src/color/nrgba64/mod.rs:295-332 | the conversion as written keeps the requested tag (native stores the low 16 bits, both other tags store them byte-swapped) |
| ColorNrgba64.ConvertFromLeAsWrittenSwaps | crate/src/color/nrgba64/mod.rs:321-332 | on a little-endian host the little-endian conversion of red 0x0102 reads back as 0x0201 |
| ColorNrgba64.ConvertFromRgba | crate/src/color/nrgba64/mod.rs:295-332 | corrected conversion: every getter returns the low 16 bits of the matching component, under every tag |
| ColorNrgba64.ConvertFromAgreesExceptLe | crate/src/color/nrgba64/mod.rs:295-319 | the written and the corrected conversion agree for the native and the big-endian tags |
| ColorNrgba64.PackThenComponents | crate/src/color/nrgba64/mod.rs:336-344 | `get_components` of `r | g << 16 | b << 32 | a << 48` returns the four words |
| ColorNrgba64.ComponentsThenPack | crate/src/color/nrgba64/mod.rs:396-402 | packing the components `get_components` extracts rebuilds the `u64` |
| ColorNrgba64.FromU64 | crate/src/color/nrgba64/mod.rs:404-441 | `Nrgba64::from(u64)` builds a colour of the requested tag |
| ColorNrgba64.NativeU64RoundTrip | crate/src/color/nrgba64/mod.rs:336-415 | for the native tag `u64::from` and `Nrgba64::from` are mutual inverses |
| ColorNrgba64.BigEndianU64Layout | crate/src/color/nrgba64/mod.rs:346-368 | on a little-endian host `u64::from` of a big-endian colour packs its logical channels in reverse order, `a | b << 16 | g << 32 | r << 48` |
| ColorNrgba64.ConvertSpecialized | crate/src/color/nrgba64/mod.rs:281-293 | the specialised conversion through `u64` produces the target tag |
| ColorNrgba64.SpecializedBeToBeReverses | crate/src/color/nrgba64/mod.rs:281-293 | converting big-endian to big-endian through `u64` reverses the channel order (red and alpha, green and blue exchanged) |
| ColorNrgba64.SpecializedNativeIdentity | crate/src/color/nrgba64/mod.rs:281-293 | converting native to native through `u64` is the identity |
| ColorNrgba64.MemBytesRoundTrip | crate/src/color/nrgba64/mod.rs:7-15 | the eight-byte `#[repr(C)]` memory image of a colour and the colour read from eight bytes are mutual inverses |
| ColorNrgba64.NativeRecordIsMemBytes | crate/src/image/farbfeld/mod.rs:69-73 | the generic encoder's record `to_ne_bytes(u64::from(c.cast()))` is exactly the colour's memory image |
| ColorNrgba64.BigEndianMemBytes | crate/src/color/nrgba64/mod.rs:174-194 | a big-endian colour lies in memory with each logical channel most significant byte first |
| Ints.SwapBytes64Slot | crate/src/color/nrgba64/mod.rs:346-368 | `u64::swap_bytes` moves the 16-bit word in slot k, byte-swapped, to slot 3 - k |
| ColorNrgba.Widen | crate/src/color/nrgba/mod.rs:29-32 | `v | v << 8` replicates the byte into both halves of the 16-bit channel |
| ColorNrgba.AsRgba | crate/src/color/nrgba/mod.rs:22-36 | every channel, alpha included, widened to 16 bits; the colour channels are not premultiplied |
| ColorNrgba.Narrow | crate/src/color/nrgba/mod.rs:42-45 | `((v >> 8) & 0xff) as u8` is the high byte of the low 16 bits: `256 n <= v mod 65536 < 256 n + 256` |
| ColorNrgba.NarrowWiden | crate/src/color/nrgba/mod.rs:29-45 | narrowing undoes the widening `v | v << 8` |
| ColorNrgba.ConvertFromRgba | crate/src/color/nrgba/mod.rs:38-48 | each channel is the high byte of the low 16 bits of the matching component, bounded as for `Narrow` |
| ColorNrgba.AsRgbaRoundTrip | crate/src/color/nrgba/mod.rs:22-48 | converting an `Nrgba`'s own `as_rgba` back gives the same colour |
| ColorNrgba.U32RoundTrip | crate/src/color/nrgba/mod.rs:50-68 | `u32::from(Nrgba)` and `Nrgba::from(u32)` are mutual inverses |
| ColorCmyk.AsRgba | crate/src/color/cmyk/mod.rs:13-29 | opaque; no colour channel exceeds the white `0xffff - 0x101 k` left by the black ink, and without coloured ink all three equal it |
| ColorCmyk.ConvertFromRgbaAsWritten | crate/src/color/cmyk/mod.rs:31-58 | the conversion as written: black when the smallest component is 0; otherwise `k` is the high byte of `0xffff - min` and the ink of the smallest channel is 0, other channels wrapping in `u32` |
| ColorCmyk.ConvertFromAsWrittenRedIsBlack | crate/src/color/cmyk/mod.rs:35-44 | pure opaque red converts to black (`k = 0xff`, no ink) |
| ColorCmyk.WrappedShare | crate/src/color/cmyk/mod.rs:46-48 | the ink of a channel equal to `w` is 0 |
| ColorCmyk.ConvertFromRgba | crate/src/color/cmyk/mod.rs:31-58 | corrected conversion with `w` the largest component: black when it is 0, `k` the high byte of `0xffff - max`, and no ink for the largest channel |
| ColorCmyk.Share | crate/src/color/cmyk/mod.rs:46-48 | with `v <= w` the product `(w - v) * 0xffff` fits in `u32`, and a channel equal to `w` needs no ink |
| ColorCmyk.ConvertFromCorrected | crate/src/color/cmyk/mod.rs:31-58 | the corrected conversion turns pure red into full magenta and yellow, and agrees with the written one on every grey |
| ColorCmyk.BlackInkRoundTrip | crate/src/color/cmyk/mod.rs:13-58 | a colour with only black ink survives `as_rgba` followed by the corrected conversion |
| ColorCmyk.U32RoundTrip | crate/src/color/cmyk/mod.rs:60-78 | `u32::from(Cmyk)` and `Cmyk::from(u32)` are mutual inverses |
| PixBuf.FlattenLength | src/buffer/mod.rs:33-51 | the byte view of a buffer whose elements take `size` bytes each holds `len * size` bytes |
| PixBuf.RowColumn | src/buffer/mod.rs:66-70 | index `y * width + x` with `x < width` names row `y`, column `x` |
| PixBuf.IndexInGrid | src/buffer/mod.rs:66-70 | every in-range pixel has its index inside the `width * height` elements |
| PixBuf.CellOfIndex | src/buffer/mod.rs:13-22 | every element index below `width * height` is the index of exactly the pixel `(k % width, k / width)` |
| PixBuf.Tabulate | src/buffer/mod.rs:13-22 | the row-major image built from a per-pixel function has `width * height` elements |
| PixBuf.TabulateAt | src/buffer/mod.rs:66-70 | pixel `(x, y)` of the tabulated image, read at `y * width + x`, is `cell(x, y)` |
| PixBuf.Overlay | src/buffer/mod.rs:76-84 | the buffer after the first `n` of a run of stores holds the new values before `n` and the old ones after |
| PixBuf.OverlayStore | src/buffer/mod.rs:76-84 | one more store of the next value extends the overlay by one element |
| PixBuf.OverlayEnds | src/buffer/mod.rs:76-84 | before any store the overlay is the old buffer, after the last it is the new one |
| PixBuf.NextRow | src/buffer/mod.rs:66-70 | the element after the last of row `y` is the first of row `y + 1` |
| PixBuf.RawPixBuf.constructor | src/buffer/mod.rs:13-22 | `new` gives a fresh buffer of the given dimensions with `width * height` elements, all the all-zero-bytes value |
| PixBuf.RawPixBuf.Clone | src/buffer/mod.rs:5-10 | `clone` gives a fresh buffer with the same dimensions and elements |
| PixBuf.RawPixBuf.ColumnOverflow | src/buffer/mod.rs:66-84 | with no `x < width` check, column `x + width` of row `y` is column `x` of row `y + 1` |
| PixBuf.RawPixBuf.RowInBuffer | src/buffer/mod.rs:66-70 | row `y < height` occupies `width` consecutive indices inside the buffer |
| PixBuf.RawPixBuf.RowsFillBuffer | src/buffer/mod.rs:13-22 | the `height` rows together fill the buffer exactly |
| PixBuf.RawPixBuf.ColorSet | src/buffer/mod.rs:73-84 | `color_set` stores the converted colour at `y * width + x`, changes no other element, and `color_get` then returns it |
| PixBuf.RawPixBuf.ColorSetGeneric | crate/src/image/mod.rs:79-84 | `color_set_generic` has exactly the effect of `color_set` |
| PixBuf.RawPixBuf.PixelSet | crate/src/image/mod.rs:86-88 | `pixel_set` stores the pixel unconverted at its index and nothing else |
| PixBuf.RawPixBuf.PixelsInBuffer | src/buffer/mod.rs:13-22 | in a valid buffer every pixel below the width and height has its index inside the buffer |
| PixBuf.RawPixBuf.Dimensions | crate/src/image/mod.rs:59-63 | `dimensions` gives the width and height, whose product is the buffer's length exactly when the buffer is valid, and which then bound every in-buffer pixel |
| PixBuf.RawPixBuf.AsBytesLength | src/buffer/mod.rs:33-51 | the byte view holds `size_of::<T>()` bytes per element |
| PixBuf.FillBy | drivers/multiply/src/main.rs:59-67 | the nested `pixel_set` loops leave the buffer equal to the image tabulated from the per-pixel function |
| Image.Ascii | crate/src/image/farbfeld/mod.rs:28 | a byte-string literal has one byte per character, each the character's code |
| Image.ZipAll | crate/src/image/mod.rs:47-51 | `zip(..).all(..)` holds exactly when every paired position, up to the shorter string, matches or is the wildcard `?` |
| Image.IsValidMagic | crate/src/image/mod.rs:43-52 | a candidate is valid exactly when it is at least as long as the magic and each magic byte is equal to the candidate's or is `?` |
| Image.TrailingBytesIgnored | crate/src/image/mod.rs:43-52 | bytes of the candidate past the magic's length never change the verdict |
| Image.MagicMatchesItself | crate/src/image/mod.rs:43-52 | every magic string is accepted as its own candidate |
| Image.FarbfeldMagicAccepts | crate/src/image/farbfeld/mod.rs:25-29 | the farbfeld magic accepts exactly the inputs of at least 16 bytes that start with `farbfeld` |
| Serialize.FirstMatch | crate/src/serialize/mod.rs:88-92 | no tag exactly when no format's magic matches; otherwise the tag of the first format, in order, whose magic matches |
| Serialize.TryFormat | crate/src/serialize/mod.rs:82-96 | a failing `fill_buf` is passed on; otherwise the tag of the first format whose magic matches the peeked bytes, or the error "No matching magic found." |
| Serialize.EncodeSpecialized | crate/src/serialize/mod.rs:28-33 | forwards to the specialised farbfeld encoder and has its effect on the sink |
| Serialize.EncodeGeneric | crate/src/serialize/mod.rs:41-46 | forwards to the generic farbfeld encoder and has its effect on the sink |
| Serialize.DecodeSpecialized | crate/src/serialize/mod.rs:60-65 | forwards to the farbfeld decoder: the decoded buffer or the error that `decode` gives |
| Farbfeld.DefaultDecodeOptions | crate/src/image/farbfeld/mod.rs:17-21 | the default options check the header |
| Farbfeld.MagicPrefix | crate/src/image/farbfeld/mod.rs:47 | the encoders write the first 8 bytes of the magic, `farbfeld` |
| Farbfeld.Header | crate/src/image/farbfeld/mod.rs:45-50 | the header is 16 bytes: magic prefix, then width and height as big-endian `u32` |
| Farbfeld.ParseHeader | crate/src/image/farbfeld/mod.rs:83-91 | the header is rejected with "Invalid farbfeld magic." exactly when `check_header` is set and the magic does not match |
| Farbfeld.HeaderRoundTrip | crate/src/image/farbfeld/mod.rs:45-50 | every header the encoders write is accepted and gives back the dimensions it was made from |
| Farbfeld.Record | crate/src/image/farbfeld/mod.rs:51 | a pixel's record is the 8 bytes of its stored words as they lie in memory |
| Farbfeld.BodyLength | crate/src/image/farbfeld/mod.rs:51 | the body of `n` pixels is `8 n` bytes |
| Farbfeld.BodyRecord | crate/src/image/farbfeld/mod.rs:51 | bytes `8 i` to `8 i + 8` of the body are the record of pixel `i` |
| Farbfeld.Pixels | crate/src/image/farbfeld/mod.rs:92-93 | reading the body back gives one pixel per 8 bytes |
| Farbfeld.PixelsOfBody | crate/src/image/farbfeld/mod.rs:51-93 | reading the records of a body back gives the pixels that were written |
| Farbfeld.DecodeBytes | crate/src/image/farbfeld/mod.rs:81-96 | a successful decode has exactly width · height pixels |
| Farbfeld.EncodeDecodeRoundTrip | crate/src/image/farbfeld/mod.rs:39-96 | decoding what the encoders write returns the dimensions and the pixels, whatever bytes follow and whatever the options |
| Farbfeld.DecodeRejectsOnlyBadMagic | crate/src/image/farbfeld/mod.rs:83-89 | for 16 or more input bytes, decoding fails with the magic error exactly when `check_header` is set and the magic does not match |
| Farbfeld.WriteHeader | crate/src/image/farbfeld/mod.rs:45-50 | the three header `write_all` calls write the 16 header bytes, or stop with `StorageFull` holding what the sink keeps |
| Farbfeld.EncodeBuffer | crate/src/image/farbfeld/mod.rs:39-54 | the specialised encoder writes the header followed by the buffer's bytes; `Ok` exactly when the whole file fits, otherwise `StorageFull` with the sink holding the prefix it keeps |
| Farbfeld.EncodeImage | crate/src/image/farbfeld/mod.rs:56-79 | the generic encoder writes the header and then every pixel, row by row, converted to big-endian `Nrgba64`: the same file, with the same error behaviour |
| Farbfeld.WriteRow | crate/src/image/farbfeld/mod.rs:68-76 | the inner loop writes the records of row `y` in column order |
| Farbfeld.WritePixel | crate/src/image/farbfeld/mod.rs:69-75 | one step writes the record of pixel `(x, y)` after the records before it |
| Farbfeld.EncodePixel | crate/src/image/farbfeld/mod.rs:69-74 | the bytes written for a colour are the record of its big-endian `Nrgba64` conversion |
| Farbfeld.EncodedRecords | crate/src/image/farbfeld/mod.rs:39-79 | record `i` of the encoded file lies at bytes `16 + 8 i` to `16 + 8 i + 8` |
| Farbfeld.Converted | crate/src/image/farbfeld/mod.rs:69-70 | each pixel of the image is converted to `Nrgba64Be` through its `as_rgba` |
| Farbfeld.Decode | crate/src/image/farbfeld/mod.rs:81-96 | a read error is passed on; otherwise the result is what `DecodeBytes` gives, as a fresh buffer with those dimensions and pixels |
| Farbfeld.NewImage | src/buffer/mod.rs:13-22 | the decoder's buffer has width · height zero pixels |
| Farbfeld.LoadPixels | crate/src/image/farbfeld/mod.rs:93 | `read_exact` into the byte view stores record `i` as pixel `i` |
| FarbfeldStream.Bind | crate/src/image/farbfeld/stream/mod.rs:44-48 | `bind` keeps the colour and truncates each coordinate to `u32`, with no bounds check |
| FarbfeldStream.CoordsOrder | crate/src/image/farbfeld/stream/mod.rs:50-53 | `coords` orders pixels by `x`, then by `y`, and is equal exactly for the same position |
| FarbfeldStream.CmpAsWrittenDisagrees | crate/src/image/farbfeld/stream/mod.rs:29-33 | `cmp` as written calls the pixels (0, 0) and (0, 1) equal although `partial_cmp` and `eq` tell them apart |
| FarbfeldStream.CmpAgreesWithPartialCmp | crate/src/image/farbfeld/stream/mod.rs:23-39 | the corrected `cmp` agrees with `partial_cmp` on every pair and is `Equal` exactly when `eq` holds |
| FarbfeldStream.Colors | crate/src/image/farbfeld/stream/mod.rs:88 | the colours of the pixels, in order |
| FarbfeldStream.RecordsAreBody | crate/src/image/farbfeld/stream/mod.rs:87-104 | the records the stream writes are the farbfeld body of the emitted colours |
| FarbfeldStream.StreamOutEncoded | crate/src/image/farbfeld/stream/mod.rs:67-107 | the stream's output is the whole-image farbfeld file of the emitted colours |
| FarbfeldStream.StreamOutDecodes | crate/src/image/farbfeld/stream/mod.rs:67-107 | when exactly width · height pixels go out, the farbfeld decoder reads back the dimensions and the emitted colours |
| FarbfeldStream.StreamOutLayout | crate/src/image/farbfeld/stream/mod.rs:69-76 | the output is 16 + 8 n bytes: `farbfeld`, big-endian width, big-endian height, then the records |
| FarbfeldStream.StreamHeaderParses | crate/src/image/farbfeld/stream/mod.rs:69-76 | the stream's header reads back as its dimensions |
| FarbfeldStream.MaxExists | crate/src/image/farbfeld/stream/mod.rs:87 | a non-empty heap holds a pixel with the largest coordinates |
| FarbfeldStream.Pop | crate/src/image/farbfeld/stream/mod.rs:87 | `pop` removes one pixel with the largest coordinates |
| FarbfeldStream.WritePixel | crate/src/image/farbfeld/stream/mod.rs:88-91 | writing a popped pixel appends its 8-byte record, or stops with `StorageFull` |
| FarbfeldStream.NonIncreasingOrdered | crate/src/image/farbfeld/stream/mod.rs:87-97 | pixels popped in a run come out with non-increasing coordinates |
| FarbfeldStream.PopStep | crate/src/image/farbfeld/stream/mod.rs:87-97 | one more pop extends the run while keeping it ordered and keeping every pixel accounted for |
| FarbfeldStream.PopWrite | crate/src/image/farbfeld/stream/mod.rs:87-91 | one loop turn pops a largest pixel and writes its record |
| FarbfeldStream.Flush | crate/src/image/farbfeld/stream/mod.rs:87-97 | the inner loop writes at least one pixel, largest first; it stops right after the first pixel above the window, which becomes the new window, or else empties the heap and keeps the window |
| FarbfeldStream.Drain | crate/src/image/farbfeld/stream/mod.rs:99-104 | the final loop writes the heap's pixels largest first and leaves it empty unless a write fails |
| FarbfeldStream.Encode | crate/src/image/farbfeld/stream/mod.rs:66-107 | the output is the header and the records of the emitted pixels; with `Ok` every received pixel is emitted exactly once; a sink without a capacity never fails |
| FarbfeldStream.ReceiveAll | crate/src/image/farbfeld/stream/mod.rs:81-98 | the receive loop writes only received pixels, and with `Ok` the written and the waiting pixels are exactly those received |
| FarbfeldStream.Receive | crate/src/image/farbfeld/stream/mod.rs:82-97 | a pixel above the window is only pushed; otherwise at least one pixel is written, and the window moves to the last written pixel's coordinates or the heap is emptied |
| Bitlang.KeywordsAreShort | examples/bitlang/src/expression.rs:47-74 | the 27 keywords are 1 to 3 characters long and none of them is a number |
| Bitlang.WordLength | examples/bitlang/src/expression.rs:46 | a token runs up to, and not including, the first white-space character |
| Bitlang.Words | examples/bitlang/src/expression.rs:46 | `split_whitespace` yields only non-empty tokens without white space |
| Bitlang.WordsAfterWord | examples/bitlang/src/expression.rs:46 | a word followed by white space or the end is split off as one token |
| Bitlang.WordsAfterSpace | examples/bitlang/src/expression.rs:46 | leading white space yields no token |
| Bitlang.WordsOfUnwords | examples/bitlang/src/expression.rs:46 | splitting words joined by single spaces gives the words back |
| Bitlang.ToDigit | examples/bitlang/src/expression.rs:91 | `char::to_digit` gives a digit below the radix, only for ASCII letters and digits, and the decimal value for radix up to 10 |
| Bitlang.ToDigitChar | examples/bitlang/src/expression.rs:91 | every digit below the radix, printed, is read back by `to_digit` |
| Bitlang.StepSigned | examples/bitlang/src/expression.rs:91 | one step of the digit loop on a signed value is the signed value of the extended digit string |
| Bitlang.Accumulate | examples/bitlang/src/expression.rs:91 | the digit loop succeeds only on all-digit strings and then returns the signed positional value; it fails only with `InvalidDigit` or the overflow of the sign's direction |
| Bitlang.FromStrRadix | examples/bitlang/src/expression.rs:91 | `isize::from_str_radix` fails with `Empty` exactly on the empty string |
| Bitlang.ValuePrefix | examples/bitlang/src/expression.rs:91 | dropping the last digit never increases the value |
| Bitlang.AccumulateInRange | examples/bitlang/src/expression.rs:91 | all digits valid and the signed value within `isize`: the parse returns it |
| Bitlang.AccumulateOutOfRange | examples/bitlang/src/expression.rs:91 | all digits valid but the signed value outside `isize`: `PosOverflow` or `NegOverflow` by the sign |
| Bitlang.AccumulateInvalidDigit | examples/bitlang/src/expression.rs:91 | the first non-digit, reached before any overflow, makes the parse fail with `InvalidDigit` |
| Bitlang.ValueSnoc | examples/bitlang/src/expression.rs:91 | appending a digit multiplies the value by the radix and adds the digit |
| Bitlang.Digits | examples/bitlang/src/expression.rs:91 | the radix digits of `n` are at least one, all valid, and have value `n` |
| Bitlang.FromStrRadixOfFormat | examples/bitlang/src/expression.rs:91 | `from_str_radix` reads back every `isize` written in its radix, negative ones included |
| Bitlang.Radix | examples/bitlang/src/expression.rs:82-90 | `0b`, `0o` and `0x` select radix 2, 8 and 16 and are removed; anything else is decimal and kept whole |
| Bitlang.MulSign | examples/bitlang/src/expression.rs:92 | `n * sign` is the mathematical product except for `isize::MIN * -1` |
| Bitlang.CompileToken | examples/bitlang/src/expression.rs:47-97 | a keyword becomes its item; any other token becomes a number or an error naming the token, and `InvalidDigit` is never reported as an invalid integer |
| Bitlang.CompileLiteral | examples/bitlang/src/expression.rs:75-97 | a non-keyword token becomes a number, or an error naming the token whose kind is never `InvalidDigit` |
| Bitlang.UnknownStart | examples/bitlang/src/expression.rs:76-81 | a token that does not start with a sign or a digit is an unknown token |
| Bitlang.RadixOfPrefixed | examples/bitlang/src/expression.rs:82-90 | the prefix of a literal selects its radix and the digits follow it |
| Bitlang.SignedNumber | examples/bitlang/src/expression.rs:76-92 | an optional sign before a digit-led literal that parses to `n` compiles to `n` times the sign |
| Bitlang.SignedLiteral | examples/bitlang/src/expression.rs:76-96 | an optional sign, a radix prefix and valid digits whose value fits `isize` compile to that value with the sign |
| Bitlang.ValueBelowPow16 | examples/bitlang/src/expression.rs:91 | a string of `n` digits of radix at most 16 has value below 16^n |
| Bitlang.SevenDigitLiteral | examples/bitlang/src/expression.rs:139-145 | every optionally signed seven-digit decimal, binary, octal or hexadecimal literal is one token that compiles to a number |
| Bitlang.Compile | examples/bitlang/src/expression.rs:43-102 | `compile` succeeds exactly when every token compiles, and then gives one item per token in order; otherwise the error of the first failing token |
| Prng.RotlBit | drivers/melt/src/prng.rs:88-91 | `rotl(x, k)` for `0 < k < 64` is the rotation: bit `i` comes from bit `i - k` modulo 64 |
| Prng.RotlInverse | drivers/melt/src/prng.rs:88-91 | rotating by `64 - k` undoes a rotation by `k` |
| Prng.Unshift17Inverse | drivers/melt/src/prng.rs:32-39 | `s ^ (s << 17)` can be undone, so the shifted xor of `next_state` loses nothing |
| Prng.UnstepStep | drivers/melt/src/prng.rs:30-44 | the state update of `next_state` is injective: `Unstep` undoes it |
| Prng.Shift17Unshift | drivers/melt/src/prng.rs:32-39 | the inverse of `s ^ (s << 17)` is also a right inverse |
| Prng.StepUnstep | drivers/melt/src/prng.rs:30-44 | the state update is onto: every state has a predecessor, so it is a bijection |
| Prng.StepLinear | drivers/melt/src/prng.rs:32-41 | the state update is linear over GF(2): it maps `a ^ b` to the xor of the updates |
| Prng.ZeroFixedPoint | drivers/melt/src/prng.rs:30-44 | the all-zero state is a fixed point of the update and outputs 0 |
| Prng.LongJumpLinear | drivers/melt/src/prng.rs:46-76 | `long_jump` is linear: jumping from `a ^ b` gives the xor of the jumps |
| Prng.LongJumpCommutes | drivers/melt/src/prng.rs:46-76 | jumping commutes with stepping, so the jumped generator produces the original sequence shifted |
| Prng.LongJumpZero | drivers/melt/src/prng.rs:46-76 | the all-zero state stays zero after a jump |
| Prng.State.constructor | drivers/melt/src/prng.rs:14-26 | `new` with clock reading `nanos` holds the jump of `[n << 3, n << 2, n << 1, n]`, `n` the reading truncated to `u64` |
| Prng.State.NextState | drivers/melt/src/prng.rs:28-44 | `next_state` returns `rotl(s1 * 5, 7) * 9` of the old state and leaves the updated state |
| Prng.State.LongJump | drivers/melt/src/prng.rs:46-76 | `long_jump` leaves the xor of the states selected by the bits of the jump polynomial over 256 steps |
| Prng.State.Next | drivers/melt/src/prng.rs:79-86 | `next` never ends the stream: it returns `Some` of the `next_state` output and applies the update |
| Melt.Pairs | drivers/melt/src/main.rs:36 | `take(n)` of the pairs yields `min(n, len / 2)` pairs, pair `i` being values `2 i` and `2 i + 1` |
| Melt.PairsPrefix | drivers/melt/src/main.rs:36 | with `2 n` values `take(n)` yields exactly `n` pairs, and taking fewer gives a prefix |
| Melt.NextTwo.constructor | drivers/melt/src/main.rs:28-30 | the pairing iterator starts at the first value of the stream |
| Melt.NextTwo.Next | drivers/melt/src/main.rs:60-68 | `next` yields the next two values, or `None` (consuming what is left) when either is missing |
| Melt.Column | drivers/melt/src/main.rs:40-50 | column `x` of the image has one pixel per row |
| Melt.OffsetInjective | drivers/melt/src/main.rs:41-49 | distinct pixels of the image have distinct buffer indices |
| Melt.SwapRows | drivers/melt/src/main.rs:48-49 | exchanging rows `y` and `y + 1` of a column keeps its pixels and changes no other row |
| Melt.SwapDown | drivers/melt/src/main.rs:48-49 | the two `pixel_set` calls of one step keep the buffer's length |
| Melt.SwapDownColumn | drivers/melt/src/main.rs:48-49 | one step exchanges rows `y` and `y + 1` of column `x` |
| Melt.SwapDownOtherColumn | drivers/melt/src/main.rs:48-49 | one step changes no other column |
| Melt.ColumnBubble | drivers/melt/src/main.rs:40-50 | the inner loop on one column keeps its length |
| Melt.BubbleColumns | drivers/melt/src/main.rs:40-50 | the inner loop on the buffer bubbles column `x` and changes no other column |
| Melt.ColumnBubblePerm | drivers/melt/src/main.rs:40-50 | the inner loop only reorders the pixels of the column |
| Melt.RestRow | drivers/melt/src/main.rs:40-50 | a pixel coming down from row `y` stops at the last row whose keys below it are all at least its own |
| Melt.ColumnBubbleShifts | drivers/melt/src/main.rs:40-50 | the inner loop moves the pixel at row `y` down to its resting row and shifts the pixels it passes up by one |
| Melt.KeyIsU64 | drivers/melt/src/main.rs:44 | the key compared is `u64::from` of the big-endian pixel |
| Melt.MeltStreamPairs | drivers/melt/src/main.rs:36-51 | taking pairs straight from the stream melts the image as the list of pairs does |
| Melt.MeltStreamTake | drivers/melt/src/main.rs:36 | once `take(n)` or the stream is exhausted, the pairs taken so far are all the pairs |
| Melt.MeltKeepsColumns | drivers/melt/src/main.rs:36-51 | melting keeps every column's pixels, only reordered within the column |
| Melt.BubbleSwaps | drivers/melt/src/main.rs:44-49 | a pixel whose key is not greater than the one below is swapped down and the loop goes on |
| Melt.BubbleRests | drivers/melt/src/main.rs:44-46 | a pixel whose key is greater than the one below, or one on the last row, stops the loop |
| Melt.BubbleDown | drivers/melt/src/main.rs:40-50 | the inner loop leaves the buffer as `Bubble` describes |
| Melt.MeltBy | drivers/melt/src/main.rs:27-54 | the outer loop panics on `% 0` exactly for a one-row, non-empty image with a pair to take, and leaves the image unchanged then; otherwise the image is melted by the first `width * height` pairs |
| Melt.Melt | drivers/melt/src/main.rs:27-54 | `melt` is the outer loop with the `u64::from` key |
| Invert.XorAllOnes | drivers/invert/src/main.rs:32 | exclusive or with all ones complements a `k`-bit value |
| Invert.Complement | drivers/invert/src/main.rs:32 | `v ^ 0xffff` on a 16-bit channel is `0xffff - v` |
| Invert.InvertPixel | drivers/invert/src/main.rs:28-33 | the written pixel has each colour channel complemented and the alpha unchanged |
| Invert.InvertPixelTwice | drivers/invert/src/main.rs:28-33 | inverting a pixel twice gives it back |
| Invert.InvertAll | drivers/invert/src/main.rs:25-37 | the inverted buffer has the same length |
| Invert.InvertAllTwice | drivers/invert/src/main.rs:25-37 | inverting a whole image twice gives it back |
| Invert.InvertImage | drivers/invert/src/main.rs:25-37 | `invert` leaves every pixel replaced by its inverse and nothing else |
| Multiply.GridOf | drivers/multiply/src/main.rs:79-82 | the pixels and size `sum_channel` reads from a valid image fit together |
| Multiply.HighByte | drivers/multiply/src/main.rs:85-88 | `v >> 8` is the high byte of the channel |
| Multiply.ShiftKeepsLowByte | drivers/multiply/src/main.rs:91 | `(p << 8) & 0xffff` keeps only the low byte of `p`, moved up |
| Multiply.HighProduct | drivers/multiply/src/main.rs:84-91 | the product of two high bytes is at most 255 · 255 |
| Multiply.Summand | drivers/multiply/src/main.rs:91 | a summand is the low byte of the high-byte product, moved up |
| Multiply.Terms | drivers/multiply/src/main.rs:79-93 | the first `n` summands add up to at most `n · 0xffff` |
| Multiply.TermsModDot | drivers/multiply/src/main.rs:79-94 | modulo 2^16 the summands add up to the low byte of the high-byte dot product, moved up |
| Multiply.SumChannelIsDot | drivers/multiply/src/main.rs:72-95 | `sum_channel` is the low byte of the dot product of row `i` of the first image and column `j` of the second, on the channels' high bytes, moved up |
| Multiply.ProductPixelChannels | drivers/multiply/src/main.rs:61-65 | each channel of an output pixel is its own channel's dot product, so reduced |
| Multiply.ProductImage | drivers/multiply/src/main.rs:57-67 | the output is `snd.width` wide and `fst.height` high |
| Multiply.ProductImageAt | drivers/multiply/src/main.rs:59-67 | pixel `(j, i)` of the output is the product pixel of row `i` and column `j` |
| Multiply.Multiply | drivers/multiply/src/main.rs:49-70 | the width check fails exactly when the second image's width differs from the first's height; otherwise an unchecked read panics exactly when the output is non-empty and the first image is wider than the second is high; otherwise the result is the product image |
| Multiply.Usage | drivers/multiply/src/main.rs:45-47 | `usage` is always an error with a message |
| Bentley.Shift | drivers/bentley/src/main.rs:34-35 | the shift is at most an eighth of the height, and zero for images shorter than 255 rows |
| Bentley.SourceRow | drivers/bentley/src/main.rs:35 | the source row never lies below the pixel's own row, and is that row in images shorter than 255 rows |
| Bentley.SourceRowSaturates | drivers/bentley/src/main.rs:35 | the source row is `shift` rows up, or row 0 when the shift is larger than the row |
| Bentley.BentleyImage | drivers/bentley/src/main.rs:27-41 | the result has the size of the original |
| Bentley.BentleyImageAt | drivers/bentley/src/main.rs:30-37 | pixel `(x, y)` of the result is the original pixel in column `x`, on the source row of its own luma |
| Bentley.ShortImageUnchanged | drivers/bentley/src/main.rs:34-36 | an image shorter than 255 rows comes out unchanged |
| Bentley.ShortImageKeeps | drivers/bentley/src/main.rs:34-36 | in an image shorter than 255 rows each pixel is kept |
| Bentley.BentleyBy | drivers/bentley/src/main.rs:27-41 | the clone-and-overwrite loops return a new image of the same size equal to the specified result, whatever the luma |
| Bentley.BentleyImageOf | drivers/bentley/src/main.rs:27-41 | `bentley` on a farbfeld image, with the luma of the conversion to `Gray` |
| Halftone.BlackIsBe | examples/halftone/src/main.rs:62 | `BLACK` is the colour `be` builds from opaque black channels |
| Halftone.WhiteIsBe | examples/halftone/src/main.rs:63 | `WHITE` is the colour `be` builds from opaque white channels |
| Halftone.MaskIsPermutation | examples/halftone/src/main.rs:19-24 | the Bayer mask holds each threshold from 1 to 16 exactly once in its 16 entries |
| Halftone.ThresholdPosition | examples/halftone/src/main.rs:19-24 | every threshold from 1 to 16 has a position in the mask |
| Halftone.Pix | examples/halftone/src/main.rs:74 | the value compared exceeds `0xff` exactly when the luma plus the scaled mask entry exceeds 255, with no 16-bit overflow |
| Halftone.Tone | examples/halftone/src/main.rs:74-75 | the stored colour is black or white, and white exactly when the luma plus the scaled mask entry exceeds 255 |
| Halftone.ToneMonotone | examples/halftone/src/main.rs:74-75 | a brighter pixel under the same mask entry is never darker |
| Halftone.ToneExtremes | examples/halftone/src/main.rs:74-75 | full luma is white under every entry; zero luma is white only under the entry 16 |
| Halftone.Clamp | examples/halftone/src/main.rs:69-71 | the clamp is the value or the maximum, whichever is smaller |
| Halftone.BlockWrites | examples/halftone/src/main.rs:68-77 | `apply` makes 16 stores, each inside the image |
| Halftone.Stores | examples/halftone/src/main.rs:75 | a sequence of stores keeps the buffer length |
| Halftone.StoresLastWins | examples/halftone/src/main.rs:75 | the last store to a pixel decides its colour |
| Halftone.StoresStep | examples/halftone/src/main.rs:75 | one more store updates one pixel |
| Halftone.StoresMiss | examples/halftone/src/main.rs:75 | a pixel no store names keeps its colour |
| Halftone.Apply | examples/halftone/src/main.rs:55-78 | `Mask::apply` leaves the new image equal to the old one after the 16 stores of the block |
| Halftone.StepWrite | examples/halftone/src/main.rs:68-75 | the store of mask row `i`, column `j` goes to the clamped pixel with the tone of its luma under entry `4i + j` |
| Halftone.MaskBounds | examples/halftone/src/main.rs:22-23 | every mask entry lies between 1 and 16, and its scaled value is at most 256 |
| Halftone.MaskIndex | examples/halftone/src/main.rs:68-74 | the mask entry that decides a pixel is one of the 16 |
| Halftone.HalftoneImage | examples/halftone/src/main.rs:42-52 | the result has the size of the original |
| Halftone.HalftoneImageAt | examples/halftone/src/main.rs:42-78 | every pixel of the result is black or white, and white exactly when its luma plus its scaled mask entry exceeds 255 |
| Halftone.ProgressAt | examples/halftone/src/main.rs:45-49 | while the loops run, each pixel already reached has its halftone colour and every other pixel is still zero |
| Halftone.ResultAt | examples/halftone/src/main.rs:42-52 | each pixel of the result has its halftone colour |
| Halftone.WriteTarget | examples/halftone/src/main.rs:69-71 | step `k` of `apply` stores inside the 4 × 4 block at `(x, y)` |
| Halftone.ApplyMisses | examples/halftone/src/main.rs:68-77 | `apply` touches nothing outside its block |
| Halftone.LaterStepMisses | examples/halftone/src/main.rs:68-77 | a clamped store is not overwritten by a later step of the same block |
| Halftone.ApplyHits | examples/halftone/src/main.rs:68-77 | inside its block `apply` leaves each pixel with its halftone colour |
| Halftone.LaterStepsMiss | examples/halftone/src/main.rs:68-77 | no later step of the block stores at a pixel once its deciding step is past |
| Halftone.BlockOffsets | examples/halftone/src/main.rs:45-46 | within a block that starts on the grid, the offset from the start is the remainder by 4 |
| Halftone.ApplyAdvances | examples/halftone/src/main.rs:45-49 | one `apply` advances the loops' state by exactly one block |
| Halftone.ApplyAdvancesAt | examples/halftone/src/main.rs:45-49 | after one `apply` each pixel has the colour the next loop state gives it |
| Halftone.BlockPixelAdvances | examples/halftone/src/main.rs:45-49 | a pixel of the block goes from zero to its halftone colour |
| Halftone.OtherPixelStays | examples/halftone/src/main.rs:45-49 | a pixel outside the block keeps its colour |
| Halftone.SameProgress | examples/halftone/src/main.rs:45-49 | two loop states that have done the same pixels are the same image |
| Halftone.NothingDone | examples/halftone/src/main.rs:43 | the zeroed new image is the state before the first block |
| Halftone.NoBlockDone | examples/halftone/src/main.rs:43-45 | before the first block no pixel is done |
| Halftone.AllDone | examples/halftone/src/main.rs:45-51 | once every band is done the image is the result |
| Halftone.HalftoneBy | examples/halftone/src/main.rs:42-52 | `halftone` returns a new image of the same size equal to the specified result |
| Halftone.HalftoneRow | examples/halftone/src/main.rs:46-48 | one pass of the inner loop completes a band of four rows |
| Halftone.Aligned | examples/halftone/src/main.rs:45-46 | stepping by 4 stays on the block grid |
| Halftone.RowDone | examples/halftone/src/main.rs:46-48 | past the last column, the band is done |
| Halftone.HalftoneImageOf | examples/halftone/src/main.rs:42-52 | `halftone` on a farbfeld image, with the luma of the conversion to `Gray` |
| EncodeExample.WeightedSumBetween | examples/encode/src/main.rs:99-103 | the weighted sum of `lerp` lies between 255 times the smaller and 255 times the larger value |
| EncodeExample.Lerp | examples/encode/src/main.rs:99-103 | the blend lies between its two ends, so the cast to `u8` loses nothing |
| EncodeExample.LerpEnds | examples/encode/src/main.rs:99-103 | `t = 0` gives the first value and `t = 255` the second |
| EncodeExample.LerpSame | examples/encode/src/main.rs:99-103 | blending a value with itself gives it back |
| EncodeExample.LerpNrgba | examples/encode/src/main.rs:90-96 | each channel of the blend, alpha included, lies between the two colours' channels |
| EncodeExample.LerpNrgbaEnds | examples/encode/src/main.rs:90-96 | the end weights give the two colours, and a colour blended with itself is kept |
| EncodeExample.WrappedDifference | examples/encode/src/main.rs:76-78 | `x - HALF` on `usize` is the difference, or the difference plus 2^64 left of the centre |
| EncodeExample.SquarePlusWord | examples/encode/src/main.rs:79 | the square of a wrapped negative difference is the square of the difference modulo 2^64 |
| EncodeExample.WrappedSquare | examples/encode/src/main.rs:79 | the wrapped product of a wrapped difference with itself is the true square |
| EncodeExample.SquareAtMost | examples/encode/src/main.rs:79 | no pixel is further than `HALF` from the centre along one axis |
| EncodeExample.InCircleIsDisc | examples/encode/src/main.rs:76-79 | the wrapping test holds exactly for the pixels strictly inside the circle of radius 250 about the centre |
| EncodeExample.ColorAfterShape | examples/encode/src/main.rs:72-83 | the running colour is always opaque full red with equal green and blue, a shade between red and white |
| EncodeExample.LerpKeepsShape | examples/encode/src/main.rs:80-82 | blending two shades between red and white gives another |
| EncodeExample.DrawnImage | examples/encode/src/main.rs:57-87 | the drawn image has 500 × 500 pixels |
| EncodeExample.DrawnImageShades | examples/encode/src/main.rs:57-87 | every drawn pixel is a shade between red and white |
| EncodeExample.DrawnImageAt | examples/encode/src/main.rs:75-86 | pixel `(x, y)` is the colour before it blended halfway toward red inside the circle and toward white outside |
| EncodeExample.DrawnImageIndex | examples/encode/src/main.rs:75-86 | element `k` of the image is the running colour after `k + 1` pixels |
| EncodeExample.OffsetCell | examples/encode/src/main.rs:84 | pixel `(x, y)` sits at index `y · 500 + x` and is recovered from it |
| EncodeExample.ColorAfterStep | examples/encode/src/main.rs:79-83 | one step of the running colour blends toward red inside the circle and toward white outside |
| EncodeExample.DrawImage | examples/encode/src/main.rs:57-87 | `draw_image` leaves the buffer equal to the drawn image |
| EncodeExample.DrawRow | examples/encode/src/main.rs:77-85 | one pass of the inner loop draws row `y` and carries the running colour to the next row |
| EncodeExample.NewDrawnImage | examples/encode/src/main.rs:41-42 | a new 500 × 500 image after `draw_image` holds the drawn image |
| Braille.Lit | drivers/braille/src/main.rs:78-79 | a dot is raised exactly when the luma is below the threshold, or not below it when inverted |
| Braille.DotBits | drivers/braille/src/main.rs:45-55 | a pattern of `n` dots fits in `n` bits |
| Braille.DotBitsShift | drivers/braille/src/main.rs:48-55 | shifting the pattern right by `k` leaves the pattern of the dots from `k` on |
| Braille.DotBitsDecode | drivers/braille/src/main.rs:48-55 | bit `k` of the pattern is dot `k` |
| Braille.DotBitsInjective | drivers/braille/src/main.rs:48-55 | two dot lists of the same length with the same pattern are equal |
| Braille.DotBitsOfEight | drivers/braille/src/main.rs:48-55 | the pattern of a cell's eight dots fits in a byte |
| Braille.EncodeUtf8 | drivers/braille/src/main.rs:63 | a code point from U+0800 to U+FFFF encodes as one lead byte and two continuation bytes |
| Braille.Utf8RoundTrip | drivers/braille/src/main.rs:63 | decoding the three bytes gives the code point back |
| Braille.BrailleUtf8 | drivers/braille/src/main.rs:56-63 | the character U+2800 plus a pattern is the bytes `E2`, `A0 + bits / 64`, `80 + bits % 64` |
| Braille.CellReads | drivers/braille/src/main.rs:48-55 | when the last read of a cell is inside the buffer, so are its other seven |
| Braille.CellDots | drivers/braille/src/main.rs:48-55 | a cell samples eight pixels |
| Braille.CellBytes | drivers/braille/src/main.rs:56-63 | a cell is written as three bytes |
| Braille.RowStep | drivers/braille/src/main.rs:44-66 | a cell inside the buffer contributes its character ahead of the rest of the row |
| Braille.RowPanics | drivers/braille/src/main.rs:48-55 | a cell that reads past the buffer ends the output and the run |
| Braille.RowEnds | drivers/braille/src/main.rs:67 | past the last column the row ends with a newline |
| Braille.RowsStep | drivers/braille/src/main.rs:43-68 | a finished row is followed by the next band of four rows; an unfinished one by nothing |
| Braille.CellTextCells | drivers/braille/src/main.rs:48-63 | the cell text of a buffer gives each cell's bytes |
| Braille.RowFinishes | drivers/braille/src/main.rs:43-55 | in an image of even width and a height divisible by 4 every row is finished |
| Braille.RowsFinish | drivers/braille/src/main.rs:43-68 | in such an image all rows are finished |
| Braille.EmptyRowsFinish | drivers/braille/src/main.rs:44 | an image of width 0 writes only newlines and finishes |
| Braille.RowStops | drivers/braille/src/main.rs:44-55 | a row with a cell that reads past the buffer is not finished |
| Braille.RowsStop | drivers/braille/src/main.rs:43-68 | an unfinished row stops the whole run |
| Braille.LastCell | drivers/braille/src/main.rs:43-55 | in a non-empty image of odd width or of a height not divisible by 4, the last cell reads past the buffer |
| Braille.CellBits | drivers/braille/src/main.rs:45-55 | the eight shifted `lum_at` bits or-ed together are the cell's dot pattern, each pixel at its braille dot position |
| Braille.RowLength | drivers/braille/src/main.rs:44-67 | a finished row is one three-byte character per two columns, `ceil(width / 2)` in all, then a newline |
| Braille.RowsLength | drivers/braille/src/main.rs:43-68 | the finished rows from `y` are one such line per band of four rows |
| Braille.BrailleTextLength | drivers/braille/src/main.rs:42-70 | a finished run writes `ceil(height / 4)` lines of `ceil(width / 2)` characters and a newline each |
| Braille.BrailleFinishesIff | drivers/braille/src/main.rs:42-70 | `braille` gets to the end exactly when the image is empty or its width is even and its height a multiple of 4 |
| Braille.CellCharacter | drivers/braille/src/main.rs:45-63 | a cell's character is U+2800 plus its pattern, and each of the eight sampled pixels owns its own bit, in braille dot order |
| Braille.EightBits | drivers/braille/src/main.rs:48-55 | each of the eight bits of a pattern is one dot |
| Braille.PrefixChunk | drivers/braille/src/main.rs:65 | a write appends its chunk after what came before |
| Braille.BrailleBy | drivers/braille/src/main.rs:42-70 | the sink receives the braille text, up to a panic or until it is full; the result is `Ok` exactly when all of it was written and the run got to the end |
| Braille.BraillePixels | drivers/braille/src/main.rs:43-69 | the loops write the braille text of the pixels, reported as for `BrailleBy` |
| Braille.BrailleRows | drivers/braille/src/main.rs:43-68 | the rows loop writes every row's text, stopping at a panic or a full sink |
| Braille.Ends | drivers/braille/src/main.rs:65-69 | the three ways a run ends are reported as `Ok`, a panic or a write error |
| Braille.BrailleRow | drivers/braille/src/main.rs:44-67 | one row of cells and its newline are written, or the run stops |
| Braille.Rebased | drivers/braille/src/main.rs:65-67 | a truncated continuation of a written prefix is a truncation of the whole text |
| Braille.RowCells | drivers/braille/src/main.rs:44-66 | the cells of one row are written in order |
| Braille.RowCell | drivers/braille/src/main.rs:45-65 | one cell's character is written, or the cell panics |
| Braille.CellPanics | drivers/braille/src/main.rs:48-55 | a cell past the buffer ends its row's text |
| Braille.CellFits | drivers/braille/src/main.rs:48-65 | a cell inside the buffer comes next in its row's text |
| Braille.Chunk | drivers/braille/src/main.rs:65 | a cell's bytes sit at their place in the whole text |
| Braille.Cell | drivers/braille/src/main.rs:45-63 | the bytes computed for a cell are its character |
| Braille.BrailleOf | drivers/braille/src/main.rs:42-80 | `braille` with the program's threshold and inversion writes the braille text of the dots `lum_at` raises |
| Io.Writer.Accepted | crate/src/image/farbfeld/mod.rs:48-51 | a sink keeps at most the bytes written, and all of them exactly when they fit |
| Io.Writer.Kept | crate/src/image/farbfeld/mod.rs:48-51 | of bytes written after a known prefix a sink keeps at most all, and all when it has no capacity |
| Io.Writer.WriteAll | crate/src/image/farbfeld/mod.rs:48-51 | `write_all` succeeds exactly when the bytes fit; otherwise it keeps what fits and fails with `StorageFull` |
| Io.Writer.WriteAllOf | crate/src/image/farbfeld/mod.rs:63-74 | a `write_all` of the next chunk of a planned output extends the sink by that chunk, or leaves the part of the whole output that fits and fails |
| Io.OutcomeAfter | crate/src/image/farbfeld/stream/mod.rs:73-103 | after a header that was written in full, the outcome of the rest is the outcome of the whole output |
| Io.Reader.ReadExact | crate/src/image/farbfeld/mod.rs:84 | `read_exact` returns the next `n` bytes and consumes them, or fails with `UnexpectedEof` when fewer are left, or with the source's own fault |
| Io.Reader.FillBuf | crate/src/serialize/mod.rs:87 | `fill_buf` exposes the buffered bytes without consuming them, or fails with the source's fault |

## Left out

- Arithmetic follows release builds: overflow wraps. `Bitlang.MulSign` wraps `isize::MIN * -1`, `Color.LumaSum` and `Ints.TruncateU32` wrap to 32 bits, `ColorCmyk.ConvertFromRgbaAsWritten` wraps its `u32` underflow, `Melt.MeltBy` wraps `height - 1` at height 0, and `EncodeExample.InCircle` wraps `x - HALF`. A debug build panics at each of these points instead.
- Panics that are not overflow are modelled as follows. An out-of-range index in `color_get`, `color_set` and `pixel_set` is a `requires` of `PixBuf.RawPixBuf.ColorGet`, `ColorSet` and `PixelSet`. The unchecked read in `multiply` is `Err(IndexOutOfBounds)`, the `% (height - 1)` in `melt` is `Err(DivideByZero)`, and a read past the buffer in `braille` is `Err(IndexPanic)`.
- PixBuf.RawPixBuf.constructor: does not model the overflow of `width * height * size_of::<T>()` or the raw allocation in `RawPixBuf::new`. The buffer always holds `width * height` elements, so `Farbfeld.Decode` on a header whose area overflows `usize` reports a short input rather than an undersized buffer.
- PixBuf.RawPixBuf.PixelSet: `pixel_set` calls `color_set` with the conversion `specialized::For<Self::Pixel>`, which the crate does not define (`specialized` declares only `No`, `Yes<T>` and `Aye`). The model takes that conversion to be the identity, so `pixel_set` stores the pixel unchanged, as the crate's own white-image example expects. Melt, invert, multiply, bentley, halftone and the encode example rely on this. A specialised conversion such as the `u64` round trip, which reverses a big-endian colour's channels (`ColorNrgba64.SpecializedBeToBeReverses`), is not what the model applies.
- PixBuf.RawPixBuf.ColorGet: it is the array read itself and carries no `ensures`. What it returns is stated by `PixBuf.TabulateAt` and the lemmas that use it.
- The byte views of `RawPixBuf` are modelled as the concatenation of each element's bytes under an element encoder, not as a reinterpreting pointer cast.
- The `mpsc` channel of the streaming encoder is a finite input sequence, and the channel closing is the end of that sequence. Senders, threads and blocking are not modelled.
- The stream encoder's heap is a multiset popped at a maximum `coords()`. Which of two pixels with equal coordinates comes out first is left open, as `BinaryHeap` does not specify it.
- `State::new` reads the clock. `Prng.State.constructor` takes the nanoseconds as a parameter instead.
- `melt` draws from an endless prng stream. `Melt.MeltBy` takes the first values of that stream as a parameter `values`, and `Prng` models the generator separately.
- ColorCmyk.ConvertFromRgba: requires 16-bit components, as `as_rgba` of every colour type gives. On wider inputs the source's arithmetic is not modelled.
- The `cfg(target_endian)` branches are fixed to a little-endian host. Lemmas that take the host as a parameter (`Ints.ToFromOrderOnAnyHost`, `Color.LoadStoreOnAnyHost`) cover both orders.
- `DecodeGeneric::decode_generic` is not modelled. Farbfeld implements `Decode` only in its specialised form, so the generic forwarder has no instance here.
- `Expression` and `Context` of bitlang, which evaluate compiled items, are not part of this model. Only `compile` and its items are.
- The PNG, JPEG and WebP wrappers call foreign codecs and are not part of this model.
- The older `src/` tree is not part of this model, apart from `src/buffer/mod.rs`, the only `RawPixBuf` source. That tree does not build against the rest of the crate.
- The `main` functions, command-line parsing, stdin and stdout of the drivers and examples are left out, as is the encode example's choice of output format. The filters are modelled from the decoded image to the image or text they produce.
- The floating-point examples and drivers (blur, art, recur), the drivers that wrap other libraries (resize, font), candy, topng and toff are not part of this model.
- `convert_into` only calls `convert_from`. It is folded into the conversions.

## Findings

| source | as written | input that shows it | evidently intended | confidence | as-written member | corrected member |
|---|---|---|---|---|---|---|
| crate/src/color/cmyk/mod.rs:35 | `w` is the minimum of the components, so every colour with a zero component becomes black, and the differences `w - r` underflow otherwise | `Rgba(0xffff, 0, 0, 0xffff)`, pure red, converts to `Cmyk{0, 0, 0, 0xff}` | `w` is the maximum, the usual RGB to CMYK formula, so pure red gives `Cmyk{0, 0xff, 0xff, 0}` | high; not executed | ColorCmyk.ConvertFromAsWrittenRedIsBlack | ColorCmyk.ConvertFromCorrected |
| crate/src/color/nrgba64/mod.rs:321-332 | `ConvertFrom` for `Nrgba64<LittleEndian>` swaps the bytes of every channel whatever the host | on a little-endian host, red `0x0102` reads back as `0x0201` | use `to_le`, as the other colour types do, so that each getter returns the converted component | high; not executed | ColorNrgba64.ConvertFromLeAsWrittenSwaps | ColorNrgba64.ConvertFromRgba |
| crate/src/image/farbfeld/stream/mod.rs:31 | `Ord::cmp` compares `(self.x, self.y)` with `(other.x, other.x)` | pixels at `(0, 0)` and `(0, 1)` compare `Equal`, while `partial_cmp` says `Less` | compare with `(other.x, other.y)`, which agrees with `partial_cmp` | high; not executed | FarbfeldStream.CmpAsWrittenDisagrees | FarbfeldStream.CmpAgreesWithPartialCmp |
