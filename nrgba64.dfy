/** `Nrgba64<E>` (crate/src/color/nrgba64/mod.rs): four 16-bit channels,
    not alpha-premultiplied, each stored in the byte order of the tag `E`. */
module ColorNrgba64 {
  import opened Ints
  import opened Color

  /** The four stored words and the tag; the getters below give the logical values. */
  datatype Nrgba64 = Nrgba64(r: uint16, g: uint16, b: uint16, a: uint16, tag: Endian)

  /** `Nrgba64Be`, the pixel type of farbfeld images. */
  type Nrgba64Be = c: Nrgba64 | c.tag == BigEndian witness Nrgba64(0, 0, 0, 0, BigEndian)

  /** `get_channels`: the stored words, whatever the tag. */
  function GetChannels(c: Nrgba64): (uint16, uint16, uint16, uint16)
  {
    (c.r, c.g, c.b, c.a)
  }

  /** `cast`: retags without touching the stored words. */
  function Cast(c: Nrgba64, tag: Endian): (d: Nrgba64)
    ensures d.tag == tag && GetChannels(d) == GetChannels(c)
  {
    c.(tag := tag)
  }

  // ---------------------------------------------------------------- getters

  function R(c: Nrgba64): uint16 { Load(c.tag, c.r) }
  function G(c: Nrgba64): uint16 { Load(c.tag, c.g) }
  function B(c: Nrgba64): uint16 { Load(c.tag, c.b) }
  function A(c: Nrgba64): uint16 { Load(c.tag, c.a) }

  /** The logical channels of two colours with the same tag agree exactly when
      the colours are equal. */
  lemma {:induction false} LogicalChannelsDetermine(c: Nrgba64, d: Nrgba64)
    requires c.tag == d.tag
    ensures (R(c), G(c), B(c), A(c)) == (R(d), G(d), B(d), A(d)) <==> c == d
  {
    LoadStore(c.tag, c.r); LoadStore(c.tag, c.g); LoadStore(c.tag, c.b); LoadStore(c.tag, c.a);
    LoadStore(d.tag, d.r); LoadStore(d.tag, d.g); LoadStore(d.tag, d.b); LoadStore(d.tag, d.a);
  }

  // ----------------------------------------------------------- constructors

  /** `Nrgba64::ne`. */
  function Ne(r: uint16, g: uint16, b: uint16, a: uint16): (c: Nrgba64)
    ensures c.tag == NativeEndian
    ensures R(c) == r && G(c) == g && B(c) == b && A(c) == a
  {
    Nrgba64(r, g, b, a, NativeEndian)
  }

  /** `Nrgba64::le`: stores `to_le` of each channel. */
  function Le(r: uint16, g: uint16, b: uint16, a: uint16): (c: Nrgba64)
    ensures c.tag == LittleEndian
    ensures R(c) == r && G(c) == g && B(c) == b && A(c) == a
  {
    LoadStore(LittleEndian, r); LoadStore(LittleEndian, g);
    LoadStore(LittleEndian, b); LoadStore(LittleEndian, a);
    Nrgba64(ToLeOn(HOST, r), ToLeOn(HOST, g), ToLeOn(HOST, b), ToLeOn(HOST, a), LittleEndian)
  }

  /** `Nrgba64::be`: stores `to_be` of each channel. */
  function Be(r: uint16, g: uint16, b: uint16, a: uint16): (c: Nrgba64Be)
    ensures R(c) == r && G(c) == g && B(c) == b && A(c) == a
  {
    LoadStore(BigEndian, r); LoadStore(BigEndian, g);
    LoadStore(BigEndian, b); LoadStore(BigEndian, a);
    Nrgba64(ToBeOn(HOST, r), ToBeOn(HOST, g), ToBeOn(HOST, b), ToBeOn(HOST, a), BigEndian)
  }

  // ---------------------------------------------------------------- setters

  function SetR(c: Nrgba64, v: uint16): (d: Nrgba64)
    ensures d.tag == c.tag && R(d) == v && G(d) == G(c) && B(d) == B(c) && A(d) == A(c)
  {
    LoadStore(c.tag, v);
    c.(r := Store(c.tag, v))
  }

  function SetG(c: Nrgba64, v: uint16): (d: Nrgba64)
    ensures d.tag == c.tag && R(d) == R(c) && G(d) == v && B(d) == B(c) && A(d) == A(c)
  {
    LoadStore(c.tag, v);
    c.(g := Store(c.tag, v))
  }

  function SetB(c: Nrgba64, v: uint16): (d: Nrgba64)
    ensures d.tag == c.tag && R(d) == R(c) && G(d) == G(c) && B(d) == v && A(d) == A(c)
  {
    LoadStore(c.tag, v);
    c.(b := Store(c.tag, v))
  }

  function SetA(c: Nrgba64, v: uint16): (d: Nrgba64)
    ensures d.tag == c.tag && R(d) == R(c) && G(d) == G(c) && B(d) == B(c) && A(d) == v
  {
    LoadStore(c.tag, v);
    c.(a := Store(c.tag, v))
  }

  /** `Zero::ZERO`. */
  function Zero(tag: Endian): (c: Nrgba64)
    ensures c.tag == tag && R(c) == 0 && G(c) == 0 && B(c) == 0 && A(c) == 0
  {
    Nrgba64(0, 0, 0, 0, tag)
  }

  // ------------------------------------------------------------- as_rgba

  /** `nrgba64_to_rgba`: premultiplies the colour channels by alpha. */
  function ToRgba(r: uint16, g: uint16, b: uint16, a: uint16): (c: Rgba)
    ensures c.a == a && c.r <= c.a && c.g <= c.a && c.b <= c.a
    ensures a == 0xffff ==> c == Rgba(r, g, b, a)
    ensures a == 0 ==> c == Rgba(0, 0, 0, 0)
  {
    Rgba(Premultiply(r, a), Premultiply(g, a), Premultiply(b, a), a)
  }

  /** `Color::as_rgba` for all three tags: premultiplies the logical channels. */
  function AsRgba(c: Nrgba64): Rgba
  {
    ToRgba(R(c), G(c), B(c), A(c))
  }

  // --------------------------------------------------------- convert_from

  /** `ConvertFrom<C>` exactly as written (lines 295-332): the native tag keeps the
      low 16 bits of each component; the big- and little-endian tags both store
      `swap_bytes` of them, whatever the host. */
  function ConvertFromRgbaAsWritten(tag: Endian, c: Rgba): (d: Nrgba64)
    ensures d.tag == tag
  {
    match tag
    case NativeEndian => Nrgba64(Low16(c.r), Low16(c.g), Low16(c.b), Low16(c.a), tag)
    case _ =>
      Nrgba64(SwapBytes16(Low16(c.r)), SwapBytes16(Low16(c.g)),
              SwapBytes16(Low16(c.b)), SwapBytes16(Low16(c.a)), tag)
  }

  /** On a little-endian host the little-endian conversion stores the bytes
      swapped, so its getter does not return the converted component. */
  lemma ConvertFromLeAsWrittenSwaps()
    ensures R(ConvertFromRgbaAsWritten(LittleEndian, Rgba(0x0102, 0, 0, 0xffff))) == 0x0201
  {
  }

  /** `ConvertFrom<C>` as the other colour types write it: `to_be`/`to_le` of
      the low 16 bits, so that each getter returns the converted component. */
  function ConvertFromRgba(tag: Endian, c: Rgba): (d: Nrgba64)
    ensures d.tag == tag
    ensures R(d) == Low16(c.r) && G(d) == Low16(c.g) && B(d) == Low16(c.b) && A(d) == Low16(c.a)
  {
    LoadStore(tag, Low16(c.r)); LoadStore(tag, Low16(c.g));
    LoadStore(tag, Low16(c.b)); LoadStore(tag, Low16(c.a));
    Nrgba64(Store(tag, Low16(c.r)), Store(tag, Low16(c.g)),
            Store(tag, Low16(c.b)), Store(tag, Low16(c.a)), tag)
  }

  /** The two conversions agree for the native tag, and for the big-endian tag
      on the little-endian host. */
  lemma ConvertFromAgreesExceptLe(tag: Endian, c: Rgba)
    requires tag != LittleEndian
    ensures ConvertFromRgbaAsWritten(tag, c) == ConvertFromRgba(tag, c)
  {
  }

  // ------------------------------------------------------------ u64 packing

  /** `r | g << 16 | b << 32 | a << 48` on four 16-bit words. */
  function Pack(r: uint16, g: uint16, b: uint16, a: uint16): uint64
  {
    ((a * 0x1_0000 + b) * 0x1_0000 + g) * 0x1_0000 + r
  }

  /** `get_components`. */
  function GetComponents(v: uint64): (uint16, uint16, uint16, uint16)
  {
    (v % 0x1_0000, v / 0x1_0000 % 0x1_0000, v / 0x1_0000_0000 % 0x1_0000,
     v / 0x1_0000_0000_0000 % 0x1_0000)
  }

  lemma DivMod65536(q: nat, r: uint16)
    ensures (q * 0x1_0000 + r) / 0x1_0000 == q && (q * 0x1_0000 + r) % 0x1_0000 == r
  {
  }

  lemma DivDiv65536(v: nat)
    ensures v / 0x1_0000_0000 == v / 0x1_0000 / 0x1_0000
    ensures v / 0x1_0000_0000_0000 == v / 0x1_0000 / 0x1_0000 / 0x1_0000
  {
  }

  /** Packing then unpacking returns the four words. */
  lemma {:induction false} PackThenComponents(r: uint16, g: uint16, b: uint16, a: uint16)
    ensures GetComponents(Pack(r, g, b, a)) == (r, g, b, a)
  {
    var v := Pack(r, g, b, a);
    DivMod65536((a * 0x1_0000 + b) * 0x1_0000 + g, r);
    DivMod65536(a * 0x1_0000 + b, g);
    DivMod65536(a, b);
    DivDiv65536(v);
  }

  /** Unpacking then packing returns the 64-bit value. */
  lemma {:induction false} ComponentsThenPack(v: uint64)
    ensures var (r, g, b, a) := GetComponents(v); Pack(r, g, b, a) == v
  {
    DivDiv65536(v);
  }

  /** `u64::from` on `host`: the native tag packs the stored words; the big-endian
      tag on a little-endian host (and the little-endian tag on a big-endian
      host) `swap_bytes` each shifted word before combining them. */
  function ToU64On(host: ByteOrder, c: Nrgba64): uint64
  {
    var swapped := match c.tag
      case NativeEndian => false
      case BigEndian => host == LittleEndianHost
      case LittleEndian => host == BigEndianHost;
    if swapped then
      SwapBytes64Slot(c.r, 0); SwapBytes64Slot(c.g, 1);
      SwapBytes64Slot(c.b, 2); SwapBytes64Slot(c.a, 3);
      SwapBytes64(c.r) + SwapBytes64(c.g * 0x1_0000) + SwapBytes64(c.b * 0x1_0000_0000)
      + SwapBytes64(c.a * 0x1_0000_0000_0000)
    else
      Pack(c.r, c.g, c.b, c.a)
  }

  function ToU64(c: Nrgba64): uint64
  {
    ToU64On(HOST, c)
  }

  /** `Nrgba64::from(u64)` for the tag: `to_be`/`to_le` of each component. */
  function FromU64(tag: Endian, v: uint64): (c: Nrgba64)
    ensures c.tag == tag
  {
    var (r, g, b, a) := GetComponents(v);
    Nrgba64(Store(tag, r), Store(tag, g), Store(tag, b), Store(tag, a), tag)
  }

  /** For the native tag, `u64::from` and `Nrgba64::from` are mutual inverses. */
  lemma NativeU64RoundTrip(c: Nrgba64, v: uint64)
    requires c.tag == NativeEndian
    ensures FromU64(NativeEndian, ToU64(c)) == c
    ensures ToU64(FromU64(NativeEndian, v)) == v
  {
    PackThenComponents(c.r, c.g, c.b, c.a);
    ComponentsThenPack(v);
  }

  /** On the little-endian host a big-endian colour packs its logical channels
      in reverse slot order: `a | b << 16 | g << 32 | r << 48`. */
  lemma {:induction false} BigEndianU64Layout(c: Nrgba64)
    requires c.tag == BigEndian
    ensures ToU64(c) == Pack(A(c), B(c), G(c), R(c))
  {
    SwapBytes64Slot(c.r, 0); SwapBytes64Slot(c.g, 1);
    SwapBytes64Slot(c.b, 2); SwapBytes64Slot(c.a, 3);
  }

  /** The specialised `ConvertFrom<Nrgba64<E1>>` (through `u64`). */
  function ConvertSpecialized(c: Nrgba64, tag: Endian): (d: Nrgba64)
    ensures d.tag == tag
  {
    FromU64(tag, ToU64(c))
  }

  /** Because of that layout, the specialised big-endian to big-endian
      conversion reverses the channel order on the little-endian host. */
  lemma {:induction false} SpecializedBeToBeReverses(c: Nrgba64)
    requires c.tag == BigEndian
    ensures var d := ConvertSpecialized(c, BigEndian);
      R(d) == A(c) && G(d) == B(c) && B(d) == G(c) && A(d) == R(c)
  {
    BigEndianU64Layout(c);
    PackThenComponents(A(c), B(c), G(c), R(c));
    LoadStore(BigEndian, A(c)); LoadStore(BigEndian, B(c));
    LoadStore(BigEndian, G(c)); LoadStore(BigEndian, R(c));
  }

  /** The specialised native to native conversion is the identity. */
  lemma SpecializedNativeIdentity(c: Nrgba64)
    requires c.tag == NativeEndian
    ensures ConvertSpecialized(c, NativeEndian) == c
  {
    NativeU64RoundTrip(c, 0);
  }

  // ---------------------------------------------------------- memory bytes

  /** The eight bytes of the colour as it lies in memory (`#[repr(C)]`, four words). */
  function MemBytes(c: Nrgba64): (bs: seq<uint8>)
    ensures |bs| == 8
  {
    MemBytes16(c.r) + MemBytes16(c.g) + MemBytes16(c.b) + MemBytes16(c.a)
  }

  /** Reads a colour back from its eight memory bytes. */
  function FromMemBytes(bs: seq<uint8>, tag: Endian): (c: Nrgba64)
    requires |bs| == 8
    ensures c.tag == tag
  {
    var b0: int, b1: int, b2: int, b3: int := bs[0], bs[1], bs[2], bs[3];
    var b4: int, b5: int, b6: int, b7: int := bs[4], bs[5], bs[6], bs[7];
    Nrgba64(b1 * 0x100 + b0, b3 * 0x100 + b2, b5 * 0x100 + b4, b7 * 0x100 + b6, tag)
  }

  lemma MemBytesRoundTrip(c: Nrgba64, bs: seq<uint8>)
    requires |bs| == 8
    ensures FromMemBytes(MemBytes(c), c.tag) == c
    ensures MemBytes(FromMemBytes(bs, c.tag)) == bs
  {
  }

  /** `to_ne_bytes(u64::from(c.cast::<NativeEndian>()))`, the record the
      farbfeld encoders write for a colour, is its memory image. */
  lemma {:induction false} NativeRecordIsMemBytes(c: Nrgba64)
    ensures NeBytes64On(HOST, ToU64(Cast(c, NativeEndian))) == MemBytes(c)
  {
    var bs := MemBytes(c);
    assert Pack(c.r, c.g, c.b, c.a) == FromLeBytes64(bs);
    FromLeBytes64RoundTrip(bs);
  }

  /** The memory image of a big-endian colour holds each logical channel most
      significant byte first, which is the byte order farbfeld prescribes. */
  lemma BigEndianMemBytes(c: Nrgba64)
    requires c.tag == BigEndian
    ensures MemBytes(c) ==
      [R(c) / 0x100, R(c) % 0x100, G(c) / 0x100, G(c) % 0x100,
       B(c) / 0x100, B(c) % 0x100, A(c) / 0x100, A(c) % 0x100]
  {
  }
}
