/** Format sniffing and the encode/decode forwarders
    (crate/src/serialize/mod.rs), instantiated for farbfeld. */
module Serialize {
  import opened Ints
  import opened Results
  import opened Io
  import Image
  import opened Color
  import opened ColorNrgba64
  import opened PixBuf
  import Farbfeld

  const NoMatchingMagic: string := "No matching magic found."

  /** The tag of the first format, in order, whose magic matches `buf`. */
  function FirstMatch<I>(formats: seq<(I, Image.Format)>, buf: seq<uint8>): (m: Option<I>)
    ensures m.None? <==> forall k :: 0 <= k < |formats| ==> !Image.IsValidMagic(formats[k].1.magic, buf)
    ensures m.Some? ==> exists k :: (0 <= k < |formats| && formats[k].0 == m.value
      && Image.IsValidMagic(formats[k].1.magic, buf)
      && forall j :: 0 <= j < k ==> !Image.IsValidMagic(formats[j].1.magic, buf))
  {
    if |formats| == 0 then None
    else if Image.IsValidMagic(formats[0].1.magic, buf) then Some(formats[0].0)
    else
      var m := FirstMatch(formats[1..], buf);
      assert forall k :: 1 <= k < |formats| ==> formats[k] == formats[1..][k - 1];
      m
  }

  /** `try_format`: peeks at the buffered bytes with `fill_buf` and returns the
      tag of the first matching format; the reader is not advanced. */
  method TryFormat<I>(rd: Reader, formats: seq<(I, Image.Format)>) returns (r: Result<I, IoError>)
    requires rd.Valid()
    ensures rd.fault.Some? ==> r == Err(rd.fault.value)
    ensures rd.fault.None? ==>
      match FirstMatch(formats, Peek(rd.input, rd.pos, rd.bufferSize))
      case Some(i) => r == Ok(i)
      case None => r == Err(Other(NoMatchingMagic))
  {
    var buf := rd.FillBuf();
    if buf.Err? { return Err(buf.error); }
    var n := 0;
    while n < |formats|
      invariant 0 <= n <= |formats|
      invariant FirstMatch(formats, buf.value) == FirstMatch(formats[n..], buf.value)
    {
      var (i, fmt) := formats[n];
      if Image.IsValidMagic(fmt.magic, buf.value) {
        return Ok(i);
      }
      assert formats[n..][1..] == formats[n + 1..];
      n := n + 1;
    }
    return Err(Other(NoMatchingMagic));
  }

  /** `EncodeSpecialized::encode_specialized`, which forwards to the
      specialised `encode`. */
  method EncodeSpecialized(w: Writer, buf: RawPixBuf<Nrgba64Be>) returns (r: Result<(), IoError>)
    requires w.Valid()
    modifies w
    ensures w.Valid()
    ensures var out := Farbfeld.Encoded(buf.width, buf.height, buf.buf[..]);
      && w.data == old(w.data) + out[..w.Kept(|old(w.data)|, |out|)]
      && (r.Ok? <==> w.Kept(|old(w.data)|, |out|) == |out|)
      && (r.Err? ==> r.error == StorageFull)
  {
    r := Farbfeld.EncodeBuffer(w, buf);
  }

  /** `EncodeGeneric::encode_generic`, which forwards to the generic `encode`. */
  method EncodeGeneric<T>(w: Writer, img: RawPixBuf<T>, asRgba: T -> Rgba) returns (r: Result<(), IoError>)
    requires w.Valid() && img.Valid()
    modifies w
    ensures w.Valid()
    ensures var out := Farbfeld.Encoded(img.width, img.height, Farbfeld.Converted(img.buf[..], asRgba));
      && w.data == old(w.data) + out[..w.Kept(|old(w.data)|, |out|)]
      && (r.Ok? <==> w.Kept(|old(w.data)|, |out|) == |out|)
      && (r.Err? ==> r.error == StorageFull)
  {
    r := Farbfeld.EncodeImage(w, img, asRgba);
  }

  /** `DecodeSpecialized::decode_specialized`, which forwards to `decode`. */
  method DecodeSpecialized(rd: Reader, opts: Farbfeld.DecodeOptions) returns (r: Result<RawPixBuf<Nrgba64Be>, IoError>)
    requires rd.Valid()
    modifies rd
    ensures rd.Valid()
    ensures rd.fault.Some? ==> r == Err(rd.fault.value)
    ensures rd.fault.None? ==>
      match Farbfeld.DecodeBytes(rd.input[old(rd.pos)..], opts)
      case Err(e) => r == Err(e)
      case Ok((w, h, pixels)) =>
        r.Ok? && fresh(r.value) && fresh(r.value.buf) && r.value.Valid()
        && r.value.width == w && r.value.height == h && r.value.buf[..] == pixels
  {
    r := Farbfeld.Decode(rd, opts);
  }
}
