/** Image formats and their magic strings (crate/src/image/mod.rs and the
    `impl_format!` invocations of the format modules). */
module Image {
  import opened Ints

  /** A byte string given as text whose characters are all below 256. */
  function Ascii(s: string): (b: seq<uint8>)
    requires forall i :: 0 <= i < |s| ==> s[i] as int < 0x100
    ensures |b| == |s| && forall i :: 0 <= i < |s| ==> b[i] == s[i] as int
  {
    seq(|s|, i requires 0 <= i < |s| => s[i] as int)
  }

  /** The wildcard byte `b'?'`. */
  const Wildcard: uint8 := 0x3f

  /** What `impl_format!` records about a format: its id and its magic string. */
  datatype Format = Format(id: string, magic: seq<uint8>)

  const Farbfeld: Format := Format("feim:ff", Ascii("farbfeld????????"))
  const Jpeg: Format := Format("feim:jpeg", [0xff, 0xd8, 0xff])
  const Png: Format := Format("feim:png", [0x89] + Ascii("PNG\r\n") + [0x1a] + Ascii("\n"))
  const Webp: Format := Format("feim:webp", Ascii("RIFF????WEBPVP8"))

  /** `built_in_formats` with every format feature enabled, in declaration order. */
  const BuiltInFormats: seq<Format> := [Farbfeld, Jpeg, Png, Webp]

  /** `zip(..).all(|(m, n)| m == n || m == b'?')`: the pairs stop at the shorter string. */
  function ZipAll(magic: seq<uint8>, candidate: seq<uint8>): (ok: bool)
    ensures ok <==> forall i :: 0 <= i < |magic| && i < |candidate| ==>
      magic[i] == candidate[i] || magic[i] == Wildcard
  {
    if |magic| == 0 || |candidate| == 0 then true
    else
      var rest := ZipAll(magic[1..], candidate[1..]);
      assert forall i :: 1 <= i < |magic| && i < |candidate| ==>
        magic[i] == magic[1..][i - 1] && candidate[i] == candidate[1..][i - 1];
      (magic[0] == candidate[0] || magic[0] == Wildcard) && rest
  }

  /** `Format::is_valid_magic`. */
  function IsValidMagic(magic: seq<uint8>, candidate: seq<uint8>): (ok: bool)
    ensures ok <==> (|candidate| >= |magic| &&
      forall i :: 0 <= i < |magic| ==> magic[i] == candidate[i] || magic[i] == Wildcard)
  {
    if |candidate| < |magic| then false else ZipAll(magic, candidate)
  }

  /** Bytes of the candidate past the magic's length never matter. */
  lemma {:induction false} TrailingBytesIgnored(magic: seq<uint8>, candidate: seq<uint8>, extra: seq<uint8>)
    requires |candidate| >= |magic|
    ensures IsValidMagic(magic, candidate + extra) == IsValidMagic(magic, candidate)
    ensures IsValidMagic(magic, candidate) == IsValidMagic(magic, candidate[..|magic|])
  {
    assert forall i :: 0 <= i < |magic| ==> (candidate + extra)[i] == candidate[i];
    assert forall i :: 0 <= i < |magic| ==> candidate[..|magic|][i] == candidate[i];
  }

  /** Every magic string matches itself. */
  lemma MagicMatchesItself(magic: seq<uint8>)
    ensures IsValidMagic(magic, magic)
  {
  }

  /** The farbfeld magic accepts exactly the inputs of at least 16 bytes that
      start with `farbfeld`. */
  lemma {:induction false} FarbfeldMagicAccepts(candidate: seq<uint8>)
    ensures IsValidMagic(Farbfeld.magic, candidate) <==>
      |candidate| >= 16 && candidate[..8] == Farbfeld.magic[..8]
  {
    var m := Farbfeld.magic;
    assert forall i :: 8 <= i < 16 ==> m[i] == Wildcard;
    if |candidate| >= 16 && candidate[..8] == m[..8] {
      forall i | 0 <= i < 8 ensures m[i] == candidate[i] {
        assert candidate[..8][i] == candidate[i] && m[..8][i] == m[i];
      }
    }
  }
}
