/** The admin attachment viewer's choice of MIME type: the response header when
    it names an image, otherwise the type read from the file's magic bytes. */
module ImageSniff {
  import opened Text

  newtype byte = x: int | 0 <= x < 256

  /** `b[i]` of the `Uint8Array`. An index past the end is `undefined`, which
      equals no byte value (and `String.fromCharCode(undefined)` is `"\0"`, which
      none of the signature letters is), so it is modelled as -1, which no byte is. */
  function At(b: seq<byte>, i: nat): int {
    if i < |b| then b[i] as int else -1
  }

  /** The buffer holds `sig` from offset `off` on. */
  predicate SignatureAt(b: seq<byte>, off: nat, sig: seq<int>) {
    forall k :: 0 <= k < |sig| ==> At(b, off + k) == sig[k]
  }

  const JpegSig: seq<int> := [0xFF, 0xD8, 0xFF]
  const PngSig: seq<int> := [0x89, 0x50, 0x4E, 0x47]
  const GifSig: seq<int> := [0x47, 0x49, 0x46, 0x38]
  /** `"RIFF"` and `"WEBP"` as character codes. */
  const RiffSig: seq<int> := [0x52, 0x49, 0x46, 0x46]
  const WebpSig: seq<int> := [0x57, 0x45, 0x42, 0x50]

  const Jpeg := "image/jpeg"
  const Png := "image/png"
  const Gif := "image/gif"
  const Webp := "image/webp"

  /** `sniffMime`: JPEG, then PNG, then GIF, then WEBP by their leading bytes, and
      the empty string when none match. */
  function SniffMime(b: seq<byte>): (r: string)
    ensures r == "" || r == Jpeg || r == Png || r == Gif || r == Webp
  {
    if At(b, 0) == 0xFF && At(b, 1) == 0xD8 && At(b, 2) == 0xFF then Jpeg
    else if At(b, 0) == 0x89 && At(b, 1) == 0x50 && At(b, 2) == 0x4E && At(b, 3) == 0x47 then Png
    else if At(b, 0) == 0x47 && At(b, 1) == 0x49 && At(b, 2) == 0x46 && At(b, 3) == 0x38 then Gif
    else if At(b, 0) == 0x52 && At(b, 1) == 0x49 && At(b, 2) == 0x46 && At(b, 3) == 0x46 &&
            At(b, 8) == 0x57 && At(b, 9) == 0x45 && At(b, 10) == 0x42 && At(b, 11) == 0x50 then Webp
    else ""
  }

  /** Each result is given exactly when its signature is present: the four leading
      signatures differ in their first byte, so the order of the tests never
      decides, and a buffer too short for every signature gives `""`. */
  lemma SniffMimeSignatures(b: seq<byte>)
    ensures SniffMime(b) == Jpeg <==> SignatureAt(b, 0, JpegSig)
    ensures SniffMime(b) == Png <==> SignatureAt(b, 0, PngSig)
    ensures SniffMime(b) == Gif <==> SignatureAt(b, 0, GifSig)
    ensures SniffMime(b) == Webp <==> SignatureAt(b, 0, RiffSig) && SignatureAt(b, 8, WebpSig)
    ensures SniffMime(b) == "" <==>
      !SignatureAt(b, 0, JpegSig) && !SignatureAt(b, 0, PngSig) && !SignatureAt(b, 0, GifSig) &&
      !(SignatureAt(b, 0, RiffSig) && SignatureAt(b, 8, WebpSig))
  {
    assert |Jpeg| == 10 && |Png| == 9 && |Gif| == 9 && |Webp| == 10;
    assert Jpeg[6] == 'j' && Webp[6] == 'w' && Png[6] == 'p' && Gif[6] == 'g';
    Signature3(b, 0, JpegSig);
    Signature4(b, 0, PngSig);
    Signature4(b, 0, GifSig);
    Signature4(b, 0, RiffSig);
    Signature4(b, 8, WebpSig);
  }

  lemma Signature3(b: seq<byte>, off: nat, sig: seq<int>)
    requires |sig| == 3
    ensures SignatureAt(b, off, sig) <==> At(b, off) == sig[0] && At(b, off + 1) == sig[1] && At(b, off + 2) == sig[2]
  {
    if At(b, off) == sig[0] && At(b, off + 1) == sig[1] && At(b, off + 2) == sig[2] {
      forall k | 0 <= k < |sig| ensures At(b, off + k) == sig[k] {
        assert k == 0 || k == 1 || k == 2;
      }
    }
  }

  lemma Signature4(b: seq<byte>, off: nat, sig: seq<int>)
    requires |sig| == 4
    ensures SignatureAt(b, off, sig) <==>
      At(b, off) == sig[0] && At(b, off + 1) == sig[1] && At(b, off + 2) == sig[2] && At(b, off + 3) == sig[3]
  {
    if At(b, off) == sig[0] && At(b, off + 1) == sig[1] && At(b, off + 2) == sig[2] && At(b, off + 3) == sig[3] {
      forall k | 0 <= k < |sig| ensures At(b, off + k) == sig[k] {
        assert k == 0 || k == 1 || k == 2 || k == 3;
      }
    }
  }

  /** A WEBP needs twelve bytes: a shorter RIFF file is not recognised. */
  lemma ShortRiffUnknown(b: seq<byte>)
    requires |b| < 12 && SignatureAt(b, 0, RiffSig)
    ensures SniffMime(b) == ""
  {
    assert At(b, 11) == -1;
    Signature4(b, 0, RiffSig);
  }

  /** `(headers['content-type'] || headers['Content-Type']) || ''`, with a missing
      header as the empty string. */
  function HeaderContentType(lower: string, upper: string): (ct: string)
    ensures ct == lower || ct == upper
    ensures lower != "" ==> ct == lower
    ensures ct == "" <==> lower == "" && upper == ""
  {
    if lower != "" then lower else upper
  }

  const ImagePrefix := "image/"
  const OctetStream := "application/octet-stream"

  /** `(headerCT && headerCT.startsWith('image/') && headerCT) || inferred ||
      'application/octet-stream'`. */
  function ChooseMime(headerCT: string, buf: seq<byte>): (mime: string)
    ensures StartsWith(headerCT, ImagePrefix) ==> mime == headerCT
    ensures !StartsWith(headerCT, ImagePrefix) && SniffMime(buf) != "" ==> mime == SniffMime(buf)
    ensures !StartsWith(headerCT, ImagePrefix) && SniffMime(buf) == "" ==> mime == OctetStream
  {
    if headerCT != "" && StartsWith(headerCT, ImagePrefix) then headerCT
    else
      var inferred := SniffMime(buf);
      if inferred != "" then inferred else OctetStream
  }

  /** The Blob is always given a type: the choice is never empty. */
  lemma ChooseMimeNonEmpty(headerCT: string, buf: seq<byte>)
    ensures ChooseMime(headerCT, buf) != ""
  {
    assert |OctetStream| > 0;
    if StartsWith(headerCT, ImagePrefix) {
      assert |headerCT| >= |ImagePrefix| == 6;
    }
  }

  /** The chosen type starts with `image/` unless neither the header nor the bytes
      name an image, in which case it is the octet-stream type, which is the one
      case the viewer logs as "not an image". */
  lemma ChooseMimeImage(headerCT: string, buf: seq<byte>)
    ensures StartsWith(ChooseMime(headerCT, buf), ImagePrefix) <==>
      StartsWith(headerCT, ImagePrefix) || SniffMime(buf) != ""
  {
    assert Jpeg[..6] == ImagePrefix && Png[..6] == ImagePrefix && Gif[..6] == ImagePrefix && Webp[..6] == ImagePrefix;
    assert OctetStream[0] != ImagePrefix[0];
  }
}
