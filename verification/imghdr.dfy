/** The image-signature sniffer of imghdr.py: a byte header is mapped to an
    image format by comparing its leading bytes with fixed magic numbers (the
    JPEG start-of-image marker followed by a JFIF or Exif segment, the PNG file
    signature of section 3.1 of RFC 2083, and the GIF87a / GIF89a header). */
module ImageHeader {
  import opened Wrappers

  type byte = bv8

  /** The format tags `what` can return. */
  datatype ImageType = Jpeg | Png | Gif {
    /** The tag string Python returns. */
    function Name(): (tag: string)
      ensures Jpeg? ==> tag == "jpeg"
      ensures Png? ==> tag == "png"
      ensures Gif? ==> tag == "gif"
    {
      match this
      case Jpeg => "jpeg"
      case Png => "png"
      case Gif => "gif"
    }
  }

  /** Distinct formats are reported under distinct tags. */
  lemma NamesDistinct(t: ImageType, u: ImageType)
    requires t != u
    ensures t.Name() != u.Name()
  {
  }

  /** FF D8 FF E0: start-of-image followed by a JFIF APP0 marker. */
  const JfifMagic: seq<byte> := [0xFF, 0xD8, 0xFF, 0xE0]
  /** FF D8 FF E1: start-of-image followed by an Exif APP1 marker. */
  const ExifMagic: seq<byte> := [0xFF, 0xD8, 0xFF, 0xE1]
  /** 89 "PNG" CR LF SUB LF. */
  const PngMagic: seq<byte> := [0x89, 0x50, 0x4E, 0x47, 0x0D, 0x0A, 0x1A, 0x0A]
  /** ASCII "GIF87a". */
  const Gif87aMagic: seq<byte> := [0x47, 0x49, 0x46, 0x38, 0x37, 0x61]
  /** ASCII "GIF89a". */
  const Gif89aMagic: seq<byte> := [0x47, 0x49, 0x46, 0x38, 0x39, 0x61]

  /** How many leading bytes of a header any comparison looks at. */
  const SignatureWindow: nat := 8

  /** How many bytes are read from a file or buffer before classifying. */
  const HeaderSize: nat := 32

  /** Python's slice `h[:n]`: the first `n` bytes, or all of `h` when it is shorter. */
  function Take(h: seq<byte>, n: nat): (p: seq<byte>)
    ensures |p| == if |h| <= n then |h| else n
    ensures p <= h
  {
    if |h| <= n then h else h[..n]
  }

  /** `h` begins with the bytes of `sig`. */
  predicate StartsWith(h: seq<byte>, sig: seq<byte>)
  {
    |sig| <= |h| && forall i :: 0 <= i < |sig| ==> h[i] == sig[i]
  }

  predicate IsJpeg(h: seq<byte>) { StartsWith(h, JfifMagic) || StartsWith(h, ExifMagic) }
  predicate IsPng(h: seq<byte>) { StartsWith(h, PngMagic) }
  predicate IsGif(h: seq<byte>) { StartsWith(h, Gif87aMagic) || StartsWith(h, Gif89aMagic) }

  /** Comparing a slice with a signature is the same as testing for that prefix;
      in particular a header shorter than the signature never matches. */
  lemma TakeMatches(h: seq<byte>, sig: seq<byte>)
    ensures Take(h, |sig|) == sig <==> StartsWith(h, sig)
  {
    if StartsWith(h, sig) {
      assert Take(h, |sig|) == h[..|sig|];
    }
  }

  /** The comparisons of `what` once a header `h` is known. */
  function Classify(h: seq<byte>): (r: Option<ImageType>)
    ensures r == Some(Jpeg) <==> IsJpeg(h)
    ensures r == Some(Png) <==> IsPng(h)
    ensures r == Some(Gif) <==> IsGif(h)
    ensures r == None <==> !IsJpeg(h) && !IsPng(h) && !IsGif(h)
    ensures |h| < 4 ==> r == None
  {
    TakeMatches(h, JfifMagic);
    TakeMatches(h, ExifMagic);
    TakeMatches(h, PngMagic);
    TakeMatches(h, Gif87aMagic);
    TakeMatches(h, Gif89aMagic);
    if Take(h, 4) == JfifMagic || Take(h, 4) == ExifMagic then Some(Jpeg)
    else if Take(h, 8) == PngMagic then Some(Png)
    else if Take(h, 6) in [Gif87aMagic, Gif89aMagic] then Some(Gif)
    else None
  }

  /** The three signatures differ in their first byte (FF, 89, 47), so at most
      one of them can match a header. */
  lemma SignaturesExclusive(h: seq<byte>)
    ensures !(IsJpeg(h) && IsPng(h))
    ensures !(IsJpeg(h) && IsGif(h))
    ensures !(IsPng(h) && IsGif(h))
  {
    assert IsJpeg(h) ==> h[0] == JfifMagic[0] == ExifMagic[0] == 0xFF;
    assert IsPng(h) ==> h[0] == PngMagic[0] == 0x89;
    assert IsGif(h) ==> h[0] == Gif87aMagic[0] == Gif89aMagic[0] == 0x47;
  }

  /** The same comparisons made in the opposite order. */
  function ClassifyReversed(h: seq<byte>): Option<ImageType>
  {
    if Take(h, 6) in [Gif87aMagic, Gif89aMagic] then Some(Gif)
    else if Take(h, 8) == PngMagic then Some(Png)
    else if Take(h, 4) == JfifMagic || Take(h, 4) == ExifMagic then Some(Jpeg)
    else None
  }

  /** The order of the checks in `what` does not affect its answer. */
  lemma ClassifyOrderIrrelevant(h: seq<byte>)
    ensures ClassifyReversed(h) == Classify(h)
  {
    TakeMatches(h, JfifMagic);
    TakeMatches(h, ExifMagic);
    TakeMatches(h, PngMagic);
    TakeMatches(h, Gif87aMagic);
    TakeMatches(h, Gif89aMagic);
    SignaturesExclusive(h);
  }

  /** A signature no longer than `n` matches `h` exactly when it matches `h[:n]`. */
  lemma StartsWithTake(h: seq<byte>, sig: seq<byte>, n: nat)
    requires |sig| <= n
    ensures StartsWith(h, sig) <==> StartsWith(Take(h, n), sig)
  {
  }

  /** Only the first eight bytes of a header decide its format. */
  lemma ClassifyReadsEightBytes(h: seq<byte>)
    ensures Classify(h) == Classify(Take(h, SignatureWindow))
  {
    StartsWithTake(h, JfifMagic, SignatureWindow);
    StartsWithTake(h, ExifMagic, SignatureWindow);
    StartsWithTake(h, PngMagic, SignatureWindow);
    StartsWithTake(h, Gif87aMagic, SignatureWindow);
    StartsWithTake(h, Gif89aMagic, SignatureWindow);
  }

  /** Headers that agree on their first eight bytes get the same format, whatever
      follows (appending bytes, or changing bytes at index 8 or later). */
  lemma ClassifyIgnoresTail(h: seq<byte>, h': seq<byte>)
    requires Take(h, SignatureWindow) == Take(h', SignatureWindow)
    ensures Classify(h) == Classify(h')
  {
    ClassifyReadsEightBytes(h);
    ClassifyReadsEightBytes(h');
  }

  /** The object handed to `what` as `file`. Opening a path and reading from it
      is not modelled: a path stands for the file it names, given by its bytes. */
  datatype FileArg =
    | FilePath(contents: seq<byte>)   // a `str` or `bytes` path
    | BytesBuffer(value: seq<byte>)   // an `io.BytesIO`
    | OtherObject                     // anything else

  /** The header `what` classifies when none is passed: the first 32 bytes of the
      file or buffer, or nothing for an object of another kind. */
  function ReadHeader(file: FileArg): (h: Option<seq<byte>>)
    ensures h.None? <==> file.OtherObject?
    ensures file.FilePath? ==> h.value <= file.contents && |h.value| <= HeaderSize
    ensures file.BytesBuffer? ==> h.value <= file.value && |h.value| <= HeaderSize
    ensures file.FilePath? ==>
              |h.value| == if |file.contents| <= HeaderSize then |file.contents| else HeaderSize
    ensures file.BytesBuffer? ==>
              |h.value| == if |file.value| <= HeaderSize then |file.value| else HeaderSize
  {
    match file
    case FilePath(contents) => Some(Take(contents, HeaderSize))
    case BytesBuffer(value) => Some(Take(value, HeaderSize))
    case OtherObject => None
  }

  /** `what(file, h)`: a given header takes precedence over `file`; without one,
      the header read from `file` is classified, and an unsupported object gives
      no format. */
  function What(file: FileArg, h: Option<seq<byte>>): (r: Option<ImageType>)
    ensures h.Some? ==> r == Classify(h.value)
    ensures h.None? && file.OtherObject? ==> r == None
    ensures h.None? && file.BytesBuffer? ==> r == Classify(Take(file.value, SignatureWindow))
    ensures h.None? && file.FilePath? ==> r == Classify(Take(file.contents, SignatureWindow))
  {
    match h
    case Some(header) => Classify(header)
    case None =>
      match ReadHeader(file)
      case None => None
      case Some(header) =>
        ClassifyReadsEightBytes(header);
        ReadHeaderKeepsWindow(file, header);
        Classify(header)
  }

  /** The 32-byte header read from a file or buffer begins with the same eight
      bytes as the whole contents. */
  lemma ReadHeaderKeepsWindow(file: FileArg, header: seq<byte>)
    requires ReadHeader(file) == Some(header)
    ensures file.FilePath? ==> Take(header, SignatureWindow) == Take(file.contents, SignatureWindow)
    ensures file.BytesBuffer? ==> Take(header, SignatureWindow) == Take(file.value, SignatureWindow)
  {
  }
}
