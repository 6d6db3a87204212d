/** Reading one elevation file into a raw grid (readHgtFile): dispatch on
    the extension, check the decoded size, and swap the two bytes of every
    sample. Opening the file, the decompressors and reading to the end are
    not modelled; what they yield is given as an `HgtSource`. */
module HgtReader {
  import opened Base
  import opened Dem

  /** The extension of a path: from the last '.' of its last
      '/'-separated element to the end, or empty when that element has no
      '.' (filepath.Ext on a system whose separator is '/'). */
  function Ext(path: string): (e: string)
    ensures |e| <= |path| && e == path[|path| - |e|..]
    ensures e == [] || (e[0] == '.' && forall k | 1 <= k < |e| :: e[k] != '.' && e[k] != '/')
  {
    if |path| == 0 || path[|path| - 1] == '/' then []
    else if path[|path| - 1] == '.' then ['.']
    else
      var e := Ext(path[..|path| - 1]);
      if e == [] then [] else e + [path[|path| - 1]]
  }

  /** A path ending in `.` followed by characters that are neither '.' nor
      '/' has exactly that ending as its extension. */
  lemma {:induction false} ExtOfSuffix(stem: string, ext: string)
    requires |ext| >= 1 && ext[0] == '.'
    requires forall k | 1 <= k < |ext| :: ext[k] != '.' && ext[k] != '/'
    ensures Ext(stem + ext) == ext
    decreases |ext|
  {
    var p := stem + ext;
    if |ext| == 1 {
      assert p[|p| - 1] == '.';
    } else {
      var init := ext[..|ext| - 1];
      assert p[..|p| - 1] == stem + init;
      ExtOfSuffix(stem, init);
      assert p[|p| - 1] == ext[|ext| - 1];
      assert init + [ext[|ext| - 1]] == ext;
    }
  }

  /** The byte a sample's other byte sits at: 2i <-> 2i+1. */
  function Partner(k: nat): (j: nat)
    ensures j / 2 == k / 2 && j != k
  {
    if k % 2 == 0 then k + 1 else k - 1
  }

  /** A buffer with the two bytes of every 16-bit sample exchanged: the
      source's big-endian samples become the engine's byte order. */
  function Swapped(raw: seq<byte>): (r: seq<byte>)
    requires |raw| % 2 == 0
    ensures |r| == |raw|
    ensures forall k | 0 <= k < |r| :: r[k] == raw[Partner(k)]
  {
    seq(|raw|, k requires 0 <= k < |raw| => raw[Partner(k)])
  }

  /** Swapping twice restores the buffer. */
  lemma SwapInvolution(raw: seq<byte>)
    requires |raw| % 2 == 0
    ensures Swapped(Swapped(raw)) == raw
  {
    var once := Swapped(raw);
    var twice := Swapped(once);
    forall k | 0 <= k < |raw|
      ensures twice[k] == raw[k]
    {
      assert Partner(Partner(k)) == k;
    }
  }

  /** The sample loop of readHgtFile: a zeroed buffer of the same size is
      filled pair by pair with result[2i], result[2i+1] = raw[2i+1], raw[2i]. */
  method SwapSampleBytes(raw: seq<byte>) returns (result: seq<byte>)
    requires |raw| % 2 == 0
    ensures result == Swapped(raw)
  {
    result := seq(|raw|, _ => 0);
    var i := 0;
    while i < |raw| / 2
      invariant 0 <= i <= |raw| / 2
      invariant |result| == |raw|
      invariant forall k | 0 <= k < 2 * i :: result[k] == raw[Partner(k)]
    {
      result := result[2 * i := raw[2 * i + 1]][2 * i + 1 := raw[2 * i]];
      i := i + 1;
    }
  }

  /** The byte-stream decoders readHgtFile can put in front of the file. */
  datatype Decoder = Plain | Bzip2 | Gzip

  /** What the operating system and the decoders yield for one file:
      whether it opens, whether a gzip header parses, and the bytes read
      through each decoder until the end or an error. */
  datatype HgtSource = HgtSource(
    openError: Option<string>,
    gzipHeaderError: Option<string>,
    readAll: Decoder -> Result<seq<byte>>)

  /** The decoder each readable lower-cased extension selects. */
  function DecoderFor(ext: string): (dec: Option<Decoder>)
  {
    if ext == ".hgt" then Some(Plain)
    else if ext == ".bz2" then Some(Bzip2)
    else if ext == ".gz" then Some(Gzip)
    else None
  }

  /** The size check and sample swap that follow a successful read. */
  function CheckAndSwap(d: Dims, read: Result<seq<byte>>): (r: Result<Option<seq<byte>>>)
    ensures r.Ok? ==> r.value.Some? && |r.value.value| == d.GridBytes()
    ensures r.Ok? ==> read == Ok(Swapped(r.value.value))
    ensures read.Ok? && |read.value| != d.GridBytes() ==> r == Err(InvalidSize)
    ensures read.Ok? && |read.value| == d.GridBytes() ==> r == Ok(Some(Swapped(read.value)))
    ensures read.Err? ==> r == Err(read.error)
  {
    match read
    case Err(e) => Err(e)
    case Ok(raw) =>
      if |raw| != d.GridBytes() then Err(InvalidSize)
      else
        SwapInvolution(raw);
        Ok(Some(Swapped(raw)))
  }

  /** The file opens, its lower-cased extension selects a decoder, and for
      `.gz` the gzip header parses: the decoder's stream gets read. */
  predicate Streams(path: string, src: HgtSource) {
    && src.openError.None?
    && DecoderFor(ToLower(Ext(path))).Some?
    && (DecoderFor(ToLower(Ext(path))) == Some(Gzip) ==> src.gzipHeaderError.None?)
  }

  /** readHgtFile. `Ok(None)` is the (nil, nil) of an `.xml` file: read
      nothing, report nothing. */
  function ReadHgtFile(d: Dims, path: string, src: HgtSource): (r: Result<Option<seq<byte>>>)
    // the file is opened before the extension is looked at
    ensures src.openError.Some? ==> r == Err(IoError(src.openError.value))
    // only an opened `.xml` file yields no data and no error
    ensures r == Ok(None) <==> src.openError.None? && ToLower(Ext(path)) == ".xml"
    // every other extension that selects no decoder is an error
    ensures src.openError.None? && ToLower(Ext(path)) != ".xml" && DecoderFor(ToLower(Ext(path))).None?
            ==> r == Err(UnknownExtension(ToLower(Ext(path))))
    // a delivered grid has exactly N*N*2 bytes, and swapping it back gives
    // the bytes the extension's decoder produced
    ensures r.Ok? && r.value.Some? ==>
              && |r.value.value| == d.GridBytes()
              && DecoderFor(ToLower(Ext(path))).Some?
              && src.readAll(DecoderFor(ToLower(Ext(path))).value) == Ok(Swapped(r.value.value))
    // a gzip header that does not parse is an error
    ensures src.openError.None? && ToLower(Ext(path)) == ".gz" && src.gzipHeaderError.Some?
            ==> r == Err(IoError(src.gzipHeaderError.value))
    // an error while reading the stream is returned as it is
    ensures Streams(path, src) && src.readAll(DecoderFor(ToLower(Ext(path))).value).Err?
            ==> r == Err(src.readAll(DecoderFor(ToLower(Ext(path))).value).error)
    // a decoded stream of the wrong length is rejected
    ensures && Streams(path, src)
            && src.readAll(DecoderFor(ToLower(Ext(path))).value).Ok?
            && |src.readAll(DecoderFor(ToLower(Ext(path))).value).value| != d.GridBytes()
            ==> r == Err(InvalidSize)
    // a decoded stream of exactly N*N*2 bytes is delivered, swapped
    ensures && Streams(path, src)
            && src.readAll(DecoderFor(ToLower(Ext(path))).value).Ok?
            && |src.readAll(DecoderFor(ToLower(Ext(path))).value).value| == d.GridBytes()
            ==> r == Ok(Some(Swapped(src.readAll(DecoderFor(ToLower(Ext(path))).value).value)))
  {
    var ext := ToLower(Ext(path));
    if src.openError.Some? then Err(IoError(src.openError.value))
    else if ext == ".hgt" then CheckAndSwap(d, src.readAll(Plain))
    else if ext == ".bz2" then CheckAndSwap(d, src.readAll(Bzip2))
    else if ext == ".gz" then
      if src.gzipHeaderError.Some? then Err(IoError(src.gzipHeaderError.value))
      else CheckAndSwap(d, src.readAll(Gzip))
    else if ext == ".xml" then Ok(None)
    else Err(UnknownExtension(ext))
  }

  lemma ToLowerIdempotent(s: string)
    ensures ToLower(ToLower(s)) == ToLower(s)
  {
  }

  /** The extension is compared after lower-casing, so `N45E007.HGT` is
      read like `N45E007.hgt`, and a `.XML` marker is skipped. */
  lemma ExtensionCaseIgnored(d: Dims, stem: string, ext: string, src: HgtSource)
    requires |ext| >= 1 && ext[0] == '.'
    requires forall k | 1 <= k < |ext| :: ext[k] != '.' && ext[k] != '/'
    ensures ReadHgtFile(d, stem + ext, src) == ReadHgtFile(d, stem + ToLower(ext), src)
  {
    ExtOfSuffix(stem, ext);
    var low := ToLower(ext);
    forall k | 1 <= k < |low|
      ensures low[k] != '.' && low[k] != '/'
    {
      assert low[k] == LowerChar(ext[k]);
    }
    ExtOfSuffix(stem, low);
    ToLowerIdempotent(ext);
    SameExtensionSameRead(d, stem + ext, stem + low, src);
  }

  /** readHgtFile looks at the path only through its lower-cased extension. */
  lemma SameExtensionSameRead(d: Dims, p: string, q: string, src: HgtSource)
    requires ToLower(Ext(p)) == ToLower(Ext(q))
    ensures ReadHgtFile(d, p, src) == ReadHgtFile(d, q, src)
  {
  }
}
