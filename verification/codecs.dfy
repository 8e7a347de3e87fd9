/** The three codecs, the integer marker that names each of them inside the
    loader, and the compressor/decompressor functions both sides use. */
module Codecs {
  import opened Bytes
  import opened Results
  import LzmaFrame

  /** The concrete compressor classes; the packer tells them apart by type. */
  datatype CodecKind = Gzip | QuickLz | Lzma

  /** The marker written into the loader and switched on at run time. */
  function Marker(k: CodecKind): (m: int)
    ensures 0 <= m <= 2
  {
    match k
    case Gzip => 0
    case QuickLz => 1
    case Lzma => 2
  }

  /** The literal text spliced in place of `*type*`. */
  function MarkerText(k: CodecKind): string {
    match k
    case Gzip => "0"
    case QuickLz => "1"
    case Lzma => "2"
  }

  function DigitValue(c: char): int
    requires '0' <= c <= '9'
  {
    c as int - '0' as int
  }

  /** The value of a decimal integer literal; None for anything else. */
  function LiteralValue(s: string): (r: Option<nat>)
    ensures r.Some? ==> |s| > 0 && forall i :: 0 <= i < |s| ==> '0' <= s[i] <= '9'
  {
    if |s| == 0 || exists i :: 0 <= i < |s| && !('0' <= s[i] <= '9') then None
    else Some(DigitsValue(s))
  }

  function DigitsValue(s: string): nat
    requires forall i :: 0 <= i < |s| ==> '0' <= s[i] <= '9'
  {
    if |s| == 0 then 0 else DigitsValue(s[..|s| - 1]) * 10 + DigitValue(s[|s| - 1])
  }

  /** Each marker literal denotes that codec's marker, and distinct codecs
      get distinct markers. */
  lemma MarkerLiteralDenotesMarker(k: CodecKind)
    ensures LiteralValue(MarkerText(k)) == Some(Marker(k))
    ensures forall k' :: Marker(k') == Marker(k) ==> k' == k
  {
    var t := MarkerText(k);
    assert |t| == 1 && '0' <= t[0] <= '9';
    assert DigitsValue(t) == DigitsValue(t[..0]) * 10 + DigitValue(t[0]);
  }

  /** `ICompressor`: a name and a compression function, plus the class the
      object belongs to. */
  datatype Compressor = Compressor(kind: CodecKind, name: string, compress: seq<byte> -> seq<byte>)

  const LzmaName: string := "LZMA"

  /** The compressor and decompressor of every codec. GZIP and QuickLZ are
      opaque functions (their classes are not part of this model); LZMA is the
      frame around an opaque encoder and decoder. */
  datatype CodecSuite = CodecSuite(
    gzipName: string,
    gzipCompress: seq<byte> -> seq<byte>,
    gzipDecompress: seq<byte> -> seq<byte>,
    quickLzName: string,
    quickLzCompress: seq<byte> -> seq<byte>,
    quickLzDecompress: seq<byte> -> seq<byte>,
    lzmaEncoder: LzmaFrame.Encoder,
    lzmaDecoder: LzmaFrame.Decoder)

  /** The packer's `LZMAez` object. */
  function LzmaCompressor(enc: LzmaFrame.Encoder): (c: Compressor)
    ensures c.kind == Lzma && c.name == "LZMA"
    ensures forall x :: c.compress(x) == LzmaFrame.Compress(enc, x)
  {
    Compressor(Lzma, LzmaName, x => LzmaFrame.Compress(enc, x))
  }

  /** What the `LZMAez` compressor writes, the runtime `Helper.Decompress`
      reads back, for any encoder/decoder pair that obeys the LZMA
      round-trip law. */
  lemma LzmaCompressorRoundTrip(enc: LzmaFrame.Encoder, dec: LzmaFrame.Decoder, data: seq<byte>)
    requires LzmaFrame.PairSound(enc, dec)
    requires |data| <= Int64Max && |enc.encode(data)| <= Int64Max
    ensures LzmaFrame.Decompress(dec, LzmaCompressor(enc).compress(data)) == Ok(data)
  {
    LzmaFrame.FrameRoundTrip(enc, dec, data);
  }

  /** The round-trip law every codec pair is assumed to obey. */
  ghost predicate Sound(suite: CodecSuite) {
    && (forall x {:trigger suite.gzipCompress(x)} :: suite.gzipDecompress(suite.gzipCompress(x)) == x)
    && (forall x {:trigger suite.quickLzCompress(x)} :: suite.quickLzDecompress(suite.quickLzCompress(x)) == x)
    && LzmaFrame.PairSound(suite.lzmaEncoder, suite.lzmaDecoder)
  }
}
