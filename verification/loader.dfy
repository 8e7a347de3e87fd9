/** `bytepress.lib.Main.Decompress`, which the generated loader calls with the
    marker the packer spliced in: 0, 1 and 2 select GZIP, QuickLZ and LZMA,
    anything else yields null. */
module Loader {
  import opened Bytes
  import opened Results
  import opened Codecs
  import opened Selection
  import opened Presser
  import LzmaFrame

  /** What the call returns: null, the decompressed bytes, or the exception
      the LZMA helper throws. */
  datatype Loaded = Null | Payload(bytes: seq<byte>) | Threw(error: LzmaFrame.LzmaError)

  function Decompress(suite: CodecSuite, data: seq<byte>, compressionType: int): (r: Loaded)
    ensures r.Null? <==> compressionType != 0 && compressionType != 1 && compressionType != 2
    ensures compressionType == 0 ==> r == Payload(suite.gzipDecompress(data))
    ensures compressionType == 1 ==> r == Payload(suite.quickLzDecompress(data))
    ensures compressionType == 2 && |data| < LzmaFrame.PropsSize ==> r == Threw(LzmaFrame.TooShort)
  {
    if compressionType == 0 then Payload(suite.gzipDecompress(data))
    else if compressionType == 1 then Payload(suite.quickLzDecompress(data))
    else if compressionType == 2 then
      match LzmaFrame.Decompress(suite.lzmaDecoder, data)
      case Ok(bytes) => Payload(bytes)
      case Err(e) => Threw(e)
    else Null
  }

  /** The runtime decompressor belonging to each codec class. */
  function DecompressorOf(suite: CodecSuite, k: CodecKind, data: seq<byte>): Loaded {
    match k
    case Gzip => Payload(suite.gzipDecompress(data))
    case QuickLz => Payload(suite.quickLzDecompress(data))
    case Lzma =>
      var r := LzmaFrame.Decompress(suite.lzmaDecoder, data);
      if r.Ok? then Payload(r.value) else Threw(r.error)
  }

  /** The marker the packer writes for a codec, read back as an integer
      literal, makes the loader call that same codec's decompressor. */
  lemma MarkerSelectsSameCodec(suite: CodecSuite, k: CodecKind, data: seq<byte>)
    ensures LiteralValue(MarkerText(k)).Some?
    ensures Decompress(suite, data, LiteralValue(MarkerText(k)).value) == DecompressorOf(suite, k, data)
  {
    MarkerLiteralDenotesMarker(k);
  }

  /** For codecs that obey their round-trip law, the payload the packer
      chooses, handed to the loader with the marker it spliced, decompresses
      to the original input. */
  lemma {:induction false} ChosenPayloadLoads(suite: CodecSuite, data: seq<byte>)
    requires Sound(suite) && |data| <= Int64Max
    ensures var choice := PickCompressor(RunTrials(LoadCompressors(suite), data));
            choice.Some? ==> Decompress(suite, choice.value.payload, Marker(choice.value.kind)) == Payload(data)
  {
    var trials := RunTrials(LoadCompressors(suite), data);
    var choice := PickCompressor(trials);
    PickCompressorChoosesFirstShortest(trials);
    if choice.Some? {
      var c := choice.value;
      if c.kind == Lzma {
        var enc := suite.lzmaEncoder;
        assert c.payload == LzmaFrame.Compress(enc, data);
        assert |enc.encode(data)| <= Int64Max;
        LzmaFrame.FrameRoundTrip(enc, suite.lzmaDecoder, data);
      }
    }
  }

  /** The same for a whole successful run: the report's payload and codec
      give back the input file's bytes at run time. */
  lemma ProcessedPayloadLoads(input: PackInput, suite: CodecSuite, compile: Compile)
    requires Sound(suite) && |input.fileBytes| <= Int64Max
    ensures var r := Process(input, suite, compile);
            r.outcome.Ok? ==> Decompress(suite, r.outcome.value.payload, Marker(r.outcome.value.kind)) == Payload(input.fileBytes)
  {
    ChosenPayloadLoads(suite, input.fileBytes);
  }
}
