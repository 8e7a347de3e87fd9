/** The LZMA container both sides use: `LZMAez` in the packer and the static
    `Helper` in the runtime library carry the same code. A frame is
      5 coder-property bytes | Int64 original size | Int64 body size | body
    where the body-size field is first written as a zero placeholder and
    patched once the encoder has run. The LZMA encoder and decoder
    themselves are opaque. */
module LzmaFrame {
  import opened Bytes
  import opened Results

  const PropsSize: nat := 5
  const SizeFieldAt: nat := 13
  const HeaderSize: nat := 21

  /** The coder-property bytes `WriteCoderProperties` emits. */
  type Props = s: seq<byte> | |s| == PropsSize witness [0, 0, 0, 0, 0]

  /** The settings table handed to `SetCoderProperties`. */
  datatype Settings = Settings(
    dictionarySize: int,
    posStateBits: int,
    litContextBits: int,
    litPosBits: int,
    algorithm: int,
    numFastBytes: int,
    matchFinder: string,
    endMarker: bool)

  const PackerSettings: Settings := Settings(0x20_0000, 2, 3, 0, 2, 32, "bt4", false)
  const RuntimeSettings: Settings := Settings(0x20_0000, 2, 3, 0, 2, 32, "bt4", false)

  /** The two copies of the table configure the encoder identically: a 2 MiB
      dictionary (1 << 21), pb = 2, lc = 3, lp = 0, algorithm 2, 32 fast
      bytes, the "bt4" match finder and no end marker. */
  lemma SettingsAgree()
    ensures PackerSettings == RuntimeSettings
    ensures PackerSettings.dictionarySize == Pow256(2) * 32
    ensures PackerSettings.matchFinder == "bt4" && !PackerSettings.endMarker
  {
  }

  /** An encoder configured with the settings table: the property bytes it
      writes and the body it produces for an input. */
  datatype Encoder = Encoder(props: Props, encode: seq<byte> -> seq<byte>)

  /** The LZMA decoder: `SetDecoderProperties` accepts or rejects the
      property bytes, and `Code` takes the property bytes, compressed size,
      decompressed size and the rest of the stream, None when it throws. */
  datatype Decoder = Decoder(
    accepts: Props -> bool,
    code: (Props, int, int, seq<byte>) -> Option<seq<byte>>)

  datatype LzmaError =
    | TooShort       // fewer than 5 property bytes could be read ("Input stream is too short.")
    | BadProperties  // `SetDecoderProperties` rejected the property bytes
    | EndOfStream    // `ReadInt64` ran out of input
    | DataError    // the decoder rejected the stream

  /** The output stream just before the back-patch, with the position of the
      placeholder and of the first body byte. */
  datatype Pending = Pending(stream: MemStream, sizeAt: nat, bodyStart: nat)

  /** Property bytes, original size, zero placeholder, then the body. The input
      stream starts at position 0, so the original size is the input length. */
  function WriteWithPlaceholder(enc: Encoder, data: seq<byte>): (p: Pending)
    ensures p.stream.Valid() && p.stream.pos == |p.stream.buf|
    ensures p.sizeAt == SizeFieldAt && p.bodyStart == HeaderSize
    ensures p.stream.buf == enc.props + Int64LE(|data|) + Int64LE(0) + enc.encode(data)
  {
    var inPosition := 0;
    var s1 := Write(EmptyStream, enc.props);
    var s2 := Write(s1, Int64LE(|data| - inPosition));
    var sizeAt := s2.pos;
    var s3 := Write(s2, Int64LE(0));
    var bodyStart := s3.pos;
    var s4 := Write(s3, enc.encode(data));
    assert s4.buf == enc.props + Int64LE(|data|) + Int64LE(0) + enc.encode(data);
    Pending(s4, sizeAt, bodyStart)
  }

  /** Seeks back to the placeholder, writes the number of bytes between the
      body start and the end position, and seeks to the end again. */
  function BackPatch(p: Pending): (r: seq<byte>)
    requires p.stream.Valid() && p.stream.pos == |p.stream.buf|
    requires p.bodyStart <= p.stream.pos && p.sizeAt + 8 <= |p.stream.buf|
    ensures |r| == |p.stream.buf|
    ensures r[p.sizeAt..p.sizeAt + 8] == Int64LE(p.stream.pos - p.bodyStart)
    ensures forall i :: 0 <= i < |r| && !(p.sizeAt <= i < p.sizeAt + 8) ==> r[i] == p.stream.buf[i]
  {
    var after := p.stream.pos;
    var s5 := Seek(p.stream, p.sizeAt);
    var s6 := Write(s5, Int64LE(after - p.bodyStart));
    assert forall i :: p.sizeAt + 8 <= i < |s6.buf| ==> s6.buf[i] == s6.buf[p.sizeAt + 8..][i - p.sizeAt - 8];
    var s7 := Seek(s6, after);
    s7.buf
  }

  /** `Compress`: the frame with the body-size field patched in. */
  function Compress(enc: Encoder, data: seq<byte>): (r: seq<byte>)
    ensures |r| == HeaderSize + |enc.encode(data)|
    ensures r == enc.props + Int64LE(|data|) + Int64LE(|enc.encode(data)|) + enc.encode(data)
  {
    var p := WriteWithPlaceholder(enc, data);
    var r := BackPatch(p);
    var want := enc.props + Int64LE(|data|) + Int64LE(|enc.encode(data)|) + enc.encode(data);
    assert forall i :: 0 <= i < |r| ==> r[i] == want[i] by {
      forall i | 0 <= i < |r|
        ensures r[i] == want[i]
      {
        if SizeFieldAt <= i < SizeFieldAt + 8 {
          assert r[i] == r[SizeFieldAt..SizeFieldAt + 8][i - SizeFieldAt];
        }
      }
    }
    r
  }

  /** The patch overwrites the 8 placeholder bytes and nothing else. */
  lemma BackPatchOnlyTouchesSizeField(enc: Encoder, data: seq<byte>)
    ensures var before := WriteWithPlaceholder(enc, data).stream.buf;
            var after := Compress(enc, data);
            && |after| == |before|
            && after[..SizeFieldAt] == before[..SizeFieldAt]
            && after[HeaderSize..] == before[HeaderSize..]
            && before[SizeFieldAt..HeaderSize] == Int64LE(0)
            && after[SizeFieldAt..HeaderSize] == Int64LE(|after| - HeaderSize)
  {
    var p := WriteWithPlaceholder(enc, data);
    var before := p.stream.buf;
    var after := Compress(enc, data);
    assert after == BackPatch(p);
    assert after[..SizeFieldAt] == before[..SizeFieldAt];
    assert after[HeaderSize..] == before[HeaderSize..];
  }

  datatype Header = Header(props: Props, decompressedSize: int, compressedSize: int)

  function WriteHeader(h: Header): (r: seq<byte>)
    ensures |r| == HeaderSize
  {
    h.props + Int64LE(h.decompressedSize) + Int64LE(h.compressedSize)
  }

  /** The reading half of `Decompress`: `Read(properties, 0, 5)` returns
      fewer than 5 only when fewer are left, and each `ReadInt64` needs 8 more
      bytes. On success, the header and the rest of the stream. */
  function ReadHeader(data: seq<byte>): (r: Result<(Header, seq<byte>), LzmaError>)
    ensures r == Err(TooShort) <==> |data| < PropsSize
    ensures r == Err(EndOfStream) <==> PropsSize <= |data| < HeaderSize
    ensures r.Ok? ==> InInt64(r.value.0.decompressedSize) && InInt64(r.value.0.compressedSize)
    ensures r.Ok? ==> data == WriteHeader(r.value.0) + r.value.1
  {
    var read := if |data| < PropsSize then |data| else PropsSize;
    if read != PropsSize then Err(TooShort)
    else if |data| < PropsSize + 8 then Err(EndOfStream)
    else if |data| < HeaderSize then Err(EndOfStream)
    else
      var h := Header(data[..PropsSize], ReadInt64LE(data[PropsSize..SizeFieldAt]),
                      ReadInt64LE(data[SizeFieldAt..HeaderSize]));
      Int64BytesRoundTrip(data[PropsSize..SizeFieldAt]);
      Int64BytesRoundTrip(data[SizeFieldAt..HeaderSize]);
      assert data == data[..PropsSize] + data[PropsSize..SizeFieldAt] + data[SizeFieldAt..HeaderSize] + data[HeaderSize..];
      Ok((h, data[HeaderSize..]))
  }

  /** Parsing a written header gives it back, with the body untouched. */
  lemma HeaderRoundTrip(h: Header, body: seq<byte>)
    requires InInt64(h.decompressedSize) && InInt64(h.compressedSize)
    ensures ReadHeader(WriteHeader(h) + body) == Ok((h, body))
  {
    var data := WriteHeader(h) + body;
    Int64RoundTrip(h.decompressedSize);
    Int64RoundTrip(h.compressedSize);
    assert data[..PropsSize] == h.props;
    assert data[PropsSize..SizeFieldAt] == Int64LE(h.decompressedSize);
    assert data[SizeFieldAt..HeaderSize] == Int64LE(h.compressedSize);
    assert data[HeaderSize..] == body;
  }

  /** `Decompress`: read the property bytes and configure the decoder with
      them, then read the two sizes, then hand the property bytes, the body
      size, the original size and the rest of the stream to the decoder. */
  function Decompress(dec: Decoder, data: seq<byte>): (r: Result<seq<byte>, LzmaError>)
    ensures |data| < PropsSize ==> r == Err(TooShort)
    ensures PropsSize <= |data| ==> (r == Err(BadProperties) <==> !dec.accepts(data[..PropsSize]))
    ensures PropsSize <= |data| < HeaderSize && dec.accepts(data[..PropsSize]) ==> r == Err(EndOfStream)
    ensures r.Ok? ==> HeaderSize <= |data| && dec.accepts(data[..PropsSize])
  {
    if |data| < PropsSize then Err(TooShort)
    else if !dec.accepts(data[..PropsSize]) then Err(BadProperties)
    else
      var (h, rest) :- ReadHeader(data);
      match dec.code(h.props, h.compressedSize, h.decompressedSize, rest)
      case None => Err(DataError)
      case Some(out) => Ok(out)
  }

  /** What the reader recovers from a frame the writer produced: the
      encoder's property bytes, the input length, the body length and the
      body itself. */
  lemma ReadHeaderOfCompress(enc: Encoder, data: seq<byte>)
    requires |data| <= Int64Max && |enc.encode(data)| <= Int64Max
    ensures ReadHeader(Compress(enc, data))
         == Ok((Header(enc.props, |data|, |enc.encode(data)|), enc.encode(data)))
  {
    var h := Header(enc.props, |data|, |enc.encode(data)|);
    assert Compress(enc, data) == WriteHeader(h) + enc.encode(data);
    HeaderRoundTrip(h, enc.encode(data));
  }

  /** The codec round-trip law for an encoder/decoder pair: the decoder
      accepts the encoder's property bytes and, given the sizes the frame
      records, restores the encoder's input. */
  ghost predicate PairSound(enc: Encoder, dec: Decoder) {
    && dec.accepts(enc.props)
    && forall x: seq<byte> {:trigger enc.encode(x)} ::
         |x| <= Int64Max && |enc.encode(x)| <= Int64Max ==>
           dec.code(enc.props, |enc.encode(x)|, |x|, enc.encode(x)) == Some(x)
  }

  /** Decompressing a frame gives back the compressed input. */
  lemma FrameRoundTrip(enc: Encoder, dec: Decoder, data: seq<byte>)
    requires PairSound(enc, dec)
    requires |data| <= Int64Max && |enc.encode(data)| <= Int64Max
    ensures Decompress(dec, Compress(enc, data)) == Ok(data)
  {
    ReadHeaderOfCompress(enc, data);
  }
}
