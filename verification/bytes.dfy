/** Bytes, the little-endian Int64 layout `BinaryWriter.Write(long)` and
    `BinaryReader.ReadInt64` use, and a `MemoryStream` reduced to its buffer
    and position (writes overwrite in place and extend at the end). */
module Bytes {

  type byte = x: int | 0 <= x < 256

  const Int64Min: int := -0x8000_0000_0000_0000
  const Int64Max: int := 0x7FFF_FFFF_FFFF_FFFF
  const TwoTo64: int := 0x1_0000_0000_0000_0000

  predicate InInt64(x: int) {
    Int64Min <= x <= Int64Max
  }

  function Pow256(n: nat): (p: nat)
    ensures p > 0
  {
    if n == 0 then 1 else 256 * Pow256(n - 1)
  }

  /** The `n` low-order bytes of `u`, least significant first. */
  function UnsignedLE(n: nat, u: nat): (r: seq<byte>)
    ensures |r| == n
  {
    if n == 0 then [] else [u % 256] + UnsignedLE(n - 1, u / 256)
  }

  /** The unsigned value of a little-endian byte string. */
  function ValueLE(b: seq<byte>): nat
  {
    if |b| == 0 then 0 else b[0] + 256 * ValueLE(b[1..])
  }

  lemma {:induction false} ValueLEBound(b: seq<byte>)
    ensures ValueLE(b) < Pow256(|b|)
  {
    if |b| > 0 {
      ValueLEBound(b[1..]);
      assert ValueLE(b) <= 255 + 256 * (Pow256(|b| - 1) - 1);
    }
  }

  lemma {:induction false} ValueOfUnsignedLE(n: nat, u: nat)
    requires u < Pow256(n)
    ensures ValueLE(UnsignedLE(n, u)) == u
  {
    if n > 0 {
      var r := UnsignedLE(n, u);
      assert r[1..] == UnsignedLE(n - 1, u / 256);
      assert u / 256 < Pow256(n - 1);
      ValueOfUnsignedLE(n - 1, u / 256);
    }
  }

  lemma {:induction false} UnsignedLEOfValue(b: seq<byte>)
    ensures UnsignedLE(|b|, ValueLE(b)) == b
  {
    if |b| > 0 {
      var v := ValueLE(b[1..]);
      assert (b[0] + 256 * v) % 256 == b[0];
      assert (b[0] + 256 * v) / 256 == v;
      UnsignedLEOfValue(b[1..]);
    }
  }

  lemma Pow256Of8()
    ensures Pow256(8) == TwoTo64
  {
  }

  /** The 8 bytes `BinaryWriter.Write(long)` emits for `x`: two's
      complement, little-endian. Values outside Int64 wrap modulo 2^64, as an
      unchecked cast to `long` does. */
  function Int64LE(x: int): (r: seq<byte>)
    ensures |r| == 8
  {
    UnsignedLE(8, x % TwoTo64)
  }

  /** The value `BinaryReader.ReadInt64` returns for 8 bytes. */
  function ReadInt64LE(b: seq<byte>): (x: int)
    requires |b| == 8
    ensures InInt64(x)
  {
    ValueLEBound(b);
    Pow256Of8();
    var u := ValueLE(b);
    if u > Int64Max then u - TwoTo64 else u
  }

  /** Reading back a written Int64 gives the value written. */
  lemma Int64RoundTrip(x: int)
    requires InInt64(x)
    ensures ReadInt64LE(Int64LE(x)) == x
  {
    Pow256Of8();
    ValueOfUnsignedLE(8, x % TwoTo64);
  }

  /** Writing back a read Int64 gives the 8 bytes read. */
  lemma Int64BytesRoundTrip(b: seq<byte>)
    requires |b| == 8
    ensures Int64LE(ReadInt64LE(b)) == b
  {
    ValueLEBound(b);
    Pow256Of8();
    UnsignedLEOfValue(b);
  }

  /** A `MemoryStream`: its contents and its current position. */
  datatype MemStream = MemStream(buf: seq<byte>, pos: nat) {
    predicate Valid() {
      pos <= |buf|
    }
  }

  const EmptyStream: MemStream := MemStream([], 0)

  /** Writes `bytes` at the position: bytes already there are overwritten, the
      buffer grows only past its end, and the position moves past the write. */
  function Write(s: MemStream, bytes: seq<byte>): (r: MemStream)
    requires s.Valid()
    ensures r.Valid() && r.pos == s.pos + |bytes|
    ensures |r.buf| == if s.pos + |bytes| <= |s.buf| then |s.buf| else s.pos + |bytes|
    ensures r.buf[..s.pos] == s.buf[..s.pos]
    ensures r.buf[s.pos..r.pos] == bytes
    ensures r.pos <= |s.buf| ==> r.buf[r.pos..] == s.buf[r.pos..]
  {
    var tail := if s.pos + |bytes| <= |s.buf| then s.buf[s.pos + |bytes|..] else [];
    var buf := s.buf[..s.pos] + bytes + tail;
    assert buf[s.pos..s.pos + |bytes|] == bytes;
    MemStream(buf, s.pos + |bytes|)
  }

  /** Sets `Position`; the model only seeks inside the buffer. */
  function Seek(s: MemStream, p: nat): (r: MemStream)
    requires p <= |s.buf|
    ensures r.Valid() && r.buf == s.buf && r.pos == p
  {
    MemStream(s.buf, p)
  }
}
