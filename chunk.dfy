/** A PNG chunk (`Chunk` in src/png/chunk.rs) and its byte layout, section 5.3
    of ISO/IEC 15948: a big-endian length, the four type bytes, the data and a
    big-endian CRC-32 over the type bytes and the data.

    No method of `Chunk` changes a field after construction, so the source's
    accessors are the datatype's destructors. The public `chunk_type` field
    can still be reassigned by a caller, which leaves a stale CRC behind; the
    lemmas below hold for every field value, so such a chunk is covered too
    (`TryFromAsBytes` rejects it). */
module Chunks {
  import opened Endian
  import opened Wrappers
  import opened ChunkTypes
  import opened Crc32

  datatype Chunk = Chunk(length: uint32, chunkType: ChunkType, data: seq<uint8>, crc: uint32)

  /** The message `try_from` fails with. */
  const InvalidChunk: string := "!!Invalid Chunk!!"

  /** Number of bytes a chunk occupies besides its data: length, type and CRC. */
  const Overhead: nat := 12

  /** The bytes the CRC of a chunk covers: its type code, then its data. */
  function CrcInput(t: ChunkType, data: seq<uint8>): (r: seq<uint8>)
    ensures |r| == 4 + |data|
    ensures r[..4] == Bytes(t) && r[4..] == data
  {
    Bytes(t) + data
  }

  /** Whether the stored CRC is the checksum of the type and data. */
  predicate CrcMatches(c: Chunk) {
    c.crc == Checksum(CrcInput(c.chunkType, c.data))
  }

  /** `Chunk::new`: the length is `data.len() as u32`, which keeps the low 32
      bits of the data size, and the CRC is computed over type and data. */
  function New(t: ChunkType, data: seq<uint8>): (c: Chunk)
    ensures c.chunkType == t && c.data == data
    ensures Value(c.length) == |data| % 0x1_0000_0000
    ensures CrcMatches(c)
  {
    FromNatValue(|data|);
    Chunk(FromNat(|data|), t, data, Checksum(CrcInput(t, data)))
  }

  /** `as_bytes`: length, type, data and CRC, in that order and without gaps. */
  function AsBytes(c: Chunk): (r: seq<uint8>)
    ensures |r| == Overhead + |c.data|
    ensures r[..4] == ToBeBytes(c.length)
    ensures r[4..8] == Bytes(c.chunkType)
    ensures r[8..|r| - 4] == c.data
    ensures r[|r| - 4..] == ToBeBytes(c.crc)
  {
    var r := ToBeBytes(c.length) + Bytes(c.chunkType) + c.data + ToBeBytes(c.crc);
    assert r[..4] == ToBeBytes(c.length);
    assert r[4..8] == Bytes(c.chunkType);
    assert r[8..|r| - 4] == c.data;
    r
  }

  /** `TryFrom<&[u8]>`: the CRC is the last four bytes and the data is
      everything between the type and the CRC, so the payload is located from
      the size of the slice. The length field is copied as it stands and never
      compared with the payload size. Slices shorter than twelve bytes make the
      source panic. */
  function TryFrom(b: seq<uint8>): (r: Result<Chunk, string>)
    requires |b| >= Overhead
    ensures r.Failure? <==> FromBeBytes(b[|b| - 4..]) != Checksum(b[4..8] + b[8..|b| - 4])
    ensures r.Failure? ==> r.error == InvalidChunk
    ensures r.Success? ==> && r.value.length == FromBeBytes(b[..4])
                           && Bytes(r.value.chunkType) == b[4..8]
                           && r.value.data == b[8..|b| - 4]
                           && r.value.crc == FromBeBytes(b[|b| - 4..])
    ensures r.Success? ==> CrcMatches(r.value)
  {
    var crcOffset := |b| - 4;
    var crc := FromBeBytes(b[crcOffset..]);
    var data := b[8..crcOffset];
    if crc != Checksum(b[4..8] + data) then
      Failure(InvalidChunk)
    else
      Success(Chunk(FromBeBytes(b[..4]), ChunkTypes.TryFrom(b[4..8]).value, data, crc))
  }

  /** `data_as_string`, for data that is ASCII (where UTF-8 decoding is the
      identity on bytes). */
  function DataAsString(c: Chunk): (s: string)
    requires forall i :: 0 <= i < |c.data| ==> c.data[i] < 0x80
    ensures |s| == |c.data|
    ensures forall i :: 0 <= i < |s| ==> s[i] as int == c.data[i] as int
  {
    seq(|c.data|, i requires 0 <= i < |c.data| => AsciiChar(c.data[i]))
  }

  /** Whatever `try_from` accepts, `as_bytes` gives back byte for byte, even
      when the length field disagrees with the payload size. */
  lemma AsBytesTryFrom(b: seq<uint8>)
    requires |b| >= Overhead && TryFrom(b).Success?
    ensures AsBytes(TryFrom(b).value) == b
  {
    var c := TryFrom(b).value;
    var r := AsBytes(c);
    ToFromBeBytes(b[..4]);
    ToFromBeBytes(b[|b| - 4..]);
    assert r == r[..4] + r[4..8] + r[8..|r| - 4] + r[|r| - 4..];
    assert b == b[..4] + b[4..8] + b[8..|b| - 4] + b[|b| - 4..];
  }

  /** `try_from` of `as_bytes` accepts exactly the chunks whose CRC matches,
      and then gives back the same chunk, length field included. */
  lemma TryFromAsBytes(c: Chunk)
    ensures TryFrom(AsBytes(c)) == if CrcMatches(c) then Success(c) else Failure(InvalidChunk)
  {
    var b := AsBytes(c);
    FromToBeBytes(c.length);
    FromToBeBytes(c.crc);
    assert b[4..8] + b[8..|b| - 4] == CrcInput(c.chunkType, c.data);
    if CrcMatches(c) {
      var d := TryFrom(b).value;
      BytesInjective(d.chunkType, c.chunkType);
    }
  }

  /** A chunk built by `new` survives serialisation and parsing unchanged. */
  lemma NewRoundTrip(t: ChunkType, data: seq<uint8>)
    ensures TryFrom(AsBytes(New(t, data))) == Success(New(t, data))
  {
    TryFromAsBytes(New(t, data));
  }

  /** Any change to one byte of the type, the data or the stored CRC of an
      accepted slice makes `try_from` reject it. */
  lemma CorruptionDetected(b: seq<uint8>, i: nat, v: uint8)
    requires |b| >= Overhead && TryFrom(b).Success?
    requires 4 <= i < |b| && v != b[i]
    ensures TryFrom(b[i := v]).Failure?
  {
    if i < |b| - 4 {
      CorruptPayloadDetected(b, i, v);
    } else {
      CorruptCrcDetected(b, i, v);
    }
  }

  lemma CorruptPayloadDetected(b: seq<uint8>, i: nat, v: uint8)
    requires |b| >= Overhead && TryFrom(b).Success?
    requires 4 <= i < |b| - 4 && v != b[i]
    ensures TryFrom(b[i := v]).Failure?
  {
    var b' := b[i := v];
    var n := |b|;
    assert b'[n - 4..] == b[n - 4..];
    var s := b[4..n - 4];
    assert s[i - 4] == b[i];
    assert b[4..8] + b[8..n - 4] == s;
    assert b'[4..n - 4] == s[i - 4 := v];
    assert b'[4..8] + b'[8..n - 4] == b'[4..n - 4];
    ChecksumDetectsByteError(s, i - 4, v);
  }

  lemma CorruptCrcDetected(b: seq<uint8>, i: nat, v: uint8)
    requires |b| >= Overhead && TryFrom(b).Success?
    requires |b| - 4 <= i < |b| && v != b[i]
    ensures TryFrom(b[i := v]).Failure?
  {
    var b' := b[i := v];
    var n := |b|;
    var covered := b[4..8] + b[8..n - 4];
    assert b'[..n - 4] == b[..n - 4];
    assert b'[4..8] + b'[8..n - 4] == covered by {
      assert b'[4..8] == b'[..n - 4][4..8] && b[4..8] == b[..n - 4][4..8];
      assert b'[8..n - 4] == b'[..n - 4][8..] && b[8..n - 4] == b[..n - 4][8..];
    }
    var stored, stored' := b[n - 4..], b'[n - 4..];
    assert FromBeBytes(stored) == Checksum(covered);
    assert stored' != stored by {
      assert stored'[i - (n - 4)] == v;
      assert stored[i - (n - 4)] == b[i];
    }
    if FromBeBytes(stored') == FromBeBytes(stored) {
      FromBeBytesInjective(stored', stored);
    }
  }

  /** The length field is not protected: overwriting it leaves a valid slice
      valid, and only the parsed length changes. A corrupt length therefore
      goes undetected. */
  lemma LengthFieldUnchecked(b: seq<uint8>, length: uint32)
    requires |b| >= Overhead
    ensures var b' := ToBeBytes(length) + b[4..];
            && |b'| == |b|
            && TryFrom(b').Success? == TryFrom(b).Success?
            && (TryFrom(b).Success? ==> TryFrom(b') == Success(TryFrom(b).value.(length := length)))
  {
    var b' := ToBeBytes(length) + b[4..];
    var n := |b|;
    assert b'[4..8] == b[4..8] && b'[8..n - 4] == b[8..n - 4] && b'[n - 4..] == b[n - 4..];
    assert b'[..4] == ToBeBytes(length);
    FromToBeBytes(length);
    if TryFrom(b).Success? {
      BytesInjective(TryFrom(b').value.chunkType, TryFrom(b).value.chunkType);
    }
  }
}
