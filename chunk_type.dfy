/** The four-byte chunk type code of a PNG chunk (`ChunkType` in
    src/chunk_type.rs). The case of each byte carries one flag, following the
    chunk naming conventions of section 5.4 of ISO/IEC 15948: byte 0 is the
    ancillary bit, byte 1 the private bit, byte 2 the reserved bit and byte 3
    the safe-to-copy bit.

    The source keeps the four bytes as Rust `char`s; here they are ASCII bytes,
    and strings are ASCII strings, so `char as u8` is the identity and
    `is_numeric` is exactly `'0'..='9'`. */
module ChunkTypes {
  import opened Endian
  import opened Wrappers
  import Octets

  datatype ChunkType = ChunkType(
    ancillaryBit: uint8,
    privateBit: uint8,
    reservedBit: uint8,
    safeToCopyBit: uint8)

  /** The message `from_str` fails with. */
  const InvalidChunkType: string := "!!Invalid chunk type!!"

  predicate IsAsciiUppercase(b: uint8) {
    0x41 <= b <= 0x5A   // 'A' ..= 'Z'
  }

  predicate IsAsciiLowercase(b: uint8) {
    0x61 <= b <= 0x7A   // 'a' ..= 'z'
  }

  predicate IsAsciiAlphabetic(b: uint8) {
    IsAsciiUppercase(b) || IsAsciiLowercase(b)
  }

  predicate IsNumeric(c: char) {
    '0' <= c <= '9'
  }

  predicate HasNumeric(s: string) {
    exists i :: 0 <= i < |s| && IsNumeric(s[i])
  }

  predicate IsAscii(s: string) {
    forall i :: 0 <= i < |s| ==> s[i] as int < 0x80
  }

  function AsciiByte(c: char): (b: uint8)
    requires c as int < 0x80
    ensures b as int == c as int
  {
    Octets.FromValue(c as int)
  }

  function AsciiChar(b: uint8): (c: char)
    ensures c as int == b as int
  {
    (b as int) as char
  }

  /** The code as the four bytes of the chunk layout, in order. */
  function Bytes(t: ChunkType): (r: seq<uint8>)
    ensures |r| == 4
  {
    [t.ancillaryBit, t.privateBit, t.reservedBit, t.safeToCopyBit]
  }

  /** Whether the reserved bit is clear, as this revision of PNG demands. */
  predicate IsValid(t: ChunkType) {
    IsAsciiUppercase(t.reservedBit)
  }

  /** Critical (uppercase) rather than ancillary (lowercase). */
  predicate IsCritical(t: ChunkType) {
    IsAsciiUppercase(t.ancillaryBit)
  }

  /** Public (uppercase) rather than private (lowercase). */
  predicate IsPublic(t: ChunkType) {
    IsAsciiUppercase(t.privateBit)
  }

  predicate IsReservedBitValid(t: ChunkType) {
    IsAsciiUppercase(t.reservedBit)
  }

  /** Safe for an editor to copy unchanged (lowercase) rather than unsafe. */
  predicate IsSafeToCopy(t: ChunkType) {
    IsAsciiLowercase(t.safeToCopyBit)
  }

  /** `Display`: the four characters in byte order. */
  function ToString(t: ChunkType): (r: string)
    ensures |r| == 4
    ensures forall i :: 0 <= i < 4 ==> r[i] as int == Bytes(t)[i] as int
  {
    [AsciiChar(t.ancillaryBit), AsciiChar(t.privateBit),
     AsciiChar(t.reservedBit), AsciiChar(t.safeToCopyBit)]
  }

  /** `FromStr`: fails when any character is numeric; otherwise takes the
      first four characters, whatever they are and however many follow. The
      source indexes the first four characters after the digit test, so a
      digit-free string shorter than four characters is outside its domain. */
  function FromStr(s: string): (r: Result<ChunkType, string>)
    requires IsAscii(s)
    requires |s| >= 4 || HasNumeric(s)
    ensures r.Failure? <==> HasNumeric(s)
    ensures r.Failure? ==> r.error == InvalidChunkType
    ensures r.Success? ==> ToString(r.value) == s[..4]
  {
    if HasNumeric(s) then
      Failure(InvalidChunkType)
    else
      Success(ChunkType(AsciiByte(s[0]), AsciiByte(s[1]), AsciiByte(s[2]), AsciiByte(s[3])))
  }

  /** `TryFrom<[u8; 4]>`: accepts every four bytes. */
  function TryFrom(bits: seq<uint8>): (r: Result<ChunkType, string>)
    requires |bits| == 4
    ensures r.Success?
    ensures Bytes(r.value) == bits
  {
    Success(ChunkType(bits[0], bits[1], bits[2], bits[3]))
  }

  /** The derived equality is structural: two codes are equal exactly when
      their bytes are. */
  lemma BytesInjective(t: ChunkType, u: ChunkType)
    ensures Bytes(t) == Bytes(u) <==> t == u
  {
    if Bytes(t) == Bytes(u) {
      assert Bytes(t)[0] == Bytes(u)[0] && Bytes(t)[1] == Bytes(u)[1];
      assert Bytes(t)[2] == Bytes(u)[2] && Bytes(t)[3] == Bytes(u)[3];
    }
  }

  lemma AsciiCharInjective(a: uint8, b: uint8)
    requires AsciiChar(a) == AsciiChar(b)
    ensures a == b
  {
    assert a as int == b as int;
  }

  /** The same holds of the string form. */
  lemma ToStringInjective(t: ChunkType, u: ChunkType)
    ensures ToString(t) == ToString(u) <==> t == u
  {
    if ToString(t) == ToString(u) {
      assert ToString(t)[0] == ToString(u)[0] && ToString(t)[1] == ToString(u)[1];
      assert ToString(t)[2] == ToString(u)[2] && ToString(t)[3] == ToString(u)[3];
      AsciiCharInjective(t.ancillaryBit, u.ancillaryBit);
      AsciiCharInjective(t.privateBit, u.privateBit);
      AsciiCharInjective(t.reservedBit, u.reservedBit);
      AsciiCharInjective(t.safeToCopyBit, u.safeToCopyBit);
    }
  }

  /** The ASCII bytes of a string. */
  function AsciiBytes(s: string): (r: seq<uint8>)
    requires IsAscii(s)
    ensures |r| == |s|
    ensures forall i :: 0 <= i < |s| ==> r[i] as int == s[i] as int
  {
    seq(|s|, i requires 0 <= i < |s| => AsciiByte(s[i]))
  }

  /** Parsing a string and parsing its first four bytes agree. */
  lemma FromStrIsTryFrom(s: string)
    requires IsAscii(s) && |s| >= 4 && !HasNumeric(s)
    ensures FromStr(s) == TryFrom(AsciiBytes(s[..4]))
  {
    var t := FromStr(s).value;
    var u := TryFrom(AsciiBytes(s[..4])).value;
    forall i | 0 <= i < 4 ensures Bytes(t)[i] == Bytes(u)[i] {
      assert ToString(t)[i] == s[i];
    }
    assert Bytes(t) == Bytes(u);
    BytesInjective(t, u);
  }

  /** A code whose bytes are ASCII and not digits survives `to_string`
      followed by `from_str`. */
  lemma FromStrToString(t: ChunkType)
    requires forall i :: 0 <= i < 4 ==> Bytes(t)[i] < 0x80 && !(0x30 <= Bytes(t)[i] <= 0x39)
    ensures FromStr(ToString(t)) == Success(t)
  {
    var s := ToString(t);
    assert IsAscii(s);
    assert !HasNumeric(s) by {
      forall i | 0 <= i < |s| ensures !IsNumeric(s[i]) {
        assert s[i] as int == Bytes(t)[i] as int;
      }
    }
    assert s[..4] == s;
    ToStringInjective(FromStr(s).value, t);
  }

  /** The flags are the case of one byte each, and nothing else about the code
      matters to them. */
  lemma FlagsDependOnOneByteEach(t: ChunkType)
    ensures IsCritical(t) <==> IsAsciiUppercase(Bytes(t)[0])
    ensures IsPublic(t) <==> IsAsciiUppercase(Bytes(t)[1])
    ensures IsValid(t) <==> IsReservedBitValid(t)
    ensures IsValid(t) <==> IsAsciiUppercase(Bytes(t)[2])
    ensures IsSafeToCopy(t) <==> IsAsciiLowercase(Bytes(t)[3])
  {
  }

  /** Bit 5 (value 32) of a byte, the "property bit" of section 5.4 of
      ISO/IEC 15948. */
  function PropertyBit(b: uint8): bool {
    b & 0x20 != 0
  }

  /** For letters, the case tests of the source agree with the property bits of
      the PNG definition: bit 5 clear means critical, public or reserved-valid,
      and bit 5 set means safe to copy. */
  lemma FlagsArePropertyBits(t: ChunkType)
    requires forall i :: 0 <= i < 4 ==> IsAsciiAlphabetic(Bytes(t)[i])
    ensures IsCritical(t) <==> !PropertyBit(t.ancillaryBit)
    ensures IsPublic(t) <==> !PropertyBit(t.privateBit)
    ensures IsValid(t) <==> !PropertyBit(t.reservedBit)
    ensures IsSafeToCopy(t) <==> PropertyBit(t.safeToCopyBit)
  {
    assert IsAsciiAlphabetic(Bytes(t)[0]) && IsAsciiAlphabetic(Bytes(t)[1]);
    assert IsAsciiAlphabetic(Bytes(t)[2]) && IsAsciiAlphabetic(Bytes(t)[3]);
  }

  /** Neither construction checks that the bytes are letters, and for a byte
      that is not a letter the case tests and the property bit part ways: such
      a byte is neither uppercase nor lowercase, so each flag that asks for
      one case is off. */
  lemma NonLetterHasNoCase(t: ChunkType)
    ensures !IsAsciiAlphabetic(t.ancillaryBit) ==> !IsCritical(t)
    ensures !IsAsciiAlphabetic(t.privateBit) ==> !IsPublic(t)
    ensures !IsAsciiAlphabetic(t.reservedBit) ==> !IsValid(t) && !IsReservedBitValid(t)
    ensures !IsAsciiAlphabetic(t.safeToCopyBit) ==> !IsSafeToCopy(t)
  {
  }
}
