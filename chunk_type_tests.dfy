/** The unit tests of src/chunk_type.rs, stated as lemmas about the model. */
module ChunkTypeTests {
  import opened Wrappers
  import opened ChunkTypes

  /** The code "RuSt": critical, private, reserved bit valid, safe to copy. */
  const RuSt: ChunkType := ChunkType(82, 117, 83, 116)

  lemma FromStrRuSt()
    ensures FromStr("RuSt") == Success(RuSt)
  {
    var s := "RuSt";
    assert !HasNumeric(s) by {
      forall i | 0 <= i < |s| ensures !IsNumeric(s[i]) {
        assert s[i] in {'R', 'u', 'S', 't'};
      }
    }
    assert ToString(RuSt) == s;
    ToStringInjective(FromStr(s).value, RuSt);
  }

  lemma ChunkTypeFromBytes()
    ensures TryFrom([82, 117, 83, 116]).Success?
    ensures Bytes(TryFrom([82, 117, 83, 116]).value) == [82, 117, 83, 116]
  {
  }

  lemma ChunkTypeFromStr()
    ensures FromStr("RuSt") == TryFrom([82, 117, 83, 116])
  {
    FromStrRuSt();
  }

  lemma ChunkTypeFlags()
    ensures FromStr("RuSt").Success?
    ensures IsCritical(FromStr("RuSt").value)
    ensures !IsPublic(FromStr("RuSt").value)
    ensures IsReservedBitValid(FromStr("RuSt").value)
    ensures IsSafeToCopy(FromStr("RuSt").value)
    ensures IsValid(FromStr("RuSt").value)
  {
    FromStrRuSt();
  }

  /** Parses `s`, a digit-free string of four letters. */
  lemma ParsesTo(s: string, t: ChunkType)
    requires s == ToString(t)
    requires forall i :: 0 <= i < 4 ==> IsAsciiAlphabetic(Bytes(t)[i])
    ensures IsAscii(s) && FromStr(s) == Success(t)
  {
    FromStrToString(t);
  }

  lemma ChunkTypeIsNotCritical()
    ensures FromStr("ruSt").Success? && !IsCritical(FromStr("ruSt").value)
  {
    ParsesTo("ruSt", ChunkType(114, 117, 83, 116));
  }

  lemma ChunkTypeIsPublic()
    ensures FromStr("RUSt").Success? && IsPublic(FromStr("RUSt").value)
  {
    ParsesTo("RUSt", ChunkType(82, 85, 83, 116));
  }

  lemma ChunkTypeIsReservedBitInvalid()
    ensures FromStr("Rust").Success?
    ensures !IsReservedBitValid(FromStr("Rust").value) && !IsValid(FromStr("Rust").value)
  {
    ParsesTo("Rust", ChunkType(82, 117, 115, 116));
  }

  lemma ChunkTypeIsUnsafeToCopy()
    ensures FromStr("RuST").Success? && !IsSafeToCopy(FromStr("RuST").value)
  {
    ParsesTo("RuST", ChunkType(82, 117, 83, 84));
  }

  lemma InvalidChunkTypeRejected()
    ensures FromStr("Ru1t") == Failure(InvalidChunkType)
  {
    assert IsNumeric("Ru1t"[2]);
  }

  lemma ChunkTypeString()
    ensures FromStr("RuSt").Success? && ToString(FromStr("RuSt").value) == "RuSt"
  {
    FromStrRuSt();
  }

  lemma ChunkTypeTraitImpls()
    ensures TryFrom([82, 117, 83, 116]).Success? && FromStr("RuSt").Success?
    ensures TryFrom([82, 117, 83, 116]).value == FromStr("RuSt").value
  {
    FromStrRuSt();
  }
}
