# Stegano-gram PNG chunk codec in Dafny

Stegano-gram hides messages in PNG files. It stores each message in a chunk of
its own. This project models the two value types the tool is built on and
proves properties about them:

- `ChunkType` (src/chunk_type.rs) is the four-byte chunk type code:
  - its byte form and its string form;
  - parsing from a string (`FromStr`) and from four bytes (`TryFrom<[u8; 4]>`);
  - the four case-based flags of the PNG chunk naming conventions,
    section 5.4 of ISO/IEC 15948.
- `Chunk` (src/png/chunk.rs) is one chunk:
  - `new` computes the length and the CRC;
  - `as_bytes` writes the layout of section 5.3 of ISO/IEC 15948: a big-endian
    length, the type, the data, and a big-endian CRC;
  - `TryFrom<&[u8]>` parses a byte slice and rejects it when the CRC does not
    match;
  - `data_as_string`.

No method of either Rust type changes a field, and neither file has a loop.
So both are modelled as datatypes and functions, with the properties stated as
lemmas. The fields `Chunk.chunk_type` (src/png/chunk.rs:12) and all four fields
of `ChunkType` (src/chunk_type.rs:16-19) are public, so a caller can still
reassign them or build a `ChunkType` directly, skipping the digit test of
`from_str`. The model covers such values because its lemmas hold for every
field value. For example, `Chunks.TryFromAsBytes` rejects a chunk whose type was
replaced after `new`, since its stored CRC no longer matches.

The modules:

- `Wrappers` holds `Result`, which models Rust's `Result`. Error values are
  the source's message strings.
- `Octets` builds the byte of a number below 256.
- `Endian` holds 32-bit words as big-endian bytes (`to_be_bytes`,
  `from_be_bytes`), their numeric value, and the `usize as u32` cast.
- `Crc32` is a bit-by-bit reference definition of the CRC of section 5.5 of
  ISO/IEC 15948:
  - reflected polynomial 0xEDB88320, register preset to all ones, result
    complemented;
  - this is the catalogued CRC-32/ISO-HDLC that the source asks the `crc`
    crate for;
  - it is proved to detect any single-byte change.
- `ChunkTypes` and `Chunks` model the two source files.
- `ChunkTypeTests` and `ChunkTests` restate the source's unit tests as lemmas.
  They include the concrete test vector: the chunk "RuSt" with the 42-byte
  message has CRC 2882656334. They also include the check value 0xCBF43926 of
  CRC-32/ISO-HDLC.

What the code does at its edges, which the model follows:

- Chunk lengths:
  - Section 5.3 of ISO/IEC 15948 makes the length field the size of the data.
    `try_from` never reads that field to find the data. It locates the data from
    the size of the slice, and copies the length field without checking it
    (src/png/chunk.rs:89-94, 107). `Chunks.LengthFieldUnchecked` proves the
    consequence: a corrupt length field goes undetected.
  - Slices shorter than 12 bytes make `try_from` panic, so `Chunks.TryFrom`
    requires 12 bytes.
  - `new` computes `data.len() as u32` (src/png/chunk.rs:19), which keeps the
    low 32 bits of the size. `Chunks.New` states exactly that, so payloads of
    2^32 bytes or more are modelled too.
- Chunk type codes:
  - `from_str` rejects only strings with a numeric character, and otherwise
    takes the first four characters, letters or not (src/chunk_type.rs:68-78).
  - `TryFrom<[u8; 4]>` accepts any four bytes. `ChunkTypes.NonLetterHasNoCase`
    shows what a byte that is not a letter does to the flags.
- Errors: the code has at most one error message per parser. `TryFrom<[u8; 4]>`
  never fails.

## Model

| member | source | states |
|---|---|---|
| Endian.ToBeBytes | src/png/chunk.rs:62 | `u32::to_be_bytes`: four bytes, from the most significant to the least significant, each the matching eight bits of the word |
| Endian.FromBeBytes | src/png/chunk.rs:96 | `u32::from_be_bytes` on four bytes: byte i is bits 31-8i down to 24-8i of the word |
| Endian.BigEndianOrder | src/png/chunk.rs:62 | the word 0x01020304 is laid out as the bytes 1, 2, 3, 4, and those bytes decode to it |
| Endian.FromToBeBytes | src/png/chunk.rs:107 | encoding a word and decoding it gives back the same word |
| Endian.ToFromBeBytes | src/png/chunk.rs:96 | decoding four bytes and encoding them again gives back the same bytes |
| Endian.FromBeBytesInjective | src/png/chunk.rs:96 | two different 4-byte slices never decode to the same word |
| Endian.FromNat | src/png/chunk.rs:19 | `len as u32`: the word's big-endian bytes are the low four bytes of the number |
| Endian.FromNatValue | src/png/chunk.rs:19 | `len as u32` is the length modulo 2^32 |
| Crc32.UpdateAppend | src/png/chunk.rs:24-25 | the CRC register after a concatenation is the register after the first part, fed the second part |
| Crc32.UpdateInjective | src/png/chunk.rs:25 | feeding the same bytes to two different registers leaves them different |
| Crc32.Checksum | src/png/chunk.rs:21-25 | `crc_algo.checksum` with `CRC_32_ISO_HDLC`: the register preset to all ones is fed each byte, least significant bit first, through the reflected polynomial 0xEDB88320, and the result is complemented (section 5.5 of ISO/IEC 15948) |
| Crc32.ChecksumDetectsByteError | src/png/chunk.rs:99-104 | changing any single byte of the covered input changes the CRC-32 |
| ChunkTypes.AsciiByte | src/chunk_type.rs:25-28 | `char as u8` on an ASCII character: the byte is the character's code |
| ChunkTypes.AsciiChar | src/chunk_type.rs:87-90 | `u8 as char`: the character whose code is the byte |
| ChunkTypes.Bytes | src/chunk_type.rs:23-30 | `bytes`: the code as exactly four bytes, in field order |
| ChunkTypes.IsValid | src/chunk_type.rs:33-35 | `is_valid`: the reserved-bit byte is an ASCII uppercase letter |
| ChunkTypes.IsCritical | src/chunk_type.rs:37-39 | `is_critical`: the ancillary-bit byte is an ASCII uppercase letter |
| ChunkTypes.IsPublic | src/chunk_type.rs:41-43 | `is_public`: the private-bit byte is an ASCII uppercase letter |
| ChunkTypes.IsReservedBitValid | src/chunk_type.rs:45-47 | `is_reserved_bit_valid`: the reserved-bit byte is an ASCII uppercase letter |
| ChunkTypes.IsSafeToCopy | src/chunk_type.rs:49-51 | `is_safe_to_copy`: the safe-to-copy-bit byte is an ASCII lowercase letter |
| ChunkTypes.ToString | src/chunk_type.rs:54-62 | `Display`: four characters, each the character of the byte at the same position |
| ChunkTypes.FromStr | src/chunk_type.rs:64-80 | fails exactly when some character is numeric, with "!!Invalid chunk type!!"; otherwise the string form of the result is the input's first four characters |
| ChunkTypes.TryFrom | src/chunk_type.rs:82-93 | never fails, and the bytes of the result are the input bytes |
| ChunkTypes.BytesInjective | src/chunk_type.rs:14-20 | the derived equality is structural: two codes are equal exactly when their bytes are |
| ChunkTypes.ToStringInjective | src/chunk_type.rs:54-62 | two codes are equal exactly when their string forms are |
| ChunkTypes.FromStrIsTryFrom | src/chunk_type.rs:67-93 | on an ASCII, digit-free string of at least four characters, `from_str` equals `try_from` on the bytes of its first four characters |
| ChunkTypes.FromStrToString | src/chunk_type.rs:54-80 | a code of ASCII non-digits survives `to_string` followed by `from_str` |
| ChunkTypes.FlagsDependOnOneByteEach | src/chunk_type.rs:33-51 | critical iff byte 0 is uppercase, public iff byte 1 is uppercase, valid iff reserved-bit-valid iff byte 2 is uppercase, safe to copy iff byte 3 is lowercase |
| ChunkTypes.FlagsArePropertyBits | src/chunk_type.rs:9-12 | for letters, the case tests agree with bit 5 of the byte as section 5.4 of ISO/IEC 15948 defines it |
| ChunkTypes.NonLetterHasNoCase | src/chunk_type.rs:33-51 | a code whose ancillary, private, reserved or safe-to-copy byte is not a letter is, respectively, not critical, not public, neither valid nor reserved-bit valid, or not safe to copy |
| ChunkTypeTests.FromStrRuSt | src/chunk_type.rs:110-114 | "RuSt" parses to the code with bytes 82, 117, 83, 116 |
| ChunkTypeTests.ChunkTypeFromBytes | src/chunk_type.rs:102-107 | `try_from([82, 117, 83, 116])` succeeds and gives back those bytes |
| ChunkTypeTests.ChunkTypeFromStr | src/chunk_type.rs:110-114 | `from_str("RuSt")` equals `try_from([82, 117, 83, 116])` |
| ChunkTypeTests.ChunkTypeFlags | src/chunk_type.rs:117-168 | "RuSt" is critical, not public, reserved-bit valid, safe to copy and valid |
| ChunkTypeTests.ParsesTo | src/chunk_type.rs:67-80 | a string of four letters parses to the code it spells |
| ChunkTypeTests.ChunkTypeIsNotCritical | src/chunk_type.rs:123-126 | "ruSt" is not critical |
| ChunkTypeTests.ChunkTypeIsPublic | src/chunk_type.rs:129-132 | "RUSt" is public |
| ChunkTypeTests.ChunkTypeIsReservedBitInvalid | src/chunk_type.rs:147-173 | "Rust" is neither reserved-bit valid nor valid |
| ChunkTypeTests.ChunkTypeIsUnsafeToCopy | src/chunk_type.rs:159-162 | "RuST" is not safe to copy |
| ChunkTypeTests.InvalidChunkTypeRejected | src/chunk_type.rs:175-176 | "Ru1t" is rejected with "!!Invalid chunk type!!" |
| ChunkTypeTests.ChunkTypeString | src/chunk_type.rs:180-183 | the string form of the parsed "RuSt" is "RuSt" |
| ChunkTypeTests.ChunkTypeTraitImpls | src/chunk_type.rs:186-191 | the codes from `try_from` and from `from_str` compare equal |
| Chunks.CrcInput | src/png/chunk.rs:23-24 | the CRC covers the four type bytes followed by the data |
| Chunks.CrcMatches | src/png/chunk.rs:99-102 | the comparison `try_from` makes: the stored CRC equals the CRC-32 of the type bytes followed by the data |
| Chunks.New | src/png/chunk.rs:18-33 | keeps the type and the data, sets the length to the data size modulo 2^32, and stores the CRC of the type and the data |
| Chunks.AsBytes | src/png/chunk.rs:56-70 | 12 bytes more than the data: the big-endian length, the type bytes, the data and the big-endian CRC, in that order |
| Chunks.TryFrom | src/png/chunk.rs:87-117 | on 12 or more bytes, fails exactly when the trailing four bytes differ from the CRC of bytes 4 to the end minus four, with "!!Invalid Chunk!!"; on success the length is the first four bytes as they stand, the type bytes are bytes 4 to 8, the data is everything up to the CRC, and the CRC matches |
| Chunks.DataAsString | src/png/chunk.rs:51-54 | for ASCII data, a string of the same size whose characters are the data bytes |
| Chunks.AsBytesTryFrom | src/png/chunk.rs:56-117 | whatever `try_from` accepts, `as_bytes` gives back byte for byte, even when the length field disagrees with the data size |
| Chunks.TryFromAsBytes | src/png/chunk.rs:56-117 | `try_from(as_bytes(c))` is `c` when its CRC matches, and the invalid-chunk error otherwise |
| Chunks.NewRoundTrip | src/png/chunk.rs:18-117 | a chunk built by `new` is parsed back from its bytes unchanged |
| Chunks.CorruptionDetected | src/png/chunk.rs:96-104 | changing any byte of the type, the data or the CRC of an accepted slice makes `try_from` reject it |
| Chunks.CorruptPayloadDetected | src/png/chunk.rs:99-104 | the case where the changed byte is in the type or the data |
| Chunks.CorruptCrcDetected | src/png/chunk.rs:93-104 | the case where the changed byte is in the stored CRC |
| Chunks.LengthFieldUnchecked | src/png/chunk.rs:91-107 | overwriting the length field never changes whether a slice is accepted, and changes only the parsed length |
| ChunkTests.TestingChunkBytes | src/png/chunk.rs:126-140 | the bytes of the testing chunk are 54 long |
| ChunkTests.TestingChunkLayout | src/png/chunk.rs:126-141 | those bytes are the layout of the chunk "RuSt" with length 42, the message and the stored CRC |
| ChunkTests.IsoHdlcCheckValue | src/png/chunk.rs:7 | the reference CRC gives 0xCBF43926 on "123456789", the check value of CRC-32/ISO-HDLC |
| ChunkTests.TestVectorChecksum | src/png/chunk.rs:145-153 | the CRC-32 of "RuSt" and the message is 2882656334 |
| ChunkTests.TestingChunkCrcMatches | src/png/chunk.rs:176-179 | the testing chunk's stored CRC 2882656334 matches its type and data |
| ChunkTests.NewRuSt | src/png/chunk.rs:150-152 | `new` on the code with bytes 82, 117, 83, 116 and the message gives length 42 and CRC 2882656334 |
| ChunkTests.NewChunk | src/png/chunk.rs:145-153 | `new` on the code `from_str("RuSt")` returns and the message gives length 42 and CRC 2882656334 |
| ChunkTests.TestingChunkFields | src/png/chunk.rs:156-179 | the chunk `try_from` parses from the test bytes has length 42, type "RuSt" and CRC 2882656334 |
| ChunkTests.MessageSpellsText | src/png/chunk.rs:129 | the message bytes are the ASCII codes of "This is where your secret message will be!" |
| ChunkTests.ChunkString | src/png/chunk.rs:168-173 | the testing chunk's data is ASCII and reads as the message |
| ChunkTests.ValidChunkFromBytes | src/png/chunk.rs:182-206 | the test bytes with CRC 2882656334 parse to the testing chunk |
| ChunkTests.InvalidChunkFromBytes | src/png/chunk.rs:209-227 | the same bytes with CRC 2882656333 are rejected with "!!Invalid Chunk!!" |

## Left out

- The PNG container (`crate::png::png::Png`) is used by src/commands.rs, but
  its source file is not part of this model. So the file signature and the
  chunk list, with appending, finding and removing chunks, are not modelled.
- src/commands.rs, src/args.rs and src/main.rs are file I/O, command-line
  parsing and module wiring, with no codec logic.
- The internals of the `crc` crate are replaced by the reference definition in
  `Crc32`. The model relies on that definition being CRC-32/ISO-HDLC. The
  check value and the source's own test vector are proved of it.
- `Display` for `Chunk` is Debug-formatted output, and is not modelled. So the
  `format!` line of `test_chunk_trait_impls` is not modelled either; its
  parsing half is `ChunkTests.ValidChunkFromBytes`.
- The accessors `length`, `chunk_type`, `data` and `crc` are the datatype's
  field selectors.
- ChunkTypes.FromStr: strings are ASCII and `is_numeric` is `'0'..='9'`. The
  source works on Unicode `char`s: it also rejects other numeric characters,
  and `as u8` truncates characters above 0xFF. The source indexes four
  characters after the digit test, so a digit-free string shorter than four
  characters makes it panic, and the model requires at least four.
- ChunkTypes.ToString: the code's bytes are read as characters 0 to 255. The
  source stores Rust `char`s, which can hold any Unicode scalar value when
  built by `from_str` or by a struct literal.
- Chunks.DataAsString: defined only for ASCII data. The source calls
  `String::from_utf8(..).unwrap()`, and UTF-8 decoding of non-ASCII data, with
  its panic on invalid input, is not modelled.
- Chunks.TryFrom: slices shorter than 12 bytes make the source panic on a
  subtraction or a slice bound, so the model requires 12 bytes.
- Chunks.TryFrom, ChunkTypes.TryFrom: the error types (`&'static str` and
  `Box<dyn Error>`) are modelled as strings.
