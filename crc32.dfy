/** CRC-32 as PNG defines it for chunk integrity (section 5.5 of ISO/IEC 15948;
    the CRC-32/ISO-HDLC parameters of the Rust `crc` crate): the reflected
    polynomial 0xEDB88320, register preset to all ones, bytes fed least
    significant bit first, result complemented. This is a bit-at-a-time
    reference definition; the crate's table-driven implementation is not part
    of this model. */
module Crc32 {
  import opened Endian

  const Polynomial: uint32 := 0xEDB8_8320

  /** One bit of polynomial division on the reflected register. */
  function Shift(c: uint32): uint32 {
    if c & 1 == 1 then Polynomial ^ (c >> 1) else c >> 1
  }

  /** `n` shifts of the register. */
  function Shifts(c: uint32, n: nat): uint32
    decreases n
  {
    if n == 0 then c else Shifts(Shift(c), n - 1)
  }

  /** Feeds one byte into the register: eight shifts of `c ^ b`. */
  function ByteStep(c: uint32, b: uint8): uint32 {
    Shifts(c ^ (b as uint32), 8)
  }

  /** Feeds the bytes of `s`, first to last, into the register `c`. */
  function Update(c: uint32, s: seq<uint8>): uint32
    decreases |s|
  {
    if |s| == 0 then c else Update(ByteStep(c, s[0]), s[1..])
  }

  /** The CRC-32 of `s`. */
  function Checksum(s: seq<uint8>): uint32 {
    Update(0xFFFF_FFFF, s) ^ 0xFFFF_FFFF
  }

  /** A shift loses no information: the top bit of the result tells whether the
      polynomial was added, because the polynomial's top bit is set. */
  lemma ShiftInjective(a: uint32, b: uint32)
    requires Shift(a) == Shift(b)
    ensures a == b
  {
  }

  lemma {:induction false} ShiftsInjective(a: uint32, b: uint32, n: nat)
    requires Shifts(a, n) == Shifts(b, n)
    ensures a == b
    decreases n
  {
    if n > 0 {
      ShiftsInjective(Shift(a), Shift(b), n - 1);
      ShiftInjective(a, b);
    }
  }

  /** For a fixed register, distinct bytes lead to distinct registers, and for
      a fixed byte, distinct registers lead to distinct registers. */
  lemma ByteStepInjective(c: uint32, d: uint32, x: uint8, y: uint8)
    requires ByteStep(c, x) == ByteStep(d, y)
    requires c == d || x == y
    ensures c == d && x == y
  {
    ShiftedInputsEqual(c, d, x, y);
    WideningInjective(c, d, x, y);
  }

  lemma ShiftedInputsEqual(c: uint32, d: uint32, x: uint8, y: uint8)
    requires ByteStep(c, x) == ByteStep(d, y)
    ensures c ^ (x as uint32) == d ^ (y as uint32)
  {
    ShiftsInjective(c ^ (x as uint32), d ^ (y as uint32), 8);
  }

  lemma WideningInjective(c: uint32, d: uint32, x: uint8, y: uint8)
    requires c ^ (x as uint32) == d ^ (y as uint32)
    requires c == d || x == y
    ensures c == d && x == y
  {
  }

  /** Feeding the same bytes into two different registers keeps them different. */
  lemma {:induction false} UpdateInjective(c: uint32, d: uint32, s: seq<uint8>)
    requires Update(c, s) == Update(d, s)
    ensures c == d
    decreases |s|
  {
    if |s| > 0 {
      UpdateInjective(ByteStep(c, s[0]), ByteStep(d, s[0]), s[1..]);
      ByteStepInjective(c, d, s[0], s[0]);
    }
  }

  /** Feeding `a + b` is feeding `a`, then `b`. */
  lemma {:induction false} UpdateAppend(c: uint32, a: seq<uint8>, b: seq<uint8>)
    ensures Update(c, a + b) == Update(Update(c, a), b)
    decreases |a|
  {
    if |a| > 0 {
      assert (a + b)[0] == a[0];
      assert (a + b)[1..] == a[1..] + b;
      UpdateAppend(ByteStep(c, a[0]), a[1..], b);
    } else {
      assert a + b == b;
    }
  }

  /** CRC-32 detects every error confined to one byte (in particular every
      single-bit error): two byte strings that differ in exactly one position
      have different checksums. */
  lemma ChecksumDetectsByteError(s: seq<uint8>, i: nat, v: uint8)
    requires i < |s| && v != s[i]
    ensures Checksum(s[i := v]) != Checksum(s)
  {
    var s' := s[i := v];
    var head, tail := s[..i], s[i + 1..];
    assert s == head + ([s[i]] + tail);
    assert s' == head + ([v] + tail);
    var c := Update(0xFFFF_FFFF, head);
    UpdateAppend(0xFFFF_FFFF, head, [s[i]] + tail);
    UpdateAppend(0xFFFF_FFFF, head, [v] + tail);
    assert ([s[i]] + tail)[1..] == tail;
    assert ([v] + tail)[1..] == tail;
    if Checksum(s') == Checksum(s) {
      UpdateInjective(ByteStep(c, v), ByteStep(c, s[i]), tail);
      ByteStepInjective(c, c, v, s[i]);
    }
  }
}
