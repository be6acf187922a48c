/** Byte and 32-bit word types, and the big-endian ("network byte order")
    layout of a 32-bit unsigned integer that PNG uses for every multi-byte
    integer (section 7.1 of ISO/IEC 15948). These are Rust's `u32::to_be_bytes`
    and `u32::from_be_bytes`, and Rust's truncating cast `n as u32` of a
    size. */
module Endian {
  import Octets

  type uint8 = bv8
  type uint32 = bv32

  /** The four bytes of `x`, most significant first. */
  function ToBeBytes(x: uint32): (r: seq<uint8>)
    ensures |r| == 4
    ensures r[0] as uint32 == x >> 24
    ensures r[1] as uint32 == (x >> 16) & 0xFF
    ensures r[2] as uint32 == (x >> 8) & 0xFF
    ensures r[3] as uint32 == x & 0xFF
  {
    [ ((x >> 24) & 0xFF) as uint8,
      ((x >> 16) & 0xFF) as uint8,
      ((x >> 8) & 0xFF) as uint8,
      (x & 0xFF) as uint8 ]
  }

  /** The word whose big-endian bytes are `b`. */
  function FromBeBytes(b: seq<uint8>): (r: uint32)
    requires |b| == 4
    ensures (r >> 24) as uint8 == b[0]
    ensures ((r >> 16) & 0xFF) as uint8 == b[1]
    ensures ((r >> 8) & 0xFF) as uint8 == b[2]
    ensures (r & 0xFF) as uint8 == b[3]
  {
    (b[0] as uint32 << 24) | (b[1] as uint32 << 16) | (b[2] as uint32 << 8) | (b[3] as uint32)
  }

  /** The most significant byte comes first: 0x01020304 is laid out as the
      bytes 1, 2, 3, 4. */
  lemma BigEndianOrder()
    ensures ToBeBytes(0x0102_0304) == [1, 2, 3, 4]
    ensures FromBeBytes([1, 2, 3, 4]) == 0x0102_0304
  {
  }

  lemma FromToBeBytes(x: uint32)
    ensures FromBeBytes(ToBeBytes(x)) == x
  {
  }

  lemma ToFromBeBytes(b: seq<uint8>)
    requires |b| == 4
    ensures ToBeBytes(FromBeBytes(b)) == b
  {
  }

  /** Distinct byte strings decode to distinct words. */
  lemma FromBeBytesInjective(a: seq<uint8>, b: seq<uint8>)
    requires |a| == 4 && |b| == 4
    requires FromBeBytes(a) == FromBeBytes(b)
    ensures a == b
  {
    ToFromBeBytes(a);
    ToFromBeBytes(b);
  }

  /** The unsigned number denoted by the four big-endian bytes `b`. */
  function BeValue(b: seq<uint8>): (n: nat)
    requires |b| == 4
    ensures n < 0x1_0000_0000
  {
    b[0] as int * 0x100_0000 + b[1] as int * 0x1_0000 + b[2] as int * 0x100 + b[3] as int
  }

  /** The unsigned number a word stands for. */
  function Value(x: uint32): (n: nat)
    ensures n < 0x1_0000_0000
  {
    BeValue(ToBeBytes(x))
  }

  /** The lowest byte of `n`. */
  function LowByte(n: nat): (b: uint8)
    ensures b as int == n % 0x100
  {
    Octets.FromValue(n % 0x100)
  }

  /** The big-endian bytes of the low 32 bits of `n`. */
  function BeBytesOf(n: nat): (r: seq<uint8>)
    ensures |r| == 4
  {
    [LowByte(n / 0x100_0000), LowByte(n / 0x1_0000), LowByte(n / 0x100), LowByte(n)]
  }

  /** `n as u32`: keeps the low 32 bits of `n`. */
  function FromNat(n: nat): (x: uint32)
    ensures ToBeBytes(x) == BeBytesOf(n)
  {
    ToFromBeBytes(BeBytesOf(n));
    FromBeBytes(BeBytesOf(n))
  }

  /** `n as u32` stands for `n` modulo 2^32. */
  lemma FromNatValue(n: nat)
    ensures Value(FromNat(n)) == n % 0x1_0000_0000
  {
    BeValueOfBytes(n);
  }

  lemma MulLe(a: int, b: int, d: int)
    requires a <= b && 0 < d
    ensures a * d <= b * d
  {
    var k := b - a;
    assert b * d == a * d + k * d;
  }

  /** Euclidean division is unique. */
  lemma DivMod(n: int, d: int, q: int, r: int)
    requires 0 < d && n == q * d + r && 0 <= r < d
    ensures n / d == q && n % d == r
  {
    var q', r' := n / d, n % d;
    assert n == q' * d + r';
    if q' < q {
      MulLe(q' + 1, q, d);
    } else if q < q' {
      MulLe(q + 1, q', d);
    }
  }

  /** The bytes `BeBytesOf(n)` denote `n` modulo 2^32. */
  lemma BeValueOfBytes(n: nat)
    ensures BeValue(BeBytesOf(n)) == n % 0x1_0000_0000
  {
    var q0, r0 := n / 0x100, n % 0x100;
    var q1, r1 := q0 / 0x100, q0 % 0x100;
    var q2, r2 := q1 / 0x100, q1 % 0x100;
    var q3, r3 := q2 / 0x100, q2 % 0x100;
    DivMod(n, 0x1_0000, q1, r1 * 0x100 + r0);
    DivMod(n, 0x100_0000, q2, r2 * 0x1_0000 + r1 * 0x100 + r0);
    DivMod(n, 0x1_0000_0000, q3, r3 * 0x100_0000 + r2 * 0x1_0000 + r1 * 0x100 + r0);
  }
}
