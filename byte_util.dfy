/** Octets and the big-endian integer fields of an HTTP/2 frame header
    (section 4.1 of RFC 7540), as Tomcat's ByteUtil writes them.

    Java's `(value & mask) >> shift` on a two's-complement `int` picks bits of
    `value` modulo 2^32; since 2^24 and 2^31 divide 2^32, the bits kept are
    those of `value` reduced (Euclidean, never negative) modulo 2^24 or
    2^31, which is how the fields below are written. */
module ByteUtil {

  /** An octet, stored unsigned; Java's signed `byte` holds the same bits. */
  type byte = x: int | 0 <= x < 256

  /** `ByteUtil.setThreeBytes`: the low 24 bits of `value`, big-endian. */
  function ThreeBytes(value: int): (r: seq<byte>)
    ensures |r| == 3
    ensures GetThreeBytes(r) == value % 0x100_0000
  {
    ThreeBytesValue(value);
    [(value / 0x1_0000) % 0x100, (value / 0x100) % 0x100, value % 0x100]
  }

  /** The unsigned 24-bit big-endian integer held in three octets. */
  function GetThreeBytes(s: seq<byte>): (r: nat)
    requires |s| == 3
    ensures r < 0x100_0000
  {
    (s[0] as int) * 0x1_0000 + (s[1] as int) * 0x100 + (s[2] as int)
  }

  /** `ByteUtil.set31Bits`: the low 31 bits of `value`, big-endian, with the
      top (reserved) bit of the first octet left clear. */
  function ThirtyOneBits(value: int): (r: seq<byte>)
    ensures |r| == 4
    ensures r[0] < 0x80
    ensures Get31Bits(r) == value % 0x8000_0000
  {
    ThirtyOneBitsValue(value);
    [(value / 0x100_0000) % 0x80, (value / 0x1_0000) % 0x100,
     (value / 0x100) % 0x100, value % 0x100]
  }

  /** The 31-bit big-endian integer held in four octets, ignoring the top
      (reserved) bit, as a receiver reads a stream identifier. */
  function Get31Bits(s: seq<byte>): (r: nat)
    requires |s| == 4
    ensures r < 0x8000_0000
  {
    ((s[0] as int) % 0x80) * 0x100_0000 + (s[1] as int) * 0x1_0000 + (s[2] as int) * 0x100 + (s[3] as int)
  }

  /** Euclidean division by 2^16 is determined by a quotient and a
      remainder in range. */
  lemma DivMod16(v: int, q: int, r: int)
    requires v == q * 0x1_0000 + r && 0 <= r < 0x1_0000
    ensures v / 0x1_0000 == q && v % 0x1_0000 == r
  {
  }

  /** Euclidean division by 2^24 is determined by a quotient and a
      remainder in range. */
  lemma DivMod24(v: int, q: int, r: int)
    requires v == q * 0x100_0000 + r && 0 <= r < 0x100_0000
    ensures v / 0x100_0000 == q && v % 0x100_0000 == r
  {
  }

  /** Euclidean division by 2^31 is determined by a quotient and a
      remainder in range. */
  lemma DivMod31(v: int, q: int, r: int)
    requires v == q * 0x8000_0000 + r && 0 <= r < 0x8000_0000
    ensures v / 0x8000_0000 == q && v % 0x8000_0000 == r
  {
  }

  /** `v` written in base 256: its three low digits, and what is above
      them as the quotient by 2^24. */
  lemma LowDigits(v: int)
    ensures v / 0x1_0000 == (v / 0x100) / 0x100
    ensures v % 0x1_0000 == ((v / 0x100) % 0x100) * 0x100 + v % 0x100
    ensures v / 0x100_0000 == ((v / 0x100) / 0x100) / 0x100
    ensures v % 0x100_0000
            == ((v / 0x1_0000) % 0x100) * 0x1_0000 + ((v / 0x100) % 0x100) * 0x100 + v % 0x100
  {
    var q0, r0 := v / 0x100, v % 0x100;
    var q1, r1 := q0 / 0x100, q0 % 0x100;
    var q2, r2 := q1 / 0x100, q1 % 0x100;
    assert v == q0 * 0x100 + r0;
    assert q0 == q1 * 0x100 + r1;
    assert q1 == q2 * 0x100 + r2;
    DivMod16(v, q1, r1 * 0x100 + r0);
    DivMod24(v, q2, r2 * 0x1_0000 + r1 * 0x100 + r0);
  }

  /** The three octets written by `ThreeBytes` recombine to `v` modulo 2^24. */
  lemma ThreeBytesValue(v: int)
    ensures ((v / 0x1_0000) % 0x100) * 0x1_0000 + ((v / 0x100) % 0x100) * 0x100 + v % 0x100
            == v % 0x100_0000
  {
    LowDigits(v);
  }

  /** The four octets written by `ThirtyOneBits` recombine to `v` modulo 2^31. */
  lemma ThirtyOneBitsValue(v: int)
    ensures ((v / 0x100_0000) % 0x80) * 0x100_0000 + ((v / 0x1_0000) % 0x100) * 0x1_0000
            + ((v / 0x100) % 0x100) * 0x100 + v % 0x100
            == v % 0x8000_0000
  {
    LowDigits(v);
    var q, low := v / 0x100_0000, v % 0x100_0000;
    var q3, r3 := q / 0x80, q % 0x80;
    assert v == q * 0x100_0000 + low;
    assert q == q3 * 0x80 + r3;
    DivMod31(v, q3, r3 * 0x100_0000 + low);
  }
}
