/** Bytes, 32-bit unsigned words and the two byte orders used by the PNG front end.

    PNG stores every multi-byte integer most significant byte first (network
    byte order, section 7.1 of the PNG Specification). The 8-byte signature
    compare instead loads both sides as a native 64-bit word, whose byte order
    is the host's; both orders are defined here. */
module Bytes {

  type byte = b: int | 0 <= b < 256

  /** `uint32_t`. */
  type u32 = x: int | 0 <= x < 0x1_0000_0000

  /** The largest value of the host's 32-bit `int`. */
  const INT_MAX: int := 0x7FFF_FFFF

  datatype Option<T> = None | Some(value: T)

  /** 256 to the power n: one more than the largest value n bytes can hold. */
  function Pow256(n: nat): (r: nat)
    ensures r >= 1
  {
    if n == 0 then 1 else 256 * Pow256(n - 1)
  }

  /** The value of s read most significant byte first. */
  function BigEndian(s: seq<byte>): (r: nat)
    ensures r < Pow256(|s|)
  {
    if s == [] then 0 else BigEndian(s[..|s| - 1]) * 256 + s[|s| - 1]
  }

  /** The value of s read least significant byte first. */
  function LittleEndian(s: seq<byte>): (r: nat)
    ensures r < Pow256(|s|)
  {
    if s == [] then 0 else s[0] + 256 * LittleEndian(s[1..])
  }

  /** Splitting a number into its last base-256 digit and the rest is exact. */
  lemma DigitSplit(q: int, d: byte)
    ensures (q * 256 + d) % 256 == d && (q * 256 + d) / 256 == q
  {
  }

  /** Two byte strings of one length with the same big-endian value are equal. */
  lemma {:induction false} BigEndianInjective(a: seq<byte>, b: seq<byte>)
    requires |a| == |b|
    ensures BigEndian(a) == BigEndian(b) <==> a == b
  {
    if a != [] && BigEndian(a) == BigEndian(b) {
      var n := |a| - 1;
      DigitSplit(BigEndian(a[..n]), a[n]);
      DigitSplit(BigEndian(b[..n]), b[n]);
      BigEndianInjective(a[..n], b[..n]);
      assert a == a[..n] + [a[n]] && b == b[..n] + [b[n]];
    }
  }

  /** Two byte strings of one length with the same little-endian value are equal. */
  lemma {:induction false} LittleEndianInjective(a: seq<byte>, b: seq<byte>)
    requires |a| == |b|
    ensures LittleEndian(a) == LittleEndian(b) <==> a == b
  {
    if a != [] && LittleEndian(a) == LittleEndian(b) {
      DigitSplit(LittleEndian(a[1..]), a[0]);
      DigitSplit(LittleEndian(b[1..]), b[0]);
      LittleEndianInjective(a[1..], b[1..]);
      assert a == [a[0]] + a[1..] && b == [b[0]] + b[1..];
    }
  }

  /** A 4-byte big-endian field, as the chunk length and CRC fields are stored:
      `b0 * 2^24 + b1 * 2^16 + b2 * 2^8 + b3`, always a `uint32_t`. */
  function BeU32(s: seq<byte>): (r: u32)
    requires |s| == 4
    ensures r == s[0] as int * 0x100_0000 + s[1] as int * 0x1_0000 + s[2] as int * 0x100 + s[3]
  {
    assert BigEndian(s) == BigEndian(s[..3]) * 256 + s[3];
    assert s[..3][..2] == s[..2] && s[..2][..1] == s[..1] && s[..1][..0] == [];
    assert BigEndian(s[..3]) == BigEndian(s[..2]) * 256 + s[2];
    assert BigEndian(s[..2]) == BigEndian(s[..1]) * 256 + s[1];
    assert BigEndian(s[..1]) == s[0];
    BigEndian(s)
  }

  /** The 4-byte big-endian encoding of a `uint32_t`. */
  function U32ToBytes(x: u32): (r: seq<byte>)
    ensures |r| == 4 && BeU32(r) == x
  {
    var b3, q3 := x % 256, x / 256;
    var b2, q2 := q3 % 256, q3 / 256;
    var b1, b0 := q2 % 256, q2 / 256;
    [b0, b1, b2, b3]
  }

  /** Decoding and encoding a 4-byte big-endian field are inverse. */
  lemma BytesU32RoundTrip(s: seq<byte>)
    requires |s| == 4
    ensures U32ToBytes(BeU32(s)) == s
  {
    BigEndianInjective(U32ToBytes(BeU32(s)), s);
  }

  /** `b << 24` as C evaluates it on a byte: the byte is promoted to a signed
      32-bit `int`, and the shift is undefined (None) when `b * 2^24` does not
      fit in it (section 6.5.7 of ISO/IEC 9899:2011). The shifts by 16 and 8 of
      a byte always fit. */
  function PromotedShl24(b: byte): (r: Option<int>)
    ensures r.Some? <==> b < 0x80
    ensures r.Some? ==> 0 <= r.value <= INT_MAX
  {
    var p := b as int * 0x100_0000;
    if p <= INT_MAX then Some(p) else None
  }

  /** The length and CRC decoding as written, `b0 << 24 | b1 << 16 | b2 << 8 | b3`
      on promoted ints: defined only when the first shift is; the or of the four
      disjoint byte lanes is then their sum, converted to `uint32_t`. */
  function BeU32AsWritten(b0: byte, b1: byte, b2: byte, b3: byte): (r: Option<u32>)
    ensures r.Some? <==> b0 < 0x80
    ensures r.Some? ==> r.value == BeU32([b0, b1, b2, b3])
  {
    match PromotedShl24(b0)
    case None => None
    case Some(hi) => Some(hi + b1 as int * 0x1_0000 + b2 as int * 0x100 + b3)
  }

  /** As written, the decoding is defined exactly for fields below 2^31, and there
      it agrees with the unsigned big-endian reading. */
  lemma AsWrittenDefinedBelowTwoTo31(b0: byte, b1: byte, b2: byte, b3: byte)
    ensures BeU32AsWritten(b0, b1, b2, b3).Some? <==> BeU32([b0, b1, b2, b3]) <= INT_MAX
    ensures BeU32AsWritten(b0, b1, b2, b3).Some? ==>
              BeU32AsWritten(b0, b1, b2, b3).value == BeU32([b0, b1, b2, b3])
  {
  }

  /** A field whose first byte is 0x80 or more, such as the CRC `80 00 00 00`,
      shifts a one into the sign bit of an `int`. */
  lemma AsWrittenUndefinedAtHighBit()
    ensures BeU32AsWritten(0x80, 0, 0, 0) == None
    ensures BeU32([0x80, 0, 0, 0]) == 0x8000_0000
  {
  }
}
