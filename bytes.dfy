/**
 * Go's fixed-width integers as they appear in the captured record: `byte`
 * and `int32`, and the little-endian two's-complement reading of an `int32`
 * that `binary.Read(..., binary.LittleEndian, ...)` performs.
 */
module Bytes {

  /** Go's `byte`. */
  type byte = b: int | 0 <= b < 0x100

  /** Go's `int32`. */
  type int32 = x: int | -0x8000_0000 <= x < 0x8000_0000

  const TwoTo32: int := 0x1_0000_0000

  /** The unsigned value of four bytes, least significant first. */
  function Uint32LE(s: seq<byte>): (u: int)
    requires |s| == 4
    ensures 0 <= u < TwoTo32
    ensures u % 0x100 == s[0] && u / 0x100_0000 == s[3]
  {
    s[0] as int + 0x100 * (s[1] as int + 0x100 * (s[2] as int + 0x100 * s[3] as int))
  }

  /**
   * Four little-endian bytes read as an `int32`: the unique value in the
   * `int32` range that is congruent modulo 2^32 to the unsigned reading,
   * negative exactly when the top bit of the last byte is set.
   */
  function DecodeInt32LE(s: seq<byte>): (x: int32)
    requires |s| == 4
    ensures x % TwoTo32 == Uint32LE(s)
    ensures x < 0 <==> s[3] >= 0x80
  {
    var u := Uint32LE(s);
    if u < 0x8000_0000 then u else u - TwoTo32
  }

  /** The four little-endian bytes of the two's-complement form of `x`. */
  function EncodeInt32LE(x: int32): (s: seq<byte>)
    ensures |s| == 4
  {
    var u := if x < 0 then x + TwoTo32 else x;
    [u % 0x100, (u / 0x100) % 0x100, (u / 0x1_0000) % 0x100, u / 0x100_0000]
  }

  /** Decoding the encoding of an `int32` gives it back. */
  lemma DecodeEncodeInt32(x: int32)
    ensures DecodeInt32LE(EncodeInt32LE(x)) == x
  {
    var u := if x < 0 then x + TwoTo32 else x;
    var s := EncodeInt32LE(x);
    assert u == s[0] as int + 0x100 * (s[1] as int + 0x100 * (s[2] as int + 0x100 * s[3] as int));
  }

  /** Encoding the decoding of four bytes gives them back. */
  lemma EncodeDecodeInt32(s: seq<byte>)
    requires |s| == 4
    ensures EncodeInt32LE(DecodeInt32LE(s)) == s
  {
    var w := s[2] as int + 0x100 * s[3] as int;
    var v := s[1] as int + 0x100 * w;
    var u := s[0] as int + 0x100 * v;
    assert u == Uint32LE(s);
    SplitLowByte(s[0], v);
    SplitLowByte(s[1], w);
    SplitLowByte(s[2], s[3]);
    assert u / 0x1_0000 == w by {
      assert u / 0x1_0000 == (u / 0x100) / 0x100;
    }
    var t := EncodeInt32LE(DecodeInt32LE(s));
    assert t[0] == s[0] && t[1] == s[1] && t[2] == s[2] && t[3] == s[3];
  }

  /** Splitting a value into its low byte and the rest. */
  lemma SplitLowByte(lo: byte, hi: int)
    requires hi >= 0
    ensures (lo + 0x100 * hi) / 0x100 == hi
    ensures (lo + 0x100 * hi) % 0x100 == lo
  {
  }
}
