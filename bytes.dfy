/** Byte-level primitives shared by every decoder: the byte type, the
    printable-ASCII test and the little-endian integer readers that the scripts
    obtain from `struct.unpack_from("<H"/"<I")` and `int.from_bytes(..., "little")`. */
module Bytes {

  type byte = x: int | 0 <= x < 256

  /** The printable 7-bit ASCII test `32 <= b <= 126` (also written `32 <= b < 127`). */
  predicate IsPrintable(b: int) {
    32 <= b <= 126
  }

  /** Little-endian unsigned 16-bit value at offset i. */
  function LE16(s: seq<byte>, i: nat): (v: nat)
    requires i + 2 <= |s|
    ensures v < 0x1_0000
  {
    var b0: int, b1: int := s[i], s[i + 1];
    b0 + 256 * b1
  }

  /** Big-endian unsigned 16-bit value at offset i. */
  function BE16(s: seq<byte>, i: nat): (v: nat)
    requires i + 2 <= |s|
    ensures v < 0x1_0000
  {
    var b0: int, b1: int := s[i], s[i + 1];
    256 * b0 + b1
  }

  /** Little-endian unsigned 32-bit value at offset i. */
  function LE32(s: seq<byte>, i: nat): (v: nat)
    requires i + 4 <= |s|
    ensures v < 0x1_0000_0000
  {
    var b0: int, b1: int, b2: int, b3: int := s[i], s[i + 1], s[i + 2], s[i + 3];
    b0 + 256 * b1 + 0x1_0000 * b2 + 0x100_0000 * b3
  }

  /** The four bytes that `struct.pack("<I", v)` writes. */
  function EncodeLE32(v: nat): (s: seq<byte>)
    requires v < 0x1_0000_0000
    ensures |s| == 4
  {
    [v % 256, (v / 256) % 256, (v / 0x1_0000) % 256, v / 0x100_0000]
  }

  /** Reading back what was written: `LE32` inverts `EncodeLE32`. */
  lemma LE32OfEncode(v: nat)
    requires v < 0x1_0000_0000
    ensures LE32(EncodeLE32(v), 0) == v
  {
    var s := EncodeLE32(v);
    assert v == v % 256 + 256 * (v / 256);
    assert v / 256 == (v / 256) % 256 + 256 * (v / 0x1_0000);
    assert v / 0x1_0000 == (v / 0x1_0000) % 256 + 256 * (v / 0x100_0000);
  }

  /** And conversely: every four bytes are the encoding of their `LE32` value. */
  lemma EncodeOfLE32(s: seq<byte>)
    requires |s| == 4
    ensures EncodeLE32(LE32(s, 0)) == s
  {
    var v := LE32(s, 0);
    var b0: int, b1: int, b2: int, b3: int := s[0], s[1], s[2], s[3];
    assert v == b0 + 256 * (b1 + 256 * (b2 + 256 * b3));
    assert v % 256 == b0 && v / 256 == b1 + 256 * (b2 + 256 * b3);
    assert v / 0x1_0000 == (v / 256) / 256 == b2 + 256 * b3;
    assert v / 0x100_0000 == (v / 0x1_0000) / 256 == b3;
  }

  /** `flg & bit` is non-zero, for a single-bit mask. */
  predicate HasFlag(flg: byte, bit: nat)
    requires bit in {1, 2, 4, 8, 16, 32, 64, 128}
  {
    (flg / bit) % 2 == 1
  }
}
