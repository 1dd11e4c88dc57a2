/**
  The byte-order conversions of src/utils.cc: 16- and 32-bit values as two or
  four bytes, least significant byte first.
 */
module Bytes {
  type byte = n: int | 0 <= n < 0x100
  type uint16 = n: int | 0 <= n < 0x1_0000
  type uint32 = n: int | 0 <= n < 0x1_0000_0000

  function U16ToB2(l: uint16): seq<byte> {
    [l % 0x100, l / 0x100]
  }

  function B2ToU16(b: seq<byte>): uint16
    requires |b| == 2
  {
    b[0] as int + b[1] as int * 0x100
  }

  function U32ToB4(l: uint32): seq<byte> {
    [l % 0x100, (l / 0x100) % 0x100, (l / 0x1_0000) % 0x100, l / 0x100_0000]
  }

  function B4ToU32(b: seq<byte>): uint32
    requires |b| == 4
  {
    b[0] as int + b[1] as int * 0x100 + b[2] as int * 0x1_0000 + b[3] as int * 0x100_0000
  }

  /** The number whose bytes are these, the least significant first. */
  function LowFirst(b0: int, b1: int, b2: int, b3: int): int {
    b0 + 0x100 * b1 + 0x1_0000 * b2 + 0x100_0000 * b3
  }

  lemma LowByteFirst(l: uint32)
    ensures var b := U32ToB4(l); LowFirst(b[0], b[1], b[2], b[3]) == l
  {
    var h := l / 0x100;
    assert h / 0x100 == l / 0x1_0000;
    assert h / 0x1_0000 == l / 0x100_0000;
  }

  lemma LowByteFirst16(l: uint16)
    ensures var b := U16ToB2(l); LowFirst(b[0], b[1], 0, 0) == l
  {
  }

  lemma U16RoundTrip(l: uint16)
    ensures B2ToU16(U16ToB2(l)) == l
  {
  }

  lemma U32RoundTrip(l: uint32)
    ensures B4ToU32(U32ToB4(l)) == l
  {
    LowByteFirst(l);
  }
}
