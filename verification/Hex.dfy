/**
  Bytes as text in GDB packets (src/utils.cc): two hexadecimal digits a byte.
 */
module Hex {
  import opened Bytes

  // ---------- digits ----------

  /** The digit characters 0..9 and a..f. */
  function HexChar(d: nat): (c: byte)
    requires d < 16
  {
    if d < 10 then '0' as int + d else 'a' as int + d - 10
  }

  lemma HexCharIs(d: nat)
    requires d < 16
    ensures HexChar(d) == "0123456789abcdef"[d] as int
  {
  }

  /** The value of a digit of either case; -1 for any other character. */
  function Digit(ch: byte): int {
    if 'a' as int <= ch <= 'f' as int then ch - 'a' as int + 10
    else if '0' as int <= ch <= '9' as int then ch - '0' as int
    else if 'A' as int <= ch <= 'F' as int then ch - 'A' as int + 10
    else -1
  }

  lemma DigitOfHexChar(d: nat)
    requires d < 16
    ensures Digit(HexChar(d)) == d
  {
  }

  /** Two characters as a byte, in the arithmetic of unsigned char. */
  function Pair(high: byte, low: byte): byte {
    Wrapped(Wrapped(Digit(high) * 16) + Digit(low))
  }

  /** An int of that size as an unsigned char. */
  function Wrapped(x: int): (b: byte)
    requires -0x100 <= x < 0x200
    ensures b == x % 0x100
  {
    if x < 0 then x + 0x100 else if x < 0x100 then x else x - 0x100
  }

  /** Two digits of either case are a byte, the high digit first. */
  lemma PairOfDigits(high: nat, low: nat)
    requires high < 16 && low < 16
    ensures Pair("0123456789abcdef"[high] as int, "0123456789abcdef"[low] as int) == 16 * high + low
    ensures Pair("0123456789ABCDEF"[high] as int, "0123456789ABCDEF"[low] as int) == 16 * high + low
  {
    DigitOfText(high);
    DigitOfText(low);
    PairIs("0123456789abcdef"[high] as int, "0123456789abcdef"[low] as int, high, low);
    PairIs("0123456789ABCDEF"[high] as int, "0123456789ABCDEF"[low] as int, high, low);
  }

  lemma PairIs(a: byte, b: byte, high: nat, low: nat)
    requires Digit(a) == high < 16 && Digit(b) == low < 16
    ensures Pair(a, b) == 16 * high + low
  {
    HalvesOf(high, low);
  }

  lemma DigitOfText(d: nat)
    requires d < 16
    ensures Digit("0123456789abcdef"[d] as int) == d && Digit("0123456789ABCDEF"[d] as int) == d
  {
  }

  lemma PairOfByte(x: byte)
    ensures Pair(HexChar(x / 16), HexChar(x % 16)) == x
  {
    DigitOfHexChar(x / 16);
    DigitOfHexChar(x % 16);
  }

  // ---------- memory as digits ----------

  function HexOf(mem: seq<byte>): seq<byte> {
    if mem == [] then [] else [HexChar(mem[0] / 16), HexChar(mem[0] % 16)] + HexOf(mem[1..])
  }

  function BytesOf(text: seq<byte>): seq<byte> {
    if |text| < 2 then [] else [Pair(text[0], text[1])] + BytesOf(text[2..])
  }

  lemma {:induction false} HexOfLength(mem: seq<byte>)
    ensures |HexOf(mem)| == 2 * |mem|
    decreases |mem|
  {
    if mem != [] {
      HexOfLength(mem[1..]);
    }
  }

  lemma {:induction false} HexOfAt(mem: seq<byte>, i: nat)
    requires i < |mem|
    ensures |HexOf(mem)| == 2 * |mem|
    ensures HexOf(mem)[2 * i] == HexChar(mem[i] / 16) && HexOf(mem)[2 * i + 1] == HexChar(mem[i] % 16)
    decreases |mem|
  {
    if i > 0 {
      HexOfAt(mem[1..], i - 1);
    } else if |mem| > 1 {
      HexOfAt(mem[1..], 0);
    }
  }

  lemma {:induction false} BytesOfAt(text: seq<byte>, i: nat)
    requires 2 * i + 1 < |text|
    ensures |BytesOf(text)| == |text| / 2 && BytesOf(text)[i] == Pair(text[2 * i], text[2 * i + 1])
    decreases |text|
  {
    if i > 0 {
      BytesOfAt(text[2..], i - 1);
    } else if |text| > 3 {
      BytesOfAt(text[2..], 0);
    }
  }

  /** Reading back what was written. */
  lemma {:induction false} BytesOfHexOf(mem: seq<byte>)
    ensures BytesOf(HexOf(mem)) == mem
    decreases |mem|
  {
    if mem != [] {
      PairOfByte(mem[0]);
      assert HexOf(mem)[2..] == HexOf(mem[1..]);
      BytesOfHexOf(mem[1..]);
    }
  }

  predicate LowerHex(ch: byte) {
    '0' as int <= ch <= '9' as int || 'a' as int <= ch <= 'f' as int
  }

  lemma HexCharOfDigit(ch: byte)
    ensures LowerHex(ch) ==> 0 <= Digit(ch) < 16 && HexChar(Digit(ch)) == ch
  {
  }

  lemma HexCharIsLower(d: nat)
    requires d < 16
    ensures LowerHex(HexChar(d))
  {
  }

  /** Two digits make a byte, and come apart again. */
  lemma HalvesOf(high: nat, low: nat)
    requires high < 16 && low < 16
    ensures Wrapped(Wrapped(high * 16) + low) == high * 16 + low < 0x100
    ensures (high * 16 + low) / 16 == high && (high * 16 + low) % 16 == low
  {
  }

  lemma ByteOfPair(high: byte, low: byte, x: byte)
    requires x == Pair(high, low)
    ensures HexChar(x / 16) == high && HexChar(x % 16) == low <==> LowerHex(high) && LowerHex(low)
  {
    if LowerHex(high) && LowerHex(low) {
      HexCharOfDigit(high);
      HexCharOfDigit(low);
      HalvesOf(Digit(high), Digit(low));
    } else {
      HexCharIsLower(x / 16);
      HexCharIsLower(x % 16);
    }
  }

  predicate AllLower(text: seq<byte>) {
    forall i :: 0 <= i < |text| ==> LowerHex(text[i])
  }

  lemma TwoMore(text: seq<byte>, rest: seq<byte>, a: byte, b: byte, tail: seq<byte>)
    requires |text| >= 2 && rest == text[2..]
    ensures [a, b] + tail == text <==> a == text[0] && b == text[1] && tail == rest
    ensures AllLower(text) <==> LowerHex(text[0]) && LowerHex(text[1]) && AllLower(rest)
  {
    var all := [a, b] + tail;
    assert all[0] == a && all[1] == b && all[2..] == tail;
    assert text == [text[0], text[1]] + rest;
    if AllLower(rest) {
      assert forall i :: 2 <= i < |text| ==> text[i] == rest[i - 2];
    }
  }

  lemma HexOfMore(x: byte, mem: seq<byte>)
    ensures HexOf([x] + mem) == [HexChar(x / 16), HexChar(x % 16)] + HexOf(mem)
  {
    assert ([x] + mem)[1..] == mem;
  }

  /** The first two characters come back as a and b: unchanged exactly if they are lower-case digits. */
  lemma BackOfPair(text: seq<byte>) returns (a: byte, b: byte)
    requires |text| >= 2
    ensures HexOf(BytesOf(text)) == [a, b] + HexOf(BytesOf(text[2..]))
    ensures a == text[0] && b == text[1] <==> LowerHex(text[0]) && LowerHex(text[1])
  {
    var x := Pair(text[0], text[1]);
    a, b := HexChar(x / 16), HexChar(x % 16);
    HexOfMore(x, BytesOf(text[2..]));
    ByteOfPair(text[0], text[1], x);
  }

  predicate WholePairs(text: seq<byte>) {
    |text| % 2 == 0 && AllLower(text)
  }

  lemma OnePairMore(text: seq<byte>, back: seq<byte>, a: byte, b: byte, tail: seq<byte>)
    requires |text| >= 2 && back == [a, b] + tail
    requires a == text[0] && b == text[1] <==> LowerHex(text[0]) && LowerHex(text[1])
    requires (tail == text[2..]) == WholePairs(text[2..])
    ensures (back == text) == WholePairs(text)
  {
    TwoMore(text, text[2..], a, b, tail);
  }

  /** Writing back what was read gives the same text exactly for whole pairs of lower-case digits. */
  lemma {:induction false} HexOfBytesOf(text: seq<byte>)
    ensures (HexOf(BytesOf(text)) == text) == WholePairs(text)
    decreases |text|
  {
    if |text| < 2 {
      assert BytesOf(text) == [];
    } else {
      HexOfBytesOf(text[2..]);
      var a, b := BackOfPair(text);
      OnePairMore(text, HexOf(BytesOf(text)), a, b, HexOf(BytesOf(text[2..])));
    }
  }

  /** Writes count bytes as digits, and a NUL after them. */
  method Mem2Hex(mem: array<byte>, buf: array<byte>, count: nat)
    requires mem != buf && count <= mem.Length && 2 * count < buf.Length
    modifies buf
    ensures buf[..] == HexOf(mem[..count]) + [0] + old(buf[2 * count + 1..])
  {
    for i := 0 to count
      invariant forall k :: 0 <= k < i ==> buf[2 * k] == HexChar(mem[k] / 16) && buf[2 * k + 1] == HexChar(mem[k] % 16)
      invariant forall k :: 2 * i <= k < buf.Length ==> buf[k] == old(buf[k])
    {
      buf[2 * i] := HexChar(mem[i] / 16);
      buf[2 * i + 1] := HexChar(mem[i] % 16);
    }
    buf[2 * count] := 0;
    assert buf[2 * count + 1..] == old(buf[2 * count + 1..]) by {
      assert forall k :: 2 * count + 1 <= k < buf.Length ==> buf[k] == old(buf[k]);
    }
    TextIsHexOf(mem[..count], buf[..2 * count]);
    assert buf[..] == buf[..2 * count] + [buf[2 * count]] + buf[2 * count + 1..];
  }

  lemma TextIsHexOf(mem: seq<byte>, text: seq<byte>)
    requires |text| == 2 * |mem|
    requires forall k :: 0 <= k < |mem| ==> text[2 * k] == HexChar(mem[k] / 16) && text[2 * k + 1] == HexChar(mem[k] % 16)
    ensures text == HexOf(mem)
  {
    HexOfLength(mem);
    forall k | 0 <= k < |text|
      ensures text[k] == HexOf(mem)[k]
    {
      var i := k / 2;
      HexOfAt(mem, i);
      if k % 2 == 0 {
        assert k == 2 * i;
      } else {
        assert k == 2 * i + 1;
      }
    }
  }

  /** Reads count bytes from pairs of digits. */
  method Hex2Mem(buf: array<byte>, mem: array<byte>, count: nat)
    requires mem != buf && count <= mem.Length && 2 * count <= buf.Length
    modifies mem
    ensures mem[..] == BytesOf(buf[..2 * count]) + old(mem[count..])
  {
    for i := 0 to count
      invariant forall k :: 0 <= k < i ==> mem[k] == Pair(buf[2 * k], buf[2 * k + 1])
      invariant forall k :: i <= k < mem.Length ==> mem[k] == old(mem[k])
    {
      mem[i] := Pair(buf[2 * i], buf[2 * i + 1]);
    }
    assert mem[count..] == old(mem[count..]);
    BytesAreOf(buf[..2 * count], mem[..count]);
    assert mem[..] == mem[..count] + mem[count..];
  }

  lemma BytesAreOf(text: seq<byte>, mem: seq<byte>)
    requires |text| == 2 * |mem|
    requires forall k :: 0 <= k < |mem| ==> mem[k] == Pair(text[2 * k], text[2 * k + 1])
    ensures mem == BytesOf(text)
  {
    if mem != [] {
      BytesOfAt(text, 0);
    }
    forall k | 0 <= k < |mem|
      ensures mem[k] == BytesOf(text)[k]
    {
      BytesOfAt(text, k);
    }
  }
}
