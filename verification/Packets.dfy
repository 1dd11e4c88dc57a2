/**
  The packets of the GDB Remote Serial Protocol as src/remote.cc reads and writes
  them: '$', the payload, '#' and two digits of checksum, each packet acknowledged.
  The payload is not escaped.
 */
module Packets {
  import opened Bytes
  import opened Hex

  const BUFMAX := 400

  const DOLLAR: byte := 0x24
  const HASH: byte := 0x23
  const COLON: byte := 0x3a
  const PLUS: byte := 0x2b
  const MINUS: byte := 0x2d

  /** Addition of unsigned char. */
  function AddByte(a: byte, b: byte): byte {
    if a + b < 0x100 then a + b else a + b - 0x100
  }

  /** The characters of a text added up. */
  function Total(s: seq<byte>): nat {
    if s == [] then 0 else Total(s[..|s| - 1]) + s[|s| - 1]
  }

  /** The checksum of the protocol. */
  function Checksum(s: seq<byte>): byte {
    Total(s) % 0x100
  }

  lemma ChecksumGrows(s: seq<byte>, c: byte)
    ensures Checksum(s + [c]) == AddByte(Checksum(s), c)
  {
    assert (s + [c])[..|s|] == s;
  }

  function Packet(payload: seq<byte>): seq<byte> {
    [DOLLAR] + payload + [HASH, HexChar(Checksum(payload) / 16), HexChar(Checksum(payload) % 16)]
  }

  /** The packet, character by character: '$', the payload, '#', and the total of the payload modulo 256 in two digits. */
  lemma PacketLayout(payload: seq<byte>)
    ensures var p, n, sum := Packet(payload), |payload|, Total(payload) % 0x100;
      && |p| == n + 4 && p[0] == '$' as int && p[1..n + 1] == payload && p[n + 1] == '#' as int
      && p[n + 2] == "0123456789abcdef"[sum / 16] as int && p[n + 3] == "0123456789abcdef"[sum % 16] as int
  {
    HexCharIs(Checksum(payload) / 16);
    HexCharIs(Checksum(payload) % 16);
  }

  /** A known packet: "$OK#9a". */
  lemma PacketOfOK()
    ensures Packet(['O' as int, 'K' as int]) == ['$' as int, 'O' as int, 'K' as int, '#' as int, '9' as int, 'a' as int]
  {
    var o: seq<byte>, ok: seq<byte> := ['O' as int], ['O' as int, 'K' as int];
    assert o[..0] == [] && Total(o) == 'O' as int;
    assert ok[..1] == o && Total(ok) == 0x9a;
  }

  /** The characters of a C string from an index on. */
  function CString(buffer: seq<byte>, start: nat): seq<byte>
    requires start <= |buffer|
    decreases |buffer| - start
  {
    if start == |buffer| || buffer[start] == 0 then [] else [buffer[start]] + CString(buffer, start + 1)
  }

  lemma {:induction false} CStringIs(buffer: seq<byte>, start: nat, text: seq<byte>)
    requires start + |text| <= |buffer| && buffer[start..start + |text|] == text && 0 !in text
    requires start + |text| < |buffer| ==> buffer[start + |text|] == 0
    ensures CString(buffer, start) == text
    decreases |text|
  {
    if text != [] {
      assert buffer[start] == text[0] && text[0] in text;
      assert buffer[start + 1..start + |text|] == text[1..];
      CStringIs(buffer, start + 1, text[1..]);
    }
  }

  predicate Plain(payload: seq<byte>) {
    DOLLAR !in payload && HASH !in payload
  }

  // ---------- what a stream of characters means ----------

  /** What reading a packet comes to: the stream ends, or a packet ends before `pos`. */
  datatype Reading = Starved | BadChecksum(pos: nat) | Got(body: seq<byte>, pos: nat)

  /** Looking for the '$'. */
  function Scan(input: seq<byte>, pos: nat): Reading
    requires pos <= |input|
    decreases |input| - pos, 0
  {
    if pos == |input| then Starved
    else if input[pos] == DOLLAR then Collect(input, pos + 1, [])
    else Scan(input, pos + 1)
  }

  /** In a packet, with its characters so far; one that is too long is dropped. */
  function Collect(input: seq<byte>, pos: nat, body: seq<byte>): Reading
    requires pos <= |input|
    decreases |input| - pos, 1
  {
    if |body| >= BUFMAX - 1 then Scan(input, pos)
    else if pos == |input| then Starved
    else if input[pos] == DOLLAR then Collect(input, pos + 1, [])
    else if input[pos] == HASH then Finish(input, pos + 1, body)
    else Collect(input, pos + 1, body + [input[pos]])
  }

  /** After the '#'. */
  function Finish(input: seq<byte>, pos: nat, body: seq<byte>): Reading
    requires pos <= |input|
  {
    if pos + 2 > |input| then Starved
    else if Pair(input[pos], input[pos + 1]) == Checksum(body) then Got(body, pos + 2)
    else BadChecksum(pos + 2)
  }

  lemma CollectsOne(input: seq<byte>, pos: nat, body: seq<byte>, ch: byte)
    requires pos < |input| && ch == input[pos] && |body| < BUFMAX - 1 && ch != DOLLAR && ch != HASH
    ensures Collect(input, pos, body) == Collect(input, pos + 1, body + [ch])
    ensures Checksum(body + [ch]) == AddByte(Checksum(body), ch)
  {
    ChecksumGrows(body, ch);
  }

  /** Whatever came before without a '#', even part of a packet, a '$' begins afresh. */
  lemma {:induction false} DollarBegins(input: seq<byte>, pos: nat, n: nat, body: seq<byte>)
    requires pos <= n < |input| && input[n] == DOLLAR && HASH !in input[pos..n]
    ensures Scan(input, pos) == Collect(input, n + 1, [])
    ensures Collect(input, pos, body) == Collect(input, n + 1, [])
    decreases n - pos
  {
    if pos < n {
      assert input[pos] == input[pos..n][0];
      assert input[pos + 1..n] == input[pos..n][1..];
      DollarBegins(input, pos + 1, n, []);
      DollarBegins(input, pos + 1, n, body + [input[pos]]);
    }
  }

  lemma {:induction false} PayloadIsCollected(input: seq<byte>, pos: nat, body: seq<byte>, payload: seq<byte>)
    requires Plain(payload) && pos + |payload| < |input| && input[pos..pos + |payload|] == payload
    requires input[pos + |payload|] == HASH && |body| + |payload| < BUFMAX - 1
    ensures Collect(input, pos, body) == Finish(input, pos + |payload| + 1, body + payload)
    decreases |payload|
  {
    if payload == [] {
      assert body + payload == body;
    } else {
      assert input[pos] == payload[0] && payload[0] in payload;
      assert input[pos + 1..pos + |payload|] == payload[1..];
      assert body + [payload[0]] + payload[1..] == body + payload;
      PayloadIsCollected(input, pos + 1, body + [payload[0]], payload[1..]);
    }
  }

  lemma PacketIsCollected(input: seq<byte>, n: nat, body: seq<byte>)
    requires n + |body| + 1 < |input| && HASH !in input[0..n] && input[n] == DOLLAR
    requires input[n + 1..n + 1 + |body|] == body && Plain(body) && |body| < BUFMAX - 1 && input[n + 1 + |body|] == HASH
    ensures Scan(input, 0) == Finish(input, n + |body| + 2, body)
  {
    DollarBegins(input, 0, n, []);
    BodyIsCollected(input, n + 1, body);
  }

  lemma BodyIsCollected(input: seq<byte>, start: nat, body: seq<byte>)
    requires start + |body| < |input| && input[start..start + |body|] == body && input[start + |body|] == HASH
    requires Plain(body) && |body| < BUFMAX - 1
    ensures Collect(input, start, []) == Finish(input, start + |body| + 1, body)
  {
    PayloadIsCollected(input, start, [], body);
    assert [] + body == body;
  }

  /** A packet is read back as it was sent, after anything without a '#' and whatever follows. */
  lemma GetInvertsPut(junk: seq<byte>, payload: seq<byte>, rest: seq<byte>)
    requires HASH !in junk && Plain(payload) && |payload| < BUFMAX - 1
    ensures Scan(junk + Packet(payload) + rest, 0) == Got(payload, |junk + Packet(payload)|)
  {
    var input, n := junk + Packet(payload) + rest, |junk|;
    assert input[0..n] == junk && input[n + 1..n + 1 + |payload|] == payload;
    PacketIsCollected(input, n, payload);
    var end := n + |payload| + 2;
    assert input[end] == HexChar(Checksum(payload) / 16) && input[end + 1] == HexChar(Checksum(payload) % 16);
    PairOfByte(Checksum(payload));
  }

  lemma PacketIsFinished(junk: seq<byte>, body: seq<byte>, digits: seq<byte>, rest: seq<byte>, input: seq<byte>)
    requires HASH !in junk && Plain(body) && |body| < BUFMAX - 1 && |digits| == 2
    requires input == junk + ([DOLLAR] + body + ([HASH] + digits)) + rest
    ensures |junk| + |body| + 4 <= |input| && Scan(input, 0) == Finish(input, |junk| + |body| + 2, body)
    ensures input[|junk| + |body| + 2] == digits[0] && input[|junk| + |body| + 3] == digits[1]
  {
    var n := |junk|;
    assert input[0..n] == junk && input[n + 1..n + 1 + |body|] == body;
    PacketIsCollected(input, n, body);
  }

  /**
    Whatever packet gdb sends, after anything without a '#': it is taken exactly when its
    two digits, of either case, are the total of its characters modulo 256.
   */
  lemma VerdictIsTotal(junk: seq<byte>, body: seq<byte>, digits: seq<byte>, rest: seq<byte>, input: seq<byte>)
    requires '#' as int !in junk && Plain(body) && |body| < 399 && |digits| == 2
    requires input == junk + (['$' as int] + body + (['#' as int] + digits)) + rest
    ensures var end := |junk| + |body| + 4;
      Scan(input, 0) == if Pair(digits[0], digits[1]) == Total(body) % 0x100 then Got(body, end) else BadChecksum(end)
  {
    PacketIsFinished(junk, body, digits, rest, input);
  }

  lemma {:induction false} NothingWithoutDollar(input: seq<byte>, pos: nat)
    requires pos <= |input| && DOLLAR !in input[pos..]
    ensures Scan(input, pos) == Starved
    decreases |input| - pos
  {
    if pos < |input| {
      assert input[pos] == input[pos..][0] && input[pos + 1..] == input[pos..][1..];
      NothingWithoutDollar(input, pos + 1);
    }
  }

  lemma {:induction false} TooLongIsDropped(input: seq<byte>, pos: nat, body: seq<byte>)
    requires pos <= |input| && DOLLAR !in input[pos..] && |body| <= BUFMAX - 1
    requires pos + (BUFMAX - 1 - |body|) <= |input| && HASH !in input[pos..pos + (BUFMAX - 1 - |body|)]
    ensures Collect(input, pos, body) == Starved
    decreases BUFMAX - |body|
  {
    var end := pos + (BUFMAX - 1 - |body|);
    if |body| == BUFMAX - 1 {
      NothingWithoutDollar(input, pos);
    } else {
      assert input[pos] == input[pos..][0] && input[pos] == input[pos..end][0];
      assert input[pos + 1..] == input[pos..][1..] && input[pos + 1..end] == input[pos..end][1..];
      TooLongIsDropped(input, pos + 1, body + [input[pos]]);
    }
  }

  /** A packet alone is read back exactly when its payload has fewer than 399 characters. */
  lemma ReadableIffShort(payload: seq<byte>)
    requires Plain(payload)
    ensures Scan(Packet(payload), 0) == Got(payload, |Packet(payload)|) <==> |payload| < 399
  {
    var input := Packet(payload);
    if |payload| < BUFMAX - 1 {
      GetInvertsPut([], payload, []);
      assert [] + input + [] == input && [] + input == input;
    } else {
      assert input[1..] == payload + [HASH, HexChar(Checksum(payload) / 16), HexChar(Checksum(payload) % 16)];
      assert input[1..BUFMAX] == payload[..BUFMAX - 1];
      TooLongIsDropped(input, 1, []);
    }
  }

  // ---------- the checksum ----------

  lemma {:induction false} TotalOfChange(s: seq<byte>, t: seq<byte>, i: nat)
    requires i < |s| == |t| && t == s[i := t[i]]
    ensures Total(t) - t[i] == Total(s) - s[i]
    decreases |s|
  {
    var n := |s| - 1;
    if i == n {
      assert t[..n] == s[..n];
    } else {
      assert t[..n] == s[..n][i := t[i]];
      TotalOfChange(s[..n], t[..n], i);
    }
  }

  lemma ChecksumNotices(s: seq<byte>, t: seq<byte>, i: nat)
    requires i < |s| == |t| && t == s[i := t[i]] && t[i] != s[i]
    ensures Checksum(t) != Checksum(s)
  {
    TotalOfChange(s, t, i);
  }

  /** One character of the payload changed into another ordinary one never goes unnoticed. */
  lemma OneChangedCharacterIsNoticed(junk: seq<byte>, payload: seq<byte>, damaged: seq<byte>, rest: seq<byte>, i: nat)
    requires HASH !in junk && Plain(payload) && Plain(damaged) && |payload| < BUFMAX - 1
    requires i < |payload| == |damaged| && damaged == payload[i := damaged[i]] && damaged[i] != payload[i]
    ensures var sum := Checksum(payload);
      var tail := [HASH, HexChar(sum / 16), HexChar(sum % 16)];
      Scan(junk + ([DOLLAR] + damaged + tail) + rest, 0) == BadChecksum(|junk + Packet(payload)|)
  {
    var sum := Checksum(payload);
    var input, n := junk + ([DOLLAR] + damaged + [HASH, HexChar(sum / 16), HexChar(sum % 16)]) + rest, |junk|;
    assert input[0..n] == junk && input[n + 1..n + 1 + |damaged|] == damaged;
    PacketIsCollected(input, n, damaged);
    var end := n + |damaged| + 2;
    assert input[end] == HexChar(sum / 16) && input[end + 1] == HexChar(sum % 16);
    PairOfByte(sum);
    ChecksumNotices(payload, damaged, i);
  }

  // ---------- the methods ----------

  /** What GdbRemote writes, again for each character it reads that is not the acknowledgement. */
  function Times(packet: seq<byte>, n: nat): seq<byte> {
    if n == 0 then [] else Times(packet, n - 1) + packet
  }

  lemma Regrouped(a: seq<byte>, b: seq<byte>, c: seq<byte>)
    ensures (a + b) + c == a + (b + c)
  {
  }

  lemma PacketParts(before: seq<byte>, payload: seq<byte>)
    ensures before + [DOLLAR] + payload + [HASH] + [HexChar(Checksum(payload) / 16)] + [HexChar(Checksum(payload) % 16)]
         == before + Packet(payload)
  {
  }

  class GdbRemote {
    /** The characters that gdb sends, and how many have been read; at the end gdb has exited. */
    const input: seq<byte>
    var pos: nat
    /** What has been written to gdb. */
    var output: seq<byte>
    const remcomInBuffer: array<byte>

    ghost predicate Valid()
      reads this
    {
      pos <= |input| && remcomInBuffer.Length == BUFMAX
    }

    constructor (input: seq<byte>)
      ensures Valid() && this.input == input && pos == 0 && output == [] && fresh(remcomInBuffer)
    {
      this.input, pos, output := input, 0, [];
      remcomInBuffer := new byte[BUFMAX](_ => 0);
    }

    /** None when gdb has exited. */
    method GetDebugChar() returns (c: int)
      requires Valid()
      modifies this`pos
      ensures Valid()
      ensures if old(pos) < |input| then c == input[old(pos)] && pos == old(pos) + 1 else c == -1 && pos == old(pos)
    {
      if pos == |input| {
        return -1;
      }
      c := input[pos];
      pos := pos + 1;
    }

    /** Writes the packet until gdb acknowledges it: once for every character read. */
    method PutPacket(buffer: seq<byte>) returns (acknowledged: bool)
      requires Valid()
      modifies this`pos, this`output
      ensures Valid() && old(pos) <= pos
      ensures forall k :: old(pos) <= k < pos && (acknowledged ==> k < pos - 1) ==> input[k] != '+' as int
      ensures if acknowledged then old(pos) < pos && input[pos - 1] == '+' as int else pos == |input|
      ensures output == old(output) + Times(Packet(CString(buffer, 0)), pos - old(pos) + if acknowledged then 0 else 1)
    {
      ghost var tries, payload := 0, CString(buffer, 0);
      ghost var before, begin := output, pos;
      while true
        invariant Valid() && begin <= pos && tries == pos - begin
        invariant output == before + Times(Packet(payload), tries)
        invariant forall k :: begin <= k < pos ==> input[k] != PLUS
        decreases |input| - pos
      {
        WriteOnce(buffer);
        tries := tries + 1;
        assert Times(Packet(payload), tries) == Times(Packet(payload), tries - 1) + Packet(payload);
        var c := GetDebugChar();
        if c == -1 {
          return false;
        }
        if c == PLUS {
          return true;
        }
      }
    }

    /** One packet, character by character. */
    method WriteOnce(buffer: seq<byte>)
      requires Valid()
      modifies this`output
      ensures Valid()
      ensures output == old(output) + Packet(CString(buffer, 0))
    {
      output := output + [DOLLAR];
      ghost var begun := output;
      var checksum: byte := 0;
      var count := 0;
      while count < |buffer| && buffer[count] != 0
        invariant Valid() && count <= |buffer|
        invariant 0 !in buffer[..count]
        invariant output == begun + buffer[..count] && checksum == Checksum(buffer[..count])
      {
        output := output + [buffer[count]];
        checksum := AddByte(checksum, buffer[count]);
        assert buffer[..count + 1] == buffer[..count] + [buffer[count]];
        Regrouped(begun, buffer[..count], [buffer[count]]);
        ChecksumGrows(buffer[..count], buffer[count]);
        count := count + 1;
      }
      CStringIs(buffer, 0, buffer[..count]);
      output := output + [HASH];
      output := output + [HexChar(checksum / 16)];
      output := output + [HexChar(checksum % 16)];
      PacketParts(old(output), CString(buffer, 0));
    }

    /** Waits for the start character. */
    method SkipToDollar() returns (found: bool)
      requires Valid()
      modifies this`pos
      ensures Valid() && old(pos) <= pos
      ensures if found then old(pos) < pos && Scan(input, old(pos)) == Collect(input, pos, [])
              else Scan(input, old(pos)) == Starved
    {
      ghost var begin := pos;
      while true
        invariant Valid() && begin <= pos && Scan(input, begin) == Scan(input, pos)
        decreases |input| - pos
      {
        var ch := GetDebugChar();
        if ch == -1 {
          return false;
        }
        if ch == DOLLAR {
          return true;
        }
      }
    }

    /** Reads until a '#' or the end of the buffer; another '$' starts the packet anew. */
    method ReadBody() returns (ch: int, count: nat, checksum: byte)
      requires Valid()
      modifies this`pos, remcomInBuffer
      ensures Valid() && old(pos) <= pos && count <= BUFMAX - 1
      ensures ch == -1 ==> Collect(input, old(pos), []) == Starved
      ensures ch == HASH ==>
        Collect(input, old(pos), []) == Finish(input, pos, remcomInBuffer[..count]) &&
        checksum == Checksum(remcomInBuffer[..count])
      ensures ch != -1 && ch != HASH ==> old(pos) < pos && Collect(input, old(pos), []) == Scan(input, pos)
    {
      ghost var begin := pos;
      ch, count, checksum := DOLLAR, 0, 0;
      while count < BUFMAX - 1
        invariant Valid() && begin <= pos && count <= BUFMAX - 1 && begin + count <= pos && ch != HASH && ch != -1
        invariant Collect(input, begin, []) == Collect(input, pos, remcomInBuffer[..count])
        invariant checksum == Checksum(remcomInBuffer[..count])
        decreases |input| - pos
      {
        ch := GetDebugChar();
        if ch == -1 {
          return;
        }
        if ch == DOLLAR {
          checksum, count := 0, 0;
        } else if ch == HASH {
          return;
        } else {
          ghost var body := remcomInBuffer[..count];
          checksum := AddByte(checksum, ch);
          Store(count, ch);
          CollectsOne(input, pos - 1, body, ch);
          count := count + 1;
        }
      }
    }

    method Store(count: nat, ch: byte)
      requires count < remcomInBuffer.Length
      modifies remcomInBuffer
      ensures remcomInBuffer[..count + 1] == old(remcomInBuffer[..count]) + [ch]
    {
      remcomInBuffer[count] := ch;
    }

    /**
      Reads one packet into remcomInBuffer and acknowledges it; its text starts at `start`,
      which is 3 when the third character is ':'. What follows a bad checksum is not modelled.
     */
    method GetPacket() returns (reading: Reading, start: nat)
      requires Valid()
      modifies this, remcomInBuffer
      ensures Valid()
      ensures reading == Scan(input, old(pos))
      ensures reading.BadChecksum? ==> pos == reading.pos && output == old(output) + ['-' as int]
      ensures reading.Got? ==>
        pos == reading.pos && |reading.body| < BUFMAX && remcomInBuffer[..|reading.body|] == reading.body &&
        remcomInBuffer[|reading.body|] == 0
      ensures reading.Got? ==>
        if remcomInBuffer[2] == ':' as int then
          start == 3 && output == old(output) + ['+' as int, remcomInBuffer[0], remcomInBuffer[1]]
        else
          start == 0 && output == old(output) + ['+' as int]
    {
      start := 0;
      ghost var begin := pos;
      while true
        invariant Valid() && output == old(output)
        invariant Scan(input, begin) == Scan(input, pos)
        decreases |input| - pos
      {
        var found := SkipToDollar();
        if !found {
          return Starved, start;
        }
        var ch, count, checksum := ReadBody();
        if ch == -1 {
          return Starved, start;
        }
        var body := remcomInBuffer[..count];
        remcomInBuffer[count] := 0;
        assert remcomInBuffer[..count] == body;
        if ch == HASH {
          var high := GetDebugChar();
          if high == -1 {
            return Starved, start;
          }
          var low := GetDebugChar();
          if low == -1 {
            return Starved, start;
          }
          if checksum != Pair(high, low) {
            output := output + [MINUS];
            return BadChecksum(pos), start;
          }
          output := output + [PLUS];
          if remcomInBuffer[2] == COLON {
            output := output + [remcomInBuffer[0]];
            output := output + [remcomInBuffer[1]];
            start := 3;
          }
          return Got(body, pos), start;
        }
      }
    }
  }

  /**
    What gdb sends as one packet is the text that the caller gets: without a NUL or a ':'
    in third place, and of two characters at least, for a shorter one leaves the third
    character of the packet before it in place.
   */
  method Transmit(junk: seq<byte>, payload: seq<byte>, rest: seq<byte>) returns (text: seq<byte>, replies: seq<byte>)
    requires HASH !in junk && Plain(payload) && 0 !in payload && 2 <= |payload| < BUFMAX - 1
    requires |payload| > 2 ==> payload[2] != COLON
    ensures text == payload && replies == [PLUS]
  {
    var remote := new GdbRemote(junk + Packet(payload) + rest);
    GetInvertsPut(junk, payload, rest);
    var reading, start := remote.GetPacket();
    CStringIs(remote.remcomInBuffer[..], 0, payload);
    return CString(remote.remcomInBuffer[..], start), remote.output;
  }
}
