/**
  The frames of the mkII link (src/jtag2io.cc, layout as in Atmel AVR067): how they
  are put together, and what a byte stream means to the receiver.
 */
module Frames {
  import opened Bytes
  import opened Crc16
  import opened Slices

  const MESSAGE_START: byte := 0x1B
  const TOKEN: byte := 0x0E
  const MAX_MESSAGE := 100000
  const HEADER := 8

  /** A frame: start, sequence number, size, token, message and CRC. */
  function Frame(seqno: uint16, message: seq<byte>): (f: seq<byte>)
    requires |message| < 0x1_0000_0000
    ensures |f| == HEADER + |message| + 2
  {
    var body := Header(seqno, |message|) + message;
    body + CrcBytes(Crc(body, CRC_INIT))
  }

  function Header(seqno: uint16, size: uint32): (h: seq<byte>)
    ensures |h| == HEADER
  {
    [MESSAGE_START] + U16ToB2(seqno) + U32ToB4(size) + [TOKEN]
  }

  function SeqnoOf(h: seq<byte>): uint16
    requires |h| >= HEADER
  {
    B2ToU16(h[1..3])
  }

  function SizeOf(h: seq<byte>): uint32
    requires |h| >= HEADER
  {
    B4ToU32(h[3..7])
  }

  lemma HeaderReadsBack(seqno: uint16, size: uint32, tail: seq<byte>)
    ensures var h := Header(seqno, size) + tail;
      h[0] == MESSAGE_START && h[7] == TOKEN && SeqnoOf(h) == seqno && SizeOf(h) == size
  {
    var h := Header(seqno, size) + tail;
    assert h[1..3] == U16ToB2(seqno) && h[3..7] == U32ToB4(size);
    U16RoundTrip(seqno);
    U32RoundTrip(size);
  }

  /** The bytes of a frame. */
  lemma FrameLayout(seqno: uint16, message: seq<byte>)
    requires |message| < 0x1_0000_0000
    ensures var f, n := Frame(seqno, message), |message|;
      && |f| == n + 10 && f[0] == 0x1B && LowFirst(f[1], f[2], 0, 0) == seqno
      && LowFirst(f[3], f[4], f[5], f[6]) == n && f[7] == 0x0E && f[8..n + 8] == message
      && f[n + 8..] == CrcBytes(Crc(f[..n + 8], 0xffff))
  {
    var f, n := Frame(seqno, message), |message|;
    var body := Header(seqno, n) + message;
    assert f[..n + 8] == body && f[n + 8..] == CrcBytes(Crc(body, CRC_INIT));
    LowByteFirst(n);
    LowByteFirst16(seqno);
    var number, size := U16ToB2(seqno), U32ToB4(n);
    assert f[1] == number[0] && f[2] == number[1];
    assert f[3] == size[0] && f[4] == size[1] && f[5] == size[2] && f[6] == size[3];
  }

  // ---------- what a stream means to the receiver ----------

  /**
    What the receiver makes of a stream: a frame with a good CRC, one with a bad CRC, or
    nothing in time; then rv is what it returns for the size bytes that it has seen.
   */
  datatype Outcome =
    | Got(seqno: uint16, frame: seq<byte>, next: nat)
    | BadCrc(next: nat)
    | TimedOut(rv: int)

  /** The verdict on a frame that has come in; the program's is GoodCrc. */
  type Check = seq<byte> -> bool

  predicate GoodCrc(f: seq<byte>) {
    |f| >= 2 && Verifies(f)
  }

  /** The size register takes in a byte at the top and loses one at the bottom. */
  function Shifted(size: uint32, c: byte): uint32 {
    size / 0x100 + c * 0x100_0000
  }

  function ShiftedAll(size: uint32, bytes: seq<byte>): uint32
    decreases |bytes|
  {
    if |bytes| == 0 then size else ShiftedAll(Shifted(size, bytes[0]), bytes[1..])
  }

  /** The conversion of an unsigned size to the int that is returned. */
  function ToInt(size: uint32): int {
    if size < 0x8000_0000 then size else size - 0x1_0000_0000
  }

  /** The first start byte from a position on, or the end of the stream. */
  function NextStart(s: seq<byte>, pos: nat): (p: nat)
    requires pos <= |s|
    ensures pos <= p <= |s|
    ensures p < |s| ==> s[p] == MESSAGE_START
    ensures forall i :: pos <= i < p ==> s[i] != MESSAGE_START
    decreases |s| - pos
  {
    if pos == |s| || s[pos] == MESSAGE_START then pos else NextStart(s, pos + 1)
  }

  /** Reception from a position between frames, with an old value in the size register. */
  function Receive(check: Check, s: seq<byte>, pos: nat, size: uint32): Outcome
    requires pos <= |s|
    decreases |s| - pos, 1
  {
    var p := NextStart(s, pos);
    if p == |s| then TimedOut(ToInt(size)) else ReceiveHeader(check, s, p, size)
  }

  /** Reception from a start byte. */
  function ReceiveHeader(check: Check, s: seq<byte>, p: nat, size: uint32): Outcome
    requires p < |s|
    decreases |s| - p, 0
  {
    if |s| < p + HEADER then
      TimedOut(ToInt(if |s| < p + 3 then size else ShiftedAll(size, s[p + 3..])))
    else
      var h := s[p..p + HEADER];
      if h[7] != TOKEN || SizeOf(h) > MAX_MESSAGE then Receive(check, s, p + HEADER, SizeOf(h)) else ReceiveBody(check, s, p)
  }

  /** Reception after a good header. */
  function ReceiveBody(check: Check, s: seq<byte>, p: nat): Outcome
    requires p + HEADER <= |s|
  {
    var h := s[p..p + HEADER];
    var end := p + HEADER + SizeOf(h) + 2;
    if SizeOf(h) == 0 then TimedOut(0)
    else if |s| < end then TimedOut(ToInt(SizeOf(h)))
    else if check(s[p..end]) then Got(SeqnoOf(h), s[p..end], end)
    else BadCrc(end)
  }

  // ---------- properties ----------

  lemma ShiftedWindow(b: seq<byte>, c: byte)
    requires |b| == 4
    ensures Shifted(B4ToU32(b), c) == B4ToU32(b[1..] + [c])
  {
    var rest := b[1] as int + b[2] as int * 0x100 + b[3] as int * 0x1_0000;
    assert B4ToU32(b) == b[0] + rest * 0x100;
    assert b[1..] + [c] == [b[1], b[2], b[3], c];
  }

  /** The size register holds the last four of the size bytes that have gone through it. */
  lemma {:induction false} RegisterHoldsLastFour(old4: seq<byte>, b: seq<byte>)
    requires |old4| == 4
    ensures ShiftedAll(B4ToU32(old4), b) == B4ToU32((old4 + b)[|b|..])
    decreases |b|
  {
    if |b| == 0 {
      assert (old4 + b)[0..] == old4;
    } else {
      var next := old4[1..] + [b[0]];
      ShiftedWindow(old4, b[0]);
      RegisterHoldsLastFour(next, b[1..]);
      assert (next + b[1..])[|b| - 1..] == (old4 + b)[|b|..];
    }
  }

  /** Whatever the size register held before, four bytes later it holds these four. */
  lemma StaleSizeIsShiftedOut(size: uint32, b: seq<byte>)
    requires |b| == 4
    ensures ShiftedAll(size, b) == B4ToU32(b)
  {
    U32RoundTrip(size);
    RegisterHoldsLastFour(U32ToB4(size), b);
    assert (U32ToB4(size) + b)[4..] == b;
  }

  lemma {:induction false} ShiftedOneMore(size: uint32, b: seq<byte>, c: byte)
    ensures ShiftedAll(size, b + [c]) == Shifted(ShiftedAll(size, b), c)
    decreases |b|
  {
    if |b| == 0 {
      assert b + [c] == [c];
      assert ShiftedAll(Shifted(size, c), []) == Shifted(size, c);
    } else {
      assert (b + [c])[1..] == b[1..] + [c];
      ShiftedOneMore(Shifted(size, b[0]), b[1..], c);
    }
  }

  /** A message of that size is announced here, under whatever number. */
  predicate Announces(f: seq<byte>, size: uint32) {
    |f| >= HEADER && f[0] == MESSAGE_START && f[3..7] == U32ToB4(size) && f[7] == TOKEN
  }

  /** After noise, a sound header decides where the frame ends, and the check of the frame the rest. */
  lemma HeaderDecides(check: Check, noise: seq<byte>, f: seq<byte>, rest: seq<byte>, size: uint32, stale: uint32)
    requires MESSAGE_START !in noise
    requires 1 <= size <= MAX_MESSAGE && Announces(f, size) && |f| == HEADER + size + 2
    ensures Receive(check, noise + f + rest, 0, stale)
         == if check(f) then Got(SeqnoOf(f), f, |noise| + |f|) else BadCrc(|noise| + |f|)
  {
    var s, p := noise + f + rest, |noise|;
    HeaderInStream(noise, f, rest, size);
    var r := ReceiveBody(check, s, p);
    assert Receive(check, s, 0, stale) == ReceiveHeader(check, s, p, stale) == r;
  }

  /** A frame's header read where it stands in a stream, after noise. */
  lemma HeaderInStream(noise: seq<byte>, f: seq<byte>, rest: seq<byte>, size: uint32)
    requires MESSAGE_START !in noise && Announces(f, size)
    ensures var s := noise + f + rest; var h := s[|noise|..|noise| + HEADER];
      && NextStart(s, 0) == |noise| && s[|noise|..|noise| + |f|] == f
      && h[7] == TOKEN && SizeOf(h) == size && SeqnoOf(h) == SeqnoOf(f)
  {
    var s, p := noise + f + rest, |noise|;
    assert s == noise + (f + rest);
    SkipNoise(noise, f + rest, 0);
    var h := s[p..p + HEADER];
    assert h == f[..HEADER];
    assert h[3..7] == f[3..7] && h[1..3] == f[1..3];
    U32RoundTrip(size);
  }

  /** After any noise without a start byte, the receiver returns exactly the frame that was sent. */
  lemma ReceiveInvertsSend(noise: seq<byte>, seqno: uint16, message: seq<byte>, rest: seq<byte>, size: uint32)
    requires MESSAGE_START !in noise
    requires 1 <= |message| <= MAX_MESSAGE
    ensures var f := Frame(seqno, message);
      && Receive(GoodCrc, noise + f + rest, 0, size) == Got(seqno, f, |noise| + |f|)
      && f[HEADER..HEADER + |message|] == message
  {
    var f := Frame(seqno, message);
    FrameAnnounces(seqno, message);
    HeaderDecides(GoodCrc, noise, f, rest, |message|, size);
    AppendVerifies(Header(seqno, |message|) + message);
  }

  lemma FrameAnnounces(seqno: uint16, message: seq<byte>)
    requires |message| < 0x1_0000_0000
    ensures var f := Frame(seqno, message); Announces(f, |message|) && SeqnoOf(f) == seqno
  {
    var f := Frame(seqno, message);
    assert f[1..3] == U16ToB2(seqno) && f[3..7] == U32ToB4(|message|);
    U16RoundTrip(seqno);
  }

  /**
    A frame that is damaged inside sixteen consecutive bits is turned down by its CRC, and
    the receiver stops at its end, as long as the bytes that say where it ends are intact:
    the start byte, the size and the token. The number, the message and the CRC may suffer.
   */
  lemma BurstIsRejected(noise: seq<byte>, seqno: uint16, message: seq<byte>, damaged: seq<byte>, rest: seq<byte>, k: nat)
    requires MESSAGE_START !in noise
    requires 1 <= |message| <= MAX_MESSAGE
    requires var f := Frame(seqno, message);
      AgreeOutside(f, damaged, k) && f != damaged && damaged[0] == f[0] && damaged[3..HEADER] == f[3..HEADER]
    ensures Receive(GoodCrc, noise + damaged + rest, 0, 0) == BadCrc(|noise| + |damaged|)
  {
    var f := Frame(seqno, message);
    FrameAnnounces(seqno, message);
    assert damaged[3..7] == damaged[3..HEADER][..4] == f[3..HEADER][..4] == f[3..7];
    assert damaged[7] == damaged[3..HEADER][4] == f[7];
    HeaderDecides(GoodCrc, noise, damaged, rest, |message|, 0);
    AppendVerifies(Header(seqno, |message|) + message);
    BurstDetected(f, damaged, k);
  }

  lemma {:induction false} SkipNoise(noise: seq<byte>, tail: seq<byte>, i: nat)
    requires MESSAGE_START !in noise && i <= |noise|
    requires |tail| > 0 && tail[0] == MESSAGE_START
    ensures NextStart(noise + tail, i) == |noise|
    decreases |noise| - i
  {
    if i < |noise| {
      assert (noise + tail)[i] == noise[i];
      SkipNoise(noise, tail, i + 1);
    }
  }

  /** An accepted frame of the stream that ends where the reception stopped. */
  predicate StandsAt(check: Check, s: seq<byte>, pos: nat, r: Outcome)
    requires r.Got?
  {
    && pos + HEADER + 2 < r.next <= |s| && HEADER + 2 < |r.frame| <= r.next - pos
    && r.frame == s[r.next - |r.frame|..r.next]
    && r.frame[0] == MESSAGE_START && r.frame[7] == TOKEN
    && r.seqno == SeqnoOf(r.frame) && |r.frame| == HEADER + SizeOf(r.frame) + 2
    && check(r.frame)
  }

  lemma SameHeader(s: seq<byte>, p: nat, end: nat)
    requires p + HEADER <= end <= |s|
    ensures SizeOf(s[p..end]) == SizeOf(s[p..p + HEADER]) && SeqnoOf(s[p..end]) == SeqnoOf(s[p..p + HEADER])
  {
    SliceOfSlice(s, p, end, 1, 3);
    SliceOfSlice(s, p, end, 3, 7);
    SliceOfSlice(s, p, p + HEADER, 1, 3);
    SliceOfSlice(s, p, p + HEADER, 3, 7);
  }

  lemma BodyStands(check: Check, s: seq<byte>, p: nat)
    requires p + HEADER <= |s| && s[p] == MESSAGE_START && s[p + 7] == TOKEN && ReceiveBody(check, s, p).Got?
    ensures StandsAt(check, s, p, ReceiveBody(check, s, p))
  {
    var end := p + HEADER + SizeOf(s[p..p + HEADER]) + 2;
    SameHeader(s, p, end);
    var frame := s[p..end];
    assert frame[0] == s[p] && frame[7] == s[p + 7];
    assert ReceiveBody(check, s, p) == Got(SeqnoOf(s[p..p + HEADER]), frame, end);
    assert s[end - |frame|..end] == frame;
  }

  lemma {:induction false} GotStands(check: Check, s: seq<byte>, pos: nat, size: uint32)
    requires pos <= |s| && Receive(check, s, pos, size).Got?
    ensures StandsAt(check, s, pos, Receive(check, s, pos, size))
    decreases |s| - pos
  {
    var p := NextStart(s, pos);
    var h := s[p..p + HEADER];
    if h[7] != TOKEN || SizeOf(h) > MAX_MESSAGE {
      GotStands(check, s, p + HEADER, SizeOf(h));
    } else {
      BodyStands(check, s, p);
    }
  }

  /** What is received is a frame of the stream that verifies, with the size and number of its header. */
  lemma GotVerifies(s: seq<byte>, pos: nat, size: uint32)
    requires pos <= |s| && Receive(GoodCrc, s, pos, size).Got?
    ensures var r := Receive(GoodCrc, s, pos, size);
      && pos + HEADER + 2 < r.next <= |s| && HEADER + 2 < |r.frame| <= r.next - pos
      && r.frame == s[r.next - |r.frame|..r.next]
      && r.seqno == SeqnoOf(r.frame) && |r.frame| == HEADER + SizeOf(r.frame) + 2
      && Verifies(r.frame)
  {
    GotStands(GoodCrc, s, pos, size);
  }

  // ---------- the positive returns that nothing stands behind ----------

  /** A whole header that the receiver turns down. */
  predicate TurnedDown(s: seq<byte>, p: nat) {
    p + HEADER <= |s| && (s[p + 7] != TOKEN || SizeOf(s[p..p + HEADER]) > MAX_MESSAGE)
  }

  /** The largest message that is accepted has 100000 bytes. */
  lemma LargestMessage(seqno: uint16, size: uint32, tail: seq<byte>)
    ensures TurnedDown(Header(seqno, size) + tail, 0) <==> size > 100000
  {
    var s := Header(seqno, size) + tail;
    HeaderReadsBack(seqno, size, tail);
    assert s[0..HEADER][3..7] == s[3..7];
  }

  /**
    Where the headers of a stream stand: each at the first start byte behind the one before,
    and all turned down but the last, which is accepted or broken off.
   */
  ghost predicate IsScan(s: seq<byte>, pos: nat, p: seq<nat>) {
    && pos <= |s| && |p| > 0 && p[0] == NextStart(s, pos)
    && (forall i :: 0 <= i < |p| - 1 ==> TurnedDown(s, p[i]) && p[i + 1] == NextStart(s, p[i] + HEADER))
    && !TurnedDown(s, p[|p| - 1])
  }

  /** The bytes of the size of a header that are in the stream. */
  function SizeBytes(s: seq<byte>, p: nat): (b: seq<byte>)
    ensures |b| <= 4
  {
    if |s| <= p + 3 then [] else if |s| < p + 7 then s[p + 3..] else s[p + 3..p + 7]
  }

  /** The last four size bytes in the stream, behind the four that the register starts with. */
  ghost function LastSize(old4: seq<byte>, s: seq<byte>, pos: nat, p: seq<nat>): (b: seq<byte>)
    requires |old4| == 4 && IsScan(s, pos, p)
    ensures |b| == 4
  {
    var n := |p|;
    var b := (if n == 1 then old4 else SizeBytes(s, p[n - 2])) + SizeBytes(s, p[n - 1]);
    b[|b| - 4..]
  }

  /** The stream ends before the header at a position, or before the frame that it announces. */
  predicate BreaksOff(s: seq<byte>, p: nat) {
    |s| < p + HEADER || |s| < p + HEADER + SizeOf(s[p..p + HEADER]) + 2
  }

  /** The value that the receiver returns. */
  function ReturnValue(r: Outcome): int {
    match r
    case Got(_, frame, _) => |frame| - HEADER - 2
    case BadCrc(_) => -1
    case TimedOut(rv) => rv
  }

  lemma {:induction false} ScanExists(s: seq<byte>, pos: nat) returns (p: seq<nat>)
    requires pos <= |s|
    ensures IsScan(s, pos, p)
    decreases |s| - pos
  {
    var start := NextStart(s, pos);
    p := [start];
    if TurnedDown(s, start) {
      var more := ScanExists(s, start + HEADER);
      p := [start] + more;
      ScanBefore(s, start, more, p);
    }
  }

  lemma ScanBefore(s: seq<byte>, start: nat, more: seq<nat>, p: seq<nat>)
    requires TurnedDown(s, start) && IsScan(s, start + HEADER, more) && p == [start] + more
    ensures forall i :: 0 <= i < |p| - 1 ==> TurnedDown(s, p[i]) && p[i + 1] == NextStart(s, p[i] + HEADER)
  {
    forall i | 0 <= i < |p| - 1
      ensures TurnedDown(s, p[i]) && p[i + 1] == NextStart(s, p[i] + HEADER)
    {
      if i > 0 {
        assert p[i] == more[i - 1] && p[i + 1] == more[i - 1 + 1];
      } else {
        assert p[1] == more[0];
      }
    }
  }

  /** What the receiver makes of the header at which a scan ends, with four bytes in its size register. */
  function EndMeaning(check: Check, s: seq<byte>, p: nat, size4: seq<byte>): Outcome
    requires |size4| == 4
  {
    if BreaksOff(s, p) then TimedOut(ToInt(B4ToU32(size4))) else ReceiveBody(check, s, p)
  }

  lemma LastHeader(check: Check, s: seq<byte>, pos: nat, old4: seq<byte>, p: seq<nat>)
    requires |old4| == 4 && IsScan(s, pos, p) && |p| == 1
    ensures Receive(check, s, pos, B4ToU32(old4)) == EndMeaning(check, s, p[0], LastSize(old4, s, pos, p))
  {
    var start := p[0];
    var b := old4 + SizeBytes(s, start);
    if |s| <= start + 3 {
      assert b == old4 && b[|b| - 4..] == old4;
      assert |s| == start + 3 ==> s[start + 3..] == [];
    } else if |s| < start + HEADER {
      assert SizeBytes(s, start) == s[start + 3..];
      RegisterHoldsLastFour(old4, s[start + 3..]);
    } else {
      SliceOfSlice(s, start, start + HEADER, 3, 7);
      assert s[start..start + HEADER][7] == s[start + 7];
      assert |b| == 8 && b[4..] == SizeBytes(s, start);
    }
  }

  /** A header that is turned down leaves its size in the register, and the scan goes on behind it. */
  lemma NextHeader(check: Check, s: seq<byte>, pos: nat, size: uint32, p: seq<nat>) returns (next: nat, size4: seq<byte>)
    requires IsScan(s, pos, p) && |p| > 1
    ensures next == p[0] + HEADER <= |s| && size4 == SizeBytes(s, p[0]) && |size4| == 4
    ensures IsScan(s, next, p[1..])
    ensures Receive(check, s, pos, size) == Receive(check, s, next, B4ToU32(size4))
  {
    next, size4 := p[0] + HEADER, SizeBytes(s, p[0]);
    var h := s[p[0]..next];
    assert h[7] == s[p[0] + 7];
    SliceOfSlice(s, p[0], next, 3, 7);
  }

  /** The scan tells what a stream means to the receiver. */
  lemma {:induction false} ScanDecides(check: Check, s: seq<byte>, pos: nat, old4: seq<byte>, p: seq<nat>)
    requires |old4| == 4 && IsScan(s, pos, p)
    ensures Receive(check, s, pos, B4ToU32(old4)) == EndMeaning(check, s, p[|p| - 1], LastSize(old4, s, pos, p))
    decreases |p|
  {
    if |p| == 1 {
      LastHeader(check, s, pos, old4, p);
    } else {
      var next, size4 := NextHeader(check, s, pos, B4ToU32(old4), p);
      ScanDecides(check, s, next, size4, p[1..]);
      assert LastSize(size4, s, next, p[1..]) == LastSize(old4, s, pos, p);
    }
  }

  lemma WholeBody(check: Check, s: seq<byte>, pos: nat, p: seq<nat>)
    requires IsScan(s, pos, p) && !BreaksOff(s, p[|p| - 1])
    ensures var r := ReceiveBody(check, s, p[|p| - 1]); var size := B4ToU32(LastSize([0, 0, 0, 0], s, pos, p));
      if size == 0 then r == TimedOut(0)
      else (r.Got? && |r.frame| == HEADER + size + 2) || r.BadCrc?
  {
    var last := p[|p| - 1];
    SliceOfSlice(s, last, last + HEADER, 3, 7);
    assert LastSize([0, 0, 0, 0], s, pos, p) == SizeBytes(s, last);
  }

  /**
    When a positive value comes back that no verified frame stands behind, over any stream:
    exactly when the stream breaks off in the header or the frame at which the scan ends,
    and the last four size bytes in it are a positive number.
   */
  lemma UnverifiedIffBreaksOff(check: Check, s: seq<byte>, pos: nat, p: seq<nat>)
    requires IsScan(s, pos, p)
    ensures var size := B4ToU32(LastSize([0, 0, 0, 0], s, pos, p));
      var r := Receive(check, s, pos, 0);
      && (ReturnValue(r) > 0 && !r.Got? <==> BreaksOff(s, p[|p| - 1]) && 0 < size < 0x8000_0000)
      && (ReturnValue(r) > 0 ==> ReturnValue(r) == size && (r.Got? <==> !BreaksOff(s, p[|p| - 1])))
  {
    ScanDecides(check, s, pos, [0, 0, 0, 0], p);
    if !BreaksOff(s, p[|p| - 1]) {
      WholeBody(check, s, pos, p);
    }
  }

  /** A header alone is enough for a positive return: the message has not come, and no CRC was seen. */
  lemma HeaderAloneReturnsItsSize(seqno: uint16, size: uint32)
    requires 1 <= size <= MAX_MESSAGE
    ensures Receive(GoodCrc, Header(seqno, size), 0, 0) == TimedOut(size)
  {
    var h := Header(seqno, size);
    HeaderReadsBack(seqno, size, []);
    assert h + [] == h && h[0..HEADER] == h;
    assert NextStart(h, 0) == 0;
  }

  // ---------- sending ----------

  method WriteHeader(buf: array<byte>, seqno: uint16, size: uint32)
    requires buf.Length >= HEADER
    modifies buf
    ensures buf[..HEADER] == Header(seqno, size)
  {
    var number, length := U16ToB2(seqno), U32ToB4(size);
    buf[0] := MESSAGE_START;
    buf[1], buf[2] := number[0], number[1];
    buf[3], buf[4], buf[5], buf[6] := length[0], length[1], length[2], length[3];
    buf[7] := TOKEN;
  }

  method CopyIn(buf: array<byte>, at: nat, message: seq<byte>)
    requires at + |message| <= buf.Length
    modifies buf
    ensures buf[..at + |message|] == old(buf[..at]) + message
  {
    for i := 0 to |message|
      invariant buf[..at + i] == old(buf[..at]) + message[..i]
    {
      buf[at + i] := message[i];
    }
  }

  /** Builds the frame of a command in a buffer, and sends it. */
  method SendFrame(command: seq<byte>, seqno: uint16) returns (wire: seq<byte>)
    requires |command| < 0x1_0000_0000
    ensures wire == Frame(seqno, command)
  {
    var buf := new byte[|command| + 10](_ => 0);
    WriteHeader(buf, seqno, |command|);
    CopyIn(buf, HEADER, command);
    CrcAppend(buf, |command| + HEADER);
    wire := buf[..];
    assert buf[..|command| + 10] == wire;
  }
}
