/**
  The receive automaton recvFrame of src/jtag2io.cc, byte by byte, on a stream that
  stands for the device; a read beyond its end is a timeout.
 */
module FrameReceiver {
  import opened Bytes
  import opened Crc16
  import opened Frames
  import opened Slices
  import opened Wrappers

  datatype State =
    | Start | Seqnum1 | Seqnum2 | Size1 | Size2 | Size3 | Size4 | Token | Data | Csum1 | Csum2 | Done

  /** How far into the header a state is. */
  function HeaderIndex(state: State): (k: nat)
    ensures k <= HEADER
  {
    match state
    case Start => 0 case Seqnum1 => 1 case Seqnum2 => 2 case Size1 => 3
    case Size2 => 4 case Size3 => 5 case Size4 => 6 case Token => 7
    case _ => 8
  }

  /** The size register after some header bytes: the old size, and the size bytes read so far. */
  function SizeSoFar(s: seq<byte>, at: nat, pos: nat, stale: uint32): uint32
    requires at <= pos <= |s|
  {
    if pos < at + 3 then stale else ShiftedAll(stale, s[at + 3..pos])
  }

  /** What the number register holds after some header bytes. */
  predicate NumberSoFar(s: seq<byte>, at: nat, pos: nat, seqno: uint16)
    requires at <= pos <= |s|
  {
    && (pos == at + 2 ==> seqno == s[at + 1])
    && (pos >= at + 3 ==> seqno == s[at + 1] as int + s[at + 2] as int * 0x100)
  }

  lemma SizeByte(s: seq<byte>, at: nat, pos: nat, stale: uint32)
    requires at + 3 <= pos < |s|
    ensures SizeSoFar(s, at, pos + 1, stale) == Shifted(SizeSoFar(s, at, pos, stale), s[pos])
  {
    SliceGrows(s, at + 3, pos);
    ShiftedOneMore(stale, s[at + 3..pos], s[pos]);
  }

  lemma WholeHeader(s: seq<byte>, at: nat, stale: uint32, seqno: uint16)
    requires at + HEADER <= |s| && NumberSoFar(s, at, at + HEADER, seqno)
    ensures SizeSoFar(s, at, at + 7, stale) == SizeOf(s[at..at + HEADER])
    ensures seqno == SeqnoOf(s[at..at + HEADER])
  {
    SliceOfSlice(s, at, at + HEADER, 1, 3);
    SliceOfSlice(s, at, at + HEADER, 3, 7);
    StaleSizeIsShiftedOut(stale, s[at + 3..at + 7]);
  }

  /** What a stream means once a good header for n bytes has been read at a position. */
  function BodyMeaning(check: Check, s: seq<byte>, at: nat, n: nat, seqno: uint16): Outcome {
    var end := at + HEADER + n + 2;
    if n == 0 then TimedOut(0)
    else if |s| < end then TimedOut(n)
    else if check(s[at..end]) then Got(seqno, s[at..end], end)
    else BadCrc(end)
  }

  lemma HeaderRejected(check: Check, s: seq<byte>, at: nat, stale: uint32, size: uint32)
    requires at + HEADER <= |s| && size == SizeOf(s[at..at + HEADER])
    requires s[at + 7] != TOKEN || size > MAX_MESSAGE
    ensures ReceiveHeader(check, s, at, stale) == Receive(check, s, at + HEADER, size)
  {
    assert s[at..at + HEADER][7] == s[at + 7];
  }

  lemma HeaderAccepted(check: Check, s: seq<byte>, at: nat, stale: uint32, size: uint32, seqno: uint16)
    requires at + HEADER <= |s| && size == SizeOf(s[at..at + HEADER]) && seqno == SeqnoOf(s[at..at + HEADER])
    requires s[at + 7] == TOKEN && size <= MAX_MESSAGE
    ensures ReceiveHeader(check, s, at, stale) == BodyMeaning(check, s, at, size, seqno)
  {
    assert s[at..at + HEADER][7] == s[at + 7];
  }

  lemma NoiseSkipped(check: Check, s: seq<byte>, pos: nat, size: uint32)
    requires pos < |s|
    ensures s[pos] != MESSAGE_START ==> Receive(check, s, pos, size) == Receive(check, s, pos + 1, size)
    ensures s[pos] == MESSAGE_START ==> Receive(check, s, pos, size) == ReceiveHeader(check, s, pos, size)
  {
  }

  lemma SilentInHeader(check: Check, s: seq<byte>, at: nat, stale: uint32)
    requires at < |s| < at + HEADER
    ensures ReceiveHeader(check, s, at, stale) == TimedOut(ToInt(SizeSoFar(s, at, |s|, stale)))
  {
    if |s| >= at + 3 {
      assert s[at + 3..|s|] == s[at + 3..];
    }
  }

  class Receiver {
    const stream: seq<byte>
    const header: array<byte>
    var pos: nat
    var state: State
    var headeridx: nat
    var msglen: uint32
    var seqno: uint16
    var buf: array<byte>
    var l: nat
    /** The verdict on a whole frame. */
    ghost const check: Check
    /** What the stream means from where the reception began. */
    ghost var goal: Outcome
    /** The start of the header being read, and the size that was there before. */
    ghost var at: nat
    ghost var stale: uint32

    /** The automaton between frames, or inside a header whose bytes it has copied. */
    ghost predicate InHeader()
      reads this, header
    {
      && header.Length == HEADER && pos <= |stream| && headeridx == HeaderIndex(state) < HEADER
      && (state != Start ==>
            && at + headeridx == pos && stream[at] == MESSAGE_START
            && header[..headeridx] == stream[at..pos]
            && msglen == SizeSoFar(stream, at, pos, stale) && NumberSoFar(stream, at, pos, seqno))
    }

    /** What is still to come decides the outcome. */
    ghost predicate HeaderGoal()
      reads this
    {
      && pos <= |stream|
      && if state == Start then goal == Receive(check, stream, pos, msglen)
         else at < |stream| && goal == ReceiveHeader(check, stream, at, stale)
    }

    /** A good header has been read; in the state Data nothing after it, else the message too. */
    ghost predicate InBody()
      reads this, buf
    {
      && at + HEADER <= pos <= |stream| && msglen <= MAX_MESSAGE && buf.Length == msglen + 10
      && match state {
           case Data => pos == at + HEADER && buf[..HEADER] == stream[at..pos]
           case Csum1 =>
             && msglen > 0 && l == msglen + HEADER
             && ((pos == at + l && buf[..l] == stream[at..pos]) || (pos == |stream| < at + l))
           case Csum2 => msglen > 0 && l == msglen + HEADER + 1 && pos == at + l && buf[..l] == stream[at..pos]
           case Done => msglen > 0 && pos == at + buf.Length && buf[..] == stream[at..pos] && check(buf[..])
           case _ => false
         }
    }

    ghost predicate BodyGoal()
      reads this
    {
      goal == BodyMeaning(check, stream, at, msglen, seqno)
    }

    constructor (stream: seq<byte>)
      ensures this.stream == stream && pos == 0 && header.Length == HEADER && fresh(header) && check == GoodCrc
    {
      this.stream := stream;
      check := GoodCrc;
      header := new byte[HEADER](_ => 0);
      pos := 0;
      state := Start;
      headeridx, msglen, seqno, l := 0, 0, 0, 0;
      buf := new byte[0];
      goal, at, stale := TimedOut(0), 0, 0;
    }

    // ---------- the header ----------

    /** The start byte, or noise before it. */
    method StartByte(c: byte)
      requires InHeader() && state == Start && pos < |stream| && c == stream[pos]
      modifies this, header
      ensures pos == old(pos) + 1 && goal == old(goal) && buf == old(buf) && msglen == old(msglen) && InHeader()
      ensures if c == MESSAGE_START then state != Start && at == old(pos) && stale == msglen else state == Start
    {
      header[headeridx] := c;
      assert header[..1] == [c];
      headeridx := headeridx + 1;
      pos := pos + 1;
      if c == MESSAGE_START {
        state := Seqnum1;
        at, stale := pos - 1, msglen;
      } else {
        headeridx := 0;
      }
    }

    /** A byte of the sequence number. */
    method NumberByte(c: byte)
      requires InHeader() && (state == Seqnum1 || state == Seqnum2) && pos < |stream| && c == stream[pos]
      modifies this, header
      ensures pos == old(pos) + 1 && goal == old(goal) && buf == old(buf) && at == old(at) && stale == old(stale)
      ensures InHeader() && state != Start
    {
      SliceGrows(stream, at, pos);
      ghost var copied := header[..headeridx];
      header[headeridx] := c;
      assert header[..headeridx + 1] == copied + [c];
      headeridx := headeridx + 1;
      pos := pos + 1;
      if state == Seqnum1 {
        seqno := c;
        state := Seqnum2;
      } else {
        seqno := seqno + c * 0x100;
        state := Size1;
      }
    }

    /** A byte of the message size: the register shifts it in. */
    method LengthByte(c: byte)
      requires InHeader() && 3 <= HeaderIndex(state) <= 6 && pos < |stream| && c == stream[pos]
      modifies this, header
      ensures pos == old(pos) + 1 && goal == old(goal) && buf == old(buf) && at == old(at) && stale == old(stale)
      ensures InHeader() && state != Start
    {
      SizeByte(stream, at, pos, stale);
      SliceGrows(stream, at, pos);
      ghost var copied := header[..headeridx];
      header[headeridx] := c;
      assert header[..headeridx + 1] == copied + [c];
      headeridx := headeridx + 1;
      pos := pos + 1;
      state :=
        match state
        case Size1 => Size2
        case Size2 => Size3
        case Size3 => Size4
        case _ => Token;
      msglen := Shifted(msglen, c);
    }

    /** The last byte of the header: it has been copied, and its registers are complete. */
    method LastByte(c: byte)
      requires InHeader() && state == Token && pos < |stream| && c == stream[pos]
      modifies this`pos, this`headeridx, header
      ensures pos == old(pos) + 1 == at + HEADER && header[..] == stream[at..pos]
      ensures msglen == SizeOf(stream[at..pos]) && seqno == SeqnoOf(stream[at..pos]) && c == stream[at + 7]
    {
      WholeHeader(stream, at, stale, seqno);
      SliceGrows(stream, at, pos);
      ghost var copied := header[..headeridx];
      header[headeridx] := c;
      assert header[..] == copied + [c];
      headeridx := headeridx + 1;
      pos := pos + 1;
    }

    /** A new buffer that starts with the header. */
    method CopyHeader(size: nat) returns (copy: array<byte>)
      requires header.Length == HEADER
      ensures fresh(copy) && copy.Length == size + 10 && copy[..HEADER] == header[..]
    {
      copy := new byte[size + 10](_ => 0);
      forall i | 0 <= i < HEADER {
        copy[i] := header[i];
      }
    }

    /** The token decides whether a message follows. */
    method TokenByte(c: byte)
      requires InHeader() && HeaderGoal() && state == Token && pos < |stream| && c == stream[pos]
      modifies this, header
      ensures pos == old(pos) + 1 && goal == old(goal)
      ensures if state == Start then InHeader() && HeaderGoal() && buf == old(buf)
              else state == Data && InBody() && BodyGoal() && fresh(buf)
    {
      LastByte(c);
      if c == TOKEN {
        state := Data;
        if msglen > MAX_MESSAGE {
          HeaderRejected(check, stream, at, stale, msglen);
          state := Start;
          headeridx := 0;
        } else {
          HeaderAccepted(check, stream, at, stale, msglen, seqno);
          buf := CopyHeader(msglen);
        }
      } else {
        HeaderRejected(check, stream, at, stale, msglen);
        state := Start;
        headeridx := 0;
      }
    }

    /** One byte in a state before the message. */
    method HeaderByte()
      requires InHeader() && HeaderGoal() && pos < |stream|
      modifies this, header
      ensures pos == old(pos) + 1 && goal == old(goal)
      ensures if HeaderIndex(state) < HEADER then InHeader() && HeaderGoal()
              else state == Data && InBody() && BodyGoal() && fresh(buf)
    {
      var c := stream[pos];
      if state == Start {
        NoiseSkipped(check, stream, pos, msglen);
        StartByte(c);
      } else if state == Seqnum1 || state == Seqnum2 {
        NumberByte(c);
      } else if state == Token {
        TokenByte(c);
      } else {
        LengthByte(c);
      }
    }

    // ---------- the message and its CRC ----------

    /** Reads the message in one go; false when nothing at all came. */
    method DataBlock() returns (some: bool)
      requires InBody() && state == Data
      modifies this`pos, this`l, this`state, buf
      ensures pos >= old(pos)
      ensures some ==> InBody() && state == Csum1 && pos > old(pos)
      ensures !some ==> msglen == 0 || pos == |stream| == at + HEADER
    {
      var n := if |stream| - pos < msglen then |stream| - pos else msglen;
      ghost var copied := buf[..HEADER];
      forall i | 0 <= i < n {
        buf[HEADER + i] := stream[pos + i];
      }
      assert buf[..HEADER + n] == copied + stream[pos..pos + n];
      assert stream[at..pos + n] == stream[at..pos] + stream[pos..pos + n];
      pos := pos + n;
      l := msglen + HEADER;
      state := Csum1;
      some := n != 0;
    }

    /** The first CRC byte. */
    method Csum1Byte(c: byte)
      requires InBody() && state == Csum1 && pos < |stream| && c == stream[pos]
      modifies this`pos, this`l, this`state, buf
      ensures pos == old(pos) + 1 && InBody() && state == Csum2
    {
      SliceGrows(stream, at, pos);
      ghost var copied := buf[..l];
      buf[l] := c;
      assert buf[..l + 1] == copied + [c];
      l := l + 1;
      pos := pos + 1;
      state := Csum2;
    }

    /** The last byte makes the frame whole. */
    method StoreLast(c: byte)
      requires InBody() && state == Csum2 && pos < |stream| && c == stream[pos]
      modifies this`pos, this`l, buf
      ensures pos == old(pos) + 1 == at + HEADER + msglen + 2 && buf[..] == stream[at..pos]
    {
      ghost var copied := buf[..l];
      SliceGrows(stream, at, pos);
      buf[l] := c;
      assert buf[..] == copied + [c];
      l := l + 1;
      pos := pos + 1;
    }

    /** The second CRC byte, and the verdict. */
    method Csum2Byte(c: byte) returns (good: bool)
      requires InBody() && state == Csum2 && pos < |stream| && c == stream[pos] && check == GoodCrc
      modifies this`pos, this`l, this`state, buf
      ensures pos == old(pos) + 1 == at + HEADER + msglen + 2 && buf[..] == stream[at..pos] && msglen > 0
      ensures good <==> check(buf[..])
      ensures good ==> state == Done && InBody()
    {
      StoreLast(c);
      good := CrcVerify(buf, msglen + 10);
      assert buf[..msglen + 10] == buf[..];
      assert check(buf[..]) == GoodCrc(buf[..]);
      if good {
        state := Done;
      }
    }

    // ---------- reception ----------

    /** Silence: the outcome is what the size register holds. */
    lemma Silence()
      requires pos == |stream|
      requires if HeaderIndex(state) < HEADER then InHeader() && HeaderGoal()
               else InBody() && BodyGoal() && (state == Csum1 || state == Csum2)
      ensures goal == TimedOut(ToInt(msglen))
    {
      if HeaderIndex(state) < HEADER && state != Start {
        SilentInHeader(check, stream, at, stale);
      }
    }

    /** What is known between two turns of the loop. */
    ghost predicate Running()
      reads this, header, buf
    {
      if HeaderIndex(state) < HEADER then InHeader() && HeaderGoal() else InBody() && BodyGoal()
    }

    /** What a reception that has ended with a value has to show. */
    ghost predicate Ended(rv: int)
      reads this, buf
    {
      && rv == ReturnValue(goal)
      && (goal.Got? ==> buf[..] == goal.frame && seqno == goal.seqno && pos == goal.next)
      && (goal.BadCrc? ==> pos == goal.next)
    }

    /** A whole frame that fails its check is what the stream meant. */
    lemma FailedIsEnded()
      requires at + HEADER + msglen + 2 == pos <= |stream| && buf[..] == stream[at..pos] && msglen > 0
      requires BodyGoal() && !check(buf[..])
      ensures Ended(-1)
    {
    }

    /** The turn of the second CRC byte. */
    method VerdictTurn() returns (good: bool)
      requires InBody() && BodyGoal() && state == Csum2 && pos < |stream| && check == GoodCrc
      modifies this`pos, this`l, this`state, buf
      ensures pos == old(pos) + 1
      ensures good ==> InBody() && BodyGoal() && state == Done
      ensures !good ==> Ended(-1)
    {
      good := Csum2Byte(stream[pos]);
      if !good {
        FailedIsEnded();
      }
    }

    /** One turn in the states of the message: None to go on, else the value to return. */
    method BodyTurn() returns (verdict: Option<int>)
      requires Running() && HeaderIndex(state) == HEADER && state != Done && check == GoodCrc
      modifies this`pos, this`l, this`state, buf
      ensures verdict == None ==> Running() && HeaderIndex(state) == HEADER && (pos > old(pos) || state == Done)
      ensures verdict.Some? ==> Ended(verdict.value)
    {
      if state == Data {
        var some := DataBlock();
        return if some then None else Some(ToInt(msglen));
      }
      if pos == |stream| {
        Silence();
        return Some(ToInt(msglen));
      }
      if state == Csum1 {
        Csum1Byte(stream[pos]);
      } else {
        var good := VerdictTurn();
        if !good {
          return Some(-1);
        }
      }
      return None;
    }

    /** A finished frame is what the stream meant. */
    lemma DoneIsEnded()
      requires state == Done && InBody() && BodyGoal()
      ensures Ended(msglen)
    {
    }

    /** The loop of the automaton. */
    method RunToEnd() returns (rv: int)
      requires state == Start && Running() && check == GoodCrc
      modifies this, header
      ensures goal == old(goal) && Ended(rv)
    {
      while state != Done
        invariant goal == old(goal) && Running() && pos <= |stream|
        invariant HeaderIndex(state) == HEADER ==> fresh(buf)
        decreases |stream| - pos, state != Done
      {
        if HeaderIndex(state) == HEADER {
          var verdict := BodyTurn();
          if verdict.Some? {
            return verdict.value;
          }
        } else if pos == |stream| {
          Silence();
          return ToInt(msglen);
        } else {
          HeaderByte();
        }
      }
      DoneIsEnded();
      rv := msglen;
    }

    /**
      Receives one frame. The result is the length of the message, -1 for a bad CRC, or what
      the size register holds when the stream falls silent.
     */
    method RecvFrame() returns (rv: int)
      requires header.Length == HEADER && pos <= |stream| && check == GoodCrc
      modifies this, header
      ensures var meaning := Receive(GoodCrc, stream, old(pos), 0);
        && rv == ReturnValue(meaning)
        && (meaning.Got? ==> buf[..] == meaning.frame && seqno == meaning.seqno && pos == meaning.next)
        && (meaning.BadCrc? ==> pos == meaning.next)
    {
      state, headeridx, msglen, seqno := Start, 0, 0, 0;
      goal := Receive(check, stream, pos, 0);
      rv := RunToEnd();
    }
  }
}
