/**
  The CRC of src/crc16.c: the lookup table, the loop over a message, the
  check and the append; beside them the bit-serial CRC that the table stands for.
 */
module Crc16 {
  import opened Bytes

  // ---------- the bit-serial reference ----------

  /** Exclusive or, under a name that lemmas can carry through a proof. */
  function Xor(a: bv16, b: bv16): bv16 {
    a ^ b
  }

  /** One shift of the reflected CRC register with polynomial 0x8408. */
  function ShiftBit(s: bv16): bv16 {
    if s & 1 == 1 then (s >> 1) ^ 0x8408 else s >> 1
  }

  /** The register after a number of shifts with no input. */
  function Steps(s: bv16, n: nat): bv16
    decreases n
  {
    if n == 0 then s else Steps(ShiftBit(s), n - 1)
  }

  function Bit(b: bool): bv16 {
    if b then 1 else 0
  }

  /** The register after clocking in a bit stream, first bit first. */
  function Serial(s: bv16, bits: seq<bool>): bv16
    decreases |bits|
  {
    if |bits| == 0 then s else Serial(ShiftBit(Xor(s, Bit(bits[0]))), bits[1..])
  }

  /** The low n bits of a value, lowest first: the order in which the register takes them. */
  function BitsOf(c: bv16, n: nat): (bits: seq<bool>)
    ensures |bits| == n
    decreases n
  {
    if n == 0 then [] else [c & 1 == 1] + BitsOf(c >> 1, n - 1)
  }

  function ToBits(c: byte): bv8 {
    c as bv8
  }

  function ToByte(b: bv8): byte {
    b as int
  }

  /** A byte as the register takes it. */
  function Octet(c: byte): bv16 {
    ToBits(c) as bv16
  }

  function ByteBits(c: byte): (bits: seq<bool>)
    ensures |bits| == 8
  {
    BitsOf(Octet(c), 8)
  }

  /** The pieces that a function makes of the bytes of a message, eight items each, end to end. */
  function Spread<T>(f: byte -> seq<T>, m: seq<byte>): (bits: seq<T>)
    requires forall c: byte :: |f(c)| == 8
    ensures |bits| == 8 * |m|
  {
    if |m| == 0 then [] else Spread(f, m[..|m| - 1]) + f(m[|m| - 1])
  }

  /** The bit stream of a message. */
  function Stream(m: seq<byte>): (bits: seq<bool>)
    ensures |bits| == 8 * |m|
  {
    Spread(ByteBits, m)
  }

  // ---------- the table ----------

  /** One line of sixteen entries of the table. */
  datatype Row<T> = Row(t0: T, t1: T, t2: T, t3: T, t4: T, t5: T, t6: T, t7: T,
                        t8: T, t9: T, tA: T, tB: T, tC: T, tD: T, tE: T, tF: T)
  {
    function At(column: bv8): T {
      match column
      case 0 => t0 case 1 => t1 case 2 => t2 case 3 => t3
      case 4 => t4 case 5 => t5 case 6 => t6 case 7 => t7
      case 8 => t8 case 9 => t9 case 10 => tA case 11 => tB
      case 12 => tC case 13 => tD case 14 => tE case _ => tF
    }

    function Map(f: T -> T): Row<T> {
      Row(f(t0), f(t1), f(t2), f(t3), f(t4), f(t5), f(t6), f(t7),
          f(t8), f(t9), f(tA), f(tB), f(tC), f(tD), f(tE), f(tF))
    }

    lemma MapAt(f: T -> T, column: bv8)
      ensures Map(f).At(column) == f(At(column))
    {
    }
  }

  const ROW_0: Row<bv16> :=
    Row(0x0000, 0x1189, 0x2312, 0x329b, 0x4624, 0x57ad, 0x6536, 0x74bf,
        0x8c48, 0x9dc1, 0xaf5a, 0xbed3, 0xca6c, 0xdbe5, 0xe97e, 0xf8f7)
  const ROW_1: Row<bv16> :=
    Row(0x1081, 0x0108, 0x3393, 0x221a, 0x56a5, 0x472c, 0x75b7, 0x643e,
        0x9cc9, 0x8d40, 0xbfdb, 0xae52, 0xdaed, 0xcb64, 0xf9ff, 0xe876)
  const ROW_2: Row<bv16> :=
    Row(0x2102, 0x308b, 0x0210, 0x1399, 0x6726, 0x76af, 0x4434, 0x55bd,
        0xad4a, 0xbcc3, 0x8e58, 0x9fd1, 0xeb6e, 0xfae7, 0xc87c, 0xd9f5)
  const ROW_3: Row<bv16> :=
    Row(0x3183, 0x200a, 0x1291, 0x0318, 0x77a7, 0x662e, 0x54b5, 0x453c,
        0xbdcb, 0xac42, 0x9ed9, 0x8f50, 0xfbef, 0xea66, 0xd8fd, 0xc974)
  const ROW_4: Row<bv16> :=
    Row(0x4204, 0x538d, 0x6116, 0x709f, 0x0420, 0x15a9, 0x2732, 0x36bb,
        0xce4c, 0xdfc5, 0xed5e, 0xfcd7, 0x8868, 0x99e1, 0xab7a, 0xbaf3)
  const ROW_5: Row<bv16> :=
    Row(0x5285, 0x430c, 0x7197, 0x601e, 0x14a1, 0x0528, 0x37b3, 0x263a,
        0xdecd, 0xcf44, 0xfddf, 0xec56, 0x98e9, 0x8960, 0xbbfb, 0xaa72)
  const ROW_6: Row<bv16> :=
    Row(0x6306, 0x728f, 0x4014, 0x519d, 0x2522, 0x34ab, 0x0630, 0x17b9,
        0xef4e, 0xfec7, 0xcc5c, 0xddd5, 0xa96a, 0xb8e3, 0x8a78, 0x9bf1)
  const ROW_7: Row<bv16> :=
    Row(0x7387, 0x620e, 0x5095, 0x411c, 0x35a3, 0x242a, 0x16b1, 0x0738,
        0xffcf, 0xee46, 0xdcdd, 0xcd54, 0xb9eb, 0xa862, 0x9af9, 0x8b70)
  const ROW_8: Row<bv16> :=
    Row(0x8408, 0x9581, 0xa71a, 0xb693, 0xc22c, 0xd3a5, 0xe13e, 0xf0b7,
        0x0840, 0x19c9, 0x2b52, 0x3adb, 0x4e64, 0x5fed, 0x6d76, 0x7cff)
  const ROW_9: Row<bv16> :=
    Row(0x9489, 0x8500, 0xb79b, 0xa612, 0xd2ad, 0xc324, 0xf1bf, 0xe036,
        0x18c1, 0x0948, 0x3bd3, 0x2a5a, 0x5ee5, 0x4f6c, 0x7df7, 0x6c7e)
  const ROW_A: Row<bv16> :=
    Row(0xa50a, 0xb483, 0x8618, 0x9791, 0xe32e, 0xf2a7, 0xc03c, 0xd1b5,
        0x2942, 0x38cb, 0x0a50, 0x1bd9, 0x6f66, 0x7eef, 0x4c74, 0x5dfd)
  const ROW_B: Row<bv16> :=
    Row(0xb58b, 0xa402, 0x9699, 0x8710, 0xf3af, 0xe226, 0xd0bd, 0xc134,
        0x39c3, 0x284a, 0x1ad1, 0x0b58, 0x7fe7, 0x6e6e, 0x5cf5, 0x4d7c)
  const ROW_C: Row<bv16> :=
    Row(0xc60c, 0xd785, 0xe51e, 0xf497, 0x8028, 0x91a1, 0xa33a, 0xb2b3,
        0x4a44, 0x5bcd, 0x6956, 0x78df, 0x0c60, 0x1de9, 0x2f72, 0x3efb)
  const ROW_D: Row<bv16> :=
    Row(0xd68d, 0xc704, 0xf59f, 0xe416, 0x90a9, 0x8120, 0xb3bb, 0xa232,
        0x5ac5, 0x4b4c, 0x79d7, 0x685e, 0x1ce1, 0x0d68, 0x3ff3, 0x2e7a)
  const ROW_E: Row<bv16> :=
    Row(0xe70e, 0xf687, 0xc41c, 0xd595, 0xa12a, 0xb0a3, 0x8238, 0x93b1,
        0x6b46, 0x7acf, 0x4854, 0x59dd, 0x2d62, 0x3ceb, 0x0e70, 0x1ff9)
  const ROW_F: Row<bv16> :=
    Row(0xf78f, 0xe606, 0xd49d, 0xc514, 0xb1ab, 0xa022, 0x92b9, 0x8330,
        0x7bc7, 0x6a4e, 0x58d5, 0x495c, 0x3de3, 0x2c6a, 0x1ef1, 0x0f78)
  function TableRow(line: bv8): Row<bv16> {
    match line
    case 0 => ROW_0 case 1 => ROW_1 case 2 => ROW_2 case 3 => ROW_3
    case 4 => ROW_4 case 5 => ROW_5 case 6 => ROW_6 case 7 => ROW_7
    case 8 => ROW_8 case 9 => ROW_9 case 10 => ROW_A case 11 => ROW_B
    case 12 => ROW_C case 13 => ROW_D case 14 => ROW_E case _ => ROW_F
  }

  /** The table entry at an index. */
  function CrcTable(i: bv8): bv16 {
    TableRow(i >> 4).At(i & 0xf)
  }

  // ---------- the program's CRC ----------

  const CRC_INIT: bv16 := 0xffff

  /** The CRC macro: the register after one message byte. */
  function Feed(crc: bv16, c: byte): bv16 {
    Xor(crc >> 8, CrcTable((Xor(crc, Octet(c)) & 0xff) as bv8))
  }

  /** The register after a message. */
  function Crc(m: seq<byte>, crc: bv16): bv16 {
    if |m| == 0 then crc else Feed(Crc(m[..|m| - 1], crc), m[|m| - 1])
  }

  /** The two bytes under which a CRC is sent. */
  function CrcBytes(crc: bv16): seq<byte> {
    [ToByte((crc & 0xff) as bv8), ToByte(((crc >> 8) & 0xff) as bv8)]
  }


  // ---------- the register is linear, and a bijection ----------

  lemma XorGroup(s: bv16, t: bv16, u: bv16)
    ensures Xor(Xor(s, t), u) == Xor(s, Xor(t, u))
    ensures Xor(s, t) == Xor(t, s)
    ensures Xor(s, 0) == s && Xor(s, s) == 0
  {
  }

  lemma XorCancel(s: bv16, t: bv16, u: bv16)
    requires Xor(s, t) == Xor(s, u)
    ensures t == u
  {
    XorGroup(s, s, t);
    XorGroup(s, s, u);
    XorGroup(t, 0, 0);
    XorGroup(u, 0, 0);
  }

  lemma XorLowBit(s: bv16, t: bv16)
    ensures (s ^ t) & 1 == (s & 1) ^ (t & 1)
  {
  }

  lemma XorHalf(s: bv16, t: bv16)
    ensures (s ^ t) >> 1 == (s >> 1) ^ (t >> 1)
  {
  }

  lemma LinearEven(s: bv16, t: bv16)
    requires s & 1 == 0 && t & 1 == 0
    ensures ShiftBit(Xor(s, t)) == Xor(ShiftBit(s), ShiftBit(t))
  {
    XorLowBit(s, t);
    XorHalf(s, t);
  }

  lemma LinearMixed(s: bv16, t: bv16)
    requires s & 1 == 1 && t & 1 == 0
    ensures ShiftBit(Xor(s, t)) == Xor(ShiftBit(s), ShiftBit(t))
  {
    XorLowBit(s, t);
    XorHalf(s, t);
  }

  lemma LinearOdd(s: bv16, t: bv16)
    requires s & 1 == 1 && t & 1 == 1
    ensures ShiftBit(Xor(s, t)) == Xor(ShiftBit(s), ShiftBit(t))
  {
    XorLowBit(s, t);
    XorHalf(s, t);
  }

  lemma XorCommutes(s: bv16, t: bv16)
    ensures Xor(s, t) == Xor(t, s)
  {
  }

  lemma LowBit(s: bv16)
    ensures s & 1 == 0 || s & 1 == 1
  {
  }

  lemma ShiftBitLinear(s: bv16, t: bv16)
    ensures ShiftBit(Xor(s, t)) == Xor(ShiftBit(s), ShiftBit(t))
  {
    LowBit(s);
    LowBit(t);
    if s & 1 == 0 && t & 1 == 0 {
      LinearEven(s, t);
    } else if s & 1 == 1 && t & 1 == 1 {
      LinearOdd(s, t);
    } else if s & 1 == 1 {
      LinearMixed(s, t);
    } else {
      XorCommutes(s, t);
      XorCommutes(ShiftBit(s), ShiftBit(t));
      LinearMixed(t, s);
    }
  }

  lemma ShiftBitInjective(s: bv16, t: bv16)
    ensures ShiftBit(s) == ShiftBit(t) ==> s == t
  {
  }

  /** The register is linear: a difference in its state runs through on its own. */
  lemma {:induction false} StepsLinear(s: bv16, t: bv16, n: nat)
    ensures Steps(Xor(s, t), n) == Xor(Steps(s, n), Steps(t, n))
    decreases n
  {
    if n > 0 {
      ShiftBitLinear(s, t);
      StepsLinear(ShiftBit(s), ShiftBit(t), n - 1);
    }
  }

  /** No number of shifts makes two states one. */
  lemma {:induction false} StepsInjective(s: bv16, t: bv16, n: nat)
    requires s != t
    ensures Steps(s, n) != Steps(t, n)
    decreases n
  {
    if n > 0 {
      ShiftBitInjective(s, t);
      StepsInjective(ShiftBit(s), ShiftBit(t), n - 1);
    }
  }

  lemma {:induction false} SerialInjective(s: bv16, t: bv16, bits: seq<bool>)
    requires s != t
    ensures Serial(s, bits) != Serial(t, bits)
    decreases |bits|
  {
    if |bits| > 0 {
      var b := Bit(bits[0]);
      if Xor(s, b) == Xor(t, b) {
        XorGroup(s, b, 0);
        XorGroup(t, b, 0);
        XorCancel(b, s, t);
      }
      ShiftBitInjective(Xor(s, b), Xor(t, b));
      SerialInjective(ShiftBit(Xor(s, b)), ShiftBit(Xor(t, b)), bits[1..]);
    }
  }

  lemma {:induction false} SerialConcat(s: bv16, a: seq<bool>, b: seq<bool>)
    ensures Serial(s, a + b) == Serial(Serial(s, a), b)
    decreases |a|
  {
    if |a| == 0 {
      assert a + b == b;
    } else {
      assert (a + b)[1..] == a[1..] + b;
      SerialConcat(ShiftBit(Xor(s, Bit(a[0]))), a[1..], b);
    }
  }

  // ---------- the table is eight serial shifts ----------

  function Shift8(s: bv16): bv16 {
    ShiftBit(ShiftBit(ShiftBit(ShiftBit(ShiftBit(ShiftBit(ShiftBit(ShiftBit(s))))))))
  }

  function AddTo(base: bv16): bv16 -> bv16 {
    x => Xor(base, x)
  }

  function Plus(base: bv16, r: Row<bv16>): Row<bv16> {
    Row(base ^ r.t0, base ^ r.t1, base ^ r.t2, base ^ r.t3, base ^ r.t4, base ^ r.t5, base ^ r.t6, base ^ r.t7,
        base ^ r.t8, base ^ r.t9, base ^ r.tA, base ^ r.tB, base ^ r.tC, base ^ r.tD, base ^ r.tE, base ^ r.tF)
  }

  lemma PlusIsMap(base: bv16, r: Row<bv16>)
    ensures Plus(base, r) == r.Map(AddTo(base))
  {
  }

  lemma FirstRowsRepeat(line: bv8)
    requires line < 4
    ensures TableRow(line) == Plus(TableRow(line).t0, ROW_0)
  {
    match line {
      case 0 => case 1 => case 2 =>
      case _ => assert line == 3;
    }
  }

  lemma SecondRowsRepeat(line: bv8)
    requires 4 <= line < 8
    ensures TableRow(line) == Plus(TableRow(line).t0, ROW_0)
  {
    match line {
      case 4 => case 5 => case 6 =>
      case _ => assert line == 7;
    }
  }

  lemma ThirdRowsRepeat(line: bv8)
    requires 8 <= line < 12
    ensures TableRow(line) == Plus(TableRow(line).t0, ROW_0)
  {
    match line {
      case 8 => case 9 => case 10 =>
      case _ => assert line == 11;
    }
  }

  lemma FourthRowsRepeat(line: bv8)
    requires 12 <= line < 16
    ensures TableRow(line) == Plus(TableRow(line).t0, ROW_0)
  {
    match line {
      case 12 => case 13 => case 14 =>
      case _ => assert line == 15;
    }
  }

  /** Every row is the first one with the row's first entry added. */
  lemma RowsRepeat(line: bv8)
    requires line < 16
    ensures TableRow(line) == Plus(TableRow(line).t0, ROW_0)
  {
    if line < 4 {
      FirstRowsRepeat(line);
    } else if line < 8 {
      SecondRowsRepeat(line);
    } else if line < 12 {
      ThirdRowsRepeat(line);
    } else {
      FourthRowsRepeat(line);
    }
  }

  lemma FirstColumn(line: bv8)
    requires line < 16
    ensures TableRow(line).t0 == Shift8((line as bv16) << 4)
  {
    match line {
      case 0 => case 1 => case 2 => case 3 => case 4 => case 5 => case 6 => case 7 =>
      case 8 => case 9 => case 10 => case 11 => case 12 => case 13 => case 14 =>
      case _ => assert line == 15;
    }
  }

  lemma FirstRow(column: bv8)
    requires column < 16
    ensures ROW_0.At(column) == Shift8(column as bv16)
  {
    match column {
      case 0 => case 1 => case 2 => case 3 => case 4 => case 5 => case 6 => case 7 =>
      case 8 => case 9 => case 10 => case 11 => case 12 => case 13 => case 14 =>
      case _ => assert column == 15;
    }
  }

  lemma Nibbles(i: bv8)
    ensures i >> 4 < 16 && i & 0xf < 16
    ensures (((i >> 4) as bv16) << 4) ^ ((i & 0xf) as bv16) == i as bv16
  {
  }

  /** Each of the 256 table entries is eight bit-serial shifts of its index. */
  lemma TableIsSerial(i: bv8)
    ensures CrcTable(i) == Shift8(i as bv16)
  {
    var line, column := i >> 4, i & 0xf;
    Nibbles(i);
    RowsRepeat(line);
    PlusIsMap(TableRow(line).t0, ROW_0);
    ROW_0.MapAt(AddTo(TableRow(line).t0), column);
    FirstColumn(line);
    FirstRow(column);
    Shift8Linear((line as bv16) << 4, column as bv16);
  }

  lemma Shift8IsSteps(s: bv16)
    ensures Shift8(s) == Steps(s, 8)
  {
  }

  lemma Shift8Linear(s: bv16, t: bv16)
    ensures Shift8(Xor(s, t)) == Xor(Shift8(s), Shift8(t))
  {
    Shift8IsSteps(s);
    Shift8IsSteps(t);
    Shift8IsSteps(Xor(s, t));
    StepsLinear(s, t, 8);
  }

  // ---------- a window of at most sixteen bits is one state ----------

  /** At most sixteen bits as a register value, first bit lowest. */
  function Window(bits: seq<bool>): bv16
    decreases |bits|
  {
    if |bits| == 0 then 0 else Push(bits[0], Window(bits[1..]))
  }

  function Push(b: bool, w: bv16): bv16 {
    Xor(Bit(b), w << 1)
  }

  /** Bound on the value of a window: the bits above its length are zero. */
  predicate Fits(c: bv16, n: nat)
    decreases n
  {
    if n == 0 then c == 0 else Fits(c >> 1, n - 1)
  }

  lemma DoubleEven(w: bv16)
    requires w < 0x8000
    ensures (w << 1) >> 1 == w && (w << 1) & 1 == 0 && Xor(0, w << 1) == w << 1
  {
  }

  lemma DoubleOdd(w: bv16)
    requires w < 0x8000
    ensures Xor(1, w << 1) >> 1 == w && Xor(1, w << 1) & 1 == 1
  {
  }

  lemma DoubleHalf(b: bool, w: bv16)
    requires w < 0x8000
    ensures Push(b, w) >> 1 == w
    ensures (Push(b, w) & 1 == 1) == b
    ensures ShiftBit(w << 1) == w
  {
    DoubleEven(w);
    if b {
      DoubleOdd(w);
      assert Bit(b) == 1;
    } else {
      assert Bit(b) == 0;
    }
  }

  lemma {:induction false} FitsMeans(c: bv16, n: nat)
    requires Fits(c, n) && n <= 15
    ensures c < 0x8000
  {
    FitsWider(c, n, 15);
    FitsFifteen(c);
  }

  lemma FitsFifteen(c: bv16)
    requires Fits(c, 15)
    ensures c < 0x8000
  {
  }

  lemma {:induction false} FitsWider(c: bv16, n: nat, m: nat)
    requires Fits(c, n) && n <= m
    ensures Fits(c, m)
    decreases m
  {
    if n > 0 {
      FitsWider(c >> 1, n - 1, m - 1);
    } else if m > 0 {
      assert (0 as bv16) >> 1 == 0;
      FitsWider(0, 0, m - 1);
    }
  }

  lemma PushFits(b: bool, w: bv16, n: nat)
    requires Fits(w, n) && n <= 15
    ensures w < 0x8000 && Fits(Push(b, w), n + 1)
  {
    FitsMeans(w, n);
    DoubleHalf(b, w);
  }

  lemma {:induction false} WindowFits(bits: seq<bool>)
    requires |bits| <= 16
    ensures Fits(Window(bits), |bits|)
    decreases |bits|
  {
    if |bits| == 0 {
    } else {
      var w := Window(bits[1..]);
      WindowFits(bits[1..]);
      PushFits(bits[0], w, |bits| - 1);
      assert Window(bits) == Push(bits[0], w);
    }
  }

  lemma PushStep(s: bv16, b: bool, w: bv16)
    requires w < 0x8000
    ensures ShiftBit(Xor(s, Push(b, w))) == Xor(ShiftBit(Xor(s, Bit(b))), w)
  {
    XorGroup(s, Bit(b), w << 1);
    ShiftBitLinear(Xor(s, Bit(b)), w << 1);
    DoubleHalf(b, w);
  }

  /** Clocking in a window is adding it to the register and shifting. */
  lemma {:induction false} SerialWindow(s: bv16, bits: seq<bool>)
    requires |bits| <= 16
    ensures Serial(s, bits) == Steps(Xor(s, Window(bits)), |bits|)
    decreases |bits|
  {
    if |bits| == 0 {
      XorGroup(s, 0, 0);
    } else {
      var w := Window(bits[1..]);
      WindowFits(bits[1..]);
      PushFits(bits[0], w, |bits| - 1);
      PushStep(s, bits[0], w);
      SerialWindow(ShiftBit(Xor(s, Bit(bits[0]))), bits[1..]);
    }
  }

  lemma PushInjective(b: bool, w: bv16, c: bool, v: bv16)
    requires w < 0x8000 && v < 0x8000 && Push(b, w) == Push(c, v)
    ensures b == c && w == v
  {
    DoubleHalf(b, w);
    DoubleHalf(c, v);
  }

  lemma {:induction false} WindowInjective(x: seq<bool>, y: seq<bool>)
    requires |x| == |y| <= 16 && Window(x) == Window(y)
    ensures x == y
    decreases |x|
  {
    if |x| > 0 {
      WindowFits(x[1..]);
      WindowFits(y[1..]);
      FitsMeans(Window(x[1..]), |x| - 1);
      FitsMeans(Window(y[1..]), |y| - 1);
      PushInjective(x[0], Window(x[1..]), y[0], Window(y[1..]));
      WindowInjective(x[1..], y[1..]);
      assert x == [x[0]] + x[1..] && y == [y[0]] + y[1..];
    }
  }

  /**
    Two bit streams that differ, and differ only inside one window of at most
    sixteen bits, leave the register in different states.
   */
  lemma BurstChangesRegister(s: bv16, a: seq<bool>, x: seq<bool>, y: seq<bool>, b: seq<bool>)
    requires |x| == |y| <= 16 && x != y
    ensures Serial(s, a + x + b) != Serial(s, a + y + b)
  {
    var t := Serial(s, a);
    SerialConcat(s, a + x, b);
    SerialConcat(s, a + y, b);
    SerialConcat(s, a, x);
    SerialConcat(s, a, y);
    SerialWindow(t, x);
    SerialWindow(t, y);
    if Xor(t, Window(x)) == Xor(t, Window(y)) {
      XorCancel(t, Window(x), Window(y));
      WindowInjective(x, y);
    }
    StepsInjective(Xor(t, Window(x)), Xor(t, Window(y)), |x|);
    SerialInjective(Serial(t, x), Serial(t, y), b);
  }

  // ---------- the table-driven CRC is the bit-serial one ----------

  lemma OddHalf(c: bv16)
    requires c & 1 == 1
    ensures 1 ^ ((c >> 1) << 1) == c
  {
  }

  lemma EvenHalf(c: bv16)
    requires c & 1 == 0
    ensures 0 ^ ((c >> 1) << 1) == c
  {
  }

  lemma PushHalf(c: bv16)
    ensures Push(c & 1 == 1, c >> 1) == c
  {
    LowBit(c);
    if c & 1 == 1 {
      OddHalf(c);
    } else {
      EvenHalf(c);
    }
  }

  lemma {:induction false} WindowOfBits(c: bv16, n: nat)
    requires Fits(c, n) && n <= 16
    ensures Window(BitsOf(c, n)) == c
    decreases n
  {
    if n > 0 {
      WindowOfBits(c >> 1, n - 1);
      PushHalf(c);
      assert BitsOf(c, n)[1..] == BitsOf(c >> 1, n - 1);
    }
  }

  lemma ByteFits(c: bv8)
    ensures Fits(c as bv16, 8)
  {
  }

  lemma WindowOfByte(c: byte)
    ensures Window(ByteBits(c)) == Octet(c)
  {
    ByteFits(ToBits(c));
    WindowOfBits(Octet(c), 8);
  }

  lemma HighHalf(x: bv16)
    ensures Shift8(x & 0xff00) == x >> 8
    ensures Xor(x & 0xff00, x & 0xff) == x
  {
    var h := x & 0xff00;
    assert h & 1 == 0 && (h >> 1) & 1 == 0 && ((h >> 1) >> 1) & 1 == 0 && (((h >> 1) >> 1) >> 1) & 1 == 0;
    var g := (((h >> 1) >> 1) >> 1) >> 1;
    assert g & 1 == 0 && (g >> 1) & 1 == 0 && ((g >> 1) >> 1) & 1 == 0 && (((g >> 1) >> 1) >> 1) & 1 == 0;
  }

  lemma HighByte(s: bv16, c: bv8)
    ensures Xor(s, c as bv16) >> 8 == s >> 8
  {
  }

  lemma LowByte(x: bv16)
    ensures ((x & 0xff) as bv8) as bv16 == x & 0xff
  {
  }

  lemma BitsOfByte(b: bv8)
    ensures ToBits(ToByte(b)) == b
  {
  }

  /** The CRC macro is eight steps of the bit-serial register. */
  lemma FeedIsSerial(s: bv16, c: byte)
    ensures Feed(s, c) == Serial(s, ByteBits(c))
  {
    var x := Xor(s, Octet(c));
    WindowOfByte(c);
    SerialWindow(s, ByteBits(c));
    Shift8IsSteps(x);
    HighHalf(x);
    Shift8Linear(x & 0xff00, x & 0xff);
    HighByte(s, ToBits(c));
    LowByte(x);
    TableIsSerial((x & 0xff) as bv8);
  }

  /** The table-driven CRC of a message is the bit-serial CRC of its bit stream. */
  lemma {:induction false} CrcIsSerial(m: seq<byte>, crc: bv16)
    ensures Crc(m, crc) == Serial(crc, Stream(m))
  {
    if |m| > 0 {
      var front, c := m[..|m| - 1], m[|m| - 1];
      CrcIsSerial(front, crc);
      FeedIsSerial(Crc(front, crc), c);
      SerialConcat(crc, Stream(front), ByteBits(c));
    }
  }

  // ---------- the check ----------

  /** The last two bytes are the CRC of the ones before: what crcverify tests. */
  predicate Verifies(m: seq<byte>)
    requires |m| >= 2
  {
    m[|m| - 2..] == CrcBytes(Crc(m[..|m| - 2], CRC_INIT))
  }

  /** The CRC over a message and its own CRC bytes is zero. */
  lemma AppendedCrcIsZero(m: seq<byte>)
    ensures Crc(m + CrcBytes(Crc(m, CRC_INIT)), CRC_INIT) == 0
  {
    var s := Crc(m, CRC_INIT);
    var lo, hi := CrcBytes(s)[0], CrcBytes(s)[1];
    CrcOfOneMore(m, lo, CRC_INIT);
    CrcOfOneMore(m + [lo], hi, CRC_INIT);
    assert m + CrcBytes(s) == m + [lo] + [hi];
    FeedOwnLow(s);
    FeedOwnLow(s >> 8);
    OwnHigh(s);
  }

  lemma CrcOfOneMore(m: seq<byte>, x: byte, init: bv16)
    ensures Crc(m + [x], init) == Feed(Crc(m, init), x)
  {
    assert (m + [x])[..|m|] == m;
  }

  lemma FeedOwnLow(s: bv16)
    ensures Feed(s, ToByte((s & 0xff) as bv8)) == s >> 8
  {
    LowByte(s);
    BitsOfByte((s & 0xff) as bv8);
    OwnLow(s);
    XorGroup(s >> 8, 0, 0);
  }

  lemma OwnLow(s: bv16)
    ensures Xor(s, s & 0xff) & 0xff == 0
  {
  }

  lemma OwnHigh(s: bv16)
    ensures (s >> 8) & 0xff == s >> 8
    ensures (s >> 8) >> 8 == 0
  {
  }

  // ---------- what the check detects ----------

  lemma {:induction false} SpreadAt<T>(f: byte -> seq<T>, m: seq<byte>, i: nat)
    requires forall c: byte :: |f(c)| == 8
    requires i < |m|
    ensures forall k :: 0 <= k < 8 ==> Spread(f, m)[8 * i + k] == f(m[i])[k]
  {
    var front, last := m[..|m| - 1], f(m[|m| - 1]);
    if i < |m| - 1 {
      SpreadAt(f, front, i);
    }
  }

  lemma StreamBit(m: seq<byte>, j: nat)
    requires j < 8 * |m|
    ensures Stream(m)[j] == ByteBits(m[j / 8])[j % 8]
  {
    SpreadAt(ByteBits, m, j / 8);
    assert j == 8 * (j / 8) + j % 8;
  }

  lemma StreamInjective(m: seq<byte>, n: seq<byte>)
    requires |m| == |n| && Stream(m) == Stream(n)
    ensures m == n
  {
    forall i | 0 <= i < |m|
      ensures m[i] == n[i]
    {
      SpreadAt(ByteBits, m, i);
      SpreadAt(ByteBits, n, i);
      assert ByteBits(m[i]) == ByteBits(n[i]);
      WindowOfByte(m[i]);
      WindowOfByte(n[i]);
      SameByte(m[i], n[i]);
    }
  }

  lemma ByteOfBits(c: byte)
    ensures ToByte(ToBits(c)) == c
  {
    BitsValue(c);
  }

  lemma BitsValue(x: nat)
    requires x < 0x100
    ensures (x as bv8) as int == x
  {
    assert x % 0x100 == x;
  }

  lemma OctetLow(b: bv8, c: bv8)
    requires b as bv16 == c as bv16
    ensures b == c
  {
  }

  lemma SameByte(c: byte, d: byte)
    requires Octet(c) == Octet(d)
    ensures c == d
  {
    OctetLow(ToBits(c), ToBits(d));
    ByteOfBits(c);
    ByteOfBits(d);
  }

  /** The bit streams of two messages agree outside sixteen bits from k on. */
  ghost predicate AgreeOutside(m: seq<byte>, n: seq<byte>, k: nat) {
    && |m| == |n|
    && forall j {:trigger Stream(m)[j]} :: 0 <= j < 8 * |m| && !(k <= j < k + 16) ==> Stream(m)[j] == Stream(n)[j]
  }

  lemma SplitWindow(s: seq<bool>, t: seq<bool>, k: nat) returns (a: seq<bool>, x: seq<bool>, y: seq<bool>, b: seq<bool>)
    requires |s| == |t| && forall j :: 0 <= j < |s| && !(k <= j < k + 16) ==> s[j] == t[j]
    ensures |x| == |y| <= 16 && s == a + x + b && t == a + y + b
  {
    var lo := if k <= |s| then k else |s|;
    var hi := if k + 16 <= |s| then k + 16 else |s|;
    a, x, y, b := s[..lo], s[lo..hi], t[lo..hi], s[hi..];
    assert a == t[..lo] && b == t[hi..];
  }

  /** One byte into a known register, by the entry of the table that it selects. */
  lemma FeedKnown(s: bv16, c: byte, octet: bv16, i: bv8, entry: bv16, r: bv16)
    requires Octet(c) == octet && (Xor(s, octet) & 0xff) as bv8 == i && CrcTable(i) == entry && Xor(s >> 8, entry) == r
    ensures Feed(s, c) == r
  {
  }

  lemma FeedFirstDigits()
    ensures Feed(0xffff, 0x31) == 0x2f8d && Feed(0x2f8d, 0x32) == 0x4d53 && Feed(0x4d53, 0x33) == 0x634b
  {
    FeedKnown(0xffff, 0x31, 0x0031, 0xce, 0x2f72, 0x2f8d);
    FeedKnown(0x2f8d, 0x32, 0x0032, 0xbf, 0x4d7c, 0x4d53);
    FeedKnown(0x4d53, 0x33, 0x0033, 0x60, 0x6306, 0x634b);
  }

  lemma FeedMiddleDigits()
    ensures Feed(0x634b, 0x34) == 0x8b13 && Feed(0x8b13, 0x35) == 0x44bf && Feed(0x44bf, 0x36) == 0x198d
  {
    FeedKnown(0x634b, 0x34, 0x0034, 0x7f, 0x8b70, 0x8b13);
    FeedKnown(0x8b13, 0x35, 0x0035, 0x26, 0x4434, 0x44bf);
    FeedKnown(0x44bf, 0x36, 0x0036, 0x89, 0x19c9, 0x198d);
  }

  lemma FeedLastDigits()
    ensures Feed(0x198d, 0x37) == 0x1ac8 && Feed(0x1ac8, 0x38) == 0xf795 && Feed(0xf795, 0x39) == 0x6f91
  {
    FeedKnown(0x198d, 0x37, 0x0037, 0xba, 0x1ad1, 0x1ac8);
    FeedKnown(0x1ac8, 0x38, 0x0038, 0xf0, 0xf78f, 0xf795);
    FeedKnown(0xf795, 0x39, 0x0039, 0xac, 0x6f66, 0x6f91);
  }

  lemma KnownStep(m: seq<byte>, c: byte, r: bv16, more: seq<byte>)
    requires more == m + [c] && Feed(Crc(m, CRC_INIT), c) == r
    ensures Crc(more, CRC_INIT) == r
  {
    CrcOfOneMore(m, c, CRC_INIT);
  }

  /** The check value of this CRC, over "123456789". */
  lemma CheckValue()
    ensures Crc([0x31, 0x32, 0x33, 0x34, 0x35, 0x36, 0x37, 0x38, 0x39], CRC_INIT) == 0x6f91
  {
    FeedFirstDigits();
    FeedMiddleDigits();
    FeedLastDigits();
    KnownStep([], 0x31, 0x2f8d, [0x31]);
    KnownStep([0x31], 0x32, 0x4d53, [0x31, 0x32]);
    KnownStep([0x31, 0x32], 0x33, 0x634b, [0x31, 0x32, 0x33]);
    KnownStep([0x31, 0x32, 0x33], 0x34, 0x8b13, [0x31, 0x32, 0x33, 0x34]);
    KnownStep([0x31, 0x32, 0x33, 0x34], 0x35, 0x44bf, [0x31, 0x32, 0x33, 0x34, 0x35]);
    KnownStep([0x31, 0x32, 0x33, 0x34, 0x35], 0x36, 0x198d, [0x31, 0x32, 0x33, 0x34, 0x35, 0x36]);
    KnownStep([0x31, 0x32, 0x33, 0x34, 0x35, 0x36], 0x37, 0x1ac8, [0x31, 0x32, 0x33, 0x34, 0x35, 0x36, 0x37]);
    KnownStep([0x31, 0x32, 0x33, 0x34, 0x35, 0x36, 0x37], 0x38, 0xf795, [0x31, 0x32, 0x33, 0x34, 0x35, 0x36, 0x37, 0x38]);
    KnownStep([0x31, 0x32, 0x33, 0x34, 0x35, 0x36, 0x37, 0x38], 0x39, 0x6f91,
              [0x31, 0x32, 0x33, 0x34, 0x35, 0x36, 0x37, 0x38, 0x39]);
  }

  lemma {:induction false} CrcOfFirst(x: byte, m: seq<byte>, init: bv16)
    ensures Crc([x] + m, init) == Crc(m, Feed(init, x))
    decreases |m|
  {
    if |m| == 0 {
      CrcOfOneMore([], x, init);
      assert [] + [x] == [x] == [x] + m;
    } else {
      var n := |m| - 1;
      assert m == m[..n] + [m[n]];
      CrcOfFirst(x, m[..n], init);
      assert [x] + m == ([x] + m[..n]) + [m[n]];
      CrcOfOneMore([x] + m[..n], m[n], init);
    }
  }

  /** The register starts with ones, so that a zero byte in front of a message does not go unnoticed. */
  lemma LeadingZeroChangesCrc(m: seq<byte>)
    ensures Crc([0] + m, CRC_INIT) != Crc(m, CRC_INIT)
  {
    CrcOfFirst(0, m, CRC_INIT);
    FeedKnown(CRC_INIT, 0, 0, 0xff, 0x0f78, 0x0f87);
    CrcIsSerial(m, 0x0f87);
    CrcIsSerial(m, CRC_INIT);
    SerialInjective(0x0f87, CRC_INIT, Stream(m));
  }

  /** Every change confined to sixteen consecutive bits changes the CRC. */
  lemma BurstChangesCrc(m: seq<byte>, n: seq<byte>, k: nat, crc: bv16)
    requires AgreeOutside(m, n, k) && m != n
    ensures Crc(m, crc) != Crc(n, crc)
  {
    var a, x, y, b := SplitWindow(Stream(m), Stream(n), k);
    if x == y {
      StreamInjective(m, n);
    }
    BurstChangesRegister(crc, a, x, y, b);
    CrcIsSerial(m, crc);
    CrcIsSerial(n, crc);
  }

  /** Any change of two adjacent bytes is such a change. */
  lemma TwoBytesChangeCrc(m: seq<byte>, i: nat, x: byte, y: byte)
    requires i + 1 < |m|
    requires m != m[i := x][i + 1 := y]
    ensures Crc(m, CRC_INIT) != Crc(m[i := x][i + 1 := y], CRC_INIT)
  {
    var n := m[i := x][i + 1 := y];
    forall j | 0 <= j < 8 * |m| && !(8 * i <= j < 8 * i + 16)
      ensures Stream(m)[j] == Stream(n)[j]
    {
      StreamBit(m, j);
      StreamBit(n, j);
      assert j / 8 != i && j / 8 != i + 1;
    }
    BurstChangesCrc(m, n, 8 * i, CRC_INIT);
  }

  lemma DifferInLastTwo(m: seq<byte>, n: seq<byte>)
    requires |m| == |n| >= 2 && m[..|m| - 2] == n[..|m| - 2]
    ensures m == n[|m| - 2 := m[|m| - 2]][|m| - 1 := m[|m| - 1]]
    ensures m[|m| - 2..] == n[|m| - 2..] <==> m == n
  {
    assert m == m[..|m| - 2] + m[|m| - 2..] && n == n[..|m| - 2] + n[|m| - 2..];
  }

  /** crcverify accepts a message exactly when the CRC over all of it is zero. */
  lemma VerifiesIffZero(m: seq<byte>)
    requires |m| >= 2
    ensures Verifies(m) <==> Crc(m, CRC_INIT) == 0
  {
    var n := |m| - 2;
    var tail := CrcBytes(Crc(m[..n], CRC_INIT));
    var good := m[..n] + tail;
    AppendedCrcIsZero(m[..n]);
    assert good[..n] == m[..n] && good[n..] == tail;
    DifferInLastTwo(m, good);
    if m != good {
      TwoBytesChangeCrc(good, n, m[n], m[n + 1]);
    }
  }

  /**
    No accepted message becomes another accepted one by a change that is
    confined to sixteen consecutive bits, the CRC bytes included.
   */
  lemma BurstDetected(m: seq<byte>, n: seq<byte>, k: nat)
    requires |m| >= 2 && Verifies(m)
    requires AgreeOutside(m, n, k) && m != n
    ensures !Verifies(n)
  {
    VerifiesIffZero(m);
    VerifiesIffZero(n);
    BurstChangesCrc(m, n, k, CRC_INIT);
  }

  // ---------- the functions of the program ----------

  method CrcSum(message: array<byte>, length: nat, init: bv16) returns (crc: bv16)
    requires length <= message.Length
    ensures crc == Serial(init, Stream(message[..length]))
  {
    crc := init;
    for i := 0 to length
      invariant crc == Crc(message[..i], init)
    {
      crc := Feed(crc, message[i]);
      assert message[..i + 1][..i] == message[..i];
    }
    CrcIsSerial(message[..length], init);
  }

  lemma VerifiesByBytes(m: seq<byte>, expected: bv16)
    requires |m| >= 2
    requires expected == Serial(CRC_INIT, Stream(m[..|m| - 2]))
    ensures Verifies(m) <==> [m[|m| - 2], m[|m| - 1]] == CrcBytes(expected)
  {
    CrcIsSerial(m[..|m| - 2], CRC_INIT);
    assert m[|m| - 2..] == [m[|m| - 2], m[|m| - 1]];
  }

  method CrcVerify(message: array<byte>, length: nat) returns (ok: bool)
    requires 2 <= length <= message.Length
    ensures ok <==> Verifies(message[..length])
  {
    var expected := CrcSum(message, length - 2, CRC_INIT);
    assert message[..length][..length - 2] == message[..length - 2];
    VerifiesByBytes(message[..length], expected);
    var lo, hi := CrcBytes(expected)[0], CrcBytes(expected)[1];
    ok := lo == message[length - 2] && hi == message[length - 1];
  }

  lemma AppendVerifies(m: seq<byte>)
    ensures Verifies(m + CrcBytes(Crc(m, CRC_INIT)))
  {
    var whole := m + CrcBytes(Crc(m, CRC_INIT));
    assert whole[..|m|] == m && whole[|m|..] == CrcBytes(Crc(m, CRC_INIT));
  }

  method CrcAppend(message: array<byte>, length: nat)
    requires length + 2 <= message.Length
    modifies message
    ensures message[..length + 2] == old(message[..length]) + CrcBytes(Crc(old(message[..length]), CRC_INIT))
    ensures message[length + 2..] == old(message[length + 2..])
    ensures Verifies(message[..length + 2])
  {
    var crc := CrcSum(message, length, CRC_INIT);
    ghost var m := message[..length];
    CrcIsSerial(m, CRC_INIT);
    AppendVerifies(m);
    var tail := CrcBytes(crc);
    message[length], message[length + 1] := tail[0], tail[1];
    assert message[..length + 2] == m + tail;
  }
}
