/**
  The in-circuit emulator as the mkII breakpoint commands see it: three
  hardware slots and the software breakpoints in flash, changed by the
  CMND_SET_BREAK and CMND_CLR_BREAK messages of Atmel AVR067.
 */
module Ice {
  import opened Bytes
  import opened Wrappers

  const CMND_SET_BREAK: byte := 0x11
  const CMND_CLR_BREAK: byte := 0x1A

  const KIND_CODE: byte := 0x01
  const KIND_DATA: byte := 0x02
  const MODE_CODE: byte := 0x03

  datatype Command =
    | Clear(slot: byte, address: uint32)
    | Set(kind: byte, slot: byte, address: uint32, mode: byte)

  /** What one hardware slot watches for. */
  datatype Break = Break(kind: byte, address: uint32, mode: byte)

  /** slots: the occupied hardware slots; soft: the word addresses with a BREAK instruction. */
  datatype Ice = Ice(slots: map<byte, Break>, soft: set<uint32>)

  const IDLE := Ice(map[], {})

  // ---------- messages ----------

  function Encode(c: Command): seq<byte> {
    match c
    case Clear(slot, address) => [CMND_CLR_BREAK, slot] + U32ToB4(address)
    case Set(kind, slot, address, mode) => [CMND_SET_BREAK, kind, slot] + U32ToB4(address) + [mode]
  }

  function Decode(m: seq<byte>): Option<Command> {
    if |m| == 6 && m[0] == CMND_CLR_BREAK then
      Some(Clear(m[1], B4ToU32(m[2..6])))
    else if |m| == 8 && m[0] == CMND_SET_BREAK then
      Some(Set(m[1], m[2], B4ToU32(m[3..7]), m[7]))
    else
      None
  }

  lemma DecodeClear(slot: byte, address: uint32)
    ensures Decode(Encode(Clear(slot, address))) == Some(Clear(slot, address))
  {
    var a := U32ToB4(address);
    U32RoundTrip(address);
    assert ([CMND_CLR_BREAK, slot] + a)[2..6] == a;
  }

  lemma DecodeSet(kind: byte, slot: byte, address: uint32, mode: byte)
    ensures Decode(Encode(Set(kind, slot, address, mode))) == Some(Set(kind, slot, address, mode))
  {
    var a := U32ToB4(address);
    U32RoundTrip(address);
    assert ([CMND_SET_BREAK, kind, slot] + a + [mode])[3..7] == a;
  }

  /** The ICE reads back the command that was put into the message. */
  lemma DecodeEncode(c: Command)
    ensures Decode(Encode(c)) == Some(c)
  {
    match c
    case Clear(slot, address) => DecodeClear(slot, address);
    case Set(kind, slot, address, mode) => DecodeSet(kind, slot, address, mode);
  }

  /** The bytes of the messages, the address with its low byte first. */
  lemma MessageBytes(kind: byte, slot: byte, address: uint32, mode: byte)
    ensures var m := Encode(Clear(slot, address));
      && |m| == 6 && m[0] == 0x1A && m[1] == slot
      && LowFirst(m[2], m[3], m[4], m[5]) == address
    ensures var m := Encode(Set(kind, slot, address, mode));
      && |m| == 8 && m[0] == 0x11 && m[1] == kind && m[2] == slot && m[7] == mode
      && LowFirst(m[3], m[4], m[5], m[6]) == address
  {
    LowByteFirst(address);
  }

  // ---------- what stops the target ----------

  /** What the target does, at a byte address. */
  datatype Access = Fetch(pc: uint32) | Read(address: uint32) | Write(address: uint32)

  /**
    Whether what a slot holds stops the target: kind 1 with mode 3 compares the program
    counter, which counts words; kind 2 compares data addresses, those of reads in mode 0, of
    writes in mode 1, of both in mode 2.
   */
  predicate StopsOn(b: Break, a: Access) {
    match a
    case Fetch(pc) => b.kind == 0x01 && b.mode == 0x03 && b.address == pc / 2
    case Read(address) => b.kind == 0x02 && (b.mode == 0x00 || b.mode == 0x02) && b.address == address
    case Write(address) => b.kind == 0x02 && (b.mode == 0x01 || b.mode == 0x02) && b.address == address
  }

  ghost predicate Stops(ice: Ice, a: Access) {
    (exists s :: s in ice.slots && StopsOn(ice.slots[s], a)) || (a.Fetch? && a.pc / 2 in ice.soft)
  }

  // ---------- behaviour ----------

  /**
    The commands an ICE can carry out: it clears only what is set, sets only
    what is free, takes data breakpoints only in slots 2 and 3, and puts only
    code breakpoints into flash (slot 0).
   */
  predicate Accepts(ice: Ice, c: Command) {
    match c
    case Clear(slot, address) =>
      if slot == 0 then address in ice.soft else slot in ice.slots
    case Set(kind, slot, address, mode) =>
      if slot == 0 then
        kind == KIND_CODE && mode == MODE_CODE && address !in ice.soft
      else
        && slot <= 3 && slot !in ice.slots
        && (|| (kind == KIND_CODE && mode == MODE_CODE)
            || (kind == KIND_DATA && mode < MODE_CODE && slot >= 2))
  }

  function After(ice: Ice, c: Command): Ice {
    match c
    case Clear(slot, address) =>
      if slot == 0 then ice.(soft := ice.soft - {address}) else ice.(slots := ice.slots - {slot})
    case Set(kind, slot, address, mode) =>
      if slot == 0 then
        ice.(soft := ice.soft + {address})
      else
        ice.(slots := ice.slots[slot := Break(kind, address, mode)])
  }
}
