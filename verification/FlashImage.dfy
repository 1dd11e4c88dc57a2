/**
  Downloading a program: the image built from the sections of a file
  (src/jtag2prog.cc), and the page-wise programming and verifying of a memory
  from it (src/jtaggeneric.cc).
 */
module FlashImage {
  import opened Bytes
  import opened Wrappers
  import opened PageCache
  import opened Pages

  const MAX_IMAGE_SIZE := 1000000

  const DATA_SPACE := 0x800000
  const EEPROM_SPACE := 0x810000
  const FUSE_SPACE := 0x820000
  const LOCK_SPACE := 0x830000
  const NOT_THIS_MEMORY := 0xffffff

  datatype MemoryType = Flash | Ram | Eeprom

  /**
    A section of the file: its load address, its flags and its contents. For an address at or
    above the fuses the program compares the memory asked for with a variable that it has
    not set; `straysIntoFlash` and `straysIntoEeprom` are what these comparisons happen to say.
   */
  datatype Section = Section(lma: uint32, hasContents: bool, alloc: bool, load: bool, contents: seq<byte>,
                             straysIntoFlash: bool, straysIntoEeprom: bool)

  /** One address of an image. */
  datatype Cell = Cell(val: byte, used: bool)

  // ---------- where a section goes ----------

  /** The memory of a load address below the fuses. */
  function SpaceOf(lma: nat): MemoryType {
    if lma < DATA_SPACE then Flash else if lma < EEPROM_SPACE then Ram else Eeprom
  }

  function Offset(m: MemoryType): nat {
    match m
    case Flash => 0
    case Ram => DATA_SPACE
    case Eeprom => EEPROM_SPACE
  }

  predicate Strays(s: Section, m: MemoryType) {
    match m
    case Flash => s.straysIntoFlash
    case Ram => false
    case Eeprom => s.straysIntoEeprom
  }

  predicate Loaded(s: Section, m: MemoryType) {
    s.hasContents && (s.alloc || s.load) && if s.lma < FUSE_SPACE then SpaceOf(s.lma) == m else Strays(s, m)
  }

  /** The address without the bits of ADDR_SPACE_MASK, 0x970000. */
  function Unmasked(lma: uint32): nat {
    And(lma, 0xffff_ffff - 0x97_0000)
  }

  function SectionAddr(s: Section, m: MemoryType): (addr: nat)
    ensures !Loaded(s, m) ==> addr == NOT_THIS_MEMORY
    ensures s.lma < FUSE_SPACE && Loaded(s, m) ==> addr != NOT_THIS_MEMORY && Offset(m) + addr == s.lma
  {
    if s.hasContents && (s.alloc || s.load) then
      if (if s.lma < FUSE_SPACE then SpaceOf(s.lma) == m else Strays(s, m)) then
        MaskOfSpace(s.lma);
        if m == Flash then s.lma else Unmasked(s.lma)
      else
        NOT_THIS_MEMORY
    else
      NOT_THIS_MEMORY
  }

  /** In the spaces of RAM, EEPROM and fuses the mask takes away just the offset. */
  lemma MaskOfSpace(lma: uint32)
    ensures DATA_SPACE <= lma < EEPROM_SPACE ==> Unmasked(lma) == lma - DATA_SPACE
    ensures EEPROM_SPACE <= lma < FUSE_SPACE ==> Unmasked(lma) == lma - EEPROM_SPACE
    ensures FUSE_SPACE <= lma < LOCK_SPACE ==> Unmasked(lma) == lma - FUSE_SPACE
  {
    HighBytes();
    if DATA_SPACE <= lma < EEPROM_SPACE {
      LastSixteen(0x80, lma - DATA_SPACE);
    } else if EEPROM_SPACE <= lma < FUSE_SPACE {
      LastSixteen(0x81, lma - EEPROM_SPACE);
    } else if FUSE_SPACE <= lma < LOCK_SPACE {
      LastSixteen(0x82, lma - FUSE_SPACE);
    }
  }

  lemma HighBytes()
    ensures And(0x80, 0xff68) == And(0x81, 0xff68) == And(0x82, 0xff68) == 0
  {
    assert And(0x08, 0xff6) == 0;
  }

  /** The byte that a section puts at an address of a memory. */
  function ByteOf(s: Section, m: MemoryType, a: nat): Option<byte> {
    var addr := SectionAddr(s, m);
    if addr != NOT_THIS_MEMORY && addr <= a < addr + |s.contents| then Some(s.contents[a - addr]) else None
  }

  /** The section has a byte for that many addresses behind its load address, and is one to be loaded. */
  predicate Brings(s: Section, k: int) {
    s.hasContents && (s.alloc || s.load) && 0 <= k < |s.contents|
  }

  /**
    Where the bytes of a section go, by its fields alone: below 0x800000 into flash at the
    load address, from 0x810000 to below 0x820000 into the EEPROM behind 0x810000, and nowhere
    else.
   */
  lemma BytesOfSection(s: Section, a: nat)
    ensures s.lma < 0x82_0000 ==>
      ByteOf(s, Flash, a) == if s.lma < 0x80_0000 && Brings(s, a - s.lma) then Some(s.contents[a - s.lma]) else None
    ensures s.lma < 0x82_0000 ==>
      ByteOf(s, Eeprom, a) ==
        if 0x81_0000 <= s.lma && Brings(s, 0x81_0000 + a - s.lma) then Some(s.contents[0x81_0000 + a - s.lma]) else None
    ensures !(s.hasContents && (s.alloc || s.load)) ==> ByteOf(s, Flash, a) == ByteOf(s, Eeprom, a) == None
  {
    MaskOfSpace(s.lma);
  }

  /** A section of fuse bits is in the image of a memory exactly when it strays into it. */
  lemma FuseSectionStrays(s: Section, m: MemoryType)
    requires FUSE_SPACE <= s.lma < LOCK_SPACE && s.hasContents && (s.alloc || s.load) && s.contents != []
    ensures (exists a :: ByteOf(s, m, a).Some?) <==> Strays(s, m)
    ensures m == Eeprom && Strays(s, m) ==> ByteOf(s, m, s.lma - FUSE_SPACE) == Some(s.contents[0])
  {
    MaskOfSpace(s.lma);
    if Strays(s, m) {
      assert ByteOf(s, m, SectionAddr(s, m)).Some?;
    }
  }

  /** The section does not reach beyond the array of an image. */
  predicate Fits(s: Section) {
    forall m :: SectionAddr(s, m) != NOT_THIS_MEMORY ==> SectionAddr(s, m) + |s.contents| <= MAX_IMAGE_SIZE
  }

  /** The byte of the last section that has one for the address. */
  function LastByte(sections: seq<Section>, m: MemoryType, a: nat): Option<byte> {
    if sections == [] then
      None
    else
      var n := |sections| - 1;
      if ByteOf(sections[n], m, a).Some? then ByteOf(sections[n], m, a) else LastByte(sections[..n], m, a)
  }

  lemma {:induction false} LastByteIsLast(sections: seq<Section>, m: MemoryType, a: nat)
    ensures match LastByte(sections, m, a)
      case None => forall k :: 0 <= k < |sections| ==> ByteOf(sections[k], m, a) == None
      case Some(b) =>
        exists k :: 0 <= k < |sections| && ByteOf(sections[k], m, a) == Some(b) &&
                    forall l :: k < l < |sections| ==> ByteOf(sections[l], m, a) == None
  {
    if sections != [] {
      var n := |sections| - 1;
      if ByteOf(sections[n], m, a).None? {
        LastByteIsLast(sections[..n], m, a);
        assert sections == sections[..n] + [sections[n]];
      }
    }
  }

  /** The end of the sections of a memory. */
  function Top(sections: seq<Section>, m: MemoryType): nat {
    if sections == [] then
      0
    else
      var n := |sections| - 1;
      Upper(sections[n], m, Top(sections[..n], m))
  }

  function Upper(s: Section, m: MemoryType, top: nat): nat {
    var addr := SectionAddr(s, m);
    if addr != NOT_THIS_MEMORY && addr + |s.contents| > top then addr + |s.contents| else top
  }

  // ---------- the image ----------

  function CellOf(b: Option<byte>): Cell {
    match b
    case None => Cell(0x00, false)
    case Some(v) => Cell(v, true)
  }

  class Image {
    const cells: array<Cell>
    var firstAddress: nat
    var lastAddress: nat
    var firstAddressOk: bool
    var hasData: bool

    /** Every used address lies between the first and the last address. */
    ghost predicate Valid()
      reads this, cells
    {
      && cells.Length == MAX_IMAGE_SIZE && lastAddress <= MAX_IMAGE_SIZE
      && firstAddressOk == hasData && firstAddress <= MAX_IMAGE_SIZE
      && forall a :: 0 <= a < MAX_IMAGE_SIZE && cells[a].used ==> hasData && firstAddress <= a < lastAddress
    }

    constructor ()
      ensures Valid() && fresh(cells) && !hasData && lastAddress == 0
      ensures forall a :: 0 <= a < MAX_IMAGE_SIZE ==> cells[a] == CellOf(None)
    {
      cells := new Cell[MAX_IMAGE_SIZE](_ => Cell(0x00, false));
      firstAddress, lastAddress, firstAddressOk, hasData := 0, 0, false, false;
    }

    /** Copies a section into the image, if it is for its memory. */
    method Create(s: Section, m: MemoryType)
      requires Valid() && Fits(s)
      modifies this, cells
      ensures Valid()
      ensures hasData <==> old(hasData) || SectionAddr(s, m) != NOT_THIS_MEMORY
      ensures lastAddress == Upper(s, m, old(lastAddress))
      ensures firstAddress ==
        if SectionAddr(s, m) != NOT_THIS_MEMORY && (!old(firstAddressOk) || SectionAddr(s, m) < old(firstAddress)) then
          SectionAddr(s, m)
        else
          old(firstAddress)
      ensures forall a :: 0 <= a < MAX_IMAGE_SIZE ==>
        cells[a] == if ByteOf(s, m, a).Some? then CellOf(ByteOf(s, m, a)) else old(cells[a])
    {
      var addr := SectionAddr(s, m);
      if addr != NOT_THIS_MEMORY {
        var size := |s.contents|;
        for i := 0 to size
          modifies cells
          invariant forall a :: 0 <= a < MAX_IMAGE_SIZE ==>
            cells[a] == if addr <= a < addr + i then Cell(s.contents[a - addr], true) else old(cells[a])
        {
          cells[i + addr] := Cell(s.contents[i], true);
        }
        if addr + size > lastAddress {
          lastAddress := addr + size;
        }
        if !firstAddressOk || addr < firstAddress {
          firstAddress, firstAddressOk := addr, true;
        }
        hasData := true;
      }
    }
  }

  lemma LastByteOfOneMore(sections: seq<Section>, s: Section, m: MemoryType, a: nat)
    ensures LastByte(sections + [s], m, a) ==
      if ByteOf(s, m, a).Some? then ByteOf(s, m, a) else LastByte(sections, m, a)
  {
    assert (sections + [s])[..|sections|] == sections;
  }

  lemma TopOfOneMore(sections: seq<Section>, s: Section, m: MemoryType)
    ensures Top(sections + [s], m) == Upper(s, m, Top(sections, m))
  {
    assert (sections + [s])[..|sections|] == sections;
  }

  /** The image holds just these sections. */
  ghost predicate Shows(image: Image, sections: seq<Section>, m: MemoryType)
    reads image, image.cells
  {
    && image.Valid() && image.lastAddress == Top(sections, m)
    && forall a :: 0 <= a < MAX_IMAGE_SIZE ==> image.cells[a] == CellOf(LastByte(sections, m, a))
  }

  /** One more section. */
  method LoadSection(image: Image, ghost sections: seq<Section>, s: Section, m: MemoryType)
    requires Shows(image, sections, m) && Fits(s)
    modifies image, image.cells
    ensures Shows(image, sections + [s], m)
  {
    image.Create(s, m);
    TopOfOneMore(sections, s, m);
    forall a | 0 <= a < MAX_IMAGE_SIZE
      ensures image.cells[a] == CellOf(LastByte(sections + [s], m, a))
    {
      LastByteOfOneMore(sections, s, m, a);
    }
  }

  /** The images of the flash and the EEPROM, from all the sections of a file in their order. */
  method LoadSections(sections: seq<Section>) returns (flash: Image, eeprom: Image)
    requires forall s :: s in sections ==> Fits(s)
    ensures fresh(flash) && fresh(eeprom) && fresh(flash.cells) && fresh(eeprom.cells)
    ensures Shows(flash, sections, Flash) && Shows(eeprom, sections, Eeprom)
  {
    flash := new Image();
    eeprom := new Image();
    var p := 0;
    while p < |sections|
      invariant 0 <= p <= |sections|
      invariant fresh(flash) && fresh(eeprom) && fresh(flash.cells) && fresh(eeprom.cells)
      invariant flash != eeprom && flash.cells != eeprom.cells
      invariant Shows(flash, sections[..p], Flash) && Shows(eeprom, sections[..p], Eeprom)
    {
      LoadSection(flash, sections[..p], sections[p], Flash);
      LoadSection(eeprom, sections[..p], sections[p], Eeprom);
      assert sections[..p + 1] == sections[..p] + [sections[p]];
      p := p + 1;
    }
    assert sections[..p] == sections;
  }

  // ---------- what programming does to a memory ----------

  /** A page that the download skips: all its used bytes are what erased flash holds anyway. */
  predicate Skipped(cells: seq<Cell>, base: nat, p: nat, m: MemoryType) {
    forall k :: base <= k < base + p && k < |cells| && cells[k].used ==> m == Flash && cells[k].val == 0xff
  }

  function Values(cells: seq<Cell>, base: nat, p: nat): (r: seq<byte>)
    requires base + p <= |cells|
    ensures |r| == p
  {
    seq<byte>(p, i requires 0 <= i < p => cells[base + i].val)
  }

  /** The pages below `stop` hold the image, save those that are skipped; the others are as before. */
  ghost predicate ProgrammedBelow(cells: seq<Cell>, before: seq<byte>, after: seq<byte>, p: nat, m: MemoryType, stop: nat)
    requires p > 0 && |before| <= |cells|
  {
    && |after| == |before|
    && forall base: nat :: IsPage(base, p, |before|) ==>
         after[base..base + p] ==
           if base < stop && !Skipped(cells, base, p, m) then Values(cells, base, p) else before[base..base + p]
  }

  predicate UsedWithin(cells: seq<Cell>, first: nat, last: nat) {
    forall a :: 0 <= a < |cells| && cells[a].used ==> first <= a < last
  }

  lemma NothingBelow(cells: seq<Cell>, device: seq<byte>, p: nat, m: MemoryType, first: nat, last: nat)
    requires p > 0 && |device| <= |cells| && UsedWithin(cells, first, last)
    ensures ProgrammedBelow(cells, device, device, p, m, PageOf(first, p))
  {
    forall base: nat | IsPage(base, p, |device|) && base < PageOf(first, p)
      ensures Skipped(cells, base, p, m)
    {
      PagesApart(base, PageOf(first, p), p);
    }
  }

  lemma ProgramStep(cells: seq<Cell>, before: seq<byte>, now: seq<byte>, next: seq<byte>, p: nat, m: MemoryType, base: nat)
    requires p > 0 && |before| <= |cells| && IsPage(base, p, |before|)
    requires ProgrammedBelow(cells, before, now, p, m, base)
    requires next == if Skipped(cells, base, p, m) then now else WithPage(now, base, Values(cells, base, p))
    ensures ProgrammedBelow(cells, before, next, p, m, base + p)
  {
    forall other: nat | IsPage(other, p, |before|)
      ensures next[other..other + p] ==
        if other < base + p && !Skipped(cells, other, p, m) then Values(cells, other, p) else before[other..other + p]
    {
      if other > base {
        PagesApart(base, other, p);
      }
      if !Skipped(cells, base, p, m) {
        OtherPagesKept(now, next, Values(cells, base, p), base, other, p);
      }
    }
  }

  predicate MatchesBelow(cells: seq<Cell>, device: seq<byte>, n: nat)
    requires |device| <= |cells|
  {
    forall a :: 0 <= a < n && a < |device| && cells[a].used ==> device[a] == cells[a].val
  }

  /** Every used address of the image is in the memory as the image has it. */
  predicate Matches(cells: seq<Cell>, device: seq<byte>)
    requires |device| <= |cells|
  {
    MatchesBelow(cells, device, |device|)
  }

  lemma ByteOfPage(cells: seq<Cell>, before: seq<byte>, after: seq<byte>, p: nat, m: MemoryType, stop: nat, base: nat, i: nat)
    requires p > 0 && |before| <= |cells| && ProgrammedBelow(cells, before, after, p, m, stop)
    requires IsPage(base, p, |before|) && i < p
    ensures after[base + i] ==
      if base < stop && !Skipped(cells, base, p, m) then cells[base + i].val else before[base + i]
  {
    assert after[base + i] == after[base..base + p][i] && before[base + i] == before[base..base + p][i];
  }

  lemma ByteAfter(cells: seq<Cell>, before: seq<byte>, after: seq<byte>, p: nat, m: MemoryType,
                  stop: nat, first: nat, a: nat)
    requires p > 0 && Aligned(|before|, p) && |before| <= |cells| && a < |before|
    requires ProgrammedBelow(cells, before, after, p, m, stop) && UsedWithin(cells, first, stop)
    ensures after[a] == if Skipped(cells, PageOf(a, p), p, m) then before[a] else cells[a].val
  {
    var base := PageOf(a, p);
    PageFits(a, p, |before|);
    ByteOfPage(cells, before, after, p, m, stop, base, a - base);
  }

  // ---------- programming and verifying ----------

  /** Whether the page is skipped; the search ends at the end of the image. */
  method PageIsEmpty(image: Image, addr: nat, size: nat, m: MemoryType) returns (emptyPage: bool)
    requires image.Valid() && addr + size <= MAX_IMAGE_SIZE
    ensures emptyPage <==> Skipped(image.cells[..], addr, size, m)
  {
    emptyPage := true;
    var idx := addr;
    while idx < addr + size
      invariant addr <= idx <= addr + size
      invariant forall k :: addr <= k < idx && image.cells[k].used ==> m == Flash && image.cells[k].val == 0xff
      invariant emptyPage
    {
      if idx >= image.lastAddress {
        break;
      }
      if image.cells[idx].used {
        if !(m == Flash && image.cells[idx].val == 0xff) {
          emptyPage := false;
          break;
        }
      }
      idx := idx + 1;
    }
    if !emptyPage {
      assert image.cells[..][idx].used;
    }
  }

  method RawPage(image: Image, addr: nat, size: nat) returns (buf: seq<byte>)
    requires image.Valid() && addr + size <= MAX_IMAGE_SIZE
    ensures buf == Values(image.cells[..], addr, size)
  {
    buf := [];
    for i := 0 to size
      invariant |buf| == i && forall k :: 0 <= k < i ==> buf[k] == image.cells[addr + k].val
    {
      buf := buf + [image.cells[i + addr].val];
    }
  }

  /** The page in the cache, if there is one, is skipped by programming, or holds what is programmed. */
  ghost predicate CacheStands(cells: seq<Cell>, memory: Memory, m: MemoryType)
    requires memory.Valid() && |memory.device| <= |cells|
    reads memory, memory.cache
  {
    var tag, p := memory.tag, memory.pageSize;
    IsPage(tag, p, |memory.device|) ==> Skipped(cells, tag, p, m) || memory.cache[..p] == Values(cells, tag, p)
  }

  lemma StandsIffCoherent(cells: seq<Cell>, before: seq<byte>, after: seq<byte>, p: nat, m: MemoryType, stop: nat, first: nat,
                          tag: nat, cache: seq<byte>)
    requires p > 0 && |before| <= |cells| && ProgrammedBelow(cells, before, after, p, m, stop)
    requires UsedWithin(cells, first, stop)
    requires IsPage(tag, p, |before|) ==> p <= |cache| && cache[..p] == before[tag..tag + p]
    ensures IsPage(tag, p, |before|) ==>
      (cache[..p] == after[tag..tag + p] <==> Skipped(cells, tag, p, m) || cache[..p] == Values(cells, tag, p))
  {
  }

  /** One turn of the programming loop: a page that is not skipped is written. */
  method ProgramPage(image: Image, memory: Memory, m: MemoryType, addr: nat, ghost before: seq<byte>)
    returns (ok: bool, ghost next: nat)
    requires image.Valid() && memory.Valid() && |memory.device| <= MAX_IMAGE_SIZE
    requires |before| == |memory.device| && Aligned(addr, memory.pageSize) && addr < |before|
    requires ProgrammedBelow(image.cells[..], before, memory.device, memory.pageSize, m, addr)
    modifies memory`device
    ensures memory.Valid() && |memory.device| == |before|
    ensures memory.up ==> ok
    ensures next == (if ok then addr + memory.pageSize else addr) && Aligned(next, memory.pageSize)
    ensures ProgrammedBelow(image.cells[..], before, memory.device, memory.pageSize, m, next)
  {
    ghost var now := memory.device;
    NextPage(addr, memory.pageSize, |before|);
    var emptyPage := PageIsEmpty(image, addr, memory.pageSize, m);
    ok := true;
    if !emptyPage {
      var buf := RawPage(image, addr, memory.pageSize);
      PageIsUnique(addr, addr, memory.pageSize);
      ok := memory.JtagWrite(addr, buf);
    }
    next := addr;
    if ok {
      next := addr + memory.pageSize;
      ProgramStep(image.cells[..], before, now, memory.device, memory.pageSize, m, addr);
    }
  }

  /** The programming loop. `stop` is where it ended: a failing write ends it early. */
  method ProgramPages(image: Image, memory: Memory, m: MemoryType) returns (ok: bool, ghost stop: nat)
    requires image.Valid() && memory.Valid() && image.lastAddress <= |memory.device| <= MAX_IMAGE_SIZE
    modifies memory`device
    ensures memory.Valid()
    ensures ProgrammedBelow(image.cells[..], old(memory.device), memory.device, memory.pageSize, m, stop)
    ensures ok ==> stop >= image.lastAddress
    ensures memory.up ==> ok
  {
    var p := memory.pageSize;
    var addr := PageAddr(image.firstAddress, p);
    ghost var before := memory.device;
    NothingBelow(image.cells[..], before, p, m, image.firstAddress, image.lastAddress);
    while addr < image.lastAddress
      invariant memory.Valid() && Aligned(addr, p) && |memory.device| == |before|
      invariant ProgrammedBelow(image.cells[..], before, memory.device, p, m, addr)
      decreases |before| - addr
    {
      var written; ghost var next;
      written, next := ProgramPage(image, memory, m, addr, before);
      if !written {
        return false, addr;
      }
      addr := addr + p;
    }
    return true, addr;
  }

  /** Programming, and what becomes of the cache. */
  method Program(image: Image, memory: Memory, m: MemoryType) returns (ok: bool, ghost stop: nat)
    requires image.Valid() && memory.Valid() && image.lastAddress <= |memory.device| <= MAX_IMAGE_SIZE
    modifies memory`device
    ensures memory.Valid()
    ensures ProgrammedBelow(image.cells[..], old(memory.device), memory.device, memory.pageSize, m, stop)
    ensures ok ==> stop >= image.lastAddress
    ensures memory.up ==> ok
    // The cache stays true exactly when the page it holds is one that programming leaves as the cache has it.
    ensures ok && old(memory.Coherent()) ==> (memory.Coherent() <==> CacheStands(image.cells[..], memory, m))
  {
    ghost var before, coherent := memory.device, memory.Coherent();
    ok, stop := ProgramPages(image, memory, m);
    if ok && coherent {
      StandsIffCoherent(image.cells[..], before, memory.device, memory.pageSize, m, stop, image.firstAddress,
                        memory.tag, memory.cache[..]);
    }
  }

  predicate PageSame(cells: seq<Cell>, addr: nat, bytes: seq<byte>)
    requires addr + |bytes| <= |cells|
  {
    forall i :: 0 <= i < |bytes| ==> SameByte(cells[addr + i], bytes[i])
  }

  predicate SameByte(cell: Cell, b: byte) {
    cell.used ==> cell.val == b
  }

  lemma MatchesMore(cells: seq<Cell>, device: seq<byte>, addr: nat, bytes: seq<byte>)
    requires addr + |bytes| <= |device| <= |cells| && bytes == device[addr..addr + |bytes|]
    ensures MatchesBelow(cells, device, addr + |bytes|) <==>
      MatchesBelow(cells, device, addr) && PageSame(cells, addr, bytes)
  {
    forall i | MatchesBelow(cells, device, addr + |bytes|) && 0 <= i < |bytes|
      ensures SameByte(cells[addr + i], bytes[i])
    {
      assert bytes[i] == device[addr + i];
    }
    forall a | MatchesBelow(cells, device, addr) && PageSame(cells, addr, bytes) && 0 <= a < addr + |bytes| && cells[a].used
      ensures device[a] == cells[a].val
    {
      if a >= addr {
        assert SameByte(cells[addr + (a - addr)], bytes[a - addr]);
      }
    }
  }

  method PageMatches(image: Image, addr: nat, response: seq<byte>) returns (same: bool)
    requires image.Valid() && addr + |response| <= MAX_IMAGE_SIZE
    ensures same <==> PageSame(image.cells[..], addr, response)
  {
    same := true;
    for i := 0 to |response|
      invariant same <==> PageSame(image.cells[..], addr, response[..i])
    {
      var c := i + addr;
      if image.cells[c].used {
        if image.cells[c].val != response[i] {
          same := false;
        }
      }
    }
  }

  /** The end of a comparison: its result, no answer of the device, or a page written over the end of the cache. */
  datatype Comparison = Compared(same: bool) | Unanswered | Overran

  /** Reads one page, maybe from the cache, and compares it. */
  method VerifyPage(image: Image, memory: Memory, addr: nat) returns (verdict: Comparison)
    requires image.Valid() && memory.Valid() && Aligned(addr, memory.pageSize) && addr < |memory.device| <= MAX_IMAGE_SIZE
    modifies memory`tag, memory.cache
    ensures memory.Valid() && (old(memory.Coherent()) ==> memory.Coherent())
    ensures Aligned(addr + memory.pageSize, memory.pageSize)
    ensures memory.up ==> verdict != Unanswered
    ensures verdict.Compared? ==> !memory.TooLarge()
    ensures verdict.Overran? ==> memory.TooLarge()
    ensures old(memory.Coherent()) && verdict.Compared? ==>
      (MatchesBelow(image.cells[..], memory.device, addr) && verdict.same)
      == MatchesBelow(image.cells[..], memory.device, addr + memory.pageSize)
  {
    ghost var sound := memory.Coherent();
    NextPage(addr, memory.pageSize, |memory.device|);
    PageIsUnique(addr, addr, memory.pageSize);
    var response := memory.JtagRead(addr, memory.pageSize);
    match response
    case NoAnswer =>
      return Unanswered;
    case Overrun =>
      return Overran;
    case Got(bytes) =>
      var same := PageMatches(image, addr, bytes);
      if sound {
        MatchesMore(image.cells[..], memory.device, addr, bytes);
      }
      return Compared(same);
  }

  /** Used addresses lie between first and last, so that nothing below and nothing behind counts. */
  lemma UsedBounds(cells: seq<Cell>, device: seq<byte>, first: nat, last: nat, n: nat)
    requires |device| <= |cells| && UsedWithin(cells, first, last)
    ensures n <= first ==> MatchesBelow(cells, device, n) == true
    ensures n >= last ==> MatchesBelow(cells, device, n) == Matches(cells, device)
  {
  }

  /** The verifying loop: compares the used addresses, page by page, and reports at the end. */
  method Verify(image: Image, memory: Memory) returns (verdict: Comparison)
    requires image.Valid() && memory.Valid() && image.lastAddress <= |memory.device| <= MAX_IMAGE_SIZE
    modifies memory`tag, memory.cache
    ensures memory.Valid() && (old(memory.Coherent()) ==> memory.Coherent())
    ensures memory.up ==> verdict != Unanswered
    // It writes over the end of the cache as soon as there is a page to read that is too large for it.
    ensures verdict.Overran? ==> memory.TooLarge()
    ensures verdict.Compared? && memory.TooLarge() ==> PageOf(image.firstAddress, memory.pageSize) >= image.lastAddress
    ensures old(memory.Coherent()) && verdict.Compared? ==>
      verdict.same == Matches(image.cells[..], memory.device)
  {
    var p := memory.pageSize;
    var isVerified := true;
    var addr := PageAddr(image.firstAddress, p);
    ghost var sound, cells := memory.Coherent(), image.cells[..];
    UsedBounds(cells, memory.device, image.firstAddress, image.lastAddress, addr);
    while addr < image.lastAddress
      invariant memory.Valid() && Aligned(addr, p) && image.cells[..] == cells
      invariant addr == PageOf(image.firstAddress, p) || !memory.TooLarge()
      invariant sound ==> memory.Coherent()
      invariant sound ==> isVerified == MatchesBelow(cells, memory.device, addr)
      decreases |memory.device| - addr
    {
      var page := VerifyPage(image, memory, addr);
      if !page.Compared? {
        return page;
      }
      if !page.same {
        isVerified := false;
      }
      addr := addr + p;
    }
    UsedBounds(cells, memory.device, image.firstAddress, image.lastAddress, addr);
    return Compared(isVerified);
  }

  datatype Outcome = Downloaded | LinkFailed | CacheOverrun | NotVerified

  /** Programs and verifies one memory. */
  method JtagFlashImage(image: Image, memory: Memory, m: MemoryType, program: bool, verify: bool)
    returns (outcome: Outcome, ghost stop: nat)
    requires image.Valid() && image.hasData
    requires memory.Valid() && image.lastAddress <= |memory.device| <= MAX_IMAGE_SIZE
    modifies memory, memory.cache
    ensures memory.Valid()
    ensures ProgrammedBelow(image.cells[..], old(memory.device), memory.device, memory.pageSize, m, stop)
    ensures if program then outcome != LinkFailed ==> stop >= image.lastAddress else memory.device == old(memory.device)
    ensures memory.up ==> outcome != LinkFailed
    ensures outcome == NotVerified || outcome == CacheOverrun ==> verify
    ensures outcome == CacheOverrun ==> memory.TooLarge()
    ensures verify && memory.TooLarge() && PageOf(image.firstAddress, memory.pageSize) < image.lastAddress ==>
      outcome == LinkFailed || outcome == CacheOverrun
    // Verifying says whether the memory holds the image, if the cache is true and programming leaves it so.
    ensures old(memory.Coherent() && (program ==> CacheStands(image.cells[..], memory, m))) ==>
      && (outcome == NotVerified ==> !Matches(image.cells[..], memory.device))
      && (outcome == Downloaded && verify ==> Matches(image.cells[..], memory.device))
  {
    stop := 0;
    if program {
      var ok;
      ok, stop := Program(image, memory, m);
      if !ok {
        return LinkFailed, stop;
      }
    }
    if verify {
      var verdict := Verify(image, memory);
      match verdict
      case Unanswered =>
        return LinkFailed, stop;
      case Overran =>
        return CacheOverrun, stop;
      case Compared(same) =>
        if !same {
          return NotVerified, stop;
        }
    }
    return Downloaded, stop;
  }

  // ---------- a whole download ----------

  /** A page that no section has a byte for, or for flash only bytes that erased flash holds. */
  predicate PageUnused(sections: seq<Section>, m: MemoryType, base: nat, p: nat) {
    forall k :: base <= k < base + p && LastByte(sections, m, k).Some? ==>
      m == Flash && LastByte(sections, m, k).value == 0xff
  }

  /** The bytes of the memory: those of the file and 0x00 between them, and unused pages as before. */
  ghost predicate Laid(sections: seq<Section>, m: MemoryType, before: seq<byte>, after: seq<byte>, p: nat)
    requires p > 0
  {
    && |after| == |before|
    && forall a :: 0 <= a < |before| ==>
         after[a] == if PageUnused(sections, m, PageOf(a, p), p) then before[a] else CellOf(LastByte(sections, m, a)).val
  }

  /** Every byte of the file is in the memory. */
  predicate Holds(sections: seq<Section>, m: MemoryType, device: seq<byte>) {
    forall a :: 0 <= a < |device| && LastByte(sections, m, a).Some? ==> device[a] == LastByte(sections, m, a).value
  }

  /** What programming leaves of the file to the erasure before it: 0xff in pages of nothing else. */
  predicate Erased(sections: seq<Section>, device: seq<byte>, p: nat)
    requires p > 0
  {
    forall a :: 0 <= a < |device| && LastByte(sections, Flash, a).Some? && PageUnused(sections, Flash, PageOf(a, p), p) ==>
      device[a] == 0xff
  }

  /** After programming, an EEPROM holds the file; a flash does exactly when it was erased there. */
  lemma LaidHolds(sections: seq<Section>, m: MemoryType, before: seq<byte>, after: seq<byte>, p: nat)
    requires p > 0 && Laid(sections, m, before, after, p)
    ensures Holds(sections, m, after) <==> (m == Flash ==> Erased(sections, before, p))
  {
    forall a | 0 <= a < |before| && LastByte(sections, m, a).Some? && PageUnused(sections, m, PageOf(a, p), p)
      ensures m == Flash && LastByte(sections, m, a).value == 0xff && after[a] == before[a]
    {
    }
    if Holds(sections, m, after) {
    } else {
      var a :| 0 <= a < |after| && LastByte(sections, m, a).Some? && after[a] != LastByte(sections, m, a).value;
      assert PageUnused(sections, m, PageOf(a, p), p);
    }
  }

  lemma {:induction false} LastByteStands(sections: seq<Section>, m: MemoryType, a: nat, n: nat)
    requires n < |sections| && ByteOf(sections[n], m, a).Some?
    requires forall l :: n < l < |sections| ==> ByteOf(sections[l], m, a).None?
    ensures LastByte(sections, m, a) == ByteOf(sections[n], m, a)
    decreases |sections|
  {
    if n < |sections| - 1 {
      LastByteStands(sections[..|sections| - 1], m, a, n);
    }
  }

  /**
    A programmed EEPROM has each byte of a section below 0x820000 at its load address behind
    0x810000, unless a later section has one for that address.
   */
  lemma EepromByte(sections: seq<Section>, before: seq<byte>, after: seq<byte>, p: nat, n: nat, k: nat)
    requires p > 0 && Laid(sections, Eeprom, before, after, p)
    requires n < |sections| && 0x81_0000 <= sections[n].lma < 0x82_0000 && Brings(sections[n], k)
    requires sections[n].lma - 0x81_0000 + k < |before|
    requires forall l :: n < l < |sections| ==> ByteOf(sections[l], Eeprom, sections[n].lma - 0x81_0000 + k).None?
    ensures after[sections[n].lma - 0x81_0000 + k] == sections[n].contents[k]
  {
    var a := sections[n].lma - 0x81_0000 + k;
    BytesOfSection(sections[n], a);
    LastByteStands(sections, Eeprom, a, n);
  }

  /** A programmed flash has it at the load address, or it is 0xff and its page was left as it was. */
  lemma FlashByte(sections: seq<Section>, before: seq<byte>, after: seq<byte>, p: nat, n: nat, k: nat)
    requires p > 0 && Laid(sections, Flash, before, after, p)
    requires n < |sections| && sections[n].lma < 0x80_0000 && Brings(sections[n], k) && sections[n].lma + k < |before|
    requires forall l :: n < l < |sections| ==> ByteOf(sections[l], Flash, sections[n].lma + k).None?
    ensures var a := sections[n].lma + k;
      after[a] == sections[n].contents[k] || (sections[n].contents[k] == 0xff && after[a] == before[a])
  {
    var a := sections[n].lma + k;
    BytesOfSection(sections[n], a);
    LastByteStands(sections, Flash, a, n);
  }

  /** Between the bytes of a page that is written there is 0x00. */
  lemma GapByte(sections: seq<Section>, m: MemoryType, before: seq<byte>, after: seq<byte>, p: nat, a: nat, b: nat)
    requires p > 0 && Laid(sections, m, before, after, p) && a < |before| && PageOf(b, p) == PageOf(a, p)
    requires forall n :: 0 <= n < |sections| ==> ByteOf(sections[n], m, a).None?
    requires LastByte(sections, m, b).Some? && (m == Flash ==> LastByte(sections, m, b).value != 0xff)
    ensures after[a] == 0x00
  {
    LastByteIsLast(sections, m, a);
  }

  /** A page that no section has a byte for is left as it was. */
  lemma UntouchedPage(sections: seq<Section>, m: MemoryType, before: seq<byte>, after: seq<byte>, p: nat, a: nat)
    requires p > 0 && Laid(sections, m, before, after, p) && a < |before|
    requires forall n, b :: 0 <= n < |sections| && PageOf(a, p) <= b < PageOf(a, p) + p ==> ByteOf(sections[n], m, b).None?
    ensures after[a] == before[a]
  {
    forall b: nat | PageOf(a, p) <= b < PageOf(a, p) + p
      ensures LastByte(sections, m, b).None?
    {
      LastByteIsLast(sections, m, b);
    }
  }

  /** A memory that holds the file has each byte that no later section has one for. */
  lemma HeldByte(sections: seq<Section>, m: MemoryType, device: seq<byte>, n: nat, a: nat)
    requires Holds(sections, m, device) && n < |sections| && a < |device| && ByteOf(sections[n], m, a).Some?
    requires forall l :: n < l < |sections| ==> ByteOf(sections[l], m, a).None?
    ensures Some(device[a]) == ByteOf(sections[n], m, a)
  {
    LastByteStands(sections, m, a, n);
  }

  lemma ImageIsLaid(sections: seq<Section>, m: MemoryType, cells: seq<Cell>, before: seq<byte>, after: seq<byte>,
                    p: nat, stop: nat, first: nat)
    requires p > 0 && Aligned(|before|, p) && |before| <= |cells|
    requires forall a :: 0 <= a < |cells| ==> cells[a] == CellOf(LastByte(sections, m, a))
    requires ProgrammedBelow(cells, before, after, p, m, stop) && UsedWithin(cells, first, stop)
    ensures Laid(sections, m, before, after, p)
  {
    forall a | 0 <= a < |before|
      ensures after[a] == if PageUnused(sections, m, PageOf(a, p), p) then before[a] else CellOf(LastByte(sections, m, a)).val
    {
      var base := PageOf(a, p);
      ByteAfter(cells, before, after, p, m, stop, first, a);
      PagesApart(base, |before|, p);
      SkippedIsUnused(sections, m, cells, base, p);
    }
  }

  lemma SkippedIsUnused(sections: seq<Section>, m: MemoryType, cells: seq<Cell>, base: nat, p: nat)
    requires base + p <= |cells| && forall a :: 0 <= a < |cells| ==> cells[a] == CellOf(LastByte(sections, m, a))
    ensures Skipped(cells, base, p, m) <==> PageUnused(sections, m, base, p)
  {
    forall k | base <= k < base + p
      ensures cells[k] == CellOf(LastByte(sections, m, k))
    {
    }
  }

  lemma MatchesIsHolds(sections: seq<Section>, m: MemoryType, cells: seq<Cell>, device: seq<byte>)
    requires |device| <= |cells| && forall a :: 0 <= a < |cells| ==> cells[a] == CellOf(LastByte(sections, m, a))
    ensures Matches(cells, device) <==> Holds(sections, m, device)
  {
    forall a | 0 <= a < |device|
      ensures cells[a] == CellOf(LastByte(sections, m, a))
    {
    }
  }

  /** The cache is true, and stays so when the file is programmed. */
  ghost predicate CacheTrusted(sections: seq<Section>, memory: Memory, m: MemoryType, program: bool)
    requires memory.Valid()
    reads memory, memory.cache
  {
    var tag, p := memory.tag, memory.pageSize;
    && memory.Coherent()
    && (program && IsPage(tag, p, |memory.device|) ==>
          PageUnused(sections, m, tag, p) ||
          forall k :: 0 <= k < p ==> memory.cache[k] == CellOf(LastByte(sections, m, tag + k)).val)
  }

  lemma TrustedStands(sections: seq<Section>, cells: seq<Cell>, memory: Memory, m: MemoryType)
    requires memory.Valid() && |memory.device| <= |cells| && CacheTrusted(sections, memory, m, true)
    requires forall a :: 0 <= a < |cells| ==> cells[a] == CellOf(LastByte(sections, m, a))
    ensures CacheStands(cells, memory, m)
  {
    var tag, p := memory.tag, memory.pageSize;
    if IsPage(tag, p, |memory.device|) {
      SkippedIsUnused(sections, m, cells, tag, p);
      if !PageUnused(sections, m, tag, p) {
        assert memory.cache[..p] == Values(cells, tag, p);
      }
    }
  }

  /** One memory of a download, if the file has something for it. */
  method DownloadOne(ghost sections: seq<Section>, image: Image, memory: Memory, m: MemoryType, program: bool, verify: bool)
    returns (outcome: Outcome)
    requires Shows(image, sections, m) && memory.Valid() && image.lastAddress <= |memory.device| <= MAX_IMAGE_SIZE
    modifies memory, memory.cache
    ensures memory.Valid()
    ensures if program then outcome != LinkFailed ==> Laid(sections, m, old(memory.device), memory.device, memory.pageSize)
            else memory.device == old(memory.device)
    ensures memory.up ==> outcome != LinkFailed
    ensures outcome == NotVerified || outcome == CacheOverrun ==> verify
    ensures outcome == CacheOverrun ==> memory.TooLarge()
    ensures verify && memory.TooLarge() && (exists a :: 0 <= a < MAX_IMAGE_SIZE && LastByte(sections, m, a).Some?) ==>
      outcome == LinkFailed || outcome == CacheOverrun
    ensures old(CacheTrusted(sections, memory, m, program)) ==>
      && (outcome == NotVerified ==> !Holds(sections, m, memory.device))
      && (outcome == Downloaded && verify ==> Holds(sections, m, memory.device))
  {
    ghost var cells, before, p := image.cells[..], memory.device, memory.pageSize;
    outcome := Downloaded;
    ghost var stop := PageOf(image.firstAddress, p);
    if program && CacheTrusted(sections, memory, m, program) {
      TrustedStands(sections, cells, memory, m);
    }
    if exists a :: 0 <= a < MAX_IMAGE_SIZE && LastByte(sections, m, a).Some? {
      ghost var a :| 0 <= a < MAX_IMAGE_SIZE && LastByte(sections, m, a).Some?;
      assert image.cells[a].used;
    }
    if image.hasData {
      outcome, stop := JtagFlashImage(image, memory, m, program, verify);
    } else {
      NothingBelow(cells, before, p, m, image.firstAddress, image.lastAddress);
    }
    if outcome != LinkFailed {
      MatchesIsHolds(sections, m, cells, memory.device);
      if program {
        ImageIsLaid(sections, m, cells, before, memory.device, p, stop, image.firstAddress);
      }
    }
  }

  /**
    The whole download: the images of the flash and the EEPROM from the sections
    of the file, then each programmed and verified as asked for.
   */
  method DownloadToTarget(sections: seq<Section>, flash: Memory, eeprom: Memory, program: bool, verify: bool)
    returns (outcome: Outcome)
    requires forall s :: s in sections ==> Fits(s)
    requires flash != eeprom && flash.cache != eeprom.cache && flash.Valid() && eeprom.Valid()
    requires Top(sections, Flash) <= |flash.device| <= MAX_IMAGE_SIZE
    requires Top(sections, Eeprom) <= |eeprom.device| <= MAX_IMAGE_SIZE
    modifies flash, flash.cache, eeprom, eeprom.cache
    ensures flash.Valid() && eeprom.Valid()
    // Programming lays the file out in both memories; without it they stay as they were.
    ensures outcome == Downloaded && program ==>
      Laid(sections, Flash, old(flash.device), flash.device, flash.pageSize) &&
      Laid(sections, Eeprom, old(eeprom.device), eeprom.device, eeprom.pageSize)
    ensures flash.up && eeprom.up ==> outcome != LinkFailed
    ensures !program ==> flash.device == old(flash.device) && eeprom.device == old(eeprom.device)
    // Verifying writes over the end of a cache that is too small for the pages.
    ensures outcome == CacheOverrun ==> verify && (flash.TooLarge() || eeprom.TooLarge())
    ensures verify && flash.TooLarge() && (exists a :: 0 <= a < MAX_IMAGE_SIZE && LastByte(sections, Flash, a).Some?) ==>
      outcome == LinkFailed || outcome == CacheOverrun
    // With true caches, a verified download is one that both memories hold.
    ensures old(CacheTrusted(sections, flash, Flash, program) && CacheTrusted(sections, eeprom, Eeprom, program)) ==>
      && (outcome == Downloaded && verify ==>
            Holds(sections, Flash, flash.device) && Holds(sections, Eeprom, eeprom.device))
      && (outcome == NotVerified ==>
            !Holds(sections, Flash, flash.device) || !Holds(sections, Eeprom, eeprom.device))
      // Programming a flash that was erased where it matters never fails to verify.
      && (program && Erased(sections, old(flash.device), flash.pageSize) ==> outcome != NotVerified)
  {
    var flashimg, eepromimg := LoadSections(sections);
    outcome := DownloadOne(sections, flashimg, flash, Flash, program, verify);
    if program && outcome != LinkFailed {
      LaidHolds(sections, Flash, old(flash.device), flash.device, flash.pageSize);
    }
    if outcome != Downloaded {
      return;
    }
    outcome := DownloadOne(sections, eepromimg, eeprom, Eeprom, program, verify);
    if program && outcome != LinkFailed {
      LaidHolds(sections, Eeprom, old(eeprom.device), eeprom.device, eeprom.pageSize);
    }
  }
}
