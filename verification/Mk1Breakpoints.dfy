/**
  The breakpoints of the mkI emulator (src/jtagbp.cc): two arrays, and the packing of
  their entries into the emulator's four places Z0, Z1, X and Y.
 */
module Mk1Breakpoints {
  import opened Bytes
  import Emulator = Ice
  import opened Wrappers

  const MAX_BREAKPOINTS_CODE := 4
  const MAX_BREAKPOINTS_DATA := 2
  const MAX_BREAKPOINTS := 4

  datatype BpType = Code | ReadData | WriteData | AccessData

  datatype Breakpoint = Breakpoint(address: uint32, kind: BpType)

  /**
    What was last written of each place: Z0 and Z1 by address, X and Y by address and mode.
    The emulator's addresses have sixteen bits.
   */
  datatype Ice = Ice(z0: Option<uint16>, z1: Option<uint16>, x: uint16, y: uint16, mode: bv8)

  // ---------- the mode byte ----------

  function KindBits(kind: BpType): bv8 {
    match kind
    case ReadData => 0x00
    case WriteData => 0x01
    case AccessData => 0x02
    case Code => 0x03
  }

  function KindOf(bits: bv8): BpType {
    if bits == 0x00 then ReadData else if bits == 0x01 then WriteData else if bits == 0x02 then AccessData else Code
  }

  /** The breakpoints that X and Y stand for by the mode byte; Y counts only with X. */
  function XY(ice: Ice): seq<Breakpoint> {
    if ice.mode & 0x20 == 0 then
      []
    else
      [Breakpoint(ice.x, KindOf((ice.mode >> 2) & 0x03))] +
      (if ice.mode & 0x10 == 0 then [] else [Breakpoint(ice.y, KindOf(ice.mode & 0x03))])
  }

  /** The breakpoint that Z0 or Z1 stands for. */
  function InZ(z: Option<uint16>): seq<Breakpoint> {
    if z.Some? then [Breakpoint(z.value, Code)] else []
  }

  /** All that the emulator holds, place by place. */
  function Held(ice: Ice): seq<Breakpoint> {
    InZ(ice.z0) + InZ(ice.z1) + XY(ice)
  }

  // ---------- what stops the target ----------

  type Access = Emulator.Access

  /** Two mode bits beside an address: reads, writes, both, or the program counter in words. */
  predicate PlaceStops(bits: bv8, address: uint16, a: Access) {
    match a
    case Fetch(pc) => bits == 0x03 && address == pc / 2
    case Read(x) => (bits == 0x00 || bits == 0x02) && address == x
    case Write(x) => (bits == 0x01 || bits == 0x02) && address == x
  }

  /** Z0 and Z1 stop on fetches; X counts with bit 5 of the mode byte, Y with bits 5 and 4. */
  predicate Stops(ice: Ice, a: Access) {
    || (a.Fetch? && (ice.z0 == Some(a.pc / 2) || ice.z1 == Some(a.pc / 2)))
    || (ice.mode & 0x20 != 0 && PlaceStops((ice.mode >> 2) & 0x03, ice.x, a))
    || (ice.mode & 0x20 != 0 && ice.mode & 0x10 != 0 && PlaceStops(ice.mode & 0x03, ice.y, a))
  }

  predicate AsksFor(bp: Breakpoint, a: Access) {
    match a
    case Fetch(pc) => bp.kind == Code && bp.address == pc / 2
    case Read(x) => (bp.kind == ReadData || bp.kind == AccessData) && bp.address == x
    case Write(x) => (bp.kind == WriteData || bp.kind == AccessData) && bp.address == x
  }

  ghost predicate OneAsksFor(bps: seq<Breakpoint>, a: Access) {
    exists i :: 0 <= i < |bps| && AsksFor(bps[i], a)
  }

  lemma OneAsksForEither(s: seq<Breakpoint>, t: seq<Breakpoint>, a: Access)
    ensures OneAsksFor(s + t, a) <==> OneAsksFor(s, a) || OneAsksFor(t, a)
  {
    if i :| 0 <= i < |s| && AsksFor(s[i], a) {
      assert (s + t)[i] == s[i];
    }
    if i :| 0 <= i < |t| && AsksFor(t[i], a) {
      assert (s + t)[|s| + i] == t[i];
    }
  }

  lemma BitsStop(bits: bv8, address: uint16, a: Access)
    requires bits < 4
    ensures PlaceStops(bits, address, a) <==> AsksFor(Breakpoint(address, KindOf(bits)), a)
  {
  }

  lemma LowBits(mode: bv8)
    ensures (mode >> 2) & 0x03 < 4 && mode & 0x03 < 4
  {
  }

  lemma OneBreakpoint(bp: Breakpoint, a: Access)
    ensures OneAsksFor([bp], a) <==> AsksFor(bp, a)
  {
    assert AsksFor([bp][0], a) == AsksFor(bp, a);
  }

  /** The target stops exactly on what the breakpoints held ask for. */
  lemma HeldStops(ice: Ice, a: Access)
    ensures Stops(ice, a) <==> OneAsksFor(Held(ice), a)
  {
    ZStops(ice.z0, a);
    ZStops(ice.z1, a);
    XYStops(ice, a);
    OneAsksForEither(InZ(ice.z0), InZ(ice.z1), a);
    OneAsksForEither(InZ(ice.z0) + InZ(ice.z1), XY(ice), a);
  }

  ghost predicate StopsFor(ice: Ice, bps: seq<Breakpoint>) {
    forall a :: Stops(ice, a) <==> OneAsksFor(bps, a)
  }

  lemma AllHeldStop(ice: Ice)
    ensures StopsFor(ice, Held(ice))
  {
    forall a
      ensures Stops(ice, a) <==> OneAsksFor(Held(ice), a)
    {
      HeldStops(ice, a);
    }
  }

  lemma ZStops(z: Option<uint16>, a: Access)
    ensures OneAsksFor(InZ(z), a) <==> a.Fetch? && z == Some(a.pc / 2)
  {
    if z.Some? {
      OneBreakpoint(Breakpoint(z.value, Code), a);
    }
  }

  lemma XYStops(ice: Ice, a: Access)
    ensures OneAsksFor(XY(ice), a) <==>
      ice.mode & 0x20 != 0 && (PlaceStops((ice.mode >> 2) & 0x03, ice.x, a) ||
                               (ice.mode & 0x10 != 0 && PlaceStops(ice.mode & 0x03, ice.y, a)))
  {
    var x, y := Breakpoint(ice.x, KindOf((ice.mode >> 2) & 0x03)), Breakpoint(ice.y, KindOf(ice.mode & 0x03));
    LowBits(ice.mode);
    BitsStop((ice.mode >> 2) & 0x03, ice.x, a);
    BitsStop(ice.mode & 0x03, ice.y, a);
    OneBreakpoint(x, a);
    OneBreakpoint(y, a);
    OneAsksForEither([x], [y], a);
    OneAsksForEither([x], [], a);
  }

  lemma ModeOfOne(kind: BpType)
    ensures var mode := 0x20 | (KindBits(kind) << 2);
      mode & 0x20 != 0 && mode & 0x10 == 0 && KindOf((mode >> 2) & 0x03) == kind
  {
  }

  lemma ModeOfTwo(first: BpType, second: BpType)
    ensures var mode := 0x20 | (KindBits(first) << 2) | 0x10 | KindBits(second);
      mode & 0x20 != 0 && mode & 0x10 != 0 && KindOf((mode >> 2) & 0x03) == first && KindOf(mode & 0x03) == second
  {
  }

  // ---------- the table ----------

  function Removed(s: seq<Breakpoint>, i: nat): seq<Breakpoint>
    requires i < |s|
  {
    s[..i] + s[i + 1..]
  }

  /** The first entry like that is gone, if there was one. */
  ghost predicate Deleted(before: seq<Breakpoint>, after: seq<Breakpoint>, bp: Breakpoint, ok: bool) {
    if ok then
      exists i :: 0 <= i < |before| && before[i] == bp && bp !in before[..i] && after == Removed(before, i)
    else
      bp !in before && after == before
  }

  predicate AllCode(bps: seq<Breakpoint>) {
    forall i :: 0 <= i < |bps| ==> bps[i].kind == Code
  }

  predicate AllData(bps: seq<Breakpoint>) {
    forall i :: 0 <= i < |bps| ==> bps[i].kind != Code
  }

  lemma DeletedStays(before: seq<Breakpoint>, after: seq<Breakpoint>, bp: Breakpoint, ok: bool)
    requires Deleted(before, after, bp, ok)
    ensures AllCode(before) ==> AllCode(after)
    ensures AllData(before) ==> AllData(after)
  {
  }

  /** Closes the gap that the removed entry leaves. */
  method Squash(bps: array<Breakpoint>, n: nat, bp: Breakpoint) returns (ok: bool)
    requires n <= bps.Length
    modifies bps
    ensures ok ==> n > 0
    ensures Deleted(old(bps[..n]), bps[..if ok then n - 1 else n], bp, ok)
    ensures !ok ==> bps[..] == old(bps[..])
  {
    ghost var before := bps[..n];
    for i := 0 to n
      invariant bp !in before[..i] && bps[..] == old(bps[..])
    {
      if bps[i] == bp {
        forall k | i <= k < n - 1 {
          bps[k] := bps[k + 1];
        }
        assert bps[..n - 1] == Removed(before, i);
        return true;
      }
    }
    assert before[..n] == before;
    return false;
  }

  // ---------- packing ----------

  /** The address fits a place of the emulator. */
  predicate Fits(bp: Breakpoint) {
    bp.address < 0x1_0000
  }

  /** Z0 or Z1 after the write; an address that does not fit leaves the space of these two. */
  function Placed(bp: Breakpoint, before: Option<uint16>): Option<uint16> {
    if Fits(bp) then Some(bp.address) else before
  }

  /** The breakpoints that Z0 and Z1 leave. */
  function Rest(code: seq<Breakpoint>, data: seq<Breakpoint>): seq<Breakpoint> {
    (if |code| > 2 then code[2..] else []) + data
  }

  function ModeOf(rest: seq<Breakpoint>): bv8
    requires rest != []
  {
    if |rest| == 1 then 0x20 | (KindBits(rest[0].kind) << 2)
    else 0x20 | (KindBits(rest[0].kind) << 2) | 0x10 | KindBits(rest[1].kind)
  }

  /** The places after an update: the first two code breakpoints in Z0 and Z1, the others in X and Y. */
  function Packed(ice: Ice, code: seq<Breakpoint>, data: seq<Breakpoint>): Ice {
    var rest := Rest(code, data);
    Ice(if |code| > 0 then Placed(code[0], ice.z0) else ice.z0,
        if |code| > 1 then Placed(code[1], ice.z1) else ice.z1,
        if |rest| > 0 then rest[0].address % 0x1_0000 else ice.x,
        if |rest| > 1 then rest[1].address % 0x1_0000 else ice.y,
        if |rest| > 0 then ModeOf(rest) else ice.mode)
  }

  predicate Table(code: seq<Breakpoint>, data: seq<Breakpoint>) {
    && |code| + |data| <= MAX_BREAKPOINTS && |data| <= MAX_BREAKPOINTS_DATA
    && AllCode(code) && AllData(data)
  }

  /** What becomes of an address in X or Y: its high part is lost. */
  function Cut(bp: Breakpoint): Breakpoint {
    bp.(address := bp.address % 0x1_0000)
  }

  /** X and Y hold what Z0 and Z1 leave, as far as it fits, if that is anything; else they are as they were. */
  lemma XYHoldsRest(ice: Ice, code: seq<Breakpoint>, data: seq<Breakpoint>)
    requires Table(code, data)
    ensures var rest := Rest(code, data);
      && |rest| <= 2
      && XY(Packed(ice, code, data)) ==
           if rest == [] then XY(ice) else if |rest| == 1 then [Cut(rest[0])] else [Cut(rest[0]), Cut(rest[1])]
  {
    var rest := Rest(code, data);
    if |rest| == 1 {
      ModeOfOne(rest[0].kind);
    } else if |rest| == 2 {
      ModeOfTwo(rest[0].kind, rest[1].kind);
    }
  }

  predicate NothingStale(ice: Ice, code: seq<Breakpoint>, data: seq<Breakpoint>) {
    (code == [] ==> ice.z0 == None) && (|code| < 2 ==> ice.z1 == None) && (Rest(code, data) == [] ==> XY(ice) == [])
  }

  predicate AllFit(bps: seq<Breakpoint>) {
    forall i :: 0 <= i < |bps| ==> Fits(bps[i])
  }

  lemma XYHoldsThoseThatFit(ice: Ice, code: seq<Breakpoint>, data: seq<Breakpoint>)
    requires Table(code, data) && AllFit(Rest(code, data))
    ensures XY(Packed(ice, code, data)) == if Rest(code, data) == [] then XY(ice) else Rest(code, data)
  {
    var rest := Rest(code, data);
    XYHoldsRest(ice, code, data);
    if |rest| == 1 {
      assert Cut(rest[0]) == rest[0];
    } else if |rest| == 2 {
      assert Cut(rest[0]) == rest[0] && Cut(rest[1]) == rest[1];
    }
  }

  /** Whatever the emulator holds fits. */
  lemma HeldFits(ice: Ice)
    ensures AllFit(Held(ice))
  {
  }

  lemma NoCodeHolds(z0: Option<uint16>, z1: Option<uint16>, xy: seq<Breakpoint>, before: seq<Breakpoint>,
                    data: seq<Breakpoint>)
    requires xy == if data == [] then before else data
    requires AllData(data)
    ensures InZ(z0) + InZ(z1) + xy == data <==> z0 == None && z1 == None && (data == [] ==> before == [])
  {
    var all := InZ(z0) + InZ(z1) + xy;
    if z0 == None && z1 == None {
      assert all == xy;
    } else {
      assert all[0].kind == Code;
    }
  }

  lemma OneCodeHolds(c: Breakpoint, z1: Option<uint16>, xy: seq<Breakpoint>, before: seq<Breakpoint>, data: seq<Breakpoint>)
    requires xy == if data == [] then before else data
    requires AllData(data)
    ensures [c] + InZ(z1) + xy == [c] + data <==> z1 == None && (data == [] ==> before == [])
  {
    var all, wanted := [c] + InZ(z1) + xy, [c] + data;
    if z1 == None {
      assert all == [c] + xy && all[1..] == xy && wanted[1..] == data;
    } else {
      assert all[1].kind == Code;
      assert |data| > 0 ==> wanted[1] == data[0];
    }
  }

  lemma TwoCodesHold(c: Breakpoint, d: Breakpoint, xy: seq<Breakpoint>, before: seq<Breakpoint>, rest: seq<Breakpoint>)
    requires xy == if rest == [] then before else rest
    ensures [c] + [d] + xy == [c, d] + rest <==> (rest == [] ==> before == [])
  {
    var all, wanted := [c] + [d] + xy, [c, d] + rest;
    assert all[2..] == xy && wanted[2..] == rest;
    assert all == [c, d] + xy;
  }

  lemma FittingTableHeld(ice: Ice, code: seq<Breakpoint>, data: seq<Breakpoint>)
    requires Table(code, data) && AllFit(code) && AllFit(data)
    ensures Held(Packed(ice, code, data)) == code + data <==> NothingStale(ice, code, data)
  {
    var p, rest := Packed(ice, code, data), Rest(code, data);
    XYHoldsThoseThatFit(ice, code, data);
    if |code| == 0 {
      NoCodeHolds(ice.z0, ice.z1, XY(p), XY(ice), data);
      assert rest == data && code + data == data;
    } else if |code| == 1 {
      OneCodeHolds(code[0], ice.z1, XY(p), XY(ice), data);
      assert rest == data && InZ(p.z0) == [code[0]] == code;
    } else {
      TwoCodesHold(code[0], code[1], XY(p), XY(ice), rest);
      assert InZ(p.z0) == [code[0]] && InZ(p.z1) == [code[1]];
      assert code + data == [code[0], code[1]] + rest;
    }
  }

  /**
    After an update the emulator holds just the breakpoints of the table, in order,
    exactly when all their addresses fit and the places for which there are none held
    nothing before.
   */
  lemma UpdateHoldsTable(ice: Ice, code: seq<Breakpoint>, data: seq<Breakpoint>)
    requires Table(code, data)
    ensures Held(Packed(ice, code, data)) == code + data <==>
      AllFit(code + data) && NothingStale(ice, code, data)
  {
    HeldFits(Packed(ice, code, data));
    if AllFit(code + data) {
      assert forall i :: 0 <= i < |code| ==> code[i] == (code + data)[i];
      assert forall i :: 0 <= i < |data| ==> data[i] == (code + data)[|code| + i];
      FittingTableHeld(ice, code, data);
    }
  }

  class Jtag1 {
    const bpCode: array<Breakpoint>
    const bpData: array<Breakpoint>
    var numBreakpointsCode: nat
    var numBreakpointsData: nat
    var ice: Ice

    ghost predicate Valid()
      reads this, bpCode, bpData
    {
      && bpCode != bpData && bpCode.Length == MAX_BREAKPOINTS_CODE && bpData.Length == MAX_BREAKPOINTS_DATA
      && numBreakpointsCode <= MAX_BREAKPOINTS_CODE && numBreakpointsData <= MAX_BREAKPOINTS_DATA
      && numBreakpointsCode + numBreakpointsData <= MAX_BREAKPOINTS
      && AllCode(bpCode[..numBreakpointsCode]) && AllData(bpData[..numBreakpointsData])
    }

    /** The breakpoints of a kind of memory, in the order they were added. */
    ghost function CodeList(): seq<Breakpoint>
      requires Valid()
      reads this, bpCode, bpData
    {
      bpCode[..numBreakpointsCode]
    }

    ghost function DataList(): seq<Breakpoint>
      requires Valid()
      reads this, bpCode, bpData
    {
      bpData[..numBreakpointsData]
    }

    constructor ()
      ensures Valid() && fresh(bpCode) && fresh(bpData) && CodeList() == [] && DataList() == [] && Held(ice) == []
    {
      bpCode := new Breakpoint[MAX_BREAKPOINTS_CODE](_ => Breakpoint(0, Code));
      bpData := new Breakpoint[MAX_BREAKPOINTS_DATA](_ => Breakpoint(0, ReadData));
      numBreakpointsCode, numBreakpointsData := 0, 0;
      ice := Ice(None, None, 0, 0, 0x00);
    }

    /** Refused when the four places, or those that the kind can use, are taken. */
    method AddBreakpoint(address: uint32, kind: BpType) returns (ok: bool)
      requires Valid()
      modifies this`numBreakpointsCode, this`numBreakpointsData, bpCode, bpData
      ensures Valid()
      ensures ok <==> |old(CodeList())| + |old(DataList())| < 4 && (kind != Code ==> |old(DataList())| < 2)
      ensures CodeList() == old(CodeList()) + if ok && kind == Code then [Breakpoint(address / 2, Code)] else []
      ensures DataList() == old(DataList()) + if ok && kind != Code then [Breakpoint(address, kind)] else []
    {
      if numBreakpointsCode + numBreakpointsData == MAX_BREAKPOINTS {
        return false;
      }
      if kind == Code {
        if numBreakpointsCode == MAX_BREAKPOINTS_CODE {
          return false;
        }
        bpCode[numBreakpointsCode] := Breakpoint(address / 2, kind);
        numBreakpointsCode := numBreakpointsCode + 1;
      } else {
        if numBreakpointsData == MAX_BREAKPOINTS_DATA {
          return false;
        }
        bpData[numBreakpointsData] := Breakpoint(address, kind);
        numBreakpointsData := numBreakpointsData + 1;
      }
      return true;
    }

    /** Removes the first breakpoint at the address of that kind, and keeps the others in order. */
    method DeleteBreakpoint(address: uint32, kind: BpType) returns (ok: bool)
      requires Valid()
      modifies this`numBreakpointsCode, this`numBreakpointsData, bpCode, bpData
      ensures Valid()
      ensures kind == Code ==>
        DataList() == old(DataList()) && Deleted(old(CodeList()), CodeList(), Breakpoint(address / 2, Code), ok)
      ensures kind != Code ==>
        CodeList() == old(CodeList()) && Deleted(old(DataList()), DataList(), Breakpoint(address, kind), ok)
    {
      ghost var code, data := CodeList(), DataList();
      if kind == Code {
        ok := Squash(bpCode, numBreakpointsCode, Breakpoint(address / 2, kind));
        if ok {
          numBreakpointsCode := numBreakpointsCode - 1;
        }
        DeletedStays(code, bpCode[..numBreakpointsCode], Breakpoint(address / 2, kind), ok);
      } else {
        ok := Squash(bpData, numBreakpointsData, Breakpoint(address, kind));
        if ok {
          numBreakpointsData := numBreakpointsData - 1;
        }
        DeletedStays(data, bpData[..numBreakpointsData], Breakpoint(address, kind), ok);
      }
    }

    method DeleteAllBreakpoints()
      requires Valid()
      modifies this`numBreakpointsCode, this`numBreakpointsData
      ensures Valid() && CodeList() == [] && DataList() == []
    {
      numBreakpointsData, numBreakpointsCode := 0, 0;
    }

    /** The parameters of X, and below of Y, are set by high and low byte. */
    method SetX(address: uint32)
      modifies this`ice
      ensures ice == old(ice).(x := address % 0x1_0000)
    {
      ice := ice.(x := ((address / 0x100) % 0x100) * 0x100 + ice.x % 0x100);
      ice := ice.(x := (ice.x / 0x100) * 0x100 + address % 0x100);
      TwoBytes(address);
    }

    method SetY(address: uint32)
      modifies this`ice
      ensures ice == old(ice).(y := address % 0x1_0000)
    {
      ice := ice.(y := ((address / 0x100) % 0x100) * 0x100 + ice.y % 0x100);
      ice := ice.(y := (ice.y / 0x100) * 0x100 + address % 0x100);
      TwoBytes(address);
    }

    /** What X and Y are still to be set to, when so many code and data breakpoints have a place. */
    ghost function Left(bpC: nat, bpD: nat): seq<Breakpoint>
      requires Valid() && bpC <= numBreakpointsCode && bpD <= numBreakpointsData
      reads this, bpCode, bpData
    {
      CodeList()[bpC..] + DataList()[bpD..]
    }

    /** The next breakpoint that has no place yet, code before data. */
    method FindNext(bpC: nat, bpD: nat) returns (bp: Option<Breakpoint>, nextC: nat, nextD: nat)
      requires Valid() && bpC <= numBreakpointsCode && bpD <= numBreakpointsData
      ensures bpC <= nextC <= numBreakpointsCode && bpD <= nextD <= numBreakpointsData
      ensures bp == None <==> Left(bpC, bpD) == []
      ensures bp.Some? ==> Left(bpC, bpD) == [bp.value] + Left(nextC, nextD)
    {
      bp, nextC, nextD := None, bpC, bpD;
      if bpC < numBreakpointsCode {
        bp, nextC := Some(bpCode[bpC]), bpC + 1;
        assert CodeList()[bpC..] == [bpCode[bpC]] + CodeList()[bpC + 1..];
      } else if bpD < numBreakpointsData {
        bp, nextD := Some(bpData[bpD]), bpD + 1;
        assert DataList()[bpD..] == [bpData[bpD]] + DataList()[bpD + 1..];
      }
    }

    /** Z0 or Z1: the write goes to the breakpoint space as long as the address fits. */
    method WriteZ(which: bool, bp: Breakpoint)
      modifies this`ice
      ensures ice == if which then old(ice).(z1 := Placed(bp, old(ice).z1)) else old(ice).(z0 := Placed(bp, old(ice).z0))
    {
      if bp.address < 0x1_0000 {
        ice := if which then ice.(z1 := Some(bp.address)) else ice.(z0 := Some(bp.address));
      }
    }

    /**
      Writes every breakpoint to a place of its own, code before data, data to X and Y only.
      A place that nothing is left for is not cleared.
     */
    method UpdateBreakpoints()
      requires Valid()
      modifies this`ice
      ensures ice == Packed(old(ice), CodeList(), DataList())
      ensures Held(ice) == CodeList() + DataList() <==>
        AllFit(CodeList() + DataList()) && NothingStale(old(ice), CodeList(), DataList())
      // Then the target stops exactly on what the table asks for.
      ensures AllFit(CodeList() + DataList()) && NothingStale(old(ice), CodeList(), DataList()) ==>
        StopsFor(ice, CodeList() + DataList())
    {
      UpdateHoldsTable(ice, CodeList(), DataList());
      var bpC, bpD := 0, 0;
      if bpC < numBreakpointsCode {
        WriteZ(false, bpCode[bpC]);
        bpC := bpC + 1;
      }
      if bpC < numBreakpointsCode {
        WriteZ(true, bpCode[bpC]);
        bpC := bpC + 1;
      }
      assert Left(bpC, bpD) == Rest(CodeList(), DataList());
      SetXY(bpC, bpD);
      AllHeldStop(ice);
    }

    /** The breakpoints that are left, in X and Y, and the mode byte for them. */
    method SetXY(c: nat, d: nat)
      requires Valid() && c <= numBreakpointsCode && d <= numBreakpointsData && |Left(c, d)| <= 2
      modifies this`ice
      ensures var rest := Left(c, d);
        ice == if rest == [] then old(ice)
               else if |rest| == 1 then old(ice).(x := rest[0].address % 0x1_0000, mode := ModeOf(rest))
               else old(ice).(x := rest[0].address % 0x1_0000, y := rest[1].address % 0x1_0000, mode := ModeOf(rest))
    {
      var bp, bpC, bpD := FindNext(c, d);
      if bp.Some? {
        SetX(bp.value.address);
        var bpMode: bv8 := 0x20 | (KindBits(bp.value.kind) << 2);
        var second;
        second, bpC, bpD := FindNext(bpC, bpD);
        if second.Some? {
          SetY(second.value.address);
          bpMode := bpMode | 0x10 | KindBits(second.value.kind);
        }
        ice := ice.(mode := bpMode);
      }
    }
  }

  lemma TwoBytes(address: uint32)
    ensures ((address / 0x100) % 0x100) * 0x100 + address % 0x100 == address % 0x1_0000
  {
    var high, rest := address / 0x1_0000, address % 0x1_0000;
    assert address / 0x100 == high * 0x100 + rest / 0x100;
  }
}
