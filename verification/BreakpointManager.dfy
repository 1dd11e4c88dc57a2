/**
  The mkII breakpoint manager of src/jtag2bp.cc: the operations on the table, the
  allocation of slots and the transfer to the ICE.
 */
module BreakpointManager {
  import opened Bytes
  import opened Ice
  import opened BreakpointTable
  import opened BreakpointLayout
  import opened BreakpointRoom
  import opened BreakpointTransfer
  import opened BreakpointSteps

  const DEVFL_NO_SOFTBP := 1

  class Jtag2 {
    const bp: array<Breakpoint2>
    const deviceFlags: nat
    const useDebugWire: bool

    /** The device at the other end of the link. */
    var ice: Ice
    /** The index of the end marker. */
    ghost var count: nat

    function Cfg(): Config {
      Config(deviceFlags != DEVFL_NO_SOFTBP, useDebugWire)
    }

    ghost predicate Valid()
      reads this, bp
    {
      Shaped(bp[..], count)
    }

    /** The invariant of every run that strands no breakpoint. */
    ghost predicate InStep()
      reads this, bp
    {
      Steady(bp[..], count, ice, Cfg())
    }

    /** The moment, with the end of the last exchange. */
    ghost function Now(reply: Reply): Moment
      reads this, bp
    {
      Moment(bp[..], count, ice, reply)
    }

    /** The enabled breakpoints. */
    ghost function Enabled(): set<(uint32, BpType)>
      requires Valid()
      reads this, bp
    {
      EnabledSet(bp[..], count)
    }

    constructor (deviceFlags: nat, useDebugWire: bool)
      ensures Valid() && InStep() && fresh(bp)
      ensures this.deviceFlags == deviceFlags && this.useDebugWire == useDebugWire
      ensures IsStart(Now(Done)) && ice == IDLE && count == 0 && Enabled() == {} && Settled(bp[..], count)
    {
      bp := new Breakpoint2[MAX_TOTAL_BREAKPOINTS2](_ => DEFAULT_BP);
      this.deviceFlags := deviceFlags;
      this.useDebugWire := useDebugWire;
      ice := IDLE;
      count := 0;
      new;
      assert Placement(bp[..], 0, Numbers(bp[..]), Cfg());
    }

    method CodeBreakpointAt(address: uint32) returns (found: bool)
      requires Valid()
      ensures found <==> (address, Code) in Enabled()
    {
      var i := 0;
      while !bp[i].last
        invariant i <= count
        invariant forall j :: 0 <= j < i ==> !(bp[j].address == address && bp[j].kind == Code && bp[j].enabled)
        decreases count - i
      {
        if bp[i].address == address && bp[i].kind == Code && bp[i].enabled {
          assert bp[..][i] == bp[i];
          return true;
        }
        i := i + 1;
      }
      return false;
    }

    method CodeBreakpointBetween(start: uint32, end: uint32) returns (found: bool)
      requires Valid()
      ensures found <==> exists a: uint32 :: start <= a < end && (a, Code) in Enabled()
    {
      var i := 0;
      while !bp[i].last
        invariant i <= count
        invariant forall j :: 0 <= j < i ==> !(start <= bp[j].address < end && bp[j].kind == Code && bp[j].enabled)
        decreases count - i
      {
        if start <= bp[i].address && bp[i].address < end && bp[i].kind == Code && bp[i].enabled {
          assert bp[..][i] == bp[i];
          assert (bp[i].address, Code) in Enabled();
          return true;
        }
        i := i + 1;
      }
      return false;
    }

    // ---------- layout ----------

    /** The first slot from a given one that is still to be given away; 5 if there is none. */
    method NextFree(remaining: array<bool>, from: nat) returns (n: nat)
      requires remaining.Length == MAX_BREAKPOINTS2 + 2 && from <= MAX_BREAKPOINTS2
      requires !remaining[MAX_BREAKPOINTS2 + 1]
      ensures from <= n <= MAX_BREAKPOINTS2 + 1
      ensures n <= MAX_BREAKPOINTS2 ==> remaining[n]
      ensures forall s :: from <= s < n ==> !remaining[s]
    {
      n := from;
      while !remaining[n] && n <= MAX_BREAKPOINTS2
        invariant from <= n <= MAX_BREAKPOINTS2 + 1
        invariant forall s :: from <= s < n ==> !remaining[s]
        decreases MAX_BREAKPOINTS2 + 1 - n
      {
        n := n + 1;
      }
    }

    /** Takes the slots of the stable breakpoints out of the free ones. */
    method TakeStable(remaining: array<bool>) returns (ghost own: seq<int>)
      requires Valid() && remaining.Length == 6
      requires remaining[..] == [false, !useDebugWire, !useDebugWire, !useDebugWire, false, false]
      modifies remaining
      ensures Books(bp[..], count, {}, own, remaining[..], Cfg())
    {
      own := [-1, -1, -1, -1];
      var i := 0;
      while !bp[i].last
        invariant i <= count
        invariant |own| == 4 && !remaining[0] && !remaining[4] && !remaining[5]
        invariant forall s :: 1 <= s <= 3 ==> (remaining[s] <==> !useDebugWire && own[s] == -1)
        invariant forall s :: 1 <= s <= 3 && own[s] != -1 ==>
          0 <= own[s] < i && bp[own[s]].bpnum == s && Stable(bp[own[s]])
        invariant forall j :: 0 <= j < i && Stable(bp[j]) && 1 <= bp[j].bpnum <= 3 ==> own[bp[j].bpnum] != -1
        decreases count - i
      {
        if bp[i].enabled && !bp[i].toremove && bp[i].icestatus {
          remaining[bp[i].bpnum] := false;
          own := own[bp[i].bpnum := i];
        }
        i := i + 1;
      }
    }

    /** Writes one number and takes its slot out of the free ones. */
    method Give(remaining: array<bool>, i: nat, n: byte, ghost t0: Table, ghost placed: set<nat>, ghost own: seq<int>,
                ghost good: bool)
      returns (ghost own': seq<int>)
      requires Valid() && remaining.Length == 6 && Renumbered(t0, count, bp[..])
      requires i < count && Pending(bp[i]) && i !in placed && n <= 3
      requires good ==> Books(bp[..], count, placed, own, remaining[..], Cfg())
      requires good && n != 0 ==> remaining[n] && SlotFits(bp[i].kind, n)
      requires good && n == 0 ==> bp[i].kind == Code && Cfg().softwarebps && !remaining[1] && !remaining[2] && !remaining[3]
      requires !remaining[0]
      modifies bp, remaining
      ensures bp[..] == old(bp[..])[i := old(bp[i]).(bpnum := n)]
      ensures remaining[..] == old(remaining[..])[n := false]
      ensures Valid() && Renumbered(t0, count, bp[..])
      ensures good ==> Books(bp[..], count, placed + {i}, own', remaining[..], Cfg())
    {
      ghost var t, free := bp[..], remaining[..];
      own' := own;
      RenumberTwice(t0, count, t, i, n);
      if good {
        if n == 0 {
          AssignSoftKeepsBooks(t, count, placed, own, free, Cfg(), i);
        } else {
          AssignKeepsBooks(t, count, placed, own, free, Cfg(), i, n);
          own' := own[n := i];
        }
      }
      bp[i] := bp[i].(bpnum := n);
      remaining[n] := false;
      assert bp[..] == t[i := t[i].(bpnum := n)];
      assert remaining[..] == free[n := false];
      assert n == 0 ==> remaining[..] == free;
    }

    /** One turn of the data loop: entry i gets its slot if it is a pending data breakpoint. */
    method PlaceDataAt(i: nat, remaining: array<bool>, ghost t0: Table, ghost own: seq<int>)
      returns (room: bool, ghost own': seq<int>)
      requires Valid() && remaining.Length == 6 && i < count
      requires Shaped(t0, count) && Renumbered(t0, count, bp[..])
      requires Books(bp[..], count, PendingData(t0, i), own, remaining[..], Cfg())
      modifies bp, remaining
      ensures Valid() && Renumbered(t0, count, bp[..])
      ensures !remaining[0] && !remaining[4] && !remaining[5]
      ensures room ==> Books(bp[..], count, PendingData(t0, i + 1), own', remaining[..], Cfg())
      ensures !room ==> !Room(t0, count, Cfg())
    {
      room, own' := true, own;
      PendingSteps(t0, count, bp[..], i);
      if bp[i].enabled && bp[i].toadd && (bp[i].kind == ReadData || bp[i].kind == WriteData || bp[i].kind == AccessData) {
        var bpnum := NextFree(remaining, BREAKPOINT2_FIRST_DATA);
        if bpnum > MAX_BREAKPOINTS2 {
          NoDataRoomAtAll(t0, bp[..], count, i, own, remaining[..], Cfg());
          return false, own;
        }
        own' := Give(remaining, i, bpnum, t0, PendingData(t0, i), own, true);
      }
    }

    /** Gives the pending data breakpoints their slots, as long as there are any. */
    method PlaceData(remaining: array<bool>, ghost own0: seq<int>) returns (hadroom: bool, ghost own: seq<int>)
      requires Valid() && remaining.Length == 6
      requires Books(bp[..], count, {}, own0, remaining[..], Cfg())
      modifies bp, remaining
      ensures Valid() && Renumbered(old(bp[..]), count, bp[..])
      ensures !remaining[0] && !remaining[4] && !remaining[5]
      ensures hadroom ==> Books(bp[..], count, PendingData(old(bp[..]), count), own, remaining[..], Cfg())
      ensures !hadroom ==> !Room(old(bp[..]), count, Cfg())
    {
      hadroom, own := true, own0;
      ghost var t0 := bp[..];
      assert PendingData(t0, 0) == {};
      var i := 0;
      while !bp[i].last
        invariant i <= count && hadroom
        invariant Valid() && Renumbered(t0, count, bp[..])
        invariant Books(bp[..], count, PendingData(t0, i), own, remaining[..], Cfg())
        decreases count - i
      {
        hadroom, own := PlaceDataAt(i, remaining, t0, own);
        if !hadroom {
          return;
        }
        i := i + 1;
      }
      AtEnd(i);
    }

    lemma AtEnd(i: nat)
      requires Valid() && i <= count && bp[i].last
      ensures i == count
    {
    }

    /** One turn of the code loop: entry i gets its slot, or flash, if it is a pending code breakpoint. */
    method PlaceCodeAt(i: nat, remaining: array<bool>, softwarebps: bool,
                       ghost t0: Table, ghost own: seq<int>, ghost good: bool)
      returns (room: bool, ghost own': seq<int>)
      requires Valid() && remaining.Length == 6 && i < count && softwarebps == Cfg().softwarebps
      requires Shaped(t0, count) && Renumbered(t0, count, bp[..])
      requires !remaining[0] && !remaining[4] && !remaining[5]
      requires good ==> Books(bp[..], count, PlacedBefore(t0, count, i), own, remaining[..], Cfg())
      modifies bp, remaining
      ensures Valid() && Renumbered(t0, count, bp[..])
      ensures !remaining[0] && !remaining[4] && !remaining[5]
      ensures good && room ==>
        Books(bp[..], count, PlacedBefore(t0, count, i + 1), own', remaining[..], Cfg())
      ensures good && !room ==> !Room(t0, count, Cfg())
    {
      room, own' := true, own;
      PendingSteps(t0, count, bp[..], i);
      var bpnum := NextFree(remaining, 0);
      if bpnum > MAX_BREAKPOINTS2 {
        bpnum := if softwarebps then 0 else 0xFF;
      }
      if bp[i].enabled && bp[i].toadd && bp[i].kind == Code {
        if bpnum == 0xFF {
          if good {
            NoCodeRoomAtAll(t0, bp[..], count, i, own, remaining[..], Cfg());
          }
          return false, own;
        }
        own' := Give(remaining, i, bpnum, t0, PlacedBefore(t0, count, i), own, good);
      }
    }

    /** Gives the pending code breakpoints a slot each, and puts the rest into flash if it may. */
    method PlaceCode(remaining: array<bool>, softwarebps: bool, hadroom0: bool, ghost t0: Table, ghost own0: seq<int>)
      returns (hadroom: bool, ghost own: seq<int>)
      requires Valid() && remaining.Length == 6 && softwarebps == Cfg().softwarebps
      requires Shaped(t0, count) && Renumbered(t0, count, bp[..])
      requires !remaining[0] && !remaining[4] && !remaining[5]
      requires hadroom0 ==> Books(bp[..], count, PlacedBefore(t0, count, 0), own0, remaining[..], Cfg())
      requires !hadroom0 ==> !Room(t0, count, Cfg())
      modifies bp, remaining
      ensures Valid() && Renumbered(t0, count, bp[..])
      ensures hadroom ==>
        Books(bp[..], count, PlacedBefore(t0, count, count), own, remaining[..], Cfg())
      ensures !hadroom ==> !Room(t0, count, Cfg())
    {
      hadroom, own := hadroom0, own0;
      var i := 0;
      while !bp[i].last
        invariant i <= count && hadroom == hadroom0
        invariant Valid() && Renumbered(t0, count, bp[..])
        invariant !remaining[0] && !remaining[4] && !remaining[5]
        invariant hadroom ==>
          Books(bp[..], count, PlacedBefore(t0, count, i), own, remaining[..], Cfg())
        decreases count - i
      {
        var room;
        room, own := PlaceCodeAt(i, remaining, softwarebps, t0, own, hadroom);
        if !room {
          hadroom := false;
          break;
        }
        i := i + 1;
      }
    }

    /** The slots there are: 1 to 3, and under debugWire none. */
    method AllSlots() returns (remaining: array<bool>)
      ensures fresh(remaining) && remaining.Length == 6
      ensures remaining[..] == [false, !useDebugWire, !useDebugWire, !useDebugWire, false, false]
    {
      remaining := new bool[] [false, true, true, true, false, false];
      if useDebugWire {
        for k := 1 to MAX_BREAKPOINTS2 + 1
          invariant forall s :: 0 <= s < 6 ==> remaining[s] == (k <= s <= 3)
        {
          remaining[k] := false;
        }
      }
    }

    /**
      Finds numbers for the pending breakpoints. It reports room exactly when some
      placement exists, and then the numbers it wrote are one.
     */
    method LayoutBreakpoints() returns (hadroom: bool)
      requires Valid()
      modifies bp
      ensures Valid() && Renumbered(old(bp[..]), count, bp[..])
      ensures hadroom <==> Room(old(bp[..]), count, Cfg())
      ensures hadroom <==> HasRoom(old(bp[..]), count, Cfg())
      ensures hadroom ==> Placement(bp[..], count, Numbers(bp[..]), Cfg()) && SoftLast(bp[..], count, Cfg())
    {
      var remaining := AllSlots();
      var softwarebps := true;
      if deviceFlags == DEVFL_NO_SOFTBP {
        softwarebps := false;
      }
      ghost var t0 := bp[..];
      ghost var own := TakeStable(remaining);
      var dataRoom;
      dataRoom, own := PlaceData(remaining, own);
      assert PlacedBefore(t0, count, 0) == PendingData(t0, count);
      hadroom, own := PlaceCode(remaining, softwarebps, dataRoom, t0, own);
      RenumberKeepsRoom(t0, count, bp[..], Cfg());
      RoomIsCounted(t0, count, Cfg());
      if hadroom {
        AllPlaced(t0, bp[..], count, own, remaining[..], Cfg());
      }
    }

    // ---------- changing the table ----------

    /** Writes the entry of an add. */
    method Mark(i: nat, address: uint32, kind: BpType)
      requires i + 1 < bp.Length
      modifies bp
      ensures bp[..] == Marked(old(bp[..]), i, address, kind)
    {
      if bp[i].last {
        bp[i + 1] := bp[i + 1].(last := true, enabled := false, address := 0, kind := NoType);
      }
      bp[i] := bp[i].(last := false, enabled := true, address := address, kind := kind);
      if !bp[i].icestatus {
        bp[i] := bp[i].(toadd := true, toremove := false);
      } else {
        bp[i] := bp[i].(toadd := false, toremove := false);
      }
    }

    /** The first entry for a breakpoint, or the end marker. */
    method FindEntry(address: uint32, kind: BpType) returns (i: nat)
      requires Valid()
      ensures i == Find(bp[..], count, address, kind, 0)
    {
      i := 0;
      while !bp[i].last
        invariant i <= count
        invariant Find(bp[..], count, address, kind, 0) == Find(bp[..], count, address, kind, i)
        decreases count - i
      {
        if bp[i].address == address && bp[i].kind == kind {
          break;
        }
        i := i + 1;
      }
    }

    /** The entry that an add may use; 31 when all are enabled or waiting for their removal. */
    method Choose(address: uint32, kind: BpType) returns (i: nat)
      requires Valid()
      ensures i == Chosen(bp[..], count, address, kind)
    {
      i := FindEntry(address, kind);
      if i + 1 == MAX_TOTAL_BREAKPOINTS2 {
        i := 0;
        while bp[i].enabled || bp[i].toremove
          invariant i <= count
          invariant FirstIdle(bp[..], count, 0) == FirstIdle(bp[..], count, i)
          decreases count - i
        {
          i := i + 1;
        }
      }
    }

    /** Writes the entry of an add and lays the table out, or rolls the entry back. */
    method AddAt(i: nat, address: uint32, kind: BpType) returns (room: bool, ghost t2: Table)
      requires Valid() && kind != NoType && i == Chosen(bp[..], count, address, kind) != 31
      modifies bp, this`count
      ensures Valid() && count == MarkedEnd(old(count), i)
      ensures Renumbered(Marked(old(bp[..]), i, address, kind), count, t2)
      ensures room <==> Room(Marked(old(bp[..]), i, address, kind), count, Cfg())
      ensures room ==> Placement(t2, count, Numbers(t2), Cfg())
      ensures i < |t2| && bp[..] == if room then t2 else t2[i := RolledBack(t2[i])]
    {
      MarkKeepsShape(bp[..], count, address, kind);
      ghost var e := count;
      Mark(i, address, kind);
      count := MarkedEnd(e, i);
      room := LayoutBreakpoints();
      t2 := bp[..];
      if !room {
        RollBackKeepsShape(t2, count, i);
        bp[i] := bp[i].(enabled := false, toadd := false);
        assert bp[..] == t2[i := RolledBack(t2[i])];
      }
    }

    method AddBreakpoint(address: uint32, kind: BpType) returns (ok: bool)
      requires Valid()
      requires kind != NoType && (kind == Code ==> address % 2 == 0)
      modifies bp, this`count
      ensures Valid()
      ensures Step(Add(address, kind), old(Now(Done)), Now(Done), Cfg())
      // It fails for want of an entry only: there is none for the breakpoint, and none to spare.
      ensures ok <==> !old(NoneLeft(bp[..], count, address, kind))
      ensures ok <==> Chosen(old(bp[..]), old(count), address, kind) != 31
      ensures !ok ==> bp[..] == old(bp[..]) && count == old(count)
      ensures ok ==> count == MarkedEnd(old(count), Chosen(old(bp[..]), old(count), address, kind))
      // The table stays in step with the ICE exactly when no resident breakpoint is stranded.
      ensures old(InStep()) ==> (InStep() <==> !ShortForResident(old(bp[..]), old(count), address, kind, Cfg()))
      ensures old(InStep()) && ShortForResident(old(bp[..]), old(count), address, kind, Cfg()) ==> Orphaned(bp[..], count)
      // The breakpoint is enabled exactly when the ICE has room for it; no other one changes.
      ensures old(InStep()) && ok ==>
        var marked := Marked(old(bp[..]), Chosen(old(bp[..]), old(count), address, kind), address, kind);
        Enabled() == if HasRoom(marked, count, Cfg()) then old(Enabled()) + {(address, kind)}
                     else old(Enabled()) - {(address, kind)}
    {
      ChosenIsLast(bp[..], count, address, kind);
      var i := Choose(address, kind);
      if i + 1 == MAX_TOTAL_BREAKPOINTS2 {
        return false;
      }
      ghost var t, e, steady := bp[..], count, InStep();
      var room; ghost var t2;
      room, t2 := AddAt(i, address, kind);
      assert AddedOrNot(Marked(t, i, address, kind), count, i, t2, bp[..], Cfg());
      if steady {
        AddKeepsSteady(Moment(t, e, ice, Done), Now(Done), address, kind, Cfg());
      }
      return true;
    }

    /** Takes the entry of a delete back, and lays the table out. */
    method DropAt(i: nat)
      requires Valid() && i < count
      modifies bp
      ensures Valid() && LaidOut(old(bp[..])[i := Dropped(old(bp[i]))], count, bp[..], Cfg())
    {
      ghost var t := bp[..];
      bp[i] := bp[i].(enabled := false);
      if bp[i].icestatus {
        bp[i] := bp[i].(toadd := false, toremove := true);
      } else {
        bp[i] := bp[i].(toadd := false, toremove := false);
      }
      assert bp[..] == t[i := Dropped(t[i])];
      DropKeepsShape(t, count, i);
      var _ := LayoutBreakpoints();
    }

    method DeleteBreakpoint(address: uint32, kind: BpType) returns (ok: bool)
      requires Valid() && kind != NoType
      modifies bp
      ensures Valid() && Step(Delete(address, kind), old(Now(Done)), Now(Done), Cfg())
      ensures ok <==> Find(old(bp[..]), count, address, kind, 0) < count
      ensures !ok ==> bp[..] == old(bp[..])
      ensures old(InStep()) ==> InStep() && Enabled() == old(Enabled()) - {(address, kind)}
    {
      ghost var t, steady := bp[..], InStep();
      var i := FindEntry(address, kind);
      if bp[i].last {
        assert (address, kind) !in Enabled();
        return false;
      }
      DropAt(i);
      if steady {
        DeleteOutcome(t, count, i, bp[..], Cfg(), ice);
      }
      return true;
    }

    method DeleteAllBreakpoints()
      requires Valid()
      modifies bp
      ensures Valid() && Enabled() == {} && Step(DeleteAll, old(Now(Done)), Now(Done), Cfg())
      ensures old(InStep()) ==> InStep()
    {
      ghost var t, steady := bp[..], InStep();
      var i := 0;
      while !bp[i].last
        invariant i <= count
        invariant forall j :: 0 <= j < |t| ==> bp[j] == if j < i then DroppedByAll(t[j]) else t[j]
        decreases count - i
      {
        if bp[i].enabled && bp[i].icestatus {
          bp[i] := bp[i].(toremove := true);
        }
        bp[i] := bp[i].(enabled := false);
        i := i + 1;
      }
      if steady {
        DeleteAllKeepsSteady(t, count, bp[..], Cfg(), ice);
      }
    }

    // ---------- the transfer to the ICE ----------

    /** Sends one message; what is delivered the ICE carries out if it accepts it. */
    method DoJtagCommand(message: seq<byte>, delivered: bool) returns (reply: Reply)
      modifies this`ice
      ensures reply == NoAnswer <==> !delivered
      ensures reply != Done ==> ice == old(ice)
      ensures reply == Done ==>
        Decode(message).Some? && Accepts(old(ice), Decode(message).value) && ice == After(old(ice), Decode(message).value)
      ensures reply == Refused ==> !(Decode(message).Some? && Accepts(old(ice), Decode(message).value))
    {
      if !delivered {
        return NoAnswer;
      }
      match Decode(message)
      case None =>
        return Refused;
      case Some(command) =>
        if !Accepts(ice, command) {
          return Refused;
        }
        ice := After(ice, command);
        return Done;
    }

    /** Puts a command into a message and sends it. */
    method Send(command: Command, delivered: bool) returns (reply: Reply)
      modifies this`ice
      ensures reply == if !delivered then NoAnswer else if Accepts(old(ice), command) then Done else Refused
      ensures ice == if reply == Done then After(old(ice), command) else old(ice)
    {
      DecodeEncode(command);
      reply := DoJtagCommand(Encode(command), delivered);
    }

    /** One turn of the first loop of the update. */
    method ClearAt(i: nat, delivered: bool) returns (reply: Reply)
      requires Valid() && i < count && bp[i].toremove
      modifies bp, this`ice
      ensures Valid()
      ensures reply ==
        if !delivered then NoAnswer else if Accepts(old(ice), ClearCommand(old(bp[i]))) then Done else Refused
      ensures bp[..] == if reply == Done then old(bp[..])[i := Cleared(old(bp[i]))] else old(bp[..])
      ensures ice == if reply == Done then After(old(ice), ClearCommand(old(bp[i]))) else old(ice)
    {
      ghost var t := bp[..];
      var address := if bp[i].bpnum == 0 then bp[i].address / 2 else 0;
      reply := Send(Clear(bp[i].bpnum, address), delivered);
      if reply == Done {
        bp[i] := bp[i].(icestatus := false, toremove := false);
        assert bp[..] == t[i := Cleared(t[i])];
      }
    }

    /** The command for an entry, kind by kind. */
    method SetMessage(b: Breakpoint2) returns (command: Command)
      requires b.kind != NoType
      ensures command == SetCommand(b)
    {
      var address := if b.kind == Code then b.address / 2 else b.address;
      if b.kind == ReadData {
        command := Set(0x02, b.bpnum, address, 0x00);
      } else if b.kind == WriteData {
        command := Set(0x02, b.bpnum, address, 0x01);
      } else if b.kind == AccessData {
        command := Set(0x02, b.bpnum, address, 0x02);
      } else {
        command := Set(0x01, b.bpnum, address, 0x03);
      }
    }

    /** One turn of the second loop of the update. */
    method SetAt(i: nat, delivered: bool) returns (reply: Reply)
      requires Valid() && i < count && Pending(bp[i])
      modifies bp, this`ice
      ensures Valid()
      ensures reply ==
        if !delivered then NoAnswer else if Accepts(old(ice), SetCommand(old(bp[i]))) then Done else Refused
      ensures bp[..] == if reply == Done then old(bp[..])[i := Downloaded(old(bp[i]))] else old(bp[..])
      ensures ice == if reply == Done then After(old(ice), SetCommand(old(bp[i]))) else old(ice)
    {
      ghost var t := bp[..];
      var command := SetMessage(bp[i]);
      reply := Send(command, delivered);
      if reply == Done {
        bp[i] := bp[i].(icestatus := true, toadd := false);
        assert bp[..] == t[i := Downloaded(t[i])];
      }
    }

    /** The first loop: what is flagged for removal is cleared. */
    method ClearAll(lost: nat) returns (outcome: Reply)
      requires Valid()
      modifies bp, this`ice
      ensures Valid()
      ensures Sent(bp[..], ice, outcome) == Clears(old(bp[..]), count, old(ice), 0, lost)
    {
      var i := 0;
      while !bp[i].last
        invariant i <= count && Valid()
        invariant Clears(old(bp[..]), count, old(ice), 0, lost) == Clears(bp[..], count, ice, i, lost)
        decreases count - i
      {
        if bp[i].toremove {
          outcome := ClearAt(i, i != lost);
          if outcome != Done {
            return;
          }
        }
        i := i + 1;
      }
      outcome := Done;
    }

    /** The second loop: what is pending is set. */
    method SetAll(lost: nat) returns (outcome: Reply)
      requires Valid()
      modifies bp, this`ice
      ensures Valid()
      ensures Sent(bp[..], ice, outcome) == Sets(old(bp[..]), count, old(ice), 0, lost)
    {
      var i := 0;
      while !bp[i].last
        invariant i <= count && Valid()
        invariant Sets(old(bp[..]), count, old(ice), 0, lost) == Sets(bp[..], count, ice, i, lost)
        decreases count - i
      {
        if bp[i].toadd && bp[i].enabled {
          outcome := SetAt(i, i != lost);
          if outcome != Done {
            return;
          }
        }
        i := i + 1;
      }
      outcome := Done;
    }

    /**
      Brings the ICE up to date: clears first, then sets. A failure aborts it, as the
      exception of the program does. The link loses the clear of one entry, or the set
      of one, if they are sent.
     */
    method UpdateBreakpoints(lostClear: nat, lostSet: nat) returns (outcome: Reply)
      requires Valid()
      modifies bp, this`ice
      ensures Valid() && Step(Update(lostClear, lostSet), old(Now(Done)), Now(outcome), Cfg())
      // Whether or not the link holds, the ICE never refuses a command and stays in step.
      ensures old(InStep()) ==> outcome != Refused && InStep() && Enabled() == old(Enabled())
      ensures old(InStep()) && lostClear >= count && lostSet >= count ==> outcome == Done
      // If the link holds, nothing is left to do: the target stops exactly on what is enabled.
      ensures old(InStep()) && outcome == Done ==> Settled(bp[..], count) && StopsAsAsked(ice, Enabled())
    {
      ghost var a := Now(Done);
      var _ := LayoutBreakpoints();
      ghost var t2 := bp[..];
      outcome := ClearAll(lostClear);
      if outcome == Done {
        outcome := SetAll(lostSet);
      }
      assert Transferred(a, t2, Now(outcome), lostClear, lostSet, Cfg());
      if SteadyAt(a, Cfg()) {
        UpdateKeepsSteady(a, Now(outcome), lostClear, lostSet, Cfg());
      }
    }

    /** One operation, whichever it is. */
    method Do(op: Operation) returns (reply: Reply)
      requires Valid() && Proper(op)
      modifies bp, this`count, this`ice
      ensures Valid() && Step(op, old(Now(Done)), Now(reply), Cfg())
    {
      reply := Done;
      match op
      case Add(address, kind) => var _ := AddBreakpoint(address, kind);
      case Delete(address, kind) => var _ := DeleteBreakpoint(address, kind);
      case DeleteAll => DeleteAllBreakpoints();
      case Update(lostClear, lostSet) => reply := UpdateBreakpoints(lostClear, lostSet);
    }
  }

  // ---------- runs ----------

  /** Any run of the manager on a fresh device, with its history. */
  method Run(ops: seq<Operation>, deviceFlags: nat, useDebugWire: bool) returns (m: Jtag2, ghost history: seq<Moment>)
    requires forall k :: 0 <= k < |ops| ==> Proper(ops[k])
    ensures m.Valid() && m.Cfg() == Config(deviceFlags != DEVFL_NO_SOFTBP, useDebugWire)
    ensures IsRun(ops, history, m.Cfg()) && m.Now(history[|ops|].reply) == history[|ops|]
  {
    m := new Jtag2(deviceFlags, useDebugWire);
    history := [m.Now(Done)];
    for k := 0 to |ops|
      invariant m.Valid() && fresh(m) && fresh(m.bp) && m.deviceFlags == deviceFlags && m.useDebugWire == useDebugWire
      invariant |history| == k + 1 && IsStart(history[0]) && m.Now(history[k].reply) == history[k]
      invariant forall j :: 0 <= j < k ==> Step(ops[j], history[j], history[j + 1], m.Cfg())
    {
      var reply := m.Do(ops[k]);
      StepFromAny(ops[k], history[k], m.Now(reply), m.Cfg());
      history := history + [m.Now(reply)];
    }
  }
}
