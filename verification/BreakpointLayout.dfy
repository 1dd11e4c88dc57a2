/**
  The bookkeeping of layoutBreakpoints in src/jtag2bp.cc: which slots are taken and
  by whom, and why a layout that runs out of slots had no other way to go.
 */
module BreakpointLayout {
  import opened Bytes
  import opened Ice
  import opened BreakpointRoom
  import opened BreakpointTable

  /**
    The books of a layout under way. placed: the pending entries that have got
    their number; own[s]: the entry that slot s belongs to, -1 for none; free: the
    array of slots still to be given away.
   */
  ghost predicate Books(t: Table, e: nat, placed: set<nat>, own: seq<int>, free: seq<bool>, cfg: Config) {
    && e <= |t| && |own| == 4 && |free| == 6
    && !free[0] && !free[4] && !free[5]
    && (forall i :: i in placed ==> i < e && Pending(t[i]) && Allowed(t[i].kind, t[i].bpnum, cfg))
    && (forall s :: 1 <= s <= 3 ==> (free[s] <==> !cfg.debugWire && own[s] == -1))
    && (forall s :: 1 <= s <= 3 && own[s] != -1 ==>
          0 <= own[s] < e && t[own[s]].bpnum == s && (Stable(t[own[s]]) || own[s] in placed))
    && (forall i :: 0 <= i < e && Stable(t[i]) && 1 <= t[i].bpnum <= 3 ==>
          own[t[i].bpnum] != -1 && Stable(t[own[t[i].bpnum]]))
    && (forall i :: i in placed && 1 <= t[i].bpnum <= 3 ==> own[t[i].bpnum] == i)
    && (forall i :: i in placed && t[i].bpnum == 0 ==> !free[1] && !free[2] && !free[3])
  }

  /** What is placed when the code loop comes to entry n: the data breakpoints, and code below n. */
  function PlacedBefore(t: Table, e: nat, n: nat): set<nat>
    requires e <= |t|
  {
    set i: nat | 0 <= i < e && Pending(t[i]) && (t[i].kind != Code || i < n)
  }

  lemma AssignKeepsBooks(t: Table, e: nat, placed: set<nat>, own: seq<int>, free: seq<bool>, cfg: Config, i: nat, s: byte)
    requires Shaped(t, e) && Books(t, e, placed, own, free, cfg)
    requires i < e && i !in placed && Pending(t[i])
    requires 1 <= s <= 3 && free[s] && SlotFits(t[i].kind, s)
    ensures Books(t[i := t[i].(bpnum := s)], e, placed + {i}, own[s := i], free[s := false], cfg)
  {
  }

  lemma AssignSoftKeepsBooks(t: Table, e: nat, placed: set<nat>, own: seq<int>, free: seq<bool>, cfg: Config, i: nat)
    requires Shaped(t, e) && Books(t, e, placed, own, free, cfg)
    requires i < e && i !in placed && Pending(t[i])
    requires t[i].kind == Code && cfg.softwarebps && !free[1] && !free[2] && !free[3]
    ensures Books(t[i := t[i].(bpnum := 0)], e, placed + {i}, own, free, cfg)
  {
  }

  /** Closed books are a placement. */
  lemma BooksGivePlacement(t: Table, e: nat, placed: set<nat>, own: seq<int>, free: seq<bool>, cfg: Config)
    requires Shaped(t, e) && Books(t, e, placed, own, free, cfg)
    requires forall i: nat :: i < e && Pending(t[i]) ==> i in placed
    ensures Placement(t, e, Numbers(t), cfg)
  {
    var p := Numbers(t);
    forall i, j | 0 <= i < e && 0 <= j < e && Pending(t[i]) && Stable(t[j]) && p[i] != 0
      ensures p[i] != t[j].bpnum
    {
      assert i in placed;
      assert own[t[i].bpnum] == i;
    }
  }

  /** A data breakpoint without a free data slot has no place in any placement. */
  lemma NoDataRoom(t: Table, e: nat, placed: set<nat>, own: seq<int>, free: seq<bool>, cfg: Config, i: nat)
    requires Shaped(t, e) && Books(t, e, placed, own, free, cfg)
    requires i < e && i !in placed && Pending(t[i]) && t[i].kind != Code
    requires !free[2] && !free[3]
    requires forall j :: j in placed ==> t[j].kind != Code
    ensures !Room(t, e, cfg)
  {
    var a, b := own[2], own[3];
    assert !cfg.debugWire ==> a != -1 && b != -1;
    forall p
      ensures !Placement(t, e, p, cfg)
    {
    }
  }

  /** Without software breakpoints a code breakpoint needs one of three slots. */
  lemma NoCodeRoom(t: Table, e: nat, placed: set<nat>, own: seq<int>, free: seq<bool>, cfg: Config, i: nat)
    requires Shaped(t, e) && Books(t, e, placed, own, free, cfg)
    requires i < e && i !in placed && Pending(t[i]) && t[i].kind == Code && !cfg.softwarebps
    requires !free[1] && !free[2] && !free[3]
    ensures !Room(t, e, cfg)
  {
    var a, b, c := own[1], own[2], own[3];
    assert !cfg.debugWire ==> a != -1 && b != -1 && c != -1;
    forall p
      ensures !Placement(t, e, p, cfg)
    {
    }
  }

  /** Some stable or pending entry has the slot. */
  ghost predicate SlotTaken(t: Table, e: nat, s: int)
    requires e <= |t|
  {
    exists j :: 0 <= j < e && (Stable(t[j]) || Pending(t[j])) && t[j].bpnum == s
  }

  /** Software breakpoints are the last resort: slots 1 to 3 are gone. */
  ghost predicate SoftLast(t: Table, e: nat, cfg: Config)
    requires e <= |t|
  {
    forall i, s :: 0 <= i < e && Pending(t[i]) && t[i].bpnum == 0 && 1 <= s <= 3 && !cfg.debugWire ==> SlotTaken(t, e, s)
  }

  lemma NoFreeSlotIsTaken(t: Table, e: nat, placed: set<nat>, own: seq<int>, free: seq<bool>, cfg: Config, s: int)
    requires Books(t, e, placed, own, free, cfg) && 1 <= s <= 3 && !free[s] && !cfg.debugWire
    ensures SlotTaken(t, e, s)
  {
    assert own[s] != -1;
  }

  lemma RenumberTwice(t: Table, e: nat, t': Table, i: nat, n: byte)
    requires Renumbered(t, e, t') && i < e && Pending(t[i]) && n <= 3
    ensures Renumbered(t, e, t'[i := t'[i].(bpnum := n)])
  {
  }

  lemma NoDataRoomAtAll(t0: Table, t: Table, e: nat, i: nat, own: seq<int>, free: seq<bool>, cfg: Config)
    requires Shaped(t0, e) && Renumbered(t0, e, t) && Shaped(t, e) && i < e
    requires Books(t, e, PendingData(t0, i), own, free, cfg)
    requires Pending(t[i]) && t[i].kind != Code && !free[2] && !free[3]
    ensures !Room(t0, e, cfg)
  {
    NoDataRoom(t, e, PendingData(t0, i), own, free, cfg, i);
    RenumberKeepsRoom(t0, e, t, cfg);
  }

  lemma NoCodeRoomAtAll(t0: Table, t: Table, e: nat, i: nat, own: seq<int>, free: seq<bool>, cfg: Config)
    requires Shaped(t0, e) && Renumbered(t0, e, t) && Shaped(t, e) && i < e
    requires Books(t, e, PlacedBefore(t0, e, i), own, free, cfg)
    requires Pending(t[i]) && t[i].kind == Code && !cfg.softwarebps && !free[1] && !free[2] && !free[3]
    ensures !Room(t0, e, cfg)
  {
    NoCodeRoom(t, e, PlacedBefore(t0, e, i), own, free, cfg, i);
    RenumberKeepsRoom(t0, e, t, cfg);
  }

  /** When every pending entry has its number, there is a placement, and flash came last. */
  lemma AllPlaced(t0: Table, t: Table, e: nat, own: seq<int>, free: seq<bool>, cfg: Config)
    requires Shaped(t, e) && Renumbered(t0, e, t)
    requires Books(t, e, PlacedBefore(t0, e, e), own, free, cfg)
    ensures Placement(t, e, Numbers(t), cfg) && SoftLast(t, e, cfg)
  {
    var placed := PlacedBefore(t0, e, e);
    assert forall j: nat :: j < e && Pending(t[j]) ==> j in placed;
    BooksGivePlacement(t, e, placed, own, free, cfg);
    forall j, s | 0 <= j < e && Pending(t[j]) && t[j].bpnum == 0 && 1 <= s <= 3 && !cfg.debugWire
      ensures SlotTaken(t, e, s)
    {
      assert j in placed && Allowed(t[j].kind, t[j].bpnum, cfg);
      NoFreeSlotIsTaken(t, e, placed, own, free, cfg, s);
    }
  }

  lemma PendingSteps(t0: Table, e: nat, t: Table, i: nat)
    requires Renumbered(t0, e, t) && i < e
    ensures i !in PendingData(t0, i)
    ensures PendingData(t0, i + 1) ==
            if Pending(t[i]) && t[i].kind != Code then PendingData(t0, i) + {i} else PendingData(t0, i)
    ensures PlacedBefore(t0, e, 0) == PendingData(t0, e)
    ensures PlacedBefore(t0, e, i + 1) ==
            if Pending(t[i]) && t[i].kind == Code then PlacedBefore(t0, e, i) + {i} else PlacedBefore(t0, e, i)
    ensures Pending(t[i]) && t[i].kind == Code ==> i !in PlacedBefore(t0, e, i)
  {
    assert t[i].kind == t0[i].kind && Pending(t[i]) == Pending(t0[i]);
  }

  // ---------- what an operation leaves ----------

  /** Writing entry i and leaving the others' breakpoints alone changes the enabled set by that entry only. */
  lemma EnabledByEntry(t: Table, e: nat, t': Table, e': nat, i: nat)
    requires e <= |t| == |t'| && i < e' <= |t'| && (e' == e || e' == e + 1 == i + 1)
    requires forall j :: 0 <= j < e && j != i ==>
      t'[j].enabled == t[j].enabled && t'[j].address == t[j].address && t'[j].kind == t[j].kind
    requires i < e && t[i].enabled ==> t[i].address == t'[i].address && t[i].kind == t'[i].kind
    requires forall j :: 0 <= j < e && j != i && t[j].enabled ==> (t[j].address, t[j].kind) != (t'[i].address, t'[i].kind)
    ensures EnabledSet(t', e') == if t'[i].enabled then EnabledSet(t, e) + {(t'[i].address, t'[i].kind)}
                                  else EnabledSet(t, e) - {(t'[i].address, t'[i].kind)}
  {
    var x := (t'[i].address, t'[i].kind);
    forall y | y in EnabledSet(t', e')
      ensures y in EnabledSet(t, e) || (y == x && t'[i].enabled)
    {
      var j: nat :| j < e' && t'[j].enabled && y == (t'[j].address, t'[j].kind);
      assert j != i ==> j < e && t[j].enabled && y == (t[j].address, t[j].kind);
    }
    forall y | y in EnabledSet(t, e) && y != x
      ensures y in EnabledSet(t', e')
    {
      var j: nat :| j < e && t[j].enabled && y == (t[j].address, t[j].kind);
      assert j != i && t'[j].enabled && y == (t'[j].address, t'[j].kind);
    }
    if t'[i].enabled {
      assert x in EnabledSet(t', e');
    } else {
      assert x !in EnabledSet(t', e') by {
        forall j: nat | j < e' && t'[j].enabled
          ensures (t'[j].address, t'[j].kind) != x
        {
          assert j != i && j < e;
        }
      }
    }
  }

  lemma EnabledAfter(t: Table, e: nat, address: uint32, kind: BpType, t2: Table)
    requires Orderly(t, e) && kind != NoType && Chosen(t, e, address, kind) != 31
    requires var i := Chosen(t, e, address, kind); Renumbered(Marked(t, i, address, kind), MarkedEnd(e, i), t2)
    ensures var i := Chosen(t, e, address, kind); var e' := MarkedEnd(e, i);
      && EnabledSet(t2, e') == EnabledSet(t, e) + {(address, kind)}
      && EnabledSet(t2[i := RolledBack(t2[i])], e') == EnabledSet(t, e) - {(address, kind)}
  {
    var i := Chosen(t, e, address, kind);
    ChosenKinds(t, e, address, kind);
    EnabledByEntry(t, e, t2, MarkedEnd(e, i), i);
    EnabledByEntry(t, e, t2[i := RolledBack(t2[i])], MarkedEnd(e, i), i);
  }

  /** A rolled-back entry that is not in the ICE leaves everything in step. */
  lemma RollBackKeepsCoherent(t: Table, e: nat, address: uint32, kind: BpType, t2: Table, cfg: Config, ice: Ice)
    requires Coherent(t, e, ice, cfg) && kind != NoType && Chosen(t, e, address, kind) != 31
    requires kind == Code ==> address % 2 == 0
    requires var i := Chosen(t, e, address, kind);
      Renumbered(Marked(t, i, address, kind), MarkedEnd(e, i), t2) && !t2[i].icestatus
    ensures var i := Chosen(t, e, address, kind);
      Coherent(t2[i := RolledBack(t2[i])], MarkedEnd(e, i), ice, cfg)
  {
    var i := Chosen(t, e, address, kind);
    var e', t' := MarkedEnd(e, i), t2[i := RolledBack(t2[i])];
    MarkKeepsSound(t, e, ice, address, kind);
    RenumberKeepsSound(Marked(t, i, address, kind), e', t2, ice);
    RollBackKeepsSound(t2, e', i, ice);
    RollBackKeepsRoom(t, e, address, kind, t2, cfg);
  }

  lemma RollBackKeepsSound(t: Table, e: nat, i: nat, ice: Ice)
    requires Sound(t, e, ice) && i < e && !t[i].icestatus
    ensures Sound(t[i := RolledBack(t[i])], e, ice)
  {
    SwapKeepsOrderly(t, e, i, RolledBack(t[i]));
    MirrorKept(t, e, t[i := RolledBack(t[i])], e, ice);
  }

  lemma RollBackKeepsRoom(t: Table, e: nat, address: uint32, kind: BpType, t2: Table, cfg: Config)
    requires Orderly(t, e) && Room(t, e, cfg) && kind != NoType && Chosen(t, e, address, kind) != 31
    requires var i := Chosen(t, e, address, kind);
      Renumbered(Marked(t, i, address, kind), MarkedEnd(e, i), t2) && !t2[i].icestatus
    ensures var i := Chosen(t, e, address, kind);
      Room(t2[i := RolledBack(t2[i])], MarkedEnd(e, i), cfg)
  {
    var i := Chosen(t, e, address, kind);
    ChosenKinds(t, e, address, kind);
    MarkKeepsShape(t, e, address, kind);
    RoomShrinks(t, e, t2[i := RolledBack(t2[i])], MarkedEnd(e, i), cfg);
  }

  /** The ICE holds a breakpoint that no entry is enabled for and none asks to be removed. */
  ghost predicate Orphaned(t: Table, e: nat)
    requires e <= |t|
  {
    exists i :: 0 <= i < e && t[i].icestatus && !t[i].enabled && !t[i].toremove
  }

  /** A resident entry that is rolled back is neither enabled nor flagged for removal. */
  lemma RollBackStrands(t2: Table, e: nat, i: nat, cfg: Config, ice: Ice)
    requires i < e <= |t2| && t2[i].icestatus && !t2[i].toremove
    ensures !Coherent(t2[i := RolledBack(t2[i])], e, ice, cfg)
    ensures Orphaned(t2[i := RolledBack(t2[i])], e)
  {
    var t' := t2[i := RolledBack(t2[i])];
    assert !FlagsAgree(t'[i]);
  }

  /** What an add leaves when its layout finds room. */
  lemma AddKeepsCoherent(t: Table, e: nat, address: uint32, kind: BpType, t2: Table, cfg: Config, ice: Ice)
    requires Coherent(t, e, ice, cfg) && kind != NoType && Chosen(t, e, address, kind) != 31
    requires kind == Code ==> address % 2 == 0
    requires var i := Chosen(t, e, address, kind);
      && Renumbered(Marked(t, i, address, kind), MarkedEnd(e, i), t2)
      && Room(Marked(t, i, address, kind), MarkedEnd(e, i), cfg)
    ensures Coherent(t2, MarkedEnd(e, Chosen(t, e, address, kind)), ice, cfg)
  {
    var i := Chosen(t, e, address, kind);
    MarkKeepsSound(t, e, ice, address, kind);
    RenumberKeepsSound(Marked(t, i, address, kind), MarkedEnd(e, i), t2, ice);
    RenumberKeepsRoom(Marked(t, i, address, kind), MarkedEnd(e, i), t2, cfg);
  }

  /** An add strands a breakpoint exactly when it rolls back an entry that is in the ICE. */
  lemma StrandsIff(t: Table, e: nat, address: uint32, kind: BpType, cfg: Config)
    requires Orderly(t, e) && kind != NoType && Chosen(t, e, address, kind) != 31
    ensures var i := Chosen(t, e, address, kind); var t1 := Marked(t, i, address, kind);
      StrandsResident(t, e, address, kind, cfg) <==> t1[i].icestatus && !Room(t1, MarkedEnd(e, i), cfg)
  {
    ChosenKinds(t, e, address, kind);
  }

  /** Table and ICE in step, and the ICE as the device allows it. */
  ghost predicate Steady(t: Table, e: nat, ice: Ice, cfg: Config) {
    Coherent(t, e, ice, cfg) && Obeys(t, e, cfg)
  }

  /**
    An add as a whole: the layout's numbers if there is room, the rollback otherwise. Table
    and ICE stay in step exactly when no resident breakpoint is stranded.
   */
  lemma AddOutcome(t: Table, e: nat, address: uint32, kind: BpType, t2: Table, t3: Table, room: bool, cfg: Config, ice: Ice)
    requires Steady(t, e, ice, cfg) && kind != NoType && Chosen(t, e, address, kind) != 31
    requires kind == Code ==> address % 2 == 0
    requires var i := Chosen(t, e, address, kind); var t1 := Marked(t, i, address, kind);
      && Renumbered(t1, MarkedEnd(e, i), t2) && (room <==> Room(t1, MarkedEnd(e, i), cfg))
      && t3 == if room then t2 else t2[i := RolledBack(t2[i])]
    ensures var e' := MarkedEnd(e, Chosen(t, e, address, kind));
      && (Steady(t3, e', ice, cfg) <==> !StrandsResident(t, e, address, kind, cfg))
      && (StrandsResident(t, e, address, kind, cfg) ==> e' <= |t3| && Orphaned(t3, e'))
      && EnabledSet(t3, e') == if room then EnabledSet(t, e) + {(address, kind)} else EnabledSet(t, e) - {(address, kind)}
  {
    var i := Chosen(t, e, address, kind);
    StrandsIff(t, e, address, kind, cfg);
    EnabledAfter(t, e, address, kind, t2);
    AddKeepsObeys(t, e, address, kind, t2, t3, cfg);
    if room {
      AddKeepsCoherent(t, e, address, kind, t2, cfg, ice);
    } else if Marked(t, i, address, kind)[i].icestatus {
      RollBackStrands(t2, MarkedEnd(e, i), i, cfg, ice);
    } else {
      RollBackKeepsCoherent(t, e, address, kind, t2, cfg, ice);
    }
  }

  lemma AddKeepsObeys(t: Table, e: nat, address: uint32, kind: BpType, t2: Table, t3: Table, cfg: Config)
    requires Orderly(t, e) && Obeys(t, e, cfg) && kind != NoType && Chosen(t, e, address, kind) != 31
    requires var i := Chosen(t, e, address, kind);
      && Renumbered(Marked(t, i, address, kind), MarkedEnd(e, i), t2)
      && (t3 == t2 || t3 == t2[i := RolledBack(t2[i])])
    ensures var e' := MarkedEnd(e, Chosen(t, e, address, kind)); e' <= |t3| && Obeys(t3, e', cfg)
  {
    ChosenKinds(t, e, address, kind);
    MarkKeepsShape(t, e, address, kind);
    ObeysKept(t, e, t3, MarkedEnd(e, Chosen(t, e, address, kind)), cfg);
  }

  /** The entry of a delete. */
  function Dropped(b: Breakpoint2): Breakpoint2 {
    b.(enabled := false, toadd := false, toremove := b.icestatus)
  }

  lemma DeleteKeepsCoherent(t: Table, e: nat, i: nat, t2: Table, cfg: Config, ice: Ice)
    requires Coherent(t, e, ice, cfg) && i < e
    requires Renumbered(t[i := Dropped(t[i])], e, t2)
    ensures Coherent(t2, e, ice, cfg)
    ensures EnabledSet(t2, e) == EnabledSet(t, e) - {(t[i].address, t[i].kind)}
  {
    var t1 := t[i := Dropped(t[i])];
    SwapKeepsOrderly(t, e, i, Dropped(t[i]));
    MirrorKept(t, e, t1, e, ice);
    RoomShrinks(t, e, t1, e, cfg);
    RenumberKeepsSound(t1, e, t2, ice);
    RenumberKeepsRoom(t1, e, t2, cfg);
    EnabledByEntry(t, e, t2, e, i);
  }

  lemma DeleteOutcome(t: Table, e: nat, i: nat, t2: Table, cfg: Config, ice: Ice)
    requires Steady(t, e, ice, cfg) && i < e && Renumbered(t[i := Dropped(t[i])], e, t2)
    ensures Steady(t2, e, ice, cfg) && EnabledSet(t2, e) == EnabledSet(t, e) - {(t[i].address, t[i].kind)}
  {
    DeleteKeepsCoherent(t, e, i, t2, cfg, ice);
    ObeysKept(t, e, t2, e, cfg);
  }

  lemma RollBackKeepsShape(t: Table, e: nat, i: nat)
    requires Shaped(t, e) && i < e
    ensures Shaped(t[i := RolledBack(t[i])], e)
  {
  }

  lemma DropKeepsShape(t: Table, e: nat, i: nat)
    requires Shaped(t, e) && i < e
    ensures Shaped(t[i := Dropped(t[i])], e)
  {
  }

  /** The entries as a deleteAll leaves them. */
  function DroppedByAll(b: Breakpoint2): Breakpoint2 {
    b.(enabled := false, toremove := b.toremove || (b.enabled && b.icestatus))
  }

  lemma DropAllKeepsOrderly(t: Table, e: nat, t': Table)
    requires Orderly(t, e) && |t'| == |t|
    requires forall i :: 0 <= i < |t| ==> t'[i] == if i < e then DroppedByAll(t[i]) else t[i]
    ensures Orderly(t', e)
  {
    forall i: nat | i < e
      ensures FlagsAgree(t'[i])
    {
      assert FlagsAgree(t[i]);
    }
  }

  lemma DeleteAllKeepsSteady(t: Table, e: nat, t': Table, cfg: Config, ice: Ice)
    requires Steady(t, e, ice, cfg) && |t'| == |t|
    requires forall i :: 0 <= i < |t| ==> t'[i] == if i < e then DroppedByAll(t[i]) else t[i]
    ensures Steady(t', e, ice, cfg)
  {
    DropAllKeepsOrderly(t, e, t');
    MirrorKept(t, e, t', e, ice);
    ObeysKept(t, e, t', e, cfg);
    RoomShrinks(t, e, t', e, cfg);
  }

  lemma RenumberKeepsEnabled(t: Table, e: nat, t': Table)
    requires Renumbered(t, e, t')
    ensures EnabledSet(t', e) == EnabledSet(t, e)
  {
    forall x | x in EnabledSet(t, e)
      ensures x in EnabledSet(t', e)
    {
      var j: nat :| j < e && t[j].enabled && x == (t[j].address, t[j].kind);
      assert t'[j].enabled && x == (t'[j].address, t'[j].kind);
    }
  }

  ghost predicate NothingToRemove(t: Table, e: nat)
    requires e <= |t|
  {
    forall j :: 0 <= j < e ==> !t[j].toremove
  }

  /** A table about to be sent: in agreement with the ICE, its pending entries placed. */
  ghost predicate Ready(t: Table, e: nat, ice: Ice, cfg: Config) {
    Sound(t, e, ice) && Obeys(t, e, cfg) && Placement(t, e, Numbers(t), cfg)
  }

  /** The layout at the start of an update makes a steady table ready. */
  lemma SteadyToReady(t: Table, e: nat, t2: Table, cfg: Config, ice: Ice)
    requires Steady(t, e, ice, cfg) && Renumbered(t, e, t2) && Placement(t2, e, Numbers(t2), cfg)
    ensures Ready(t2, e, ice, cfg) && EnabledSet(t2, e) == EnabledSet(t, e)
  {
    RenumberKeepsSound(t, e, t2, ice);
    RenumberKeepsEnabled(t, e, t2);
    ObeysKept(t, e, t2, e, cfg);
  }

  lemma ReadyIsSteady(t: Table, e: nat, cfg: Config, ice: Ice)
    requires Ready(t, e, ice, cfg)
    ensures Steady(t, e, ice, cfg)
  {
  }

  lemma ReadyToClear(t: Table, e: nat, ice: Ice, i: nat, cfg: Config)
    requires Ready(t, e, ice, cfg) && i < e && t[i].toremove
    ensures Accepts(ice, ClearCommand(t[i]))
    ensures Ready(t[i := Cleared(t[i])], e, After(ice, ClearCommand(t[i])), cfg)
    ensures EnabledSet(t[i := Cleared(t[i])], e) == EnabledSet(t, e)
  {
    ClearKeepsSound(t, e, ice, i);
    ClearKeepsPlacement(t, e, i, cfg);
    ObeysKept(t, e, t[i := Cleared(t[i])], e, cfg);
    EnabledByEntry(t, e, t[i := Cleared(t[i])], e, i);
    assert (t[i].address, t[i].kind) !in EnabledSet(t, e);
  }

  lemma SetKeepsEnabled(t: Table, e: nat, i: nat)
    requires Orderly(t, e) && i < e && Pending(t[i])
    ensures EnabledSet(t[i := Downloaded(t[i])], e) == EnabledSet(t, e)
  {
    EnabledByEntry(t, e, t[i := Downloaded(t[i])], e, i);
    assert (t[i].address, t[i].kind) in EnabledSet(t, e);
  }

  /** When nothing waits for removal, a placed entry's slot is free in the ICE. */
  lemma ReadyToSet(t: Table, e: nat, ice: Ice, i: nat, cfg: Config)
    requires Ready(t, e, ice, cfg) && i < e && Pending(t[i])
    requires NothingToRemove(t, e)
    ensures Accepts(ice, SetCommand(t[i]))
    ensures NothingToRemove(t[i := Downloaded(t[i])], e)
    ensures Ready(t[i := Downloaded(t[i])], e, After(ice, SetCommand(t[i])), cfg)
    ensures EnabledSet(t[i := Downloaded(t[i])], e) == EnabledSet(t, e)
  {
    assert forall j :: 0 <= j < e && t[j].icestatus ==> Stable(t[j]);
    SetKeepsSound(t, e, ice, i);
    SetKeepsPlacement(t, e, i, cfg);
    SetKeepsEnabled(t, e, i);
    assert Allowed(t[i].kind, Numbers(t)[i], cfg);
  }

  /** Settled and sound: what the ICE holds is what is enabled. */
  lemma SettledIceIsEnabled(t: Table, e: nat, ice: Ice)
    requires Sound(t, e, ice) && Settled(t, e)
    ensures forall s :: s in ice.slots <==> exists i :: 0 <= i < e && t[i].enabled && t[i].bpnum == s != 0
    ensures forall w :: w in ice.soft <==> exists i :: 0 <= i < e && t[i].enabled && t[i].bpnum == 0 && t[i].address / 2 == w
    ensures forall i :: 0 <= i < e && t[i].enabled && t[i].bpnum != 0 ==> ice.slots[t[i].bpnum] == Wire(t[i])
  {
    forall s | s in ice.slots
      ensures exists i :: 0 <= i < e && t[i].enabled && t[i].bpnum == s != 0
    {
      var i: nat :| HoldsSlot(t, e, i, s);
      assert t[i].enabled;
    }
    forall w | w in ice.soft
      ensures exists i :: 0 <= i < e && t[i].enabled && t[i].bpnum == 0 && t[i].address / 2 == w
    {
      var i: nat :| HoldsWord(t, e, i, w);
      assert t[i].enabled;
    }
  }

  // ---------- what the target stops on ----------

  /** What the enabled breakpoints ask for: reads, writes, or both at an address; the word of a code address. */
  predicate AskedFor(enabled: set<(uint32, BpType)>, a: Access) {
    match a
    case Fetch(pc) => (pc / 2 * 2, Code) in enabled
    case Read(address) => (address, ReadData) in enabled || (address, AccessData) in enabled
    case Write(address) => (address, WriteData) in enabled || (address, AccessData) in enabled
  }

  ghost predicate StopsAsAsked(ice: Ice, enabled: set<(uint32, BpType)>) {
    forall a :: Stops(ice, a) <==> AskedFor(enabled, a)
  }

  /** The entry that asks for an access. */
  predicate AsksFor(b: Breakpoint2, a: Access) {
    match a
    case Fetch(pc) => b.kind == Code && b.address == pc / 2 * 2
    case Read(address) => (b.kind == ReadData || b.kind == AccessData) && b.address == address
    case Write(address) => (b.kind == WriteData || b.kind == AccessData) && b.address == address
  }

  lemma AskedByEntry(t: Table, e: nat, a: Access)
    requires e <= |t|
    ensures AskedFor(EnabledSet(t, e), a) <==> exists i :: 0 <= i < e && t[i].enabled && AsksFor(t[i], a)
  {
    if AskedFor(EnabledSet(t, e), a) {
      var x :| x in EnabledSet(t, e) && match a
        case Fetch(pc) => x == (pc / 2 * 2, Code)
        case Read(address) => x == (address, ReadData) || x == (address, AccessData)
        case Write(address) => x == (address, WriteData) || x == (address, AccessData);
      var i :| 0 <= i < e && t[i].enabled && x == (t[i].address, t[i].kind);
      assert AsksFor(t[i], a);
    }
    if i :| 0 <= i < e && t[i].enabled && AsksFor(t[i], a) {
      assert (t[i].address, t[i].kind) in EnabledSet(t, e);
    }
  }

  /** What is sent for an entry stops the target on what the entry asks for. */
  lemma WireStops(b: Breakpoint2, a: Access)
    requires b.kind != NoType && (b.kind == Code ==> b.address % 2 == 0)
    ensures StopsOn(Wire(b), a) <==> AsksFor(b, a)
  {
  }

  lemma EntryStops(t: Table, e: nat, ice: Ice, i: nat, a: Access)
    requires Sound(t, e, ice) && Settled(t, e) && i < e && t[i].enabled && AsksFor(t[i], a)
    ensures Stops(ice, a)
  {
    WireStops(t[i], a);
    if t[i].bpnum == 0 {
      assert t[i].kind == Code && t[i].address / 2 in ice.soft;
    } else {
      assert t[i].bpnum in ice.slots && StopsOn(ice.slots[t[i].bpnum], a);
    }
  }

  /** With nothing left to send, the target stops exactly on what the enabled breakpoints ask for. */
  lemma SettledStopsAsAsked(t: Table, e: nat, ice: Ice)
    requires Sound(t, e, ice) && Settled(t, e)
    ensures StopsAsAsked(ice, EnabledSet(t, e))
  {
    forall a
      ensures Stops(ice, a) <==> AskedFor(EnabledSet(t, e), a)
    {
      AskedByEntry(t, e, a);
      if i :| 0 <= i < e && t[i].enabled && AsksFor(t[i], a) {
        EntryStops(t, e, ice, i, a);
      }
      if Stops(ice, a) {
        StopIsEntry(t, e, ice, a);
      }
    }
  }

  lemma StopIsEntry(t: Table, e: nat, ice: Ice, a: Access)
    requires Sound(t, e, ice) && Settled(t, e) && Stops(ice, a)
    ensures exists i :: 0 <= i < e && t[i].enabled && AsksFor(t[i], a)
  {
    if s :| s in ice.slots && StopsOn(ice.slots[s], a) {
      var i: nat :| HoldsSlot(t, e, i, s);
      WireStops(t[i], a);
      assert t[i].enabled && AsksFor(t[i], a);
    } else {
      var i: nat :| HoldsWord(t, e, i, a.pc / 2);
      assert SlotFits(t[i].kind, t[i].bpnum);
      assert t[i].enabled && AsksFor(t[i], a);
    }
  }

  // ---------- what the program asks of its callers ----------

  /**
    Why code addresses must be even: an odd one names the same word, so that clearing
    one of two such software breakpoints takes both out of flash.
   */
  lemma OddAddressSharesWord(a: Breakpoint2, b: Breakpoint2, ice: Ice)
    requires a.kind == Code && b.kind == Code && a.bpnum == 0 && b.bpnum == 0
    requires a.address % 2 == 0 && b.address == a.address + 1
    ensures Accepts(ice, SetCommand(a)) ==> !Accepts(After(ice, SetCommand(a)), SetCommand(b))
    ensures Wire(b).address !in After(ice, ClearCommand(a)).soft
  {
  }
}
