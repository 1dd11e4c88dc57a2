/**
  A run of the mkII breakpoint manager that strands a breakpoint: on a device without
  software breakpoints, three are sent, one is deleted, another added in its place, and
  the deleted one is wanted back before the next update (src/jtag2bp.cc:311-322). That
  update then sends the new one to the slot that the ICE has not given up.
 */
module BreakpointStranding {
  import opened Bytes
  import opened Ice
  import opened BreakpointTable
  import opened BreakpointLayout
  import opened BreakpointManager
  import opened BreakpointRoom
  import opened BreakpointSteps
  import opened BreakpointTransfer
  import opened Wrappers

  const NO_FLASH := Config(false, false)

  function Pairs(addresses: set<uint32>): set<(uint32, BpType)> {
    set a | a in addresses :: (a, Code)
  }

  lemma OnePairMore(addresses: set<uint32>, a: uint32)
    ensures Pairs(addresses) + {(a, Code)} == Pairs(addresses + {a})
    ensures Pairs(addresses) - {(a, Code)} == Pairs(addresses - {a})
  {
  }

  lemma EnabledAddress(t: Table, e: nat, addresses: set<uint32>, i: nat)
    requires i < e <= |t| && t[i].enabled && EnabledSet(t, e) == Pairs(addresses)
    ensures t[i].kind == Code && t[i].address in addresses
  {
    assert (t[i].address, t[i].kind) in EnabledSet(t, e);
  }

  lemma EntryOf(t: Table, e: nat, addresses: set<uint32>, a: uint32) returns (i: nat)
    requires e <= |t| && a in addresses && EnabledSet(t, e) == Pairs(addresses)
    ensures i < e && t[i].enabled && t[i].address == a && t[i].kind == Code
  {
    assert (a, Code) in EnabledSet(t, e);
    i :| i < e && t[i].enabled && (t[i].address, t[i].kind) == (a, Code);
  }

  /** Slots chosen by address are a placement if no two entries share one. */
  lemma RoomBySlots(t: Table, e: nat, slot: uint32 -> int)
    requires e <= |t|
    requires forall i :: 0 <= i < e && Pending(t[i]) ==> t[i].kind == Code && 1 <= slot(t[i].address) <= 3
    requires forall i, j :: 0 <= i < j < e && Pending(t[i]) && Pending(t[j]) ==> slot(t[i].address) != slot(t[j].address)
    requires forall i, j :: 0 <= i < e && 0 <= j < e && Pending(t[i]) && Stable(t[j]) ==> slot(t[i].address) != t[j].bpnum
    ensures Room(t, e, NO_FLASH)
  {
    var p := seq(|t|, i requires 0 <= i < |t| => slot(t[i].address));
    assert Placement(t, e, p, NO_FLASH);
  }

  /** What is enabled, as long as table and ICE agree. */
  ghost function Agreed(m: Moment): Option<set<(uint32, BpType)>> {
    if SteadyAt(m, NO_FLASH) then Some(EnabledAt(m)) else None
  }

  /** How an add fares: it finds an entry and room in the ICE, or it does not. */
  datatype Fate = Served | Unserved

  ghost function Fares(a: Moment, x: uint32): Fate {
    if !Shaped(a.table, a.end) then Unserved
    else
      var i := Chosen(a.table, a.end, x, Code);
      if i != 31 && Room(Marked(a.table, i, x, Code), MarkedEnd(a.end, i), NO_FLASH) then Served else Unserved
  }

  // ---------- filling the slots ----------

  lemma IdleHoldsNothing(t: Table, e: nat, i: nat)
    requires Sound(t, e, IDLE) && i < e
    ensures !t[i].icestatus
  {
  }

  lemma MarkedWhileIdle(t: Table, e: nat, addresses: set<uint32>, a: uint32, t1: Table, e1: nat, j: nat)
    requires Sound(t, e, IDLE) && EnabledSet(t, e) == Pairs(addresses) && Chosen(t, e, a, Code) != 31
    requires t1 == Marked(t, Chosen(t, e, a, Code), a, Code) && e1 == MarkedEnd(e, Chosen(t, e, a, Code))
    requires j < e1 <= |t1| && t1[j].enabled
    ensures t1[j].kind == Code && t1[j].address in addresses + {a} && !t1[j].icestatus
  {
    if j < e {
      IdleHoldsNothing(t, e, j);
      if j != Chosen(t, e, a, Code) {
        EnabledAddress(t, e, addresses, j);
      }
    }
  }

  /** On an idle ICE there is room for any of three breakpoints. */
  lemma AddToIdle(m: Moment, addresses: set<uint32>, a: uint32)
    requires Agreed(m) == Some(Pairs(addresses)) && m.ice == IDLE && m.end < 31
    requires addresses + {a} <= {0x10, 0x20, 0x30}
    ensures Fares(m, a) == Served
  {
    var t, e := m.table, m.end;
    var i := Chosen(t, e, a, Code);
    var t1, e1 := Marked(t, i, a, Code), MarkedEnd(e, i);
    MarkKeepsOrderly(t, e, a, Code);
    forall j: nat | j < e1 && t1[j].enabled
      ensures t1[j].kind == Code && t1[j].address in {0x10, 0x20, 0x30} && !t1[j].icestatus
    {
      MarkedWhileIdle(t, e, addresses, a, t1, e1, j);
    }
    RoomBySlots(t1, e1, x => x / 0x10);
  }

  // ---------- the full ICE ----------

  predicate Holds(ice: Ice, s: byte, a: uint32) {
    s in ice.slots && ice.slots[s] == Break(KIND_CODE, a / 2, MODE_CODE)
  }

  /** All three slots hold one of the three breakpoints. */
  predicate Trio(ice: Ice, sa: byte, sb: byte, sc: byte) {
    && 1 <= sa <= 3 && 1 <= sb <= 3 && 1 <= sc <= 3 && sa != sb && sb != sc && sa != sc
    && Holds(ice, sa, 0x10) && Holds(ice, sb, 0x20) && Holds(ice, sc, 0x30)
  }

  lemma SettledTrio(t: Table, e: nat, ice: Ice) returns (sa: byte, sb: byte, sc: byte)
    requires Steady(t, e, ice, NO_FLASH) && Settled(t, e) && EnabledSet(t, e) == Pairs({0x10, 0x20, 0x30})
    ensures Trio(ice, sa, sb, sc)
  {
    var a := EntryOf(t, e, {0x10, 0x20, 0x30}, 0x10);
    var b := EntryOf(t, e, {0x10, 0x20, 0x30}, 0x20);
    var c := EntryOf(t, e, {0x10, 0x20, 0x30}, 0x30);
    sa, sb, sc := t[a].bpnum, t[b].bpnum, t[c].bpnum;
    assert Allowed(Code, sa, NO_FLASH) && Allowed(Code, sb, NO_FLASH) && Allowed(Code, sc, NO_FLASH);
  }

  /** The entry that stands for what a slot holds. */
  lemma Resident(t: Table, e: nat, ice: Ice, s: byte, a: uint32) returns (i: nat)
    requires Sound(t, e, ice) && Holds(ice, s, a) && a % 2 == 0
    ensures i < e && t[i].icestatus && t[i].bpnum == s && t[i].address == a && t[i].kind == Code
  {
    i :| HoldsSlot(t, e, i, s);
    assert ice.slots[s] == Wire(t[i]);
  }

  /** Only the three breakpoints are marked as being in the ICE. */
  lemma ResidentAddress(t: Table, e: nat, ice: Ice, sa: byte, sb: byte, sc: byte, i: nat)
    requires Steady(t, e, ice, NO_FLASH) && Trio(ice, sa, sb, sc) && i < e && t[i].icestatus
    ensures t[i].address in {0x10, 0x20, 0x30} && t[i].kind == Code
  {
    assert Allowed(t[i].kind, t[i].bpnum, NO_FLASH);
    assert t[i].bpnum == sa || t[i].bpnum == sb || t[i].bpnum == sc;
    assert ice.slots[t[i].bpnum] == Wire(t[i]);
  }

  /** The enabled entries once the fourth is marked: the second and third in the ICE, and the fourth. */
  lemma FourthMarked(t: Table, e: nat, ice: Ice, sa: byte, sb: byte, sc: byte, t1: Table, e1: nat, i: nat, j: nat)
    requires Steady(t, e, ice, NO_FLASH) && Trio(ice, sa, sb, sc) && EnabledSet(t, e) == Pairs({0x20, 0x30})
    requires Chosen(t, e, 0x40, Code) == i != 31 && t1 == Marked(t, i, 0x40, Code) && e1 == MarkedEnd(e, i)
    requires j < e1 && t1[j].enabled && j != i
    ensures j < e && t1[j] == t[j] && !Pending(t1[j]) && t1[j].bpnum != sa
  {
    MarkKeepsShape(t, e, 0x40, Code);
    EnabledAddress(t, e, {0x20, 0x30}, j);
    var a := Resident(t, e, ice, sa, 0x10);
    var b := Resident(t, e, ice, sb, 0x20);
    var c := Resident(t, e, ice, sc, 0x30);
    assert j == b || j == c;
  }

  /** With the first one deleted, its slot is free for a fourth. */
  lemma AddFourth(m: Moment, sa: byte, sb: byte, sc: byte)
    requires Agreed(m) == Some(Pairs({0x20, 0x30})) && m.end <= 3 && Trio(m.ice, sa, sb, sc)
    ensures Fares(m, 0x40) == Served
  {
    var t, e, ice := m.table, m.end, m.ice;
    var i := Chosen(t, e, 0x40, Code);
    var t1, e1 := Marked(t, i, 0x40, Code), MarkedEnd(e, i);
    MarkKeepsOrderly(t, e, 0x40, Code);
    forall j: nat | j < e1 && t1[j].enabled && j != i
      ensures !Pending(t1[j]) && t1[j].bpnum != sa
    {
      FourthMarked(t, e, ice, sa, sb, sc, t1, e1, i, j);
    }
    RoomBySlots(t1, e1, x => sa);
  }

  /** Three resident entries leave no slot for a fourth. */
  lemma SlotsTaken(t: Table, e: nat, a: nat, b: nat, c: nat, d: nat)
    requires a < e && b < e && c < e && d < e <= |t|
    requires Stable(t[a]) && Stable(t[b]) && Stable(t[c])
    requires 1 <= t[a].bpnum <= 3 && 1 <= t[b].bpnum <= 3 && 1 <= t[c].bpnum <= 3
    requires t[a].bpnum != t[b].bpnum && t[b].bpnum != t[c].bpnum && t[a].bpnum != t[c].bpnum
    requires Pending(t[d]) && t[d].kind == Code
    ensures !Room(t, e, NO_FLASH)
  {
    forall p
      ensures !Placement(t, e, p, NO_FLASH)
    {
    }
  }

  lemma FourthIsPending(t: Table, e: nat, ice: Ice, sa: byte, sb: byte, sc: byte) returns (d: nat)
    requires Steady(t, e, ice, NO_FLASH) && Trio(ice, sa, sb, sc) && EnabledSet(t, e) == Pairs({0x20, 0x30, 0x40})
    ensures d < e && Pending(t[d]) && t[d].address == 0x40 && t[d].kind == Code
  {
    d := EntryOf(t, e, {0x20, 0x30, 0x40}, 0x40);
    if t[d].icestatus {
      ResidentAddress(t, e, ice, sa, sb, sc, d);
    }
  }

  lemma ResidentIsStable(t: Table, e: nat, ice: Ice, s: byte, a: uint32) returns (i: nat)
    requires Sound(t, e, ice) && Holds(ice, s, a) && a in {0x20, 0x30} && EnabledSet(t, e) == Pairs({0x20, 0x30, 0x40})
    ensures i < e && Stable(t[i]) && t[i].bpnum == s && t[i].address == a
  {
    i := Resident(t, e, ice, s, a);
    var j := EntryOf(t, e, {0x20, 0x30, 0x40}, a);
    assert j == i;
  }

  /** The first one is wanted back, but all slots are taken: by itself, two others, and the fourth is waiting. */
  lemma NoRoomForFirst(t: Table, e: nat, ice: Ice, sa: byte, sb: byte, sc: byte)
    requires Steady(t, e, ice, NO_FLASH) && e < 31 && Trio(ice, sa, sb, sc) && EnabledSet(t, e) == Pairs({0x20, 0x30, 0x40})
    ensures StrandsResident(t, e, 0x10, Code, NO_FLASH)
  {
    var a, b, c, d := FindEntries(t, e, ice, sa, sb, sc);
    FindIs(t, e, 0x10, a, 0);
    SlotsTaken(Marked(t, a, 0x10, Code), e, a, b, c, d);
  }

  lemma {:induction false} FindIs(t: Table, e: nat, a: uint32, i: nat, k: nat)
    requires Orderly(t, e) && k <= i < e && t[i].address == a && t[i].kind == Code
    ensures Find(t, e, a, Code, k) == i
    decreases i - k
  {
    if k < i {
      FindIs(t, e, a, i, k + 1);
    }
  }

  // ---------- the run ----------

  const STRANDING: seq<Operation> := [
    Add(0x10, Code), Add(0x20, Code), Add(0x30, Code), Update(32, 32),
    Delete(0x10, Code), Add(0x40, Code), Add(0x10, Code), Update(32, 32)]

  /** The moments that an operation leads to. */
  ghost function Next(op: Operation, a: Moment): iset<Moment> {
    iset b | Step(op, a, b, NO_FLASH)
  }

  /** An add that finds room changes the table and its end, and not the ICE. */
  lemma RoomyAdd(a: Moment, b: Moment, addresses: set<uint32>, x: uint32)
    requires b in Next(Add(x, Code), a) && x % 2 == 0
    requires Agreed(a) == Some(Pairs(addresses)) && Fares(a, x) == Served
    ensures Agreed(b) == Some(Pairs(addresses + {x})) && b.ice == a.ice && b.end <= a.end + 1
  {
    StrandsIff(a.table, a.end, x, Code, NO_FLASH);
    AddWithEntry(a, b, x, Code, NO_FLASH, true);
    OnePairMore(addresses, x);
  }

  lemma StepAddsOne(a: Moment, b: Moment, addresses: set<uint32>, x: uint32)
    requires b in Next(Add(x, Code), a) && Agreed(a) == Some(Pairs(addresses)) && a.ice == IDLE && a.end < 31
    requires addresses + {x} <= {0x10, 0x20, 0x30} && x % 2 == 0
    ensures Agreed(b) == Some(Pairs(addresses + {x})) && b.ice == IDLE && b.end <= a.end + 1
  {
    AddToIdle(a, addresses, x);
    RoomyAdd(a, b, addresses, x);
  }

  lemma ThreeAreSettled(a: Moment, b: Moment) returns (sa: byte, sb: byte, sc: byte)
    requires b in Next(Update(32, 32), a) && Agreed(a) == Some(Pairs({0x10, 0x20, 0x30})) && a.end <= 3
    ensures Agreed(b) == Some(Pairs({0x10, 0x20, 0x30})) && b.end <= 3 && Trio(b.ice, sa, sb, sc)
  {
    UpdateKeepsSteady(a, b, 32, 32, NO_FLASH);
    sa, sb, sc := SettledTrio(b.table, b.end, b.ice);
  }

  lemma FirstIsDeleted(a: Moment, b: Moment)
    requires b in Next(Delete(0x10, Code), a) && Agreed(a) == Some(Pairs({0x10, 0x20, 0x30})) && a.end <= 3
    ensures Agreed(b) == Some(Pairs({0x20, 0x30})) && b.end <= 3 && b.ice == a.ice
  {
    DeleteKeepsSteady(a, b, 0x10, Code, NO_FLASH);
    OnePairMore({0x10, 0x20, 0x30}, 0x10);
    assert {0x10, 0x20, 0x30} - {0x10} == {0x20, 0x30};
  }

  // ---------- the stranded breakpoint ----------

  /**
    The ICE holds the first breakpoint in a slot, but its entry is neither enabled nor
    waiting for removal; the fourth is pending.
   */
  ghost predicate Stranded(m: Moment, sa: byte, sb: byte, sc: byte, a: nat, b: nat, c: nat, d: nat) {
    var t, e := m.table, m.end;
    && Trio(m.ice, sa, sb, sc) && a < e && b < e && c < e && d < e <= |t|
    && t[a].address == 0x10 && t[a].kind == Code && t[a].icestatus && !t[a].enabled && !t[a].toremove && t[a].bpnum == sa
    && Stable(t[b]) && t[b].bpnum == sb && t[b].address == 0x20 && Stable(t[c]) && t[c].bpnum == sc && t[c].address == 0x30
    && Pending(t[d]) && !t[d].icestatus && t[d].kind == Code && t[d].address == 0x40
    && forall j :: 0 <= j < e ==>
         !t[j].toremove && (t[j].enabled ==> j == b || j == c || j == d) && (j != d ==> !Pending(t[j]))
  }

  lemma StrandedMeans(m: Moment, sa: byte, sb: byte, sc: byte, a: nat, b: nat, c: nat, d: nat)
    requires Stranded(m, sa, sb, sc, a, b, c, d)
    ensures Orphaned(m.table, m.end) && (exists s :: Holds(m.ice, s, 0x10)) && (0x10, Code) !in EnabledAt(m)
  {
    assert Holds(m.ice, sa, 0x10);
  }

  /** The breakpoints enabled, or waiting for removal, before the first breakpoint is wanted back. */
  lemma SameEntry(t: Table, e: nat, i: nat, j: nat)
    requires Orderly(t, e) && i < e && j < e && t[i].address == t[j].address && t[i].kind == t[j].kind
    ensures i == j
  {
  }

  lemma EnabledIsOneOf(t: Table, e: nat, b: nat, c: nat, d: nat, j: nat)
    requires Orderly(t, e) && EnabledSet(t, e) == Pairs({0x20, 0x30, 0x40}) && j < e && t[j].enabled
    requires b < e && c < e && d < e && t[b].kind == t[c].kind == t[d].kind == Code
    requires t[b].address == 0x20 && t[c].address == 0x30 && t[d].address == 0x40
    ensures j == b || j == c || j == d
  {
    EnabledAddress(t, e, {0x20, 0x30, 0x40}, j);
    SameEntry(t, e, j, if t[j].address == 0x20 then b else if t[j].address == 0x30 then c else d);
  }

  lemma FlaggedIsFirst(t: Table, e: nat, a: nat, b: nat, c: nat, j: nat)
    requires Orderly(t, e) && j < e && t[j].toremove && t[j].address in {0x10, 0x20, 0x30} && t[j].kind == Code
    requires a < e && b < e && c < e && t[a].kind == t[b].kind == t[c].kind == Code && t[b].enabled && t[c].enabled
    requires t[a].address == 0x10 && t[b].address == 0x20 && t[c].address == 0x30
    ensures j == a
  {
    SameEntry(t, e, j, if t[j].address == 0x10 then a else if t[j].address == 0x20 then b else c);
  }

  /** Where the four breakpoints are before the first is wanted back: b and c stay in the ICE, d is pending. */
  ghost predicate Entries(t: Table, e: nat, sa: byte, sb: byte, sc: byte, a: nat, b: nat, c: nat, d: nat) {
    && a < e && b < e && c < e && d < e <= |t| && a != d && b != a && c != a
    && t[a].icestatus && t[a].bpnum == sa && t[a].address == 0x10 && t[a].kind == Code
    && Stable(t[b]) && t[b].bpnum == sb && t[b].address == 0x20 && t[b].kind == Code
    && Stable(t[c]) && t[c].bpnum == sc && t[c].address == 0x30 && t[c].kind == Code
    && Pending(t[d]) && !t[d].icestatus && t[d].kind == Code && t[d].address == 0x40
  }

  ghost predicate Before(m: Moment, sa: byte, sb: byte, sc: byte, a: nat, b: nat, c: nat, d: nat) {
    var t, e := m.table, m.end;
    && Entries(t, e, sa, sb, sc, a, b, c, d) && Find(t, e, 0x10, Code, 0) == a
    && forall j :: 0 <= j < e ==> (t[j].toremove ==> j == a) && (t[j].enabled ==> j == b || j == c || j == d)
  }

  lemma FindEntries(t: Table, e: nat, ice: Ice, sa: byte, sb: byte, sc: byte) returns (a: nat, b: nat, c: nat, d: nat)
    requires Steady(t, e, ice, NO_FLASH) && Trio(ice, sa, sb, sc) && EnabledSet(t, e) == Pairs({0x20, 0x30, 0x40})
    ensures Entries(t, e, sa, sb, sc, a, b, c, d)
  {
    a := Resident(t, e, ice, sa, 0x10);
    b := ResidentIsStable(t, e, ice, sb, 0x20);
    c := ResidentIsStable(t, e, ice, sc, 0x30);
    d := FourthIsPending(t, e, ice, sa, sb, sc);
  }

  lemma NoOtherEntry(t: Table, e: nat, ice: Ice, sa: byte, sb: byte, sc: byte, a: nat, b: nat, c: nat, d: nat, j: nat)
    requires Steady(t, e, ice, NO_FLASH) && Trio(ice, sa, sb, sc) && EnabledSet(t, e) == Pairs({0x20, 0x30, 0x40})
    requires Entries(t, e, sa, sb, sc, a, b, c, d) && j < e
    ensures (t[j].toremove ==> j == a) && (t[j].enabled ==> j == b || j == c || j == d)
  {
    if t[j].toremove {
      ResidentAddress(t, e, ice, sa, sb, sc, j);
      FlaggedIsFirst(t, e, a, b, c, j);
    } else if t[j].enabled {
      EnabledIsOneOf(t, e, b, c, d, j);
    }
  }

  lemma BeforeTakingBack(m: Moment, sa: byte, sb: byte, sc: byte) returns (a: nat, b: nat, c: nat, d: nat)
    requires Agreed(m) == Some(Pairs({0x20, 0x30, 0x40})) && Trio(m.ice, sa, sb, sc)
    ensures Before(m, sa, sb, sc, a, b, c, d)
  {
    a, b, c, d := FindEntries(m.table, m.end, m.ice, sa, sb, sc);
    FindIs(m.table, m.end, 0x10, a, 0);
    forall j: nat | j < m.end
      ensures (m.table[j].toremove ==> j == a) && (m.table[j].enabled ==> j == b || j == c || j == d)
    {
      NoOtherEntry(m.table, m.end, m.ice, sa, sb, sc, a, b, c, d, j);
    }
  }

  lemma FatalAdd(m: Moment, n: Moment)
    requires n in Next(Add(0x10, Code), m) && SteadyAt(m, NO_FLASH)
    requires Strands(Add(0x10, Code), m, NO_FLASH)
    ensures !SteadyAt(n, NO_FLASH)
  {
    AddKeepsSteady(m, n, 0x10, Code, NO_FLASH);
  }

  /** Taking the first breakpoint back finds no room. */
  lemma TakingBackIsFatal(m: Moment, sa: byte, sb: byte, sc: byte)
    requires m.end <= 4 && Agreed(m) == Some(Pairs({0x20, 0x30, 0x40})) && Trio(m.ice, sa, sb, sc)
    ensures Strands(Add(0x10, Code), m, NO_FLASH) && StrandsResident(m.table, m.end, 0x10, Code, NO_FLASH)
  {
    NoRoomForFirst(m.table, m.end, m.ice, sa, sb, sc);
    StrandsIsCounted(m.table, m.end, 0x10, Code, NO_FLASH);
  }

  /** The rollback strands it. */
  lemma TakingBackStrands(m: Moment, n: Moment, sa: byte, sb: byte, sc: byte, a: nat, b: nat, c: nat, d: nat)
    requires n in Next(Add(0x10, Code), m) && m.end <= 4
    requires Before(m, sa, sb, sc, a, b, c, d) && Trio(m.ice, sa, sb, sc)
    requires StrandsResident(m.table, m.end, 0x10, Code, NO_FLASH)
    ensures Stranded(n, sa, sb, sc, a, b, c, d)
  {
    RollBackLeaves(m, n, a, b, c, d);
  }

  lemma RollBackLeaves(m: Moment, n: Moment, a: nat, b: nat, c: nat, d: nat)
    requires n in Next(Add(0x10, Code), m) && m.end <= 4 && a < m.end && b < m.end && c < m.end && d < m.end
    requires a != b && a != c && a != d && Find(m.table, m.end, 0x10, Code, 0) == a && m.table[a].icestatus
    requires StrandsResident(m.table, m.end, 0x10, Code, NO_FLASH)
    requires Stable(m.table[b]) && Stable(m.table[c]) && Pending(m.table[d])
    ensures n.ice == m.ice && n.end == m.end && |n.table| == |m.table|
    ensures n.table[a] == m.table[a].(enabled := false, toadd := false, toremove := false)
    ensures n.table[b] == m.table[b] && n.table[c] == m.table[c]
    ensures forall j :: 0 <= j < m.end && j != a ==> n.table[j] == m.table[j].(bpnum := n.table[j].bpnum)
  {
    var t1 := Marked(m.table, a, 0x10, Code);
    var t2 :| AddedOrNot(t1, n.end, a, t2, n.table, NO_FLASH);
    RolledBackEntries(m.table, m.end, a, b, c, d, t1, t2, n.table);
  }

  lemma RolledBackEntries(t: Table, e: nat, a: nat, b: nat, c: nat, d: nat, t1: Table, t2: Table, t3: Table)
    requires Shaped(t, e) && a < e && b < e && c < e && d < e && a != b && a != c && a != d && t[a].icestatus
    requires t1 == Marked(t, a, t[a].address, t[a].kind) && Renumbered(t1, e, t2) && t3 == t2[a := RolledBack(t2[a])]
    requires Stable(t[b]) && Stable(t[c]) && Pending(t[d])
    ensures t3[a] == t[a].(enabled := false, toadd := false, toremove := false)
    ensures t3[b] == t[b] && t3[c] == t[c] && t3[d] == t[d].(bpnum := t3[d].bpnum)
    ensures |t3| == |t| && forall j :: 0 <= j < e && j != a ==> t3[j] == t[j].(bpnum := t3[j].bpnum)
  {
  }

  lemma {:induction false} ClearsNothing(t: Table, e: nat, ice: Ice, i: nat, lost: nat)
    requires i <= e <= |t| && forall j :: i <= j < e ==> !t[j].toremove
    ensures Clears(t, e, ice, i, lost) == Sent(t, ice, Done)
    decreases e - i
  {
    if i < e {
      ClearsNothing(t, e, ice, i + 1, lost);
    }
  }

  lemma {:induction false} SetIsRefused(t: Table, e: nat, ice: Ice, i: nat, lost: nat, d: nat)
    requires i <= d < e <= |t| && d != lost && Pending(t[d]) && !Accepts(ice, SetCommand(t[d]))
    requires forall j :: i <= j < d ==> !Pending(t[j])
    ensures Sets(t, e, ice, i, lost) == Sent(t, ice, Refused)
    decreases d - i
  {
    if i < d {
      SetIsRefused(t, e, ice, i + 1, lost, d);
    }
  }

  /** With two slots held, a placement puts the pending breakpoint into the third one. */
  lemma PlacedInFirst(t: Table, e: nat, t2: Table, s: byte, b: nat, c: nat, d: nat)
    requires Renumbered(t, e, t2) && Placement(t2, e, Numbers(t2), NO_FLASH)
    requires b < e && c < e && d < e && Stable(t[b]) && Stable(t[c]) && Pending(t[d]) && !Pending(t[b]) && !Pending(t[c])
    requires 1 <= t[b].bpnum <= 3 && 1 <= t[c].bpnum <= 3 && 1 <= s <= 3
    requires s != t[b].bpnum && s != t[c].bpnum && t[b].bpnum != t[c].bpnum
    ensures t2[d].bpnum == s
  {
    assert Allowed(t2[d].kind, Numbers(t2)[d], NO_FLASH);
    assert t2[b] == t[b] && t2[c] == t[c];
  }

  /** The layout gives the fourth breakpoint the slot of the first, which the ICE has not given up. */
  lemma FourthGetsTheSlot(m: Moment, sa: byte, sb: byte, sc: byte, a: nat, b: nat, c: nat, d: nat, t2: Table)
    requires Stranded(m, sa, sb, sc, a, b, c, d) && LaidOut(m.table, m.end, t2, NO_FLASH)
    ensures t2[d].bpnum == sa
  {
    forall j: nat | j < m.end && Stable(m.table[j])
      ensures m.table[j].bpnum != sa
    {
      assert j == b || j == c || j == d;
    }
    RoomBySlots(m.table, m.end, x => sa);
    PlacedInFirst(m.table, m.end, t2, sa, b, c, d);
  }

  /** So the next update is refused. */
  lemma NextUpdateIsRefused(m: Moment, n: Moment, sa: byte, sb: byte, sc: byte, a: nat, b: nat, c: nat, d: nat)
    requires Stranded(m, sa, sb, sc, a, b, c, d) && n in Next(Update(32, 32), m)
    ensures n.reply == Refused && n.ice == m.ice
  {
    var t2 :| Transferred(m, t2, n, 32, 32, NO_FLASH);
    FourthGetsTheSlot(m, sa, sb, sc, a, b, c, d, t2);
    ClearsNothing(t2, m.end, m.ice, 0, 32);
    SetIsRefused(t2, m.end, m.ice, 0, 32, d);
  }

  lemma StepOf(h: seq<Moment>, k: nat)
    requires IsRun(STRANDING, h, NO_FLASH) && k < 8
    ensures |h| == 9 && h[k + 1] in Next(STRANDING[k], h[k])
  {
    assert Step(STRANDING[k], h[k], h[k + 1], NO_FLASH);
  }

  /** The first three steps, one by one. */
  lemma OneIsAdded(h: seq<Moment>)
    requires IsRun(STRANDING, h, NO_FLASH)
    ensures Agreed(h[1]) == Some(Pairs({0x10})) && h[1].ice == IDLE && h[1].end <= 1
  {
    StartIsSteady(h[0], NO_FLASH);
    assert Pairs({}) == {};
    StepOf(h, 0);
    StepAddsOne(h[0], h[1], {}, 0x10);
    assert {} + {0x10} == {0x10};
  }

  lemma TwoAreAdded(h: seq<Moment>)
    requires IsRun(STRANDING, h, NO_FLASH)
    ensures Agreed(h[2]) == Some(Pairs({0x10, 0x20})) && h[2].ice == IDLE && h[2].end <= 2
  {
    OneIsAdded(h);
    StepOf(h, 1);
    StepAddsOne(h[1], h[2], {0x10}, 0x20);
    assert {0x10} + {0x20} == {0x10, 0x20};
  }

  lemma ThreeAreAdded(h: seq<Moment>)
    requires IsRun(STRANDING, h, NO_FLASH)
    ensures Agreed(h[3]) == Some(Pairs({0x10, 0x20, 0x30})) && h[3].end <= 3
  {
    TwoAreAdded(h);
    StepOf(h, 2);
    StepAddsOne(h[2], h[3], {0x10, 0x20}, 0x30);
    assert {0x10, 0x20} + {0x30} == {0x10, 0x20, 0x30};
  }

  lemma ThreeAreSent(h: seq<Moment>) returns (sa: byte, sb: byte, sc: byte)
    requires IsRun(STRANDING, h, NO_FLASH)
    ensures Agreed(h[4]) == Some(Pairs({0x10, 0x20, 0x30})) && h[4].end <= 3 && Trio(h[4].ice, sa, sb, sc)
  {
    ThreeAreAdded(h);
    StepOf(h, 3);
    sa, sb, sc := ThreeAreSettled(h[3], h[4]);
  }

  lemma FirstIsReplaceable(h: seq<Moment>) returns (sa: byte, sb: byte, sc: byte)
    requires IsRun(STRANDING, h, NO_FLASH)
    ensures Agreed(h[5]) == Some(Pairs({0x20, 0x30})) && h[5].end <= 3 && Trio(h[5].ice, sa, sb, sc)
  {
    sa, sb, sc := ThreeAreSent(h);
    StepOf(h, 4);
    FirstIsDeleted(h[4], h[5]);
  }

  lemma FourthIsServed(h: seq<Moment>)
    requires IsRun(STRANDING, h, NO_FLASH)
    ensures Agreed(h[5]) == Some(Pairs({0x20, 0x30})) && h[5].end <= 3 && Fares(h[5], 0x40) == Served
  {
    var sa, sb, sc := FirstIsReplaceable(h);
    AddFourth(h[5], sa, sb, sc);
  }

  lemma FourthIsAdded(h: seq<Moment>)
    requires IsRun(STRANDING, h, NO_FLASH)
    ensures Agreed(h[6]) == Some(Pairs({0x20, 0x30, 0x40})) && h[6].end <= 4 && h[6].ice == h[5].ice
  {
    FourthIsServed(h);
    StepOf(h, 5);
    RoomyAdd(h[5], h[6], {0x20, 0x30}, 0x40);
    assert {0x20, 0x30} + {0x40} == {0x20, 0x30, 0x40};
  }

  lemma FourthIsWaiting(h: seq<Moment>) returns (sa: byte, sb: byte, sc: byte)
    requires IsRun(STRANDING, h, NO_FLASH)
    ensures Agreed(h[6]) == Some(Pairs({0x20, 0x30, 0x40})) && h[6].end <= 4 && Trio(h[6].ice, sa, sb, sc)
  {
    sa, sb, sc := FirstIsReplaceable(h);
    FourthIsAdded(h);
  }

  /**
    Every run of these operations: up to the seventh table and ICE agree; it strands the
    first breakpoint, which the ICE still holds though it is not enabled, and the ICE
    refuses the update that follows.
   */
  lemma EveryRunStrands(h: seq<Moment>)
    requires IsRun(STRANDING, h, NO_FLASH)
    ensures Agreed(h[6]) == Some(Pairs({0x20, 0x30, 0x40})) && Strands(STRANDING[6], h[6], NO_FLASH)
    ensures !SteadyAt(h[7], NO_FLASH) && Orphaned(h[7].table, h[7].end)
    ensures (exists s :: Holds(h[7].ice, s, 0x10)) && (0x10, Code) !in EnabledAt(h[7])
    ensures h[8].reply == Refused
  {
    var sa, sb, sc := FourthIsWaiting(h);
    StepOf(h, 6);
    TakingBackIsFatal(h[6], sa, sb, sc);
    FatalAdd(h[6], h[7]);
    var a, b, c, d := BeforeTakingBack(h[6], sa, sb, sc);
    TakingBackStrands(h[6], h[7], sa, sb, sc, a, b, c, d);
    StepOf(h, 7);
    NextUpdateIsRefused(h[7], h[8], sa, sb, sc, a, b, c, d);
    StrandedMeans(h[7], sa, sb, sc, a, b, c, d);
  }

  /** The run on a device. */
  method StrandingRun() returns (m: Jtag2, ghost history: seq<Moment>)
    ensures m.Valid() && IsRun(STRANDING, history, NO_FLASH) && m.Now(Refused) == history[8]
    ensures Agreed(history[6]) == Some(Pairs({0x20, 0x30, 0x40})) && Strands(STRANDING[6], history[6], NO_FLASH)
    ensures Orphaned(history[7].table, history[7].end) && (exists s :: Holds(history[7].ice, s, 0x10))
  {
    m, history := Run(STRANDING, DEVFL_NO_SOFTBP, false);
    EveryRunStrands(history);
  }
}
