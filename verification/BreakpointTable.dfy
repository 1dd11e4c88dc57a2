/**
  The mkII breakpoint table of src/jtag2bp.cc and src/jtag2.h: its entries,
  what makes a table sound, and how it mirrors the state of the ICE.
 */
module BreakpointTable {
  import opened Bytes
  import opened Ice

  const MAX_TOTAL_BREAKPOINTS2 := 32
  const MAX_BREAKPOINTS2 := 4
  const BREAKPOINT2_FIRST_DATA := 2

  datatype BpType = NoType | Code | WriteData | ReadData | AccessData

  datatype Breakpoint2 = Breakpoint2(
    address: uint32, kind: BpType, enabled: bool, last: bool,
    icestatus: bool, toremove: bool, toadd: bool, bpnum: byte)

  const DEFAULT_BP := Breakpoint2(0, NoType, false, true, false, false, false, 0)

  type Table = seq<Breakpoint2>

  /** softwarebps: breakpoints in flash are allowed; debugWire: there are no hardware slots. */
  datatype Config = Config(softwarebps: bool, debugWire: bool)

  // ---------- entries ----------

  predicate Pending(b: Breakpoint2) {
    b.enabled && b.toadd
  }

  /** Enabled, in the ICE, and about to stay there. */
  predicate Stable(b: Breakpoint2) {
    b.enabled && !b.toremove && b.icestatus
  }

  /** The contents of the slot that holds a breakpoint; the ICE counts program memory in words. */
  function Wire(b: Breakpoint2): Break {
    match b.kind
    case ReadData => Break(KIND_DATA, b.address, 0x00)
    case WriteData => Break(KIND_DATA, b.address, 0x01)
    case AccessData => Break(KIND_DATA, b.address, 0x02)
    case _ => Break(KIND_CODE, b.address / 2, MODE_CODE)
  }

  function SetCommand(b: Breakpoint2): Command {
    Set(Wire(b).kind, b.bpnum, Wire(b).address, Wire(b).mode)
  }

  function ClearCommand(b: Breakpoint2): Command {
    Clear(b.bpnum, if b.bpnum == 0 then b.address / 2 else 0)
  }

  predicate SlotFits(kind: BpType, n: int) {
    0 <= n <= 3 && (kind != Code ==> n >= 2)
  }

  /** The slots that a breakpoint may take on a device. */
  predicate Allowed(kind: BpType, n: int, cfg: Config) {
    && SlotFits(kind, n)
    && (n == 0 ==> cfg.softwarebps)
    && (n != 0 ==> !cfg.debugWire)
  }

  // ---------- the table ----------

  /** The table of 32 with its end marker at e; what every operation keeps whatever happens. */
  ghost predicate Shaped(t: Table, e: nat) {
    && |t| == MAX_TOTAL_BREAKPOINTS2
    && e < MAX_TOTAL_BREAKPOINTS2
    && t[e].last
    && (forall i :: 0 <= i < e ==> !t[i].last && t[i].kind != NoType && t[i].bpnum <= 3)
    && (forall i :: 0 <= i < e ==> t[i].toadd ==> !t[i].icestatus)
    && (forall i :: e <= i < |t| ==> Blank(t[i]))
  }

  predicate Blank(b: Breakpoint2) {
    b.kind == NoType && !b.enabled && !b.icestatus && !b.toremove && !b.toadd && b.bpnum == 0
  }

  predicate FlagsAgree(b: Breakpoint2) {
    && (b.icestatus ==> b.enabled || b.toremove)
    && (b.toremove ==> b.icestatus && !b.enabled)
    && (b.enabled && !b.icestatus ==> b.toadd)
    && (b.kind == Code ==> b.address % 2 == 0)
    && (b.icestatus ==> SlotFits(b.kind, b.bpnum))
  }

  ghost predicate Unique(t: Table, e: nat)
    requires e <= |t|
  {
    forall i, j :: 0 <= i < j < e ==> (t[i].address, t[i].kind) != (t[j].address, t[j].kind)
  }

  predicate HoldsSlot(t: Table, e: nat, i: nat, s: byte)
    requires e <= |t|
  {
    i < e && t[i].icestatus && t[i].bpnum == s != 0
  }

  predicate HoldsWord(t: Table, e: nat, i: nat, w: uint32)
    requires e <= |t|
  {
    i < e && t[i].icestatus && t[i].bpnum == 0 && t[i].address / 2 == w
  }

  /** The hardware slots hold exactly the entries marked as being in them. */
  ghost predicate SlotsMirror(t: Table, e: nat, slots: map<byte, Break>)
    requires e <= |t|
  {
    && (forall i :: 0 <= i < e && t[i].icestatus && t[i].bpnum != 0 ==>
          t[i].bpnum in slots && slots[t[i].bpnum] == Wire(t[i]))
    && (forall s :: s in slots ==> exists i :: HoldsSlot(t, e, i, s))
    && (forall i, j :: 0 <= i < j < e && t[i].icestatus && t[j].icestatus && t[i].bpnum != 0 ==>
          t[i].bpnum != t[j].bpnum)
  }

  /** The flash holds exactly the software breakpoints marked as being in it. */
  ghost predicate SoftMirror(t: Table, e: nat, soft: set<uint32>)
    requires e <= |t|
  {
    && (forall i :: 0 <= i < e && t[i].icestatus && t[i].bpnum == 0 ==> t[i].address / 2 in soft)
    && (forall w :: w in soft ==> exists i :: HoldsWord(t, e, i, w))
  }

  /** The ICE holds exactly the entries marked as being in it, each where its entry says. */
  ghost predicate Mirrors(t: Table, e: nat, ice: Ice)
    requires e <= |t|
  {
    SlotsMirror(t, e, ice.slots) && SoftMirror(t, e, ice.soft)
  }

  ghost predicate Orderly(t: Table, e: nat) {
    && Shaped(t, e)
    && (forall i :: 0 <= i < e ==> FlagsAgree(t[i]))
    && Unique(t, e)
  }

  ghost predicate Sound(t: Table, e: nat, ice: Ice) {
    Orderly(t, e) && Mirrors(t, e, ice)
  }

  /** Numbers for the pending entries: allowed, and no hardware slot used twice. */
  ghost predicate Placement(t: Table, e: nat, p: seq<int>, cfg: Config) {
    && e <= |t| == |p|
    && (forall i :: 0 <= i < e && Pending(t[i]) ==> Allowed(t[i].kind, p[i], cfg))
    && (forall i, j :: 0 <= i < j < e && Pending(t[i]) && Pending(t[j]) && p[i] != 0 ==> p[i] != p[j])
    && (forall i, j :: 0 <= i < e && 0 <= j < e && Pending(t[i]) && Stable(t[j]) && p[i] != 0 ==> p[i] != t[j].bpnum)
  }

  /** Some placement of the pending entries in the free slots exists. */
  ghost predicate Room(t: Table, e: nat, cfg: Config) {
    exists p :: Placement(t, e, p, cfg)
  }

  /** The numbers that the entries carry. */
  function Numbers(t: Table): (p: seq<int>)
    ensures |p| == |t| && forall i :: 0 <= i < |t| ==> p[i] == t[i].bpnum
  {
    seq(|t|, i requires 0 <= i < |t| => t[i].bpnum)
  }

  /** The invariant of the manager: a sound table whose pending entries can all be placed. */
  ghost predicate Coherent(t: Table, e: nat, ice: Ice, cfg: Config) {
    Sound(t, e, ice) && Room(t, e, cfg)
  }

  /** What is in the ICE is where the device allows it. */
  ghost predicate Obeys(t: Table, e: nat, cfg: Config)
    requires e <= |t|
  {
    forall i :: 0 <= i < e && t[i].icestatus ==> Allowed(t[i].kind, t[i].bpnum, cfg)
  }

  lemma ObeysKept(t: Table, e: nat, t': Table, e': nat, cfg: Config)
    requires e <= |t| && e' <= |t'| && Obeys(t, e, cfg)
    requires forall i :: 0 <= i < e' && t'[i].icestatus ==>
      i < e && t[i].icestatus && t'[i].kind == t[i].kind && t'[i].bpnum == t[i].bpnum
    ensures Obeys(t', e', cfg)
  {
  }

  /** So an ICE that mirrors the table has only what the device allows. */
  lemma IceObeys(t: Table, e: nat, ice: Ice, cfg: Config)
    requires Sound(t, e, ice) && Obeys(t, e, cfg)
    ensures !cfg.softwarebps ==> ice.soft == {}
    ensures cfg.debugWire ==> ice.slots == map[]
    ensures forall s :: s in ice.slots ==> 1 <= s <= 3 && (ice.slots[s].kind == KIND_DATA ==> s >= 2)
  {
    forall w | w in ice.soft
      ensures cfg.softwarebps
    {
      var i: nat :| HoldsWord(t, e, i, w);
      assert Allowed(t[i].kind, t[i].bpnum, cfg);
    }
    forall s | s in ice.slots
      ensures 1 <= s <= 3 && !cfg.debugWire && (ice.slots[s].kind == KIND_DATA ==> s >= 2)
    {
      var i: nat :| HoldsSlot(t, e, i, s);
      assert Allowed(t[i].kind, t[i].bpnum, cfg);
    }
    if cfg.debugWire {
      assert forall s :: s !in ice.slots;
    }
  }

  /** Nothing is left to send: the entries in the ICE are the enabled ones. */
  ghost predicate Settled(t: Table, e: nat)
    requires e <= |t|
  {
    forall i :: 0 <= i < e ==> !t[i].toremove && (t[i].enabled <==> t[i].icestatus) && !Pending(t[i])
  }

  function EnabledSet(t: Table, e: nat): set<(uint32, BpType)>
    requires e <= |t|
  {
    set i | 0 <= i < e && t[i].enabled :: (t[i].address, t[i].kind)
  }

  // ---------- one command to the ICE ----------

  function Cleared(b: Breakpoint2): Breakpoint2 {
    b.(icestatus := false, toremove := false)
  }

  function Downloaded(b: Breakpoint2): Breakpoint2 {
    b.(icestatus := true, toadd := false)
  }

  /** Replacing an entry by one for the same breakpoint keeps the table orderly. */
  lemma SwapKeepsOrderly(t: Table, e: nat, i: nat, b: Breakpoint2)
    requires Orderly(t, e) && i < e
    requires b.address == t[i].address && b.kind == t[i].kind && !b.last
    requires FlagsAgree(b) && b.bpnum <= 3 && (b.toadd ==> !b.icestatus)
    ensures Orderly(t[i := b], e)
  {
  }

  /** In an orderly table no two code breakpoints share a program word. */
  lemma WordsDiffer(t: Table, e: nat, i: nat)
    requires Orderly(t, e) && i < e && t[i].kind == Code
    ensures forall j :: 0 <= j < e && j != i && t[j].kind == Code ==> t[j].address / 2 != t[i].address / 2
  {
  }

  lemma ClearKeepsSlots(t: Table, e: nat, slots: map<byte, Break>, i: nat)
    requires i < e <= |t| && t[i].icestatus && SlotsMirror(t, e, slots)
    ensures SlotsMirror(t[i := Cleared(t[i])], e, if t[i].bpnum == 0 then slots else slots - {t[i].bpnum})
  {
    var t' := t[i := Cleared(t[i])];
    forall s | s in slots && (t[i].bpnum == 0 || s != t[i].bpnum)
      ensures exists j :: HoldsSlot(t', e, j, s)
    {
      var j :| HoldsSlot(t, e, j, s);
      assert HoldsSlot(t', e, j, s);
    }
  }

  lemma ClearKeepsSoft(t: Table, e: nat, ice: Ice, i: nat)
    requires Sound(t, e, ice) && i < e && t[i].toremove
    ensures SoftMirror(t[i := Cleared(t[i])], e, After(ice, ClearCommand(t[i])).soft)
  {
    var t', soft' := t[i := Cleared(t[i])], After(ice, ClearCommand(t[i])).soft;
    if t[i].bpnum == 0 {
      WordsDiffer(t, e, i);
    }
    forall w | w in soft'
      ensures exists j :: HoldsWord(t', e, j, w)
    {
      var j :| HoldsWord(t, e, j, w);
      assert HoldsWord(t', e, j, w);
    }
  }

  /** A clear is accepted, and leaves table and ICE in agreement. */
  lemma ClearKeepsSound(t: Table, e: nat, ice: Ice, i: nat)
    requires Sound(t, e, ice) && i < e && t[i].toremove
    ensures Accepts(ice, ClearCommand(t[i]))
    ensures Sound(t[i := Cleared(t[i])], e, After(ice, ClearCommand(t[i])))
  {
    SwapKeepsOrderly(t, e, i, Cleared(t[i]));
    ClearKeepsSlots(t, e, ice.slots, i);
    ClearKeepsSoft(t, e, ice, i);
  }

  lemma SetKeepsSlots(t: Table, e: nat, slots: map<byte, Break>, i: nat)
    requires i < e <= |t| && !t[i].icestatus && t[i].bpnum != 0 && SlotsMirror(t, e, slots)
    requires forall j :: 0 <= j < e && t[j].icestatus ==> t[j].bpnum != t[i].bpnum
    ensures t[i].bpnum !in slots
    ensures SlotsMirror(t[i := Downloaded(t[i])], e, slots[t[i].bpnum := Wire(t[i])])
  {
    var t', slots' := t[i := Downloaded(t[i])], slots[t[i].bpnum := Wire(t[i])];
    assert HoldsSlot(t', e, i, t[i].bpnum);
    forall s | s in slots' && s != t[i].bpnum
      ensures exists j :: HoldsSlot(t', e, j, s)
    {
      var j :| HoldsSlot(t, e, j, s);
      assert HoldsSlot(t', e, j, s);
    }
  }

  lemma SoftSetKeepsSlots(t: Table, e: nat, slots: map<byte, Break>, i: nat)
    requires i < e <= |t| && !t[i].icestatus && t[i].bpnum == 0 && SlotsMirror(t, e, slots)
    ensures SlotsMirror(t[i := Downloaded(t[i])], e, slots)
  {
    var t' := t[i := Downloaded(t[i])];
    forall s | s in slots
      ensures exists j :: HoldsSlot(t', e, j, s)
    {
      var j :| HoldsSlot(t, e, j, s);
      assert HoldsSlot(t', e, j, s);
    }
  }

  lemma SetKeepsSoft(t: Table, e: nat, ice: Ice, i: nat)
    requires Sound(t, e, ice) && i < e && Pending(t[i]) && (t[i].bpnum == 0 ==> t[i].kind == Code)
    ensures t[i].bpnum == 0 ==> t[i].address / 2 !in ice.soft
    ensures SoftMirror(t[i := Downloaded(t[i])], e, After(ice, SetCommand(t[i])).soft)
  {
    var t', soft' := t[i := Downloaded(t[i])], After(ice, SetCommand(t[i])).soft;
    if t[i].bpnum == 0 {
      WordsDiffer(t, e, i);
    }
    forall w | w in soft'
      ensures exists j :: HoldsWord(t', e, j, w)
    {
      if w in ice.soft {
        var j :| HoldsWord(t, e, j, w);
        assert HoldsWord(t', e, j, w);
      } else {
        assert HoldsWord(t', e, i, w);
      }
    }
  }

  /** A set into a slot that no entry holds is accepted, and leaves table and ICE in agreement. */
  lemma SetKeepsSound(t: Table, e: nat, ice: Ice, i: nat)
    requires Sound(t, e, ice) && i < e && Pending(t[i]) && SlotFits(t[i].kind, t[i].bpnum)
    requires t[i].bpnum != 0 ==> forall j :: 0 <= j < e && t[j].icestatus ==> t[j].bpnum != t[i].bpnum
    ensures Accepts(ice, SetCommand(t[i]))
    ensures Sound(t[i := Downloaded(t[i])], e, After(ice, SetCommand(t[i])))
  {
    SwapKeepsOrderly(t, e, i, Downloaded(t[i]));
    SetKeepsSoft(t, e, ice, i);
    if t[i].bpnum == 0 {
      SoftSetKeepsSlots(t, e, ice.slots, i);
    } else {
      SetKeepsSlots(t, e, ice.slots, i);
    }
  }

  // ---------- placements ----------

  /** Once cleared or downloaded where it is placed, an entry leaves the others well placed. */
  lemma ClearKeepsPlacement(t: Table, e: nat, i: nat, cfg: Config)
    requires Orderly(t, e) && i < e && t[i].toremove
    requires Placement(t, e, Numbers(t), cfg)
    ensures Placement(t[i := Cleared(t[i])], e, Numbers(t[i := Cleared(t[i])]), cfg)
  {
  }

  lemma SetKeepsPlacement(t: Table, e: nat, i: nat, cfg: Config)
    requires Orderly(t, e) && i < e && Pending(t[i])
    requires Placement(t, e, Numbers(t), cfg)
    ensures Placement(t[i := Downloaded(t[i])], e, Numbers(t[i := Downloaded(t[i])]), cfg)
  {
    var t' := t[i := Downloaded(t[i])];
    var p, p' := Numbers(t), Numbers(t');
    assert p == p';
    forall j, k | 0 <= j < e && 0 <= k < e && Pending(t'[j]) && Stable(t'[k]) && p[j] != 0
      ensures p[j] != t'[k].bpnum
    {
      if k == i {
        assert p[i] == t[i].bpnum;
        if j < i { assert p[j] != p[i]; } else { assert j > i; if p[i] != 0 { assert p[i] != p[j]; } }
      } else {
        assert Stable(t[k]);
      }
    }
  }

  /** Fewer pending and fewer stable entries leave every placement one. */
  lemma PlacementShrinks(t: Table, e: nat, t': Table, e': nat, p: seq<int>, cfg: Config)
    requires Placement(t, e, p, cfg)
    requires |t'| == |t| && e' <= |t'|
    requires forall i :: 0 <= i < e' && Pending(t'[i]) ==> i < e && Pending(t[i]) && t'[i].kind == t[i].kind
    requires forall i :: 0 <= i < e' && Stable(t'[i]) ==> i < e && Stable(t[i]) && t'[i].bpnum == t[i].bpnum
    ensures Placement(t', e', p, cfg)
  {
  }

  lemma RoomShrinks(t: Table, e: nat, t': Table, e': nat, cfg: Config)
    requires Room(t, e, cfg)
    requires |t'| == |t| && e' <= |t'|
    requires forall i :: 0 <= i < e' && Pending(t'[i]) ==> i < e && Pending(t[i]) && t'[i].kind == t[i].kind
    requires forall i :: 0 <= i < e' && Stable(t'[i]) ==> i < e && Stable(t[i]) && t'[i].bpnum == t[i].bpnum
    ensures Room(t', e', cfg)
  {
    var p :| Placement(t, e, p, cfg);
    PlacementShrinks(t, e, t', e', p, cfg);
  }

  // ---------- finding an entry ----------

  /** The first entry for a breakpoint from i on, or the end marker. */
  function Find(t: Table, e: nat, address: uint32, kind: BpType, i: nat): (f: nat)
    requires i <= e <= |t|
    ensures i <= f <= e
    ensures f < e ==> t[f].address == address && t[f].kind == kind
    ensures forall j :: i <= j < f ==> !(t[j].address == address && t[j].kind == kind)
    decreases e - i
  {
    if i == e || (t[i].address == address && t[i].kind == kind) then i else Find(t, e, address, kind, i + 1)
  }

  /** The first entry from i on that is neither enabled nor waiting for its removal. */
  function FirstIdle(t: Table, e: nat, i: nat): (f: nat)
    requires i <= e <= |t|
    ensures i <= f <= e
    ensures f < e ==> !t[f].enabled && !t[f].toremove
    ensures forall j :: i <= j < f ==> t[j].enabled || t[j].toremove
    decreases e - i
  {
    if i == e || !(t[i].enabled || t[i].toremove) then i else FirstIdle(t, e, i + 1)
  }

  /** The entry that an add uses: the one there is, else a new one, else an idle one; 31 if none is left. */
  function Chosen(t: Table, e: nat, address: uint32, kind: BpType): (i: nat)
    requires Shaped(t, e)
    ensures i <= e
  {
    var f := Find(t, e, address, kind, 0);
    if f + 1 == MAX_TOTAL_BREAKPOINTS2 then FirstIdle(t, e, 0) else f
  }

  /** The table once an add has written its entry. */
  function Marked(t: Table, i: nat, address: uint32, kind: BpType): Table
    requires i + 1 < |t|
  {
    var t1 := if t[i].last then
                t[i + 1 := t[i + 1].(last := true, enabled := false, address := 0, kind := NoType)]
              else t;
    t1[i := t1[i].(last := false, enabled := true, address := address, kind := kind,
                   toadd := !t1[i].icestatus, toremove := false)]
  }

  function MarkedEnd(e: nat, i: nat): nat {
    if i == e then e + 1 else e
  }

  /** The entry as a failed layout leaves it. */
  function RolledBack(b: Breakpoint2): Breakpoint2 {
    b.(enabled := false, toadd := false)
  }

  /**
    The adds after which the ICE keeps a breakpoint that the table has given up:
    the entry is in the ICE, waiting for its removal, and there is no room to take it back.
   */
  ghost predicate StrandsResident(t: Table, e: nat, address: uint32, kind: BpType, cfg: Config)
    requires Shaped(t, e)
  {
    var f := Find(t, e, address, kind, 0);
    f < e && t[f].icestatus && !Room(Marked(t, f, address, kind), e, cfg)
  }

  /** No entry is left for a breakpoint: there is none for it, all 31 are in use, and none of them is idle. */
  ghost predicate NoneLeft(t: Table, e: nat, address: uint32, kind: BpType)
    requires e <= |t|
  {
    e == 31 && forall i :: 0 <= i < e ==>
      !(t[i].address == address && t[i].kind == kind) && (t[i].enabled || t[i].toremove)
  }

  lemma ChosenIsLast(t: Table, e: nat, address: uint32, kind: BpType)
    requires Shaped(t, e)
    ensures Chosen(t, e, address, kind) == 31 <==> NoneLeft(t, e, address, kind)
  {
    var f := Find(t, e, address, kind, 0);
    if NoneLeft(t, e, address, kind) {
      assert f == e;
    }
  }

  /** The slots of a kind are those for which an idle ICE takes its set, as far as the device has them. */
  lemma AllowedIsAccepted(b: Breakpoint2, n: byte, cfg: Config)
    requires b.kind != NoType
    ensures Allowed(b.kind, n, cfg) <==>
      Accepts(IDLE, SetCommand(b.(bpnum := n))) && (if n == 0 then cfg.softwarebps else !cfg.debugWire)
  {
  }

  lemma ChosenKinds(t: Table, e: nat, address: uint32, kind: BpType)
    requires Orderly(t, e) && Chosen(t, e, address, kind) != 31
    ensures var i := Chosen(t, e, address, kind);
      || (i < e && t[i].address == address && t[i].kind == kind)
      || (!t[i].icestatus && !t[i].enabled && Find(t, e, address, kind, 0) == e)
  {
  }

  lemma MarkKeepsShape(t: Table, e: nat, address: uint32, kind: BpType)
    requires Shaped(t, e) && kind != NoType && Chosen(t, e, address, kind) != 31
    ensures var i := Chosen(t, e, address, kind); Shaped(Marked(t, i, address, kind), MarkedEnd(e, i))
  {
  }

  lemma MarkKeepsOrderly(t: Table, e: nat, address: uint32, kind: BpType)
    requires Orderly(t, e) && kind != NoType && Chosen(t, e, address, kind) != 31
    requires kind == Code ==> address % 2 == 0
    ensures var i := Chosen(t, e, address, kind); Orderly(Marked(t, i, address, kind), MarkedEnd(e, i))
  {
    ChosenKinds(t, e, address, kind);
    MarkKeepsShape(t, e, address, kind);
  }

  /** Changing entries in nothing that the ICE knows of keeps the mirror. */
  lemma MirrorKept(t: Table, e: nat, t': Table, e': nat, ice: Ice)
    requires e <= |t| && e' <= |t'| && e <= e' && Mirrors(t, e, ice)
    requires forall i :: e <= i < e' ==> !t'[i].icestatus
    requires forall i :: 0 <= i < e ==> t'[i].icestatus == t[i].icestatus
    requires forall i :: 0 <= i < e && t[i].icestatus ==>
      t'[i].address == t[i].address && t'[i].kind == t[i].kind && t'[i].bpnum == t[i].bpnum
    ensures Mirrors(t', e', ice)
  {
    forall s | s in ice.slots
      ensures exists j :: HoldsSlot(t', e', j, s)
    {
      var j :| HoldsSlot(t, e, j, s);
      assert HoldsSlot(t', e', j, s);
    }
    forall w | w in ice.soft
      ensures exists j :: HoldsWord(t', e', j, w)
    {
      var j :| HoldsWord(t, e, j, w);
      assert HoldsWord(t', e', j, w);
    }
  }

  lemma MarkKeepsSound(t: Table, e: nat, ice: Ice, address: uint32, kind: BpType)
    requires Sound(t, e, ice) && kind != NoType && Chosen(t, e, address, kind) != 31
    requires kind == Code ==> address % 2 == 0
    ensures var i := Chosen(t, e, address, kind); Sound(Marked(t, i, address, kind), MarkedEnd(e, i), ice)
  {
    var i := Chosen(t, e, address, kind);
    ChosenKinds(t, e, address, kind);
    MarkKeepsOrderly(t, e, address, kind);
    MirrorKept(t, e, Marked(t, i, address, kind), MarkedEnd(e, i), ice);
  }

  /** t' is t with other numbers on pending entries: all that a layout may change. */
  ghost predicate Renumbered(t: Table, e: nat, t': Table) {
    && |t'| == |t| && e <= |t|
    && (forall i :: 0 <= i < |t| ==> t'[i] == t[i].(bpnum := t'[i].bpnum) && (t'[i].bpnum <= 3 || t'[i] == t[i]))
    && forall i :: 0 <= i < |t| && !(i < e && Pending(t[i])) ==> t'[i] == t[i]
  }

  lemma RenumberKeepsSound(t: Table, e: nat, t': Table, ice: Ice)
    requires Sound(t, e, ice) && Renumbered(t, e, t')
    ensures Sound(t', e, ice)
  {
    MirrorKept(t, e, t', e, ice);
  }

  lemma RenumberKeepsRoom(t: Table, e: nat, t': Table, cfg: Config)
    requires Renumbered(t, e, t') && forall i :: 0 <= i < e ==> t[i].toadd ==> !t[i].icestatus
    ensures Room(t', e, cfg) <==> Room(t, e, cfg)
  {
    if Room(t, e, cfg) {
      RoomShrinks(t, e, t', e, cfg);
    }
    if Room(t', e, cfg) {
      RoomShrinks(t', e, t, e, cfg);
    }
  }
}
