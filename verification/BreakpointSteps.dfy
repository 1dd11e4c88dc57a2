/**
  The mkII breakpoint manager of src/jtag2bp.cc as steps from one moment to the next, and
  what holds over every run of them.
 */
module BreakpointSteps {
  import opened Bytes
  import opened Ice
  import opened BreakpointTable
  import opened BreakpointLayout
  import opened BreakpointRoom
  import opened BreakpointTransfer

  /** For an update: the entries whose clear and whose set are lost on the way, if they are sent; 32 for none. */
  datatype Operation =
    | Add(address: uint32, kind: BpType)
    | Delete(address: uint32, kind: BpType)
    | DeleteAll
    | Update(lostClear: nat, lostSet: nat)

  /** The table with its end marker, the ICE, and the end of the last exchange. */
  datatype Moment = Moment(table: Table, end: nat, ice: Ice, reply: Reply)

  /** The idle device and the empty table. */
  ghost predicate IsStart(a: Moment) {
    && |a.table| == MAX_TOTAL_BREAKPOINTS2 && (forall i :: 0 <= i < |a.table| ==> a.table[i] == DEFAULT_BP)
    && a.end == 0 && a.ice == IDLE && a.reply == Done
  }

  /** Breakpoints of a kind, and code breakpoints at words. */
  predicate Proper(op: Operation) {
    (op.Add? || op.Delete?) ==> op.kind != NoType && (op.kind == Code ==> op.address % 2 == 0)
  }

  // ---------- steps ----------

  /** A layout: other numbers for the pending entries; a placement, if there is any. */
  ghost predicate LaidOut(t: Table, e: nat, t2: Table, cfg: Config) {
    Renumbered(t, e, t2) && (Room(t, e, cfg) ==> Placement(t2, e, Numbers(t2), cfg))
  }

  /** What an add makes of its marked table: the layout, or the rollback of the entry. */
  ghost predicate AddedOrNot(t1: Table, e1: nat, i: nat, t2: Table, t3: Table, cfg: Config) {
    LaidOut(t1, e1, t2, cfg) && i < |t2| && t3 == if Room(t1, e1, cfg) then t2 else t2[i := RolledBack(t2[i])]
  }

  ghost predicate AddEnds(t1: Table, e1: nat, i: nat, t3: Table, cfg: Config) {
    exists t2 :: AddedOrNot(t1, e1, i, t2, t3, cfg)
  }

  ghost predicate AddStep(a: Moment, b: Moment, address: uint32, kind: BpType, cfg: Config)
    requires Shaped(a.table, a.end)
  {
    var i := Chosen(a.table, a.end, address, kind);
    if i == 31 then
      b == a.(reply := Done)
    else
      && b.end == MarkedEnd(a.end, i) && b.ice == a.ice && b.reply == Done
      && AddEnds(Marked(a.table, i, address, kind), b.end, i, b.table, cfg)
  }

  ghost predicate DeleteStep(a: Moment, b: Moment, address: uint32, kind: BpType, cfg: Config)
    requires Shaped(a.table, a.end)
  {
    var f := Find(a.table, a.end, address, kind, 0);
    if f == a.end then
      b == a.(reply := Done)
    else
      && b.end == a.end && b.ice == a.ice && b.reply == Done
      && LaidOut(a.table[f := Dropped(a.table[f])], a.end, b.table, cfg)
  }

  ghost predicate DeleteAllStep(a: Moment, b: Moment)
    requires Shaped(a.table, a.end)
  {
    && b.end == a.end && b.ice == a.ice && b.reply == Done && |b.table| == |a.table|
    && forall i :: 0 <= i < |a.table| ==> b.table[i] == if i < a.end then DroppedByAll(a.table[i]) else a.table[i]
  }

  /** What an update makes of its layout. */
  ghost predicate Transferred(a: Moment, t2: Table, b: Moment, lostClear: nat, lostSet: nat, cfg: Config) {
    && a.end <= |t2| && LaidOut(a.table, a.end, t2, cfg)
    && b.end == a.end && Sent(b.table, b.ice, b.reply) == Transfer(t2, a.end, a.ice, lostClear, lostSet)
  }

  ghost predicate UpdateStep(a: Moment, b: Moment, lostClear: nat, lostSet: nat, cfg: Config) {
    exists t2 :: Transferred(a, t2, b, lostClear, lostSet, cfg)
  }

  ghost predicate Step(op: Operation, a: Moment, b: Moment, cfg: Config) {
    && Shaped(a.table, a.end) && Shaped(b.table, b.end)
    && (op.Add? ==> AddStep(a, b, op.address, op.kind, cfg))
    && (op.Delete? ==> DeleteStep(a, b, op.address, op.kind, cfg))
    && (op.DeleteAll? ==> DeleteAllStep(a, b))
    && (op.Update? ==> UpdateStep(a, b, op.lostClear, op.lostSet, cfg))
  }

  /** How the last exchange ended makes no difference to a step. */
  lemma StepFromAny(op: Operation, a: Moment, b: Moment, cfg: Config)
    requires Step(op, a.(reply := Done), b, cfg)
    ensures Step(op, a, b, cfg)
  {
    if op.Update? {
      var t2 :| Transferred(a.(reply := Done), t2, b, op.lostClear, op.lostSet, cfg);
      assert Transferred(a, t2, b, op.lostClear, op.lostSet, cfg);
    }
  }

  /** A history of some operations: it starts with the idle device, and each joins two moments. */
  ghost predicate IsRun(ops: seq<Operation>, history: seq<Moment>, cfg: Config) {
    && |history| == |ops| + 1 && IsStart(history[0])
    && forall k {:trigger ops[k]} :: 0 <= k < |ops| ==> Step(ops[k], history[k], history[k + 1], cfg)
  }

  // ---------- what a step keeps ----------

  ghost predicate SteadyAt(a: Moment, cfg: Config) {
    Steady(a.table, a.end, a.ice, cfg)
  }

  /** The adds that go wrong. */
  ghost predicate Strands(op: Operation, a: Moment, cfg: Config) {
    op.Add? && Shaped(a.table, a.end) && ShortForResident(a.table, a.end, op.address, op.kind, cfg)
  }

  /** An add finds an entry, and room in the ICE. */
  ghost predicate Takes(op: Operation, a: Moment, cfg: Config) {
    op.Add? && Shaped(a.table, a.end) &&
    var i := Chosen(a.table, a.end, op.address, op.kind);
    i != 31 && HasRoom(Marked(a.table, i, op.address, op.kind), MarkedEnd(a.end, i), cfg)
  }

  /** An update over a link that loses none of its exchanges. */
  predicate LosesNothing(op: Operation, a: Moment) {
    op.Update? && op.lostClear >= a.end && op.lostSet >= a.end
  }

  /** What an operation makes of the set of enabled breakpoints. */
  function EnabledNext(op: Operation, enabled: set<(uint32, BpType)>, takes: bool): set<(uint32, BpType)> {
    match op
    case Add(address, kind) => if takes then enabled + {(address, kind)} else enabled - {(address, kind)}
    case Delete(address, kind) => enabled - {(address, kind)}
    case DeleteAll => {}
    case Update(_, _) => enabled
  }

  ghost function EnabledAt(a: Moment): set<(uint32, BpType)>
    requires a.end <= |a.table|
  {
    EnabledSet(a.table, a.end)
  }

  /** An add for which no entry is left changes nothing. */
  lemma AddTurnedAway(a: Moment, address: uint32, kind: BpType)
    requires Shaped(a.table, a.end) && Chosen(a.table, a.end, address, kind) == 31
    ensures (address, kind) !in EnabledAt(a) && Find(a.table, a.end, address, kind, 0) == a.end
  {
    forall i | 0 <= i < a.end
      ensures (a.table[i].address, a.table[i].kind) != (address, kind)
    {
    }
  }

  /** An add for which there is one. */
  lemma AddWithEntry(a: Moment, b: Moment, address: uint32, kind: BpType, cfg: Config, room: bool)
    requires Step(Add(address, kind), a, b, cfg) && Proper(Add(address, kind)) && SteadyAt(a, cfg)
    requires var i := Chosen(a.table, a.end, address, kind);
      i != 31 && room == Room(Marked(a.table, i, address, kind), MarkedEnd(a.end, i), cfg)
    ensures SteadyAt(b, cfg) == !StrandsResident(a.table, a.end, address, kind, cfg)
    ensures StrandsResident(a.table, a.end, address, kind, cfg) ==> Orphaned(b.table, b.end)
    ensures EnabledAt(b) == EnabledNext(Add(address, kind), EnabledAt(a), room)
  {
    var i := Chosen(a.table, a.end, address, kind);
    var t1, e1 := Marked(a.table, i, address, kind), MarkedEnd(a.end, i);
    var t2 :| AddedOrNot(t1, e1, i, t2, b.table, cfg);
    AddOutcome(a.table, a.end, address, kind, t2, b.table, room, cfg, a.ice);
  }

  lemma AddKeepsSteady(a: Moment, b: Moment, address: uint32, kind: BpType, cfg: Config)
    requires Step(Add(address, kind), a, b, cfg) && Proper(Add(address, kind)) && SteadyAt(a, cfg)
    ensures SteadyAt(b, cfg) == !Strands(Add(address, kind), a, cfg)
    ensures Strands(Add(address, kind), a, cfg) ==> Orphaned(b.table, b.end)
    ensures EnabledAt(b) == EnabledNext(Add(address, kind), EnabledAt(a), Takes(Add(address, kind), a, cfg))
  {
    var i := Chosen(a.table, a.end, address, kind);
    StrandsIsCounted(a.table, a.end, address, kind, cfg);
    if i == 31 {
      AddTurnedAway(a, address, kind);
    } else {
      RoomIsCounted(Marked(a.table, i, address, kind), MarkedEnd(a.end, i), cfg);
      AddWithEntry(a, b, address, kind, cfg, Takes(Add(address, kind), a, cfg));
    }
  }

  lemma DeleteKeepsSteady(a: Moment, b: Moment, address: uint32, kind: BpType, cfg: Config)
    requires Step(Delete(address, kind), a, b, cfg) && SteadyAt(a, cfg)
    ensures SteadyAt(b, cfg) && EnabledAt(b) == EnabledAt(a) - {(address, kind)}
  {
    var f := Find(a.table, a.end, address, kind, 0);
    if f == a.end {
      assert (address, kind) !in EnabledAt(a);
    } else {
      DeleteOutcome(a.table, a.end, f, b.table, cfg, a.ice);
    }
  }

  lemma UpdateKeepsSteady(a: Moment, b: Moment, lostClear: nat, lostSet: nat, cfg: Config)
    requires Step(Update(lostClear, lostSet), a, b, cfg) && SteadyAt(a, cfg)
    ensures SteadyAt(b, cfg) && EnabledAt(b) == EnabledAt(a) && b.reply != Refused
    ensures lostClear >= a.end && lostSet >= a.end ==> b.reply == Done
    ensures b.reply == Done ==> Settled(b.table, b.end) && StopsAsAsked(b.ice, EnabledAt(b))
  {
    var t2 :| Transferred(a, t2, b, lostClear, lostSet, cfg);
    SteadyToReady(a.table, a.end, t2, cfg, a.ice);
    TransferKeepsReady(t2, a.end, a.ice, lostClear, lostSet, cfg, Transfer(t2, a.end, a.ice, lostClear, lostSet));
    ReadyIsSteady(b.table, b.end, cfg, b.ice);
    if b.reply == Done {
      SettledStopsAsAsked(b.table, b.end, b.ice);
    }
  }

  /** A step from a steady moment leads to one, exactly unless it is an add that strands a breakpoint. */
  lemma StepKeepsSteady(op: Operation, a: Moment, b: Moment, cfg: Config)
    requires Step(op, a, b, cfg) && Proper(op) && SteadyAt(a, cfg)
    ensures SteadyAt(b, cfg) == !Strands(op, a, cfg)
    ensures Strands(op, a, cfg) ==> Orphaned(b.table, b.end)
    ensures EnabledAt(b) == EnabledNext(op, EnabledAt(a), Takes(op, a, cfg))
    ensures b.reply != Refused
    ensures op.Update? && b.reply == Done ==> Settled(b.table, b.end) && StopsAsAsked(b.ice, EnabledAt(b))
    ensures LosesNothing(op, a) ==> b.reply == Done
  {
    match op
    case Add(address, kind) => AddKeepsSteady(a, b, address, kind, cfg);
    case Delete(address, kind) => DeleteKeepsSteady(a, b, address, kind, cfg);
    case DeleteAll =>
      DeleteAllKeepsSteady(a.table, a.end, b.table, cfg, a.ice);
      NothingEnabled(b.table, b.end);
    case Update(lostClear, lostSet) => UpdateKeepsSteady(a, b, lostClear, lostSet, cfg);
  }

  lemma NothingEnabled(t: Table, e: nat)
    requires e <= |t| && forall i :: 0 <= i < e ==> !t[i].enabled
    ensures EnabledSet(t, e) == {}
  {
  }

  // ---------- every run ----------

  /** The enabled breakpoints after k operations, by the operations alone and which adds find room. */
  ghost function EnabledAfterAll(ops: seq<Operation>, history: seq<Moment>, cfg: Config, k: nat): set<(uint32, BpType)>
    requires k <= |ops| <= |history|
  {
    if k == 0 then {}
    else EnabledNext(ops[k - 1], EnabledAfterAll(ops, history, cfg, k - 1), Takes(ops[k - 1], history[k - 1], cfg))
  }

  lemma StartIsSteady(a: Moment, cfg: Config)
    requires IsStart(a)
    ensures SteadyAt(a, cfg) && EnabledAt(a) == {}
  {
    assert Placement(a.table, 0, Numbers(a.table), cfg);
  }

  /**
    Over every run, as long as no add has stranded a breakpoint: table and ICE agree, the
    ICE has refused nothing and holds only what the device allows, the breakpoints enabled are
    those that the operations ask for, and after an update that gets through nothing is left
    to send and the target stops on exactly what the operations ask for.
   */
  lemma {:induction false} RunIsSafe(ops: seq<Operation>, history: seq<Moment>, cfg: Config, k: nat)
    requires IsRun(ops, history, cfg) && (forall j :: 0 <= j < |ops| ==> Proper(ops[j])) && k <= |ops|
    requires forall j :: 0 <= j < k ==> !Strands(ops[j], history[j], cfg)
    ensures SteadyAt(history[k], cfg) && EnabledAt(history[k]) == EnabledAfterAll(ops, history, cfg, k)
    ensures history[k].reply != Refused
    ensures k > 0 && ops[k - 1].Update? && history[k].reply == Done ==>
      Settled(history[k].table, history[k].end) && StopsAsAsked(history[k].ice, EnabledAfterAll(ops, history, cfg, k))
    ensures k > 0 && LosesNothing(ops[k - 1], history[k - 1]) ==> history[k].reply == Done
    ensures !cfg.softwarebps ==> history[k].ice.soft == {}
    ensures cfg.debugWire ==> history[k].ice.slots == map[]
    decreases k
  {
    if k == 0 {
      StartIsSteady(history[0], cfg);
    } else {
      RunIsSafe(ops, history, cfg, k - 1);
      StepKeepsSteady(ops[k - 1], history[k - 1], history[k], cfg);
    }
    IceObeys(history[k].table, history[k].end, history[k].ice, cfg);
  }

  /** The first add that strands a breakpoint, and no other operation, ends this. */
  lemma StrandingEndsIt(ops: seq<Operation>, history: seq<Moment>, cfg: Config, k: nat)
    requires IsRun(ops, history, cfg) && (forall j :: 0 <= j < |ops| ==> Proper(ops[j])) && k < |ops|
    requires (forall j :: 0 <= j < k ==> !Strands(ops[j], history[j], cfg)) && Strands(ops[k], history[k], cfg)
    ensures !SteadyAt(history[k + 1], cfg) && Orphaned(history[k + 1].table, history[k + 1].end)
  {
    RunIsSafe(ops, history, cfg, k);
    StepKeepsSteady(ops[k], history[k], history[k + 1], cfg);
  }
}
