/**
  The transfer of the mkII breakpoints to the ICE (updateBreakpoints in src/jtag2bp.cc): a
  loop that sends the clears, and a loop that sends the sets. An exchange may be lost,
  which ends the transfer as the exception of the program does.
 */
module BreakpointTransfer {
  import opened Bytes
  import opened Ice
  import opened BreakpointTable
  import opened BreakpointLayout

  /** The end of an exchange: carried out, turned down by the ICE, or lost on the way. */
  datatype Reply = Done | Refused | NoAnswer

  /** Where a loop has got to. */
  datatype Sent = Sent(table: Table, ice: Ice, reply: Reply)

  /** The clears from entry i on; the one for entry `lost`, if there is one, gets no answer. */
  function Clears(t: Table, e: nat, ice: Ice, i: nat, lost: nat): (r: Sent)
    requires i <= e <= |t|
    ensures |r.table| == |t|
    decreases e - i
  {
    if i == e then Sent(t, ice, Done)
    else if !t[i].toremove then Clears(t, e, ice, i + 1, lost)
    else if i == lost then Sent(t, ice, NoAnswer)
    else if !Accepts(ice, ClearCommand(t[i])) then Sent(t, ice, Refused)
    else Clears(t[i := Cleared(t[i])], e, After(ice, ClearCommand(t[i])), i + 1, lost)
  }

  /** The sets from entry i on. */
  function Sets(t: Table, e: nat, ice: Ice, i: nat, lost: nat): (r: Sent)
    requires i <= e <= |t|
    ensures |r.table| == |t|
    decreases e - i
  {
    if i == e then Sent(t, ice, Done)
    else if !Pending(t[i]) then Sets(t, e, ice, i + 1, lost)
    else if i == lost then Sent(t, ice, NoAnswer)
    else if !Accepts(ice, SetCommand(t[i])) then Sent(t, ice, Refused)
    else Sets(t[i := Downloaded(t[i])], e, After(ice, SetCommand(t[i])), i + 1, lost)
  }

  /** Clears before sets. */
  function Transfer(t: Table, e: nat, ice: Ice, lostClear: nat, lostSet: nat): (r: Sent)
    requires e <= |t|
    ensures |r.table| == |t|
  {
    var cleared := Clears(t, e, ice, 0, lostClear);
    if cleared.reply == Done then Sets(cleared.table, e, cleared.ice, 0, lostSet) else cleared
  }

  // ---------- what a transfer keeps ----------

  /** No clear is refused. */
  lemma {:induction false} ClearsKeepReady(t: Table, e: nat, ice: Ice, i: nat, lost: nat, cfg: Config, r: Sent)
    requires Ready(t, e, ice, cfg) && i <= e && r == Clears(t, e, ice, i, lost)
    ensures Ready(r.table, e, r.ice, cfg) && EnabledSet(r.table, e) == EnabledSet(t, e)
    ensures r.reply != Refused && (lost >= e ==> r.reply == Done)
    decreases e - i
  {
    if i < e {
      if !t[i].toremove {
        ClearsKeepReady(t, e, ice, i + 1, lost, cfg, r);
      } else if i != lost {
        ReadyToClear(t, e, ice, i, cfg);
        ClearsKeepReady(t[i := Cleared(t[i])], e, After(ice, ClearCommand(t[i])), i + 1, lost, cfg, r);
      }
    }
  }

  /** Clears that get through leave nothing to clear. */
  lemma {:induction false} ClearsRemoveAll(t: Table, e: nat, ice: Ice, i: nat, lost: nat, r: Sent)
    requires i <= e <= |t| && (forall j :: 0 <= j < i ==> !t[j].toremove)
    requires r == Clears(t, e, ice, i, lost) && r.reply == Done
    ensures NothingToRemove(r.table, e)
    decreases e - i
  {
    if i < e {
      if t[i].toremove {
        ClearsRemoveAll(t[i := Cleared(t[i])], e, After(ice, ClearCommand(t[i])), i + 1, lost, r);
      } else {
        ClearsRemoveAll(t, e, ice, i + 1, lost, r);
      }
    }
  }

  /** After the clears no set is refused. */
  lemma {:induction false} SetsKeepReady(t: Table, e: nat, ice: Ice, i: nat, lost: nat, cfg: Config, r: Sent)
    requires Ready(t, e, ice, cfg) && NothingToRemove(t, e) && i <= e && r == Sets(t, e, ice, i, lost)
    ensures Ready(r.table, e, r.ice, cfg) && EnabledSet(r.table, e) == EnabledSet(t, e) && NothingToRemove(r.table, e)
    ensures r.reply != Refused && (lost >= e ==> r.reply == Done)
    decreases e - i
  {
    if i < e {
      if !Pending(t[i]) {
        SetsKeepReady(t, e, ice, i + 1, lost, cfg, r);
      } else if i != lost {
        ReadyToSet(t, e, ice, i, cfg);
        SetsKeepReady(t[i := Downloaded(t[i])], e, After(ice, SetCommand(t[i])), i + 1, lost, cfg, r);
      }
    }
  }

  /** Sets that get through leave nothing to set. */
  lemma {:induction false} SetsLeaveNothing(t: Table, e: nat, ice: Ice, i: nat, lost: nat, r: Sent)
    requires i <= e <= |t| && (forall j :: 0 <= j < i ==> !Pending(t[j]))
    requires r == Sets(t, e, ice, i, lost) && r.reply == Done
    ensures forall j :: 0 <= j < e ==> !Pending(r.table[j])
    decreases e - i
  {
    if i < e {
      if Pending(t[i]) {
        SetsLeaveNothing(t[i := Downloaded(t[i])], e, After(ice, SetCommand(t[i])), i + 1, lost, r);
      } else {
        SetsLeaveNothing(t, e, ice, i + 1, lost, r);
      }
    }
  }

  /** The ICE refuses nothing; a transfer that is not broken off leaves nothing to send. */
  lemma TransferKeepsReady(t: Table, e: nat, ice: Ice, lostClear: nat, lostSet: nat, cfg: Config, r: Sent)
    requires Ready(t, e, ice, cfg) && r == Transfer(t, e, ice, lostClear, lostSet)
    ensures Ready(r.table, e, r.ice, cfg) && EnabledSet(r.table, e) == EnabledSet(t, e)
    ensures r.reply != Refused && (lostClear >= e && lostSet >= e ==> r.reply == Done)
    ensures r.reply == Done ==> Settled(r.table, e)
  {
    var cleared := Clears(t, e, ice, 0, lostClear);
    ClearsKeepReady(t, e, ice, 0, lostClear, cfg, cleared);
    if cleared.reply == Done {
      ClearsRemoveAll(t, e, ice, 0, lostClear, cleared);
      SetsKeepReady(cleared.table, e, cleared.ice, 0, lostSet, cfg, r);
      if r.reply == Done {
        SetsLeaveNothing(cleared.table, e, cleared.ice, 0, lostSet, r);
      }
    }
  }
}
