/**
  How much room the ICE has for breakpoints, counted: the layout of src/jtag2bp.cc finds
  numbers for the pending entries exactly when there are slots enough of each sort.
 */
module BreakpointRoom {
  import opened Bytes
  import opened Ice
  import opened BreakpointTable

  predicate HeldByStable(t: Table, e: nat, s: int)
    requires e <= |t|
  {
    exists j :: 0 <= j < e && Stable(t[j]) && t[j].bpnum == s
  }

  /** The hardware slots that no stable entry holds. */
  function FreeSlots(t: Table, e: nat, cfg: Config): set<nat>
    requires e <= |t|
  {
    set s: nat | s in {1, 2, 3} && !cfg.debugWire && !HeldByStable(t, e, s)
  }

  function PendingData(t: Table, e: nat): set<nat>
    requires e <= |t|
  {
    set i: nat | 0 <= i < e && Pending(t[i]) && t[i].kind != Code
  }

  function PendingCode(t: Table, e: nat): set<nat>
    requires e <= |t|
  {
    set i: nat | 0 <= i < e && Pending(t[i]) && t[i].kind == Code
  }

  /** The data breakpoints find slots 2 and 3, and all of them slots or flash. */
  predicate HasRoom(t: Table, e: nat, cfg: Config)
    requires e <= |t|
  {
    && |PendingData(t, e)| <= |FreeSlots(t, e, cfg) - {1}|
    && (cfg.softwarebps || |PendingData(t, e)| + |PendingCode(t, e)| <= |FreeSlots(t, e, cfg)|)
  }

  // ---------- injections ----------

  /** Different entries have different numbers, all of them in a set. */
  ghost predicate Injects(s: set<nat>, p: seq<int>, f: set<nat>) {
    && (forall i :: i in s ==> i < |p| && p[i] in f)
    && forall i, j :: i in s && j in s && i != j ==> p[i] != p[j]
  }

  lemma {:induction false} InjectionNeedsRoom(s: set<nat>, p: seq<int>, f: set<nat>)
    requires Injects(s, p, f)
    ensures |s| <= |f|
    decreases |s|
  {
    if s != {} {
      var i :| i in s;
      InjectionNeedsRoom(s - {i}, p, f - {p[i]});
    }
  }

  /** Numbers for the entries of s from f; the numbers used are as many. */
  lemma {:induction false} RoomGivesInjection(s: set<nat>, p: seq<int>, f: set<nat>) returns (q: seq<int>, used: set<nat>)
    requires |s| <= |f| && forall i :: i in s ==> i < |p|
    ensures |q| == |p| && used <= f && |used| == |s| && Injects(s, q, used)
    ensures forall i :: 0 <= i < |p| && i !in s ==> q[i] == p[i]
    decreases |s|
  {
    if s == {} {
      q, used := p, {};
    } else {
      var i :| i in s;
      assert |f| > 0;
      var n :| n in f;
      q, used := RoomGivesInjection(s - {i}, p, f - {n});
      q, used := q[i := n], used + {n};
    }
  }

  // ---------- counting is enough ----------

  lemma PlacementHasRoom(t: Table, e: nat, p: seq<int>, cfg: Config)
    requires Placement(t, e, p, cfg)
    ensures HasRoom(t, e, cfg)
  {
    var data, code, free := PendingData(t, e), PendingCode(t, e), FreeSlots(t, e, cfg);
    forall i | i in data
      ensures p[i] in free - {1}
    {
      assert Allowed(t[i].kind, p[i], cfg);
    }
    InjectionNeedsRoom(data, p, free - {1});
    if !cfg.softwarebps {
      forall i | i in data + code
        ensures p[i] in free
      {
        assert Allowed(t[i].kind, p[i], cfg);
      }
      InjectionNeedsRoom(data + code, p, free);
      assert |data + code| == |data| + |code|;
    }
  }

  lemma RoomHasPlacement(t: Table, e: nat, cfg: Config) returns (p: seq<int>)
    requires e <= |t| && HasRoom(t, e, cfg)
    ensures Placement(t, e, p, cfg)
  {
    var data, code, free := PendingData(t, e), PendingCode(t, e), FreeSlots(t, e, cfg);
    var used;
    p, used := RoomGivesInjection(data, seq(|t|, _ => 0), free - {1});
    if !cfg.softwarebps {
      var others;
      assert |free - used| == |free| - |used|;
      p, others := RoomGivesInjection(code, p, free - used);
    }
    PlacesEach(t, e, p, cfg);
  }

  lemma PlacesEach(t: Table, e: nat, p: seq<int>, cfg: Config)
    requires e <= |t| == |p|
    requires forall i :: i in PendingData(t, e) ==> p[i] in FreeSlots(t, e, cfg) - {1}
    requires forall i :: i in PendingCode(t, e) ==> if cfg.softwarebps then p[i] == 0 else p[i] in FreeSlots(t, e, cfg)
    requires forall i, j :: 0 <= i < j < e && Pending(t[i]) && Pending(t[j]) && p[i] != 0 ==> p[i] != p[j]
    ensures Placement(t, e, p, cfg)
  {
    forall i: nat | i < e && Pending(t[i])
      ensures Allowed(t[i].kind, p[i], cfg)
      ensures p[i] != 0 ==> p[i] in FreeSlots(t, e, cfg)
    {
      assert i in PendingData(t, e) || i in PendingCode(t, e);
    }
  }

  /** There is a placement exactly when the slots suffice. */
  lemma RoomIsCounted(t: Table, e: nat, cfg: Config)
    requires e <= |t|
    ensures Room(t, e, cfg) <==> HasRoom(t, e, cfg)
  {
    if Room(t, e, cfg) {
      var p :| Placement(t, e, p, cfg);
      PlacementHasRoom(t, e, p, cfg);
    }
    if HasRoom(t, e, cfg) {
      var p := RoomHasPlacement(t, e, cfg);
    }
  }

  /** The adds that strand a breakpoint, by what the caller can see: it is in the ICE, and slots are short. */
  ghost predicate ShortForResident(t: Table, e: nat, address: uint32, kind: BpType, cfg: Config)
    requires Shaped(t, e)
  {
    var f := Find(t, e, address, kind, 0);
    f < e && t[f].icestatus && !HasRoom(Marked(t, f, address, kind), e, cfg)
  }

  lemma StrandsIsCounted(t: Table, e: nat, address: uint32, kind: BpType, cfg: Config)
    requires Shaped(t, e)
    ensures StrandsResident(t, e, address, kind, cfg) <==> ShortForResident(t, e, address, kind, cfg)
  {
    var f := Find(t, e, address, kind, 0);
    if f < e {
      RoomIsCounted(Marked(t, f, address, kind), e, cfg);
    }
  }
}
