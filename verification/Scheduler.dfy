/** The valve scheduler of the client daemon (client/daemon/src/schedule_manager).

    `Next` says what one pass over the list, or one replacement of the list, does to the
    controller; class `ScheduleManager` carries it out on the arrays, and the lemmas of the
    other Scheduler files are about `Run`, the whole history. A pass is one step: nothing
    replaces the list while it is being visited. */
module Scheduler {
  import opened Types
  import opened Valves

  datatype ScheduleStatus = ScheduleStatus(sche: Schedule, isActive: bool)

  /** A call of `vm_set_valve_state`, with the position of the entry that caused it. */
  datatype Command = Command(entry: nat, valveId: U16, state: ValveState)

  datatype Event =
    | Sample(minute: U16)             // one pass of the endless loop at this minute of the day
    | Install(list: seq<Schedule>)    // sm_set_new_schedules

  /** The list with its flags, the valve table, and the commands since the list was installed. */
  datatype Controller = Controller(ss: seq<ScheduleStatus>, table: Table, issued: seq<Command>)

  predicate InWindow(s: Schedule, m: int) {
    s.start <= m <= s.stop
  }

  function Demand(s: Schedule, m: int): ValveState {
    if InWindow(s, m) then Open else Closed
  }

  predicate Changes(e: ScheduleStatus, m: int) {
    e.isActive != InWindow(e.sche, m)
  }

  function EntryCommands(ss: seq<ScheduleStatus>, m: int, i: nat): seq<Command>
    requires i < |ss|
  {
    if Changes(ss[i], m) then [Command(i, ss[i].sche.valveId, Demand(ss[i].sche, m))] else []
  }

  /** The commands of the first `n` entries, in list order. */
  function PassCommands(ss: seq<ScheduleStatus>, m: int, n: nat): seq<Command>
    requires n <= |ss|
  {
    if n == 0 then [] else PassCommands(ss, m, n - 1) + EntryCommands(ss, m, n - 1)
  }

  /** The table after the commands of the first `n` entries, issued in list order. */
  function TableAfter(t: Table, ss: seq<ScheduleStatus>, m: int, n: nat): Table
    requires n <= |ss|
  {
    if n == 0 then t
    else
      var before, e := TableAfter(t, ss, m, n - 1), ss[n - 1];
      if Changes(e, m) then Set(before, e.sche.valveId, Demand(e.sche, m)) else before
  }

  /** The list with every flag saying whether the minute is inside the window. */
  function Settled(ss: seq<ScheduleStatus>, m: int): (r: seq<ScheduleStatus>)
    ensures |r| == |ss|
  {
    seq(|ss|, i requires 0 <= i < |ss| => ScheduleStatus(ss[i].sche, InWindow(ss[i].sche, m)))
  }

  function Fresh(list: seq<Schedule>): (r: seq<ScheduleStatus>)
    ensures |r| == |list|
  {
    seq(|list|, i requires 0 <= i < |list| => ScheduleStatus(list[i], false))
  }

  function Next(c: Controller, ev: Event): Controller {
    match ev
    case Sample(m) =>
      var n := |c.ss|;
      Controller(Settled(c.ss, m), TableAfter(c.table, c.ss, m, n), c.issued + PassCommands(c.ss, m, n))
    case Install(list) =>
      Controller(Fresh(list), c.table, [])
  }

  function Run(c: Controller, evs: seq<Event>): Controller {
    if evs == [] then c else Next(Run(c, evs[..|evs| - 1]), evs[|evs| - 1])
  }

  lemma RunNext(c: Controller, evs: seq<Event>, i: nat)
    requires i < |evs|
    ensures Run(c, evs[..i + 1]) == Next(Run(c, evs[..i]), evs[i])
  {
    assert evs[..i + 1][..i] == evs[..i];
  }

  // ---------- What one pass does ----------

  /** Entry `j` is the last of the first `n` entries for valve `v` whose flag the pass flips. */
  predicate Decides(ss: seq<ScheduleStatus>, m: int, v: U16, n: nat, j: nat)
    requires n <= |ss|
  {
    && j < n && ss[j].sche.valveId == v && Changes(ss[j], m)
    && forall k :: j < k < n && ss[k].sche.valveId == v ==> !Changes(ss[k], m)
  }

  predicate Untouched(ss: seq<ScheduleStatus>, m: int, v: U16, n: nat)
    requires n <= |ss|
  {
    forall k :: 0 <= k < n && ss[k].sche.valveId == v ==> !Changes(ss[k], m)
  }

  /** One pass, for any list, flags, table and minute: a valve that no flipped entry names is
      left alone. */
  lemma {:induction false} PassLeavesAlone(t: Table, ss: seq<ScheduleStatus>, m: int, v: U16, n: nat)
    requires n <= |ss| && Untouched(ss, m, v, n)
    ensures Find(TableAfter(t, ss, m, n), v) == Find(t, v)
  {
    if n > 0 {
      PassLeavesAlone(t, ss, m, v, n - 1);
      var e := ss[n - 1];
      FindAfterSet(TableAfter(t, ss, m, n - 1), e.sche.valveId, Demand(e.sche, m), v);
    }
  }

  lemma {:induction false} PassKeepsKnown(t: Table, ss: seq<ScheduleStatus>, m: int, v: U16, n: nat)
    requires n <= |ss|
    ensures Known(TableAfter(t, ss, m, n), v) <==> Known(t, v)
  {
    if n > 0 {
      PassKeepsKnown(t, ss, m, v, n - 1);
      var e := ss[n - 1];
      FindAfterSet(TableAfter(t, ss, m, n - 1), e.sche.valveId, Demand(e.sche, m), v);
    }
  }

  /** A known valve with flipped entries ends up as the last one of them wants it. */
  lemma {:induction false} PassDecided(t: Table, ss: seq<ScheduleStatus>, m: int, v: U16, n: nat, j: nat)
    requires n <= |ss| && Known(t, v) && Decides(ss, m, v, n, j)
    ensures Find(TableAfter(t, ss, m, n), v) == Some(Demand(ss[j].sche, m))
  {
    if j == n - 1 {
      PassKeepsKnown(t, ss, m, v, n - 1);
    } else {
      assert Decides(ss, m, v, n - 1, j);
      PassDecided(t, ss, m, v, n - 1, j);
    }
    var e := ss[n - 1];
    FindAfterSet(TableAfter(t, ss, m, n - 1), e.sche.valveId, Demand(e.sche, m), v);
  }

  /** Either no entry for `v` is flipped, or there is a last one that is. */
  lemma {:induction false} LastFlip(ss: seq<ScheduleStatus>, m: int, v: U16, n: nat) returns (j: nat)
    requires n <= |ss|
    ensures Untouched(ss, m, v, n) || Decides(ss, m, v, n, j)
  {
    j := 0;
    if n > 0 {
      if ss[n - 1].sche.valveId == v && Changes(ss[n - 1], m) {
        j := n - 1;
      } else {
        j := LastFlip(ss, m, v, n - 1);
      }
    }
  }

  // ---------- The threads' code ----------

  /** The body of the loop over the list, at entry `i`. */
  function VisitEntry(c: Controller, m: int, i: nat): Controller
    requires i < |c.ss|
  {
    var e := c.ss[i];
    if Changes(e, m) then
      Controller(c.ss[i := ScheduleStatus(e.sche, InWindow(e.sche, m))],
                 Set(c.table, e.sche.valveId, Demand(e.sche, m)),
                 c.issued + [Command(i, e.sche.valveId, Demand(e.sche, m))])
    else c
  }

  /** The first `n` rounds of that loop. */
  function VisitFirst(c: Controller, m: int, n: nat): (r: Controller)
    requires n <= |c.ss|
    ensures |r.ss| == |c.ss|
  {
    if n == 0 then c else VisitEntry(VisitFirst(c, m, n - 1), m, n - 1)
  }

  lemma {:induction false} VisitFirstFlags(c: Controller, m: int, n: nat)
    requires n <= |c.ss|
    ensures forall i :: 0 <= i < |c.ss| ==>
              VisitFirst(c, m, n).ss[i] == if i < n then Settled(c.ss, m)[i] else c.ss[i]
  {
    if n > 0 {
      VisitFirstFlags(c, m, n - 1);
    }
  }

  lemma {:induction false} VisitFirstCommands(c: Controller, m: int, n: nat)
    requires n <= |c.ss|
    ensures VisitFirst(c, m, n).table == TableAfter(c.table, c.ss, m, n)
    ensures VisitFirst(c, m, n).issued == c.issued + PassCommands(c.ss, m, n)
  {
    if n > 0 {
      VisitFirstCommands(c, m, n - 1);
      var p := VisitFirst(c, m, n - 1);
      assert p.ss[n - 1] == c.ss[n - 1] by { VisitFirstFlags(c, m, n - 1); }
      assert VisitFirst(c, m, n) == VisitEntry(p, m, n - 1);
    }
  }

  /** The loop, entry by entry, does what `Next` says of the whole pass. */
  lemma LoopIsPass(c: Controller, m: U16)
    ensures VisitFirst(c, m, |c.ss|) == Next(c, Sample(m))
    ensures forall i :: 0 <= i < |c.ss| ==>
              VisitFirst(c, m, |c.ss|).ss[i].isActive == (c.ss[i].sche.start <= m <= c.ss[i].sche.stop)
  {
    VisitFirstFlags(c, m, |c.ss|);
    VisitFirstCommands(c, m, |c.ss|);
    assert VisitFirst(c, m, |c.ss|).ss == Settled(c.ss, m);
  }

  const STATUS_BYTES := 10  // sizeof(struct schedule_status)

  /** The number of bytes allocated for `n` entries: the product is kept in 16 bits. */
  function StatusAllocation(n: nat): U16 {
    ToU16(STATUS_BYTES * n)
  }

  /** The allocation holds the whole list exactly up to 6553 entries. */
  lemma StatusAllocationExact(n: nat)
    ensures STATUS_BYTES * n <= StatusAllocation(n) <==> n <= 6553
  {
  }

  class ScheduleManager {
    var ss: array<ScheduleStatus>
    const valves: ValveManager
    ghost var issued: seq<Command>

    constructor (valves: ValveManager)
      ensures this.valves == valves && fresh(ss)
      ensures View() == Controller([], valves.Contents(), [])
    {
      this.valves := valves;
      ss := new ScheduleStatus[0];
      issued := [];
    }

    ghost function View(): Controller
      reads this, ss, valves, valves.valvesMap
    {
      Controller(ss[..], valves.Contents(), issued)
    }

    /** The body of the loop over the list, at entry `i`. */
    method Visit(i: nat, currMins: U16)
      requires i < ss.Length
      modifies this`issued, ss, valves.valvesMap
      ensures View() == VisitEntry(old(View()), currMins, i)
    {
      if !ss[i].isActive && ss[i].sche.start <= currMins && ss[i].sche.stop >= currMins {
        var _ := valves.SetValveState(ss[i].sche.valveId, Open);
        ss[i] := ScheduleStatus(ss[i].sche, true);
        issued := issued + [Command(i, ss[i].sche.valveId, Open)];
      }
      if ss[i].isActive && (currMins < ss[i].sche.start || currMins > ss[i].sche.stop) {
        var _ := valves.SetValveState(ss[i].sche.valveId, Closed);
        ss[i] := ScheduleStatus(ss[i].sche, false);
        issued := issued + [Command(i, ss[i].sche.valveId, Closed)];
      }
    }

    /** One iteration of the endless loop of the scheduler thread, at minute `currMins`. */
    method Pass(currMins: U16)
      modifies this`issued, ss, valves.valvesMap
      ensures View() == Next(old(View()), Sample(currMins))
    {
      ghost var c := View();
      for i := 0 to ss.Length
        invariant |c.ss| == ss.Length
        invariant View() == VisitFirst(c, currMins, i)
      {
        Visit(i, currMins);
      }
      LoopIsPass(c, currMins);
    }

    /** Replaces the list; valves keep the state they have. `inBounds` is false when the 16-bit
        allocation is too short, in which case the first write outside it is reported instead
        of being carried out. */
    method SetNewSchedules(sches: seq<Schedule>) returns (inBounds: bool)
      requires |sches| < 0x1_0000
      modifies this
      ensures inBounds <==> |sches| <= 6553
      ensures inBounds ==> View() == Next(old(View()), Install(sches))
      ensures inBounds ==> fresh(ss)
    {
      StatusAllocationExact(|sches|);
      var capacity := StatusAllocation(|sches|) / STATUS_BYTES;
      ss := new ScheduleStatus[capacity](_ => ScheduleStatus(Schedule(0, 0, 0, 0), false));
      for i := 0 to |sches|
        invariant fresh(ss) && ss.Length == capacity && i <= capacity
        invariant forall k :: 0 <= k < i ==> ss[k] == Fresh(sches)[k]
      {
        if i >= capacity {
          return false;
        }
        ss[i] := ScheduleStatus(sches[i], false);
      }
      issued := [];
      assert ss[..] == Fresh(sches);
      return true;
    }

    /** The scheduler thread over a finite stretch of its life: samples of the clock in any
        order, with replacements of the list between passes. */
    method RunThread(evs: seq<Event>)
      requires forall ev :: ev in evs && ev.Install? ==> |ev.list| <= 6553
      modifies this, ss, valves.valvesMap
      ensures View() == Run(old(View()), evs)
    {
      assert evs[..|evs|] == evs;
      ghost var c := View();
      for i := 0 to |evs|
        invariant valves.valvesMap == old(valves.valvesMap)
        invariant fresh(ss) || ss == old(ss)
        invariant View() == Run(c, evs[..i])
      {
        RunNext(c, evs, i);
        assert evs[i] in evs;
        match evs[i]
        case Sample(m) => Pass(m);
        case Install(list) => var _ := SetNewSchedules(list);
      }
    }
  }
}
