/** Water delivered in a day, the commands of one entry, and the cases where the scheduler does
    not do what its lists ask for. */
module SchedulerDay {
  import opened Types
  import opened Valves
  import opened Scheduler
  import opened SchedulerClock

  // ---------- Minutes of water ----------

  /** Every minute below `n`, sampled in order. */
  function MinutesUpTo(n: nat): (evs: seq<Event>)
    requires n <= DAY
    ensures |evs| == n && forall k :: 0 <= k < n ==> evs[k] == Sample(k)
  {
    if n == 0 then [] else MinutesUpTo(n - 1) + [Sample(n - 1)]
  }

  /** The number of the first `n` minutes at which `v` is open after the pass. */
  function OpenMinutes(c: Controller, v: U16, n: nat): nat
    requires n <= DAY
  {
    if n == 0 then 0
    else OpenMinutes(c, v, n - 1) + if Find(Run(c, MinutesUpTo(n)).table, v) == Some(Open) then 1 else 0
  }

  /** max(0, min(stop, n-1) - start + 1): the minutes of the window below `n`. */
  function WindowMinutes(s: Schedule, n: nat): nat {
    var last := if s.stop < n then s.stop else n - 1;
    if last < s.start then 0 else last - s.start + 1
  }

  /** The sum over the first `k` entries that are for `v`. */
  function SumOfWindows(list: seq<Schedule>, v: U16, k: nat, n: nat): nat
    requires k <= |list|
  {
    if k == 0 then 0
    else SumOfWindows(list, v, k - 1, n) + if list[k - 1].valveId == v then WindowMinutes(list[k - 1], n) else 0
  }

  lemma {:induction false} SumGrows(list: seq<Schedule>, v: U16, k: nat, n: nat)
    requires k <= |list| && InOrder(list, v)
    ensures SumOfWindows(list, v, k, n + 1)
         == SumOfWindows(list, v, k, n) + if Watered(list[..k], v, n) then 1 else 0
  {
    if k > 0 {
      SumGrows(list, v, k - 1, n);
      OneMoreEntry(list, v, k, n);
    }
  }

  /** In an ordered list at most one of the entries for `v` contains a given minute. */
  lemma OneMoreEntry(list: seq<Schedule>, v: U16, k: nat, m: int)
    requires 0 < k <= |list| && InOrder(list, v)
    ensures var e := list[k - 1];
      Watered(list[..k], v, m) <==> Watered(list[..k - 1], v, m) != (e.valveId == v && InWindow(e, m))
  {
  }

  lemma DayGrows(list: seq<Schedule>, v: U16, n: nat)
    requires InOrder(list, v)
    ensures SumOfWindows(list, v, |list|, n + 1)
         == SumOfWindows(list, v, |list|, n) + if Watered(list, v, n) then 1 else 0
  {
    SumGrows(list, v, |list|, n);
    assert list[..|list|] == list;
  }

  lemma OpenAtMinute(c: Controller, list: seq<Schedule>, v: U16, n: nat)
    requires JustInstalled(c, list, v) && InOrder(list, v) && 0 < n <= DAY
    ensures Find(Run(c, MinutesUpTo(n)).table, v) == Some(Open) <==> Watered(list, v, n - 1)
  {
    InOrderIsRight(c, list, v, MinutesUpTo(n));
  }

  /** Disjoint windows in start order, every minute of the day sampled once: the minutes the
      valve is open are the sum of the windows' lengths within the day, stop minute included. */
  lemma {:induction false} WaterDelivered(c: Controller, list: seq<Schedule>, v: U16, n: nat)
    requires JustInstalled(c, list, v) && InOrder(list, v) && n <= DAY
    ensures OpenMinutes(c, v, n) == SumOfWindows(list, v, |list|, n)
  {
    if n == 0 {
      EmptyDay(list, v, |list|);
    } else {
      WaterDelivered(c, list, v, n - 1);
      DayGrows(list, v, n - 1);
      OpenAtMinute(c, list, v, n);
    }
  }

  lemma {:induction false} EmptyDay(list: seq<Schedule>, v: U16, k: nat)
    requires k <= |list|
    ensures SumOfWindows(list, v, k, 0) == 0
  {
    if k > 0 {
      EmptyDay(list, v, k - 1);
    }
  }

  // ---------- The commands of one entry ----------

  /** The states commanded by entry `i`, in order. */
  function OfEntry(cmds: seq<Command>, i: nat): seq<ValveState> {
    if cmds == [] then []
    else
      var c := cmds[|cmds| - 1];
      OfEntry(cmds[..|cmds| - 1], i) + if c.entry == i then [c.state] else []
  }

  lemma {:induction false} OfEntryConcat(a: seq<Command>, b: seq<Command>, i: nat)
    ensures OfEntry(a + b, i) == OfEntry(a, i) + OfEntry(b, i)
  {
    if b == [] {
      assert a + b == a;
    } else {
      OfEntryConcat(a, b[..|b| - 1], i);
      assert (a + b)[..|a + b| - 1] == a + b[..|b| - 1];
    }
  }

  /** The states that one pass commands for entry `i`: at most one. */
  function PassTrace(ss: seq<ScheduleStatus>, m: int, n: nat, i: nat): seq<ValveState>
    requires n <= |ss|
  {
    if i < n && Changes(ss[i], m) then [Demand(ss[i].sche, m)] else []
  }

  /** At most one command of each entry, in list order, and only of the first `n` that are flipped. */
  predicate InListOrder(cmds: seq<Command>, ss: seq<ScheduleStatus>, m: int, n: nat)
    requires n <= |ss|
  {
    && (forall k :: 0 <= k < |cmds| ==> cmds[k].entry < n && Changes(ss[cmds[k].entry], m))
    && (forall j, k :: 0 <= j < k < |cmds| ==> cmds[j].entry < cmds[k].entry)
  }

  lemma {:induction false} PassEntries(ss: seq<ScheduleStatus>, m: int, n: nat)
    requires n <= |ss|
    ensures InListOrder(PassCommands(ss, m, n), ss, m, n)
  {
    if n > 0 {
      var past, last := PassCommands(ss, m, n - 1), EntryCommands(ss, m, n - 1);
      PassEntries(ss, m, n - 1);
      assert InListOrder(past + last, ss, m, n);
    }
  }

  /** Every entry it flips has one. */
  lemma {:induction false} PassHas(ss: seq<ScheduleStatus>, m: int, n: nat, i: nat) returns (k: nat)
    requires i < n <= |ss| && Changes(ss[i], m)
    ensures k < |PassCommands(ss, m, n)|
    ensures PassCommands(ss, m, n)[k] == Command(i, ss[i].sche.valveId, Demand(ss[i].sche, m))
  {
    if i == n - 1 {
      k := |PassCommands(ss, m, n - 1)|;
    } else {
      k := PassHas(ss, m, n - 1, i);
    }
  }

  lemma {:induction false} NoneOfEntry(cmds: seq<Command>, i: nat)
    requires forall k :: 0 <= k < |cmds| ==> cmds[k].entry != i
    ensures OfEntry(cmds, i) == []
  {
    if cmds != [] {
      NoneOfEntry(cmds[..|cmds| - 1], i);
    }
  }

  lemma {:induction false} OneOfEntry(cmds: seq<Command>, i: nat, k: nat)
    requires k < |cmds| && cmds[k].entry == i
    requires forall j :: 0 <= j < |cmds| && j != k ==> cmds[j].entry != i
    ensures OfEntry(cmds, i) == [cmds[k].state]
  {
    if k == |cmds| - 1 {
      NoneOfEntry(cmds[..|cmds| - 1], i);
    } else {
      OneOfEntry(cmds[..|cmds| - 1], i, k);
    }
  }

  lemma OfEntryInPass(ss: seq<ScheduleStatus>, m: int, n: nat, i: nat)
    requires n <= |ss|
    ensures OfEntry(PassCommands(ss, m, n), i) == PassTrace(ss, m, n, i)
  {
    PassEntries(ss, m, n);
    if i < n && Changes(ss[i], m) {
      var cmds := PassCommands(ss, m, n);
      var k := PassHas(ss, m, n, i);
      forall j | 0 <= j < |cmds| && j != k ensures cmds[j].entry != i {
        assert if j < k then cmds[j].entry < cmds[k].entry else cmds[k].entry < cmds[j].entry;
      }
      OneOfEntry(cmds, i, k);
    } else {
      NoneOfEntry(PassCommands(ss, m, n), i);
    }
  }

  /** How often the sampled minutes cross the window's edges, counting from outside. */
  function Crossings(s: Schedule, evs: seq<Event>): nat
    requires ClockRun(evs)
  {
    if evs == [] then 0
    else
      var past := evs[..|evs| - 1];
      Crossings(s, past) + if Inside(s, past) != Inside(s, evs) then 1 else 0
  }

  predicate Inside(s: Schedule, evs: seq<Event>)
    requires ClockRun(evs)
  {
    evs != [] && InWindow(s, evs[|evs| - 1].minute)
  }

  /** What one pass adds to the commands of entry `i`. */
  lemma OnePassOfEntry(p: Controller, m: U16, i: nat)
    requires i < |p.ss|
    ensures OfEntry(Next(p, Sample(m)).issued, i)
         == OfEntry(p.issued, i) + PassTrace(p.ss, m, |p.ss|, i)
  {
    OfEntryConcat(p.issued, PassCommands(p.ss, m, |p.ss|), i);
    OfEntryInPass(p.ss, m, |p.ss|, i);
  }

  /** OPEN, CLOSED, OPEN, ... with OPEN last exactly if `inside`. */
  predicate Alternates(trace: seq<ValveState>, inside: bool) {
    && (forall k :: 0 <= k < |trace| ==> trace[k] == if k % 2 == 0 then Open else Closed)
    && (|trace| % 2 == 1 <==> inside)
  }

  lemma CrossingAlternates(trace: seq<ValveState>, inside: bool)
    requires Alternates(trace, inside)
    ensures Alternates(trace + [if inside then Closed else Open], !inside)
  {
  }

  /** Between two replacements the commands of one entry are OPEN, CLOSED, OPEN, ... and there
      is one for every crossing of a window edge. */
  lemma {:induction false} CommandsAlternate(c: Controller, list: seq<Schedule>, evs: seq<Event>, i: nat)
    requires c.ss == Fresh(list) && c.issued == [] && i < |list| && ClockRun(evs)
    ensures Alternates(OfEntry(Run(c, evs).issued, i), Inside(list[i], evs))
    ensures |OfEntry(Run(c, evs).issued, i)| == Crossings(list[i], evs)
  {
    if evs != [] {
      var past, ev := evs[..|evs| - 1], evs[|evs| - 1];
      CommandsAlternate(c, list, past, i);
      var p := Run(c, past);
      assert |p.ss| == |list| && p.ss[i] == ScheduleStatus(list[i], Inside(list[i], past)) by {
        FlagsInRun(c, list, past);
      }
      OnePassOfEntry(p, ev.minute, i);
      CrossingAlternates(OfEntry(p.issued, i), Inside(list[i], past));
    }
  }

  // ---------- Where the lists are not followed ----------

  /** A valve that a new list no longer names keeps its state through every later pass; if it
      was open, nothing closes it. */
  lemma {:induction false} UnlistedValveIsStuck(c: Controller, list: seq<Schedule>, v: U16, evs: seq<Event>)
    requires forall i :: 0 <= i < |list| ==> list[i].valveId != v
    requires ClockRun(evs)
    ensures Find(Run(Next(c, Install(list)), evs).table, v) == Find(c.table, v)
    ensures |Run(Next(c, Install(list)), evs).ss| == |list|
    ensures forall i :: 0 <= i < |list| ==> Run(Next(c, Install(list)), evs).ss[i].sche == list[i]
  {
    if evs != [] {
      var past := evs[..|evs| - 1];
      UnlistedValveIsStuck(c, list, v, past);
      var p := Run(Next(c, Install(list)), past);
      PassLeavesAlone(p.table, p.ss, evs[|evs| - 1].minute, v, |p.ss|);
    }
  }

  /** Overlapping windows: 10:00-11:40 and 10:50-11:00. At 11:01 the second closes the valve. */
  lemma OverlapIsNotFollowed(c: Controller)
    requires JustInstalled(c, [Schedule(1, 7, 600, 700), Schedule(2, 7, 650, 660)], 7)
    ensures !OpenIffWatered(c, [Schedule(1, 7, 600, 700), Schedule(2, 7, 650, 660)], 7, [Sample(650), Sample(661)])
  {
    var list := [Schedule(1, 7, 600, 700), Schedule(2, 7, 650, 660)];
    LeavingCuts(list, 7, 650, 661, 1, 0);
    CutShows(c, list, 7, 650, 661);
  }

  /** Disjoint windows listed out of order: 11:00-11:40 before 10:00-10:59. At 11:00 the first
      entry opens the valve and the second closes it in the same pass. */
  lemma OutOfOrderIsNotFollowed(c: Controller)
    requires JustInstalled(c, [Schedule(1, 7, 660, 700), Schedule(2, 7, 600, 659)], 7)
    ensures !OpenIffWatered(c, [Schedule(1, 7, 660, 700), Schedule(2, 7, 600, 659)], 7, [Sample(659), Sample(660)])
  {
    var list := [Schedule(1, 7, 660, 700), Schedule(2, 7, 600, 659)];
    LeavingCuts(list, 7, 659, 660, 1, 0);
    CutShows(c, list, 7, 659, 660);
  }
}
