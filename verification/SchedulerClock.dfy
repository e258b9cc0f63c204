/** When "a valve is open exactly while one of its entries wants it open" holds.

    It does not hold in general: an entry that leaves its window closes the valve even when an
    earlier entry is still inside its own. The theorems give the exact conditions on a list
    under which it holds after every pass, for a clock that only moves forward through one day
    and for a clock that may do anything. */
module SchedulerClock {
  import opened Types
  import opened Valves
  import opened Scheduler

  const DAY := 1440  // minutes; the clock gives tm_hour*60+tm_min

  /** Some entry for `v` is flagged active. */
  ghost predicate Wanted(ss: seq<ScheduleStatus>, v: U16) {
    exists i :: 0 <= i < |ss| && ss[i].sche.valveId == v && ss[i].isActive
  }

  ghost predicate Consistent(c: Controller, v: U16) {
    Find(c.table, v) == Some(if Wanted(c.ss, v) then Open else Closed)
  }

  /** Some entry of the list for `v` contains the minute. */
  ghost predicate Watered(list: seq<Schedule>, v: U16, m: int) {
    exists i :: 0 <= i < |list| && list[i].valveId == v && InWindow(list[i], m)
  }

  /** Only samples, all of them minutes of a day. */
  ghost predicate ClockRun(evs: seq<Event>) {
    forall k :: 0 <= k < |evs| ==> evs[k].Sample? && evs[k].minute < DAY
  }

  ghost predicate ForwardRun(evs: seq<Event>) {
    && ClockRun(evs)
    && forall i, j :: 0 <= i <= j < |evs| ==> evs[i].minute <= evs[j].minute
  }

  /** The list has just been installed and valve `v` is a known, closed valve. */
  ghost predicate JustInstalled(c: Controller, list: seq<Schedule>, v: U16) {
    c.ss == Fresh(list) && Find(c.table, v) == Some(Closed)
  }

  /** After the last pass of the run, `v` is open exactly if some entry contains its minute. */
  ghost predicate OpenIffWatered(c: Controller, list: seq<Schedule>, v: U16, evs: seq<Event>)
    requires |evs| > 0 && evs[|evs| - 1].Sample?
  {
    Find(Run(c, evs).table, v) == Some(if Watered(list, v, evs[|evs| - 1].minute) then Open else Closed)
  }

  // ---------- One pass ----------

  /** The pass closes `v` for an entry that is left while another entry contains the minute. */
  ghost predicate CutsOff(ss: seq<ScheduleStatus>, v: U16, m: int) {
    && Wanted(Settled(ss, m), v)
    && exists j :: 0 <= j < |ss| && Decides(ss, m, v, |ss|, j) && ss[j].isActive
  }

  lemma DeciderIsUnique(ss: seq<ScheduleStatus>, m: int, v: U16, i: nat, j: nat)
    requires i < |ss| && j < |ss| && Decides(ss, m, v, |ss|, i) && Decides(ss, m, v, |ss|, j)
    ensures i == j
  {
  }

  /** A pass from a consistent controller gives a consistent one exactly when it cuts nobody off. */
  lemma PassConsistent(c: Controller, v: U16, m: U16)
    requires Consistent(c, v)
    ensures Consistent(Next(c, Sample(m)), v) <==> !CutsOff(c.ss, v, m)
  {
    var n := |c.ss|;
    var c' := Next(c, Sample(m));
    var j := LastFlip(c.ss, m, v, n);
    if Untouched(c.ss, m, v, n) {
      PassLeavesAlone(c.table, c.ss, m, v, n);
      assert forall i :: 0 <= i < n && c.ss[i].sche.valveId == v ==> c'.ss[i] == c.ss[i];
      assert Wanted(c.ss, v) <==> Wanted(c'.ss, v) by {
        if Wanted(c.ss, v) {
          var i :| 0 <= i < n && c.ss[i].sche.valveId == v && c.ss[i].isActive;
          assert c'.ss[i] == c.ss[i];
        }
      }
    } else {
      PassDecided(c.table, c.ss, m, v, n, j);
      assert c'.ss[j].isActive == InWindow(c.ss[j].sche, m);
      if c.ss[j].isActive {
        assert CutsOff(c.ss, v, m) <==> Wanted(c'.ss, v);
      } else {
        assert Wanted(c'.ss, v);
        forall i | 0 <= i < n && Decides(c.ss, m, v, n, i) ensures !c.ss[i].isActive {
          DeciderIsUnique(c.ss, m, v, i, j);
        }
      }
    }
  }

  // ---------- Runs ----------

  lemma {:induction false} FlagsInRun(c: Controller, list: seq<Schedule>, evs: seq<Event>)
    requires c.ss == Fresh(list) && ClockRun(evs)
    ensures Run(c, evs).ss == if evs == [] then Fresh(list) else Settled(Fresh(list), evs[|evs| - 1].minute)
  {
    if evs != [] {
      FlagsInRun(c, list, evs[..|evs| - 1]);
    }
  }

  lemma WantedIsWatered(list: seq<Schedule>, v: U16, m: int)
    ensures Wanted(Settled(Fresh(list), m), v) <==> Watered(list, v, m)
  {
    if Watered(list, v, m) {
      var i :| 0 <= i < |list| && list[i].valveId == v && InWindow(list[i], m);
      assert Settled(Fresh(list), m)[i] == ScheduleStatus(list[i], true);
    }
  }

  lemma ConsistentIsOpenIffWatered(c: Controller, list: seq<Schedule>, v: U16, evs: seq<Event>)
    requires JustInstalled(c, list, v) && ClockRun(evs) && evs != []
    ensures OpenIffWatered(c, list, v, evs) <==> Consistent(Run(c, evs), v)
  {
    FlagsInRun(c, list, evs);
    WantedIsWatered(list, v, evs[|evs| - 1].minute);
  }

  /** The flags that a pass at `m` finds when the previous one was at `before` (-1: none yet). */
  ghost function FlagsAt(list: seq<Schedule>, before: int): seq<ScheduleStatus> {
    if before < 0 then Fresh(list) else Settled(Fresh(list), before)
  }

  ghost function LastMinute(evs: seq<Event>): int
    requires ClockRun(evs)
  {
    if evs == [] then -1 else evs[|evs| - 1].minute
  }

  /** The last pass of a run keeps the controller consistent exactly when it cuts nobody off. */
  lemma LastPassConsistent(c: Controller, list: seq<Schedule>, v: U16, evs: seq<Event>)
    requires JustInstalled(c, list, v) && ClockRun(evs) && evs != []
    requires Consistent(Run(c, evs[..|evs| - 1]), v)
    ensures Consistent(Run(c, evs), v)
            <==> !CutsOff(FlagsAt(list, LastMinute(evs[..|evs| - 1])), v, evs[|evs| - 1].minute)
  {
    var past, ev := evs[..|evs| - 1], evs[|evs| - 1];
    var p := Run(c, past);
    assert p.ss == FlagsAt(list, LastMinute(past)) by { FlagsInRun(c, list, past); }
    assert Consistent(Next(p, ev), v) <==> !CutsOff(p.ss, v, ev.minute) by { PassConsistent(p, v, ev.minute); }
  }

  /** Two passes are enough to show a cut. */
  lemma CutShows(c: Controller, list: seq<Schedule>, v: U16, before: U16, m: U16)
    requires JustInstalled(c, list, v) && before < DAY && m < DAY
    requires CutsOff(FlagsAt(list, before), v, m)
    ensures !OpenIffWatered(c, list, v, [Sample(before), Sample(m)])
  {
    var one, two := [Sample(before)], [Sample(before), Sample(m)];
    assert two[..1] == one && one[..0] == [];
    FirstPassCutsNobody(c, list, v, before);
    LastPassConsistent(c, list, v, one);
    LastPassConsistent(c, list, v, two);
    ConsistentIsOpenIffWatered(c, list, v, two);
  }

  /** The first pass after an installation has no active entry to leave. */
  lemma FirstPassCutsNobody(c: Controller, list: seq<Schedule>, v: U16, m: U16)
    requires JustInstalled(c, list, v)
    ensures !CutsOff(FlagsAt(list, -1), v, m)
    ensures Consistent(c, v)
  {
  }

  // ---------- A clock that moves forward through one day ----------

  /** Whenever an entry has ended and the valve is still wanted, a later entry of the list that
      started after that end wants it. */
  ghost predicate HandsOver(list: seq<Schedule>, v: U16) {
    forall j, m :: (0 <= j < |list| && list[j].valveId == v && list[j].start <= list[j].stop < m < DAY
                    && Watered(list, v, m)) ==> TakenOver(list, v, j, m)
  }

  ghost predicate TakenOver(list: seq<Schedule>, v: U16, j: int, m: int)
    requires 0 <= j < |list|
  {
    exists l :: j < l < |list| && list[l].valveId == v && list[j].stop < list[l].start && InWindow(list[l], m)
  }

  lemma HandsOverAvoidsCut(list: seq<Schedule>, v: U16, before: U16, m: U16)
    requires HandsOver(list, v) && before <= m < DAY
    ensures !CutsOff(FlagsAt(list, before), v, m)
  {
    var ss := FlagsAt(list, before);
    if CutsOff(ss, v, m) {
      var j :| 0 <= j < |ss| && Decides(ss, m, v, |ss|, j) && ss[j].isActive;
      assert Settled(ss, m) == Settled(Fresh(list), m);
      WantedIsWatered(list, v, m);
      assert TakenOver(list, v, j, m);
      var l :| j < l < |list| && list[l].valveId == v && list[j].stop < list[l].start && InWindow(list[l], m);
      EnteredLater(list, v, before, m, j, l);
      assert false;
    }
  }

  lemma EnteredLater(list: seq<Schedule>, v: U16, before: U16, m: U16, j: nat, l: nat)
    requires j < l < |list| && list[l].valveId == v && !InWindow(list[l], before) && InWindow(list[l], m)
    ensures !Decides(FlagsAt(list, before), m, v, |list|, j)
  {
    assert Changes(FlagsAt(list, before)[l], m);
  }

  /** A missing hand-over shows when the entry's last minute and the later one are sampled. */
  lemma NoHandOverCuts(list: seq<Schedule>, v: U16) returns (before: U16, m: U16)
    requires !HandsOver(list, v)
    ensures before <= m < DAY && CutsOff(FlagsAt(list, before), v, m)
  {
    var j, m' :| 0 <= j < |list| && list[j].valveId == v && list[j].start <= list[j].stop < m' < DAY
                 && Watered(list, v, m') && !TakenOver(list, v, j, m');
    before, m := list[j].stop, m';
    var ss := FlagsAt(list, before);
    assert Settled(ss, m) == Settled(Fresh(list), m);
    WantedIsWatered(list, v, m);
    assert Changes(ss[j], m);
    var d := LastFlip(ss, m, v, |ss|);
    assert Decides(ss, m, v, |ss|, d);
    if !ss[d].isActive {
      assert false;
    }
  }

  /** For a list that has just been installed, "open exactly while watered" holds after every
      pass of every forward run of one day if and only if the list hands over. */
  lemma ForwardClockExact(c: Controller, list: seq<Schedule>, v: U16)
    requires JustInstalled(c, list, v)
    ensures (forall evs :: evs != [] && ForwardRun(evs) ==> OpenIffWatered(c, list, v, evs))
            <==> HandsOver(list, v)
  {
    if HandsOver(list, v) {
      forall evs: seq<Event> | evs != [] && ForwardRun(evs) ensures OpenIffWatered(c, list, v, evs) {
        ForwardRunIsRight(c, list, v, evs);
      }
    } else {
      var before, m := NoHandOverCuts(list, v);
      CutShows(c, list, v, before, m);
      assert ForwardRun([Sample(before), Sample(m)]);
    }
  }

  lemma {:induction false} ForwardRunConsistent(c: Controller, list: seq<Schedule>, v: U16, evs: seq<Event>)
    requires JustInstalled(c, list, v) && HandsOver(list, v) && ForwardRun(evs)
    ensures Consistent(Run(c, evs), v)
  {
    if evs != [] {
      var past := evs[..|evs| - 1];
      ForwardRunConsistent(c, list, v, past);
      LastPassConsistent(c, list, v, evs);
      if past == [] {
        FirstPassCutsNobody(c, list, v, evs[|past|].minute);
      } else {
        HandsOverAvoidsCut(list, v, LastMinute(past), evs[|past|].minute);
      }
    }
  }

  lemma ForwardRunIsRight(c: Controller, list: seq<Schedule>, v: U16, evs: seq<Event>)
    requires JustInstalled(c, list, v) && HandsOver(list, v) && evs != [] && ForwardRun(evs)
    ensures OpenIffWatered(c, list, v, evs)
  {
    ForwardRunConsistent(c, list, v, evs);
    ConsistentIsOpenIffWatered(c, list, v, evs);
  }

  /** Non-empty windows of one valve are pairwise disjoint and listed by increasing start. */
  ghost predicate InOrder(list: seq<Schedule>, v: U16) {
    forall i, j :: 0 <= i < j < |list| && list[i].valveId == v && list[j].valveId == v
                   && list[i].start <= list[i].stop && list[j].start <= list[j].stop
                   ==> list[i].stop < list[j].start
  }

  lemma InOrderHandsOver(list: seq<Schedule>, v: U16)
    requires InOrder(list, v)
    ensures HandsOver(list, v)
  {
  }

  /** Disjoint windows in start order: after every pass of a forward run the valve is open
      exactly if some window contains the minute, although one entry may be left and another
      entered in the same pass. */
  lemma InOrderIsRight(c: Controller, list: seq<Schedule>, v: U16, evs: seq<Event>)
    requires JustInstalled(c, list, v) && InOrder(list, v) && evs != [] && ForwardRun(evs)
    ensures OpenIffWatered(c, list, v, evs)
  {
    InOrderHandsOver(list, v);
    ForwardRunIsRight(c, list, v, evs);
  }

  // ---------- A clock that may do anything ----------

  function LastOfDay(s: Schedule): int {
    if s.stop < DAY then s.stop else DAY - 1
  }

  /** The window contains some minute of the day. */
  predicate Reachable(s: Schedule) {
    s.start <= LastOfDay(s)
  }

  /** All windows of `v` that contain a minute of the day contain the same ones. */
  ghost predicate OneWindow(list: seq<Schedule>, v: U16) {
    forall i, j :: 0 <= i < |list| && 0 <= j < |list| && list[i].valveId == v && list[j].valveId == v
                   && Reachable(list[i]) && Reachable(list[j])
                   ==> list[i].start == list[j].start && LastOfDay(list[i]) == LastOfDay(list[j])
  }

  lemma OneWindowAvoidsCut(list: seq<Schedule>, v: U16, before: U16, m: U16)
    requires OneWindow(list, v) && before < DAY && m < DAY
    ensures !CutsOff(FlagsAt(list, before), v, m)
  {
  }

  /** Two different windows of one valve: a minute of one outside the other gives a cut in one
      direction or the other. */
  lemma TwoWindowsCut(list: seq<Schedule>, v: U16) returns (before: U16, m: U16)
    requires !OneWindow(list, v)
    ensures before < DAY && m < DAY && CutsOff(FlagsAt(list, before), v, m)
  {
    var i, j :| 0 <= i < |list| && 0 <= j < |list| && list[i].valveId == v && list[j].valveId == v
                && Reachable(list[i]) && Reachable(list[j])
                && !(list[i].start == list[j].start && LastOfDay(list[i]) == LastOfDay(list[j]));
    var top := HighestReachable(list, v, |list|, i);
    var low := HighestDifferent(list, v, top, |list|, if SameDay(list[i], list[top]) then j else i);
    if exists x: U16 :: x < DAY && InWindow(list[low], x) && !InWindow(list[top], x) {
      // leave `top`, the last entry of all, for a minute that only `low` contains
      m :| m < DAY && InWindow(list[low], m) && !InWindow(list[top], m);
      before := list[top].start;
      LeavingCuts(list, v, before, m, top, low);
    } else {
      // leave `low` for the rest of `top`'s window; the entries after `low` stay inside theirs
      InsideIsInside(list[low], list[top]);
      m := if list[low].start != list[top].start then list[top].start else LastOfDay(list[top]);
      before := list[low].start;
      LeavingCuts(list, v, before, m, low, top);
    }
  }

  /** Leaving entry `j` while entry `i` contains the minute, when no entry after `j` changes. */
  lemma LeavingCuts(list: seq<Schedule>, v: U16, before: U16, m: U16, j: nat, i: nat)
    requires before < DAY && m < DAY && i < |list| && j < |list| && list[i].valveId == v && list[j].valveId == v
    requires InWindow(list[j], before) && !InWindow(list[j], m) && InWindow(list[i], m)
    requires forall k :: j < k < |list| && list[k].valveId == v ==>
               (InWindow(list[k], before) <==> InWindow(list[k], m))
    ensures CutsOff(FlagsAt(list, before), v, m)
  {
    var ss := FlagsAt(list, before);
    assert Decides(ss, m, v, |ss|, j);
    assert Settled(ss, m)[i].isActive;
  }

  lemma {:induction false} AnyRunConsistent(c: Controller, list: seq<Schedule>, v: U16, evs: seq<Event>)
    requires JustInstalled(c, list, v) && OneWindow(list, v) && ClockRun(evs)
    ensures Consistent(Run(c, evs), v)
  {
    if evs != [] {
      var past := evs[..|evs| - 1];
      AnyRunConsistent(c, list, v, past);
      LastPassConsistent(c, list, v, evs);
      if past == [] {
        FirstPassCutsNobody(c, list, v, evs[|past|].minute);
      } else {
        OneWindowAvoidsCut(list, v, LastMinute(past), evs[|past|].minute);
      }
    }
  }

  lemma AnyRunIsRight(c: Controller, list: seq<Schedule>, v: U16, evs: seq<Event>)
    requires JustInstalled(c, list, v) && OneWindow(list, v) && evs != [] && ClockRun(evs)
    ensures OpenIffWatered(c, list, v, evs)
  {
    AnyRunConsistent(c, list, v, evs);
    ConsistentIsOpenIffWatered(c, list, v, evs);
  }

  /** For a list that has just been installed, "open exactly while watered" holds after every
      pass of every run, whatever the clock does, if and only if the valve has one window. */
  lemma AnyClockExact(c: Controller, list: seq<Schedule>, v: U16)
    requires JustInstalled(c, list, v)
    ensures (forall evs :: evs != [] && ClockRun(evs) ==> OpenIffWatered(c, list, v, evs))
            <==> OneWindow(list, v)
  {
    if OneWindow(list, v) {
      forall evs: seq<Event> | evs != [] && ClockRun(evs) ensures OpenIffWatered(c, list, v, evs) {
        AnyRunIsRight(c, list, v, evs);
      }
    } else {
      var before, m := TwoWindowsCut(list, v);
      CutShows(c, list, v, before, m);
      assert ClockRun([Sample(before), Sample(m)]);
    }
  }

  predicate SameDay(s: Schedule, t: Schedule) {
    s.start == t.start && LastOfDay(s) == LastOfDay(t)
  }

  lemma InsideIsInside(s: Schedule, t: Schedule)
    requires Reachable(s) && forall x: U16 :: x < DAY && InWindow(s, x) ==> InWindow(t, x)
    ensures t.start <= s.start && LastOfDay(s) <= LastOfDay(t)
  {
    assert InWindow(s, s.start as U16) && InWindow(s, LastOfDay(s) as U16);
  }

  /** The last entry for `v` that contains a minute of the day. */
  lemma {:induction false} HighestReachable(list: seq<Schedule>, v: U16, n: nat, i: nat) returns (top: nat)
    requires i < n <= |list| && list[i].valveId == v && Reachable(list[i])
    ensures i <= top < n && list[top].valveId == v && Reachable(list[top])
    ensures forall k :: top < k < n && list[k].valveId == v ==> !Reachable(list[k])
  {
    if list[n - 1].valveId == v && Reachable(list[n - 1]) {
      top := n - 1;
    } else {
      top := HighestReachable(list, v, n - 1, i);
    }
  }

  /** The last entry below `n` whose window differs from `list[top]`'s. */
  lemma {:induction false} HighestDifferent(list: seq<Schedule>, v: U16, top: nat, n: nat, i: nat) returns (low: nat)
    requires top < |list| && i < n <= |list|
    requires list[i].valveId == v && Reachable(list[i]) && !SameDay(list[i], list[top])
    ensures low < n && list[low].valveId == v && Reachable(list[low]) && !SameDay(list[low], list[top])
    ensures forall k :: low < k < n && list[k].valveId == v && Reachable(list[k]) ==> SameDay(list[k], list[top])
  {
    if list[n - 1].valveId == v && Reachable(list[n - 1]) && !SameDay(list[n - 1], list[top]) {
      low := n - 1;
    } else {
      low := HighestDifferent(list, v, top, n - 1, i);
    }
  }
}
