/** What a valve's state is after any history of passes and replacements, and exactly when the
    scheduler keeps to it. */
module SchedulerHistory {
  import opened Types
  import opened Valves
  import opened Scheduler
  import opened SchedulerClock

  /** The minutes sampled since the latest replacement. */
  function Since(evs: seq<Event>): seq<U16> {
    if evs == [] || evs[|evs| - 1].Install? then []
    else Since(evs[..|evs| - 1]) + [evs[|evs| - 1].minute]
  }

  /** The list in force: the latest one installed, or none. */
  function Installed(evs: seq<Event>): seq<Schedule> {
    if evs == [] then []
    else match evs[|evs| - 1]
         case Install(list) => list
         case Sample(_) => Installed(evs[..|evs| - 1])
  }

  /** The history that the latest replacement found; None when nothing was ever installed. */
  function BeforeInstall(evs: seq<Event>): (r: Option<seq<Event>>)
    ensures r.Some? ==> |r.value| < |evs|
  {
    if evs == [] then None
    else if evs[|evs| - 1].Install? then Some(evs[..|evs| - 1])
    else BeforeInstall(evs[..|evs| - 1])
  }

  /** The window contains the latest of the sampled minutes; false while there is none. */
  ghost predicate ContainsLatest(s: Schedule, ms: seq<U16>) {
    ms != [] && InWindow(s, ms[|ms| - 1])
  }

  /** Some entry of the list in force waters valve `v` at the latest sampled minute. */
  ghost predicate WateredNow(evs: seq<Event>, v: U16) {
    var list := Installed(evs);
    exists i :: 0 <= i < |list| && list[i].valveId == v && ContainsLatest(list[i], Since(evs))
  }

  /** No entry of the list in force has contained a minute sampled since it was installed. */
  ghost predicate NeverWatered(evs: seq<Event>, v: U16) {
    var ms, list := Since(evs), Installed(evs);
    forall i, k :: 0 <= i < |list| && list[i].valveId == v && 0 <= k < |ms| ==> !InWindow(list[i], ms[k])
  }

  /** The state of valve `v`, from the history alone: no flag and no table is consulted. */
  ghost predicate ShouldBeOpen(evs: seq<Event>, v: U16)
    decreases |evs|
  {
    || WateredNow(evs, v)
    || (BeforeInstall(evs).Some? && NeverWatered(evs, v) && ShouldBeOpen(BeforeInstall(evs).value, v))
  }

  ghost predicate StartsClosed(c: Controller, v: U16) {
    c.ss == [] && Find(c.table, v) == Some(Closed)
  }

  /** Flags, at any moment: set exactly for the entries that contain the latest minute sampled
      since the list was installed. */
  lemma {:induction false} FlagsFollowClock(c: Controller, evs: seq<Event>)
    requires c.ss == []
    ensures var ss, list, ms := Run(c, evs).ss, Installed(evs), Since(evs);
      && |ss| == |list|
      && forall i :: 0 <= i < |ss| ==>
           && ss[i].sche == list[i]
           && (ss[i].isActive <==> ContainsLatest(list[i], ms))
           && (ss[i].isActive <==> ms != [] && list[i].start <= ms[|ms| - 1] <= list[i].stop)
  {
    if evs != [] {
      FlagsFollowClock(c, evs[..|evs| - 1]);
    }
  }

  lemma {:induction false} KnownForever(c: Controller, evs: seq<Event>, v: U16)
    ensures Known(Run(c, evs).table, v) <==> Known(c.table, v)
  {
    if evs != [] {
      var p := Run(c, evs[..|evs| - 1]);
      KnownForever(c, evs[..|evs| - 1], v);
      if evs[|evs| - 1].Sample? {
        PassKeepsKnown(p.table, p.ss, evs[|evs| - 1].minute, v, |p.ss|);
      }
    }
  }

  /** The table agrees with the history. */
  ghost predicate Follows(c: Controller, evs: seq<Event>, v: U16) {
    Find(Run(c, evs).table, v) == Some(if ShouldBeOpen(evs, v) then Open else Closed)
  }

  /** No pass closes `v` for an entry that is left while another contains the minute. */
  ghost predicate NeverCut(c: Controller, evs: seq<Event>, v: U16) {
    evs == [] ||
    var past, ev := evs[..|evs| - 1], evs[|evs| - 1];
    NeverCut(c, past, v) && (ev.Sample? ==> !CutsOff(Run(c, past).ss, v, ev.minute))
  }

  // ---------- One more pass ----------

  lemma WantedIsWateredNow(c: Controller, past: seq<Event>, m: U16, v: U16)
    requires c.ss == []
    ensures Wanted(Settled(Run(c, past).ss, m), v) <==> WateredNow(past + [Sample(m)], v)
  {
    FlagsFollowClock(c, past);
    var evs, ss, list := past + [Sample(m)], Run(c, past).ss, Installed(past);
    assert evs[..|past|] == past;
    assert Since(evs) == Since(past) + [m] && Installed(evs) == list;
    forall i | 0 <= i < |list| ensures Settled(ss, m)[i].isActive <==> ContainsLatest(list[i], Since(evs)) {
    }
    if WateredNow(evs, v) {
      var i :| 0 <= i < |list| && list[i].valveId == v && ContainsLatest(list[i], Since(evs));
      assert Settled(ss, m)[i].isActive;
    }
  }

  lemma UntouchedIsQuiet(c: Controller, past: seq<Event>, m: U16, v: U16)
    requires c.ss == [] && Untouched(Run(c, past).ss, m, v, |Run(c, past).ss|)
    ensures forall i :: 0 <= i < |Installed(past)| && Installed(past)[i].valveId == v ==>
              (ContainsLatest(Installed(past)[i], Since(past) + [m])
               <==> ContainsLatest(Installed(past)[i], Since(past)))
  {
    FlagsFollowClock(c, past);
    var ss := Run(c, past).ss;
    forall i | 0 <= i < |Installed(past)| && Installed(past)[i].valveId == v
      ensures ContainsLatest(Installed(past)[i], Since(past) + [m]) <==> ContainsLatest(Installed(past)[i], Since(past))
    {
      assert !Changes(ss[i], m);
    }
  }

  /** When the new minute changes nobody's membership, the verdict of the history stays. */
  lemma QuietSample(past: seq<Event>, m: U16, v: U16)
    requires forall i :: 0 <= i < |Installed(past)| && Installed(past)[i].valveId == v ==>
               (ContainsLatest(Installed(past)[i], Since(past) + [m])
                <==> ContainsLatest(Installed(past)[i], Since(past)))
    ensures ShouldBeOpen(past + [Sample(m)], v) <==> ShouldBeOpen(past, v)
  {
    var evs, list, ms := past + [Sample(m)], Installed(past), Since(past);
    assert evs[..|past|] == past;
    assert Since(evs) == ms + [m] && Installed(evs) == list && BeforeInstall(evs) == BeforeInstall(past);
    if !WateredNow(evs, v) {
      assert forall i :: 0 <= i < |list| && list[i].valveId == v ==> !ContainsLatest(list[i], Since(evs));
      if NeverWatered(evs, v) {
        forall i, k | 0 <= i < |list| && list[i].valveId == v && 0 <= k < |ms|
          ensures !InWindow(list[i], ms[k])
        {
          assert Since(evs)[k] == ms[k];
        }
      }
    }
  }

  /** Once an entry has been left, only what is watered now can be open. */
  lemma LeftSample(past: seq<Event>, m: U16, v: U16, j: nat)
    requires j < |Installed(past)| && Installed(past)[j].valveId == v
    requires ContainsLatest(Installed(past)[j], Since(past))
    ensures ShouldBeOpen(past + [Sample(m)], v) <==> WateredNow(past + [Sample(m)], v)
  {
    var evs, ms := past + [Sample(m)], Since(past);
    assert evs[..|past|] == past;
    assert Since(evs) == ms + [m] && Installed(evs) == Installed(past);
    assert Since(evs)[|ms| - 1] == ms[|ms| - 1];
    assert !NeverWatered(evs, v);
  }

  /** A pass keeps the table in agreement with the history exactly when it cuts nobody off. */
  lemma SampleFollowsExact(c: Controller, past: seq<Event>, m: U16, v: U16)
    requires StartsClosed(c, v) && Follows(c, past, v)
    ensures Follows(c, past + [Sample(m)], v) <==> !CutsOff(Run(c, past).ss, v, m)
  {
    var evs, p := past + [Sample(m)], Run(c, past);
    var n := |p.ss|;
    assert evs[..|past|] == past;
    WantedIsWateredNow(c, past, m, v);
    var j := LastFlip(p.ss, m, v, n);
    if Untouched(p.ss, m, v, n) {
      PassLeavesAlone(p.table, p.ss, m, v, n);
      UntouchedIsQuiet(c, past, m, v);
      QuietSample(past, m, v);
    } else {
      KnownForever(c, past, v);
      PassDecided(p.table, p.ss, m, v, n, j);
      assert Find(Run(c, evs).table, v) == Some(Demand(p.ss[j].sche, m));
      if p.ss[j].isActive {
        assert ContainsLatest(Installed(past)[j], Since(past)) by { FlagsFollowClock(c, past); }
        assert Installed(past)[j].valveId == v by { FlagsFollowClock(c, past); }
        LeftSample(past, m, v, j);
      } else {
        EnteredIsNoCut(p.ss, m, v, j);
      }
    }
  }

  lemma EnteredIsNoCut(ss: seq<ScheduleStatus>, m: U16, v: U16, j: nat)
    requires j < |ss| && Decides(ss, m, v, |ss|, j) && !ss[j].isActive
    ensures Wanted(Settled(ss, m), v) && !CutsOff(ss, v, m)
  {
    assert Settled(ss, m)[j].isActive;
    forall i | 0 <= i < |ss| && Decides(ss, m, v, |ss|, i) ensures !ss[i].isActive {
      DeciderIsUnique(ss, m, v, i, j);
    }
  }

  // ---------- Whole histories ----------

  ghost predicate AlwaysFollows(c: Controller, evs: seq<Event>, v: U16) {
    forall k :: 0 <= k <= |evs| ==> Follows(c, evs[..k], v)
  }

  lemma AlwaysFollowsNext(c: Controller, past: seq<Event>, ev: Event, v: U16)
    ensures AlwaysFollows(c, past + [ev], v) <==> AlwaysFollows(c, past, v) && Follows(c, past + [ev], v)
  {
    var evs := past + [ev];
    assert evs[..|evs|] == evs;
    forall k | 0 <= k <= |past| ensures Follows(c, evs[..k], v) <==> Follows(c, past[..k], v) {
      assert past[..k] == evs[..k];
    }
    if AlwaysFollows(c, evs, v) {
      assert Follows(c, evs[..|evs|], v);
    }
  }

  /** A replacement changes neither the table nor what the history asks for. */
  lemma InstallFollows(c: Controller, past: seq<Event>, list: seq<Schedule>, v: U16)
    requires Follows(c, past, v)
    ensures Follows(c, past + [Install(list)], v)
  {
    var evs := past + [Install(list)];
    assert evs[..|past|] == past;
    assert Since(evs) == [] && Installed(evs) == list && BeforeInstall(evs) == Some(past);
  }

  /** Over any passes at any minutes and any replacements of any lists: after every event the valve
      is open exactly when it is watered at the latest sampled minute, or was to be open at the latest
      replacement and has not been watered since, if and only if no pass cuts it off. */
  lemma {:induction false} FollowsHistoryExact(c: Controller, evs: seq<Event>, v: U16)
    requires StartsClosed(c, v)
    ensures AlwaysFollows(c, evs, v) <==> NeverCut(c, evs, v)
  {
    if evs == [] {
      assert Follows(c, [], v);
    } else {
      var past, ev := evs[..|evs| - 1], evs[|evs| - 1];
      assert past + [ev] == evs;
      FollowsHistoryExact(c, past, v);
      AlwaysFollowsNext(c, past, ev, v);
      assert past[..|past|] == past;
      if AlwaysFollows(c, past, v) {
        match ev
        case Sample(m) => SampleFollowsExact(c, past, m, v);
        case Install(list) => InstallFollows(c, past, list, v);
      }
    }
  }

  lemma NeverCutFollows(c: Controller, evs: seq<Event>, v: U16)
    requires StartsClosed(c, v) && NeverCut(c, evs, v)
    ensures Follows(c, evs, v)
  {
    FollowsHistoryExact(c, evs, v);
    assert evs[..|evs|] == evs;
  }

  /** At most one entry of the list is for valve `v`. */
  ghost predicate AtMostOne(list: seq<Schedule>, v: U16) {
    forall i, j :: 0 <= i < |list| && 0 <= j < |list| && list[i].valveId == v && list[j].valveId == v ==> i == j
  }

  ghost predicate AllAtMostOne(evs: seq<Event>, v: U16) {
    forall k :: 0 <= k < |evs| && evs[k].Install? ==> AtMostOne(evs[k].list, v)
  }

  ghost predicate AllHandOver(evs: seq<Event>, v: U16) {
    forall k :: 0 <= k < |evs| && evs[k].Install? ==> HandsOver(evs[k].list, v)
  }

  /** Between two replacements the clock moves forward through one day. */
  ghost predicate ForwardStretches(evs: seq<Event>) {
    forall k :: 0 <= k < |evs| && evs[k].Sample? ==>
      evs[k].minute < DAY && (k > 0 && evs[k - 1].Sample? ==> evs[k - 1].minute <= evs[k].minute)
  }

  lemma {:induction false} ListInForce(evs: seq<Event>, v: U16)
    ensures AllAtMostOne(evs, v) ==> AtMostOne(Installed(evs), v)
    ensures AllHandOver(evs, v) ==> HandsOver(Installed(evs), v)
  {
    if evs != [] && evs[|evs| - 1].Sample? {
      ListInForce(evs[..|evs| - 1], v);
    }
  }

  /** The flags are those of the list in force at the latest minute. */
  lemma FlagsInForce(c: Controller, evs: seq<Event>)
    requires c.ss == []
    ensures var ms := Since(evs);
      Run(c, evs).ss == FlagsAt(Installed(evs), if ms == [] then -1 else ms[|ms| - 1])
  {
    FlagsFollowClock(c, evs);
  }

  lemma {:induction false} OneEntryIsNeverCut(c: Controller, evs: seq<Event>, v: U16)
    requires c.ss == [] && AllAtMostOne(evs, v)
    ensures NeverCut(c, evs, v)
  {
    if evs != [] {
      var past := evs[..|evs| - 1];
      OneEntryIsNeverCut(c, past, v);
      FlagsFollowClock(c, past);
      ListInForce(past, v);
    }
  }

  /** A valve with at most one entry per list, over any mix of passes at any minutes and
      replacements: it is open exactly when its entry contains the latest sampled minute, or it
      was open at the latest replacement and its entry has contained no sampled minute since. */
  lemma ValveFollowsHistory(c: Controller, evs: seq<Event>, v: U16)
    requires StartsClosed(c, v) && AllAtMostOne(evs, v)
    ensures Follows(c, evs, v)
  {
    OneEntryIsNeverCut(c, evs, v);
    NeverCutFollows(c, evs, v);
  }

  lemma {:induction false} HandOverIsNeverCut(c: Controller, evs: seq<Event>, v: U16)
    requires c.ss == [] && AllHandOver(evs, v) && ForwardStretches(evs)
    ensures NeverCut(c, evs, v)
  {
    if evs != [] {
      var past, ev := evs[..|evs| - 1], evs[|evs| - 1];
      HandOverIsNeverCut(c, past, v);
      if ev.Sample? {
        FlagsInForce(c, past);
        ListInForce(past, v);
        if Since(past) == [] {
          assert !CutsOff(FlagsAt(Installed(past), -1), v, ev.minute);
        } else {
          HandsOverAvoidsCut(Installed(past), v, past[|past| - 1].minute, ev.minute);
        }
      }
    }
  }

  /** The same for lists with any number of entries that hand over, replaced at any moments, while
      the clock moves forward between the replacements. */
  lemma HandOverFollowsHistory(c: Controller, evs: seq<Event>, v: U16)
    requires StartsClosed(c, v) && AllHandOver(evs, v) && ForwardStretches(evs)
    ensures Follows(c, evs, v)
  {
    HandOverIsNeverCut(c, evs, v);
    NeverCutFollows(c, evs, v);
  }
}
