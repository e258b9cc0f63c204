/** Deactivation: when a schedule whose deactivation is recorded as done can still be in a
    client's list. */
module SyncOneDevice {
  import opened SentMarks
  import opened Store
  import opened Sync
  import opened SyncRequests

  /** No client lists a schedule with a deactivation time. */
  ghost predicate NoDoneListed(s: State) {
    forall d, i :: d in s.clients && 0 <= i < |s.rows| && s.rows[i].deactivatedOn.Some? ==>
      !Lists(s.clients[d].list, s.rows[i].id)
  }

  ghost predicate DoneAreInactive(rows: seq<Row>) {
    forall i :: 0 <= i < |rows| && rows[i].deactivatedOn.Some? ==> !rows[i].active
  }

  // ---------- Any number of devices, one GET_ACTIVE ----------

  /** Some client whose list this GET_ACTIVE does not replace lists an inactive schedule. */
  ghost predicate StaleElsewhere(s: State, d: int, snap: seq<Row>, delivered: bool) {
    exists e, i :: e in s.clients && (e == d && delivered ==> snap == []) && 0 <= i < |s.rows|
                   && !s.rows[i].active && Lists(s.clients[e].list, s.rows[i].id)
  }

  /** A GET_ACTIVE handled without interruption, for any number of devices: no client lists a
      schedule with a deactivation time afterwards if and only if before it no client lists an
      inactive schedule, leaving aside the one whose list the response replaces. */
  lemma GetActiveExact(s: State, d: int, snap: seq<Row>, luck: Luck, delivered: bool)
    requires Enabled(s, Fetch(d, GetActiveSches, snap)) && DistinctIds(s.rows) && luck.closeOk
    requires NoDoneListed(s) && DoneAreInactive(s.rows)
    ensures NoDoneListed(Served(s, d, GetActiveSches, snap, luck, delivered))
            <==> !StaleElsewhere(s, d, snap, delivered)
  {
    var s' := Served(s, d, GetActiveSches, snap, luck, delivered);
    MarkLoopMarks(s.rows, FirstRounds(Ids(snap), luck.rounds), luck.extra, luck.now);
    forall i | 0 <= i < |s.rows|
      ensures |s'.rows| == |s.rows| && s'.rows[i].id == s.rows[i].id
      ensures s'.rows[i].deactivatedOn.Some? <==> !s.rows[i].active
    {
      assert Marked(s.rows[i], MarkLoop(s.rows, FirstRounds(Ids(snap), luck.rounds), luck.extra, luck.now)[i]);
    }
    SnapIsActive(s, d, snap);
    if e, i :| e in s.clients && (e == d && delivered ==> snap == []) && 0 <= i < |s.rows|
               && !s.rows[i].active && Lists(s.clients[e].list, s.rows[i].id) {
      assert s'.rows[i].deactivatedOn.Some? && s'.clients[e].list == s.clients[e].list;
    }
  }

  /** No inactive schedule is in a snapshot. */
  lemma SnapIsActive(s: State, d: int, snap: seq<Row>)
    requires DistinctIds(s.rows) && Listing(snap, s.rows, s.wiring, d) && AllConvertible(snap)
    ensures forall i :: 0 <= i < |s.rows| && !s.rows[i].active ==> !Lists(ToSchedules(snap), s.rows[i].id)
  {
    forall i, k | 0 <= i < |s.rows| && !s.rows[i].active && 0 <= k < |snap| ensures snap[k].id != s.rows[i].id {
      assert snap[k] in s.rows;
    }
  }

  // ---------- One device, many requests ----------

  /** No schedule is deactivated in the middle of a request, and GET_ACTIVE is sent only by a client
      that has just started. */
  ghost predicate Undisturbed(s: State, a: Action) {
    && (a.WebDeactivate? ==> s.phase.Idle?)
    && (a.Fetch? && a.kind.GetActiveSches? && a.device in s.clients ==> s.clients[a.device].list == [])
  }

  ghost predicate AllUndisturbed(s: State, acts: seq<Action>) {
    acts == [] || (AllUndisturbed(s, acts[..|acts| - 1])
                   && Undisturbed(Exec(s, acts[..|acts| - 1]), acts[|acts| - 1]))
  }

  /** The client lists the schedule, or will when it installs the response on its way. */
  ghost predicate Listed(c: Client, id: int) {
    Lists(c.list, id) || (c.conn.Responded? && Lists(c.conn.rsp, id))
  }

  ghost predicate AllListedActive(s: State, c: Client) {
    forall i :: 0 <= i < |s.rows| && Listed(c, s.rows[i].id) ==> s.rows[i].active
  }

  ghost predicate SnapActive(s: State, snap: seq<Row>) {
    forall i, k :: 0 <= i < |s.rows| && 0 <= k < |snap| && s.rows[i].id == snap[k].id ==> s.rows[i].active
  }

  ghost predicate RequestInv(s: State, d: int)
    requires d in s.clients
  {
    match s.phase
    case Idle => true
    case Fetched(e, kind, snap) =>
      && e == d && SnapActive(s, snap) && !s.clients[d].conn.Responded?
      && (kind.GetActiveSches? ==> s.clients[d].list == [])
    case Marking(e, kind, _, _) => kind.GetActiveSches? ==> AllListedActive(s, s.clients[d])
    case Closing(e, kind, _) => kind.GetActiveSches? && AllListedActive(s, s.clients[d])
  }

  ghost predicate OneDeviceInv(s: State, d: int) {
    && s.clients.Keys == {d}
    && WellNumbered(s)
    && (forall i :: 0 <= i < |s.rows| && s.rows[i].deactivatedOn.Some? ==>
          !s.rows[i].active && !Listed(s.clients[d], s.rows[i].id))
    && RequestInv(s, d)
  }

  lemma WebKeeps(s: State, a: Action, d: int)
    requires OneDeviceInv(s, d) && Enabled(s, a)
    requires a.WebCreate? || a.Restart? || a.Install? || (a.WebDeactivate? && s.phase.Idle?)
    ensures OneDeviceInv(After(s, a), d)
  {
  }

  lemma FetchKeepsOne(s: State, a: Action, d: int)
    requires OneDeviceInv(s, d) && a.Fetch? && Enabled(s, a) && Undisturbed(s, a)
    ensures OneDeviceInv(After(s, a), d)
  {
  }

  lemma SendKeepsOne(s: State, a: Action, d: int)
    requires OneDeviceInv(s, d) && a.Send? && Enabled(s, a)
    ensures OneDeviceInv(After(s, a), d)
  {
  }

  lemma MarkKeepsOne(s: State, a: Action, d: int)
    requires OneDeviceInv(s, d) && (a.MarkNext? || a.MarkStop? || a.CloseDeactivated?) && Enabled(s, a)
    ensures OneDeviceInv(After(s, a), d)
  {
  }

  /** One device, no deactivation in the middle of a request, GET_ACTIVE only from a fresh client: in
      every reachable state no schedule with a deactivation time is in the client's list. Responses
      may be lost, clients restart and schedules be created at any moment. */
  lemma {:induction false} DoneIsNeverListed(s: State, acts: seq<Action>, d: int)
    requires Initial(s) && s.clients.Keys == {d} && s.clients[d].list == []
    requires DoneAreInactive(s.rows)
    requires Legal(s, acts) && AllUndisturbed(s, acts)
    ensures OneDeviceInv(Exec(s, acts), d) && NoDoneListed(Exec(s, acts))
  {
    if acts != [] {
      var past, a := acts[..|acts| - 1], acts[|acts| - 1];
      DoneIsNeverListed(s, past, d);
      var t := Exec(s, past);
      if a.Fetch? {
        FetchKeepsOne(t, a, d);
      } else if a.Send? {
        SendKeepsOne(t, a, d);
      } else if a.MarkNext? || a.MarkStop? || a.CloseDeactivated? {
        MarkKeepsOne(t, a, d);
      } else {
        WebKeeps(t, a, d);
      }
    }
  }

  // ---------- Why each condition is there ----------

  /** Two devices: a start of device 2 records the deactivation of a schedule that device 1's
      client still has, because the recording covers every device. */
  lemma OtherDeviceRecords(s: State, r: Row, luck: Luck)
    requires Enabled(s, Fetch(2, GetActiveSches, [])) && luck.closeOk
    requires s.rows == [r] && !r.active && r.deactivatedOn.None?
    requires 1 in s.clients && Lists(s.clients[1].list, r.id)
    ensures !NoDoneListed(Served(s, 2, GetActiveSches, [], luck, true))
  {
    assert s.rows[0] == r;
    GetActiveExact(s, 2, [], luck, true);
  }

  /** GET_ACTIVE from a running client with nothing active any more: the empty response leaves
      its old list alone, and the deactivations are recorded. */
  lemma RunningClientAsksAgain(s: State, r: Row, luck: Luck)
    requires Enabled(s, Fetch(1, GetActiveSches, [])) && luck.closeOk
    requires s.rows == [r] && !r.active && r.deactivatedOn.None? && s.clients.Keys == {1}
    requires Lists(s.clients[1].list, r.id)
    ensures !NoDoneListed(Served(s, 1, GetActiveSches, [], luck, true))
  {
    assert s.rows[0] == r;
    GetActiveExact(s, 1, [], luck, true);
  }

  /** A deactivation between the response and its recording: done, yet just sent. */
  lemma DeactivatedInMidRequest(s: State, r: Row, now: int)
    requires s.phase.Idle? && s.rows == [r] && r.active && r.deactivatedOn.None? && Convertible(r)
    requires 1 in s.clients && s.clients[1].conn.Closed? && Belongs(s.wiring, r, 1)
    ensures var s1 := After(s, Fetch(1, GetActiveSches, [r]));
            var s2 := After(After(s1, Send(true)), Install(1));
            var s3 := After(After(s2, WebDeactivate(r.id)), MarkStop);
      && Enabled(s, Fetch(1, GetActiveSches, [r])) && Enabled(s1, Send(true))
      && Enabled(After(s1, Send(true)), Install(1)) && Enabled(After(s2, WebDeactivate(r.id)), MarkStop)
      && Enabled(s3, CloseDeactivated(now, true)) && !NoDoneListed(After(s3, CloseDeactivated(now, true)))
  {
    var s2 := After(After(After(s, Fetch(1, GetActiveSches, [r])), Send(true)), Install(1));
    var s3 := After(After(s2, WebDeactivate(r.id)), MarkStop);
    var s4 := After(s3, CloseDeactivated(now, true));
    assert s2.clients[1].list[0].scheduleId == r.id;
    assert s4.rows[0].deactivatedOn.Some? && Lists(s4.clients[1].list, s4.rows[0].id);
  }
}
