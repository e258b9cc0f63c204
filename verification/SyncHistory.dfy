/** What whole runs of the protocol never do to a row, and where a mark comes from. */
module SyncHistory {
  import opened Store
  import opened Sync

  // ---------- Rows only move forward ----------

  /** `sent` and its time are set once, `active` is only cleared, and the deactivation time is
      set once and only on an inactive row. */
  predicate Forward(r: Row, r': Row) {
    && r'.id == r.id && r'.valve == r.valve && r'.start == r.start && r'.stop == r.stop
    && (r.sent ==> r'.sent && r'.sentOn == r.sentOn)
    && (!r.active ==> !r'.active)
    && (r.deactivatedOn.Some? ==> r'.deactivatedOn == r.deactivatedOn)
    && (r.deactivatedOn.None? && r'.deactivatedOn.Some? ==> !r'.active)
  }

  ghost predicate AllForward(rows: seq<Row>, rows': seq<Row>) {
    |rows| <= |rows'| && forall i :: 0 <= i < |rows| ==> Forward(rows[i], rows'[i])
  }

  lemma StepForward(s: State, a: Action)
    ensures AllForward(s.rows, After(s, a).rows)
    ensures s.nextId <= After(s, a).nextId
    ensures forall i :: |s.rows| <= i < |After(s, a).rows| ==> s.nextId <= After(s, a).rows[i].id
  {
  }

  lemma {:induction false} RowsOnlyMoveForward(s: State, acts: seq<Action>, k: nat)
    requires k <= |acts|
    ensures AllForward(Exec(s, acts[..k]).rows, Exec(s, acts).rows)
    ensures Exec(s, acts[..k]).nextId <= Exec(s, acts).nextId
    ensures forall i :: |Exec(s, acts[..k]).rows| <= i < |Exec(s, acts).rows|
              ==> Exec(s, acts[..k]).nextId <= Exec(s, acts).rows[i].id
  {
    if k == |acts| {
      assert acts[..k] == acts;
    } else {
      var past := acts[..|acts| - 1];
      assert past[..k] == acts[..k];
      RowsOnlyMoveForward(s, past, k);
      StepForward(Exec(s, past), acts[|acts| - 1]);
    }
  }

  lemma {:induction false} RunsAreNumbered(s: State, acts: seq<Action>)
    requires Initial(s) && Legal(s, acts)
    ensures WellNumbered(Exec(s, acts)) && Exec(s, acts).wiring == s.wiring
  {
    if acts != [] {
      var past := acts[..|acts| - 1];
      RunsAreNumbered(s, past);
      NumberingKept(Exec(s, past), acts[|acts| - 1]);
    }
  }

  lemma NumberingKept(s: State, a: Action)
    requires WellNumbered(s)
    ensures WellNumbered(After(s, a)) && After(s, a).wiring == s.wiring
  {
  }

  lemma {:induction false} LegalPrefix(s: State, acts: seq<Action>, k: nat)
    requires Legal(s, acts) && k <= |acts|
    ensures Legal(s, acts[..k])
    ensures k < |acts| ==> Enabled(Exec(s, acts[..k]), acts[k])
  {
    if k == |acts| {
      assert acts[..k] == acts;
    } else if k < |acts| - 1 {
      var past := acts[..|acts| - 1];
      LegalPrefix(s, past, k);
      assert past[..k] == acts[..k];
    }
  }

  // ---------- Responses ----------

  /** A row that is inactive at some moment is in no snapshot fetched at that moment or later,
      and so in no response built from one. */
  lemma InactiveIsNotFetched(s: State, acts: seq<Action>, k: nat, f: nat, p: nat)
    requires Initial(s) && Legal(s, acts) && k <= f < |acts| && acts[f].Fetch?
    requires p < |Exec(s, acts[..k]).rows| && !Exec(s, acts[..k]).rows[p].active
    ensures forall j :: 0 <= j < |acts[f].snap| ==> acts[f].snap[j].id != Exec(s, acts[..k]).rows[p].id
  {
    var before := acts[..f];
    assert before[..k] == acts[..k];
    LegalPrefix(s, acts, f);
    RunsAreNumbered(s, before);
    RowsOnlyMoveForward(s, before, k);
    var rows := Exec(s, before).rows;
    forall j | 0 <= j < |acts[f].snap| ensures acts[f].snap[j].id != rows[p].id {
      assert acts[f].snap[j] in rows;
      var i :| 0 <= i < |rows| && rows[i] == acts[f].snap[j];
      assert i != p;
    }
  }

  // ---------- Marks ----------

  predicate ServesRequest(ph: Phase, a: Action) {
    match ph
    case Idle => false
    case Fetched(d, kind, snap) => a == Fetch(d, kind, snap)
    case Marking(d, kind, snap, _) => a == Fetch(d, kind, snap)
    case Closing(d, kind, snap) => a == Fetch(d, kind, snap)
  }

  /** A request in progress was begun by a fetch of this run, the latest one. */
  lemma {:induction false} RequestOrigin(s: State, acts: seq<Action>) returns (f: nat)
    requires s.phase.Idle? && Legal(s, acts) && !Exec(s, acts).phase.Idle?
    ensures f < |acts| && ServesRequest(Exec(s, acts).phase, acts[f])
    ensures forall j :: f < j < |acts| ==> !acts[j].Fetch?
  {
    var n := |acts| - 1;
    if acts[n].Fetch? {
      f := n;
    } else {
      f := RequestOrigin(s, acts[..n]);
    }
  }

  /** Only marking sets `sent`, and only on a row of the snapshot being served. */
  lemma MarkedRow(t: State, a: Action, p: nat) returns (k: int)
    requires Enabled(t, a) && p < |t.rows| && !t.rows[p].sent && After(t, a).rows[p].sent
    ensures a.MarkNext? && t.phase.Marking? && 0 <= k < |t.phase.snap| && t.phase.snap[k].id == t.rows[p].id
  {
    k := if t.phase.Marking? then t.phase.next else -1;
    if a.MarkNext? {
      assert After(t, a).rows[p] == MarkRow(t.rows[p], t.phase.snap[k].id, a.now);
    }
  }

  /** A mark in state `t`, for the request that was fetched in state `u`. */
  lemma MarkOfFetched(u: State, fetch: Action, t: State, a: Action, p: nat)
    requires WellNumbered(u) && WellNumbered(t) && AllForward(u.rows, t.rows)
    requires forall i :: |u.rows| <= i < |t.rows| ==> u.nextId <= t.rows[i].id
    requires fetch.Fetch? && Enabled(u, fetch) && ServesRequest(t.phase, fetch)
    requires Enabled(t, a) && p < |t.rows| && !t.rows[p].sent && After(t, a).rows[p].sent
    ensures a.MarkNext? && p < |u.rows| && u.rows[p] in fetch.snap
    ensures u.rows[p].active && Belongs(u.wiring, u.rows[p], fetch.device)
  {
  }

  /** A row becomes sent only while serving a request whose fetch, the latest one, found that
      very row active. */
  lemma SentOnlyIfFetchedActive(s: State, past: seq<Action>, a: Action, p: nat) returns (f: nat)
    requires Initial(s) && Legal(s, past) && Enabled(Exec(s, past), a)
    requires p < |Exec(s, past).rows| && !Exec(s, past).rows[p].sent && After(Exec(s, past), a).rows[p].sent
    ensures a.MarkNext? && f < |past| && past[f].Fetch? && forall j :: f < j < |past| ==> !past[j].Fetch?
    ensures p < |Exec(s, past[..f]).rows| && Exec(s, past[..f]).rows[p] in past[f].snap
    ensures Exec(s, past[..f]).rows[p].active && Belongs(s.wiring, Exec(s, past[..f]).rows[p], past[f].device)
  {
    var k := MarkedRow(Exec(s, past), a, p);
    f := RequestOrigin(s, past);
    LegalPrefix(s, past, f);
    RunsAreNumbered(s, past[..f]);
    RunsAreNumbered(s, past);
    RowsOnlyMoveForward(s, past, f);
    MarkOfFetched(Exec(s, past[..f]), past[f], Exec(s, past), a, p);
  }
}
