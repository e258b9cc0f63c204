/** With no further web actions, repeated CHECK_NEW exchanges bring a client up to date, even
    when every exchange marks only one row. */
module SyncProgress {
  import opened Types
  import opened SentMarks
  import opened Store
  import opened Sync

  /** What the environment chooses in one exchange: the order of the rows, how many rows after
      the first unsent one are marked, and the time. */
  datatype Choice = Choice(snap: seq<Row>, extra: nat, now: int)

  // ---------- Counting ----------

  predicate Outstanding(r: Row, w: Wiring, d: int) {
    r.active && !r.sent && Belongs(w, r, d)
  }

  function Unsent(rows: seq<Row>, w: Wiring, d: int): nat {
    if rows == [] then 0
    else Unsent(rows[..|rows| - 1], w, d) + if Outstanding(rows[|rows| - 1], w, d) then 1 else 0
  }

  lemma {:induction false} UnsentZero(rows: seq<Row>, w: Wiring, d: int)
    ensures Unsent(rows, w, d) == 0 <==> forall i :: 0 <= i < |rows| ==> !Outstanding(rows[i], w, d)
  {
    if rows != [] {
      var n := |rows| - 1;
      UnsentZero(rows[..n], w, d);
      assert forall i :: 0 <= i < n ==> rows[..n][i] == rows[i];
    }
  }

  lemma {:induction false} MarksLower(rows: seq<Row>, rows': seq<Row>, w: Wiring, d: int)
    requires AllMarked(rows, rows')
    ensures Unsent(rows', w, d) <= Unsent(rows, w, d)
    ensures (exists i :: 0 <= i < |rows| && Outstanding(rows[i], w, d) && rows'[i].sent)
              ==> Unsent(rows', w, d) < Unsent(rows, w, d)
  {
    if rows != [] {
      var n := |rows| - 1;
      MarksLower(rows[..n], rows'[..n], w, d);
      if i :| 0 <= i < n && Outstanding(rows[i], w, d) && rows'[i].sent {
        assert rows[..n][i] == rows[i] && rows'[..n][i] == rows'[i];
      }
    }
  }

  // ---------- One exchange ----------

  /** The table after an exchange without database failures. */
  function Exchanged(rows: seq<Row>, c: Choice): seq<Row> {
    RowsAfter(CheckNewSches, rows, c.snap, Luck(true, true, |c.snap|, c.extra, true, c.now))
  }

  /** The snapshot's ids are those of the active rows of the device. */
  lemma SnapIds(rows: seq<Row>, w: Wiring, d: int, snap: seq<Row>, i: nat)
    requires DistinctIds(rows) && Listing(snap, rows, w, d) && i < |rows|
    ensures rows[i].id in Ids(snap) <==> rows[i].active && Belongs(w, rows[i], d)
    ensures rows[i].id in Ids(snap) ==> rows[i] in snap
  {
    if rows[i].id in Ids(snap) {
      var k :| 0 <= k < |snap| && Ids(snap)[k] == rows[i].id;
      assert snap[k] in rows;
      var j :| 0 <= j < |rows| && rows[j] == snap[k];
      assert j == i;
    }
    if rows[i] in snap {
      var k :| 0 <= k < |snap| && snap[k] == rows[i];
      assert Ids(snap)[k] == rows[i].id;
    }
  }

  lemma NeedUpdateIsUnsent(rows: seq<Row>, w: Wiring, d: int, snap: seq<Row>)
    requires DistinctIds(rows) && Listing(snap, rows, w, d)
    ensures NeedUpdate(snap) <==> Unsent(rows, w, d) > 0
  {
    UnsentZero(rows, w, d);
    if NeedUpdate(snap) {
      var k :| 0 <= k < |snap| && !snap[k].sent;
      assert snap[k] in rows;
      var j :| 0 <= j < |rows| && rows[j] == snap[k];
      assert Outstanding(rows[j], w, d);
    }
    if i :| 0 <= i < |rows| && Outstanding(rows[i], w, d) {
      var k :| 0 <= k < |snap| && snap[k] == rows[i];
      assert !snap[k].sent;
    }
  }

  /** One exchange: with something unsent, strictly less is unsent afterwards; with nothing
      unsent the response is empty and the table stays. */
  lemma ExchangeProgress(rows: seq<Row>, w: Wiring, d: int, c: Choice)
    requires DistinctIds(rows) && Listing(c.snap, rows, w, d) && AllConvertible(c.snap)
    ensures AllMarked(rows, Exchanged(rows, c))
    ensures Unsent(rows, w, d) > 0 ==> Unsent(Exchanged(rows, c), w, d) < Unsent(rows, w, d)
    ensures Unsent(rows, w, d) > 0 ==> Response(CheckNewSches, c.snap) == ToSchedules(c.snap)
    ensures Unsent(rows, w, d) == 0 ==> Response(CheckNewSches, c.snap) == [] && Exchanged(rows, c) == rows
  {
    var ids := Ids(c.snap);
    var rows' := Exchanged(rows, c);
    MarkLoopMarks(rows, ids, c.extra, c.now);
    MarksLower(rows, rows', w, d);
    NeedUpdateIsUnsent(rows, w, d, c.snap);
    UnsentZero(rows, w, d);
    if Unsent(rows, w, d) > 0 {
      var i :| 0 <= i < |rows| && Outstanding(rows[i], w, d);
      SnapIds(rows, w, d, c.snap, i);
      var j :| 0 <= j < |rows| && rows[j].id in ids && !rows[j].sent && rows'[j].sent;
      SnapIds(rows, w, d, c.snap, j);
    } else {
      forall i | 0 <= i < |rows| ensures rows'[i] == rows[i] {
        SnapIds(rows, w, d, c.snap, i);
      }
    }
  }

  // ---------- Many exchanges ----------

  /** The entry is that of an active row of the device. */
  predicate Entry(c: Schedule, r: Row, w: Wiring, d: int) {
    r.active && Belongs(w, r, d) && SameSchedule(c, r)
  }

  ghost predicate Justified(c: Schedule, rows: seq<Row>, w: Wiring, d: int) {
    exists i :: 0 <= i < |rows| && Entry(c, rows[i], w, d)
  }

  /** The list has one entry for each active row of the device and no other. */
  ghost predicate ListsExactly(list: seq<Schedule>, rows: seq<Row>, w: Wiring, d: int) {
    && (forall i :: 0 <= i < |rows| && rows[i].active && Belongs(w, rows[i], d) ==> Holds(list, rows[i]))
    && (forall k :: 0 <= k < |list| ==> Justified(list[k], rows, w, d))
    && (forall j, k :: 0 <= j < k < |list| ==> list[j].scheduleId != list[k].scheduleId)
  }

  lemma SnapshotListsExactly(snap: seq<Row>, rows: seq<Row>, w: Wiring, d: int)
    requires Listing(snap, rows, w, d) && AllConvertible(snap)
    ensures ListsExactly(ToSchedules(snap), rows, w, d)
  {
    var list := ToSchedules(snap);
    forall i | 0 <= i < |rows| && rows[i].active && Belongs(w, rows[i], d) ensures Holds(list, rows[i]) {
      var k :| 0 <= k < |snap| && snap[k] == rows[i];
      assert SameSchedule(list[k], rows[i]);
    }
    forall k | 0 <= k < |list| ensures Justified(list[k], rows, w, d) {
      assert snap[k] in rows;
      var i :| 0 <= i < |rows| && rows[i] == snap[k];
      assert Entry(list[k], rows[i], w, d);
    }
  }

  lemma MarksKeepLists(list: seq<Schedule>, rows: seq<Row>, rows': seq<Row>, w: Wiring, d: int)
    requires AllMarked(rows, rows') && ListsExactly(list, rows, w, d)
    ensures ListsExactly(list, rows', w, d)
  {
  }

  lemma MarksKeepIds(a: seq<Row>, b: seq<Row>)
    requires AllMarked(a, b) && DistinctIds(a)
    ensures DistinctIds(b)
  {
  }

  function RowsAt(rows: seq<Row>, cs: seq<Choice>): seq<Row> {
    if cs == [] then rows else Exchanged(RowsAt(rows, cs[..|cs| - 1]), cs[|cs| - 1])
  }

  /** Each exchange fetched the table the previous ones left. */
  ghost predicate Exchanges(rows: seq<Row>, w: Wiring, d: int, cs: seq<Choice>) {
    cs == [] ||
    var past, c := cs[..|cs| - 1], cs[|cs| - 1];
    Exchanges(rows, w, d, past) && AllConvertible(c.snap) && Listing(c.snap, RowsAt(rows, past), w, d)
  }

  /** The client's list after the exchanges. */
  ghost function ListAt(list: seq<Schedule>, rows: seq<Row>, w: Wiring, d: int, cs: seq<Choice>): seq<Schedule>
    requires Exchanges(rows, w, d, cs)
  {
    if cs == [] then list
    else Installed(ListAt(list, rows, w, d, cs[..|cs| - 1]), Response(CheckNewSches, cs[|cs| - 1].snap))
  }

  lemma {:induction false} UnsentShrinks(rows: seq<Row>, w: Wiring, d: int, cs: seq<Choice>)
    requires DistinctIds(rows) && Exchanges(rows, w, d, cs)
    ensures DistinctIds(RowsAt(rows, cs)) && AllMarked(rows, RowsAt(rows, cs))
    ensures Unsent(RowsAt(rows, cs), w, d)
         <= if |cs| <= Unsent(rows, w, d) then Unsent(rows, w, d) - |cs| else 0
  {
    if cs != [] {
      var past := cs[..|cs| - 1];
      UnsentShrinks(rows, w, d, past);
      var mid := RowsAt(rows, past);
      ExchangeProgress(mid, w, d, cs[|past|]);
      MarksCompose(rows, mid, RowsAt(rows, cs));
      MarksKeepIds(rows, RowsAt(rows, cs));
    }
  }

  lemma {:induction false} ListBecomesExact(rows: seq<Row>, list: seq<Schedule>, w: Wiring, d: int, cs: seq<Choice>)
    requires DistinctIds(rows) && Exchanges(rows, w, d, cs) && cs != []
    requires Unsent(rows, w, d) > 0 || ListsExactly(list, rows, w, d)
    ensures ListsExactly(ListAt(list, rows, w, d, cs), RowsAt(rows, cs), w, d)
  {
    var past, c := cs[..|cs| - 1], cs[|cs| - 1];
    var mid := RowsAt(rows, past);
    UnsentShrinks(rows, w, d, past);
    ExchangeProgress(mid, w, d, c);
    if Unsent(mid, w, d) > 0 {
      SnapshotListsExactly(c.snap, mid, w, d);
      NeedUpdateIsUnsent(mid, w, d, c.snap);
      assert ListAt(list, rows, w, d, cs) == ToSchedules(c.snap);
    } else if past != [] {
      ListBecomesExact(rows, list, w, d, past);
    }
    assert Unsent(mid, w, d) == 0 ==> ListAt(list, rows, w, d, cs) == ListAt(list, rows, w, d, past);
    MarksKeepLists(ListAt(list, rows, w, d, cs), mid, RowsAt(rows, cs), w, d);
  }

  /** As many exchanges as there were unsent schedules are enough: then nothing is unsent, the
      next response is empty, and, if anything was unsent to begin with, the client's list is
      the table's active list. */
  lemma ExchangesConverge(rows: seq<Row>, list: seq<Schedule>, w: Wiring, d: int, cs: seq<Choice>)
    requires DistinctIds(rows) && Exchanges(rows, w, d, cs) && |cs| >= Unsent(rows, w, d)
    ensures Unsent(RowsAt(rows, cs), w, d) == 0
    ensures forall snap :: Listing(snap, RowsAt(rows, cs), w, d) && AllConvertible(snap) ==>
              Response(CheckNewSches, snap) == []
    ensures Unsent(rows, w, d) > 0 ==> ListsExactly(ListAt(list, rows, w, d, cs), RowsAt(rows, cs), w, d)
  {
    UnsentShrinks(rows, w, d, cs);
    var rows' := RowsAt(rows, cs);
    forall snap | Listing(snap, rows', w, d) && AllConvertible(snap)
      ensures Response(CheckNewSches, snap) == []
    {
      NeedUpdateIsUnsent(rows', w, d, snap);
    }
    if Unsent(rows, w, d) > 0 {
      ListBecomesExact(rows, list, w, d, cs);
    }
  }

  // ---------- What the web actions and a restart bring about ----------

  /** A create with a wired valve, a start in 0..1440 and a SMALLINT stop leaves one more unsent
      schedule to the valve's device, and none to any other; every other create only uses up an id. */
  lemma CreatedIsUnsent(s: State, valve: int, start: int, stop: int, d: int)
    ensures var t := After(s, WebCreate(valve, start, stop));
      && t.nextId == s.nextId + 1
      && (valve in s.wiring && 0 <= start <= 1440 && -32768 <= stop <= 32767 ==>
            Unsent(t.rows, s.wiring, d) == Unsent(s.rows, s.wiring, d) + if s.wiring[valve] == d then 1 else 0)
      && (!(valve in s.wiring && 0 <= start <= 1440 && -32768 <= stop <= 32767) ==> t.rows == s.rows)
  {
    var r := NewRow(s.nextId, valve, start, stop);
    assert (s.rows + [r])[..|s.rows|] == s.rows;
  }

  /** The next CHECK_NEW then brings it to the client. */
  lemma CreatedIsServed(s: State, valve: int, start: int, stop: int, snap: seq<Row>, list: seq<Schedule>)
    requires WellNumbered(s) && valve in s.wiring && 0 <= start <= 1440 && -32768 <= stop <= 32767
    requires Listing(snap, After(s, WebCreate(valve, start, stop)).rows, s.wiring, s.wiring[valve])
    requires AllConvertible(snap)
    ensures Holds(Installed(list, Response(CheckNewSches, snap)), NewRow(s.nextId, valve, start, stop))
  {
    var t, d := After(s, WebCreate(valve, start, stop)), s.wiring[valve];
    CreatedIsUnsent(s, valve, start, stop, d);
    NeedUpdateIsUnsent(t.rows, s.wiring, d, snap);
    var r := t.rows[|s.rows|];
    var k :| 0 <= k < |snap| && snap[k] == r;
    assert SameSchedule(ToSchedules(snap)[k], r);
  }

  /** A client that has restarted has, after one GET_ACTIVE, exactly the active schedules, also when
      there are none; and they are in its list whatever their marks. */
  lemma RestartedIsExact(s: State, d: int, snap: seq<Row>)
    requires d in s.clients && Listing(snap, s.rows, s.wiring, d) && AllConvertible(snap)
    ensures Enabled(s, Restart(d))
    ensures var c := After(s, Restart(d)).clients[d];
      && !c.synced && c.conn.Closed?
      && ListsExactly(Installed(c.list, Response(GetActiveSches, snap)), s.rows, s.wiring, d)
  {
    SnapshotListsExactly(snap, s.rows, s.wiring, d);
  }

  lemma DeactivatedIsNotFetched(rows: seq<Row>, id: int, w: Wiring, d: int, snap: seq<Row>)
    requires Listing(snap, DeactivateRequest(rows, id), w, d)
    ensures forall k :: 0 <= k < |snap| ==> snap[k].id != id
  {
    forall k | 0 <= k < |snap| ensures snap[k].id != id {
      assert snap[k] in DeactivateRequest(rows, id);
    }
  }

  /** Whether a deactivation reaches the client at the exchange after it: the schedule stays in the
      list exactly if the table then has nothing unsent for the device. A deactivation alone does
      not make the receiver answer. */
  lemma DeactivationNoticedExact(rows: seq<Row>, id: int, list: seq<Schedule>, w: Wiring, d: int, snap: seq<Row>)
    requires DistinctIds(rows) && Lists(list, id)
    requires Listing(snap, DeactivateRequest(rows, id), w, d) && AllConvertible(snap)
    ensures Lists(Installed(list, Response(CheckNewSches, snap)), id)
            <==> Unsent(DeactivateRequest(rows, id), w, d) == 0
    ensures Unsent(DeactivateRequest(rows, id), w, d) == 0 ==>
              Installed(list, Response(CheckNewSches, snap)) == list
  {
    var rows' := DeactivateRequest(rows, id);
    assert DistinctIds(rows') by {
      assert forall i :: 0 <= i < |rows'| ==> rows'[i].id == rows[i].id;
    }
    NeedUpdateIsUnsent(rows', w, d, snap);
    DeactivatedIsNotFetched(rows, id, w, d, snap);
    assert !Lists(ToSchedules(snap), id);
  }
}
