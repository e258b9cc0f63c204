/** The schedule table and its stored functions (server/src/db/bbd.sql), and the receiver's
    calls to them (server/src/receiver/src/db/db.cpp). */
module Store {
  import opened Types

  /** A row of bbd.schedule; the columns hold SQL integers, not 16-bit ones. */
  datatype Row = Row(id: int, valve: int, start: int, stop: int,
                     sent: bool, sentOn: Option<int>, active: bool, deactivatedOn: Option<int>)

  /** bbd.valve: the device of each valve. */
  type Wiring = map<int, int>

  predicate Belongs(w: Wiring, r: Row, device: int) {
    r.valve in w && w[r.valve] == device
  }

  // ---------- Stored functions ----------

  function GetActive(rows: seq<Row>, w: Wiring, device: int): seq<Row> {
    if rows == [] then []
    else
      var r := rows[|rows| - 1];
      GetActive(rows[..|rows| - 1], w, device) + if r.active && Belongs(w, r, device) then [r] else []
  }

  predicate CanMark(rows: seq<Row>, id: int) {
    exists i :: 0 <= i < |rows| && rows[i].id == id && !rows[i].sent
  }

  function MarkRow(r: Row, id: int, now: int): Row {
    if r.id == id && !r.sent then r.(sent := true, sentOn := Some(now)) else r
  }

  function SetSent(rows: seq<Row>, id: int, now: int): (r: seq<Row>)
    ensures |r| == |rows|
  {
    seq(|rows|, i requires 0 <= i < |rows| => MarkRow(rows[i], id, now))
  }

  function CloseRow(r: Row, now: int): Row {
    if !r.active && r.deactivatedOn.None? then r.(deactivatedOn := Some(now)) else r
  }

  /** Every device's rows, not only those of the device being served. */
  function DeactivationsDone(rows: seq<Row>, now: int): (r: seq<Row>)
    ensures |r| == |rows|
  {
    seq(|rows|, i requires 0 <= i < |rows| => CloseRow(rows[i], now))
  }

  function DeactivateRequest(rows: seq<Row>, id: int): (r: seq<Row>)
    ensures |r| == |rows|
  {
    seq(|rows|, i requires 0 <= i < |rows| => if rows[i].id == id then rows[i].(active := false) else rows[i])
  }

  /** The foreign key, and the one range check there is: both CHECK constraints test start_time,
      so the stop time may be any SMALLINT. */
  predicate CanCreate(w: Wiring, valve: int, start: int, stop: int) {
    valve in w && 0 <= start <= 1440 && -0x8000 <= stop < 0x8000
  }

  function NewRow(id: int, valve: int, start: int, stop: int): Row {
    Row(id, valve, start, stop, false, None, true, None)
  }

  /** bbd.valve, restricted to the device, in the order in which the table lists its valves. */
  function DeviceValves(order: seq<int>, w: Wiring, device: int): seq<int> {
    if order == [] then []
    else
      var v := order[|order| - 1];
      DeviceValves(order[..|order| - 1], w, device) + if v in w && w[v] == device then [v] else []
  }

  /** Every valve of the device is returned, and no other. */
  lemma {:induction false} DeviceValvesExact(order: seq<int>, w: Wiring, device: int, v: int)
    ensures v in DeviceValves(order, w, device) <==> v in order && v in w && w[v] == device
  {
    if order != [] {
      DeviceValvesExact(order[..|order| - 1], w, device, v);
      assert v in order <==> v in order[..|order| - 1] || v == order[|order| - 1];
    }
  }

  /** No valve is returned twice. */
  lemma {:induction false} DeviceValvesOnce(order: seq<int>, w: Wiring, device: int)
    requires forall j, k :: 0 <= j < k < |order| ==> order[j] != order[k]
    ensures var ids := DeviceValves(order, w, device); forall j, k :: 0 <= j < k < |ids| ==> ids[j] != ids[k]
  {
    if order != [] {
      var n := |order| - 1;
      DeviceValvesOnce(order[..n], w, device);
      DeviceValvesExact(order[..n], w, device, order[n]);
    }
  }

  // ---------- Conversion to 16 bits ----------

  predicate Fits(v: int) {
    0 <= v < 0x1_0000
  }

  predicate AllFit(ids: seq<int>) {
    forall k :: 0 <= k < |ids| ==> Fits(ids[k])
  }

  /** `as<uint16_t>` accepts every column; otherwise it throws and the whole fetch fails. */
  predicate Convertible(r: Row) {
    Fits(r.id) && Fits(r.valve) && Fits(r.start) && Fits(r.stop)
  }

  function ToSchedule(r: Row): Schedule
    requires Convertible(r)
  {
    Schedule(r.id, r.valve, r.start, r.stop)
  }

  predicate AllConvertible(rows: seq<Row>) {
    forall i :: 0 <= i < |rows| ==> Convertible(rows[i])
  }

  function ToSchedules(rows: seq<Row>): (r: seq<Schedule>)
    requires AllConvertible(rows)
    ensures |r| == |rows|
  {
    seq(|rows|, i requires 0 <= i < |rows| => ToSchedule(rows[i]))
  }

  // ---------- A snapshot ----------

  /** `snap` lists the active rows of the device once each. SELECT gives them in no set order. */
  ghost predicate Listing(snap: seq<Row>, rows: seq<Row>, w: Wiring, device: int) {
    && (forall k :: 0 <= k < |snap| ==> snap[k] in rows && snap[k].active && Belongs(w, snap[k], device))
    && (forall j, k :: 0 <= j < k < |snap| ==> snap[j].id != snap[k].id)
    && (forall i :: 0 <= i < |rows| && rows[i].active && Belongs(w, rows[i], device) ==> rows[i] in snap)
  }

  ghost predicate DistinctIds(rows: seq<Row>) {
    forall i, j :: 0 <= i < j < |rows| ==> rows[i].id != rows[j].id
  }

  /** Ids are distinct, and below the next one. */
  ghost predicate Numbered(rows: seq<Row>, nextId: int) {
    DistinctIds(rows) && forall i :: 0 <= i < |rows| ==> rows[i].id < nextId
  }

  /** The query lists the active rows, here in table order. */
  lemma {:induction false} GetActiveLists(rows: seq<Row>, w: Wiring, device: int)
    requires DistinctIds(rows)
    ensures Listing(GetActive(rows, w, device), rows, w, device)
  {
    if rows != [] {
      var n := |rows| - 1;
      GetActiveLists(rows[..n], w, device);
      var past := GetActive(rows[..n], w, device);
      forall k | 0 <= k < |past| ensures past[k] in rows && past[k].id != rows[n].id {
        assert past[k] in rows[..n];
      }
      forall i | 0 <= i < |rows| && rows[i].active && Belongs(w, rows[i], device)
        ensures rows[i] in GetActive(rows, w, device)
      {
        if i < n {
          assert rows[..n][i] in past;
        }
      }
    }
  }

  function Without(rows: seq<Row>, id: int): seq<Row> {
    if rows == [] then []
    else Without(rows[..|rows| - 1], id) + if rows[|rows| - 1].id == id then [] else [rows[|rows| - 1]]
  }

  /** After a deactivation the query returns what it did before without that schedule. */
  lemma {:induction false} DeactivatedIsGone(rows: seq<Row>, id: int, w: Wiring, device: int)
    ensures GetActive(DeactivateRequest(rows, id), w, device) == Without(GetActive(rows, w, device), id)
  {
    if rows != [] {
      var past, r := rows[..|rows| - 1], rows[|rows| - 1];
      var before := GetActive(past, w, device);
      DeactivatedIsGone(past, id, w, device);
      assert DeactivateRequest(rows, id)[..|past|] == DeactivateRequest(past, id);
      if r.active && Belongs(w, r, device) {
        assert (before + [r])[..|before|] == before;
      } else {
        assert GetActive(rows, w, device) == before;
      }
    }
  }

  /** Recording deactivations does not change what the query returns. */
  lemma {:induction false} RecordingIsUnseen(rows: seq<Row>, now: int, w: Wiring, device: int)
    ensures GetActive(DeactivationsDone(rows, now), w, device) == GetActive(rows, w, device)
  {
    if rows != [] {
      RecordingIsUnseen(rows[..|rows| - 1], now, w, device);
      assert DeactivationsDone(rows, now)[..|rows| - 1] == DeactivationsDone(rows[..|rows| - 1], now);
    }
  }

  /** A fetch succeeds exactly when the columns of every active row of the device lie in 0..65535: one
      row outside keeps all the device's schedules from being served. */
  lemma FetchSucceedsExact(rows: seq<Row>, w: Wiring, device: int)
    requires DistinctIds(rows)
    ensures AllConvertible(GetActive(rows, w, device))
            <==> forall i :: 0 <= i < |rows| && rows[i].active && rows[i].valve in w && w[rows[i].valve] == device ==>
                   && 0 <= rows[i].id <= 65535 && 0 <= rows[i].valve <= 65535
                   && 0 <= rows[i].start <= 65535 && 0 <= rows[i].stop <= 65535
  {
    GetActiveLists(rows, w, device);
    var snap := GetActive(rows, w, device);
    if AllConvertible(snap) {
      forall i | 0 <= i < |rows| && rows[i].active && Belongs(w, rows[i], device) ensures Convertible(rows[i]) {
        var k :| 0 <= k < |snap| && snap[k] == rows[i];
      }
    }
  }

  /** Valve ids beyond 16 bits are accepted by the table and by the web form, so a fetch can fail. */
  lemma OversizedValveIsAccepted(w: Wiring, id: int)
    requires 0x1_0000 in w
    ensures CanCreate(w, 0x1_0000, 600, 660) && !Convertible(NewRow(id, 0x1_0000, 600, 660))
  {
  }

  /** So is a negative stop time, though by the table only: both its constraints test start_time. */
  lemma NegativeStopIsAccepted(w: Wiring, valve: int, id: int)
    requires valve in w
    ensures CanCreate(w, valve, 600, -1) && !Convertible(NewRow(id, valve, 600, -1))
  {
  }

  // ---------- The two schedule requests ----------

  datatype Kind = GetActiveSches | CheckNewSches

  predicate NeedUpdate(snap: seq<Row>) {
    exists k :: 0 <= k < |snap| && !snap[k].sent
  }

  /** The schedules put in the response; CHECK_NEW answers with nothing unless some active row
      is unsent, and then with all of them. */
  function Response(kind: Kind, snap: seq<Row>): seq<Schedule>
    requires AllConvertible(snap)
  {
    if kind.GetActiveSches? || NeedUpdate(snap) then ToSchedules(snap) else []
  }

  // ---------- Marking ----------

  function Ids(snap: seq<Row>): (ids: seq<int>)
    ensures |ids| == |snap|
  {
    seq(|snap|, k requires 0 <= k < |snap| => snap[k].id)
  }

  /** The loop of `set_schedules_sent`. The transaction is committed inside it, at the first row
      that was not yet sent; `extra` is how many more such rows are marked before the library
      refuses the committed transaction and the loop ends. */
  function MarkLoop(rows: seq<Row>, ids: seq<int>, extra: nat, now: int): seq<Row>
    decreases |ids|
  {
    if ids == [] then rows
    else
      var rows' := SetSent(rows, ids[0], now);
      if !CanMark(rows, ids[0]) then MarkLoop(rows', ids[1..], extra, now)
      else if extra == 0 then rows'
      else MarkLoop(rows', ids[1..], extra - 1, now)
  }

  /** What the database, the library and the network choose while a request is handled: whether
      the fetch and the send succeed, how far the marking loop gets, and whether deactivations can
      be recorded. */
  datatype Luck = Luck(fetchOk: bool, sendOk: bool, rounds: nat, extra: nat, closeOk: bool, now: int)

  function FirstRounds(ids: seq<int>, rounds: nat): seq<int> {
    if rounds < |ids| then ids[..rounds] else ids
  }

  /** What a request leaves in the table, when its fetch succeeds. */
  function RowsAfter(kind: Kind, rows: seq<Row>, snap: seq<Row>, luck: Luck): seq<Row> {
    var marked := MarkLoop(rows, FirstRounds(Ids(snap), luck.rounds), luck.extra, luck.now);
    if kind.GetActiveSches? && luck.closeOk then DeactivationsDone(marked, luck.now) else marked
  }

  class Database {
    var rows: seq<Row>
    var nextId: nat
    const wiring: Wiring
    const valveOrder: seq<int>

    constructor (wiring: Wiring, valveOrder: seq<int>)
      ensures this.wiring == wiring && this.valveOrder == valveOrder && rows == [] && nextId == 1
      ensures Numbered(rows, nextId)
    {
      this.wiring, this.valveOrder := wiring, valveOrder;
      rows, nextId := [], 1;
    }

    /** A created row is active and unsent, is the last one its device's query returns, and changes
        no other query. The sequence is advanced even when a constraint then rejects the row. */
    method WebCreateNewSchedule(valve: int, start: int, stop: int) returns (created: bool)
      modifies this
      ensures created <==> valve in wiring && 0 <= start <= 1440 && -32768 <= stop <= 32767
      ensures if created then |rows| == old(|rows|) + 1 && rows[..old(|rows|)] == old(rows) else rows == old(rows)
      ensures created ==>
                var r := rows[old(|rows|)];
                && r.id == old(nextId) && r.active && !r.sent && r.sentOn.None? && r.deactivatedOn.None?
                && r.valve == valve && r.start == start && r.stop == stop
                && forall k :: 0 <= k < old(|rows|) && Numbered(old(rows), old(nextId)) ==> rows[k].id < r.id
      ensures forall device :: GetActive(rows, wiring, device)
                == GetActive(old(rows), wiring, device)
                   + if created && wiring[valve] == device then [rows[old(|rows|)]] else []
      ensures nextId == old(nextId) + 1 && (Numbered(old(rows), old(nextId)) ==> Numbered(rows, nextId))
    {
      created := CanCreate(wiring, valve, start, stop);
      if created {
        rows := rows + [NewRow(nextId, valve, start, stop)];
        assert rows[..|rows| - 1] == old(rows);
      }
      nextId := nextId + 1;
    }

    /** The schedule disappears from every later query; its other columns, and all other rows,
        stay. */
    method WebDeactivateScheduleRequest(id: int)
      modifies this`rows
      ensures |rows| == old(|rows|)
      ensures forall i :: 0 <= i < |rows| ==>
                if rows[i].id == id then !rows[i].active && rows[i].(active := old(rows[i].active)) == old(rows[i])
                else rows[i] == old(rows[i])
      ensures forall device :: GetActive(rows, wiring, device) == Without(GetActive(old(rows), wiring, device), id)
    {
      forall device
        ensures GetActive(DeactivateRequest(rows, id), wiring, device) == Without(GetActive(rows, wiring, device), id)
      {
        DeactivatedIsGone(rows, id, wiring, device);
      }
      rows := DeactivateRequest(rows, id);
    }

    method DbGetDeviceValves(device: int) returns (rc: int, valveIds: seq<U16>)
      ensures var ids := DeviceValves(valveOrder, wiring, device);
        rc == if forall k :: 0 <= k < |ids| ==> 0 <= ids[k] <= 65535 then 0 else 1
      ensures rc == 0 ==> valveIds == DeviceValves(valveOrder, wiring, device)
    {
      var res := DeviceValves(valveOrder, wiring, device);
      valveIds := [];
      for k := 0 to |res|
        invariant valveIds == res[..k]
      {
        if !Fits(res[k]) {
          return 1, valveIds;
        }
        valveIds := valveIds + [res[k]];
      }
      return 0, valveIds;
    }

    /** 1 when some column of some row does not convert, wherever it is in the result. */
    method DbGetActiveSchedules(device: int) returns (rc: int, sches: seq<Schedule>, sents: seq<bool>)
      ensures rc == if AllConvertible(GetActive(rows, wiring, device)) then 0 else 1
      ensures var res := GetActive(rows, wiring, device);
        rc == 0 <==> forall k :: 0 <= k < |res| ==>
                       && 0 <= res[k].id <= 65535 && 0 <= res[k].valve <= 65535
                       && 0 <= res[k].start <= 65535 && 0 <= res[k].stop <= 65535
      ensures rc == 0 ==> sches == ToSchedules(GetActive(rows, wiring, device))
      ensures rc == 0 ==> |sents| == |sches|
                          && forall k :: 0 <= k < |sents| ==> sents[k] == GetActive(rows, wiring, device)[k].sent
    {
      var res := GetActive(rows, wiring, device);
      sches, sents := [], [];
      for k := 0 to |res|
        invariant AllConvertible(res[..k])
        invariant sches == ToSchedules(res[..k])
        invariant |sents| == k && forall j :: 0 <= j < k ==> sents[j] == res[j].sent
      {
        if !Convertible(res[k]) {
          return 1, sches, sents;
        }
        sches := sches + [ToSchedule(res[k])];
        sents := sents + [res[k].sent];
      }
      assert res[..|res|] == res;
      return 0, sches, sents;
    }

    /** `rounds` is how many rounds the database allows before it fails, if it does. */
    method SetSchedulesSent(ids: seq<int>, rounds: nat, extra: nat, now: int)
      modifies this`rows
      ensures rows == MarkLoop(old(rows), FirstRounds(ids, rounds), extra, now)
    {
      var left := extra;
      ghost var done := FirstRounds(ids, rounds);
      for k := 0 to |ids|
        invariant k <= |done|
        invariant MarkLoop(rows, done[k..], left, now) == MarkLoop(old(rows), done, extra, now)
      {
        if k == rounds {
          return;
        }
        assert done[k..][0] == ids[k] && done[k..][1..] == done[k + 1..];
        var unsent := CanMark(rows, ids[k]);
        rows := SetSent(rows, ids[k], now);
        if unsent {
          if left == 0 {
            return;
          }
          left := left - 1;
        }
      }
    }

    /** Every inactive row gets a time, once; nothing else changes, and no query notices. */
    method DeactivationRequestsDone(now: int)
      modifies this`rows
      ensures rows == DeactivationsDone(old(rows), now)
      ensures forall i :: 0 <= i < |rows| ==>
                && rows[i].(deactivatedOn := old(rows[i].deactivatedOn)) == old(rows[i])
                && (if old(rows[i].active) || old(rows[i].deactivatedOn.Some?)
                    then rows[i].deactivatedOn == old(rows[i].deactivatedOn)
                    else rows[i].deactivatedOn == Some(now))
      ensures forall device :: GetActive(rows, wiring, device) == GetActive(old(rows), wiring, device)
    {
      forall device ensures GetActive(DeactivationsDone(rows, now), wiring, device) == GetActive(rows, wiring, device) {
        RecordingIsUnseen(rows, now, wiring, device);
      }
      rows := DeactivationsDone(rows, now);
    }
  }
}
