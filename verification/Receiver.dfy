/** The receiver's handling of one request (server/src/receiver/src/main.cpp). */
module Receiver {
  import opened Types
  import opened SentMarks
  import opened Store
  import opened Wire

  const MAGIC_NUMBER := 38017
  const GET_DEVICE_VALVES_MSG := 1
  const GET_ACTIVE_SCHES_MSG := 2
  const CHECK_NEW_SCHEDULES_MSG := 3

  function ScheduleIds(sches: seq<Schedule>): (ids: seq<int>)
    ensures |ids| == |sches|
  {
    seq(|sches|, k requires 0 <= k < |sches| => sches[k].scheduleId)
  }

  function AsU16s(ids: seq<int>): (r: seq<U16>)
    requires AllFit(ids)
    ensures r == ids
  {
    if ids == [] then []
    else
      var last: U16 := ids[|ids| - 1];
      AsU16s(ids[..|ids| - 1]) + [last]
  }

  class Server {
    const db: Database
    const host: Host

    constructor (db: Database, host: Host)
      ensures this.db == db && this.host == host
    {
      this.db, this.host := db, host;
    }

    /** The valves of the device, framed; nothing when the fetch or the send fails. `ok` is false
        when the response does not fit the 16-bit sizes. */
    method HandleValves(device: byte, luck: Luck) returns (ok: bool, sent: Option<seq<byte>>)
      ensures var ids := DeviceValves(db.valveOrder, db.wiring, device);
        if luck.fetchOk && AllFit(ids) then
          && (32766 < |ids| < 0x1_0000 ==> !ok)
          && (|ids| <= 32766 ==> ok && sent == if luck.sendOk then Some(Frame(EncodeValves(AsU16s(ids)))) else None)
        else ok && sent == None
    {
      var rc, valveIds := db.DbGetDeviceValves(device);
      if !luck.fetchOk || rc != 0 {
        return true, None;
      }
      var rsp, frame;
      ok, rsp := CraftDeviceValvesRsp(host, valveIds);
      if !ok {
        return false, None;
      }
      assert |valveIds| < 0x1_0000 ==> valveIds[..ToU16(|valveIds|)] == valveIds;
      ok, frame := SendRspMsg(host, rsp, rsp.Length);
      sent := if ok && luck.sendOk then Some(frame) else None;
    }

    /** Encodes and frames the schedules; without any the payload is empty. */
    method SendSchedules(sches: seq<Schedule>) returns (ok: bool, frame: seq<byte>)
      ensures 8191 < |sches| < 0x1_0000 ==> !ok
      ensures |sches| <= 8191 ==> ok && frame == Frame(EncodeSchedules(sches))
    {
      var rsp;
      if sches != [] {
        ok, rsp := CraftActiveSchedulesRsp(host, sches);
        if !ok {
          return false, [];
        }
        assert |sches| < 0x1_0000 ==> sches[..ToU16(|sches|)] == sches;
      } else {
        rsp := new byte[0];
      }
      ok, frame := SendRspMsg(host, rsp, rsp.Length);
    }

    /** `sent` is what is handed to the network. Rows are marked, and deactivations recorded,
        whether the send succeeded or not. `ok` is false when the response does not fit the
        16-bit sizes. */
    method HandleSchedules(kind: Kind, device: byte, luck: Luck) returns (ok: bool, sent: Option<seq<byte>>)
      modifies db`rows
      ensures var snap := GetActive(old(db.rows), db.wiring, device);
        if luck.fetchOk && AllConvertible(snap) then
          var rsp := Response(kind, snap);
          && (8191 < |rsp| < 0x1_0000 ==> !ok)
          && (|rsp| <= 8191 ==> ok && sent == if luck.sendOk then Some(Frame(EncodeSchedules(rsp))) else None)
          && db.rows == if ok then RowsAfter(kind, old(db.rows), snap, luck) else old(db.rows)
        else ok && sent == None && db.rows == old(db.rows)
    {
      var rc, sches, sents := db.DbGetActiveSchedules(device);
      if !luck.fetchOk || rc != 0 {
        return true, None;
      }
      ghost var snap := GetActive(db.rows, db.wiring, device);
      var needUpdate := FoldNeedUpdate(sents, snap);
      var frame: seq<byte>;
      ok, frame := SendSchedules(if kind.GetActiveSches? || needUpdate then sches else []);
      if !ok {
        return false, None;
      }
      db.SetSchedulesSent(ScheduleIds(sches), luck.rounds, luck.extra, luck.now);
      assert ScheduleIds(sches) == Ids(snap);
      if kind.GetActiveSches? && luck.closeOk {
        db.DeactivationRequestsDone(luck.now);
      }
      return true, if luck.sendOk then Some(frame) else None;
    }

    /** The need_update loop. */
    method FoldNeedUpdate(sents: seq<bool>, ghost snap: seq<Row>) returns (needUpdate: bool)
      requires |sents| == |snap| && forall k :: 0 <= k < |sents| ==> sents[k] == snap[k].sent
      ensures needUpdate <==> NeedUpdate(snap)
    {
      needUpdate := false;
      for k := 0 to |sents|
        invariant needUpdate <==> exists j :: 0 <= j < k && !snap[j].sent
      {
        if !sents[k] {
          needUpdate := true;
        }
      }
    }

    /** One connection. Type 1 answers with the device's valves; type 2 with all its active schedules,
        whatever their marks, and the deactivations are recorded; type 3 with all of them if one is
        unsent, with nothing otherwise, and no deactivation is recorded. Anything else, and another
        magic number, is not answered and changes nothing. */
    method Serve(header: Header, luck: Luck) returns (ok: bool, sent: Option<seq<byte>>)
      modifies db`rows
      ensures header.magicNumber != 38017 || header.msgType !in {1, 2, 3} ==>
                ok && sent == None && db.rows == old(db.rows)
      ensures header.magicNumber == 38017 && header.msgType == 1 ==>
                var ids := DeviceValves(db.valveOrder, db.wiring, header.deviceId);
                && db.rows == old(db.rows)
                && (!luck.fetchOk || !AllFit(ids) ==> ok && sent == None)
                && (luck.fetchOk && AllFit(ids) && |ids| <= 32766 ==>
                      ok && sent == if luck.sendOk then Some(Frame(EncodeValves(AsU16s(ids)))) else None)
      ensures header.magicNumber == 38017 && header.msgType in {2, 3} ==>
                var snap := GetActive(old(db.rows), db.wiring, header.deviceId);
                var answer := header.msgType == 2 || exists k :: 0 <= k < |snap| && !snap[k].sent;
                && (!luck.fetchOk || !AllConvertible(snap) ==> ok && sent == None && db.rows == old(db.rows))
                && (luck.fetchOk && AllConvertible(snap) && (answer ==> |snap| <= 8191) ==>
                      && ok
                      && (!luck.sendOk ==> sent == None)
                      && (luck.sendOk && answer ==> sent == Some(Frame(EncodeSchedules(ToSchedules(snap)))))
                      && (luck.sendOk && !answer ==> sent == Some([0, 0]))
                      && db.rows == RowsAfter(if header.msgType == 2 then GetActiveSches else CheckNewSches,
                                              old(db.rows), snap, luck)
                      && (header.msgType == 2 && luck.closeOk ==>
                            forall i :: 0 <= i < |db.rows| && !db.rows[i].active ==> db.rows[i].deactivatedOn.Some?))
      ensures header.msgType != 2 ==>
                |db.rows| == |old(db.rows)|
                && forall i :: 0 <= i < |db.rows| ==> db.rows[i].deactivatedOn == old(db.rows[i].deactivatedOn)
    {
      if header.magicNumber != MAGIC_NUMBER {
        return true, None;
      }
      match KindOf(header.msgType)
      case Some(kind) =>
        assert Frame(EncodeSchedules([])) == [0, 0];
        ghost var rows, snap := db.rows, GetActive(db.rows, db.wiring, header.deviceId);
        ok, sent := HandleSchedules(kind, header.deviceId, luck);
        forall i | 0 <= i < |rows| && db.rows == RowsAfter(kind, rows, snap, luck)
          ensures |db.rows| == |rows| && db.rows[i].active == rows[i].active
          ensures kind.CheckNewSches? ==> db.rows[i].deactivatedOn == rows[i].deactivatedOn
          ensures kind.GetActiveSches? && luck.closeOk && !rows[i].active ==> db.rows[i].deactivatedOn.Some?
        {
          RequestRecordsExact(kind, rows, snap, luck, i);
        }
      case None =>
        if header.msgType == GET_DEVICE_VALVES_MSG {
          ok, sent := HandleValves(header.deviceId, luck);
        } else {
          return true, None;
        }
    }
  }

  function KindOf(msgType: byte): Option<Kind> {
    if msgType == GET_ACTIVE_SCHES_MSG then Some(GetActiveSches)
    else if msgType == CHECK_NEW_SCHEDULES_MSG then Some(CheckNewSches)
    else None
  }
}
