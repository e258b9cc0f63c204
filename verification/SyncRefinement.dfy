/** The stored functions and the receiver's handling of a request carry out runs of the protocol. */
module SyncRefinement {
  import opened Types
  import opened Store
  import opened Wire
  import opened Receiver
  import opened Sync
  import opened SyncRequests

  ghost predicate Mirrors(db: Database, s: State)
    reads db
  {
    db.rows == s.rows && db.nextId == s.nextId && db.wiring == s.wiring
  }

  /** A create of the web form, at any moment of the protocol. */
  method Create(db: Database, valve: int, start: int, stop: int, ghost s: State)
    requires Mirrors(db, s)
    modifies db
    ensures Enabled(s, WebCreate(valve, start, stop)) && Mirrors(db, After(s, WebCreate(valve, start, stop)))
  {
    var created := db.WebCreateNewSchedule(valve, start, stop);
    assert created ==> db.rows == s.rows + [NewRow(s.nextId, valve, start, stop)];
  }

  /** A deactivation, likewise. */
  method Deactivate(db: Database, id: int, ghost s: State)
    requires Mirrors(db, s)
    modifies db`rows
    ensures Enabled(s, WebDeactivate(id)) && Mirrors(db, After(s, WebDeactivate(id)))
  {
    db.WebDeactivateScheduleRequest(id);
    assert db.rows == DeactivateRequest(s.rows, id);
  }

  lemma ReadBack(list: seq<Schedule>, payload: seq<byte>, frame: seq<byte>)
    requires payload == EncodeSchedules(list) && |payload| < 0x1_0000 && frame == Frame(payload)
    ensures IsFrame(frame) && DecodeSchedules(Payload(frame)) == list
  {
    FrameRoundTrip(payload, []);
    SchedulesRoundTrip(list);
  }

  /** What the receiver sends is read back as the response. */
  lemma AnswerIsResponse(kind: Kind, snap: seq<Row>, frame: seq<byte>)
    requires AllConvertible(snap) && |snap| <= 8191
    requires var answer := kind.GetActiveSches? || exists k :: 0 <= k < |snap| && !snap[k].sent;
      frame == if answer then Frame(EncodeSchedules(ToSchedules(snap))) else [0, 0]
    ensures IsFrame(frame) && DecodeSchedules(Payload(frame)) == Response(kind, snap)
  {
    var rsp := Response(kind, snap);
    assert Frame([]) == [0, 0];
    ReadBack(rsp, EncodeSchedules(rsp), frame);
  }

  /** The client when the frame has arrived. */
  function Told(c: Client, msgType: byte, frame: seq<byte>): Client
    requires IsFrame(frame)
  {
    Client(Sync.Installed(c.list, DecodeSchedules(Payload(frame))), c.synced || msgType == 2, Closed)
  }

  function KindAsked(msgType: byte): Kind {
    if msgType == 2 then GetActiveSches else CheckNewSches
  }

  function ClientsAfter(s: State, d: int, msgType: byte, arrived: Option<seq<byte>>): map<int, Client>
    requires d in s.clients && (arrived.Some? ==> IsFrame(arrived.value))
  {
    if arrived.Some? then s.clients[d := Told(s.clients[d], msgType, arrived.value)] else s.clients
  }

  /** A request whose fetch succeeded, with what was sent, if it was. */
  lemma HandledIsRun(s: State, d: int, msgType: byte, snap: seq<Row>, luck: Luck,
                     sent: Option<seq<byte>>, arrives: bool)
    returns (acts: seq<Action>)
    requires msgType in {2, 3} && Enabled(s, Fetch(d, KindAsked(msgType), snap)) && |snap| <= 8191
    requires sent.Some? ==> sent.value == AnswerTo(msgType, snap)
    ensures Legal(s, acts) && (sent.Some? ==> IsFrame(sent.value))
    ensures Exec(s, acts) == s.(rows := RowsAfter(KindAsked(msgType), s.rows, snap, luck),
                                clients := ClientsAfter(s, d, msgType, if arrives then sent else None))
  {
    if sent.Some? {
      AnswerIsResponse(KindAsked(msgType), snap, sent.value);
    }
    var arrived := if arrives then sent else None;
    acts := RequestIsRun(s, d, KindAsked(msgType), snap, luck, arrived.Some?);
    var c := ServedClient(s.clients[d], KindAsked(msgType), snap, arrived.Some?);
    assert s.clients[d := c] == ClientsAfter(s, d, msgType, arrived);
  }

  function AnswerTo(msgType: byte, snap: seq<Row>): seq<byte>
    requires AllConvertible(snap) && |snap| <= 8191
  {
    if msgType == 2 || exists k :: 0 <= k < |snap| && !snap[k].sent then Frame(EncodeSchedules(ToSchedules(snap)))
    else [0, 0]
  }

  /** A schedule request from a client that is not waiting for another: what the receiver does with it is
      a run, whatever the database and the network do. If what it sent arrives, the client has then
      installed what those bytes decode to; otherwise it is as it was. */
  method Request(server: Server, header: Header, luck: Luck, ghost arrives: bool, ghost s: State)
    returns (ok: bool, sent: Option<seq<byte>>, ghost acts: seq<Action>)
    requires Mirrors(server.db, s) && DistinctIds(s.rows) && s.phase.Idle?
    requires header.deviceId in s.clients && s.clients[header.deviceId].conn.Closed?
    requires header.magicNumber == 38017 && header.msgType in {2, 3}
    requires |GetActive(s.rows, s.wiring, header.deviceId)| <= 8191
    modifies server.db`rows
    ensures ok && Legal(s, acts) && Mirrors(server.db, Exec(s, acts)) && Exec(s, acts).phase.Idle?
    ensures sent.Some? ==> IsFrame(sent.value)
    ensures Exec(s, acts).clients
         == ClientsAfter(s, header.deviceId, header.msgType, if arrives then sent else None)
  {
    ghost var d := header.deviceId;
    ghost var snap := GetActive(s.rows, s.wiring, d);
    GetActiveLists(s.rows, s.wiring, d);
    ok, sent := server.Serve(header, luck);
    if luck.fetchOk && AllConvertible(snap) {
      assert sent.Some? ==> sent.value == AnswerTo(header.msgType, snap);
      acts := HandledIsRun(s, d, header.msgType, snap, luck, sent, arrives);
    } else {
      acts := [];
    }
  }
}
