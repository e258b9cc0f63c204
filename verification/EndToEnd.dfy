/** One schedule request from the table to the scheduler, through both codecs. */
module EndToEnd {
  import opened Types
  import opened Net
  import opened Store
  import opened Wire
  import opened Receiver
  import opened Scheduler
  import Client

  /** Whatever is made of a complete response is decoded into the list that was sent. */
  lemma FrameIsDelivered(rsp: seq<Schedule>, payload: seq<byte>, frame: seq<byte>)
    requires |payload| < 0x1_0000 && payload == EncodeSchedules(rsp)
    requires IsFrame(frame) && Extends(frame, Frame(payload))
    ensures DecodeSchedules(Payload(frame)) == rsp && (Payload(frame) == [] <==> rsp == [])
  {
    FrameRoundTrip(payload, []);
    Client.CompleteFrame(frame, Frame(payload));
    SchedulesRoundTrip(rsp);
  }

  /** What goes over the network for a response. */
  function Answer(rsp: seq<Schedule>): seq<byte>
    requires |rsp| <= 6553
  {
    if rsp == [] then [0, 0] else Frame(EncodeSchedules(rsp))
  }

  lemma AnswerIsDelivered(rsp: seq<Schedule>, frame: seq<byte>)
    requires |rsp| <= 6553 && IsFrame(frame) && Extends(frame, Answer(rsp))
    ensures frame == Answer(rsp) && DecodeSchedules(Payload(frame)) == rsp && (Payload(frame) == [] <==> rsp == [])
  {
    var payload := EncodeSchedules(rsp);
    assert Frame([]) == [0, 0];
    assert Answer(rsp) == Frame(payload);
    FrameRoundTrip(payload, []);
    Client.CompleteFrame(frame, Answer(rsp));
    FrameIsDelivered(rsp, payload, frame);
  }

  /** What the device is to be told: all its active schedules, or nothing new. */
  function Told(msgType: byte, snap: seq<Row>): (r: seq<Schedule>)
    requires AllConvertible(snap)
    ensures |r| <= |snap|
  {
    if msgType == 2 || exists k :: 0 <= k < |snap| && !snap[k].sent then ToSchedules(snap) else []
  }

  /** The request, from the client's header to the bytes that are sent back. */
  method Ask(server: Server, host: Host, header: Header, luck: Luck) returns (incoming: seq<byte>)
    requires header.magicNumber == 38017 && header.msgType in {2, 3}
    modifies server.db`rows
    ensures var snap := GetActive(old(server.db.rows), server.db.wiring, header.deviceId);
      && (luck.fetchOk && AllConvertible(snap) && |snap| <= 6553 ==>
            && (luck.sendOk ==> incoming == Answer(Told(header.msgType, snap)))
            && server.db.rows == RowsAfter(if header.msgType == 2 then GetActiveSches else CheckNewSches,
                                           old(server.db.rows), snap, luck))
      && (!luck.fetchOk || !AllConvertible(snap) ==> incoming == [] && server.db.rows == old(server.db.rows))
  {
    var request := SendSocketHeader(host, header);
    var accepted := new Socket(request);
    var _, received, msg := RecvSocketHeader(server.host, accepted);
    assert msg == request && received == header;
    var _, sent := server.Serve(received, luck);
    incoming := if sent.Some? then sent.value else [];
    assert Frame(EncodeSchedules([])) == [0, 0];
  }

  /** What the client does with the bytes that arrive, if they are a whole response, or none. */
  method Take(client: Client.ClientController, incoming: seq<byte>, ghost rsp: seq<Schedule>)
    returns (rc: int, inBounds: bool)
    modifies client.manager
    ensures incoming == [] ==> rc == 3 && client.manager.View() == old(client.manager.View())
    ensures |rsp| <= 6553 && incoming == Answer(rsp) ==>
              && rc == 0 && inBounds
              && client.manager.View() == if rsp == [] then old(client.manager.View())
                                          else Controller(Fresh(rsp), old(client.manager.View()).table, [])
  {
    var sock := new Socket(incoming);
    ghost var frame;
    rc, inBounds, frame := client.ReceiveSchedules(true, sock);
    if |rsp| <= 6553 && incoming == Answer(rsp) {
      AnswerIsDelivered(rsp, frame);
    }
  }

  /** A schedule request of a client on any host, served by a receiver on any host, from the header
      to the scheduler, when the fetch and the send succeed and the device has at most 6553 active
      schedules. GET_ACTIVE (2), and CHECK_NEW (3) if one of them is unsent, make the scheduler's
      list exactly these schedules, with every flag false; if there are none, or none is unsent, the
      controller stays as it is. The table is marked in any case. A failed fetch changes neither side. */
  method Exchange(server: Server, client: Client.ClientController, header: Header, luck: Luck)
    returns (rc: int, inBounds: bool)
    requires header.magicNumber == 38017 && header.msgType in {2, 3}
    modifies server.db`rows, client.manager
    ensures var snap := GetActive(old(server.db.rows), server.db.wiring, header.deviceId);
      && (luck.fetchOk && luck.sendOk && AllConvertible(snap) && |snap| <= 6553 ==>
            && rc == 0 && inBounds
            && (if snap != [] && (header.msgType == 2 || exists k :: 0 <= k < |snap| && !snap[k].sent)
                then client.manager.View()
                     == Controller(Fresh(ToSchedules(snap)), old(client.manager.View()).table, [])
                else client.manager.View() == old(client.manager.View()))
            && server.db.rows == RowsAfter(if header.msgType == 2 then GetActiveSches else CheckNewSches,
                                           old(server.db.rows), snap, luck))
      && (!luck.fetchOk || !AllConvertible(snap) ==>
            && rc == 3 && client.manager.View() == old(client.manager.View())
            && server.db.rows == old(server.db.rows))
  {
    ghost var snap := GetActive(server.db.rows, server.db.wiring, header.deviceId);
    ghost var c := client.manager.View();
    var incoming := Ask(server, client.host, header, luck);
    assert client.manager.View() == c;
    ghost var rsp := if AllConvertible(snap) then Told(header.msgType, snap) else [];
    rc, inBounds := Take(client, incoming, rsp);
  }
}
