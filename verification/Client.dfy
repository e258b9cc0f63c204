/** The client daemon's requests (client/daemon/src/client_controller.c): receive a frame,
    decode it element by element, install the result. */
module Client {
  import opened Types
  import opened Net
  import opened Wire
  import opened Valves
  import opened Scheduler

  /** `sd_recv_rsp_len`: 1 when the connection closes before the first byte. `raw` is the buffer
      that is decoded: a length cut short is taken for a whole one. */
  method RecvRspLen(h: Host, sock: Socket) returns (rc: int, rspLen: U16, ghost raw: seq<byte>)
    requires sock.Valid() && sock.pos == 0
    modifies sock`pos
    ensures sock.Valid() && sock.pos == if |sock.incoming| < LENGTH_BYTES then |sock.incoming| else LENGTH_BYTES
    ensures rc == if sock.incoming == [] then 1 else 0
    ensures |raw| == LENGTH_BYTES && raw[..sock.pos] == sock.incoming[..sock.pos]
    ensures rc == 0 ==> rspLen == Decode16(raw[0], raw[1])
  {
    var tmp := new byte[LENGTH_BYTES];
    var n := sock.Recv(tmp, LENGTH_BYTES);
    raw := tmp[..];
    if n <= 0 {
      return 1, 0, raw;
    }
    rspLen := PrepRecved16(h, tmp, 0);
    rc := 0;
  }

  /** Allocation of the buffer and `sd_recv_rsp_msg`: 1 when nothing is received, also because
      nothing was asked for. */
  method RecvRspMsg(sock: Socket, rspLen: U16) returns (rc: int, rsp: array<byte>)
    requires sock.Valid()
    modifies sock`pos
    ensures sock.Valid() && fresh(rsp) && rsp.Length == rspLen
    ensures rc == if rspLen == 0 || old(sock.pos) == |sock.incoming| then 1 else 0
    ensures Extends(rsp[..], sock.incoming[old(sock.pos)..])
  {
    rsp := new byte[rspLen];
    var count := sock.Recv(rsp, rspLen);
    assert rsp[..count] == sock.incoming[old(sock.pos)..][..count];
    rc := if count <= 0 then 1 else 0;
  }

  /** A frame read in two pieces: its length, then its payload. */
  lemma FrameInPieces(raw: seq<byte>, payload: seq<byte>, incoming: seq<byte>, n: nat)
    requires |raw| == LENGTH_BYTES && |payload| == Decode16(raw[0], raw[1])
    requires n == (if |incoming| < LENGTH_BYTES then |incoming| else LENGTH_BYTES) && raw[..n] == incoming[..n]
    requires Extends(payload, incoming[n..])
    ensures Extends(raw + payload, incoming) && IsFrame(raw + payload) && Payload(raw + payload) == payload
  {
    if n < LENGTH_BYTES {
      assert incoming == raw[..n] && raw + payload == incoming + (raw[n..] + payload);
    } else {
      assert incoming == raw + incoming[n..];
      if payload <= incoming[n..] {
        assert incoming == raw + payload + incoming[n..][|payload|..];
      } else {
        assert raw + payload == incoming + payload[|incoming| - n..];
      }
    }
  }

  /** A complete response is the only frame that can be made of it. */
  lemma CompleteFrame(frame: seq<byte>, incoming: seq<byte>)
    requires IsFrame(frame) && IsFrame(incoming) && Extends(frame, incoming)
    ensures frame == incoming
  {
    assert frame[0] == incoming[0] && frame[1] == incoming[1];
  }

  /** The decoding loop of the two schedule requests. */
  method DecodeSchedulesRsp(h: Host, rsp: array<byte>) returns (sches: seq<Schedule>)
    ensures sches == DecodeSchedules(rsp[..])
  {
    var n := rsp.Length / SCHEDULE_BYTES;
    sches := [];
    for i := 0 to n
      invariant sches == DecodeSchedules(rsp[..])[..i]
    {
      var sche := DecodeScheduleAt(h, rsp, i * SCHEDULE_BYTES);
      sches := sches + [sche];
    }
  }

  /** The decoding loop of the valve request. */
  method DecodeValvesRsp(h: Host, rsp: array<byte>) returns (ids: seq<U16>)
    ensures ids == DecodeValves(rsp[..])
  {
    var n := rsp.Length / 2;
    ids := [];
    for i := 0 to n
      invariant ids == DecodeValves(rsp[..])[..i]
    {
      var id := PrepRecved16(h, rsp, i * 2);
      ids := ids + [id];
    }
  }

  /** What a complete response does to the controller. */
  ghost function Received(c: Controller, payload: seq<byte>): Controller {
    if payload == [] then c else Next(c, Install(DecodeSchedules(payload)))
  }

  /** A response framed by the receiver and taken apart by the client installs exactly the list
      that was sent; an empty list installs nothing. */
  lemma ResponseArrives(list: seq<Schedule>, c: Controller)
    requires |list| <= 8191
    ensures var frame := Frame(EncodeSchedules(list));
      && IsFrame(frame) && DecodeSchedules(Payload(frame)) == list
      && Received(c, Payload(frame)) == if list == [] then c else Next(c, Install(list))
  {
    FrameRoundTrip(EncodeSchedules(list), []);
    SchedulesRoundTrip(list);
  }

  class ClientController {
    const host: Host
    const manager: ScheduleManager

    constructor (host: Host, manager: ScheduleManager)
      ensures this.host == host && this.manager == manager
    {
      this.host, this.manager := host, manager;
    }

    /** `cc_set_active_schedules` and `cc_check_new_schedules`, which differ in the request they
        send. 1: no connection; 3: closed before the length; 4: closed before a payload that is not
        empty; 0: an empty response leaves the list alone, any other replaces it. `frame` is the
        response as it is decoded: the one that arrived or, if it was cut short, what arrived with
        whatever the memory held behind it. `inBounds` is false when the decoded list overruns the
        scheduler's allocation. */
    method ReceiveSchedules(connected: bool, sock: Socket) returns (rc: int, inBounds: bool, ghost frame: seq<byte>)
      requires sock.Valid() && sock.pos == 0
      modifies sock, manager
      ensures rc == 1 <==> !connected
      ensures rc == 3 <==> connected && sock.incoming == []
      ensures rc != 1 && rc != 3 ==> IsFrame(frame) && Extends(frame, sock.incoming)
      ensures rc != 1 && rc != 3 ==> rc == if Payload(frame) != [] && |sock.incoming| <= LENGTH_BYTES then 4 else 0
      ensures rc != 0 ==> inBounds && manager.View() == old(manager.View())
      ensures rc == 0 ==> (inBounds <==> |DecodeSchedules(Payload(frame))| <= 6553)
      ensures rc == 0 && inBounds ==> manager.View() == Received(old(manager.View()), Payload(frame))
    {
      frame := [];
      if !connected {
        return 1, true, frame;
      }
      var n, rspLen, raw := RecvRspLen(host, sock);
      if n != 0 {
        return 3, true, frame;
      }
      if rspLen == 0 {
        FrameInPieces(raw, [], sock.incoming, sock.pos);
        return 0, true, raw + [];
      }
      ghost var pos := sock.pos;
      var m, rsp := RecvRspMsg(sock, rspLen);
      frame := raw + rsp[..];
      FrameInPieces(raw, rsp[..], sock.incoming, pos);
      if m != 0 {
        return 4, true, frame;
      }
      var rspSches := DecodeSchedulesRsp(host, rsp);
      inBounds := manager.SetNewSchedules(rspSches);
      rc := 0;
    }

    /** `cc_set_valve_info`, with the same codes. An empty response is an error here (4): receiving
        no bytes is taken for a closed connection, and the valve table is not touched. */
    method SetValveInfo(connected: bool, sock: Socket) returns (rc: int, ghost frame: seq<byte>)
      requires sock.Valid() && sock.pos == 0
      modifies sock, manager.valves
      ensures rc == 1 <==> !connected
      ensures rc == 3 <==> connected && sock.incoming == []
      ensures rc != 1 && rc != 3 ==> IsFrame(frame) && Extends(frame, sock.incoming)
      ensures rc != 1 && rc != 3 ==> rc == if Payload(frame) == [] || |sock.incoming| <= LENGTH_BYTES then 4 else 0
      ensures rc != 0 ==> manager.valves.Contents() == old(manager.valves.Contents())
      ensures rc == 0 ==> AllClosed(manager.valves.Contents(), DecodeValves(Payload(frame)))
    {
      frame := [];
      if !connected {
        return 1, frame;
      }
      var n, rspLen, raw := RecvRspLen(host, sock);
      if n != 0 {
        return 3, frame;
      }
      ghost var pos := sock.pos;
      var m, rsp := RecvRspMsg(sock, rspLen);
      frame := raw + rsp[..];
      FrameInPieces(raw, rsp[..], sock.incoming, pos);
      if m != 0 {
        return 4, frame;
      }
      var valveIds := DecodeValvesRsp(host, rsp);
      manager.valves.InitSetValves(valveIds);
      rc := 0;
    }
  }

  /** The table has these valves, every one closed. */
  predicate AllClosed(t: Table, ids: seq<U16>) {
    |t| == |ids| && forall k :: 0 <= k < |t| ==> t[k] == ValveEntry(ids[k], Closed)
  }
}
