/** The binary protocol between the receiver and the client daemon: two codecs written apart,
    each on a host of either byte order, over byte buffers with 16-bit sizes. */
module Wire {
  import opened Types
  import opened Net

  // ---------- What is on the wire ----------

  const SCHEDULE_BYTES := 8  // sizeof(struct schedule)
  const LENGTH_BYTES := 2
  const HEADER_BYTES := 6

  function Encode16(v: U16): (r: seq<byte>)
    ensures |r| == 2
  {
    [v / 0x100, v % 0x100]
  }

  function Decode16(hi: byte, lo: byte): U16 {
    hi * 0x100 + lo
  }

  function EncodeSchedule(s: Schedule): (r: seq<byte>)
    ensures |r| == SCHEDULE_BYTES
  {
    Encode16(s.scheduleId) + Encode16(s.valveId) + Encode16(s.start) + Encode16(s.stop)
  }

  function DecodeSchedule(b: seq<byte>): Schedule
    requires |b| == SCHEDULE_BYTES
  {
    Schedule(Decode16(b[0], b[1]), Decode16(b[2], b[3]), Decode16(b[4], b[5]), Decode16(b[6], b[7]))
  }

  function EncodeSchedules(list: seq<Schedule>): (r: seq<byte>)
    ensures |r| == SCHEDULE_BYTES * |list|
  {
    if list == [] then [] else EncodeSchedules(list[..|list| - 1]) + EncodeSchedule(list[|list| - 1])
  }

  /** Whole schedules only: a remainder of fewer than 8 bytes is ignored. */
  function DecodeSchedules(payload: seq<byte>): (r: seq<Schedule>)
    ensures |r| == |payload| / SCHEDULE_BYTES
  {
    seq(|payload| / SCHEDULE_BYTES, i requires 0 <= i < |payload| / SCHEDULE_BYTES =>
      DecodeSchedule(payload[SCHEDULE_BYTES * i..SCHEDULE_BYTES * i + SCHEDULE_BYTES]))
  }

  function EncodeValves(ids: seq<U16>): (r: seq<byte>)
    ensures |r| == 2 * |ids|
  {
    if ids == [] then [] else EncodeValves(ids[..|ids| - 1]) + Encode16(ids[|ids| - 1])
  }

  function DecodeValves(payload: seq<byte>): (r: seq<U16>)
    ensures |r| == |payload| / 2
  {
    seq(|payload| / 2, i requires 0 <= i < |payload| / 2 => Decode16(payload[2 * i], payload[2 * i + 1]))
  }

  function Frame(payload: seq<byte>): seq<byte>
    requires |payload| < 0x1_0000
  {
    Encode16(|payload|) + payload
  }

  /** A complete response: two bytes of length and that many bytes of payload. */
  predicate IsFrame(b: seq<byte>) {
    |b| >= LENGTH_BYTES && |b| == LENGTH_BYTES + Decode16(b[0], b[1])
  }

  function Payload(b: seq<byte>): (p: seq<byte>)
    requires IsFrame(b)
    ensures |p| < 0x1_0000
  {
    b[LENGTH_BYTES..]
  }

  /** Framing and taking the frame apart undo each other. */
  lemma FrameRoundTrip(p: seq<byte>, b: seq<byte>)
    ensures |p| < 0x1_0000 ==> IsFrame(Frame(p)) && Payload(Frame(p)) == p
    ensures IsFrame(b) ==> Frame(Payload(b)) == b
  {
  }

  lemma ScheduleRoundTrip(s: Schedule)
    ensures DecodeSchedule(EncodeSchedule(s)) == s
  {
  }

  /** Where schedule `i` of an encoded list lies. */
  lemma {:induction false} ScheduleSlot(list: seq<Schedule>, i: nat)
    requires i < |list|
    ensures EncodeSchedules(list)[SCHEDULE_BYTES * i..SCHEDULE_BYTES * i + SCHEDULE_BYTES] == EncodeSchedule(list[i])
  {
    var n, at := |list| - 1, SCHEDULE_BYTES * i;
    var past, last := EncodeSchedules(list[..n]), EncodeSchedule(list[n]);
    assert EncodeSchedules(list) == past + last && |past| == SCHEDULE_BYTES * n;
    if i < n {
      ScheduleSlot(list[..n], i);
      assert (past + last)[at..at + SCHEDULE_BYTES] == past[at..at + SCHEDULE_BYTES];
    } else {
      assert (past + last)[at..at + SCHEDULE_BYTES] == last;
    }
  }

  /** Decoding undoes encoding for every list of schedules. */
  lemma {:induction false} SchedulesRoundTrip(list: seq<Schedule>)
    ensures DecodeSchedules(EncodeSchedules(list)) == list
  {
    var b := EncodeSchedules(list);
    var r := DecodeSchedules(b);
    forall i | 0 <= i < |list| ensures r[i] == list[i] {
      var slot := b[SCHEDULE_BYTES * i..SCHEDULE_BYTES * i + SCHEDULE_BYTES];
      assert slot == EncodeSchedule(list[i]) by { ScheduleSlot(list, i); }
      assert r[i] == DecodeSchedule(slot);
      ScheduleRoundTrip(list[i]);
    }
  }

  lemma {:induction false} ValveSlot(ids: seq<U16>, i: nat)
    requires i < |ids|
    ensures EncodeValves(ids)[2 * i..2 * i + 2] == Encode16(ids[i])
  {
    var n := |ids| - 1;
    var past, last := EncodeValves(ids[..n]), Encode16(ids[n]);
    assert EncodeValves(ids) == past + last && |past| == 2 * n;
    if i < n {
      ValveSlot(ids[..n], i);
      assert (past + last)[2 * i..2 * i + 2] == past[2 * i..2 * i + 2];
    } else {
      assert (past + last)[2 * i..2 * i + 2] == last;
    }
  }

  /** Decoding undoes encoding for every list of valve ids. */
  lemma {:induction false} ValvesRoundTrip(ids: seq<U16>)
    ensures DecodeValves(EncodeValves(ids)) == ids
  {
    forall i | 0 <= i < |ids| ensures DecodeValves(EncodeValves(ids))[i] == ids[i] {
      ValveSlot(ids, i);
      var b := EncodeValves(ids);
      assert b[2 * i] == b[2 * i..2 * i + 2][0] && b[2 * i + 1] == b[2 * i..2 * i + 2][1];
    }
  }

  /** A 16-bit number at position `at`, high byte first. */
  predicate NumberAt(b: seq<byte>, at: nat, v: U16) {
    at + 2 <= |b| && b[at] as int * 256 + b[at + 1] as int == v as int
  }

  lemma Encode16At(b: seq<byte>, at: nat, v: U16)
    requires at + 2 <= |b| && b[at..at + 2] == Encode16(v)
    ensures NumberAt(b, at, v)
  {
    assert b[at] == b[at..at + 2][0] && b[at + 1] == b[at..at + 2][1];
  }

  /** Where the four numbers of schedule `i` of an encoded list stand. */
  lemma ScheduleLayout(list: seq<Schedule>, b: seq<byte>, i: nat)
    requires b == EncodeSchedules(list) && i < |list|
    ensures |b| == 8 * |list|
    ensures NumberAt(b, 8 * i, list[i].scheduleId) && NumberAt(b, 8 * i + 2, list[i].valveId)
    ensures NumberAt(b, 8 * i + 4, list[i].start) && NumberAt(b, 8 * i + 6, list[i].stop)
  {
    ScheduleSlot(list, i);
    SlotLayout(b, 8 * i, list[i]);
  }

  lemma SlotLayout(b: seq<byte>, at: nat, s: Schedule)
    requires at + 8 <= |b| && b[at..at + 8] == EncodeSchedule(s)
    ensures NumberAt(b, at, s.scheduleId) && NumberAt(b, at + 2, s.valveId)
    ensures NumberAt(b, at + 4, s.start) && NumberAt(b, at + 6, s.stop)
  {
    var slot := EncodeSchedule(s);
    NumberInSlot(b, at, slot, 0, s.scheduleId);
    NumberInSlot(b, at, slot, 2, s.valveId);
    NumberInSlot(b, at, slot, 4, s.start);
    NumberInSlot(b, at, slot, 6, s.stop);
  }

  lemma NumberInSlot(b: seq<byte>, at: nat, slot: seq<byte>, k: nat, v: U16)
    requires at + 8 <= |b| && |slot| == 8 && b[at..at + 8] == slot && k + 2 <= 8
    requires slot[k] == Encode16(v)[0] && slot[k + 1] == Encode16(v)[1]
    ensures NumberAt(b, at + k, v)
  {
    assert b[at + k] == b[at..at + 8][k] && b[at + k + 1] == b[at..at + 8][k + 1];
  }

  /** The same for valve ids, two bytes each. */
  lemma ValveLayout(ids: seq<U16>, b: seq<byte>, i: nat)
    requires b == EncodeValves(ids) && i < |ids|
    ensures |b| == 2 * |ids| && NumberAt(b, 2 * i, ids[i])
  {
    var at := 2 * i;
    assert b[at..at + 2] == Encode16(ids[i]) by {
      ValveSlot(ids, i);
    }
    Encode16At(b, at, ids[i]);
  }

  /** A frame is the length of the payload and the payload. */
  lemma FrameLayout(payload: seq<byte>)
    requires |payload| <= 65535
    ensures NumberAt(Frame(payload), 0, |payload|) && Frame(payload)[2..] == payload
  {
    Encode16At(Frame(payload), 0, |payload|);
  }

  /** The largest lists whose sizes survive the 16-bit arithmetic of `craft_*_rsp` and
      `send_rsp_msg`: 8191 schedules, 32766 valve ids. */
  lemma FrameSizesExact(n: nat)
    ensures LENGTH_BYTES + SCHEDULE_BYTES * n == ToU16(LENGTH_BYTES + ToU16(SCHEDULE_BYTES * n)) <==> n <= 8191
    ensures LENGTH_BYTES + 2 * n == ToU16(LENGTH_BYTES + ToU16(2 * n)) <==> n <= 32766
  {
  }

  // ---------- Hosts ----------

  datatype Host = LittleEndian | BigEndian

  /** The two bytes of a `uint16_t` in the host's memory. */
  function InMemory(h: Host, v: U16): (r: seq<byte>)
    ensures |r| == 2
  {
    match h
    case LittleEndian => [v % 0x100, v / 0x100]
    case BigEndian => [v / 0x100, v % 0x100]
  }

  function FromMemory(h: Host, first: byte, second: byte): U16 {
    match h
    case LittleEndian => second * 0x100 + first
    case BigEndian => first * 0x100 + second
  }

  /** htons and ntohs are the same byte swap, or nothing. */
  function Swap16(h: Host, v: U16): U16 {
    match h
    case LittleEndian => v % 0x100 * 0x100 + v / 0x100
    case BigEndian => v
  }

  /** `_prep_to_send_16`: the bytes written do not depend on the host. */
  method PrepToSend16(h: Host, v: U16, out: array<byte>, at: nat)
    requires at + 2 <= out.Length
    modifies out
    ensures out[..] == old(out[..at]) + Encode16(v) + old(out[at + 2..])
  {
    var temp := InMemory(h, Swap16(h, v));
    out[at], out[at + 1] := temp[0], temp[1];
  }

  /** `_prep_recved_16`: the value read does not depend on the host. */
  method PrepRecved16(h: Host, buf: array<byte>, at: nat) returns (v: U16)
    requires at + 2 <= buf.Length
    ensures v == Decode16(buf[at], buf[at + 1])
  {
    ghost var first: int, second: int := buf[at], buf[at + 1];
    assert (second * 0x100 + first) / 0x100 == second;
    v := Swap16(h, FromMemory(h, buf[at], buf[at + 1]));
  }

  // ---------- Receiver ----------

  method EncodeScheduleAt(h: Host, msg: array<byte>, at: nat, sche: Schedule)
    requires at + SCHEDULE_BYTES <= msg.Length
    modifies msg
    ensures msg[..at] == old(msg[..at])
    ensures msg[at..at + SCHEDULE_BYTES] == EncodeSchedule(sche)
  {
    PrepToSend16(h, sche.scheduleId, msg, at);
    PrepToSend16(h, sche.valveId, msg, at + 2);
    PrepToSend16(h, sche.start, msg, at + 4);
    PrepToSend16(h, sche.stop, msg, at + 6);
  }

  /** `ok` is false when the 16-bit allocation is too short for the entries written to it; the
      model then stops before the first write outside it. A vector of 65536 or more entries
      is first cut down by the 16-bit count. */
  method CraftActiveSchedulesRsp(h: Host, sches: seq<Schedule>) returns (ok: bool, msg: array<byte>)
    ensures fresh(msg) && msg.Length == ToU16(SCHEDULE_BYTES * |sches|)
    ensures ok <==> ToU16(|sches|) <= 8191
    ensures ok ==> msg[..] == EncodeSchedules(sches[..ToU16(|sches|)])
  {
    var n: nat := ToU16(|sches|);
    ToU16Product(SCHEDULE_BYTES, |sches|);
    var len := ToU16(SCHEDULE_BYTES * n);
    msg := new byte[len];
    for i := 0 to n
      invariant SCHEDULE_BYTES * i <= len
      invariant msg[..SCHEDULE_BYTES * i] == EncodeSchedules(sches[..i])
    {
      if SCHEDULE_BYTES * i + SCHEDULE_BYTES > len {
        return false, msg;
      }
      EncodeScheduleAt(h, msg, SCHEDULE_BYTES * i, sches[i]);
      assert sches[..i + 1][..i] == sches[..i];
      assert msg[..SCHEDULE_BYTES * (i + 1)]
          == msg[..SCHEDULE_BYTES * i] + msg[SCHEDULE_BYTES * i..SCHEDULE_BYTES * i + SCHEDULE_BYTES];
    }
    return true, msg;
  }

  /** As above, for valve ids. */
  method CraftDeviceValvesRsp(h: Host, ids: seq<U16>) returns (ok: bool, msg: array<byte>)
    ensures fresh(msg) && msg.Length == ToU16(2 * |ids|)
    ensures ok <==> ToU16(|ids|) <= 32767
    ensures ok ==> msg[..] == EncodeValves(ids[..ToU16(|ids|)])
  {
    var n: nat := ToU16(|ids|);
    ToU16Product(2, |ids|);
    var len := ToU16(2 * n);
    msg := new byte[len];
    for i := 0 to n
      invariant 2 * i <= len
      invariant msg[..2 * i] == EncodeValves(ids[..i])
    {
      if 2 * i + 2 > len {
        return false, msg;
      }
      PrepToSend16(h, ids[i], msg, 2 * i);
      assert ids[..i + 1][..i] == ids[..i];
      assert msg[..2 * (i + 1)] == msg[..2 * i] + msg[2 * i..2 * i + 2];
    }
    return true, msg;
  }

  /** Sends the length and the payload in one buffer; `ok` is false when the 16-bit size of that
      buffer wraps, so that it is too short. */
  method SendRspMsg(h: Host, reply: array<byte>, size: U16) returns (ok: bool, sent: seq<byte>)
    requires reply.Length == size
    ensures ok <==> size <= 65533
    ensures ok ==> sent == Frame(reply[..])
  {
    var total := ToU16(LENGTH_BYTES + size);
    if total < LENGTH_BYTES + size {
      return false, [];
    }
    var msg := new byte[total];
    PrepToSend16(h, size, msg, 0);
    CopyAt(msg, LENGTH_BYTES, reply);
    return true, msg[..];
  }

  /** memcpy of the payload behind the length. */
  method CopyAt(msg: array<byte>, at: nat, reply: array<byte>)
    requires msg != reply && msg.Length == at + reply.Length
    modifies msg
    ensures msg[..] == old(msg[..at]) + reply[..]
  {
    forall k | 0 <= k < reply.Length {
      msg[at + k] := reply[k];
    }
  }

  // ---------- Client ----------

  method DecodeScheduleAt(h: Host, msg: array<byte>, at: nat) returns (sche: Schedule)
    requires at + SCHEDULE_BYTES <= msg.Length
    ensures sche == DecodeSchedule(msg[at..at + SCHEDULE_BYTES])
  {
    var scheduleId := PrepRecved16(h, msg, at);
    var valveId := PrepRecved16(h, msg, at + 2);
    var start := PrepRecved16(h, msg, at + 4);
    var stop := PrepRecved16(h, msg, at + 6);
    sche := Schedule(scheduleId, valveId, start, stop);
  }

  // ---------- Request header ----------

  datatype Header = Header(magicNumber: U16, deviceId: byte, msgType: byte, msgSize: U16)

  function EncodeHeader(r: Header): (b: seq<byte>)
    ensures |b| == HEADER_BYTES
  {
    Encode16(r.magicNumber) + [r.deviceId, r.msgType] + Encode16(r.msgSize)
  }

  method SendSocketHeader(h: Host, r: Header) returns (sent: seq<byte>)
    ensures sent == EncodeHeader(r)
    ensures |sent| == 6 && NumberAt(sent, 0, r.magicNumber) && sent[2] == r.deviceId && sent[3] == r.msgType
    ensures NumberAt(sent, 4, r.msgSize)
  {
    var msg := new byte[HEADER_BYTES];
    PrepToSend16(h, r.magicNumber, msg, 0);
    msg[2] := r.deviceId;
    msg[3] := r.msgType;
    PrepToSend16(h, r.msgSize, msg, 4);
    return msg[..];
  }

  function DecodeHeader(b: seq<byte>): Header
    requires |b| == HEADER_BYTES
  {
    Header(Decode16(b[0], b[1]), b[2], b[3], Decode16(b[4], b[5]))
  }

  /** The receiver reads back exactly the header that a client on any host sent. */
  lemma HeaderRoundTrip(r: Header, b: seq<byte>)
    ensures DecodeHeader(EncodeHeader(r)) == r
    ensures |b| == HEADER_BYTES ==> EncodeHeader(DecodeHeader(b)) == b
  {
  }

  /** 1 when the connection closes before the first byte. A header cut short is taken for a whole
      one: `msg` is the buffer, the bytes that arrived and what the memory held behind them. */
  method RecvSocketHeader(h: Host, sock: Socket) returns (rc: int, r: Header, ghost msg: seq<byte>)
    requires sock.Valid() && sock.pos == 0
    modifies sock`pos
    ensures rc == if sock.incoming == [] then 1 else 0
    ensures |msg| == HEADER_BYTES && (rc == 0 ==> Extends(msg, sock.incoming) && r == DecodeHeader(msg))
  {
    var buf := new byte[HEADER_BYTES];
    var n := sock.Recv(buf, HEADER_BYTES);
    msg := buf[..];
    assert msg[..n] == sock.incoming[..n];
    if n <= 0 {
      return 1, Header(0, 0, 0, 0), msg;
    }
    var magicNumber := PrepRecved16(h, buf, 0);
    var msgSize := PrepRecved16(h, buf, 4);
    rc, r := 0, Header(magicNumber, buf[2], buf[3], msgSize);
  }
}
