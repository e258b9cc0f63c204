/** The schedule synchronisation protocol: web actions on the table, the receiver's fetch, send
    and mark steps, and the clients installing what they receive, interleaved one step at a time.

    The receiver serves one request at a time. Web actions may come between any two of its
    steps, and between the marking of two rows. A response that has been sent is installed by
    its client at any later moment. */
module Sync {
  import opened Types
  import opened Store

  /** A client's connection: it has no request, waits for the receiver, or has a response on its
      way that it has not installed. */
  datatype Connection = Closed | Waiting | Responded(kind: Kind, rsp: seq<Schedule>)

  /** `synced` is set when the running client has installed a response to GET_ACTIVE. */
  datatype Client = Client(list: seq<Schedule>, synced: bool, conn: Connection)

  datatype Phase =
    | Idle
    | Fetched(device: int, kind: Kind, snap: seq<Row>)
    | Marking(device: int, kind: Kind, snap: seq<Row>, next: nat)
    | Closing(device: int, kind: Kind, snap: seq<Row>)

  datatype State = State(rows: seq<Row>, nextId: nat, wiring: Wiring, clients: map<int, Client>, phase: Phase)

  datatype Action =
    | WebCreate(valve: int, start: int, stop: int)
    | WebDeactivate(id: int)
    | Restart(device: int)                              // the client process starts afresh
    | Fetch(device: int, kind: Kind, snap: seq<Row>)
    | Send(delivered: bool)
    | Install(device: int)                              // the client receives and installs
    | MarkNext(now: int)
    | MarkStop                                          // the loop ends, or the database fails
    | CloseDeactivated(now: int, ok: bool)

  /** A request whose fetch fails changes nothing and is not a step. A client sends its next
      request only after it is done with the last one. */
  ghost predicate Enabled(s: State, a: Action) {
    match a
    case WebCreate(_, _, _) => true
    case WebDeactivate(_) => true
    case Restart(d) => d in s.clients
    case Fetch(d, _, snap) =>
      && s.phase.Idle? && d in s.clients && s.clients[d].conn.Closed?
      && Listing(snap, s.rows, s.wiring, d) && AllConvertible(snap)
    case Send(delivered) =>
      && s.phase.Fetched? && s.phase.device in s.clients && AllConvertible(s.phase.snap)
      && (delivered ==> s.clients[s.phase.device].conn.Waiting?)
    case Install(d) => d in s.clients && s.clients[d].conn.Responded?
    case MarkNext(_) => s.phase.Marking? && s.phase.next < |s.phase.snap|
    case MarkStop => s.phase.Marking?
    case CloseDeactivated(_, _) => s.phase.Closing?
  }

  /** The client's list after a response: an empty one leaves it alone. */
  function Installed(list: seq<Schedule>, rsp: seq<Schedule>): seq<Schedule> {
    if rsp == [] then list else rsp
  }

  /** The client once it has installed the response on its way, if there is one. */
  function Settled(c: Client): Client {
    if c.conn.Responded? then
      Client(Installed(c.list, c.conn.rsp), c.synced || c.conn.kind.GetActiveSches?, Closed)
    else c
  }

  /** The waiting client after the send; one that has restarted meanwhile gets nothing. */
  function Answered(c: Client, delivered: bool, kind: Kind, rsp: seq<Schedule>): Client {
    if !c.conn.Waiting? then c else c.(conn := if delivered then Responded(kind, rsp) else Closed)
  }

  function After(s: State, a: Action): State {
    match a
    case WebCreate(valve, start, stop) =>
      var created := if CanCreate(s.wiring, valve, start, stop) then [NewRow(s.nextId, valve, start, stop)] else [];
      s.(nextId := s.nextId + 1, rows := s.rows + created)
    case WebDeactivate(id) => s.(rows := DeactivateRequest(s.rows, id))
    case Restart(d) => s.(clients := s.clients[d := Client([], false, Closed)])
    case Fetch(d, kind, snap) =>
      if d in s.clients then
        s.(phase := Fetched(d, kind, snap), clients := s.clients[d := s.clients[d].(conn := Waiting)])
      else s
    case Send(delivered) =>
      if s.phase.Fetched? && s.phase.device in s.clients && AllConvertible(s.phase.snap) then
        var Fetched(d, kind, snap) := s.phase;
        s.(phase := Marking(d, kind, snap, 0),
           clients := s.clients[d := Answered(s.clients[d], delivered, kind, Response(kind, snap))])
      else s
    case Install(d) =>
      if d in s.clients then s.(clients := s.clients[d := Settled(s.clients[d])]) else s
    case MarkNext(now) =>
      if s.phase.Marking? && s.phase.next < |s.phase.snap| then
        s.(rows := SetSent(s.rows, s.phase.snap[s.phase.next].id, now), phase := s.phase.(next := s.phase.next + 1))
      else s
    case MarkStop => if s.phase.Marking? then s.(phase := Rested(s.phase)) else s
    case CloseDeactivated(now, ok) =>
      s.(phase := Idle, rows := if ok then DeactivationsDone(s.rows, now) else s.rows)
  }

  /** The phase after marking. */
  function Rested(ph: Phase): Phase
    requires ph.Marking?
  {
    if ph.kind.GetActiveSches? then Closing(ph.device, ph.kind, ph.snap) else Idle
  }

  function Exec(s: State, acts: seq<Action>): State {
    if acts == [] then s else After(Exec(s, acts[..|acts| - 1]), acts[|acts| - 1])
  }

  ghost predicate Legal(s: State, acts: seq<Action>) {
    acts == [] || (Legal(s, acts[..|acts| - 1]) && Enabled(Exec(s, acts[..|acts| - 1]), acts[|acts| - 1]))
  }

  lemma Snoc(s: State, acts: seq<Action>, a: Action)
    ensures Exec(s, acts + [a]) == After(Exec(s, acts), a)
    ensures Legal(s, acts + [a]) <==> Legal(s, acts) && Enabled(Exec(s, acts), a)
  {
    assert (acts + [a])[..|acts|] == acts;
  }

  /** Some response to device `d` was lost since its client last started. */
  ghost predicate Lost(s: State, acts: seq<Action>, d: int) {
    if acts == [] then false
    else
      var past, a := acts[..|acts| - 1], acts[|acts| - 1];
      if a == Restart(d) then false
      else Lost(s, past, d) || LosesResponse(Exec(s, past), a, d)
  }

  /** The process that waits for this response does not get it. */
  predicate LosesResponse(s: State, a: Action, d: int) {
    && a.Send? && !a.delivered && s.phase.Fetched? && s.phase.device == d
    && d in s.clients && s.clients[d].conn.Waiting?
  }

  /** Any table, and clients that have not started. */
  ghost predicate Initial(s: State) {
    && s.phase.Idle? && WellNumbered(s)
    && forall d :: d in s.clients ==> !s.clients[d].synced && s.clients[d].conn.Closed?
  }

  ghost predicate WellNumbered(s: State) {
    Numbered(s.rows, s.nextId)
  }

  // ---------- What the clients know ----------

  predicate SameSchedule(c: Schedule, r: Row) {
    c.scheduleId == r.id && c.valveId == r.valve && c.start == r.start && c.stop == r.stop
  }

  ghost predicate Holds(list: seq<Schedule>, r: Row) {
    exists k :: 0 <= k < |list| && SameSchedule(list[k], r)
  }

  /** The list has a schedule with this id. */
  ghost predicate Lists(list: seq<Schedule>, id: int) {
    exists k :: 0 <= k < |list| && list[k].scheduleId == id
  }

  /** The row is one the client of device `d` must have. */
  ghost predicate Due(s: State, d: int, r: Row) {
    r.active && r.sent && Belongs(s.wiring, r, d)
  }

  /** Every active and sent schedule of the device is in the list, with the same valve, start
      and stop. */
  ghost predicate HoldsAllDue(s: State, d: int, list: seq<Schedule>) {
    forall i :: 0 <= i < |s.rows| && Due(s, d, s.rows[i]) ==> Holds(list, s.rows[i])
  }

  /** A client that has been answered once, and has no response on its way, holds all that is due. */
  ghost predicate Informed(s: State, d: int) {
    d in s.clients && s.clients[d].synced && !s.clients[d].conn.Responded? ==> HoldsAllDue(s, d, s.clients[d].list)
  }

  /** The same of the list that the client has, or will have once it installs what is on its way. */
  ghost predicate WillBeInformed(s: State, d: int) {
    d in s.clients && Settled(s.clients[d]).synced ==> HoldsAllDue(s, d, Settled(s.clients[d]).list)
  }

  /** A row of the table against a row of the snapshot with the same id. */
  ghost predicate Tracks(w: Wiring, d: int, r: Row, snapped: Row) {
    && Belongs(w, r, d)
    && r.valve == snapped.valve && r.start == snapped.start && r.stop == snapped.stop
    && (snapped.sent ==> r.sent)
  }

  ghost predicate SnapTracked(s: State, d: int, snap: seq<Row>) {
    && (forall k :: 0 <= k < |snap| ==> snap[k].id < s.nextId)
    && forall i, k :: 0 <= i < |s.rows| && 0 <= k < |snap| && s.rows[i].id == snap[k].id ==>
         Tracks(s.wiring, d, s.rows[i], snap[k])
  }

  /** Between fetch and send: whatever is due is in the snapshot. */
  ghost predicate FetchedInv(s: State, d: int, snap: seq<Row>) {
    && AllConvertible(snap) && SnapTracked(s, d, snap)
    && forall i :: 0 <= i < |s.rows| && Due(s, d, s.rows[i]) ==> Holds(ToSchedules(snap), s.rows[i])
  }

  /** The client being served waits, unless it has restarted since and has no answer yet. */
  ghost predicate Waits(s: State, d: int) {
    d in s.clients ==> s.clients[d].conn.Waiting? || (s.clients[d].conn.Closed? && !s.clients[d].synced)
  }

  ghost predicate PhaseInv(s: State) {
    match s.phase
    case Idle => true
    case Fetched(d, _, snap) => FetchedInv(s, d, snap) && Waits(s, d)
    case Marking(d, _, snap, _) => SnapTracked(s, d, snap)
    case Closing(_, _, _) => true
  }

  /** Holds in every reachable state, whatever is lost. */
  ghost predicate TableInv(s: State) {
    WellNumbered(s) && PhaseInv(s)
  }

  /** Every row of the snapshot from position `next` on that is still active is in the list. */
  ghost predicate HoldsSnap(s: State, snap: seq<Row>, next: nat, list: seq<Schedule>) {
    forall i, k :: 0 <= i < |s.rows| && next <= k < |snap| && s.rows[i].id == snap[k].id && s.rows[i].active ==>
      Holds(list, s.rows[i])
  }

  /** While marking for device `d`: what is still to be marked is in its client's list, or in the
      response on its way. */
  ghost predicate MarkingInv(s: State, d: int) {
    s.phase.Marking? && s.phase.device == d && d in s.clients && Settled(s.clients[d]).synced ==>
      HoldsSnap(s, s.phase.snap, s.phase.next, Settled(s.clients[d]).list)
  }

  ghost predicate ClientInv(s: State, d: int) {
    WillBeInformed(s, d) && MarkingInv(s, d)
  }

  // ---------- Each step keeps the invariant ----------

  lemma CreateKeeps(s: State, a: Action, d: int)
    requires TableInv(s) && a.WebCreate?
    ensures TableInv(After(s, a))
    ensures ClientInv(s, d) ==> ClientInv(After(s, a), d)
  {
  }

  lemma DeactivateKeeps(s: State, a: Action, d: int)
    requires TableInv(s) && a.WebDeactivate?
    ensures TableInv(After(s, a))
    ensures ClientInv(s, d) ==> ClientInv(After(s, a), d)
  {
  }

  lemma CloseKeeps(s: State, a: Action, d: int)
    requires TableInv(s) && a.CloseDeactivated? && Enabled(s, a)
    ensures TableInv(After(s, a))
    ensures ClientInv(s, d) ==> ClientInv(After(s, a), d)
  {
  }

  lemma RestartKeeps(s: State, a: Action, d: int)
    requires TableInv(s) && a.Restart? && Enabled(s, a)
    ensures TableInv(After(s, a))
    ensures ClientInv(s, d) || a.device == d ==> ClientInv(After(s, a), d)
  {
  }

  lemma InstallKeeps(s: State, a: Action, d: int)
    requires TableInv(s) && a.Install? && Enabled(s, a)
    ensures TableInv(After(s, a))
    ensures ClientInv(s, d) ==> ClientInv(After(s, a), d)
  {
  }

  lemma FetchKeeps(s: State, a: Action, d: int)
    requires TableInv(s) && a.Fetch? && Enabled(s, a)
    ensures TableInv(After(s, a))
    ensures ClientInv(s, d) ==> ClientInv(After(s, a), d)
  {
    var e, snap := a.device, a.snap;
    forall i, k | 0 <= i < |s.rows| && 0 <= k < |snap| && s.rows[i].id == snap[k].id
      ensures s.rows[i] == snap[k]
    {
      assert snap[k] in s.rows;
      var j :| 0 <= j < |s.rows| && s.rows[j] == snap[k];
    }
    forall i | 0 <= i < |s.rows| && Due(s, e, s.rows[i]) ensures Holds(ToSchedules(snap), s.rows[i]) {
      var k :| 0 <= k < |snap| && snap[k] == s.rows[i];
      assert SameSchedule(ToSchedules(snap)[k], s.rows[i]);
    }
  }

  lemma SendKeeps(s: State, a: Action, d: int)
    requires TableInv(s) && a.Send? && Enabled(s, a)
    ensures TableInv(After(s, a))
    ensures ClientInv(s, d) && !LosesResponse(s, a, d) ==> ClientInv(After(s, a), d)
  {
    var s' := After(s, a);
    var Fetched(e, kind, snap) := s.phase;
    assert s'.rows == s.rows;
    var rsp := Response(kind, snap);
    if rsp != [] {
      forall i, k | 0 <= i < |s.rows| && 0 <= k < |snap| && s.rows[i].id == snap[k].id
        ensures Holds(rsp, s.rows[i])
      {
        assert Tracks(s.wiring, e, s.rows[i], snap[k]);
        assert SameSchedule(rsp[k], s.rows[i]);
      }
    } else {
      QuietResponse(s, e, kind, snap);
    }
  }

  /** An empty response means that everything in the snapshot was sent before. */
  lemma QuietResponse(s: State, d: int, kind: Kind, snap: seq<Row>)
    requires FetchedInv(s, d, snap) && Response(kind, snap) == []
    ensures forall i, k :: 0 <= i < |s.rows| && 0 <= k < |snap| && s.rows[i].id == snap[k].id ==>
              s.rows[i].sent && Belongs(s.wiring, s.rows[i], d)
    ensures kind.GetActiveSches? ==> forall i :: 0 <= i < |s.rows| ==> !Due(s, d, s.rows[i])
  {
  }

  lemma MarkKeepsTable(s: State, a: Action)
    requires TableInv(s) && a.MarkNext? && Enabled(s, a)
    ensures TableInv(After(s, a))
  {
  }

  /** Marking makes a row due only when its client holds it already. */
  lemma MarkKeepsClient(s: State, a: Action, d: int)
    requires TableInv(s) && a.MarkNext? && Enabled(s, a) && ClientInv(s, d)
    ensures ClientInv(After(s, a), d)
  {
  }

  lemma StepKeeps(s: State, a: Action, d: int)
    requires TableInv(s) && Enabled(s, a)
    ensures TableInv(After(s, a))
    ensures a == Restart(d) || (ClientInv(s, d) && !LosesResponse(s, a, d)) ==> ClientInv(After(s, a), d)
  {
    match a
    case WebCreate(_, _, _) => CreateKeeps(s, a, d);
    case WebDeactivate(_) => DeactivateKeeps(s, a, d);
    case Restart(_) => RestartKeeps(s, a, d);
    case Fetch(_, _, _) => FetchKeeps(s, a, d);
    case Send(_) => SendKeeps(s, a, d);
    case Install(_) => InstallKeeps(s, a, d);
    case MarkNext(_) =>
      MarkKeepsTable(s, a);
      if ClientInv(s, d) {
        MarkKeepsClient(s, a, d);
      }
    case MarkStop =>
    case CloseDeactivated(_, _) => CloseKeeps(s, a, d);
  }

  /** The invariant over runs from any state that has it. */
  lemma {:induction false} RunsKeep(s: State, acts: seq<Action>, d: int)
    requires TableInv(s) && Legal(s, acts)
    ensures TableInv(Exec(s, acts))
    ensures ClientInv(s, d) && !Lost(s, acts, d) ==> ClientInv(Exec(s, acts), d)
  {
    if acts != [] {
      var past := acts[..|acts| - 1];
      RunsKeep(s, past, d);
      StepKeeps(Exec(s, past), acts[|acts| - 1], d);
    }
  }

  /** In every reachable state, with web actions between any steps and responses installed at any
      time: unless a response to the device was lost since its client started, a client that has
      been answered once and has nothing on its way holds every active and sent schedule of its
      device. Responses lost by other devices do not matter. */
  lemma ClientsAreInformed(s: State, acts: seq<Action>, d: int)
    requires Initial(s) && Legal(s, acts)
    ensures !Lost(s, acts, d) ==> WillBeInformed(Exec(s, acts), d) && Informed(Exec(s, acts), d)
  {
    RunsKeep(s, acts, d);
  }
}
