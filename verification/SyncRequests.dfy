/** The handling of a request, as the receiver's code does it, is a run of the protocol. */
module SyncRequests {
  import opened Store
  import opened Sync

  lemma {:induction false} RunConcat(s: State, a: seq<Action>, b: seq<Action>)
    ensures Exec(s, a + b) == Exec(Exec(s, a), b)
    ensures Legal(s, a + b) <==> Legal(s, a) && Legal(Exec(s, a), b)
  {
    if b == [] {
      assert a + b == a;
    } else {
      RunConcat(s, a, b[..|b| - 1]);
      assert a + b == (a + b[..|b| - 1]) + [b[|b| - 1]];
      Snoc(s, a + b[..|b| - 1], b[|b| - 1]);
    }
  }

  lemma OneStep(s: State, a: Action)
    ensures Exec(s, [a]) == After(s, a)
    ensures Legal(s, [a]) <==> Enabled(s, a)
  {
  }

  /** The marking loop up to position `end`, cut short or not, step by step. */
  lemma {:induction false} MarkLoopIsRun(s: State, end: nat, extra: nat, now: int) returns (acts: seq<Action>)
    requires s.phase.Marking? && s.phase.next <= end <= |s.phase.snap|
    ensures Legal(s, acts)
    ensures Exec(s, acts)
         == s.(rows := MarkLoop(s.rows, Ids(s.phase.snap)[s.phase.next..end], extra, now), phase := Rested(s.phase))
    decreases end - if s.phase.Marking? then s.phase.next else 0
  {
    var snap, next := s.phase.snap, s.phase.next;
    var ids := Ids(snap)[next..end];
    if next == end {
      acts := [MarkStop];
      OneStep(s, MarkStop);
    } else {
      var a := MarkNext(now);
      var s1 := After(s, a);
      OneStep(s, a);
      assert ids[0] == snap[next].id && ids[1..] == Ids(snap)[next + 1..end];
      assert s1 == s.(rows := SetSent(s.rows, ids[0], now), phase := s.phase.(next := next + 1));
      var rest: seq<Action>;
      if CanMark(s.rows, ids[0]) && extra == 0 {
        rest := [MarkStop];
        OneStep(s1, MarkStop);
      } else {
        var extra' := if CanMark(s.rows, ids[0]) then extra - 1 else extra;
        assert MarkLoop(s.rows, ids, extra, now) == MarkLoop(s1.rows, ids[1..], extra', now);
        rest := MarkLoopIsRun(s1, end, extra', now);
      }
      RunConcat(s, [a], rest);
      acts := [a] + rest;
    }
  }

  /** The client when its request has been handled and the response installed, or lost. */
  function ServedClient(c: Client, kind: Kind, snap: seq<Row>, delivered: bool): Client
    requires AllConvertible(snap)
  {
    if delivered then Client(Installed(c.list, Response(kind, snap)), c.synced || kind.GetActiveSches?, Closed) else c
  }

  /** The state then. */
  function Served(s: State, d: int, kind: Kind, snap: seq<Row>, luck: Luck, delivered: bool): State
    requires d in s.clients && AllConvertible(snap)
  {
    s.(rows := RowsAfter(kind, s.rows, snap, luck),
       clients := s.clients[d := ServedClient(s.clients[d], kind, snap, delivered)])
  }

  /** The receiver's handling of either request, whatever the database allows and whether the
      response arrives or not, is a legal run of the step-by-step protocol. */
  lemma RequestIsRun(s: State, d: int, kind: Kind, snap: seq<Row>, luck: Luck, delivered: bool)
    returns (acts: seq<Action>)
    requires Enabled(s, Fetch(d, kind, snap))
    ensures Legal(s, acts) && Exec(s, acts) == Served(s, d, kind, snap, luck, delivered)
  {
    acts := TalkIsRun(s, d, kind, snap, delivered);
    var s1 := Exec(s, acts);
    var end := if luck.rounds < |snap| then luck.rounds else |snap|;
    assert Ids(snap)[0..end] == FirstRounds(Ids(snap), luck.rounds);
    var marks := MarkLoopIsRun(s1, end, luck.extra, luck.now);
    RunConcat(s, acts, marks);
    acts := acts + marks;
    if kind.GetActiveSches? {
      var close := CloseDeactivated(luck.now, luck.closeOk);
      OneStep(Exec(s, acts), close);
      RunConcat(s, acts, [close]);
      acts := acts + [close];
    }
  }

  /** Fetch, send and, if the response arrives, install. */
  lemma TalkIsRun(s: State, d: int, kind: Kind, snap: seq<Row>, delivered: bool) returns (acts: seq<Action>)
    requires Enabled(s, Fetch(d, kind, snap))
    ensures Legal(s, acts)
    ensures Exec(s, acts)
         == s.(phase := Marking(d, kind, snap, 0),
               clients := s.clients[d := ServedClient(s.clients[d], kind, snap, delivered)])
  {
    var a1, a2, a3 := Fetch(d, kind, snap), Send(delivered), Install(d);
    var s1 := After(s, a1);
    var s2 := After(s1, a2);
    OneStep(s, a1);
    OneStep(s1, a2);
    OneStep(s2, a3);
    RunConcat(s, [a1], [a2]);
    RunConcat(s, [a1] + [a2], [a3]);
    acts := if delivered then [a1] + [a2] + [a3] else [a1] + [a2];
  }
}
