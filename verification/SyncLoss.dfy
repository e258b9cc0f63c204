/** When a lost response does harm. */
module SyncLoss {
  import opened Types
  import opened Store
  import opened Sync

  /** `t` is `s` after `n` rounds of marking: the next `n` rows of the snapshot are sent, and nothing
      else that a client must know has changed. */
  ghost predicate MarkedOn(s: State, t: State, n: nat)
    requires s.phase.Marking? && s.phase.next + n <= |s.phase.snap|
  {
    && t.clients == s.clients && t.wiring == s.wiring && t.phase == s.phase.(next := s.phase.next + n)
    && |t.rows| == |s.rows|
    && (forall i :: 0 <= i < |s.rows| ==>
          t.rows[i].(sent := true, sentOn := s.rows[i].sentOn) == s.rows[i].(sent := true))
    && (forall i, k :: 0 <= i < |s.rows| && s.phase.next <= k < s.phase.next + n ==>
          (s.rows[i].id == s.phase.snap[k].id ==> t.rows[i].sent))
  }

  lemma MarkOneMore(s: State, t: State, n: nat)
    requires s.phase.Marking? && s.phase.next + n < |s.phase.snap| && MarkedOn(s, t, n)
    ensures Enabled(t, MarkNext(0)) && MarkedOn(s, After(t, MarkNext(0)), n + 1)
  {
    var t', id := After(t, MarkNext(0)), s.phase.snap[s.phase.next + n].id;
    forall i | 0 <= i < |s.rows|
      ensures t'.rows[i] == MarkRow(t.rows[i], id, 0) && t.rows[i].id == s.rows[i].id
      ensures t'.rows[i].(sent := true, sentOn := s.rows[i].sentOn) == s.rows[i].(sent := true)
    {
      var r, r' := s.rows[i], t.rows[i];
      assert r'.(sent := true, sentOn := r.sentOn) == r.(sent := true);
      assert r'.id == r'.(sent := true, sentOn := r.sentOn).id;
    }
  }

  lemma {:induction false} MarkRun(s: State, n: nat, d: int) returns (acts: seq<Action>)
    requires s.phase.Marking? && s.phase.next + n <= |s.phase.snap|
    ensures Legal(s, acts) && !Lost(s, acts, d) && MarkedOn(s, Exec(s, acts), n)
  {
    if n == 0 {
      acts := [];
    } else {
      var past := MarkRun(s, n - 1, d);
      MarkOneMore(s, Exec(s, past), n - 1);
      acts := past + [MarkNext(0)];
      Snoc(s, past, MarkNext(0));
      assert acts[..|past|] == past;
    }
  }

  /** A response that the waiting client of device `d` does not get: every later state, up to its
      next start or loss, keeps the client informed if and only if the client already holds every
      row of the snapshot that is still active. */
  lemma LossExact(s: State, d: int)
    requires TableInv(s) && ClientInv(s, d) && s.phase.Fetched? && s.phase.device == d
    requires d in s.clients && s.clients[d].synced && s.clients[d].conn.Waiting?
    ensures var s1 := After(s, Send(false));
      (forall acts :: Legal(s1, acts) && !Lost(s1, acts, d) ==> Informed(Exec(s1, acts), d))
      <==> HoldsSnap(s, s.phase.snap, 0, s.clients[d].list)
  {
    var s1 := After(s, Send(false));
    var snap, list := s.phase.snap, s.clients[d].list;
    SendKeeps(s, Send(false), d);
    if HoldsSnap(s, snap, 0, list) {
      forall acts | Legal(s1, acts) && !Lost(s1, acts, d) ensures Informed(Exec(s1, acts), d) {
        RunsKeep(s1, acts, d);
      }
    } else {
      var i, k :| 0 <= i < |s.rows| && 0 <= k < |snap| && s.rows[i].id == snap[k].id && s.rows[i].active
                  && !Holds(list, s.rows[i]);
      var acts := MarkRun(s1, k + 1, d);
      MarkedUnheld(s, Exec(s1, acts), d, i, k);
    }
  }

  lemma MarkedUnheld(s: State, t: State, d: int, i: nat, k: nat)
    requires s.phase.Fetched? && FetchedInv(s, d, s.phase.snap) && d in s.clients && d in t.clients
    requires t.wiring == s.wiring && t.clients[d] == s.clients[d].(conn := Closed) && s.clients[d].synced
    requires i < |s.rows| && i < |t.rows| && k < |s.phase.snap| && s.rows[i].id == s.phase.snap[k].id
    requires s.rows[i].active && !Holds(s.clients[d].list, s.rows[i])
    requires t.rows[i].sent && t.rows[i].(sent := true, sentOn := s.rows[i].sentOn) == s.rows[i].(sent := true)
    ensures !Informed(t, d)
  {
    assert Tracks(s.wiring, d, s.rows[i], s.phase.snap[k]);
    assert Due(t, d, t.rows[i]);
  }

  /** The smallest case: a new schedule, a client with an empty list, one lost response. */
  lemma LossIsNotNoticed(s: State, r: Row, now: int)
    requires s.rows == [r] && r.active && !r.sent && Convertible(r) && r.id < s.nextId
    requires s.phase.Idle? && Belongs(s.wiring, r, 1) && 1 in s.clients && s.clients[1] == Client([], true, Closed)
    ensures var s1 := After(s, Fetch(1, CheckNewSches, [r]));
            var s2 := After(s1, Send(false));
            var s3 := After(s2, MarkNext(now));
      && Enabled(s, Fetch(1, CheckNewSches, [r])) && Enabled(s1, Send(false))
      && Enabled(s2, MarkNext(now)) && Enabled(s3, MarkStop)
      && After(s3, MarkStop).phase.Idle? && !Informed(After(s3, MarkStop), 1)
  {
    var s3 := After(After(After(s, Fetch(1, CheckNewSches, [r])), Send(false)), MarkNext(now));
    assert s3.rows[0] == r.(sent := true, sentOn := Some(now));
    assert Due(s3, 1, s3.rows[0]);
  }
}
