/** Exactly which rows a request marks as sent, with what time, and what else it does to the table
    (server/src/receiver/src/main.cpp, db/db.cpp). */
module SentMarks {
  import opened Types
  import opened Store

  /** `r'` is `r`, or `r` with its mark. */
  predicate Marked(r: Row, r': Row) {
    r' == r || (!r.sent && r'.sent && r' == r.(sent := true, sentOn := r'.sentOn))
  }

  ghost predicate AllMarked(rows: seq<Row>, rows': seq<Row>) {
    |rows| == |rows'| && forall i :: 0 <= i < |rows| ==> Marked(rows[i], rows'[i])
  }

  lemma MarksCompose(a: seq<Row>, b: seq<Row>, c: seq<Row>)
    requires AllMarked(a, b) && AllMarked(b, c)
    ensures AllMarked(a, c)
  {
  }

  lemma SetSentMarks(rows: seq<Row>, id: int, now: int)
    ensures AllMarked(rows, SetSent(rows, id, now))
    ensures forall i :: 0 <= i < |rows| && rows[i].id != id ==> SetSent(rows, id, now)[i] == rows[i]
    ensures forall i :: 0 <= i < |rows| && rows[i].id == id ==> SetSent(rows, id, now)[i].sent
    ensures !CanMark(rows, id) ==> SetSent(rows, id, now) == rows
  {
  }

  /** The marking loop changes marks only, only of the given ids, and marks something whenever
      there is something to mark, however early it is cut short. */
  lemma {:induction false} MarkLoopMarks(rows: seq<Row>, ids: seq<int>, extra: nat, now: int)
    ensures var rows' := MarkLoop(rows, ids, extra, now);
      && AllMarked(rows, rows')
      && (forall i :: 0 <= i < |rows| && rows[i].id !in ids ==> rows'[i] == rows[i])
      && ((exists i :: 0 <= i < |rows| && rows[i].id in ids && !rows[i].sent)
            ==> exists i :: 0 <= i < |rows| && rows[i].id in ids && !rows[i].sent && rows'[i].sent)
    decreases |ids|
  {
    if ids != [] {
      SetSentMarks(rows, ids[0], now);
      if CanMark(rows, ids[0]) {
        FirstMark(rows, ids, extra, now);
      } else {
        MarkLoopMarks(rows, ids[1..], extra, now);
        assert forall x :: x in ids <==> x == ids[0] || x in ids[1..];
      }
    }
  }

  lemma FirstMark(rows: seq<Row>, ids: seq<int>, extra: nat, now: int)
    requires ids != [] && CanMark(rows, ids[0])
    ensures var rows' := MarkLoop(rows, ids, extra, now);
      && AllMarked(rows, rows')
      && (forall i :: 0 <= i < |rows| && rows[i].id !in ids ==> rows'[i] == rows[i])
      && exists i :: 0 <= i < |rows| && rows[i].id in ids && !rows[i].sent && rows'[i].sent
    decreases |ids|, 0
  {
    var rows1 := SetSent(rows, ids[0], now);
    var rows' := MarkLoop(rows, ids, extra, now);
    SetSentMarks(rows, ids[0], now);
    if extra > 0 {
      MarkLoopMarks(rows1, ids[1..], extra - 1, now);
      MarksCompose(rows, rows1, rows');
    }
    var i :| 0 <= i < |rows| && rows[i].id == ids[0] && !rows[i].sent;
    assert rows1[i].sent && rows'[i].sent;
  }

  // ---------- Exactly which rows are marked ----------

  predicate Distinct(ids: seq<int>) {
    forall j, k :: 0 <= j < k < |ids| ==> ids[j] != ids[k]
  }

  /** How many of the ids have an unsent row. */
  function Markable(rows: seq<Row>, ids: seq<int>): nat {
    if ids == [] then 0 else (if CanMark(rows, ids[0]) then 1 else 0) + Markable(rows, ids[1..])
  }

  /** Marking one id leaves the others as markable as they were. */
  lemma {:induction false} MarkableKept(rows: seq<Row>, id: int, now: int, ids: seq<int>)
    requires id !in ids
    ensures Markable(SetSent(rows, id, now), ids) == Markable(rows, ids)
  {
    if ids != [] {
      MarkableKept(rows, id, now, ids[1..]);
      OthersStayMarkable(rows, id, now, ids[0]);
    }
  }

  lemma OthersStayMarkable(rows: seq<Row>, id: int, now: int, other: int)
    requires other != id
    ensures CanMark(SetSent(rows, id, now), other) <==> CanMark(rows, other)
  {
    var rows' := SetSent(rows, id, now);
    assert forall i :: 0 <= i < |rows| ==> rows'[i] == MarkRow(rows[i], id, now);
    if i :| 0 <= i < |rows| && rows[i].id == other && !rows[i].sent {
      assert rows'[i] == rows[i];
    }
  }

  /** An unsent row whose id is the k-th of the loop is marked, with the time, exactly if no more than
      `extra` of the ids before it had something to mark. */
  lemma {:induction false} MarkLoopExact(rows: seq<Row>, ids: seq<int>, extra: nat, now: int, i: nat, k: nat)
    requires Distinct(ids) && i < |rows| && k < |ids| && rows[i].id == ids[k] && !rows[i].sent
    ensures |MarkLoop(rows, ids, extra, now)| == |rows|
    ensures MarkLoop(rows, ids, extra, now)[i]
         == if Markable(rows, ids[..k]) <= extra then rows[i].(sent := true, sentOn := Some(now)) else rows[i]
    decreases k
  {
    var rows1 := SetSent(rows, ids[0], now);
    MarkLoopMarks(rows, ids, extra, now);
    if k == 0 {
      assert CanMark(rows, ids[0]);
      assert rows1[i] == rows[i].(sent := true, sentOn := Some(now));
      AlreadySentStays(rows1, ids[1..], extra, now, i);
    } else {
      assert rows1[i] == rows[i];
      assert ids[..k][0] == ids[0] && ids[..k][1..] == ids[1..][..k - 1];
      MarkableKept(rows, ids[0], now, ids[1..][..k - 1]);
      if !CanMark(rows, ids[0]) {
        MarkLoopExact(rows1, ids[1..], extra, now, i, k - 1);
      } else if extra > 0 {
        MarkLoopExact(rows1, ids[1..], extra - 1, now, i, k - 1);
      }
    }
  }

  lemma AlreadySentStays(rows: seq<Row>, ids: seq<int>, extra: nat, now: int, i: nat)
    requires i < |rows| && rows[i].sent
    ensures |MarkLoop(rows, ids, extra, now)| == |rows| && MarkLoop(rows, ids, extra, now)[i] == rows[i]
    ensures extra > 0 ==> |MarkLoop(rows, ids, extra - 1, now)| == |rows|
                          && MarkLoop(rows, ids, extra - 1, now)[i] == rows[i]
  {
    MarkLoopMarks(rows, ids, extra, now);
    if extra > 0 {
      MarkLoopMarks(rows, ids, extra - 1, now);
    }
  }

  // ---------- A whole request ----------

  /** A request whose fetch succeeds, whatever its kind and whether its response is sent or not: an
      unsent row of the snapshot at position `k` is marked, with the time, exactly if the database
      allows `k + 1` rounds and no more than `extra` of the rows before it were unsent. */
  lemma RequestMarksExact(kind: Kind, rows: seq<Row>, snap: seq<Row>, luck: Luck, i: nat, k: nat)
    requires Distinct(Ids(snap)) && i < |rows| && k < |snap| && rows[i].id == snap[k].id && !rows[i].sent
    ensures var marks := k < luck.rounds && Markable(rows, Ids(snap)[..k]) <= luck.extra;
      && |RowsAfter(kind, rows, snap, luck)| == |rows|
      && RowsAfter(kind, rows, snap, luck)[i].sent == marks
      && RowsAfter(kind, rows, snap, luck)[i].sentOn == if marks then Some(luck.now) else rows[i].sentOn
  {
    var ids := FirstRounds(Ids(snap), luck.rounds);
    MarkLoopMarks(rows, ids, luck.extra, luck.now);
    if k < luck.rounds {
      assert ids[..k] == Ids(snap)[..k] && ids[k] == snap[k].id;
      MarkLoopExact(rows, ids, luck.extra, luck.now, i, k);
    } else {
      forall j | 0 <= j < |ids| ensures ids[j] != rows[i].id {
        assert ids[j] == Ids(snap)[j] && Ids(snap)[k] == rows[i].id;
      }
    }
  }

  /** Only a GET_ACTIVE whose recording succeeds gives deactivation times, and it gives one to every
      inactive row without one; no request changes anything else but marks. */
  lemma RequestRecordsExact(kind: Kind, rows: seq<Row>, snap: seq<Row>, luck: Luck, i: nat)
    requires i < |rows|
    ensures |RowsAfter(kind, rows, snap, luck)| == |rows|
    ensures var r, r' := rows[i], RowsAfter(kind, rows, snap, luck)[i];
      && r'.(sent := r.sent, sentOn := r.sentOn, deactivatedOn := r.deactivatedOn) == r
      && (r.sent ==> r'.sent && r'.sentOn == r.sentOn)
      && r'.deactivatedOn == if kind.GetActiveSches? && luck.closeOk && !r.active && r.deactivatedOn.None?
                             then Some(luck.now) else r.deactivatedOn
  {
    MarkLoopMarks(rows, FirstRounds(Ids(snap), luck.rounds), luck.extra, luck.now);
    assert Marked(rows[i], MarkLoop(rows, FirstRounds(Ids(snap), luck.rounds), luck.extra, luck.now)[i]);
  }
}
