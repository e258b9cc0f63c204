/** What the end of a wait means, and that a wait ends. */
module GsmWaits {
  import opened Types
  import opened Gsm

  ghost predicate AllPossible(polls: seq<Poll>) {
    forall k :: 0 <= k < |polls| ==> Possible(polls[k])
  }

  ghost predicate NoneSeen(polls: seq<Poll>, k: nat) {
    forall j :: 0 <= j < k && j < |polls| ==> !polls[j].seen
  }

  /** Poll `f` is the first that saw a byte. */
  ghost predicate FirstSeen(polls: seq<Poll>, f: nat) {
    f < |polls| && polls[f].seen && NoneSeen(polls, f)
  }

  /** The time of the latest read among polls `f`..`k`. */
  function LastRead(polls: seq<Poll>, f: nat, k: nat): nat
    requires f <= k < |polls|
  {
    if polls[k].batch != [] || k == f then polls[k].t1 else LastRead(polls, f, k - 1)
  }

  function Batches(polls: seq<Poll>, f: nat, k: nat): seq<byte>
    requires f <= k <= |polls|
    decreases k
  {
    if k == f then [] else Batches(polls, f, k - 1) + polls[k - 1].batch
  }

  lemma {:induction false} BeforeFirstByte(t: nat, s: U16, i: U16, polls: seq<Poll>, k: nat)
    requires k <= |polls| && NoneSeen(polls, k)
    ensures RxAt(Init(t, s, i), polls, k) == Init(t, s, i)
  {
    if k > 0 {
      BeforeFirstByte(t, s, i, polls, k - 1);
    }
  }

  /** From the first byte on: the timer runs from the latest read, and every byte of every poll
      is received, in order. */
  lemma {:induction false} AfterFirstByte(t: nat, s: U16, i: U16, polls: seq<Poll>, f: nat, k: nat)
    requires AllPossible(polls) && FirstSeen(polls, f) && f < k <= |polls|
    ensures RxAt(Init(t, s, i), polls, k) == Rx(true, Millis(LastRead(polls, f, k - 1)), s, i, Batches(polls, f, k))
    ensures |Batches(polls, f, k)| > 0
  {
    if k - 1 == f {
      BeforeFirstByte(t, s, i, polls, f);
      assert Batches(polls, f, f) == [];
    } else {
      AfterFirstByte(t, s, i, polls, f, k - 1);
    }
  }

  /** The status of each poll, from the history of the line alone. */
  lemma StatusFromHistory(t: nat, s: U16, i: U16, polls: seq<Poll>, k: nat)
    requires AllPossible(polls) && k < |polls|
    ensures NoneSeen(polls, k + 1) ==>
              StatusAt(Init(t, s, i), polls, k)
              == if Elapsed(polls[k].t0, Millis(t)) >= s then TimeoutErr else NotFinished
    ensures forall f :: 0 <= f <= k && FirstSeen(polls, f) ==>
              StatusAt(Init(t, s, i), polls, k)
              == if Elapsed(polls[k].t2, Millis(LastRead(polls, f, k))) >= i then Finished else NotFinished
  {
    if NoneSeen(polls, k + 1) {
      BeforeFirstByte(t, s, i, polls, k);
    }
    forall f | 0 <= f <= k && FirstSeen(polls, f)
      ensures StatusAt(Init(t, s, i), polls, k)
              == if Elapsed(polls[k].t2, Millis(LastRead(polls, f, k))) >= i then Finished else NotFinished
    {
      if k == f {
        BeforeFirstByte(t, s, i, polls, f);
      } else {
        AfterFirstByte(t, s, i, polls, f, k);
      }
    }
  }

  lemma {:induction false} SeenOrNot(polls: seq<Poll>, n: nat) returns (f: nat)
    requires n <= |polls|
    ensures NoneSeen(polls, n) || (f < n && FirstSeen(polls, f))
  {
    f := 0;
    if n > 0 {
      f := SeenOrNot(polls, n - 1);
      if NoneSeen(polls, n - 1) && polls[n - 1].seen {
        f := n - 1;
      }
    }
  }

  /** The wait times out with poll `k` exactly if no poll so far has seen a byte and `k` is the
      first at which the start timeout has elapsed. */
  lemma TimeoutExact(t: nat, s: U16, i: U16, polls: seq<Poll>, k: nat)
    requires AllPossible(polls) && k < |polls|
    ensures (EndsAt(Init(t, s, i), polls, k) && StatusAt(Init(t, s, i), polls, k) == TimeoutErr)
            <==> (NoneSeen(polls, k + 1) && Elapsed(polls[k].t0, Millis(t)) >= s
                  && forall j :: 0 <= j < k ==> Elapsed(polls[j].t0, Millis(t)) < s)
    ensures NoneSeen(polls, k + 1) ==> RxAt(Init(t, s, i), polls, k + 1).received == []
  {
    var f := SeenOrNot(polls, k + 1);
    StatusFromHistory(t, s, i, polls, k);
    if NoneSeen(polls, k + 1) {
      BeforeFirstByte(t, s, i, polls, k + 1);
      forall j | 0 <= j < k
        ensures StatusAt(Init(t, s, i), polls, j) == NotFinished <==> Elapsed(polls[j].t0, Millis(t)) < s
      {
        StatusFromHistory(t, s, i, polls, j);
      }
    }
  }

  ghost predicate FinishesAfter(t: nat, s: U16, i: U16, polls: seq<Poll>, f: nat, k: nat)
    requires f <= k < |polls|
  {
    && (forall j :: 0 <= j < f ==> Elapsed(polls[j].t0, Millis(t)) < s)
    && (forall j :: f <= j < k ==> Elapsed(polls[j].t2, Millis(LastRead(polls, f, j))) < i)
    && Elapsed(polls[k].t2, Millis(LastRead(polls, f, k))) >= i
  }

  lemma NotYetFinished(t: nat, s: U16, i: U16, polls: seq<Poll>, f: nat, k: nat)
    requires AllPossible(polls) && FirstSeen(polls, f) && f <= k < |polls|
    ensures (forall j :: 0 <= j < k ==> StatusAt(Init(t, s, i), polls, j) == NotFinished)
            <==> (forall j :: 0 <= j < f ==> Elapsed(polls[j].t0, Millis(t)) < s)
                 && (forall j :: f <= j < k ==> Elapsed(polls[j].t2, Millis(LastRead(polls, f, j))) < i)
  {
    forall j | 0 <= j < k
      ensures StatusAt(Init(t, s, i), polls, j) == NotFinished
              <==> if j < f then Elapsed(polls[j].t0, Millis(t)) < s
                   else Elapsed(polls[j].t2, Millis(LastRead(polls, f, j))) < i
    {
      StatusFromHistory(t, s, i, polls, j);
    }
  }

  /** The wait finishes with poll `k` exactly if a byte was seen before the start timeout elapsed
      and `k` is the first poll from there on at which the inter-character timeout has passed
      since the latest read; something has then been received. */
  lemma FinishedExact(t: nat, s: U16, i: U16, polls: seq<Poll>, k: nat)
    requires AllPossible(polls) && k < |polls|
    ensures (EndsAt(Init(t, s, i), polls, k) && StatusAt(Init(t, s, i), polls, k) == Finished)
            <==> exists f :: 0 <= f <= k && FirstSeen(polls, f) && FinishesAfter(t, s, i, polls, f, k)
    ensures forall f :: 0 <= f <= k && FirstSeen(polls, f) ==>
              |RxAt(Init(t, s, i), polls, k + 1).received| > 0
              && RxAt(Init(t, s, i), polls, k + 1).received == Batches(polls, f, k + 1)
  {
    var f := SeenOrNot(polls, k + 1);
    StatusFromHistory(t, s, i, polls, k);
    if FirstSeen(polls, f) && f <= k {
      AfterFirstByte(t, s, i, polls, f, k + 1);
      NotYetFinished(t, s, i, polls, f, k);
      assert forall g :: 0 <= g <= k && FirstSeen(polls, g) ==> g == f;
    }
  }

  // ---------- True time ----------

  /** Within one turn of the counter the wrapping difference is the true one. */
  lemma ElapsedIsTrue(a: nat, b: nat)
    requires a <= b < a + 0x1_0000_0000
    ensures Elapsed(b, Millis(a)) == b - a
  {
    var q, r := a / WRAP, a % WRAP;
    var q', r' := b / WRAP, b % WRAP;
    assert a == q * WRAP + r && b == q' * WRAP + r';
    if q' == q {
      assert r' - r == b - a;
    } else {
      assert q' == q + 1;
      assert r' - r == b - a - WRAP;
    }
  }

  const MAX_GAP := 0xFFFF_0000

  /** The clock does not run backwards, and no two neighbouring polls are weeks apart. Any number of
      polls may fall into one millisecond. */
  ghost predicate Paced(t: nat, polls: seq<Poll>) {
    && AllPossible(polls)
    && (polls != [] ==> t <= polls[0].t0 && polls[0].t2 < t + MAX_GAP)
    && forall k :: 0 < k < |polls| ==> polls[k - 1].t2 <= polls[k].t0 && polls[k].t2 < polls[k - 1].t0 + MAX_GAP
  }

  lemma {:induction false} StartIsPast(t: nat, polls: seq<Poll>, k: nat)
    requires Paced(t, polls) && k < |polls|
    ensures t <= polls[k].t0
  {
    if k > 0 {
      StartIsPast(t, polls, k - 1);
    }
  }

  lemma {:induction false} LastReadIsPast(t: nat, polls: seq<Poll>, f: nat, k: nat)
    requires Paced(t, polls) && f <= k < |polls|
    ensures LastRead(polls, f, k) <= polls[k].t2
  {
    if polls[k].batch == [] && k > f {
      LastReadIsPast(t, polls, f, k - 1);
    }
  }

  /** As long as the start timeout has not elapsed, the code's test tells the true time. */
  lemma StartTimer(t: nat, s: U16, polls: seq<Poll>, k: nat)
    requires Paced(t, polls) && k < |polls| && (k > 0 ==> polls[k - 1].t0 - t < s)
    ensures Elapsed(polls[k].t0, Millis(t)) == polls[k].t0 - t
  {
    StartIsPast(t, polls, k);
    ElapsedIsTrue(t, polls[k].t0);
  }

  /** Likewise for the inter-character timeout. */
  lemma CharacterTimer(t: nat, i: U16, polls: seq<Poll>, f: nat, k: nat)
    requires Paced(t, polls) && f <= k < |polls|
    requires k > f ==> polls[k - 1].t2 - LastRead(polls, f, k - 1) < i
    ensures Elapsed(polls[k].t2, Millis(LastRead(polls, f, k))) == polls[k].t2 - LastRead(polls, f, k)
  {
    LastReadIsPast(t, polls, f, k);
    assert Possible(polls[k]) && (k > 0 ==> Possible(polls[k - 1]));
    assert polls[k].t2 < polls[k].t0 + MAX_GAP;
    ElapsedIsTrue(LastRead(polls, f, k), polls[k].t2);
  }

  lemma {:induction false} StartTimers(t: nat, s: U16, polls: seq<Poll>, k: nat)
    requires Paced(t, polls) && k < |polls|
    ensures (forall j :: 0 <= j < k ==> Elapsed(polls[j].t0, Millis(t)) < s)
            <==> (forall j :: 0 <= j < k ==> polls[j].t0 - t < s)
    ensures (forall j :: 0 <= j < k ==> polls[j].t0 - t < s) ==>
              Elapsed(polls[k].t0, Millis(t)) == polls[k].t0 - t
  {
    if k > 0 {
      StartTimers(t, s, polls, k - 1);
    }
    if forall j :: 0 <= j < k ==> polls[j].t0 - t < s {
      StartTimer(t, s, polls, k);
    }
  }

  lemma {:induction false} CharacterTimers(t: nat, i: U16, polls: seq<Poll>, f: nat, k: nat)
    requires Paced(t, polls) && f <= k < |polls|
    ensures (forall j :: f <= j < k ==> Elapsed(polls[j].t2, Millis(LastRead(polls, f, j))) < i)
            <==> (forall j :: f <= j < k ==> polls[j].t2 - LastRead(polls, f, j) < i)
    ensures (forall j :: f <= j < k ==> polls[j].t2 - LastRead(polls, f, j) < i) ==>
              Elapsed(polls[k].t2, Millis(LastRead(polls, f, k))) == polls[k].t2 - LastRead(polls, f, k)
  {
    if k > f {
      CharacterTimers(t, i, polls, f, k - 1);
    }
    if forall j :: f <= j < k ==> polls[j].t2 - LastRead(polls, f, j) < i {
      CharacterTimer(t, i, polls, f, k);
    }
  }

  /** TimeoutExact in true milliseconds, wherever the counter wraps. */
  lemma TimeoutInTrueTime(t: nat, s: U16, i: U16, polls: seq<Poll>, k: nat)
    requires Paced(t, polls) && k < |polls|
    ensures (EndsAt(Init(t, s, i), polls, k) && StatusAt(Init(t, s, i), polls, k) == TimeoutErr)
            <==> (NoneSeen(polls, k + 1) && polls[k].t0 >= t + s
                  && forall j :: 0 <= j < k ==> polls[j].t0 < t + s)
  {
    TimeoutExact(t, s, i, polls, k);
    StartTimers(t, s, polls, k);
  }

  ghost predicate FinishesAt(t: nat, s: U16, i: U16, polls: seq<Poll>, f: nat, k: nat)
    requires f <= k < |polls|
  {
    && (forall j :: 0 <= j < f ==> polls[j].t0 < t + s)
    && (forall j :: f <= j < k ==> polls[j].t2 < LastRead(polls, f, j) + i)
    && polls[k].t2 >= LastRead(polls, f, k) + i
  }

  /** FinishedExact in true milliseconds. */
  lemma FinishedInTrueTime(t: nat, s: U16, i: U16, polls: seq<Poll>, k: nat)
    requires Paced(t, polls) && k < |polls|
    ensures (EndsAt(Init(t, s, i), polls, k) && StatusAt(Init(t, s, i), polls, k) == Finished)
            <==> exists f :: 0 <= f <= k && FirstSeen(polls, f) && FinishesAt(t, s, i, polls, f, k)
  {
    FinishedExact(t, s, i, polls, k);
    forall f | 0 <= f <= k && FirstSeen(polls, f)
      ensures FinishesAt(t, s, i, polls, f, k) <==> FinishesAfter(t, s, i, polls, f, k)
    {
      StartTimers(t, s, polls, f);
      CharacterTimers(t, i, polls, f, k);
    }
  }

  // ---------- Termination ----------

  /** While no poll has ended the wait and none has seen a byte, the start timeout is running. */
  lemma {:induction false} WaitingForFirst(t: nat, s: U16, i: U16, polls: seq<Poll>, k: nat)
    requires Paced(t, polls) && k < |polls| && NoneSeen(polls, k + 1)
    requires forall j :: 0 <= j <= k ==> StatusAt(Init(t, s, i), polls, j) == NotFinished
    ensures t <= polls[k].t0 < t + s
  {
    if k > 0 {
      WaitingForFirst(t, s, i, polls, k - 1);
    }
    StartTimer(t, s, polls, k);
    StartIsPast(t, polls, k);
    StatusFromHistory(t, s, i, polls, k);
  }

  /** After the first byte, while no poll has ended the wait, the inter-character timeout is. */
  lemma {:induction false} WaitingForMore(t: nat, s: U16, i: U16, polls: seq<Poll>, f: nat, k: nat)
    requires Paced(t, polls) && FirstSeen(polls, f) && f <= k < |polls|
    requires forall j :: 0 <= j <= k ==> StatusAt(Init(t, s, i), polls, j) == NotFinished
    ensures LastRead(polls, f, k) <= polls[k].t2 < LastRead(polls, f, k) + i
  {
    if k > f {
      WaitingForMore(t, s, i, polls, f, k - 1);
    }
    CharacterTimer(t, i, polls, f, k);
    LastReadIsPast(t, polls, f, k);
    StatusFromHistory(t, s, i, polls, k);
  }

  /** The wait has ended, at the latest, with a poll at which the start timeout has elapsed and no
      byte was ever seen, or at which the inter-character timeout has passed since the latest read:
      however many polls fall into a millisecond, and wherever the 32-bit counter wraps. So with
      finitely many bytes and a clock that goes on, WaitResp returns. */
  lemma WaitEnds(t: nat, s: U16, i: U16, polls: seq<Poll>, k: nat)
    requires Paced(t, polls) && k < |polls|
    requires NoneSeen(polls, k + 1) ==> polls[k].t0 >= t + s
    requires forall f :: 0 <= f <= k && FirstSeen(polls, f) ==> polls[k].t2 >= LastRead(polls, f, k) + i
    ensures exists j :: 0 <= j <= k && EndsAt(Init(t, s, i), polls, j)
  {
    if exists j :: 0 <= j < k + 1 && StatusAt(Init(t, s, i), polls, j) != NotFinished {
      var j := FirstNot(Init(t, s, i), polls, k + 1);
      assert EndsAt(Init(t, s, i), polls, j);
    } else {
      var f := SeenOrNot(polls, k + 1);
      if NoneSeen(polls, k + 1) {
        WaitingForFirst(t, s, i, polls, k);
      } else {
        WaitingForMore(t, s, i, polls, f, k);
      }
      assert false;
    }
  }

  // ---------- A bound on the number of polls ----------

  /** Every poll comes at a later millisecond than the one before. */
  ghost predicate Strict(polls: seq<Poll>) {
    forall k :: 0 < k < |polls| ==> polls[k - 1].t2 < polls[k].t0
  }

  function TotalBytes(polls: seq<Poll>): nat {
    if polls == [] then 0 else TotalBytes(polls[..|polls| - 1]) + |polls[|polls| - 1].batch|
  }

  lemma {:induction false} PollsTakeTime(t: nat, polls: seq<Poll>, k: nat)
    requires Paced(t, polls) && Strict(polls) && k < |polls|
    ensures t + k <= polls[k].t0
  {
    if k > 0 {
      PollsTakeTime(t, polls, k - 1);
    }
  }

  /** Every poll after the first byte that has not ended the wait uses up a byte or a millisecond of
      the inter-character timeout. */
  lemma {:induction false} PollsUseUp(t: nat, s: U16, i: U16, polls: seq<Poll>, f: nat, k: nat)
    requires Paced(t, polls) && Strict(polls) && FirstSeen(polls, f) && f <= k < |polls|
    requires forall j :: 0 <= j <= k ==> StatusAt(Init(t, s, i), polls, j) == NotFinished
    ensures k <= s + i * (|Batches(polls, f, k + 1)| - 1) + (polls[k].t2 - LastRead(polls, f, k))
  {
    var n0 := |Batches(polls, f, k)|;
    assert |Batches(polls, f, k + 1)| == n0 + |polls[k].batch|;
    WaitingForMore(t, s, i, polls, f, k);
    if k == f {
      if f > 0 {
        WaitingForFirst(t, s, i, polls, f - 1);
        PollsTakeTime(t, polls, f - 1);
      }
      assert Batches(polls, f, f) == [];
      MoreBytes(i, 0, |polls[k].batch| - 1);
    } else {
      PollsUseUp(t, s, i, polls, f, k - 1);
      WaitingForMore(t, s, i, polls, f, k - 1);
      assert n0 > 0 by { AfterFirstByte(t, s, i, polls, f, k); }
      if polls[k].batch != [] {
        MoreBytes(i, n0, n0 + |polls[k].batch| - 1);
      }
    }
  }

  lemma MoreBytes(i: nat, a: nat, b: nat)
    requires a <= b
    ensures i * a <= i * b
    ensures i * (a - 1) + i == i * a
  {
    assert i * b == i * a + i * (b - a);
  }

  lemma {:induction false} BatchesBounded(polls: seq<Poll>, f: nat, k: nat)
    requires f <= k <= |polls|
    ensures |Batches(polls, f, k)| <= TotalBytes(polls[..k])
    decreases k
  {
    if k > f {
      BatchesBounded(polls, f, k - 1);
      assert polls[..k][..k - 1] == polls[..k - 1];
    }
  }

  /** With polls at different milliseconds the wait ends within `start timeout + inter-character
      timeout * bytes + 1` of them. */
  lemma WaitEndsWithinPolls(t: nat, s: U16, i: U16, polls: seq<Poll>)
    requires Paced(t, polls) && Strict(polls) && |polls| > s + i * TotalBytes(polls)
    ensures Ends(Init(t, s, i), polls)
  {
    if j :| 0 <= j < |polls| && StatusAt(Init(t, s, i), polls, j) != NotFinished {
      var k := FirstNot(Init(t, s, i), polls, |polls|);
    } else {
      PollsBounded(t, s, i, polls);
      assert false;
    }
  }

  lemma PollsBounded(t: nat, s: U16, i: U16, polls: seq<Poll>)
    requires Paced(t, polls) && Strict(polls)
    requires forall j :: 0 <= j < |polls| ==> StatusAt(Init(t, s, i), polls, j) == NotFinished
    ensures |polls| <= s + i * TotalBytes(polls)
  {
    var f := SeenOrNot(polls, |polls|);
    if polls == [] || NoneSeen(polls, |polls|) {
      NonNegative(s, i, TotalBytes(polls));
      if polls != [] {
        WaitingForFirst(t, s, i, polls, |polls| - 1);
        PollsTakeTime(t, polls, |polls| - 1);
      }
    } else {
      AllPollsBounded(t, s, i, polls, f);
      BatchesBounded(polls, f, |polls|);
      assert polls[..|polls|] == polls;
      MoreBytes(i, |Batches(polls, f, |polls|)|, TotalBytes(polls));
    }
  }

  lemma AllPollsBounded(t: nat, s: U16, i: U16, polls: seq<Poll>, f: nat)
    requires Paced(t, polls) && Strict(polls) && FirstSeen(polls, f)
    requires forall j :: 0 <= j < |polls| ==> StatusAt(Init(t, s, i), polls, j) == NotFinished
    ensures |polls| <= s + i * |Batches(polls, f, |polls|)|
  {
    var k := |polls| - 1;
    PollsUseUp(t, s, i, polls, f, k);
    WaitingForMore(t, s, i, polls, f, k);
    AddUp(k, s, i, |Batches(polls, f, k + 1)|, polls[k].t2 - LastRead(polls, f, k));
  }

  lemma NonNegative(s: nat, i: nat, n: nat)
    ensures s <= s + i * n
  {
  }

  lemma AddUp(k: nat, s: nat, i: nat, bytes: nat, e: nat)
    requires k <= s + i * (bytes - 1) + e && e < i
    ensures k + 1 <= s + i * bytes
  {
    MoreBytes(i, bytes, bytes);
  }

  lemma {:induction false} FirstNot(rx: Rx, polls: seq<Poll>, n: nat) returns (k: nat)
    requires n <= |polls| && exists j :: 0 <= j < n && StatusAt(rx, polls, j) != NotFinished
    ensures EndsAt(rx, polls, k)
  {
    if j :| 0 <= j < n - 1 && StatusAt(rx, polls, j) != NotFinished {
      k := FirstNot(rx, polls, n - 1);
    } else {
      k := n - 1;
    }
  }
}
