/** The receive automaton of the modem library and the command loop on top of it
    (GSMSHIELD/GSM.cpp).

    One call of IsRxFinished is one poll. What the modem and the clock do during the poll is an
    input: `Poll`. Times are true milliseconds; the code sees them through `Millis`, a 32-bit
    counter that wraps. */
module Gsm {
  import opened Types

  const COMM_BUF_LEN := 200
  const WRAP := 0x1_0000_0000

  /** The value of millis() at true time `t`. */
  function Millis(t: nat): nat {
    t % WRAP
  }

  /** The unsigned 32-bit difference `millis() - prev`. */
  function Elapsed(t: nat, prev: nat): nat {
    (Millis(t) - prev) % WRAP
  }

  /** `seen`: the first available() found a byte (asked only before reception has started).
      `batch`: the bytes that the second available() found. `t0`, `t1`, `t2`: the times of the
      up to three calls of millis(), in order. */
  datatype Poll = Poll(seen: bool, batch: seq<byte>, t0: nat, t1: nat, t2: nat)

  datatype Status = NotFinished | Finished | TimeoutErr

  /** num_of_bytes is one byte wide; bytes that were seen are still there when they are read. */
  predicate Possible(p: Poll) {
    |p.batch| < 0x100 && (p.seen ==> p.batch != []) && p.t0 <= p.t1 <= p.t2
  }

  /** The automaton: `prev` is the stored counter value, `received` every byte read since RxInit. */
  datatype Rx = Rx(started: bool, prev: nat, startTmout: U16, interTmout: U16, received: seq<byte>)

  function Init(t: nat, startTmout: U16, interTmout: U16): Rx {
    Rx(false, Millis(t), startTmout, interTmout, [])
  }

  function NextRx(rx: Rx, p: Poll): Rx {
    if !rx.started && !p.seen then rx
    else
      var prev := if rx.started then rx.prev else Millis(p.t0);
      Rx(true, if p.batch != [] then Millis(p.t1) else prev, rx.startTmout, rx.interTmout, rx.received + p.batch)
  }

  function StatusOf(rx: Rx, p: Poll): Status {
    if !rx.started && !p.seen then
      if Elapsed(p.t0, rx.prev) >= rx.startTmout then TimeoutErr else NotFinished
    else if Elapsed(p.t2, NextRx(rx, p).prev) >= rx.interTmout then Finished
    else NotFinished
  }

  /** The automaton before poll `k`. */
  function RxAt(rx: Rx, polls: seq<Poll>, k: nat): Rx
    requires k <= |polls|
  {
    if k == 0 then rx else NextRx(RxAt(rx, polls, k - 1), polls[k - 1])
  }

  function StatusAt(rx: Rx, polls: seq<Poll>, k: nat): Status
    requires k < |polls|
  {
    StatusOf(RxAt(rx, polls, k), polls[k])
  }

  /** Poll `k` is the one that ends the wait. */
  predicate EndsAt(rx: Rx, polls: seq<Poll>, k: nat) {
    && k < |polls| && StatusAt(rx, polls, k) != NotFinished
    && forall j :: 0 <= j < k ==> StatusAt(rx, polls, j) == NotFinished
  }

  predicate Ends(rx: Rx, polls: seq<Poll>) {
    exists k :: 0 <= k < |polls| && EndsAt(rx, polls, k)
  }

  // ---------- Strings ----------

  /** A C string: what stands before the first NUL. */
  function CString(s: seq<byte>): (r: seq<byte>)
    ensures r <= s && 0 !in r && (r == s || s[|r|] == 0)
  {
    if s == [] || s[0] == 0 then [] else [s[0]] + CString(s[1..])
  }

  /** strstr. */
  predicate Contains(hay: seq<byte>, needle: seq<byte>) {
    exists i :: 0 <= i <= |hay| && OccursAt(hay, needle, i)
  }

  predicate OccursAt(hay: seq<byte>, needle: seq<byte>, i: nat) {
    i + |needle| <= |hay| && hay[i..i + |needle|] == needle
  }

  function FirstN(s: seq<byte>, n: nat): seq<byte> {
    if |s| <= n then s else s[..n]
  }

  /** The text stands at position `i` of the bytes received, within the first 200 and before any NUL. */
  predicate TextAt(received: seq<byte>, text: seq<byte>, i: nat) {
    && i + |text| <= 200 && i + |text| <= |received|
    && received[i..i + |text|] == text && forall p :: 0 <= p < i + |text| ==> received[p] != 0
  }

  predicate TextReceived(received: seq<byte>, text: seq<byte>) {
    received != [] && exists i :: 0 <= i <= 200 && TextAt(received, text, i)
  }

  /** strstr in the buffer finds exactly that. */
  lemma StrstrExact(received: seq<byte>, text: seq<byte>)
    requires received != []
    ensures Contains(CString(FirstN(received, COMM_BUF_LEN)), text) <==> TextReceived(received, text)
  {
    var kept := FirstN(received, COMM_BUF_LEN);
    var hay := CString(kept);
    assert forall p :: 0 <= p < |hay| ==> received[p] == kept[p] == hay[p] && hay[p] in hay;
    if i :| 0 <= i <= |hay| && OccursAt(hay, text, i) {
      assert received[i..i + |text|] == hay[i..i + |text|];
      assert TextAt(received, text, i);
    }
    if i :| 0 <= i <= 200 && TextAt(received, text, i) {
      assert hay == kept || received[|hay|] == 0;
      assert i + |text| <= |hay|;
      assert hay[i..i + |text|] == received[i..i + |text|];
      assert OccursAt(hay, text, i);
    }
  }

  lemma {:induction false} CStringStopsAtNul(s: seq<byte>, tail: seq<byte>)
    ensures CString(s + [0] + tail) == CString(s)
  {
    if s == [] {
      assert ([] + [0] + tail)[0] == 0;
    } else {
      assert (s + [0] + tail)[1..] == s[1..] + [0] + tail;
      CStringStopsAtNul(s[1..], tail);
    }
  }

  // ---------- The code ----------

  datatype Attempt = Attempt(t: nat, polls: seq<Poll>)

  datatype Response = Ok | DifResp | NoResp

  /** The wait of the attempt comes to an end within its polls. */
  predicate Completes(a: Attempt, startTmout: U16, interTmout: U16) {
    && (forall k :: 0 <= k < |a.polls| ==> Possible(a.polls[k]))
    && Ends(Init(a.t, startTmout, interTmout), a.polls)
  }

  /** The outcome of the attempt when its wait ends with poll `k`. */
  function OutcomeAt(a: Attempt, startTmout: U16, interTmout: U16, text: seq<byte>, k: nat): Response
    requires k < |a.polls|
  {
    var rx := Init(a.t, startTmout, interTmout);
    if StatusAt(rx, a.polls, k) != Finished then NoResp
    else if TextReceived(RxAt(rx, a.polls, k + 1).received, text) then Ok
    else DifResp
  }

  ghost function Outcome(a: Attempt, startTmout: U16, interTmout: U16, text: seq<byte>): Response
    requires Completes(a, startTmout, interTmout)
  {
    var k :| 0 <= k < |a.polls| && EndsAt(Init(a.t, startTmout, interTmout), a.polls, k);
    OutcomeAt(a, startTmout, interTmout, text, k)
  }

  lemma OutcomeIs(a: Attempt, startTmout: U16, interTmout: U16, text: seq<byte>, k: nat)
    requires Completes(a, startTmout, interTmout) && EndsAt(Init(a.t, startTmout, interTmout), a.polls, k)
    ensures Outcome(a, startTmout, interTmout, text) == OutcomeAt(a, startTmout, interTmout, text, k)
  {
  }

  /** The wait ends with a finished reception in which the text stands. */
  ghost predicate Succeeds(a: Attempt, startTmout: U16, interTmout: U16, text: seq<byte>) {
    exists k :: 0 <= k < |a.polls| && SucceedsAt(a, startTmout, interTmout, text, k)
  }

  ghost predicate SucceedsAt(a: Attempt, startTmout: U16, interTmout: U16, text: seq<byte>, k: nat) {
    var rx := Init(a.t, startTmout, interTmout);
    && EndsAt(rx, a.polls, k) && StatusAt(rx, a.polls, k) == Finished
    && TextReceived(RxAt(rx, a.polls, k + 1).received, text)
  }

  /** The wait ends without a byte received. */
  ghost predicate TimesOut(a: Attempt, startTmout: U16, interTmout: U16) {
    var rx := Init(a.t, startTmout, interTmout);
    exists k :: 0 <= k < |a.polls| && EndsAt(rx, a.polls, k) && StatusAt(rx, a.polls, k) == TimeoutErr
  }

  /** Which outcome an attempt has: no response if its wait times out, OK if the text was received,
      a different response otherwise. */
  lemma OutcomeExact(a: Attempt, startTmout: U16, interTmout: U16, text: seq<byte>)
    requires Completes(a, startTmout, interTmout)
    ensures Outcome(a, startTmout, interTmout, text) == NoResp <==> TimesOut(a, startTmout, interTmout)
    ensures Outcome(a, startTmout, interTmout, text) == Ok <==> Succeeds(a, startTmout, interTmout, text)
  {
    var rx := Init(a.t, startTmout, interTmout);
    var k :| 0 <= k < |a.polls| && EndsAt(rx, a.polls, k);
    OutcomeIs(a, startTmout, interTmout, text, k);
    assert forall j :: 0 <= j < |a.polls| && EndsAt(rx, a.polls, j) ==> j == k;
    if OutcomeAt(a, startTmout, interTmout, text, k) == Ok {
      assert SucceedsAt(a, startTmout, interTmout, text, k);
    }
  }

  ghost function Outcomes(attempts: seq<Attempt>, startTmout: U16, interTmout: U16, text: seq<byte>): (r: seq<Response>)
    requires forall k :: 0 <= k < |attempts| ==> Completes(attempts[k], startTmout, interTmout)
    ensures |r| == |attempts|
  {
    if attempts == [] then []
    else Outcomes(attempts[..|attempts| - 1], startTmout, interTmout, text)
         + [Outcome(attempts[|attempts| - 1], startTmout, interTmout, text)]
  }

  lemma {:induction false} OutcomesAt(attempts: seq<Attempt>, startTmout: U16, interTmout: U16, text: seq<byte>, k: nat)
    requires k < |attempts| && forall j :: 0 <= j < |attempts| ==> Completes(attempts[j], startTmout, interTmout)
    ensures Outcomes(attempts, startTmout, interTmout, text)[k] == Outcome(attempts[k], startTmout, interTmout, text)
  {
    if k < |attempts| - 1 {
      OutcomesAt(attempts[..|attempts| - 1], startTmout, interTmout, text, k);
    }
  }

  /** The result is OK exactly if some attempt succeeds; the commands sent end with the first
      attempt that does; otherwise every attempt is made and the last one's outcome reported. */
  ghost predicate Reported(outcomes: seq<Response>, retVal: Response, commands: nat) {
    && commands <= |outcomes|
    && (retVal == Ok <==> Ok in outcomes)
    && (retVal == Ok ==> 0 < commands && outcomes[commands - 1] == Ok)
    && (retVal == Ok ==> forall k :: 0 <= k < commands - 1 ==> outcomes[k] != Ok)
    && (retVal != Ok ==>
          && commands == |outcomes|
          && retVal == if outcomes == [] then NoResp else outcomes[|outcomes| - 1])
  }

  /** The same told by the replies: OK exactly if some attempt succeeds, and then with the first that
      does; otherwise all are made, and the last one decides between silence and another answer. */
  ghost predicate Answers(attempts: seq<Attempt>, startTmout: U16, interTmout: U16, text: seq<byte>,
                          retVal: Response, commands: nat) {
    && commands <= |attempts|
    && (retVal == Ok <==> exists n :: 0 <= n < |attempts| && Succeeds(attempts[n], startTmout, interTmout, text))
    && (retVal == Ok ==> 0 < commands && Succeeds(attempts[commands - 1], startTmout, interTmout, text))
    && (retVal == Ok ==>
          forall n :: 0 <= n < commands - 1 ==> !Succeeds(attempts[n], startTmout, interTmout, text))
    && (retVal != Ok ==>
          && commands == |attempts|
          && (retVal == NoResp <==>
                attempts == [] || TimesOut(attempts[|attempts| - 1], startTmout, interTmout)))
  }

  lemma ReportedAnswers(attempts: seq<Attempt>, startTmout: U16, interTmout: U16, text: seq<byte>,
                        retVal: Response, commands: nat)
    requires forall k :: 0 <= k < |attempts| ==> Completes(attempts[k], startTmout, interTmout)
    requires Reported(Outcomes(attempts, startTmout, interTmout, text), retVal, commands)
    ensures Answers(attempts, startTmout, interTmout, text, retVal, commands)
  {
    var outcomes := Outcomes(attempts, startTmout, interTmout, text);
    forall n | 0 <= n < |attempts|
      ensures outcomes[n] == Ok <==> Succeeds(attempts[n], startTmout, interTmout, text)
      ensures outcomes[n] == NoResp <==> TimesOut(attempts[n], startTmout, interTmout)
    {
      OutcomesAt(attempts, startTmout, interTmout, text, n);
      OutcomeExact(attempts[n], startTmout, interTmout, text);
    }
  }

  /** What the wait of `drain` received. */
  ghost predicate DrainedBy(drain: Attempt, received: seq<byte>) {
    var rx := Init(drain.t, 1000, 5000);
    exists k :: 0 <= k < |drain.polls| && EndsAt(rx, drain.polls, k)
                && received == RxAt(rx, drain.polls, k + 1).received
  }

  /** For the same replies there is only one report, so both overloads agree. */
  lemma ReportsAgree(outcomes: seq<Response>, r1: Response, c1: nat, r2: Response, c2: nat)
    requires Reported(outcomes, r1, c1) && Reported(outcomes, r2, c2)
    ensures r1 == r2 && c1 == c2
  {
  }

  class Modem {
    const commBuf: array<byte>
    var pCommBuf: nat          // index in commBuf of the next byte
    var commBufLen: nat
    var rxStarted: bool
    var startReceptionTmout: U16
    var intercharTmout: U16
    var prevTime: nat
    ghost var received: seq<byte>

    constructor ()
      ensures Valid() && fresh(commBuf)
    {
      commBuf := new byte[COMM_BUF_LEN + 1](_ => 0);
      pCommBuf, commBufLen, rxStarted := 0, 0, false;
      startReceptionTmout, intercharTmout, prevTime := 0, 0, 0;
      received := [];
    }

    /** The buffer holds exactly the first 200 of the bytes received, ends in NUL, and the next
        byte goes where the text ends. */
    ghost predicate Valid()
      reads this, commBuf
    {
      && commBuf.Length == COMM_BUF_LEN + 1
      && commBufLen == |FirstN(received, COMM_BUF_LEN)| && pCommBuf == commBufLen
      && commBuf[..commBufLen] == FirstN(received, COMM_BUF_LEN)
      && commBuf[commBufLen] == 0
    }

    ghost function View(): Rx
      reads this
    {
      Rx(rxStarted, prevTime, startReceptionTmout, intercharTmout, received)
    }

    method RxInit(t: nat, startCommTmout: U16, maxIntercharTmout: U16)
      requires commBuf.Length == COMM_BUF_LEN + 1
      modifies this, commBuf
      ensures Valid() && View() == Init(t, startCommTmout, maxIntercharTmout)
    {
      rxStarted := false;
      startReceptionTmout, intercharTmout := startCommTmout, maxIntercharTmout;
      prevTime := Millis(t);
      commBuf[0] := 0;
      pCommBuf, commBufLen := 0, 0;
      received := [];
    }

    /** One byte read from the serial buffer: stored while there is room, else dropped. */
    method StoreByte(b: byte)
      requires Valid()
      modifies this`pCommBuf, this`commBufLen, this`received, commBuf
      ensures Valid() && received == old(received) + [b]
    {
      ghost var before := received;
      if commBufLen < COMM_BUF_LEN {
        assert before == FirstN(before, COMM_BUF_LEN);
        commBuf[pCommBuf] := b;
        pCommBuf := pCommBuf + 1;
        commBufLen := commBufLen + 1;
        commBuf[commBufLen] := 0;
        assert commBuf[..commBufLen] == before + [b];
      }
      received := received + [b];
      assert |before| >= COMM_BUF_LEN ==>
          received[..COMM_BUF_LEN] == before[..COMM_BUF_LEN] == FirstN(before, COMM_BUF_LEN);
      assert |before| < COMM_BUF_LEN ==> FirstN(received, COMM_BUF_LEN) == received;
    }

    method IsRxFinished(p: Poll) returns (status: Status)
      requires Valid() && Possible(p)
      modifies this`pCommBuf, this`commBufLen, this`rxStarted, this`prevTime, this`received, commBuf
      ensures Valid() && View() == NextRx(old(View()), p)
      ensures status == StatusOf(old(View()), p)
    {
      status := NotFinished;
      if !rxStarted {
        if !p.seen {
          if Elapsed(p.t0, prevTime) >= startReceptionTmout {
            commBuf[commBufLen] := 0;
            status := TimeoutErr;
          }
        } else {
          prevTime := Millis(p.t0);
          rxStarted := true;
        }
      }
      if rxStarted {
        var numOfBytes := |p.batch|;
        if numOfBytes != 0 {
          prevTime := Millis(p.t1);
        }
        ghost var prev := prevTime;
        while numOfBytes != 0
          invariant rxStarted && prevTime == prev
          invariant 0 <= numOfBytes <= |p.batch|
          invariant Valid() && received == old(received) + p.batch[..|p.batch| - numOfBytes]
        {
          numOfBytes := numOfBytes - 1;
          StoreByte(p.batch[|p.batch| - numOfBytes - 1]);
        }
        assert p.batch[..|p.batch|] == p.batch && received == old(received) + p.batch;
        if Elapsed(p.t2, prevTime) >= intercharTmout {
          commBuf[commBufLen] := 0;
          status := Finished;
        }
      }
    }

    /** Polls until the automaton ends. `used` counts the polls; NotFinished means that it is
        still waiting when the given polls are over. */
    method WaitResp(t: nat, startCommTmout: U16, maxIntercharTmout: U16, polls: seq<Poll>)
      returns (status: Status, used: nat)
      requires commBuf.Length == COMM_BUF_LEN + 1
      requires forall k :: 0 <= k < |polls| ==> Possible(polls[k])
      modifies this, commBuf
      ensures Valid() && used <= |polls|
      ensures var rx := Init(t, startCommTmout, maxIntercharTmout);
        && View() == RxAt(rx, polls, used)
        && (status == NotFinished ==> used == |polls| && !Ends(rx, polls))
        && (status != NotFinished ==>
              0 < used && EndsAt(rx, polls, used - 1) && status == StatusAt(rx, polls, used - 1))
    {
      RxInit(t, startCommTmout, maxIntercharTmout);
      ghost var rx := View();
      used := 0;
      status := NotFinished;
      while status == NotFinished && used < |polls|
        invariant Valid() && used <= |polls| && View() == RxAt(rx, polls, used)
        invariant status == NotFinished ==> forall j :: 0 <= j < used ==> StatusAt(rx, polls, j) == NotFinished
        invariant status != NotFinished ==>
                    0 < used && EndsAt(rx, polls, used - 1) && status == StatusAt(rx, polls, used - 1)
        decreases |polls| - used
      {
        status := IsRxFinished(polls[used]);
        used := used + 1;
      }
    }

    /** `strstr` over the buffer, which its NUL ends. */
    method IsStringReceived(text: seq<byte>) returns (r: bool)
      requires Valid()
      ensures r <==> TextReceived(received, text)
    {
      if commBufLen != 0 {
        ghost var text' := FirstN(received, COMM_BUF_LEN);
        assert commBuf[..] == text' + [0] + commBuf[commBufLen + 1..];
        CStringStopsAtNul(text', commBuf[commBufLen + 1..]);
        StrstrExact(received, text);
        r := Contains(CString(commBuf[..]), text);
      } else {
        r := false;
      }
    }

    /** One round of the loop of SendATCmdWaitResp: send, wait, look for the text. */
    method TryOnce(a: Attempt, startCommTmout: U16, maxIntercharTmout: U16, text: seq<byte>) returns (retVal: Response)
      requires commBuf.Length == COMM_BUF_LEN + 1 && Completes(a, startCommTmout, maxIntercharTmout)
      modifies this, commBuf
      ensures commBuf.Length == COMM_BUF_LEN + 1
      ensures retVal == Outcome(a, startCommTmout, maxIntercharTmout, text)
    {
      var status, used := WaitResp(a.t, startCommTmout, maxIntercharTmout, a.polls);
      OutcomeIs(a, startCommTmout, maxIntercharTmout, text, used - 1);
      if status == Finished {
        var found := IsStringReceived(text);
        retVal := if found then Ok else DifResp;
      } else {
        retVal := NoResp;
      }
    }

    /** The overload for commands in flash memory. Attempt `k` gives what the modem and the clock
        do after the k-th sending of the command; there is one for each of `no_of_attempts`.
        `commands` counts the sendings. */
    method SendATCmdWaitRespFlash(attempts: seq<Attempt>, startCommTmout: U16, maxIntercharTmout: U16, text: seq<byte>)
      returns (retVal: Response, commands: nat)
      requires commBuf.Length == COMM_BUF_LEN + 1 && |attempts| < 0x100
      requires forall k :: 0 <= k < |attempts| ==> Completes(attempts[k], startCommTmout, maxIntercharTmout)
      modifies this, commBuf
      ensures commBuf.Length == COMM_BUF_LEN + 1
      ensures Reported(Outcomes(attempts, startCommTmout, maxIntercharTmout, text), retVal, commands)
      ensures Answers(attempts, startCommTmout, maxIntercharTmout, text, retVal, commands)
    {
      ghost var outcomes := Outcomes(attempts, startCommTmout, maxIntercharTmout, text);
      retVal := NoResp;
      commands := 0;
      assert |outcomes| == |attempts|;
      for i := 0 to |attempts|
        invariant commands == i && retVal != Ok && forall k :: 0 <= k < i ==> outcomes[k] != Ok
        invariant retVal == if i == 0 then NoResp else outcomes[i - 1]
      {
        commands := commands + 1;
        retVal := TryOnce(attempts[i], startCommTmout, maxIntercharTmout, text);
        OutcomesAt(attempts, startCommTmout, maxIntercharTmout, text, i);
        if retVal == Ok {
          ReportedAnswers(attempts, startCommTmout, maxIntercharTmout, text, retVal, commands);
          return;
        }
      }
      ReportedAnswers(attempts, startCommTmout, maxIntercharTmout, text, retVal, commands);
    }

    /** The overload for commands in RAM: the same loop, then one more wait that reads away
        whatever still arrives. The result is the same; the buffer is not. */
    method SendATCmdWaitResp(attempts: seq<Attempt>, startCommTmout: U16, maxIntercharTmout: U16,
                             text: seq<byte>, drain: Attempt)
      returns (retVal: Response, commands: nat)
      requires commBuf.Length == COMM_BUF_LEN + 1 && |attempts| < 0x100
      requires forall k :: 0 <= k < |attempts| ==> Completes(attempts[k], startCommTmout, maxIntercharTmout)
      requires Completes(drain, 1000, 5000)
      modifies this, commBuf
      ensures Reported(Outcomes(attempts, startCommTmout, maxIntercharTmout, text), retVal, commands)
      ensures Answers(attempts, startCommTmout, maxIntercharTmout, text, retVal, commands)
      ensures Valid() && DrainedBy(drain, received)
    {
      retVal, commands := SendATCmdWaitRespFlash(attempts, startCommTmout, maxIntercharTmout, text);
      var _, used := WaitResp(drain.t, 1000, 5000, drain.polls);
      assert EndsAt(Init(drain.t, 1000, 5000), drain.polls, used - 1);
    }
  }
}
