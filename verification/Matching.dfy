/** The stream matcher of the modem library (GSMSHIELD/WideTextFinder.cpp, findUntil): what it
    finds, and what it misses because a mismatch makes it start again from nothing. */
module Matching {
  import opened Types

  /** What the byte-sized length makes of a target: targets of 256 and more are cut down, and a
      multiple of 256 leaves the first character only. */
  function EffectiveTarget(t: seq<byte>): (r: seq<byte>)
    ensures r <= t && |r| == if t != [] && |t| % 256 == 0 then 1 else |t| % 256
    ensures |t| < 0x100 ==> r == t
  {
    if |t| < 0x100 then t else if |t| % 0x100 == 0 then t[..1] else t[..|t| % 0x100]
  }

  /** A terminator whose length is a multiple of 256 is never found. */
  function EffectiveTerminator(t: seq<byte>): (r: seq<byte>)
    ensures r <= t && |r| == |t| % 256 && (|t| < 0x100 ==> r == t)
  {
    t[..|t| % 0x100]
  }

  /** How many characters of `t` are matched after `s` has been read. A mismatch starts again
      from nothing, without looking at the mismatching character as a possible first one; a
      complete match stays. */
  function Matched(t: seq<byte>, s: seq<byte>): (n: nat)
    ensures n <= |t| && n <= |s|
  {
    if s == [] then 0
    else
      Advance(t, Matched(t, s[..|s| - 1]), s[|s| - 1])
  }

  function Advance(t: seq<byte>, n: nat, c: byte): (r: nat)
    requires n <= |t|
    ensures r <= |t| && r <= n + 1
  {
    if n == |t| then n else if c == t[n] then n + 1 else 0
  }

  predicate Found(t: seq<byte>, s: seq<byte>) {
    t != [] && Matched(t, s) == |t|
  }

  predicate OccursAt(t: seq<byte>, s: seq<byte>, i: nat) {
    i + |t| <= |s| && s[i..i + |t|] == t
  }

  predicate Occurs(t: seq<byte>, s: seq<byte>) {
    exists i :: 0 <= i <= |s| && OccursAt(t, s, i)
  }

  /** What was read before the matcher stopped, and why. `k` characters of `s` were read; `s` is
      what was still to come. */
  ghost predicate Stops(target: seq<byte>, term: seq<byte>, s: seq<byte>, found: bool, k: nat) {
    && k <= |s|
    && (forall j :: 0 <= j < k ==> !Found(target, s[..j]) && !Found(term, s[..j]))
    && (forall j :: 0 <= j < k && s[j] == 0 ==> j == k - 1 && !found)
    && if found then Found(target, s[..k])
       else !Found(target, s[..k]) && (Found(term, s[..k]) || k == |s| || (0 < k && s[k - 1] == 0))
  }

  /** Nothing has ended the search in the first `k` characters of `s`. */
  ghost predicate Searching(target: seq<byte>, term: seq<byte>, s: seq<byte>, k: nat) {
    && k <= |s|
    && (forall j :: 0 <= j < k ==> s[j] != 0)
    && (forall j :: 0 <= j <= k ==> !Found(target, s[..j]) && !Found(term, s[..j]))
  }

  lemma MatchedNext(t: seq<byte>, s: seq<byte>, k: nat)
    requires k < |s|
    ensures Matched(t, s[..k + 1]) == Advance(t, Matched(t, s[..k]), s[k])
  {
    assert s[..k + 1][..k] == s[..k];
  }

  /** One more character either ends the search or continues it. */
  lemma SearchStep(target: seq<byte>, term: seq<byte>, s: seq<byte>, k: nat)
    requires target != [] && 0 !in target && Searching(target, term, s, k)
    ensures Matched(target, s[..k]) < |target| && (term != [] ==> Matched(term, s[..k]) < |term|)
    ensures k == |s| ==> Stops(target, term, s, false, k)
    ensures k < |s| && s[k] == 0 ==> Stops(target, term, s, false, k + 1)
    ensures k < |s| && s[k] != 0 && Found(target, s[..k + 1]) ==> Stops(target, term, s, true, k + 1)
    ensures k < |s| && s[k] != 0 && !Found(target, s[..k + 1]) ==>
              if Found(term, s[..k + 1]) then Stops(target, term, s, false, k + 1)
              else Searching(target, term, s, k + 1)
  {
    assert s[..|s|] == s;
    if k < |s| {
      MatchedNext(target, s, k);
    }
  }

  // ---------- Soundness ----------

  /** The characters counted as matched are the last ones read. */
  lemma {:induction false} MatchedIsSuffix(t: seq<byte>, s: seq<byte>)
    requires s == [] || !Found(t, s[..|s| - 1])
    ensures forall k :: 0 <= k < Matched(t, s) ==> s[|s| - Matched(t, s) + k] == t[k]
  {
    if s != [] && t != [] {
      var past := s[..|s| - 1];
      if past != [] && Found(t, past[..|past| - 1]) {
        assert false;
      }
      MatchedIsSuffix(t, past);
    }
  }

  lemma FirstMatchOccurs(t: seq<byte>, s: seq<byte>, k: nat)
    requires k <= |s| && Found(t, s[..k]) && forall j :: 0 <= j < k ==> !Found(t, s[..j])
    ensures |t| <= k && OccursAt(t, s, k - |t|)
  {
    if k > 0 {
      assert s[..k][..k - 1] == s[..k - 1];
    }
    MatchedIsSuffix(t, s[..k]);
    var last := s[k - |t|..k];
    forall i | 0 <= i < |t| ensures last[i] == t[i] {
      assert last[i] == s[..k][k - |t| + i];
    }
  }

  /** Sound on any stream: true means that the last characters read spell the target; false
      before the stream ended or fell silent means that they spell the terminator. */
  lemma FindIsSound(target: seq<byte>, term: seq<byte>, s: seq<byte>, found: bool, k: nat)
    requires target != [] && Stops(target, term, s, found, k)
    ensures found ==> |target| <= k && OccursAt(target, s, k - |target|)
    ensures !found ==> k == |s| || (0 < k && s[k - 1] == 0) || (|term| <= k && OccursAt(term, s, k - |term|))
  {
    if found {
      FirstMatchOccurs(target, s, k);
    } else if Found(term, s[..k]) {
      FirstMatchOccurs(term, s, k);
    }
  }

  /** There is only one way for the search to stop. */
  lemma StopsOnce(target: seq<byte>, term: seq<byte>, s: seq<byte>, f1: bool, k1: nat, f2: bool, k2: nat)
    requires Stops(target, term, s, f1, k1) && Stops(target, term, s, f2, k2)
    ensures f1 == f2 && k1 == k2
  {
  }

  // ---------- Completeness ----------

  /** The matcher follows an occurrence that it meets at its start. */
  lemma {:induction false} FollowsOccurrence(t: seq<byte>, pre: seq<byte>, j: nat)
    requires t != [] && t[0] !in pre && j <= |t|
    ensures Matched(t, pre + t[..j]) == j
    decreases |pre| + j
  {
    var s := pre + t[..j];
    if j > 0 {
      assert s[..|s| - 1] == pre + t[..j - 1];
      FollowsOccurrence(t, pre, j - 1);
    } else if pre != [] {
      var past := pre[..|pre| - 1];
      assert s[..|s| - 1] == past + t[..0] && s[|s| - 1] == pre[|pre| - 1];
      FollowsOccurrence(t, past, 0);
    }
  }

  lemma NotFoundBefore(t: seq<byte>, pre: seq<byte>, i: nat)
    requires t != [] && t[0] !in pre && i < |pre| + |t|
    ensures !Found(t, (pre + t)[..i])
  {
    if i <= |pre| {
      assert (pre + t)[..i] == pre[..i] + t[..0];
      FollowsOccurrence(t, pre[..i], 0);
    } else {
      assert (pre + t)[..i] == pre + t[..i - |pre|];
      FollowsOccurrence(t, pre, i - |pre|);
    }
  }

  lemma {:induction false} FoundOccurs(t: seq<byte>, s: seq<byte>)
    requires Found(t, s)
    ensures Occurs(t, s)
  {
    if Found(t, s[..|s| - 1]) {
      FoundOccurs(t, s[..|s| - 1]);
      var i :| 0 <= i <= |s| - 1 && OccursAt(t, s[..|s| - 1], i);
      assert s[i..i + |t|] == s[..|s| - 1][i..i + |t|];
      assert OccursAt(t, s, i);
    } else {
      MatchedIsSuffix(t, s);
      assert OccursAt(t, s, |s| - |t|);
    }
  }

  lemma NothingFoundBefore(target: seq<byte>, term: seq<byte>, pre: seq<byte>, rest: seq<byte>, j: nat)
    requires target != [] && target[0] !in pre && j < |pre| + |target|
    requires !Occurs(term, (pre + target)[..|pre| + |target| - 1])
    ensures !Found(target, (pre + target + rest)[..j]) && !Found(term, (pre + target + rest)[..j])
  {
    var read := (pre + target + rest)[..j];
    assert read == (pre + target)[..j];
    NotFoundBefore(target, pre, j);
    if Found(term, read) {
      FoundOccurs(term, read);
      OccursInLonger(term, read, (pre + target)[..|pre| + |target| - 1]);
    }
  }

  /** When the target's first character does not appear before its first occurrence, and the
      terminator has not occurred by then, the search stops exactly at the end of it. */
  lemma FindsFirstOccurrence(target: seq<byte>, term: seq<byte>, pre: seq<byte>, rest: seq<byte>, found: bool, k: nat)
    requires target != [] && target[0] !in pre && 0 !in pre && 0 !in target
    requires !Occurs(term, (pre + target)[..|pre| + |target| - 1])
    requires Stops(target, term, pre + target + rest, found, k)
    ensures found && k == |pre| + |target|
  {
    var s, n := pre + target + rest, |pre| + |target|;
    forall j | 0 <= j < n ensures !Found(target, s[..j]) && !Found(term, s[..j]) {
      NothingFoundBefore(target, term, pre, rest, j);
    }
    assert s[..n] == pre + target[..|target|];
    FollowsOccurrence(target, pre, |target|);
    assert forall j :: 0 <= j < n ==> s[j] == (pre + target)[j];
    assert Stops(target, term, s, true, n);
    StopsOnce(target, term, s, found, k, true, n);
  }

  lemma OccursInLonger(t: seq<byte>, s: seq<byte>, l: seq<byte>)
    requires s <= l && Occurs(t, s)
    ensures Occurs(t, l)
  {
    var i :| 0 <= i <= |s| && OccursAt(t, s, i);
    assert l[i..i + |t|] == s[i..i + |t|];
    assert OccursAt(t, l, i);
  }

  // ---------- Which targets are never missed ----------

  predicate AllEqual(t: seq<byte>) {
    forall j :: 0 <= j < |t| ==> t[j] == t[0]
  }

  /** In a target of one repeated character a mismatch never hides a beginning. */
  lemma {:induction false} RepeatedIsFound(t: seq<byte>, s: seq<byte>, i: nat, j: nat)
    requires t != [] && AllEqual(t) && OccursAt(t, s, i) && j <= |t|
    ensures Matched(t, s[..i + j]) >= j
  {
    if j > 0 {
      RepeatedIsFound(t, s, i, j - 1);
      MatchedNext(t, s, i + j - 1);
      assert s[i + j - 1] == s[i..i + |t|][j - 1];
    }
  }

  lemma {:induction false} FoundStays(t: seq<byte>, s: seq<byte>, k: nat)
    requires k <= |s| && Found(t, s[..k])
    ensures Found(t, s)
  {
    if k == |s| {
      assert s[..k] == s;
    } else {
      assert s[..|s| - 1][..k] == s[..k];
      FoundStays(t, s[..|s| - 1], k);
    }
  }

  /** The first character that differs from the first of all. */
  lemma FirstDifferent(t: seq<byte>, n: nat) returns (d: nat)
    requires n <= |t| && exists j :: 0 <= j < n && t[j] != t[0]
    ensures 0 < d < n && t[d] != t[0] && forall j :: 0 <= j < d ==> t[j] == t[0]
  {
    if j :| 0 <= j < n - 1 && t[j] != t[0] {
      d := FirstDifferent(t, n - 1);
    } else {
      d := n - 1;
    }
  }

  /** One more first character in front of the target: the matcher is at `d` when the extra
      character arrives, starts again from nothing, and what is left is too short. */
  lemma {:induction false} ExtraCharacterHides(t: seq<byte>, d: nat, j: nat)
    requires 0 < d < |t| && t[d] != t[0] && (forall i :: 0 <= i < d ==> t[i] == t[0]) && j <= |t| + 1
    ensures Matched(t, ([t[0]] + t)[..j]) <= if j <= d then j else j - d - 1
    ensures j <= d ==> Matched(t, ([t[0]] + t)[..j]) == j
  {
    if j > 0 {
      ExtraCharacterHides(t, d, j - 1);
      MatchedNext(t, [t[0]] + t, j - 1);
    }
  }

  /** Without a terminator and NULs, findUntil answers true exactly if the matcher ever completes. */
  lemma FoundIsAnswer(t: seq<byte>, s: seq<byte>, found: bool, k: nat)
    requires t != [] && 0 !in s && Stops(t, [], s, found, k)
    ensures found <==> Found(t, s)
  {
    if found {
      FoundStays(t, s, k);
    } else {
      assert s[..|s|] == s;
    }
  }

  /** findUntil, without a terminator and NULs, finds a target whenever it occurs. */
  ghost predicate NeverMisses(t: seq<byte>) {
    forall s, found, k :: 0 !in s && Occurs(t, s) && Stops(t, [], s, found, k) ==> found
  }

  lemma EqualNeverMisses(t: seq<byte>)
    requires t != [] && AllEqual(t)
    ensures NeverMisses(t)
  {
    forall s, found, k | 0 !in s && Occurs(t, s) && Stops(t, [], s, found, k) ensures found {
      var i :| 0 <= i <= |s| && OccursAt(t, s, i);
      RepeatedIsFound(t, s, i, |t|);
      FoundStays(t, s, i + |t|);
      FoundIsAnswer(t, s, found, k);
    }
  }

  /** A stream in which the target occurs and is missed. */
  lemma UnequalMisses(t: seq<byte>) returns (s: seq<byte>)
    requires t != [] && 0 !in t && !AllEqual(t)
    ensures 0 !in s && Occurs(t, s) && Stops(t, [], s, false, |s|)
  {
    var d := FirstDifferent(t, |t|);
    s := [t[0]] + t;
    forall j | 0 <= j <= |s| ensures !Found(t, s[..j]) {
      ExtraCharacterHides(t, d, j);
    }
    assert s[1..1 + |t|] == t;
    assert OccursAt(t, s, 1);
  }

  /** Without a terminator findUntil never misses a target that occurs in a stream without NULs, if
      and only if all characters of the target are the same. */
  lemma NeverMissesExact(t: seq<byte>)
    requires t != [] && 0 !in t
    ensures NeverMisses(t) <==> AllEqual(t)
  {
    if AllEqual(t) {
      EqualNeverMisses(t);
    } else {
      var s := UnequalMisses(t);
    }
  }
}
