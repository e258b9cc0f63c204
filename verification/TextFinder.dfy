/** The stream reader of the modem library (GSMSHIELD/WideTextFinder.cpp).

    The stream is the sequence of bytes that arrive before the timeout; a NUL in it and its end
    look the same to the code. */
module TextFinder {
  import opened Types
  import opened Matching
  import opened Decimal

  class WideTextFinder {
    const stream: seq<byte>
    var pos: nat

    constructor (stream: seq<byte>)
      ensures this.stream == stream && pos == 0
    {
      this.stream, pos := stream, 0;
    }

    predicate Valid()
      reads this
    {
      pos <= |stream|
    }

    /** What is still to come. */
    function Rest(): seq<byte>
      reads this
      requires Valid()
    {
      stream[pos..]
    }

    /** The next byte, or 0 when none arrives in time. */
    method Read() returns (c: byte)
      requires Valid()
      modifies this
      ensures Valid()
      ensures old(pos) < |stream| ==> c == stream[old(pos)] && pos == old(pos) + 1
      ensures old(pos) == |stream| ==> c == 0 && pos == old(pos)
    {
      if pos < |stream| {
        c := stream[pos];
        pos := pos + 1;
      } else {
        c := 0;
      }
    }

    /** `terminate` is [] for none. An empty target is found at once, reading nothing. */
    method FindUntil(target: seq<byte>, terminate: seq<byte>) returns (found: bool)
      requires Valid() && 0 !in target && 0 !in terminate
      modifies this
      ensures Valid() && old(pos) <= pos
      ensures target == [] ==> found && pos == old(pos)
      ensures target != [] ==>
                Stops(EffectiveTarget(target), EffectiveTerminator(terminate), old(Rest()), found, pos - old(pos))
    {
      var targetLen := |target| % 0x100;
      var termLen := |terminate| % 0x100;
      if target == [] {
        return true;
      }
      found := Search(EffectiveTarget(target), target, targetLen, EffectiveTerminator(terminate), terminate, termLen);
    }

    /** The loop of findUntil; `t` and `e` are what the two byte-sized lengths leave. */
    method Search(ghost t: seq<byte>, target: seq<byte>, targetLen: nat,
                  ghost e: seq<byte>, terminate: seq<byte>, termLen: nat) returns (found: bool)
      requires Valid() && t != [] && 0 !in t
      requires t <= target && (|t| == targetLen || (|t| == 1 && targetLen == 0))
      requires e <= terminate && |e| == termLen
      modifies this
      ensures Valid() && old(pos) <= pos && Stops(t, e, old(Rest()), found, pos - old(pos))
    {
      ghost var s, k := Rest(), 0;
      var index, termIndex := 0, 0;
      while true
        invariant Valid() && pos == old(pos) + k && Searching(t, e, s, k)
        invariant index == Matched(t, s[..k]) && termIndex == Matched(e, s[..k])
        decreases |stream| - pos
      {
        SearchStep(t, e, s, k);
        var c := Read();
        if c == 0 {
          return false;
        }
        MatchedNext(t, s, k);
        MatchedNext(e, s, k);
        k := k + 1;
        var complete: bool;
        index, complete := Compare(t, target, targetLen, index, c);
        if complete {
          return true;
        }
        if termLen > 0 {
          termIndex, complete := Compare(e, terminate, termLen, termIndex, c);
          if complete {
            return false;
          }
        }
      }
    }

    /** The text between `pre` and the first character of `post`, in the first `length` places of
        the buffer. `found` and `m` say how the search for `pre` ended and what it read. */
    method GetString(pre: seq<byte>, post: seq<byte>, buffer: array<byte>, length: int)
      returns (n: int, ghost found: bool, ghost m: nat)
      requires Valid() && 0 !in pre && 0 !in post
      requires buffer.Length >= 1 && buffer.Length >= length
      modifies this, buffer
      ensures Valid() && old(pos) <= pos
      ensures forall k :: 1 <= k < buffer.Length && k >= length ==> buffer[k] == old(buffer[k])
      ensures SearchEnds(old(Rest()), pre, found, m)
      ensures !found ==> n == 0 && pos == old(pos) + m && buffer[..] == old(buffer[..])
      ensures found ==> Fetched(old(Rest())[m..], if post == [] then 0 else post[0], length,
                                n, pos - old(pos) - m, buffer[..])
    {
      var preFound := FindUntil(pre, []);
      found, m := preFound, pos - old(pos);
      n := 0;
      if !preFound {
        return;
      }
      var stop := if post == [] then 0 else post[0];
      n := FetchString(stop, buffer, length);
    }

    /** getString once the string in front has been found. */
    method FetchString(stop: byte, buffer: array<byte>, length: int) returns (n: int)
      requires Valid() && buffer.Length >= 1 && buffer.Length >= length
      modifies this, buffer
      ensures Valid() && old(pos) <= pos
      ensures forall k :: 1 <= k < buffer.Length && k >= length ==> buffer[k] == old(buffer[k])
      ensures Fetched(old(Rest()), stop, length, n, pos - old(pos), buffer[..])
    {
      ghost var s := Rest();
      var index := 0;
      buffer[0] := 0;
      while index < length - 1
        invariant Valid() && pos == old(pos) + index && 0 <= index <= |s|
        invariant index <= length - 1 || index == 0
        invariant forall k :: 0 <= k < index ==> s[k] != 0 && s[k] != stop
        invariant buffer[..index] == s[..index]
        invariant forall k :: 1 <= k < buffer.Length && k >= length ==> buffer[k] == old(buffer[k])
      {
        var c := Read();
        if c == 0 {
          TextLengthIs(s, stop, length - 1, index);
          return 0;
        } else if c == stop {
          TextLengthIs(s, stop, length - 1, index);
          PadWithNuls(buffer, index, length);
          return length;
        }
        buffer[index] := c;
        index := index + 1;
      }
      buffer[index] := 0;
      TextLengthIs(s, stop, index, index);
      return index;
    }

    /** `safe` is false when a step of the 32-bit arithmetic overflows. The precondition leaves out
        only the calls that never return. */
    method GetValue(skipChar: byte) returns (value: int, safe: bool)
      requires Valid() && Returns(Rest(), skipChar)
      modifies this
      ensures Valid() && pos == old(pos) + Consumed(old(Rest()), skipChar)
      ensures value == Result(old(Rest()), skipChar)
      ensures safe == Safe(Body(old(Rest()), skipChar), skipChar)
    {
      ghost var s := Rest();
      var c := SkipLead();
      ghost var lead := LeadLength(s);
      if c == 0 && skipChar != 0 {
        return 0, true;  // the first round of the do loop does this
      }
      assert Rest() == s[lead + 1..];
      assert Body(s, skipChar) == [c] + s[lead + 1..][..RunLength(s[lead + 1..], skipChar)];
      value, safe := ReadDigits(c, skipChar);
    }

    /** The first loop of getValue: the first digit, minus sign or NUL. */
    method SkipLead() returns (c: byte)
      requires Valid()
      modifies this
      ensures Valid()
      ensures var lead := LeadLength(old(Rest()));
        if lead < |old(Rest())| then c == old(Rest())[lead] && pos == old(pos) + lead + 1
        else c == 0 && pos == old(pos) + lead
      ensures c == MINUS || IsDigit(c) || c == 0
    {
      ghost var s, lead := Rest(), 0;
      c := Read();
      while c != MINUS && (c < ZERO || c > NINE) && c != 0
        invariant Valid() && lead <= |s| && LeadLength(s) == lead + LeadLength(s[lead..])
        invariant if lead < |s| then c == s[lead] && pos == old(pos) + lead + 1 else c == 0 && pos == old(pos) + lead
        decreases |s| - lead
      {
        assert s[lead..][0] == s[lead] && s[lead..][1..] == s[lead + 1..];
        lead := lead + 1;
        c := Read();
      }
      assert lead < |s| ==> s[lead..][0] == s[lead];
    }

    /** The do loop of getValue, with `first` read already. */
    method ReadDigits(first: byte, skipChar: byte) returns (value: int, safe: bool)
      requires Valid() && (first == MINUS || IsDigit(first) || (first == 0 && skipChar == 0))
      requires skipChar == 0 ==> RunLength(Rest(), skipChar) < |Rest()|
      modifies this
      ensures Valid()
      ensures var run := RunLength(old(Rest()), skipChar);
        && pos == old(pos) + (if run < |old(Rest())| then run + 1 else run)
        && value == Signed([first] + old(Rest())[..run], skipChar)
        && safe == Safe([first] + old(Rest())[..run], skipChar)
    {
      ghost var rest, text, k := Rest(), [first] + Rest(), 0;
      ghost var run := RunLength(rest, skipChar);
      RunIsRun(rest, skipChar);
      var isNegative := false;
      value, safe := 0, true;
      var c := first;
      var again := true;
      while again
        invariant Valid() && k <= run + 1 && (again <==> k < run + 1)
        invariant if k < |text| then c == text[k] && pos == old(pos) + k else c == 0 && pos == |stream|
        invariant isNegative <==> k > 0 && first == MINUS && skipChar != MINUS
        invariant value == Value(text[..k], skipChar) && safe == Safe(text[..k], skipChar)
        decreases run + 1 - k
      {
        ValueNext(text, k, skipChar);
        assert text[k] == c;
        if c != skipChar {
          if c == MINUS {
            isNegative := true;
          } else if ZERO <= c <= NINE {
            safe := safe && value * 10 + c <= INT32_MAX;
            value := value * 10 + c - ZERO;
          }
        }
        c := Read();
        k := k + 1;
        again := (ZERO <= c <= NINE) || c == skipChar;
      }
      assert k == run + 1;
      ConsPrefix(first, rest, run);
      if isNegative {
        value := -value;
      }
    }
  }

  lemma ConsPrefix(first: byte, rest: seq<byte>, n: nat)
    requires n <= |rest|
    ensures ([first] + rest)[..n + 1] == [first] + rest[..n]
  {
  }

  /** The run is made of digits and skip characters, and ends at the first other one. */
  lemma {:induction false} RunIsRun(s: seq<byte>, skip: byte)
    ensures forall k :: 0 <= k < RunLength(s, skip) ==> IsDigit(s[k]) || s[k] == skip
    ensures RunLength(s, skip) < |s| ==> !(IsDigit(s[RunLength(s, skip)]) || s[RunLength(s, skip)] == skip)
  {
    if RunLength(s, skip) > 0 {
      RunIsRun(s[1..], skip);
      forall k | 1 <= k < RunLength(s, skip) ensures IsDigit(s[k]) || s[k] == skip {
        assert s[k] == s[1..][k - 1];
      }
    }
  }

  // ---------- getString ----------

  /** How much of the stream goes into the buffer: up to the stop character, a NUL, the end of
      the stream or `room` characters. */
  function TextLength(s: seq<byte>, stop: byte, room: nat): (n: nat)
    ensures n <= |s| && n <= room
  {
    if room == 0 || s == [] || s[0] == 0 || s[0] == stop then 0 else 1 + TextLength(s[1..], stop, room - 1)
  }

  /** The loop that ends the string: everything from `from` up to `length` becomes NUL. */
  method PadWithNuls(buffer: array<byte>, from: nat, length: int)
    requires from <= length <= buffer.Length
    modifies buffer
    ensures buffer[..from] == old(buffer[..from])
    ensures forall k :: from <= k < length ==> buffer[k] == 0
    ensures forall k :: length <= k < buffer.Length ==> buffer[k] == old(buffer[k])
  {
    var index := from;
    while index < length
      invariant from <= index <= length && buffer[..from] == old(buffer[..from])
      invariant forall k :: from <= k < index ==> buffer[k] == 0
      invariant forall k :: length <= k < buffer.Length ==> buffer[k] == old(buffer[k])
    {
      buffer[index] := 0;
      index := index + 1;
    }
  }

  lemma {:induction false} TextLengthIs(s: seq<byte>, stop: byte, room: nat, n: nat)
    requires n <= |s| && n <= room
    requires forall k :: 0 <= k < n ==> s[k] != 0 && s[k] != stop
    requires n == room || n == |s| || s[n] == 0 || s[n] == stop
    ensures TextLength(s, stop, room) == n
  {
    if n > 0 {
      TextLengthIs(s[1..], stop, room - 1, n - 1);
    }
  }

  /** Nothing before that is a NUL or the stop character, and there it ends for one of the reasons. */
  lemma {:induction false} TextLengthExact(s: seq<byte>, stop: byte, room: nat)
    ensures var n := TextLength(s, stop, room);
      && (forall k :: 0 <= k < n ==> s[k] != 0 && s[k] != stop)
      && (n == room || n == |s| || s[n] == 0 || s[n] == stop)
  {
    if TextLength(s, stop, room) > 0 {
      TextLengthExact(s[1..], stop, room - 1);
      assert forall k :: 1 <= k < |s| ==> s[k] == s[1..][k - 1];
    }
  }

  /** How the search for the string in front ends: an empty one is found at once. */
  ghost predicate SearchEnds(s: seq<byte>, pre: seq<byte>, found: bool, m: nat) {
    if pre == [] then found && m == 0 else Stops(EffectiveTarget(pre), [], s, found, m)
  }

  /** What getString leaves once the string in front was found, with `s` to come. On the stop
      character: the text, NULs up to `length`, and `length` as the result, not the size of the
      text. On a full buffer: the first length-1 characters, a NUL, and length-1 as the result.
      On a timeout: 0. */
  ghost predicate Fetched(s: seq<byte>, stop: byte, length: int, n: int, consumed: int, buffer: seq<byte>) {
    var room := if length >= 1 then length - 1 else 0;
    var text := TextLength(s, stop, room);
    && text < |buffer| && length <= |buffer| && buffer[..text] == s[..text]
    && (text == room ==> n == room && consumed == text && buffer[text] == 0)
    && (text < room && text == |s| ==> n == 0 && consumed == text)
    && (text < room && text < |s| && s[text] == 0 ==> n == 0 && consumed == text + 1)
    && (text < room && text < |s| && s[text] != 0 ==>
          && s[text] == stop && n == length && consumed == text + 1
          && forall k :: text <= k < length ==> buffer[k] == 0)
  }

  /** One character against a string at the index reached: the two tests in the loop of
      findUntil. `eff` is the part of the string that its byte-sized length leaves. */
  method Compare(ghost eff: seq<byte>, text: seq<byte>, len: nat, index: nat, c: byte)
    returns (next: nat, complete: bool)
    requires eff <= text && index < |eff| && (|eff| == len || (|eff| == 1 && len == 0))
    ensures next == Advance(eff, index, c) && (complete <==> next == |eff|)
  {
    complete := false;
    if c == text[index] {
      next := index + 1;
      if next >= len {
        complete := true;
      }
    } else {
      next := 0;
    }
  }
}
