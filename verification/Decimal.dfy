/** Decimal text: printing, and the value that getValue accumulates from characters
    (GSMSHIELD/WideTextFinder.cpp). */
module Decimal {
  import opened Types

  const MINUS := 45
  const ZERO := 48
  const NINE := 57
  const INT32_MAX := 0x7FFF_FFFF

  predicate IsDigit(c: byte) {
    ZERO <= c <= NINE
  }

  // ---------- Reading ----------

  predicate Counts(c: byte, skip: byte) {
    IsDigit(c) && c != skip
  }

  /** The number accumulated from the characters: digits count, everything else is passed over. */
  function Value(text: seq<byte>, skip: byte): nat {
    if text == [] then 0
    else
      var c := text[|text| - 1];
      var v := Value(text[..|text| - 1], skip);
      if Counts(c, skip) then v * 10 + c - ZERO else v
  }

  /** No step leaves the 32-bit range. The step is `value * 10 + c - '0'`, from the left: the
      character code is added before that of '0' is taken off. */
  predicate Safe(text: seq<byte>, skip: byte) {
    text == [] ||
    var c := text[|text| - 1];
    Safe(text[..|text| - 1], skip)
    && (Counts(c, skip) ==> Value(text[..|text| - 1], skip) * 10 + c <= INT32_MAX)
  }

  lemma ValueNext(text: seq<byte>, k: nat, skip: byte)
    requires k < |text|
    ensures Value(text[..k + 1], skip)
         == if Counts(text[k], skip) then Value(text[..k], skip) * 10 + text[k] - ZERO else Value(text[..k], skip)
    ensures Safe(text[..k + 1], skip)
         <==> Safe(text[..k], skip) && (Counts(text[k], skip) ==> Value(text[..k], skip) * 10 + text[k] <= INT32_MAX)
  {
    assert text[..k + 1][..k] == text[..k];
  }

  /** How many characters stand before the first digit, minus sign or NUL. */
  function LeadLength(s: seq<byte>): (n: nat)
    ensures n <= |s|
  {
    if s == [] || s[0] == MINUS || IsDigit(s[0]) || s[0] == 0 then 0 else 1 + LeadLength(s[1..])
  }

  /** How many digits and skip characters stand at the front. */
  function RunLength(s: seq<byte>, skip: byte): (n: nat)
    ensures n <= |s|
  {
    if s == [] || !(IsDigit(s[0]) || s[0] == skip) then 0 else 1 + RunLength(s[1..], skip)
  }

  /** The characters getValue looks at, from the first digit or minus sign; [] if the stream
      ends, or has a NUL, before one. If NUL is the skip character it is one of them. */
  function Body(s: seq<byte>, skip: byte): seq<byte> {
    var lead := LeadLength(s);
    if lead == |s| || (s[lead] == 0 && skip != 0) then [] else s[lead..lead + 1 + RunLength(s[lead + 1..], skip)]
  }

  /** A first minus sign negates, unless minus is the skip character. */
  function Signed(text: seq<byte>, skip: byte): int {
    var value: int := Value(text, skip);
    if text != [] && text[0] == MINUS && skip != MINUS then -value else value
  }

  function Result(s: seq<byte>, skip: byte): int {
    Signed(Body(s, skip), skip)
  }

  /** The do loop is left. With NUL as the skip character, a stream that falls silent is skipped for
      ever. */
  predicate Returns(s: seq<byte>, skip: byte) {
    skip != 0 || LeadLength(s) + |Body(s, skip)| < |s|
  }

  /** One character more than the lead and the body, unless the stream ends there. */
  function Consumed(s: seq<byte>, skip: byte): nat {
    var n := LeadLength(s) + |Body(s, skip)|;
    if n < |s| then n + 1 else n
  }

  // ---------- Printing ----------

  /** The characters '0' to '9' and '-' are 48 to 57 and 45. */
  function Digits(n: nat): (d: seq<byte>)
    ensures d != [] && forall k :: 0 <= k < |d| ==> IsDigit(d[k])
  {
    if n < 10 then [48 + n] else Digits(n / 10) + [48 + n % 10]
  }

  function Printed(n: int): (p: seq<byte>)
    ensures p != []
  {
    if n < 0 then [45] + Digits(-n) else Digits(n)
  }

  function WithoutSkips(text: seq<byte>, skip: byte): seq<byte> {
    if text == [] then []
    else WithoutSkips(text[..|text| - 1], skip) + if text[|text| - 1] == skip then [] else [text[|text| - 1]]
  }

  /** The text is `n` as printed, with any number of skip characters after its first character. */
  predicate Spells(text: seq<byte>, n: int, skip: byte) {
    text != [] && text[0] == Printed(n)[0] && WithoutSkips(text, skip) == Printed(n)
  }

  // ---------- Reading undoes printing ----------

  lemma {:induction false} DigitsValue(n: nat, skip: byte)
    requires !IsDigit(skip)
    ensures Value(Digits(n), skip) == n
    ensures Safe(Digits(n), skip) <==> n + ZERO <= INT32_MAX
  {
    if n >= 10 {
      DigitsValue(n / 10, skip);
      var d := Digits(n);
      assert d[..|d| - 1] == Digits(n / 10) && d[|d| - 1] == ZERO + n % 10;
    } else {
      assert Digits(n)[..0] == [];
    }
  }

  lemma {:induction false} LeadingMinus(d: seq<byte>, skip: byte)
    ensures Value([MINUS] + d, skip) == Value(d, skip)
    ensures Safe([MINUS] + d, skip) <==> Safe(d, skip)
  {
    if d == [] {
      assert ([MINUS] + d)[..0] == [];
    } else {
      LeadingMinus(d[..|d| - 1], skip);
      assert ([MINUS] + d)[..|d|] == [MINUS] + d[..|d| - 1];
    }
  }

  lemma {:induction false} SkipsDoNotCount(text: seq<byte>, skip: byte)
    ensures Value(WithoutSkips(text, skip), skip) == Value(text, skip)
    ensures Safe(WithoutSkips(text, skip), skip) <==> Safe(text, skip)
  {
    if text != [] {
      var past, c := text[..|text| - 1], text[|text| - 1];
      SkipsDoNotCount(past, skip);
      if c != skip {
        assert WithoutSkips(text, skip)[..|WithoutSkips(past, skip)|] == WithoutSkips(past, skip);
      } else {
        assert WithoutSkips(text, skip) == WithoutSkips(past, skip);
      }
    }
  }

  lemma PrintedValue(n: int, text: seq<byte>, skip: byte)
    requires !IsDigit(skip) && Spells(text, n, skip)
    ensures Value(text, skip) == if n < 0 then -n else n
    ensures Safe(text, skip) <==> -2147483599 <= n <= 2147483599
  {
    SkipsDoNotCount(text, skip);
    DigitsValue(if n < 0 then -n else n, skip);
    if n < 0 {
      LeadingMinus(Digits(-n), skip);
    }
  }

  lemma {:induction false} LeadOf(pre: seq<byte>, s: seq<byte>)
    requires forall k :: 0 <= k < |pre| ==> pre[k] != MINUS && !IsDigit(pre[k]) && pre[k] != 0
    requires s != [] && (s[0] == MINUS || IsDigit(s[0]))
    ensures LeadLength(pre + s) == |pre|
  {
    if pre == [] {
      assert pre + s == s;
    } else {
      LeadOf(pre[1..], s);
      assert (pre + s)[1..] == pre[1..] + s;
    }
  }

  lemma {:induction false} RunOf(run: seq<byte>, s: seq<byte>, skip: byte)
    requires forall k :: 0 <= k < |run| ==> IsDigit(run[k]) || run[k] == skip
    requires s == [] || !(IsDigit(s[0]) || s[0] == skip)
    ensures RunLength(run + s, skip) == |run|
  {
    if run == [] {
      assert run + s == s;
    } else {
      RunOf(run[1..], s, skip);
      assert (run + s)[1..] == run[1..] + s;
    }
  }

  lemma {:induction false} WithoutSkipsCons(a: byte, run: seq<byte>, skip: byte)
    requires a != skip
    ensures WithoutSkips([a] + run, skip) == [a] + WithoutSkips(run, skip)
  {
    if run == [] {
      assert ([a] + run)[..0] == [];
    } else {
      WithoutSkipsCons(a, run[..|run| - 1], skip);
      assert ([a] + run)[..|run|] == [a] + run[..|run| - 1];
    }
  }

  lemma {:induction false} KeptOrSkip(run: seq<byte>, skip: byte, k: nat)
    requires k < |run|
    ensures run[k] == skip || run[k] in WithoutSkips(run, skip)
  {
    if k < |run| - 1 {
      KeptOrSkip(run[..|run| - 1], skip, k);
    }
  }

  /** Every character of a spelled number after the first is a digit or the skip character. */
  lemma SpelledRun(text: seq<byte>, n: int, skip: byte)
    requires !IsDigit(skip) && skip != MINUS && Spells(text, n, skip)
    ensures forall k :: 1 <= k < |text| ==> IsDigit(text[k]) || text[k] == skip
  {
    var run := text[1..];
    assert text == [text[0]] + run;
    WithoutSkipsCons(text[0], run, skip);
    assert WithoutSkips(run, skip) == Printed(n)[1..];
    forall k | 1 <= k < |text| ensures IsDigit(text[k]) || text[k] == skip {
      assert text[k] == run[k - 1];
      KeptOrSkip(run, skip, k - 1);
    }
  }

  /** Where the printed number stands in the stream. */
  lemma BodyOf(pre: seq<byte>, text: seq<byte>, stop: byte, rest: seq<byte>, skip: byte)
    requires forall k :: 0 <= k < |pre| ==> pre[k] != MINUS && !IsDigit(pre[k]) && pre[k] != 0
    requires text != [] && (text[0] == MINUS || IsDigit(text[0]))
    requires forall k :: 1 <= k < |text| ==> IsDigit(text[k]) || text[k] == skip
    requires !IsDigit(stop) && stop != skip
    ensures Body(pre + text + [stop] + rest, skip) == text
    ensures LeadLength(pre + text + [stop] + rest) == |pre|
  {
    var tail := text + [stop] + rest;
    assert pre + text + [stop] + rest == pre + tail;
    LeadOf(pre, tail);
    RunOf(text[1..], [stop] + rest, skip);
    assert (pre + tail)[|pre| + 1..] == text[1..] + ([stop] + rest);
  }

  /** Neither a digit, nor a minus sign, nor a NUL. */
  predicate Passed(c: byte) {
    c != 45 && c != 0 && !(48 <= c <= 57)
  }

  /** getValue undoes printing: after a prefix without digits, minus signs and NULs, the printed
      form of any `n`, with skip characters after its first character, ended by another character,
      gives back `n` and consumes exactly one character past it; the 32-bit arithmetic is safe
      exactly when |n| <= 2147483599. */
  lemma ReadingUndoesPrinting(pre: seq<byte>, text: seq<byte>, stop: byte, rest: seq<byte>, n: int, skip: byte)
    requires forall k :: 0 <= k < |pre| ==> Passed(pre[k])
    requires !(48 <= skip <= 57) && skip != 45 && Spells(text, n, skip)
    requires !(48 <= stop <= 57) && stop != skip
    ensures Result(pre + text + [stop] + rest, skip) == n
    ensures Consumed(pre + text + [stop] + rest, skip) == |pre| + |text| + 1
    ensures Safe(Body(pre + text + [stop] + rest, skip), skip) <==> -2147483599 <= n <= 2147483599
  {
    SpelledRun(text, n, skip);
    BodyOf(pre, text, stop, rest, skip);
    PrintedValue(n, text, skip);
  }

  // ---------- Laws in character codes ----------

  /** A digit or minus sign, then digits and skip characters. */
  predicate Number(text: seq<byte>, skip: byte) {
    && text != [] && (text[0] == 45 || 48 <= text[0] <= 57)
    && forall k :: 1 <= k < |text| ==> 48 <= text[k] <= 57 || text[k] == skip
  }

  /** The stream may end with the number. */
  lemma NumberIsBody(text: seq<byte>, skip: byte)
    requires Number(text, skip)
    ensures Body(text, skip) == text && Result(text, skip) == Signed(text, skip)
  {
    RunOf(text[1..], [], skip);
    assert text[1..] + [] == text[1..];
    assert text[0..1 + |text[1..]|] == text;
  }

  /** A minus sign in front negates the number, unless it is the skip character. */
  lemma MinusNegates(d: seq<byte>, skip: byte)
    requires d != [] && 48 <= d[0] <= 57
    ensures Result([45] + d, skip) == if skip == 45 then Result(d, skip) else -Result(d, skip)
  {
    var n := RunLength(d[1..], skip);
    assert ([45] + d)[1..] == d;
    assert RunLength(d, skip) == n + 1;
    assert Body(d, skip) == d[..n + 1] && Body([45] + d, skip) == [45] + d[..n + 1];
    LeadingMinus(d[..n + 1], skip);
  }

  /** Any character but a digit and the skip character ends the number, and is read. */
  lemma OtherEnds(text: seq<byte>, c: byte, rest: seq<byte>, skip: byte)
    requires Number(text, skip) && !(48 <= c <= 57) && c != skip
    ensures Result(text + [c] + rest, skip) == Result(text, skip)
    ensures Consumed(text + [c] + rest, skip) == |text| + 1
  {
    BodyOf([], text, c, rest, skip);
    assert [] + text + [c] + rest == text + [c] + rest;
    NumberIsBody(text, skip);
  }

  lemma OneDigit(c: byte, skip: byte)
    requires 48 <= c <= 57 && c != skip
    ensures Result([c], skip) == c - 48
  {
    var text := [c];
    NumberIsBody(text, skip);
    ValueNext(text, 0, skip);
    assert text[..1] == text && text[..0] == [];
  }

  /** One character more: a digit goes behind the number, the skip character changes nothing, even if
      it is a digit. */
  lemma DigitAppends(text: seq<byte>, c: byte, skip: byte)
    requires Number(text, skip) && text[0] != 45 && (48 <= c <= 57 || c == skip)
    ensures Result(text + [c], skip) == if c == skip then Result(text, skip) else 10 * Result(text, skip) + (c - 48)
  {
    NumberIsBody(text, skip);
    NumberIsBody(text + [c], skip);
    assert (text + [c])[..|text|] == text;
  }

  /** A stream that ends, or has a NUL, before any digit and minus sign gives 0. */
  lemma {:induction false} NothingIsZero(s: seq<byte>, n: nat, skip: byte)
    requires n <= |s| && skip != 0 && forall k :: 0 <= k < n ==> Passed(s[k])
    requires n == |s| || s[n] == 0
    ensures LeadLength(s) == n && Body(s, skip) == [] && Result(s, skip) == 0
    ensures Consumed(s, skip) == if n < |s| then n + 1 else n
  {
    if n > 0 {
      NothingIsZero(s[1..], n - 1, skip);
    }
  }
}
