/** Scrubbing token-like runs from text that reaches stderr. */
module Redaction {
  import opened Text

  const MIN_RUN := 20
  const MARK := "[REDACTED]"

  /** The length of the longest run of token characters at the start. */
  function RunLength(s: string): (n: nat)
    ensures n <= |s|
  {
    if s != "" && TokenChar(s[0]) then 1 + RunLength(s[1..]) else 0
  }

  /** Greedy, leftmost replacement of every run of 20 or more token characters. */
  function RedactTokenLike(s: string): string
    decreases |s|
  {
    if s == "" then ""
    else if RunLength(s) >= MIN_RUN then MARK + RedactTokenLike(s[RunLength(s)..])
    else if RunLength(s) > 0 then s[..RunLength(s)] + RedactTokenLike(s[RunLength(s)..])
    else [s[0]] + RedactTokenLike(s[1..])
  }

  /** `k` token characters in a row starting at `i`. */
  predicate RunAt(s: string, i: nat, k: nat) {
    i + k <= |s| && forall j :: i <= j < i + k ==> TokenChar(s[j])
  }

  predicate HasRun(s: string, k: nat) {
    exists i: nat | i < |s| :: RunAt(s, i, k)
  }

  lemma {:induction false} RunLengthSpec(s: string)
    ensures RunAt(s, 0, RunLength(s))
    ensures RunLength(s) < |s| ==> !TokenChar(s[RunLength(s)])
  {
    if s != "" && TokenChar(s[0]) {
      RunLengthSpec(s[1..]);
      assert forall j :: 1 <= j < 1 + RunLength(s[1..]) ==> s[j] == s[1..][j - 1];
    }
  }

  /** A run cannot span a character that is no token character. */
  lemma RunSplit(a: string, c: char, b: string, k: nat)
    requires !TokenChar(c) && k > 0 && HasRun(a + [c] + b, k)
    ensures HasRun(a, k) || HasRun(b, k)
  {
    var s := a + [c] + b;
    var i: nat :| i < |s| && RunAt(s, i, k);
    assert s[|a|] == c;
    if i + k <= |a| {
      assert forall j :: i <= j < i + k ==> s[j] == a[j];
      assert RunAt(a, i, k);
    } else {
      var m := |a| + 1;
      assert i >= m;
      assert forall j :: i - m <= j < i - m + k ==> s[j + m] == b[j];
      assert RunAt(b, i - m, k);
    }
  }

  /** What a redacted text starts with is no token character, unless the text itself started with a short run. */
  lemma RedactedHead(s: string)
    requires s != "" && (!TokenChar(s[0]) || RunLength(s) >= MIN_RUN)
    ensures RedactTokenLike(s) != "" && !TokenChar(RedactTokenLike(s)[0])
  {
  }

  /** A short piece, a character that ends any run, and a rest without long runs: no long run anywhere. */
  lemma NoRunAcross(a: string, c: char, b: string)
    requires |a| < MIN_RUN && !TokenChar(c) && !HasRun(b, MIN_RUN)
    ensures !HasRun(a + [c] + b, MIN_RUN)
  {
    assert !HasRun(a, MIN_RUN);
    if HasRun(a + [c] + b, MIN_RUN) { RunSplit(a, c, b, MIN_RUN); }
  }

  lemma NoRunInTail(s: string)
    requires s != "" && !HasRun(s, MIN_RUN)
    ensures !HasRun(s[1..], MIN_RUN)
  {
    if HasRun(s[1..], MIN_RUN) { RunInSuffix(s, 1); }
  }

  lemma RunInSuffix(s: string, k: nat)
    requires k <= |s| && HasRun(s[k..], MIN_RUN)
    ensures HasRun(s, MIN_RUN)
  {
    var t := s[k..];
    var i: nat :| i < |t| && RunAt(t, i, MIN_RUN);
    assert forall j :: k + i <= j < k + i + MIN_RUN ==> s[j] == t[j - k];
    assert RunAt(s, k + i, MIN_RUN);
  }

  /** What one step of the scan puts before the redacted rest. */
  function Piece(s: string): string
    requires s != ""
  {
    if RunLength(s) >= MIN_RUN then MARK else s[..Step(s)]
  }

  /** How far one step of the scan gets. */
  function Step(s: string): (k: nat)
    requires s != ""
    ensures 0 < k <= |s|
  {
    if RunLength(s) > 0 then RunLength(s) else 1
  }

  lemma NoRunAfterMark(rest: string)
    requires !HasRun(rest, MIN_RUN)
    ensures !HasRun(MARK + rest, MIN_RUN)
  {
    assert MARK + rest == "[REDACTED" + [']'] + rest;
    NoRunAcross("[REDACTED", ']', rest);
  }

  lemma NoRunAfterShort(a: string, rest: string)
    requires |a| < MIN_RUN && !HasRun(rest, MIN_RUN)
    requires rest == "" || !TokenChar(rest[0])
    ensures !HasRun(a + rest, MIN_RUN)
  {
    if rest == "" {
      assert |a + rest| < MIN_RUN;
    } else {
      NoRunInTail(rest);
      assert a + rest == a + [rest[0]] + rest[1..];
      NoRunAcross(a, rest[0], rest[1..]);
    }
  }

  lemma NoRunAfterOther(c: char, rest: string)
    requires !TokenChar(c) && !HasRun(rest, MIN_RUN)
    ensures !HasRun([c] + rest, MIN_RUN)
  {
    assert [c] + rest == "" + [c] + rest;
    NoRunAcross("", c, rest);
  }

  /** No run of 20 or more token characters survives, wherever it starts. */
  lemma {:induction false} NoRunSurvives(s: string)
    ensures !HasRun(RedactTokenLike(s), MIN_RUN)
    decreases |s|
  {
    if s != "" {
      var n := RunLength(s);
      var rest := RedactTokenLike(s[Step(s)..]);
      assert RedactTokenLike(s) == Piece(s) + rest;
      NoRunSurvives(s[Step(s)..]);
      if n >= MIN_RUN {
        NoRunAfterMark(rest);
      } else if n > 0 {
        ShortRunEnds(s);
        NoRunAfterShort(s[..n], rest);
      } else {
        assert s[..1] == [s[0]];
        NoRunAfterOther(s[0], rest);
      }
    }
  }

  /** A run is maximal: the redacted text behind it starts with no token character. */
  lemma ShortRunEnds(s: string)
    requires s != "" && RunLength(s) > 0
    ensures var rest := RedactTokenLike(s[RunLength(s)..]); rest == "" || !TokenChar(rest[0])
  {
    RunLengthSpec(s);
    var t := s[RunLength(s)..];
    if t != "" {
      assert t[0] == s[RunLength(s)];
      RedactedHead(t);
    }
  }

  /** A text is returned unchanged exactly when it holds no such run. */
  lemma {:induction false} UnchangedIffNoRun(s: string)
    ensures RedactTokenLike(s) == s <==> !HasRun(s, MIN_RUN)
  {
    if !HasRun(s, MIN_RUN) { NoRunUnchanged(s); }
    else { NoRunSurvives(s); }
  }

  lemma {:induction false} NoRunUnchanged(s: string)
    requires !HasRun(s, MIN_RUN)
    ensures RedactTokenLike(s) == s
    decreases |s|
  {
    if s != "" {
      var n := RunLength(s);
      RunLengthSpec(s);
      assert n < MIN_RUN by {
        if n >= MIN_RUN { assert RunAt(s, 0, MIN_RUN); }
      }
      var k := if n > 0 then n else 1;
      if HasRun(s[k..], MIN_RUN) { RunInSuffix(s, k); }
      NoRunUnchanged(s[k..]);
      assert s == s[..k] + s[k..];
    }
  }

  /** Redacting twice is redacting once. */
  lemma RedactIsIdempotent(s: string)
    ensures RedactTokenLike(RedactTokenLike(s)) == RedactTokenLike(s)
  {
    NoRunSurvives(s);
    NoRunUnchanged(RedactTokenLike(s));
  }

  const TOKEN_LENGTH := 43

  /** The base64url digits, in which a minted token is written. */
  function UrlDigit(v: nat): char
    requires v < 64
  {
    if v < 26 then 'A' + v as char
    else if v < 52 then 'a' + (v - 26) as char
    else if v < 62 then '0' + (v - 52) as char
    else if v == 62 then '-'
    else '_'
  }

  predicate AreDigits(digits: seq<nat>) { forall i :: 0 <= i < |digits| ==> digits[i] < 64 }

  function Written(digits: seq<nat>): string
    requires AreDigits(digits)
  {
    seq(|digits|, i requires 0 <= i < |digits| => UrlDigit(digits[i]))
  }

  /** No minted token, 43 base64url digits in a row, can occur anywhere in redacted output, whatever surrounds it. */
  lemma NoTokenLeaks(s: string, digits: seq<nat>, before: string, after: string)
    requires |digits| == TOKEN_LENGTH && AreDigits(digits)
    ensures RedactTokenLike(s) != before + Written(digits) + after
  {
    NoRunSurvives(s);
    TokenIsRun(Written(digits), before, after);
  }

  lemma TokenIsRun(token: string, before: string, after: string)
    requires |token| >= MIN_RUN && forall i :: 0 <= i < |token| ==> TokenChar(token[i])
    ensures HasRun(before + token + after, MIN_RUN)
  {
    var r := before + token + after;
    assert forall j :: |before| <= j < |before| + MIN_RUN ==> r[j] == token[j - |before|];
    assert RunAt(r, |before|, MIN_RUN);
  }

  // ---------- everything else is kept ----------

  /** One stretch of a text: a maximal run of token characters, or a single other character. */
  function Stretches(s: string): seq<string>
    decreases |s|
  {
    if s == "" then []
    else
      var k := if RunLength(s) > 0 then RunLength(s) else 1;
      [s[..k]] + Stretches(s[k..])
  }

  function Concat(parts: seq<string>): string {
    if parts == [] then "" else parts[0] + Concat(parts[1..])
  }

  function Masked(part: string): string {
    if RunLength(part) >= MIN_RUN then MARK else part
  }

  function MaskedAll(parts: seq<string>): seq<string> {
    if parts == [] then [] else [Masked(parts[0])] + MaskedAll(parts[1..])
  }

  /** Redaction treats the first stretch and goes on with the rest. */
  lemma RedactsFirst(s: string, k: nat)
    requires s != "" && k == if RunLength(s) > 0 then RunLength(s) else 1
    ensures RedactTokenLike(s) == Masked(s[..k]) + RedactTokenLike(s[k..])
  {
    RunOfPrefix(s, k);
    assert s[..1] == [s[0]];
  }

  lemma ConcatCons(part: string, parts: seq<string>)
    ensures Concat([part] + parts) == part + Concat(parts)
    ensures MaskedAll([part] + parts) == [Masked(part)] + MaskedAll(parts)
  {
    assert ([part] + parts)[1..] == parts;
  }

  /** The output is the input with each over-long run replaced by the mark, and every other stretch in its place. */
  lemma {:induction false} RedactsStretchwise(s: string)
    ensures Concat(Stretches(s)) == s
    ensures RedactTokenLike(s) == Concat(MaskedAll(Stretches(s)))
    decreases |s|
  {
    if s != "" {
      var k := if RunLength(s) > 0 then RunLength(s) else 1;
      var rest := Stretches(s[k..]);
      RedactsStretchwise(s[k..]);
      RedactsFirst(s, k);
      ConcatCons(s[..k], rest);
      ConcatCons(Masked(s[..k]), MaskedAll(rest));
      assert s == s[..k] + s[k..];
    }
  }

  lemma {:induction false} RunOfPrefix(s: string, k: nat)
    requires k <= |s| && RunLength(s) <= k
    ensures RunLength(s[..k]) == RunLength(s)
  {
    if s != "" && TokenChar(s[0]) {
      RunOfPrefix(s[1..], k - 1);
      assert s[..k][1..] == s[1..][..k - 1];
    }
  }
}
