/** Turning a human-readable name into a file-system safe slug. */
module Slug {
  import opened Text

  const UNNAMED := "unnamed"

  predicate LowerOrDigit(c: char) { 'a' <= c <= 'z' || '0' <= c <= '9' }

  predicate Blank(c: char) { IsSpace(c) || c == '_' }

  predicate Dash(c: char) { c == '-' }

  predicate Kept(c: char) { LowerOrDigit(c) || c == '.' || c == '-' }

  predicate Stripped(c: char) { c == '-' || c == '.' }

  /**
   * Lower case of one character, as far as a slug can see it: apart from `A` to `Z`, only the Kelvin sign and
   * the dotted capital I turn into something that holds a letter `a` to `z`. Any other character outside ASCII
   * stays outside ASCII, and is dropped later whatever it becomes.
   */
  function LowerChar(c: char): string {
    if 'A' <= c <= 'Z' then [(c as int - 'A' as int + 'a' as int) as char]
    else if c == '\U{212A}' then "k"
    else if c == '\U{0130}' then "i\U{0307}"
    else [c]
  }

  function Lower(s: string): string {
    if s == "" then "" else LowerChar(s[0]) + Lower(s[1..])
  }

  function SkipWhile(s: string, p: char -> bool): (r: string)
    ensures |r| <= |s|
  {
    if s != "" && p(s[0]) then SkipWhile(s[1..], p) else s
  }

  function SkipWhileEnd(s: string, p: char -> bool): string {
    if s != "" && p(s[|s| - 1]) then SkipWhileEnd(s[..|s| - 1], p) else s
  }

  /** Replace every maximal run of characters in `p` by one dash. */
  function Collapse(s: string, p: char -> bool): string
    decreases |s|
  {
    if s == "" then ""
    else if p(s[0]) then "-" + Collapse(SkipWhile(s[1..], p), p)
    else [s[0]] + Collapse(s[1..], p)
  }

  /** Drop the characters outside `p`. */
  function Keep(s: string, p: char -> bool): string {
    if s == "" then ""
    else if p(s[0]) then [s[0]] + Keep(s[1..], p)
    else Keep(s[1..], p)
  }

  function Strip(s: string, p: char -> bool): string { SkipWhileEnd(SkipWhile(s, p), p) }

  function Slugify(name: string): string {
    var slug := Strip(Collapse(Keep(Collapse(Lower(Trim(name)), Blank), Kept), Dash), Stripped);
    if slug == "" then UNNAMED else slug
  }

  // ---------- the shape of a slug ----------

  predicate All(s: string, p: char -> bool) { forall i :: 0 <= i < |s| ==> p(s[i]) }

  predicate PairAt(s: string, i: nat) { i + 1 < |s| && s[i] == '-' && s[i + 1] == '-' }

  predicate HasPair(s: string) { exists i: nat | i < |s| :: PairAt(s, i) }

  /** Not empty, only `a-z0-9.-`, no two dashes in a row, a letter or digit at both ends. */
  predicate SlugShape(s: string) {
    s != "" && All(s, Kept) && !HasPair(s) && LowerOrDigit(s[0]) && LowerOrDigit(s[|s| - 1])
  }

  lemma PairInStretch(s: string, i: nat, j: nat)
    requires i <= j <= |s| && HasPair(s[i..j])
    ensures HasPair(s)
  {
    var k: nat :| k < |s[i..j]| && PairAt(s[i..j], k);
    assert PairAt(s, i + k);
  }

  lemma PairAfter(c: char, s: string)
    requires HasPair([c] + s)
    ensures HasPair(s) || (c == '-' && s != "" && s[0] == '-')
  {
    var t := [c] + s;
    var k: nat :| k < |t| && PairAt(t, k);
    if k > 0 { assert PairAt(s, k - 1); }
  }

  lemma {:induction false} SkipIsSuffix(s: string, p: char -> bool)
    ensures var r := SkipWhile(s, p); r == s[|s| - |r|..] && (r != "" ==> !p(r[0]))
  {
    if s != "" && p(s[0]) { SkipIsSuffix(s[1..], p); }
  }

  lemma {:induction false} SkipEndIsPrefix(s: string, p: char -> bool)
    ensures var r := SkipWhileEnd(s, p); |r| <= |s| && r == s[..|r|] && (r != "" ==> !p(r[|r| - 1]))
  {
    if s != "" && p(s[|s| - 1]) { SkipEndIsPrefix(s[..|s| - 1], p); }
  }

  lemma {:induction false} KeepAll(s: string, p: char -> bool)
    ensures All(Keep(s, p), p)
    ensures All(s, p) ==> Keep(s, p) == s
  {
    if s != "" {
      KeepAll(s[1..], p);
      assert All(s, p) ==> All(s[1..], p);
    }
  }

  /** Collapsing dashes leaves no two in a row, and starts with a dash only where the text did. */
  lemma {:induction false} CollapseDashes(s: string)
    ensures !HasPair(Collapse(s, Dash))
    ensures var r := Collapse(s, Dash); r != "" && r[0] == '-' ==> s[0] == '-'
    decreases |s|
  {
    if s != "" {
      var rest := if Dash(s[0]) then SkipWhile(s[1..], Dash) else s[1..];
      CollapseDashes(rest);
      SkipIsSuffix(s[1..], Dash);
      var tail := Collapse(rest, Dash);
      assert Collapse(s, Dash) == [s[0]] + tail;
      if HasPair([s[0]] + tail) { PairAfter(s[0], tail); }
    }
  }

  lemma {:induction false} CollapseKeepsKind(s: string)
    requires All(s, Kept)
    ensures All(Collapse(s, Dash), Kept)
    decreases |s|
  {
    if s != "" {
      var rest := if Dash(s[0]) then SkipWhile(s[1..], Dash) else s[1..];
      SkipIsSuffix(s[1..], Dash);
      assert rest == s[|s| - |rest|..];
      CollapseKeepsKind(rest);
      assert Collapse(s, Dash) == [s[0]] + Collapse(rest, Dash);
    }
  }

  /** Cutting both ends leaves a stretch of the text. */
  lemma StripIsStretch(s: string, p: char -> bool) returns (i: nat)
    ensures var r := Strip(s, p); i + |r| <= |s| && r == s[i..i + |r|]
    ensures var r := Strip(s, p); r != "" ==> !p(r[0]) && !p(r[|r| - 1])
  {
    var t := SkipWhile(s, p);
    SkipIsSuffix(s, p);
    SkipEndIsPrefix(t, p);
    i := |s| - |t|;
  }

  /** Every name gives a slug of the promised shape. */
  lemma SlugHasShape(name: string)
    ensures SlugShape(Slugify(name))
  {
    var kept := Keep(Collapse(Lower(Trim(name)), Blank), Kept);
    KeepAll(Collapse(Lower(Trim(name)), Blank), Kept);
    CollapseDashes(kept);
    CollapseKeepsKind(kept);
    var s := Collapse(kept, Dash);
    var i := StripIsStretch(s, Stripped);
    var r := Strip(s, Stripped);
    assert forall k :: 0 <= k < |r| ==> r[k] == s[i + k];
    if HasPair(r) { PairInStretch(s, i, i + |r|); }
    assert UNNAMED[0] == 'u' && SlugShape(UNNAMED);
  }

  // ---------- slugs are the fixed points ----------

  lemma {:induction false} LowerSame(s: string)
    requires All(s, Kept)
    ensures Lower(s) == s
  {
    if s != "" {
      assert All(s[1..], Kept);
      LowerSame(s[1..]);
    }
  }

  lemma {:induction false} CollapseSame(s: string, p: char -> bool)
    requires forall i :: 0 <= i < |s| ==> !p(s[i])
    ensures Collapse(s, p) == s
  {
    if s != "" { CollapseSame(s[1..], p); }
  }

  lemma {:induction false} SingleDashesSame(s: string)
    requires !HasPair(s)
    ensures Collapse(s, Dash) == s
  {
    if s != "" {
      assert s[1..|s|] == s[1..];
      if HasPair(s[1..]) { PairInStretch(s, 1, |s|); }
      assert !PairAt(s, 0);
      SingleDashesSame(s[1..]);
    }
  }

  lemma SlugStaysSlug(name: string)
    requires SlugShape(name)
    ensures Slugify(name) == name
  {
    EndsStay(name);
    MiddleStays(name);
  }

  lemma MiddleStays(s: string)
    requires All(s, Kept) && !HasPair(s)
    ensures Collapse(Keep(Collapse(Lower(s), Blank), Kept), Dash) == s
  {
    LowerSame(s);
    CollapseSame(s, Blank);
    KeepAll(s, Kept);
    SingleDashesSame(s);
  }

  lemma EndsStay(name: string)
    requires name != "" && LowerOrDigit(name[0]) && LowerOrDigit(name[|name| - 1])
    ensures Trim(name) == name && Strip(name, Stripped) == name
  {
    assert SkipWhile(name, Stripped) == name;
  }

  /** A name is its own slug exactly when it already has the shape of a slug. */
  lemma SlugsAreFixedPoints(name: string)
    ensures Slugify(name) == name <==> SlugShape(name)
  {
    SlugHasShape(name);
    if SlugShape(name) {
      SlugStaysSlug(name);
    }
  }

  /** Slugging a slug changes nothing. */
  lemma SlugifyIsIdempotent(name: string)
    ensures Slugify(Slugify(name)) == Slugify(name)
  {
    SlugHasShape(name);
    SlugsAreFixedPoints(Slugify(name));
  }

  // ---------- letters and digits are kept ----------

  ghost predicate Apart(p: char -> bool, q: char -> bool) { forall c :: !(p(c) && q(c)) }

  lemma KeepCons(c: char, s: string, q: char -> bool)
    ensures Keep([c] + s, q) == if q(c) then [c] + Keep(s, q) else Keep(s, q)
  {
    assert ([c] + s)[1..] == s;
  }

  lemma {:induction false} KeepAppend(a: string, b: string, q: char -> bool)
    ensures Keep(a + b, q) == Keep(a, q) + Keep(b, q)
  {
    if a == "" {
      assert a + b == b;
    } else {
      assert (a + b)[1..] == a[1..] + b;
      KeepAppend(a[1..], b, q);
    }
  }

  lemma {:induction false} SkipKeeps(s: string, p: char -> bool, q: char -> bool)
    requires Apart(p, q)
    ensures Keep(SkipWhile(s, p), q) == Keep(s, q)
  {
    if s != "" && p(s[0]) { SkipKeeps(s[1..], p, q); }
  }

  lemma {:induction false} SkipEndKeeps(s: string, p: char -> bool, q: char -> bool)
    requires Apart(p, q)
    ensures Keep(SkipWhileEnd(s, p), q) == Keep(s, q)
  {
    if s != "" && p(s[|s| - 1]) {
      var init, last := s[..|s| - 1], [s[|s| - 1]];
      SkipEndKeeps(init, p, q);
      assert s == init + last && last[1..] == "";
      KeepAppend(init, last, q);
    }
  }

  lemma {:induction false} CollapseKeeps(s: string, p: char -> bool, q: char -> bool)
    requires Apart(p, q) && !q('-')
    ensures Keep(Collapse(s, p), q) == Keep(s, q)
    decreases |s|
  {
    if s != "" {
      var rest := if p(s[0]) then SkipWhile(s[1..], p) else s[1..];
      CollapseKeeps(rest, p, q);
      SkipKeeps(s[1..], p, q);
    }
  }

  lemma {:induction false} KeepKeeps(s: string, p: char -> bool, q: char -> bool)
    requires forall c :: q(c) ==> p(c)
    ensures Keep(Keep(s, p), q) == Keep(s, q)
  {
    if s != "" {
      KeepKeeps(s[1..], p, q);
      KeepCons(s[0], Keep(s[1..], p), q);
    }
  }

  lemma {:induction false} TrimStartLowerKeeps(s: string)
    ensures Keep(Lower(TrimStart(s)), LowerOrDigit) == Keep(Lower(s), LowerOrDigit)
  {
    if s != "" && IsSpace(s[0]) {
      TrimStartLowerKeeps(s[1..]);
      assert Lower(s) == [s[0]] + Lower(s[1..]);
    }
  }

  lemma {:induction false} LowerAppend(a: string, b: string)
    ensures Lower(a + b) == Lower(a) + Lower(b)
  {
    if a == "" {
      assert a + b == b;
    } else {
      assert (a + b)[1..] == a[1..] + b;
      LowerAppend(a[1..], b);
    }
  }

  lemma LastSpaceLowerKeeps(s: string, c: char)
    requires IsSpace(c)
    ensures Keep(Lower(s + [c]), LowerOrDigit) == Keep(Lower(s), LowerOrDigit)
  {
    LowerAppend(s, [c]);
    LoneSpace(c);
    KeepAppend(Lower(s), [c], LowerOrDigit);
  }

  lemma LoneSpace(c: char)
    requires IsSpace(c)
    ensures Lower([c]) == [c] && Keep([c], LowerOrDigit) == ""
  {
    assert [c][1..] == "" && LowerChar(c) == [c];
    assert LowerChar(c) + "" == [c];
  }

  lemma {:induction false} TrimEndLowerKeeps(s: string)
    ensures Keep(Lower(TrimEnd(s)), LowerOrDigit) == Keep(Lower(s), LowerOrDigit)
  {
    if s != "" && IsSpace(s[|s| - 1]) {
      TrimEndLowerKeeps(s[..|s| - 1]);
      assert s == s[..|s| - 1] + [s[|s| - 1]];
      LastSpaceLowerKeeps(s[..|s| - 1], s[|s| - 1]);
    }
  }

  /**
   * The letters and digits of a slug are those of the lower-cased name, all of them and in order; the fallback is
   * given exactly to names that have none.
   */
  lemma LettersKept(name: string)
    ensures var letters := Keep(Lower(name), LowerOrDigit);
            if letters == "" then Slugify(name) == UNNAMED else Keep(Slugify(name), LowerOrDigit) == letters
  {
    TrimStartLowerKeeps(name);
    TrimEndLowerKeeps(TrimStart(name));
    var lower := Lower(Trim(name));
    var slug := Strip(Collapse(Keep(Collapse(lower, Blank), Kept), Dash), Stripped);
    StagesKeepLetters(lower);
    if slug != "" {
      SlugHasShape(name);
      assert Keep(slug, LowerOrDigit)[0] == slug[0];
    }
  }

  lemma StagesKeepLetters(lower: string)
    ensures Keep(Strip(Collapse(Keep(Collapse(lower, Blank), Kept), Dash), Stripped), LowerOrDigit)
         == Keep(lower, LowerOrDigit)
  {
    CollapseKeeps(lower, Blank, LowerOrDigit);
    var dashed := Collapse(lower, Blank);
    KeepKeeps(dashed, Kept, LowerOrDigit);
    CollapseKeeps(Keep(dashed, Kept), Dash, LowerOrDigit);
    var single := Collapse(Keep(dashed, Kept), Dash);
    SkipKeeps(single, Stripped, LowerOrDigit);
    SkipEndKeeps(SkipWhile(single, Stripped), Stripped, LowerOrDigit);
  }

  // ---------- words are joined by single dashes ----------

  predicate WordChar(c: char) { LowerOrDigit(c) || 'A' <= c <= 'Z' }

  predicate Words(words: seq<string>) { forall i :: 0 <= i < |words| ==> words[i] != "" && All(words[i], WordChar) }

  predicate Gaps(gaps: seq<string>) { forall i :: 0 <= i < |gaps| ==> gaps[i] != "" && All(gaps[i], Blank) }

  /** Words with blanks or underscores between them. */
  function Spaced(words: seq<string>, gaps: seq<string>): string
    requires |words| == |gaps| + 1
    decreases |words|
  {
    if gaps == [] then words[0] else words[0] + (gaps[0] + Spaced(words[1..], gaps[1..]))
  }

  function LowerAll(words: seq<string>): seq<string> {
    if words == [] then [] else [Lower(words[0])] + LowerAll(words[1..])
  }

  lemma {:induction false} LowerWord(w: string)
    requires All(w, WordChar)
    ensures |Lower(w)| == |w| && All(Lower(w), LowerOrDigit)
  {
    if w != "" {
      assert All(w[1..], WordChar);
      LowerWord(w[1..]);
      assert |LowerChar(w[0])| == 1;
      assert forall i :: 1 <= i < |w| ==> Lower(w)[i] == Lower(w[1..])[i - 1];
    }
  }

  lemma {:induction false} LowerGap(g: string)
    requires All(g, Blank)
    ensures Lower(g) == g
  {
    if g != "" {
      assert All(g[1..], Blank);
      LowerGap(g[1..]);
    }
  }

  lemma CollapseCons(c: char, s: string)
    requires !Blank(c)
    ensures Collapse([c] + s, Blank) == [c] + Collapse(s, Blank)
  {
    assert ([c] + s)[1..] == s;
  }

  lemma FirstOff(w: string, rest: string)
    requires w != ""
    ensures w + rest == [w[0]] + (w[1..] + rest)
  {
  }

  lemma {:induction false} CollapseWord(w: string, rest: string)
    requires All(w, LowerOrDigit)
    ensures Collapse(w + rest, Blank) == w + Collapse(rest, Blank)
  {
    if w == "" {
      assert w + rest == rest;
    } else {
      assert All(w[1..], LowerOrDigit);
      CollapseWord(w[1..], rest);
      CollapseCons(w[0], w[1..] + rest);
      FirstOff(w, rest);
      FirstOff(w, Collapse(rest, Blank));
    }
  }

  lemma {:induction false} SkipGap(g: string, rest: string)
    requires All(g, Blank) && rest != "" && !Blank(rest[0])
    ensures SkipWhile(g + rest, Blank) == rest
  {
    if g == "" {
      assert g + rest == rest;
    } else {
      assert (g + rest)[1..] == g[1..] + rest;
      assert All(g[1..], Blank);
      SkipGap(g[1..], rest);
    }
  }

  lemma CollapseGap(g: string, rest: string)
    requires g != "" && All(g, Blank) && rest != "" && !Blank(rest[0])
    ensures Collapse(g + rest, Blank) == "-" + Collapse(rest, Blank)
  {
    assert (g + rest)[1..] == g[1..] + rest;
    assert All(g[1..], Blank);
    SkipGap(g[1..], rest);
  }

  lemma {:induction false} SpacedCollapses(words: seq<string>, gaps: seq<string>)
    requires |words| == |gaps| + 1 && Words(words) && Gaps(gaps)
    ensures var t := Lower(Spaced(words, gaps));
            t != "" && LowerOrDigit(t[0]) && Collapse(t, Blank) == Join(LowerAll(words), '-')
    decreases |words|
  {
    var w := Lower(words[0]);
    LowerWord(words[0]);
    if gaps == [] {
      assert w + "" == w;
      CollapseWord(w, "");
      assert words[1..] == [] && LowerAll(words) == [w];
    } else {
      SpacedCollapses(words[1..], gaps[1..]);
      OneGap(words[0], gaps[0], Spaced(words[1..], gaps[1..]));
      assert LowerAll(words)[1..] == LowerAll(words[1..]);
    }
  }

  lemma LowerOneGap(word: string, gap: string, rest: string)
    requires All(gap, Blank)
    ensures Lower(word + (gap + rest)) == Lower(word) + (gap + Lower(rest))
  {
    LowerGap(gap);
    LowerAppend(word, gap + rest);
    LowerAppend(gap, rest);
  }

  lemma Regroup(a: string, b: string, c: string)
    ensures a + (b + c) == a + b + c
  {
  }

  lemma CollapseOneGap(w: string, gap: string, t: string)
    requires All(w, LowerOrDigit) && gap != "" && All(gap, Blank) && t != "" && LowerOrDigit(t[0])
    ensures Collapse(w + (gap + t), Blank) == w + "-" + Collapse(t, Blank)
  {
    CollapseWord(w, gap + t);
    CollapseGap(gap, t);
    Regroup(w, "-", Collapse(t, Blank));
  }

  lemma OneGap(word: string, gap: string, rest: string)
    requires word != "" && All(word, WordChar) && gap != "" && All(gap, Blank)
    requires Lower(rest) != "" && LowerOrDigit(Lower(rest)[0])
    ensures var t := Lower(word + (gap + rest));
            t != "" && LowerOrDigit(t[0]) && Collapse(t, Blank) == Lower(word) + "-" + Collapse(Lower(rest), Blank)
  {
    var w, r := Lower(word), Lower(rest);
    LowerWord(word);
    LowerOneGap(word, gap, rest);
    CollapseOneGap(w, gap, r);
    assert (w + (gap + r))[0] == w[0];
  }

  lemma {:induction false} LowerAllSpec(words: seq<string>)
    requires Words(words)
    ensures |LowerAll(words)| == |words|
    ensures forall i :: 0 <= i < |words| ==> LowerAll(words)[i] != "" && All(LowerAll(words)[i], LowerOrDigit)
  {
    if words != [] {
      LowerWord(words[0]);
      assert forall i :: 0 <= i < |words[1..]| ==> words[1..][i] == words[i + 1];
      LowerAllSpec(words[1..]);
    }
  }

  lemma {:induction false} JoinedShape(words: seq<string>)
    requires words != [] && forall i :: 0 <= i < |words| ==> words[i] != "" && All(words[i], LowerOrDigit)
    ensures SlugShape(Join(words, '-'))
    decreases |words|
  {
    var w := words[0];
    if |words| == 1 {
      assert !HasPair(w);
    } else {
      assert forall i :: 0 <= i < |words[1..]| ==> words[1..][i] == words[i + 1];
      JoinedShape(words[1..]);
      var t := Join(words[1..], '-');
      assert Join(words, '-') == w + "-" + t;
      DashBetween(w, t);
    }
  }

  lemma DashBetween(w: string, t: string)
    requires w != "" && All(w, LowerOrDigit) && SlugShape(t)
    ensures SlugShape(w + "-" + t)
  {
    var s := w + "-" + t;
    assert s[|s| - 1] == t[|t| - 1] && s[0] == w[0];
    if HasPair(s) {
      var i: nat :| i < |s| && PairAt(s, i);
      assert i > |w|;
      assert PairAt(t, i - |w| - 1);
    }
  }

  lemma {:induction false} SpacedEnds(words: seq<string>, gaps: seq<string>)
    requires |words| == |gaps| + 1 && Words(words)
    ensures var s := Spaced(words, gaps); s != "" && WordChar(s[0]) && WordChar(s[|s| - 1])
    decreases |words|
  {
    if gaps != [] {
      assert forall i :: 0 <= i < |words[1..]| ==> words[1..][i] == words[i + 1];
      SpacedEnds(words[1..], gaps[1..]);
      var rest := Spaced(words[1..], gaps[1..]);
      var s := Spaced(words, gaps);
      assert s[|s| - 1] == rest[|rest| - 1] && s[0] == words[0][0];
    }
  }

  /** Words of letters and digits become their lower-case forms with one dash for each gap, however wide. */
  lemma WordsAreDashed(words: seq<string>, gaps: seq<string>)
    requires |words| == |gaps| + 1 && Words(words) && Gaps(gaps)
    ensures Slugify(Spaced(words, gaps)) == Join(LowerAll(words), '-')
  {
    var name := Spaced(words, gaps);
    SpacedEnds(words, gaps);
    assert Trim(name) == name;
    SpacedCollapses(words, gaps);
    LowerAllSpec(words);
    JoinedShape(LowerAll(words));
    var slug := Join(LowerAll(words), '-');
    KeepAll(slug, Kept);
    SingleDashesSame(slug);
    EndsStay(slug);
  }

  // ---------- dots come only from dots ----------

  lemma {:induction false} TrimEndKeepsOut(s: string, c: char)
    requires c !in s
    ensures c !in TrimEnd(s)
  {
    if s != "" && IsSpace(s[|s| - 1]) { TrimEndKeepsOut(s[..|s| - 1], c); }
  }

  lemma {:induction false} TrimStartKeepsOut(s: string, c: char)
    requires c !in s
    ensures c !in TrimStart(s)
  {
    if s != "" && IsSpace(s[0]) { TrimStartKeepsOut(s[1..], c); }
  }

  lemma {:induction false} LowerKeepsOut(s: string)
    requires '.' !in s
    ensures '.' !in Lower(s)
  {
    if s != "" { LowerKeepsOut(s[1..]); }
  }

  lemma {:induction false} CollapseKeepsOut(s: string, p: char -> bool)
    requires '.' !in s
    ensures '.' !in Collapse(s, p)
    decreases |s|
  {
    if s != "" {
      SkipIsSuffix(s[1..], p);
      CollapseKeepsOut(if p(s[0]) then SkipWhile(s[1..], p) else s[1..], p);
    }
  }

  lemma {:induction false} KeepKeepsOut(s: string, p: char -> bool)
    requires '.' !in s
    ensures '.' !in Keep(s, p)
  {
    if s != "" { KeepKeepsOut(s[1..], p); }
  }

  lemma NoDotNoDot(name: string)
    requires '.' !in name
    ensures '.' !in Slugify(name)
  {
    TrimStartKeepsOut(name, '.');
    TrimEndKeepsOut(TrimStart(name), '.');
    LowerKeepsOut(Trim(name));
    CollapseKeepsOut(Lower(Trim(name)), Blank);
    var blanked := Collapse(Lower(Trim(name)), Blank);
    KeepKeepsOut(blanked, Kept);
    CollapseKeepsOut(Keep(blanked, Kept), Dash);
    var i := StripIsStretch(Collapse(Keep(blanked, Kept), Dash), Stripped);
  }
}
