/** A slug, character by character: the chain of replacements does what one look at each character does. */
module SlugChars {
  import opened Slug
  import opened Text

  /** What one lower-cased character comes to: itself, a dash, or nothing. */
  function CharOf(c: char): string {
    if 'a' <= c <= 'z' || '0' <= c <= '9' || c == '.' || c == '-' then [c]
    else if IsSpace(c) || c == '_' then "-"
    else ""
  }

  function CharsOf(s: string): string { if s == "" then "" else CharOf(s[0]) + CharsOf(s[1..]) }

  /** Of several dashes in a row only the first stays; `after` says that the text follows a dash. */
  function Single(s: string, after: bool): string {
    if s == "" then ""
    else if s[0] != '-' then [s[0]] + Single(s[1..], false)
    else if after then Single(s[1..], true)
    else "-" + Single(s[1..], true)
  }

  lemma {:induction false} SingleSkips(s: string)
    ensures Single(SkipWhile(s, Dash), true) == Single(s, true)
  {
    if s != "" && Dash(s[0]) { SingleSkips(s[1..]); }
  }

  lemma {:induction false} CollapseIsSingle(s: string)
    ensures Collapse(s, Dash) == Single(s, false)
    ensures s == "" || s[0] != '-' ==> Single(s, true) == Single(s, false)
    decreases |s|
  {
    if s != "" {
      var rest := if Dash(s[0]) then SkipWhile(s[1..], Dash) else s[1..];
      CollapseIsSingle(rest);
      SkipIsSuffix(s[1..], Dash);
      SingleSkips(s[1..]);
    }
  }

  lemma SingleCons(c: char, s: string, after: bool)
    ensures Single([c] + s, after)
         == if c != '-' then [c] + Single(s, false) else if after then Single(s, true) else "-" + Single(s, true)
  {
    assert ([c] + s)[1..] == s;
  }

  /** Blanks behind a dash are dashes behind a dash. */
  lemma {:induction false} BlanksVanish(s: string)
    ensures Single(CharsOf(SkipWhile(s, Blank)), true) == Single(CharsOf(s), true)
  {
    if s != "" && Blank(s[0]) {
      BlanksVanish(s[1..]);
      SingleCons('-', CharsOf(s[1..]), true);
    }
  }

  lemma KeepCons(c: char, s: string)
    ensures Keep([c] + s, Kept) == (if Kept(c) then [c] else "") + Keep(s, Kept)
  {
    assert ([c] + s)[1..] == s;
  }

  lemma {:induction false} StagesAreChars(s: string, after: bool)
    ensures Single(Keep(Collapse(s, Blank), Kept), after) == Single(CharsOf(s), after)
    decreases |s|
  {
    if s != "" {
      var c := s[0];
      if Blank(c) {
        var rest := SkipWhile(s[1..], Blank);
        KeepCons('-', Collapse(rest, Blank));
        StagesAreChars(rest, true);
        BlanksVanish(s[1..]);
        SingleCons('-', Keep(Collapse(rest, Blank), Kept), after);
        SingleCons('-', CharsOf(s[1..]), after);
      } else {
        KeepCons(c, Collapse(s[1..], Blank));
        StagesAreChars(s[1..], false);
        StagesAreChars(s[1..], true);
        StagesAreChars(s[1..], after);
        if Kept(c) {
          SingleCons(c, Keep(Collapse(s[1..], Blank), Kept), after);
          SingleCons(c, CharsOf(s[1..]), after);
        } else {
          assert "" + Keep(Collapse(s[1..], Blank), Kept) == Keep(Collapse(s[1..], Blank), Kept);
          assert "" + CharsOf(s[1..]) == CharsOf(s[1..]);
        }
      }
    }
  }

  predicate Trimmed(s: string) { s != "" ==> s[0] !in "-." && s[|s| - 1] !in "-." }

  predicate OnlyEnds(s: string) { forall i :: 0 <= i < |s| ==> s[i] in "-." }

  lemma {:induction false} SkipsOnlyEnds(s: string)
    ensures var r := SkipWhile(s, Stripped); |r| <= |s| && OnlyEnds(s[..|s| - |r|])
  {
    if s != "" && Stripped(s[0]) {
      SkipsOnlyEnds(s[1..]);
      var r := SkipWhile(s, Stripped);
      assert s[..|s| - |r|] == [s[0]] + s[1..][..|s| - 1 - |r|];
    }
  }

  lemma {:induction false} SkipsOnlyEndsBack(s: string)
    ensures var r := SkipWhileEnd(s, Stripped); |r| <= |s| && OnlyEnds(s[|r|..])
  {
    if s != "" && Stripped(s[|s| - 1]) {
      SkipsOnlyEndsBack(s[..|s| - 1]);
      var r := SkipWhileEnd(s, Stripped);
      assert s[|r|..] == s[..|s| - 1][|r|..] + [s[|s| - 1]];
    }
  }

  /** Stripping cuts off the dashes and dots at both ends, all of them and nothing else. */
  lemma StripCuts(t: string) returns (i: nat, j: nat)
    ensures i <= j <= |t| && Strip(t, Stripped) == t[i..j]
    ensures OnlyEnds(t[..i]) && OnlyEnds(t[j..]) && Trimmed(t[i..j])
  {
    var front := SkipWhile(t, Stripped);
    var core := SkipWhileEnd(front, Stripped);
    SkipIsSuffix(t, Stripped);
    SkipEndIsPrefix(front, Stripped);
    SkipsOnlyEnds(t);
    SkipsOnlyEndsBack(front);
    i := |t| - |front|;
    j := i + |core|;
    assert t[j..] == front[|core|..] && t[i..j] == core;
    if core != "" { assert core[0] == front[0]; }
  }

  lemma SqueezedChars(lower: string)
    ensures Collapse(Keep(Collapse(lower, Blank), Kept), Dash) == Single(CharsOf(lower), false)
  {
    CollapseIsSingle(Keep(Collapse(lower, Blank), Kept));
    StagesAreChars(lower, false);
  }

  /**
   * The slug of a name: trim it and lower its case, take what each character comes to, keep one dash of several in a
   * row, and cut off the dashes and dots at both ends; what is left, or `unnamed` if nothing is.
   */
  lemma SlugByCharacters(name: string) returns (i: nat, j: nat)
    ensures var t := Single(CharsOf(Lower(Trim(name))), false);
      && i <= j <= |t| && OnlyEnds(t[..i]) && OnlyEnds(t[j..]) && Trimmed(t[i..j])
      && Slugify(name) == if i == j then "unnamed" else t[i..j]
  {
    SqueezedChars(Lower(Trim(name)));
    i, j := StripCuts(Single(CharsOf(Lower(Trim(name))), false));
  }
}
