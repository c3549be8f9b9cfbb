/** Which names give a slug with two dots in a row, read off the name in one pass. */
module SlugDots {
  import opened PlanPaths
  import opened Slug
  import opened Text

  // ---------- what a character of a name is to its slug ----------

  datatype Mark = Letter | Dot | Gap | Dropped

  /** A character that lower-cases to a letter or digit, a dot, something that becomes a dash, or none of these. */
  function MarkOf(c: char): Mark {
    if LowerOrDigit(LowerChar(c)[0]) then Letter
    else if c == '.' then Dot
    else if Blank(c) || c == '-' then Gap
    else Dropped
  }

  /**
   * How far a text has come towards a letter, two dots with nothing but dropped characters between them, and another
   * letter: no letter yet, a letter, an open dot after a letter, two dots after a letter, all of it.
   */
  datatype Progress = NoLetter | HasLetter | OpenDot | TwoDots | Inner

  function Move(q: Progress, m: Mark): Progress {
    match (q, m)
    case (Inner, _) => Inner
    case (TwoDots, Letter) => Inner
    case (TwoDots, _) => TwoDots
    case (_, Letter) => HasLetter
    case (NoLetter, _) => NoLetter
    case (HasLetter, Dot) => OpenDot
    case (OpenDot, Dot) => TwoDots
    case (OpenDot, Gap) => HasLetter
    case (_, _) => q
  }

  function Scan(q: Progress, s: string): Progress
    decreases |s|
  {
    if s == "" then q else Scan(Move(q, MarkOf(s[0])), s[1..])
  }

  predicate HasInnerDots(name: string) { Scan(NoLetter, name) == Inner }

  lemma {:induction false} ScanAppend(q: Progress, a: string, b: string)
    ensures Scan(q, a + b) == Scan(Scan(q, a), b)
    decreases |a|
  {
    if a == "" {
      assert a + b == b;
    } else {
      assert (a + b)[1..] == a[1..] + b;
      ScanAppend(Move(q, MarkOf(a[0])), a[1..], b);
    }
  }

  lemma ScanSnoc(q: Progress, a: string, c: char)
    ensures Scan(q, a + [c]) == Move(Scan(q, a), MarkOf(c))
  {
    ScanAppend(q, a, [c]);
    assert [c][1..] == "";
  }

  // ---------- the stages of the slug leave the answer alone ----------

  lemma {:induction false} SkipGaps(q: Progress, s: string, p: char -> bool)
    requires forall c :: p(c) ==> MarkOf(c) == Gap
    requires Move(q, Gap) == q
    ensures Scan(q, SkipWhile(s, p)) == Scan(q, s)
  {
    if s != "" && p(s[0]) { SkipGaps(q, s[1..], p); }
  }

  /** A run of gaps counts as one. */
  lemma {:induction false} CollapseScans(q: Progress, s: string, p: char -> bool)
    requires forall c :: p(c) ==> MarkOf(c) == Gap
    ensures Scan(q, Collapse(s, p)) == Scan(q, s)
    decreases |s|
  {
    if s != "" {
      var q' := Move(q, MarkOf(s[0]));
      if p(s[0]) {
        SkipGaps(q', s[1..], p);
        CollapseScans(q', SkipWhile(s[1..], p), p);
        ScanCons(q, '-', Collapse(SkipWhile(s[1..], p), p));
      } else {
        CollapseScans(q', s[1..], p);
        ScanCons(q, s[0], Collapse(s[1..], p));
      }
    }
  }

  lemma CollapseBlanksScans(s: string)
    ensures Scan(NoLetter, Collapse(s, Blank)) == Scan(NoLetter, s)
  {
    CollapseScans(NoLetter, s, Blank);
  }

  lemma CollapseDashesScans(s: string)
    ensures Scan(NoLetter, Collapse(s, Dash)) == Scan(NoLetter, s)
  {
    CollapseScans(NoLetter, s, Dash);
  }

  lemma ScanCons(q: Progress, c: char, s: string)
    ensures Scan(q, [c] + s) == Scan(Move(q, MarkOf(c)), s)
  {
    assert ([c] + s)[1..] == s;
  }

  lemma {:induction false} TrimStartScans(s: string)
    ensures Scan(NoLetter, TrimStart(s)) == Scan(NoLetter, s)
  {
    if s != "" && IsSpace(s[0]) { TrimStartScans(s[1..]); }
  }

  /** Gaps and dots at the end do not complete anything. */
  lemma {:induction false} SkipEndScans(s: string, p: char -> bool)
    requires forall c :: p(c) ==> MarkOf(c) == Gap || MarkOf(c) == Dot
    ensures HasInnerDots(SkipWhileEnd(s, p)) == HasInnerDots(s)
  {
    if s != "" && p(s[|s| - 1]) {
      SkipEndScans(s[..|s| - 1], p);
      assert s == s[..|s| - 1] + [s[|s| - 1]];
      ScanSnoc(NoLetter, s[..|s| - 1], s[|s| - 1]);
    }
  }

  lemma {:induction false} TrimEndScans(s: string)
    ensures HasInnerDots(TrimEnd(s)) == HasInnerDots(s)
  {
    if s != "" && IsSpace(s[|s| - 1]) {
      TrimEndScans(s[..|s| - 1]);
      assert s == s[..|s| - 1] + [s[|s| - 1]];
      ScanSnoc(NoLetter, s[..|s| - 1], s[|s| - 1]);
    }
  }

  lemma {:induction false} SkipStartScans(s: string)
    ensures Scan(NoLetter, SkipWhile(s, Stripped)) == Scan(NoLetter, s)
  {
    if s != "" && Stripped(s[0]) { SkipStartScans(s[1..]); }
  }

  lemma LowerCharScans(q: Progress, c: char)
    ensures Scan(q, LowerChar(c)) == Move(q, MarkOf(c))
  {
    var t := LowerChar(c);
    ScanCons(q, t[0], t[1..]);
    assert t == [t[0]] + t[1..];
    if c == '\U{0130}' {
      ScanCons(Move(q, Letter), '\U{0307}', "");
      assert t[1..] == "\U{0307}" && ['\U{0307}'] + "" == "\U{0307}";
      assert MarkOf('\U{0307}') == Dropped;
    } else {
      assert t[1..] == "";
    }
  }

  lemma {:induction false} LowerScans(q: Progress, s: string)
    ensures Scan(q, Lower(s)) == Scan(q, s)
    decreases |s|
  {
    if s != "" {
      LowerScans(Move(q, MarkOf(s[0])), s[1..]);
      ScanAppend(q, LowerChar(s[0]), Lower(s[1..]));
      LowerCharScans(q, s[0]);
    }
  }

  /** Lower-cased text holds letters only as `a-z0-9`. */
  predicate Lowered(c: char) { MarkOf(c) == Letter ==> LowerOrDigit(c) }

  predicate Dashed(c: char) { Lowered(c) && !Blank(c) }

  lemma {:induction false} LowerIsLowered(s: string)
    ensures All(Lower(s), Lowered)
  {
    if s != "" { LowerIsLowered(s[1..]); }
  }

  lemma DashedCons(c: char, s: string)
    requires Dashed(c) && All(s, Dashed)
    ensures All([c] + s, Dashed)
  {
  }

  lemma {:induction false} CollapseIsDashed(s: string)
    requires All(s, Lowered)
    ensures All(Collapse(s, Blank), Dashed)
    decreases |s|
  {
    if s == "" {
    } else if Blank(s[0]) {
      var rest := SkipWhile(s[1..], Blank);
      SkipIsSuffix(s[1..], Blank);
      assert rest == s[|s| - |rest|..];
      assert All(rest, Lowered);
      CollapseIsDashed(rest);
      DashedCons('-', Collapse(rest, Blank));
    } else {
      assert All(s[1..], Lowered);
      CollapseIsDashed(s[1..]);
      DashedCons(s[0], Collapse(s[1..], Blank));
    }
  }

  lemma {:induction false} KeepScans(q: Progress, s: string)
    requires All(s, Dashed)
    ensures Scan(q, Keep(s, Kept)) == Scan(q, s)
    decreases |s|
  {
    if s != "" {
      assert All(s[1..], Dashed) && Dashed(s[0]);
      KeepScans(Move(q, MarkOf(s[0])), s[1..]);
      if Kept(s[0]) { ScanCons(q, s[0], Keep(s[1..], Kept)); }
    }
  }

  lemma TrimScans(name: string)
    ensures HasInnerDots(Lower(Trim(name))) == HasInnerDots(name)
  {
    TrimStartScans(name);
    TrimEndScans(TrimStart(name));
    LowerScans(NoLetter, Trim(name));
  }

  lemma UnnamedHasNoDots()
    ensures !HasInnerDots(UNNAMED) && !HasInnerDots("")
  {
    if HasInnerDots(UNNAMED) { InnerDotsHaveDots(UNNAMED); }
  }

  lemma SlugScans(name: string)
    ensures HasInnerDots(Slugify(name)) == HasInnerDots(name)
  {
    var lower := Lower(Trim(name));
    TrimScans(name);
    LowerIsLowered(Trim(name));
    CollapseIsDashed(lower);
    StagesScan(lower);
    UnnamedHasNoDots();
  }

  lemma StripScans(s: string)
    ensures HasInnerDots(Strip(s, Stripped)) == HasInnerDots(s)
  {
    SkipStartScans(s);
    SkipEndScans(SkipWhile(s, Stripped), Stripped);
  }

  lemma StagesScan(lower: string)
    requires All(Collapse(lower, Blank), Dashed)
    ensures HasInnerDots(Strip(Collapse(Keep(Collapse(lower, Blank), Kept), Dash), Stripped)) == HasInnerDots(lower)
  {
    var dashed := Collapse(lower, Blank);
    CollapseBlanksScans(lower);
    KeepScans(NoLetter, dashed);
    CollapseDashesScans(Keep(dashed, Kept));
    StripScans(Collapse(Keep(dashed, Kept), Dash));
  }

  // ---------- on a slug the scan looks for two dots ----------

  lemma {:induction false} InnerDotsHaveDots(s: string)
    requires Scan(NoLetter, s) in {OpenDot, TwoDots, Inner}
    ensures '.' in s
  {
    var front, c := s[..|s| - 1], s[|s| - 1];
    assert s == front + [c];
    ScanSnoc(NoLetter, front, c);
    if c != '.' { InnerDotsHaveDots(front); }
  }

  /** After a letter, a text without dropped characters is past two dots exactly when it has them in a row. */
  lemma {:induction false} PastDotsIff(s: string)
    requires s != "" && All(s, Kept) && LowerOrDigit(s[0])
    ensures Scan(NoLetter, s) in {TwoDots, Inner} <==> HasDots(s)
    ensures Scan(NoLetter, s) == OpenDot ==> s[|s| - 1] == '.'
    ensures Scan(NoLetter, s) == HasLetter ==> s[|s| - 1] != '.'
    ensures Scan(NoLetter, s) != NoLetter
  {
    var front, c := s[..|s| - 1], s[|s| - 1];
    assert s == front + [c];
    ScanSnoc(NoLetter, front, c);
    assert MarkOf(c) == if c == '.' then Dot else if c == '-' then Gap else Letter;
    if front == "" {
      assert !HasDots(s);
    } else {
      assert All(front, Kept);
      PastDotsIff(front);
      DotsSnoc(front, c);
    }
  }

  lemma DotsSnoc(s: string, c: char)
    requires s != ""
    ensures HasDots(s + [c]) <==> HasDots(s) || (s[|s| - 1] == '.' && c == '.')
  {
    var t := s + [c];
    if HasDots(s) {
      var i: nat :| i < |s| && DotsAt(s, i);
      assert DotsAt(t, i);
    }
    if s[|s| - 1] == '.' && c == '.' { assert DotsAt(t, |s| - 1); }
    if HasDots(t) {
      var i: nat :| i < |t| && DotsAt(t, i);
      if i + 1 < |s| { assert DotsAt(s, i); }
    }
  }

  /** On a slug, which ends in a letter or digit, that is all there is to it. */
  lemma ShapeScans(s: string)
    requires SlugShape(s)
    ensures HasInnerDots(s) <==> HasDots(s)
  {
    PastDotsIff(s);
    var front, c := s[..|s| - 1], s[|s| - 1];
    assert s == front + [c];
    ScanSnoc(NoLetter, front, c);
  }

  /**
   * The slug of a name passes the gate if and only if the name does not have, between letters or digits, two dots
   * with nothing but dropped characters between them.
   */
  lemma NamePassesIff(name: string)
    ensures AssertSafeSlug(Str(Slugify(name))) == SlugOk <==> !HasInnerDots(name)
  {
    SlugHasShape(name);
    SlugScans(name);
    ShapeScans(Slugify(name));
    SlugPassesIffNoDots(name);
  }
}
