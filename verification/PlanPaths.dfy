/** The slug gate of the plan-file endpoints and the file path built behind it. */
module PlanPaths {
  import opened Wrappers
  import opened Slug
  import S = SafePath
  import Text

  datatype SlugInput = NotText | Str(slug: string)

  datatype SlugVerdict = SlugOk | NotNonEmpty | BadPattern | DotsOrNul

  predicate SlugChar(c: char) { LowerOrDigit(c) || c == '.' || c == '_' || c == '-' }

  /** `/^[a-z0-9][a-z0-9._\-]*$/` */
  predicate MatchesPattern(s: string) {
    s != "" && LowerOrDigit(s[0]) && All(s[1..], SlugChar)
  }

  predicate HasDots(s: string) { exists i: nat | i < |s| :: DotsAt(s, i) }

  predicate DotsAt(s: string, i: nat) { i + 1 < |s| && s[i] == '.' && s[i + 1] == '.' }

  predicate HasNul(s: string) { '\0' in s }

  function AssertSafeSlug(input: SlugInput): SlugVerdict {
    if input.NotText? || input.slug == "" then NotNonEmpty
    else if !MatchesPattern(input.slug) then BadPattern
    else if HasDots(input.slug) || HasNul(input.slug) then DotsOrNul
    else SlugOk
  }

  /** A slug is a letter or digit, then letters, digits, dots, underscores and dashes, without two dots in a row. */
  lemma SlugOkIff(s: string)
    ensures AssertSafeSlug(Str(s)) == SlugOk <==>
      && s != "" && s[0] !in "._-"
      && (forall i :: 0 <= i < |s| ==> 'a' <= s[i] <= 'z' || '0' <= s[i] <= '9' || s[i] in "._-")
      && (forall i :: 0 <= i < |s| - 1 ==> !(s[i] == '.' && s[i + 1] == '.'))
  {
    if s != "" {
      assert forall i :: 1 <= i < |s| ==> s[i] == s[1..][i - 1];
      if !HasDots(s) {
        forall i | 0 <= i < |s| - 1 ensures !(s[i] == '.' && s[i + 1] == '.') { assert !DotsAt(s, i); }
      }
      if HasNul(s) {
        var i :| 0 <= i < |s| && s[i] == '\0';
      }
    }
  }

  // ---------- slugs from slugify ----------

  /** Every slug matches the pattern the plan endpoints accept. */
  lemma SlugMatchesPattern(name: string)
    ensures MatchesPattern(Slugify(name))
  {
    SlugHasShape(name);
  }

  lemma {:induction false} PatternHasNoNul(s: string)
    requires MatchesPattern(s)
    ensures !HasNul(s) && S.SEP !in s
  {
    assert s == [s[0]] + s[1..];
  }

  /** What `slugify` returns passes the gate exactly when it holds no `..`. */
  lemma SlugPassesIffNoDots(name: string)
    ensures AssertSafeSlug(Str(Slugify(name))) == SlugOk <==> !HasDots(Slugify(name))
  {
    SlugMatchesPattern(name);
    PatternHasNoNul(Slugify(name));
  }

  /** The slug of a name without dots always passes. */
  lemma DotlessNamePasses(name: string)
    requires '.' !in name
    ensures AssertSafeSlug(Str(Slugify(name))) == SlugOk
  {
    NoDotNoDot(name);
    SlugPassesIffNoDots(name);
  }

  /** A name with two dots between its letters gives a slug the gate refuses. */
  lemma DotsAreRefused()
    ensures Slugify("a..b") == "a..b" && AssertSafeSlug(Str("a..b")) == DotsOrNul
  {
    var s := "a..b";
    SlugsAreFixedPoints(s);
    SlugMatchesPattern(s);
    assert DotsAt(s, 1);
  }

  // ---------- the path behind the gate ----------

  datatype PathResult = Path(path: string) | Refused(why: SlugVerdict) | InvalidEntity

  /** A slug that is missing or empty counts as not given. */
  predicate Given(slug: Option<string>) { slug.Some? && slug.value != "" }

  /** `path.join` of an absolute directory with further parts. */
  function JoinPath(dir: string, parts: seq<string>): string {
    S.Resolve(dir + [S.SEP] + Text.Join(parts, S.SEP))
  }

  /** The first slug that fails decides. */
  function FirstRefusal(slugs: seq<string>): Option<SlugVerdict> {
    if slugs == [] then None
    else if AssertSafeSlug(Str(slugs[0])) != SlugOk then Some(AssertSafeSlug(Str(slugs[0])))
    else FirstRefusal(slugs[1..])
  }

  function Gated(planDir: string, slugs: seq<string>, parts: seq<string>): PathResult {
    match FirstRefusal(slugs)
    case Some(why) => Refused(why)
    case None => Path(JoinPath(planDir, parts))
  }

  function ResolveEntityPath(planDir: string, entityType: string, milestone: Option<string>, slice: Option<string>,
                             task: Option<string>): PathResult {
    if entityType == "milestone" && Given(milestone) then
      Gated(planDir, [milestone.value], [milestone.value, "milestone.md"])
    else if entityType == "slice" && Given(milestone) && Given(slice) then
      Gated(planDir, [milestone.value, slice.value], [milestone.value, slice.value, "slice.md"])
    else if entityType == "task" && Given(milestone) && Given(slice) && Given(task) then
      Gated(planDir, [milestone.value, slice.value, task.value],
            [milestone.value, slice.value, task.value + ".md"])
    else InvalidEntity
  }

  lemma SafeSlugIsPlain(s: string)
    requires AssertSafeSlug(Str(s)) == SlugOk
    ensures S.Plain(s) && S.Plain(s + ".md")
  {
    PatternHasNoNul(s);
    assert s[0] != '.';
    assert S.SEP !in s + ".md";
    assert (s + ".md")[0] == s[0];
  }

  predicate AllSafe(slugs: seq<string>) {
    forall i :: 0 <= i < |slugs| ==> AssertSafeSlug(Str(slugs[i])) == SlugOk
  }

  lemma {:induction false} NoRefusalIffAllSafe(slugs: seq<string>)
    ensures FirstRefusal(slugs) == None <==> AllSafe(slugs)
  {
    if slugs != [] {
      NoRefusalIffAllSafe(slugs[1..]);
      assert AllSafe(slugs) <==> AssertSafeSlug(Str(slugs[0])) == SlugOk && AllSafe(slugs[1..]);
    }
  }

  lemma SafeSlugsArePlain(slugs: seq<string>)
    requires AllSafe(slugs)
    ensures S.AllPlain(slugs)
    ensures forall i :: 0 <= i < |slugs| ==> S.Plain(slugs[i] + ".md")
  {
    forall i | 0 <= i < |slugs| ensures S.Plain(slugs[i]) && S.Plain(slugs[i] + ".md") { SafeSlugIsPlain(slugs[i]); }
  }

  /** Plain parts joined to a directory are simply appended to its segments. */
  lemma JoinAppends(dir: string, parts: seq<string>)
    requires S.AllPlain(parts) && parts != []
    ensures S.Segments(JoinPath(dir, parts)) == S.Segments(dir) + parts
    ensures JoinPath(dir, parts) == S.Absolute(S.Segments(dir) + parts)
  {
    var joined := Text.Join(parts, S.SEP);
    Text.SplitAt(dir, S.SEP, joined);
    assert forall p :: p in parts ==> S.SEP !in p;
    Text.SplitJoin(parts, S.SEP);
    S.FoldAppend([], Text.Split(dir, S.SEP), parts);
    S.FoldPlain(S.Segments(dir), parts);
    S.SegmentsArePlain(dir + [S.SEP] + joined);
    S.ResolvedSegments(S.Segments(dir + [S.SEP] + joined));
  }

  /** An entity of a plan. */
  datatype Entity =
    | Milestone(m: string)
    | Slice(m: string, s: string)
    | Task(m: string, s: string, t: string)

  function Slugs(e: Entity): seq<string> {
    match e
    case Milestone(m) => [m]
    case Slice(m, s) => [m, s]
    case Task(m, s, t) => [m, s, t]
  }

  /** Where the file of an entity lies below the plan directory. */
  function Below(e: Entity): seq<string> {
    match e
    case Milestone(m) => [m, "milestone.md"]
    case Slice(m, s) => [m, s, "slice.md"]
    case Task(m, s, t) => [m, s, t + ".md"]
  }

  /** The entity a request names, if it names one. */
  function Named(entityType: string, milestone: Option<string>, slice: Option<string>,
        task: Option<string>): Option<Entity> {
    if entityType == "milestone" && Given(milestone) then Some(Milestone(milestone.value))
    else if entityType == "slice" && Given(milestone) && Given(slice) then Some(Slice(milestone.value, slice.value))
    else if entityType == "task" && Given(milestone) && Given(slice) && Given(task) then
      Some(Task(milestone.value, slice.value, task.value))
    else None
  }

  lemma BelowIsPlain(e: Entity)
    requires AllSafe(Slugs(e))
    ensures S.AllPlain(Below(e))
  {
    SafeSlugsArePlain(Slugs(e));
    match e
    case Milestone(m) => assert Slugs(e)[0] == m; assert S.Plain("milestone.md");
    case Slice(m, s) => assert Slugs(e)[0] == m && Slugs(e)[1] == s; assert S.Plain("slice.md");
    case Task(m, s, t) => assert Slugs(e)[0] == m && Slugs(e)[1] == s && Slugs(e)[2] == t;
  }

  /**
   * A request gets a path exactly when it names an entity all of whose slugs pass the gate, and that path lies
   * below the plan directory, one segment per slug: no slug can climb out of it or change its depth.
   */
  lemma PathExactlyForSafeEntities(planDir: string, entityType: string, milestone: Option<string>,
                                   slice: Option<string>, task: Option<string>)
    ensures var r := ResolveEntityPath(planDir, entityType, milestone, slice, task);
            var e := Named(entityType, milestone, slice, task);
            && (r.Path? <==> e.Some? && AllSafe(Slugs(e.value)))
            && (r.InvalidEntity? <==> e == None)
            && (milestone in {None, Some("")} ==> r.InvalidEntity?)
            && (r.Path? ==> S.Segments(r.path) == S.Segments(planDir) + Below(e.value))
            && (r.Path? ==> r.path == S.Absolute(S.Segments(planDir) + Below(e.value)))
            && (r.Refused? ==> FirstUnsafe(Slugs(e.value), r.why))
  {
    var e := Named(entityType, milestone, slice, task);
    if e.Some? {
      assert ResolveEntityPath(planDir, entityType, milestone, slice, task)
          == Gated(planDir, Slugs(e.value), Below(e.value));
      NoRefusalIffAllSafe(Slugs(e.value));
      if AllSafe(Slugs(e.value)) {
        BelowIsPlain(e.value);
        JoinAppends(planDir, Below(e.value));
      } else {
        RefusalIsFirst(Slugs(e.value));
      }
    }
  }

  /** The verdict on the first slug that does not pass. */
  ghost predicate FirstUnsafe(slugs: seq<string>, why: SlugVerdict) {
    exists i | 0 <= i < |slugs| :: AssertSafeSlug(Str(slugs[i])) == why && why != SlugOk && AllSafe(slugs[..i])
  }

  lemma {:induction false} RefusalIsFirst(slugs: seq<string>)
    requires FirstRefusal(slugs).Some?
    ensures FirstUnsafe(slugs, FirstRefusal(slugs).value)
  {
    var why := FirstRefusal(slugs).value;
    if AssertSafeSlug(Str(slugs[0])) != SlugOk {
      assert AllSafe(slugs[..0]);
    } else {
      RefusalIsFirst(slugs[1..]);
      var i :| 0 <= i < |slugs[1..]| && AssertSafeSlug(Str(slugs[1..][i])) == why && AllSafe(slugs[1..][..i]);
      assert slugs[..i + 1] == [slugs[0]] + slugs[1..][..i];
      assert AssertSafeSlug(Str(slugs[i + 1])) == why;
    }
  }

  /** The one way two entities share a file: a task called `slice` and the slice it belongs to. */
  predicate Collide(a: Entity, b: Entity) {
    a.Slice? && b.Task? && a.m == b.m && a.s == b.s && b.t == "slice"
  }

  /** Different entities have different files, except for a task with the slug `slice`. */
  lemma SameFileIff(planDir: string, a: Entity, b: Entity)
    requires AllSafe(Slugs(a)) && AllSafe(Slugs(b))
    ensures JoinPath(planDir, Below(a)) == JoinPath(planDir, Below(b)) <==> a == b || Collide(a, b) || Collide(b, a)
  {
    BelowIsPlain(a);
    BelowIsPlain(b);
    JoinAppends(planDir, Below(a));
    JoinAppends(planDir, Below(b));
    if JoinPath(planDir, Below(a)) == JoinPath(planDir, Below(b)) {
      SameTail(S.Segments(planDir), Below(a), Below(b));
      SameBelow(a, b);
    }
    assert Collide(a, b) || Collide(b, a) ==> Below(a) == Below(b) by {
      assert "slice" + ".md" == "slice.md";
    }
  }

  lemma SameTail(p: seq<string>, x: seq<string>, y: seq<string>)
    ensures p + x == p + y ==> x == y
  {
    assert x == (p + x)[|p|..] && y == (p + y)[|p|..];
  }

  lemma SameBelow(a: Entity, b: Entity)
    requires Below(a) == Below(b)
    ensures a == b || Collide(a, b) || Collide(b, a)
  {
    assert Below(a)[0] == Below(b)[0] && Below(a)[1] == Below(b)[1];
    if |Below(a)| == 3 {
      assert Below(a)[2] == Below(b)[2];
      if a.Task? && b.Task? { SameStem(a.t, b.t); }
      else if a.Task? { SameStem(a.t, "slice"); }
      else if b.Task? { SameStem(b.t, "slice"); }
    }
  }

  lemma SameStem(x: string, y: string)
    ensures x + ".md" == y + ".md" ==> x == y
  {
    assert x == (x + ".md")[..|x|] && y == (y + ".md")[..|y|];
  }
}
