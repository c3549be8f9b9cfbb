/** The gate on directories a workspace or project may be created in, over a POSIX model of `path.resolve`. */
module SafePath {
  import opened Text

  // ---------- POSIX resolution of an absolute path ----------

  const SEP := '/'

  /** Resolve the pieces of a path left to right on top of the segments `done`. */
  function Fold(done: seq<string>, pieces: seq<string>): seq<string>
    decreases |pieces|
  {
    if pieces == [] then done
    else if pieces[0] == "" || pieces[0] == "." then Fold(done, pieces[1..])
    else if pieces[0] == ".." then Fold(if done == [] then [] else done[..|done| - 1], pieces[1..])
    else Fold(done + [pieces[0]], pieces[1..])
  }

  /** The normalised segments of an absolute path. */
  function Segments(path: string): seq<string> { Fold([], Split(path, SEP)) }

  function Absolute(segs: seq<string>): string { [SEP] + Join(segs, SEP) }

  function Resolve(path: string): string { Absolute(Segments(path)) }

  // ---------- the gate ----------

  const FORBIDDEN_PATH_ROOTS := [
    "/", "/etc", "/usr", "/bin", "/sbin", "/dev", "/proc", "/sys", "/boot", "/root", "/lib", "/lib32", "/lib64",
    "/System"]

  datatype Input = NotText | Str(text: string)

  datatype Verdict =
    | Accepted
    | NotNonEmptyString
    | HasNul
    | NotAbsolute
    | OsRoot
    | Protected(root: string)
    | UnresolvedDots

  predicate StartsWith(s: string, prefix: string) { prefix <= s }

  /** The loop over the forbidden roots: the first one hit decides. */
  function CheckRoots(roots: seq<string>, abs: string): Verdict {
    if roots == [] then Accepted
    else if roots[0] == "/" then
      if abs == "/" then OsRoot else CheckRoots(roots[1..], abs)
    else if abs == roots[0] || StartsWith(abs, roots[0] + [SEP]) then Protected(roots[0])
    else CheckRoots(roots[1..], abs)
  }

  ghost predicate Includes(s: string, part: string) { exists i: nat | i <= |s| :: part <= s[i..] }

  predicate EndsWith(s: string, part: string) { |part| <= |s| && s[|s| - |part|..] == part }

  ghost function AssertSafeWritePath(input: Input): Verdict {
    if input.NotText? || input.text == "" then NotNonEmptyString
    else if '\0' in input.text then HasNul
    else if input.text[0] != SEP then NotAbsolute
    else
      var abs := Resolve(input.text);
      var v := CheckRoots(FORBIDDEN_PATH_ROOTS, abs);
      if v != Accepted then v
      else if Includes(abs, "/../") || EndsWith(abs, "/..") then UnresolvedDots
      else Accepted
  }

  // ---------- the same verdict, by segments ----------

  /** What a segment of a normalised path may be. */
  predicate Plain(seg: string) { SEP !in seg && seg != "" && seg != "." && seg != ".." }

  predicate AllPlain(segs: seq<string>) { forall i :: 0 <= i < |segs| ==> Plain(segs[i]) }

  /** The verdict in terms of the normalised segments alone. */
  function SegmentVerdict(segs: seq<string>): Verdict {
    if segs == [] then OsRoot
    else if ProtectedName(segs[0]) then Protected("/" + segs[0])
    else Accepted
  }

  predicate ProtectedName(seg: string) { "/" + seg in FORBIDDEN_PATH_ROOTS }

  // ---------- normalisation ----------

  lemma {:induction false} FoldIsPlain(done: seq<string>, pieces: seq<string>)
    requires AllPlain(done) && forall p :: p in pieces ==> SEP !in p
    ensures AllPlain(Fold(done, pieces))
    decreases |pieces|
  {
    if pieces != [] {
      var p := pieces[0];
      if p == "" || p == "." { FoldIsPlain(done, pieces[1..]); }
      else if p == ".." { FoldIsPlain(if done == [] then [] else done[..|done| - 1], pieces[1..]); }
      else { FoldIsPlain(done + [p], pieces[1..]); }
    }
  }

  /** A resolved path holds no `.`, no `..` and no empty segment. */
  lemma SegmentsArePlain(path: string)
    ensures AllPlain(Segments(path))
  {
    SplitPieces(path, SEP);
    FoldIsPlain([], Split(path, SEP));
  }

  lemma {:induction false} FoldPlain(done: seq<string>, pieces: seq<string>)
    requires AllPlain(pieces)
    ensures Fold(done, pieces) == done + pieces
    decreases |pieces|
  {
    if pieces == [] {
      assert done + pieces == done;
    } else {
      assert AllPlain(pieces[1..]) by { assert forall i :: 0 <= i < |pieces[1..]| ==> pieces[1..][i] == pieces[i + 1]; }
      FoldPlain(done + [pieces[0]], pieces[1..]);
      assert done + [pieces[0]] + pieces[1..] == done + pieces;
    }
  }

  lemma {:induction false} FoldAppend(done: seq<string>, a: seq<string>, b: seq<string>)
    ensures Fold(done, a + b) == Fold(Fold(done, a), b)
    decreases |a|
  {
    if a == [] {
      assert a + b == b;
    } else {
      assert (a + b)[1..] == a[1..] + b;
      var p := a[0];
      if p == "" || p == "." { FoldAppend(done, a[1..], b); }
      else if p == ".." { FoldAppend(if done == [] then [] else done[..|done| - 1], a[1..], b); }
      else { FoldAppend(done + [p], a[1..], b); }
    }
  }

  /** Splitting a resolved path gives its segments back. */
  lemma SplitAbsolute(segs: seq<string>)
    requires AllPlain(segs)
    ensures Split(Absolute(segs), SEP) == [""] + if segs == [] then [""] else segs
  {
    assert Absolute(segs) == "" + [SEP] + Join(segs, SEP);
    SplitAt("", SEP, Join(segs, SEP));
    if segs != [] {
      assert forall p :: p in segs ==> SEP !in p;
      SplitJoin(segs, SEP);
    }
  }

  /** Resolving is idempotent: a resolved path names the same segments. */
  lemma ResolvedSegments(segs: seq<string>)
    requires AllPlain(segs)
    ensures Segments(Absolute(segs)) == segs
  {
    SplitAbsolute(segs);
    var tail := if segs == [] then [""] else segs;
    FoldAppend([], [""], tail);
    assert Fold([], [""]) == [];
    if segs != [] { FoldPlain([], segs); }
  }

  lemma ResolveIsIdempotent(path: string)
    ensures Resolve(Resolve(path)) == Resolve(path)
  {
    SegmentsArePlain(path);
    ResolvedSegments(Segments(path));
  }

  // ---------- what resolving means, piece by piece ----------

  /** One more piece of a path: nothing for an empty one or a dot, one level up for two dots, else one down. */
  lemma OnePieceMore(path: string, piece: string)
    requires SEP !in piece
    ensures var before := Segments(path);
      Segments(path + [SEP] + piece) ==
        if piece == "" || piece == "." then before
        else if piece != ".." then before + [piece]
        else if before == [] then []
        else before[..|before| - 1]
    ensures Segments("") == []
  {
    SplitAt(path, SEP, piece);
    SplitPlain(piece, SEP);
    FoldAppend([], Split(path, SEP), [piece]);
    assert Fold(Segments(path), [piece]) == Fold(Fold(Segments(path), [piece]), []);
    assert [piece][1..] == [];
    assert [""][1..] == [] && Split("", SEP) == [""];
    assert Fold([], [""]) == Fold([], []);
  }

  // ---------- string prefixes are segment prefixes ----------

  predicate Inside(segs: seq<string>, root: seq<string>) { root <= segs }

  lemma {:induction false} JoinAppend(a: seq<string>, b: seq<string>)
    requires a != [] && b != []
    ensures Join(a + b, SEP) == Join(a, SEP) + [SEP] + Join(b, SEP)
  {
    assert (a + b)[1..] == a[1..] + b;
    if |a| > 1 {
      JoinAppend(a[1..], b);
      assert Join(a + b, SEP) == a[0] + [SEP] + (Join(a[1..], SEP) + [SEP] + Join(b, SEP));
    }
  }

  lemma InsideStartsWith(segs: seq<string>, root: seq<string>)
    requires root != [] && Inside(segs, root) && segs != root
    ensures StartsWith(Absolute(segs), Absolute(root) + [SEP])
  {
    var rest := segs[|root|..];
    assert segs == root + rest;
    JoinAppend(root, rest);
    assert Absolute(segs) == Absolute(root) + [SEP] + Join(rest, SEP);
  }

  lemma StartsWithInside(segs: seq<string>, root: seq<string>)
    requires AllPlain(segs) && AllPlain(root) && root != []
    requires StartsWith(Absolute(segs), Absolute(root) + [SEP])
    ensures Inside(segs, root)
  {
    var rest := Absolute(segs)[|Absolute(root)| + 1..];
    assert Absolute(segs) == Absolute(root) + [SEP] + rest;
    SplitAt(Absolute(root), SEP, rest);
    SplitAbsolute(root);
    SplitAbsolute(segs);
    var tail := if segs == [] then [""] else segs;
    PrefixTail([""], tail, root, Split(rest, SEP));
    assert tail == root + Split(rest, SEP);
    assert tail[0] == root[0];
  }

  lemma PrefixTail(a: seq<string>, x: seq<string>, r: seq<string>, y: seq<string>)
    ensures a + x == a + r + y ==> x == r + y
  {
    assert a + r + y == a + (r + y);
    assert x == (a + x)[|a|..];
    assert r + y == (a + (r + y))[|a|..];
  }

  /**
   * The test `abs === root || abs.startsWith(root + sep)` means that the root's segments are a prefix of the path's.
   */
  lemma PrefixTestIsSegmentPrefix(segs: seq<string>, root: seq<string>)
    requires AllPlain(segs) && AllPlain(root) && root != []
    ensures (Absolute(segs) == Absolute(root) || StartsWith(Absolute(segs), Absolute(root) + [SEP])) <==>
              Inside(segs, root)
  {
    if Inside(segs, root) && segs != root {
      InsideStartsWith(segs, root);
    }
    if Absolute(segs) == Absolute(root) {
      ResolvedSegments(segs);
      ResolvedSegments(root);
    } else if StartsWith(Absolute(segs), Absolute(root) + [SEP]) {
      StartsWithInside(segs, root);
    }
  }

  // ---------- no dots survive ----------

  lemma InnerDots(a: string, b: string)
    ensures ".." in Split(a + "/../" + b, SEP)
  {
    var rest := ".." + [SEP] + b;
    assert a + "/../" + b == a + [SEP] + rest;
    SplitAt(a, SEP, rest);
    SplitAt("..", SEP, b);
    SplitPlain("..", SEP);
  }

  lemma FinalDots(a: string)
    ensures ".." in Split(a + "/..", SEP)
  {
    assert a + "/.." == a + [SEP] + "..";
    SplitAt(a, SEP, "..");
    SplitPlain("..", SEP);
  }

  lemma DotsAreSegments(s: string)
    requires Includes(s, "/../") || EndsWith(s, "/..")
    ensures ".." in Split(s, SEP)
  {
    if Includes(s, "/../") {
      var i: nat :| i <= |s| && "/../" <= s[i..];
      assert s[i..][..4] == "/../";
      assert s == s[..i] + "/../" + s[i + 4..];
      InnerDots(s[..i], s[i + 4..]);
    } else {
      assert s == s[..|s| - 3] + "/..";
      FinalDots(s[..|s| - 3]);
    }
  }

  /** The last check of the gate can never fire. */
  lemma NoDotsLeft(path: string)
    ensures !Includes(Resolve(path), "/../") && !EndsWith(Resolve(path), "/..")
  {
    var segs := Segments(path);
    SegmentsArePlain(path);
    SplitAbsolute(segs);
    if Includes(Resolve(path), "/../") || EndsWith(Resolve(path), "/..") { DotsAreSegments(Resolve(path)); }
  }

  // ---------- the gate, by segments ----------

  lemma RootHit(segs: seq<string>, name: string)
    requires AllPlain(segs) && Plain(name)
    ensures (Absolute(segs) == "/" + name || StartsWith(Absolute(segs), "/" + name + [SEP]))
       <==> segs != [] && segs[0] == name
  {
    assert Absolute([name]) == "/" + name;
    PrefixTestIsSegmentPrefix(segs, [name]);
    if segs != [] { assert Inside(segs, [name]) <==> segs[..1] == [name]; }
  }

  /** The OS root, or a directory directly below it. */
  predicate TopLevel(root: string) { root == "/" || (root != "" && root[0] == SEP && Plain(root[1..])) }

  lemma RootOrNot(segs: seq<string>)
    requires AllPlain(segs)
    ensures Absolute(segs) == "/" <==> segs == []
  {
    if segs != [] { assert |Join(segs, SEP)| >= |segs[0]|; }
  }

  /** The loop over a list of top-level roots is a lookup of the first segment. */
  lemma {:induction false} CheckRootsSpec(roots: seq<string>, segs: seq<string>)
    requires AllPlain(segs) && forall i :: 0 <= i < |roots| ==> TopLevel(roots[i])
    ensures segs == [] ==> CheckRoots(roots, Absolute(segs)) == if "/" in roots then OsRoot else Accepted
    ensures segs != [] ==>
              CheckRoots(roots, Absolute(segs)) == if "/" + segs[0] in roots then Protected("/" + segs[0]) else Accepted
  {
    if roots != [] {
      RootOrNot(segs);
      CheckRootsSpec(roots[1..], segs);
      if roots[0] != "/" {
        assert roots[0] == "/" + roots[0][1..];
        RootHit(segs, roots[0][1..]);
      }
    }
  }

  lemma RootsAreTopLevel()
    ensures forall i :: 0 <= i < |FORBIDDEN_PATH_ROOTS| ==> TopLevel(FORBIDDEN_PATH_ROOTS[i])
    ensures "/" in FORBIDDEN_PATH_ROOTS
  {
    assert FORBIDDEN_PATH_ROOTS[0] == "/";
  }

  /**
   * The gate decides by segments alone: an absolute path without NUL is refused exactly when its normalised
   * segment list is empty or starts with a protected directory, and the verdict names that directory.
   */
  lemma GateIsSegmentwise(path: string)
    requires path != "" && '\0' !in path && path[0] == SEP
    ensures AssertSafeWritePath(Str(path)) == SegmentVerdict(Segments(path))
  {
    var segs := Segments(path);
    SegmentsArePlain(path);
    RootsAreTopLevel();
    CheckRootsSpec(FORBIDDEN_PATH_ROOTS, segs);
    NoDotsLeft(path);
  }

  predicate AcceptableBySegments(input: Input) {
    && input.Str? && input.text != "" && input.text[0] == SEP && '\0' !in input.text
    && Segments(input.text) != [] && !ProtectedName(Segments(input.text)[0])
  }

  /** Acceptance over every input. */
  lemma AcceptedIff(input: Input)
    ensures AssertSafeWritePath(input) == Accepted <==> AcceptableBySegments(input)
    ensures AssertSafeWritePath(input) == NotNonEmptyString <==> input == NotText || input == Str("")
    ensures AssertSafeWritePath(input) == HasNul <==> input.Str? && '\0' in input.text
    ensures AssertSafeWritePath(input) == NotAbsolute <==>
      input.Str? && input.text != "" && '\0' !in input.text && input.text[0] != '/'
  {
    if input.Str? && input.text != "" && '\0' !in input.text && input.text[0] == SEP { GateIsSegmentwise(input.text); }
  }
}
