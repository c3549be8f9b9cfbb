/**
  `flockctl logs`: the last lines of a file, read backwards in chunks, and the polling follower. Text is one
  character per byte.
 */
module LogTail {
  import opened Text

  /** What the tail prints, from the whole text: the last n+1 pieces, and a final newline if the text has none. */
  function TailOf(text: string, n: nat): string {
    Join(Last(Split(text, '\n'), n + 1), '\n') + (if EndsWithNewline(text) then "" else "\n")
  }

  predicate EndsWithNewline(s: string) { s != "" && s[|s| - 1] == '\n' }

  method PrintTail(text: string, n: nat, chunkSize: nat) returns (out: string)
    requires n >= 1 && chunkSize >= 1
    ensures out == TailOf(text, n)
  {
    var pos := |text|;
    var buf := "";
    var lineCount := 0;
    while pos > 0 && lineCount <= n
      invariant 0 <= pos <= |text|
      invariant buf == text[pos..] && lineCount == Count(buf, '\n')
      decreases pos
    {
      var start := if pos > chunkSize then pos - chunkSize else 0;
      assert text[start..pos] + text[pos..] == text[start..];
      buf := text[start..pos] + buf;
      lineCount := Count(buf, '\n');
      pos := start;
    }
    var lines := Split(buf, '\n');
    var tail := if |lines| > n + 1 then lines[|lines| - n - 1..] else lines;
    out := Join(tail, '\n');
    if !EndsWithNewline(buf) { out := out + "\n"; }
    assert out == TailOf(buf, n);
    TailFromPos(text, pos, n);
  }

  lemma TailFromPos(text: string, pos: nat, n: nat)
    requires pos <= |text| && (pos == 0 || Count(text[pos..], '\n') > n)
    ensures TailOf(text, n) == TailOf(text[pos..], n)
  {
    assert text == text[..pos] + text[pos..];
    if pos > 0 { TailOfSuffix(text[..pos], text[pos..], n); }
  }

  /** The pieces of two texts put next to each other: the last piece of one runs into the first of the other. */
  function Glue(a: seq<string>, b: seq<string>): seq<string>
    requires a != [] && b != []
  {
    a[..|a| - 1] + [a[|a| - 1] + b[0]] + b[1..]
  }

  lemma GlueCons(x: string, a: seq<string>, b: seq<string>)
    requires a != [] && b != []
    ensures Glue([x] + a, b) == [x] + Glue(a, b)
  {
    assert ([x] + a)[..|a|] == [x] + a[..|a| - 1];
  }

  lemma GlueHead(c: char, a: seq<string>, b: seq<string>)
    requires a != [] && b != []
    ensures Glue([[c] + a[0]] + a[1..], b) == [[c] + Glue(a, b)[0]] + Glue(a, b)[1..]
  {
    var a' := [[c] + a[0]] + a[1..];
    if |a| == 1 {
      assert a' == [[c] + a[0]];
      assert [c] + (a[0] + b[0]) == ([c] + a[0]) + b[0];
    } else {
      assert a'[..|a| - 1] == [[c] + a[0]] + a[1..][..|a| - 2];
      assert Glue(a, b)[1..] == a[1..][..|a| - 2] + [a[|a| - 1] + b[0]] + b[1..];
    }
  }

  lemma {:induction false} SplitConcat(prefix: string, s: string, sep: char)
    ensures Split(prefix + s, sep) == Glue(Split(prefix, sep), Split(s, sep))
  {
    if prefix == "" {
      assert prefix + s == s;
      assert Glue([""], Split(s, sep)) == Split(s, sep) by { assert "" + Split(s, sep)[0] == Split(s, sep)[0]; }
    } else {
      assert (prefix + s)[1..] == prefix[1..] + s;
      SplitConcat(prefix[1..], s, sep);
      if prefix[0] == sep { GlueCons("", Split(prefix[1..], sep), Split(s, sep)); }
      else { GlueHead(prefix[0], Split(prefix[1..], sep), Split(s, sep)); }
    }
  }

  lemma LastOfGlue(a: seq<string>, b: seq<string>, k: nat)
    requires a != [] && b != [] && k < |b|
    ensures Last(Glue(a, b), k) == Last(b, k)
  {
    var g := Glue(a, b);
    assert g[|g| - k..] == b[|b| - k..];
  }

  /** A suffix with more than n newlines decides what the tail prints. */
  lemma TailOfSuffix(prefix: string, s: string, n: nat)
    requires Count(s, '\n') > n
    ensures TailOf(prefix + s, n) == TailOf(s, n)
  {
    SplitPieces(s, '\n');
    SplitConcat(prefix, s, '\n');
    LastOfGlue(Split(prefix, '\n'), Split(s, '\n'), n + 1);
    assert s != "";
    assert (prefix + s)[|prefix + s| - 1] == s[|s| - 1];
  }

  // ---------- when the tail is the last n lines ----------

  /** The lines of a text: a newline ends a line, and the last line may lack its newline. */
  function Lines(text: string): seq<string> {
    var pieces := Split(text, '\n');
    if pieces[|pieces| - 1] == "" then pieces[..|pieces| - 1] else pieces
  }

  function Unlines(lines: seq<string>): string {
    if lines == [] then "" else lines[0] + "\n" + Unlines(lines[1..])
  }

  lemma {:induction false} JoinIsUnlines(pieces: seq<string>)
    requires pieces != []
    ensures Join(pieces, '\n') + "\n" == Unlines(pieces)
    ensures pieces[|pieces| - 1] == "" ==> Join(pieces, '\n') == Unlines(pieces[..|pieces| - 1])
  {
    if |pieces| > 1 {
      JoinIsUnlines(pieces[1..]);
      assert Join(pieces, '\n') + "\n" == pieces[0] + "\n" + (Join(pieces[1..], '\n') + "\n");
      assert pieces[..|pieces| - 1][1..] == pieces[1..][..|pieces| - 2];
    } else {
      assert pieces[1..] == [] && pieces[..0] == [];
    }
  }

  lemma {:induction false} LastPiece(text: string)
    ensures var pieces := Split(text, '\n'); pieces[|pieces| - 1] == "" <==> text == "" || EndsWithNewline(text)
  {
    if text != "" {
      LastPiece(text[1..]);
    }
  }

  lemma {:induction false} UnlinesSize(lines: seq<string>)
    requires forall l :: l in lines ==> '\n' !in l
    ensures Count(Unlines(lines), '\n') == |lines|
  {
    if lines != [] {
      UnlinesSize(lines[1..]);
      CountPlain(lines[0]);
      CountConcat(lines[0], "\n" + Unlines(lines[1..]));
      assert ("\n" + Unlines(lines[1..]))[1..] == Unlines(lines[1..]);
      assert lines[0] + "\n" + Unlines(lines[1..]) == lines[0] + ("\n" + Unlines(lines[1..]));
    }
  }

  lemma {:induction false} CountPlain(s: string)
    requires '\n' !in s
    ensures Count(s, '\n') == 0
  {
    if s != "" { CountPlain(s[1..]); }
  }

  lemma {:induction false} CountConcat(a: string, b: string)
    ensures Count(a + b, '\n') == Count(a, '\n') + Count(b, '\n')
  {
    if a == "" { assert a + b == b; }
    else {
      assert (a + b)[1..] == a[1..] + b;
      CountConcat(a[1..], b);
    }
  }

  /** For a text ending in a newline the tail is exactly its last n lines. */
  lemma TailOfTerminated(text: string, n: nat)
    requires EndsWithNewline(text)
    ensures TailOf(text, n) == Unlines(Last(Lines(text), n))
  {
    var pieces := Split(text, '\n');
    LastPiece(text);
    JoinIsUnlines(Last(pieces, n + 1));
    LastWithoutEnd(pieces, n);
  }

  lemma LastWithoutEnd(pieces: seq<string>, n: nat)
    requires pieces != []
    ensures var tail := Last(pieces, n + 1); tail != [] && tail[|tail| - 1] == pieces[|pieces| - 1]
    ensures var tail := Last(pieces, n + 1); tail[..|tail| - 1] == Last(pieces[..|pieces| - 1], n)
  {
  }

  /**
   * Without a final newline the last line is counted twice over: the tail has n + 1 lines, as far as there are so
   * many.
   */
  lemma TailOfUnterminated(text: string, n: nat)
    requires text != "" && !EndsWithNewline(text)
    ensures Lines(text) == Split(text, '\n') && TailOf(text, n) == Unlines(Last(Lines(text), n + 1))
  {
    LastPiece(text);
    JoinIsUnlines(Last(Split(text, '\n'), n + 1));
  }

  /** Two tails of different length are different texts. */
  lemma UnlinesTellsLength(lines: seq<string>, m: nat, n: nat)
    requires (forall l :: l in lines ==> '\n' !in l) && m <= |lines| && n <= |lines| && m != n
    ensures Unlines(Last(lines, m)) != Unlines(Last(lines, n))
  {
    UnlinesSize(Last(lines, m));
    UnlinesSize(Last(lines, n));
  }

  /**
   * The tail is the last n lines exactly when the text ends in a newline, or is non-empty with at most n lines;
   * otherwise it prints one line more.
   */
  lemma TailIsLastLines(text: string, n: nat)
    requires n >= 1
    ensures TailOf(text, n) == Unlines(Last(Lines(text), n)) <==>
              text != "" && (EndsWithNewline(text) || |Lines(text)| <= n)
    ensures !EndsWithNewline(text) && text != "" ==> TailOf(text, n) == Unlines(Last(Lines(text), n + 1))
    ensures text == "" ==> TailOf(text, n) == "\n"
  {
    if EndsWithNewline(text) {
      TailOfTerminated(text, n);
    } else if text == "" {
      assert TailOf(text, n) == "\n" && Lines(text) == [];
    } else {
      TailOfUnterminated(text, n);
      SplitPieces(text, '\n');
      if |Lines(text)| > n { UnlinesTellsLength(Lines(text), n + 1, n); }
    }
  }

  // ---------- following ----------

  class Follower {
    var offset: nat

    constructor (size: nat)
      ensures offset == size
    {
      offset := size;
    }

    /** One round of the polling loop. */
    method Poll(present: bool, file: string) returns (printed: string)
      modifies this
      ensures (printed, offset) == Polled(old(offset), present, file)
      ensures present && |file| > old(offset) ==> printed == file[old(offset)..] && offset == |file|
      ensures present && |file| < old(offset) ==> printed == "" && offset == 0
      ensures !present || |file| == old(offset) ==> printed == "" && offset == old(offset)
    {
      printed := "";
      if present {
        var size := |file|;
        if size > offset {
          assert file[offset..size] == file[offset..];
          printed := file[offset..size];
          offset := size;
        } else if size < offset {
          offset := 0;
        }
      }
    }
  }

  function Polled(offset: nat, present: bool, file: string): (string, nat) {
    if !present then ("", offset)
    else if |file| > offset then (file[offset..], |file|)
    else if |file| < offset then ("", 0)
    else ("", offset)
  }

  /** Everything printed over a run of polls, and the offset after it. */
  function PolledAll(offset: nat, files: seq<string>): (string, nat) {
    if files == [] then ("", offset)
    else
      var (before, at) := PolledAll(offset, files[..|files| - 1]);
      var (now, after) := Polled(at, true, files[|files| - 1]);
      (before + now, after)
  }

  lemma {:induction false} PolledFirst(start: nat, file: string, files: seq<string>)
    ensures var (first, at) := Polled(start, true, file);
            var (rest, end) := PolledAll(at, files);
            PolledAll(start, [file] + files) == (first + rest, end)
  {
    var all := [file] + files;
    if files == [] {
      assert all[..0] == [] && PolledAll(start, []) == ("", start);
      assert all == [file];
      var (first, at) := Polled(start, true, file);
      assert first + "" == first && "" + first == first;
    } else {
      var front := files[..|files| - 1];
      PolledFirst(start, file, front);
      assert all[..|all| - 1] == [file] + front;
      var (first, at) := Polled(start, true, file);
      var (before, mid) := PolledAll(at, front);
      var (now, after) := Polled(mid, true, files[|files| - 1]);
      assert first + (before + now) == (first + before) + now;
    }
  }

  /**
   * When the file has been cut below the offset the follower starts over: it prints what is in the file now and
   * whatever is appended from then on, from the first character.
   */
  lemma FollowsTruncation(start: nat, cut: string, files: seq<string>)
    requires |cut| < start && files != []
    requires forall i, j :: 0 <= i < j < |files| ==> files[i] <= files[j]
    ensures PolledAll(start, [cut] + files) == (files[|files| - 1], |files[|files| - 1]|)
  {
    PolledFirst(start, cut, files);
    FollowsAppends(0, files);
    var last := files[|files| - 1];
    assert "" + last[0..] == last;
  }

  /** While the file only grows, the follower prints every appended character once and in order. */
  lemma {:induction false} FollowsAppends(start: nat, files: seq<string>)
    requires files != [] && start <= |files[0]|
    requires forall i, j :: 0 <= i < j < |files| ==> files[i] <= files[j]
    ensures PolledAll(start, files) == (files[|files| - 1][start..], |files[|files| - 1]|)
  {
    var front, last := files[..|files| - 1], files[|files| - 1];
    if front == [] {
      assert PolledAll(start, front) == ("", start);
      assert "" + last[start..] == last[start..];
      if |last| == start { assert last[start..] == ""; }
    } else {
      FollowsAppends(start, front);
      var prev := front[|front| - 1];
      assert prev <= last;
      assert last[start..] == prev[start..] + last[|prev|..];
      if |last| == |prev| { assert last[|prev|..] == ""; }
    }
  }
}
