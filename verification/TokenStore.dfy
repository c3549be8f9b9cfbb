/**
  The labelled bearer tokens of the rc file, with the legacy single-token field that is migrated on the
  first add. `TokenFile` is the rc object as the functions of the source read and rewrite it; the lemmas
  show in which cases those rewrites refine a label-to-token table.
 */
module TokenStore {
  import opened Wrappers

  const MIN_TOKEN_LENGTH := 32

  /** One element of the stored array: not an object at all, or an object whose fields may not be strings. */
  datatype RawEntry = Garbled | Entry(name: Option<string>, token: Option<string>)

  /** `tokens` is `None` when the field is no array; `legacy` is `None` when that field is no string. */
  datatype Rc = Rc(tokens: Option<seq<RawEntry>>, legacy: Option<string>)

  datatype Token = Token(name: string, token: string)

  datatype AddResult = Added | LabelRequired | TooShort | LabelTaken

  // ---------- reading ----------

  predicate WellFormed(e: RawEntry) {
    e.Entry? && e.name.Some? && e.token.Some?
  }

  /** Entries that can become a configured token: both fields non-empty strings, the token long enough. */
  predicate Usable(e: RawEntry) {
    WellFormed(e) && e.name.value != "" && |e.token.value| >= MIN_TOKEN_LENGTH
  }

  predicate HasLabel(ts: seq<Token>, name: string) {
    exists i :: 0 <= i < |ts| && ts[i].name == name
  }

  /** The usable entries in order, the first of each label winning. */
  function Kept(entries: seq<RawEntry>): seq<Token> {
    if entries == [] then []
    else
      var before, e := Kept(entries[..|entries| - 1]), entries[|entries| - 1];
      if Usable(e) && !HasLabel(before, e.name.value) then before + [Token(e.name.value, e.token.value)] else before
  }

  function Entries(rc: Rc): seq<RawEntry> {
    if rc.tokens.Some? then rc.tokens.value else []
  }

  predicate LegacyUsable(rc: Rc) {
    rc.legacy.Some? && |rc.legacy.value| >= MIN_TOKEN_LENGTH
  }

  function Configured(rc: Rc): seq<Token> {
    var kept := Kept(Entries(rc));
    if LegacyUsable(rc) && !HasLabel(kept, "default") then kept + [Token("default", rc.legacy.value)] else kept
  }

  // ---------- rewriting ----------

  function OnlyWellFormed(entries: seq<RawEntry>): seq<RawEntry> {
    if entries == [] then []
    else (if WellFormed(entries[0]) then [entries[0]] else []) + OnlyWellFormed(entries[1..])
  }

  predicate SomeLabelled(entries: seq<RawEntry>, name: string) {
    exists i :: 0 <= i < |entries| && WellFormed(entries[i]) && entries[i].name.value == name
  }

  predicate IsLabelled(e: RawEntry, name: string) { e.Entry? && e.name == Some(name) }

  function WithoutLabel(entries: seq<RawEntry>, name: string): seq<RawEntry> {
    if entries == [] then []
    else WithoutLabel(entries[..|entries| - 1], name)
         + (if IsLabelled(entries[|entries| - 1], name) then [] else [entries[|entries| - 1]])
  }

  function NewEntry(name: string, token: string): RawEntry { Entry(Some(name), Some(token)) }

  /** The rc after a successful add, with the legacy field moved into the array. */
  function AfterAdd(rc: Rc, name: string, token: string): Rc {
    var pushed := OnlyWellFormed(Entries(rc)) + [NewEntry(name, token)];
    if rc.legacy.Some? && rc.legacy.value != "" then
      var moved := [NewEntry("default", rc.legacy.value)] + pushed;
      Rc(Some(if SomeLabelled(pushed, "default") then pushed else moved), None)
    else Rc(Some(pushed), rc.legacy)
  }

  function AfterRemove(rc: Rc, name: string): Rc {
    Rc(if rc.tokens.Some? then Some(WithoutLabel(rc.tokens.value, name)) else None,
       if name == "default" then None else rc.legacy)
  }

  class TokenFile {
    var rc: Rc

    constructor (rc: Rc)
      ensures this.rc == rc
    {
      this.rc := rc;
    }

    method GetConfiguredTokens() returns (out: seq<Token>)
      ensures out == Configured(rc)
    {
      out := [];
      var seenLabels: set<string> := {};
      if rc.tokens.Some? {
        var entries := rc.tokens.value;
        var i := 0;
        while i < |entries|
          invariant 0 <= i <= |entries|
          invariant out == Kept(entries[..i])
          invariant forall l :: l in seenLabels <==> HasLabel(out, l)
        {
          var e := entries[i];
          assert entries[..i + 1][..i] == entries[..i];
          i := i + 1;
          if e.Garbled? { continue; }
          if e.name.None? || e.name.value == "" || e.token.None? || e.token.value == "" { continue; }
          if |e.token.value| < MIN_TOKEN_LENGTH { continue; }
          if e.name.value in seenLabels { continue; }
          seenLabels := seenLabels + {e.name.value};
          ghost var before := out;
          out := out + [Token(e.name.value, e.token.value)];
          forall l ensures l in seenLabels <==> HasLabel(out, l) {
            HasLabelAppend(before, [Token(e.name.value, e.token.value)], l);
            assert [Token(e.name.value, e.token.value)][0] == Token(e.name.value, e.token.value);
          }
        }
        assert entries[..|entries|] == entries;
      }
      if rc.legacy.Some? && "default" !in seenLabels {
        if |rc.legacy.value| >= MIN_TOKEN_LENGTH {
          out := out + [Token("default", rc.legacy.value)];
        }
      }
    }

    /** The label of the first configured token equal to `provided`, after looking at every one of them. */
    method FindMatchingToken(provided: string) returns (match_: Option<string>)
      ensures match_ == MatchLabel(Configured(rc), provided)
    {
      var tokens := GetConfiguredTokens();
      match_ := None;
      for i := 0 to |tokens|
        invariant match_ == MatchLabel(tokens[..i], provided)
      {
        assert tokens[..i + 1] == tokens[..i] + [tokens[i]];
        MatchAppend(tokens[..i], tokens[i], provided);
        if |provided| == |tokens[i].token| {
          if provided == tokens[i].token && match_ == None {
            match_ := Some(tokens[i].name);
          }
        }
      }
      assert tokens[..|tokens|] == tokens;
    }

    method AddRemoteAccessToken(name: string, token: string) returns (result: AddResult)
      modifies this
      ensures result == (if name == "" then LabelRequired
                         else if |token| < MIN_TOKEN_LENGTH then TooShort
                         else if SomeLabelled(Entries(old(rc)), name) then LabelTaken
                         else Added)
      ensures rc == if result == Added then AfterAdd(old(rc), name, token) else old(rc)
    {
      if name == "" { return LabelRequired; }
      if |token| < MIN_TOKEN_LENGTH { return TooShort; }
      var existing := if rc.tokens.Some? then OnlyWellFormed(rc.tokens.value) else [];
      WellFormedKeepsLabels(Entries(rc), name);
      if SomeLabelled(existing, name) { return LabelTaken; }
      existing := existing + [NewEntry(name, token)];
      var legacy := rc.legacy;
      if rc.legacy.Some? && |rc.legacy.value| > 0 {
        if !SomeLabelled(existing, "default") {
          existing := [NewEntry("default", rc.legacy.value)] + existing;
        }
        legacy := None;
      }
      rc := Rc(Some(existing), legacy);
      return Added;
    }

    method RemoveRemoteAccessToken(name: string) returns (removed: bool)
      modifies this
      ensures rc == AfterRemove(old(rc), name)
      ensures removed <==> rc != old(rc)
      ensures removed <==>
        || (exists e :: e in Entries(old(rc)) && e.Entry? && e.name == Some(name))
        || (name == "default" && old(rc).legacy.Some?)
    {
      removed := false;
      var next := rc;
      if next.tokens.Some? {
        var before := |next.tokens.value|;
        WithoutLabelSize(next.tokens.value, name);
        RemovedElements(next.tokens.value, name, Garbled);
        next := next.(tokens := Some(WithoutLabel(next.tokens.value, name)));
        if |next.tokens.value| != before { removed := true; }
      }
      if name == "default" && next.legacy.Some? {
        next := next.(legacy := None);
        removed := true;
      }
      if removed { rc := next; }
    }
  }

  // ---------- the table a reader sees ----------

  /** The token stored under `label`: what a label-to-token table would answer. */
  function Lookup(ts: seq<Token>, name: string): Option<string> {
    if ts == [] then None else if ts[0].name == name then Some(ts[0].token) else Lookup(ts[1..], name)
  }

  function MatchLabel(ts: seq<Token>, provided: string): Option<string> {
    if ts == [] then None else if ts[0].token == provided then Some(ts[0].name) else MatchLabel(ts[1..], provided)
  }

  function FirstUsable(entries: seq<RawEntry>, name: string): Option<string> {
    if entries == [] then None
    else if Usable(entries[0]) && entries[0].name.value == name then Some(entries[0].token.value)
    else FirstUsable(entries[1..], name)
  }

  lemma HasLabelAppend(a: seq<Token>, b: seq<Token>, l: string)
    ensures HasLabel(a + b, l) <==> HasLabel(a, l) || HasLabel(b, l)
  {
    if HasLabel(a, l) {
      var i :| 0 <= i < |a| && a[i].name == l;
      assert (a + b)[i].name == l;
    }
    if HasLabel(b, l) {
      var i :| 0 <= i < |b| && b[i].name == l;
      assert (a + b)[|a| + i].name == l;
    }
  }

  lemma {:induction false} MatchAppend(a: seq<Token>, t: Token, provided: string)
    ensures MatchLabel(a + [t], provided) ==
      if MatchLabel(a, provided).Some? then MatchLabel(a, provided)
      else if t.token == provided then Some(t.name) else None
  {
    if a != [] {
      assert (a + [t])[1..] == a[1..] + [t];
      MatchAppend(a[1..], t, provided);
    }
  }

  /** A match names the first configured token equal to the presented one, and there is one whenever any is equal. */
  lemma {:induction false} MatchIsFirstEqual(ts: seq<Token>, provided: string)
    ensures MatchLabel(ts, provided).None? <==> forall i :: 0 <= i < |ts| ==> ts[i].token != provided
    ensures MatchLabel(ts, provided).Some? ==>
      exists i :: 0 <= i < |ts| && ts[i] == Token(MatchLabel(ts, provided).value, provided)
                  && forall j :: 0 <= j < i ==> ts[j].token != provided
  {
    if ts != [] {
      MatchIsFirstEqual(ts[1..], provided);
      if ts[0].token == provided {
        assert ts[0] == Token(ts[0].name, provided);
      } else if MatchLabel(ts, provided).Some? {
        var i :| 0 <= i < |ts[1..]| && ts[1..][i] == Token(MatchLabel(ts, provided).value, provided)
                 && forall j :: 0 <= j < i ==> ts[1..][j].token != provided;
        assert ts[i + 1] == ts[1..][i];
        assert forall j :: 0 < j < i + 1 ==> ts[j] == ts[1..][j - 1];
      } else {
        assert forall i :: 0 < i < |ts| ==> ts[i] == ts[1..][i - 1];
      }
    }
  }

  lemma {:induction false} LookupAppend(a: seq<Token>, b: seq<Token>, l: string)
    ensures Lookup(a + b, l) == if Lookup(a, l).Some? then Lookup(a, l) else Lookup(b, l)
    ensures Lookup(a, l).Some? <==> HasLabel(a, l)
  {
    if a == [] {
      assert a + b == b;
    } else {
      assert (a + b)[1..] == a[1..] + b;
      LookupAppend(a[1..], b, l);
      assert a == [a[0]] + a[1..];
      HasLabelAppend([a[0]], a[1..], l);
      assert [a[0]][0] == a[0];
    }
  }

  lemma {:induction false} FirstUsableAppend(a: seq<RawEntry>, b: seq<RawEntry>, l: string)
    ensures FirstUsable(a + b, l) == if FirstUsable(a, l).Some? then FirstUsable(a, l) else FirstUsable(b, l)
  {
    if a == [] {
      assert a + b == b;
    } else {
      assert (a + b)[1..] == a[1..] + b;
      FirstUsableAppend(a[1..], b, l);
    }
  }

  /** Reading the kept list under a label finds the first usable entry of that label. */
  lemma {:induction false} KeptLookup(entries: seq<RawEntry>, l: string)
    ensures Lookup(Kept(entries), l) == FirstUsable(entries, l)
  {
    if entries != [] {
      var front, e := entries[..|entries| - 1], entries[|entries| - 1];
      KeptLookup(front, l);
      assert entries == front + [e];
      FirstUsableAppend(front, [e], l);
      var before := Kept(front);
      if Usable(e) {
        LookupAppend(before, [Token(e.name.value, e.token.value)], l);
        LookupAppend(before, [], e.name.value);
      }
    }
  }

  lemma ConfiguredLookup(rc: Rc, l: string)
    ensures Lookup(Configured(rc), l) ==
      if FirstUsable(Entries(rc), l).Some? then FirstUsable(Entries(rc), l)
      else if l == "default" && LegacyUsable(rc) then rc.legacy else None
  {
    KeptLookup(Entries(rc), l);
    KeptLookup(Entries(rc), "default");
    LookupAppend(Kept(Entries(rc)), [], "default");
    if LegacyUsable(rc) {
      LookupAppend(Kept(Entries(rc)), [Token("default", rc.legacy.value)], l);
    }
  }

  // ---------- the configured list, spelled out ----------

  /** A stored element that gives `t` under `l`: both are texts, the label is not empty, the token has 32 characters. */
  predicate Gives(e: RawEntry, l: string, t: string) { e == Entry(Some(l), Some(t)) && l != "" && |t| >= 32 }

  /** Element `i` is the first to give a token under `l`, and that is `t`. */
  ghost predicate FirstGives(entries: seq<RawEntry>, i: nat, l: string, t: string) {
    && i < |entries| && Gives(entries[i], l, t)
    && forall j, u :: 0 <= j < i ==> !Gives(entries[j], l, u)
  }

  ghost predicate SomeGives(entries: seq<RawEntry>, l: string) { exists i: nat, t :: FirstGives(entries, i, l, t) }

  lemma {:induction false} FirstUsableIff(entries: seq<RawEntry>, l: string, t: string)
    ensures FirstUsable(entries, l) == Some(t) <==> exists i: nat :: FirstGives(entries, i, l, t)
  {
    if entries != [] {
      var e, rest := entries[0], entries[1..];
      FirstUsableIff(rest, l, t);
      if Usable(e) && e.name.value == l {
        assert Gives(e, l, e.token.value);
        if e.token.value == t { assert FirstGives(entries, 0, l, t); }
      } else {
        assert forall u :: !Gives(e, l, u);
        if i: nat :| FirstGives(rest, i, l, t) { assert FirstGives(entries, i + 1, l, t); }
        if i: nat :| FirstGives(entries, i, l, t) { assert FirstGives(rest, i - 1, l, t); }
      }
    }
  }

  /**
   * A label stands for a token if and only if the first element that gives one under it gives this one; or, for
   * `default` when no element gives any, if it is the legacy token and long enough.
   */
  lemma ConfiguredIff(rc: Rc, l: string, t: string)
    ensures Lookup(Configured(rc), l) == Some(t) <==>
      || (exists i: nat :: FirstGives(Entries(rc), i, l, t))
      || (l == "default" && !SomeGives(Entries(rc), "default") && rc.legacy == Some(t) && |t| >= 32)
  {
    ConfiguredLookup(rc, l);
    FirstUsableIff(Entries(rc), l, t);
    if FirstUsable(Entries(rc), l).Some? {
      FirstUsableIff(Entries(rc), l, FirstUsable(Entries(rc), l).value);
    }
    if i: nat, u :| FirstGives(Entries(rc), i, l, u) { FirstUsableIff(Entries(rc), l, u); }
  }

  /** Every entry of the kept list comes from the first element that gives one under its label. */
  lemma {:induction false} KeptFrom(entries: seq<RawEntry>, i: nat) returns (p: nat)
    requires i < |Kept(entries)|
    ensures FirstGives(entries, p, Kept(entries)[i].name, Kept(entries)[i].token)
  {
    var front, e := entries[..|entries| - 1], entries[|entries| - 1];
    if i < |Kept(front)| {
      p := KeptFrom(front, i);
      assert entries[p] == front[p];
    } else {
      p := |entries| - 1;
      KeptLookup(front, e.name.value);
      LookupAppend(Kept(front), [], e.name.value);
      forall j, u | 0 <= j < p ensures !Gives(entries[j], e.name.value, u) {
        if Gives(entries[j], e.name.value, u) { GivenIsUsable(front, j, e.name.value, u); }
      }
    }
  }

  lemma {:induction false} GivenIsUsable(entries: seq<RawEntry>, j: nat, l: string, t: string)
    requires j < |entries| && Gives(entries[j], l, t)
    ensures FirstUsable(entries, l).Some?
  {
    if j > 0 { GivenIsUsable(entries[1..], j - 1, l, t); }
  }

  /** The kept list has its entries in the order of the elements they come from. */
  lemma {:induction false} KeptOrdered(entries: seq<RawEntry>, i: nat, j: nat, p: nat, q: nat)
    requires i < j < |Kept(entries)|
    requires FirstGives(entries, p, Kept(entries)[i].name, Kept(entries)[i].token)
    requires FirstGives(entries, q, Kept(entries)[j].name, Kept(entries)[j].token)
    ensures p < q
  {
    var front := entries[..|entries| - 1];
    var before := Kept(front);
    var p' := KeptFrom(front, i);
    assert entries[p'] == front[p'];
    assert p == p' by { FirstIsUnique(entries, p, p', before[i].name, before[i].token); }
    if j < |before| {
      var q' := KeptFrom(front, j);
      assert entries[q'] == front[q'];
      assert q == q' by { FirstIsUnique(entries, q, q', before[j].name, before[j].token); }
      KeptOrdered(front, i, j, p, q);
    } else {
      var l := Kept(entries)[j].name;
      KeptLookup(front, l);
      LookupAppend(before, [], l);
      if q < |front| {
        assert Gives(front[q], l, Kept(entries)[j].token);
        GivenIsUsable(front, q, l, Kept(entries)[j].token);
      }
    }
  }

  lemma FirstIsUnique(entries: seq<RawEntry>, p: nat, q: nat, l: string, t: string)
    requires p < |entries| && q < |entries| && FirstGives(entries, p, l, t) && Gives(entries[q], l, t)
    requires forall j, u :: 0 <= j < q ==> !Gives(entries[j], l, u)
    ensures p == q
  {
  }

  lemma SomeLabelledAppend(a: seq<RawEntry>, b: seq<RawEntry>, l: string)
    ensures SomeLabelled(a + b, l) <==> SomeLabelled(a, l) || SomeLabelled(b, l)
  {
    if SomeLabelled(a, l) {
      var i :| 0 <= i < |a| && WellFormed(a[i]) && a[i].name.value == l;
      assert (a + b)[i] == a[i];
    }
    if SomeLabelled(b, l) {
      var i :| 0 <= i < |b| && WellFormed(b[i]) && b[i].name.value == l;
      assert (a + b)[|a| + i] == b[i];
    }
  }

  lemma {:induction false} WellFormedKeepsLabels(entries: seq<RawEntry>, l: string)
    ensures SomeLabelled(OnlyWellFormed(entries), l) <==> SomeLabelled(entries, l)
  {
    if entries != [] {
      WellFormedKeepsLabels(entries[1..], l);
      assert entries == [entries[0]] + entries[1..];
      SomeLabelledAppend([entries[0]], entries[1..], l);
      if WellFormed(entries[0]) {
        SomeLabelledAppend([entries[0]], OnlyWellFormed(entries[1..]), l);
      } else {
        assert OnlyWellFormed(entries) == OnlyWellFormed(entries[1..]);
      }
    }
  }

  lemma {:induction false} NotLabelledNotUsable(entries: seq<RawEntry>, l: string)
    requires !SomeLabelled(entries, l)
    ensures FirstUsable(entries, l).None?
  {
    if entries != [] {
      assert entries == [entries[0]] + entries[1..];
      SomeLabelledAppend([entries[0]], entries[1..], l);
      NotLabelledNotUsable(entries[1..], l);
    }
  }

  // ---------- main results ----------

  /** The legacy token answers for "default" today, and the add would drop it instead of migrating it. */
  predicate LegacyWouldBeLost(rc: Rc, name: string) {
    && LegacyUsable(rc)
    && FirstUsable(Entries(rc), "default").None?
    && (name == "default" || SomeLabelled(Entries(rc), "default"))
  }

  /** The table after the add is the old table plus the new pair, which was not in it. */
  ghost predicate AddsPair(before: seq<Token>, after: seq<Token>, name: string, token: string) {
    && Lookup(before, name).None?
    && forall l :: Lookup(after, l) == if l == name then Some(token) else Lookup(before, l)
  }

  /** A successful add extends the table by its pair exactly when it does not silently drop a usable legacy token. */
  lemma AddExtendsTable(rc: Rc, name: string, token: string)
    requires name != "" && |token| >= MIN_TOKEN_LENGTH && !SomeLabelled(Entries(rc), name)
    ensures AddsPair(Configured(rc), Configured(AfterAdd(rc, name, token)), name, token) <==>
              !LegacyWouldBeLost(rc, name)
  {
    var rc' := AfterAdd(rc, name, token);
    forall l
      ensures l != "default" ==>
                Lookup(Configured(rc'), l) == if l == name then Some(token) else Lookup(Configured(rc), l)
      ensures l == "default" ==> (Lookup(Configured(rc'), l) ==
        if l == name then Some(token)
        else if LegacyWouldBeLost(rc, name) then None else Lookup(Configured(rc), l))
    {
      AddLookup(rc, name, token, l);
    }
    ConfiguredLookup(rc, name);
    ConfiguredLookup(rc, "default");
    NotLabelledNotUsable(Entries(rc), name);
    if LegacyWouldBeLost(rc, name) && name != "default" {
      assert Lookup(Configured(rc'), "default") != Lookup(Configured(rc), "default");
    }
  }

  const LEGACY := "legacy-legacy-legacy-legacy-legacy"
  const FRESH := "fresh-fresh-fresh-fresh-fresh-fresh"

  /** The two ways: adding `default` itself, and a too-short `default` entry in the array. */
  lemma LegacyTokensLost()
    ensures !AddsPair(Configured(Rc(None, Some(LEGACY))),
              Configured(AfterAdd(Rc(None, Some(LEGACY)), "default", FRESH)),
                      "default", FRESH)
    ensures var rc := Rc(Some([NewEntry("default", "short")]), Some(LEGACY));
            Lookup(Configured(rc), "default") == Some(LEGACY) &&
                  Lookup(Configured(AfterAdd(rc, "ci", FRESH)), "default") == None
  {
    var rc0 := Rc(None, Some(LEGACY));
    AddExtendsTable(rc0, "default", FRESH);
    var entry := NewEntry("default", "short");
    var rc := Rc(Some([entry]), Some(LEGACY));
    assert [entry][1..] == [] && !Usable(entry);
    assert FirstUsable([entry], "default") == None;
    ConfiguredLookup(rc, "default");
    assert WellFormed([entry][0]) && SomeLabelled(Entries(rc), "default");
    assert !SomeLabelled(Entries(rc), "ci");
    AddLookup(rc, "ci", FRESH, "default");
  }

  // ---------- the list after an add ----------

  lemma WellFormedCons(e: RawEntry, rest: seq<RawEntry>)
    ensures OnlyWellFormed([e] + rest) == (if WellFormed(e) then [e] else []) + OnlyWellFormed(rest)
  {
    assert ([e] + rest)[1..] == rest;
  }

  lemma RegroupEntries(a: seq<RawEntry>, b: seq<RawEntry>, c: seq<RawEntry>)
    ensures a + (b + c) == a + b + c
  {
  }

  lemma {:induction false} WellFormedSnoc(entries: seq<RawEntry>, e: RawEntry)
    ensures OnlyWellFormed(entries + [e]) == OnlyWellFormed(entries) + if WellFormed(e) then [e] else []
  {
    var last := if WellFormed(e) then [e] else [];
    if entries == [] {
      assert entries + [e] == [e] + [];
      WellFormedCons(e, []);
    } else {
      var first, rest := entries[0], entries[1..];
      assert entries == [first] + rest;
      RegroupEntries([first], rest, [e]);
      WellFormedSnoc(rest, e);
      WellFormedCons(first, rest + [e]);
      WellFormedCons(first, rest);
      RegroupEntries(if WellFormed(first) then [first] else [], OnlyWellFormed(rest), last);
    }
  }

  lemma KeptSnoc(entries: seq<RawEntry>, e: RawEntry)
    ensures Kept(entries + [e])
         == if Usable(e) && !HasLabel(Kept(entries), e.name.value)
            then Kept(entries) + [Token(e.name.value, e.token.value)] else Kept(entries)
  {
    assert (entries + [e])[..|entries|] == entries;
  }

  lemma {:induction false} KeptWellFormed(entries: seq<RawEntry>)
    ensures Kept(OnlyWellFormed(entries)) == Kept(entries)
  {
    if entries != [] {
      var front, e := entries[..|entries| - 1], entries[|entries| - 1];
      assert entries == front + [e];
      KeptWellFormed(front);
      WellFormedSnoc(front, e);
      KeptSnoc(front, e);
      KeptSnoc(OnlyWellFormed(front), e);
      assert OnlyWellFormed(front) + [] == OnlyWellFormed(front);
    }
  }

  lemma {:induction false} KeptUnlabelled(entries: seq<RawEntry>, l: string)
    requires !SomeLabelled(entries, l)
    ensures !HasLabel(Kept(entries), l)
  {
    KeptLookup(entries, l);
    NotLabelledNotUsable(entries, l);
    LookupAppend(Kept(entries), [], l);
  }

  lemma Regroup(a: seq<Token>, b: seq<Token>, c: seq<Token>)
    ensures a + (b + c) == a + b + c
    ensures [] + b + c == b + c
  {
  }

  lemma OtherInFront(t: Token, ts: seq<Token>, l: string)
    requires t.name != l
    ensures HasLabel([t] + ts, l) <==> HasLabel(ts, l)
  {
    HasLabelAppend([t], ts, l);
  }

  lemma KeptAlone(d: RawEntry)
    ensures Kept([d]) == if Usable(d) then [Token(d.name.value, d.token.value)] else []
  {
    assert [] + [d] == [d];
    KeptSnoc([], d);
    assert Kept([]) == [];
  }

  lemma FrontAndLast(d: RawEntry, front: seq<RawEntry>, e: RawEntry)
    requires Usable(d) && Kept([d] + front) == [Token(d.name.value, d.token.value)] + Kept(front)
    requires WellFormed(e) ==> e.name != d.name
    ensures Kept([d] + (front + [e])) == [Token(d.name.value, d.token.value)] + Kept(front + [e])
  {
    var t := Token(d.name.value, d.token.value);
    RegroupEntries([d], front, [e]);
    KeptSnoc([d] + front, e);
    KeptSnoc(front, e);
    if Usable(e) {
      OtherInFront(t, Kept(front), e.name.value);
      Regroup([t], Kept(front), [Token(e.name.value, e.token.value)]);
    }
  }

  /** A new usable element in front, of a label no other has, gives its token first. */
  lemma {:induction false} KeptInFront(d: RawEntry, entries: seq<RawEntry>)
    requires Usable(d) && !SomeLabelled(entries, d.name.value)
    ensures Kept([d] + entries) == [Token(d.name.value, d.token.value)] + Kept(entries)
  {
    if entries == [] {
      assert [d] + entries == [d];
      KeptAlone(d);
    } else {
      var front, e := entries[..|entries| - 1], entries[|entries| - 1];
      assert entries == front + [e];
      SomeLabelledAppend(front, [e], d.name.value);
      assert [e][0] == e;
      KeptInFront(d, front);
      FrontAndLast(d, front, e);
    }
  }

  /** An unusable element in front gives nothing. */
  lemma {:induction false} UnusableInFront(d: RawEntry, entries: seq<RawEntry>)
    requires !Usable(d)
    ensures Kept([d] + entries) == Kept(entries)
  {
    if entries == [] {
      assert [d] + entries == [d];
      KeptAlone(d);
    } else {
      var front, e := entries[..|entries| - 1], entries[|entries| - 1];
      assert entries == front + [e];
      RegroupEntries([d], front, [e]);
      UnusableInFront(d, front);
      KeptSnoc([d] + front, e);
      KeptSnoc(front, e);
    }
  }

  lemma PushedElements(entries: seq<RawEntry>, name: string, token: string)
    requires name != "" && |token| >= MIN_TOKEN_LENGTH && !SomeLabelled(entries, name)
    ensures var pushed := OnlyWellFormed(entries) + [NewEntry(name, token)];
      && Kept(pushed) == Kept(entries) + [Token(name, token)]
      && (SomeLabelled(pushed, "default") <==> name == "default" || SomeLabelled(entries, "default"))
  {
    var e := NewEntry(name, token);
    KeptWellFormed(entries);
    KeptUnlabelled(entries, name);
    KeptSnoc(OnlyWellFormed(entries), e);
    WellFormedKeepsLabels(entries, "default");
    SomeLabelledAppend(OnlyWellFormed(entries), [e], "default");
    assert [e][0] == e;
  }

  /** An array without legacy token is read as what is kept of it. */
  lemma ConfiguredArray(entries: seq<RawEntry>, legacy: Option<string>)
    requires legacy == None || legacy == Some("")
    ensures Configured(Rc(Some(entries), legacy)) == Kept(entries)
  {
  }

  /**
   * After a successful add the configured list is the array's part of the old one, with the new pair behind it, and
   * before it the legacy token if that is usable and no element is labelled `default`, the new one included.
   */
  lemma AddedList(rc: Rc, name: string, token: string)
    requires name != "" && |token| >= MIN_TOKEN_LENGTH && !SomeLabelled(Entries(rc), name)
    ensures var moves := LegacyUsable(rc) && name != "default" && !SomeLabelled(Entries(rc), "default");
            Configured(AfterAdd(rc, name, token))
            == (if moves then [Token("default", rc.legacy.value)] else []) + Kept(Entries(rc)) + [Token(name, token)]
  {
    var pushed := OnlyWellFormed(Entries(rc)) + [NewEntry(name, token)];
    PushedElements(Entries(rc), name, token);
    Regroup([], Kept(Entries(rc)), [Token(name, token)]);
    if rc.legacy == None || rc.legacy == Some("") {
      ConfiguredArray(pushed, rc.legacy);
    } else if SomeLabelled(pushed, "default") {
      ConfiguredArray(pushed, None);
    } else {
      var d := NewEntry("default", rc.legacy.value);
      if Usable(d) { KeptInFront(d, pushed); } else { UnusableInFront(d, pushed); }
      ConfiguredArray([d] + pushed, None);
      Regroup([Token("default", rc.legacy.value)], Kept(Entries(rc)), [Token(name, token)]);
    }
  }

  /** What every label stands for after a successful add. */
  lemma AddLookup(rc: Rc, name: string, token: string, l: string)
    requires name != "" && |token| >= MIN_TOKEN_LENGTH && !SomeLabelled(Entries(rc), name)
    ensures Lookup(Configured(AfterAdd(rc, name, token)), l) ==
      if l == name then Some(token)
      else if l == "default" && LegacyWouldBeLost(rc, name) then None
      else Lookup(Configured(rc), l)
  {
    var kept := Kept(Entries(rc));
    var moves := LegacyUsable(rc) && name != "default" && !SomeLabelled(Entries(rc), "default");
    var moved := if moves then [Token("default", rc.legacy.value)] else [];
    AddedList(rc, name, token);
    LookupAppend(moved + kept, [Token(name, token)], l);
    LookupAppend(moved, kept, l);
    ConfiguredLookup(rc, l);
    KeptLookup(Entries(rc), l);
    NotLabelledNotUsable(Entries(rc), name);
    if !SomeLabelled(Entries(rc), "default") { NotLabelledNotUsable(Entries(rc), "default"); }
  }

  /** From then on the label, and `default` if there was a legacy token, are taken, and the legacy field is empty. */
  lemma AddedLabels(rc: Rc, name: string, token: string, l: string)
    ensures var after := AfterAdd(rc, name, token);
      && (SomeLabelled(Entries(after), l) <==>
            SomeLabelled(Entries(rc), l) || l == name
            || (l == "default" && rc.legacy.Some? && rc.legacy.value != ""))
      && (after.legacy == None || after.legacy == Some(""))
  {
    var entries := OnlyWellFormed(Entries(rc));
    var e, d := NewEntry(name, token), NewEntry("default", if rc.legacy.Some? then rc.legacy.value else "");
    WellFormedKeepsLabels(Entries(rc), l);
    WellFormedKeepsLabels(Entries(rc), "default");
    SomeLabelledAppend(entries, [e], l);
    SomeLabelledAppend(entries, [e], "default");
    SomeLabelledAppend([d], entries + [e], l);
    assert [e][0] == e && [d][0] == d;
  }

  /** A remove takes away exactly the elements of that label, whatever their token field holds. */
  lemma {:induction false} RemovedElements(entries: seq<RawEntry>, name: string, e: RawEntry)
    ensures e in WithoutLabel(entries, name) <==> e in entries && !(e.Entry? && e.name == Some(name))
    ensures |WithoutLabel(entries, name)| < |entries| <==> exists x :: x in entries && x.Entry? && x.name == Some(name)
  {
    if entries != [] {
      var front, last := entries[..|entries| - 1], entries[|entries| - 1];
      assert entries == front + [last];
      RemovedElements(front, name, e);
      WithoutLabelSize(front, name);
      assert forall x :: x in entries <==> x in front || x == last;
    }
  }

  function Without(ts: seq<Token>, name: string): seq<Token> {
    if ts == [] then []
    else Without(ts[..|ts| - 1], name) + (if ts[|ts| - 1].name == name then [] else [ts[|ts| - 1]])
  }

  lemma {:induction false} WithoutHasLabel(ts: seq<Token>, name: string, l: string)
    ensures HasLabel(Without(ts, name), l) <==> l != name && HasLabel(ts, l)
  {
    if ts != [] {
      var front, t := ts[..|ts| - 1], ts[|ts| - 1];
      WithoutHasLabel(front, name, l);
      assert ts == front + [t];
      HasLabelAppend(front, [t], l);
      HasLabelAppend(Without(front, name), if t.name == name then [] else [t], l);
      assert [t][0] == t;
    }
  }

  lemma WithoutAppend(ts: seq<Token>, t: Token, name: string)
    ensures Without(ts + [t], name) == Without(ts, name) + (if t.name == name then [] else [t])
  {
    assert (ts + [t])[..|ts|] == ts;
  }

  lemma {:induction false} KeptWithoutLabel(entries: seq<RawEntry>, name: string)
    ensures Kept(WithoutLabel(entries, name)) == Without(Kept(entries), name)
  {
    if entries != [] {
      var front, e := entries[..|entries| - 1], entries[|entries| - 1];
      KeptWithoutLabel(front, name);
      var less := WithoutLabel(front, name);
      assert less + [] == less;
      assert (less + [e])[..|less|] == less;
      if Usable(e) {
        WithoutHasLabel(Kept(front), name, e.name.value);
        WithoutAppend(Kept(front), Token(e.name.value, e.token.value), name);
      }
    }
  }

  lemma {:induction false} WithoutLabelSize(entries: seq<RawEntry>, name: string)
    ensures |WithoutLabel(entries, name)| <= |entries|
    ensures |WithoutLabel(entries, name)| == |entries| ==> WithoutLabel(entries, name) == entries
  {
    if entries != [] {
      WithoutLabelSize(entries[..|entries| - 1], name);
    }
  }

  /** Removing a label leaves the configured list as it was, in order, except for that label. */
  lemma RemoveDropsOnlyLabel(rc: Rc, name: string)
    ensures Configured(AfterRemove(rc, name)) == Without(Configured(rc), name)
  {
    var kept := Kept(Entries(rc));
    KeptWithoutLabel(Entries(rc), name);
    WithoutHasLabel(kept, name, "default");
    if LegacyUsable(rc) {
      WithoutAppend(kept, Token("default", rc.legacy.value), name);
    }
  }
}
