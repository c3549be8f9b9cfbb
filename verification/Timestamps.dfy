/**
  Rewriting leaked database timestamps in outgoing JSON: the string converter, and the walk over a whole
  JSON value that returns the very same value when there is nothing to rewrite.
 */
module Timestamps {
  import opened Wrappers

  datatype Json =
    | Null
    | Bool(b: bool)
    | Num(n: real)
    | Text(s: string)
    | Arr(items: seq<Json>)
    | Obj(fields: seq<(string, Json)>)

  // ---------- one string ----------

  predicate Digit(c: char) { '0' <= c <= '9' }

  predicate Digits(s: string, from: nat, to: nat)
    requires from <= to <= |s|
  {
    forall i :: from <= i < to ==> Digit(s[i])
  }

  /** `YYYY-MM-DD`, a space or `T`, `HH:MM:SS`, an optional fraction, and nothing else. */
  predicate Naive(s: string) {
    && |s| >= 19
    && Digits(s, 0, 4) && s[4] == '-' && Digits(s, 5, 7) && s[7] == '-' && Digits(s, 8, 10)
    && (s[10] == ' ' || s[10] == 'T')
    && Digits(s, 11, 13) && s[13] == ':' && Digits(s, 14, 16) && s[16] == ':' && Digits(s, 17, 19)
    && (|s| == 19 || (|s| >= 21 && s[19] == '.' && Digits(s, 20, |s|)))
  }

  predicate Sign(c: char) { c == '+' || c == '-' }

  /** Ends in `Z`, `z`, or a numeric offset with or without its colon. */
  predicate Zoned(s: string) {
    var n := |s|;
    || (n >= 1 && (s[n - 1] == 'Z' || s[n - 1] == 'z'))
    || (n >= 5 && Sign(s[n - 5]) && Digits(s, n - 4, n))
    || (n >= 6 && Sign(s[n - 6]) && Digits(s, n - 5, n - 3) && s[n - 3] == ':' && Digits(s, n - 2, n))
  }

  function ToIsoUtc(s: string): string {
    if Zoned(s) then s
    else if !Naive(s) then s
    else s[..10] + "T" + s[11..19] + (if |s| == 19 then ".000" else s[19..]) + "Z"
  }

  /** The zone test can never swallow a naive timestamp. */
  lemma NaiveHasNoZone(s: string)
    requires Naive(s)
    ensures !Zoned(s)
  {
    var n := |s|;
    assert forall i :: 11 <= i < n ==> Digit(s[i]) || s[i] == ':' || s[i] == '.';
    assert !Sign(s[n - 5]) && !Sign(s[n - 6]);
    assert Digit(s[n - 1]);
  }

  /** A string is rewritten exactly when it is a naive timestamp, and what comes out is left alone from then on. */
  lemma RewritesExactlyNaive(s: string)
    ensures ToIsoUtc(s) != s <==> Naive(s)
    ensures Zoned(ToIsoUtc(s)) || ToIsoUtc(s) == s
    ensures ToIsoUtc(ToIsoUtc(s)) == ToIsoUtc(s) && !Naive(ToIsoUtc(s))
  {
    if Naive(s) {
      NaiveHasNoZone(s);
      var r := ToIsoUtc(s);
      assert r[|r| - 1] == 'Z';
      if Naive(r) { NaiveHasNoZone(r); }
    } else if Naive(ToIsoUtc(s)) {
      NaiveHasNoZone(ToIsoUtc(s));
    }
  }

  /** The digits after the point, as a fraction. */
  function Fraction(digits: string): real {
    if digits == "" then 0.0
    else ((if Digit(digits[0]) then digits[0] as int - '0' as int else 0) as real + Fraction(digits[1..])) / 10.0
  }

  /** Date, time of day and fraction of a naive timestamp. */
  datatype Moment = Moment(date: string, clock: string, fraction: real)

  function MomentOf(s: string): Moment
    requires Naive(s)
  {
    Moment(s[..10], s[11..19], if |s| == 19 then 0.0 else Fraction(s[20..]))
  }

  lemma ZeroFraction()
    ensures Fraction("000") == 0.0
  {
    assert Fraction("000"[3..]) == 0.0;
    assert Fraction("000"[2..]) == 0.0;
    assert Fraction("000"[1..]) == 0.0;
  }

  /** The rewritten timestamp without its zone. */
  function Rewritten(s: string): string
    requires Naive(s)
  {
    s[..10] + "T" + s[11..19] + (if |s| == 19 then ".000" else s[19..])
  }

  lemma RewrittenAt(s: string)
    requires Naive(s)
    ensures var t := Rewritten(s);
            && |t| == (if |s| == 19 then 23 else |s|)
            && (forall i :: 0 <= i < 19 && i != 10 ==> t[i] == s[i])
            && t[10] == 'T'
            && (if |s| == 19 then t[19..] == ".000" else t[19..] == s[19..])
  {
    var head := s[..10] + "T" + s[11..19];
    assert |head| == 19 && Rewritten(s) == head + if |s| == 19 then ".000" else s[19..];
    assert Rewritten(s)[19..] == if |s| == 19 then ".000" else s[19..];
    assert forall i :: 0 <= i < 19 ==> Rewritten(s)[i] == head[i];
  }

  lemma RewrittenIsNaive(s: string)
    requires Naive(s)
    ensures Naive(Rewritten(s))
  {
    var t := Rewritten(s);
    RewrittenAt(s);
    assert forall i :: 19 <= i < |t| ==> t[i] == t[19..][i - 19];
    if |s| == 19 {
      assert ".000"[0] == '.' && forall i :: 1 <= i < 4 ==> Digit(".000"[i]);
    } else {
      assert forall i :: 19 <= i < |s| ==> s[i] == s[19..][i - 19];
    }
  }

  /** Rewriting only adds the zone: the same date, time and fraction, now marked as UTC. */
  lemma SameMoment(s: string)
    requires Naive(s)
    ensures var r := ToIsoUtc(s); var t := r[..|r| - 1];
            r[|r| - 1] == 'Z' && Naive(t) && t[10] == 'T' && MomentOf(t) == MomentOf(s)
  {
    var r, t := ToIsoUtc(s), Rewritten(s);
    NaiveHasNoZone(s);
    ZeroFraction();
    RewrittenAt(s);
    RewrittenIsNaive(s);
    assert r == t + "Z" && r[..|r| - 1] == t;
    assert t[..10] == s[..10] && t[11..19] == s[11..19];
    assert t[20..] == t[19..][1..] && (|s| > 19 ==> s[20..] == s[19..][1..]);
    assert ".000"[1..] == "000";
  }

  // ---------- the walk ----------

  /** The walk returns a value other than the one it was given. */
  predicate Changed(v: Json)
    decreases v
  {
    match v
    case Text(s) => ToIsoUtc(s) != s
    case Arr(items) => ChangedItems(v, |items|)
    case Obj(fields) => ChangedFields(v, |fields|)
    case _ => false
  }

  predicate ChangedItems(v: Json, n: nat)
    requires v.Arr? && n <= |v.items|
    decreases v, n
  {
    n > 0 && (ChangedItems(v, n - 1) || Changed(v.items[n - 1]))
  }

  predicate ChangedFields(v: Json, n: nat)
    requires v.Obj? && n <= |v.fields|
    decreases v, n
  {
    n > 0 && (ChangedFields(v, n - 1) || Changed(v.fields[n - 1].1))
  }

  /** Assigning the key `__proto__` of a plain object sets its prototype and adds no property. */
  const PROTO := "__proto__"

  function Norm(v: Json): Json
    decreases v
  {
    match v
    case Text(s) => Text(ToIsoUtc(s))
    case Arr(items) => Arr(NormItems(v, |items|))
    case Obj(fields) => if Changed(v) then Obj(NormFields(v, |fields|)) else v
    case _ => v
  }

  function NormItems(v: Json, n: nat): seq<Json>
    requires v.Arr? && n <= |v.items|
    decreases v, n
  {
    if n == 0 then [] else NormItems(v, n - 1) + [Norm(v.items[n - 1])]
  }

  /** The first `n` properties as the rebuilt object gets them. */
  function NormFields(v: Json, n: nat): seq<(string, Json)>
    requires v.Obj? && n <= |v.fields|
    decreases v, n
  {
    if n == 0 then []
    else NormFields(v, n - 1)
          + (if v.fields[n - 1].0 == PROTO then [] else [(v.fields[n - 1].0, Norm(v.fields[n - 1].1))])
  }

  /** `same` says that the returned value is the given one itself, not a copy. */
  method NormalizeTimestampsDeep(value: Json) returns (out: Json, same: bool)
    ensures out == Norm(value) && (same <==> !Changed(value))
    decreases value
  {
    match value {
      case Text(s) =>
        var rewritten := ToIsoUtc(s);
        if rewritten == s { return value, true; } else { return Text(rewritten), false; }
      case Arr(items) =>
        var changed := false;
        var rebuilt: seq<Json> := [];
        for i := 0 to |items|
          invariant rebuilt == NormItems(value, i) && changed == ChangedItems(value, i)
        {
          var next, kept := NormalizeTimestampsDeep(items[i]);
          if !kept { changed := true; }
          rebuilt := rebuilt + [next];
        }
        if changed { return Arr(rebuilt), false; }
        UnchangedIsSame(value);
        return value, true;
      case Obj(fields) =>
        var changed := false;
        var rebuilt: seq<(string, Json)> := [];
        for i := 0 to |fields|
          invariant rebuilt == NormFields(value, i) && changed == ChangedFields(value, i)
        {
          var next, kept := NormalizeTimestampsDeep(fields[i].1);
          if !kept { changed := true; }
          if fields[i].0 != PROTO { rebuilt := rebuilt + [(fields[i].0, next)]; }
        }
        if changed { return Obj(rebuilt), false; }
        return value, true;
      case _ => return value, true;
    }
  }

  lemma {:induction false} ChangedSome(v: Json, n: nat)
    ensures v.Arr? && n <= |v.items| ==> (ChangedItems(v, n) <==> exists i :: 0 <= i < n && Changed(v.items[i]))
    ensures v.Obj? && n <= |v.fields| ==> (ChangedFields(v, n) <==> exists i :: 0 <= i < n && Changed(v.fields[i].1))
  {
    if n > 0 { ChangedSome(v, n - 1); }
  }

  lemma {:induction false} NormItemsAt(v: Json, n: nat)
    requires v.Arr? && n <= |v.items|
    ensures |NormItems(v, n)| == n
    ensures forall i :: 0 <= i < n ==> NormItems(v, n)[i] == Norm(v.items[i])
  {
    if n > 0 { NormItemsAt(v, n - 1); }
  }

  lemma {:induction false} UnchangedIsSame(v: Json)
    requires !Changed(v)
    ensures Norm(v) == v
  {
    if v.Arr? {
      ChangedSome(v, |v.items|);
      NormItemsAt(v, |v.items|);
      forall i | 0 <= i < |v.items| ensures Norm(v.items[i]) == v.items[i] {
        UnchangedIsSame(v.items[i]);
      }
      assert Norm(v).items == v.items;
    }
  }

  // ---------- what the walk does to a whole value ----------

  ghost predicate TextLeaf(v: Json, s: string) {
    match v
    case Text(t) => s == t
    case Arr(items) => exists i :: 0 <= i < |items| && TextLeaf(items[i], s)
    case Obj(fields) => exists i :: 0 <= i < |fields| && TextLeaf(fields[i].1, s)
    case _ => false
  }

  /** The very same value comes back exactly when no text anywhere in it is a naive timestamp. */
  lemma {:induction false} SameIffNoNaiveLeaf(v: Json)
    ensures Changed(v) <==> exists s :: TextLeaf(v, s) && Naive(s)
  {
    match v {
      case Text(s) => RewritesExactlyNaive(s);
      case Arr(items) =>
        ChangedSome(v, |items|);
        forall i | 0 <= i < |items| ensures Changed(items[i]) <==> exists s :: TextLeaf(items[i], s) && Naive(s) {
          SameIffNoNaiveLeaf(items[i]);
        }
        if Changed(v) {
          var i :| 0 <= i < |items| && Changed(items[i]);
          var s :| TextLeaf(items[i], s) && Naive(s);
          assert TextLeaf(v, s);
        }
      case Obj(fields) =>
        ChangedSome(v, |fields|);
        forall i | 0 <= i < |fields|
          ensures Changed(fields[i].1) <==> exists s :: TextLeaf(fields[i].1, s) && Naive(s)
        {
          SameIffNoNaiveLeaf(fields[i].1);
        }
        if Changed(v) {
          var i :| 0 <= i < |fields| && Changed(fields[i].1);
          var s :| TextLeaf(fields[i].1, s) && Naive(s);
          assert TextLeaf(v, s);
        }
      case _ =>
    }
  }

  lemma {:induction false} NormFieldsUnchanged(v: Json, n: nat)
    requires v.Obj? && n <= |v.fields|
    requires forall i :: 0 <= i < n ==> !Changed(Norm(v.fields[i].1))
    ensures forall j :: 0 <= j < |NormFields(v, n)| ==> !Changed(NormFields(v, n)[j].1)
  {
    if n > 0 { NormFieldsUnchanged(v, n - 1); }
  }

  /** Rewriting is idempotent: its output holds no naive timestamp, so a second pass returns it as it is. */
  lemma {:induction false} NormIsIdempotent(v: Json)
    ensures !Changed(Norm(v)) && Norm(Norm(v)) == Norm(v)
  {
    match v {
      case Text(s) => RewritesExactlyNaive(s);
      case Arr(items) =>
        forall i | 0 <= i < |items| ensures !Changed(Norm(items[i])) { NormIsIdempotent(items[i]); }
        NormItemsAt(v, |items|);
        var w := Norm(v);
        assert w == Arr(NormItems(v, |items|));
        ChangedSome(w, |w.items|);
        assert !Changed(w);
      case Obj(fields) =>
        forall i | 0 <= i < |fields| ensures !Changed(Norm(fields[i].1)) { NormIsIdempotent(fields[i].1); }
        if Changed(v) {
          NormFieldsUnchanged(v, |fields|);
          var w := Norm(v);
          assert w == Obj(NormFields(v, |fields|));
          ChangedSome(w, |w.fields|);
          assert !Changed(w);
        }
      case _ =>
    }
    UnchangedIsSame(Norm(v));
  }

  datatype Hop = Index(i: nat) | Key(k: string)

  function Field(fields: seq<(string, Json)>, k: string): Option<Json> {
    if fields == [] then None
    else if fields[|fields| - 1].0 == k then Some(fields[|fields| - 1].1)
    else Field(fields[..|fields| - 1], k)
  }

  function Child(v: Json, hop: Hop): Option<Json> {
    match (v, hop)
    case (Arr(items), Index(i)) => if i < |items| then Some(items[i]) else None
    case (Obj(fields), Key(k)) => Field(fields, k)
    case _ => None
  }

  /** What stands at the end of a path of indices and keys. */
  function At(v: Json, path: seq<Hop>): Option<Json>
    decreases |path|
  {
    if path == [] then Some(v)
    else match Child(v, path[0])
         case None => None
         case Some(c) => At(c, path[1..])
  }

  lemma {:induction false} NormFieldsAt(v: Json, n: nat)
    requires v.Obj? && n <= |v.fields|
    requires forall i :: 0 <= i < n ==> v.fields[i].0 != PROTO
    ensures |NormFields(v, n)| == n
    ensures forall j :: 0 <= j < n ==> NormFields(v, n)[j] == (v.fields[j].0, Norm(v.fields[j].1))
  {
    if n > 0 { NormFieldsAt(v, n - 1); }
  }

  lemma {:induction false} FieldNormed(a: seq<(string, Json)>, b: seq<(string, Json)>, k: string)
    requires |a| == |b| && forall j :: 0 <= j < |a| ==> b[j] == (a[j].0, Norm(a[j].1))
    ensures Field(b, k) == match Field(a, k) case None => None case Some(c) => Some(Norm(c))
    ensures Field(a, k).Some? ==> exists j :: 0 <= j < |a| && a[j] == (k, Field(a, k).value)
  {
    if a != [] {
      var n := |a| - 1;
      FieldNormed(a[..n], b[..n], k);
      if a[n].0 == k { assert a[n] == (k, Field(a, k).value); }
    }
  }

  predicate HasProtoKey(fields: seq<(string, Json)>) { exists i | 0 <= i < |fields| :: fields[i].0 == PROTO }

  /** An object that is rebuilt and has the key `__proto__`. */
  predicate LosesKey(v: Json) { v.Obj? && Changed(v) && HasProtoKey(v.fields) }

  lemma ChildNormed(v: Json, hop: Hop)
    requires !LosesKey(v)
    ensures Child(Norm(v), hop) == match Child(v, hop) case None => None case Some(c) => Some(Norm(c))
  {
    if v.Arr? {
      NormItemsAt(v, |v.items|);
    } else if v.Obj? && Changed(v) {
      NormFieldsAt(v, |v.fields|);
      if hop.Key? { FieldNormed(v.fields, NormFields(v, |v.fields|), hop.k); }
    } else if v.Obj? {
      ChangedSome(v, |v.fields|);
      forall j | 0 <= j < |v.fields| ensures Norm(v.fields[j].1) == v.fields[j].1 { UnchangedIsSame(v.fields[j].1); }
      if hop.Key? { FieldNormed(v.fields, v.fields, hop.k); }
    }
  }

  /** The path leads to the rewriting of what it led to before. */
  predicate KeptAt(v: Json, path: seq<Hop>) {
    At(Norm(v), path) == match At(v, path) case None => None case Some(c) => Some(Norm(c))
  }

  /** The path leads to an object that loses a key. */
  predicate LosesAt(v: Json, path: seq<Hop>) { At(v, path).Some? && LosesKey(At(v, path).value) }

  lemma AtChild(v: Json, hop: Hop, path: seq<Hop>)
    ensures At(v, [hop] + path) == match Child(v, hop) case None => None case Some(c) => At(c, path)
  {
    assert ([hop] + path)[1..] == path;
  }

  lemma {:induction false} PathKept(v: Json, path: seq<Hop>)
    requires forall n | 0 <= n <= |path| :: !LosesAt(v, path[..n])
    ensures KeptAt(v, path)
    decreases |path|
  {
    assert !LosesAt(v, path[..0]);
    if path != [] {
      var hop, rest := path[0], path[1..];
      ChildNormed(v, hop);
      if Child(v, hop).Some? {
        var c := Child(v, hop).value;
        forall n | 0 <= n <= |rest| ensures !LosesAt(c, rest[..n]) {
          AtChild(v, hop, rest[..n]);
          assert [hop] + rest[..n] == path[..n + 1];
        }
        PathKept(c, rest);
      }
    }
  }

  lemma FieldSnoc(front: seq<(string, Json)>, x: (string, Json), k: string)
    ensures Field(front + [x], k) == if x.0 == k then Some(x.1) else Field(front, k)
  {
    assert (front + [x])[..|front|] == front;
  }

  lemma {:induction false} NoProtoField(v: Json, n: nat)
    requires v.Obj? && n <= |v.fields|
    ensures Field(NormFields(v, n), PROTO) == None
  {
    if n > 0 {
      NoProtoField(v, n - 1);
      if v.fields[n - 1].0 == PROTO {
        assert NormFields(v, n) == NormFields(v, n - 1);
      } else {
        FieldSnoc(NormFields(v, n - 1), (v.fields[n - 1].0, Norm(v.fields[n - 1].1)), PROTO);
      }
    }
  }

  lemma {:induction false} ProtoFieldFound(fields: seq<(string, Json)>)
    requires HasProtoKey(fields)
    ensures Field(fields, PROTO).Some?
  {
    var n := |fields| - 1;
    if fields[n].0 != PROTO {
      var i :| 0 <= i < |fields| && fields[i].0 == PROTO;
      assert fields[..n][i].0 == PROTO;
      ProtoFieldFound(fields[..n]);
    }
  }

  lemma ProtoPathLost(v: Json)
    requires LosesKey(v)
    ensures !KeptAt(v, [Key(PROTO)])
  {
    NoProtoField(v, |v.fields|);
    ProtoFieldFound(v.fields);
    AtChild(v, Key(PROTO), []);
    AtChild(Norm(v), Key(PROTO), []);
    assert [Key(PROTO)] + [] == [Key(PROTO)];
  }

  lemma {:induction false} SomePathLost(v: Json, path: seq<Hop>) returns (lost: seq<Hop>)
    requires LosesAt(v, path)
    ensures !KeptAt(v, lost)
    decreases |path|
  {
    if LosesKey(v) {
      ProtoPathLost(v);
      lost := [Key(PROTO)];
    } else {
      var hop := path[0];
      var inner := SomePathLost(Child(v, hop).value, path[1..]);
      lost := [hop] + inner;
      ChildNormed(v, hop);
      AtChild(v, hop, inner);
      AtChild(Norm(v), hop, inner);
    }
  }

  /**
   * Every path leads to the rewriting of what it led to before, so nothing is added or lost, if and only if no object
   * in the tree that has to be rebuilt has a `__proto__` key.
   */
  lemma PathsKept(v: Json)
    ensures (forall path :: KeptAt(v, path)) <==> (forall path :: !LosesAt(v, path))
  {
    if forall path :: !LosesAt(v, path) {
      forall path ensures KeptAt(v, path) { PathKept(v, path); }
    } else {
      var path :| LosesAt(v, path);
      var lost := SomePathLost(v, path);
    }
  }

  /** What a kept path leads to: other leaves stay as they are, and arrays keep their length. */
  lemma KeptLeaves(v: Json, path: seq<Hop>)
    requires KeptAt(v, path) && At(v, path).Some?
    ensures var c := At(v, path).value;
            && At(Norm(v), path).Some?
            && (!c.Text? && !c.Arr? && !c.Obj? ==> At(Norm(v), path) == Some(c))
            && (c.Arr? ==> At(Norm(v), path).value.Arr? && |At(Norm(v), path).value.items| == |c.items|)
  {
    var c := At(v, path).value;
    if c.Arr? { NormItemsAt(c, |c.items|); }
  }

  const STAMP := "2026-04-27 17:04:51"

  function WithProto(s: string): Json { Obj([(PROTO, Null), ("at", Text(s))]) }

  /** An object loses its `__proto__` key because a timestamp beside it is rewritten. */
  lemma ProtoIsLost(s: string)
    requires Naive(s)
    ensures Norm(WithProto(s)) == Obj([("at", Text(ToIsoUtc(s)))]) && !KeptAt(WithProto(s), [Key(PROTO)])
  {
    var v := WithProto(s);
    RewritesExactlyNaive(s);
    assert Changed(v.fields[1].1) && ChangedFields(v, 2) && Changed(v);
    assert NormFields(v, 0) == [] && NormFields(v, 1) == [];
    assert NormFields(v, 2) == [("at", Text(ToIsoUtc(s)))];
    assert v.fields[0].0 == PROTO;
    ProtoPathLost(v);
  }

  lemma StampIsNaive()
    ensures Naive(STAMP) && |STAMP| == 19
  {
  }

  lemma StampParts()
    ensures |STAMP| == 19 && STAMP[..10] == "2026-04-27" && STAMP[11..19] == "17:04:51"
  {
  }

  lemma StampRewritten()
    ensures Naive(STAMP) && ToIsoUtc(STAMP) == "2026-04-27T17:04:51.000Z"
  {
    StampIsNaive();
    StampParts();
    NaiveHasNoZone(STAMP);
    calc {
      ToIsoUtc(STAMP);
      STAMP[..10] + "T" + STAMP[11..19] + ".000" + "Z";
      "2026-04-27" + "T" + "17:04:51" + ".000" + "Z";
      "2026-04-27T17:04:51.000Z";
    }
  }

  /** One such object. */
  lemma StampLosesProto()
    ensures Norm(WithProto(STAMP)) == Obj([("at", Text("2026-04-27T17:04:51.000Z"))])
    ensures !KeptAt(WithProto(STAMP), [Key(PROTO)])
  {
    StampRewritten();
    ProtoIsLost(STAMP);
  }

  /** An object keeps its keys, in order, exactly when it is returned as it is or has no key `__proto__`. */
  lemma KeysKeptIffNoProto(v: Json)
    requires v.Obj?
    ensures (|Norm(v).fields| == |v.fields| && forall i :: 0 <= i < |v.fields| ==> Norm(v).fields[i].0 == v.fields[i].0)
      <==> !Changed(v) || forall i :: 0 <= i < |v.fields| ==> v.fields[i].0 != PROTO
  {
    if Changed(v) { ProtoDropped(v, |v.fields|); }
    if forall i :: 0 <= i < |v.fields| ==> v.fields[i].0 != PROTO { NormFieldsAt(v, |v.fields|); }
  }

  lemma {:induction false} ProtoDropped(v: Json, n: nat)
    requires v.Obj? && n <= |v.fields|
    ensures |NormFields(v, n)| <= n
    ensures |NormFields(v, n)| == n ==> forall i :: 0 <= i < n ==> v.fields[i].0 != PROTO
  {
    if n > 0 { ProtoDropped(v, n - 1); }
  }
}
