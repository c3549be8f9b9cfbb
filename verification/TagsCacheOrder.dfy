/** Which list the tags cache gives up above its cap: the one that has been in it longest. */
module TagsCacheOrder {
  import HeldOrder
  import opened OrderedMap
  import opened TagsCache
  import opened Wrappers

  /** The step is a GET of `k` that finds no live list: it stores one, at the end of the map. */
  predicate Stores(s: State, op: Op, k: Key) { op == GetOp(k, op.at) && Hit(s.cache, k, op.at).None? }

  lemma MissForgets(cache: Cache, key: Key, now: int)
    requires Distinct(cache) && Hit(cache, key, now).None?
    ensures AfterRead(cache, key, now) == Remove(cache, key)
    ensures Distinct(Remove(cache, key)) && Keys(Remove(cache, key)) == Keys(cache) - {key}
  {
    GetIsMember(cache, key);
    RemoveSpec(cache, key);
    if Get(cache, key).None? { RemoveMissing(cache, key); }
  }

  /** The cache after a miss: the lists of the other keys, without the first one if there are 256, and the new list. */
  function AfterMiss(left: Cache, key: Key, tags: set<string>, now: int): Cache {
    (if |left| == MAX_CACHED then left[1..] else left) + [(key, CacheEntry(tags, now + TTL_MS))]
  }

  lemma MissStores(cache: Cache, key: Key, tags: set<string>, now: int)
    requires Bounded(cache) && Hit(cache, key, now).None?
    ensures AfterWrite(AfterRead(cache, key, now), key, tags, now) == AfterMiss(Remove(cache, key), key, tags, now)
    ensures |Remove(cache, key)| <= MAX_CACHED
  {
    MissForgets(cache, key, now);
    RemoveSpec(cache, key);
    PutPlace(Remove(cache, key), key, CacheEntry(tags, now + TTL_MS));
  }

  lemma AppendedOrder(left: Cache, key: Key, entry: CacheEntry, a: Key, b: Key)
    requires key !in Keys(left) && Before(left + [(key, entry)], a, b)
    ensures a != key && (b == key || Before(left, a, b))
  {
    PutPlace(left, key, entry);
    PutKeepsOrder(left, key, entry, a, b);
  }

  lemma TailOrder(m: Cache, a: Key, b: Key)
    requires m != [] && Before(m[1..], a, b)
    ensures Before(m, a, b)
  {
    assert m[..0] + m[1..] == m[1..];
    GapKeepsOrder(m, 0, a, b);
  }

  lemma TailHas(m: Cache, k: Key)
    requires m != [] && k in Keys(m[1..])
    ensures k in Keys(m)
  {
    var i :| 0 <= i < |m[1..]| && m[1..][i].0 == k;
    assert m[i + 1].0 == k;
  }

  lemma MissOrder(left: Cache, key: Key, tags: set<string>, now: int, a: Key, b: Key)
    requires key !in Keys(left) && Before(AfterMiss(left, key, tags, now), a, b)
    ensures a != key && (b == key || Before(left, a, b))
  {
    var entry := CacheEntry(tags, now + TTL_MS);
    if |left| == MAX_CACHED {
      if key in Keys(left[1..]) { TailHas(left, key); }
      AppendedOrder(left[1..], key, entry, a, b);
      if b != key { TailOrder(left, a, b); }
    } else {
      AppendedOrder(left, key, entry, a, b);
    }
  }

  lemma MissKeepsOrder(cache: Cache, key: Key, tags: set<string>, now: int, a: Key, b: Key)
    requires Bounded(cache) && Hit(cache, key, now).None?
    requires Before(AfterWrite(AfterRead(cache, key, now), key, tags, now), a, b)
    ensures a != key && (b == key || Before(cache, a, b))
  {
    MissForgets(cache, key, now);
    MissStores(cache, key, tags, now);
    MissOrder(Remove(cache, key), key, tags, now, a, b);
    if b != key { RemoveKeepsOrder(cache, key, a, b); }
  }

  lemma InvalidateKeepsOrder(cache: Cache, project: Option<ProjectId>, a: Key, b: Key)
    requires Distinct(cache) && Before(AfterInvalidate(cache, project), a, b)
    ensures Before(cache, a, b)
  {
    RemoveSpec(cache, AllScopes);
    if project.Some? { RemoveKeepsOrder(Remove(cache, AllScopes), Project(project.value), a, b); }
    RemoveKeepsOrder(cache, AllScopes, a, b);
  }

  /** In one step two lists keep their order, unless the second one is stored anew. */
  lemma StepOrder(s: State, op: Op, a: Key, b: Key)
    requires Bounded(s.cache) && Before(Step(s, op).cache, a, b)
    ensures !Stores(s, op, a) && (Stores(s, op, b) || Before(s.cache, a, b))
  {
    match op {
      case GetOp(key, at) =>
        if Hit(s.cache, key, at).None? { MissKeepsOrder(s.cache, key, Scan(s.table, key), at, a, b); }
      case PostOp(id, _, project, _) =>
        if Step(s, op).cache != s.cache { InvalidateKeepsOrder(s.cache, project, a, b); }
      case PutOp(id, patch, _) =>
        if Step(s, op).cache != s.cache {
          var updated := if id in s.table then Some(Patched(s.table[id], patch)) else None;
          InvalidateKeepsOrder(s.cache, PutBucket(patch, updated), a, b);
        }
      case DeleteOp(id, _) => if id in s.table { InvalidateKeepsOrder(s.cache, s.table[id].project, a, b); }
      case ForeignWrite(_, _) =>
    }
  }

  /** A stored list is in the cache, as the last one; only storing brings a key in. */
  lemma StepKeys(s: State, op: Op, k: Key)
    requires Bounded(s.cache)
    ensures k in Keys(Step(s, op).cache) ==> k in Keys(s.cache) || Stores(s, op, k)
    ensures Stores(s, op, k) ==> Get(Step(s, op).cache, k) == Some(CacheEntry(Scan(s.table, k), op.at + TTL_MS))
  {
    StepEntry(s, op, k);
    GetIsMember(s.cache, k);
    GetIsMember(Step(s, op).cache, k);
    if Stores(s, op, k) { MissIsFound(s.cache, k, Scan(s.table, k), op.at); }
  }

  lemma MissIsFound(cache: Cache, key: Key, tags: set<string>, now: int)
    requires Bounded(cache) && Hit(cache, key, now).None?
    ensures var after := AfterWrite(AfterRead(cache, key, now), key, tags, now);
            Get(after, key) == Some(CacheEntry(tags, now + TTL_MS))
  {
    var left := AfterRead(cache, key, now);
    ReadSpec(cache, key, now);
    WriteSpec(left, key, tags, now);
    MissStores(cache, key, tags, now);
    var after := AfterWrite(left, key, tags, now);
    assert after[|after| - 1].0 == key;
    GetIsMember(after, key);
  }

  /** What a GET stores is served for 30 seconds and no longer, unless another step comes in between. */
  lemma StoredListIsServed(s: State, op: Op, k: Key, later: int)
    requires Bounded(s.cache) && Stores(s, op, k)
    ensures Hit(Step(s, op).cache, k, later) == if later <= op.at + 30000 then Some(Scan(s.table, k)) else None
  {
    StepKeys(s, op, k);
  }

  // ---------- over runs ----------

  /** The cache before and after each step, and the list the step stores. */
  ghost function TraceOf(table: Table, ops: seq<Op>): (t: HeldOrder.Trace<Key, CacheEntry>)
    ensures |t.maps| == |ops| + 1 && forall i :: 0 <= i <= |ops| ==> t.maps[i] == Run(table, ops[..i]).cache
    ensures |t.enters| == |ops|
    ensures forall i, k :: 0 <= i < |ops| ==> (k in t.enters[i] <==> Stores(Run(table, ops[..i]), ops[i], k))
  {
    HeldOrder.Trace(seq(|ops| + 1, i requires 0 <= i <= |ops| => Run(table, ops[..i]).cache),
                    seq(|ops|, i requires 0 <= i < |ops| => Stored(Run(table, ops[..i]), ops[i])))
  }

  function Stored(s: State, op: Op): set<Key> {
    if op.GetOp? && Stores(s, op, op.key) then {op.key} else {}
  }

  lemma StoredIff(s: State, op: Op, k: Key)
    ensures k in Stored(s, op) <==> Stores(s, op, k)
  {
  }

  lemma StepKeepsOrder(s: State, op: Op)
    requires Bounded(s.cache)
    ensures HeldOrder.KeepsOrder(s.cache, Step(s, op).cache, Stored(s, op))
    ensures HeldOrder.KeepsKeys(s.cache, Step(s, op).cache, Stored(s, op))
  {
    var after := Step(s, op).cache;
    forall a, b | Before(after, a, b)
      ensures a !in Stored(s, op) && (b in Stored(s, op) || Before(s.cache, a, b))
    {
      StepOrder(s, op, a, b);
      StoredIff(s, op, a);
      StoredIff(s, op, b);
    }
    forall k | k in Keys(after) ensures k in Keys(s.cache) + Stored(s, op) {
      StepKeys(s, op, k);
      StoredIff(s, op, k);
    }
  }

  lemma TraceStepFits(table: Table, ops: seq<Op>, i: nat)
    requires i < |ops|
    ensures HeldOrder.StepFits(TraceOf(table, ops), i)
  {
    var t, s := TraceOf(table, ops), Run(table, ops[..i]);
    assert ops[..i + 1][..i] == ops[..i];
    RunBounded(table, ops[..i]);
    StepKeepsOrder(s, ops[i]);
    forall k ensures k in t.enters[i] <==> k in Stored(s, ops[i]) { StoredIff(s, ops[i], k); }
    assert t.enters[i] == Stored(s, ops[i]);
    assert t.maps[i + 1] == Step(s, ops[i]).cache;
  }

  lemma TraceFits(table: Table, ops: seq<Op>)
    ensures HeldOrder.Fits(TraceOf(table, ops))
  {
    forall i: nat | i < |ops| ensures HeldOrder.StepFits(TraceOf(table, ops), i) { TraceStepFits(table, ops, i); }
  }

  /** Step `n` stored the list of `k`, and it has been in the cache ever since. */
  ghost predicate HeldSince(table: Table, ops: seq<Op>, k: Key, n: nat) {
    HeldOrder.HeldSince(TraceOf(table, ops), |ops|, k, n)
  }

  /** Every cached list has been there since some step, which was a GET of it. */
  lemma HeldSinceSome(table: Table, ops: seq<Op>, k: Key) returns (n: nat)
    requires k in Keys(Run(table, ops).cache)
    ensures HeldSince(table, ops, k, n) && n < |ops| && ops[n] == GetOp(k, ops[n].at)
  {
    TraceFits(table, ops);
    assert ops[..|ops|] == ops;
    n := HeldOrder.HeldSinceSome(TraceOf(table, ops), |ops|, k);
  }

  /** After every run the cached lists stand in the order in which they were stored. */
  lemma ListsInOrder(table: Table, ops: seq<Op>, a: Key, b: Key, x: nat, y: nat)
    requires Before(Run(table, ops).cache, a, b)
    requires HeldSince(table, ops, a, x) && HeldSince(table, ops, b, y)
    ensures x < y
  {
    TraceFits(table, ops);
    assert ops[..|ops|] == ops;
    HeldOrder.KeysInOrder(TraceOf(table, ops), |ops|, a, b, x, y);
  }

  lemma AppendedKeys(left: Cache, key: Key, entry: CacheEntry)
    requires Distinct(left) && key !in Keys(left)
    ensures Keys(left + [(key, entry)]) == Keys(left) + {key}
  {
    PutPlace(left, key, entry);
    PutSpec(left, key, entry);
  }

  lemma TailKeys(m: Cache)
    requires Distinct(m) && m != []
    ensures Distinct(m[1..]) && Keys(m[1..]) == Keys(m) - {m[0].0}
  {
    RemovePlace(m, 0);
    RemoveSpec(m, m[0].0);
    assert m[..0] + m[1..] == m[1..];
  }

  /** What a miss makes of the keys: with 256 lists of other keys the first of them goes. */
  lemma MissKeys(cache: Cache, key: Key, tags: set<string>, now: int)
    requires Bounded(cache) && Hit(cache, key, now).None?
    ensures var left, after := Remove(cache, key), AfterWrite(AfterRead(cache, key, now), key, tags, now);
            Keys(after) == {key} + (Keys(cache) - if |left| == MAX_CACHED then {left[0].0} else {})
  {
    var left, entry := Remove(cache, key), CacheEntry(tags, now + TTL_MS);
    MissForgets(cache, key, now);
    MissStores(cache, key, tags, now);
    if |left| == MAX_CACHED {
      TailKeys(left);
      AppendedKeys(left[1..], key, entry);
      assert left[0].0 in Keys(left);
    } else {
      AppendedKeys(left, key, entry);
    }
  }

  lemma FirstIsBefore(cache: Cache, key: Key, other: Key)
    requires Distinct(cache) && other in Keys(cache) && other != key
    requires Remove(cache, key) != [] && Remove(cache, key)[0].0 != other
    ensures Before(cache, Remove(cache, key)[0].0, other)
  {
    var left := Remove(cache, key);
    RemoveSpec(cache, key);
    assert other in Keys(left);
    var j :| 0 <= j < |left| && left[j].0 == other;
    assert Before(left, left[0].0, other);
    RemoveKeepsOrder(cache, key, left[0].0, other);
  }

  lemma DroppedIsFirst(cache: Cache, key: Key, tags: set<string>, now: int, k: Key)
    requires Bounded(cache) && Hit(cache, key, now).None? && k != key && k in Keys(cache)
    requires k !in Keys(AfterWrite(AfterRead(cache, key, now), key, tags, now))
    ensures Keys(AfterWrite(AfterRead(cache, key, now), key, tags, now)) == Keys(cache) - {k} + {key}
    ensures |Keys(cache) - {key}| == MAX_CACHED
    ensures forall other :: other in Keys(cache) && other != k && other != key ==> Before(cache, k, other)
  {
    var left := Remove(cache, key);
    MissKeys(cache, key, tags, now);
    MissForgets(cache, key, now);
    SizeIsKeys(left);
    assert left[0].0 == k;
    forall other | other in Keys(cache) && other != k && other != key ensures Before(cache, k, other) {
      FirstIsBefore(cache, key, other);
    }
  }

  lemma HitKeepsCache(s: State, op: Op)
    requires op.GetOp? && Hit(s.cache, op.key, op.at).Some?
    ensures Step(s, op).cache == s.cache
  {
  }

  lemma MissedStep(s: State, op: Op)
    requires op.GetOp? && Hit(s.cache, op.key, op.at).None?
    ensures Step(s, op).cache
         == AfterWrite(AfterRead(s.cache, op.key, op.at), op.key, Scan(s.table, op.key), op.at)
  {
  }

  /**
   * A GET takes away a list of another key only when there are 256 of them, and then that one alone; it is the one that
   * was stored longest ago.
   */
  lemma DroppedIsHeldLongest(table: Table, ops: seq<Op>, op: Op, k: Key, other: Key, x: nat, y: nat)
    requires op.GetOp? && op.key != k && k !in Keys(Step(Run(table, ops), op).cache)
    requires HeldSince(table, ops, k, x) && HeldSince(table, ops, other, y) && other != k && other != op.key
    ensures x < y
    ensures Keys(Step(Run(table, ops), op).cache) == Keys(Run(table, ops).cache) - {k} + {op.key}
    ensures |Keys(Run(table, ops).cache) - {op.key}| == MAX_CACHED
  {
    var s := Run(table, ops);
    RunBounded(table, ops);
    assert ops[..|ops|] == ops;
    if Hit(s.cache, op.key, op.at).Some? {
      HitKeepsCache(s, op);
    } else {
      MissedStep(s, op);
      DroppedIsFirst(s.cache, op.key, Scan(s.table, op.key), op.at, k);
      ListsInOrder(table, ops, k, other, x, y);
    }
  }
}
