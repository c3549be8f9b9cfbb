/**
  The failure-counting rate limiter: `RateLimiter` keeps an insertion-ordered map of windows, sweeps
  expired entries and evicts the oldest one at its key cap. The clock is read once per call and is
  passed in as `now`. What the class promises is proved about whole call histories: an entry counts
  exactly its own window, and a live window is lost only to a full map of live windows.
 */
module RateLimit {
  import opened Wrappers
  import opened OrderedMap
  import opened Sets

  datatype Entry = Entry(count: nat, resetAt: int)

  type Windows = Pairs<string, Entry>

  datatype Config = Config(maxAttempts: nat, windowMs: nat, maxKeys: nat)

  // ---------- one call, as a function on the map ----------

  predicate Expired(e: Entry, now: int) { now > e.resetAt }

  function LiveAt(o: Option<Entry>, now: int): Option<Entry> {
    if o.Some? && !Expired(o.value, now) then o else None
  }

  /** The sweep over the entries `rest` still to be visited; the flag is the early return. */
  function Sweep(m: Windows, rest: Windows, now: int, maxKeys: nat): (Windows, bool)
    decreases |rest|
  {
    if rest == [] then (m, false)
    else
      var m' := if Expired(rest[0].1, now) then Remove(m, rest[0].0) else m;
      if |m'| < maxKeys then (m', true) else Sweep(m', rest[1..], now, maxKeys)
  }

  function Evict(m: Windows, now: int, maxKeys: nat): Windows {
    if |m| < maxKeys then m
    else
      var (m', done) := Sweep(m, m, now, maxKeys);
      if done || m' == [] then m' else m'[1..]
  }

  function AfterCheck(m: Windows, key: string, now: int): Windows {
    match Get(m, key)
    case Some(e) => if Expired(e, now) then Remove(m, key) else m
    case None => m
  }

  function Limited(cfg: Config, m: Windows, key: string, now: int): bool {
    match Get(m, key)
    case Some(e) => !Expired(e, now) && e.count >= cfg.maxAttempts
    case None => false
  }

  function AfterFailure(cfg: Config, m: Windows, key: string, now: int): Windows {
    match Get(m, key)
    case Some(e) =>
      if Expired(e, now) then Put(Evict(m, now, cfg.maxKeys), key, Entry(1, now + cfg.windowMs))
      else Put(m, key, Entry(e.count + 1, e.resetAt))
    case None => Put(Evict(m, now, cfg.maxKeys), key, Entry(1, now + cfg.windowMs))
  }

  class RateLimiter {
    const cfg: Config
    var failed: Windows

    constructor (cfg: Config)
      ensures this.cfg == cfg && failed == []
    {
      this.cfg := cfg;
      failed := [];
    }

    method IsLimited(key: string, now: int) returns (limited: bool)
      modifies this
      ensures limited == Limited(cfg, old(failed), key, now)
      ensures failed == AfterCheck(old(failed), key, now)
    {
      var entry := Get(failed, key);
      if entry.None? { return false; }
      if now > entry.value.resetAt {
        failed := Remove(failed, key);
        return false;
      }
      return entry.value.count >= cfg.maxAttempts;
    }

    method RecordFailure(key: string, now: int)
      modifies this
      ensures failed == AfterFailure(cfg, old(failed), key, now)
    {
      var entry := Get(failed, key);
      if entry.None? || now > entry.value.resetAt {
        EvictIfFull(now);
        failed := Put(failed, key, Entry(1, now + cfg.windowMs));
      } else {
        failed := Put(failed, key, entry.value.(count := entry.value.count + 1));
      }
    }

    method EvictIfFull(now: int)
      modifies this
      ensures failed == Evict(old(failed), now, cfg.maxKeys)
    {
      if |failed| < cfg.maxKeys { return; }
      var visited := failed;
      var i := 0;
      while i < |visited|
        invariant 0 <= i <= |visited|
        invariant visited == old(failed)
        invariant Sweep(failed, visited[i..], now, cfg.maxKeys) == Sweep(visited, visited, now, cfg.maxKeys)
      {
        var (k, v) := visited[i];
        if now > v.resetAt { failed := Remove(failed, k); }
        if |failed| < cfg.maxKeys { return; }
        i := i + 1;
      }
      if failed != [] { failed := failed[1..]; }
    }
  }

  // ---------- call histories ----------

  datatype Call = Check(key: string, at: int) | Fail(key: string, at: int)

  type History = seq<Call>

  function Step(cfg: Config, m: Windows, c: Call): Windows {
    match c
    case Check(k, t) => AfterCheck(m, k, t)
    case Fail(k, t) => AfterFailure(cfg, m, k, t)
  }

  function Replay(cfg: Config, h: History): Windows {
    if h == [] then [] else Step(cfg, Replay(cfg, h[..|h| - 1]), h[|h| - 1])
  }

  ghost predicate Monotone(h: History) {
    forall i, j :: 0 <= i < j < |h| ==> h[i].at <= h[j].at
  }

  /** How many of the calls from index `from` on are failures of `key`. */
  function FailuresSince(h: History, from: nat, key: string): nat {
    if |h| <= from then 0
    else FailuresSince(h[..|h| - 1], from, key) + (if h[|h| - 1].Fail? && h[|h| - 1].key == key then 1 else 0)
  }

  /**
   * `e` is the window of `key` that call `i` opened: it counts every failure of `key` from there on, and each fell
   * inside it.
   */
  ghost predicate CountsWindow(cfg: Config, h: History, i: nat, key: string, e: Entry) {
    && i < |h|
    && h[i] == Fail(key, e.resetAt - cfg.windowMs)
    && e.count == FailuresSince(h, i, key)
    && (forall j :: i <= j < |h| && h[j].Fail? && h[j].key == key ==> h[j].at <= e.resetAt)
  }

  ghost predicate Bounded(cfg: Config, m: Windows) {
    Distinct(m) && |m| <= cfg.maxKeys
  }

  // ---------- what eviction does to a map within its cap ----------

  /** On a map at its cap a sweep stops at the first expired entry, and removes nothing if there is none. */
  lemma {:induction false} SweepStops(m: Windows, rest: Windows, now: int, maxKeys: nat)
    requires Distinct(m) && |m| == maxKeys && forall p :: p in rest ==> p in m
    ensures var (m', done) := Sweep(m, rest, now, maxKeys);
      if done then exists p :: p in rest && Expired(p.1, now) && m' == Remove(m, p.0)
      else m' == m && forall p :: p in rest ==> !Expired(p.1, now)
  {
    if rest != [] {
      RemoveSpec(m, rest[0].0);
      if Expired(rest[0].1, now) {
        assert rest[0] in m && rest[0].0 in Keys(m);
      } else {
        SweepStops(m, rest[1..], now, maxKeys);
        assert rest == [rest[0]] + rest[1..];
      }
    }
  }

  /** A full map loses one entry: an expired one if there is any, and its oldest one otherwise. */
  lemma EvictDropsOne(m: Windows, now: int, maxKeys: nat) returns (victim: string)
    requires Distinct(m) && |m| == maxKeys > 0
    ensures Evict(m, now, maxKeys) == Remove(m, victim)
    ensures victim in Keys(m)
    ensures LiveAt(Get(m, victim), now).Some? ==> victim == m[0].0 && forall p :: p in m ==> !Expired(p.1, now)
  {
    SweepStops(m, m, now, maxKeys);
    var (m', done) := Sweep(m, m, now, maxKeys);
    if done {
      var p :| p in m && Expired(p.1, now) && m' == Remove(m, p.0);
      victim := p.0;
      MemberIsGet(m, p.0, p.1);
    } else {
      victim := m[0].0;
      assert m[0] in m;
      assert Remove(m, victim) == m[1..];
    }
    GetIsMember(m, victim);
  }

  lemma EvictWithinCap(m: Windows, now: int, maxKeys: nat)
    requires Distinct(m) && |m| <= maxKeys && maxKeys > 0
    ensures Distinct(Evict(m, now, maxKeys)) && |Evict(m, now, maxKeys)| < maxKeys
    ensures Keys(Evict(m, now, maxKeys)) <= Keys(m)
    ensures forall k :: k in Keys(Evict(m, now, maxKeys)) ==> Get(Evict(m, now, maxKeys), k) == Get(m, k)
    ensures forall k :: k in Keys(m) && k !in Keys(Evict(m, now, maxKeys)) && LiveAt(Get(m, k), now).Some? ==>
      |m| == maxKeys && k == m[0].0 && forall p :: p in m ==> !Expired(p.1, now)
  {
    if |m| == maxKeys {
      var victim := EvictDropsOne(m, now, maxKeys);
      RemoveSpec(m, victim);
    }
  }

  /** Every call keeps the keys distinct and the map within its cap. */
  lemma StepWithinCap(cfg: Config, m: Windows, c: Call)
    requires Bounded(cfg, m) && cfg.maxKeys > 0
    ensures Bounded(cfg, Step(cfg, m, c))
  {
    GetIsMember(m, c.key);
    RemoveSpec(m, c.key);
    EvictWithinCap(m, c.at, cfg.maxKeys);
    PutSpec(Evict(m, c.at, cfg.maxKeys), c.key, Entry(1, c.at + cfg.windowMs));
    if Get(m, c.key).Some? {
      var e := Get(m, c.key).value;
      PutSpec(m, c.key, Entry(e.count + 1, e.resetAt));
    }
  }

  /** What opening a new window for `key` does to the entry of `k`. */
  lemma NewWindow(m: Windows, maxKeys: nat, key: string, now: int, w: Entry, k: string)
    requires Distinct(m) && |m| <= maxKeys && maxKeys > 0
    ensures var after := Get(Put(Evict(m, now, maxKeys), key, w), k);
      && (k == key ==> after == Some(w))
      && (k != key ==> after == Get(m, k) || after == None)
      && (after == None && LiveAt(Get(m, k), now).Some? ==>
            k != key && |m| == maxKeys && k == m[0].0 && forall p :: p in m ==> !Expired(p.1, now))
  {
    EvictWithinCap(m, now, maxKeys);
    var ev := Evict(m, now, maxKeys);
    PutSpec(ev, key, w);
    GetIsMember(ev, k);
    GetIsMember(m, k);
  }

  predicate OpensWindow(m: Windows, c: Call) {
    c.Fail? && LiveAt(Get(m, c.key), c.at).None?
  }

  lemma StepWithoutNewWindow(cfg: Config, m: Windows, c: Call, k: string)
    requires Bounded(cfg, m) && !OpensWindow(m, c)
    ensures var before, after := Get(m, k), Get(Step(cfg, m, c), k);
      && (c == Fail(k, c.at) ==> after == Some(Entry(before.value.count + 1, before.value.resetAt)))
      && (c != Fail(k, c.at) && LiveAt(before, c.at).Some? ==> after == before)
      && (c != Fail(k, c.at) ==> after == before || after == None)
      && (c.Check? ==> after == if c.key == k then LiveAt(before, c.at) else before)
  {
    if c.Check? {
      RemoveSpec(m, c.key);
    } else {
      var e := Get(m, c.key).value;
      PutSpec(m, c.key, Entry(e.count + 1, e.resetAt));
    }
  }

  /**
   * What a call makes of the entry of a key: a failure of the key counts into its live window or opens a new one, a
   * check of the key drops it once it has expired, and any other failure keeps or drops it.
   */
  ghost predicate EntryAfter(cfg: Config, c: Call, k: string, before: Option<Entry>, after: Option<Entry>) {
    if c.Check? then
      after == if c.key != k then before
               else if before.Some? && c.at <= before.value.resetAt then before
               else None
    else if c.key != k then after == before || after == None
    else
      after == Some(if before.Some? && c.at <= before.value.resetAt
                    then Entry(before.value.count + 1, before.value.resetAt)
                    else Entry(1, c.at + cfg.windowMs))
  }

  lemma OpeningStep(cfg: Config, m: Windows, c: Call)
    requires OpensWindow(m, c)
    ensures Step(cfg, m, c) == Put(Evict(m, c.at, cfg.maxKeys), c.key, Entry(1, c.at + cfg.windowMs))
  {
  }

  lemma StepEntry(cfg: Config, m: Windows, c: Call, k: string)
    requires Bounded(cfg, m) && cfg.maxKeys > 0
    ensures EntryAfter(cfg, c, k, Get(m, k), Get(Step(cfg, m, c), k))
  {
    if OpensWindow(m, c) {
      OpeningStep(cfg, m, c);
      NewWindow(m, cfg.maxKeys, c.key, c.at, Entry(1, c.at + cfg.windowMs), k);
    } else {
      StepWithoutNewWindow(cfg, m, c, k);
    }
  }

  lemma {:induction false} ReplayBounded(cfg: Config, h: History)
    requires cfg.maxKeys > 0
    ensures Bounded(cfg, Replay(cfg, h))
  {
    if h != [] {
      ReplayBounded(cfg, h[..|h| - 1]);
      StepWithinCap(cfg, Replay(cfg, h[..|h| - 1]), h[|h| - 1]);
    }
  }

  // ---------- main results ----------

  /**
   * For every call history, each stored entry counts exactly the failures of its key since its window opened, all of
   * them inside the window.
   */
  lemma {:induction false} EntryCountsItsWindow(cfg: Config, h: History, k: string)
    requires cfg.maxKeys > 0
    requires Get(Replay(cfg, h), k).Some?
    ensures exists i: nat :: CountsWindow(cfg, h, i, k, Get(Replay(cfg, h), k).value)
  {
    var last, rest := h[|h| - 1], h[..|h| - 1];
    var m := Replay(cfg, rest);
    ReplayBounded(cfg, rest);
    StepEntry(cfg, m, last, k);
    var e := Get(Replay(cfg, h), k).value;
    if last == Fail(k, last.at) && (Get(m, k).None? || Expired(Get(m, k).value, last.at)) {
      assert CountsWindow(cfg, h, |rest|, k, e);
    } else {
      EntryCountsItsWindow(cfg, rest, k);
      var e0 := Get(m, k).value;
      var i: nat :| CountsWindow(cfg, rest, i, k, e0);
      assert h[i] == rest[i];
      forall j | i <= j < |h| && h[j].Fail? && h[j].key == k ensures h[j].at <= e.resetAt {
        if j < |rest| { assert h[j] == rest[j]; }
      }
      assert CountsWindow(cfg, h, i, k, e);
    }
  }

  /** The call makes the live window of `k` disappear. */
  predicate Drops(cfg: Config, m: Windows, c: Call, k: string) {
    LiveAt(Get(m, k), c.at).Some? && Get(Step(cfg, m, c), k).None?
  }

  /**
   * A live window disappears in a call only when the map holds `maxKeys` live windows and another key fails; the
   * victim is the oldest one.
   */
  lemma LiveWindowDroppedOnlyWhenFull(cfg: Config, h: History, c: Call, k: string)
    requires cfg.maxKeys > 0
    requires Drops(cfg, Replay(cfg, h), c, k)
    ensures var m := Replay(cfg, h);
      && c == Fail(c.key, c.at) && c.key !in Keys(m)
      && |m| == cfg.maxKeys && m[0].0 == k
      && forall p :: p in m ==> !Expired(p.1, c.at)
  {
    var m := Replay(cfg, h);
    ReplayBounded(cfg, h);
    if OpensWindow(m, c) {
      NewWindow(m, cfg.maxKeys, c.key, c.at, Entry(1, c.at + cfg.windowMs), k);
      GetIsMember(m, c.key);
    } else {
      StepWithoutNewWindow(cfg, m, c, k);
    }
  }
}
