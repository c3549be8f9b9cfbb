/**
 * Which key the limiter gives up when it is full: keys stand in the order in which they came into the map, so the one
 * that goes is the one held longest.
 */
module RateLimitOrder {
  import HeldOrder
  import opened Wrappers
  import opened OrderedMap
  import opened RateLimit

  // ---------- the victim ----------

  ghost predicate NoneExpired(m: Windows, n: nat, now: int)
    requires n <= |m|
  {
    forall j :: 0 <= j < n ==> !Expired(m[j].1, now)
  }

  /** The first expired entry in the order of the map, or the very first entry if none is expired. */
  ghost predicate IsVictim(m: Windows, now: int, i: nat) {
    && i < |m|
    && (if NoneExpired(m, |m|, now) then i == 0 else Expired(m[i].1, now) && NoneExpired(m, i, now))
  }

  lemma {:induction false} SweepFrom(m: Windows, i: nat, now: int, maxKeys: nat) returns (j: nat)
    requires Distinct(m) && |m| == maxKeys && i <= |m| && NoneExpired(m, i, now)
    ensures var (m', done) := Sweep(m, m[i..], now, maxKeys);
      if done then j < |m| && Expired(m[j].1, now) && NoneExpired(m, j, now) && m' == m[..j] + m[j + 1..]
      else m' == m && NoneExpired(m, |m|, now)
    decreases |m| - i
  {
    j := i;
    if i < |m| {
      assert m[i..][0] == m[i] && m[i..][1..] == m[i + 1..];
      if Expired(m[i].1, now) {
        RemovePlace(m, i);
      } else {
        j := SweepFrom(m, i + 1, now, maxKeys);
      }
    }
  }

  /** A full map loses exactly its victim, and the other entries keep their order. */
  lemma EvictDropsVictim(m: Windows, now: int, maxKeys: nat) returns (i: nat)
    requires Distinct(m) && |m| == maxKeys > 0
    ensures IsVictim(m, now, i) && Evict(m, now, maxKeys) == m[..i] + m[i + 1..]
  {
    i := SweepFrom(m, 0, now, maxKeys);
    assert m[0..] == m;
    var (m', done) := Sweep(m, m, now, maxKeys);
    if !done {
      i := 0;
      assert m[..0] + m[1..] == m[1..];
    }
  }

  // ---------- coming into the map ----------

  /** The entry of `k` has expired and is the one a full map gives up. */
  ghost predicate IsSwept(m: Windows, now: int, maxKeys: nat, k: string) {
    |m| == maxKeys && exists i: nat | i < |m| :: IsVictim(m, now, i) && m[i].0 == k && Expired(m[i].1, now)
  }

  /**
   * The call puts `k` at the end of the map: a failure of `k` that was not there, or that had expired and was the
   * victim of the eviction in the same call.
   */
  ghost predicate Enters(cfg: Config, m: Windows, c: Call, k: string) {
    c == Fail(k, c.at) && (k !in Keys(m) || IsSwept(m, c.at, cfg.maxKeys, k))
  }

  lemma VictimIsUnique(m: Windows, now: int, i: nat)
    requires IsVictim(m, now, i)
    ensures forall j: nat :: IsVictim(m, now, j) ==> j == i
  {
  }

  lemma KeyAt(m: Windows, i: nat, k: string)
    requires Distinct(m) && i < |m|
    ensures m[i].0 == k ==> k !in Keys(m[..i] + m[i + 1..])
    ensures m[i].0 != k ==> (k in Keys(m[..i] + m[i + 1..]) <==> k in Keys(m))
  {
    RemovePlace(m, i);
    RemoveSpec(m, m[i].0);
  }

  /** What is left for the new window of `key`: the key is still there exactly when it does not enter. */
  lemma EvictedHas(cfg: Config, m: Windows, key: string, now: int)
    requires Bounded(cfg, m) && cfg.maxKeys > 0 && LiveAt(Get(m, key), now).None?
    ensures key in Keys(Evict(m, now, cfg.maxKeys)) <==> !Enters(cfg, m, Fail(key, now), key)
  {
    GetIsMember(m, key);
    if |m| == cfg.maxKeys {
      var i := EvictDropsVictim(m, now, cfg.maxKeys);
      KeyAt(m, i, key);
      assert m[i] in m;
      MemberIsGet(m, m[i].0, m[i].1);
      VictimIsUnique(m, now, i);
    }
  }

  lemma EvictKeepsOrder(cfg: Config, m: Windows, now: int, a: string, b: string)
    requires Bounded(cfg, m) && cfg.maxKeys > 0 && Before(Evict(m, now, cfg.maxKeys), a, b)
    ensures Before(m, a, b)
  {
    if |m| == cfg.maxKeys {
      var i := EvictDropsVictim(m, now, cfg.maxKeys);
      GapKeepsOrder(m, i, a, b);
    }
  }

  /** In one call two keys keep their order, unless the second one enters; a key that enters is before no other. */
  lemma StepOrder(cfg: Config, m: Windows, c: Call, a: string, b: string)
    requires Bounded(cfg, m) && cfg.maxKeys > 0 && Before(Step(cfg, m, c), a, b)
    ensures !Enters(cfg, m, c, a) && (Enters(cfg, m, c, b) || Before(m, a, b))
  {
    if c.Check? {
      if Step(cfg, m, c) != m { RemoveKeepsOrder(m, c.key, a, b); }
    } else {
      var o := Get(m, c.key);
      GetIsMember(m, c.key);
      if LiveAt(o, c.at).Some? {
        PutKeepsOrder(m, c.key, Entry(o.value.count + 1, o.value.resetAt), a, b);
        LiveDoesNotEnter(cfg, m, c);
      } else {
        var left := Evict(m, c.at, cfg.maxKeys);
        PutKeepsOrder(left, c.key, Entry(1, c.at + cfg.windowMs), a, b);
        EvictedHas(cfg, m, c.key, c.at);
        assert c == Fail(c.key, c.at);
        if Before(left, a, b) { EvictKeepsOrder(cfg, m, c.at, a, b); }
      }
    }
  }

  lemma LiveDoesNotEnter(cfg: Config, m: Windows, c: Call)
    requires Distinct(m) && LiveAt(Get(m, c.key), c.at).Some?
    ensures !Enters(cfg, m, c, c.key)
  {
    GetIsMember(m, c.key);
    forall i: nat | i < |m| && m[i].0 == c.key ensures !Expired(m[i].1, c.at) {
      assert m[i] in m;
      MemberIsGet(m, c.key, m[i].1);
    }
  }

  /** A key is in the map after a call only if it was there before or has come in. */
  lemma StepKeys(cfg: Config, m: Windows, c: Call, k: string)
    requires Bounded(cfg, m) && cfg.maxKeys > 0
    ensures k in Keys(Step(cfg, m, c)) ==> k in Keys(m) || Enters(cfg, m, c, k)
    ensures Enters(cfg, m, c, k) ==> k in Keys(Step(cfg, m, c))
  {
    StepEntry(cfg, m, c, k);
    GetIsMember(m, k);
    GetIsMember(Step(cfg, m, c), k);
  }

  // ---------- over histories ----------

  /** The map before and after each call, and the key the call puts in. */
  ghost function TraceOf(cfg: Config, h: History): (t: HeldOrder.Trace<string, Entry>)
    ensures |t.maps| == |h| + 1 && forall i :: 0 <= i <= |h| ==> t.maps[i] == Replay(cfg, h[..i])
    ensures |t.enters| == |h|
    ensures forall i, k :: 0 <= i < |h| ==> (k in t.enters[i] <==> Enters(cfg, Replay(cfg, h[..i]), h[i], k))
  {
    HeldOrder.Trace(seq(|h| + 1, i requires 0 <= i <= |h| => Replay(cfg, h[..i])),
          seq(|h|, i requires 0 <= i < |h| =>
            if Enters(cfg, Replay(cfg, h[..i]), h[i], h[i].key) then {h[i].key} else {}))
  }

  lemma TraceStepFits(cfg: Config, h: History, i: nat)
    requires cfg.maxKeys > 0 && i < |h|
    ensures HeldOrder.StepFits(TraceOf(cfg, h), i)
  {
    var t, m := TraceOf(cfg, h), Replay(cfg, h[..i]);
    assert h[..i + 1][..i] == h[..i];
    ReplayBounded(cfg, h[..i]);
    forall a, b | Before(t.maps[i + 1], a, b) ensures a !in t.enters[i] && (b in t.enters[i] || Before(m, a, b)) {
      StepOrder(cfg, m, h[i], a, b);
    }
    forall k | k in Keys(t.maps[i + 1]) ensures k in Keys(m) + t.enters[i] {
      StepKeys(cfg, m, h[i], k);
    }
  }

  lemma TraceFits(cfg: Config, h: History)
    requires cfg.maxKeys > 0
    ensures HeldOrder.Fits(TraceOf(cfg, h))
  {
    forall i: nat | i < |h| ensures HeldOrder.StepFits(TraceOf(cfg, h), i) { TraceStepFits(cfg, h, i); }
  }

  /** Call `n` put `k` into the map, and it has been there without a break ever since. */
  ghost predicate HeldSince(cfg: Config, h: History, k: string, n: nat) {
    HeldOrder.HeldSince(TraceOf(cfg, h), |h|, k, n)
  }

  /** Every key in the map has been there since some call, which was a failure of it. */
  lemma HeldSinceSome(cfg: Config, h: History, k: string) returns (n: nat)
    requires cfg.maxKeys > 0 && k in Keys(Replay(cfg, h))
    ensures HeldSince(cfg, h, k, n) && n < |h| && h[n] == Fail(k, h[n].at)
  {
    TraceFits(cfg, h);
    assert h[..|h|] == h;
    n := HeldOrder.HeldSinceSome(TraceOf(cfg, h), |h|, k);
  }

  /** After every history the keys stand in the order of the calls since which they have been in the map. */
  lemma KeysInOrder(cfg: Config, h: History, a: string, b: string, x: nat, y: nat)
    requires cfg.maxKeys > 0 && Before(Replay(cfg, h), a, b)
    requires HeldSince(cfg, h, a, x) && HeldSince(cfg, h, b, y)
    ensures x < y
  {
    TraceFits(cfg, h);
    assert h[..|h|] == h;
    HeldOrder.KeysInOrder(TraceOf(cfg, h), |h|, a, b, x, y);
  }

  /** A live window that is dropped is that of the key held longest. */
  lemma DroppedIsHeldLongest(cfg: Config, h: History, c: Call, k: string, other: string, x: nat, y: nat)
    requires cfg.maxKeys > 0 && Drops(cfg, Replay(cfg, h), c, k)
    requires HeldSince(cfg, h, k, x) && HeldSince(cfg, h, other, y) && other != k
    ensures x < y
  {
    var m := Replay(cfg, h);
    LiveWindowDroppedOnlyWhenFull(cfg, h, c, k);
    assert h[..|h|] == h;
    var j :| 0 <= j < |m| && m[j].0 == other;
    assert m[0].0 == k;
    KeysInOrder(cfg, h, k, other, x, y);
  }
}
