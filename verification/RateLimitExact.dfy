/**
 * When the capped limiter answers like one that never forgets anything: exactly as long as no failure leaves more
 * than `maxKeys` keys with a live window.
 */
module RateLimitExact {
  import opened Wrappers
  import opened OrderedMap
  import opened Sets
  import opened RateLimit

  /** A window is current up to and including the moment it resets at. */
  function Current(window: Option<Entry>, now: int): Option<Entry> {
    if window.Some? && now <= window.value.resetAt then window else None
  }

  /** The window of `key` when nothing is ever evicted: plain counting over the whole history. */
  function Unbounded(cfg: Config, h: History, key: string): Option<Entry> {
    if h == [] then None
    else
      var before, c := Unbounded(cfg, h[..|h| - 1], key), h[|h| - 1];
      if c.Check? || c.key != key then before
      else if Current(before, c.at).Some? then Some(Entry(before.value.count + 1, before.value.resetAt))
      else Some(Entry(1, c.at + cfg.windowMs))
  }

  ghost function FailedKeys(h: History): set<string> {
    set i | 0 <= i < |h| && h[i].Fail? :: h[i].key
  }

  /** The keys with a live window when nothing is ever evicted. */
  ghost function LiveKeys(cfg: Config, h: History, now: int): set<string> {
    set k | k in FailedKeys(h) && Current(Unbounded(cfg, h, k), now).Some?
  }

  /** No failing call leaves more live windows than the map may hold. */
  ghost predicate Fits(cfg: Config, h: History) {
    forall n :: 0 < n <= |h| && h[n - 1].Fail? ==> |LiveKeys(cfg, h[..n], h[n - 1].at)| <= cfg.maxKeys
  }

  /** At `now` the capped map holds exactly the live windows of unbounded counting. */
  ghost predicate AgreesAt(cfg: Config, h: History, now: int) {
    forall k :: Current(Get(Replay(cfg, h), k), now) == Current(Unbounded(cfg, h, k), now)
  }

  /** After every call of the history. */
  ghost predicate AlwaysAgrees(cfg: Config, h: History) {
    forall n :: 0 < n <= |h| ==> AgreesAt(cfg, h[..n], h[n - 1].at)
  }

  // ---------- live keys ----------

  lemma FailedKeysGrow(h: History, c: Call)
    ensures FailedKeys(h + [c]) == FailedKeys(h) + if c.Fail? then {c.key} else {}
  {
    var all := h + [c];
    forall k | k in FailedKeys(h) ensures k in FailedKeys(all) {
      var i :| 0 <= i < |h| && h[i].Fail? && h[i].key == k;
      assert all[i] == h[i];
    }
    if c.Fail? { assert all[|h|] == c; }
  }

  lemma {:induction false} OnlyFailedKeysHaveWindows(cfg: Config, h: History, k: string)
    requires Unbounded(cfg, h, k).Some?
    ensures k in FailedKeys(h)
  {
    var front, last := h[..|h| - 1], h[|h| - 1];
    assert h == front + [last];
    FailedKeysGrow(front, last);
    if Unbounded(cfg, front, k).Some? { OnlyFailedKeysHaveWindows(cfg, front, k); }
  }

  lemma InLiveKeys(cfg: Config, h: History, now: int, k: string)
    ensures k in LiveKeys(cfg, h, now) <==> Current(Unbounded(cfg, h, k), now).Some?
  {
    if Current(Unbounded(cfg, h, k), now).Some? { OnlyFailedKeysHaveWindows(cfg, h, k); }
  }

  /** What agrees at one moment agrees from then on, until the next call. */
  lemma AgreesLater(cfg: Config, h: History, now: int, later: int)
    requires AgreesAt(cfg, h, now) && now <= later
    ensures AgreesAt(cfg, h, later)
  {
    forall k ensures Current(Get(Replay(cfg, h), k), later) == Current(Unbounded(cfg, h, k), later) {
      assert Current(Get(Replay(cfg, h), k), now) == Current(Unbounded(cfg, h, k), now);
    }
  }

  // ---------- agreement needs room ----------

  lemma AgreementFits(cfg: Config, h: History, now: int)
    requires cfg.maxKeys > 0 && AgreesAt(cfg, h, now)
    ensures |LiveKeys(cfg, h, now)| <= cfg.maxKeys
  {
    var m := Replay(cfg, h);
    ReplayBounded(cfg, h);
    SizeIsKeys(m);
    forall k | k in LiveKeys(cfg, h, now) ensures k in Keys(m) {
      assert Current(Get(m, k), now) == Current(Unbounded(cfg, h, k), now);
      GetIsMember(m, k);
    }
    SubsetSize(LiveKeys(cfg, h, now), Keys(m));
  }

  // ---------- room is enough ----------

  /** A full map of live windows and the key that fails are one key too many. */
  lemma DropNeedsTooMany(cfg: Config, h: History, c: Call, k: string)
    requires cfg.maxKeys > 0 && AgreesAt(cfg, h, c.at)
    requires Drops(cfg, Replay(cfg, h), c, k)
    ensures c.Fail? && |LiveKeys(cfg, h + [c], c.at)| > cfg.maxKeys
  {
    var m, all := Replay(cfg, h), h + [c];
    ReplayBounded(cfg, h);
    LiveWindowDroppedOnlyWhenFull(cfg, h, c, k);
    SizeIsKeys(m);
    assert all[..|all| - 1] == h && all[|all| - 1] == c;
    forall x | x in Keys(m) ensures x in LiveKeys(cfg, all, c.at) {
      GetIsMember(m, x);
      assert Current(Get(m, x), c.at) == Current(Unbounded(cfg, h, x), c.at);
      InLiveKeys(cfg, all, c.at, x);
    }
    InLiveKeys(cfg, all, c.at, c.key);
    SubsetSize(Keys(m) + {c.key}, LiveKeys(cfg, all, c.at));
  }

  /** A call that drops no live window keeps the agreement. */
  lemma StepAgrees(cfg: Config, h: History, c: Call)
    requires cfg.maxKeys > 0 && AgreesAt(cfg, h, c.at)
    requires forall k :: !Drops(cfg, Replay(cfg, h), c, k)
    ensures AgreesAt(cfg, h + [c], c.at)
  {
    var m, all := Replay(cfg, h), h + [c];
    ReplayBounded(cfg, h);
    assert all[..|all| - 1] == h && all[|all| - 1] == c;
    forall k ensures Current(Get(Replay(cfg, all), k), c.at) == Current(Unbounded(cfg, all, k), c.at) {
      StepEntry(cfg, m, c, k);
      assert !Drops(cfg, m, c, k);
      assert Current(Get(m, k), c.at) == Current(Unbounded(cfg, h, k), c.at);
    }
  }

  lemma FitsPrefix(cfg: Config, h: History)
    requires Fits(cfg, h) && h != []
    ensures Fits(cfg, h[..|h| - 1])
  {
    var front := h[..|h| - 1];
    forall n | 0 < n <= |front| && front[n - 1].Fail?
      ensures |LiveKeys(cfg, front[..n], front[n - 1].at)| <= cfg.maxKeys
    {
      assert front[..n] == h[..n] && front[n - 1] == h[n - 1];
    }
  }

  lemma NothingDropped(cfg: Config, h: History, c: Call)
    requires cfg.maxKeys > 0 && AgreesAt(cfg, h, c.at)
    requires c.Fail? ==> |LiveKeys(cfg, h + [c], c.at)| <= cfg.maxKeys
    ensures forall k :: !Drops(cfg, Replay(cfg, h), c, k)
  {
    forall k ensures !Drops(cfg, Replay(cfg, h), c, k) {
      if Drops(cfg, Replay(cfg, h), c, k) { DropNeedsTooMany(cfg, h, c, k); }
    }
  }

  /** At every moment from the last call on. */
  lemma {:induction false} FitsAgrees(cfg: Config, h: History, now: int)
    requires cfg.maxKeys > 0 && Monotone(h) && Fits(cfg, h)
    requires h != [] ==> h[|h| - 1].at <= now
    ensures AgreesAt(cfg, h, now)
  {
    if h != [] {
      var front, last := h[..|h| - 1], h[|h| - 1];
      FitsPrefix(cfg, h);
      FitsAgrees(cfg, front, last.at);
      assert h == front + [last] && h[..|h|] == h;
      NothingDropped(cfg, front, last);
      StepAgrees(cfg, front, last);
      AgreesLater(cfg, h, last.at, now);
    }
  }

  // ---------- main results ----------

  lemma PrefixFits(cfg: Config, h: History, n: nat)
    requires Fits(cfg, h) && Monotone(h) && n <= |h|
    ensures Fits(cfg, h[..n]) && Monotone(h[..n])
  {
    forall k | 0 < k <= n && h[..n][k - 1].Fail?
      ensures |LiveKeys(cfg, h[..n][..k], h[..n][k - 1].at)| <= cfg.maxKeys
    {
      assert h[..n][..k] == h[..k];
    }
  }

  /**
   * The capped map holds the live windows of unbounded counting after every call if and only if no failing call leaves
   * more than `maxKeys` keys with a live window.
   */
  lemma AgreesIffFits(cfg: Config, h: History)
    requires cfg.maxKeys > 0 && Monotone(h)
    ensures AlwaysAgrees(cfg, h) <==> Fits(cfg, h)
  {
    if AlwaysAgrees(cfg, h) {
      forall n | 0 < n <= |h| && h[n - 1].Fail? ensures |LiveKeys(cfg, h[..n], h[n - 1].at)| <= cfg.maxKeys {
        AgreementFits(cfg, h[..n], h[n - 1].at);
      }
    }
    if Fits(cfg, h) {
      forall n | 0 < n <= |h| ensures AgreesAt(cfg, h[..n], h[n - 1].at) {
        PrefixFits(cfg, h, n);
        FitsAgrees(cfg, h[..n], h[n - 1].at);
      }
    }
  }

  /**
   * As long as that holds, `isLimited` at any later moment is the windowed count over the unbounded history.
   */
  lemma LimitedIsWindowedCount(cfg: Config, h: History, k: string, now: int)
    requires cfg.maxKeys > 0 && Monotone(h) && Fits(cfg, h)
    requires h != [] ==> h[|h| - 1].at <= now
    ensures Limited(cfg, Replay(cfg, h), k, now) <==>
      (Current(Unbounded(cfg, h, k), now).Some? && Current(Unbounded(cfg, h, k), now).value.count >= cfg.maxAttempts)
  {
    FitsAgrees(cfg, h, now);
    assert Current(Get(Replay(cfg, h), k), now) == Current(Unbounded(cfg, h, k), now);
  }

  lemma PrefixFails(h: History, n: nat)
    requires n <= |h|
    ensures FailedKeys(h[..n]) <= FailedKeys(h)
  {
    forall k | k in FailedKeys(h[..n]) ensures k in FailedKeys(h) {
      var i :| 0 <= i < n && h[..n][i].Fail? && h[..n][i].key == k;
      assert h[i].key == k;
    }
  }

  /** It always holds while at most `maxKeys` keys ever fail. */
  lemma FewKeysFit(cfg: Config, h: History)
    requires |FailedKeys(h)| <= cfg.maxKeys
    ensures Fits(cfg, h)
  {
    forall n | 0 < n <= |h| && h[n - 1].Fail? ensures |LiveKeys(cfg, h[..n], h[n - 1].at)| <= cfg.maxKeys {
      PrefixFails(h, n);
      SubsetSize(LiveKeys(cfg, h[..n], h[n - 1].at), FailedKeys(h));
    }
  }
}
