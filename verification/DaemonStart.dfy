/** Waiting until a daemon that has just been started answers its health probe. */
module DaemonStart {
  const POLL_INTERVAL_MS := 100
  const STARTUP_DEADLINE_MS := 5000

  /** No more probes than this fit before the deadline. */
  const MAX_PROBES: nat := STARTUP_DEADLINE_MS / POLL_INTERVAL_MS

  // ---------- the polling loop ----------

  datatype Probe = Probe(healthy: bool, took: nat)

  /**
   * The surroundings of one polling loop. `Probe(i, t)` is the answer of the i-th health probe when it is given t
   * milliseconds, `Nap(i, t)` how long the i-th sleep really lasts when t milliseconds are asked for.
   */
  datatype World = World(probe: (nat, nat) -> Probe, nap: (nat, nat) -> nat)

  /**
   * Timers keep their budgets up to `slack` milliseconds: no probe and no sleep overruns by more, no sleep ends
   * early.
   */
  ghost predicate KeepsBudgets(w: World, slack: nat) {
    && (forall i: nat, t: nat :: ProbeKept(w, slack, i, t))
    && (forall i: nat, t: nat :: NapKept(w, slack, i, t))
  }

  predicate ProbeKept(w: World, slack: nat, i: nat, t: nat) { w.probe(i, t).took <= t + slack }

  predicate NapKept(w: World, slack: nat, i: nat, t: nat) { t <= w.nap(i, t) <= t + slack }

  function Min(a: int, b: int): int { if a < b then a else b }

  function Max(a: int, b: int): int { if a > b then a else b }

  function ProbeBudget(now: nat, deadline: nat): nat
    requires now < deadline
  {
    Min(POLL_INTERVAL_MS * 2, Max(1, deadline - now))
  }

  function SleepBudget(now: nat, deadline: nat): nat { Min(POLL_INTERVAL_MS, Max(0, deadline - now)) }

  /** A probe gets 200 ms and a sleep 100 ms, or the time that is left, whichever is less; a probe always gets some. */
  lemma Budgets(now: nat, deadline: nat)
    requires now < deadline
    ensures 1 <= ProbeBudget(now, deadline) <= deadline - now
    ensures ProbeBudget(now, deadline) == if deadline - now >= 200 then 200 else deadline - now
    ensures SleepBudget(now, deadline) == if deadline - now >= 100 then 100 else deadline - now
    ensures SleepBudget(deadline, deadline) == 0
  {
  }

  /** The time the i-th probe is answered, when it is sent at `now`. */
  function Answered(w: World, i: nat, now: nat, deadline: nat): nat
    requires now < deadline
  {
    now + w.probe(i, ProbeBudget(now, deadline)).took
  }

  function Healthy(w: World, i: nat, now: nat, deadline: nat): bool
    requires now < deadline
  {
    w.probe(i, ProbeBudget(now, deadline)).healthy
  }

  /** The time round `i` would begin, or the time polling stopped before it. */
  function RoundStart(w: World, start: nat, deadline: nat, i: nat): nat {
    if i == 0 then start
    else
      var t := RoundStart(w, start, deadline, i - 1);
      if t >= deadline then t
      else
        var a := Answered(w, i - 1, t, deadline);
        if a >= deadline then a else a + w.nap(i - 1, SleepBudget(a, deadline))
  }

  /** Round `i` sends a probe, provided no earlier one was answered with success. */
  predicate InTime(w: World, start: nat, deadline: nat, i: nat) { RoundStart(w, start, deadline, i) < deadline }

  predicate HealthyRound(w: World, start: nat, deadline: nat, i: nat) {
    InTime(w, start, deadline, i) && Healthy(w, i, RoundStart(w, start, deadline, i), deadline)
  }

  datatype Outcome = Up | TimedOut

  /** None of the first `n` rounds sends a probe that is answered with success. */
  predicate NoneHealthy(w: World, start: nat, deadline: nat, n: nat) {
    n == 0 || (NoneHealthy(w, start, deadline, n - 1) && !HealthyRound(w, start, deadline, n - 1))
  }

  lemma {:induction false} NoneHealthyAt(w: World, start: nat, deadline: nat, n: nat, i: nat)
    requires i < n && NoneHealthy(w, start, deadline, n)
    ensures !HealthyRound(w, start, deadline, i) && NoneHealthy(w, start, deadline, i)
  {
    if i < n - 1 { NoneHealthyAt(w, start, deadline, n - 1, i); }
  }

  lemma SomeHealthy(w: World, start: nat, deadline: nat, i: nat, n: nat)
    requires i < n && HealthyRound(w, start, deadline, i)
    ensures !NoneHealthy(w, start, deadline, n)
  {
    if NoneHealthy(w, start, deadline, n) { NoneHealthyAt(w, start, deadline, n, i); }
  }

  /** What a round in which the probe fails does to the clock. */
  lemma FailedRound(w: World, slack: nat, start: nat, deadline: nat, i: nat)
    requires KeepsBudgets(w, slack) && InTime(w, start, deadline, i)
    ensures var t, u := RoundStart(w, start, deadline, i), RoundStart(w, start, deadline, i + 1);
            && Min(deadline, t + POLL_INTERVAL_MS) <= u <= deadline + slack
            && t < u
            && Answered(w, i, t, deadline) <= deadline + slack
  {
    var t := RoundStart(w, start, deadline, i);
    assert ProbeKept(w, slack, i, ProbeBudget(t, deadline));
    assert NapKept(w, slack, i, SleepBudget(Answered(w, i, t, deadline), deadline));
  }

  /** Once polling is past the deadline it stays there. */
  lemma {:induction false} LateStaysLate(w: World, start: nat, deadline: nat, i: nat, k: nat)
    requires i <= k && !InTime(w, start, deadline, i)
    ensures RoundStart(w, start, deadline, k) == RoundStart(w, start, deadline, i)
    decreases k - i
  {
    if i < k { LateStaysLate(w, start, deadline, i, k - 1); }
  }

  lemma {:induction false} LateStaysUnhealthy(w: World, start: nat, deadline: nat, i: nat, k: nat)
    requires i <= k && !InTime(w, start, deadline, i) && NoneHealthy(w, start, deadline, i)
    ensures NoneHealthy(w, start, deadline, k)
    decreases k - i
  {
    if i < k {
      LateStaysUnhealthy(w, start, deadline, i, k - 1);
      LateStaysLate(w, start, deadline, i, k - 1);
    }
  }

  /** Every round that is in time began at least 100 ms after the one before it. */
  lemma {:induction false} RoundsAreSpaced(w: World, slack: nat, start: nat, deadline: nat, i: nat)
    requires KeepsBudgets(w, slack) && InTime(w, start, deadline, i)
    ensures start + POLL_INTERVAL_MS * i <= RoundStart(w, start, deadline, i)
  {
    if i > 0 {
      assert InTime(w, start, deadline, i - 1);
      FailedRound(w, slack, start, deadline, i - 1);
      RoundsAreSpaced(w, slack, start, deadline, i - 1);
    }
  }

  /** A probe is sent only in the first 50 rounds. */
  lemma ProbesAreFew(w: World, slack: nat, start: nat, i: nat)
    requires KeepsBudgets(w, slack) && InTime(w, start, start + STARTUP_DEADLINE_MS, i)
    ensures i < MAX_PROBES == 50
  {
    RoundsAreSpaced(w, slack, start, start + STARTUP_DEADLINE_MS, i);
  }

  /**
   * Poll until the daemon answers or the deadline passes. `rounds` is the number of probes sent, `end` the time the
   * loop is left. The remaining time is the termination measure.
   */
  method PollUntilHealthy(w: World, start: nat, ghost slack: nat) returns (outcome: Outcome, rounds: nat, end: nat)
    requires KeepsBudgets(w, slack)
    ensures outcome == Up <==> !NoneHealthy(w, start, start + STARTUP_DEADLINE_MS, MAX_PROBES)
    ensures outcome == Up ==>
              rounds > 0 && HealthyRound(w, start, start + STARTUP_DEADLINE_MS, rounds - 1)
              && NoneHealthy(w, start, start + STARTUP_DEADLINE_MS, rounds - 1)
    ensures rounds <= MAX_PROBES
    ensures end <= start + STARTUP_DEADLINE_MS + slack
    ensures outcome == TimedOut ==> end >= start + STARTUP_DEADLINE_MS
  {
    var deadline := start + STARTUP_DEADLINE_MS;
    var now := start;
    rounds := 0;
    while now < deadline
      invariant now == RoundStart(w, start, deadline, rounds) && now <= deadline + slack
      invariant rounds <= MAX_PROBES && NoneHealthy(w, start, deadline, rounds)
      decreases deadline - now
    {
      ProbesAreFew(w, slack, start, rounds);
      FailedRound(w, slack, start, deadline, rounds);
      var remaining := deadline - now;
      var probeTimeout := Min(POLL_INTERVAL_MS * 2, Max(1, remaining));
      var answer := w.probe(rounds, probeTimeout);
      ghost var sent := now;
      now := now + answer.took;
      assert now == Answered(w, rounds, sent, deadline);
      if answer.healthy {
        SomeHealthy(w, start, deadline, rounds, MAX_PROBES);
        return Up, rounds + 1, now;
      }
      var sleepFor := Min(POLL_INTERVAL_MS, Max(0, deadline - now));
      if sleepFor <= 0 {
        rounds := rounds + 1;
        break;
      }
      now := now + w.nap(rounds, sleepFor);
      rounds := rounds + 1;
    }
    LateStaysUnhealthy(w, start, deadline, rounds, MAX_PROBES);
    return TimedOut, rounds, now;
  }
}
