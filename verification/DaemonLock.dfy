/**
 * Overlapping calls that make sure the daemon runs: the module-level promise all of them share.
 *
 * One action is what runs between two awaits. Pid file, spawn and health answers are the environment's.
 */
module DaemonLock {
  import opened Wrappers

  datatype Failure = PidFileFailed | ProbeFailed | StartFailed | StartTimedOut

  datatype Outcome = Ready | Failed(why: Failure)

  /** How far an attempt has got. A settled attempt has its outcome, but its `finally` has not run yet. */
  datatype Phase = Probing | Spawning | Polling | Settled(outcome: Outcome) | Released(outcome: Outcome)

  datatype Attempt = Attempt(port: nat, phase: Phase, spawns: nat)

  /** A caller holds the promise of one attempt. */
  datatype Caller = Caller(port: nat, attempt: nat)

  datatype State = State(attempts: seq<Attempt>, inFlight: Option<nat>, callers: seq<Caller>)

  datatype PidAnswer = NoPid | LivePid | PidThrows

  /** `ProbeThrows` is a probe or a sleep that rejects, while the fast answer or the poll is awaited. */
  datatype Action =
    | Call(port: nat, pid: PidAnswer)
    | FastAnswer(healthy: bool)
    | SpawnDone(ok: bool)
    | PollDone(up: bool)
    | ProbeThrows
    | RunFinally

  const IDLE := State([], None, [])

  /** The part of an attempt that runs before its first await. */
  function Opened(port: nat, pid: PidAnswer): Attempt {
    match pid
    case NoPid => Attempt(port, Spawning, 1)
    case LivePid => Attempt(port, Probing, 0)
    case PidThrows => Attempt(port, Settled(Failed(PidFileFailed)), 0)
  }

  /** One step of attempt `t`, if the action is the answer it waits for. */
  function Advance(t: Attempt, action: Action): Attempt {
    match (t.phase, action)
    case (Probing, FastAnswer(true)) => t.(phase := Settled(Ready))
    case (Probing, FastAnswer(false)) => t.(phase := Spawning, spawns := t.spawns + 1)
    case (Spawning, SpawnDone(true)) => t.(phase := Polling)
    case (Spawning, SpawnDone(false)) => t.(phase := Settled(Failed(StartFailed)))
    case (Polling, PollDone(true)) => t.(phase := Settled(Ready))
    case (Polling, PollDone(false)) => t.(phase := Settled(Failed(StartTimedOut)))
    case (Probing, ProbeThrows) => t.(phase := Settled(Failed(ProbeFailed)))
    case (Polling, ProbeThrows) => t.(phase := Settled(Failed(ProbeFailed)))
    case (Settled(o), RunFinally) => t.(phase := Released(o))
    case _ => t
  }

  /** `a` names the attempt an answer is for; a call ignores it. */
  function Next(s: State, a: nat, action: Action): State {
    match action
    case Call(port, pid) =>
      if s.inFlight.Some? then
        s.(callers := s.callers + [Caller(port, s.inFlight.value)])
      else
        State(s.attempts + [Opened(port, pid)], Some(|s.attempts|), s.callers + [Caller(port, |s.attempts|)])
    case _ =>
      if a >= |s.attempts| then s
      else
        var t := Advance(s.attempts[a], action);
        var released := t.phase.Released? && !s.attempts[a].phase.Released?;
        s.(attempts := s.attempts[a := t], inFlight := if released then None else s.inFlight)
  }

  datatype Step = Step(attempt: nat, action: Action)

  function Exec(s: State, steps: seq<Step>): State {
    if steps == [] then s
    else Next(Exec(s, steps[..|steps| - 1]), steps[|steps| - 1].attempt, steps[|steps| - 1].action)
  }

  function Spawns(attempts: seq<Attempt>): nat {
    if attempts == [] then 0 else Spawns(attempts[..|attempts| - 1]) + attempts[|attempts| - 1].spawns
  }

  // ---------- the invariant ----------

  /** An attempt spawns at most once, and has spawned exactly when it got past the fast probe. */
  predicate AttemptInv(t: Attempt) {
    && t.spawns <= 1
    && (t.phase.Probing? ==> t.spawns == 0)
    && (t.phase.Spawning? || t.phase.Polling? ==> t.spawns == 1)
  }

  /** Every attempt but the last one is over; the lock is held exactly while the last one is not. */
  predicate Inv(s: State) {
    && (forall i :: 0 <= i < |s.attempts| ==> AttemptInv(s.attempts[i]))
    && (forall i :: 0 <= i < |s.attempts| - 1 ==> s.attempts[i].phase.Released?)
    && s.inFlight == (if |s.attempts| > 0 && !s.attempts[|s.attempts| - 1].phase.Released?
                      then Some(|s.attempts| - 1) else None)
    && (forall i :: 0 <= i < |s.callers| ==> s.callers[i].attempt < |s.attempts|)
  }

  lemma StepKeepsInv(s: State, a: nat, action: Action)
    requires Inv(s)
    ensures Inv(Next(s, a, action))
  {
    if action.Call? {
      var s' := Next(s, a, action);
      if s.inFlight == None {
        assert forall i :: 0 <= i < |s.attempts| ==> s'.attempts[i] == s.attempts[i];
      }
    }
  }

  lemma {:induction false} ExecInv(s: State, steps: seq<Step>)
    requires Inv(s)
    ensures Inv(Exec(s, steps))
  {
    if steps != [] {
      var front, last := steps[..|steps| - 1], steps[|steps| - 1];
      ExecInv(s, front);
      StepKeepsInv(Exec(s, front), last.attempt, last.action);
    }
  }

  /** In every run: attempts never overlap, none spawns twice, and the lock is held exactly while one is under way. */
  lemma OneAttemptAtATime(steps: seq<Step>, i: nat, j: nat)
    ensures var s := Exec(IDLE, steps);
            && (i < |s.attempts| && j < |s.attempts| && !s.attempts[i].phase.Released? && !s.attempts[j].phase.Released?
                ==> i == j && s.inFlight == Some(i))
            && (i < |s.attempts| ==> s.attempts[i].spawns <= 1)
            && (s.inFlight.Some? ==> s.inFlight.value < |s.attempts|
                                     && !s.attempts[s.inFlight.value].phase.Released?)
  {
    ExecInv(IDLE, steps);
  }

  // ---------- overlapping calls ----------

  predicate NoneReleases(steps: seq<Step>) { forall i :: 0 <= i < |steps| ==> !steps[i].action.RunFinally? }

  lemma SpawnsSplit(attempts: seq<Attempt>, i: nat, t: Attempt)
    requires i < |attempts|
    ensures Spawns(attempts[i := t]) == Spawns(attempts) - attempts[i].spawns + t.spawns
  {
    var n := |attempts| - 1;
    if i < n {
      SpawnsSplit(attempts[..n], i, t);
      assert attempts[i := t][..n] == attempts[..n][i := t];
    } else {
      assert attempts[i := t][..n] == attempts[..n];
    }
  }

  lemma StepWhileHeld(s: State, a: nat, action: Action)
    requires Inv(s) && s.inFlight.Some? && !action.RunFinally?
    ensures var s' := Next(s, a, action);
            && s'.inFlight == s.inFlight && |s'.attempts| == |s.attempts|
            && s.callers <= s'.callers
            && (forall i :: |s.callers| <= i < |s'.callers| ==> s'.callers[i].attempt == s.inFlight.value)
            && Spawns(s'.attempts) - s'.attempts[s.inFlight.value].spawns
            == Spawns(s.attempts) - s.attempts[s.inFlight.value].spawns
  {
    if !action.Call? && a < |s.attempts| {
      SpawnsSplit(s.attempts, a, Advance(s.attempts[a], action));
    }
  }

  /** While the attempt `s` was in is under way, `t` has no further attempt and every further caller waits for it. */
  ghost predicate Shares(s: State, t: State)
    requires Inv(s) && s.inFlight.Some?
  {
    && t.inFlight == s.inFlight && |t.attempts| == |s.attempts| && s.callers <= t.callers
    && forall i :: |s.callers| <= i < |t.callers| ==> t.callers[i].attempt == s.inFlight.value
  }

  /**
   * However many calls arrive while an attempt is under way, they all wait for that attempt, none opens another,
   * and at most one daemon is spawned in the whole stretch.
   */
  lemma {:induction false} OverlappingCallsShare(s: State, steps: seq<Step>)
    requires Inv(s) && s.inFlight.Some? && NoneReleases(steps)
    ensures Inv(Exec(s, steps)) && Shares(s, Exec(s, steps))
    ensures Spawns(Exec(s, steps).attempts) <= Spawns(s.attempts) - s.attempts[s.inFlight.value].spawns + 1
  {
    SpawnsWhileHeld(s, steps);
    ExecInv(s, steps);
  }

  /** Only the attempt under way can spawn. */
  lemma {:induction false} SpawnsWhileHeld(s: State, steps: seq<Step>)
    requires Inv(s) && s.inFlight.Some? && NoneReleases(steps)
    ensures var t := Exec(s, steps);
            Shares(s, t) && Spawns(t.attempts) - t.attempts[s.inFlight.value].spawns
                         == Spawns(s.attempts) - s.attempts[s.inFlight.value].spawns
  {
    if steps != [] {
      var front, last := steps[..|steps| - 1], steps[|steps| - 1];
      assert forall i :: 0 <= i < |front| ==> front[i] == steps[i];
      SpawnsWhileHeld(s, front);
      ExecInv(s, front);
      StepWhileHeld(Exec(s, front), last.attempt, last.action);
    }
  }

  // ---------- outcomes ----------

  /** What a caller's promise has settled to, if it has. */
  function Answer(s: State, c: nat): Option<Outcome>
    requires Inv(s) && c < |s.callers|
  {
    var t := s.attempts[s.callers[c].attempt];
    if t.phase.Released? then Some(t.phase.outcome) else None
  }

  /** A caller stays with its attempt, and an answer once given never changes. */
  lemma {:induction false} AnswersAreFinal(s: State, steps: seq<Step>, c: nat)
    requires Inv(s) && c < |s.callers|
    ensures Inv(Exec(s, steps))
    ensures var s' := Exec(s, steps);
            c < |s'.callers| && s'.callers[c] == s.callers[c]
            && (Answer(s, c).Some? ==> Answer(s', c) == Answer(s, c))
  {
    if steps != [] {
      var front, last := steps[..|steps| - 1], steps[|steps| - 1];
      AnswersAreFinal(s, front, c);
      StepKeepsInv(Exec(s, front), last.attempt, last.action);
    }
  }

  /** All callers of one attempt get the same answer, at the same time as the lock is released. */
  lemma SharedAnswer(steps: seq<Step>, c: nat, d: nat)
    ensures var s := Exec(IDLE, steps);
            Inv(s)
            && (c < |s.callers| && d < |s.callers| && s.callers[c].attempt == s.callers[d].attempt
                ==> Answer(s, c) == Answer(s, d))
            && (c < |s.callers| ==> (Answer(s, c) == None <==> s.inFlight == Some(s.callers[c].attempt)))
  {
    ExecInv(IDLE, steps);
  }

  // ---------- outcomes and spawns have their reason in the answers ----------

  function OutcomeOf(t: Attempt): Option<Outcome> {
    if t.phase.Settled? || t.phase.Released? then Some(t.phase.outcome) else None
  }

  /** Is the action the answer an attempt in this phase waits for? */
  predicate Answers(p: Phase, action: Action) {
    match p
    case Probing => action.FastAnswer? || action.ProbeThrows?
    case Spawning => action.SpawnDone?
    case Polling => action.PollDone? || action.ProbeThrows?
    case Settled(_) => action.RunFinally?
    case Released(_) => false
  }

  /** The step is the call that opens attempt `a`. */
  predicate Opens(s: State, step: Step, a: nat) {
    step.action.Call? && s.inFlight == None && a == |s.attempts|
  }

  /** The step is an answer that attempt `a` waits for. */
  predicate AnswersTo(s: State, step: Step, a: nat) {
    step.attempt == a && a < |s.attempts| && Answers(s.attempts[a].phase, step.action)
  }

  /** The step gives attempt `a` its outcome. */
  predicate Settles(s: State, step: Step, a: nat, o: Outcome) {
    match o
    case Ready => AnswersTo(s, step, a) && (step.action == FastAnswer(true) || step.action == PollDone(true))
    case Failed(PidFileFailed) => Opens(s, step, a) && step.action.pid == PidThrows
    case Failed(ProbeFailed) => AnswersTo(s, step, a) && step.action == ProbeThrows
    case Failed(StartFailed) => AnswersTo(s, step, a) && step.action == SpawnDone(false)
    case Failed(StartTimedOut) => AnswersTo(s, step, a) && step.action == PollDone(false)
  }

  /** The step makes attempt `a` spawn a daemon. */
  predicate Launches(s: State, step: Step, a: nat) {
    || (Opens(s, step, a) && step.action.pid == NoPid)
    || (AnswersTo(s, step, a) && step.action == FastAnswer(false))
  }

  /** Attempt `a` of a state, or one that has done nothing when there is no such attempt yet. */
  function At(s: State, a: nat): Attempt {
    if a < |s.attempts| then s.attempts[a] else Attempt(0, Probing, 0)
  }

  /** One step settles or spawns exactly when it is the call or the answer that does. */
  lemma StepCauses(s: State, step: Step, a: nat, o: Outcome)
    requires Inv(s)
    ensures var t, t' := At(s, a), At(Next(s, step.attempt, step.action), a);
            && (OutcomeOf(t') == Some(o) <==> OutcomeOf(t) == Some(o) || Settles(s, step, a, o))
            && (t'.spawns > 0 <==> t.spawns > 0 || Launches(s, step, a))
  {
    if a < |s.attempts| { assert AttemptInv(s.attempts[a]); }
  }

  ghost predicate SettledAt(steps: seq<Step>, i: nat, a: nat, o: Outcome) {
    i < |steps| && Settles(Exec(IDLE, steps[..i]), steps[i], a, o)
  }

  ghost predicate LaunchedAt(steps: seq<Step>, i: nat, a: nat) {
    i < |steps| && Launches(Exec(IDLE, steps[..i]), steps[i], a)
  }

  ghost predicate EverSettled(steps: seq<Step>, a: nat, o: Outcome) {
    exists i: nat | i < |steps| :: SettledAt(steps, i, a, o)
  }

  ghost predicate EverLaunched(steps: seq<Step>, a: nat) {
    exists i: nat | i < |steps| :: LaunchedAt(steps, i, a)
  }

  lemma EverLast(steps: seq<Step>, a: nat, o: Outcome)
    requires steps != []
    ensures var front := steps[..|steps| - 1];
            && (EverSettled(steps, a, o) <==> EverSettled(front, a, o) || SettledAt(steps, |front|, a, o))
            && (EverLaunched(steps, a) <==> EverLaunched(front, a) || LaunchedAt(steps, |front|, a))
  {
    var front := steps[..|steps| - 1];
    forall i: nat | i < |front|
      ensures SettledAt(front, i, a, o) == SettledAt(steps, i, a, o)
      ensures LaunchedAt(front, i, a) == LaunchedAt(steps, i, a)
    {
      assert front[..i] == steps[..i];
    }
  }

  /**
   * In every run an attempt has an outcome if and only if the answer it was waiting for, or the call that opened it,
   * gave it that outcome; and it has spawned a daemon if and only if that call found no pid or the fast probe it
   * was waiting for failed.
   */
  lemma {:induction false} AttemptsAreCaused(steps: seq<Step>, a: nat, o: Outcome)
    ensures var t := At(Exec(IDLE, steps), a);
            && (OutcomeOf(t) == Some(o) <==> EverSettled(steps, a, o))
            && (t.spawns > 0 <==> EverLaunched(steps, a))
  {
    if steps != [] {
      var front, last := steps[..|steps| - 1], steps[|steps| - 1];
      AttemptsAreCaused(front, a, o);
      EverLast(steps, a, o);
      ExecInv(IDLE, front);
      StepCauses(Exec(IDLE, front), last, a, o);
      assert steps[..|front|] == front;
    }
  }

  // ---------- the lock is always released ----------

  /** Steps an attempt still has to take at most. */
  function Rank(p: Phase): nat {
    match p
    case Probing => 4
    case Spawning => 3
    case Polling => 2
    case Settled(_) => 1
    case Released(_) => 0
  }

  /** How often in a run attempt `a` is given the answer it waits for. */
  function Answered(s: State, steps: seq<Step>, a: nat): nat {
    if steps == [] then 0
    else
      var front, last := steps[..|steps| - 1], steps[|steps| - 1];
      Answered(s, front, a) + (if AnswersTo(Exec(s, front), last, a) then 1 else 0)
  }

  /** Every answer brings an attempt nearer to its end. */
  lemma {:induction false} AnswersUseUpRank(s: State, steps: seq<Step>, a: nat)
    requires Inv(s) && a < |s.attempts|
    ensures var t := Exec(s, steps);
            a < |t.attempts| && Rank(t.attempts[a].phase) + Answered(s, steps, a) <= Rank(s.attempts[a].phase)
  {
    if steps != [] {
      var front, last := steps[..|steps| - 1], steps[|steps| - 1];
      AnswersUseUpRank(s, front, a);
      assert Exec(s, steps) == Next(Exec(s, front), last.attempt, last.action);
    }
  }

  /**
   * Whatever the answers are, an attempt that keeps getting answers is over after at most four of them, failures of
   * the pid file, the probes, the spawn and the deadline included; then the lock is not held by it any more.
   */
  lemma LockIsReleased(s: State, steps: seq<Step>, a: nat)
    requires Inv(s) && a < |s.attempts| && Answered(s, steps, a) >= Rank(s.attempts[a].phase)
    ensures var t := Exec(s, steps);
            a < |t.attempts| && t.attempts[a].phase.Released? && t.inFlight != Some(a)
  {
    ExecInv(s, steps);
    AnswersUseUpRank(s, steps, a);
  }

  // ---------- whose port ----------

  /** A caller waits for an attempt on its own port if and only if it opens one, or the one under way has that port. */
  lemma OwnPortIff(s: State, a: nat, port: nat, pid: PidAnswer)
    requires Inv(s)
    ensures var t, c := Next(s, a, Call(port, pid)), |s.callers|;
            c < |t.callers| && t.callers[c].port == port && t.callers[c].attempt < |t.attempts|
            && (t.attempts[t.callers[c].attempt].port == port <==>
                  s.inFlight == None || s.attempts[s.inFlight.value].port == port)
  {
  }

  /** An attempt keeps its port. */
  lemma {:induction false} PortsNeverChange(s: State, steps: seq<Step>, a: nat)
    requires a < |s.attempts|
    ensures a < |Exec(s, steps).attempts| && Exec(s, steps).attempts[a].port == s.attempts[a].port
  {
    if steps != [] { PortsNeverChange(s, steps[..|steps| - 1], a); }
  }

  /**
   * At any later moment of the run the caller is still served, on its own port or another, as decided when it called.
   */
  lemma ServedOnOwnPortIff(s: State, a: nat, port: nat, pid: PidAnswer, later: seq<Step>)
    requires Inv(s)
    ensures var c := |s.callers|;
            var t := Exec(Next(s, a, Call(port, pid)), later);
            c < |t.callers| && t.callers[c].port == port && t.callers[c].attempt < |t.attempts|
            && (t.attempts[t.callers[c].attempt].port == port <==>
                  s.inFlight == None || s.attempts[s.inFlight.value].port == port)
  {
    var called := Next(s, a, Call(port, pid));
    OwnPortIff(s, a, port, pid);
    StepKeepsInv(s, a, Call(port, pid));
    AnswersAreFinal(called, later, |s.callers|);
    PortsNeverChange(called, later, called.callers[|s.callers|].attempt);
  }

  /** Two calls for different ports, one after the other: the second is attached to the first one's port. */
  lemma OtherPortIsIgnored(p: nat, q: nat, pid: PidAnswer, pid': PidAnswer)
    requires p != q
    ensures var t := Next(Next(IDLE, 0, Call(p, pid)), 0, Call(q, pid'));
            |t.attempts| == 1 && t.callers == [Caller(p, 0), Caller(q, 0)] && t.attempts[0].port == p
  {
  }
}
