/** Which decision id a retry is answered with, and when that stays the same. */
module MissionAnswers {
  import opened MissionDecisions
  import opened Missions
  import opened MissionViews
  import opened Sets

  // ---------- the same id on every retry ----------

  ghost predicate IsLeast(stamps: set<(Id, nat)>, x: (Id, nat)) { forall y :: y in stamps ==> x.1 <= y.1 }

  lemma FirstDecisionIff(log: Log, kind: Kind, m: Id, p: Id, d: Id)
    ensures IsFirstDecision(log, kind, m, p, d) <==>
              exists x | x in Stamps(log, kind, m, p) :: x.0 == d && IsLeast(Stamps(log, kind, m, p), x)
  {
    if IsFirstDecision(log, kind, m, p, d) {
      var e :| Earliest(log, kind, m, p, e) && e.id == d;
      var x := (e.id, e.createdAt);
      assert x in Stamps(log, kind, m, p) && IsLeast(Stamps(log, kind, m, p), x);
    }
    if x :| x in Stamps(log, kind, m, p) && x.0 == d && IsLeast(Stamps(log, kind, m, p), x) {
      var e :| e in log && Decides(e, kind, m, p) && (e.id, e.createdAt) == x;
      forall f | f in log && Decides(f, kind, m, p) ensures e.createdAt <= f.createdAt {
        assert (f.id, f.createdAt) in Stamps(log, kind, m, p);
      }
      assert Earliest(log, kind, m, p, e);
    }
  }

  /** The lookup can give no other answer than `d`. */
  ghost predicate OnlyAnswer(log: Log, kind: Kind, m: Id, p: Id, d: Id) {
    forall x :: IsFirstDecision(log, kind, m, p, x) ==> x == d
  }

  /** The lookup has one answer if and only if no other row of the kind has the time of the earliest one. */
  lemma OneAnswerIff(log: Log, kind: Kind, m: Id, p: Id, e: Event)
    requires Earliest(log, kind, m, p, e)
    ensures OnlyAnswer(log, kind, m, p, e.id) <==>
              !exists f | f in log :: Decides(f, kind, m, p) && f.id != e.id && f.createdAt == e.createdAt
  {
    if OnlyAnswer(log, kind, m, p, e.id) {
      forall f | f in log && Decides(f, kind, m, p) && f.createdAt == e.createdAt ensures f.id == e.id {
        assert Earliest(log, kind, m, p, f);
        assert IsFirstDecision(log, kind, m, p, f.id);
      }
    }
    forall x | IsFirstDecision(log, kind, m, p, x) && x != e.id
      ensures exists f | f in log :: Decides(f, kind, m, p) && f.id != e.id && f.createdAt == e.createdAt
    {
      var f :| Earliest(log, kind, m, p, f) && f.id == x;
    }
  }

  ghost predicate LaterRowsFrom(acts: seq<Action>, n: nat, kind: Kind, m: Id, p: Id, time: nat) {
    forall i | n <= i < |acts| :: WrittenAt(acts, i, kind, m, p) ==> acts[i].at >= time
  }

  ghost predicate LaterRowsAfter(acts: seq<Action>, n: nat, kind: Kind, m: Id, p: Id, time: nat) {
    forall i | n <= i < |acts| :: WrittenAt(acts, i, kind, m, p) ==> acts[i].at > time
  }

  /** An answer given at a moment of the run stays one if and only if no later row is stamped before it. */
  lemma AnswerStaysIff(acts: seq<Action>, n: nat, kind: Kind, m: Id, p: Id, e: Event)
    requires n <= |acts| && DecisionKind(kind) && Earliest(Exec(acts[..n]).log, kind, m, p, e)
    ensures IsFirstDecision(Exec(acts).log, kind, m, p, e.id) <==> LaterRowsFrom(acts, n, kind, m, p, e.createdAt)
  {
    var before, after := Stamps(Exec(acts[..n]).log, kind, m, p), Stamps(Exec(acts).log, kind, m, p);
    var x := (e.id, e.createdAt);
    RunStamps(acts, n, kind, m, p);
    FirstDecisionIff(Exec(acts).log, kind, m, p, e.id);
    assert x in after;
    forall i | n <= i < |acts| && WrittenAt(acts, i, kind, m, p) ensures (acts[i].id, acts[i].at) in after {
      assert (acts[i].id, acts[i].at) in WrittenSince(acts, n, kind, m, p);
    }
    if IsFirstDecision(Exec(acts).log, kind, m, p, e.id) {
      var y :| y in after && y.0 == e.id && IsLeast(after, y);
      ExecInv(acts);
      StampsById(Exec(acts).log, kind, m, p, x, y);
    } else {
      assert !IsLeast(after, x);
    }
  }

  lemma StampsById(log: Log, kind: Kind, m: Id, p: Id, x: (Id, nat), y: (Id, nat))
    requires UniqueIds(log) && x in Stamps(log, kind, m, p) && y in Stamps(log, kind, m, p) && x.0 == y.0
    ensures x == y
  {
    var e :| e in log && Decides(e, kind, m, p) && (e.id, e.createdAt) == x;
    var f :| f in log && Decides(f, kind, m, p) && (f.id, f.createdAt) == y;
    assert e == f;
  }

  /**
   * A retry gets the same id for the rest of the run if and only if no later row of the kind is stamped at or before
   * the first: not in the same second, and not by a clock that has stepped back.
   */
  lemma OnlyAnswerStaysIff(acts: seq<Action>, n: nat, kind: Kind, m: Id, p: Id, e: Event)
    requires n <= |acts| && DecisionKind(kind)
    requires Earliest(Exec(acts[..n]).log, kind, m, p, e) && OnlyAnswer(Exec(acts[..n]).log, kind, m, p, e.id)
    ensures OnlyAnswer(Exec(acts).log, kind, m, p, e.id) <==> LaterRowsAfter(acts, n, kind, m, p, e.createdAt)
  {
    RunStamps(acts, n, kind, m, p);
    if LaterRowsAfter(acts, n, kind, m, p, e.createdAt) {
      OnlyAnswerStays(acts, n, kind, m, p, e);
    } else {
      var i :| n <= i < |acts| && WrittenAt(acts, i, kind, m, p) && acts[i].at <= e.createdAt;
      AnotherAnswer(acts, n, kind, m, p, e, i);
    }
  }

  lemma OnlyAnswerStays(acts: seq<Action>, n: nat, kind: Kind, m: Id, p: Id, e: Event)
    requires n <= |acts| && DecisionKind(kind) && LaterRowsAfter(acts, n, kind, m, p, e.createdAt)
    requires Earliest(Exec(acts[..n]).log, kind, m, p, e) && OnlyAnswer(Exec(acts[..n]).log, kind, m, p, e.id)
    ensures OnlyAnswer(Exec(acts).log, kind, m, p, e.id)
  {
    var before, after := Exec(acts[..n]).log, Exec(acts).log;
    RunStamps(acts, n, kind, m, p);
    forall d | IsFirstDecision(after, kind, m, p, d) ensures d == e.id {
      FirstDecisionIff(after, kind, m, p, d);
      var x :| x in Stamps(after, kind, m, p) && x.0 == d && IsLeast(Stamps(after, kind, m, p), x);
      assert (e.id, e.createdAt) in Stamps(after, kind, m, p);
      assert x !in WrittenSince(acts, n, kind, m, p);
      FirstDecisionIff(before, kind, m, p, d);
    }
  }

  lemma AnotherAnswer(acts: seq<Action>, n: nat, kind: Kind, m: Id, p: Id, e: Event, i: nat)
    requires n <= i < |acts| && DecisionKind(kind) && e in Exec(acts[..n]).log
    requires WrittenAt(acts, i, kind, m, p) && acts[i].at <= e.createdAt
    requires Earliest(Exec(acts[..n]).log, kind, m, p, e)
    ensures !OnlyAnswer(Exec(acts).log, kind, m, p, e.id)
  {
    var log := Exec(acts).log;
    RunStamps(acts, n, kind, m, p);
    var x := (acts[i].id, acts[i].at);
    assert x in WrittenSince(acts, n, kind, m, p);
    FreshAtWrite(acts, n, i, kind, m, p, e);
    HasDecisionIff(log, kind, m, p);
    EarliestExists(log, kind, m, p);
    var f :| Earliest(log, kind, m, p, f);
    if f.id == e.id {
      assert (f.id, f.createdAt) in Stamps(log, kind, m, p) && (e.id, e.createdAt) in Stamps(log, kind, m, p);
      ExecInv(acts);
      StampsById(log, kind, m, p, (f.id, f.createdAt), (e.id, e.createdAt));
      assert f.createdAt <= x.1;
      FirstDecisionIff(log, kind, m, p, x.0);
      assert IsFirstDecision(log, kind, m, p, x.0);
    } else {
      assert IsFirstDecision(log, kind, m, p, f.id);
    }
  }

  /** A row written later has an id of its own. */
  lemma FreshAtWrite(acts: seq<Action>, n: nat, i: nat, kind: Kind, m: Id, p: Id, e: Event)
    requires n <= i < |acts| && WrittenAt(acts, i, kind, m, p) && e in Exec(acts[..n]).log
    ensures acts[i].id != e.id
  {
    assert acts[..i][..n] == acts[..n];
    RunGrows(acts[..i], n);
    var k :| 0 <= k < |Exec(acts[..n]).log| && Exec(acts[..n]).log[k] == e;
    assert Exec(acts[..i]).log[k] in Exec(acts[..i]).log;
  }

  /** With requests of the kind handled one after another the answer never changes, whatever the clock does. */
  lemma SerialRetriesAgree(acts: seq<Action>, n: nat, kind: Kind, m: Id, p: Id, e: Event)
    requires n <= |acts| && DecisionKind(kind) && OverlapAtMost(acts, kind, m, p, 1)
    requires Earliest(Exec(acts[..n]).log, kind, m, p, e)
    ensures IsFirstDecision(Exec(acts).log, kind, m, p, e.id) && OnlyAnswer(Exec(acts).log, kind, m, p, e.id)
  {
    var log := Exec(acts).log;
    RunStamps(acts, n, kind, m, p);
    DecisionsAtMostOverlap(acts, kind, m, p, 1);
    assert (e.id, e.createdAt) in Stamps(log, kind, m, p);
    ExecInv(acts);
    forall x | x in Stamps(log, kind, m, p) ensures x == (e.id, e.createdAt) {
      assert x.0 in Decisions(log, kind, m, p) && e.id in Decisions(log, kind, m, p);
      SameElement(Decisions(log, kind, m, p), x.0, e.id);
      StampsById(log, kind, m, p, x, (e.id, e.createdAt));
    }
    FirstDecisionIff(log, kind, m, p, e.id);
    forall d | IsFirstDecision(log, kind, m, p, d) ensures d == e.id { FirstDecisionIff(log, kind, m, p, d); }
  }

  // ---------- runs in which it goes wrong ----------

  ghost predicate TwoAnswers(log: Log, kind: Kind, m: Id, p: Id) {
    exists d, d' :: d != d' && IsFirstDecision(log, kind, m, p, d) && IsFirstDecision(log, kind, m, p, d')
  }

  /** Two overlapping requests of one second: a retry can be answered by either row. */
  lemma TiesHappen(kind: Kind)
    requires DecisionKind(kind)
    ensures TwoAnswers(Exec(Burst(kind, 2, 2)).log, kind, 0, 0)
  {
    var log := Exec(Burst(kind, 2, 2)).log;
    BurstReaches(kind, 2, 2, 2);
    assert log == [ROW, RowOf(kind, 0), RowOf(kind, 1)];
    assert Earliest(log, kind, 0, 0, log[1]) && Earliest(log, kind, 0, 0, log[2]);
    assert IsFirstDecision(log, kind, 0, 0, 1) && IsFirstDecision(log, kind, 0, 0, 2);
  }

  /** Two overlapping approvals and a clock that steps back between them: the answer given first is replaced. */
  lemma AnswersChange()
    ensures var acts := Burst(RemediationApproved, 2, 1);
            && IsFirstDecision(Exec(acts).log, RemediationApproved, 0, 0, 1)
            && !IsFirstDecision(Exec(acts + [InsertApproval(1, 2, 0)]).log, RemediationApproved, 0, 0, 1)
  {
    var kind := RemediationApproved;
    var acts, last := Burst(kind, 2, 1), InsertApproval(1, 2, 0);
    assert acts == Burst(kind, 2, 0) + [InsertOf(kind, 0)];
    BurstReaches(kind, 2, 2, 0);
    BurstInsert(Exec(Burst(kind, 2, 0)), kind, 2, 0);
    assert acts[..|acts| - 1] == Burst(kind, 2, 0);
    var s := Exec(acts);
    assert s.log == [ROW, RowOf(kind, 0)];
    assert (acts + [last])[..|acts|] == acts;
    var t := Exec(acts + [last]);
    var back := Event(2, 0, kind, PendingApproval(0, MilestoneTarget), 0);
    assert t == Next(s, last) && t.log == [ROW, RowOf(kind, 0), back];
    assert Earliest(s.log, kind, 0, 0, s.log[1]);
    assert t.log[2] == back && back in t.log && Decides(back, kind, 0, 0);
  }
}
