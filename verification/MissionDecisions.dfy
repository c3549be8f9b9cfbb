/**
 * How many decisions a proposal gets. Approve and dismiss check for an earlier decision, wait for the request body
 * and then write their row, so requests that overlap at that wait can all get past the check.
 */
module MissionDecisions {
  import opened Missions
  import opened Sets
  import opened Wrappers

  /** The two kinds of decision; nothing below holds of other rows. */
  predicate DecisionKind(kind: Kind) { kind == RemediationApproved || kind == RemediationDismissed }

  // ---------- the decision rows of a proposal ----------

  /** Id and time of each decision row of a kind. */
  ghost function Stamps(log: Log, kind: Kind, m: Id, p: Id): set<(Id, nat)> {
    set e | e in log && Decides(e, kind, m, p) :: (e.id, e.createdAt)
  }

  ghost function Decisions(log: Log, kind: Kind, m: Id, p: Id): set<Id> {
    set x | x in Stamps(log, kind, m, p) :: x.0
  }

  /** The step writes a decision row on behalf of a request on `(m, p)`. */
  predicate Writes(s: State, a: Action, kind: Kind, m: Id, p: Id) {
    && Enabled(s, a)
    && ((kind == RemediationApproved && a.InsertApproval?) || (kind == RemediationDismissed && a.InsertDismissal?))
    && s.handlers[a.h].mission == m && s.handlers[a.h].pid == p
  }

  lemma GrowKeepsStamps(a: Log, b: Log, kind: Kind, m: Id, p: Id)
    requires LogGrows(a, b)
    ensures Stamps(a, kind, m, p) <= Stamps(b, kind, m, p)
  {
    forall x | x in Stamps(a, kind, m, p) ensures x in Stamps(b, kind, m, p) {
      var e :| e in a && Decides(e, kind, m, p) && (e.id, e.createdAt) == x;
      var i :| 0 <= i < |a| && a[i] == e;
      assert b[i] in b && Decides(b[i], kind, m, p);
    }
  }

  lemma AppendStamps(log: Log, e: Event, kind: Kind, m: Id, p: Id)
    ensures Stamps(log + [e], kind, m, p)
         == Stamps(log, kind, m, p) + (if Decides(e, kind, m, p) then {(e.id, e.createdAt)} else {})
  {
  }

  /** A step adds a decision row exactly when it writes one, with the id and the time of the step. */
  lemma StepStamps(s: State, a: Action, kind: Kind, m: Id, p: Id)
    requires Inv(s) && Enabled(s, a) && DecisionKind(kind)
    ensures Stamps(Apply(s, a).log, kind, m, p)
         == Stamps(s.log, kind, m, p) + (if Writes(s, a, kind, m, p) then {(a.id, a.at)} else {})
  {
    var t := Apply(s, a);
    StepLog(s, a);
    if a.InsertApproval? || a.InsertDismissal? || a.RecordEvent? {
      AppendStamps(s.log, t.log[|s.log|], kind, m, p);
    } else {
      GrowKeepsStamps(s.log, t.log, kind, m, p);
      GrowKeepsStamps(t.log, s.log, kind, m, p);
    }
  }

  lemma HasDecisionIff(log: Log, kind: Kind, m: Id, p: Id)
    ensures HasDecision(log, kind, m, p) <==> Stamps(log, kind, m, p) != {}
  {
    if HasDecision(log, kind, m, p) {
      var e :| e in log && Decides(e, kind, m, p);
      assert (e.id, e.createdAt) in Stamps(log, kind, m, p);
    }
  }

  lemma DecisionsOfUnion(log: Log, kind: Kind, m: Id, p: Id, after: Log, x: (Id, nat))
    requires Stamps(after, kind, m, p) == Stamps(log, kind, m, p) + {x}
    ensures Decisions(after, kind, m, p) == Decisions(log, kind, m, p) + {x.0}
  {
    forall d | d in Decisions(log, kind, m, p) ensures d in Decisions(after, kind, m, p) {
      var y :| y in Stamps(log, kind, m, p) && y.0 == d;
      assert y in Stamps(after, kind, m, p);
    }
    assert x in Stamps(after, kind, m, p);
  }

  // ---------- at most once ----------

  /** The request is past its idempotency check and has not written its row. */
  predicate Waiting(x: Handler, kind: Kind, m: Id, p: Id) {
    match x
    case ApproveChecked(mission, pid, _) => kind == RemediationApproved && mission == m && pid == p
    case DismissChecked(mission, pid) => kind == RemediationDismissed && mission == m && pid == p
    case _ => false
  }

  ghost function Overlapping(s: State, kind: Kind, m: Id, p: Id): set<nat> {
    set h | h in s.handlers && Waiting(s.handlers[h], kind, m, p)
  }

  ghost predicate OverlapAtMost(acts: seq<Action>, kind: Kind, m: Id, p: Id, k: nat) {
    forall n: nat | n <= |acts| :: OverlapWithin(acts, n, kind, m, p, k)
  }

  ghost predicate OverlapWithin(acts: seq<Action>, n: nat, kind: Kind, m: Id, p: Id, k: nat) {
    n <= |acts| && |Overlapping(Exec(acts[..n]), kind, m, p)| <= k
  }

  lemma OverlapInFront(acts: seq<Action>, n: nat, kind: Kind, m: Id, p: Id, k: nat)
    requires n < |acts|
    ensures OverlapWithin(acts, n, kind, m, p, k) == OverlapWithin(acts[..|acts| - 1], n, kind, m, p, k)
  {
    assert acts[..|acts| - 1][..n] == acts[..n];
  }

  /** How many requests overlap bounds how many rows they write. */
  ghost predicate Budget(s: State, kind: Kind, m: Id, p: Id, k: nat) {
    Stamps(s.log, kind, m, p) == {} || |Decisions(s.log, kind, m, p)| + |Overlapping(s, kind, m, p)| <= k
  }

  /**
   * A step that writes no row for the proposal leaves its waiting requests as they are, unless it has no decision
   * yet.
   */
  lemma StepOverlapping(s: State, a: Action, kind: Kind, m: Id, p: Id)
    requires Enabled(s, a) && DecisionKind(kind)
    ensures Writes(s, a, kind, m, p) ==>
              && a.h in Overlapping(s, kind, m, p)
              && Overlapping(Apply(s, a), kind, m, p) == Overlapping(s, kind, m, p) - {a.h}
    ensures !Writes(s, a, kind, m, p) ==>
              Overlapping(Apply(s, a), kind, m, p) <= Overlapping(s, kind, m, p) || Stamps(s.log, kind, m, p) == {}
  {
    HasDecisionIff(s.log, kind, m, p);
    var t := Apply(s, a);
    if Writes(s, a, kind, m, p) {
      forall h ensures h in Overlapping(t, kind, m, p) <==> h in Overlapping(s, kind, m, p) && h != a.h {
        if h != a.h {
          assert h in t.handlers <==> h in s.handlers;
          assert h in s.handlers ==> t.handlers[h] == s.handlers[h];
        }
      }
    } else if Stamps(s.log, kind, m, p) != {} {
      forall h | h in Overlapping(t, kind, m, p) ensures h in Overlapping(s, kind, m, p) { }
    }
  }

  /** A written row spends one waiting request. */
  lemma WriteKeepsBudget(s: State, a: Action, kind: Kind, m: Id, p: Id, k: nat)
    requires Inv(s) && Writes(s, a, kind, m, p) && DecisionKind(kind) && Budget(s, kind, m, p, k)
    requires |Overlapping(s, kind, m, p)| <= k
    ensures Budget(Apply(s, a), kind, m, p, k)
  {
    var t := Apply(s, a);
    StepStamps(s, a, kind, m, p);
    StepOverlapping(s, a, kind, m, p);
    DecisionsOfUnion(s.log, kind, m, p, t.log, (a.id, a.at));
    assert a.id !in Decisions(s.log, kind, m, p);
    if Stamps(s.log, kind, m, p) == {} { assert Decisions(s.log, kind, m, p) == {}; }
    assert |Overlapping(t, kind, m, p)| == |Overlapping(s, kind, m, p)| - 1;
    assert |Decisions(t.log, kind, m, p)| == |Decisions(s.log, kind, m, p)| + 1;
  }

  lemma OtherStepKeepsBudget(s: State, a: Action, kind: Kind, m: Id, p: Id, k: nat)
    requires Inv(s) && Enabled(s, a) && !Writes(s, a, kind, m, p) && DecisionKind(kind) && Budget(s, kind, m, p, k)
    ensures Budget(Apply(s, a), kind, m, p, k)
  {
    StepStamps(s, a, kind, m, p);
    StepOverlapping(s, a, kind, m, p);
    if Stamps(s.log, kind, m, p) != {} {
      SubsetSize(Overlapping(Apply(s, a), kind, m, p), Overlapping(s, kind, m, p));
    }
  }

  lemma {:induction false} OverlapBoundsDecisions(acts: seq<Action>, kind: Kind, m: Id, p: Id, k: nat)
    requires OverlapAtMost(acts, kind, m, p, k) && DecisionKind(kind)
    ensures Budget(Exec(acts), kind, m, p, k)
  {
    if acts == [] {
      assert Stamps(EMPTY.log, kind, m, p) == {};
    } else {
      var front, a := acts[..|acts| - 1], acts[|acts| - 1];
      forall n: nat | n <= |front| ensures OverlapWithin(front, n, kind, m, p, k) {
        OverlapInFront(acts, n, kind, m, p, k);
      }
      OverlapBoundsDecisions(front, kind, m, p, k);
      ExecInv(front);
      assert OverlapWithin(front, |front|, kind, m, p, k) && front[..|front|] == front;
      if Writes(Exec(front), a, kind, m, p) { WriteKeepsBudget(Exec(front), a, kind, m, p, k); }
      else if Enabled(Exec(front), a) { OtherStepKeepsBudget(Exec(front), a, kind, m, p, k); }
    }
  }

  ghost function EntityDecisions(s: State, m: Id, p: Id): set<Id> {
    set c | c in s.created && ApprovalRow(s.log, c.decision, m, p) :: c.decision
  }

  /** A proposal never gets more rows of a kind than its requests of that kind overlapped. */
  lemma DecisionsAtMostOverlap(acts: seq<Action>, kind: Kind, m: Id, p: Id, k: nat)
    requires OverlapAtMost(acts, kind, m, p, k) && DecisionKind(kind)
    ensures |Decisions(Exec(acts).log, kind, m, p)| <= k
  {
    OverlapBoundsDecisions(acts, kind, m, p, k);
    var log := Exec(acts).log;
    if Stamps(log, kind, m, p) == {} { assert Decisions(log, kind, m, p) == {}; }
  }

  /** Nor does it get more entities than approval rows. */
  lemma EntitiesAtMostApprovals(s: State, m: Id, p: Id)
    ensures |EntityDecisions(s, m, p)| <= |Decisions(s.log, RemediationApproved, m, p)|
  {
    forall d | d in EntityDecisions(s, m, p) ensures d in Decisions(s.log, RemediationApproved, m, p) {
      var i :| 0 <= i < |s.log| && s.log[i].id == d && Decides(s.log[i], RemediationApproved, m, p);
      RowIsDecision(s.log, i, RemediationApproved, m, p);
    }
    SubsetSize(EntityDecisions(s, m, p), Decisions(s.log, RemediationApproved, m, p));
  }

  lemma RowIsDecision(log: Log, i: nat, kind: Kind, m: Id, p: Id)
    requires i < |log| && Decides(log[i], kind, m, p)
    ensures log[i].id in Decisions(log, kind, m, p)
  {
    assert log[i] in log;
    assert (log[i].id, log[i].createdAt) in Stamps(log, kind, m, p);
  }

  ghost predicate AtMostOneRow(s: State, kind: Kind, m: Id, p: Id) {
    forall i, j | 0 <= i < |s.log| && 0 <= j < |s.log| ::
      Decides(s.log[i], kind, m, p) && Decides(s.log[j], kind, m, p) ==> i == j
  }

  ghost predicate AtMostOneEntity(s: State, m: Id, p: Id) {
    forall i, j | 0 <= i < |s.created| && 0 <= j < |s.created| ::
      ApprovalRow(s.log, s.created[i].decision, m, p) && ApprovalRow(s.log, s.created[j].decision, m, p) ==> i == j
  }

  /**
   * With requests of a kind handled one after another a proposal gets at most one row of that kind, whatever crashes.
   */
  lemma DecidedAtMostOnce(acts: seq<Action>, kind: Kind, m: Id, p: Id)
    requires OverlapAtMost(acts, kind, m, p, 1) && DecisionKind(kind)
    ensures AtMostOneRow(Exec(acts), kind, m, p)
  {
    var s := Exec(acts);
    ExecInv(acts);
    DecisionsAtMostOverlap(acts, kind, m, p, 1);
    forall i, j | 0 <= i < |s.log| && 0 <= j < |s.log| && Decides(s.log[i], kind, m, p) && Decides(s.log[j], kind, m, p)
      ensures i == j
    {
      RowIsDecision(s.log, i, kind, m, p);
      RowIsDecision(s.log, j, kind, m, p);
      SameElement(Decisions(s.log, kind, m, p), s.log[i].id, s.log[j].id);
    }
  }

  /** And with approve requests handled one after another it gets at most one entity. */
  lemma ApprovedAtMostOnce(acts: seq<Action>, m: Id, p: Id)
    requires OverlapAtMost(acts, RemediationApproved, m, p, 1)
    ensures AtMostOneRow(Exec(acts), RemediationApproved, m, p) && AtMostOneEntity(Exec(acts), m, p)
  {
    var s := Exec(acts);
    ExecInv(acts);
    DecidedAtMostOnce(acts, RemediationApproved, m, p);
    DecisionsAtMostOverlap(acts, RemediationApproved, m, p, 1);
    EntitiesAtMostApprovals(s, m, p);
    forall i, j | 0 <= i < |s.created| && 0 <= j < |s.created| && ApprovalRow(s.log, s.created[i].decision, m, p)
                  && ApprovalRow(s.log, s.created[j].decision, m, p)
      ensures i == j
    {
      assert s.created[i] in s.created && s.created[j] in s.created;
      SameElement(EntityDecisions(s, m, p), s.created[i].decision, s.created[j].decision);
    }
  }

  // ---------- the bound is reached: overlapping requests do write several rows ----------

  const SAMPLE := Proposal(MilestoneTarget, "Split the release checklist", None, None)
  const ROW := Event(0, 0, RemediationProposed, Proposed(Some(SAMPLE)), 1)

  function StartOf(kind: Kind, h: nat): Action {
    if kind == RemediationApproved then StartApprove(h, 0, 0) else StartDismiss(h, 0, 0)
  }

  function InsertOf(kind: Kind, h: nat): Action {
    if kind == RemediationApproved then InsertApproval(h, h + 1, 1) else InsertDismissal(h, h + 1, 1, None)
  }

  function RowOf(kind: Kind, h: nat): Event {
    var payload := if kind == RemediationApproved then PendingApproval(0, MilestoneTarget) else Dismissal(0, None);
    Event(h + 1, 0, kind, payload, 1)
  }

  /** `starts` requests get past their check before `inserts` of them write their row. */
  function Burst(kind: Kind, starts: nat, inserts: nat): seq<Action> {
    if inserts > 0 then Burst(kind, starts, inserts - 1) + [InsertOf(kind, inserts - 1)]
    else if starts > 0 then Burst(kind, starts - 1, 0) + [StartOf(kind, starts - 1)]
    else [RecordEvent(ROW)]
  }

  function Waiter(kind: Kind): Handler {
    if kind == RemediationApproved then ApproveChecked(0, 0, Some(SAMPLE)) else DismissChecked(0, 0)
  }

  ghost predicate BurstState(s: State, kind: Kind, starts: nat, inserts: nat) {
    && inserts <= starts
    && |s.log| == inserts + 1
    && s.log[0] == ROW
    && (forall i :: 1 <= i <= inserts ==> s.log[i] == RowOf(kind, i - 1))
    && (forall h :: h in s.handlers ==> h < starts)
    && (forall h :: inserts <= h < starts ==> h in s.handlers && s.handlers[h] == Waiter(kind))
  }

  lemma BurstStart(s: State, kind: Kind, starts: nat)
    requires DecisionKind(kind) && BurstState(s, kind, starts, 0)
    ensures BurstState(Next(s, StartOf(kind, starts)), kind, starts + 1, 0)
  {
    assert FindProposal(s.log, 0, 0) == Some(s.log[0]);
  }

  lemma BurstInsert(s: State, kind: Kind, starts: nat, inserts: nat)
    requires DecisionKind(kind) && BurstState(s, kind, starts, inserts) && inserts < starts
    ensures BurstState(Next(s, InsertOf(kind, inserts)), kind, starts, inserts + 1)
  {
    forall e | e in s.log ensures e.id != inserts + 1 {
      var i :| 0 <= i < |s.log| && s.log[i] == e;
    }
    var t := Next(s, InsertOf(kind, inserts));
    assert t.log == s.log + [RowOf(kind, inserts)];
  }

  lemma OverlapExtends(acts: seq<Action>, kind: Kind, m: Id, p: Id, k: nat)
    requires acts != [] && OverlapAtMost(acts[..|acts| - 1], kind, m, p, k)
    requires |Overlapping(Exec(acts), kind, m, p)| <= k
    ensures OverlapAtMost(acts, kind, m, p, k)
  {
    assert acts[..|acts|] == acts;
    forall n: nat | n <= |acts| ensures OverlapWithin(acts, n, kind, m, p, k) {
      if n < |acts| { OverlapInFront(acts, n, kind, m, p, k); }
    }
  }

  lemma NoOverlapAtStart(kind: Kind, m: Id, p: Id, k: nat)
    ensures OverlapAtMost([], kind, m, p, k)
  {
    var none: seq<Action> := [];
    forall n: nat | n <= |none| ensures OverlapWithin(none, n, kind, m, p, k) {
      assert none[..n] == [];
      assert Overlapping(EMPTY, kind, m, p) == {};
    }
  }

  lemma {:induction false} BurstReaches(kind: Kind, k: nat, starts: nat, inserts: nat)
    requires DecisionKind(kind) && inserts <= starts <= k && (inserts > 0 ==> starts == k)
    ensures BurstState(Exec(Burst(kind, starts, inserts)), kind, starts, inserts)
    ensures OverlapAtMost(Burst(kind, starts, inserts), kind, 0, 0, k)
    decreases starts, inserts
  {
    var acts := Burst(kind, starts, inserts);
    var front := acts[..|acts| - 1];
    if inserts > 0 {
      assert front == Burst(kind, starts, inserts - 1);
      BurstReaches(kind, k, starts, inserts - 1);
      BurstInsert(Exec(front), kind, starts, inserts - 1);
    } else if starts > 0 {
      assert front == Burst(kind, starts - 1, 0);
      BurstReaches(kind, k, starts - 1, 0);
      BurstStart(Exec(front), kind, starts - 1);
    } else {
      assert front == [];
      NoOverlapAtStart(kind, 0, 0, k);
    }
    RangeSize(Overlapping(Exec(acts), kind, 0, 0), starts);
    OverlapExtends(acts, kind, 0, 0, k);
  }

  function FirstIds(n: nat): set<Id> {
    if n == 0 then {} else FirstIds(n - 1) + {n}
  }

  lemma {:induction false} FirstIdsSpec(n: nat)
    ensures |FirstIds(n)| == n && forall i :: i in FirstIds(n) ==> 1 <= i <= n
  {
    if n > 0 { FirstIdsSpec(n - 1); }
  }

  lemma BurstDecisions(s: State, kind: Kind, starts: nat, n: nat)
    requires DecisionKind(kind) && BurstState(s, kind, starts, n)
    ensures |Decisions(s.log, kind, 0, 0)| >= n
  {
    FirstIdsSpec(n);
    forall i | i in FirstIds(n) ensures i in Decisions(s.log, kind, 0, 0) { RowIsDecision(s.log, i, kind, 0, 0); }
    SubsetSize(FirstIds(n), Decisions(s.log, kind, 0, 0));
  }

  ghost predicate WritesAll(acts: seq<Action>, kind: Kind, k: nat) {
    OverlapAtMost(acts, kind, 0, 0, k) && |Decisions(Exec(acts).log, kind, 0, 0)| == k
  }

  /** The bound is reached for every overlap: there is a run whose `k` overlapping requests write `k` rows. */
  lemma BoundIsReached(kind: Kind, k: nat)
    requires DecisionKind(kind)
    ensures exists acts :: WritesAll(acts, kind, k)
  {
    var acts := Burst(kind, k, k);
    BurstReaches(kind, k, k, k);
    BurstDecisions(Exec(acts), kind, k, k);
    DecisionsAtMostOverlap(acts, kind, 0, 0, k);
    assert WritesAll(acts, kind, k);
  }

  /** An overlap bound guarantees at most one row of a kind if and only if it is at most one. */
  lemma AtMostOnceIffSerial(kind: Kind, k: nat)
    requires DecisionKind(kind)
    ensures (forall acts, m, p :: OverlapAtMost(acts, kind, m, p, k) ==> |Decisions(Exec(acts).log, kind, m, p)| <= 1)
       <==> k <= 1
  {
    if k <= 1 {
      forall acts, m, p | OverlapAtMost(acts, kind, m, p, k) ensures |Decisions(Exec(acts).log, kind, m, p)| <= 1 {
        DecisionsAtMostOverlap(acts, kind, m, p, k);
      }
    } else {
      BoundIsReached(kind, k);
    }
  }
}
