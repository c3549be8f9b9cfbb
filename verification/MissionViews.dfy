/**
  What clients see of the decision log: the proposal lists, the decision lookup that answers retries, and
  the approve handler run without interruption. The run theorems hold under any interleaving and any crash.
 */
module MissionViews {
  import opened Wrappers
  import opened MissionDecisions
  import opened MissionEntities
  import opened Missions
  import opened Sets

  datatype Status = PendingOnly | DismissedOnly | All

  predicate Pending(log: Log, m: Id, p: Id) {
    !HasDecision(log, RemediationDismissed, m, p) && !HasDecision(log, RemediationApproved, m, p)
  }

  predicate Listed(log: Log, m: Id, status: Status, e: Event) {
    match status
    case All => true
    case DismissedOnly => HasDecision(log, RemediationDismissed, m, e.id)
    case PendingOnly => Pending(log, m, e.id)
  }

  function ProposalRows(log: Log, m: Id): Log {
    if log == [] then []
    else (if log[0].mission == m && log[0].kind == RemediationProposed then [log[0]] else [])
          + ProposalRows(log[1..], m)
  }

  /** The rows of the follow-up query: every dismissal and approval of the mission. */
  function Followups(log: Log, m: Id): Log {
    if log == [] then []
    else (if log[0].mission == m && DecisionKind(log[0].kind) then [log[0]] else []) + Followups(log[1..], m)
  }

  /** One of the first `n` rows is a decision of the kind for the proposal. */
  predicate PointsAt(rows: Log, n: nat, kind: Kind, p: Id)
    requires n <= |rows|
  {
    exists j | 0 <= j < n :: rows[j].kind == kind && Ref(rows[j].payload) == Some(p)
  }

  lemma PointsAtNext(rows: Log, n: nat, kind: Kind, p: Id)
    requires n < |rows|
    ensures PointsAt(rows, n + 1, kind, p) <==>
              PointsAt(rows, n, kind, p) || (rows[n].kind == kind && Ref(rows[n].payload) == Some(p))
  {
  }

  lemma {:induction false} FollowupsSpec(log: Log, m: Id, e: Event)
    ensures e in Followups(log, m) <==>
      e in log && e.mission == m && DecisionKind(e.kind)
  {
    if log != [] {
      assert log == [log[0]] + log[1..];
      FollowupsSpec(log[1..], m, e);
    }
  }

  /** The proposal query gives the proposals of the mission, the stored ones that no longer parse included. */
  lemma {:induction false} ProposalRowsExactly(a: Log, b: Log, m: Id, e: Event)
    ensures ProposalRows(a + b, m) == ProposalRows(a, m) + ProposalRows(b, m)
    ensures ProposalRows([e], m) == if e.mission == m && e.kind == RemediationProposed then [e] else []
  {
    assert [e][1..] == [];
    if a == [] {
      assert a + b == b;
    } else {
      assert (a + b)[1..] == a[1..] + b;
      ProposalRowsExactly(a[1..], b, m, e);
    }
  }

  function Select(rows: Log, log: Log, m: Id, status: Status): Log {
    if rows == [] then []
    else Select(rows[..|rows| - 1], log, m, status)
          + (if Listed(log, m, status, rows[|rows| - 1]) then [rows[|rows| - 1]] else [])
  }

  datatype Reply =
    | NotFound
    | Idempotent(decision: Id)
    | Invalid
    | MaterialiseFailed(decision: Id)
    | Approved(decision: Id, entity: Entity)
    | Dismissed(decision: Id)

  class MissionDb {
    var log: Log
    var created: seq<Creation>

    constructor ()
      ensures log == [] && created == []
    {
      log := [];
      created := [];
    }

    /** The proposals list. `newestFirst` is the answer of the proposal query, in the order the database gave it. */
    method ListProposals(m: Id, status: Status, newestFirst: Log) returns (items: Log)
      requires multiset(newestFirst) == multiset(ProposalRows(log, m))
      ensures items == Select(newestFirst, log, m, status)
    {
      var followups := Followups(log, m);
      var dismissed, approved := Partition(followups);
      forall p
        ensures p in dismissed <==> HasDecision(log, RemediationDismissed, m, p)
        ensures p in approved <==> HasDecision(log, RemediationApproved, m, p)
      {
        FollowupsDecide(log, m, p, RemediationDismissed);
        FollowupsDecide(log, m, p, RemediationApproved);
      }
      items := [];
      for i := 0 to |newestFirst|
        invariant items == Select(newestFirst[..i], log, m, status)
      {
        assert newestFirst[..i + 1][..i] == newestFirst[..i];
        var p := newestFirst[i];
        var keep := match status
          case All => true
          case DismissedOnly => p.id in dismissed
          case PendingOnly => p.id !in dismissed && p.id !in approved;
        if keep { items := items + [p]; }
      }
      assert newestFirst[..|newestFirst|] == newestFirst;
    }

    /** The loop that sorts the follow-up rows into the two sets. */
    static method Partition(followups: Log) returns (dismissed: set<Id>, approved: set<Id>)
      ensures forall p :: p in dismissed <==> PointsAt(followups, |followups|, RemediationDismissed, p)
      ensures forall p :: p in approved <==> PointsAt(followups, |followups|, RemediationApproved, p)
    {
      dismissed, approved := {}, {};
      for i := 0 to |followups|
        invariant forall p :: p in dismissed <==> PointsAt(followups, i, RemediationDismissed, p)
        invariant forall p :: p in approved <==> PointsAt(followups, i, RemediationApproved, p)
      {
        var f := followups[i];
        forall kind, p { PointsAtNext(followups, i, kind, p); }
        if Ref(f.payload).None? { continue; }
        if f.kind == RemediationDismissed { dismissed := dismissed + {Ref(f.payload).value}; }
        else if f.kind == RemediationApproved { approved := approved + {Ref(f.payload).value}; }
      }
    }

    /** The earliest decision of that kind; rows created in the same second may come in either order. */
    method FindExistingDecisionId(m: Id, p: Id, kind: Kind) returns (id: Option<Id>)
      ensures id.None? <==> !HasDecision(log, kind, m, p)
      ensures id.None? <==>
        forall e :: e in log ==> !(e.mission == m && e.kind == kind && Ref(e.payload) == Some(p))
      ensures id.Some? ==> IsFirstDecision(log, kind, m, p, id.value)
    {
      if !HasDecision(log, kind, m, p) { return None; }
      EarliestExists(log, kind, m, p);
      var e :| e in log && Earliest(log, kind, m, p, e);
      return Some(e.id);
    }

    /**
     * One approve request handled without interruption, with a fresh row id, the clock and the plan store's answers.
     */
    method Approve(m: Id, p: Id, id: Id, at: nat, hasPath: bool, parent: Option<string>, slug: Option<string>)
      returns (reply: Reply)
      requires FreshId(log, id)
      modifies this
      ensures State(log, created, map[]) ==
                ApproveWhole(State(old(log), old(created), map[]), m, p, id, at, hasPath, parent, slug)
      ensures reply.NotFound? <==> FindProposal(old(log), m, p).None?
      ensures reply.NotFound? <==>
        forall e :: e in old(log) ==> !(e.mission == m && e.id == p && e.kind == RemediationProposed)
      ensures reply.Idempotent? ==> IsFirstDecision(old(log), RemediationApproved, m, p, reply.decision)
      ensures reply.Idempotent? <==> !reply.NotFound? && HasDecision(old(log), RemediationApproved, m, p)
      ensures reply.NotFound? || reply.Idempotent? || reply.Invalid? ==> log == old(log) && created == old(created)
      ensures reply.MaterialiseFailed? || reply.Approved? ==> reply.decision == id
      ensures !reply.NotFound? && !reply.Idempotent? ==>
        var stored := StoredProposal(FindProposal(old(log), m, p).value);
        && (reply.Invalid? <==> stored.None? || !hasPath)
        && (reply.MaterialiseFailed? ==> CannotBuild(stored.value, parent, slug))
        && (reply.Approved? ==> BuiltFrom(stored.value, parent, slug, reply.entity))
      ensures reply.MaterialiseFailed? ==> created == old(created)
      ensures reply.MaterialiseFailed? ==>
        var t := StoredProposal(FindProposal(old(log), m, p).value).value.target;
        log == old(log) + [Event(id, m, RemediationApproved, PendingApproval(p, t), at)]
      ensures reply.Approved? ==> created == old(created) + [Creation(id, reply.entity)]
      ensures reply.Approved? ==>
        var t := StoredProposal(FindProposal(old(log), m, p).value).value.target;
        log == old(log) + [Event(id, m, RemediationApproved, FinalApproval(p, t, reply.entity), at)]
    {
      var row := FindProposal(log, m, p);
      FindProposalIn(log, m, p);
      ApproveWholeIs(log, created, m, p, id, at, hasPath, parent, slug);
      if row.None? { return NotFound; }
      var existing := FindExistingDecisionId(m, p, RemediationApproved);
      if existing.Some? { return Idempotent(existing.value); }
      var stored := StoredProposal(row.value);
      if stored.None? || !hasPath { return Invalid; }
      var proposal := stored.value;
      log := log + [Event(id, m, RemediationApproved, PendingApproval(p, proposal.target), at)];
      var made := CreateEntity(proposal, parent, slug);
      if made.None? { return MaterialiseFailed(id); }
      created := created + [Creation(id, made.value)];
      SetLast(old(log), log[|log| - 1], FinalApproval(p, proposal.target, made.value));
      log := SetPayload(log, id, FinalApproval(p, proposal.target, made.value));
      return Approved(id, made.value);
    }

    /** One dismiss request handled without interruption; `valid` says that its body is. */
    method Dismiss(m: Id, p: Id, id: Id, at: nat, valid: bool, reason: Option<string>) returns (reply: Reply)
      requires FreshId(log, id)
      modifies this
      ensures State(log, created, map[]) ==
                DismissWhole(State(old(log), old(created), map[]), m, p, id, at, valid, reason)
      ensures reply.NotFound? <==> FindProposal(old(log), m, p).None?
      ensures reply.NotFound? <==>
        forall e :: e in old(log) ==> !(e.mission == m && e.id == p && e.kind == RemediationProposed)
      ensures reply.Idempotent? <==> !reply.NotFound? && HasDecision(old(log), RemediationDismissed, m, p)
      ensures reply.Idempotent? ==> IsFirstDecision(old(log), RemediationDismissed, m, p, reply.decision)
      ensures reply.Invalid? <==> !reply.NotFound? && !reply.Idempotent? && !valid
      ensures reply.NotFound? || reply.Idempotent? || reply.Invalid? || reply == Dismissed(id)
      ensures log == old(log) + if reply != Dismissed(id) then []
                                else [Event(id, m, RemediationDismissed, Dismissal(p, reason), at)]
      ensures created == old(created)
    {
      FindProposalIn(log, m, p);
      if FindProposal(log, m, p).None? { return NotFound; }
      var existing := FindExistingDecisionId(m, p, RemediationDismissed);
      if existing.Some? { return Idempotent(existing.value); }
      if !valid { return Invalid; }
      log := log + [Event(id, m, RemediationDismissed, Dismissal(p, reason), at)];
      return Dismissed(id);
    }
  }

  /** A dismiss request as steps of the interleaving model, run back to back. */
  function DismissWhole(s: State, m: Id, p: Id, id: Id, at: nat, valid: bool, reason: Option<string>): State {
    var s1 := Next(s, StartDismiss(0, m, p));
    if 0 !in s1.handlers then s1
    else if !valid then Next(s1, RejectDismiss(0))
    else Next(s1, InsertDismissal(0, id, at, reason))
  }

  /** The same request as steps of the interleaving model, run back to back. */
  function ApproveWhole(s: State, m: Id, p: Id, id: Id, at: nat, hasPath: bool, parent: Option<string>,
        slug: Option<string>): State {
    var s1 := Next(s, StartApprove(0, m, p));
    if 0 !in s1.handlers then s1
    else if !hasPath || !s1.handlers[0].ApproveChecked? || s1.handlers[0].stored.None? then Next(s1, RejectApprove(0))
    else
      var s3 := Next(Next(s1, InsertApproval(0, id, at)), Materialise(0, parent, slug));
      Next(s3, Finalise(0))
  }

  /** What those steps come to. */
  function ApproveOutcome(log: Log, created: seq<Creation>, m: Id, p: Id, id: Id, at: nat, pr: Proposal,
        parent: Option<string>, slug: Option<string>): State {
    match CreateEntity(pr, parent, slug)
    case None => State(log + [Event(id, m, RemediationApproved, PendingApproval(p, pr.target), at)], created, map[])
    case Some(e) => State(log + [Event(id, m, RemediationApproved, FinalApproval(p, pr.target, e), at)],
                          created + [Creation(id, e)], map[])
  }

  lemma MaterialiseWhole(log: Log, created: seq<Creation>, m: Id, p: Id, id: Id, at: nat, pr: Proposal,
        parent: Option<string>, slug: Option<string>)
    requires FreshId(log, id)
    ensures var row := Event(id, m, RemediationApproved, PendingApproval(p, pr.target), at);
            var s := State(log + [row], created, map[0 := ApproveInserted(m, p, id, pr)]);
            Next(Next(s, Materialise(0, parent, slug)), Finalise(0))
            == ApproveOutcome(log, created, m, p, id, at, pr, parent, slug)
  {
    var row := Event(id, m, RemediationApproved, PendingApproval(p, pr.target), at);
    var s := State(log + [row], created, map[0 := ApproveInserted(m, p, id, pr)]);
    var t := Next(s, Materialise(0, parent, slug));
    var made := CreateEntity(pr, parent, slug);
    if made.Some? {
      assert t.handlers == map[0 := ApproveCreated(m, p, id, pr, made.value)];
      SetLast(log, row, FinalApproval(p, pr.target, made.value));
      assert t.handlers - {0} == map[];
    } else {
      assert t.handlers == map[];
    }
  }

  lemma ApproveWholeIs(log: Log, created: seq<Creation>, m: Id, p: Id, id: Id, at: nat, hasPath: bool,
        parent: Option<string>, slug: Option<string>)
    requires FreshId(log, id)
    ensures var s := State(log, created, map[]);
            var row := FindProposal(log, m, p);
            ApproveWhole(s, m, p, id, at, hasPath, parent, slug) ==
              if row.None? || HasDecision(log, RemediationApproved, m, p) then s
              else if StoredProposal(row.value).None? || !hasPath then s
              else ApproveOutcome(log, created, m, p, id, at, StoredProposal(row.value).value, parent, slug)
  {
    var s := State(log, created, map[]);
    var s1 := Next(s, StartApprove(0, m, p));
    if 0 in s1.handlers {
      var stored := StoredProposal(FindProposal(log, m, p).value);
      assert s1.handlers == map[0 := ApproveChecked(m, p, stored)];
      if hasPath && stored.Some? {
        var s2 := Next(s1, InsertApproval(0, id, at));
        assert s2.handlers == map[0 := ApproveInserted(m, p, id, stored.value)];
        MaterialiseWhole(log, created, m, p, id, at, stored.value, parent, slug);
      } else {
        assert s1.handlers - {0} == map[];
      }
    }
  }

  lemma ApproveWholeWrites(s: State, m: Id, p: Id, id: Id, at: nat, parent: Option<string>, slug: Option<string>)
    requires s.handlers == map[] && FreshId(s.log, id) && !HasDecision(s.log, RemediationApproved, m, p)
    requires FindProposal(s.log, m, p).Some? && StoredProposal(FindProposal(s.log, m, p).value).Some?
    ensures var t := ApproveWhole(s, m, p, id, at, true, parent, slug);
      t.handlers == map[] && exists e :: t.log == s.log + [e] && e.id == id && Decides(e, RemediationApproved, m, p)
  {
    ApproveWholeIs(s.log, s.created, m, p, id, at, true, parent, slug);
    assert s == State(s.log, s.created, map[]);
    var t := ApproveWhole(s, m, p, id, at, true, parent, slug);
    var e := t.log[|s.log|];
    assert t.log == s.log + [e] && e.id == id && Decides(e, RemediationApproved, m, p);
  }

  /**
   * Once an approve request has written its row, a retry answers that row's id and changes nothing, whether or not
   * the entity was created.
   */
  lemma RetryChangesNothing(s: State, m: Id, p: Id, id: Id, at: nat, parent: Option<string>, slug: Option<string>,
                            id': Id, at': nat, hasPath': bool, parent': Option<string>, slug': Option<string>)
    requires s.handlers == map[] && FreshId(s.log, id) && !HasDecision(s.log, RemediationApproved, m, p)
    requires FindProposal(s.log, m, p).Some? && StoredProposal(FindProposal(s.log, m, p).value).Some?
    ensures var t := ApproveWhole(s, m, p, id, at, true, parent, slug);
      IsFirstDecision(t.log, RemediationApproved, m, p, id)
      && ApproveWhole(t, m, p, id', at', hasPath', parent', slug') == t
  {
    var t := ApproveWhole(s, m, p, id, at, true, parent, slug);
    ApproveWholeWrites(s, m, p, id, at, parent, slug);
    var e :| t.log == s.log + [e] && e.id == id && Decides(e, RemediationApproved, m, p);
    assert Earliest(t.log, RemediationApproved, m, p, e);
  }

  lemma {:induction false} EarliestExists(log: Log, kind: Kind, m: Id, p: Id)
    requires HasDecision(log, kind, m, p)
    ensures exists e :: Earliest(log, kind, m, p, e)
  {
    var front, last := log[..|log| - 1], log[|log| - 1];
    assert log == front + [last];
    if HasDecision(front, kind, m, p) {
      EarliestExists(front, kind, m, p);
      var e :| Earliest(front, kind, m, p, e);
      assert Earliest(log, kind, m, p, if Decides(last, kind, m, p) && last.createdAt < e.createdAt then last else e);
    } else {
      assert Earliest(log, kind, m, p, last);
    }
  }

  lemma FollowupsDecide(log: Log, m: Id, p: Id, kind: Kind)
    requires DecisionKind(kind)
    ensures HasDecision(log, kind, m, p) <==> PointsAt(Followups(log, m), |Followups(log, m)|, kind, p)
  {
    var fs := Followups(log, m);
    if HasDecision(log, kind, m, p) {
      var e :| e in log && Decides(e, kind, m, p);
      FollowupsSpec(log, m, e);
      var j :| 0 <= j < |fs| && fs[j] == e;
    }
    if PointsAt(fs, |fs|, kind, p) {
      var j :| 0 <= j < |fs| && fs[j].kind == kind && Ref(fs[j].payload) == Some(p);
      FollowupsSpec(log, m, fs[j]);
      assert Decides(fs[j], kind, m, p);
    }
  }

  // ---------- runs ----------

  /** From any moment of a run on, rows keep their place, id, kind, time and the proposal they point at. */
  lemma {:induction false} RunGrows(acts: seq<Action>, n: nat)
    requires n <= |acts|
    ensures LogGrows(Exec(acts[..n]).log, Exec(acts).log)
  {
    if n == |acts| {
      assert acts[..n] == acts;
    } else {
      var front, a := acts[..|acts| - 1], acts[|acts| - 1];
      assert front[..n] == acts[..n];
      RunGrows(front, n);
      ExecInv(front);
      if Enabled(Exec(front), a) { StepLog(Exec(front), a); }
    }
  }

  lemma GrowKeepsDecision(a: Log, b: Log, kind: Kind, m: Id, p: Id)
    requires LogGrows(a, b) && HasDecision(a, kind, m, p)
    ensures HasDecision(b, kind, m, p)
  {
    var e :| e in a && Decides(e, kind, m, p);
    var i :| 0 <= i < |a| && a[i] == e;
    assert b[i] in b && Decides(b[i], kind, m, p);
  }

  /** A proposal that has left the pending list never returns to it, whatever interleaves or crashes. */
  lemma NeverPendingAgain(acts: seq<Action>, n: nat, m: Id, p: Id)
    requires n <= |acts| && !Pending(Exec(acts[..n]).log, m, p)
    ensures !Pending(Exec(acts).log, m, p)
  {
    RunGrows(acts, n);
    var a, b := Exec(acts[..n]).log, Exec(acts).log;
    if HasDecision(a, RemediationDismissed, m, p) { GrowKeepsDecision(a, b, RemediationDismissed, m, p); }
    else { GrowKeepsDecision(a, b, RemediationApproved, m, p); }
  }

  // ---------- decisions over a run ----------

  /** Step `i` of the run writes a decision row of a kind for the proposal. */
  ghost predicate WrittenAt(acts: seq<Action>, i: nat, kind: Kind, m: Id, p: Id) {
    i < |acts| && Writes(Exec(acts[..i]), acts[i], kind, m, p)
  }

  /** Step `i` of the run writes a decision row of either kind. */
  ghost predicate DecidedAt(acts: seq<Action>, i: nat, m: Id, p: Id) {
    WrittenAt(acts, i, RemediationApproved, m, p) || WrittenAt(acts, i, RemediationDismissed, m, p)
  }

  /** Id and time of the rows written from step `n` on. */
  ghost function WrittenSince(acts: seq<Action>, n: nat, kind: Kind, m: Id, p: Id): set<(Id, nat)> {
    set i | n <= i < |acts| && WrittenAt(acts, i, kind, m, p) :: (acts[i].id, acts[i].at)
  }

  lemma WrittenInFront(acts: seq<Action>, i: nat, kind: Kind, m: Id, p: Id)
    requires i < |acts| - 1
    ensures WrittenAt(acts[..|acts| - 1], i, kind, m, p) == WrittenAt(acts, i, kind, m, p)
  {
    assert acts[..|acts| - 1][..i] == acts[..i];
  }

  ghost function LastWritten(acts: seq<Action>, kind: Kind, m: Id, p: Id): set<(Id, nat)>
    requires acts != []
  {
    var front, a := acts[..|acts| - 1], acts[|acts| - 1];
    if Writes(Exec(front), a, kind, m, p) then {(a.id, a.at)} else {}
  }

  lemma WrittenEarlier(acts: seq<Action>, n: nat, kind: Kind, m: Id, p: Id, x: (Id, nat))
    requires acts != [] && x in WrittenSince(acts[..|acts| - 1], n, kind, m, p)
    ensures x in WrittenSince(acts, n, kind, m, p)
  {
    var front := acts[..|acts| - 1];
    var i :| n <= i < |front| && WrittenAt(front, i, kind, m, p) && (front[i].id, front[i].at) == x;
    WrittenInFront(acts, i, kind, m, p);
  }

  lemma LastIsWritten(acts: seq<Action>, n: nat, kind: Kind, m: Id, p: Id)
    requires n < |acts|
    ensures LastWritten(acts, kind, m, p) <= WrittenSince(acts, n, kind, m, p)
    ensures WrittenAt(acts, |acts| - 1, kind, m, p) <==> LastWritten(acts, kind, m, p) != {}
  {
    assert WrittenAt(acts, |acts| - 1, kind, m, p) == Writes(Exec(acts[..|acts| - 1]), acts[|acts| - 1], kind, m, p);
  }

  lemma WrittenSinceLast(acts: seq<Action>, n: nat, kind: Kind, m: Id, p: Id)
    requires n < |acts|
    ensures WrittenSince(acts, n, kind, m, p) == WrittenSince(acts[..|acts| - 1], n, kind, m, p)
              + LastWritten(acts, kind, m, p)
  {
    var front := acts[..|acts| - 1];
    LastIsWritten(acts, n, kind, m, p);
    forall x | x in WrittenSince(front, n, kind, m, p) ensures x in WrittenSince(acts, n, kind, m, p) {
      WrittenEarlier(acts, n, kind, m, p, x);
    }
    forall x | x in WrittenSince(acts, n, kind, m, p)
      ensures x in WrittenSince(front, n, kind, m, p) || x in LastWritten(acts, kind, m, p)
    {
      var i :| n <= i < |acts| && WrittenAt(acts, i, kind, m, p) && (acts[i].id, acts[i].at) == x;
      if i < |front| { WrittenInFront(acts, i, kind, m, p); }
    }
  }

  /** The decision rows of a proposal are those it had, and those the run has written since, with their times. */
  lemma {:induction false} RunStamps(acts: seq<Action>, n: nat, kind: Kind, m: Id, p: Id)
    requires n <= |acts| && DecisionKind(kind)
    ensures Stamps(Exec(acts).log, kind, m, p)
         == Stamps(Exec(acts[..n]).log, kind, m, p) + WrittenSince(acts, n, kind, m, p)
  {
    if n == |acts| {
      assert acts[..n] == acts;
    } else {
      var front, a := acts[..|acts| - 1], acts[|acts| - 1];
      assert front[..n] == acts[..n];
      RunStamps(front, n, kind, m, p);
      WrittenSinceLast(acts, n, kind, m, p);
      ExecInv(front);
      if Enabled(Exec(front), a) { StepStamps(Exec(front), a, kind, m, p); }
    }
  }

  ghost predicate EverWritten(acts: seq<Action>, kind: Kind, m: Id, p: Id) {
    exists i: nat | i < |acts| :: WrittenAt(acts, i, kind, m, p)
  }

  /** A proposal has a decision of a kind exactly when some step of the run wrote one. */
  lemma DecidedIffWritten(acts: seq<Action>, kind: Kind, m: Id, p: Id)
    requires DecisionKind(kind)
    ensures HasDecision(Exec(acts).log, kind, m, p) <==> EverWritten(acts, kind, m, p)
  {
    RunStamps(acts, 0, kind, m, p);
    HasDecisionIff(Exec(acts).log, kind, m, p);
    assert acts[..0] == [] && Stamps(EMPTY.log, kind, m, p) == {};
    if EverWritten(acts, kind, m, p) {
      var i: nat :| i < |acts| && WrittenAt(acts, i, kind, m, p);
      assert (acts[i].id, acts[i].at) in WrittenSince(acts, 0, kind, m, p);
    }
  }

  /** The pending list is exactly the proposals on whose behalf no decision row was ever written. */
  lemma PendingIffUndecided(acts: seq<Action>, m: Id, p: Id)
    ensures Pending(Exec(acts).log, m, p) <==> forall i: nat | i < |acts| :: !DecidedAt(acts, i, m, p)
  {
    DecidedIffWritten(acts, RemediationApproved, m, p);
    DecidedIffWritten(acts, RemediationDismissed, m, p);
    EverDecidedIff(acts, m, p);
  }

  lemma EverDecidedIff(acts: seq<Action>, m: Id, p: Id)
    ensures EverWritten(acts, RemediationApproved, m, p) || EverWritten(acts, RemediationDismissed, m, p)
       <==> exists i: nat | i < |acts| :: DecidedAt(acts, i, m, p)
  {
    forall kind | DecisionKind(kind) && EverWritten(acts, kind, m, p)
      ensures exists i: nat | i < |acts| :: DecidedAt(acts, i, m, p)
    {
      var i: nat :| i < |acts| && WrittenAt(acts, i, kind, m, p);
      assert DecidedAt(acts, i, m, p);
    }
  }

  // ---------- decided both ways ----------

  ghost predicate BothDecided(s: State, m: Id, p: Id) {
    HasDecision(s.log, RemediationDismissed, m, p) && HasDecision(s.log, RemediationApproved, m, p)
  }

  function OtherKindOf(kind: Kind): Kind {
    if kind == RemediationApproved then RemediationDismissed else RemediationApproved
  }

  /** Step `i` writes a decision for a proposal that already has one of the other kind: the guard the handlers lack. */
  ghost predicate Crosses(acts: seq<Action>, i: nat, kind: Kind, m: Id, p: Id) {
    WrittenAt(acts, i, kind, m, p) && HasDecision(Exec(acts[..i]).log, OtherKindOf(kind), m, p)
  }

  ghost predicate NeverCrosses(acts: seq<Action>, m: Id, p: Id) {
    forall i: nat, kind | i < |acts| && DecisionKind(kind) :: !Crosses(acts, i, kind, m, p)
  }

  lemma StepBothDecided(s: State, a: Action, m: Id, p: Id)
    requires Inv(s)
    ensures BothDecided(Next(s, a), m, p) <==>
              || BothDecided(s, m, p)
              || (Writes(s, a, RemediationApproved, m, p) && HasDecision(s.log, RemediationDismissed, m, p))
              || (Writes(s, a, RemediationDismissed, m, p) && HasDecision(s.log, RemediationApproved, m, p))
  {
    forall kind | DecisionKind(kind)
      ensures HasDecision(Next(s, a).log, kind, m, p) <==> HasDecision(s.log, kind, m, p) || Writes(s, a, kind, m, p)
    {
      HasDecisionIff(s.log, kind, m, p);
      HasDecisionIff(Next(s, a).log, kind, m, p);
      if Enabled(s, a) { StepStamps(s, a, kind, m, p); }
    }
  }

  lemma NeverCrossesLast(acts: seq<Action>, m: Id, p: Id)
    requires acts != []
    ensures var front := acts[..|acts| - 1];
            NeverCrosses(acts, m, p) <==>
              NeverCrosses(front, m, p) && forall kind | DecisionKind(kind) :: !Crosses(acts, |front|, kind, m, p)
  {
    var front := acts[..|acts| - 1];
    forall i: nat, kind | i < |front| ensures Crosses(front, i, kind, m, p) == Crosses(acts, i, kind, m, p) {
      WrittenInFront(acts, i, kind, m, p);
      assert front[..i] == acts[..i];
    }
  }

  /**
   * A proposal is never decided both ways if and only if no step writes a decision for it while it has one of the
   * other kind. Neither handler checks that.
   */
  lemma {:induction false} NeverBothIffNeverCrosses(acts: seq<Action>, m: Id, p: Id)
    ensures !BothDecided(Exec(acts), m, p) <==> NeverCrosses(acts, m, p)
  {
    if acts != [] {
      var front, a := acts[..|acts| - 1], acts[|acts| - 1];
      NeverBothIffNeverCrosses(front, m, p);
      NeverCrossesLast(acts, m, p);
      ExecInv(front);
      StepBothDecided(Exec(front), a, m, p);
      assert acts[..|front|] == front;
      assert Crosses(acts, |front|, RemediationApproved, m, p) <==>
        Writes(Exec(front), a, RemediationApproved, m, p) && HasDecision(Exec(front).log, RemediationDismissed, m, p);
      assert Crosses(acts, |front|, RemediationDismissed, m, p) <==>
        Writes(Exec(front), a, RemediationDismissed, m, p) && HasDecision(Exec(front).log, RemediationApproved, m, p);
    }
  }

  /**
   * Every listed row is shown once by its status: pending and dismissed lists share nothing, and what is in neither
   * has been approved.
   */
  lemma {:induction false} ListsPartition(rows: Log, log: Log, m: Id)
    ensures forall e :: e in rows <==> e in Select(rows, log, m, All)
    ensures forall e :: !(e in Select(rows, log, m, PendingOnly) && e in Select(rows, log, m, DismissedOnly))
    ensures forall e | e in rows && e !in Select(rows, log, m, PendingOnly) ::
              e !in Select(rows, log, m, DismissedOnly) ==> HasDecision(log, RemediationApproved, m, e.id)
    ensures forall e :: e in Select(rows, log, m, PendingOnly) ==> Pending(log, m, e.id)
    ensures forall e :: e in Select(rows, log, m, DismissedOnly) ==> !Pending(log, m, e.id)
  {
    if rows != [] {
      ListsPartition(rows[..|rows| - 1], log, m);
      assert rows == rows[..|rows| - 1] + [rows[|rows| - 1]];
    }
  }

  /** A proposal is in a list exactly when it is among the rows and its decisions are those the list is for. */
  lemma {:induction false} ListedExactly(rows: Log, log: Log, m: Id, e: Event)
    ensures e in Select(rows, log, m, All) <==> e in rows
    ensures e in Select(rows, log, m, DismissedOnly) <==> e in rows && HasDecision(log, RemediationDismissed, m, e.id)
    ensures e in Select(rows, log, m, PendingOnly) <==>
      e in rows && !HasDecision(log, RemediationDismissed, m, e.id) && !HasDecision(log, RemediationApproved, m, e.id)
  {
    if rows != [] {
      ListedExactly(rows[..|rows| - 1], log, m, e);
      assert rows == rows[..|rows| - 1] + [rows[|rows| - 1]];
    }
  }

  /** A list keeps the order of the rows: it is made of what its front and its back give. */
  lemma {:induction false} ListsKeepOrder(a: Log, b: Log, log: Log, m: Id, status: Status)
    ensures Select(a + b, log, m, status) == Select(a, log, m, status) + Select(b, log, m, status)
    ensures |Select(a, log, m, status)| <= |a|
    decreases |a| + |b|
  {
    if b == [] {
      assert a + b == a;
      if a != [] { ListsKeepOrder(a[..|a| - 1], [], log, m, status); }
    } else {
      ListsKeepOrder(a, b[..|b| - 1], log, m, status);
      assert (a + b)[..|a + b| - 1] == a + b[..|b| - 1];
    }
  }

  // ---------- a run in which both happen ----------

  const DISMISSAL := Event(1, 0, RemediationDismissed, Dismissal(0, None), 1)
  const APPROVAL := Event(2, 0, RemediationApproved, PendingApproval(0, MilestoneTarget), 1)

  function DismissThenApprove(n: nat): (acts: seq<Action>)
    ensures |acts| == n
  {
    if n == 0 then [] else DismissThenApprove(n - 1) + [NthAction(n)]
  }

  function NthAction(n: nat): Action {
    if n == 1 then RecordEvent(ROW)
    else if n == 2 then StartDismiss(0, 0, 0)
    else if n == 3 then InsertDismissal(0, 1, 1, None)
    else if n == 4 then StartApprove(0, 0, 0)
    else InsertApproval(0, 2, 1)
  }

  function NthState(n: nat): State {
    if n == 0 then EMPTY
    else if n == 1 then State([ROW], [], map[])
    else if n == 2 then State([ROW], [], map[0 := DismissChecked(0, 0)])
    else if n == 3 then State([ROW, DISMISSAL], [], map[])
    else if n == 4 then State([ROW, DISMISSAL], [], map[0 := ApproveChecked(0, 0, Some(SAMPLE))])
    else State([ROW, DISMISSAL, APPROVAL], [], map[0 := ApproveInserted(0, 0, 2, SAMPLE)])
  }

  lemma NthStep(n: nat, kind: Kind)
    requires 1 <= n <= 5
    ensures Next(NthState(n - 1), NthAction(n)) == NthState(n)
    ensures |Overlapping(NthState(n), kind, 0, 0)| <= 1
  {
    var s := NthState(n - 1);
    assert n >= 2 ==> FindProposal(s.log, 0, 0) == Some(ROW);
    assert n == 3 ==> s.handlers - {0} == map[];
    assert n == 4 ==> FindProposal(s.log, 0, 0) == Some(ROW) && StoredProposal(ROW) == Some(SAMPLE);
    RangeSize(Overlapping(NthState(n), kind, 0, 0), 1);
  }

  lemma {:induction false} AfterDismissThenApprove(n: nat, kind: Kind)
    requires n <= 5
    ensures Exec(DismissThenApprove(n)) == NthState(n)
    ensures OverlapAtMost(DismissThenApprove(n), kind, 0, 0, 1)
  {
    if n == 0 {
      NoOverlapAtStart(kind, 0, 0, 1);
    } else {
      AfterDismissThenApprove(n - 1, kind);
      assert DismissThenApprove(n)[..n - 1] == DismissThenApprove(n - 1);
      NthStep(n, kind);
      OverlapExtends(DismissThenApprove(n), kind, 0, 0, 1);
    }
  }

  ghost predicate SerialButBoth(acts: seq<Action>) {
    (forall kind :: OverlapAtMost(acts, kind, 0, 0, 1)) && BothDecided(Exec(acts), 0, 0)
  }

  /** Even with all requests handled one after another a proposal can end up both dismissed and approved. */
  lemma DismissedMayStillBeApproved()
    ensures exists acts :: SerialButBoth(acts)
  {
    forall kind ensures OverlapAtMost(DismissThenApprove(5), kind, 0, 0, 1) { AfterDismissThenApprove(5, kind); }
    AfterDismissThenApprove(5, RemediationApproved);
    assert DISMISSAL in NthState(5).log && Decides(DISMISSAL, RemediationDismissed, 0, 0);
    assert APPROVAL in NthState(5).log && Decides(APPROVAL, RemediationApproved, 0, 0);
    assert SerialButBoth(DismissThenApprove(5));
  }
}
