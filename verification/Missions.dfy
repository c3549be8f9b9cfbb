/**
  Approving and dismissing remediation proposals. Decisions are rows of an append-only event log; an
  approval is inserted as a placeholder, then the plan entity is created, then the row is finalised. The
  handlers run as steps that interleave freely and may be cut off by a crash after any of them.
 */
module Missions {
  import opened Wrappers

  type Id = nat

  datatype TargetType = MilestoneTarget | SliceTarget | TaskTarget

  datatype Proposal = Proposal(target: TargetType, action: string, targetId: Option<string>, summary: Option<string>)

  /** The plan entity one approval created, with its parents. */
  datatype Entity = Entity(kind: TargetType, slug: string, milestone: Option<string>, slice: Option<string>)

  datatype Kind = RemediationProposed | RemediationApproved | RemediationDismissed | OtherKind

  /** `Proposed(None)` is a stored proposal that fails re-validation. */
  datatype Payload =
    | Proposed(proposal: Option<Proposal>)
    | PendingApproval(proposalId: Id, target: TargetType)
    | FinalApproval(proposalId: Id, target: TargetType, entity: Entity)
    | Dismissal(proposalId: Id, reason: Option<string>)
    | OtherPayload

  datatype Event = Event(id: Id, mission: Id, kind: Kind, payload: Payload, createdAt: nat)

  type Log = seq<Event>

  datatype Creation = Creation(decision: Id, entity: Entity)

  datatype Handler =
    | ApproveChecked(mission: Id, pid: Id, stored: Option<Proposal>)
    | ApproveInserted(mission: Id, pid: Id, decision: Id, proposal: Proposal)
    | ApproveCreated(mission: Id, pid: Id, decision: Id, proposal: Proposal, entity: Entity)
    | DismissChecked(mission: Id, pid: Id)

  /** `created` records every entity an approval ever put into the plan store. */
  datatype State = State(log: Log, created: seq<Creation>, handlers: map<nat, Handler>)

  const EMPTY := State([], [], map[])

  // ---------- queries ----------

  /** The proposal a decision row points at (`payload.proposal_event_id`). */
  function Ref(p: Payload): Option<Id> {
    match p
    case PendingApproval(pid, _) => Some(pid)
    case FinalApproval(pid, _, _) => Some(pid)
    case Dismissal(pid, _) => Some(pid)
    case _ => None
  }

  predicate Decides(e: Event, kind: Kind, mission: Id, pid: Id) {
    e.mission == mission && e.kind == kind && Ref(e.payload) == Some(pid)
  }

  predicate HasDecision(log: Log, kind: Kind, mission: Id, pid: Id) {
    exists e :: e in log && Decides(e, kind, mission, pid)
  }

  predicate Earliest(log: Log, kind: Kind, mission: Id, pid: Id, e: Event) {
    && e in log && Decides(e, kind, mission, pid)
    && forall f :: f in log && Decides(f, kind, mission, pid) ==> e.createdAt <= f.createdAt
  }

  /** `id` is an answer of the decision lookup: a matching row with the least `createdAt`. */
  ghost predicate IsFirstDecision(log: Log, kind: Kind, mission: Id, pid: Id, id: Id) {
    exists e :: Earliest(log, kind, mission, pid, e) && e.id == id
  }

  predicate IsProposal(e: Event, mission: Id, pid: Id) {
    e.mission == mission && e.id == pid && e.kind == RemediationProposed
  }

  function FindProposal(log: Log, mission: Id, pid: Id): Option<Event> {
    if log == [] then None
    else if IsProposal(log[0], mission, pid) then Some(log[0])
    else FindProposal(log[1..], mission, pid)
  }

  function StoredProposal(e: Event): Option<Proposal> {
    if e.payload.Proposed? then e.payload.proposal else None
  }

  /**
    The entity for an approved proposal. The plan store answers `parent` to the search for the milestone of
    a slice and `slug` for the entity it wrote; `None` stands for not found, or for a creator that threw.
   */
  function CreateEntity(p: Proposal, parent: Option<string>, slug: Option<string>): Option<Entity> {
    match p.target
    case MilestoneTarget =>
      if slug.None? then None else Some(Entity(MilestoneTarget, slug.value, None, None))
    case SliceTarget =>
      if p.targetId.None? || slug.None? then None else Some(Entity(SliceTarget, slug.value, p.targetId, None))
    case TaskTarget =>
      if p.targetId.None? || parent.None? || slug.None? then None
      else Some(Entity(TaskTarget, slug.value, parent, p.targetId))
  }

  function SetPayload(log: Log, id: Id, payload: Payload): Log {
    if log == [] then []
    else [if log[0].id == id then log[0].(payload := payload) else log[0]] + SetPayload(log[1..], id, payload)
  }

  // ---------- steps ----------

  datatype Action =
    | StartApprove(h: nat, mission: Id, pid: Id)
    | RejectApprove(h: nat)
    | InsertApproval(h: nat, id: Id, at: nat)
    | Materialise(h: nat, parent: Option<string>, slug: Option<string>)
    | Finalise(h: nat)
    | FinaliseFails(h: nat)
    | StartDismiss(h: nat, mission: Id, pid: Id)
    | RejectDismiss(h: nat)
    | InsertDismissal(h: nat, id: Id, at: nat, reason: Option<string>)
    | RecordEvent(event: Event)
    | Crash

  /** A new row id is random. Nothing is asked of the time: the clock of the database may step back. */
  predicate FreshId(log: Log, id: Id) {
    forall e :: e in log ==> e.id != id
  }

  predicate Enabled(s: State, a: Action) {
    match a
    case StartApprove(h, m, p) => h !in s.handlers && FindProposal(s.log, m, p).Some?
    case StartDismiss(h, m, p) => h !in s.handlers && FindProposal(s.log, m, p).Some?
    case RejectApprove(h) => h in s.handlers && s.handlers[h].ApproveChecked?
    case InsertApproval(h, id, at) =>
      h in s.handlers && s.handlers[h].ApproveChecked? && s.handlers[h].stored.Some? && FreshId(s.log, id)
    case Materialise(h, _, _) => h in s.handlers && s.handlers[h].ApproveInserted?
    case Finalise(h) => h in s.handlers && s.handlers[h].ApproveCreated?
    case FinaliseFails(h) => h in s.handlers && s.handlers[h].ApproveCreated?
    case RejectDismiss(h) => h in s.handlers && s.handlers[h].DismissChecked?
    case InsertDismissal(h, id, at, _) => h in s.handlers && s.handlers[h].DismissChecked? && FreshId(s.log, id)
    case RecordEvent(e) =>
      FreshId(s.log, e.id) && e.kind != RemediationApproved && e.kind != RemediationDismissed
      && (e.kind == RemediationProposed <==> e.payload.Proposed?) && Ref(e.payload) == None
    case Crash => true
  }

  function Apply(s: State, a: Action): State
    requires Enabled(s, a)
  {
    match a
    case StartApprove(h, m, p) =>
      if HasDecision(s.log, RemediationApproved, m, p) then s
      else s.(handlers := s.handlers[h := ApproveChecked(m, p, StoredProposal(FindProposal(s.log, m, p).value))])
    case StartDismiss(h, m, p) =>
      if HasDecision(s.log, RemediationDismissed, m, p) then s
      else s.(handlers := s.handlers[h := DismissChecked(m, p)])
    case RejectApprove(h) => s.(handlers := s.handlers - {h})
    case InsertApproval(h, id, at) =>
      var x := s.handlers[h];
      s.(log := s.log + [Event(id, x.mission, RemediationApproved, PendingApproval(x.pid, x.stored.value.target), at)],
         handlers := s.handlers[h := ApproveInserted(x.mission, x.pid, id, x.stored.value)])
    case Materialise(h, parent, slug) =>
      var x := s.handlers[h];
      var made := CreateEntity(x.proposal, parent, slug);
      if made.None? then s.(handlers := s.handlers - {h})
      else s.(created := s.created + [Creation(x.decision, made.value)],
              handlers := s.handlers[h := ApproveCreated(x.mission, x.pid, x.decision, x.proposal, made.value)])
    case Finalise(h) =>
      var x := s.handlers[h];
      s.(log := SetPayload(s.log, x.decision, FinalApproval(x.pid, x.proposal.target, x.entity)),
         handlers := s.handlers - {h})
    case FinaliseFails(h) => s.(handlers := s.handlers - {h})
    case RejectDismiss(h) => s.(handlers := s.handlers - {h})
    case InsertDismissal(h, id, at, reason) =>
      var x := s.handlers[h];
      s.(log := s.log + [Event(id, x.mission, RemediationDismissed, Dismissal(x.pid, reason), at)],
         handlers := s.handlers - {h})
    case RecordEvent(e) => s.(log := s.log + [e])
    case Crash => s.(handlers := map[])
  }

  function Next(s: State, a: Action): State {
    if Enabled(s, a) then Apply(s, a) else s
  }

  /** The state after a run from the empty daemon; a step that is not enabled does nothing. */
  function Exec(acts: seq<Action>): State {
    if acts == [] then EMPTY else Next(Exec(acts[..|acts| - 1]), acts[|acts| - 1])
  }

  // ---------- what every step keeps ----------

  ghost predicate UniqueIds(log: Log) {
    forall i, j :: 0 <= i < j < |log| ==> log[i].id != log[j].id
  }

  /** Row `d` of the log is an approval of `(m, p)`. */
  ghost predicate ApprovalRow(log: Log, d: Id, m: Id, p: Id) {
    exists i :: 0 <= i < |log| && log[i].id == d && Decides(log[i], RemediationApproved, m, p)
  }

  ghost predicate WellFormedRow(s: State, e: Event) {
    match e.kind
    case RemediationApproved =>
      e.payload.PendingApproval? || (e.payload.FinalApproval? && Creation(e.id, e.payload.entity) in s.created)
    case RemediationDismissed => e.payload.Dismissal?
    case RemediationProposed => e.payload.Proposed?
    case OtherKind => Ref(e.payload) == None
  }

  ghost predicate WellFormedHandler(s: State, x: Handler) {
    match x
    case ApproveChecked(m, p, _) => true
    case ApproveInserted(m, p, d, _) =>
      ApprovalRow(s.log, d, m, p) && forall c :: c in s.created ==> c.decision != d
    case ApproveCreated(m, p, d, _, ent) => ApprovalRow(s.log, d, m, p) && Creation(d, ent) in s.created
    case DismissChecked(m, p) => true
  }

  predicate Holds(x: Handler, d: Id) {
    (x.ApproveInserted? || x.ApproveCreated?) && x.decision == d
  }

  ghost predicate Inv(s: State) {
    && UniqueIds(s.log)
    && (forall e :: e in s.log ==> WellFormedRow(s, e))
    && (forall h :: h in s.handlers ==> WellFormedHandler(s, s.handlers[h]))
    && (forall g, h, d | g in s.handlers && h in s.handlers ::
          Holds(s.handlers[g], d) && Holds(s.handlers[h], d) ==> g == h)
    && (forall c :: c in s.created ==> exists m, p :: ApprovalRow(s.log, c.decision, m, p))
    && (forall i, j :: 0 <= i < j < |s.created| ==> s.created[i].decision != s.created[j].decision)
  }

  lemma {:induction false} SetPayloadAt(log: Log, id: Id, payload: Payload, i: nat)
    requires i < |log|
    ensures |SetPayload(log, id, payload)| == |log|
    ensures SetPayload(log, id, payload)[i] == if log[i].id == id then log[i].(payload := payload) else log[i]
  {
    if i > 0 { SetPayloadAt(log[1..], id, payload, i - 1); }
    else if |log| > 1 { SetPayloadAt(log[1..], id, payload, 0); }
  }

  lemma SetPayloadAll(log: Log, id: Id, payload: Payload)
    ensures |SetPayload(log, id, payload)| == |log|
    ensures forall i :: 0 <= i < |log| ==>
      SetPayload(log, id, payload)[i] == if log[i].id == id then log[i].(payload := payload) else log[i]
  {
    forall i | 0 <= i < |log|
      ensures |SetPayload(log, id, payload)| == |log|
      ensures SetPayload(log, id, payload)[i] == if log[i].id == id then log[i].(payload := payload) else log[i]
    {
      SetPayloadAt(log, id, payload, i);
    }
  }

  /** Finalising the row that was just appended. */
  lemma SetLast(log: Log, e: Event, payload: Payload)
    requires FreshId(log, e.id)
    ensures SetPayload(log + [e], e.id, payload) == log + [e.(payload := payload)]
  {
    SetPayloadAll(log + [e], e.id, payload);
    forall i | 0 <= i < |log| ensures log[i].id != e.id { assert log[i] in log; }
  }

  lemma {:induction false} FindProposalIn(log: Log, mission: Id, pid: Id)
    ensures var r := FindProposal(log, mission, pid);
      if r.Some? then r.value in log && IsProposal(r.value, mission, pid)
      else forall e :: e in log ==> !IsProposal(e, mission, pid)
  {
    if log != [] { FindProposalIn(log[1..], mission, pid); }
  }

  /** Rows are only ever appended or finalised: nothing else about a row changes, and it keeps its place. */
  ghost predicate LogGrows(a: Log, b: Log) {
    && |a| <= |b|
    && forall i :: 0 <= i < |a| ==>
      b[i].id == a[i].id && b[i].mission == a[i].mission && b[i].kind == a[i].kind && b[i].createdAt == a[i].createdAt
      && Ref(b[i].payload) == Ref(a[i].payload)
  }

  lemma StepLog(s: State, a: Action)
    requires Inv(s) && Enabled(s, a)
    ensures var t := Apply(s, a);
      && LogGrows(s.log, t.log)
      && (if a.InsertApproval? || a.InsertDismissal? || a.RecordEvent?
          then t.log == s.log + [t.log[|s.log|]] && FreshId(s.log, t.log[|s.log|].id)
          else |t.log| == |s.log|)
  {
    if a.Finalise? {
      var x := s.handlers[a.h];
      var i :| 0 <= i < |s.log| && s.log[i].id == x.decision
               && Decides(s.log[i], RemediationApproved, x.mission, x.pid);
      SetPayloadAll(s.log, x.decision, FinalApproval(x.pid, x.proposal.target, x.entity));
    }
  }

  lemma ApprovalRowGrows(a: Log, b: Log, d: Id, m: Id, p: Id)
    requires LogGrows(a, b) && ApprovalRow(a, d, m, p)
    ensures ApprovalRow(b, d, m, p)
  {
    var i :| 0 <= i < |a| && a[i].id == d && Decides(a[i], RemediationApproved, m, p);
    assert b[i].id == d && Decides(b[i], RemediationApproved, m, p);
  }

  predicate IsChecked(x: Handler) { x.ApproveChecked? || x.DismissChecked? }

  /** Every handler of `t` is one of `s`, or has only just begun. */
  predicate NoNewHolder(s: State, t: State) {
    forall h :: h in t.handlers ==>
      (h in s.handlers && t.handlers[h] == s.handlers[h]) || IsChecked(t.handlers[h])
  }

  /** A step that only begins or ends handlers. */
  lemma HandlersKeepInv(s: State, t: State)
    requires Inv(s) && t.log == s.log && t.created == s.created && NoNewHolder(s, t)
    ensures Inv(t)
  {
    forall e | e in t.log ensures WellFormedRow(t, e) { assert WellFormedRow(s, e); }
    forall h | h in t.handlers ensures WellFormedHandler(t, t.handlers[h]) {
      if !IsChecked(t.handlers[h]) { assert WellFormedHandler(s, s.handlers[h]); }
    }
  }

  lemma ApprovalRowStays(log: Log, e: Event, d: Id, m: Id, p: Id)
    requires ApprovalRow(log, d, m, p)
    ensures ApprovalRow(log + [e], d, m, p)
  {
    var i :| 0 <= i < |log| && log[i].id == d && Decides(log[i], RemediationApproved, m, p);
    assert (log + [e])[i] == log[i];
  }

  /** A step that appends one row, and at most ends handlers. */
  lemma RowKeepsInv(s: State, t: State, e: Event)
    requires Inv(s) && t.log == s.log + [e] && t.created == s.created && NoNewHolder(s, t)
    requires FreshId(s.log, e.id) && WellFormedRow(s, e)
    ensures Inv(t)
  {
    forall r | r in t.log ensures WellFormedRow(t, r) {
      if r != e { assert WellFormedRow(s, r); }
    }
    forall h | h in t.handlers ensures WellFormedHandler(t, t.handlers[h]) {
      var x := t.handlers[h];
      if !IsChecked(x) {
        assert WellFormedHandler(s, x);
        ApprovalRowStays(s.log, e, x.decision, x.mission, x.pid);
      }
    }
    forall c | c in t.created ensures exists m, p :: ApprovalRow(t.log, c.decision, m, p) {
      var m, p :| ApprovalRow(s.log, c.decision, m, p);
      ApprovalRowStays(s.log, e, c.decision, m, p);
    }
  }

  lemma StepKeepsInv(s: State, a: Action)
    requires Inv(s) && Enabled(s, a)
    ensures Inv(Apply(s, a))
  {
    match a {
      case InsertApproval(_, _, _) => InsertKeepsInv(s, a);
      case Materialise(_, _, _) => MaterialiseKeepsInv(s, a);
      case Finalise(_) => FinaliseKeepsInv(s, a);
      case InsertDismissal(h, id, at, reason) =>
        var x := s.handlers[h];
        RowKeepsInv(s, Apply(s, a), Event(id, x.mission, RemediationDismissed, Dismissal(x.pid, reason), at));
      case RecordEvent(e) => RowKeepsInv(s, Apply(s, a), e);
      case _ => HandlersKeepInv(s, Apply(s, a));
    }
  }

  lemma InsertKeepsInv(s: State, a: Action)
    requires Inv(s) && a.InsertApproval? && Enabled(s, a)
    ensures Inv(Apply(s, a))
  {
    var t := Apply(s, a);
    StepLog(s, a);
    forall d, m, p | ApprovalRow(s.log, d, m, p) ensures ApprovalRow(t.log, d, m, p) {
      ApprovalRowGrows(s.log, t.log, d, m, p);
    }
    var x := s.handlers[a.h];
    assert t.log[|s.log|].id == a.id && Decides(t.log[|s.log|], RemediationApproved, x.mission, x.pid);
    assert ApprovalRow(t.log, a.id, x.mission, x.pid);
    forall c | c in s.created ensures c.decision != a.id {
      var m, p :| ApprovalRow(s.log, c.decision, m, p);
    }
    forall g | g in s.handlers ensures !Holds(s.handlers[g], a.id) {
      assert WellFormedHandler(s, s.handlers[g]);
    }
  }

  lemma MaterialiseKeepsInv(s: State, a: Action)
    requires Inv(s) && a.Materialise? && Enabled(s, a)
    ensures Inv(Apply(s, a))
  {
    var t := Apply(s, a);
    var x := s.handlers[a.h];
    assert WellFormedHandler(s, x);
    forall e | e in t.log ensures WellFormedRow(t, e) { assert WellFormedRow(s, e); }
    forall g | g in t.handlers ensures WellFormedHandler(t, t.handlers[g]) {
      if g != a.h {
        assert WellFormedHandler(s, s.handlers[g]);
        assert Holds(x, x.decision) && !Holds(s.handlers[g], x.decision);
      }
    }
  }

  lemma FinaliseKeepsInv(s: State, a: Action)
    requires Inv(s) && a.Finalise? && Enabled(s, a)
    ensures Inv(Apply(s, a))
  {
    var t := Apply(s, a);
    var x := s.handlers[a.h];
    StepLog(s, a);
    SetPayloadAll(s.log, x.decision, FinalApproval(x.pid, x.proposal.target, x.entity));
    assert WellFormedHandler(s, x);
    forall d, m, p | ApprovalRow(s.log, d, m, p) ensures ApprovalRow(t.log, d, m, p) {
      ApprovalRowGrows(s.log, t.log, d, m, p);
    }
    FinaliseRows(s, a);
  }

  lemma FinaliseRows(s: State, a: Action)
    requires Inv(s) && a.Finalise? && Enabled(s, a)
    ensures forall e :: e in Apply(s, a).log ==> WellFormedRow(Apply(s, a), e)
  {
    var t := Apply(s, a);
    var x := s.handlers[a.h];
    SetPayloadAll(s.log, x.decision, FinalApproval(x.pid, x.proposal.target, x.entity));
    assert WellFormedHandler(s, x);
    var k :| 0 <= k < |s.log| && s.log[k].id == x.decision && Decides(s.log[k], RemediationApproved, x.mission, x.pid);
    forall e | e in t.log ensures WellFormedRow(t, e) {
      var i :| 0 <= i < |t.log| && t.log[i] == e;
      assert WellFormedRow(s, s.log[i]);
      if s.log[i].id == x.decision { assert i == k; }
    }
  }

  lemma {:induction false} ExecInv(acts: seq<Action>)
    ensures Inv(Exec(acts))
  {
    if acts != [] {
      ExecInv(acts[..|acts| - 1]);
      var s, a := Exec(acts[..|acts| - 1]), acts[|acts| - 1];
      if Enabled(s, a) { StepKeepsInv(s, a); }
    }
  }

  lemma SameRow(log: Log, e: Event, f: Event)
    requires UniqueIds(log) && e in log && f in log && e.id == f.id
    ensures e == f
  {
  }

  /** What the boot-time reconciler reports: approvals still carrying the placeholder. */
  ghost function PendingScan(log: Log): set<Id> {
    set e | e in log && e.kind == RemediationApproved && e.payload.PendingApproval? :: e.id
  }

  /**
    In every run, whatever crashes or fails: an entity exists only if its approval row does, a row yields at
    most one entity, a finalised row names the entity it created, and every approval without an entity is
    found by the boot-time scan.
   */
  lemma EntitiesFollowApprovals(acts: seq<Action>)
    ensures var s := Exec(acts);
      && (forall c :: c in s.created ==> exists m, p :: ApprovalRow(s.log, c.decision, m, p))
      && (forall i, j :: 0 <= i < j < |s.created| ==> s.created[i].decision != s.created[j].decision)
      && (forall e :: e in s.log && e.payload.FinalApproval? ==> Creation(e.id, e.payload.entity) in s.created)
      && (forall e | e in s.log && e.kind == RemediationApproved ::
            (forall c :: c in s.created ==> c.decision != e.id) ==> e.id in PendingScan(s.log))
      && (forall e :: e in s.log && e.payload.FinalApproval? ==> e.id !in PendingScan(s.log))
  {
    ExecInv(acts);
    var s := Exec(acts);
    forall e | e in s.log && e.payload.FinalApproval? ensures Creation(e.id, e.payload.entity) in s.created {
      assert WellFormedRow(s, e);
    }
    forall e | e in s.log && e.kind == RemediationApproved && (forall c :: c in s.created ==> c.decision != e.id)
      ensures e.id in PendingScan(s.log)
    {
      assert WellFormedRow(s, e);
    }
    forall e | e in s.log && e.payload.FinalApproval? ensures e.id !in PendingScan(s.log) {
      forall f | f in s.log && f.id == e.id ensures f == e { SameRow(s.log, e, f); }
    }
  }

  /** A dismissal step appends its row, with the reason given, and changes nothing else in the log. */
  lemma DismissalIsStored(s: State, a: Action)
    requires a.InsertDismissal? && Enabled(s, a)
    ensures var x := s.handlers[a.h];
      Apply(s, a).log == s.log + [Event(a.id, x.mission, RemediationDismissed, Dismissal(x.pid, a.reason), a.at)]
  {
  }
}
