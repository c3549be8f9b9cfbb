/** Where approvals come from: every approval row, and every entity it names, goes back to the stored proposal. */
module MissionOrigins {
  import opened Wrappers
  import opened Missions

  /** The log of mission `m` holds the proposal `p`, stored as `pr`. */
  ghost predicate ProposalRow(log: Log, m: Id, p: Id, pr: Proposal) {
    exists i | 0 <= i < |log| :: IsStored(log[i], m, p, pr)
  }

  predicate IsStored(e: Event, m: Id, p: Id, pr: Proposal) {
    e.mission == m && e.id == p && e.kind == RemediationProposed && e.payload == Proposed(Some(pr))
  }

  /** The entity is of the kind the proposal asks for, below the parent it names. */
  predicate Fits(pr: Proposal, e: Entity) {
    e.kind == pr.target &&
    match pr.target
    case MilestoneTarget => e.milestone == None && e.slice == None
    case SliceTarget => pr.targetId.Some? && e.milestone == pr.targetId && e.slice == None
    case TaskTarget => pr.targetId.Some? && e.milestone.Some? && e.slice == pr.targetId
  }

  ghost predicate HandlerOrigin(log: Log, x: Handler) {
    match x
    case ApproveChecked(m, p, stored) => stored.Some? ==> ProposalRow(log, m, p, stored.value)
    case ApproveInserted(m, p, _, pr) => ProposalRow(log, m, p, pr)
    case ApproveCreated(m, p, _, pr, ent) => ProposalRow(log, m, p, pr) && Fits(pr, ent)
    case DismissChecked(_, _) => true
  }

  ghost predicate PendingFrom(log: Log, m: Id, p: Id, target: TargetType) {
    exists pr :: ProposalRow(log, m, p, pr) && pr.target == target
  }

  ghost predicate FinalFrom(log: Log, m: Id, p: Id, target: TargetType, ent: Entity) {
    exists pr :: ProposalRow(log, m, p, pr) && pr.target == target && Fits(pr, ent)
  }

  ghost predicate RowOrigin(log: Log, e: Event) {
    match e.payload
    case PendingApproval(p, target) => PendingFrom(log, e.mission, p, target)
    case FinalApproval(p, target, ent) => FinalFrom(log, e.mission, p, target, ent)
    case _ => true
  }

  ghost predicate Origins(s: State) {
    && (forall e :: e in s.log ==> RowOrigin(s.log, e))
    && (forall h :: h in s.handlers ==> HandlerOrigin(s.log, s.handlers[h]))
  }

  /** Rows that are proposals stay as they are. */
  ghost predicate KeepsProposals(a: Log, b: Log) {
    |a| <= |b| && forall i :: 0 <= i < |a| && a[i].kind == RemediationProposed ==> b[i] == a[i]
  }

  lemma ProposalRowKept(a: Log, b: Log, m: Id, p: Id, pr: Proposal)
    requires KeepsProposals(a, b) && ProposalRow(a, m, p, pr)
    ensures ProposalRow(b, m, p, pr)
  {
    var i :| 0 <= i < |a| && IsStored(a[i], m, p, pr);
    assert b[i] == a[i];
  }

  lemma StepKeepsProposals(s: State, a: Action)
    requires Inv(s) && Enabled(s, a)
    ensures KeepsProposals(s.log, Apply(s, a).log)
  {
    if a.Finalise? {
      var x := s.handlers[a.h];
      assert WellFormedHandler(s, x);
      var k :| 0 <= k < |s.log| && s.log[k].id == x.decision
               && Decides(s.log[k], RemediationApproved, x.mission, x.pid);
      SetPayloadAll(s.log, x.decision, FinalApproval(x.pid, x.proposal.target, x.entity));
    }
  }

  lemma RowOriginKept(a: Log, b: Log, e: Event)
    requires KeepsProposals(a, b) && RowOrigin(a, e)
    ensures RowOrigin(b, e)
  {
    match e.payload
    case PendingApproval(p, target) =>
      var pr :| ProposalRow(a, e.mission, p, pr) && pr.target == target;
      ProposalRowKept(a, b, e.mission, p, pr);
    case FinalApproval(p, target, ent) =>
      var pr :| ProposalRow(a, e.mission, p, pr) && pr.target == target && Fits(pr, ent);
      ProposalRowKept(a, b, e.mission, p, pr);
    case _ =>
  }

  lemma HandlerOriginKept(a: Log, b: Log, x: Handler)
    requires KeepsProposals(a, b) && HandlerOrigin(a, x)
    ensures HandlerOrigin(b, x)
  {
    match x
    case ApproveChecked(m, p, stored) => if stored.Some? { ProposalRowKept(a, b, m, p, stored.value); }
    case ApproveInserted(m, p, _, pr) => ProposalRowKept(a, b, m, p, pr);
    case ApproveCreated(m, p, _, pr, _) => ProposalRowKept(a, b, m, p, pr);
    case DismissChecked(_, _) =>
  }

  /** A created entity fits its proposal, whatever the plan store answers. */
  lemma CreatedFits(pr: Proposal, parent: Option<string>, slug: Option<string>)
    ensures var made := CreateEntity(pr, parent, slug);
            made.Some? ==> Fits(pr, made.value) && Some(made.value.slug) == slug
    ensures CreateEntity(pr, parent, slug).None? <==>
      slug.None? || (pr.target != MilestoneTarget && pr.targetId.None?) || (pr.target == TaskTarget && parent.None?)
  {
  }

  lemma StoredIsProposalRow(log: Log, m: Id, p: Id)
    requires FindProposal(log, m, p).Some? && StoredProposal(FindProposal(log, m, p).value).Some?
    ensures ProposalRow(log, m, p, StoredProposal(FindProposal(log, m, p).value).value)
  {
    FindProposalIn(log, m, p);
    var e := FindProposal(log, m, p).value;
    var i :| 0 <= i < |log| && log[i] == e;
    assert IsStored(log[i], m, p, StoredProposal(e).value);
  }

  lemma StepHandlerOrigins(s: State, a: Action, h: nat)
    requires Inv(s) && Enabled(s, a) && Origins(s) && h in Apply(s, a).handlers
    ensures HandlerOrigin(Apply(s, a).log, Apply(s, a).handlers[h])
  {
    var t := Apply(s, a);
    StepKeepsProposals(s, a);
    if h in s.handlers { HandlerOriginKept(s.log, t.log, s.handlers[h]); }
    match a {
      case StartApprove(_, m, p) =>
        if StoredProposal(FindProposal(s.log, m, p).value).Some? { StoredIsProposalRow(s.log, m, p); }
      case Materialise(g, parent, slug) => CreatedFits(s.handlers[g].proposal, parent, slug);
      case _ =>
    }
  }

  lemma StepRowOrigins(s: State, a: Action, i: nat)
    requires Inv(s) && Enabled(s, a) && Origins(s) && i < |Apply(s, a).log|
    ensures RowOrigin(Apply(s, a).log, Apply(s, a).log[i])
  {
    var t := Apply(s, a);
    StepKeepsProposals(s, a);
    StepLog(s, a);
    if i < |s.log| { RowOriginKept(s.log, t.log, s.log[i]); }
    match a {
      case InsertApproval(h, _, _) =>
        var x := s.handlers[h];
        assert HandlerOrigin(s.log, x);
        ProposalRowKept(s.log, t.log, x.mission, x.pid, x.stored.value);
      case Finalise(h) => FinalRowOrigin(s, a, i);
      case _ =>
    }
  }

  lemma FinalRowOrigin(s: State, a: Action, i: nat)
    requires Inv(s) && Enabled(s, a) && Origins(s) && a.Finalise? && i < |Apply(s, a).log|
    requires i < |s.log| && RowOrigin(Apply(s, a).log, s.log[i]) && KeepsProposals(s.log, Apply(s, a).log)
    ensures RowOrigin(Apply(s, a).log, Apply(s, a).log[i])
  {
    var t := Apply(s, a);
    var x := s.handlers[a.h];
    SetPayloadAll(s.log, x.decision, FinalApproval(x.pid, x.proposal.target, x.entity));
    if s.log[i].id == x.decision {
      assert WellFormedHandler(s, x) && HandlerOrigin(s.log, x);
      var k :| 0 <= k < |s.log| && s.log[k].id == x.decision
               && Decides(s.log[k], RemediationApproved, x.mission, x.pid);
      assert i == k;
      ProposalRowKept(s.log, t.log, x.mission, x.pid, x.proposal);
    }
  }

  lemma {:induction false} ExecOrigins(acts: seq<Action>)
    ensures Origins(Exec(acts))
  {
    if acts != [] {
      var front, a := acts[..|acts| - 1], acts[|acts| - 1];
      ExecOrigins(front);
      ExecInv(front);
      var s := Exec(front);
      if Enabled(s, a) {
        var t := Apply(s, a);
        forall e | e in t.log ensures RowOrigin(t.log, e) {
          var i :| 0 <= i < |t.log| && t.log[i] == e;
          StepRowOrigins(s, a, i);
        }
        forall h | h in t.handlers ensures HandlerOrigin(t.log, t.handlers[h]) { StepHandlerOrigins(s, a, h); }
      }
    }
  }

  /**
   * In every run: an approval row carries the target of a stored, valid proposal of its mission, and once it is
   * finalised the entity it names is of that kind and lies below the parent the proposal names.
   */
  lemma ApprovalsMatchProposals(acts: seq<Action>, e: Event)
    requires e in Exec(acts).log && e.kind == RemediationApproved
    ensures var log := Exec(acts).log;
      match e.payload
      case PendingApproval(p, target) => PendingFrom(log, e.mission, p, target)
      case FinalApproval(p, target, ent) => FinalFrom(log, e.mission, p, target, ent)
      case _ => false
  {
    ExecOrigins(acts);
    ExecInv(acts);
    assert WellFormedRow(Exec(acts), e) && RowOrigin(Exec(acts).log, e);
  }
}
