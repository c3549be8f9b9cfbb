/** Which plan entity an approval creates: what the proposal names, and what the plan store answered in that step. */
module MissionEntities {
  import opened Wrappers
  import opened Missions
  import opened MissionOrigins

  /**
   * The entity has the slug the plan store gave it and stands where the proposal wants it: a milestone on its own, a
   * slice under the named milestone, a task under the named slice and the milestone the plan store found for that.
   */
  predicate BuiltFrom(pr: Proposal, parent: Option<string>, slug: Option<string>, e: Entity) {
    && e.kind == pr.target && slug == Some(e.slug)
    && match pr.target
       case MilestoneTarget => e.milestone == None && e.slice == None
       case SliceTarget => e.milestone == pr.targetId && pr.targetId.Some? && e.slice == None
       case TaskTarget => e.milestone == parent && parent.Some? && e.slice == pr.targetId && pr.targetId.Some?
  }

  /** There is nothing to create: no slug, no parent named, or no milestone found for the slice of a task. */
  predicate CannotBuild(pr: Proposal, parent: Option<string>, slug: Option<string>) {
    slug == None || (pr.target != MilestoneTarget && pr.targetId == None) || (pr.target == TaskTarget && parent == None)
  }

  /** A materialising step creates the entity the proposal asks for, or none when there is nothing to create. */
  lemma MaterialiseBuilds(s: State, a: Action)
    requires a.Materialise? && Enabled(s, a)
    ensures var x, t := s.handlers[a.h], Apply(s, a);
      if CannotBuild(x.proposal, a.parent, a.slug) then t == s.(handlers := s.handlers - {a.h})
      else |t.created| == |s.created| + 1 && t.created[..|s.created|] == s.created && t.log == s.log
           && t.created[|s.created|].decision == x.decision
           && BuiltFrom(x.proposal, a.parent, a.slug, t.created[|s.created|].entity)
  {
  }

  /** Only materialising creates anything. */
  lemma OnlyMaterialiseCreates(s: State, a: Action)
    requires Enabled(s, a) && !a.Materialise?
    ensures Apply(s, a).created == s.created
  {
  }

  // ---------- over runs ----------

  /**
   * Step `i` of the run created the entity: for a handler that held the decision `d` on the proposal `p` of mission
   * `m`, stored as `pr`, from the plan store's answers in that step.
   */
  ghost predicate CreatedAt(acts: seq<Action>, i: nat, d: Id, m: Id, p: Id, pr: Proposal, e: Entity) {
    && i < |acts| && acts[i].Materialise? && Enabled(Exec(acts[..i]), acts[i])
    && Exec(acts[..i]).handlers[acts[i].h] == ApproveInserted(m, p, d, pr)
    && BuiltFrom(pr, acts[i].parent, acts[i].slug, e)
  }

  ghost predicate HasCreation(acts: seq<Action>, c: Creation) {
    exists i: nat, m, p, pr | i < |acts| :: CreatedAt(acts, i, c.decision, m, p, pr, c.entity)
  }

  lemma CreatedInFront(acts: seq<Action>, c: Creation)
    requires acts != [] && HasCreation(acts[..|acts| - 1], c)
    ensures HasCreation(acts, c)
  {
    var front := acts[..|acts| - 1];
    var i: nat, m, p, pr :| i < |front| && CreatedAt(front, i, c.decision, m, p, pr, c.entity);
    assert front[..i] == acts[..i];
    assert CreatedAt(acts, i, c.decision, m, p, pr, c.entity);
  }

  /** Every entity ever created goes back to such a step. */
  lemma {:induction false} CreationsHaveSteps(acts: seq<Action>, c: Creation)
    requires c in Exec(acts).created
    ensures HasCreation(acts, c)
  {
    var n, front, a := |acts| - 1, acts[..|acts| - 1], acts[|acts| - 1];
    var s := Exec(front);
    if c in s.created {
      CreationsHaveSteps(front, c);
      CreatedInFront(acts, c);
    } else {
      if !a.Materialise? { OnlyMaterialiseCreates(s, a); }
      MaterialiseBuilds(s, a);
      var x := s.handlers[a.h];
      assert c == Exec(acts).created[|s.created|];
      assert acts[..n] == front;
      assert CreatedAt(acts, n, c.decision, x.mission, x.pid, x.proposal, c.entity);
    }
  }

  lemma {:induction false} ProposalsStay(acts: seq<Action>, i: nat, m: Id, p: Id, pr: Proposal)
    requires i <= |acts| && ProposalRow(Exec(acts[..i]).log, m, p, pr)
    ensures ProposalRow(Exec(acts).log, m, p, pr)
  {
    if i == |acts| {
      assert acts[..i] == acts;
    } else {
      var front, a := acts[..|acts| - 1], acts[|acts| - 1];
      assert front[..i] == acts[..i];
      ProposalsStay(front, i, m, p, pr);
      ExecInv(front);
      if Enabled(Exec(front), a) {
        StepKeepsProposals(Exec(front), a);
        ProposalRowKept(Exec(front).log, Exec(acts).log, m, p, pr);
      }
    }
  }

  lemma {:induction false} ApprovalRowsStay(acts: seq<Action>, i: nat, d: Id, m: Id, p: Id)
    requires i <= |acts| && ApprovalRow(Exec(acts[..i]).log, d, m, p)
    ensures ApprovalRow(Exec(acts).log, d, m, p)
  {
    if i == |acts| {
      assert acts[..i] == acts;
    } else {
      var front, a := acts[..|acts| - 1], acts[|acts| - 1];
      assert front[..i] == acts[..i];
      ApprovalRowsStay(front, i, d, m, p);
      ExecInv(front);
      if Enabled(Exec(front), a) {
        StepLog(Exec(front), a);
        ApprovalRowGrows(Exec(front).log, Exec(acts).log, d, m, p);
      }
    }
  }

  lemma RowIsUnique(log: Log, e: Event, d: Id, m: Id, p: Id)
    requires UniqueIds(log) && e in log && e.id == d && ApprovalRow(log, d, m, p)
    ensures e.mission == m && Ref(e.payload) == Some(p)
  {
    var i :| 0 <= i < |log| && log[i] == e;
    var j :| 0 <= j < |log| && log[j].id == d && Decides(log[j], RemediationApproved, m, p);
    assert i == j;
  }

  /** What the row of a finalised approval says it created: some step did, for this row, from the stored proposal. */
  ghost predicate IsBuilt(acts: seq<Action>, e: Event, p: Id, target: TargetType, ent: Entity) {
    exists i: nat, pr | i < |acts| ::
      && CreatedAt(acts, i, e.id, e.mission, p, pr, ent)
      && ProposalRow(Exec(acts).log, e.mission, p, pr) && pr.target == target
  }

  /**
   * In every run the entity named by a finalised approval row was created for that row in one of its steps: it has the
   * slug the plan store answered there and lies below the parent the stored proposal names, a task moreover under the
   * milestone answered in that very step.
   */
  lemma FinalRowsNameTheirEntity(acts: seq<Action>, e: Event)
    requires e in Exec(acts).log && e.payload.FinalApproval?
    ensures IsBuilt(acts, e, e.payload.proposalId, e.payload.target, e.payload.entity)
  {
    var c := Creation(e.id, e.payload.entity);
    EntitiesFollowApprovals(acts);
    ExecInv(acts);
    CreationsHaveSteps(acts, c);
    var i: nat, m, p, pr :| i < |acts| && CreatedAt(acts, i, c.decision, m, p, pr, c.entity);
    CreatedForRow(acts, e, i, m, p, pr);
    FinalTarget(acts, e, pr);
  }

  lemma CreatedForRow(acts: seq<Action>, e: Event, i: nat, m: Id, p: Id, pr: Proposal)
    requires e in Exec(acts).log && e.payload.FinalApproval? && i < |acts|
    requires CreatedAt(acts, i, e.id, m, p, pr, e.payload.entity)
    ensures e.mission == m && e.payload.proposalId == p
    ensures ProposalRow(Exec(acts).log, m, p, pr)
  {
    var before := Exec(acts[..i]);
    ExecInv(acts);
    ExecInv(acts[..i]);
    ExecOrigins(acts[..i]);
    assert WellFormedHandler(before, before.handlers[acts[i].h]);
    assert HandlerOrigin(before.log, before.handlers[acts[i].h]);
    ApprovalRowsStay(acts, i, e.id, m, p);
    ProposalsStay(acts, i, m, p, pr);
    RowIsUnique(Exec(acts).log, e, e.id, m, p);
  }

  /** The target a row records is that of the only proposal it can point at. */
  lemma FinalTarget(acts: seq<Action>, e: Event, pr: Proposal)
    requires e in Exec(acts).log && e.payload.FinalApproval?
    requires ProposalRow(Exec(acts).log, e.mission, e.payload.proposalId, pr)
    ensures pr.target == e.payload.target
  {
    var log, p := Exec(acts).log, e.payload.proposalId;
    ExecInv(acts);
    ExecOrigins(acts);
    assert WellFormedRow(Exec(acts), e) && RowOrigin(log, e);
    var other :| ProposalRow(log, e.mission, p, other) && other.target == e.payload.target
                 && Fits(other, e.payload.entity);
    var i :| 0 <= i < |log| && IsStored(log[i], e.mission, p, pr);
    var j :| 0 <= j < |log| && IsStored(log[j], e.mission, p, other);
    assert i == j;
  }
}
