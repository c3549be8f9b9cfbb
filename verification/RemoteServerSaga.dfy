/**
  Creating, changing and deleting remote servers: the three handlers as steps that interleave at every
  `await`. The remote command, the tunnel manager and the disk may answer anything, and the daemon may crash.
 */
module RemoteServerSaga {
  import opened Wrappers
  import opened Text
  import opened RemoteServers

  /** What the bootstrap command on the remote machine came to. */
  datatype ExecAnswer = Threw | Exited(code: int, stdout: string)

  datatype Handler =
    | PostExec(id: string, name: string, ssh: Ssh)
    | PostStart(id: string)
    | PatchStop(id: string, newName: Option<string>, newSsh: Option<SshPatch>)
    | PatchStart(id: string)
    | DeleteStop(id: string)

  /**
    `servers` is the stored list. The sets record the run: ids ever handed out, POSTs answered 201, DELETEs
    answered 204, and saved entries whose POST was cut off by a crash or whose rollback could not be written.
   */
  datatype State = State(servers: Servers, handlers: map<nat, Handler>,
                         minted: set<string>, created: set<string>, deleted: set<string>, kept: set<string>)

  datatype Action =
    | BeginPost(h: nat, id: string, name: string, ssh: Ssh)
    | ExecAnswered(h: nat, answer: ExecAnswer, tokenLabel: string, writes: bool)
    | BeginPatch(h: nat, id: string, newName: Option<string>, newSsh: Option<SshPatch>, writes: bool)
    | BeginDelete(h: nat, id: string)
    | StopAnswered(h: nat, writes: bool)
    | StartAnswered(h: nat, ready: bool, writes: bool)
    | Crash

  /** The shape a minted token must have: nothing but 20 or more token characters. */
  predicate IsToken(t: string) {
    |t| >= 20 && forall i :: 0 <= i < |t| ==> TokenChar(t[i])
  }

  function TokenFrom(answer: ExecAnswer): Option<string> {
    if answer.Exited? && answer.code == 0 && IsToken(Trim(answer.stdout)) then Some(Trim(answer.stdout)) else None
  }

  predicate FieldChanged<T(==)>(patch: Option<T>, current: Option<T>) {
    patch.Some? && patch != current
  }

  /** A PATCH never touches the token fields. */
  function PatchUpdate(name: Option<string>, ssh: Option<SshPatch>): Update { Update(name, ssh, Keep, Keep) }

  predicate SshChanged(ssh: Option<SshPatch>, s: Server) {
    ssh.Some? &&
    var p := ssh.value;
    FieldChanged(p.host, Some(s.ssh.host)) || FieldChanged(p.user, s.ssh.user) || FieldChanged(p.port, s.ssh.port)
    || FieldChanged(p.identityFile, s.ssh.identityFile) || FieldChanged(p.remotePort, s.ssh.remotePort)
  }

  predicate Enabled(s: State, a: Action) {
    match a
    case BeginPost(h, id, _, ssh) => h !in s.handlers && id !in s.minted && ssh.host != ""
    case ExecAnswered(h, _, _, _) => h in s.handlers && s.handlers[h].PostExec?
    case BeginPatch(h, _, _, _, _) => h !in s.handlers
    case BeginDelete(h, _) => h !in s.handlers
    case StopAnswered(h, _) => h in s.handlers && (s.handlers[h].PatchStop? || s.handlers[h].DeleteStop?)
    case StartAnswered(h, _, _) => h in s.handlers && (s.handlers[h].PostStart? || s.handlers[h].PatchStart?)
    case Crash => true
  }

  function Finish(s: State, h: nat): State { s.(handlers := s.handlers - {h}) }

  function Apply(s: State, a: Action): State
    requires Enabled(s, a)
  {
    match a
    case BeginPost(h, id, name, ssh) =>
      s.(handlers := s.handlers[h := PostExec(id, name, ssh)], minted := s.minted + {id})
    case ExecAnswered(h, answer, tokenLabel, writes) =>
      var x := s.handlers[h];
      var token := TokenFrom(answer);
      if token.None? || HasId(s.servers, x.id) || !writes then Finish(s, h)
      else s.(servers := s.servers + [Server(x.id, x.name, x.ssh, token, Some(tokenLabel))],
              handlers := s.handlers[h := PostStart(x.id)])
    case BeginPatch(h, id, name, ssh, writes) =>
      var current := Find(s.servers, id);
      if current.None? then s
      else if SshChanged(ssh, current.value) then s.(handlers := s.handlers[h := PatchStop(id, name, ssh)])
      else if name.Some? && name.value != current.value.name && writes then
        s.(servers := UpdateFirst(s.servers, id, PatchUpdate(name, None)))
      else s
    case BeginDelete(h, id) =>
      if !HasId(s.servers, id) then s else s.(handlers := s.handlers[h := DeleteStop(id)])
    case StopAnswered(h, writes) =>
      var x := s.handlers[h];
      if x.PatchStop? then
        if !HasId(s.servers, x.id) || !writes then Finish(s, h)
        else s.(servers := UpdateFirst(s.servers, x.id, PatchUpdate(x.newName, x.newSsh)),
              handlers := s.handlers[h := PatchStart(x.id)])
      else if HasId(s.servers, x.id) && !writes then Finish(s, h)
      else Finish(s, h).(servers := Others(s.servers, x.id), deleted := s.deleted + {x.id})
    case StartAnswered(h, ready, writes) =>
      var x := s.handlers[h];
      if x.PatchStart? then Finish(s, h)
      else if ready then Finish(s, h).(created := s.created + {x.id})
      else if HasId(s.servers, x.id) && !writes then Finish(s, h).(kept := s.kept + {x.id})
      else Finish(s, h).(servers := Others(s.servers, x.id))
    case Crash => s.(handlers := map[], kept := s.kept + Starting(s))
  }

  function Next(s: State, a: Action): State {
    if Enabled(s, a) then Apply(s, a) else s
  }

  function Initial(servers: Servers): State {
    State(servers, map[], Ids(servers), {}, {}, {})
  }

  function Exec(initial: Servers, acts: seq<Action>): State {
    if acts == [] then Initial(initial) else Next(Exec(initial, acts[..|acts| - 1]), acts[|acts| - 1])
  }

  /** The entries saved by a POST that is still waiting for its tunnel. */
  function Starting(s: State): set<string> {
    set h | h in s.handlers && s.handlers[h].PostStart? :: s.handlers[h].id
  }

  ghost predicate Unsaved(s: State, id: string) {
    exists h :: h in s.handlers && s.handlers[h].PostExec? && s.handlers[h].id == id
  }

  /** The book-keeping of a run that started from `initial`. */
  ghost predicate Inv(initial: Servers, s: State) {
    && DistinctIds(s.servers)
    && Ids(initial) + Ids(s.servers) + s.created + s.deleted + s.kept <= s.minted
    && (forall h :: h in s.handlers ==> s.handlers[h].id in s.minted)
    && (forall id :: Unsaved(s, id) ==>
          id !in Ids(initial) && id !in Ids(s.servers) && id !in s.created && id !in s.deleted && id !in s.kept)
    && (forall g, h :: g in s.handlers && h in s.handlers && g != h && s.handlers[g].PostExec? ==>
          s.handlers[g].id != s.handlers[h].id)
    && (forall g, h | g in s.handlers && h in s.handlers && g != h ::
          s.handlers[g].PostStart? && s.handlers[h].PostStart? ==> s.handlers[g].id != s.handlers[h].id)
    && (forall h :: h in s.handlers && s.handlers[h].PostStart? ==>
          s.handlers[h].id !in Ids(initial) && s.handlers[h].id !in s.created && s.handlers[h].id !in s.kept)
    && Ids(s.servers) == Ids(initial) + s.created + s.kept + Starting(s) - s.deleted
  }

  /** No other POST waits for the tunnel of the same server. */
  predicate OnlyStart(s: State, h: nat)
    requires h in s.handlers
  {
    forall g | g in s.handlers && g != h :: s.handlers[g].PostStart? ==> s.handlers[g].id != s.handlers[h].id
  }

  lemma FinishStarting(s: State, h: nat)
    requires h in s.handlers
    ensures !s.handlers[h].PostStart? ==> Starting(Finish(s, h)) == Starting(s)
    ensures s.handlers[h].PostStart? && OnlyStart(s, h) ==> Starting(Finish(s, h)) == Starting(s) - {s.handlers[h].id}
  {
    var t := Finish(s, h);
    forall id | id in Starting(s) && (s.handlers[h].PostStart? ==> id != s.handlers[h].id) ensures id in Starting(t) {
      var g :| g in s.handlers && s.handlers[g].PostStart? && s.handlers[g].id == id;
      assert g in t.handlers && t.handlers[g] == s.handlers[g];
    }
  }

  lemma SetStarting(s: State, h: nat, x: Handler)
    requires h in s.handlers ==> !s.handlers[h].PostStart?
    ensures var t := s.(handlers := s.handlers[h := x]);
      Starting(t) == Starting(s) + (if x.PostStart? then {x.id} else {})
  {
    var t := s.(handlers := s.handlers[h := x]);
    forall id | id in Starting(s) ensures id in Starting(t) {
      var g :| g in s.handlers && s.handlers[g].PostStart? && s.handlers[g].id == id;
      assert g in t.handlers && t.handlers[g] == s.handlers[g];
    }
    if x.PostStart? { assert t.handlers[h] == x; }
  }

  lemma BeginPostKeepsInv(initial: Servers, s: State, a: Action)
    requires Inv(initial, s) && a.BeginPost? && Enabled(s, a)
    ensures Inv(initial, Apply(s, a))
  {
    var t := Apply(s, a);
    SetStarting(s, a.h, PostExec(a.id, a.name, a.ssh));
    StepUnsaved(s, a);
  }

  lemma ExecAnsweredKeepsInv(initial: Servers, s: State, a: Action)
    requires Inv(initial, s) && a.ExecAnswered? && Enabled(s, a)
    ensures Inv(initial, Apply(s, a))
  {
    var t := Apply(s, a);
    if t.servers == s.servers {
      FinishKeepsInv(initial, s, a.h);
    } else {
      SaveKeepsInv(initial, s, a.h, t.servers[|s.servers|]);
    }
  }

  lemma SaveKeepsInv(initial: Servers, s: State, h: nat, x: Server)
    requires Inv(initial, s) && h in s.handlers && s.handlers[h].PostExec? && s.handlers[h].id == x.id
    ensures Inv(initial, s.(servers := s.servers + [x], handlers := s.handlers[h := PostStart(x.id)]))
  {
    assert Unsaved(s, x.id);
    assert DistinctIds(s.servers + [x]);
    SaveUnsaved(s, h, x);
    SaveBalance(initial, s, h, x);
  }

  lemma SaveBalance(initial: Servers, s: State, h: nat, x: Server)
    requires h in s.handlers && s.handlers[h].PostExec? && x.id !in s.deleted
    requires Ids(s.servers) == Ids(initial) + s.created + s.kept + Starting(s) - s.deleted
    ensures var t := s.(servers := s.servers + [x], handlers := s.handlers[h := PostStart(x.id)]);
      && Ids(t.servers) == Ids(s.servers) + {x.id}
      && Ids(t.servers) == Ids(initial) + t.created + t.kept + Starting(t) - t.deleted
  {
    var t := s.(servers := s.servers + [x], handlers := s.handlers[h := PostStart(x.id)]);
    SetStarting(s, h, PostStart(x.id));
    OthersAppend(s.servers, x);
    assert Starting(t) == Starting(s) + {x.id};
  }

  lemma SaveUnsaved(s: State, h: nat, x: Server)
    requires h in s.handlers && s.handlers[h].PostExec? && s.handlers[h].id == x.id
    requires forall g :: g in s.handlers && g != h && s.handlers[g].PostExec? ==> s.handlers[g].id != x.id
    ensures var t := s.(servers := s.servers + [x], handlers := s.handlers[h := PostStart(x.id)]);
      forall id :: Unsaved(t, id) ==> Unsaved(s, id) && id != x.id
  {
    var t := s.(servers := s.servers + [x], handlers := s.handlers[h := PostStart(x.id)]);
    forall id | Unsaved(t, id) ensures Unsaved(s, id) && id != x.id {
      var g :| g in t.handlers && t.handlers[g].PostExec? && t.handlers[g].id == id;
      assert g != h && s.handlers[g] == t.handlers[g];
    }
  }

  /** Only the start of a POST brings an id that waits to be saved. */
  lemma StepUnsaved(s: State, a: Action)
    requires Enabled(s, a)
    ensures forall id :: Unsaved(Apply(s, a), id) ==> Unsaved(s, id) || (a.BeginPost? && id == a.id)
  {
    var t := Apply(s, a);
    forall id | Unsaved(t, id) ensures Unsaved(s, id) || (a.BeginPost? && id == a.id) {
      var g :| g in t.handlers && t.handlers[g].PostExec? && t.handlers[g].id == id;
      assert (g in s.handlers && s.handlers[g] == t.handlers[g]) || (a.BeginPost? && g == a.h);
    }
  }

  /** Only a POST whose bootstrap answered brings a new stored id, its own. */
  lemma StepIds(s: State, a: Action)
    requires Enabled(s, a)
    ensures Ids(Apply(s, a).servers) <= Ids(s.servers) + (if a.ExecAnswered? then {s.handlers[a.h].id} else {})
  {
    var t := Apply(s, a);
    if a.ExecAnswered? {
      if t.servers != s.servers { OthersAppend(s.servers, t.servers[|s.servers|]); }
    } else if a.BeginPatch? {
      UpdateFirstAt(s.servers, a.id, PatchUpdate(a.newName, None));
    } else if a.StopAnswered? {
      var x := s.handlers[a.h];
      if x.PatchStop? { UpdateFirstAt(s.servers, x.id, PatchUpdate(x.newName, x.newSsh)); }
      OthersIds(s.servers, x.id);
    } else if a.StartAnswered? {
      OthersIds(s.servers, s.handlers[a.h].id);
    }
  }

  lemma SetHandlerKeepsInv(initial: Servers, s: State, h: nat, x: Handler)
    requires Inv(initial, s) && !x.PostExec? && !x.PostStart? && x.id in s.minted && !Unsaved(s, x.id)
    requires h in s.handlers ==> !s.handlers[h].PostStart?
    ensures Inv(initial, s.(handlers := s.handlers[h := x]))
  {
    var t := s.(handlers := s.handlers[h := x]);
    SetStarting(s, h, x);
    forall id | Unsaved(t, id) ensures Unsaved(s, id) {
      var g :| g in t.handlers && t.handlers[g].PostExec? && t.handlers[g].id == id;
      assert s.handlers[g] == t.handlers[g];
    }
  }

  lemma UpdateKeepsInv(initial: Servers, s: State, id: string, u: Update)
    requires Inv(initial, s)
    ensures Inv(initial, s.(servers := UpdateFirst(s.servers, id, u)))
  {
    UpdateFirstAt(s.servers, id, u);
    var t := s.(servers := UpdateFirst(s.servers, id, u));
    assert forall x :: Unsaved(t, x) ==> Unsaved(s, x);
  }

  lemma FinishKeepsInv(initial: Servers, s: State, h: nat)
    requires Inv(initial, s) && h in s.handlers && !s.handlers[h].PostStart?
    ensures Inv(initial, Finish(s, h))
  {
    FinishStarting(s, h);
    assert forall x :: Unsaved(Finish(s, h), x) ==> Unsaved(s, x);
  }

  lemma BeginPatchKeepsInv(initial: Servers, s: State, a: Action)
    requires Inv(initial, s) && a.BeginPatch? && Enabled(s, a)
    ensures Inv(initial, Apply(s, a))
  {
    FindSpec(s.servers, a.id);
    if HasId(s.servers, a.id) {
      SetHandlerKeepsInv(initial, s, a.h, PatchStop(a.id, a.newName, a.newSsh));
      UpdateKeepsInv(initial, s, a.id, PatchUpdate(a.newName, None));
    }
  }

  lemma BeginDeleteKeepsInv(initial: Servers, s: State, a: Action)
    requires Inv(initial, s) && a.BeginDelete? && Enabled(s, a)
    ensures Inv(initial, Apply(s, a))
  {
    FindSpec(s.servers, a.id);
    if HasId(s.servers, a.id) { SetHandlerKeepsInv(initial, s, a.h, DeleteStop(a.id)); }
  }

  lemma CrashKeepsInv(initial: Servers, s: State)
    requires Inv(initial, s)
    ensures Inv(initial, Apply(s, Crash))
  {
    var t := Apply(s, Crash);
    assert Starting(t) == {};
    assert forall x :: !Unsaved(t, x);
  }

  /**
   * Every step keeps the books: ids stay unique, and the stored ids are the initial and created ones minus the
   * deleted.
   */
  lemma StepKeepsInv(initial: Servers, s: State, a: Action)
    requires Inv(initial, s) && Enabled(s, a)
    ensures Inv(initial, Apply(s, a))
  {
    match a {
      case BeginPost(_, _, _, _) => BeginPostKeepsInv(initial, s, a);
      case ExecAnswered(_, _, _, _) => ExecAnsweredKeepsInv(initial, s, a);
      case BeginPatch(_, _, _, _, _) => BeginPatchKeepsInv(initial, s, a);
      case BeginDelete(_, _) => BeginDeleteKeepsInv(initial, s, a);
      case StopAnswered(_, _) => StopKeepsInv(initial, s, a);
      case StartAnswered(_, _, _) => StartKeepsInv(initial, s, a);
      case Crash => CrashKeepsInv(initial, s);
    }
  }

  lemma StopKeepsInv(initial: Servers, s: State, a: Action)
    requires Inv(initial, s) && a.StopAnswered? && Enabled(s, a)
    ensures Inv(initial, Apply(s, a))
  {
    var x := s.handlers[a.h];
    FinishKeepsInv(initial, s, a.h);
    FindSpec(s.servers, x.id);
    forall g | g in s.handlers && s.handlers[g].PostExec? ensures s.handlers[g].id != x.id {
      assert g != a.h;
    }
    if x.PatchStop? {
      UpdateKeepsInv(initial, s, x.id, PatchUpdate(x.newName, x.newSsh));
      var s1 := s.(servers := UpdateFirst(s.servers, x.id, PatchUpdate(x.newName, x.newSsh)));
      SetHandlerKeepsInv(initial, s1, a.h, PatchStart(x.id));
    } else {
      DropKeepsInv(initial, Finish(s, a.h), x.id);
    }
  }

  /** Removing the entries of an id nobody waits to save, and counting it as deleted. */
  lemma DropKeepsInv(initial: Servers, s: State, id: string)
    requires Inv(initial, s) && id in s.minted && !Unsaved(s, id)
    ensures Inv(initial, s.(servers := Others(s.servers, id), deleted := s.deleted + {id}))
  {
    OthersIds(s.servers, id);
    OthersDistinct(s.servers, id);
    var t := s.(servers := Others(s.servers, id), deleted := s.deleted + {id});
    assert Starting(t) == Starting(s);
    assert forall other :: Unsaved(t, other) ==> Unsaved(s, other) && other != id;
  }

  /** The entry of a POST that waits for its tunnel is accounted for by that handler alone. */
  lemma FinishOwnStart(initial: Servers, s: State, h: nat)
    requires Inv(initial, s) && h in s.handlers && s.handlers[h].PostStart?
    ensures var id, t := s.handlers[h].id, Finish(s, h);
      && id in Starting(s) && Starting(t) == Starting(s) - {id}
      && forall other :: Unsaved(t, other) ==> Unsaved(s, other) && other != id
  {
    var t := Finish(s, h);
    FinishStarting(s, h);
    forall other | Unsaved(t, other) ensures Unsaved(s, other) && other != s.handlers[h].id {
      var g :| g in t.handlers && t.handlers[g].PostExec? && t.handlers[g].id == other;
      assert s.handlers[g] == t.handlers[g] && g != h;
    }
  }

  lemma ReadyKeepsInv(initial: Servers, s: State, h: nat)
    requires Inv(initial, s) && h in s.handlers && s.handlers[h].PostStart?
    ensures Inv(initial, Finish(s, h).(created := s.created + {s.handlers[h].id}))
  {
    var t := Finish(s, h).(created := s.created + {s.handlers[h].id});
    FinishOwnStart(initial, s, h);
    assert Starting(t) == Starting(Finish(s, h));
    assert forall id :: Unsaved(t, id) ==> Unsaved(Finish(s, h), id);
  }

  lemma KeptKeepsInv(initial: Servers, s: State, h: nat)
    requires Inv(initial, s) && h in s.handlers && s.handlers[h].PostStart?
    ensures Inv(initial, Finish(s, h).(kept := s.kept + {s.handlers[h].id}))
  {
    var t := Finish(s, h).(kept := s.kept + {s.handlers[h].id});
    FinishOwnStart(initial, s, h);
    assert Starting(t) == Starting(Finish(s, h));
    assert forall id :: Unsaved(t, id) ==> Unsaved(Finish(s, h), id);
  }

  lemma RollbackKeepsInv(initial: Servers, s: State, h: nat)
    requires Inv(initial, s) && h in s.handlers && s.handlers[h].PostStart?
    ensures Inv(initial, Finish(s, h).(servers := Others(s.servers, s.handlers[h].id)))
  {
    var id := s.handlers[h].id;
    var t := Finish(s, h).(servers := Others(s.servers, id));
    FinishOwnStart(initial, s, h);
    assert Starting(t) == Starting(Finish(s, h));
    assert forall other :: Unsaved(t, other) ==> Unsaved(Finish(s, h), other);
    OthersIds(s.servers, id);
    OthersDistinct(s.servers, id);
  }

  lemma StartKeepsInv(initial: Servers, s: State, a: Action)
    requires Inv(initial, s) && a.StartAnswered? && Enabled(s, a)
    ensures Inv(initial, Apply(s, a))
  {
    if s.handlers[a.h].PatchStart? {
      FinishKeepsInv(initial, s, a.h);
    } else {
      ReadyKeepsInv(initial, s, a.h);
      KeptKeepsInv(initial, s, a.h);
      RollbackKeepsInv(initial, s, a.h);
    }
  }

  lemma {:induction false} ExecInv(initial: Servers, acts: seq<Action>)
    requires DistinctIds(initial)
    ensures Inv(initial, Exec(initial, acts))
  {
    if acts == [] {
      assert Starting(Initial(initial)) == {};
      assert forall x :: !Unsaved(Initial(initial), x);
    } else {
      var s, a := Exec(initial, acts[..|acts| - 1]), acts[|acts| - 1];
      ExecInv(initial, acts[..|acts| - 1]);
      if Enabled(s, a) { StepKeepsInv(initial, s, a); }
    }
  }

  // ---------- main results ----------

  /**
    In every interleaving server ids stay unique, and once no handler is left the stored ids are exactly the
    initial ones, the POSTs answered 201 and the entries kept by a crash or a failed rollback write, minus the
    ids of DELETEs answered 204. So a failed POST leaves an entry behind exactly when its rollback was not written.
   */
  lemma QuiescentIds(initial: Servers, acts: seq<Action>)
    requires DistinctIds(initial) && Exec(initial, acts).handlers == map[]
    ensures var s := Exec(initial, acts);
      DistinctIds(s.servers) && Ids(s.servers) == Ids(initial) + s.created + s.kept - s.deleted
  {
    ExecInv(initial, acts);
    assert Starting(Exec(initial, acts)) == {};
  }

  /** The id was handed out, is not waiting to be saved and is not stored. */
  ghost predicate Gone(s: State, id: string) {
    id in s.minted && !Unsaved(s, id) && id !in Ids(s.servers)
  }

  lemma StepKeepsGone(initial: Servers, s: State, a: Action, id: string)
    requires Inv(initial, s) && Enabled(s, a) && Gone(s, id)
    ensures Gone(Apply(s, a), id)
  {
    StepIds(s, a);
    StepUnsaved(s, a);
    if a.ExecAnswered? { assert Unsaved(s, s.handlers[a.h].id); }
  }

  /**
   * Once a stored server has disappeared, no step of any handler, a PATCH in flight included, ever stores its id
   * again.
   */
  lemma {:induction false} NeverResurrected(initial: Servers, acts: seq<Action>, m: nat, n: nat, id: string)
    requires DistinctIds(initial) && m <= n <= |acts|
    requires id in Ids(Exec(initial, acts[..m]).servers) && id !in Ids(Exec(initial, acts[..n]).servers)
    ensures id !in Ids(Exec(initial, acts).servers)
    ensures Gone(Exec(initial, acts), id)
  {
    if n == |acts| {
      assert acts[..n] == acts;
      StoredStaysSaved(initial, acts, m, id);
    } else {
      var front, a := acts[..|acts| - 1], acts[|acts| - 1];
      assert front[..m] == acts[..m] && front[..n] == acts[..n];
      NeverResurrected(initial, front, m, n, id);
      ExecInv(initial, front);
      if Enabled(Exec(initial, front), a) { StepKeepsGone(initial, Exec(initial, front), a, id); }
    }
  }

  lemma {:induction false} StoredStaysSaved(initial: Servers, acts: seq<Action>, m: nat, id: string)
    requires DistinctIds(initial) && m <= |acts| && id in Ids(Exec(initial, acts[..m]).servers)
    ensures id in Exec(initial, acts).minted && !Unsaved(Exec(initial, acts), id)
  {
    ExecInv(initial, acts);
    if m == |acts| {
      assert acts[..m] == acts;
    } else {
      var front, a := acts[..|acts| - 1], acts[|acts| - 1];
      assert front[..m] == acts[..m];
      StoredStaysSaved(initial, front, m, id);
      if Enabled(Exec(initial, front), a) { StepUnsaved(Exec(initial, front), a); }
    }
  }

  /** The server a step works on. */
  function Target(s: State, a: Action): string
    requires Enabled(s, a)
  {
    match a
    case BeginPost(_, id, _, _) => id
    case BeginPatch(_, id, _, _, _) => id
    case BeginDelete(_, id) => id
    case Crash => ""
    case _ => s.handlers[a.h].id
  }

  /** No step of a handler disturbs another server: the entries of every other id stay as they are, in order. */
  lemma StepLeavesOthers(s: State, a: Action, other: string)
    requires Enabled(s, a) && other != Target(s, a)
    ensures Find(Apply(s, a).servers, other) == Find(s.servers, other)
    ensures Others(Apply(s, a).servers, Target(s, a)) == Others(s.servers, Target(s, a))
  {
    var t := Apply(s, a);
    var id := Target(s, a);
    if a.ExecAnswered? {
      if t.servers != s.servers { OthersAppend(s.servers, t.servers[|s.servers|]); }
    } else if a.BeginPatch? {
      UpdateFirstSpec(s.servers, id, PatchUpdate(a.newName, None));
    } else if a.StopAnswered? {
      var x := s.handlers[a.h];
      if x.PatchStop? { UpdateFirstSpec(s.servers, id, PatchUpdate(x.newName, x.newSsh)); }
    }
    OthersTwice(s.servers, id);
    FindAmongOthers(s.servers, id, other);
    FindAmongOthers(t.servers, id, other);
  }

  lemma {:induction false} OthersTwice(servers: Servers, id: string)
    ensures Others(Others(servers, id), id) == Others(servers, id)
  {
    if servers != [] {
      OthersTwice(servers[1..], id);
      if servers[0].id != id { assert Others(servers, id)[1..] == Others(servers[1..], id); }
      else { assert Others(servers, id) == Others(servers[1..], id); }
    }
  }

  lemma {:induction false} FindAmongOthers(servers: Servers, id: string, other: string)
    requires other != id
    ensures Find(Others(servers, id), other) == Find(servers, other)
  {
    if servers != [] {
      FindAmongOthers(servers[1..], id, other);
      if servers[0].id != id { assert Others(servers, id)[1..] == Others(servers[1..], id); }
      else { assert Others(servers, id) == Others(servers[1..], id); }
    }
  }

  /** Whatever a PATCH writes, the server keeps its id, token and label. */
  lemma PatchKeepsCredentials(s: State, a: Action, id: string)
    requires Enabled(s, a) && (a.BeginPatch? || (a.StopAnswered? && s.handlers[a.h].PatchStop?)) && Target(s, a) == id
    requires Find(s.servers, id).Some?
    ensures Find(Apply(s, a).servers, id).Some?
    ensures var before, after := Find(s.servers, id).value, Find(Apply(s, a).servers, id).value;
      after.id == before.id && after.token == before.token && after.tokenLabel == before.tokenLabel
      && (before.ssh.host != "" ==> after.ssh.host != "")
  {
    UpdateFirstSpec(s.servers, id,
                    if a.BeginPatch? then PatchUpdate(a.newName, None)
                    else PatchUpdate(s.handlers[a.h].newName, s.handlers[a.h].newSsh));
  }
}
