/** What a PATCH of a remote server writes, field by field, from its body to the stored list; and what a DELETE does. */
module RemoteServerPatches {
  import opened Wrappers
  import opened RemoteServers
  import opened RemoteServerSaga

  predicate LeavesOrEquals<T(==)>(given: Option<T>, current: Option<T>) { given.None? || given == current }

  /** The body asks for no ssh field other than it is stored. */
  predicate AsStored(given: Option<SshPatch>, current: Ssh) {
    given.Some? ==>
      && LeavesOrEquals(given.value.host, Some(current.host))
      && LeavesOrEquals(given.value.user, current.user)
      && LeavesOrEquals(given.value.port, current.port)
      && LeavesOrEquals(given.value.identityFile, current.identityFile)
      && LeavesOrEquals(given.value.remotePort, current.remotePort)
  }

  /** What a PATCH asks for. It has no say about the token fields. */
  function Asked(name: Option<string>, ssh: Option<SshPatch>): Update { Update(name, ssh, Keep, Keep) }

  /** The stored entry of `id` has gone from `before` to what the PATCH asks of it. */
  predicate Patched(before: Servers, after: Servers, id: string, name: Option<string>, ssh: Option<SshPatch>) {
    && Find(before, id).Some? && Find(after, id).Some?
    && Carries(Asked(name, ssh), Find(before, id).value, Find(after, id).value)
  }

  /**
   * A PATCH that differs from a stored ssh field goes on to stop the tunnel and writes nothing yet; any other is done
   * at once, and then the entry is as it asks unless the disk failed.
   */
  lemma PatchBegins(s: State, a: Action)
    requires a.BeginPatch? && Enabled(s, a) && HasId(s.servers, a.id)
    ensures Find(s.servers, a.id).Some?
    ensures var t := Apply(s, a);
      if AsStored(a.newSsh, Find(s.servers, a.id).value.ssh)
      then t.handlers == s.handlers
           && (if a.writes then Patched(s.servers, t.servers, a.id, a.newName, a.newSsh) else t.servers == s.servers)
      else t.servers == s.servers && t.handlers == s.handlers[a.h := PatchStop(a.id, a.newName, a.newSsh)]
  {
    FindSpec(s.servers, a.id);
    UpdateCarries(s.servers, a.id, PatchUpdate(a.newName, None));
  }

  /** Once the tunnel is stopped the entry is as the PATCH asks, if it is still there and the disk writes. */
  lemma PatchWrites(s: State, a: Action)
    requires a.StopAnswered? && Enabled(s, a) && s.handlers[a.h].PatchStop?
    ensures var x, t := s.handlers[a.h], Apply(s, a);
      if HasId(s.servers, x.id) && a.writes
      then Patched(s.servers, t.servers, x.id, x.newName, x.newSsh)
           && t.handlers == s.handlers[a.h := PatchStart(x.id)]
      else t.servers == s.servers && t.handlers == s.handlers - {a.h}
  {
    var x := s.handlers[a.h];
    if HasId(s.servers, x.id) { UpdateCarries(s.servers, x.id, PatchUpdate(x.newName, x.newSsh)); }
  }

  /**
   * A DELETE is answered 204, and then no entry of its id is stored, unless there is one and the disk fails; an entry
   * that has gone meanwhile is no failure.
   */
  lemma DeleteWrites(s: State, a: Action)
    requires a.StopAnswered? && Enabled(s, a) && s.handlers[a.h].DeleteStop?
    ensures var id, t := s.handlers[a.h].id, Apply(s, a);
      && t.handlers == s.handlers - {a.h}
      && (if HasId(s.servers, id) && !a.writes then t.servers == s.servers && t.deleted == s.deleted
          else t.deleted == s.deleted + {id} && forall x :: x in t.servers <==> x in s.servers && x.id != id)
  {
    OthersMembers(s.servers, s.handlers[a.h].id);
  }

  /** A handler waits for its own answer, whatever the others do, unless the daemon stops. */
  lemma StepWaits(s: State, a: Action, h: nat)
    requires h in s.handlers && s.handlers[h].PatchStop? && a != Crash && !(a.StopAnswered? && a.h == h)
    ensures h in Next(s, a).handlers && Next(s, a).handlers[h] == s.handlers[h]
  {
  }

  lemma {:induction false} PatchWaits(initial: Servers, acts: seq<Action>, i: nat, j: nat, h: nat)
    requires i <= j <= |acts|
    requires h in Exec(initial, acts[..i]).handlers && Exec(initial, acts[..i]).handlers[h].PatchStop?
    requires forall k :: i <= k < j ==> acts[k] != Crash && !(acts[k].StopAnswered? && acts[k].h == h)
    ensures h in Exec(initial, acts[..j]).handlers
    ensures Exec(initial, acts[..j]).handlers[h] == Exec(initial, acts[..i]).handlers[h]
    decreases j
  {
    if i < j {
      PatchWaits(initial, acts, i, j - 1, h);
      assert acts[..j][..j - 1] == acts[..j - 1];
      StepWaits(Exec(initial, acts[..j - 1]), acts[j - 1], h);
    }
  }

  /** PATCH step `i` of the run is answered at step `j`: the tunnel is stopped and the disk writes. */
  ghost predicate AnsweredAt(acts: seq<Action>, i: nat, j: nat) {
    && i < j < |acts| && acts[i].BeginPatch? && acts[j] == StopAnswered(acts[i].h, true)
    && forall k :: i < k < j ==> acts[k] != Crash && !(acts[k].StopAnswered? && acts[k].h == acts[i].h)
  }

  /**
   * In every run, whatever other handlers do in between: a PATCH that differs from a stored ssh field is, once its
   * tunnel is stopped and if the server is still there, written as it was asked for.
   */
  lemma PatchIsCarriedOut(initial: Servers, acts: seq<Action>, i: nat, j: nat)
    requires AnsweredAt(acts, i, j) && Enabled(Exec(initial, acts[..i]), acts[i])
    requires HasId(Exec(initial, acts[..i]).servers, acts[i].id) && HasId(Exec(initial, acts[..j]).servers, acts[i].id)
    requires Find(Exec(initial, acts[..i]).servers, acts[i].id).Some?
             && !AsStored(acts[i].newSsh, Find(Exec(initial, acts[..i]).servers, acts[i].id).value.ssh)
    ensures Patched(Exec(initial, acts[..j]).servers, Exec(initial, acts[..j + 1]).servers, acts[i].id,
                    acts[i].newName, acts[i].newSsh)
  {
    PatchBegins(Exec(initial, acts[..i]), acts[i]);
    assert acts[..i + 1][..i] == acts[..i] && acts[..j + 1][..j] == acts[..j];
    PatchWaits(initial, acts, i + 1, j, acts[i].h);
    PatchWrites(Exec(initial, acts[..j]), acts[j]);
  }
}
