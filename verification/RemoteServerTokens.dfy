/** What the pipelines store for a created server, beyond its id. */
module RemoteServerTokens {
  import opened Wrappers
  import opened RemoteServers
  import opened RemoteServerSaga
  import opened Text

  /** A server that is not one of the initial ones carries a well-formed token, a label and a host. */
  predicate Credentialed(x: Server) {
    x.token.Some? && IsToken(x.token.value) && x.tokenLabel.Some? && x.ssh.host != ""
  }

  ghost predicate NewOnesCredentialed(initial: Servers, s: State) {
    && (forall x :: x in s.servers && x.id !in Ids(initial) ==> Credentialed(x))
    && (forall h :: h in s.handlers && s.handlers[h].PostExec? ==> s.handlers[h].ssh.host != "")
  }

  lemma {:induction false} UpdatedMembers(servers: Servers, id: string, u: Update, x: Server)
    requires x in UpdateFirst(servers, id, u)
    ensures x in servers || exists y :: y in servers && y.id == id && x == Updated(y, u)
  {
    if servers != [] {
      if servers[0].id == id {
        assert x == Updated(servers[0], u) || x in servers[1..];
      } else if x != servers[0] {
        UpdatedMembers(servers[1..], id, u, x);
      }
    }
  }

  lemma PatchKeepsCredentialed(initial: Servers, servers: Servers, id: string, name: Option<string>,
        ssh: Option<SshPatch>)
    requires forall x :: x in servers && x.id !in Ids(initial) ==> Credentialed(x)
    ensures forall x :: x in UpdateFirst(servers, id, PatchUpdate(name, ssh)) && x.id !in Ids(initial) ==>
              Credentialed(x)
  {
    var u := PatchUpdate(name, ssh);
    forall x | x in UpdateFirst(servers, id, u) && x.id !in Ids(initial) ensures Credentialed(x) {
      UpdatedMembers(servers, id, u, x);
      if x !in servers {
        var y :| y in servers && y.id == id && x == Updated(y, u);
        assert Credentialed(y);
      }
    }
  }

  lemma StepKeepsCredentialed(initial: Servers, s: State, a: Action)
    requires Enabled(s, a) && NewOnesCredentialed(initial, s)
    ensures NewOnesCredentialed(initial, Apply(s, a))
  {
    if a.BeginPatch? {
      PatchKeepsCredentialed(initial, s.servers, a.id, a.newName, None);
    } else if a.StopAnswered? {
      var x := s.handlers[a.h];
      if x.PatchStop? { PatchKeepsCredentialed(initial, s.servers, x.id, x.newName, x.newSsh); }
      OthersMembers(s.servers, x.id);
    } else if a.StartAnswered? {
      OthersMembers(s.servers, s.handlers[a.h].id);
    }
  }

  /**
   * In every run each stored server that was not there at the start has a host, a label, and a token of the shape
   * the bootstrap must print: nothing is stored before that output has been checked, and no PATCH takes it away.
   */
  lemma {:induction false} CreatedServersAreCredentialed(initial: Servers, acts: seq<Action>)
    ensures NewOnesCredentialed(initial, Exec(initial, acts))
  {
    if acts == [] {
      forall x | x in initial ensures x.id in Ids(initial) { IdsMembers(initial, x.id); }
    } else {
      var s, a := Exec(initial, acts[..|acts| - 1]), acts[|acts| - 1];
      CreatedServersAreCredentialed(initial, acts[..|acts| - 1]);
      if Enabled(s, a) { StepKeepsCredentialed(initial, s, a); }
    }
  }

  /** The command ended well and printed nothing but `token`: 20 or more token characters, white space around them. */
  ghost predicate Printed(answer: ExecAnswer, token: string) {
    && answer.Exited? && answer.code == 0 && token == Trim(answer.stdout) && |token| >= 20
    && forall i :: 0 <= i < |token| ==> TokenChar(token[i])
  }

  /**
   * The step that saves a new server stores what the request gave and the token the bootstrap printed, and nothing is
   * saved unless it printed one.
   */
  lemma SavedAsGiven(initial: Servers, s: State, a: Action)
    requires Inv(initial, s) && Enabled(s, a) && a.ExecAnswered?
    ensures var x, t := s.handlers[a.h], Apply(s, a);
            && (HasId(t.servers, x.id) <==> a.writes && exists token :: Printed(a.answer, token))
            && (forall token :: Printed(a.answer, token) && a.writes ==>
                  t.servers == s.servers + [Server(x.id, x.name, x.ssh, Some(token), Some(a.tokenLabel))])
            && (!HasId(t.servers, x.id) ==> t.servers == s.servers)
  {
    var x := s.handlers[a.h];
    assert Unsaved(s, x.id);
    FindSpec(s.servers, x.id);
    FindSpec(Apply(s, a).servers, x.id);
    forall token ensures Printed(a.answer, token) <==> TokenFrom(a.answer) == Some(token) { }
    if TokenFrom(a.answer).Some? && a.writes {
      OthersAppend(s.servers, Server(x.id, x.name, x.ssh, TokenFrom(a.answer), Some(a.tokenLabel)));
    }
  }
}
