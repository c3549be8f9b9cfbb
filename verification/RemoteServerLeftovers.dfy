/** When a POST that did not succeed leaves its entry behind. */
module RemoteServerLeftovers {
  import opened RemoteServers
  import opened RemoteServerSaga
  import opened Text
  import opened Wrappers

  /**
   * A step that leaves the entry `id` of an unfinished POST behind: a crash while its tunnel is awaited, or a tunnel
   * that does not come up and a rollback that cannot be written.
   */
  predicate LeavesBehind(s: State, a: Action, id: string) {
    || (a.Crash? && id in Starting(s))
    || (a.StartAnswered? && a.h in s.handlers && s.handlers[a.h] == PostStart(id)
        && !a.ready && !a.writes && HasId(s.servers, id))
  }

  ghost predicate LeftBehindAt(initial: Servers, acts: seq<Action>, i: nat, id: string) {
    i < |acts| && LeavesBehind(Exec(initial, acts[..i]), acts[i], id)
  }

  ghost predicate WasLeftBehind(initial: Servers, acts: seq<Action>, id: string) {
    exists i: nat | i < |acts| :: LeftBehindAt(initial, acts, i, id)
  }

  lemma StepKept(s: State, a: Action, id: string)
    ensures id in Next(s, a).kept <==> id in s.kept || LeavesBehind(s, a, id)
  {
  }

  /** In every run the entries kept are exactly those some step left behind. */
  lemma {:induction false} KeptIffLeftBehind(initial: Servers, acts: seq<Action>, id: string)
    ensures id in Exec(initial, acts).kept <==> WasLeftBehind(initial, acts, id)
  {
    if acts != [] {
      var front, n := acts[..|acts| - 1], |acts| - 1;
      KeptIffLeftBehind(initial, front, id);
      StepKept(Exec(initial, front), acts[n], id);
      forall i: nat | i < n ensures LeftBehindAt(initial, front, i, id) == LeftBehindAt(initial, acts, i, id) {
        assert front[..i] == acts[..i];
      }
      assert acts[..n] == front;
      assert LeftBehindAt(initial, acts, n, id) == LeavesBehind(Exec(initial, front), acts[n], id);
    }
  }

  /**
   * Once no handler is left, the list on disk holds the entry of a POST that was not answered 201 if and only if some
   * step left it behind and no DELETE of it was answered 204.
   */
  lemma StoredIffLeftBehind(initial: Servers, acts: seq<Action>, id: string)
    requires DistinctIds(initial) && Exec(initial, acts).handlers == map[]
    requires id !in Ids(initial) && id !in Exec(initial, acts).created
    ensures HasId(Exec(initial, acts).servers, id) <==>
      WasLeftBehind(initial, acts, id) && id !in Exec(initial, acts).deleted
  {
    QuiescentIds(initial, acts);
    KeptIffLeftBehind(initial, acts, id);
    FindSpec(Exec(initial, acts).servers, id);
  }

  /** With a disk that writes and no crash, nothing is ever left behind. */
  lemma NothingKept(initial: Servers, acts: seq<Action>)
    requires forall i :: 0 <= i < |acts| ==> acts[i] != Crash && (acts[i].StartAnswered? ==> acts[i].writes)
    ensures Exec(initial, acts).kept == {}
  {
    forall id ensures id !in Exec(initial, acts).kept { KeptIffLeftBehind(initial, acts, id); }
  }

  // ---------- runs that leave an entry behind ----------

  const TOKEN := "abcdefghijklmnopqrstuvwxyz"
  const BOX := Ssh("build.example.org", None, None, None, None)

  function Steps(last: Action): seq<Action> {
    [BeginPost(0, "a", "box", BOX), ExecAnswered(0, Exited(0, TOKEN), "ci", true), last]
  }

  lemma TokenIsAccepted()
    ensures TokenFrom(Exited(0, TOKEN)) == Some(TOKEN)
  {
    assert |TOKEN| == 26 && !IsSpace(TOKEN[0]) && !IsSpace(TOKEN[25]);
    assert TrimStart(TOKEN) == TOKEN && TrimEnd(TOKEN) == TOKEN;
    assert IsToken(TOKEN);
  }

  lemma SavedState(last: Action)
    ensures var s := Exec([], Steps(last)[..2]);
            && s.servers == [Server("a", "box", BOX, Some(TOKEN), Some("ci"))]
            && s.handlers == map[0 := PostStart("a")] && s.kept == {}
            && Exec([], Steps(last)) == Next(s, last)
  {
    var acts := Steps(last);
    TokenIsAccepted();
    assert acts[..2][..1] == [acts[0]] && [acts[0]][..0] == [] && acts[..|acts| - 1] == acts[..2];
    var s1 := Next(Initial([]), acts[0]);
    assert Exec([], [acts[0]]) == s1;
    assert s1.handlers == map[0 := PostExec("a", "box", BOX)];
    assert Exec([], acts[..2]) == Next(s1, acts[1]);
    assert !HasId(s1.servers, "a");
  }

  /** A crash before the tunnel answers, and a rollback that is not written, each leave the entry of a failed POST. */
  lemma FailedPostsMayBeKept()
    ensures Exec([], Steps(Crash)).kept == {"a"} && HasId(Exec([], Steps(Crash)).servers, "a")
    ensures var s := Exec([], Steps(StartAnswered(0, false, false))); s.kept == {"a"} && HasId(s.servers, "a")
  {
    forall last | last == Crash || last == StartAnswered(0, false, false)
      ensures Exec([], Steps(last)).kept == {"a"} && HasId(Exec([], Steps(last)).servers, "a")
    {
      SavedState(last);
      var s := Exec([], Steps(last)[..2]);
      assert s.servers[0].id == "a" && HasId(s.servers, "a");
      assert s.handlers[0] == PostStart("a") && Starting(s) == {"a"};
      StepKept(s, last, "a");
    }
  }
}
