/**
  The list of remote servers in the rc file. `RemoteServerFile` is the stored field as the helpers read and
  rewrite it: reading drops entries that are not usable, and a write that throws leaves the field alone.
 */
module RemoteServers {
  import opened Wrappers

  datatype Ssh = Ssh(host: string, user: Option<string>, port: Option<nat>, identityFile: Option<string>,
        remotePort: Option<nat>)

  datatype Server = Server(id: string, name: string, ssh: Ssh, token: Option<string>, tokenLabel: Option<string>)

  /** One stored element: of the wrong shape, or an entry that may still lack a host. */
  datatype RawServer = Malformed | Entry(server: Server)

  datatype SshPatch = SshPatch(host: Option<string>, user: Option<string>, port: Option<nat>,
                               identityFile: Option<string>, remotePort: Option<nat>)

  /** A field of an update: left out, `null`, or a string. */
  datatype TextField = Keep | Clear | Replace(text: string)

  datatype Update = Update(name: Option<string>, ssh: Option<SshPatch>, token: TextField, tokenLabel: TextField)

  type Servers = seq<Server>

  predicate IsValidEntry(r: RawServer) {
    r.Entry? && r.server.ssh.host != ""
  }

  function ValidServers(stored: seq<RawServer>): Servers {
    if stored == [] then []
    else (if IsValidEntry(stored[0]) then [stored[0].server] else []) + ValidServers(stored[1..])
  }

  function AsStored(servers: Servers): seq<RawServer> {
    seq(|servers|, i requires 0 <= i < |servers| => Entry(servers[i]))
  }

  // ---------- the list operations ----------

  predicate HasId(servers: Servers, id: string) {
    exists i :: 0 <= i < |servers| && servers[i].id == id
  }

  function Find(servers: Servers, id: string): Option<Server> {
    if servers == [] then None else if servers[0].id == id then Some(servers[0]) else Find(servers[1..], id)
  }

  function Or<T>(patch: Option<T>, current: Option<T>): Option<T> {
    if patch.Some? then patch else current
  }

  function MergeSsh(current: Ssh, patch: SshPatch): Ssh {
    Ssh(if patch.host.Some? && patch.host.value != "" then patch.host.value else current.host,
        Or(patch.user, current.user), Or(patch.port, current.port),
        Or(patch.identityFile, current.identityFile), Or(patch.remotePort, current.remotePort))
  }

  function NewText(field: TextField, current: Option<string>): Option<string> {
    match field
    case Keep => current
    case Clear => None
    case Replace(t) => if t == "" then None else Some(t)
  }

  function Updated(s: Server, u: Update): Server {
    Server(s.id,
           if u.name.Some? then u.name.value else s.name,
           if u.ssh.Some? then MergeSsh(s.ssh, u.ssh.value) else s.ssh,
           NewText(u.token, s.token), NewText(u.tokenLabel, s.tokenLabel))
  }

  // ---------- what an update says ----------

  /** A field that is given is the new value; one that is left out stays. */
  predicate Sets<T(==)>(given: Option<T>, before: Option<T>, after: Option<T>) {
    (given.Some? ==> after == given) && (given.None? ==> after == before)
  }

  /** As `Sets`, but `null` and the empty text clear the field. */
  predicate SetsText(given: TextField, before: Option<string>, after: Option<string>) {
    match given
    case Keep => after == before
    case Clear => after == None
    case Replace(t) => if t == "" then after == None else after == Some(t)
  }

  predicate SetsHost(given: Option<string>, before: string, after: string) {
    (given.Some? && given.value != "" ==> after == given.value)
    && (given.None? || given.value == "" ==> after == before)
  }

  predicate SetsSsh(given: SshPatch, before: Ssh, after: Ssh) {
    && SetsHost(given.host, before.host, after.host)
    && Sets(given.user, before.user, after.user)
    && Sets(given.port, before.port, after.port)
    && Sets(given.identityFile, before.identityFile, after.identityFile)
    && Sets(given.remotePort, before.remotePort, after.remotePort)
  }

  /** `after` is `before` with the fields of the update, field by field, and the same id. */
  predicate Carries(u: Update, before: Server, after: Server) {
    && after.id == before.id
    && Sets(u.name, Some(before.name), Some(after.name))
    && (u.ssh.Some? ==> SetsSsh(u.ssh.value, before.ssh, after.ssh))
    && (u.ssh.None? ==> after.ssh == before.ssh)
    && SetsText(u.token, before.token, after.token)
    && SetsText(u.tokenLabel, before.tokenLabel, after.tokenLabel)
  }

  /** The first entry with the id is replaced in place. */
  function UpdateFirst(servers: Servers, id: string, u: Update): Servers {
    if servers == [] then []
    else if servers[0].id == id then [Updated(servers[0], u)] + servers[1..]
    else [servers[0]] + UpdateFirst(servers[1..], id, u)
  }

  /** The entries of every other id, in order: what deleting `id` leaves, and what no operation on `id` may change. */
  function Others(servers: Servers, id: string): Servers {
    if servers == [] then []
    else (if servers[0].id == id then [] else [servers[0]]) + Others(servers[1..], id)
  }

  function Ids(servers: Servers): set<string> {
    set i | 0 <= i < |servers| :: servers[i].id
  }

  ghost predicate DistinctIds(servers: Servers) {
    forall i, j :: 0 <= i < j < |servers| ==> servers[i].id != servers[j].id
  }

  class RemoteServerFile {
    var stored: Option<seq<RawServer>>

    constructor (stored: Option<seq<RawServer>>)
      ensures this.stored == stored
    {
      this.stored := stored;
    }

    function Servers(): Servers
      reads this
    {
      if stored.Some? then ValidServers(stored.value) else []
    }

    method Save(servers: Servers, writes: bool)
      modifies this
      ensures stored == if writes then Some(AsStored(servers)) else old(stored)
    {
      if writes { stored := Some(AsStored(servers)); }
    }

    /** `addRemoteServerWithToken`; a colliding id or a failing write is the thrown error. Without a host the entry is
        written, but never read back. */
    method Add(server: Server, writes: bool) returns (ok: bool)
      modifies this
      ensures ok <==> writes && !HasId(old(Servers()), server.id)
      ensures stored == if ok then Some(AsStored(old(Servers()) + [server])) else old(stored)
      ensures Servers() == if ok && server.ssh.host != "" then old(Servers()) + [server] else old(Servers())
    {
      var servers := Servers();
      ServersHaveHosts(if stored.Some? then stored.value else []);
      if HasId(servers, server.id) { return false; }
      Save(servers + [server], writes);
      ReadBackOneMore(servers, server);
      return writes;
    }

    /** `updateRemoteServer`: `None` when there is no such entry; a failing write is the thrown error. */
    method UpdateEntry(id: string, u: Update, writes: bool) returns (ok: bool, updated: Option<Server>)
      modifies this
      ensures updated.None? <==> !HasId(old(Servers()), id)
      ensures updated.Some? ==>
                Find(old(Servers()), id).Some? && Carries(u, Find(old(Servers()), id).value, updated.value)
      ensures updated.Some? && writes ==> Find(Servers(), id) == updated
      ensures ok <==> writes || updated.None?
      ensures Servers() == if writes then UpdateFirst(old(Servers()), id, u) else old(Servers())
      ensures !writes || updated.None? ==> stored == old(stored)
    {
      var servers := Servers();
      ServersHaveHosts(if stored.Some? then stored.value else []);
      FindSpec(servers, id);
      UpdateFirstAt(servers, id, u);
      UpdateFirstSpec(servers, id, u);
      var current := Find(servers, id);
      if current.None? { return true, None; }
      Save(UpdateFirst(servers, id, u), writes);
      if writes { ReadBack(UpdateFirst(servers, id, u)); }
      return writes, Some(Updated(current.value, u));
    }

    /** `deleteRemoteServer`: false when there was nothing to delete; a failing write is the thrown error. */
    method Delete(id: string, writes: bool) returns (ok: bool, removed: bool)
      modifies this
      ensures removed <==> HasId(old(Servers()), id)
      ensures ok <==> writes || !removed
      ensures Servers() == if ok then Others(old(Servers()), id) else old(Servers())
      ensures !ok || !removed ==> stored == old(stored)
    {
      var before := Servers();
      ServersHaveHosts(if stored.Some? then stored.value else []);
      OthersSpec(before, id);
      OthersMembers(before, id);
      FindSpec(before, id);
      var after := Others(before, id);
      if |after| == |before| { return true, false; }
      Save(after, writes);
      if writes { ReadBack(after); }
      return writes, true;
    }
  }

  // ---------- facts about the list operations ----------

  lemma {:induction false} ServersHaveHosts(stored: seq<RawServer>)
    ensures forall s :: s in ValidServers(stored) ==> s.ssh.host != ""
  {
    if stored != [] { ServersHaveHosts(stored[1..]); }
  }

  /** What was saved is what is read: every usable entry survives the round trip through the file. */
  lemma {:induction false} ReadBack(servers: Servers)
    requires forall s :: s in servers ==> s.ssh.host != ""
    ensures ValidServers(AsStored(servers)) == servers
  {
    if servers != [] {
      ReadBack(servers[1..]);
      assert AsStored(servers)[1..] == AsStored(servers[1..]);
    }
  }

  lemma {:induction false} ReadBackOneMore(servers: Servers, s: Server)
    requires forall x :: x in servers ==> x.ssh.host != ""
    ensures ValidServers(AsStored(servers + [s])) == if s.ssh.host != "" then servers + [s] else servers
  {
    if servers == [] {
      assert AsStored([s]) == [Entry(s)] && AsStored([s])[1..] == [];
      assert servers + [s] == [s];
    } else {
      ReadBackOneMore(servers[1..], s);
      assert (servers + [s])[1..] == servers[1..] + [s];
      assert AsStored(servers + [s])[1..] == AsStored(servers[1..] + [s]);
      assert servers == [servers[0]] + servers[1..];
    }
  }

  /** Reading takes each stored element by itself, in order: an entry with a host is a server, anything else nothing. */
  lemma {:induction false} ReadsEachElement(a: seq<RawServer>, b: seq<RawServer>, r: RawServer)
    ensures ValidServers(a + b) == ValidServers(a) + ValidServers(b)
    ensures ValidServers([r]) == if r.Entry? && r.server.ssh.host != "" then [r.server] else []
  {
    assert [r][1..] == [];
    if a == [] {
      assert a + b == b;
    } else {
      assert (a + b)[1..] == a[1..] + b;
      ReadsEachElement(a[1..], b, r);
    }
  }

  lemma {:induction false} FindFirst(servers: Servers, id: string)
    ensures match Find(servers, id)
      case Some(s) => s in servers && s.id == id
      case None => forall s :: s in servers ==> s.id != id
  {
    if servers != [] {
      FindFirst(servers[1..], id);
      assert servers == [servers[0]] + servers[1..];
    }
  }

  lemma FindSpec(servers: Servers, id: string)
    ensures Find(servers, id).Some? <==> HasId(servers, id)
    ensures HasId(servers, id) <==> id in Ids(servers)
    ensures Find(servers, id).Some? ==> Find(servers, id).value in servers && Find(servers, id).value.id == id
  {
    FindFirst(servers, id);
    if Find(servers, id).Some? {
      var i :| 0 <= i < |servers| && servers[i] == Find(servers, id).value;
    }
  }

  lemma SameIds(a: Servers, b: Servers)
    requires |a| == |b| && forall i :: 0 <= i < |a| ==> a[i].id == b[i].id
    ensures Ids(a) == Ids(b)
  {
  }

  /** An update keeps every id and every host non-empty, in place. */
  lemma {:induction false} UpdateFirstAt(servers: Servers, id: string, u: Update)
    ensures |UpdateFirst(servers, id, u)| == |servers|
    ensures forall i :: 0 <= i < |servers| ==> UpdateFirst(servers, id, u)[i].id == servers[i].id
    ensures forall i :: 0 <= i < |servers| && servers[i].ssh.host != "" ==>
              UpdateFirst(servers, id, u)[i].ssh.host != ""
    ensures Ids(UpdateFirst(servers, id, u)) == Ids(servers)
  {
    if servers != [] {
      UpdateFirstAt(servers[1..], id, u);
    }
    SameIds(servers, UpdateFirst(servers, id, u));
  }

  /** An update touches the first entry of its id and no entry of any other id. */
  lemma {:induction false} UpdateFirstSpec(servers: Servers, id: string, u: Update)
    ensures Others(UpdateFirst(servers, id, u), id) == Others(servers, id)
    ensures Find(servers, id).Some? ==>
              Find(UpdateFirst(servers, id, u), id) == Some(Updated(Find(servers, id).value, u))
    ensures Find(servers, id).None? ==> UpdateFirst(servers, id, u) == servers
  {
    if servers != [] {
      var t := UpdateFirst(servers, id, u);
      if servers[0].id == id {
        assert t[1..] == servers[1..];
      } else {
        UpdateFirstSpec(servers[1..], id, u);
        assert t[1..] == UpdateFirst(servers[1..], id, u);
      }
    }
  }

  /** After an update the entry of the id holds every field of the update, and its other fields are as before. */
  lemma UpdateCarries(servers: Servers, id: string, u: Update)
    requires HasId(servers, id)
    ensures var before, after := Find(servers, id), Find(UpdateFirst(servers, id, u), id);
            before.Some? && after.Some? && Carries(u, before.value, after.value)
  {
    FindSpec(servers, id);
    UpdateFirstSpec(servers, id, u);
  }

  lemma {:induction false} OthersMembers(servers: Servers, id: string)
    ensures forall s :: s in Others(servers, id) <==> s in servers && s.id != id
  {
    if servers != [] {
      OthersMembers(servers[1..], id);
      assert servers == [servers[0]] + servers[1..];
    }
  }

  lemma IdsMembers(servers: Servers, x: string)
    ensures x in Ids(servers) <==> exists s :: s in servers && s.id == x
  {
  }

  lemma OthersIds(servers: Servers, id: string)
    ensures Ids(Others(servers, id)) == Ids(servers) - {id}
  {
    OthersMembers(servers, id);
    forall x ensures x in Ids(Others(servers, id)) <==> x in Ids(servers) - {id} {
      IdsMembers(servers, x);
      IdsMembers(Others(servers, id), x);
    }
  }

  lemma {:induction false} OthersSpec(servers: Servers, id: string)
    ensures |Others(servers, id)| <= |servers|
    ensures |Others(servers, id)| == |servers| <==> Find(servers, id).None?
    ensures Find(servers, id).None? ==> Others(servers, id) == servers
  {
    if servers != [] { OthersSpec(servers[1..], id); }
  }

  lemma {:induction false} OthersDistinct(servers: Servers, id: string)
    requires DistinctIds(servers)
    ensures DistinctIds(Others(servers, id))
  {
    if servers != [] {
      var rest := Others(servers[1..], id);
      OthersDistinct(servers[1..], id);
      OthersMembers(servers[1..], id);
      if servers[0].id != id {
        assert Others(servers, id) == [servers[0]] + rest;
        forall j | 0 <= j < |rest| ensures rest[j].id != servers[0].id {
          assert rest[j] in servers[1..];
        }
      } else {
        assert Others(servers, id) == rest;
      }
    }
  }

  /** Deleting takes each entry by itself, in order: those of the id go and the others stay. */
  lemma {:induction false} OthersEach(a: Servers, b: Servers, id: string, s: Server)
    ensures Others(a + b, id) == Others(a, id) + Others(b, id)
    ensures Others([s], id) == if s.id == id then [] else [s]
  {
    assert [s][1..] == [];
    if a == [] {
      assert a + b == b;
    } else {
      assert (a + b)[1..] == a[1..] + b;
      OthersEach(a[1..], b, id, s);
    }
  }

  lemma {:induction false} OthersAppend(servers: Servers, s: Server)
    ensures Others(servers + [s], s.id) == Others(servers, s.id)
    ensures Ids(servers + [s]) == Ids(servers) + {s.id}
  {
    forall x ensures x in Ids(servers + [s]) <==> x in Ids(servers) + {s.id} {
      IdsMembers(servers, x);
      IdsMembers(servers + [s], x);
    }
    if servers != [] {
      assert (servers + [s])[1..] == servers[1..] + [s];
      OthersAppend(servers[1..], s);
    }
  }
}
