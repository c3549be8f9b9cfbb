/**
  The tag list of the incidents table and the short-lived cache in front of it. `IncidentRoutes` holds the
  table and the module's cache map; each method is one handler from its last `await` on. A tag list is the
  set of its tags.
 */
module TagsCache {
  import opened Wrappers
  import opened OrderedMap
  import opened Text

  const TTL_MS := 30000
  const MAX_CACHED := 256

  /** Project ids are positive, as the query parser and the table's key require. */
  type ProjectId = p: int | 0 < p witness 1

  datatype Item = Str(text: string) | NotString

  /** The tags column: empty, or text that may or may not parse as a JSON array. */
  datatype TagsColumn = NoTags | Unparseable | Items(items: seq<Item>)

  datatype Row = Row(tags: TagsColumn, project: Option<ProjectId>)

  type Table = map<nat, Row>

  datatype Key = AllScopes | Project(id: ProjectId)

  datatype CacheEntry = CacheEntry(tags: set<string>, expiresAt: int)

  type Cache = Pairs<Key, CacheEntry>

  datatype ProjectPatch = Leave | SetTo(project: Option<ProjectId>)

  datatype Patch = Patch(tags: Option<seq<string>>, project: ProjectPatch)

  // ---------- the table scan ----------

  function Cleaned(items: seq<Item>): set<string> {
    set i | 0 <= i < |items| && items[i].Str? && Trim(items[i].text) != "" :: Trim(items[i].text)
  }

  function RowTags(row: Row): set<string> {
    if row.tags.Items? then Cleaned(row.tags.items) else {}
  }

  predicate InScope(row: Row, key: Key) {
    key.AllScopes? || row.project == Some(key.id)
  }

  function Contribution(row: Row, key: Key): set<string> {
    if InScope(row, key) then RowTags(row) else {}
  }

  /** The distinct tags of the rows in scope: what the endpoint recomputes on a miss. */
  ghost function Scan(table: Table, key: Key): set<string> {
    set id, t | id in table && t in Contribution(table[id], key) :: t
  }

  /** Row `id` belongs to the project of the key, if the key is for one, and carries `t` among blanks. */
  ghost predicate Carries(table: Table, key: Key, id: nat, t: string) {
    && id in table && table[id].tags.Items?
    && (key.AllScopes? || (table[id].project.Some? && table[id].project.value == key.id))
    && exists i | 0 <= i < |table[id].tags.items| ::
         var item := table[id].tags.items[i]; item.Str? && Trim(item.text) == t
  }

  /** A tag list has exactly the non-empty trimmed strings of the parsed columns in scope. */
  lemma ScanIsCarried(table: Table, key: Key, t: string)
    ensures t in Scan(table, key) <==> t != "" && exists id :: Carries(table, key, id, t)
  {
    if t in Scan(table, key) {
      var id :| id in table && t in Contribution(table[id], key);
      assert Carries(table, key, id, t);
    }
    if t != "" && exists id :: Carries(table, key, id, t) {
      var id :| Carries(table, key, id, t);
      assert t in Contribution(table[id], key);
    }
  }

  ghost predicate AreRowsInScope(rows: seq<Row>, table: Table, key: Key) {
    && (forall row :: row in rows ==> exists id :: id in table && table[id] == row && InScope(row, key))
    && (forall id :: id in table && InScope(table[id], key) ==> table[id] in rows)
  }

  function TagsOf(rows: seq<Row>): set<string> {
    if rows == [] then {} else TagsOf(rows[..|rows| - 1]) + RowTags(rows[|rows| - 1])
  }

  lemma {:induction false} TagsOfMembers(rows: seq<Row>, t: string)
    ensures t in TagsOf(rows) <==> exists row :: row in rows && t in RowTags(row)
  {
    if rows != [] {
      TagsOfMembers(rows[..|rows| - 1], t);
      assert rows == rows[..|rows| - 1] + [rows[|rows| - 1]];
    }
  }

  lemma TagsOfIsScan(rows: seq<Row>, table: Table, key: Key)
    requires AreRowsInScope(rows, table, key)
    ensures TagsOf(rows) == Scan(table, key)
  {
    forall t ensures t in TagsOf(rows) <==> t in Scan(table, key) {
      TagsOfMembers(rows, t);
      if t in TagsOf(rows) {
        var row :| row in rows && t in RowTags(row);
        var id :| id in table && table[id] == row && InScope(row, key);
        assert t in Contribution(table[id], key);
      }
      if t in Scan(table, key) {
        var id :| id in table && t in Contribution(table[id], key);
        assert table[id] in rows;
      }
    }
  }

  // ---------- the cache operations as functions ----------

  function AfterRead(cache: Cache, key: Key, now: int): Cache {
    match Get(cache, key)
    case Some(e) => if now > e.expiresAt then Remove(cache, key) else cache
    case None => cache
  }

  function Hit(cache: Cache, key: Key, now: int): Option<set<string>> {
    match Get(cache, key)
    case Some(e) => if now > e.expiresAt then None else Some(e.tags)
    case None => None
  }

  function AfterWrite(cache: Cache, key: Key, tags: set<string>, now: int): Cache {
    var m := Put(cache, key, CacheEntry(tags, now + TTL_MS));
    if |m| > MAX_CACHED then m[1..] else m
  }

  function AfterInvalidate(cache: Cache, project: Option<ProjectId>): Cache {
    var m := Remove(cache, AllScopes);
    if project.Some? then Remove(m, Project(project.value)) else m
  }

  // ---------- the writes as functions ----------

  function Column(tags: Option<seq<string>>): TagsColumn {
    if tags == None || tags == Some([]) then NoTags
    else Items(seq(|tags.value|, i requires 0 <= i < |tags.value| => Str(tags.value[i])))
  }

  function Patched(row: Row, patch: Patch): Row {
    Row(if patch.tags.Some? then Column(patch.tags) else row.tags,
        if patch.project.SetTo? then patch.project.project else row.project)
  }

  /** The bucket a PUT clears: the project of the body, else the one of the row as it now is. */
  function PutBucket(patch: Patch, updated: Option<Row>): Option<ProjectId> {
    if patch.project.SetTo? && patch.project.project.Some? then patch.project.project
    else if updated.Some? then updated.value.project
    else None
  }

  // ---------- what a request says ----------

  /** The tags in a request body: trimmed, without the blank ones. */
  function BodyTags(tags: Option<seq<string>>): set<string> {
    if tags.None? then {} else set t | t in tags.value && Trim(t) != "" :: Trim(t)
  }

  /** Lists for this key are to show what belongs to `project`. */
  predicate Covers(key: Key, project: Option<ProjectId>) { key.AllScopes? || project == Some(key.id) }

  /** The table after a POST or PUT differs in row `id` only, and that row gives each list what it should. */
  ghost predicate OnlyRowIs(before: Table, after: Table, id: nat, tags: set<string>, project: Option<ProjectId>) {
    && after - {id} == before - {id} && id in after && after[id].project == project
    && forall key :: Contribution(after[id], key) == if Covers(key, project) then tags else {}
  }

  lemma ColumnTags(tags: Option<seq<string>>, project: Option<ProjectId>, key: Key)
    ensures Contribution(Row(Column(tags), project), key) == if Covers(key, project) then BodyTags(tags) else {}
  {
    var column := Column(tags);
    if column.Items? {
      forall t ensures t in Cleaned(column.items) <==> t in BodyTags(tags) {
        if t in BodyTags(tags) {
          var x :| x in tags.value && Trim(x) != "" && Trim(x) == t;
          var i :| 0 <= i < |tags.value| && tags.value[i] == x;
          assert column.items[i] == Str(x);
        }
      }
      assert Cleaned(column.items) == BodyTags(tags);
    }
  }

  lemma PostedRow(before: Table, after: Table, id: nat, tags: Option<seq<string>>, project: Option<ProjectId>)
    requires after == before[id := Row(Column(tags), project)]
    ensures OnlyRowIs(before, after, id, BodyTags(tags), project)
  {
    forall key { ColumnTags(tags, project, key); }
  }

  /** What the row is to carry after a PUT. */
  function PutTags(row: Row, patch: Patch): set<string> {
    if patch.tags.Some? then BodyTags(patch.tags) else RowTags(row)
  }

  function PutProject(row: Row, patch: Patch): Option<ProjectId> {
    match patch.project
    case SetTo(project) => project
    case Leave => row.project
  }

  lemma PatchedRow(before: Table, after: Table, id: nat, patch: Patch)
    requires id in before && after == before[id := Patched(before[id], patch)]
    ensures OnlyRowIs(before, after, id, PutTags(before[id], patch), PutProject(before[id], patch))
  {
    var row := Patched(before[id], patch);
    forall key ensures Contribution(row, key)
                    == if Covers(key, PutProject(before[id], patch)) then PutTags(before[id], patch) else {}
    {
      if patch.tags.Some? { ColumnTags(patch.tags, row.project, key); }
    }
  }

  class IncidentRoutes {
    var table: Table
    var cache: Cache

    constructor ()
      ensures table == map[] && cache == []
    {
      table := map[];
      cache := [];
    }

    method ReadTagsCache(key: Key, now: int) returns (tags: Option<set<string>>)
      modifies this`cache
      ensures tags == Hit(old(cache), key, now) && cache == AfterRead(old(cache), key, now)
    {
      var entry := Get(cache, key);
      if entry.None? { return None; }
      if now > entry.value.expiresAt {
        cache := Remove(cache, key);
        return None;
      }
      return Some(entry.value.tags);
    }

    method WriteTagsCache(key: Key, tags: set<string>, now: int)
      modifies this`cache
      ensures cache == AfterWrite(old(cache), key, tags, now)
    {
      cache := Put(cache, key, CacheEntry(tags, now + TTL_MS));
      if |cache| > MAX_CACHED { cache := cache[1..]; }
    }

    method InvalidateTagsCache(project: Option<ProjectId>)
      modifies this`cache
      ensures cache == AfterInvalidate(old(cache), project)
    {
      cache := Remove(cache, AllScopes);
      if project.Some? { cache := Remove(cache, Project(project.value)); }
    }

    /** `rows` is the database's answer to the query of a miss. */
    method GetTags(key: Key, now: int, rows: seq<Row>) returns (tags: set<string>, hit: bool)
      requires AreRowsInScope(rows, table, key)
      modifies this`cache
      ensures hit <==> Hit(old(cache), key, now).Some?
      ensures tags == if hit then Hit(old(cache), key, now).value else Scan(table, key)
      ensures cache == if hit then AfterRead(old(cache), key, now)
                else AfterWrite(AfterRead(old(cache), key, now), key, tags, now)
    {
      var cached := ReadTagsCache(key, now);
      if cached.Some? { return cached.value, true; }
      var tagSet: set<string> := {};
      for i := 0 to |rows|
        invariant cache == AfterRead(old(cache), key, now) && table == old(table)
        invariant tagSet == TagsOf(rows[..i])
      {
        assert rows[..i + 1][..i] == rows[..i];
        if rows[i].tags.Items? { tagSet := AddItems(rows[i].tags.items, tagSet); }
      }
      assert rows[..|rows|] == rows;
      TagsOfIsScan(rows, table, key);
      WriteTagsCache(key, tagSet, now);
      return tagSet, false;
    }

    static method AddItems(items: seq<Item>, tagSet: set<string>) returns (out: set<string>)
      ensures out == tagSet + Cleaned(items)
    {
      out := tagSet;
      for i := 0 to |items|
        invariant out == tagSet + Cleaned(items[..i])
      {
        CleanedAppend(items[..i], items[i]);
        assert items[..i + 1] == items[..i] + [items[i]];
        if items[i].Str? && Trim(items[i].text) != "" { out := out + {Trim(items[i].text)}; }
      }
      assert items[..|items|] == items;
    }

    /** `id` is the key the insert returned. */
    method Post(id: nat, tags: Option<seq<string>>, project: Option<ProjectId>)
      modifies this
      ensures table == old(table)[id := Row(Column(tags), project)]
      ensures OnlyRowIs(old(table), table, id, BodyTags(tags), project)
      ensures cache == if tags.Some? && tags.value != [] then AfterInvalidate(old(cache), project) else old(cache)
    {
      table := table[id := Row(Column(tags), project)];
      PostedRow(old(table), table, id, tags, project);
      if tags.Some? && |tags.value| > 0 { InvalidateTagsCache(project); }
    }

    /** The row may be gone by the time the update runs: the cache is cleared all the same, and the answer is 404. */
    method PutIncident(id: nat, patch: Patch) returns (found: bool)
      modifies this
      ensures found <==> id in old(table)
      ensures table == if found then old(table)[id := Patched(old(table)[id], patch)] else old(table)
      ensures found ==> OnlyRowIs(old(table), table, id, PutTags(old(table)[id], patch),
                                  PutProject(old(table)[id], patch))
      ensures cache == if patch.tags.None? then old(cache)
                       else AfterInvalidate(old(cache),
                             PutBucket(patch, if found then Some(Patched(old(table)[id], patch)) else None))
    {
      var updated: Option<Row> := None;
      if id in table {
        updated := Some(Patched(table[id], patch));
        table := table[id := updated.value];
        PatchedRow(old(table), table, id, patch);
      }
      if patch.tags.Some? { InvalidateTagsCache(PutBucket(patch, updated)); }
      return updated.Some?;
    }

    method Delete(id: nat) returns (found: bool)
      modifies this
      ensures found <==> id in old(table)
      ensures table == old(table) - {id}
      ensures cache == if found then AfterInvalidate(old(cache), old(table)[id].project) else old(cache)
    {
      if id !in table { return false; }
      var project := table[id].project;
      table := table - {id};
      InvalidateTagsCache(project);
      return true;
    }
  }

  lemma CleanedAppend(items: seq<Item>, item: Item)
    ensures Cleaned(items + [item]) == Cleaned(items)
              + (if item.Str? && Trim(item.text) != "" then {Trim(item.text)} else {})
  {
    var all := items + [item];
    forall t | t in Cleaned(items) ensures t in Cleaned(all) {
      var i :| 0 <= i < |items| && items[i].Str? && Trim(items[i].text) != "" && Trim(items[i].text) == t;
      assert all[i] == items[i];
    }
    if item.Str? && Trim(item.text) != "" { assert all[|items|] == item; }
  }

  // ---------- runs ----------

  datatype Op =
    | GetOp(key: Key, at: int)
    | PostOp(id: nat, tags: Option<seq<string>>, project: Option<ProjectId>, at: int)
    | PutOp(id: nat, patch: Patch, at: int)
    | DeleteOp(id: nat, at: int)
    | ForeignWrite(table: Table, at: int)

  datatype State = State(table: Table, cache: Cache)

  /** A handler, or a direct write to the table from outside the routes. An insert gets an unused id. */
  ghost function Step(s: State, op: Op): State {
    match op
    case GetOp(key, t) =>
      State(s.table, if Hit(s.cache, key, t).Some? then AfterRead(s.cache, key, t)
                     else AfterWrite(AfterRead(s.cache, key, t), key, Scan(s.table, key), t))
    case PostOp(id, tags, project, _) =>
      if id in s.table then s
      else State(s.table[id := Row(Column(tags), project)],
                 if tags.Some? && tags.value != [] then AfterInvalidate(s.cache, project) else s.cache)
    case PutOp(id, patch, _) => AfterPut(s, id, patch)
    case DeleteOp(id, _) =>
      if id !in s.table then s else State(s.table - {id}, AfterInvalidate(s.cache, s.table[id].project))
    case ForeignWrite(table, _) => State(table, s.cache)
  }

  function AfterPut(s: State, id: nat, patch: Patch): State {
    var updated := if id in s.table then Some(Patched(s.table[id], patch)) else None;
    State(if updated.Some? then s.table[id := updated.value] else s.table,
          if patch.tags.None? then s.cache else AfterInvalidate(s.cache, PutBucket(patch, updated)))
  }

  ghost function Run(table: Table, ops: seq<Op>): State {
    if ops == [] then State(table, []) else Step(Run(table, ops[..|ops| - 1]), ops[|ops| - 1])
  }

  ghost predicate Monotone(ops: seq<Op>) {
    forall i, j :: 0 <= i < j < |ops| ==> ops[i].at <= ops[j].at
  }

  // ---------- what a cache operation does to one key ----------

  lemma ReadSpec(cache: Cache, key: Key, now: int)
    requires Distinct(cache)
    ensures Distinct(AfterRead(cache, key, now)) && |AfterRead(cache, key, now)| <= |cache|
    ensures forall k :: Get(AfterRead(cache, key, now), k) == Get(cache, k) ||
              Get(AfterRead(cache, key, now), k) == None
  {
    RemoveSpec(cache, key);
  }

  lemma WriteSpec(cache: Cache, key: Key, tags: set<string>, now: int)
    requires Distinct(cache) && |cache| <= MAX_CACHED
    ensures var m := AfterWrite(cache, key, tags, now);
      && Distinct(m) && |m| <= MAX_CACHED
      && forall k :: Get(m, k) == None ||
            Get(m, k) == (if k == key then Some(CacheEntry(tags, now + TTL_MS)) else Get(cache, k))
  {
    var m := Put(cache, key, CacheEntry(tags, now + TTL_MS));
    PutSpec(cache, key, CacheEntry(tags, now + TTL_MS));
    if |m| > MAX_CACHED {
      RemoveSpec(m, m[0].0);
      assert m[1..] == Remove(m, m[0].0);
    }
  }

  /** The buckets an invalidation clears. */
  predicate Cleared(project: Option<ProjectId>, k: Key) {
    k == AllScopes || (project.Some? && k == Project(project.value))
  }

  lemma InvalidateSpec(cache: Cache, project: Option<ProjectId>)
    requires Distinct(cache)
    ensures var m := AfterInvalidate(cache, project);
      && Distinct(m) && |m| <= |cache|
      && forall k :: Get(m, k) == if Cleared(project, k) then None else Get(cache, k)
  {
    RemoveSpec(cache, AllScopes);
    if project.Some? { RemoveSpec(Remove(cache, AllScopes), Project(project.value)); }
  }

  ghost predicate Bounded(cache: Cache) {
    Distinct(cache) && |cache| <= MAX_CACHED
  }

  /**
   * Every step keeps the cache within its cap, and only a GET puts anything new in it: the list it has just scanned.
   */
  lemma StepEntry(s: State, op: Op, k: Key)
    requires Bounded(s.cache)
    ensures Bounded(Step(s, op).cache)
    ensures var before, after := Get(s.cache, k), Get(Step(s, op).cache, k);
      after == None || after == before ||
            (op == GetOp(k, op.at) && after == Some(CacheEntry(Scan(s.table, k), op.at + TTL_MS)))
  {
    match op {
      case GetOp(key, t) =>
        ReadSpec(s.cache, key, t);
        WriteSpec(AfterRead(s.cache, key, t), key, Scan(s.table, key), t);
      case PostOp(_, _, project, _) => InvalidateSpec(s.cache, project);
      case PutOp(id, patch, _) =>
        InvalidateSpec(s.cache, PutBucket(patch, if id in s.table then Some(Patched(s.table[id], patch)) else None));
      case DeleteOp(id, _) => if id in s.table { InvalidateSpec(s.cache, s.table[id].project); }
      case ForeignWrite(_, _) =>
    }
  }

  lemma {:induction false} RunBounded(table: Table, ops: seq<Op>)
    ensures Bounded(Run(table, ops).cache)
  {
    if ops != [] {
      RunBounded(table, ops[..|ops| - 1]);
      StepEntry(Run(table, ops[..|ops| - 1]), ops[|ops| - 1], AllScopes);
    }
  }

  // ---------- staleness is bounded, whatever writes to the table ----------

  /** A cached list is the one a GET of that key scanned at step `j`. */
  ghost predicate ScannedAt(table: Table, ops: seq<Op>, j: nat, key: Key, e: CacheEntry) {
    j < |ops| && ops[j] == GetOp(key, e.expiresAt - TTL_MS) && e.tags == Scan(Run(table, ops[..j]).table, key)
  }

  lemma {:induction false} EntryWasScanned(table: Table, ops: seq<Op>, key: Key)
    requires Get(Run(table, ops).cache, key).Some?
    ensures exists j: nat :: ScannedAt(table, ops, j, key, Get(Run(table, ops).cache, key).value)
  {
    var front, op := ops[..|ops| - 1], ops[|ops| - 1];
    RunBounded(table, front);
    StepEntry(Run(table, front), op, key);
    var e := Get(Run(table, ops).cache, key).value;
    if Get(Run(table, front).cache, key) == Some(e) {
      EntryWasScanned(table, front, key);
      var j: nat :| ScannedAt(table, front, j, key, e);
      assert ops[..j] == front[..j];
      assert ScannedAt(table, ops, j, key, e);
    } else {
      assert ScannedAt(table, ops, |front|, key, e);
    }
  }

  /**
   * In any run, direct writes to the table included, a hit is the table's tag list at some moment of the last 30
   * seconds.
   */
  lemma HitIsRecent(table: Table, ops: seq<Op>, key: Key, now: int)
    requires Monotone(ops) && (ops != [] ==> ops[|ops| - 1].at <= now)
    requires Hit(Run(table, ops).cache, key, now).Some?
    ensures exists j | 0 <= j < |ops| && now - TTL_MS <= ops[j].at <= now ::
      Hit(Run(table, ops).cache, key, now).value == Scan(Run(table, ops[..j]).table, key)
  {
    EntryWasScanned(table, ops, key);
    var j: nat :| ScannedAt(table, ops, j, key, Get(Run(table, ops).cache, key).value);
  }

  // ---------- exact agreement ----------

  ghost predicate Coherent(s: State) {
    forall k :: Get(s.cache, k).Some? ==> Get(s.cache, k).value.tags == Scan(s.table, k)
  }

  /**
   * A PUT that leaves no stale bucket behind: it keeps the row's project, or the row had no tags to carry over, or it
   * sets tags on a row that had no project.
   */
  predicate SafePut(row: Row, patch: Patch) {
    Patched(row, patch).project == row.project || RowTags(row) == {} || (patch.tags.Some? && row.project.None?)
  }

  lemma ScanSet(table: Table, id: nat, row: Row, key: Key)
    ensures Scan(table[id := row], key) == Scan(table - {id}, key) + Contribution(row, key)
  {
    var t' := table[id := row];
    forall t | t in Contribution(row, key) ensures t in Scan(t', key) {
      assert id in t' && t in Contribution(t'[id], key);
    }
    forall t | t in Scan(table - {id}, key) ensures t in Scan(t', key) {
      var i :| i in table - {id} && t in Contribution((table - {id})[i], key);
      assert i in t' && t in Contribution(t'[i], key);
    }
    forall t | t in Scan(t', key) ensures t in Scan(table - {id}, key) + Contribution(row, key) {
      var i :| i in t' && t in Contribution(t'[i], key);
      if i != id { assert i in table - {id} && t in Contribution((table - {id})[i], key); }
    }
  }

  lemma ScanRow(table: Table, id: nat, key: Key)
    requires id in table
    ensures Scan(table, key) == Scan(table - {id}, key) + Contribution(table[id], key)
  {
    ScanSet(table, id, table[id], key);
    assert table[id := table[id]] == table;
  }

  lemma SafePutKeepsCoherent(s: State, id: nat, patch: Patch)
    requires Bounded(s.cache) && Coherent(s)
    requires id in s.table ==> SafePut(s.table[id], patch)
    ensures Coherent(AfterPut(s, id, patch))
  {
    var t := AfterPut(s, id, patch);
    InvalidateSpec(s.cache, PutBucket(patch, if id in s.table then Some(Patched(s.table[id], patch)) else None));
    if id in s.table {
      forall k | Get(t.cache, k).Some? ensures Get(t.cache, k).value.tags == Scan(t.table, k) {
        ScanRow(s.table, id, k);
        ScanSet(s.table, id, Patched(s.table[id], patch), k);
      }
    }
  }

  lemma PlainStepKeepsCoherent(s: State, op: Op)
    requires Bounded(s.cache) && Coherent(s) && !op.ForeignWrite? && !op.PutOp?
    ensures Coherent(Step(s, op))
  {
    var t := Step(s, op);
    match op {
      case GetOp(key, at) => forall k { StepEntry(s, op, k); }
      case PostOp(id, tags, project, _) =>
        InvalidateSpec(s.cache, project);
        if id !in s.table {
          assert s.table - {id} == s.table;
          forall k { ScanSet(s.table, id, Row(Column(tags), project), k); }
        }
      case DeleteOp(id, _) =>
        if id in s.table {
          InvalidateSpec(s.cache, s.table[id].project);
          forall k | Get(t.cache, k).Some? ensures Get(t.cache, k).value.tags == Scan(t.table, k) {
            ScanRow(s.table, id, k);
          }
        }
    }
  }

  ghost predicate SafeRun(table: Table, ops: seq<Op>) {
    forall i :: 0 <= i < |ops| ==>
      !ops[i].ForeignWrite? && (ops[i].PutOp? && ops[i].id in Run(table, ops[..i]).table ==>
        SafePut(Run(table, ops[..i]).table[ops[i].id], ops[i].patch))
  }

  /** In a run of the handlers whose PUTs are safe, every hit is the list recomputed from the table now. */
  lemma {:induction false} SafeRunIsCoherent(table: Table, ops: seq<Op>)
    requires SafeRun(table, ops)
    ensures Coherent(Run(table, ops))
  {
    if ops != [] {
      var front, op := ops[..|ops| - 1], ops[|ops| - 1];
      assert forall i :: 0 <= i < |front| ==> front[i] == ops[i] && front[..i] == ops[..i];
      assert ops[..|front|] == front;
      SafeRunIsCoherent(table, front);
      RunBounded(table, front);
      if op.PutOp? { SafePutKeepsCoherent(Run(table, front), op.id, op.patch); }
      else { PlainStepKeepsCoherent(Run(table, front), op); }
    }
  }

  lemma HitIsCurrent(table: Table, ops: seq<Op>, key: Key, now: int)
    requires SafeRun(table, ops) && Hit(Run(table, ops).cache, key, now).Some?
    ensures Hit(Run(table, ops).cache, key, now).value == Scan(Run(table, ops).table, key)
  {
    SafeRunIsCoherent(table, ops);
  }

  /** The bucket an unsafe PUT leaves alone although its list changes: the old project, or else the new one. */
  function StaleKey(row: Row, patch: Patch): Key
    requires !SafePut(row, patch)
  {
    Project(if row.project.Some? then row.project.value else Patched(row, patch).project.value)
  }

  /** The cache that holds nothing but the list of one bucket as it is now. */
  ghost function OnlyCached(table: Table, key: Key): State {
    State(table, [(key, CacheEntry(Scan(table, key), TTL_MS))])
  }

  lemma UnsafePutLeavesEntry(id: nat, row: Row, patch: Patch)
    requires !SafePut(row, patch)
    ensures var key := StaleKey(row, patch);
            var s := OnlyCached(map[id := row], key);
            var t := AfterPut(s, id, patch);
            && Bounded(s.cache) && Coherent(s)
            && Get(t.cache, key) == Some(CacheEntry(Scan(s.table, key), TTL_MS))
            && Scan(t.table, key) != Scan(s.table, key)
  {
    var key := StaleKey(row, patch);
    var table: Table := map[id := row];
    var s := OnlyCached(table, key);
    assert table - {id} == map[];
    ScanRow(table, id, key);
    ScanSet(table, id, Patched(row, patch), key);
    assert Scan(map[], key) == {};
    InvalidateSpec(s.cache, PutBucket(patch, Some(Patched(row, patch))));
    assert Get(s.cache, key).Some? && forall k :: k != key ==> Get(s.cache, k) == None;
  }

  /**
   * A PUT on a row keeps every exact cache exact if and only if it is safe; the unsafe ones leave a bucket with the
   * list of before the move.
   */
  lemma PutIsExactIffSafe(id: nat, row: Row, patch: Patch)
    ensures (forall s: State :: id in s.table && s.table[id] == row && Bounded(s.cache) && Coherent(s) ==>
              Coherent(AfterPut(s, id, patch)))
      <==> SafePut(row, patch)
  {
    if SafePut(row, patch) {
      forall s: State | id in s.table && s.table[id] == row && Bounded(s.cache) && Coherent(s)
        ensures Coherent(AfterPut(s, id, patch))
      {
        SafePutKeepsCoherent(s, id, patch);
      }
    } else {
      UnsafePutLeavesEntry(id, row, patch);
      var s := OnlyCached(map[id := row], StaleKey(row, patch));
      assert Coherent(s) && !Coherent(AfterPut(s, id, patch));
    }
  }

  /** For every unsafe PUT there is a run of a GET and that PUT after which a hit is not the table's list. */
  lemma UnsafePutIsSeen(id: nat, row: Row, patch: Patch)
    requires !SafePut(row, patch)
    ensures var key := StaleKey(row, patch);
            var s := Run(map[id := row], [GetOp(key, 0), PutOp(id, patch, 1)]);
            Hit(s.cache, key, 2).Some? && Hit(s.cache, key, 2).value != Scan(s.table, key)
  {
    var key := StaleKey(row, patch);
    var table: Table := map[id := row];
    var ops := [GetOp(key, 0), PutOp(id, patch, 1)];
    assert ops[..1] == [ops[0]] && [ops[0]][..0] == [];
    assert Run(table, [ops[0]]) == Step(State(table, []), ops[0]);
    assert Run(table, [ops[0]]) == OnlyCached(table, key);
    UnsafePutLeavesEntry(id, row, patch);
  }

  // ---------- what was written is listed ----------

  /** What a GET at `now` answers: the cached list, or the scan. */
  ghost function ListedTags(s: State, key: Key, now: int): set<string> {
    if Hit(s.cache, key, now).Some? then Hit(s.cache, key, now).value else Scan(s.table, key)
  }

  lemma RowIsScanned(before: Table, after: Table, id: nat, tags: set<string>, project: Option<ProjectId>, key: Key)
    requires OnlyRowIs(before, after, id, tags, project)
    ensures Scan(after, key) == Scan(before - {id}, key) + if Covers(key, project) then tags else {}
  {
    ScanRow(after, id, key);
    assert Contribution(after[id], key) == if Covers(key, project) then tags else {};
  }

  lemma ExtendedRun(table: Table, ops: seq<Op>, op: Op)
    ensures Run(table, ops + [op]) == Step(Run(table, ops), op)
  {
    assert (ops + [op])[..|ops|] == ops;
  }

  /**
   * In a run of the handlers with safe PUTs, right after a POST every list is the one of before and, if it covers the
   * project of the new row, exactly the non-blank tags of the body as well.
   */
  lemma PostedTagsAreListed(table: Table, ops: seq<Op>, op: Op, key: Key, now: int)
    requires op.PostOp? && SafeRun(table, ops + [op]) && op.id !in Run(table, ops).table
    ensures ListedTags(Run(table, ops + [op]), key, now)
         == Scan(Run(table, ops).table, key) + if Covers(key, op.project) then BodyTags(op.tags) else {}
  {
    var s, t := Run(table, ops), Run(table, ops + [op]);
    ExtendedRun(table, ops, op);
    if Hit(t.cache, key, now).Some? { HitIsCurrent(table, ops + [op], key, now); }
    PostedRow(s.table, t.table, op.id, op.tags, op.project);
    RowIsScanned(s.table, t.table, op.id, BodyTags(op.tags), op.project, key);
    assert s.table - {op.id} == s.table;
  }

  /**
   * Right after a PUT every list has what the other rows give it and, if it covers the project the row now has, the
   * tags of the body, or those the row had when the body names none.
   */
  lemma PutTagsAreListed(table: Table, ops: seq<Op>, op: Op, key: Key, now: int)
    requires op.PutOp? && SafeRun(table, ops + [op]) && op.id in Run(table, ops).table
    ensures var before := Run(table, ops).table;
            var added := if Covers(key, PutProject(before[op.id], op.patch)) then PutTags(before[op.id], op.patch)
                         else {};
            ListedTags(Run(table, ops + [op]), key, now) == Scan(before - {op.id}, key) + added
  {
    var s, t := Run(table, ops), Run(table, ops + [op]);
    ExtendedRun(table, ops, op);
    if Hit(t.cache, key, now).Some? { HitIsCurrent(table, ops + [op], key, now); }
    PatchedRow(s.table, t.table, op.id, op.patch);
    RowIsScanned(s.table, t.table, op.id, PutTags(s.table[op.id], op.patch), PutProject(s.table[op.id], op.patch), key);
  }
}
