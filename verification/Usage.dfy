/** The usage breakdown grouped by project: four left joins, a group by, and the unjoined totals beside it. */
module Usage {
  import opened Wrappers

  // ---------- tables ----------

  /** A usage record. Amounts are exact; any of them may be NULL. */
  datatype Record = Record(id: int, projectId: Option<int>, chatMessageId: Option<int>, provider: string, model: string,
                           input: Option<real>, output: Option<real>, cost: Option<real>)

  datatype Project = Project(id: int, name: string)
  datatype Message = Message(id: int, chatId: Option<int>)
  datatype Chat = Chat(id: int, workspaceId: Option<int>)
  datatype Workspace = Workspace(id: int, name: string)

  datatype Db = Db(records: seq<Record>, projects: seq<Project>, messages: seq<Message>, chats: seq<Chat>,
                   workspaces: seq<Workspace>)

  /** One joined row. */
  datatype Row = Row(record: Record, project: Option<Project>, message: Option<Message>, chat: Option<Chat>,
                     workspace: Option<Workspace>)

  // ---------- left join ----------

  function Matches<L, T>(l: L, table: seq<T>, on: (L, T) -> bool): seq<T> {
    if table == [] then []
    else (if on(l, table[0]) then [table[0]] else []) + Matches(l, table[1..], on)
  }

  function Extend<L, T, R>(l: L, found: seq<T>, add: (L, Option<T>) -> R): seq<R> {
    if found == [] then [] else [add(l, Some(found[0]))] + Extend(l, found[1..], add)
  }

  /** Every row with each row of the table it matches, or with NULLs when it matches none. */
  function LeftJoin<L, T, R>(rows: seq<L>, table: seq<T>, on: (L, T) -> bool, add: (L, Option<T>) -> R): seq<R> {
    if rows == [] then []
    else
      var found := Matches(rows[0], table, on);
      (if found == [] then [add(rows[0], None)] else Extend(rows[0], found, add)) + LeftJoin(rows[1..], table, on, add)
  }

  predicate OnProject(r: Row, p: Project) { r.record.projectId == Some(p.id) }
  predicate OnMessage(r: Row, m: Message) { r.record.chatMessageId == Some(m.id) }
  predicate OnChat(r: Row, c: Chat) { r.message.Some? && r.message.value.chatId == Some(c.id) }
  predicate OnWorkspace(r: Row, w: Workspace) { r.chat.Some? && r.chat.value.workspaceId == Some(w.id) }

  function AddProject(r: Row, p: Option<Project>): Row { r.(project := p) }
  function AddMessage(r: Row, m: Option<Message>): Row { r.(message := m) }
  function AddChat(r: Row, c: Option<Chat>): Row { r.(chat := c) }
  function AddWorkspace(r: Row, w: Option<Workspace>): Row { r.(workspace := w) }

  function Bare(r: Record): Row { Row(r, None, None, None, None) }

  function BareRows(records: seq<Record>): seq<Row> {
    if records == [] then [] else [Bare(records[0])] + BareRows(records[1..])
  }

  function Joined(db: Db): seq<Row> {
    var withProject := LeftJoin(BareRows(db.records), db.projects, OnProject, AddProject);
    var withMessage := LeftJoin(withProject, db.messages, OnMessage, AddMessage);
    var withChat := LeftJoin(withMessage, db.chats, OnChat, AddChat);
    LeftJoin(withChat, db.workspaces, OnWorkspace, AddWorkspace)
  }

  // ---------- keys ----------

  ghost predicate UniqueMatches<L(!new), T>(table: seq<T>, on: (L, T) -> bool) {
    forall l: L, i, j :: 0 <= i < j < |table| ==> !(on(l, table[i]) && on(l, table[j]))
  }

  /** `id` is a primary key of all four joined tables. */
  ghost predicate Keyed(db: Db) {
    && (forall i, j :: 0 <= i < j < |db.projects| ==> db.projects[i].id != db.projects[j].id)
    && (forall i, j :: 0 <= i < j < |db.messages| ==> db.messages[i].id != db.messages[j].id)
    && (forall i, j :: 0 <= i < j < |db.chats| ==> db.chats[i].id != db.chats[j].id)
    && (forall i, j :: 0 <= i < j < |db.workspaces| ==> db.workspaces[i].id != db.workspaces[j].id)
  }

  lemma KeysMatchOnce(db: Db)
    requires Keyed(db)
    ensures UniqueMatches(db.projects, OnProject) && UniqueMatches(db.messages, OnMessage)
    ensures UniqueMatches(db.chats, OnChat) && UniqueMatches(db.workspaces, OnWorkspace)
  {
  }

  /** The one row of a table that matches, if there is one. */
  function Lookup<L, T>(l: L, table: seq<T>, on: (L, T) -> bool): Option<T> {
    if table == [] then None
    else if on(l, table[0]) then Some(table[0])
    else Lookup(l, table[1..], on)
  }

  lemma {:induction false} NoMatches<L, T>(l: L, table: seq<T>, on: (L, T) -> bool)
    requires forall i :: 0 <= i < |table| ==> !on(l, table[i])
    ensures Matches(l, table, on) == [] && Lookup(l, table, on) == None
  {
    if table != [] { NoMatches(l, table[1..], on); }
  }

  lemma {:induction false} OneMatch<L(!new), T>(l: L, table: seq<T>, on: (L, T) -> bool)
    requires UniqueMatches(table, on)
    ensures var m, o := Matches(l, table, on), Lookup(l, table, on);
            if o == None then m == [] else m == [o.value]
  {
    if table != [] {
      if on(l, table[0]) {
        NoMatches(l, table[1..], on);
      } else {
        assert forall i :: 0 <= i < |table[1..]| ==> table[1..][i] == table[i + 1];
        OneMatch(l, table[1..], on);
      }
    }
  }

  lemma ExtendOne<L, T, R>(l: L, t: T, add: (L, Option<T>) -> R)
    ensures Extend(l, [t], add) == [add(l, Some(t))]
  {
    assert [t][1..] == [];
  }

  /** A left join on a key is a lookup per row: no row is dropped, none repeated, and the order stays. */
  lemma {:induction false} LeftJoinIsLookup<L(!new), T, R>(rows: seq<L>, table: seq<T>, on: (L, T) -> bool,
                                                          add: (L, Option<T>) -> R)
    requires UniqueMatches(table, on)
    ensures var j := LeftJoin(rows, table, on, add);
            |j| == |rows| && forall i :: 0 <= i < |rows| ==> j[i] == add(rows[i], Lookup(rows[i], table, on))
  {
    if rows != [] {
      OneMatch(rows[0], table, on);
      LeftJoinIsLookup(rows[1..], table, on, add);
      var o := Lookup(rows[0], table, on);
      if o.Some? { ExtendOne(rows[0], o.value, add); }
      assert LeftJoin(rows, table, on, add) == [add(rows[0], o)] + LeftJoin(rows[1..], table, on, add);
    }
  }

  lemma {:induction false} BareRowsSpec(records: seq<Record>)
    ensures |BareRows(records)| == |records|
    ensures forall i :: 0 <= i < |records| ==> BareRows(records)[i] == Bare(records[i])
  {
    if records != [] { BareRowsSpec(records[1..]); }
  }

  /** What the four joins attach to one record. */
  function RowOf(db: Db, r: Record): Row {
    var a := AddProject(Bare(r), Lookup(Bare(r), db.projects, OnProject));
    var b := AddMessage(a, Lookup(a, db.messages, OnMessage));
    var c := AddChat(b, Lookup(b, db.chats, OnChat));
    AddWorkspace(c, Lookup(c, db.workspaces, OnWorkspace))
  }

  /** The four joins neither drop nor repeat a record: one row each, in order. */
  lemma JoinsKeepRecords(db: Db)
    requires Keyed(db)
    ensures |Joined(db)| == |db.records|
    ensures forall i :: 0 <= i < |db.records| ==> Joined(db)[i] == RowOf(db, db.records[i])
  {
    KeysMatchOnce(db);
    BareRowsSpec(db.records);
    var bare := BareRows(db.records);
    LeftJoinIsLookup(bare, db.projects, OnProject, AddProject);
    var a := LeftJoin(bare, db.projects, OnProject, AddProject);
    LeftJoinIsLookup(a, db.messages, OnMessage, AddMessage);
    var b := LeftJoin(a, db.messages, OnMessage, AddMessage);
    LeftJoinIsLookup(b, db.chats, OnChat, AddChat);
    var c := LeftJoin(b, db.chats, OnChat, AddChat);
    LeftJoinIsLookup(c, db.workspaces, OnWorkspace, AddWorkspace);
  }

  // ---------- where ----------

  function WhereRows(rows: seq<Row>, keep: Record -> bool): seq<Row> {
    if rows == [] then []
    else if keep(rows[0].record) then [rows[0]] + WhereRows(rows[1..], keep)
    else WhereRows(rows[1..], keep)
  }

  function WhereRecords(records: seq<Record>, keep: Record -> bool): seq<Record> {
    if records == [] then []
    else if keep(records[0]) then [records[0]] + WhereRecords(records[1..], keep)
    else WhereRecords(records[1..], keep)
  }

  function RecordsOf(rows: seq<Row>): seq<Record> {
    if rows == [] then [] else [rows[0].record] + RecordsOf(rows[1..])
  }

  lemma RecordsOfCons(r: Row, rows: seq<Row>)
    ensures RecordsOf([r] + rows) == [r.record] + RecordsOf(rows)
  {
    assert ([r] + rows)[1..] == rows;
  }

  lemma {:induction false} WhereCommutes(rows: seq<Row>, keep: Record -> bool)
    ensures RecordsOf(WhereRows(rows, keep)) == WhereRecords(RecordsOf(rows), keep)
  {
    if rows != [] {
      WhereCommutes(rows[1..], keep);
      assert RecordsOf(rows)[1..] == RecordsOf(rows[1..]);
      RecordsOfCons(rows[0], WhereRows(rows[1..], keep));
    }
  }

  lemma {:induction false} SameRecords(rows: seq<Row>, records: seq<Record>)
    requires |rows| == |records| && forall i :: 0 <= i < |rows| ==> rows[i].record == records[i]
    ensures RecordsOf(rows) == records
  {
    if rows != [] {
      SameRecords(rows[1..], records[1..]);
      assert records == [records[0]] + records[1..];
    }
  }

  /** The rows the grouped query works on carry exactly the records the unjoined query sees, each once and in order. */
  lemma FilteredJoinKeepsRecords(db: Db, keep: Record -> bool)
    requires Keyed(db)
    ensures RecordsOf(WhereRows(Joined(db), keep)) == WhereRecords(db.records, keep)
  {
    JoinsKeepRecords(db);
    WhereCommutes(Joined(db), keep);
    SameRecords(Joined(db), db.records);
  }

  lemma {:induction false} WhereRowsFrom(rows: seq<Row>, keep: Record -> bool, r: Row)
    ensures r in WhereRows(rows, keep) <==> r in rows && keep(r.record)
  {
    if rows != [] {
      WhereRowsFrom(rows[1..], keep, r);
      assert r in rows <==> r == rows[0] || r in rows[1..];
    }
  }

  // ---------- scope of a row ----------

  function Digit(d: nat): char
    requires d < 10
  {
    "0123456789"[d]
  }

  function NatText(n: nat): string {
    if n < 10 then [Digit(n)] else NatText(n / 10) + [Digit(n % 10)]
  }

  /** `CAST(n AS TEXT)` */
  function IntText(n: int): string { Sign(n) + NatText(Abs(n)) }

  function Sign(n: int): string { if n < 0 then "-" else "" }

  function Abs(n: int): nat { if n < 0 then -n else n }

  function ScopeId(r: Row): string {
    if r.record.projectId.Some? then IntText(r.record.projectId.value)
    else if r.chat.Some? && r.chat.value.workspaceId.Some? then "ws_" + IntText(r.chat.value.workspaceId.value)
    else "other"
  }

  function ScopeLabel(r: Row): string {
    if r.record.projectId.Some? && r.project.Some? then r.project.value.name
    else if r.record.projectId.Some? then "Deleted project #" + IntText(r.record.projectId.value)
    else if r.workspace.Some? then r.workspace.value.name
    else "Other chats"
  }

  lemma {:induction false} NatTextChars(n: nat)
    ensures NatText(n) != "" && forall i :: 0 <= i < |NatText(n)| ==> '0' <= NatText(n)[i] <= '9'
  {
    if n >= 10 { NatTextChars(n / 10); }
  }

  lemma DigitInjective(d: nat, e: nat)
    requires d < 10 && e < 10 && Digit(d) == Digit(e)
    ensures d == e
  {
  }

  lemma LastSplit(a: string, c: char, b: string, d: char)
    ensures a + [c] == b + [d] ==> a == b && c == d
  {
    assert a == (a + [c])[..|a|] && b == (b + [d])[..|b|];
    assert c == (a + [c])[|a|] && d == (b + [d])[|b|];
  }

  lemma {:induction false} NatTextInjective(m: nat, n: nat)
    requires NatText(m) == NatText(n)
    ensures m == n
  {
    var p, q := if m < 10 then "" else NatText(m / 10), if n < 10 then "" else NatText(n / 10);
    LastSplit(p, Digit(m % 10), q, Digit(n % 10));
    DigitInjective(m % 10, n % 10);
    NatTextChars(m / 10);
    NatTextChars(n / 10);
    if m >= 10 && n >= 10 { NatTextInjective(m / 10, n / 10); }
  }

  lemma IntTextFirst(n: int)
    ensures IntText(n) != "" && (if n < 0 then IntText(n)[0] == '-' else '0' <= IntText(n)[0] <= '9')
  {
    NatTextChars(Abs(n));
  }

  lemma IntTextInjective(m: int, n: int)
    requires IntText(m) == IntText(n)
    ensures m == n
  {
    IntTextFirst(m);
    IntTextFirst(n);
    assert Sign(m) == Sign(n);
    assert NatText(Abs(m)) == IntText(m)[|Sign(m)|..] && NatText(Abs(n)) == IntText(n)[|Sign(n)|..];
    NatTextInjective(Abs(m), Abs(n));
  }

  /** What decides the scope of a row: a project, a workspace, or neither. */
  datatype Scope = OfProject(id: int) | OfWorkspace(id: int) | Other

  function ScopeOf(r: Row): Scope {
    if r.record.projectId.Some? then OfProject(r.record.projectId.value)
    else if r.chat.Some? && r.chat.value.workspaceId.Some? then OfWorkspace(r.chat.value.workspaceId.value)
    else Other
  }

  function ScopeText(s: Scope): string {
    match s
    case OfProject(id) => IntText(id)
    case OfWorkspace(id) => "ws_" + IntText(id)
    case Other => "other"
  }

  lemma ScopeTextFirst(s: Scope)
    ensures ScopeText(s) != ""
    ensures ScopeText(s)[0] == 'w' <==> s.OfWorkspace?
    ensures ScopeText(s)[0] == 'o' <==> s.Other?
  {
    if s.OfProject? { IntTextFirst(s.id); }
  }

  /** The text written for a scope tells scopes apart. */
  lemma ScopeTextInjective(a: Scope, b: Scope)
    requires ScopeText(a) == ScopeText(b)
    ensures a == b
  {
    ScopeTextFirst(a);
    ScopeTextFirst(b);
    if a.OfWorkspace? {
      assert IntText(a.id) == ScopeText(a)[3..] && IntText(b.id) == ScopeText(b)[3..];
      IntTextInjective(a.id, b.id);
    } else if a.OfProject? {
      IntTextInjective(a.id, b.id);
    }
  }

  /** Two rows fall into one group exactly when they belong to the same project, the same workspace, or neither. */
  lemma SameGroupIff(q: Row, r: Row)
    ensures ScopeId(q) == ScopeId(r) <==> ScopeOf(q) == ScopeOf(r)
  {
    assert ScopeId(q) == ScopeText(ScopeOf(q)) && ScopeId(r) == ScopeText(ScopeOf(r));
    if ScopeId(q) == ScopeId(r) { ScopeTextInjective(ScopeOf(q), ScopeOf(r)); }
  }

  lemma {:induction false} LookupOnProject(a: Row, b: Row, table: seq<Project>)
    requires a.record.projectId == b.record.projectId
    ensures Lookup(a, table, OnProject) == Lookup(b, table, OnProject)
  {
    if table != [] { LookupOnProject(a, b, table[1..]); }
  }

  lemma {:induction false} LookupOnWorkspace(a: Row, b: Row, table: seq<Workspace>)
    requires a.chat.Some? && b.chat.Some? && a.chat.value.workspaceId == b.chat.value.workspaceId
    ensures Lookup(a, table, OnWorkspace) == Lookup(b, table, OnWorkspace)
  {
    if table != [] { LookupOnWorkspace(a, b, table[1..]); }
  }

  lemma {:induction false} NoWorkspace(a: Row, table: seq<Workspace>)
    requires a.chat == None || a.chat.value.workspaceId == None
    ensures Lookup(a, table, OnWorkspace) == None
  {
    if table != [] { NoWorkspace(a, table[1..]); }
  }

  /**
   * The label is not part of the group-by clause, so the database may take it from any row of the group. It does not
   * matter which: all rows of a group have the same label.
   */
  lemma LabelFollowsId(db: Db, x: Row, y: Row)
    requires Keyed(db) && x in Joined(db) && y in Joined(db) && ScopeId(x) == ScopeId(y)
    ensures ScopeLabel(x) == ScopeLabel(y)
  {
    JoinsKeepRecords(db);
    assert x == RowOf(db, x.record) && y == RowOf(db, y.record);
    SameGroupIff(x, y);
    RowsAgree(db, x.record, y.record);
  }

  lemma RowsAgree(db: Db, q: Record, r: Record)
    requires ScopeOf(RowOf(db, q)) == ScopeOf(RowOf(db, r))
    ensures ScopeLabel(RowOf(db, q)) == ScopeLabel(RowOf(db, r))
  {
    var x, y := RowOf(db, q), RowOf(db, r);
    var cx, cy := x.(workspace := None), y.(workspace := None);
    assert x == AddWorkspace(cx, Lookup(cx, db.workspaces, OnWorkspace));
    assert y == AddWorkspace(cy, Lookup(cy, db.workspaces, OnWorkspace));
    match ScopeOf(x) {
      case OfProject(_) => LookupOnProject(Bare(q), Bare(r), db.projects);
      case OfWorkspace(_) => LookupOnWorkspace(cx, cy, db.workspaces);
      case Other =>
        NoWorkspace(cx, db.workspaces);
        NoWorkspace(cy, db.workspaces);
    }
  }

  lemma {:induction false} LookupFinds<L(!new), T>(l: L, table: seq<T>, on: (L, T) -> bool, t: T)
    requires UniqueMatches(table, on) && t in table && on(l, t)
    ensures Lookup(l, table, on) == Some(t)
  {
    var i :| 0 <= i < |table| && table[i] == t;
    if i > 0 {
      assert forall k :: 0 <= k < |table[1..]| ==> table[1..][k] == table[k + 1];
      assert table[1..][i - 1] == t;
      assert !on(l, table[0]);
      LookupFinds(l, table[1..], on, t);
    }
  }

  /** A record of an existing project is labelled with the project's name, one of a deleted project with its number. */
  lemma ProjectLabel(db: Db, x: Row, id: int)
    requires Keyed(db) && x in Joined(db) && x.record.projectId == Some(id)
    ensures forall p :: p in db.projects && p.id == id ==> ScopeLabel(x) == p.name
    ensures (forall p :: p in db.projects ==> p.id != id) ==> ScopeLabel(x) == "Deleted project #" + IntText(id)
    ensures ScopeId(x) == IntText(id)
  {
    JoinsKeepRecords(db);
    KeysMatchOnce(db);
    assert x == RowOf(db, x.record);
    var bare := Bare(x.record);
    forall p | p in db.projects && p.id == id ensures ScopeLabel(x) == p.name {
      LookupFinds(bare, db.projects, OnProject, p);
    }
    if forall p :: p in db.projects ==> p.id != id { NoMatches(bare, db.projects, OnProject); }
  }

  /** A record without project that came from a chat of a workspace is labelled with that workspace's name. */
  lemma WorkspaceLabel(db: Db, x: Row, m: Message, c: Chat, w: Workspace)
    requires Keyed(db) && x in Joined(db) && x.record.projectId == None
    requires m in db.messages && c in db.chats && w in db.workspaces
    requires x.record.chatMessageId == Some(m.id) && m.chatId == Some(c.id) && c.workspaceId == Some(w.id)
    ensures ScopeLabel(x) == w.name && ScopeId(x) == "ws_" + IntText(w.id)
  {
    JoinsKeepRecords(db);
    KeysMatchOnce(db);
    assert x == RowOf(db, x.record);
    var a := AddProject(Bare(x.record), Lookup(Bare(x.record), db.projects, OnProject));
    LookupFinds(a, db.messages, OnMessage, m);
    var b := AddMessage(a, Some(m));
    LookupFinds(b, db.chats, OnChat, c);
    var d := AddChat(b, Some(c));
    LookupFinds(d, db.workspaces, OnWorkspace, w);
    assert x == AddWorkspace(d, Some(w));
  }

  /** The chat a record without project came from belongs to this workspace. */
  predicate CameFrom(db: Db, x: Row, w: int) {
    exists m, c | m in db.messages && c in db.chats ::
      x.record.chatMessageId == Some(m.id) && m.chatId == Some(c.id) && c.workspaceId == Some(w)
  }

  lemma {:induction false} FoundIn<L, T>(l: L, table: seq<T>, on: (L, T) -> bool)
    requires Lookup(l, table, on).Some?
    ensures Lookup(l, table, on).value in table && on(l, Lookup(l, table, on).value)
  {
    if !on(l, table[0]) { FoundIn(l, table[1..], on); }
  }

  /** A record without project that came from no chat of any workspace is listed under the other chats. */
  lemma OtherLabel(db: Db, x: Row)
    requires Keyed(db) && x in Joined(db) && x.record.projectId == None
    requires forall w :: !CameFrom(db, x, w)
    ensures ScopeId(x) == "other" && ScopeLabel(x) == "Other chats"
  {
    JoinsKeepRecords(db);
    assert x == RowOf(db, x.record);
    var a := AddProject(Bare(x.record), Lookup(Bare(x.record), db.projects, OnProject));
    var b := AddMessage(a, Lookup(a, db.messages, OnMessage));
    var c := AddChat(b, Lookup(b, db.chats, OnChat));
    if c.chat.Some? && c.chat.value.workspaceId.Some? {
      FoundIn(b, db.chats, OnChat);
      FoundIn(a, db.messages, OnMessage);
      assert CameFrom(db, x, c.chat.value.workspaceId.value);
    }
    NoWorkspaceLeft(db, c);
  }

  lemma NoWorkspaceLeft(db: Db, c: Row)
    ensures c.chat == None || c.chat.value.workspaceId == None ==> Lookup(c, db.workspaces, OnWorkspace) == None
  {
    if c.chat == None || c.chat.value.workspaceId == None { NoWorkspace(c, db.workspaces); }
  }

  /** The number a text of digits stands for. */
  function Decimal(s: string): int {
    if s == "" then 0 else 10 * Decimal(s[..|s| - 1]) + (s[|s| - 1] as int - '0' as int)
  }

  lemma {:induction false} NatTextIsDecimal(n: nat)
    ensures NatText(n) != "" && Decimal(NatText(n)) == n && (n >= 10 ==> NatText(n)[0] != '0')
  {
    NatTextChars(n);
    assert forall d :: 0 <= d < 10 ==> Digit(d) as int - '0' as int == d;
    if n >= 10 {
      NatTextIsDecimal(n / 10);
      NatTextChars(n / 10);
      assert NatText(n)[..|NatText(n)| - 1] == NatText(n / 10);
      if n / 10 < 10 { assert NatText(n / 10) == [Digit(n / 10)]; }
    } else {
      assert NatText(n)[..0] == "";
    }
  }

  /** A number is written in decimal digits, with a minus in front if it is negative. */
  lemma WrittenInDecimal(z: int)
    ensures IntText(z) != ""
    ensures z >= 0 ==> Decimal(IntText(z)) == z
    ensures z < 0 ==> IntText(z)[0] == '-' && Decimal(IntText(z)[1..]) == -z
  {
    NatTextIsDecimal(Abs(z));
    assert z < 0 ==> IntText(z)[1..] == NatText(Abs(z));
    assert z >= 0 ==> IntText(z) == NatText(Abs(z));
  }

  // ---------- sums ----------

  type Column = Record -> Option<real>

  function InputOf(r: Record): Option<real> { r.input }
  function OutputOf(r: Record): Option<real> { r.output }
  function CostOf(r: Record): Option<real> { r.cost }

  /** `SUM(column)`: NULL when no row has a value. */
  function SumOf(records: seq<Record>, column: Column): Option<real> {
    if records == [] then None
    else
      match (column(records[0]), SumOf(records[1..], column))
      case (None, rest) => rest
      case (Some(x), None) => Some(x)
      case (Some(x), Some(y)) => Some(x + y)
  }

  /** `COALESCE(value, 0)` */
  function Coalesce(v: Option<real>): real { if v.Some? then v.value else 0.0 }

  datatype Sums = Sums(input: real, output: real, cost: real, count: nat)

  const NOTHING := Sums(0.0, 0.0, 0.0, 0)

  function Plus(a: Sums, b: Sums): Sums {
    Sums(a.input + b.input, a.output + b.output, a.cost + b.cost, a.count + b.count)
  }

  /** The aggregate columns over some records. */
  function Aggregate(records: seq<Record>): Sums {
    Sums(Coalesce(SumOf(records, InputOf)), Coalesce(SumOf(records, OutputOf)), Coalesce(SumOf(records, CostOf)),
         |records|)
  }

  /** A NULL counts as nothing. */
  function Amount(v: Option<real>): real {
    match v
    case Some(x) => x
    case None => 0.0
  }

  /** One record more adds its own input tokens, output tokens and cost, and one to the count. */
  lemma AggregateOneMore(r: Record, records: seq<Record>)
    ensures var a := Aggregate(records);
            Aggregate([r] + records)
            == Sums(a.input + Amount(r.input), a.output + Amount(r.output), a.cost + Amount(r.cost), a.count + 1)
    ensures Aggregate([]) == Sums(0.0, 0.0, 0.0, 0)
  {
    assert ([r] + records)[1..] == records;
  }

  /** `buildTotals`: the same aggregates over the unjoined table. */
  function Totals(db: Db, keep: Record -> bool): Sums { Aggregate(WhereRecords(db.records, keep)) }

  /** Adding SQL values: NULL if either is. */
  function AddValues(a: Option<real>, b: Option<real>): Option<real> {
    if a.Some? && b.Some? then Some(a.value + b.value) else None
  }

  /** The token figure of one provider or model in the summary: `COALESCE(SUM(input) + SUM(output), 0)`. */
  function SummaryTokens(records: seq<Record>): real {
    Coalesce(AddValues(SumOf(records, InputOf), SumOf(records, OutputOf)))
  }

  predicate HasValue(records: seq<Record>, column: Column) { exists r | r in records :: column(r).Some? }

  lemma {:induction false} SumIsNullIff(records: seq<Record>, column: Column)
    ensures SumOf(records, column) == None <==> !HasValue(records, column)
  {
    if records != [] {
      SumIsNullIff(records[1..], column);
      assert forall r :: r in records <==> r == records[0] || r in records[1..];
    }
  }

  /**
   * The figure is input plus output tokens exactly when neither column is NULL throughout the group, or the other
   * one comes to nothing: otherwise the NULL sum wipes out the tokens that are there.
   */
  lemma SummaryTokensExactIff(records: seq<Record>)
    ensures SummaryTokens(records) == Aggregate(records).input + Aggregate(records).output
       <==> (HasValue(records, InputOf) || Aggregate(records).output == 0.0)
            && (HasValue(records, OutputOf) || Aggregate(records).input == 0.0)
  {
    SumIsNullIff(records, InputOf);
    SumIsNullIff(records, OutputOf);
  }

  /** Rows as the program writes them have both columns, and then the figure is exact. */
  lemma SummaryTokensOfWrittenRows(records: seq<Record>)
    requires forall r :: r in records ==> r.input.Some? && r.output.Some?
    ensures SummaryTokens(records) == Aggregate(records).input + Aggregate(records).output
  {
    if records != [] {
      assert records[0] in records;
      assert HasValue(records, InputOf) && HasValue(records, OutputOf);
    }
  }

  /** A group whose output column is NULL throughout reports no tokens, whatever its input: 5 tokens count as 0. */
  lemma NullHidesTokens(records: seq<Record>)
    requires forall r :: r in records ==> r.output == None
    ensures SummaryTokens(records) == 0.0
    ensures var r := Record(1, None, None, "p", "m", Some(5.0), None, None);
            SummaryTokens([r]) == 0.0 && Aggregate([r]).input == 5.0
  {
    SumIsNullIff(records, OutputOf);
    var r := Record(1, None, None, "p", "m", Some(5.0), None, None);
    assert [r][1..] == [];
    SumIsNullIff([r], OutputOf);
  }

  // ---------- group by ----------

  datatype Item = Item(scopeId: string, scopeLabel: string, sums: Sums)

  /** The rows that fall into the group `id`. */
  function Group(rows: seq<Row>, id: string): seq<Row> {
    if rows == [] then []
    else if ScopeId(rows[0]) == id then [rows[0]] + Group(rows[1..], id)
    else Group(rows[1..], id)
  }

  /** The rows outside the group `id`. */
  function Without(rows: seq<Row>, id: string): seq<Row> {
    if rows == [] then []
    else if ScopeId(rows[0]) == id then Without(rows[1..], id)
    else [rows[0]] + Without(rows[1..], id)
  }

  predicate ItemFor(rows: seq<Row>, item: Item) {
    item.sums == Aggregate(RecordsOf(Group(rows, item.scopeId))) && IsLabelled(rows, item.scopeId, item.scopeLabel)
  }

  predicate IsLabelled(rows: seq<Row>, id: string, name: string) {
    exists r | r in rows :: ScopeId(r) == id && ScopeLabel(r) == name
  }

  predicate ListsScope(items: seq<Item>, id: string) { exists item | item in items :: item.scopeId == id }

  /**
   * A correct answer to the grouped query over some rows, in whatever order the database gives the groups: one item
   * for each group there is, with the group's aggregates and the label of any one of its rows.
   */
  predicate Answers(rows: seq<Row>, items: seq<Item>) {
    && (forall i, j :: 0 <= i < j < |items| ==> items[i].scopeId != items[j].scopeId)
    && (forall item :: item in items ==> ItemFor(rows, item))
    && (forall r :: r in rows ==> ListsScope(items, ScopeId(r)))
  }

  function SumItems(items: seq<Item>): Sums {
    if items == [] then NOTHING else Plus(items[0].sums, SumItems(items[1..]))
  }

  // ---------- conservation ----------

  function RowSum(rows: seq<Row>, column: Column): real { Coalesce(SumOf(RecordsOf(rows), column)) }

  lemma RowSumCons(r: Row, rows: seq<Row>, column: Column)
    ensures RowSum([r] + rows, column) == Coalesce(column(r.record)) + RowSum(rows, column)
  {
    RecordsOfCons(r, rows);
    assert ([r.record] + RecordsOf(rows))[1..] == RecordsOf(rows);
  }

  lemma {:induction false} SumSplits(rows: seq<Row>, id: string, column: Column)
    ensures RowSum(rows, column) == RowSum(Group(rows, id), column) + RowSum(Without(rows, id), column)
  {
    if rows != [] {
      SumSplits(rows[1..], id, column);
      assert rows == [rows[0]] + rows[1..];
      RowSumCons(rows[0], rows[1..], column);
      RowSumCons(rows[0], Group(rows[1..], id), column);
      RowSumCons(rows[0], Without(rows[1..], id), column);
    }
  }

  lemma {:induction false} CountSplits(rows: seq<Row>, id: string)
    ensures |rows| == |Group(rows, id)| + |Without(rows, id)|
  {
    if rows != [] { CountSplits(rows[1..], id); }
  }

  lemma {:induction false} RecordsOfLength(rows: seq<Row>)
    ensures |RecordsOf(rows)| == |rows|
  {
    if rows != [] { RecordsOfLength(rows[1..]); }
  }

  /** One group and the rest add up to the whole. */
  lemma AggregateSplits(rows: seq<Row>, id: string)
    ensures Aggregate(RecordsOf(rows))
         == Plus(Aggregate(RecordsOf(Group(rows, id))), Aggregate(RecordsOf(Without(rows, id))))
  {
    SumSplits(rows, id, InputOf);
    SumSplits(rows, id, OutputOf);
    SumSplits(rows, id, CostOf);
    CountSplits(rows, id);
    RecordsOfLength(rows);
    RecordsOfLength(Group(rows, id));
    RecordsOfLength(Without(rows, id));
  }

  lemma {:induction false} GroupOfRest(rows: seq<Row>, id: string, other: string)
    requires id != other
    ensures Group(Without(rows, id), other) == Group(rows, other)
  {
    if rows != [] {
      GroupOfRest(rows[1..], id, other);
      var rest := Without(rows[1..], id);
      assert ([rows[0]] + rest)[1..] == rest;
    }
  }

  lemma {:induction false} WithoutSpec(rows: seq<Row>, id: string, r: Row)
    ensures r in Without(rows, id) <==> r in rows && ScopeId(r) != id
  {
    if rows != [] {
      WithoutSpec(rows[1..], id, r);
      assert r in rows <==> r == rows[0] || r in rows[1..];
    }
  }

  lemma RestItem(rows: seq<Row>, id: string, item: Item)
    requires ItemFor(rows, item) && item.scopeId != id
    ensures ItemFor(Without(rows, id), item)
  {
    GroupOfRest(rows, id, item.scopeId);
    var r :| r in rows && ScopeId(r) == item.scopeId && ScopeLabel(r) == item.scopeLabel;
    WithoutSpec(rows, id, r);
  }

  lemma RestListed(rows: seq<Row>, items: seq<Item>, r: Row)
    requires items != [] && ListsScope(items, ScopeId(r)) && ScopeId(r) != items[0].scopeId
    ensures ListsScope(items[1..], ScopeId(r))
  {
    var item :| item in items && item.scopeId == ScopeId(r);
    assert item in items[1..];
  }

  lemma RestIsAnswered(rows: seq<Row>, items: seq<Item>)
    requires items != [] && Answers(rows, items)
    ensures Answers(Without(rows, items[0].scopeId), items[1..])
  {
    var id, tail := items[0].scopeId, items[1..];
    forall item | item in tail ensures ItemFor(Without(rows, id), item) {
      var k :| 0 <= k < |tail| && tail[k] == item;
      assert items[k + 1] == item && items[0].scopeId != items[k + 1].scopeId;
      RestItem(rows, id, item);
    }
    forall r | r in Without(rows, id) ensures ListsScope(tail, ScopeId(r)) {
      WithoutSpec(rows, id, r);
      RestListed(rows, items, r);
    }
  }

  lemma RowsHaveItems(rows: seq<Row>, items: seq<Item>)
    requires Answers(rows, items) && rows != []
    ensures items != []
  {
    assert rows[0] in rows;
  }

  /** Over all groups the sums and the record counts add up to those of the ungrouped rows. */
  lemma {:induction false} GroupsConserve(rows: seq<Row>, items: seq<Item>)
    requires Answers(rows, items)
    ensures SumItems(items) == Aggregate(RecordsOf(rows))
    decreases |items|
  {
    if items == [] {
      if rows != [] { RowsHaveItems(rows, items); }
    } else {
      RestIsAnswered(rows, items);
      GroupsConserve(Without(rows, items[0].scopeId), items[1..]);
      AggregateSplits(rows, items[0].scopeId);
      assert items[0] in items;
    }
  }

  /**
   * For every filter, and every order and choice of labels the database may take, the groups of the breakdown add up
   * to the totals reported beside them: token sums, cost sums and record counts.
   */
  lemma BreakdownAddsUp(db: Db, keep: Record -> bool, items: seq<Item>)
    requires Keyed(db) && Answers(WhereRows(Joined(db), keep), items)
    ensures SumItems(items) == Totals(db, keep)
  {
    GroupsConserve(WhereRows(Joined(db), keep), items);
    FilteredJoinKeepsRecords(db, keep);
  }

  predicate OneLabel(rows: seq<Row>) {
    forall q, r | q in rows && r in rows :: ScopeId(q) == ScopeId(r) ==> ScopeLabel(q) == ScopeLabel(r)
  }

  lemma SelectedHaveOneLabel(db: Db, keep: Record -> bool)
    requires Keyed(db)
    ensures OneLabel(WhereRows(Joined(db), keep))
  {
    var rows := WhereRows(Joined(db), keep);
    forall q, r | q in rows && r in rows && ScopeId(q) == ScopeId(r) ensures ScopeLabel(q) == ScopeLabel(r) {
      WhereRowsFrom(Joined(db), keep, q);
      WhereRowsFrom(Joined(db), keep, r);
      LabelFollowsId(db, q, r);
    }
  }

  lemma ItemInOther(rows: seq<Row>, other: seq<Item>, item: Item)
    requires OneLabel(rows) && Answers(rows, other) && ItemFor(rows, item)
    ensures item in other
  {
    var r :| r in rows && ScopeId(r) == item.scopeId && ScopeLabel(r) == item.scopeLabel;
    assert ListsScope(other, ScopeId(r));
    var twin :| twin in other && twin.scopeId == ScopeId(r);
    assert ItemFor(rows, twin);
    assert twin == item;
  }

  /** Any two correct answers list the same groups with the same labels and sums. */
  lemma AnswerIsUnique(db: Db, keep: Record -> bool, items: seq<Item>, other: seq<Item>, item: Item)
    requires Keyed(db)
    ensures var rows := WhereRows(Joined(db), keep);
            Answers(rows, items) && Answers(rows, other) ==> (item in items <==> item in other)
  {
    var rows := WhereRows(Joined(db), keep);
    SelectedHaveOneLabel(db, keep);
    if Answers(rows, items) && Answers(rows, other) {
      if item in items { ItemInOther(rows, other, item); }
      if item in other { ItemInOther(rows, items, item); }
    }
  }
}
