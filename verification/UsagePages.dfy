/**
 * Reading the usage listings page after page. The grouped query asks for no order, so every page may be cut from
 * another order of the same groups.
 */
module UsagePages {
  import opened Wrappers
  import opened Usage

  /** `LIMIT perPage OFFSET offset` */
  function Page<T>(all: seq<T>, perPage: nat, offset: nat): seq<T> {
    if offset >= |all| then []
    else if offset + perPage >= |all| then all[offset..]
    else all[offset..offset + perPage]
  }

  /** Page number `k`, counted from 0. */
  function PageNo<T>(all: seq<T>, perPage: nat, k: nat): seq<T> { Page(all, perPage, k * perPage) }

  /** What the pages show, one after another. */
  function Flat<T>(pages: seq<seq<T>>): seq<T> {
    if pages == [] then []
    else
      var n := |pages| - 1;
      Flat(pages[..n]) + pages[n]
  }

  /** The pages, when page number `k` is cut from the order `orders[k]`. */
  function PagesOf<T>(orders: seq<seq<T>>, perPage: nat): (pages: seq<seq<T>>)
    ensures |pages| == |orders|
    ensures forall k :: 0 <= k < |orders| ==> pages[k] == PageNo(orders[k], perPage, k)
  {
    seq(|orders|, k requires 0 <= k < |orders| => PageNo(orders[k], perPage, k))
  }

  function Read<T>(orders: seq<seq<T>>, perPage: nat): seq<T> { Flat(PagesOf(orders, perPage)) }

  function Constantly<T>(all: seq<T>, n: nat): (orders: seq<seq<T>>)
    ensures |orders| == n && forall k :: 0 <= k < n ==> orders[k] == all
  {
    seq(n, _ => all)
  }

  // ---------- one order for all pages ----------

  lemma FlatOneMore<T>(pages: seq<seq<T>>, last: seq<T>)
    ensures Flat(pages + [last]) == Flat(pages) + last
  {
    assert (pages + [last])[..|pages|] == pages;
  }

  lemma PagesOfOneMore<T>(all: seq<T>, perPage: nat, n: nat)
    requires n > 0
    ensures PagesOf(Constantly(all, n), perPage)
         == PagesOf(Constantly(all, n - 1), perPage) + [PageNo(all, perPage, n - 1)]
  {
  }

  /** Up to the end of a page: the pages before it, and the page. */
  lemma PageExtends<T>(all: seq<T>, perPage: nat, k: nat)
    ensures UpTo(all, k * perPage) + PageNo(all, perPage, k) == UpTo(all, (k + 1) * perPage)
  {
    assert (k + 1) * perPage == k * perPage + perPage;
  }

  /** The first `count` elements, or all there are. */
  function UpTo<T>(all: seq<T>, count: nat): seq<T> { if count >= |all| then all else all[..count] }

  /** The first `n` pages are the first `n * perPage` groups: reading page after page skips and repeats nothing. */
  lemma {:induction false} PagesAreConsecutive<T>(all: seq<T>, perPage: nat, n: nat)
    ensures Read(Constantly(all, n), perPage) == UpTo(all, n * perPage)
  {
    if n > 0 {
      PagesAreConsecutive(all, perPage, n - 1);
      PagesOfOneMore(all, perPage, n);
      FlatOneMore(PagesOf(Constantly(all, n - 1), perPage), PageNo(all, perPage, n - 1));
      PageExtends(all, perPage, n - 1);
    }
  }

  // ---------- an order per page ----------

  ghost predicate TakenFrom<T(!new)>(possible: iset<seq<T>>, orders: seq<seq<T>>) {
    forall k :: 0 <= k < |orders| ==> orders[k] in possible
  }

  /** However the database orders each page, `n` pages show exactly `all`, each as often as it stands there. */
  ghost predicate AlwaysReads<T(!new)>(possible: iset<seq<T>>, all: seq<T>, perPage: nat, n: nat) {
    forall orders: seq<seq<T>> ::
      |orders| == n && TakenFrom(possible, orders) ==> multiset(Read(orders, perPage)) == multiset(all)
  }

  predicate SamePage<T(==)>(one: seq<T>, other: seq<T>, perPage: nat, k: nat) {
    multiset(PageNo(one, perPage, k)) == multiset(PageNo(other, perPage, k))
  }

  /** All orders put the same elements on each page. */
  ghost predicate SamePages<T(!new)>(possible: iset<seq<T>>, all: seq<T>, perPage: nat, n: nat) {
    forall k: nat, order :: k < n && order in possible ==> SamePage(order, all, perPage, k)
  }

  lemma {:induction false} SameBags<T>(pages: seq<seq<T>>, others: seq<seq<T>>)
    requires |pages| == |others| && forall k :: 0 <= k < |pages| ==> multiset(pages[k]) == multiset(others[k])
    ensures multiset(Flat(pages)) == multiset(Flat(others))
  {
    if pages != [] {
      var n := |pages| - 1;
      SameBags(pages[..n], others[..n]);
      assert multiset(pages[n]) == multiset(others[n]);
    }
  }

  lemma AddLast<T>(whole: seq<T>, a: seq<T>, b: seq<T>, c: seq<T>, last: seq<T>)
    requires whole == a + b + c
    ensures whole + last == a + b + (c + last)
  {
  }

  lemma {:induction false} FlatSplits<T>(pages: seq<seq<T>>, k: nat)
    requires k < |pages|
    ensures Flat(pages) == Flat(pages[..k]) + pages[k] + Flat(pages[k + 1..])
  {
    var n := |pages| - 1;
    if k < n {
      FlatSplits(pages[..n], k);
      assert pages[..n][..k] == pages[..k];
      AddLast(Flat(pages[..n]), Flat(pages[..k]), pages[k], Flat(pages[..n][k + 1..]), pages[n]);
      assert pages[k + 1..] == pages[..n][k + 1..] + [pages[n]];
      FlatOneMore(pages[..n][k + 1..], pages[n]);
    } else {
      assert pages[k + 1..] == [];
    }
  }

  lemma Cancel<T>(before: seq<T>, one: seq<T>, other: seq<T>, after: seq<T>)
    requires multiset(before + one + after) == multiset(before + other + after)
    ensures multiset(one) == multiset(other)
  {
    var a, b := multiset(before), multiset(after);
    assert multiset(before + one + after) == a + multiset(one) + b;
    assert multiset(before + other + after) == a + multiset(other) + b;
    forall x ensures multiset(one)[x] == multiset(other)[x] {
      assert (a + multiset(one) + b)[x] == (a + multiset(other) + b)[x];
    }
  }

  lemma SameAround<T>(s: seq<T>, t: seq<T>, k: nat)
    requires k < |s| == |t| && forall j :: 0 <= j < |s| && j != k ==> s[j] == t[j]
    ensures s[..k] == t[..k] && s[k + 1..] == t[k + 1..]
  {
  }

  /** Two lists of pages that show the same and differ in one page at most show the same on that page. */
  lemma OnePageDiffers<T>(pages: seq<seq<T>>, others: seq<seq<T>>, k: nat)
    requires k < |pages| == |others| && multiset(Flat(pages)) == multiset(Flat(others))
    requires forall j :: 0 <= j < |pages| && j != k ==> pages[j] == others[j]
    ensures multiset(pages[k]) == multiset(others[k])
  {
    FlatSplits(pages, k);
    FlatSplits(others, k);
    SameAround(pages, others, k);
    Cancel(Flat(pages[..k]), pages[k], others[k], Flat(pages[k + 1..]));
  }

  lemma OtherPageIsSame<T(!new)>(possible: iset<seq<T>>, all: seq<T>, order: seq<T>, perPage: nat, n: nat, k: nat)
    requires AlwaysReads(possible, all, perPage, n)
    requires all in possible && order in possible && k < n
    ensures SamePage(order, all, perPage, k)
  {
    var orders := Constantly(all, n);
    assert TakenFrom(possible, orders) && TakenFrom(possible, orders[k := order]);
    OnePageDiffers(PagesOf(orders[k := order], perPage), PagesOf(orders, perPage), k);
  }

  lemma SamePagesRead<T(!new)>(possible: iset<seq<T>>, all: seq<T>, perPage: nat, orders: seq<seq<T>>)
    requires SamePages(possible, all, perPage, |orders|) && TakenFrom(possible, orders)
    ensures multiset(Read(orders, perPage)) == multiset(Read(Constantly(all, |orders|), perPage))
  {
    var pages, others := PagesOf(orders, perPage), PagesOf(Constantly(all, |orders|), perPage);
    forall k | 0 <= k < |pages| ensures multiset(pages[k]) == multiset(others[k]) {
      assert SamePage(orders[k], all, perPage, k);
    }
    SameBags(pages, others);
  }

  /**
   * Pages enough for everything show everything exactly once, whichever possible order the database takes for each
   * page, exactly when all possible orders put the same elements on each page.
   */
  lemma AlwaysReadsIffSamePages<T(!new)>(possible: iset<seq<T>>, all: seq<T>, perPage: nat, n: nat)
    requires all in possible && n * perPage >= |all|
    ensures AlwaysReads(possible, all, perPage, n) <==> SamePages(possible, all, perPage, n)
  {
    if SamePages(possible, all, perPage, n) {
      PagesAreConsecutive(all, perPage, n);
      forall orders: seq<seq<T>> | |orders| == n && TakenFrom(possible, orders)
        ensures multiset(Read(orders, perPage)) == multiset(all)
      {
        SamePagesRead(possible, all, perPage, orders);
      }
    }
    if AlwaysReads(possible, all, perPage, n) {
      forall k: nat, order | k < n && order in possible ensures SamePage(order, all, perPage, k) {
        OtherPageIsSame(possible, all, order, perPage, n, k);
      }
    }
  }

  // ---------- the grouped query ----------

  /** Every order in which the database may list the groups. */
  ghost function AnswersTo(rows: seq<Row>): iset<seq<Item>> { iset items: seq<Item> | Answers(rows, items) }

  predicate Distinct<T(==)>(s: seq<T>) { forall i, j :: 0 <= i < j < |s| ==> s[i] != s[j] }

  lemma {:induction false} CountOfDistinct<T>(s: seq<T>, x: T)
    requires Distinct(s)
    ensures multiset(s)[x] == if x in s then 1 else 0
  {
    if s != [] {
      var n := |s| - 1;
      assert s == s[..n] + [s[n]];
      CountOfDistinct(s[..n], x);
    }
  }

  /** Correct answers are orders of the same items. */
  lemma AnswersArePermutations(db: Db, keep: Record -> bool, items: seq<Item>, other: seq<Item>)
    requires Keyed(db)
    requires Answers(WhereRows(Joined(db), keep), items) && Answers(WhereRows(Joined(db), keep), other)
    ensures multiset(items) == multiset(other)
  {
    assert Distinct(items) && Distinct(other);
    forall item ensures multiset(items)[item] == multiset(other)[item] {
      CountOfDistinct(items, item);
      CountOfDistinct(other, item);
      AnswerIsUnique(db, keep, items, other, item);
    }
  }

  lemma SamePageOfShort<T>(one: seq<T>, other: seq<T>, perPage: nat, k: nat)
    requires multiset(one) == multiset(other) && |other| <= perPage
    ensures SamePage(one, other, perPage, k)
  {
    assert |one| == |multiset(one)| == |other|;
    if k == 0 {
      assert PageNo(one, perPage, 0) == one && PageNo(other, perPage, 0) == other;
    } else {
      assert k * perPage >= perPage;
    }
  }

  function Swapped<T>(s: seq<T>, i: nat, j: nat): (r: seq<T>)
    requires i < j < |s|
    ensures |r| == |s|
  {
    s[i := s[j]][j := s[i]]
  }

  lemma SwappedHas<T>(s: seq<T>, i: nat, j: nat, x: T)
    requires i < j < |s|
    ensures x in Swapped(s, i, j) <==> x in s
  {
    var r := Swapped(s, i, j);
    if x in s {
      var k :| 0 <= k < |s| && s[k] == x;
      assert r[if k == i then j else if k == j then i else k] == x;
    }
  }

  /** An answer with two items exchanged is an answer. */
  lemma SwapIsAnswer(rows: seq<Row>, items: seq<Item>, i: nat, j: nat)
    requires Answers(rows, items) && i < j < |items|
    ensures Answers(rows, Swapped(items, i, j))
  {
    var other := Swapped(items, i, j);
    forall item | item in other ensures ItemFor(rows, item) {
      SwappedHas(items, i, j, item);
    }
    forall r | r in rows ensures ListsScope(other, ScopeId(r)) {
      assert ListsScope(items, ScopeId(r));
      var item :| item in items && item.scopeId == ScopeId(r);
      SwappedHas(items, i, j, item);
    }
  }

  /** Exchanging the first item with the one after the first page puts another item on the first page. */
  lemma SwapChangesPage(items: seq<Item>, perPage: nat)
    requires Distinct(items) && 1 <= perPage < |items|
    ensures !SamePage(Swapped(items, 0, perPage), items, perPage, 0)
  {
    var other := Swapped(items, 0, perPage);
    var mine, theirs := PageNo(items, perPage, 0), PageNo(other, perPage, 0);
    assert mine[0] == items[0];
    assert items[0] in multiset(mine);
    assert items[0] !in theirs;
    assert items[0] !in multiset(theirs);
  }

  /**
   * Reading the grouped listing page after page, with enough pages for all groups, is sure to show every group exactly
   * once if and only if all groups fit on one page.
   */
  lemma ListingIsReadIffOnePage(db: Db, keep: Record -> bool, items: seq<Item>, perPage: nat, n: nat)
    requires Keyed(db) && Answers(WhereRows(Joined(db), keep), items)
    requires perPage >= 1 && n * perPage >= |items|
    ensures AlwaysReads(AnswersTo(WhereRows(Joined(db), keep)), items, perPage, n) <==> |items| <= perPage
  {
    var rows := WhereRows(Joined(db), keep);
    var possible := AnswersTo(rows);
    AlwaysReadsIffSamePages(possible, items, perPage, n);
    if |items| <= perPage {
      forall k: nat, order | k < n && order in possible ensures SamePage(order, items, perPage, k) {
        AnswersArePermutations(db, keep, order, items);
        SamePageOfShort(order, items, perPage, k);
      }
    } else {
      SwapIsAnswer(rows, items, 0, perPage);
      SwapChangesPage(items, perPage);
      assert Swapped(items, 0, perPage) in possible && 0 < n;
    }
  }

  // ---------- a listing that repeats and skips ----------

  function ItemOf(rows: seq<Row>, r: Row): Item {
    Item(ScopeId(r), ScopeLabel(r), Aggregate(RecordsOf(Group(rows, ScopeId(r)))))
  }

  lemma TwoItems(rows: seq<Row>, a: Item, b: Item)
    requires ItemFor(rows, a) && ItemFor(rows, b) && a.scopeId != b.scopeId
    requires forall r :: r in rows ==> ScopeId(r) == a.scopeId || ScopeId(r) == b.scopeId
    ensures Answers(rows, [a, b])
  {
    assert a in [a, b] && b in [a, b];
    assert ListsScope([a, b], a.scopeId) && ListsScope([a, b], b.scopeId);
  }

  lemma ItemOfIsItem(rows: seq<Row>, r: Row)
    requires r in rows
    ensures ItemFor(rows, ItemOf(rows, r)) && ItemOf(rows, r).scopeId == ScopeId(r)
  {
  }

  lemma TwoGroups(q: Row, r: Row)
    requires ScopeId(q) != ScopeId(r)
    ensures var a, b := ItemOf([q, r], q), ItemOf([q, r], r);
            a != b && Answers([q, r], [a, b]) && Answers([q, r], [b, a])
  {
    var rows := [q, r];
    ItemOfIsItem(rows, q);
    ItemOfIsItem(rows, r);
    TwoItems(rows, ItemOf(rows, q), ItemOf(rows, r));
    TwoItems(rows, ItemOf(rows, r), ItemOf(rows, q));
  }

  predicate Everything(r: Record) { true }

  function TwoProjects(): Db {
    Db([Record(1, Some(1), None, "p", "m", Some(5.0), Some(7.0), Some(0.5)),
        Record(2, Some(2), None, "p", "m", Some(3.0), Some(4.0), Some(0.25))],
       [Project(1, "one"), Project(2, "two")], [], [], [])
  }

  lemma TwoRows(q: Row, r: Row)
    ensures WhereRows([q, r], Everything) == [q, r]
  {
    assert [q, r][1..] == [r] && [r][1..] == [];
    assert WhereRows([], Everything) == [];
    assert WhereRows([r], Everything) == [r];
  }

  lemma TwoPages<T>(a: T, b: T)
    ensures Read([[a, b], [b, a]], 1) == [a, a]
  {
    var pages := PagesOf([[a, b], [b, a]], 1);
    assert PageNo([a, b], 1, 0) == [a] && PageNo([b, a], 1, 1) == [a];
    assert pages == [[a], [a]];
    assert pages[..1] == [[a]] && [[a]][..0] == [];
    assert Flat([[a]]) == [a];
  }

  /** Records of two projects are two groups, in either order. */
  lemma RecordsOfTwoProjects(db: Db, x: Record, y: Record) returns (a: Item, b: Item)
    requires Keyed(db) && db.records == [x, y]
    requires x.projectId.Some? && y.projectId.Some? && x.projectId != y.projectId
    ensures var rows := WhereRows(Joined(db), Everything); Answers(rows, [a, b]) && Answers(rows, [b, a])
    ensures a != b
  {
    JoinsKeepRecords(db);
    var q, r := RowOf(db, x), RowOf(db, y);
    assert Joined(db) == [q, r];
    TwoRows(q, r);
    SameGroupIff(q, r);
    TwoGroups(q, r);
    a, b := ItemOf([q, r], q), ItemOf([q, r], r);
  }

  /** Two projects, one group a page: both orders answer the query, and reading one after the other repeats a group. */
  lemma PagesMayRepeat() returns (a: Item, b: Item)
    ensures Keyed(TwoProjects())
    ensures var rows := WhereRows(Joined(TwoProjects()), Everything); Answers(rows, [a, b]) && Answers(rows, [b, a])
    ensures a != b && Read([[a, b], [b, a]], 1) == [a, a]
  {
    var db := TwoProjects();
    a, b := RecordsOfTwoProjects(db, db.records[0], db.records[1]);
    TwoPages(a, b);
  }

  // ---------- the ungrouped listing ----------

  /** A row with the value of `count(*) OVER ()` beside it. */
  datatype Counted<T> = Counted(row: T, totalCount: nat)

  function WithTotal<T>(all: seq<T>): seq<Counted<T>> {
    seq(|all|, i requires 0 <= i < |all| => Counted(all[i], |all|))
  }

  function RowsOf<T>(counted: seq<Counted<T>>): seq<T> {
    if counted == [] then [] else [counted[0].row] + RowsOf(counted[1..])
  }

  datatype Listing<T> = Listing(items: seq<T>, total: nat)

  /** One query for both: the total is read from the first row of the page, and is 0 for an empty page. */
  function ListPage<T>(all: seq<T>, perPage: nat, offset: nat): Listing<T> {
    var page := Page(WithTotal(all), perPage, offset);
    Listing(RowsOf(page), if page == [] then 0 else page[0].totalCount)
  }

  lemma {:induction false} RowsOfSpec<T>(counted: seq<Counted<T>>, rows: seq<T>)
    requires |counted| == |rows| && forall i :: 0 <= i < |rows| ==> counted[i].row == rows[i]
    ensures RowsOf(counted) == rows
  {
    if rows != [] { RowsOfSpec(counted[1..], rows[1..]); }
  }

  /**
   * The items are the page of the records; the total is the number of matching records exactly when the page starts
   * before their end, or there are none.
   */
  lemma TotalIsRightIff<T>(all: seq<T>, perPage: nat, offset: nat)
    requires perPage >= 1
    ensures ListPage(all, perPage, offset).items == Page(all, perPage, offset)
    ensures ListPage(all, perPage, offset).total == |all| <==> offset < |all| || all == []
  {
    RowsOfSpec(Page(WithTotal(all), perPage, offset), Page(all, perPage, offset));
  }
}
