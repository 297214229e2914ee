/** `listItems`: normalising untrusted list parameters into a query plan,
    the search filter, the row count and the LIMIT/OFFSET page window. The
    SQL engine's answer to the filtered, ordered SELECT is a parameter. */
module ListQuery {
  import opened Wrappers
  import opened Strings
  import opened ItemSchema

  datatype SortField = Title | CreatedAt | UpdatedAt
  datatype SortDir = Asc | Desc

  /** The list parameters as the route hands them over; `None` is absent. */
  datatype ListParams = ListParams(
    q: Option<string>,
    sortBy: Option<string>,
    sortDir: Option<string>,
    page: Option<int>,
    pageSize: Option<int>)

  datatype ListMeta = ListMeta(page: int, pageSize: int, total: nat)
  datatype ListResult = ListResult(data: seq<Item>, meta: ListMeta)

  /** The normalised parameters of one list request. */
  datatype QueryPlan = QueryPlan(
    term: Option<string>,
    sortBy: SortField,
    sortDir: SortDir,
    page: int,
    pageSize: int)

  const DefaultPage := 1
  const DefaultPageSize := 10
  const MaxPageSize := 100
  const SortColumns: set<string> := {"title", "createdAt", "updatedAt"}

  /** The column named in ORDER BY. */
  function ColumnName(f: SortField): string {
    match f
    case Title => "title"
    case CreatedAt => "createdAt"
    case UpdatedAt => "updatedAt"
  }

  /** `sortBy` whitelisting: a whitelisted column is kept, anything else
      (absent included) becomes `createdAt`. */
  function SortFieldOf(sortBy: Option<string>): (f: SortField)
    ensures ColumnName(f) in SortColumns
    ensures sortBy.Some? && sortBy.value in SortColumns ==> ColumnName(f) == sortBy.value
    ensures !(sortBy.Some? && sortBy.value in SortColumns) ==> f == CreatedAt
  {
    match sortBy.GetOr("createdAt")
    case "title" => Title
    case "updatedAt" => UpdatedAt
    case _ => CreatedAt
  }

  /** `sortDir`: ascending only for exactly `asc`. */
  function SortDirOf(sortDir: Option<string>): (d: SortDir)
    ensures d == Asc <==> sortDir == Some("asc")
  {
    if sortDir.GetOr("desc") == "asc" then Asc else Desc
  }

  function Max(a: int, b: int): int { if a < b then b else a }
  function Min(a: int, b: int): int { if a < b then a else b }

  /** The page number: at least 1, default 1, in-range values kept. */
  function PageOf(page: Option<int>): (r: int)
    ensures r >= 1
    ensures page.Some? && page.value >= 1 ==> r == page.value
    ensures page.None? || page.value < 1 ==> r == 1
  {
    Max(1, page.GetOr(DefaultPage))
  }

  /** The page size: within 1..100, default 10, in-range values kept. */
  function PageSizeOf(pageSize: Option<int>): (r: int)
    ensures 1 <= r <= MaxPageSize
    ensures pageSize.None? ==> r == DefaultPageSize
    ensures pageSize.Some? && 1 <= pageSize.value <= MaxPageSize ==> r == pageSize.value
    ensures pageSize.Some? && pageSize.value > MaxPageSize ==> r == MaxPageSize
    ensures pageSize.Some? && pageSize.value < 1 ==> r == 1
  {
    Min(MaxPageSize, Max(1, pageSize.GetOr(DefaultPageSize)))
  }

  /** The search term: present exactly when `q` holds a non-whitespace
      character, and then the trimmed `q`. */
  function SearchTermOf(q: Option<string>): (r: Option<string>)
    ensures r.Some? <==> q.Some? && !AllTrimmable(q.value)
    ensures r.Some? ==> r.value == Trim(q.value) && r.value != []
  {
    var t := Trim(q.GetOr(""));
    if t == [] then None else Some(t)
  }

  predicate ValidPlan(plan: QueryPlan) {
    && plan.page >= 1
    && 1 <= plan.pageSize <= MaxPageSize
    && (plan.term.Some? ==> plan.term.value != [])
  }

  function PlanOf(params: ListParams): (plan: QueryPlan)
    ensures ValidPlan(plan)
  {
    QueryPlan(
      SearchTermOf(params.q),
      SortFieldOf(params.sortBy),
      SortDirOf(params.sortDir),
      PageOf(params.page),
      PageSizeOf(params.pageSize))
  }

  /** `a * b` by repeated addition, which keeps the solver away from
      non-linear arithmetic wherever an offset appears. */
  function Times(a: nat, b: nat): nat {
    if a == 0 then 0 else Times(a - 1, b) + b
  }

  lemma {:induction false} TimesIsProduct(a: nat, b: nat)
    ensures Times(a, b) == a * b
  {
    if a > 0 {
      TimesIsProduct(a - 1, b);
      assert (a - 1) * b + b == a * b;
    }
  }

  /** OFFSET for 1-indexed pages: `(page - 1) * pageSize`. */
  function Offset(page: int, pageSize: int): (r: nat)
    requires page >= 1 && pageSize >= 1
    ensures r == 0 <==> page == 1
    ensures r + pageSize == Times(page, pageSize)
  {
    Times(page - 1, pageSize)
  }

  /** The offset skips the `page - 1` full pages before the requested one. */
  lemma OffsetSkipsEarlierPages(page: int, pageSize: int)
    requires page >= 1 && pageSize >= 1
    ensures Offset(page, pageSize) == (page - 1) * pageSize
  {
    TimesIsProduct(page - 1, pageSize);
  }

  /** The WHERE clause: `title LIKE '%term%' OR description LIKE '%term%'`,
      or every row when there is no term. */
  predicate Selected(item: Item, term: Option<string>) {
    match term
    case None => true
    case Some(t) => Like(item.title, "%" + t + "%") || Like(item.description, "%" + t + "%")
  }

  /** With no `%` or `_` in the term, a row is selected exactly when the term
      occurs, up to ASCII case, in its title or its description. */
  lemma SelectedIffContains(item: Item, t: string)
    requires !HasWildcard(t)
    ensures Selected(item, Some(t)) <==>
              ContainsIgnoringCase(item.title, t) || ContainsIgnoringCase(item.description, t)
  {
    LikeIsContains(item.title, t);
    LikeIsContains(item.description, t);
  }

  /** The ids of the rows the WHERE clause selects. */
  function MatchingIds(table: map<string, Item>, term: Option<string>): (r: set<string>)
    ensures r <= table.Keys
    ensures term.None? ==> r == table.Keys
  {
    set id | id in table && Selected(table[id], term)
  }

  function SortKey(item: Item, f: SortField): string {
    match f
    case Title => item.title
    case CreatedAt => item.createdAt
    case UpdatedAt => item.updatedAt
  }

  /** `a` may come before `b` under ORDER BY `f` `d`; ties may go either way. */
  predicate InOrder(a: Item, b: Item, f: SortField, d: SortDir) {
    if d == Asc then LexLeq(SortKey(a, f), SortKey(b, f)) else LexLeq(SortKey(b, f), SortKey(a, f))
  }

  function IdsOf(rows: seq<Item>): set<string> {
    set i | 0 <= i < |rows| :: rows[i].id
  }

  predicate DistinctIds(rows: seq<Item>) {
    forall i, j :: 0 <= i < j < |rows| ==> rows[i].id != rows[j].id
  }

  predicate SortedBy(rows: seq<Item>, f: SortField, d: SortDir) {
    forall i :: 0 <= i < |rows| - 1 ==> InOrder(rows[i], rows[i + 1], f, d)
  }

  /** `ordered` is an answer the engine may give to the SELECT before LIMIT
      and OFFSET: every selected row of the table once, in sort order. */
  predicate IsOrderedSelection(table: map<string, Item>, plan: QueryPlan, ordered: seq<Item>) {
    && (forall i :: 0 <= i < |ordered| ==> ordered[i].id in table && table[ordered[i].id] == ordered[i])
    && DistinctIds(ordered)
    && IdsOf(ordered) == MatchingIds(table, plan.term)
    && SortedBy(ordered, plan.sortBy, plan.sortDir)
  }

  lemma {:induction false} DistinctIdsCount(rows: seq<Item>)
    requires DistinctIds(rows)
    ensures |IdsOf(rows)| == |rows|
  {
    if rows != [] {
      var init := rows[..|rows| - 1];
      assert DistinctIds(init);
      DistinctIdsCount(init);
      assert IdsOf(rows) == IdsOf(init) + {rows[|rows| - 1].id};
      assert rows[|rows| - 1].id !in IdsOf(init);
    }
  }

  /** Every row of an ordered selection is a selected row. */
  lemma SelectionRowsSelected(table: map<string, Item>, plan: QueryPlan, ordered: seq<Item>)
    requires IsOrderedSelection(table, plan, ordered)
    ensures forall i :: 0 <= i < |ordered| ==> Selected(ordered[i], plan.term)
  {
    forall i | 0 <= i < |ordered| ensures Selected(ordered[i], plan.term) {
      assert ordered[i].id in IdsOf(ordered);
      assert table[ordered[i].id] == ordered[i];
    }
  }

  /** `LIMIT limit OFFSET offset` applied to `rows`. */
  function Window(rows: seq<Item>, offset: nat, limit: nat): (r: seq<Item>)
    ensures |r| == Min(limit, Max(0, |rows| - offset))
    ensures forall k :: 0 <= k < |r| ==> r[k] == rows[offset + k]
  {
    if offset >= |rows| then []
    else rows[offset..Min(offset + limit, |rows|)]
  }

  /** `listItems`, given the engine's ordered answer to the filtered SELECT:
      `meta` echoes the normalised page and page size and counts every
      selected row whatever the page; `data` is the LIMIT/OFFSET window of
      the ordered rows starting at the page's offset. */
  function ListItems(table: map<string, Item>, params: ListParams, ordered: seq<Item>): (r: ListResult)
    ensures r.meta.page == PageOf(params.page) && r.meta.pageSize == PageSizeOf(params.pageSize)
    ensures r.meta.total == |MatchingIds(table, SearchTermOf(params.q))|
    ensures var offset := Offset(r.meta.page, r.meta.pageSize);
            && |r.data| == Min(r.meta.pageSize, Max(0, |ordered| - offset))
            && forall k :: 0 <= k < |r.data| ==> offset + k < |ordered| && r.data[k] == ordered[offset + k]
    ensures |r.data| <= r.meta.pageSize
  {
    var page, pageSize := PageOf(params.page), PageSizeOf(params.pageSize);
    var data := Window(ordered, Offset(page, pageSize), pageSize);
    ListResult(data, ListMeta(page, pageSize, |MatchingIds(table, SearchTermOf(params.q))|))
  }

  lemma SortedWindow(rows: seq<Item>, offset: nat, limit: nat, f: SortField, d: SortDir)
    requires SortedBy(rows, f, d)
    ensures SortedBy(Window(rows, offset, limit), f, d)
  {
  }

  /** When `ordered` is what the engine may answer, `total` is its length,
      so by `ListItems` the page holds `min(pageSize, max(0, total - offset))`
      rows. */
  lemma ListItemsCount(table: map<string, Item>, params: ListParams, ordered: seq<Item>)
    requires IsOrderedSelection(table, PlanOf(params), ordered)
    ensures ListItems(table, params, ordered).meta.total == |ordered|
  {
    DistinctIdsCount(ordered);
  }

  /** When `ordered` is what the engine may answer, the rows of a page are
      rows of the table that the search selects, in the requested order. */
  lemma ListItemsRows(table: map<string, Item>, params: ListParams, ordered: seq<Item>)
    requires IsOrderedSelection(table, PlanOf(params), ordered)
    ensures var r := ListItems(table, params, ordered);
            && SortedBy(r.data, SortFieldOf(params.sortBy), SortDirOf(params.sortDir))
            && forall k :: 0 <= k < |r.data| ==>
                 r.data[k].id in table && table[r.data[k].id] == r.data[k]
                 && Selected(r.data[k], SearchTermOf(params.q))
  {
    var plan := PlanOf(params);
    SelectionRowsSelected(table, plan, ordered);
    SortedWindow(ordered, Offset(plan.page, plan.pageSize), plan.pageSize, plan.sortBy, plan.sortDir);
  }

  /** Over an empty table, the empty answer is valid for every request. */
  lemma EmptyTableEmptyPage(table: map<string, Item>, params: ListParams)
    requires table == map[]
    ensures IsOrderedSelection(table, PlanOf(params), [])
  {
    var plan := PlanOf(params);
    var none: seq<Item> := [];
    assert MatchingIds(table, plan.term) == {} == IdsOf(none);
    assert SortedBy(none, plan.sortBy, plan.sortDir);
  }

  /** Over a one-row table and without a search term, that row alone is a
      valid answer. */
  lemma OneRowSelection(it: Item, params: ListParams)
    requires params.q.None?
    ensures IsOrderedSelection(map[it.id := it], PlanOf(params), [it])
  {
    var plan := PlanOf(params);
    assert plan.term == None;
    OneRowUnfiltered(it, plan);
  }

  lemma OneRowUnfiltered(it: Item, plan: QueryPlan)
    requires plan.term == None
    ensures IsOrderedSelection(map[it.id := it], plan, [it])
  {
    var rows := [it];
    assert rows[0] == it;
    assert IdsOf(rows) == {it.id} by { assert it.id in IdsOf(rows); }
    assert MatchingIds(map[it.id := it], None) == {it.id};
  }

  /** Every row is stored under its own id, as the primary key keeps it. */
  predicate Keyed(table: map<string, Item>) {
    forall id :: id in table ==> table[id].id == id
  }

  /** Two rows are always ordered one way or the other. */
  lemma InOrderTotal(a: Item, b: Item, f: SortField, d: SortDir)
    ensures InOrder(a, b, f, d) || InOrder(b, a, f, d)
  {
    LexLeqTotal(SortKey(a, f), SortKey(b, f));
  }

  lemma InOrderTrans(a: Item, b: Item, c: Item, f: SortField, d: SortDir)
    requires InOrder(a, b, f, d) && InOrder(b, c, f, d)
    ensures InOrder(a, c, f, d)
  {
    if d == Asc {
      LexLeqTrans(SortKey(a, f), SortKey(b, f), SortKey(c, f));
    } else {
      LexLeqTrans(SortKey(c, f), SortKey(b, f), SortKey(a, f));
    }
  }

  /** Order between neighbours is order between any two rows. */
  lemma {:induction false} SortedPairwise(rows: seq<Item>, f: SortField, d: SortDir)
    requires SortedBy(rows, f, d)
    ensures forall i, j :: 0 <= i < j < |rows| ==> InOrder(rows[i], rows[j], f, d)
    decreases |rows|
  {
    if |rows| > 1 {
      var t := rows[1..];
      assert SortedBy(t, f, d) by {
        forall i | 0 <= i < |t| - 1 ensures InOrder(t[i], t[i + 1], f, d) {
          assert t[i] == rows[i + 1] && t[i + 1] == rows[i + 2];
        }
      }
      SortedPairwise(t, f, d);
      forall i, j | 0 <= i < j < |rows| ensures InOrder(rows[i], rows[j], f, d) {
        if i > 0 {
          assert rows[i] == t[i - 1] && rows[j] == t[j - 1];
        } else if j > 1 {
          assert rows[1] == t[0] && rows[j] == t[j - 1];
          InOrderTrans(rows[0], rows[1], rows[j], f, d);
        }
      }
    }
  }

  /** `x` inserted before the first row it may precede. */
  function InsertInOrder(x: Item, rows: seq<Item>, f: SortField, d: SortDir): (r: seq<Item>)
    ensures |r| == |rows| + 1
    ensures r[0] == x || (rows != [] && r[0] == rows[0])
    decreases |rows|
  {
    if rows == [] || InOrder(x, rows[0], f, d) then [x] + rows
    else [rows[0]] + InsertInOrder(x, rows[1..], f, d)
  }

  lemma IdsOfCons(a: Item, rows: seq<Item>)
    ensures IdsOf([a] + rows) == {a.id} + IdsOf(rows)
  {
    var s := [a] + rows;
    assert forall i :: 1 <= i < |s| ==> s[i] == rows[i - 1];
    assert s[0] == a;
    forall id | id in IdsOf(rows) ensures id in IdsOf(s) {
      var i :| 0 <= i < |rows| && rows[i].id == id;
      assert s[i + 1] == rows[i];
    }
  }

  lemma DistinctCons(a: Item, rows: seq<Item>)
    requires DistinctIds(rows) && a.id !in IdsOf(rows)
    ensures DistinctIds([a] + rows)
  {
    var s := [a] + rows;
    forall i, j | 0 <= i < j < |s| ensures s[i].id != s[j].id {
      assert s[j] == rows[j - 1];
      if i == 0 {
        assert rows[j - 1].id in IdsOf(rows);
      } else {
        assert s[i] == rows[i - 1];
      }
    }
  }

  lemma StoredCons(table: map<string, Item>, a: Item, rows: seq<Item>)
    requires a.id in table && table[a.id] == a
    requires forall i :: 0 <= i < |rows| ==> rows[i].id in table && table[rows[i].id] == rows[i]
    ensures forall i :: 0 <= i < |[a] + rows| ==> ([a] + rows)[i].id in table && table[([a] + rows)[i].id] == ([a] + rows)[i]
  {
    var s := [a] + rows;
    assert forall i :: 1 <= i < |s| ==> s[i] == rows[i - 1];
  }

  lemma SortedCons(a: Item, rows: seq<Item>, f: SortField, d: SortDir)
    requires SortedBy(rows, f, d)
    requires rows != [] ==> InOrder(a, rows[0], f, d)
    ensures SortedBy([a] + rows, f, d)
  {
    var s := [a] + rows;
    assert forall i :: 1 <= i < |s| ==> s[i] == rows[i - 1];
  }

  lemma SortedTail(rows: seq<Item>, f: SortField, d: SortDir)
    requires SortedBy(rows, f, d) && rows != []
    ensures SortedBy(rows[1..], f, d)
  {
    var t := rows[1..];
    assert forall i :: 0 <= i < |t| ==> t[i] == rows[i + 1];
  }

  lemma DistinctTail(rows: seq<Item>)
    requires DistinctIds(rows) && rows != []
    ensures DistinctIds(rows[1..]) && rows[0].id !in IdsOf(rows[1..])
  {
    var t := rows[1..];
    assert forall i :: 0 <= i < |t| ==> t[i] == rows[i + 1];
  }

  /** Inserting a stored row with a new id into a sorted answer keeps it a
      sorted answer of stored rows, with one more id. */
  lemma {:induction false} InsertKeeps(table: map<string, Item>, x: Item, rows: seq<Item>, f: SortField, d: SortDir)
    requires x.id in table && table[x.id] == x
    requires forall i :: 0 <= i < |rows| ==> rows[i].id in table && table[rows[i].id] == rows[i]
    requires DistinctIds(rows) && x.id !in IdsOf(rows) && SortedBy(rows, f, d)
    ensures var r := InsertInOrder(x, rows, f, d);
            && (forall i :: 0 <= i < |r| ==> r[i].id in table && table[r[i].id] == r[i])
            && DistinctIds(r) && IdsOf(r) == IdsOf(rows) + {x.id} && SortedBy(r, f, d)
    decreases |rows|
  {
    var r := InsertInOrder(x, rows, f, d);
    if rows == [] || InOrder(x, rows[0], f, d) {
      IdsOfCons(x, rows);
      DistinctCons(x, rows);
      StoredCons(table, x, rows);
      SortedCons(x, rows, f, d);
    } else {
      var t := rows[1..];
      assert rows == [rows[0]] + t;
      assert forall i :: 0 <= i < |t| ==> t[i] == rows[i + 1];
      SortedTail(rows, f, d);
      DistinctTail(rows);
      IdsOfCons(rows[0], t);
      InsertKeeps(table, x, t, f, d);
      var u := InsertInOrder(x, t, f, d);
      assert r == [rows[0]] + u;
      IdsOfCons(rows[0], u);
      DistinctCons(rows[0], u);
      StoredCons(table, rows[0], u);
      InOrderTotal(x, rows[0], f, d);
      SortedCons(rows[0], u, f, d);
    }
  }

  /** A sorted answer of stored rows holding exactly the ids `ids`. */
  lemma {:induction false} OrderedRows(table: map<string, Item>, ids: set<string>, f: SortField, d: SortDir)
    returns (rows: seq<Item>)
    requires Keyed(table) && ids <= table.Keys
    ensures forall i :: 0 <= i < |rows| ==> rows[i].id in table && table[rows[i].id] == rows[i]
    ensures DistinctIds(rows) && IdsOf(rows) == ids && SortedBy(rows, f, d)
    decreases |ids|
  {
    if ids == {} {
      rows := [];
      assert IdsOf(rows) == {};
    } else {
      var id :| id in ids;
      var rest := OrderedRows(table, ids - {id}, f, d);
      assert table[id].id == id;
      InsertKeeps(table, table[id], rest, f, d);
      rows := InsertInOrder(table[id], rest, f, d);
    }
  }

  /** Every request over a table keyed by id has an answer the engine may
      give. */
  lemma OrderedSelectionExists(table: map<string, Item>, plan: QueryPlan)
    requires Keyed(table)
    ensures exists ordered :: IsOrderedSelection(table, plan, ordered)
  {
    var ordered := OrderedRows(table, MatchingIds(table, plan.term), plan.sortBy, plan.sortDir);
    assert IsOrderedSelection(table, plan, ordered);
  }

  /** Without a search term an answer exists only when every row is stored
      under its own id. */
  lemma SelectionNeedsKeys(table: map<string, Item>, plan: QueryPlan, ordered: seq<Item>)
    requires plan.term.None? && IsOrderedSelection(table, plan, ordered)
    ensures Keyed(table)
  {
    forall id | id in table ensures table[id].id == id {
      assert id in MatchingIds(table, None);
      var i :| 0 <= i < |ordered| && ordered[i].id == id;
    }
  }

  /** The first `n` pages of size `size`, one after the other. */
  function FirstPages(rows: seq<Item>, n: nat, size: nat): seq<Item> {
    if n == 0 then [] else FirstPages(rows, n - 1, size) + Window(rows, Times(n - 1, size), size)
  }

  /** Paging through a fixed order neither skips nor repeats a row: the first
      `n` pages are the first `n * size` rows. */
  lemma {:induction false} PagesTile(rows: seq<Item>, n: nat, size: nat)
    ensures FirstPages(rows, n, size) == rows[..Min(Times(n, size), |rows|)]
  {
    if n > 0 {
      PagesTile(rows, n - 1, size);
      var a, b := Min(Times(n - 1, size), |rows|), Min(Times(n, size), |rows|);
      var w := Window(rows, Times(n - 1, size), size);
      assert w == rows[a..b];
      assert rows[..b] == rows[..a] + rows[a..b];
    }
  }

  /** Fifteen selected rows in one order, shared by both requests, under a
      page size of ten: page 1 holds ten rows, page 2 the other five, and
      together they are all fifteen. */
  lemma FifteenRowsTwoPages(table: map<string, Item>, ordered: seq<Item>, p1: ListParams, p2: ListParams)
    requires p1 == ListParams(None, None, None, Some(1), Some(10))
    requires p2 == ListParams(None, None, None, Some(2), Some(10))
    requires |table| == 15
    requires IsOrderedSelection(table, PlanOf(p1), ordered)
    ensures |ListItems(table, p1, ordered).data| == 10
    ensures |ListItems(table, p2, ordered).data| == 5
    ensures ListItems(table, p1, ordered).data + ListItems(table, p2, ordered).data == ordered
    ensures ListItems(table, p1, ordered).meta.total == ListItems(table, p2, ordered).meta.total == 15
  {
    assert MatchingIds(table, None) == table.Keys;
    DistinctIdsCount(ordered);
    assert |ordered| == 15;
    var plan1, plan2 := PlanOf(p1), PlanOf(p2);
    assert Offset(plan1.page, plan1.pageSize) == 0 && Offset(plan2.page, plan2.pageSize) == 10;
    PagesTile(ordered, 2, 10);
    assert FirstPages(ordered, 2, 10) == Window(ordered, 0, 10) + Window(ordered, 10, 10);
  }
}
