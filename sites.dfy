/**
 * The site search (`Folio_Community_Sites`): one `SELECT` over the site index
 * built from the caller's arguments, run as a filter, an optional sort and an
 * optional window over the index rows, with a lazily cached total and page
 * count.
 */
module Sites {
  import opened Php
  import opened Sql
  import opened Settings

  const DEFAULT_LIMIT: int := 10
  const DEFAULT_PAGE: int := 1

  /**
   * The arguments a caller passes; `None` is a key left out (or, for
   * `search` and `personal`, set to `null`). `false` for `limit` or `page`
   * is passed as 0.
   */
  datatype Args = Args(
    search: Option<string>,
    personal: Option<int>,
    orderby: Option<string>,
    order: Option<string>,
    limit: Option<int>,
    page: Option<int>,
    noFoundRows: Option<bool>)

  /** The arguments after `wp_parse_args` with the constructor's defaults. */
  datatype Resolved = Resolved(
    search: Option<string>,
    personal: Option<int>,
    orderby: Option<string>,
    order: Option<string>,
    limit: int,
    page: int,
    noFoundRows: bool)

  function ResolveArgs(a: Args): (r: Resolved)
    ensures a.limit.None? ==> r.limit == DEFAULT_LIMIT
    ensures a.page.None? ==> r.page == DEFAULT_PAGE
    ensures a.noFoundRows.None? ==> !r.noFoundRows
    ensures a.limit.Some? ==> r.limit == a.limit.value
    ensures a.page.Some? ==> r.page == a.page.value
    ensures a.noFoundRows.Some? ==> r.noFoundRows == a.noFoundRows.value
    ensures r.search == a.search && r.personal == a.personal && r.orderby == a.orderby && r.order == a.order
  {
    Resolved(a.search, a.personal, a.orderby, a.order,
             if a.limit.Some? then a.limit.value else DEFAULT_LIMIT,
             if a.page.Some? then a.page.value else DEFAULT_PAGE,
             if a.noFoundRows.Some? then a.noFoundRows.value else false)
  }

  // ---------------------------------------------------------------- the statement

  /** The index columns `ORDER BY` may name. */
  datatype Column = BlogIdCol | NameCol | DescCol | UrlCol | PersonalCol | SemesterCol

  /** `$allowed_orderby`: argument value to column; the semester key is spelled `sesmester`. */
  const ALLOWED_ORDERBY: map<string, Column> := map[
    "blog_id" := BlogIdCol,
    "blog_name" := NameCol,
    "blog_desc" := DescCol,
    "blog_url" := UrlCol,
    "blog_personal" := PersonalCol,
    "sesmester" := SemesterCol]

  /** `$allowed_order`: `true` is `DESC`. */
  const ALLOWED_ORDER: map<string, bool> := map["asc" := false, "desc" := true]

  /** One condition of the `WHERE` clause after `%d=%d`. */
  datatype Cond = SearchCond(pattern: string) | PersonalCond(personal: int)

  datatype OrderBy = OrderBy(col: Column, desc: bool)

  /** `LIMIT offset, count`. */
  datatype Limit = Limit(offset: nat, count: nat)

  /** The `SELECT` that `query` prepares. */
  datatype Select = Select(conds: seq<Cond>, orderBy: Option<OrderBy>, limits: Option<Limit>, calcFoundRows: bool)

  /** The `ORDER BY` clause for the arguments, if any. */
  function OrderFor(a: Resolved): (o: Option<OrderBy>)
    ensures o.None? <==> a.orderby.None? || a.orderby.value !in ALLOWED_ORDERBY
    ensures o.Some? ==> o.value.col == ALLOWED_ORDERBY[a.orderby.value]
    ensures o.Some? ==> (o.value.desc <==> a.order == Some("desc"))
  {
    if a.orderby.Some? && a.orderby.value in ALLOWED_ORDERBY then
      var desc := if a.order.Some? && a.order.value in ALLOWED_ORDER then ALLOWED_ORDER[a.order.value] else false;
      Some(OrderBy(ALLOWED_ORDERBY[a.orderby.value], desc))
    else None
  }

  /** `LIMIT` is set only for a non-empty limit; page 0 counts as page 1. */
  function LimitFor(a: Resolved): (l: Option<Limit>)
    ensures l.None? <==> a.limit == 0
    ensures l.Some? ==> l.value.count == Abs(a.limit) && l.value.count > 0
    ensures l.Some? ==> l.value.offset == (if a.page == 0 then 0 else Abs(a.page) - 1) * Abs(a.limit)
  {
    if a.limit != 0 then
      var limit := Abs(a.limit);
      var page := Abs(a.page);
      var page := if page != 0 then page else 1;
      Some(Limit((page - 1) * limit, limit))
    else None
  }

  /** The `SELECT` that `query` prepares for these arguments. */
  function SelectFor(a: Resolved): Select
  {
    var search := if a.search.Some? then [SearchCond(SearchPattern(a.search.value))] else [];
    var personal := if a.personal.Some? then [PersonalCond(a.personal.value)] else [];
    var limits := LimitFor(a);
    Select(search + personal, OrderFor(a), limits, !a.noFoundRows && limits.Some?)
  }

  // ---------------------------------------------------------------- execution

  /** A row satisfies one `WHERE` condition. NULL never matches `LIKE`. */
  predicate Holds(c: Cond, row: IndexRow)
  {
    match c
    case SearchCond(p) =>
      Like(p, row.name) || Like(p, row.desc) || Like(p, row.url)
      || (row.semester.Some? && Like(p, NatToString(row.semester.value)))
    case PersonalCond(n) => row.personal == n
  }

  predicate HoldsAll(conds: seq<Cond>, row: IndexRow)
  {
    forall k :: 0 <= k < |conds| ==> Holds(conds[k], row)
  }

  /** The rows that pass the `WHERE` clause, in table order. */
  function Where(conds: seq<Cond>, rows: seq<IndexRow>): (r: seq<IndexRow>)
    ensures forall row :: row in r <==> row in rows && HoldsAll(conds, row)
    ensures |r| <= |rows|
  {
    if rows == [] then []
    else
      var last := rows[|rows| - 1];
      assert rows == rows[..|rows| - 1] + [last];
      Where(conds, rows[..|rows| - 1]) + (if HoldsAll(conds, last) then [last] else [])
  }

  /**
   * A row's value in a column, as `ORDER BY` compares it; the text columns
   * compare under the table's case-insensitive collation.
   */
  function Key(col: Column): IndexRow -> SortKey
  {
    (row: IndexRow) =>
      match col
      case BlogIdCol => Num(row.blogId)
      case NameCol => Text(ToLower(row.name))
      case DescCol => Text(ToLower(row.desc))
      case UrlCol => Text(ToLower(row.url))
      case PersonalCol => Num(row.personal)
      case SemesterCol => if row.semester.Some? then Num(row.semester.value) else Null
  }

  /** Without `ORDER BY` the rows come in table order. */
  function Order(o: Option<OrderBy>, rows: seq<IndexRow>): (r: seq<IndexRow>)
    ensures multiset(r) == multiset(rows)
  {
    if o.Some? then SortBy(rows, Key(o.value.col), o.value.desc) else rows
  }

  /** The window a `LIMIT offset, count` leaves. */
  function Window(l: Option<Limit>, rows: seq<IndexRow>): (r: seq<IndexRow>)
    ensures l.None? ==> r == rows
    ensures l.Some? ==> |r| <= l.value.count
    ensures l.Some? && l.value.offset <= |rows| ==>
      r == rows[l.value.offset..if l.value.offset + l.value.count <= |rows| then l.value.offset + l.value.count else |rows|]
    ensures l.Some? && l.value.offset > |rows| ==> r == []
  {
    if l.None? then rows
    else
      var lo := if l.value.offset <= |rows| then l.value.offset else |rows|;
      var hi := if l.value.offset + l.value.count <= |rows| then l.value.offset + l.value.count else |rows|;
      rows[lo..hi]
  }

  function Execute(s: Select, table: seq<IndexRow>): seq<IndexRow>
  {
    Window(s.limits, Order(s.orderBy, Where(s.conds, table)))
  }

  /** `FOUND_ROWS()` right after the statement. */
  function FoundRows(s: Select, table: seq<IndexRow>): nat
  {
    if s.calcFoundRows then |Where(s.conds, table)| else |Execute(s, table)|
  }

  /** `ceil(total / limit)` on naturals. */
  function CeilDiv(total: nat, limit: nat): (q: nat)
    requires limit > 0
    ensures (q - 1) * limit < total <= q * limit || (total == 0 && q == 0)
  {
    if total == 0 then 0 else (total - 1) / limit + 1
  }

  // ---------------------------------------------------------------- query lemmas

  /**
   * With a search set, a row passes exactly when the needle is a substring of
   * its name, description, URL or semester, ignoring case; with a personal
   * filter, exactly when `blog_personal` equals it.
   */
  lemma SelectConditions(a: Resolved, row: IndexRow)
    ensures HoldsAll(SelectFor(a).conds, row) <==>
      && (a.search.Some? ==>
            var n := ToLower(a.search.value);
            IsSubstring(n, ToLower(row.name)) || IsSubstring(n, ToLower(row.desc))
            || IsSubstring(n, ToLower(row.url))
            || (row.semester.Some? && IsSubstring(n, ToLower(NatToString(row.semester.value)))))
      && (a.personal.Some? ==> row.personal == a.personal.value)
  {
    var conds := SelectFor(a).conds;
    if a.search.Some? {
      var n := a.search.value;
      LikeSearchIsSubstring(n, row.name);
      LikeSearchIsSubstring(n, row.desc);
      LikeSearchIsSubstring(n, row.url);
      if row.semester.Some? {
        LikeSearchIsSubstring(n, NatToString(row.semester.value));
      }
      assert conds[0] == SearchCond(SearchPattern(n));
    }
    if a.personal.Some? {
      assert conds[|conds| - 1] == PersonalCond(a.personal.value);
    }
  }

  /** An empty needle matches every row. */
  lemma EmptySearchMatchesAll(row: IndexRow)
    ensures Holds(SearchCond(SearchPattern("")), row)
  {
    LikeSearchIsSubstring("", row.name);
    assert OccursAt(ToLower(""), ToLower(row.name), 0);
  }

  /** A window is a slice of the rows it was cut from. */
  lemma WindowSlice(l: Option<Limit>, rows: seq<IndexRow>) returns (lo: nat, hi: nat)
    ensures lo <= hi <= |rows| && Window(l, rows) == rows[lo..hi]
  {
    if l.None? {
      lo, hi := 0, |rows|;
    } else {
      lo := if l.value.offset <= |rows| then l.value.offset else |rows|;
      hi := if l.value.offset + l.value.count <= |rows| then l.value.offset + l.value.count else |rows|;
    }
  }

  /** The rows returned are rows of the index that pass the `WHERE` clause. */
  lemma ExecuteRows(s: Select, table: seq<IndexRow>)
    ensures forall row :: row in Execute(s, table) ==> row in table && HoldsAll(s.conds, row)
  {
    var w := Where(s.conds, table);
    var o := Order(s.orderBy, w);
    var lo, hi := WindowSlice(s.limits, o);
    forall row | row in Execute(s, table) ensures row in w {
      assert row in o[lo..hi];
      assert row in multiset(o);
    }
  }

  /** With `ORDER BY`, the rows returned are in that order. */
  lemma ExecuteSorted(s: Select, table: seq<IndexRow>)
    requires s.orderBy.Some?
    ensures SortedBy(Execute(s, table), Key(s.orderBy.value.col), s.orderBy.value.desc)
  {
    var key, desc := Key(s.orderBy.value.col), s.orderBy.value.desc;
    var w := Where(s.conds, table);
    var o := SortBy(w, key, desc);
    SortBySorted(w, key, desc);
    var lo, hi := WindowSlice(s.limits, o);
    var r := Execute(s, table);
    assert r == o[lo..hi];
    forall i, j | 0 <= i < j < |r| ensures InOrder(key(r[i]), key(r[j]), desc) {
      assert r[i] == o[lo + i] && r[j] == o[lo + j];
    }
  }

  /** Page 0 and page 1 select the same rows. */
  lemma PageZeroIsFirst(a: Resolved)
    ensures SelectFor(a.(page := 0)) == SelectFor(a.(page := 1))
  {
  }

  /**
   * With a limit, the page holds the rows at positions
   * `(page-1)*limit .. page*limit` of the filtered, ordered rows.
   */
  lemma PageWindow(a: Resolved, table: seq<IndexRow>, page: nat)
    requires a.limit > 0 && a.page == page && page >= 1
    ensures var all := Order(OrderFor(a), Where(SelectFor(a).conds, table));
      var lo := (page - 1) * a.limit;
      var r := Execute(SelectFor(a), table);
      && |r| <= a.limit
      && (lo <= |all| ==> r == all[lo..if lo + a.limit <= |all| then lo + a.limit else |all|])
      && (lo > |all| ==> r == [])
  {
    var all := Order(OrderFor(a), Where(SelectFor(a).conds, table));
    var lo := (page - 1) * a.limit;
    assert Abs(a.limit) == a.limit && Abs(a.page) == page;
    assert LimitFor(a) == Some(Limit(lo, a.limit));
    assert Execute(SelectFor(a), table) == Window(Some(Limit(lo, a.limit)), all);
    WindowAt(all, lo, a.limit);
  }

  /** `LIMIT lo, n` over rows, spelt out. */
  lemma WindowAt(rows: seq<IndexRow>, lo: nat, n: nat)
    ensures var r := Window(Some(Limit(lo, n)), rows);
      && |r| <= n
      && (lo <= |rows| ==> r == rows[lo..if lo + n <= |rows| then lo + n else |rows|])
      && (lo > |rows| ==> r == [])
  {
  }

  /** Orderby values outside the allow-list, the spelling `semester` among them, sort nothing. */
  lemma UnknownOrderbyKeepsTableOrder(a: Resolved, table: seq<IndexRow>)
    requires a.orderby.Some? && a.orderby.value !in ALLOWED_ORDERBY
    ensures Execute(SelectFor(a), table) == Window(LimitFor(a), Where(SelectFor(a).conds, table))
  {
  }

  lemma SemesterSpellingRejected()
    ensures "semester" !in ALLOWED_ORDERBY && "sesmester" in ALLOWED_ORDERBY
    ensures "ASC" !in ALLOWED_ORDER && "DESC" !in ALLOWED_ORDER
  {
  }

  /** `ceil(total/limit)` pages hold every row and none of them is empty. */
  lemma CeilDivPages(total: nat, limit: nat)
    requires total > 0 && limit > 0
    ensures var q := CeilDiv(total, limit);
      q >= 1 && (q - 1) * limit < total <= q * limit
  {
  }

  // ---------------------------------------------------------------- the query object

  /** A `Folio_Community_Sites` instance after its constructor ran the query. */
  class SitesQuery {
    var args: Resolved
    var sites: seq<IndexRow>
    var total: Option<nat>
    var maxNumPages: Option<nat>
    /** What `SELECT FOUND_ROWS()` returns on the connection after the query. */
    var foundRows: nat

    /** `__construct`: merge the defaults, then run `query`. */
    constructor (a: Args, table: seq<IndexRow>)
      ensures args == ResolveArgs(a)
      ensures sites == Execute(SelectFor(args), table)
      ensures foundRows == FoundRows(SelectFor(args), table)
      ensures total.None? && maxNumPages.None?
    {
      args := ResolveArgs(a);
      total := None;
      maxNumPages := None;
      sites := [];
      foundRows := 0;
      new;
      Query(table);
    }

    /** `query`: build the clauses one after the other, then run the statement. */
    method Query(table: seq<IndexRow>)
      modifies this`sites, this`foundRows
      ensures sites == Execute(SelectFor(args), table)
      ensures foundRows == FoundRows(SelectFor(args), table)
    {
      var stmt := Prepare();
      sites := Execute(stmt, table);
      foundRows := FoundRows(stmt, table);
    }

    /** The prepared statement; `SQL_CALC_FOUND_ROWS` only when paging and counting. */
    method Prepare() returns (stmt: Select)
      ensures stmt == SelectFor(args)
    {
      var conds := WhereClauses();
      var orderBy := OrderClause();
      var limits := LimitClause();
      stmt := Select(conds, orderBy, limits, !args.noFoundRows && limits.Some?);
    }

    /** The `WHERE` conditions: the search first, then the personal flag. */
    method WhereClauses() returns (conds: seq<Cond>)
      ensures conds == SelectFor(args).conds
    {
      conds := [];
      if args.search.Some? {
        conds := conds + [SearchCond(SearchPattern(args.search.value))];
      }
      if args.personal.Some? {
        conds := conds + [PersonalCond(args.personal.value)];
      }
    }

    /** The `ORDER BY` clause, from the allowed columns and directions only. */
    method OrderClause() returns (orderBy: Option<OrderBy>)
      ensures orderBy == OrderFor(args)
    {
      orderBy := None;
      if args.orderby.Some? && args.orderby.value in ALLOWED_ORDERBY {
        var desc := false;
        if args.order.Some? && args.order.value in ALLOWED_ORDER {
          desc := ALLOWED_ORDER[args.order.value];
        }
        orderBy := Some(OrderBy(ALLOWED_ORDERBY[args.orderby.value], desc));
      }
    }

    /** The `LIMIT` clause, absent for a zero limit. */
    method LimitClause() returns (limits: Option<Limit>)
      ensures limits == LimitFor(args)
    {
      limits := None;
      if args.limit != 0 {
        var limit := Abs(args.limit);
        var page := Abs(args.page);
        if page == 0 {
          page := 1;
        }
        limits := Some(Limit((page - 1) * limit, limit));
      }
    }

    /** `get_total`: read `FOUND_ROWS()` once and keep it. */
    method GetTotal() returns (t: nat)
      modifies this`total
      ensures old(total).Some? ==> t == old(total).value && total == old(total)
      ensures old(total).None? ==> t == foundRows && total == Some(foundRows)
    {
      if total.None? {
        total := Some(foundRows);
      }
      t := total.value;
    }

    /**
     * `get_maximum_num_pages`: computed once from a non-zero total and a
     * non-empty limit, unset (`None`) otherwise.
     */
    method GetMaximumNumPages() returns (r: Option<nat>)
      modifies this`total, this`maxNumPages
      ensures old(total).Some? ==> total == old(total)
      ensures old(total).None? ==> total == Some(foundRows)
      ensures old(maxNumPages).Some? && old(maxNumPages).value != 0 ==> r == old(maxNumPages)
      ensures (old(maxNumPages).None? || old(maxNumPages).value == 0) ==>
        if total.value > 0 && args.limit != 0 then r == Some(CeilDiv(total.value, Abs(args.limit)))
        else r == old(maxNumPages)
      ensures maxNumPages == r
    {
      var t := GetTotal();
      if (maxNumPages.None? || maxNumPages.value == 0) && t > 0 && args.limit != 0 {
        var limit := Abs(args.limit);
        maxNumPages := Some(CeilDiv(t, limit));
      }
      r := maxNumPages;
    }
  }

  /** `get_maximum_num_pages` of a fresh sites query. */
  function SitesNumPages(a: Resolved, table: seq<IndexRow>): Option<nat>
  {
    var total := FoundRows(SelectFor(a), table);
    if total > 0 && a.limit != 0 then Some(CeilDiv(total, Abs(a.limit))) else None
  }

  /** `get_maximum_num_pages` as the first call on a new query object. */
  method MaximumNumPagesOf(a: Args, table: seq<IndexRow>) returns (r: Option<nat>)
    ensures r == SitesNumPages(ResolveArgs(a), table)
  {
    var q := new SitesQuery(a, table);
    r := q.GetMaximumNumPages();
  }

  /**
   * A counted, paged search has a page count exactly when some row matches,
   * and then the pages hold every match with no empty page.
   */
  lemma SitesNumPagesCountsMatches(a: Resolved, table: seq<IndexRow>)
    requires a.limit != 0 && !a.noFoundRows
    ensures var matches := |Where(SelectFor(a).conds, table)|;
      && (SitesNumPages(a, table).Some? <==> matches > 0)
      && (matches > 0 ==> var q := SitesNumPages(a, table).value;
            q >= 1 && (q - 1) * Abs(a.limit) < matches <= q * Abs(a.limit))
  {
    if FoundRows(SelectFor(a), table) > 0 {
      SearchPagesCoverMatches(a, table);
      CeilDivPages(FoundRows(SelectFor(a), table), Abs(a.limit));
    }
  }

  /**
   * The page count of a search with a limit and SQL_CALC_FOUND_ROWS is
   * enough pages for every matching row and no empty page.
   */
  lemma SearchPagesCoverMatches(a: Resolved, table: seq<IndexRow>)
    requires a.limit != 0 && !a.noFoundRows
    requires FoundRows(SelectFor(a), table) > 0
    ensures var total := FoundRows(SelectFor(a), table);
      && total == |Where(SelectFor(a).conds, table)|
      && var q := CeilDiv(total, Abs(a.limit));
      (q - 1) * Abs(a.limit) < total <= q * Abs(a.limit)
  {
  }
}
