/**
 * The listing and pagination rules of `Folio_Community_Shortcodes`: the two
 * shortcodes' attribute normalisation, the two load-more handlers' request
 * parsing and response choice, the page-link sizing and the pagination base.
 * HTML markup is reduced to the values it is rendered from.
 */
module Shortcodes {
  import opened Php
  import opened Settings
  import opened Sql
  import opened Sites
  import Publications

  // ---------------------------------------------------------------- attributes

  /** The pagination modes a shortcode accepts. */
  datatype Mode = Infinite | More | Pages

  function ModeName(m: Mode): string
  {
    match m
    case Infinite => "infinite"
    case More => "more"
    case Pages => "pages"
  }

  const MODE_NAMES: set<string> := {"infinite", "more", "pages"}

  /** A listed mode is kept; anything else becomes `infinite`. */
  function ParseMode(s: string): (m: Mode)
    ensures s in MODE_NAMES ==> ModeName(m) == s
    ensures s !in MODE_NAMES ==> m == Infinite
  {
    if s == "more" then More else if s == "pages" then Pages else Infinite
  }

  lemma ParseModeName(m: Mode)
    ensures ParseMode(ModeName(m)) == m
  {
  }

  /** Infinite scroll needs at least this many items per page. */
  const MIN_INFINITE_PER_PAGE: nat := 10

  /** `per-page` after `absint`, raised to 10 in infinite mode. */
  function PerPage(m: Mode, att: string): (n: nat)
    ensures m != Infinite ==> n == AbsInt(att)
    ensures m == Infinite ==> n >= MIN_INFINITE_PER_PAGE && n >= AbsInt(att)
    ensures m == Infinite ==> (n == AbsInt(att) || n == MIN_INFINITE_PER_PAGE)
  {
    if m == Infinite && AbsInt(att) < MIN_INFINITE_PER_PAGE then MIN_INFINITE_PER_PAGE else AbsInt(att)
  }

  /** An attribute as `shortcode_atts` yields it: the given value or the default. */
  function Att(atts: map<string, string>, key: string, default: string): string
  {
    if key in atts then atts[key] else default
  }

  function Max(a: int, b: int): int { if a >= b then a else b }

  /** `isset($_GET[$key]) ? max(1, absint($_GET[$key])) : 1` */
  function PageFromGet(get: map<string, string>, key: string): (p: nat)
    ensures p >= 1
    ensures key !in get ==> p == 1
    ensures key in get && AbsInt(get[key]) >= 1 ==> p == AbsInt(get[key])
  {
    if key in get then Max(1, AbsInt(get[key])) else 1
  }

  /** The shortcodes render on the community site and on the main site only. */
  predicate Available(options: SiteOptions, blogId: nat)
  {
    blogId == CommunityId(options) || blogId == 1
  }

  // ---------------------------------------------------------------- requests

  /**
   * What a handler reads from the request. `postBaseValid` is the verdict of
   * `FILTER_VALIDATE_URL` on the posted `base`.
   */
  datatype Request = Request(
    get: map<string, string>,
    post: map<string, string>,
    requestedWith: Option<string>,
    nonceOk: bool,
    loggedIn: bool,
    postBaseValid: bool)

  /** `!empty($_POST[$key])` */
  predicate Posted(req: Request, key: string)
  {
    key in req.post && !EmptyString(req.post[key])
  }

  /** The request came from `XMLHttpRequest`. */
  predicate IsAjax(req: Request)
  {
    req.requestedWith.Some? && !EmptyString(req.requestedWith.value)
    && ToLower(req.requestedWith.value) == "xmlhttprequest"
  }

  /**
   * The parameters both handlers read the same way; `None` for a page or a
   * per-page count is PHP's `false` from a failed `FILTER_VALIDATE_INT`, and
   * for the base a failed `FILTER_VALIDATE_URL`.
   */
  datatype Params = Params(page: Option<int>, perPage: Option<int>, isRefresh: bool, pagination: string, base: Option<string>)

  /** The page: the GET value (`absint`, 1 without it), replaced by a non-empty POST `page`. */
  function RequestPage(req: Request, getKey: string): (p: Option<int>)
    ensures Posted(req, "page") ==> p == FilterInt(req.post["page"])
    ensures !Posted(req, "page") ==> p.Some? && p.value >= 0
    ensures !Posted(req, "page") && getKey !in req.get ==> p == Some(1)
    ensures !Posted(req, "page") && getKey in req.get ==> p == Some(AbsInt(req.get[getKey]))
  {
    var fromGet := if getKey in req.get then AbsInt(req.get[getKey]) else 1;
    if Posted(req, "page") then FilterInt(req.post["page"]) else Some(fromGet)
  }

  function RequestParams(req: Request, getKey: string, perPage: int, pagination: string, pagenumLink: string): Params
  {
    Params(
      RequestPage(req, getKey),
      if Posted(req, "per_page") then FilterInt(req.post["per_page"]) else Some(perPage),
      if Posted(req, "is_refresh") then FilterBool(req.post["is_refresh"]) else false,
      if Posted(req, "pagination") then req.post["pagination"] else pagination,
      if Posted(req, "base") then (if req.postBaseValid then Some(req.post["base"]) else None)
      else Some(PaginationBase(pagenumLink)))
  }

  /** A POST page overrides whatever the query string says. */
  lemma PostPageOverridesGet(req: Request, getKey: string, get': map<string, string>)
    requires Posted(req, "page")
    ensures RequestPage(req.(get := get'), getKey) == RequestPage(req, getKey)
  {
  }

  /** The search filters: GET `f`, replaced by a non-empty POST `filters`, split on commas. */
  function RequestFilters(req: Request): (fs: seq<string>)
    ensures Posted(req, "filters") ==> fs == Explode(',', req.post["filters"])
    ensures !Posted(req, "filters") && "f" !in req.get ==> fs == []
    ensures !Posted(req, "filters") && "f" in req.get ==> fs == Explode(',', req.get["f"])
  {
    if Posted(req, "filters") then Explode(',', req.post["filters"])
    else if "f" in req.get then Explode(',', req.get["f"])
    else []
  }

  /**
   * `blog_personal` to search for: people when the one filter is `members`,
   * groups when the one filter is anything else, everything otherwise.
   */
  function PersonalFilter(filters: seq<string>): (p: Option<int>)
    ensures p == Some(1) <==> filters == ["members"]
    ensures p == Some(0) <==> |filters| == 1 && filters[0] != "members"
    ensures p.None? <==> |filters| != 1
  {
    if |filters| == 1 then (if filters[0] == "members" then Some(1) else Some(0)) else None
  }

  /** The search shortcode's sites query for these parameters. */
  function SearchArgs(query: string, filters: seq<string>, p: Params): Args
  {
    Args(Some(query), PersonalFilter(filters), Some("blog_name"), Some("ASC"),
         Some(IntArg(p.perPage)), Some(IntArg(p.page)), None)
  }

  /** An integer argument as `absint` and `empty` read it: PHP's `false` counts as 0. */
  function IntArg(v: Option<int>): int
  {
    if v.Some? then v.value else 0
  }

  // ---------------------------------------------------------------- pagination

  /** The arguments `pagination` hands to `paginate_links`. */
  datatype LinkArgs = LinkArgs(base: string, endSize: nat, midSize: nat, showAll: bool, format: string, current: nat, total: nat)

  /** The paging element under a listing: its `data-total-pages`, its visibility and its links. */
  datatype Paging = Paging(totalPages: nat, visible: bool, links: Option<LinkArgs>)

  /** Links at each end: 3 near either end, 1 in the middle and at pages 3 and total-2. */
  function EndSize(current: int, total: int): (e: nat)
    ensures e == 1 || e == 3
    ensures e == 3 <==> (current >= total - 2 || current < 3) && current != 3 && current != total - 2
  {
    if current == 3 || current == total - 2 then 1
    else if current >= total - 2 || current < 3 then 3
    else 1
  }

  const MID_SIZE: nat := 2
  /** At most this many pages are all listed. */
  const SHOW_ALL_MAX: nat := 7

  /** `trailingslashit`: strip every trailing `/` and `\`, then add one `/`. */
  function TrailingSlashIt(s: string): (r: string)
    ensures 1 <= |r| <= |s| + 1 && r[|r| - 1] == '/'
    ensures |r| >= 2 ==> r[|r| - 2] != '/' && r[|r| - 2] != '\\'
    ensures r[..|r| - 1] == s[..|r| - 1]
    ensures forall k :: |r| - 1 <= k < |s| ==> s[k] == '/' || s[k] == '\\'
  {
    UntrailingSlashIt(s) + "/"
  }

  function UntrailingSlashIt(s: string): (r: string)
    ensures |r| <= |s| && r == s[..|r|]
    ensures r == [] || (r[|r| - 1] != '/' && r[|r| - 1] != '\\')
    ensures forall k :: |r| <= k < |s| ==> s[k] == '/' || s[k] == '\\'
  {
    if s != [] && (s[|s| - 1] == '/' || s[|s| - 1] == '\\') then UntrailingSlashIt(s[..|s| - 1]) else s
  }

  /** `get_pagination_base`: the decoded page link up to its first `?`, one `/`, then `%_%`. */
  function PaginationBase(pagenumLink: string): string
  {
    TrailingSlashIt(Explode('?', pagenumLink)[0]) + "%_%"
  }

  /**
   * The base keeps the link's path, drops its query string, ends in exactly
   * one slash before the `%_%` placeholder and holds no `?`.
   */
  lemma PaginationBaseSpec(path: string, query: string)
    requires '?' !in path
    ensures PaginationBase(path + "?" + query) == PaginationBase(path)
    ensures var r := PaginationBase(path);
      && '?' !in r
      && |r| >= 4 && r[|r| - 4..] == "/%_%"
      && r[..|r| - 4] == UntrailingSlashIt(path)
  {
    PaginationBaseDropsQuery(path, query);
    PaginationBaseHasNoQuery(path);
    PaginationBaseEnding(path);
  }

  lemma PaginationBaseDropsQuery(path: string, query: string)
    requires '?' !in path
    ensures PaginationBase(path + "?" + query) == PaginationBase(path)
  {
    ExplodeAppend('?', path, query);
    assert path + "?" + query == path + ['?'] + query;
    ExplodeNoSep('?', path);
  }

  lemma PaginationBaseHasNoQuery(path: string)
    requires '?' !in path
    ensures '?' !in PaginationBase(path)
  {
    ExplodeNoSep('?', path);
    var u := UntrailingSlashIt(path);
    assert PaginationBase(path) == u + "/%_%";
    PrefixAvoids('?', path, |u|);
    assert '?' !in "/%_%";
  }

  lemma PaginationBaseEnding(path: string)
    requires '?' !in path
    ensures var r := PaginationBase(path);
      |r| >= 4 && r[|r| - 4..] == "/%_%" && r[..|r| - 4] == UntrailingSlashIt(path)
  {
    ExplodeNoSep('?', path);
    var u := UntrailingSlashIt(path);
    assert PaginationBase(path) == u + "/%_%";
    ConcatParts(u, "/%_%");
  }

  lemma ConcatParts(a: string, b: string)
    ensures (a + b)[..|a|] == a && (a + b)[|a|..] == b
  {
  }

  lemma PrefixAvoids(c: char, s: string, n: nat)
    requires c !in s && n <= |s|
    ensures c !in s[..n]
  {
    assert forall k :: 0 <= k < n ==> s[..n][k] == s[k];
  }

  /** `pagination($total, $current, $base, $var)`: no links for a single page. */
  function PaginationSpec(total: nat, get: map<string, string>, qvar: string, base: Option<string>, pagenumLink: string): (r: Option<LinkArgs>)
  {
    if total <= 1 then None
    else
      var current := PageFromGet(get, qvar);
      Some(LinkArgs(
        if base.Some? && !EmptyString(base.value) then base.value else PaginationBase(pagenumLink),
        EndSize(current, total), MID_SIZE, total <= SHOW_ALL_MAX,
        "?" + qvar + "=%#%", current, total))
  }

  /**
   * `pagination`: end and middle sizes settled step by step. The current page
   * is read again from the query string; the caller's `$current` is not used.
   */
  method Pagination(total: nat, get: map<string, string>, qvar: string, base: Option<string>, pagenumLink: string)
    returns (r: Option<LinkArgs>)
    ensures r == PaginationSpec(total, get, qvar, base, pagenumLink)
  {
    if total <= 1 {
      return None;
    }
    var current := 1;
    if qvar in get {
      current := Max(1, AbsInt(get[qvar]));
    }
    var end := 1;
    var mid := 2;
    if current >= total - 2 || current < 3 {
      end := 3;
    }
    if current == 3 || current == total - 2 {
      end := 1;
      mid := 2;
    }
    var all := total <= 7;
    var b := if base.Some? && !EmptyString(base.value) then base.value else PaginationBase(pagenumLink);
    r := Some(LinkArgs(b, end, mid, all, "?" + qvar + "=%#%", current, total));
  }

  /** Page links: middle size 2, every page listed up to 7 pages, a current page of at least 1. */
  lemma PaginationSizes(total: nat, get: map<string, string>, qvar: string, base: Option<string>, link: string)
    ensures var r := PaginationSpec(total, get, qvar, base, link);
      && (r.None? <==> total <= 1)
      && (r.Some? ==> r.value.midSize == 2 && (r.value.showAll <==> total <= 7)
                      && r.value.current >= 1 && r.value.total == total
                      && (r.value.endSize == 3 <==>
                            (r.value.current >= total - 2 || r.value.current < 3)
                            && r.value.current != 3 && r.value.current != total - 2))
  {
  }

  /** `render_search_pagination`: a paging element only for more than one page. */
  function SearchPaging(numPages: Option<nat>, get: map<string, string>, p: Params, pagenumLink: string): Option<Paging>
  {
    if numPages.Some? && 1 < numPages.value then
      Some(Paging(numPages.value, p.pagination == "pages", PaginationSpec(numPages.value, get, "pq", p.base, pagenumLink)))
    else None
  }

  /** The publications page count cut to `max-pages` when that is set and not above it. */
  function ClampPages(total: nat, max: nat): (t: nat)
    ensures max == 0 ==> t == total
    ensures max > 0 ==> t <= total && t <= max && (t == total || t == max)
  {
    if max > 0 && max <= total then max else total
  }

  /** `render_pubs_pagination`: the check for more than one page comes before the clamp. */
  function PubsPaging(total: nat, max: nat, get: map<string, string>, p: Params, pagenumLink: string): Option<Paging>
  {
    if 1 < total then
      var t := ClampPages(total, max);
      Some(Paging(t, p.pagination == "pages", PaginationSpec(t, get, "pp", p.base, pagenumLink)))
    else None
  }

  // ---------------------------------------------------------------- responses

  /**
   * What a handler sends: the security error, a listing (with its paging
   * element when one is rendered), the "No results found" notice, or the
   * bare `'0'` that tells the script there is nothing more.
   */
  datatype Response<T> = SecurityError | Listing(items: seq<T>, paging: Option<Paging>) | NoResults | Zero

  /** The values `render_site` prints for one site. */
  datatype SiteCard = SiteCard(id: nat, blogId: nat, url: string, name: string, desc: string, personal: bool, semester: Option<nat>)

  /** A site is a person's portfolio when `blog_personal` is truthy; semester 0 is not shown. */
  function RenderSite(row: IndexRow): (c: SiteCard)
    ensures c.personal <==> row.personal != 0
    ensures c.semester.Some? <==> row.semester.Some? && row.semester.value != 0
    ensures c.semester.Some? ==> c.semester == row.semester
  {
    SiteCard(row.id, row.blogId, row.url, row.name, row.desc, row.personal != 0,
             if row.semester.Some? && row.semester.value != 0 then row.semester else None)
  }

  function RenderSites(rows: seq<IndexRow>): (cs: seq<SiteCard>)
    ensures |cs| == |rows|
    ensures forall k :: 0 <= k < |rows| ==> cs[k] == RenderSite(rows[k])
  {
    if rows == [] then [] else RenderSites(rows[..|rows| - 1]) + [RenderSite(rows[|rows| - 1])]
  }

  /** The empty-result answer: the notice on a page render or a refresh, `'0'` otherwise. */
  function EmptyAnswer<T>(isAjax: bool, initial: bool, isRefresh: bool): (r: Response<T>)
    ensures r == NoResults <==> (!isAjax && initial) || isRefresh
    ensures r == Zero <==> !((!isAjax && initial) || isRefresh)
  {
    if (!isAjax && initial) || isRefresh then NoResults else Zero
  }

  /** The answer to a handler that passed the nonce check, from its rendered items and paging element. */
  function Answer<T>(items: seq<T>, paging: Option<Paging>, isAjax: bool, initial: bool, isRefresh: bool): (r: Response<T>)
    ensures r.Listing? <==> items != []
    ensures r.Listing? ==> r.items == items && (r.paging.Some? ==> (!isAjax || isRefresh) && r.paging == paging)
    ensures r.Listing? && (!isAjax || isRefresh) ==> r.paging == paging
    ensures !r.Listing? ==> r == EmptyAnswer(isAjax, initial, isRefresh)
  {
    if items != [] then Listing(items, if !isAjax || isRefresh then paging else None)
    else EmptyAnswer(isAjax, initial, isRefresh)
  }

  /** The sites query the search handler runs. */
  function SearchQueryArgs(req: Request, query: string, p: Params): Resolved
  {
    var q := if Posted(req, "search") then req.post["search"] else query;
    ResolveArgs(SearchArgs(q, RequestFilters(req), p))
  }

  /** `ajax_load_more_search` */
  function SearchResponse(req: Request, query: string, perPage: int, pagination: string, initial: bool,
                          pagenumLink: string, table: seq<IndexRow>): Response<SiteCard>
  {
    if !initial && !req.nonceOk then SecurityError
    else
      var p := RequestParams(req, "pq", perPage, pagination, pagenumLink);
      var a := SearchQueryArgs(req, query, p);
      Answer(RenderSites(Execute(SelectFor(a), table)), SearchPaging(SitesNumPages(a, table), req.get, p, pagenumLink),
             IsAjax(req), initial, p.isRefresh)
  }

  /** `render_site` for each row, in order. */
  method RenderSiteCards(sites: seq<IndexRow>) returns (out: seq<SiteCard>)
    ensures out == RenderSites(sites)
  {
    out := [];
    for i := 0 to |sites|
      invariant out == RenderSites(sites[..i])
    {
      assert sites[..i + 1][..i] == sites[..i];
      out := out + [RenderSite(sites[i])];
    }
    assert sites[..|sites|] == sites;
  }

  /** `get_sites`: run the query, then read its total and page count. */
  method GetSites(a: Args, table: seq<IndexRow>) returns (sites: seq<IndexRow>, numPages: Option<nat>)
    ensures sites == Execute(SelectFor(ResolveArgs(a)), table)
    ensures numPages == SitesNumPages(ResolveArgs(a), table)
  {
    var result := new SitesQuery(a, table);
    var _ := result.GetTotal();
    numPages := result.GetMaximumNumPages();
    sites := result.sites;
  }

  /** `ajax_load_more_search`, run against the site index `table`. */
  method AjaxLoadMoreSearch(req: Request, query: string, perPage: int, pagination: string, initial: bool,
                            pagenumLink: string, table: seq<IndexRow>)
    returns (resp: Response<SiteCard>)
    ensures resp == SearchResponse(req, query, perPage, pagination, initial, pagenumLink, table)
  {
    if !initial && !req.nonceOk {
      return SecurityError;
    }
    var isAjax := IsAjax(req);
    var p := RequestParams(req, "pq", perPage, pagination, pagenumLink);
    var q := query;
    if Posted(req, "search") {
      q := req.post["search"];
    }
    var args := SearchArgs(q, RequestFilters(req), p);
    assert ResolveArgs(args) == SearchQueryArgs(req, query, p);
    var sites, numPages := GetSites(args, table);
    resp := AnswerSites(sites, numPages, req, p, pagenumLink, isAjax, initial);
  }

  /** The listing, the notice or `'0'`, once the sites and their page count are known. */
  method AnswerSites(sites: seq<IndexRow>, numPages: Option<nat>, req: Request, p: Params, pagenumLink: string,
                     isAjax: bool, initial: bool)
    returns (resp: Response<SiteCard>)
    ensures resp == Answer(RenderSites(sites), SearchPaging(numPages, req.get, p, pagenumLink), isAjax, initial, p.isRefresh)
  {
    if sites != [] {
      var out := RenderSiteCards(sites);
      var paging: Option<Paging> := None;
      if !isAjax || p.isRefresh {
        if numPages.Some? && 1 < numPages.value {
          var links := Pagination(numPages.value, req.get, "pq", p.base, pagenumLink);
          paging := Some(Paging(numPages.value, p.pagination == "pages", links));
        }
      }
      resp := Listing(out, paging);
    } else if (!isAjax && initial) || p.isRefresh {
      resp := NoResults;
    } else {
      resp := Zero;
    }
  }

  // ---------------------------------------------------------------- publications

  /** `folio_community_classrooms` as `get_post_meta` returns it. */
  datatype ClassroomsMeta = MetaMissing | MetaScalar(s: string) | MetaList(items: seq<Option<string>>)

  /** `array_filter` dropping `null` and `''`, order kept. */
  function KeepClassrooms(items: seq<Option<string>>): (r: seq<string>)
    ensures |r| <= |items|
    ensures forall x :: x in r <==> Some(x) in items && x != ""
  {
    if items == [] then []
    else
      var last := items[|items| - 1];
      assert items == items[..|items| - 1] + [last];
      KeepClassrooms(items[..|items| - 1]) + (if last.Some? && last.value != "" then [last.value] else [])
  }

  /** The classroom labels `render_pub` prints: none unless the meta is a non-empty array. */
  function PubClassrooms(meta: ClassroomsMeta): (r: seq<string>)
    ensures !meta.MetaList? ==> r == []
    ensures meta.MetaList? ==> r == KeepClassrooms(meta.items)
  {
    if meta.MetaList? && meta.items != [] then KeepClassrooms(meta.items) else []
  }

  function Somes(xs: seq<string>): (r: seq<Option<string>>)
    ensures |r| == |xs| && forall k :: 0 <= k < |xs| ==> r[k] == Some(xs[k])
  {
    if xs == [] then [] else Somes(xs[..|xs| - 1]) + [Some(xs[|xs| - 1])]
  }

  /** Labels written by `save_community_post` all survive the filter, in order. */
  lemma {:induction false} SavedLabelsKept(labels: seq<string>)
    requires forall k :: 0 <= k < |labels| ==> labels[k] != ""
    ensures KeepClassrooms(Somes(labels)) == labels
  {
    if labels != [] {
      var n := |labels|;
      var init := labels[..n - 1];
      SavedLabelsKept(init);
      var s := Somes(labels);
      assert s[..n - 1] == Somes(init);
      assert s[n - 1] == Some(labels[n - 1]);
      assert KeepClassrooms(s) == KeepClassrooms(s[..n - 1]) + [labels[n - 1]];
      assert labels == init + [labels[n - 1]];
    }
  }

  /** So a mirror's stored classroom links are exactly what its card lists. */
  lemma MirrorClassroomsShown(cs: seq<Publications.Classroom>)
    ensures PubClassrooms(MetaList(Somes(Publications.ClassroomLinks(cs)))) == Publications.ClassroomLinks(cs)
  {
    var labels := Publications.ClassroomLinks(cs);
    Publications.ClassroomLinksSpec(cs);
    forall k | 0 <= k < |labels| ensures labels[k] != "" {
      assert labels[k] in labels;
      var c :| c in cs && !EmptyString(c.name) && labels[k] == Publications.ClassroomLink(c);
      assert labels[k][0] == '<';
    }
    SavedLabelsKept(labels);
  }

  /** A community post as the publications query returns it. */
  datatype PubPost = PubPost(id: nat, classrooms: ClassroomsMeta)

  /** The values `render_pub` prints for one post (markup and origin lookups left out). */
  datatype PubCard = PubCard(id: nat, classrooms: seq<string>)

  function RenderPub(post: PubPost): PubCard
  {
    PubCard(post.id, PubClassrooms(post.classrooms))
  }

  function RenderPubs(posts: seq<PubPost>): (cs: seq<PubCard>)
    ensures |cs| == |posts|
    ensures forall k :: 0 <= k < |posts| ==> cs[k] == RenderPub(posts[k])
  {
    if posts == [] then [] else RenderPubs(posts[..|posts| - 1]) + [RenderPub(posts[|posts| - 1])]
  }

  /** The `WP_Query` arguments of the publications handler. */
  datatype PubsQuery = PubsQuery(
    postType: string,
    statuses: set<string>,
    visibilities: set<Publications.Visibility>,
    perPage: Option<int>,
    paged: Option<int>,
    orderBy: string,
    descending: bool)

  /** Its outcome: the posts of the page and `max_num_pages`. */
  datatype PubsResult = PubsResult(posts: seq<PubPost>, maxNumPages: nat)

  /** Signed-in visitors also see private posts and campus-only ones. */
  function VisibleStatuses(loggedIn: bool): (s: set<string>)
    ensures "publish" in s && ("private" in s <==> loggedIn)
    ensures s <= {"publish", "private"}
  {
    if loggedIn then {"publish", "private"} else {"publish"}
  }

  function VisibleScopes(loggedIn: bool): (s: set<Publications.Visibility>)
    ensures Publications.World in s && (Publications.Uoc in s <==> loggedIn)
    ensures forall v :: v in s ==> Publications.Eligible(v)
  {
    if loggedIn then {Publications.World, Publications.Uoc} else {Publications.World}
  }

  /** Signed in, the scope is exactly the visibilities a post is mirrored with. */
  lemma SignedInScopeIsEligible(v: Publications.Visibility)
    ensures v in VisibleScopes(true) <==> Publications.Eligible(v)
  {
  }

  function PubsQueryFor(req: Request, p: Params): PubsQuery
  {
    PubsQuery(COMMUNITY_POST_TYPE, VisibleStatuses(req.loggedIn), VisibleScopes(req.loggedIn),
              p.perPage, p.page, "modified", true)
  }

  /**
   * `ajax_load_more_pubs`; `run` is `WP_Query` on the community site. On an
   * empty result the `'0'` answer ends the request before the blog is
   * restored.
   */
  function PubsResponse(req: Request, perPage: int, maxPages: nat, pagination: string, initial: bool,
                        pagenumLink: string, run: PubsQuery -> PubsResult): Response<PubCard>
  {
    if !initial && !req.nonceOk then SecurityError
    else
      var p := RequestParams(req, "pp", perPage, pagination, pagenumLink);
      var result := run(PubsQueryFor(req, p));
      Answer(RenderPubs(result.posts), PubsPaging(result.maxNumPages, maxPages, req.get, p, pagenumLink),
             IsAjax(req), initial, p.isRefresh)
  }

  /** The loop over the query's posts, `render_pub` for each. */
  method RenderPubCards(posts: seq<PubPost>) returns (out: seq<PubCard>)
    ensures out == RenderPubs(posts)
  {
    out := [];
    var i := 0;
    while i < |posts|
      invariant 0 <= i <= |posts|
      invariant out == RenderPubs(posts[..i])
    {
      assert posts[..i + 1][..i] == posts[..i];
      out := out + [RenderPub(posts[i])];
      i := i + 1;
    }
    assert posts[..|posts|] == posts;
  }

  method AjaxLoadMorePubs(req: Request, perPage: int, maxPages: nat, pagination: string, initial: bool,
                          pagenumLink: string, run: PubsQuery -> PubsResult)
    returns (resp: Response<PubCard>)
    ensures resp == PubsResponse(req, perPage, maxPages, pagination, initial, pagenumLink, run)
  {
    if !initial && !req.nonceOk {
      return SecurityError;
    }
    var isAjax := IsAjax(req);
    var p := RequestParams(req, "pp", perPage, pagination, pagenumLink);
    var result := run(PubsQueryFor(req, p));
    if result.posts != [] {
      var out := RenderPubCards(result.posts);
      var paging: Option<Paging> := None;
      if !isAjax || p.isRefresh {
        var total := result.maxNumPages;
        if 1 < total {
          total := if maxPages > 0 && maxPages <= total then maxPages else total;
          var links := Pagination(total, req.get, "pp", p.base, pagenumLink);
          paging := Some(Paging(total, p.pagination == "pages", links));
        }
      }
      resp := Listing(out, paging);
    } else if (!isAjax && initial) || p.isRefresh {
      resp := NoResults;
    } else {
      resp := Zero;
    }
  }

  // ---------------------------------------------------------------- response lemmas

  /**
   * The search answer: the rendered rows when any matched; otherwise the
   * notice on a page render or a refresh, and the `'0'` answer to a
   * background request.
   */
  lemma SearchResponseSpec(req: Request, query: string, perPage: int, pagination: string, initial: bool,
                           link: string, table: seq<IndexRow>)
    requires initial || req.nonceOk
    ensures var r := SearchResponse(req, query, perPage, pagination, initial, link, table);
      var p := RequestParams(req, "pq", perPage, pagination, link);
      var sites := Execute(SelectFor(SearchQueryArgs(req, query, p)), table);
      && !r.SecurityError?
      && (r.Listing? <==> sites != [])
      && (r.Listing? ==> r.items == RenderSites(sites) && (r.paging.Some? ==> !IsAjax(req) || p.isRefresh))
      && (r == NoResults <==> sites == [] && ((!IsAjax(req) && initial) || p.isRefresh))
      && (r == Zero <==> sites == [] && !p.isRefresh && (IsAjax(req) || !initial))
  {
  }

  /**
   * The sites listed are index rows that match the search, in ascending name
   * order ignoring case, at most `per_page` of them.
   */
  lemma SearchListing(req: Request, query: string, perPage: int, pagination: string, initial: bool,
                      link: string, table: seq<IndexRow>)
    requires initial || req.nonceOk
    ensures var r := SearchResponse(req, query, perPage, pagination, initial, link, table);
      var p := RequestParams(req, "pq", perPage, pagination, link);
      var a := SearchQueryArgs(req, query, p);
      r.Listing? ==>
        && (a.limit != 0 ==> |r.items| <= Abs(a.limit))
        && (forall k :: 0 <= k < |r.items| ==>
              exists row :: row in table && HoldsAll(SelectFor(a).conds, row) && r.items[k] == RenderSite(row))
        && (forall i, j :: 0 <= i < j < |r.items| ==> LexLe(ToLower(r.items[i].name), ToLower(r.items[j].name)))
  {
    var r := SearchResponse(req, query, perPage, pagination, initial, link, table);
    var p := RequestParams(req, "pq", perPage, pagination, link);
    var a := SearchQueryArgs(req, query, p);
    var s := SelectFor(a);
    SearchItems(req, query, perPage, pagination, initial, link, table);
    SearchOrdersByName(a);
    RenderedRowsMatch(s, table);
    RenderedByName(s, table);
  }

  /** A search listing holds the rendered rows of the query. */
  lemma SearchItems(req: Request, query: string, perPage: int, pagination: string, initial: bool,
                    link: string, table: seq<IndexRow>)
    requires initial || req.nonceOk
    ensures var r := SearchResponse(req, query, perPage, pagination, initial, link, table);
      var p := RequestParams(req, "pq", perPage, pagination, link);
      r.Listing? ==> r.items == RenderSites(Execute(SelectFor(SearchQueryArgs(req, query, p)), table))
  {
  }

  /** The search always asks for ascending name order. */
  lemma SearchOrdersByName(a: Resolved)
    requires a.orderby == Some("blog_name") && a.order == Some("ASC")
    ensures SelectFor(a).orderBy == Some(OrderBy(NameCol, false))
  {
  }

  /** Every rendered card comes from a table row that meets the conditions. */
  lemma RenderedRowsMatch(s: Select, table: seq<IndexRow>)
    ensures var items := RenderSites(Execute(s, table));
      forall k :: 0 <= k < |items| ==> exists row :: row in table && HoldsAll(s.conds, row) && items[k] == RenderSite(row)
  {
    var sites := Execute(s, table);
    var items := RenderSites(sites);
    ExecuteRows(s, table);
    forall k | 0 <= k < |items|
      ensures exists row :: row in table && HoldsAll(s.conds, row) && items[k] == RenderSite(row)
    {
      assert sites[k] in sites;
    }
  }

  /** Ordered by name ascending, the cards come in name order. */
  lemma RenderedByName(s: Select, table: seq<IndexRow>)
    requires s.orderBy == Some(OrderBy(NameCol, false))
    ensures var items := RenderSites(Execute(s, table));
      forall i, j :: 0 <= i < j < |items| ==> LexLe(ToLower(items[i].name), ToLower(items[j].name))
  {
    var sites := Execute(s, table);
    var items := RenderSites(sites);
    ExecuteSorted(s, table);
    forall i, j | 0 <= i < j < |items| ensures LexLe(ToLower(items[i].name), ToLower(items[j].name)) {
      assert InOrder(Key(NameCol)(sites[i]), Key(NameCol)(sites[j]), false);
    }
  }

  /**
   * A search's paging element counts `ceil(matches / per_page)` pages: enough
   * for every matching site, without an empty last page.
   */
  lemma SearchPagingCountsMatches(req: Request, query: string, perPage: int, pagination: string, initial: bool,
                                  link: string, table: seq<IndexRow>)
    requires initial || req.nonceOk
    ensures var r := SearchResponse(req, query, perPage, pagination, initial, link, table);
      var p := RequestParams(req, "pq", perPage, pagination, link);
      var a := SearchQueryArgs(req, query, p);
      var matches := |Where(SelectFor(a).conds, table)|;
      r.Listing? && r.paging.Some? ==>
        && a.limit != 0
        && r.paging.value.totalPages > 1
        && (r.paging.value.totalPages - 1) * Abs(a.limit) < matches <= r.paging.value.totalPages * Abs(a.limit)
  {
    var r := SearchResponse(req, query, perPage, pagination, initial, link, table);
    var p := RequestParams(req, "pq", perPage, pagination, link);
    var a := SearchQueryArgs(req, query, p);
    if r.Listing? && r.paging.Some? {
      assert r.paging == SearchPaging(SitesNumPages(a, table), req.get, p, link);
      assert SitesNumPages(a, table).Some?;
      assert !a.noFoundRows;
      SearchPagesCoverMatches(a, table);
    }
  }

  /** The activity answer: one card per post, clamped paging, the notice or `'0'` when there is none. */
  lemma PubsResponseSpec(req: Request, perPage: int, maxPages: nat, pagination: string, initial: bool,
                         link: string, run: PubsQuery -> PubsResult)
    requires initial || req.nonceOk
    ensures var r := PubsResponse(req, perPage, maxPages, pagination, initial, link, run);
      var p := RequestParams(req, "pp", perPage, pagination, link);
      var result := run(PubsQueryFor(req, p));
      && !r.SecurityError?
      && (r.Listing? <==> result.posts != [])
      && (r.Listing? ==> r.items == RenderPubs(result.posts))
      && (r.Listing? && r.paging.Some? ==>
            (!IsAjax(req) || p.isRefresh) && result.maxNumPages > 1
            && r.paging.value.totalPages == ClampPages(result.maxNumPages, maxPages))
      && (r == Zero <==> result.posts == [] && !p.isRefresh && (IsAjax(req) || !initial))
  {
  }

  /** A page render that is not a background request never answers `'0'` and never refuses. */
  lemma InitialRenderNeverZero(req: Request, perPage: int, maxPages: nat, pagination: string,
                               link: string, run: PubsQuery -> PubsResult, query: string, table: seq<IndexRow>)
    requires !IsAjax(req)
    ensures var r := PubsResponse(req, perPage, maxPages, pagination, true, link, run);
      r != Zero && r != SecurityError
    ensures var r := SearchResponse(req, query, perPage, pagination, true, link, table);
      r != Zero && r != SecurityError
  {
  }

  /** A background request without a valid nonce is refused whatever else it carries. */
  lemma BadNonceRefused(req: Request, perPage: int, pagination: string, link: string, query: string, table: seq<IndexRow>)
    requires !req.nonceOk
    ensures SearchResponse(req, query, perPage, pagination, false, link, table) == SecurityError
  {
  }

  // ---------------------------------------------------------------- shortcodes

  /** The search shortcode's normalised attributes. */
  datatype SearchAtts = SearchAtts(mode: Mode, perPage: nat)

  function SearchAttsOf(atts: map<string, string>): (r: SearchAtts)
    ensures r.mode == Infinite ==> r.perPage >= MIN_INFINITE_PER_PAGE
  {
    var mode := ParseMode(Att(atts, "pagination", "pages"));
    SearchAtts(mode, PerPage(mode, Att(atts, "per-page", "5")))
  }

  /** The publications shortcode's normalised attributes. */
  datatype PubsAtts = PubsAtts(mode: Mode, perPage: nat, maxPages: nat, refresh: bool)

  function PubsAttsOf(atts: map<string, string>): (r: PubsAtts)
    ensures r.mode == Infinite ==> r.perPage >= MIN_INFINITE_PER_PAGE
  {
    var mode := ParseMode(Att(atts, "pagination", "infinite"));
    PubsAtts(mode, PerPage(mode, Att(atts, "per-page", "10")), AbsInt(Att(atts, "max-pages", "100")),
             FilterBool(Att(atts, "refresh", "1")))
  }

  /** What `[folio-community-search]` renders, reduced to its data. */
  datatype SearchView = SearchView(
    atts: SearchAtts,
    query: string,
    current: nat,
    filters: seq<string>,
    initialSearch: bool,
    results: Option<Response<SiteCard>>)

  datatype Shortcode<V> = Unavailable | Shown(view: V)

  /**
   * `search_shortcode`: a warning off the community and main sites; the
   * results are rendered up front only for a query with filters.
   */
  function SearchShortcode(atts: map<string, string>, options: SiteOptions, blogId: nat, req: Request,
                           pagenumLink: string, table: seq<IndexRow>): (r: Shortcode<SearchView>)
    ensures r.Unavailable? <==> !Available(options, blogId)
    ensures r.Shown? ==> r.view.current >= 1 && r.view.atts == SearchAttsOf(atts)
    ensures r.Shown? ==> (r.view.results.Some? <==> r.view.filters != [] && r.view.query != "")
    ensures r.Shown? ==> r.view.current == PageFromGet(req.get, "pq")
    ensures r.Shown? ==> r.view.query == (if "q" in req.get then req.get["q"] else "")
    ensures r.Shown? ==> r.view.filters == (if "f" in req.get then Explode(',', req.get["f"]) else [])
    ensures r.Shown? ==> r.view.initialSearch == r.view.results.Some?
    ensures r.Shown? && r.view.results.Some? ==>
      && r.view.results.value
         == SearchResponse(req, r.view.query, r.view.atts.perPage, ModeName(r.view.atts.mode), true, pagenumLink, table)
      && !r.view.results.value.SecurityError?
  {
    if !Available(options, blogId) then Unavailable
    else
      var a := SearchAttsOf(atts);
      var q := if "q" in req.get then req.get["q"] else "";
      var filters := if "f" in req.get then Explode(',', req.get["f"]) else [];
      var initial := |filters| > 0 && q != "";
      SearchResponseSpec(req, q, a.perPage, ModeName(a.mode), true, pagenumLink, table);
      Shown(SearchView(a, q, PageFromGet(req.get, "pq"), filters, initial,
                       if initial then Some(SearchResponse(req, q, a.perPage, ModeName(a.mode), true, pagenumLink, table)) else None))
  }

  /** What `[folio-community-publications]` renders, reduced to its data. */
  datatype PubsView = PubsView(
    atts: PubsAtts,
    current: nat,
    loadMoreButton: bool,
    items: Response<PubCard>)

  /** `publications_shortcode`: the first page is always rendered; the button needs more than one page allowed. */
  function PubsShortcode(atts: map<string, string>, options: SiteOptions, blogId: nat, req: Request,
                         pagenumLink: string, run: PubsQuery -> PubsResult): (r: Shortcode<PubsView>)
    ensures r.Unavailable? <==> !Available(options, blogId)
    ensures r.Shown? ==> r.view.current >= 1 && r.view.atts == PubsAttsOf(atts)
    ensures r.Shown? ==> (r.view.loadMoreButton <==> r.view.atts.maxPages > 1 && r.view.atts.mode != Pages)
    ensures r.Shown? ==> r.view.current == PageFromGet(req.get, "pp")
    ensures r.Shown? ==>
      && r.view.items == PubsResponse(req, r.view.atts.perPage, r.view.atts.maxPages, ModeName(r.view.atts.mode),
                                      true, pagenumLink, run)
      && !r.view.items.SecurityError?
  {
    if !Available(options, blogId) then Unavailable
    else
      var a := PubsAttsOf(atts);
      PubsResponseSpec(req, a.perPage, a.maxPages, ModeName(a.mode), true, pagenumLink, run);
      Shown(PubsView(a, PageFromGet(req.get, "pp"), a.maxPages > 1 && a.mode != Pages,
                     PubsResponse(req, a.perPage, a.maxPages, ModeName(a.mode), true, pagenumLink, run)))
  }

  /** Without attributes the search lists 5 per page with page links, the activity 10 with infinite scroll. */
  lemma ShortcodeDefaults()
    ensures SearchAttsOf(map[]) == SearchAtts(Pages, 5)
    ensures PubsAttsOf(map[]) == PubsAtts(Infinite, 10, 100, true)
  {
    DefaultNumbers();
    var none: map<string, string> := map[];
    assert ParseMode(Att(none, "pagination", "pages")) == Pages;
    assert PerPage(Pages, Att(none, "per-page", "5")) == 5;
    assert ParseMode(Att(none, "pagination", "infinite")) == Infinite;
    assert PerPage(Infinite, Att(none, "per-page", "10")) == 10;
    assert AbsInt(Att(none, "max-pages", "100")) == 100;
    assert FilterBool(Att(none, "refresh", "1"));
  }

  lemma DefaultNumbers()
    ensures AbsInt("5") == 5 && AbsInt("10") == 10 && AbsInt("100") == 100 && FilterBool("1")
  {
    DecimalDefault(5, "5");
    DecimalDefault(10, "10");
    DecimalDefault(100, "100");
    DefaultRefresh();
  }

  lemma DefaultRefresh()
    ensures FilterBool("1")
  {
    var one := "1";
    assert one[0] !in FILTER_SPACE && one[|one| - 1] !in FILTER_SPACE;
    assert FilterTrim(one) == one;
    assert ToLower(one) == one by {
      assert ToLowerChar(one[0]) == one[0];
    }
  }

  lemma DecimalDefault(n: nat, s: string)
    requires s == NatToString(n)
    ensures AbsInt(s) == n
  {
    IntValOfNatToString(n);
  }
}
