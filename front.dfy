/**
 * The browser side of the listings (`assets/js/front.js`): the `LoadMore`
 * state machine behind the search results and the activity feed, the URL
 * parameter rewrite and the post-time registry. The page's DOM is reduced to
 * the list of fragments inside the content element, the visibility of the
 * load-more button and the query string.
 */
module Front {
  import opened Php
  import opened Shortcodes

  /** The two listings a `LoadMore` drives. */
  datatype Kind = SearchList | PubsList

  function KindName(k: Kind): string
  {
    if k == SearchList then "search" else "pubs"
  }

  /** No load-more button means page links; its `folio-comm-more-btn` class means a button. */
  function ModeOf(hasButton: bool, moreClass: bool): (m: Mode)
    ensures m == Pages <==> !hasButton
    ensures m == More <==> hasButton && moreClass
    ensures m == Infinite <==> hasButton && !moreClass
  {
    if !hasButton then Pages else if moreClass then More else Infinite
  }

  /** The fields of the `FormData` a load posts. */
  datatype LoadRequest = LoadRequest(
    page: int,
    perPage: Option<int>,
    isRefresh: bool,
    pagination: Mode,
    base: string,
    action: string,
    nonce: string,
    filters: Option<seq<string>>,
    search: Option<string>)

  /** The position of the first `c` in `s`, or `|s|` when there is none. */
  function FirstIndex(s: string, c: char): (i: nat)
    ensures i <= |s| && c !in s[..i]
    ensures i < |s| ==> s[i] == c
    ensures i == |s| ==> c !in s
  {
    if s == [] then 0
    else if s[0] == c then 0
    else
      var j := FirstIndex(s[1..], c);
      assert s[..j + 1] == [s[0]] + s[1..][..j];
      j + 1
  }

  /** JavaScript `s.replace(c, d)` with a one-character pattern: the first occurrence only. */
  function ReplaceFirst(s: string, c: char, d: char): (r: string)
    ensures |r| == |s|
    ensures c !in s ==> r == s
    ensures forall k :: 0 <= k < |s| ==> r[k] == (if s[k] == c && c !in s[..k] then d else s[k])
  {
    var i := FirstIndex(s, c);
    if i < |s| then s[..i] + [d] + s[i + 1..] else s
  }

  /** The request body as the server receives it: every value as text. */
  function PostOf(r: LoadRequest): map<string, string>
  {
    var base := map[
      "page" := IntToString(r.page),
      "per_page" := if r.perPage.Some? then IntToString(r.perPage.value) else "undefined",
      "is_refresh" := BoolToString(r.isRefresh),
      "pagination" := ModeName(r.pagination),
      "base" := r.base,
      "action" := r.action,
      "ajax_nonce" := r.nonce];
    var withFilters := if r.filters.Some? then base["filters" := Implode(',', r.filters.value)] else base;
    if r.search.Some? then withFilters["search" := r.search.value] else withFilters
  }

  // ---------------------------------------------------------------- URL parameters

  /** The values the query string holds for `name`, in order. */
  function Values(ps: seq<(string, string)>, name: string): seq<string>
  {
    if ps == [] then []
    else Values(ps[..|ps| - 1], name) + (if ps[|ps| - 1].0 == name then [ps[|ps| - 1].1] else [])
  }

  /** `URLSearchParams.delete(name)`: every pair with that name goes, the others keep their order. */
  function WithoutParam(ps: seq<(string, string)>, name: string): seq<(string, string)>
  {
    if ps == [] then []
    else
      var last := ps[|ps| - 1];
      WithoutParam(ps[..|ps| - 1], name) + (if last.0 == name then [] else [last])
  }

  /** `updateUrlParam(param, value)`: drop the parameter, then add it back with the value if one is given. */
  function UpdatedParams(ps: seq<(string, string)>, name: string, value: Option<string>): seq<(string, string)>
  {
    WithoutParam(ps, name) + (if value.Some? then [(name, value.value)] else [])
  }

  /** `String(params)` for a `URLSearchParams`: the pairs as `name=value` joined by `&`. */
  function QueryString(ps: seq<(string, string)>): string
  {
    if ps == [] then []
    else
      var last := ps[|ps| - 1];
      var pair := last.0 + "=" + last.1;
      if |ps| == 1 then pair else QueryString(ps[..|ps| - 1]) + "&" + pair
  }

  /**
   * `location.search` once `updateUrlParam` has written `'?' + params`: the
   * browser reports an empty query as the empty string.
   */
  function LocationSearch(ps: seq<(string, string)>): (r: string)
    ensures ps == [] <==> r == []
    ensures r != [] ==> r[0] == '?'
  {
    if ps == [] then [] else "?" + QueryString(ps)
  }

  /**
   * The tail `handleLoadMore` adds to the pagination base: the page's query
   * with its `?` turned into `&`, so the server sees every parameter.
   */
  lemma BaseTail(ps: seq<(string, string)>)
    ensures ReplaceFirst(LocationSearch(ps), '?', '&') == (if ps == [] then [] else "&" + QueryString(ps))
  {
    var s := LocationSearch(ps);
    var r := ReplaceFirst(s, '?', '&');
    if ps != [] {
      assert s[..0] == [];
      forall k | 1 <= k < |s|
        ensures r[k] == s[k]
      {
        assert s[..k][0] == '?';
      }
      assert r == "&" + QueryString(ps);
    }
  }

  lemma {:induction false} ValuesAppend(a: seq<(string, string)>, b: seq<(string, string)>, name: string)
    ensures Values(a + b, name) == Values(a, name) + Values(b, name)
    decreases |b|
  {
    if b == [] {
      assert a + b == a;
    } else {
      var init := b[..|b| - 1];
      ValuesAppend(a, init, name);
      assert (a + b)[..|a + b| - 1] == a + init;
      assert b[..|b| - 1] == init;
    }
  }

  lemma {:induction false} ValuesWithoutSame(ps: seq<(string, string)>, name: string)
    ensures Values(WithoutParam(ps, name), name) == []
    decreases |ps|
  {
    if ps != [] {
      var init := ps[..|ps| - 1];
      var last := ps[|ps| - 1];
      ValuesWithoutSame(init, name);
      var tail: seq<(string, string)> := if last.0 == name then [] else [last];
      ValuesAppend(WithoutParam(init, name), tail, name);
      assert Values(tail, name) == [] by {
        if tail != [] { assert tail[..0] == []; }
      }
    }
  }

  lemma {:induction false} ValuesWithoutOther(ps: seq<(string, string)>, name: string, other: string)
    requires other != name
    ensures Values(WithoutParam(ps, name), other) == Values(ps, other)
    decreases |ps|
  {
    if ps != [] {
      var init := ps[..|ps| - 1];
      var last := ps[|ps| - 1];
      ValuesWithoutOther(init, name, other);
      var tail: seq<(string, string)> := if last.0 == name then [] else [last];
      ValuesAppend(WithoutParam(init, name), tail, other);
      assert Values(tail, other) == (if last.0 == other then [last.1] else []) by {
        if tail != [] { assert tail[..0] == []; }
      }
    }
  }

  /**
   * After the rewrite the parameter holds exactly the given value (or is
   * gone), and every other parameter keeps all its values in order.
   */
  lemma UpdatedParamsSpec(ps: seq<(string, string)>, name: string, value: Option<string>, other: string)
    ensures Values(UpdatedParams(ps, name, value), name) == (if value.Some? then [value.value] else [])
    ensures other != name ==> Values(UpdatedParams(ps, name, value), other) == Values(ps, other)
  {
    var tail: seq<(string, string)> := if value.Some? then [(name, value.value)] else [];
    ValuesWithoutSame(ps, name);
    if other != name {
      ValuesWithoutOther(ps, name, other);
    }
    ValuesAppend(WithoutParam(ps, name), tail, name);
    ValuesAppend(WithoutParam(ps, name), tail, other);
    if tail != [] {
      assert tail[..0] == [];
    }
  }

  lemma {:induction false} WithoutParamTwice(ps: seq<(string, string)>, name: string)
    ensures WithoutParam(WithoutParam(ps, name), name) == WithoutParam(ps, name)
    decreases |ps|
  {
    if ps != [] {
      var init := ps[..|ps| - 1];
      var last := ps[|ps| - 1];
      WithoutParamTwice(init, name);
      var tail: seq<(string, string)> := if last.0 == name then [] else [last];
      WithoutAppend(WithoutParam(init, name), tail, name);
      assert WithoutParam(tail, name) == tail by {
        if tail != [] { assert tail[..0] == []; }
      }
    }
  }

  /** Rewriting a parameter twice with the same value is the same as once. */
  lemma UpdatedParamsIdempotent(ps: seq<(string, string)>, name: string, value: Option<string>)
    ensures UpdatedParams(UpdatedParams(ps, name, value), name, value) == UpdatedParams(ps, name, value)
  {
    var w := WithoutParam(ps, name);
    var tail: seq<(string, string)> := if value.Some? then [(name, value.value)] else [];
    WithoutParamTwice(ps, name);
    WithoutAppend(w, tail, name);
    assert WithoutParam(tail, name) == [] by {
      if tail != [] { assert tail[..0] == []; }
    }
  }

  lemma {:induction false} WithoutAppend(a: seq<(string, string)>, b: seq<(string, string)>, name: string)
    ensures WithoutParam(a + b, name) == WithoutParam(a, name) + WithoutParam(b, name)
    decreases |b|
  {
    if b == [] {
      assert a + b == a;
    } else {
      var init := b[..|b| - 1];
      WithoutAppend(a, init, name);
      assert (a + b)[..|a + b| - 1] == a + init;
    }
  }

  // ---------------------------------------------------------------- post times

  /** A `.folio-comm-post-time` element: its id, its `datetime` and whether it is `processed`. */
  datatype Stamp = Stamp(id: string, datetime: string, processed: bool)

  /** An entry of `postTimes`. */
  datatype PostTime = PostTime(id: string, time: string)

  /** The entries the unprocessed stamps add, in document order. */
  function Pending(stamps: seq<Stamp>): (r: seq<PostTime>)
    ensures |r| <= |stamps|
  {
    if stamps == [] then []
    else
      var last := stamps[|stamps| - 1];
      Pending(stamps[..|stamps| - 1]) + (if last.processed then [] else [PostTime(last.id, last.datetime)])
  }

  lemma {:induction false} PendingProcessed(stamps: seq<Stamp>)
    requires forall k :: 0 <= k < |stamps| ==> stamps[k].processed
    ensures Pending(stamps) == []
  {
    if stamps != [] {
      PendingProcessed(stamps[..|stamps| - 1]);
    }
  }

  function MarkProcessed(s: Stamp): Stamp
  {
    s.(processed := true)
  }

  /** The module-level `postTimes` list. */
  class PostClock {
    var times: seq<PostTime>

    constructor ()
      ensures times == []
    {
      times := [];
    }

    /** `refreshPostTimes`: register every unprocessed stamp once and mark it processed. */
    method RefreshPostTimes(stamps: array<Stamp>)
      modifies this`times, stamps
      ensures times == old(times) + Pending(old(stamps[..]))
      ensures forall k :: 0 <= k < stamps.Length ==> stamps[k] == MarkProcessed(old(stamps[k]))
    {
      ghost var before := stamps[..];
      for i := 0 to stamps.Length
        invariant times == old(times) + Pending(before[..i])
        invariant forall k :: 0 <= k < i ==> stamps[k] == MarkProcessed(before[k])
        invariant forall k :: i <= k < stamps.Length ==> stamps[k] == before[k]
      {
        assert before[..i + 1][..i] == before[..i];
        if !stamps[i].processed {
          times := times + [PostTime(stamps[i].id, stamps[i].datetime)];
          stamps[i] := MarkProcessed(stamps[i]);
        } else {
          stamps[i] := MarkProcessed(stamps[i]);
        }
      }
      assert before[..stamps.Length] == before;
    }

    /** The refresh button empties the list before reloading. */
    method Clear()
      modifies this`times
      ensures times == []
    {
      times := [];
    }
  }

  /** A second refresh of the same stamps registers nothing new. */
  lemma RefreshTwiceAddsNothing(stamps: seq<Stamp>)
    ensures Pending(seq(|stamps|, k requires 0 <= k < |stamps| => MarkProcessed(stamps[k]))) == []
  {
    PendingProcessed(seq(|stamps|, k requires 0 <= k < |stamps| => MarkProcessed(stamps[k])));
  }

  // ---------------------------------------------------------------- LoadMore

  /** A `data-page` value the script acts on: present and not 0. */
  predicate PageSet(page: Option<int>)
  {
    page.Some? && page.value != 0
  }

  /**
   * The query string after `refresh`: with page links the page parameter is
   * dropped; a search writes its filters and its query.
   */
  function RefreshedUrl(kind: Kind, pagination: Mode, ps: seq<(string, string)>, filters: seq<string>, q: string): seq<(string, string)>
  {
    var afterPage := if pagination == Pages then UpdatedParams(ps, if kind == PubsList then "pp" else "pq", None) else ps;
    if kind == SearchList then UpdatedParams(UpdatedParams(afterPage, "f", Some(Implode(',', filters))), "q", Some(q))
    else afterPage
  }

  /**
   * After `refresh` the URL of a search holds exactly the current filters
   * and query, the page parameter of a page-links list is gone, and every
   * other parameter keeps its values.
   */
  lemma RefreshedUrlSpec(kind: Kind, pagination: Mode, ps: seq<(string, string)>, filters: seq<string>, q: string, other: string)
    ensures var u := RefreshedUrl(kind, pagination, ps, filters, q);
      && (kind == SearchList ==> Values(u, "q") == [q] && Values(u, "f") == [Implode(',', filters)])
      && (pagination == Pages && kind == PubsList ==> Values(u, "pp") == [])
      && (pagination == Pages && kind == SearchList ==> Values(u, "pq") == [])
      && (other !in {"pp", "pq", "f", "q"} ==> Values(u, other) == Values(ps, other))
  {
    var pageKey := if kind == PubsList then "pp" else "pq";
    var afterPage := if pagination == Pages then UpdatedParams(ps, pageKey, None) else ps;
    if pagination == Pages {
      UpdatedParamsSpec(ps, pageKey, None, other);
    }
    if kind == SearchList {
      var withF := UpdatedParams(afterPage, "f", Some(Implode(',', filters)));
      UpdatedParamsSpec(afterPage, "f", Some(Implode(',', filters)), other);
      UpdatedParamsSpec(afterPage, "f", Some(Implode(',', filters)), "pq");
      UpdatedParamsSpec(withF, "q", Some(q), other);
      UpdatedParamsSpec(withF, "q", Some(q), "f");
      UpdatedParamsSpec(withF, "q", Some(q), "pq");
    }
  }

  class LoadMore {
    const kind: Kind
    const hasButton: bool
    const pagination: Mode
    const perPage: Option<int>
    const nonce: string
    var paginationBase: string
    var totalPages: int
    var isRefresh: bool
    var searchFilters: seq<string>
    /** `data-page` of the content element. */
    var page: Option<int>
    /** The fragments inside the content element. */
    var content: seq<string>
    var contentShown: bool
    var buttonVisible: bool
    /** The "more" button's loading state. */
    var loading: bool
    /** The content fragment that has focus, if any. */
    var focused: Option<nat>
    /** The search form posts to this site rather than to the external engine. */
    var formLocal: bool
    var urlParams: seq<(string, string)>

    /**
     * Only a page with a button is in a button mode, only an existing button
     * is ever shown, only the "more" button shows a loading state, and focus
     * is on a fragment that exists.
     */
    ghost predicate Valid()
      reads this
    {
      && (pagination == Pages <==> !hasButton)
      && (!hasButton ==> !buttonVisible)
      && (loading ==> pagination == More)
      && (focused.Some? ==> focused.value < |content|)
    }

    /**
     * `constructor` and `init`: the mode from the button, the base and the
     * page count from the rendered markup, and the button shown when there
     * is more than one page. Whether the results element starts visible is
     * part of the markup: a search list without an initial search starts
     * hidden.
     */
    constructor (kind: Kind, hasButton: bool, moreClass: bool, contentBase: Option<string>, pagingTotal: Option<int>,
                 page: Option<int>, perPage: Option<int>, nonce: string, checked: seq<string>, content: seq<string>,
                 formLocal: bool, urlParams: seq<(string, string)>, contentShown: bool)
      ensures Valid()
      ensures this.kind == kind && this.hasButton == hasButton && pagination == ModeOf(hasButton, moreClass)
      ensures paginationBase == (if contentBase.Some? then contentBase.value else "%_%")
      ensures totalPages == (if pagingTotal.Some? then pagingTotal.value else 0)
      ensures buttonVisible <==> hasButton && totalPages > 1
      ensures searchFilters == (if kind == SearchList then checked else [])
      ensures this.page == page && this.perPage == perPage && this.content == content
      ensures !isRefresh && !loading && focused.None?
      ensures this.formLocal == formLocal && this.urlParams == urlParams
      ensures this.contentShown == contentShown
    {
      this.kind := kind;
      this.hasButton := hasButton;
      pagination := ModeOf(hasButton, moreClass);
      this.perPage := perPage;
      this.nonce := nonce;
      paginationBase := if contentBase.Some? then contentBase.value else "%_%";
      totalPages := if pagingTotal.Some? then pagingTotal.value else 0;
      buttonVisible := hasButton && (if pagingTotal.Some? then pagingTotal.value else 0) > 1;
      isRefresh := false;
      searchFilters := if kind == SearchList then checked else [];
      this.page := page;
      this.content := content;
      this.contentShown := contentShown;
      loading := false;
      focused := None;
      this.formLocal := formLocal;
      this.urlParams := urlParams;
    }

    /** The request `handleLoadMore` builds when `data-page` is set. */
    function RequestFor(checked: seq<string>, searchValue: string): (r: LoadRequest)
      reads this`isRefresh, this`page, this`paginationBase, this`urlParams
      requires PageSet(page)
      ensures r.page == (if isRefresh then 1 else page.value + 1)
      ensures r.isRefresh == isRefresh && r.pagination == pagination
      ensures r.filters.Some? <==> kind == SearchList
      ensures r.filters.Some? ==> r.filters.value == checked
      ensures r.search.Some? <==> kind == SearchList
      ensures r.search.Some? ==> r.search.value == searchValue
      ensures r.base == paginationBase + (if urlParams == [] then [] else "&" + QueryString(urlParams))
    {
      BaseTail(urlParams);
      LoadRequest(
        if isRefresh then 1 else page.value + 1,
        perPage, isRefresh, pagination,
        paginationBase + ReplaceFirst(LocationSearch(urlParams), '?', '&'),
        "folio_comm_load_more_" + KindName(kind), nonce,
        if kind == SearchList then Some(checked) else None,
        if kind == SearchList then Some(searchValue) else None)
    }

    /**
     * `handleLoadMore`: nothing without a page; otherwise the next page (page
     * 1 while refreshing) is requested with the checked filters re-read.
     */
    method HandleLoadMore(checked: seq<string>, searchValue: string)
      returns (req: Option<LoadRequest>)
      requires Valid()
      modifies this`searchFilters, this`loading
      ensures Valid()
      ensures req.None? <==> !PageSet(page)
      ensures req.Some? ==> req.value == RequestFor(checked, searchValue)
      ensures loading == (old(loading) || (req.Some? && pagination == More))
      ensures searchFilters == (if req.Some? && kind == SearchList then checked else old(searchFilters))
    {
      if !PageSet(page) {
        return None;
      }
      var nextPage := page.value + 1;
      if isRefresh {
        nextPage := 1;
      }
      if pagination == More {
        loading := true;
      }
      var filters: Option<seq<string>> := None;
      var search: Option<string> := None;
      if kind == SearchList {
        searchFilters := checked;
        filters := Some(searchFilters);
        search := Some(searchValue);
      }
      req := Some(LoadRequest(nextPage, perPage, isRefresh, pagination,
                              paginationBase + ReplaceFirst(LocationSearch(urlParams), '?', '&'),
                              "folio_comm_load_more_" + KindName(kind), nonce, filters, search));
    }

    /**
     * The `success` callback: `'0'` changes nothing; search page links
     * replace the content; otherwise the answer is appended, and in "more"
     * mode focus moves to the first new fragment.
     */
    method Success(response: string)
      requires Valid()
      modifies this`content, this`focused
      ensures Valid()
      ensures response == "0" ==> content == old(content) && focused == old(focused)
      ensures response != "0" ==>
        content == (if kind == SearchList && pagination == Pages then [] else old(content))
                   + (if response == "" then [] else [response])
      ensures response != "0" && pagination == More && old(content) != [] && response != "" ==>
        focused == Some(|old(content)|)
      ensures response != "0" && !(pagination == More && old(content) != [] && response != "") ==>
        focused == (if kind == SearchList && pagination == Pages then None else old(focused))
    {
      if response != "0" {
        var hadLast := false;
        if kind == SearchList && pagination == Pages {
          content := [];
          focused := None;
        }
        if pagination == More {
          hadLast := content != [];
        }
        var n := |content|;
        if response != "" {
          content := content + [response];
        }
        if pagination == More && hadLast && response != "" {
          focused := Some(n);
        }
      }
    }

    /** `hideLoadMoreIfOnLastPage` */
    method HideLoadMoreIfOnLastPage(nextPage: int)
      requires Valid()
      modifies this`buttonVisible
      ensures Valid()
      ensures buttonVisible <==> old(buttonVisible) && nextPage + 1 <= totalPages
    {
      if nextPage + 1 > totalPages {
        buttonVisible := false;
      }
    }

    /**
     * The `complete` callback for a request of `nextPage`: the page count is
     * re-read (0 without a paging element), the cursor moves except with page
     * links, the refresh ends, the button hides on the last page, and the
     * activity feed registers its new post times.
     */
    method Complete(nextPage: int, pagingTotal: Option<int>, clock: PostClock, stamps: array<Stamp>)
      requires Valid()
      modifies this`totalPages, this`page, this`loading, this`isRefresh, this`buttonVisible, clock`times, stamps
      ensures Valid()
      ensures totalPages == (if pagingTotal.Some? then pagingTotal.value else 0)
      ensures page == (if pagination != Pages then Some(nextPage) else old(page))
      ensures !loading && !isRefresh
      ensures buttonVisible <==> old(buttonVisible) && nextPage + 1 <= totalPages
      ensures kind == PubsList ==> clock.times == old(clock.times) + Pending(old(stamps[..]))
      ensures kind == PubsList ==> forall k :: 0 <= k < stamps.Length ==> stamps[k] == MarkProcessed(old(stamps[k]))
      ensures kind == SearchList ==> clock.times == old(clock.times) && stamps[..] == old(stamps[..])
    {
      totalPages := if pagingTotal.Some? then pagingTotal.value else 0;
      if pagination != Pages {
        page := Some(nextPage);
      }
      if pagination == More {
        loading := false;
      }
      isRefresh := false;
      HideLoadMoreIfOnLastPage(nextPage);
      if kind == PubsList {
        clock.RefreshPostTimes(stamps);
      }
    }

    /** `updateUrlParam` on the page's query string. */
    method UpdateUrlParam(name: string, value: Option<string>)
      modifies this`urlParams
      ensures urlParams == UpdatedParams(old(urlParams), name, value)
    {
      urlParams := WithoutParam(urlParams, name);
      if value.Some? {
        urlParams := urlParams + [(name, value.value)];
      }
    }

    /**
     * `refresh`: back to page 1 in refresh mode, the content emptied (kept
     * for search page links), the button shown in the button modes, the
     * page parameter dropped from the URL with page links, the search terms
     * written to the URL, then one load.
     */
    method Refresh(checked: seq<string>, searchValue: string)
      returns (req: Option<LoadRequest>)
      requires Valid()
      modifies this`isRefresh, this`page, this`content, this`focused, this`contentShown, this`buttonVisible,
               this`urlParams, this`searchFilters, this`loading
      ensures Valid()
      ensures isRefresh && page == Some(1) && contentShown
      ensures content == (if kind == SearchList && pagination == Pages then old(content) else [])
      ensures focused == (if kind == SearchList && pagination == Pages then old(focused) else None)
      ensures buttonVisible == (if pagination != Pages then hasButton else old(buttonVisible))
      ensures urlParams == RefreshedUrl(kind, pagination, old(urlParams), old(searchFilters), searchValue)
      ensures searchFilters == (if kind == SearchList then checked else old(searchFilters))
      ensures loading == (old(loading) || pagination == More)
      ensures req.Some? && req.value.page == 1 && req.value.isRefresh && req.value.pagination == pagination
      ensures req.value.filters == (if kind == SearchList then Some(checked) else None)
      ensures req.value.search == (if kind == SearchList then Some(searchValue) else None)
      ensures req.value.base == paginationBase + (if urlParams == [] then [] else "&" + QueryString(urlParams))
    {
      ResetForRefresh();
      RefreshUrl(searchValue);
      req := LoadFirstPage(checked, searchValue);
    }

    /** The load that ends `refresh`: page 1, with the URL as it now stands. */
    method LoadFirstPage(checked: seq<string>, searchValue: string) returns (req: Option<LoadRequest>)
      requires Valid() && isRefresh && page == Some(1)
      modifies this`searchFilters, this`loading
      ensures Valid()
      ensures searchFilters == (if kind == SearchList then checked else old(searchFilters))
      ensures loading == (old(loading) || pagination == More)
      ensures req.Some? && req.value.page == 1 && req.value.isRefresh && req.value.pagination == pagination
      ensures req.value.filters == (if kind == SearchList then Some(checked) else None)
      ensures req.value.search == (if kind == SearchList then Some(searchValue) else None)
      ensures req.value.base == paginationBase + (if urlParams == [] then [] else "&" + QueryString(urlParams))
    {
      req := HandleLoadMore(checked, searchValue);
    }

    /** The state part of `refresh`, before the URL and the load. */
    method ResetForRefresh()
      requires Valid()
      modifies this`isRefresh, this`page, this`content, this`focused, this`contentShown, this`buttonVisible
      ensures Valid()
      ensures isRefresh && page == Some(1) && contentShown
      ensures content == (if kind == SearchList && pagination == Pages then old(content) else [])
      ensures focused == (if kind == SearchList && pagination == Pages then old(focused) else None)
      ensures buttonVisible == (if pagination != Pages then hasButton else old(buttonVisible))
    {
      isRefresh := true;
      page := Some(1);
      if !(kind == SearchList && pagination == Pages) {
        content := [];
        focused := None;
      }
      contentShown := true;
      if pagination != Pages {
        buttonVisible := hasButton;
      }
    }

    /** The URL part of `refresh`. */
    method RefreshUrl(searchValue: string)
      modifies this`urlParams
      ensures urlParams == RefreshedUrl(kind, pagination, old(urlParams), searchFilters, searchValue)
    {
      if pagination == Pages {
        UpdateUrlParam(if kind == PubsList then "pp" else "pq", None);
      }
      if kind == SearchList {
        UpdateUrlParam("f", Some(Implode(',', searchFilters)));
        UpdateUrlParam("q", Some(searchValue));
      }
    }

    /** The refresh button: empty `postTimes`, then refresh. */
    method RefreshClicked(clock: PostClock, checked: seq<string>, searchValue: string)
      returns (req: Option<LoadRequest>)
      requires Valid()
      modifies this`isRefresh, this`page, this`content, this`focused, this`contentShown, this`buttonVisible,
               this`urlParams, this`searchFilters, this`loading, clock`times
      ensures Valid()
      ensures clock.times == []
      ensures isRefresh && page == Some(1) && contentShown
      ensures content == (if kind == SearchList && pagination == Pages then old(content) else [])
      ensures focused == (if kind == SearchList && pagination == Pages then old(focused) else None)
      ensures buttonVisible == (if pagination != Pages then hasButton else old(buttonVisible))
      ensures urlParams == RefreshedUrl(kind, pagination, old(urlParams), old(searchFilters), searchValue)
      ensures searchFilters == (if kind == SearchList then checked else old(searchFilters))
      ensures loading == (old(loading) || pagination == More)
      ensures req.Some? && req.value.page == 1 && req.value.isRefresh && req.value.pagination == pagination
      ensures req.value.filters == (if kind == SearchList then Some(checked) else None)
      ensures req.value.search == (if kind == SearchList then Some(searchValue) else None)
      ensures req.value.base == paginationBase + (if urlParams == [] then [] else "&" + QueryString(urlParams))
    {
      clock.Clear();
      req := Refresh(checked, searchValue);
    }

    /**
     * `intersectionObserverCallback`: every intersecting entry loads the
     * next page, unless a refresh is under way.
     */
    method IntersectionObserverCallback(entries: seq<bool>, checked: seq<string>, searchValue: string)
      returns (reqs: seq<LoadRequest>)
      requires Valid()
      modifies this`searchFilters, this`loading
      ensures Valid()
      ensures isRefresh || !PageSet(page) ==> reqs == []
      ensures !isRefresh && PageSet(page) ==>
        && |reqs| == Hits(entries)
        && forall k :: 0 <= k < |reqs| ==> reqs[k] == RequestFor(checked, searchValue) && reqs[k].page == page.value + 1
      ensures searchFilters == (if reqs != [] && kind == SearchList then checked else old(searchFilters))
      ensures loading == (old(loading) || (reqs != [] && pagination == More))
    {
      reqs := [];
      if isRefresh || !PageSet(page) {
        return;
      }
      ghost var next := RequestFor(checked, searchValue);
      for i := 0 to |entries|
        invariant Valid()
        invariant |reqs| == Hits(entries[..i])
        invariant forall k :: 0 <= k < |reqs| ==> reqs[k] == next
        invariant searchFilters == (if reqs != [] && kind == SearchList then checked else old(searchFilters))
        invariant loading == (old(loading) || (reqs != [] && pagination == More))
      {
        assert entries[..i + 1][..i] == entries[..i];
        if entries[i] {
          if !isRefresh {
            var r := HandleLoadMore(checked, searchValue);
            if r.Some? {
              reqs := reqs + [r.value];
            }
          }
        }
      }
      assert entries[..|entries|] == entries;
    }

    /** `checkSearchAction`: local search exactly when a filter is checked. */
    method CheckSearchAction()
      modifies this`formLocal
      ensures formLocal <==> |searchFilters| > 0
    {
      formLocal := |searchFilters| > 0;
    }

    /** A filter checkbox changed. */
    method FilterChanged(checked: seq<string>)
      modifies this`searchFilters, this`formLocal
      ensures searchFilters == checked && (formLocal <==> |checked| > 0)
    {
      searchFilters := checked;
      CheckSearchAction();
    }

    /**
     * The search form's `submit`: an empty query focuses the field and stops;
     * with a filter checked the results refresh in place; otherwise the
     * browser submits natively to the form's current action, which is the
     * local one exactly when `formLocal` holds.
     */
    method Submit(checked: seq<string>, searchValue: string)
      returns (native: bool, req: Option<LoadRequest>)
      requires Valid() && kind == SearchList
      modifies this`isRefresh, this`page, this`content, this`focused, this`contentShown, this`buttonVisible,
               this`urlParams, this`searchFilters, this`loading
      ensures Valid()
      ensures searchValue == "" ==> !native && req.None? && unchanged(this)
      ensures searchValue != "" && |old(searchFilters)| == 0 ==> native && req.None? && unchanged(this)
      ensures native ==> formLocal == old(formLocal)
      ensures searchValue != "" && |old(searchFilters)| > 0 ==>
        && !native && isRefresh && page == Some(1) && contentShown
        && content == (if pagination == Pages then old(content) else [])
        && focused == (if pagination == Pages then old(focused) else None)
        && buttonVisible == (if pagination != Pages then hasButton else old(buttonVisible))
        && urlParams == RefreshedUrl(SearchList, pagination, old(urlParams), old(searchFilters), searchValue)
        && searchFilters == checked
        && loading == (old(loading) || pagination == More)
        && req.Some? && req.value.page == 1 && req.value.isRefresh && req.value.pagination == pagination
        && req.value.filters == Some(checked) && req.value.search == Some(searchValue)
        && req.value.base == paginationBase + (if urlParams == [] then [] else "&" + QueryString(urlParams))
    {
      if searchValue == "" {
        return false, None;
      }
      if |searchFilters| > 0 {
        req := Refresh(checked, searchValue);
        return false, req;
      }
      return true, None;
    }
  }

  /** The number of intersecting entries. */
  function Hits(entries: seq<bool>): nat
  {
    if entries == [] then 0 else Hits(entries[..|entries| - 1]) + (if entries[|entries| - 1] then 1 else 0)
  }

  // ---------------------------------------------------------------- client and server agree

  /**
   * The handlers read back what the script posts: the requested page, the
   * refresh flag, the mode, a positive per-page count and, for the search,
   * its checked filters.
   */
  lemma ServerReadsLoadRequest(r: LoadRequest, req: Request, getKey: string, perPage: int, pagination: string, link: string)
    requires req.post == PostOf(r)
    requires r.page >= 1
    ensures var p := RequestParams(req, getKey, perPage, pagination, link);
      && p.page == Some(r.page)
      && p.isRefresh == r.isRefresh
      && p.pagination == ModeName(r.pagination)
      && (r.perPage.Some? && r.perPage.value >= 1 ==> p.perPage == r.perPage)
  {
    PostedFields(r);
    ReadsPositive(req.post, "page", r.page);
    ReadsFlag(req.post, "is_refresh", r.isRefresh);
    assert ModeName(r.pagination) != "" && ModeName(r.pagination) != "0";
    if r.perPage.Some? && r.perPage.value >= 1 {
      ReadsPositive(req.post, "per_page", r.perPage.value);
    }
  }

  /** A posted positive number is posted, and reads back as itself. */
  lemma ReadsPositive(post: map<string, string>, key: string, n: int)
    requires n >= 1 && key in post && post[key] == IntToString(n)
    ensures !EmptyString(post[key]) && FilterInt(post[key]) == Some(n)
  {
    PositiveNotEmpty(n);
    FilterIntOfNatToString(n);
  }

  /** A posted flag is posted, and reads back as itself. */
  lemma ReadsFlag(post: map<string, string>, key: string, b: bool)
    requires key in post && post[key] == BoolToString(b)
    ensures !EmptyString(post[key]) && FilterBool(post[key]) == b
  {
    FilterBoolOfBoolToString(b);
  }

  /** The posted values of the fields every load sends. */
  lemma PostedFields(r: LoadRequest)
    ensures var post := PostOf(r);
      && "page" in post && post["page"] == IntToString(r.page)
      && "per_page" in post && post["per_page"] == (if r.perPage.Some? then IntToString(r.perPage.value) else "undefined")
      && "is_refresh" in post && post["is_refresh"] == BoolToString(r.isRefresh)
      && "pagination" in post && post["pagination"] == ModeName(r.pagination)
      && (r.filters.Some? ==> "filters" in post && post["filters"] == Implode(',', r.filters.value))
  {
  }

  lemma PositiveNotEmpty(n: nat)
    requires n >= 1
    ensures !EmptyString(NatToString(n))
  {
    var s := NatToString(n);
    assert s[0] != '0';
  }

  /** Checked filters (no commas in a value, not a lone `0`) arrive as the same list. */
  lemma ServerReadsFilters(r: LoadRequest, req: Request)
    requires req.post == PostOf(r)
    requires r.filters.Some? && |r.filters.value| >= 1
    requires forall k :: 0 <= k < |r.filters.value| ==> ',' !in r.filters.value[k]
    requires !EmptyString(Implode(',', r.filters.value))
    ensures RequestFilters(req) == r.filters.value
  {
    ExplodeImplode(',', r.filters.value);
  }
}
