/**
 * Network settings and the site search index (`Folio_Community_Settings`):
 * the stored options, `validate_settings`, the community post type's admin
 * flags and list-table filters, and the indexer that keeps one row per site
 * in the `folio_sites_search` table as sites are created, changed and deleted.
 */
module Settings {
  import opened Php

  /** Post type key of mirrored posts on the community site. */
  const COMMUNITY_POST_TYPE := "folio_community"

  /** Retention limit used when `activity_limit` was never saved. */
  const DEFAULT_ACTIVITY_LIMIT := 10000

  // ---------------------------------------------------------------- stored options

  /**
   * The network option `folio_community_settings` as read back with
   * `get_site_option`; `None` is a key that is not set.
   */
  datatype SiteOptions = SiteOptions(
    communitySite: Option<int>,
    activityLimit: Option<int>,
    blacklist: Option<seq<string>>)

  /** `isset($options['community_site']) ? absint(...) : 0` */
  function CommunityId(o: SiteOptions): (id: nat)
    ensures o.communitySite.None? ==> id == 0
    ensures o.communitySite.Some? && o.communitySite.value >= 0 ==> id == o.communitySite.value
  {
    if o.communitySite.Some? then Abs(o.communitySite.value) else 0
  }

  /** `isset($options['activity_limit']) ? absint(...) : 10000` */
  function ActivityLimit(o: SiteOptions): (limit: nat)
    ensures o.activityLimit.None? ==> limit == DEFAULT_ACTIVITY_LIMIT
    ensures o.activityLimit.Some? && o.activityLimit.value >= 0 ==> limit == o.activityLimit.value
  {
    if o.activityLimit.Some? then Abs(o.activityLimit.value) else DEFAULT_ACTIVITY_LIMIT
  }

  /** `isset($options['blacklist']) ? $options['blacklist'] : []` */
  function Blacklist(o: SiteOptions): seq<string>
  {
    if o.blacklist.Some? then o.blacklist.value else []
  }

  // ---------------------------------------------------------------- validate_settings

  /** The submitted settings form; `None` is a field that was not posted. */
  datatype SettingsInput = SettingsInput(
    communitySite: Option<string>,
    activityLimit: Option<string>,
    blacklist: Option<string>)

  /** What `validate_settings` stores. */
  datatype ValidSettings = ValidSettings(communitySite: nat, activityLimit: nat, blacklist: seq<string>)

  /** `absint` of a form field; a missing field reads as `null`, which is 0. */
  function AbsIntField(f: Option<string>): nat
  {
    if f.Some? then AbsInt(f.value) else 0
  }

  /** Every part trimmed, as `array_map( 'trim', ... )` does. */
  function TrimAll(parts: seq<string>): (r: seq<string>)
    ensures |r| == |parts|
    ensures forall k :: 0 <= k < |parts| ==> r[k] == Trim(parts[k])
    ensures forall k :: 0 <= k < |r| ==> Trim(r[k]) == r[k]
  {
    var r := seq(|parts|, k requires 0 <= k < |parts| => Trim(parts[k]));
    assert forall k :: 0 <= k < |r| ==> Trim(r[k]) == r[k] by {
      forall k | 0 <= k < |r| ensures Trim(r[k]) == r[k] {
        TrimTwice(parts[k]);
      }
    }
    r
  }

  lemma TrimTwice(s: string)
    ensures Trim(Trim(s)) == Trim(s)
  {
    TrimKeepsInner(Trim(s));
  }

  /** The blacklist field: trimmed, split on commas, each entry trimmed. */
  function BlacklistEntries(field: Option<string>): (entries: seq<string>)
  {
    var b := if field.Some? then Trim(field.value) else "";
    if EmptyString(b) then [] else TrimAll(Explode(',', b))
  }

  /**
   * `validate_settings`: the ids are absolute integers, a missing field is 0,
   * and the blacklist is a list of trimmed entries without commas: one per
   * comma-separated part of the trimmed field, and none for a blank field.
   */
  function ValidateSettings(input: SettingsInput): (out: ValidSettings)
    ensures input.communitySite.None? ==> out.communitySite == 0
    ensures input.communitySite.Some? ==> out.communitySite == AbsInt(input.communitySite.value)
    ensures input.activityLimit.None? ==> out.activityLimit == 0
    ensures input.activityLimit.Some? ==> out.activityLimit == AbsInt(input.activityLimit.value)
    ensures input.blacklist.None? ==> out.blacklist == []
    ensures input.blacklist.Some? && EmptyString(Trim(input.blacklist.value)) ==> out.blacklist == []
    ensures input.blacklist.Some? && !EmptyString(Trim(input.blacklist.value)) ==>
      var parts := Explode(',', Trim(input.blacklist.value));
      |out.blacklist| == |parts| &&
      forall k :: 0 <= k < |parts| ==> out.blacklist[k] == Trim(parts[k])
    ensures forall k :: 0 <= k < |out.blacklist| ==>
      ',' !in out.blacklist[k] && Trim(out.blacklist[k]) == out.blacklist[k]
  {
    ValidSettings(AbsIntField(input.communitySite), AbsIntField(input.activityLimit),
                  BlacklistEntries(input.blacklist))
  }

  /** The stored options after saving validated settings. */
  function StoredOptions(v: ValidSettings): SiteOptions
  {
    SiteOptions(Some(v.communitySite), Some(v.activityLimit), Some(v.blacklist))
  }

  /** A blacklist entry the settings form can carry through unchanged. */
  predicate PlainEntry(e: string)
  {
    e != [] && ',' !in e && e[0] !in TRIM_CHARS && e[|e| - 1] !in TRIM_CHARS
  }

  lemma {:induction false} ImplodeTrimmed(parts: seq<string>)
    requires |parts| >= 1
    requires forall k :: 0 <= k < |parts| ==> PlainEntry(parts[k])
    ensures var s := Implode(',', parts);
      s != [] && s[0] !in TRIM_CHARS && s[|s| - 1] !in TRIM_CHARS
  {
    assert PlainEntry(parts[0]);
    if |parts| > 1 {
      var rest := Implode(',', parts[1..]);
      ImplodeTrimmed(parts[1..]);
      var s := parts[0] + [','] + rest;
      assert Implode(',', parts) == s;
      assert s[0] == parts[0][0];
      assert s[|s| - 1] == rest[|rest| - 1];
    }
  }

  lemma ImplodeNotEmpty(list: seq<string>)
    requires |list| >= 1 && list != ["0"]
    requires forall k :: 0 <= k < |list| ==> PlainEntry(list[k])
    ensures !EmptyString(Implode(',', list))
  {
    var s := Implode(',', list);
    if |list| == 1 {
      assert s == list[0];
      assert PlainEntry(list[0]);
      assert list == [list[0]];
    } else {
      assert PlainEntry(list[0]);
      assert s == list[0] + [','] + Implode(',', list[1..]);
      assert s[|list[0]|] == ',';
    }
  }

  lemma TrimAllPlain(list: seq<string>)
    requires forall k :: 0 <= k < |list| ==> PlainEntry(list[k])
    ensures TrimAll(list) == list
  {
    var entries := TrimAll(list);
    forall k | 0 <= k < |list| ensures entries[k] == list[k] {
      assert PlainEntry(list[k]);
      TrimKeepsInner(list[k]);
    }
  }

  /**
   * The settings page shows the stored blacklist joined with commas; saving
   * that text again yields the same list.
   */
  lemma BlacklistRoundTrip(list: seq<string>)
    requires |list| >= 1 && list != ["0"]
    requires forall k :: 0 <= k < |list| ==> PlainEntry(list[k])
    ensures BlacklistEntries(Some(Implode(',', list))) == list
  {
    var s := Implode(',', list);
    ImplodeTrimmed(list);
    TrimKeepsInner(s);
    ImplodeNotEmpty(list);
    assert forall k :: 0 <= k < |list| ==> ',' !in list[k];
    ExplodeImplode(',', list);
    TrimAllPlain(list);
  }

  /**
   * Saving the settings form as the settings page fills it in from stored
   * settings stores the same settings again.
   */
  lemma SettingsFormRoundTrip(v: ValidSettings)
    requires v.blacklist == [] ||
      (v.blacklist != ["0"] && forall k :: 0 <= k < |v.blacklist| ==> PlainEntry(v.blacklist[k]))
    ensures ValidateSettings(SettingsInput(
      Some(NatToString(v.communitySite)),
      Some(NatToString(v.activityLimit)),
      Some(Implode(',', v.blacklist)))) == v
  {
    IntValOfNatToString(v.communitySite);
    IntValOfNatToString(v.activityLimit);
    if v.blacklist != [] {
      BlacklistRoundTrip(v.blacklist);
    } else {
      assert Trim(Implode(',', v.blacklist)) == [];
    }
  }

  // ---------------------------------------------------------------- post type admin

  /** The boolean arguments `register_cpt` passes to `register_post_type`. */
  datatype PostTypeFlags = PostTypeFlags(
    rewrite: bool,
    isPublic: bool,
    publiclyQueryable: bool,
    excludeFromSearch: bool,
    showUi: bool,
    showInMenu: bool,
    showInNavMenus: bool,
    showInRest: bool,
    queryVar: bool,
    hasArchive: bool,
    canExport: bool)

  /**
   * `register_cpt`: the community post type is registered only once a
   * community site is configured, and its admin UI shows only on that site.
   */
  function RegisterPostType(o: SiteOptions, blogId: nat): (flags: Option<PostTypeFlags>)
    ensures flags.Some? <==> CommunityId(o) > 0
    ensures flags.Some? ==> flags.value.isPublic && flags.value.publiclyQueryable && flags.value.showInRest
    ensures flags.Some? ==> !flags.value.excludeFromSearch && !flags.value.showInNavMenus
    ensures flags.Some? ==> flags.value.queryVar && !flags.value.rewrite
    ensures flags.Some? ==> !flags.value.hasArchive && !flags.value.canExport
    ensures flags.Some? ==> (flags.value.showUi <==> blogId == CommunityId(o))
    ensures flags.Some? ==> (flags.value.showInMenu <==> blogId == CommunityId(o))
  {
    var commId := CommunityId(o);
    if commId > 0 then
      Some(PostTypeFlags(
        rewrite := false, isPublic := true, publiclyQueryable := true, excludeFromSearch := false,
        showUi := blogId == commId, showInMenu := blogId == commId, showInNavMenus := false,
        showInRest := true, queryVar := true, hasArchive := false, canExport := false))
    else None
  }

  /** Row actions removed from community posts in the posts list. */
  const REMOVED_ROW_ACTIONS: set<string> := {"edit", "view", "inline hide-if-no-js"}

  /** `remove_community_row_actions` for a row of the given post type. */
  method RemoveCommunityRowActions(actions: map<string, string>, postType: string)
    returns (r: map<string, string>)
    ensures postType == COMMUNITY_POST_TYPE ==>
      forall k :: k in r <==> k in actions && k !in REMOVED_ROW_ACTIONS
    ensures postType != COMMUNITY_POST_TYPE ==> r == actions
    ensures forall k :: k in r ==> k in actions && r[k] == actions[k]
  {
    r := actions;
    if postType == COMMUNITY_POST_TYPE {
      r := r - {"edit"};
      r := r - {"view"};
      r := r - {"inline hide-if-no-js"};
    }
  }

  /** `remove_community_bulk_actions`: only the bulk `edit` action goes. */
  method RemoveCommunityBulkActions(actions: map<string, string>) returns (r: map<string, string>)
    ensures forall k :: k in r <==> k in actions && k != "edit"
    ensures forall k :: k in r ==> r[k] == actions[k]
  {
    r := actions;
    r := r - {"edit"};
  }

  // ---------------------------------------------------------------- site index

  /** One row of the `folio_sites_search` table. */
  datatype IndexRow = IndexRow(
    id: nat,
    blogId: nat,
    name: string,
    desc: string,
    url: string,
    personal: nat,
    semester: Option<nat>)

  /** What the indexer reads about one site while switched to it. */
  datatype SiteInfo = SiteInfo(
    blogId: nat,
    name: string,
    description: string,
    url: string,
    isStudentBlog: bool,
    classroomSemester: Option<nat>)

  /** The table's rows in storage order, and the next AUTO_INCREMENT id. */
  datatype Table = Table(rows: seq<IndexRow>, nextId: nat)

  /**
   * The table's invariant: ids are positive, distinct and below the
   * counter, and no two rows index the same site.
   */
  ghost predicate ValidTable(t: Table)
  {
    && t.nextId >= 1
    && (forall k :: 0 <= k < |t.rows| ==> 0 < t.rows[k].id < t.nextId)
    && (forall k, l :: 0 <= k < l < |t.rows| ==> t.rows[k].id != t.rows[l].id)
    && UniqueBlogIds(t.rows)
  }

  ghost predicate UniqueBlogIds(rows: seq<IndexRow>)
  {
    forall k, l :: 0 <= k < l < |rows| ==> rows[k].blogId != rows[l].blogId
  }

  /** `get_site_search_id`: the id of the first row for the site, or NULL. */
  function SearchId(rows: seq<IndexRow>, blogId: nat): (r: Option<nat>)
    ensures r.None? <==> forall k :: 0 <= k < |rows| ==> rows[k].blogId != blogId
    ensures r.Some? ==> exists k :: 0 <= k < |rows| && rows[k].blogId == blogId && rows[k].id == r.value
  {
    if rows == [] then None
    else if rows[0].blogId == blogId then Some(rows[0].id)
    else
      var r := SearchId(rows[1..], blogId);
      assert forall k :: 1 <= k < |rows| ==> rows[k] == rows[1..][k - 1];
      r
  }

  /** The row `index_sites` writes for a site, under the given id. */
  function RowFor(id: nat, site: SiteInfo): (row: IndexRow)
    ensures row.personal == 1 <==> site.isStudentBlog
    ensures row.personal <= 1
    ensures site.isStudentBlog ==> row.semester.None?
    ensures !site.isStudentBlog ==> row.semester == site.classroomSemester
  {
    IndexRow(id, site.blogId, site.name, site.description, site.url,
             if site.isStudentBlog then 1 else 0,
             if !site.isStudentBlog then site.classroomSemester else None)
  }

  /** `UPDATE … WHERE id = %d AND blog_id = %d` */
  function UpdateWhere(rows: seq<IndexRow>, id: nat, site: SiteInfo): (r: seq<IndexRow>)
    ensures |r| == |rows|
    ensures forall k :: 0 <= k < |rows| ==>
      r[k] == if rows[k].id == id && rows[k].blogId == site.blogId then RowFor(id, site) else rows[k]
  {
    seq(|rows|, k requires 0 <= k < |rows| =>
      if rows[k].id == id && rows[k].blogId == site.blogId then RowFor(id, site) else rows[k])
  }

  /** One pass of the `index_sites` loop body for one site. */
  function IndexOne(t: Table, site: SiteInfo): Table
  {
    if EmptyString(site.url) then t
    else match SearchId(t.rows, site.blogId)
      case None => Table(t.rows + [RowFor(t.nextId, site)], t.nextId + 1)
      case Some(id) => Table(UpdateWhere(t.rows, id, site), t.nextId)
  }

  /** The loop over all selected sites, in order. */
  function IndexAll(t: Table, sites: seq<SiteInfo>): Table
  {
    if sites == [] then t else IndexOne(IndexAll(t, sites[..|sites| - 1]), sites[|sites| - 1])
  }

  /** `get_sites`: every site for blog id 0, otherwise only the named one. */
  function SelectSites(network: seq<SiteInfo>, blogId: nat): (sites: seq<SiteInfo>)
    ensures blogId == 0 ==> sites == network
    ensures blogId != 0 ==> forall k :: 0 <= k < |sites| ==> sites[k].blogId == blogId
    ensures blogId != 0 ==> forall s :: s in network && s.blogId == blogId ==> s in sites
    ensures blogId != 0 ==> forall s :: multiset(sites)[s] == (if s.blogId == blogId then multiset(network)[s] else 0)
  {
    if blogId == 0 then network
    else if network == [] then []
    else
      assert network == [network[0]] + network[1..];
      assert multiset(network) == multiset{network[0]} + multiset(network[1..]);
      (if network[0].blogId == blogId then [network[0]] else []) + SelectSites(network[1..], blogId)
  }

  /** The options whose change makes `updated_option` reindex the current site. */
  const REINDEX_OPTIONS: set<string> := {"home", "siteurl", "blogtitle", "blogname", "blogdescription"}

  predicate IsReindexOption(name: string)
  {
    name in REINDEX_OPTIONS
  }

  /** Rows kept by `deleted_site`: every row of another site, in order. */
  function RemoveBlog(rows: seq<IndexRow>, blogId: nat): (r: seq<IndexRow>)
    ensures forall row :: row in r <==> row in rows && row.blogId != blogId
    ensures |r| <= |rows|
  {
    if rows == [] then []
    else
      var last := rows[|rows| - 1];
      assert rows == rows[..|rows| - 1] + [last];
      RemoveBlog(rows[..|rows| - 1], blogId) + (if last.blogId != blogId then [last] else [])
  }

  // ---------------------------------------------------------------- index lemmas

  lemma SearchIdFindsUnique(rows: seq<IndexRow>, blogId: nat, k: nat)
    requires UniqueBlogIds(rows)
    requires k < |rows| && rows[k].blogId == blogId
    ensures SearchId(rows, blogId) == Some(rows[k].id)
  {
    var r := SearchId(rows, blogId);
    var j :| 0 <= j < |rows| && rows[j].blogId == blogId && rows[j].id == r.value;
    assert j == k;
  }

  /** Appending a row for a site not yet indexed keeps the invariant. */
  lemma InsertValid(t: Table, site: SiteInfo)
    requires ValidTable(t)
    requires forall k :: 0 <= k < |t.rows| ==> t.rows[k].blogId != site.blogId
    ensures ValidTable(Table(t.rows + [RowFor(t.nextId, site)], t.nextId + 1))
  {
    var r := t.rows + [RowFor(t.nextId, site)];
    forall k | 0 <= k < |r| ensures 0 < r[k].id < t.nextId + 1 {
      if k < |t.rows| { assert r[k] == t.rows[k]; }
    }
    forall k, l | 0 <= k < l < |r| ensures r[k].id != r[l].id && r[k].blogId != r[l].blogId {
      assert r[k] == t.rows[k];
      if l < |t.rows| { assert r[l] == t.rows[l]; }
    }
  }

  /** An in-place update keeps every row's id and blog id, so the invariant. */
  lemma UpdateValid(t: Table, id: nat, site: SiteInfo)
    requires ValidTable(t)
    ensures ValidTable(Table(UpdateWhere(t.rows, id, site), t.nextId))
  {
    var r := UpdateWhere(t.rows, id, site);
    assert forall k :: 0 <= k < |r| ==> r[k].id == t.rows[k].id && r[k].blogId == t.rows[k].blogId;
  }

  /** Indexing a site keeps the table's invariant. */
  lemma IndexOneValid(t: Table, site: SiteInfo)
    requires ValidTable(t)
    ensures ValidTable(IndexOne(t, site))
  {
    if !EmptyString(site.url) {
      var sid := SearchId(t.rows, site.blogId);
      if sid.None? {
        InsertValid(t, site);
      } else {
        UpdateValid(t, sid.value, site);
      }
    }
  }

  /** Updating the same rows twice with the same site is updating them once. */
  lemma UpdateWhereTwice(rows: seq<IndexRow>, id: nat, site: SiteInfo)
    ensures UpdateWhere(UpdateWhere(rows, id, site), id, site) == UpdateWhere(rows, id, site)
  {
    var r1 := UpdateWhere(rows, id, site);
    var r2 := UpdateWhere(r1, id, site);
    forall k | 0 <= k < |rows| ensures r2[k] == r1[k] {}
  }

  /** The row a site was just given is its only row, and other rows stay. */
  lemma InsertContents(t: Table, site: SiteInfo)
    requires ValidTable(t) && !EmptyString(site.url)
    requires forall k :: 0 <= k < |t.rows| ==> t.rows[k].blogId != site.blogId
    ensures var t' := IndexOne(t, site);
      && t'.rows == t.rows + [RowFor(t.nextId, site)]
      && t'.nextId == t.nextId + 1
  {
    assert SearchId(t.rows, site.blogId).None?;
  }

  lemma UpdateContents(t: Table, site: SiteInfo, j: nat)
    requires ValidTable(t) && !EmptyString(site.url)
    requires j < |t.rows| && t.rows[j].blogId == site.blogId
    ensures var t' := IndexOne(t, site);
      && |t'.rows| == |t.rows| && t'.nextId == t.nextId
      && t'.rows[j] == RowFor(t.rows[j].id, site)
      && (forall k :: 0 <= k < |t.rows| && k != j ==> t'.rows[k] == t.rows[k])
  {
    SearchIdFindsUnique(t.rows, site.blogId, j);
    var r := UpdateWhere(t.rows, t.rows[j].id, site);
    assert IndexOne(t, site).rows == r;
    forall k | 0 <= k < |t.rows| && k != j ensures r[k] == t.rows[k] {
      assert t.rows[k].blogId != site.blogId;
    }
  }

  /**
   * `after` holds a row with what was read from the site, every row of the
   * site holds that, and the other sites' rows are those of `before`.
   */
  ghost predicate IndexedFrom(before: Table, after: Table, site: SiteInfo)
  {
    && (exists k :: 0 <= k < |after.rows| && after.rows[k] == RowFor(after.rows[k].id, site))
    && (forall k :: 0 <= k < |after.rows| && after.rows[k].blogId == site.blogId ==>
          after.rows[k] == RowFor(after.rows[k].id, site))
    && (forall row :: row in before.rows && row.blogId != site.blogId ==> row in after.rows)
    && (forall row :: row in after.rows && row.blogId != site.blogId ==> row in before.rows)
  }

  /**
   * After indexing a site with a URL there is exactly one row for it, holding
   * what was read from the site, and every other site's row is as it was; a
   * site without URL leaves the table as it was.
   */
  lemma IndexOneContents(t: Table, site: SiteInfo)
    requires ValidTable(t)
    ensures EmptyString(site.url) ==> IndexOne(t, site) == t
    ensures !EmptyString(site.url) ==>
      var t' := IndexOne(t, site);
      && (exists k :: 0 <= k < |t'.rows| && t'.rows[k] == RowFor(t'.rows[k].id, site))
      && (forall k :: 0 <= k < |t'.rows| && t'.rows[k].blogId == site.blogId ==>
            t'.rows[k] == RowFor(t'.rows[k].id, site))
      && (forall row :: row in t.rows && row.blogId != site.blogId ==> row in t'.rows)
      && (forall row :: row in t'.rows && row.blogId != site.blogId ==> row in t.rows)
  {
    if !EmptyString(site.url) {
      if j :| 0 <= j < |t.rows| && t.rows[j].blogId == site.blogId {
        UpdatedIndexedFrom(t, site, j);
      } else {
        InsertedIndexedFrom(t, site);
      }
      assert IndexedFrom(t, IndexOne(t, site), site);
    }
  }

  lemma UpdatedIndexedFrom(t: Table, site: SiteInfo, j: nat)
    requires ValidTable(t) && !EmptyString(site.url)
    requires j < |t.rows| && t.rows[j].blogId == site.blogId
    ensures IndexedFrom(t, IndexOne(t, site), site)
  {
    var t' := IndexOne(t, site);
    IndexOneValid(t, site);
    UpdateContents(t, site, j);
    assert t'.rows[j] == RowFor(t'.rows[j].id, site);
    forall k | 0 <= k < |t'.rows| && t'.rows[k].blogId == site.blogId
      ensures t'.rows[k] == RowFor(t'.rows[k].id, site)
    {
      assert k == j;
    }
    forall row | row in t.rows && row.blogId != site.blogId ensures row in t'.rows {
      var k :| 0 <= k < |t.rows| && t.rows[k] == row;
      assert t'.rows[k] == row;
    }
    forall row | row in t'.rows && row.blogId != site.blogId ensures row in t.rows {
      var k :| 0 <= k < |t'.rows| && t'.rows[k] == row;
      assert k != j;
      assert t.rows[k] == row;
    }
  }

  lemma InsertedIndexedFrom(t: Table, site: SiteInfo)
    requires ValidTable(t) && !EmptyString(site.url)
    requires forall k :: 0 <= k < |t.rows| ==> t.rows[k].blogId != site.blogId
    ensures IndexedFrom(t, IndexOne(t, site), site)
  {
    var t' := IndexOne(t, site);
    InsertContents(t, site);
    var n := |t.rows|;
    assert t'.rows[n] == RowFor(t'.rows[n].id, site);
    assert forall k :: 0 <= k < n ==> t'.rows[k] == t.rows[k];
    assert forall k :: 0 <= k < |t'.rows| && t'.rows[k].blogId == site.blogId ==> k == n;
  }

  /** Reindexing an unchanged site changes nothing: no duplicate row, same id. */
  lemma IndexOneIdempotent(t: Table, site: SiteInfo)
    requires ValidTable(t)
    ensures IndexOne(IndexOne(t, site), site) == IndexOne(t, site)
  {
    if !EmptyString(site.url) {
      if j :| 0 <= j < |t.rows| && t.rows[j].blogId == site.blogId {
        UpdatedIdempotent(t, site, j);
      } else {
        InsertedIdempotent(t, site);
      }
    }
  }

  /** Reindexing a site that already had a row rewrites the same row again. */
  lemma UpdatedIdempotent(t: Table, site: SiteInfo, j: nat)
    requires ValidTable(t) && !EmptyString(site.url) && j < |t.rows| && t.rows[j].blogId == site.blogId
    ensures IndexOne(IndexOne(t, site), site) == IndexOne(t, site)
  {
    var t1 := IndexOne(t, site);
    IndexOneValid(t, site);
    UpdateContents(t, site, j);
    SearchIdFindsUnique(t.rows, site.blogId, j);
    SearchIdFindsUnique(t1.rows, site.blogId, j);
    UpdateWhereTwice(t.rows, t.rows[j].id, site);
  }

  /** Reindexing a site just inserted rewrites its fresh row with the same fields. */
  lemma InsertedIdempotent(t: Table, site: SiteInfo)
    requires ValidTable(t) && !EmptyString(site.url)
    requires forall k :: 0 <= k < |t.rows| ==> t.rows[k].blogId != site.blogId
    ensures IndexOne(IndexOne(t, site), site) == IndexOne(t, site)
  {
    var t1 := IndexOne(t, site);
    IndexOneValid(t, site);
    InsertContents(t, site);
    var n := |t.rows|;
    SearchIdFindsUnique(t1.rows, site.blogId, n);
    var r2 := UpdateWhere(t1.rows, t.nextId, site);
    assert IndexOne(t1, site).rows == r2;
    forall k | 0 <= k < |t1.rows| ensures r2[k] == t1.rows[k] {
      if k < n {
        assert t1.rows[k] == t.rows[k];
      }
    }
    assert r2 == t1.rows;
  }

  /** The loop's next step indexes the next site. */
  lemma IndexAllStep(t: Table, sites: seq<SiteInfo>, i: nat)
    requires i < |sites|
    ensures IndexAll(t, sites[..i + 1]) == IndexOne(IndexAll(t, sites[..i]), sites[i])
  {
    assert sites[..i + 1][..i] == sites[..i];
  }

  lemma {:induction false} IndexAllValid(t: Table, sites: seq<SiteInfo>)
    requires ValidTable(t)
    ensures ValidTable(IndexAll(t, sites))
  {
    if sites != [] {
      IndexAllValid(t, sites[..|sites| - 1]);
      IndexOneValid(IndexAll(t, sites[..|sites| - 1]), sites[|sites| - 1]);
    }
  }

  // ---------------------------------------------------------------- the index table

  /** The `folio_sites_search` table and the handlers that maintain it. */
  class SiteIndex {
    var rows: seq<IndexRow>
    var nextId: nat

    ghost predicate Valid()
      reads this
    {
      ValidTable(Table(rows, nextId))
    }

    /** The table as `upgrade_db` creates it: empty, AUTO_INCREMENT at 1. */
    constructor ()
      ensures Valid() && rows == [] && nextId == 1
    {
      rows := [];
      nextId := 1;
    }

    /**
     * `index_sites($blog_id)`: insert or update the row of every selected
     * site that has a URL; outside a multisite network it does nothing.
     */
    method IndexSites(blogId: nat, network: seq<SiteInfo>, multisite: bool)
      requires Valid()
      modifies this
      ensures Valid()
      ensures !multisite ==> rows == old(rows) && nextId == old(nextId)
      ensures multisite ==>
        Table(rows, nextId) == IndexAll(Table(old(rows), old(nextId)), SelectSites(network, blogId))
    {
      if multisite {
        var sites := SelectSites(network, blogId);
        ghost var start := Table(rows, nextId);
        for i := 0 to |sites|
          invariant Table(rows, nextId) == IndexAll(start, sites[..i])
        {
          IndexAllStep(start, sites, i);
          IndexOneSite(sites[i]);
        }
        assert sites[..|sites|] == sites;
        IndexAllValid(start, sites);
      }
    }

    /** The loop body: one site's insert or update. */
    method IndexOneSite(site: SiteInfo)
      modifies this
      ensures Table(rows, nextId) == IndexOne(Table(old(rows), old(nextId)), site)
    {
      var searchId := SearchId(rows, site.blogId);
      if !EmptyString(site.url) {
        if searchId.None? {
          rows := rows + [RowFor(nextId, site)];
          nextId := nextId + 1;
        } else {
          rows := UpdateWhere(rows, searchId.value, site);
        }
      }
    }

    /** `initialized_site`: index the new site. */
    method InitializedSite(blogId: nat, network: seq<SiteInfo>)
      requires Valid() && blogId > 0
      modifies this
      ensures Valid()
      ensures Table(rows, nextId) == IndexAll(Table(old(rows), old(nextId)), SelectSites(network, blogId))
    {
      IndexSites(blogId, network, true);
    }

    /** `updated_site`: reindex the changed site. */
    method UpdatedSite(blogId: nat, network: seq<SiteInfo>)
      requires Valid() && blogId > 0
      modifies this
      ensures Valid()
      ensures Table(rows, nextId) == IndexAll(Table(old(rows), old(nextId)), SelectSites(network, blogId))
    {
      IndexSites(blogId, network, true);
    }

    /** `updated_option`: reindex the current site for the listed options only. */
    method UpdatedOption(optionName: string, currentBlogId: nat, network: seq<SiteInfo>)
      requires Valid() && currentBlogId > 0
      modifies this
      ensures Valid()
      ensures !IsReindexOption(optionName) ==> rows == old(rows) && nextId == old(nextId)
      ensures IsReindexOption(optionName) ==>
        Table(rows, nextId) == IndexAll(Table(old(rows), old(nextId)), SelectSites(network, currentBlogId))
    {
      if optionName in REINDEX_OPTIONS {
        IndexSites(currentBlogId, network, true);
      }
    }

    /** `deleted_site`: `DELETE … WHERE blog_id = %d`. */
    method DeletedSite(blogId: nat)
      requires Valid()
      modifies this
      ensures Valid()
      ensures rows == RemoveBlog(old(rows), blogId) && nextId == old(nextId)
    {
      var kept: seq<IndexRow> := [];
      for i := 0 to |rows|
        invariant kept == RemoveBlog(rows[..i], blogId)
      {
        assert rows[..i + 1][..i] == rows[..i];
        if rows[i].blogId != blogId {
          kept := kept + [rows[i]];
        }
      }
      assert rows[..|rows|] == rows;
      RemoveBlogValid(rows, nextId, blogId);
      rows := kept;
    }
  }

  lemma ValidInit(rows: seq<IndexRow>, nextId: nat)
    requires ValidTable(Table(rows, nextId)) && rows != []
    ensures ValidTable(Table(rows[..|rows| - 1], nextId))
    ensures forall x :: x in rows[..|rows| - 1] ==>
      x.id != rows[|rows| - 1].id && x.blogId != rows[|rows| - 1].blogId
  {
    var init := rows[..|rows| - 1];
    assert forall k :: 0 <= k < |init| ==> init[k] == rows[k];
    forall x | x in init ensures x.id != rows[|rows| - 1].id && x.blogId != rows[|rows| - 1].blogId {
      var m :| 0 <= m < |init| && init[m] == x;
      assert rows[m] == x;
    }
  }

  lemma AppendValid(r0: seq<IndexRow>, last: IndexRow, nextId: nat)
    requires ValidTable(Table(r0, nextId)) && 0 < last.id < nextId
    requires forall k :: 0 <= k < |r0| ==> r0[k].id != last.id && r0[k].blogId != last.blogId
    ensures ValidTable(Table(r0 + [last], nextId))
  {
    var r := r0 + [last];
    forall k, l | 0 <= k < l < |r| ensures r[k].id != r[l].id && r[k].blogId != r[l].blogId {
      assert r[k] == r0[k];
      if l < |r0| { assert r[l] == r0[l]; }
    }
    forall k | 0 <= k < |r| ensures 0 < r[k].id < nextId {
      if k < |r0| { assert r[k] == r0[k]; }
    }
  }

  /** Deleting a site's rows keeps the table's invariant. */
  lemma {:induction false} RemoveBlogValid(rows: seq<IndexRow>, nextId: nat, blogId: nat)
    requires ValidTable(Table(rows, nextId))
    ensures ValidTable(Table(RemoveBlog(rows, blogId), nextId))
  {
    if rows != [] {
      var n := |rows| - 1;
      var init := rows[..n];
      var last := rows[n];
      ValidInit(rows, nextId);
      RemoveBlogValid(init, nextId, blogId);
      var r0 := RemoveBlog(init, blogId);
      if last.blogId != blogId {
        assert RemoveBlog(rows, blogId) == r0 + [last];
        forall k | 0 <= k < |r0| ensures r0[k].id != last.id && r0[k].blogId != last.blogId {
          assert r0[k] in init;
        }
        AppendValid(r0, last, nextId);
      } else {
        assert RemoveBlog(rows, blogId) == r0;
      }
    }
  }
}
