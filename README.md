# Folio Community, modelled in Dafny

Folio Community is a WordPress multisite plugin. It mirrors selected posts of
student blogs onto one community blog, keeps a flat search index of the
network's sites, and serves two shortcodes: a site search and a publications
feed. Both shortcodes page through results with a browser-side load-more
controller. This project models the plugin's core and proves properties of the
model:

- the **mirror engine** (`publications.dfy`, module `Publications`). The
  community store is a map from mirror id to a record. Class `MirrorEngine`
  holds that store plus the share meta the plugin writes. The model covers the
  save gate, the blacklist/share/visibility decision, the upsert keyed on the
  origin (post id, blog id), deletion, and the retention sweep that deletes the
  100 oldest mirrors once the published count passes the limit;
- the **settings** (`settings.dfy`, module `Settings`). This covers the site
  index (class `SiteIndex` over a row sequence), `validate_settings`, the
  row-action and bulk-action filters, and the visibility flags of the
  community post type;
- the **site query** (`sites.dfy`, module `Sites`). Class `SitesQuery` builds
  a statement from its arguments. The rows come from a pure
  filter → sort → slice over the index. The total and the page count are
  cached;
- the **shortcodes' logic** (`shortcodes.dfy`, module `Shortcodes`). This
  covers:
  - attribute normalisation;
  - request parsing of the two ajax handlers;
  - the choice between a listing, the "No results found" notice and the `'0'`
    sentinel;
  - pagination sizing and base;
  - the classroom filter of a publication card;
- the **front-end controller** (`front.dfy`, module `Front`). Class `LoadMore`
  is a state machine over its page cursor, total pages, refresh flag, mode,
  content list and button visibility. `updateUrlParam` works over a list of
  query pairs, and class `PostClock` models `refreshPostTimes` over an array of
  time stamps.

Two support modules model the library behaviour the core relies on:

- `Php` (`php.dfy`): `trim`, `explode`/`implode`, `intval`/`absint`,
  `FILTER_VALIDATE_INT`, `FILTER_VALIDATE_BOOLEAN`, `strtolower` and PHP's
  `empty()` on strings;
- `Sql` (`sql.dfy`, MySQL): `LIKE` with `esc_like` and `ORDER BY`, as a stable
  sort. The index table's text columns use the case-insensitive collation
  WordPress creates tables with, so both compare text after case folding.

Where the plugin's documentation and its code disagree, the model follows the
code. The help text of the settings page
(`classes/class-folio-community-settings.php:806-836`) gives the search
shortcode the defaults `per-page` 10 and pagination `infinite`. The code
(`classes/class-folio-community-shortcodes.php:56-62`) uses 5 and `pages`, and
`Shortcodes.ShortcodeDefaults` proves the latter. The allow-list of sort keys
spells the semester column `'sesmester'`, so ordering by `'semester'` is
ignored. The model keeps that spelling (`Sites.SemesterSpellingRejected`).

## Model

| member | source | states |
|---|---|---|
| Php.Trim | classes/class-folio-community-settings.php:481-483 | the result is the input with only leading and trailing blanks removed, and it starts and ends with a non-blank character |
| Php.TrimKeepsInner | classes/class-folio-community-settings.php:483 | a string that starts and ends with a non-blank character is left unchanged by trimming |
| Php.Explode | classes/class-folio-community-settings.php:483 | there is at least one part, and no part contains the separator |
| Php.ImplodeExplode | classes/class-folio-community-settings.php:483 | joining the parts of a split with the separator gives back the original string |
| Php.ExplodeImplode | classes/class-folio-community-shortcodes.php:331-332 | splitting a join of separator-free parts gives back the parts |
| Php.NatToString | assets/js/front.js:257-271 | the decimal rendering of a number is non-empty, all digits, with no leading zero |
| Php.IntValOfNatToString | classes/class-folio-community-shortcodes.php:323 | `intval` and `absint` read a decimal rendering back as the number |
| Php.IntValOfExponent | classes/class-folio-community-shortcodes.php:77 | `intval` reads a numeric string in exponent notation, such as `1e3`, as the number times that power of ten |
| Php.IntValDropsFraction | classes/class-folio-community-shortcodes.php:77 | `intval` reads a decimal string with a fraction, such as `7.9`, as its integer part |
| Php.FilterInt | classes/class-folio-community-shortcodes.php:324-326 | a value accepted by `FILTER_VALIDATE_INT` is the integer written in the trimmed input |
| Php.FilterIntOfNatToString | classes/class-folio-community-shortcodes.php:324-326 | `FILTER_VALIDATE_INT` accepts a decimal rendering and returns its number |
| Php.ToLower | classes/class-folio-community-shortcodes.php:315 | the length is kept, no capital A-Z is left, every other character is kept, and each capital becomes its small letter |
| Php.ToLowerIdempotent | classes/class-folio-community-shortcodes.php:315 | lower-casing twice is lower-casing once |
| Php.FilterBoolOfBoolToString | classes/class-folio-community-shortcodes.php:327 | `FILTER_VALIDATE_BOOLEAN` reads the browser's `"true"`/`"false"` back as the flag |
| Sql.EscLike | classes/class-folio-community-sites.php:107-110 | escaping never shortens the needle |
| Sql.LikeSearchIsSubstring | classes/class-folio-community-sites.php:105-111 | `LIKE '%' + esc_like(needle) + '%'` holds exactly when the needle is a substring of the text, ignoring case, in both directions |
| Sql.LexLeTotal | classes/class-folio-community-sites.php:118-125 | the string order used by `ORDER BY` is total |
| Sql.LexLeTrans | classes/class-folio-community-sites.php:118-125 | the string order used by `ORDER BY` is transitive |
| Sql.Insert | classes/class-folio-community-sites.php:118-125 | inserting into a sorted list adds exactly that element |
| Sql.SortBy | classes/class-folio-community-sites.php:118-125 | the sorted rows are a permutation of the input |
| Sql.InsertSorted | classes/class-folio-community-sites.php:118-125 | inserting into a sorted list keeps it sorted in the requested direction |
| Sql.SortBySorted | classes/class-folio-community-sites.php:118-125 | the result of the sort is ordered by the key in the requested direction |
| Settings.CommunityId | classes/class-folio-community-publications.php:50-51 | a missing community site option reads as 0, and a present non-negative one as its value |
| Settings.ActivityLimit | classes/class-folio-community-publications.php:307 | a missing activity limit defaults to 10000, and a present non-negative one is its value |
| Settings.TrimAll | classes/class-folio-community-settings.php:483 | `array_map('trim', …)` keeps the number of entries, trims each one, and leaves entries that trimming does not change further |
| Settings.ValidateSettings | classes/class-folio-community-settings.php:475-488 | ids and limits are `absint` of the field, 0 when missing; a missing or blank blacklist becomes empty; otherwise there is one entry per comma-separated part of the trimmed field, each part trimmed, with no comma and no surrounding blank |
| Settings.BlacklistRoundTrip | classes/class-folio-community-settings.php:480-487 | a stored blacklist written back as a comma list validates to the same list |
| Settings.SettingsFormRoundTrip | classes/class-folio-community-settings.php:475-488 | re-submitting the stored settings through the form validates to the same settings |
| Settings.RegisterPostType | classes/class-folio-community-settings.php:135-164 | the post type is registered exactly when a community site is set; it is public, publicly queryable, searchable, in REST and a query var, not in nav menus, without rewrite, archive or export, with the UI and menu shown only on the community blog |
| Settings.RemoveCommunityRowActions | classes/class-folio-community-settings.php:172-179 | for the community post type `edit`, `view` and `inline hide-if-no-js` are removed; other types keep every action; no value changes |
| Settings.RemoveCommunityBulkActions | classes/class-folio-community-settings.php:187-190 | exactly the `edit` key is dropped, and other values are kept |
| Settings.SearchId | classes/class-folio-community-settings.php:861-870 | the lookup finds no id exactly when no row has the blog id; otherwise it returns the id of a row with that blog id |
| Settings.RowFor | classes/class-folio-community-settings.php:642-643 | a personal blog gets `blog_personal` 1 and no semester; a classroom gets 0 and its semester |
| Settings.UpdateWhere | classes/class-folio-community-settings.php:664-687 | `UPDATE … WHERE id AND blog_id` rewrites exactly the matching rows |
| Settings.SelectSites | classes/class-folio-community-settings.php:626-632 | blog 0 selects every site of the network; blog n selects exactly the network's sites with id n, each as often as the network lists it |
| Settings.RemoveBlog | classes/class-folio-community-settings.php:768-785 | deletion keeps exactly the rows of the other blogs |
| Settings.IndexOneValid | classes/class-folio-community-settings.php:645-687 | indexing one site keeps row ids unique and below the next id, with at most one row per blog |
| Settings.IndexOneContents | classes/class-folio-community-settings.php:645-687 | a site whose URL is empty in PHP's sense (`''` or `'0'`) leaves the table unchanged; otherwise the site has a row with its current fields, and other sites' rows are untouched |
| Settings.IndexOneIdempotent | classes/class-folio-community-settings.php:645-687 | indexing the same site twice is the same as indexing it once |
| Settings.IndexAllValid | classes/class-folio-community-settings.php:619-696 | a full reindex keeps the table valid |
| Settings.SiteIndex.IndexSites | classes/class-folio-community-settings.php:619-696 | outside a multisite nothing changes; otherwise the table is the selected sites indexed in order |
| Settings.SiteIndex.IndexOneSite | classes/class-folio-community-settings.php:645-687 | the loop body inserts or updates one site's row as `IndexOne` describes |
| Settings.SiteIndex.InitializedSite | classes/class-folio-community-settings.php:752-757 | a new site is indexed on its own |
| Settings.SiteIndex.UpdatedSite | classes/class-folio-community-settings.php:735-740 | an edited site is reindexed on its own |
| Settings.SiteIndex.UpdatedOption | classes/class-folio-community-settings.php:793-798 | only `home`, `siteurl`, `blogtitle`, `blogname` and `blogdescription` reindex the current blog; other option names change nothing |
| Settings.SiteIndex.DeletedSite | classes/class-folio-community-settings.php:768-785 | the rows of the deleted blog are removed, the table stays valid and the id counter is unchanged |
| Settings.RemoveBlogValid | classes/class-folio-community-settings.php:768-785 | deleting a blog's rows keeps the table valid |
| Publications.ShareValueOfNumber | classes/class-folio-community-publications.php:53-54 | a share box posted as a decimal number reads as that number |
| Publications.DecisionUpsertIff | classes/class-folio-community-publications.php:47-90 | a save is mirrored exactly when the gate passes on a student blog with a community site, the current (saving) user's email is not blacklisted, the share box is 1 and the visibility is world or campus |
| Publications.DecisionDeleteIff | classes/class-folio-community-publications.php:63-88 | once the gate passes, a blacklisted current (saving) user, a share box other than 1 or any other visibility deletes the mirror |
| Publications.ClassroomLinksSpec | classes/class-folio-community-publications.php:169-184 | a classroom gets a label exactly when its name is non-empty, and labels come only from such classrooms |
| Publications.MirrorFields | classes/class-folio-community-publications.php:151-191 | the mirror passes on the origin's title, slug, author and status, empties content, excerpt and filtered content, has type `folio_community`, parent, menu order and comment count 0, comments and pings closed, and takes its local date and modification time from the GMT ones when those are set |
| Publications.Stored | classes/class-folio-community-publications.php:194 | what `wp_insert_post` writes as the modification time: the current local and GMT time on an update, the post date and its GMT value on an insert; every other field is kept |
| Publications.Lookup | classes/class-folio-community-publications.php:257-290 | the lookup returns a mirror of the origin pair when there is one, and nothing exactly when there is none |
| Publications.LookupUnique | classes/class-folio-community-publications.php:257-290 | in a store with one mirror per origin, the lookup returns that mirror |
| Publications.OldestFirstSpec | classes/class-folio-community-publications.php:311-344 | the batch has min(n, candidates) distinct candidates, ordered by `modified`, each older than every candidate left out |
| Publications.UpsertSpec | classes/class-folio-community-publications.php:143-210 | an upsert keeps one mirror per origin, writes the blanked copy and its meta under the found or fresh id, and changes no other mirror |
| Publications.UpsertTwice | classes/class-folio-community-publications.php:149-166 | saving the same post twice leaves one mirror with the same id |
| Publications.UnpublishSpec | classes/class-folio-community-publications.php:223-244 | after a delete the origin has no mirror, nothing is added, every other mirror stays, and a missing mirror makes it a no-op |
| Publications.ReshareGetsFreshId | classes/class-folio-community-publications.php:143-166 | sharing again after an unshare inserts under a fresh id |
| Publications.RetentionSpec | classes/class-folio-community-publications.php:303-344 | within the limit nothing is deleted; past it the min(100, candidates) oldest candidates are deleted |
| Publications.MirrorEngine.GetCommunityPostId | classes/class-folio-community-publications.php:257-290 | with no community site it finds nothing; otherwise it returns the store's mirror of the origin |
| Publications.MirrorEngine.OldestMirrors | classes/class-folio-community-publications.php:311-330 | the query returns the oldest-first candidate list |
| Publications.MirrorEngine.DeleteOldIfReachedLimit | classes/class-folio-community-publications.php:303-344 | the deleted batch is the retention batch of the old store, and exactly those mirrors are removed |
| Publications.MirrorEngine.BuildClassroomLinks | classes/class-folio-community-publications.php:169-184 | the loop builds the labels of the named classrooms in order |
| Publications.MirrorEngine.SaveCommunityPost | classes/class-folio-community-publications.php:143-210 | with no community site nothing changes; otherwise retention runs first and then the upsert |
| Publications.MirrorEngine.DeleteCommunityPost | classes/class-folio-community-publications.php:223-244 | with no community site nothing changes; otherwise the origin's mirror is deleted |
| Publications.MirrorEngine.SavedPost | classes/class-folio-community-publications.php:34-97 | a falsy post id returns false and changes nothing; otherwise the post id is returned and the decision's upsert, delete or no-op is applied along with the share meta |
| Publications.MirrorEngine.ApplyShare | classes/class-folio-community-publications.php:56-90 | the share meta is recorded, then the mirror goes when the current (saving) user is blacklisted, and otherwise the share decides |
| Publications.MirrorEngine.RecordShare | classes/class-folio-community-publications.php:61-73 | the post's share meta and the current (saving) user's share default are written |
| Publications.MirrorEngine.ShareMirror | classes/class-folio-community-publications.php:75-90 | share 1 with world or campus visibility saves the mirror; anything else deletes it |
| Publications.MirrorEngine.DeletedPost | classes/class-folio-community-publications.php:107-127 | a falsy id changes nothing; on a student blog with a community site, the current blog's mirror is deleted |
| Sites.ResolveArgs | classes/class-folio-community-sites.php:63-72 | the defaults are limit 10, page 1 and `no_found_rows` false, and given arguments override them |
| Sites.OrderFor | classes/class-folio-community-sites.php:42-54 | ordering happens only for allow-listed keys, and is descending only for lowercase `desc` |
| Sites.LimitFor | classes/class-folio-community-sites.php:127-136 | a zero limit gives no `LIMIT`; otherwise the count is the limit and the offset is (page − 1) × limit, with page 0 read as 1 |
| Sites.Where | classes/class-folio-community-sites.php:105-116 | the kept rows are exactly those meeting every condition |
| Sites.Window | classes/class-folio-community-sites.php:127-136 | no limit keeps every row; otherwise the slice from the offset has at most `count` rows, and an offset past the end gives none |
| Sites.SelectConditions | classes/class-folio-community-sites.php:105-116 | a row matches exactly when the needle is in its name, description, URL or semester, ignoring case, and its personal flag equals a given filter |
| Sites.EmptySearchMatchesAll | classes/class-folio-community-sites.php:105-111 | an empty needle matches every row |
| Sites.ExecuteRows | classes/class-folio-community-sites.php:88-160 | every returned row is a table row that meets the conditions |
| Sites.ExecuteSorted | classes/class-folio-community-sites.php:118-125 | with an order, the returned rows are sorted by that column and direction |
| Sites.PageZeroIsFirst | classes/class-folio-community-sites.php:127-136 | page 0 yields the same statement as page 1 |
| Sites.PageWindow | classes/class-folio-community-sites.php:127-136 | page p returns the rows from (p − 1) × limit of the ordered matches, at most `limit` of them |
| Sites.UnknownOrderbyKeepsTableOrder | classes/class-folio-community-sites.php:118-125 | with an unknown sort key the rows keep table order |
| Sites.SemesterSpellingRejected | classes/class-folio-community-sites.php:42-54 | `'semester'` and upper-case directions are not in the allow-lists, and `'sesmester'` is |
| Sites.CeilDivPages | classes/class-folio-community-sites.php:182-191 | the page count is the least number of pages of `limit` rows that hold the total |
| Sites.SearchPagesCoverMatches | classes/class-folio-community-sites.php:138-191 | with found rows on, the total is the number of matches, so the pages cover exactly the matches |
| Sites.SitesQuery.Query | classes/class-folio-community-sites.php:88-160 | the rows and found rows are those of the statement built from the arguments |
| Sites.SitesQuery.Prepare | classes/class-folio-community-sites.php:100-149 | the statement's conditions, order and limit are those the arguments call for |
| Sites.SitesQuery.GetTotal | classes/class-folio-community-sites.php:167-175 | the first call stores the found rows, and later calls return the cached value |
| Sites.SitesQuery.GetMaximumNumPages | classes/class-folio-community-sites.php:182-191 | the total is fetched through `get_total` (FOUND_ROWS on a first call, the cached value after); a stored page count is reused; otherwise it is ceil(total / limit) when both are positive, and unset otherwise |
| Sites.MaximumNumPagesOf | classes/class-folio-community-sites.php:182-191 | called first on a new query object, the page count is that of the query's found rows |
| Sites.SitesNumPagesCountsMatches | classes/class-folio-community-sites.php:182-191 | a counted, paged search has a page count exactly when some row matches, and its pages hold every match with no empty page |
| Shortcodes.ParseMode | classes/class-folio-community-shortcodes.php:76 | a known mode name is kept, and any other name becomes `infinite` |
| Shortcodes.ParseModeName | classes/class-folio-community-shortcodes.php:76 | every mode survives a trip through its name |
| Shortcodes.PerPage | classes/class-folio-community-shortcodes.php:77 | infinite mode uses max(10, absint(x)); the other modes use absint(x) |
| Shortcodes.PageFromGet | classes/class-folio-community-shortcodes.php:80 | the current page is at least 1, and is the query value when that is positive |
| Shortcodes.RequestPage | classes/class-folio-community-shortcodes.php:323-325 | a non-empty POST page overrides the GET page; without it `absint` of the GET page, or 1 when there is none, is used |
| Shortcodes.PostPageOverridesGet | classes/class-folio-community-shortcodes.php:323-325 | with a POST page, the GET page does not matter |
| Shortcodes.RequestFilters | classes/class-folio-community-shortcodes.php:331-332 | POST filters override GET `f`, and no filters means an empty list |
| Shortcodes.PersonalFilter | classes/class-folio-community-shortcodes.php:333 | 1 exactly for the single filter `members`, 0 exactly for one other filter, and unset exactly when there are zero or several |
| Shortcodes.EndSize | classes/class-folio-community-shortcodes.php:625-632 | the end size is 3 exactly near either end, except at page 3 and at total − 2, and is 1 otherwise |
| Shortcodes.TrailingSlashIt | classes/class-folio-community-shortcodes.php:607-609 | the result ends in exactly one slash after the input's trailing slashes are removed |
| Shortcodes.PaginationBaseSpec | classes/class-folio-community-shortcodes.php:600-611 | the base ignores everything from the first `?`, contains no `?`, and ends in one slash followed by `%_%` |
| Shortcodes.Pagination | classes/class-folio-community-shortcodes.php:619-653 | the link arguments match the sizing rules of `PaginationSpec` |
| Shortcodes.PaginationSizes | classes/class-folio-community-shortcodes.php:619-653 | links exist only for more than one page; mid size is 2, end size follows `EndSize`, and show-all holds exactly for at most 7 pages |
| Shortcodes.ClampPages | classes/class-folio-community-shortcodes.php:583-594 | with a positive maximum the total is clamped to it, and with maximum 0 the total is kept |
| Shortcodes.RenderSite | classes/class-folio-community-shortcodes.php:488-514 | the card shows the members badge for personal rows, and a semester only when one is set and non-zero |
| Shortcodes.EmptyAnswer | classes/class-folio-community-shortcodes.php:360-369 | "No results found" comes exactly for a non-ajax initial render or a refresh; otherwise the answer is `'0'` |
| Shortcodes.Answer | classes/class-folio-community-shortcodes.php:347-369 | a listing comes exactly for a non-empty result, with pagination only when not ajax or when refreshing; otherwise the empty answer |
| Shortcodes.RenderSiteCards | classes/class-folio-community-shortcodes.php:347-352 | the loop renders every row in order |
| Shortcodes.GetSites | classes/class-folio-community-shortcodes.php:747-755 | returns the query's rows and its page count |
| Shortcodes.AjaxLoadMoreSearch | classes/class-folio-community-shortcodes.php:306-379 | the handler's answer is the search response for the request |
| Shortcodes.KeepClassrooms | classes/class-folio-community-shortcodes.php:534-540 | exactly the non-empty labels are kept |
| Shortcodes.PubClassrooms | classes/class-folio-community-shortcodes.php:532-540 | meta that is not a list shows no classrooms; a list shows its non-empty labels |
| Shortcodes.SavedLabelsKept | classes/class-folio-community-shortcodes.php:534-540 | non-empty labels pass the filter unchanged |
| Shortcodes.MirrorClassroomsShown | classes/class-folio-community-shortcodes.php:534-540 | a card shows exactly the classroom labels the mirror engine saved |
| Shortcodes.VisibleStatuses | classes/class-folio-community-shortcodes.php:416 | `publish` is always visible, and `private` exactly when logged in |
| Shortcodes.VisibleScopes | classes/class-folio-community-shortcodes.php:417 | world is always visible, and campus exactly when logged in |
| Shortcodes.SignedInScopeIsEligible | classes/class-folio-community-shortcodes.php:417 | a signed-in reader sees exactly the visibilities the mirror engine publishes |
| Shortcodes.RenderPubCards | classes/class-folio-community-shortcodes.php:442-447 | the loop renders every post in order |
| Shortcodes.AjaxLoadMorePubs | classes/class-folio-community-shortcodes.php:392-478 | the handler's answer is the publications response for the request |
| Shortcodes.SearchResponseSpec | classes/class-folio-community-shortcodes.php:306-379 | a valid request is never refused; it lists the rendered rows exactly when any matched, with paging only when not ajax or refreshing; otherwise the notice on an initial page render or a refresh, and `'0'` for anything else |
| Shortcodes.SearchListing | classes/class-folio-community-shortcodes.php:335-358 | every listed card comes from a matching row, the cards are in ascending name order ignoring case, and there are at most `per_page` of them |
| Shortcodes.SearchPagingCountsMatches | classes/class-folio-community-shortcodes.php:335-358 | shown paging counts ceil(matches / per_page) pages, more than one: enough for every match, without an empty last page |
| Shortcodes.PubsResponseSpec | classes/class-folio-community-shortcodes.php:392-478 | a valid request is never refused; it lists one card per found post, with paging clamped to the maximum; `'0'` comes exactly for an empty non-refresh background request |
| Shortcodes.InitialRenderNeverZero | classes/class-folio-community-shortcodes.php:145-149 | a non-ajax initial render of either shortcode is never answered with `'0'` or refused |
| Shortcodes.BadNonceRefused | classes/class-folio-community-shortcodes.php:309-312 | a background request without a valid nonce gets the security error |
| Shortcodes.SearchAttsOf | classes/class-folio-community-shortcodes.php:56-77 | infinite mode never has fewer than 10 per page |
| Shortcodes.PubsAttsOf | classes/class-folio-community-shortcodes.php:190-212 | infinite mode never has fewer than 10 per page |
| Shortcodes.SearchShortcode | classes/class-folio-community-shortcodes.php:54-187 | the shortcode is unavailable exactly off the community blog and blog 1; the query, the filters and the current page come from the GET parameters; results appear exactly when a query and filters are given, and they are the search handler's answer for that request, never a refusal |
| Shortcodes.PubsShortcode | classes/class-folio-community-shortcodes.php:188-290 | the shortcode is unavailable exactly off the community blog and blog 1; the load-more button appears exactly when more than one page is allowed outside pages mode; the current page comes from GET `pp`; the items are the publications handler's answer for that request, never a refusal |
| Shortcodes.ShortcodeDefaults | classes/class-folio-community-shortcodes.php:56-62 | the search defaults are pages mode with 5 per page; the publications defaults are infinite, 10 per page, 100 pages and refresh on |
| Front.ModeOf | assets/js/front.js:88-90 | `pages` exactly without a button, `more` exactly with the more class, and `infinite` otherwise |
| Front.ReplaceFirst | assets/js/front.js:263 | the first occurrence of the character becomes the new one and every other character is kept |
| Front.LocationSearch | assets/js/front.js:412 | an empty parameter list gives an empty `location.search`; any other starts with `?` |
| Front.BaseTail | assets/js/front.js:263 | the base gets `&` and the whole query string, or nothing when the URL has no query |
| Front.UpdatedParamsSpec | assets/js/front.js:402-415 | the parameter ends with exactly the given value or none, and every other parameter keeps its values |
| Front.WithoutParamTwice | assets/js/front.js:406 | removing a parameter twice is removing it once |
| Front.UpdatedParamsIdempotent | assets/js/front.js:402-415 | setting the same value twice is setting it once |
| Front.RefreshedUrlSpec | assets/js/front.js:369-379 | after a refresh the search URL holds exactly the current filters and query, the page parameter of a page-links list is gone, and every other parameter keeps its values |
| Front.PostClock.RefreshPostTimes | assets/js/front.js:432-438 | unprocessed stamps are pushed in order, and every stamp is marked processed |
| Front.RefreshTwiceAddsNothing | assets/js/front.js:432-438 | a second pass over processed stamps adds nothing |
| Front.LoadMore.constructor | assets/js/front.js:68-134 | the mode comes from the button; the base defaults to `%_%`; total pages is 0 without paging; the button shows only for more than one page; the results start visible or hidden as the markup says |
| Front.LoadMore.RequestFor | assets/js/front.js:257-271 | the request asks for page + 1, or page 1 when refreshing; it carries the filters and the query only for search; its base is the pagination base followed by the page's current query string |
| Front.LoadMore.HandleLoadMore | assets/js/front.js:237-271 | nothing is requested when the page is missing or 0; otherwise the next request is sent and `more` mode shows loading |
| Front.LoadMore.Success | assets/js/front.js:279-300 | `'0'` leaves the content; search in pages mode replaces it; otherwise the response is appended; `more` mode focuses the first new item; search in pages mode drops the focus and the other cases keep it |
| Front.LoadMore.HideLoadMoreIfOnLastPage | assets/js/front.js:392-396 | the button stays only while nextPage + 1 ≤ totalPages |
| Front.LoadMore.Complete | assets/js/front.js:304-327 | total pages is re-read (0 without paging), the cursor moves except in pages mode, refresh and loading end, and publications refresh their times |
| Front.LoadMore.UpdateUrlParam | assets/js/front.js:402-415 | the URL parameters become the updated list |
| Front.LoadMore.Refresh | assets/js/front.js:362-384 | refresh mode and page 1 are set; the content and focus are cleared except for search in pages mode; the button shows unless in pages mode; the URL is rewritten; one page-1 load is issued whose base carries the rewritten query string, with the checked filters and the query for search |
| Front.LoadMore.LoadFirstPage | assets/js/front.js:383 | the load that ends a refresh asks for page 1 in refresh mode, with the current query string in its base and, for search, the checked filters and query |
| Front.LoadMore.RefreshClicked | assets/js/front.js:142-148 | the post times are cleared, then every effect of a refresh follows: page 1 in refresh mode, the content and focus cleared except for search in pages mode, the button shown unless in pages mode, the URL rewritten, and one page-1 load whose base carries the rewritten query string and, for search, the checked filters and query |
| Front.LoadMore.IntersectionObserverCallback | assets/js/front.js:217-225 | nothing loads while refreshing or without a page; otherwise each visible entry issues the request for the next page; the checked filters are re-read and `more` mode shows loading once a load is issued |
| Front.LoadMore.CheckSearchAction | assets/js/front.js:201-207 | the form targets the local action exactly when some filter is checked |
| Front.LoadMore.FilterChanged | assets/js/front.js:162-165 | the checked filters are stored and the form action follows them |
| Front.LoadMore.Submit | assets/js/front.js:167-181 | an empty query changes nothing; with a filter checked the results refresh in place, with every effect of a refresh stated; without one the browser submits natively to the form's current action, which is left as it was |
| Front.ServerReadsLoadRequest | classes/class-folio-community-shortcodes.php:323-329 | the server reads back the page, page size, mode and refresh flag the controller posted |
| Front.ServerReadsFilters | classes/class-folio-community-shortcodes.php:332 | the server reads back the filter list the controller posted |

## Left out

- WordPress, the database and PHP superglobals are inputs:
  - capability, nonce, login state, the student-blog flag and `get_option` values are parameters;
  - `switch_to_blog`, `wp_insert_post`, `wp_delete_post` `get_posts` and `WP_Query` act on the modelled store;
  - `WP_Query` in the publications handler is the function parameter `run`.
- The statement is a value, not SQL text. `$wpdb->prepare`, `SQL_CALC_FOUND_ROWS` and the `FOUND_ROWS()` call are modelled by their result. `ORDER BY` is a stable sort.
- Publications.OldestFirstSpec: ties in `modified` are broken by id. MySQL leaves their order open.
- Time conversion (`get_date_from_gmt`, `wp_date`) and the current time are the parameters `toLocal` and `now`; `now` carries the local and the GMT time. `human_time_diff` and the front-end clock (`clockTime`, dayjs, timers) are left out; only the list `postTimes` is modelled.
- `sanitize_text_field` and `sanitize_url` are treated as the identity. `more_info_url` is not modelled.
- `intval` overflow at the platform's integer width is not modelled.
- Php.IntVal: a float numeric prefix (`1.5e3`) is scaled and truncated exactly. PHP first rounds it to the nearest double, which differs only beyond about 15 significant digits.
- Sql.Like: the table's `_ci` collation is modelled as ASCII case folding. Accent folding and the folding of non-ASCII letters are not modelled. The same applies to `Sites.Key`, which orders text columns.
- Sites.UnknownOrderbyKeepsTableOrder: without `ORDER BY`, MySQL leaves the row order unspecified. The model returns table order, which is one order MySQL may give.
- `get_semester_from_blog_id`, `get_bloginfo` and the site list of `get_sites` are inputs, carried in `SiteInfo`.
- `FILTER_VALIDATE_URL` on the posted base is the input `postBaseValid`. `html_entity_decode(get_pagenum_link())` is the input `pagenumLink`.
- Shortcodes.Pagination: `pagination()` re-reads the current page from the query string, as written. `paginate_links`, `render_pagination` and `pagination_link` markup are left out.
- The HTML of `render_site`, `render_pub`, the shortcodes and the "Posted in" line is left out. Cards keep only the fields the logic decides.
- The trailing `wp_die()` of the ajax handlers is not modelled.
- The initial render calls the handlers with explicit arguments (`classes/class-folio-community-shortcodes.php:148`, `:263`). The ajax hooks (`:33-36`) call them through `do_action`, which passes `''` as the first argument. So `ajax_load_more_pubs` falls back to `$per_page = ''` and `ajax_load_more_search` to `$query = ''` when nothing is posted. The model takes those fallbacks as typed parameters and does not model the `''` value.
- Switching the shortcodes to the community site is left out.
- Front.LoadMore.Success: the DOM becomes a content list. A fragment is appended only for a non-empty response, and focus is the index of the fragment.
- Show and hide animations, `setTimeout`, jQuery ajax transport and IntersectionObserver wiring are left out. The availability of `URLSearchParams` and `history`, and `showSearchLoading`/`hideSearchLoading`, are left out too.
- Front.LocationSearch: `URLSearchParams` percent-encodes names and values when it serialises them. The model joins them unencoded, and the parsing of the initial `location.search` into `urlParams` is an input.
- Publications.Stored: when the origin's `post_date_gmt` is unset, `wp_insert_post` derives it from `post_date` for non-draft statuses, and so the `post_modified_gmt` of an insert. The model keeps both unset.
- Publications.MirrorFields: `wp_insert_post` may rename the slug through `wp_unique_post_slug`. The model stores the slug it is given.
- Publications.MirrorEngine.DeleteOldIfReachedLimit: the post statuses that the oldest-first `WP_Query` uses by default are the parameter `statuses` (see `Candidates` and `RetentionBatch`). The model does not derive them from WordPress.
- Concurrency between requests is outside this sequential model.
- `folio-community.php` is not part of this model: bootstrap, hooks, `dbDelta`, activation checks and enqueueing. Neither are `assets/js/admin.js`, the settings pages, `network_update`, `ajax_search_site`, `community_get_edit_post_link`, avatars, inline SVG and date formatting.
