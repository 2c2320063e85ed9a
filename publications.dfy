/**
 * The mirror engine (`Folio_Community_Publications`): when a student saves or
 * deletes a post on a personal site, a blanked copy of it (a mirror) is
 * created, updated or deleted in the community site's content store.
 */
module Publications {
  import opened Php
  import opened Settings

  /** Post types whose posts are mirrored (`allowed_community_post_types`). */
  const ALLOWED_POST_TYPES: seq<string> := ["post"]

  /** The statuses `get_community_post_id` looks a mirror up under. */
  const LOOKUP_STATUSES: set<string> := {"publish", "pending", "draft", "future", "private", "inherit", "trash"}

  /** How many of the oldest mirrors one retention pass deletes. */
  const RETENTION_BATCH: nat := 100

  /** A post's visibility classification, as the portfolio plugin stores it. */
  datatype Visibility = World | Uoc | Other(code: string)

  predicate Eligible(v: Visibility)
  {
    v.World? || v.Uoc?
  }

  /**
   * The columns of a post row that the engine copies or overwrites; timestamps
   * are seconds, and a GMT timestamp is `None` when it is empty.
   */
  datatype PostFields = PostFields(
    title: string,
    name: string,
    author: nat,
    status: string,
    postType: string,
    content: string,
    excerpt: string,
    contentFiltered: string,
    parent: nat,
    menuOrder: int,
    commentCount: nat,
    commentStatus: string,
    pingStatus: string,
    date: int,
    dateGmt: Option<int>,
    modified: int,
    modifiedGmt: Option<int>)

  /** A post on an origin site, with what WordPress knows about its kind. */
  datatype OriginPost = OriginPost(id: nat, fields: PostFields, isRevision: bool, isAutosave: bool)

  /** A classroom the post belongs to, as read while switched to its site. */
  datatype Classroom = Classroom(blogId: nat, name: string, homeUrl: string)

  /** A mirror post and the four meta values stored with it. */
  datatype Mirror = Mirror(
    fields: PostFields,
    originPostId: nat,
    originBlogId: nat,
    classrooms: seq<string>,
    visibility: Visibility)

  /** What the request and the origin site say about a save. */
  datatype SaveContext = SaveContext(
    userCanEdit: bool,
    postAction: Option<string>,
    isStudentBlog: bool,
    blogId: nat,
    userId: nat,
    userEmail: string,
    share: Option<string>,
    visibility: Visibility,
    classrooms: seq<Classroom>)

  /** What `saved_post` does with the community site. */
  datatype SaveAction = NoAction | DeleteMirror | UpsertMirror

  // ---------------------------------------------------------------- the decision

  /** `check_if_save_community_post`. */
  predicate ShouldMirror(post: OriginPost, ctx: SaveContext)
  {
    && !post.isRevision
    && !post.isAutosave
    && post.fields.status != "auto-draft"
    && ctx.userCanEdit
    && ctx.postAction != Some("heartbeat")
    && post.fields.postType in ALLOWED_POST_TYPES
  }

  /** `is_blacklisted_user`. */
  predicate IsBlacklisted(o: SiteOptions, email: string)
  {
    email in Blacklist(o)
  }

  /** The share checkbox: `absint` of the posted value, `None` (`''`) when absent. */
  function ShareValue(share: Option<string>): (v: Option<nat>)
    ensures share.None? <==> v.None?
  {
    if share.Some? then Some(AbsInt(share.value)) else None
  }

  /** A box posted as a decimal number reads back as that number. */
  lemma ShareValueOfNumber(n: nat)
    ensures ShareValue(Some(NatToString(n))) == Some(n)
  {
    IntValOfNatToString(n);
  }

  /** The branches of `saved_post` once the post id is known to be set. */
  function Decision(post: OriginPost, ctx: SaveContext, o: SiteOptions): (a: SaveAction)
  {
    if !ShouldMirror(post, ctx) || !ctx.isStudentBlog || CommunityId(o) == 0 then NoAction
    else if IsBlacklisted(o, ctx.userEmail) then DeleteMirror
    else if ShareValue(ctx.share) != Some(1) then DeleteMirror
    else if Eligible(ctx.visibility) then UpsertMirror
    else DeleteMirror
  }

  /**
   * A post is mirrored exactly when it passes the checks on a student site with
   * a community site configured, the current (saving) user is not blacklisted, the share box
   * came as 1 and its visibility is world or campus.
   */
  lemma DecisionUpsertIff(post: OriginPost, ctx: SaveContext, o: SiteOptions)
    ensures Decision(post, ctx, o) == UpsertMirror <==>
      && ShouldMirror(post, ctx) && ctx.isStudentBlog && CommunityId(o) > 0
      && !IsBlacklisted(o, ctx.userEmail)
      && ctx.share.Some? && AbsInt(ctx.share.value) == 1
      && Eligible(ctx.visibility)
  {
  }

  /**
   * Every other handled save removes the mirror: a blacklisted current user, a share
   * box not set to 1 (or not posted at all), or a visibility outside world and
   * campus.
   */
  lemma DecisionDeleteIff(post: OriginPost, ctx: SaveContext, o: SiteOptions)
    ensures Decision(post, ctx, o) == DeleteMirror <==>
      && ShouldMirror(post, ctx) && ctx.isStudentBlog && CommunityId(o) > 0
      && (IsBlacklisted(o, ctx.userEmail) || ShareValue(ctx.share) != Some(1) || !Eligible(ctx.visibility))
  {
  }

  /** Whether `saved_post` writes the share meta of the post at all. */
  predicate WritesShareMeta(post: OriginPost, ctx: SaveContext, o: SiteOptions)
  {
    post.id != 0 && Decision(post, ctx, o) != NoAction
  }

  /** Whether it also records the share choice on the user. */
  predicate WritesUserShare(post: OriginPost, ctx: SaveContext, o: SiteOptions)
  {
    WritesShareMeta(post, ctx, o) && !IsBlacklisted(o, ctx.userEmail) && ctx.share.Some?
  }

  // ---------------------------------------------------------------- mirror contents

  /** The label of one classroom: a link to its home page. */
  function ClassroomLink(c: Classroom): string
  {
    "<a href=\"" + c.homeUrl + "\">" + c.name + "</a>"
  }

  /** The classroom labels stored on a mirror; a classroom whose name is falsy is skipped. */
  function ClassroomLinks(cs: seq<Classroom>): (labels: seq<string>)
  {
    if cs == [] then []
    else
      var last := cs[|cs| - 1];
      ClassroomLinks(cs[..|cs| - 1]) + (if EmptyString(last.name) then [] else [ClassroomLink(last)])
  }

  /**
   * Every label links a named classroom, every named classroom has its label,
   * and there are never more labels than classrooms.
   */
  lemma {:induction false} ClassroomLinksSpec(cs: seq<Classroom>)
    ensures |ClassroomLinks(cs)| <= |cs|
    ensures forall l :: l in ClassroomLinks(cs) ==>
      exists c :: c in cs && !EmptyString(c.name) && l == ClassroomLink(c)
    ensures forall c :: c in cs && !EmptyString(c.name) ==> ClassroomLink(c) in ClassroomLinks(cs)
  {
    if cs != [] {
      var init := cs[..|cs| - 1];
      ClassroomLinksSpec(init);
      assert cs == init + [cs[|cs| - 1]];
    }
  }

  /** The row `save_community_post` hands to `wp_insert_post`. */
  function MirrorFields(f: PostFields, toLocal: int -> int): (m: PostFields)
    ensures m.title == f.title && m.name == f.name && m.author == f.author && m.status == f.status
    ensures m.content == "" && m.excerpt == "" && m.contentFiltered == ""
    ensures m.postType == COMMUNITY_POST_TYPE
    ensures m.parent == 0 && m.menuOrder == 0 && m.commentCount == 0
    ensures m.commentStatus == "closed" && m.pingStatus == "closed"
    ensures f.dateGmt.None? ==> m.date == f.date
    ensures f.dateGmt.Some? ==> m.date == toLocal(f.dateGmt.value)
    ensures f.modifiedGmt.None? ==> m.modified == f.modified
    ensures f.modifiedGmt.Some? ==> m.modified == toLocal(f.modifiedGmt.value)
    ensures m.dateGmt == f.dateGmt && m.modifiedGmt == f.modifiedGmt
  {
    f.(content := "", excerpt := "", parent := 0, contentFiltered := "",
       commentStatus := "closed", pingStatus := "closed", menuOrder := 0, commentCount := 0,
       postType := COMMUNITY_POST_TYPE,
       date := if f.dateGmt.Some? then toLocal(f.dateGmt.value) else f.date,
       modified := if f.modifiedGmt.Some? then toLocal(f.modifiedGmt.value) else f.modified)
  }

  /** The current time, as the community site's local clock and in GMT. */
  datatype Now = Now(local: nat, gmt: nat)

  /**
   * What `wp_insert_post` stores as the modification time: the current time
   * on an update, the post date on an insert, both in local time and in GMT.
   */
  function Stored(f: PostFields, update: bool, now: Now): (r: PostFields)
    ensures update ==> r.modified == now.local && r.modifiedGmt == Some(now.gmt)
    ensures !update ==> r.modified == f.date && r.modifiedGmt == f.dateGmt
    ensures r.(modified := f.modified, modifiedGmt := f.modifiedGmt) == f
  {
    f.(modified := if update then now.local else f.date,
       modifiedGmt := if update then Some(now.gmt) else f.dateGmt)
  }

  // ---------------------------------------------------------------- the store

  /** The community site's mirror posts by id, and the next post id. */
  datatype Store = Store(mirrors: map<nat, Mirror>, nextId: nat)

  /** A mirror `get_community_post_id` can find for this origin post. */
  predicate IsMirrorOf(ms: map<nat, Mirror>, id: nat, postId: nat, blogId: nat)
  {
    id in ms && ms[id].fields.status in LOOKUP_STATUSES
    && ms[id].originPostId == postId && ms[id].originBlogId == blogId
  }

  /** At most one findable mirror per origin post. */
  ghost predicate UniqueOrigins(ms: map<nat, Mirror>)
  {
    forall a, b, p, s :: IsMirrorOf(ms, a, p, s) && IsMirrorOf(ms, b, p, s) ==> a == b
  }

  ghost predicate ValidStore(st: Store)
  {
    && st.nextId >= 1
    && (forall id :: id in st.mirrors ==> 0 < id < st.nextId)
    && UniqueOrigins(st.mirrors)
  }

  /** `get_community_post_id` on the store. */
  ghost function Lookup(ms: map<nat, Mirror>, postId: nat, blogId: nat): (r: Option<nat>)
    ensures r.Some? ==> IsMirrorOf(ms, r.value, postId, blogId)
    ensures r.None? <==> forall id :: !IsMirrorOf(ms, id, postId, blogId)
  {
    if exists id :: IsMirrorOf(ms, id, postId, blogId) then
      var id :| IsMirrorOf(ms, id, postId, blogId);
      Some(id)
    else None
  }

  lemma LookupUnique(ms: map<nat, Mirror>, id: nat, postId: nat, blogId: nat)
    requires UniqueOrigins(ms) && IsMirrorOf(ms, id, postId, blogId)
    ensures Lookup(ms, postId, blogId) == Some(id)
  {
  }

  /** Insert or update the mirror of one origin post, as `save_community_post` does after retention. */
  ghost function Upsert(st: Store, post: OriginPost, blogId: nat, vis: Visibility, labels: seq<string>,
                        toLocal: int -> int, now: Now): (Store, nat)
  {
    var existing := Lookup(st.mirrors, post.id, blogId);
    var id := if existing.Some? then existing.value else st.nextId;
    var m := Mirror(Stored(MirrorFields(post.fields, toLocal), existing.Some?, now), post.id, blogId, labels, vis);
    (Store(st.mirrors[id := m], if existing.Some? then st.nextId else st.nextId + 1), id)
  }

  /** `delete_community_post` on the store. */
  ghost function Unpublish(st: Store, postId: nat, blogId: nat): Store
  {
    match Lookup(st.mirrors, postId, blogId)
    case None => st
    case Some(id) => Store(st.mirrors - {id}, st.nextId)
  }

  // ---------------------------------------------------------------- retention

  /** `wp_count_posts( 'folio_community' )->publish`. */
  function PublishedCount(ms: map<nat, Mirror>): nat
  {
    |set id | id in ms && ms[id].fields.status == "publish"|
  }

  /** The mirrors the oldest-first query can return, under the request's default statuses. */
  function Candidates(ms: map<nat, Mirror>, statuses: set<string>): (c: set<nat>)
    ensures c <= ms.Keys
  {
    set id | id in ms && ms[id].fields.status in statuses
  }

  /** `ORDER BY post_modified ASC`, ties broken by the lower id. */
  predicate OlderOrSame(ms: map<nat, Mirror>, a: nat, b: nat)
    requires a in ms && b in ms
  {
    ms[a].fields.modified < ms[b].fields.modified || (ms[a].fields.modified == ms[b].fields.modified && a <= b)
  }

  lemma {:induction false} OldestExists(ms: map<nat, Mirror>, c: set<nat>)
    requires c != {} && c <= ms.Keys
    ensures exists m :: m in c && forall x :: x in c ==> OlderOrSame(ms, m, x)
    decreases |c|
  {
    var y :| y in c;
    if c != {y} {
      var rest := c - {y};
      OldestExists(ms, rest);
      var m :| m in rest && forall x :: x in rest ==> OlderOrSame(ms, m, x);
      if OlderOrSame(ms, m, y) {
        assert forall x :: x in c ==> OlderOrSame(ms, m, x);
      } else {
        forall x | x in c ensures OlderOrSame(ms, y, x) {
          if x != y {
            assert OlderOrSame(ms, m, x);
          }
        }
      }
    } else {
      assert forall x :: x in c ==> x == y;
    }
  }

  /** The oldest mirror among the candidates. */
  ghost function Oldest(ms: map<nat, Mirror>, c: set<nat>): (m: nat)
    requires c != {} && c <= ms.Keys
    ensures m in c && forall x :: x in c ==> OlderOrSame(ms, m, x)
  {
    OldestExists(ms, c);
    var m :| m in c && forall x :: x in c ==> OlderOrSame(ms, m, x);
    m
  }

  lemma OldestUnique(ms: map<nat, Mirror>, c: set<nat>, m: nat)
    requires c != {} && c <= ms.Keys
    requires m in c && forall x :: x in c ==> OlderOrSame(ms, m, x)
    ensures Oldest(ms, c) == m
  {
    var o := Oldest(ms, c);
    assert OlderOrSame(ms, m, o) && OlderOrSame(ms, o, m);
  }

  /** The first `n` rows of the oldest-first query. */
  ghost function OldestFirst(ms: map<nat, Mirror>, c: set<nat>, n: nat): (r: seq<nat>)
    requires c <= ms.Keys
    ensures forall i :: 0 <= i < |r| ==> r[i] in c
    decreases n
  {
    if n == 0 || c == {} then []
    else
      var m := Oldest(ms, c);
      [m] + OldestFirst(ms, c - {m}, n - 1)
  }

  /**
   * The query returns `min(n, |c|)` distinct candidates in age order, and no
   * candidate it leaves out is older than one it returns.
   */
  lemma OldestFirstSpec(ms: map<nat, Mirror>, c: set<nat>, n: nat)
    requires c <= ms.Keys
    ensures var r := OldestFirst(ms, c, n);
      && |r| == (if n < |c| then n else |c|)
      && (forall i :: 0 <= i < |r| ==> r[i] in c)
      && (forall i, j :: 0 <= i < j < |r| ==> r[i] != r[j] && OlderOrSame(ms, r[i], r[j]))
      && (forall i, x :: 0 <= i < |r| && x in c && x !in r ==> OlderOrSame(ms, r[i], x))
  {
    OldestFirstLength(ms, c, n);
    OldestFirstOrdered(ms, c, n);
    OldestFirstOlderThanRest(ms, c, n);
  }

  lemma {:induction false} OldestFirstLength(ms: map<nat, Mirror>, c: set<nat>, n: nat)
    requires c <= ms.Keys
    ensures |OldestFirst(ms, c, n)| == (if n < |c| then n else |c|)
    decreases n
  {
    if n != 0 && c != {} {
      var m := Oldest(ms, c);
      var rest := c - {m};
      OldestFirstLength(ms, rest, n - 1);
      assert |rest| == |c| - 1;
    }
  }

  /** Distinct ids in age order. */
  ghost predicate AgeOrdered(ms: map<nat, Mirror>, r: seq<nat>)
  {
    forall i, j :: 0 <= i < j < |r| ==> r[i] in ms && r[j] in ms && r[i] != r[j] && OlderOrSame(ms, r[i], r[j])
  }

  /** No candidate outside `r` is older than one inside it. */
  ghost predicate OlderThanRest(ms: map<nat, Mirror>, c: set<nat>, r: seq<nat>)
    requires c <= ms.Keys && forall i :: 0 <= i < |r| ==> r[i] in ms
  {
    forall i, x :: 0 <= i < |r| && x in c && x !in r ==> OlderOrSame(ms, r[i], x)
  }

  lemma {:induction false} OldestFirstOrdered(ms: map<nat, Mirror>, c: set<nat>, n: nat)
    requires c <= ms.Keys
    ensures AgeOrdered(ms, OldestFirst(ms, c, n))
    decreases n
  {
    if n != 0 && c != {} {
      var m := Oldest(ms, c);
      var rest := c - {m};
      var t := OldestFirst(ms, rest, n - 1);
      OldestFirstOrdered(ms, rest, n - 1);
      var r := [m] + t;
      assert OldestFirst(ms, c, n) == r;
      forall i, j | 0 <= i < j < |r|
        ensures r[i] in ms && r[j] in ms && r[i] != r[j] && OlderOrSame(ms, r[i], r[j])
      {
        assert r[j] == t[j - 1];
        if i > 0 {
          assert r[i] == t[i - 1];
        }
      }
    }
  }

  lemma {:induction false} OldestFirstOlderThanRest(ms: map<nat, Mirror>, c: set<nat>, n: nat)
    requires c <= ms.Keys
    ensures OlderThanRest(ms, c, OldestFirst(ms, c, n))
    decreases n
  {
    if n != 0 && c != {} {
      var m := Oldest(ms, c);
      var rest := c - {m};
      var t := OldestFirst(ms, rest, n - 1);
      OldestFirstOlderThanRest(ms, rest, n - 1);
      var r := [m] + t;
      assert OldestFirst(ms, c, n) == r;
      forall i, x | 0 <= i < |r| && x in c && x !in r ensures OlderOrSame(ms, r[i], x) {
        if i > 0 {
          assert r[i] == t[i - 1];
          assert x in rest && x !in t;
        }
      }
    }
  }

  /** The mirrors `delete_old_comm_posts_if_reached_limit` deletes, oldest first. */
  ghost function RetentionBatch(ms: map<nat, Mirror>, statuses: set<string>, limit: nat): seq<nat>
  {
    if PublishedCount(ms) > limit then OldestFirst(ms, Candidates(ms, statuses), RETENTION_BATCH) else []
  }

  /** The store after the given posts are deleted. */
  function Without(ms: map<nat, Mirror>, ids: seq<nat>): (r: map<nat, Mirror>)
    ensures forall id :: id in r <==> id in ms && id !in ids
    ensures forall id :: id in r ==> r[id] == ms[id]
  {
    ms - (set id | id in ids)
  }

  /** `save_community_post` on the store: retention first, then the upsert. */
  ghost function SaveResult(st: Store, post: OriginPost, blogId: nat, vis: Visibility, classrooms: seq<Classroom>,
                            o: SiteOptions, statuses: set<string>, toLocal: int -> int, now: Now): (Store, nat)
  {
    var kept := Store(Without(st.mirrors, RetentionBatch(st.mirrors, statuses, ActivityLimit(o))), st.nextId);
    Upsert(kept, post, blogId, vis, ClassroomLinks(classrooms), toLocal, now)
  }

  // ---------------------------------------------------------------- store lemmas

  /**
   * An upsert keeps the store valid, leaves exactly one findable mirror of the
   * post when its status is a looked-up one, holding the blanked copy and the
   * given meta, and changes no other mirror. The mirror it writes is the one
   * the lookup found, or a new one under the next free id.
   */
  lemma UpsertSpec(st: Store, post: OriginPost, blogId: nat, vis: Visibility, labels: seq<string>,
                   toLocal: int -> int, now: Now)
    requires ValidStore(st)
    ensures var (st', id) := Upsert(st, post, blogId, vis, labels, toLocal, now);
      && ValidStore(st')
      && id in st'.mirrors
      && st'.mirrors[id].fields == Stored(MirrorFields(post.fields, toLocal), id in st.mirrors, now)
      && st'.mirrors[id].originPostId == post.id && st'.mirrors[id].originBlogId == blogId
      && st'.mirrors[id].classrooms == labels && st'.mirrors[id].visibility == vis
      && (post.fields.status in LOOKUP_STATUSES ==> Lookup(st'.mirrors, post.id, blogId) == Some(id))
      && (forall x :: x in st.mirrors && x != id ==> x in st'.mirrors && st'.mirrors[x] == st.mirrors[x])
      && st'.mirrors.Keys == st.mirrors.Keys + {id}
      && (Lookup(st.mirrors, post.id, blogId).Some? ==>
            id == Lookup(st.mirrors, post.id, blogId).value && st'.nextId == st.nextId)
      && (Lookup(st.mirrors, post.id, blogId).None? ==>
            id == st.nextId && id !in st.mirrors && st'.nextId == st.nextId + 1)
  {
    var (st', id) := Upsert(st, post, blogId, vis, labels, toLocal, now);
    var existing := Lookup(st.mirrors, post.id, blogId);
    assert forall x :: IsMirrorOf(st.mirrors, x, post.id, blogId) ==> x == id;
    forall a, b, p, s | IsMirrorOf(st'.mirrors, a, p, s) && IsMirrorOf(st'.mirrors, b, p, s) ensures a == b {
      if a != id && b != id {
        assert IsMirrorOf(st.mirrors, a, p, s) && IsMirrorOf(st.mirrors, b, p, s);
      } else if a != id {
        assert IsMirrorOf(st.mirrors, a, post.id, blogId);
      } else if b != id {
        assert IsMirrorOf(st.mirrors, b, post.id, blogId);
      }
    }
    if post.fields.status in LOOKUP_STATUSES {
      LookupUnique(st'.mirrors, id, post.id, blogId);
    }
  }

  /**
   * Saving the same post twice keeps the one mirror: the second save finds the
   * first one's row and updates it, allocating no new id.
   */
  lemma UpsertTwice(st: Store, post: OriginPost, blogId: nat, vis: Visibility, labels: seq<string>,
                    toLocal: int -> int, now: Now, later: Now)
    requires ValidStore(st) && post.fields.status in LOOKUP_STATUSES
    ensures var (st1, id1) := Upsert(st, post, blogId, vis, labels, toLocal, now);
      var (st2, id2) := Upsert(st1, post, blogId, vis, labels, toLocal, later);
      && id2 == id1 && st2.nextId == st1.nextId && st2.mirrors.Keys == st1.mirrors.Keys
  {
    UpsertSpec(st, post, blogId, vis, labels, toLocal, now);
  }

  /**
   * Deleting keeps the store valid, leaves no findable mirror of the post and
   * changes no other mirror.
   */
  lemma UnpublishSpec(st: Store, postId: nat, blogId: nat)
    requires ValidStore(st)
    ensures var st' := Unpublish(st, postId, blogId);
      && ValidStore(st')
      && Lookup(st'.mirrors, postId, blogId).None?
      && st'.nextId == st.nextId
      && (forall x :: x in st'.mirrors ==> x in st.mirrors && st'.mirrors[x] == st.mirrors[x])
      && (forall x :: x in st.mirrors && !IsMirrorOf(st.mirrors, x, postId, blogId) ==> x in st'.mirrors)
  {
    var st' := Unpublish(st, postId, blogId);
    forall a, b, p, s | IsMirrorOf(st'.mirrors, a, p, s) && IsMirrorOf(st'.mirrors, b, p, s) ensures a == b {
      assert IsMirrorOf(st.mirrors, a, p, s) && IsMirrorOf(st.mirrors, b, p, s);
    }
    forall id | IsMirrorOf(st'.mirrors, id, postId, blogId) ensures false {
      assert IsMirrorOf(st.mirrors, id, postId, blogId);
    }
  }

  /** Sharing a post again after unsharing it creates a mirror under a fresh id. */
  lemma ReshareGetsFreshId(st: Store, post: OriginPost, blogId: nat, vis: Visibility, labels: seq<string>,
                           toLocal: int -> int, now: Now)
    requires ValidStore(st)
    ensures var st1 := Unpublish(st, post.id, blogId);
      var (st2, id) := Upsert(st1, post, blogId, vis, labels, toLocal, now);
      id == st.nextId && id !in st.mirrors && st2.nextId == st.nextId + 1
  {
    UnpublishSpec(st, post.id, blogId);
  }

  /** Deleting any set of posts keeps the store valid. */
  lemma WithoutValid(st: Store, ids: seq<nat>)
    requires ValidStore(st)
    ensures ValidStore(Store(Without(st.mirrors, ids), st.nextId))
  {
    var ms := Without(st.mirrors, ids);
    forall a, b, p, s | IsMirrorOf(ms, a, p, s) && IsMirrorOf(ms, b, p, s) ensures a == b {
      assert IsMirrorOf(st.mirrors, a, p, s) && IsMirrorOf(st.mirrors, b, p, s);
    }
  }

  /**
   * Retention deletes nothing while the published mirrors are within the
   * limit; past it, it deletes the `min(100, |candidates|)` oldest candidates.
   */
  lemma RetentionSpec(ms: map<nat, Mirror>, statuses: set<string>, limit: nat)
    ensures PublishedCount(ms) <= limit ==> RetentionBatch(ms, statuses, limit) == []
    ensures PublishedCount(ms) > limit ==>
      var c := Candidates(ms, statuses);
      var r := RetentionBatch(ms, statuses, limit);
      && |r| == (if RETENTION_BATCH < |c| then RETENTION_BATCH else |c|)
      && (forall i :: 0 <= i < |r| ==> r[i] in c)
      && (forall i, x :: 0 <= i < |r| && x in c && x !in r ==> OlderOrSame(ms, r[i], x))
  {
    if PublishedCount(ms) > limit {
      OldestFirstSpec(ms, Candidates(ms, statuses), RETENTION_BATCH);
    }
  }

  // ---------------------------------------------------------------- the engine

  /** The community site's mirrors, and the share meta the engine writes. */
  class MirrorEngine {
    var mirrors: map<nat, Mirror>
    var nextId: nat
    /** `folio_community_share` post meta, by (blog id, post id); `None` is `''`. */
    var postShare: map<(nat, nat), Option<nat>>
    /** `folio_community_share` user meta, by user id. */
    var userShare: map<nat, nat>

    ghost predicate Valid()
      reads this
    {
      ValidStore(Store(mirrors, nextId))
    }

    constructor ()
      ensures Valid() && mirrors == map[] && nextId == 1 && postShare == map[] && userShare == map[]
    {
      mirrors := map[];
      nextId := 1;
      postShare := map[];
      userShare := map[];
    }

    /** `get_community_post_id`: `None` stands for `false`. */
    method GetCommunityPostId(postId: nat, blogId: nat, commId: nat) returns (r: Option<nat>)
      requires Valid()
      ensures commId == 0 ==> r.None?
      ensures commId > 0 ==> r == Lookup(mirrors, postId, blogId)
    {
      r := None;
      if commId > 0 {
        if exists id :: id in mirrors && IsMirrorOf(mirrors, id, postId, blogId) {
          var id :| id in mirrors && IsMirrorOf(mirrors, id, postId, blogId);
          LookupUnique(mirrors, id, postId, blogId);
          r := Some(id);
        }
      }
    }

    /** The oldest-first query of the retention pass, row by row. */
    method OldestMirrors(statuses: set<string>, n: nat) returns (ids: seq<nat>)
      ensures ids == OldestFirst(mirrors, Candidates(mirrors, statuses), n)
    {
      var rest := Candidates(mirrors, statuses);
      ids := [];
      var k := n;
      while k > 0 && rest != {}
        invariant rest <= mirrors.Keys
        invariant ids + OldestFirst(mirrors, rest, k) == OldestFirst(mirrors, Candidates(mirrors, statuses), n)
        decreases k
      {
        OldestExists(mirrors, rest);
        var m :| m in rest && forall x :: x in rest ==> OlderOrSame(mirrors, m, x);
        OldestUnique(mirrors, rest, m);
        ids := ids + [m];
        rest := rest - {m};
        k := k - 1;
      }
    }

    /** `delete_old_comm_posts_if_reached_limit`. */
    method DeleteOldIfReachedLimit(o: SiteOptions, statuses: set<string>) returns (deleted: seq<nat>)
      requires Valid()
      modifies this`mirrors
      ensures Valid()
      ensures deleted == RetentionBatch(old(mirrors), statuses, ActivityLimit(o))
      ensures mirrors == Without(old(mirrors), deleted)
    {
      var limit := ActivityLimit(o);
      var count := |set id | id in mirrors && mirrors[id].fields.status == "publish"|;
      deleted := [];
      if count > limit {
        deleted := OldestMirrors(statuses, RETENTION_BATCH);
        DeleteMirrors(deleted);
      } else {
        assert Without(mirrors, []) == mirrors;
      }
      WithoutValid(Store(old(mirrors), nextId), deleted);
    }

    /** `wp_delete_post` on each id in turn. */
    method DeleteMirrors(ids: seq<nat>)
      modifies this`mirrors
      ensures mirrors == Without(old(mirrors), ids)
    {
      for i := 0 to |ids|
        invariant mirrors == Without(old(mirrors), ids[..i])
      {
        assert ids[..i + 1] == ids[..i] + [ids[i]];
        mirrors := mirrors - {ids[i]};
      }
      assert ids[..|ids|] == ids;
    }

    /** The classroom label loop of `save_community_post`. */
    method BuildClassroomLinks(cs: seq<Classroom>) returns (labels: seq<string>)
      ensures labels == ClassroomLinks(cs)
    {
      labels := [];
      for i := 0 to |cs|
        invariant labels == ClassroomLinks(cs[..i])
      {
        assert cs[..i + 1][..i] == cs[..i];
        if !EmptyString(cs[i].name) {
          labels := labels + [ClassroomLink(cs[i])];
        }
      }
      assert cs[..|cs|] == cs;
    }

    /** `save_community_post`; the id of the written mirror, `None` without a community site. */
    method SaveCommunityPost(post: OriginPost, blogId: nat, commId: nat, vis: Visibility, classrooms: seq<Classroom>,
                             o: SiteOptions, statuses: set<string>, toLocal: int -> int, now: Now)
      returns (written: Option<nat>)
      requires Valid()
      modifies this`mirrors, this`nextId
      ensures Valid()
      ensures commId == 0 ==> written.None? && mirrors == old(mirrors) && nextId == old(nextId)
      ensures commId > 0 ==>
        var (st, id) := SaveResult(Store(old(mirrors), old(nextId)), post, blogId, vis, classrooms, o, statuses, toLocal, now);
        Store(mirrors, nextId) == st && written == Some(id)
    {
      written := None;
      if commId > 0 {
        var deleted := DeleteOldIfReachedLimit(o, statuses);
        var id := WriteMirror(post, blogId, commId, vis, classrooms, toLocal, now);
        written := Some(id);
      }
    }

    /** The insert or update half of `save_community_post`. */
    method WriteMirror(post: OriginPost, blogId: nat, commId: nat, vis: Visibility, classrooms: seq<Classroom>,
                       toLocal: int -> int, now: Now)
      returns (id: nat)
      requires Valid() && commId > 0
      modifies this`mirrors, this`nextId
      ensures Valid()
      ensures (Store(mirrors, nextId), id) ==
        Upsert(Store(old(mirrors), old(nextId)), post, blogId, vis, ClassroomLinks(classrooms), toLocal, now)
    {
      var existing := GetCommunityPostId(post.id, blogId, commId);
      var labels := BuildClassroomLinks(classrooms);
      var fields := MirrorFields(post.fields, toLocal);
      UpsertSpec(Store(mirrors, nextId), post, blogId, vis, labels, toLocal, now);
      if existing.Some? {
        id := existing.value;
      } else {
        id := nextId;
        nextId := nextId + 1;
      }
      mirrors := mirrors[id := Mirror(Stored(fields, existing.Some?, now), post.id, blogId, labels, vis)];
    }

    /** `delete_community_post`. */
    method DeleteCommunityPost(postId: nat, blogId: nat, commId: nat)
      requires Valid()
      modifies this`mirrors
      ensures Valid()
      ensures commId == 0 ==> mirrors == old(mirrors)
      ensures commId > 0 ==> Store(mirrors, nextId) == Unpublish(Store(old(mirrors), nextId), postId, blogId)
    {
      var existing := GetCommunityPostId(postId, blogId, commId);
      UnpublishSpec(Store(mirrors, nextId), postId, blogId);
      if existing.Some? {
        mirrors := mirrors - {existing.value};
      }
    }

    /**
     * `saved_post`: `None` stands for the `false` returned for a post id of 0;
     * otherwise the post id comes back and the mirror is written or deleted
     * as `Decision` says.
     */
    method SavedPost(post: OriginPost, ctx: SaveContext, o: SiteOptions, statuses: set<string>,
                     toLocal: int -> int, now: Now)
      returns (r: Option<nat>)
      requires Valid()
      modifies this
      ensures Valid()
      ensures post.id == 0 <==> r.None?
      ensures r.Some? ==> r.value == post.id
      ensures post.id == 0 || Decision(post, ctx, o) == NoAction ==>
        mirrors == old(mirrors) && nextId == old(nextId)
      ensures post.id != 0 && Decision(post, ctx, o) == DeleteMirror ==>
        Store(mirrors, nextId) == Unpublish(Store(old(mirrors), old(nextId)), post.id, ctx.blogId)
      ensures post.id != 0 && Decision(post, ctx, o) == UpsertMirror ==>
        Store(mirrors, nextId) ==
          SaveResult(Store(old(mirrors), old(nextId)), post, ctx.blogId, ctx.visibility, ctx.classrooms,
                     o, statuses, toLocal, now).0
      ensures postShare ==
        if WritesShareMeta(post, ctx, o) then old(postShare)[(ctx.blogId, post.id) := ShareValue(ctx.share)]
        else old(postShare)
      ensures userShare ==
        if WritesUserShare(post, ctx, o) then old(userShare)[ctx.userId := ShareValue(ctx.share).value]
        else old(userShare)
    {
      if post.id == 0 {
        return None;
      }
      r := Some(post.id);
      if !ShouldMirror(post, ctx) {
        return;
      }
      if ctx.isStudentBlog {
        var commId := CommunityId(o);
        if commId > 0 {
          ApplyShare(post, ctx, o, commId, statuses, toLocal, now);
        }
      }
    }

    /** The part of `saved_post` that runs on a student site with a community site. */
    method ApplyShare(post: OriginPost, ctx: SaveContext, o: SiteOptions, commId: nat, statuses: set<string>,
                      toLocal: int -> int, now: Now)
      requires Valid() && post.id != 0 && ShouldMirror(post, ctx) && ctx.isStudentBlog
      requires commId == CommunityId(o) && commId > 0
      modifies this
      ensures Valid()
      ensures Decision(post, ctx, o) == DeleteMirror ==>
        Store(mirrors, nextId) == Unpublish(Store(old(mirrors), old(nextId)), post.id, ctx.blogId)
      ensures Decision(post, ctx, o) == UpsertMirror ==>
        Store(mirrors, nextId) ==
          SaveResult(Store(old(mirrors), old(nextId)), post, ctx.blogId, ctx.visibility, ctx.classrooms,
                     o, statuses, toLocal, now).0
      ensures postShare == old(postShare)[(ctx.blogId, post.id) := ShareValue(ctx.share)]
      ensures userShare ==
        if !IsBlacklisted(o, ctx.userEmail) && ctx.share.Some? then old(userShare)[ctx.userId := ShareValue(ctx.share).value]
        else old(userShare)
    {
      RecordShare(post, ctx, o);
      UserMirror(post, ctx, o, commId, statuses, toLocal, now);
    }

    /** The share meta half: the post's box always, the current user's default only when not blacklisted. */
    method RecordShare(post: OriginPost, ctx: SaveContext, o: SiteOptions)
      modifies this`postShare, this`userShare
      ensures postShare == old(postShare)[(ctx.blogId, post.id) := ShareValue(ctx.share)]
      ensures userShare ==
        if !IsBlacklisted(o, ctx.userEmail) && ctx.share.Some? then old(userShare)[ctx.userId := ShareValue(ctx.share).value]
        else old(userShare)
    {
      var blacklisted := ctx.userEmail in Blacklist(o);
      var share := ShareValue(ctx.share);
      postShare := postShare[(ctx.blogId, post.id) := share];
      ghost var written := postShare;
      if !blacklisted && share.Some? {
        postShare := postShare[(ctx.blogId, post.id) := share];
        assert postShare == written;
        userShare := userShare[ctx.userId := share.value];
      }
    }

    /** The mirror half of the student-site branch: the mirror goes when the current user is blacklisted. */
    method UserMirror(post: OriginPost, ctx: SaveContext, o: SiteOptions, commId: nat, statuses: set<string>,
                        toLocal: int -> int, now: Now)
      requires Valid() && post.id != 0 && ShouldMirror(post, ctx) && ctx.isStudentBlog
      requires commId == CommunityId(o) && commId > 0
      modifies this`mirrors, this`nextId
      ensures Valid()
      ensures Decision(post, ctx, o) == DeleteMirror ==>
        Store(mirrors, nextId) == Unpublish(Store(old(mirrors), old(nextId)), post.id, ctx.blogId)
      ensures Decision(post, ctx, o) == UpsertMirror ==>
        Store(mirrors, nextId) ==
          SaveResult(Store(old(mirrors), old(nextId)), post, ctx.blogId, ctx.visibility, ctx.classrooms,
                     o, statuses, toLocal, now).0
    {
      if ctx.userEmail in Blacklist(o) {
        DeleteCommunityPost(post.id, ctx.blogId, commId);
      } else {
        ShareMirror(post, ctx, o, commId, statuses, toLocal, now);
      }
    }

    /** The share branch of `saved_post` for a current user who is not blacklisted. */
    method ShareMirror(post: OriginPost, ctx: SaveContext, o: SiteOptions, commId: nat, statuses: set<string>,
                       toLocal: int -> int, now: Now)
      requires Valid() && commId > 0
      modifies this`mirrors, this`nextId
      ensures Valid()
      ensures ShareValue(ctx.share) != Some(1) || !Eligible(ctx.visibility) ==>
        Store(mirrors, nextId) == Unpublish(Store(old(mirrors), old(nextId)), post.id, ctx.blogId)
      ensures ShareValue(ctx.share) == Some(1) && Eligible(ctx.visibility) ==>
        Store(mirrors, nextId) ==
          SaveResult(Store(old(mirrors), old(nextId)), post, ctx.blogId, ctx.visibility, ctx.classrooms,
                     o, statuses, toLocal, now).0
    {
      var share := ShareValue(ctx.share);
      if share != Some(1) {
        DeleteCommunityPost(post.id, ctx.blogId, commId);
      } else if Eligible(ctx.visibility) {
        var written := SaveCommunityPost(post, ctx.blogId, commId, ctx.visibility, ctx.classrooms,
                                         o, statuses, toLocal, now);
      } else {
        DeleteCommunityPost(post.id, ctx.blogId, commId);
      }
    }

    /** `deleted_post`: `None` stands for the `false` returned for a post id of 0. */
    method DeletedPost(postId: nat, isStudentBlog: bool, blogId: nat, o: SiteOptions) returns (r: Option<nat>)
      requires Valid()
      modifies this`mirrors
      ensures Valid()
      ensures postId == 0 <==> r.None?
      ensures r.Some? ==> r.value == postId
      ensures postId == 0 || !isStudentBlog || CommunityId(o) == 0 ==> mirrors == old(mirrors)
      ensures postId != 0 && isStudentBlog && CommunityId(o) > 0 ==>
        Store(mirrors, nextId) == Unpublish(Store(old(mirrors), nextId), postId, blogId)
    {
      if postId == 0 {
        return None;
      }
      if isStudentBlog {
        var commId := CommunityId(o);
        if commId > 0 {
          DeleteCommunityPost(postId, blogId, commId);
        }
      }
      r := Some(postId);
    }
  }
}
