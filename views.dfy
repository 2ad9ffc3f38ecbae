/**
 * The read paths of blog/views.py as pure functions of the tables, the
 * request time `now` and the requesting user `viewer` (`None` for an
 * anonymous visitor), plus the responses the write paths return.
 */
module Views {
  import opened Models
  import Ordering

  /** `paginate_by = 10` on every listing. */
  const PageSize: nat := 10

  /** A lookup through `get_object_or_404`. */
  datatype Lookup<T> = NotFound | Found(value: T)

  /** What a write path answers. */
  datatype Response =
    | Http404
    | ToLogin
    | ToPostDetail(pk: PostId)
    | ToProfile(username: string)
    | ToProfileEdit(username: string)
    | FormErrors
    | ServerError

  function PostDates(db: Db): map<nat, int>
  {
    map p | p in db.posts :: db.posts[p].pubDate
  }

  function CommentDates(db: Db): map<nat, int>
  {
    map k | k in db.comments :: db.comments[k].pubDate
  }

  predicate AllPosts(db: Db, s: seq<nat>)
  {
    forall i :: 0 <= i < |s| ==> s[i] in db.posts
  }

  /** `Post.Meta.ordering = ['-pub_date']`. */
  predicate NewestFirst(db: Db, s: seq<PostId>)
    requires AllPosts(db, s)
  {
    Ordering.Sorted(s, PostDates(db), true)
  }

  predicate AllComments(db: Db, s: seq<nat>)
  {
    forall i :: 0 <= i < |s| ==> s[i] in db.comments
  }

  /** `Comment.Meta.ordering = ['pub_date']`. */
  predicate OldestFirst(db: Db, s: seq<CommentId>)
    requires AllComments(db, s)
  {
    Ordering.Sorted(s, CommentDates(db), false)
  }

  /** The posts `ids` as a post listing: each once, newest first. */
  ghost function PostListing(db: Db, ids: set<PostId>): (r: seq<PostId>)
    requires ids <= db.posts.Keys
    ensures |r| == |ids|
    ensures forall p :: p in r <==> p in ids
    ensures Ordering.Distinct(r)
    ensures AllPosts(db, r) && NewestFirst(db, r)
  {
    Ordering.Listing(ids, PostDates(db), true)
  }

  /** The comments `ids` as a comment listing: each once, oldest first. */
  ghost function CommentListing(db: Db, ids: set<CommentId>): (r: seq<CommentId>)
    requires ids <= db.comments.Keys
    ensures |r| == |ids|
    ensures forall k :: k in r <==> k in ids
    ensures Ordering.Distinct(r)
    ensures AllComments(db, r) && OldestFirst(db, r)
  {
    Ordering.Listing(ids, CommentDates(db), false)
  }

  /**
   * The filter of the index queryset and of the non-author branch of post
   * detail: published, in a category that exists and is published (the
   * join `category__is_published=True` drops posts without a category),
   * and not dated after `now`.
   */
  predicate PubliclyVisible(db: Db, p: PostId, now: int)
    requires p in db.posts
  {
    var post := db.posts[p];
    && post.isPublished
    && post.category.Some?
    && post.category.value in db.categories
    && db.categories[post.category.value].isPublished
    && post.pubDate <= now
  }

  /** The index feed evaluated at time `now`. */
  ghost function IndexFeed(db: Db, now: int): (r: seq<PostId>)
    ensures forall p :: p in r <==> p in db.posts && PubliclyVisible(db, p, now)
    ensures Ordering.Distinct(r)
    ensures AllPosts(db, r) && NewestFirst(db, r)
  {
    PostListing(db, set p | p in db.posts && PubliclyVisible(db, p, now))
  }

  /**
   * The index feed as the view builds it: the queryset is a class
   * attribute, so `timezone.now()` is read once, when the module is loaded
   * (`startupNow`), and the time of the request plays no part.
   */
  ghost function IndexAsWritten(db: Db, startupNow: int, requestNow: int): (r: seq<PostId>)
    ensures forall p :: p in r <==> p in db.posts && PubliclyVisible(db, p, startupNow)
    ensures Ordering.Distinct(r)
    ensures AllPosts(db, r) && NewestFirst(db, r)
  {
    IndexFeed(db, startupNow)
  }

  /**
   * A post that falls due after the server started never reaches the
   * index as written, although it is due at the time of the request.
   */
  lemma IndexAsWrittenMissesDuePost(db: Db, startupNow: int, requestNow: int, p: PostId)
    requires p in db.posts && PubliclyVisible(db, p, requestNow)
    requires startupNow < db.posts[p].pubDate
    ensures p in IndexFeed(db, requestNow)
    ensures p !in IndexAsWritten(db, startupNow, requestNow)
  {
  }

  /** Page `number` (counted from 1) of a listing. */
  function Page<T>(items: seq<T>, number: nat): (r: seq<T>)
    requires number >= 1
    ensures |r| <= PageSize
    ensures (number - 1) * PageSize >= |items| ==> r == []
    ensures (number - 1) * PageSize < |items| ==>
      |r| == if |items| - (number - 1) * PageSize < PageSize
             then |items| - (number - 1) * PageSize else PageSize
    ensures forall i :: 0 <= i < |r| ==> r[i] == items[(number - 1) * PageSize + i]
  {
    var start := (number - 1) * PageSize;
    if start >= |items| then []
    else items[start .. if start + PageSize <= |items| then start + PageSize else |items|]
  }

  /** Item `i` of a listing is item `i % 10` of page `i / 10 + 1`. */
  lemma PageHolds<T>(items: seq<T>, i: nat)
    requires i < |items|
    ensures i % PageSize < |Page(items, i / PageSize + 1)|
    ensures Page(items, i / PageSize + 1)[i % PageSize] == items[i]
  {
    assert (i / PageSize) * PageSize + i % PageSize == i;
  }

  /** A character the `slug` path converter accepts: `[-a-zA-Z0-9_]`. */
  predicate SlugChar(c: char)
  {
    ('a' <= c <= 'z') || ('A' <= c <= 'Z') || ('0' <= c <= '9') || c == '-' || c == '_'
  }

  /** A string the `slug` path converter matches: one or more slug characters. */
  predicate IsSlug(s: string)
  {
    |s| > 0 && forall i :: 0 <= i < |s| ==> SlugChar(s[i])
  }

  /**
   * A redirect to `blog:profile` for `username`. The route takes the
   * username through the `slug` converter, so reversing it for any other
   * username raises and the request ends in the server-error handler.
   */
  function ProfileRedirect(username: string): (r: Response)
    ensures r == ToProfile(username) <==> IsSlug(username)
    ensures r != ToProfile(username) ==> r == ServerError
  {
    if IsSlug(username) then ToProfile(username) else ServerError
  }

  /**
   * Usernames that Django's user model accepts but the `slug` converter
   * does not, such as one with a dot, get a server error instead of the
   * profile page; slug usernames reach it.
   */
  lemma ProfileRedirectRejectsDottedName()
    ensures ProfileRedirect("john.doe") == ServerError
    ensures ProfileRedirect("john_doe-2") == ToProfile("john_doe-2")
    ensures ProfileRedirect("") == ServerError
  {
    assert !SlugChar("john.doe"[4]);
  }

  /** What post detail shows: the post, its comments and their count. */
  datatype DetailPage = DetailPage(post: PostId, comments: seq<CommentId>, commentCount: nat)

  /**
   * Post detail. The post must exist; its author sees it whatever its
   * flags and date; anyone else sees it only when it is publicly visible.
   */
  ghost function PostDetail(db: Db, now: int, viewer: Option<UserId>, pk: PostId): (r: Lookup<DetailPage>)
    ensures r.Found? <==>
      pk in db.posts && (viewer == Some(db.posts[pk].author) || PubliclyVisible(db, pk, now))
    ensures r.Found? ==> r.value.post == pk
    ensures r.Found? ==> forall k :: k in r.value.comments <==> k in db.comments && db.comments[k].post == pk
    ensures r.Found? ==> Ordering.Distinct(r.value.comments)
    ensures r.Found? ==> AllComments(db, r.value.comments) && OldestFirst(db, r.value.comments)
    ensures r.Found? ==>
      r.value.commentCount == |r.value.comments| == db.CommentCount(pk)
  {
    if pk !in db.posts then NotFound
    else if viewer != Some(db.posts[pk].author) && !PubliclyVisible(db, pk, now) then NotFound
    else
      var comments := CommentListing(db, db.CommentsOn(pk));
      Found(DetailPage(pk, comments, |comments|))
  }

  /** A post dated after `now` is hidden from everyone but its author. */
  lemma FuturePostHiddenFromOthers(db: Db, now: int, viewer: Option<UserId>, p: PostId)
    requires p in db.posts && now < db.posts[p].pubDate
    ensures p !in IndexFeed(db, now)
    ensures PostDetail(db, now, viewer, p).Found? <==> viewer == Some(db.posts[p].author)
  {
  }

  /** A category that the category feed can show. */
  predicate PublishedCategory(db: Db, c: CategoryId, slug: string)
  {
    c in db.categories && db.categories[c].slug == slug && db.categories[c].isPublished
  }

  /** The filter of the category feed's posts. */
  predicate InCategoryFeed(db: Db, p: PostId, c: CategoryId, now: int)
    requires p in db.posts
  {
    db.posts[p].category == Some(c) && db.posts[p].isPublished && db.posts[p].pubDate <= now
  }

  datatype CategoryPage = CategoryPage(category: CategoryId, posts: seq<PostId>)

  /** The category feed for the slug in the route. */
  ghost function CategoryFeed(db: Db, now: int, slug: string): (r: Lookup<CategoryPage>)
    ensures r.NotFound? <==> !exists c :: PublishedCategory(db, c, slug)
    ensures r.Found? ==> PublishedCategory(db, r.value.category, slug)
    ensures r.Found? ==> forall p :: p in r.value.posts <==>
      p in db.posts && InCategoryFeed(db, p, r.value.category, now)
    ensures r.Found? ==> Ordering.Distinct(r.value.posts)
    ensures r.Found? ==> AllPosts(db, r.value.posts) && NewestFirst(db, r.value.posts)
  {
    if exists c :: PublishedCategory(db, c, slug) then
      var c :| PublishedCategory(db, c, slug);
      Found(CategoryPage(c, PostListing(db, set p | p in db.posts && InCategoryFeed(db, p, c, now))))
    else NotFound
  }

  /**
   * With unique slugs, the category feed shows the one category with the
   * slug, and an unpublished category's feed is not found.
   */
  lemma CategoryFeedSelectsCategory(db: Db, now: int, c: CategoryId)
    requires db.SlugsUnique() && c in db.categories
    ensures var r := CategoryFeed(db, now, db.categories[c].slug);
      && (r.Found? <==> db.categories[c].isPublished)
      && (r.Found? ==> r.value.category == c)
  {
    var slug := db.categories[c].slug;
    if db.categories[c].isPublished {
      assert PublishedCategory(db, c, slug);
    }
    if exists d :: PublishedCategory(db, d, slug) {
      var d :| PublishedCategory(db, d, slug);
      assert d == c;
    }
  }

  datatype ProfilePage = ProfilePage(user: UserId, posts: seq<PostId>)

  predicate HasUsername(db: Db, u: UserId, username: string)
  {
    u in db.users && db.users[u].username == username
  }

  /**
   * The profile feed: every post of the user named in the route, newest
   * first. The viewer plays no part: no visibility filter is applied.
   */
  ghost function ProfileFeed(db: Db, viewer: Option<UserId>, username: string): (r: Lookup<ProfilePage>)
    ensures r.NotFound? <==> !exists u :: HasUsername(db, u, username)
    ensures r.Found? ==> HasUsername(db, r.value.user, username)
    ensures r.Found? ==> forall p :: p in r.value.posts <==>
      p in db.posts && db.posts[p].author == r.value.user
    ensures r.Found? ==> Ordering.Distinct(r.value.posts)
    ensures r.Found? ==> AllPosts(db, r.value.posts) && NewestFirst(db, r.value.posts)
  {
    if exists u :: HasUsername(db, u, username) then
      var u :| HasUsername(db, u, username);
      Found(ProfilePage(u, PostListing(db, set p | p in db.posts && db.posts[p].author == u)))
    else NotFound
  }

  /**
   * Every post is listed on its author's profile for every viewer, however
   * it is flagged or dated: the profile feed exposes drafts and scheduled
   * posts to other users.
   */
  lemma ProfileShowsEveryPost(db: Db, viewer: Option<UserId>, p: PostId)
    requires db.Valid() && p in db.posts
    ensures var author := db.posts[p].author;
      var r := ProfileFeed(db, viewer, db.users[author].username);
      r.Found? && r.value.user == author && p in r.value.posts
  {
    var author := db.posts[p].author;
    assert db.PostRefsExist(db.posts[p]);
    var r := ProfileFeed(db, viewer, db.users[author].username);
    assert HasUsername(db, author, db.users[author].username);
    assert r.value.user == author;
  }

  /**
   * The route names of the `blog` namespace (blog/urls.py). Reversing a
   * name outside this set raises, and the request ends in the server-error
   * handler.
   */
  const BlogRouteNames: set<string> := {
    "index", "post_detail", "category_posts", "profile", "edit_profile", "create_post",
    "edit_post", "add_comment", "edit_comment", "delete_comment", "delete_post" }

  /** The username `redirect_to_profile_update` reads: empty for an anonymous visitor. */
  function SessionUsername(db: Db, viewer: Option<UserId>): string
    requires viewer.Some? ==> viewer.value in db.users
  {
    if viewer.None? then "" else db.users[viewer.value].username
  }

  /**
   * `redirect_to_profile_update` as written: an empty username goes to the
   * login page; any other reverses `blog:update-profile`, a name the `blog`
   * namespace does not have, so the request fails.
   */
  function RedirectToProfileUpdateAsWritten(db: Db, viewer: Option<UserId>): (r: Response)
    requires viewer.Some? ==> viewer.value in db.users
    ensures r == ToLogin <==> viewer.None? || db.users[viewer.value].username == ""
    ensures r != ToLogin ==> r == ServerError
  {
    var username := SessionUsername(db, viewer);
    if username == "" then ToLogin
    else if "update-profile" in BlogRouteNames then ToProfileEdit(username)
    else ServerError
  }

  /**
   * `redirect_to_profile_update` as intended: an empty username goes to the
   * login page, any other to the `edit_profile` route of that username.
   */
  function RedirectToProfileUpdate(db: Db, viewer: Option<UserId>): (r: Response)
    requires viewer.Some? ==> viewer.value in db.users
    ensures r == ToLogin <==> viewer.None? || db.users[viewer.value].username == ""
    ensures r != ToLogin ==> r == ToProfileEdit(db.users[viewer.value].username)
  {
    var username := SessionUsername(db, viewer);
    if username == "" then ToLogin
    else ToProfileEdit(username)
  }

  /** A signed-in user with a username never reaches the edit page as written. */
  lemma RedirectAsWrittenFailsForSignedIn(db: Db, u: UserId)
    requires u in db.users && db.users[u].username != ""
    ensures RedirectToProfileUpdateAsWritten(db, Some(u)) == ServerError
    ensures RedirectToProfileUpdate(db, Some(u)) == ToProfileEdit(db.users[u].username)
    ensures "edit_profile" in BlogRouteNames && "update-profile" !in BlogRouteNames
  {
  }

  /**
   * With unique usernames, the intended redirect names the viewer's own
   * profile and no other: the profile edit view then finds the viewer as
   * the profile's owner, so its owner check lets the viewer through.
   */
  lemma RedirectNamesOwnProfile(db: Db, u: UserId)
    requires db.UsernamesUnique() && u in db.users && db.users[u].username != ""
    ensures RedirectToProfileUpdate(db, Some(u)).ToProfileEdit?
    ensures var name := RedirectToProfileUpdate(db, Some(u)).username;
      && HasUsername(db, u, name)
      && forall v :: HasUsername(db, v, name) ==> v == u
  {
  }

  /** The route of the comment edit and delete views: `posts/<pk>/…/<comment_pk>/`. */
  datatype CommentRoute = CommentRoute(pk: PostId, commentPk: CommentId)

  /**
   * The comment that `CommentUpdate` and `CommentDelete` load: they set no
   * lookup keyword, so `get_object` takes the route's `pk`, the id of the
   * post, as the id of the comment.
   */
  function CommentLookupAsWritten(db: Db, route: CommentRoute): (r: Lookup<CommentId>)
    ensures r.Found? ==> r.value in db.comments && r.value == route.pk
    ensures r.NotFound? <==> route.pk !in db.comments
  {
    if route.pk in db.comments then Found(route.pk) else NotFound
  }

  /** The comment the route names: the one with id `comment_pk`. */
  function CommentLookup(db: Db, route: CommentRoute): (r: Lookup<CommentId>)
    ensures r.Found? ==> r.value in db.comments && r.value == route.commentPk
    ensures r.NotFound? <==> route.commentPk !in db.comments
  {
    if route.commentPk in db.comments then Found(route.commentPk) else NotFound
  }

  /**
   * Whenever the post id and the comment id in the route differ, the views
   * as written act on some other comment than the one the route names, or
   * answer not found.
   */
  lemma CommentLookupAsWrittenMissesComment(db: Db, route: CommentRoute)
    requires route.commentPk in db.comments && route.pk != route.commentPk
    ensures CommentLookup(db, route) == Found(route.commentPk)
    ensures CommentLookupAsWritten(db, route) != Found(route.commentPk)
  {
  }
}
