/**
 * The blog's tables (blog/models.py) as a value: one map per table from
 * primary key to row. Foreign keys are ids; `Option` stands for a nullable
 * foreign key. The `on_delete` rules are the `Without…` members of `Db`.
 */
module Models {

  datatype Option<T> = None | Some(value: T)

  type UserId = nat
  type CategoryId = nat
  type LocationId = nat
  type PostId = nat
  type CommentId = nat

  /** The fields of Django's user model that the blog reads or edits. */
  datatype User = User(username: string, firstName: string, lastName: string, email: string)

  datatype Category = Category(
    title: string,
    description: string,
    slug: string,
    isPublished: bool,
    createdAt: int)

  datatype Location = Location(name: string, isPublished: bool, createdAt: int)

  datatype Post = Post(
    title: string,
    text: string,
    pubDate: int,
    isPublished: bool,
    createdAt: int,
    author: UserId,
    location: Option<LocationId>,
    category: Option<CategoryId>)

  datatype Comment = Comment(text: string, pubDate: int, author: UserId, post: PostId)

  /**
   * The editable fields of a post as a form submits them. `isPublished ==
   * None` means the form leaves the flag unset: a new post then takes the
   * model default, an existing post keeps its value.
   */
  datatype PostFields = PostFields(
    title: string,
    text: string,
    pubDate: int,
    isPublished: Option<bool>,
    location: Option<LocationId>,
    category: Option<CategoryId>)

  /** `is_published` is declared with `default=True`. */
  function PublishedOrDefault(explicit: Option<bool>): bool
  {
    match explicit
    case None => true
    case Some(b) => b
  }

  function NewCategory(title: string, description: string, slug: string,
                       isPublished: Option<bool>, createdAt: int): (c: Category)
    ensures c.isPublished <==> isPublished != Some(false)
    ensures c.slug == slug && c.createdAt == createdAt
  {
    Category(title, description, slug, PublishedOrDefault(isPublished), createdAt)
  }

  function NewLocation(name: string, isPublished: Option<bool>, createdAt: int): (l: Location)
    ensures l.isPublished <==> isPublished != Some(false)
    ensures l.name == name && l.createdAt == createdAt
  {
    Location(name, PublishedOrDefault(isPublished), createdAt)
  }

  function NewPost(f: PostFields, author: UserId, createdAt: int): (p: Post)
    ensures p.isPublished <==> f.isPublished != Some(false)
    ensures p.author == author && p.createdAt == createdAt
    ensures p.category == f.category && p.location == f.location && p.pubDate == f.pubDate
  {
    Post(f.title, f.text, f.pubDate, PublishedOrDefault(f.isPublished), createdAt,
         author, f.location, f.category)
  }

  /** A post after an edit: the author and creation time never change. */
  function EditedPost(p: Post, f: PostFields): (q: Post)
    ensures q.author == p.author && q.createdAt == p.createdAt
    ensures q.isPublished == if f.isPublished.Some? then f.isPublished.value else p.isPublished
    ensures q.category == f.category && q.location == f.location && q.pubDate == f.pubDate
  {
    Post(f.title, f.text, f.pubDate,
         if f.isPublished.Some? then f.isPublished.value else p.isPublished,
         p.createdAt, p.author, f.location, f.category)
  }

  datatype Db = Db(
    users: map<UserId, User>,
    categories: map<CategoryId, Category>,
    locations: map<LocationId, Location>,
    posts: map<PostId, Post>,
    comments: map<CommentId, Comment>)
  {
    /** `slug` is declared `unique=True`. */
    predicate SlugsUnique()
    {
      forall a, b :: a in categories && b in categories && a != b ==>
        categories[a].slug != categories[b].slug
    }

    /** Django's user model declares `username` unique. */
    predicate UsernamesUnique()
    {
      forall a, b :: a in users && b in users && a != b ==>
        users[a].username != users[b].username
    }

    predicate PostRefsExist(p: Post)
    {
      && p.author in users
      && (p.category.Some? ==> p.category.value in categories)
      && (p.location.Some? ==> p.location.value in locations)
    }

    predicate CommentRefsExist(c: Comment)
    {
      c.author in users && c.post in posts
    }

    /** Referential integrity of every foreign key, plus the unique columns. */
    predicate Valid()
      ensures Valid() ==> forall k :: k in comments ==>
        comments[k].post in posts && posts[comments[k].post].author in users
    {
      && (forall p :: p in posts ==> PostRefsExist(posts[p]))
      && (forall k :: k in comments ==> CommentRefsExist(comments[k]))
      && SlugsUnique()
      && UsernamesUnique()
    }

    /** The comments whose `post` is `p`. */
    function CommentsOn(p: PostId): set<CommentId>
    {
      set k | k in comments && comments[k].post == p
    }

    /** `Post.comment_count`: the comments filtered by post, counted. */
    function CommentCount(p: PostId): (n: nat)
      ensures n <= |comments|
      ensures n == 0 <==> forall k :: k in comments ==> comments[k].post != p
    {
      var on := CommentsOn(p);
      assert on == {} <==> forall k :: k in comments ==> comments[k].post != p by {
        if on != {} {
          var k :| k in on;
          assert k in comments && comments[k].post == p;
        } else {
          forall k | k in comments ensures comments[k].post != p {
            assert k !in on;
          }
        }
      }
      SubsetNoLarger(on, comments.Keys);
      |on|
    }

    /** A comment is deleted; nothing refers to comments, so nothing else changes. */
    function WithoutComment(k: CommentId): (r: Db)
      ensures r.comments.Keys == comments.Keys - {k}
      ensures forall j :: j in r.comments ==> r.comments[j] == comments[j]
      ensures r.users == users && r.categories == categories
      ensures r.locations == locations && r.posts == posts
      ensures Valid() ==> r.Valid()
    {
      this.(comments := comments - {k})
    }

    /** A post is deleted; `Comment.post` is `CASCADE`. */
    function WithoutPost(p: PostId): (r: Db)
      ensures r.posts.Keys == posts.Keys - {p}
      ensures forall q :: q in r.posts ==> r.posts[q] == posts[q]
      ensures forall k :: k in r.comments <==> k in comments && comments[k].post != p
      ensures forall k :: k in r.comments ==> r.comments[k] == comments[k]
      ensures r.users == users && r.categories == categories && r.locations == locations
      ensures Valid() ==> r.Valid()
    {
      this.(posts := posts - {p}, comments := comments - CommentsOn(p))
    }

    /** The posts whose author is `u`. */
    function PostsBy(u: UserId): set<PostId>
    {
      set q | q in posts && posts[q].author == u
    }

    /** The comments that deleting `u` and the posts `authored` cascades to. */
    function CommentsCascading(u: UserId, authored: set<PostId>): set<CommentId>
    {
      set k | k in comments && (comments[k].author == u || comments[k].post in authored)
    }

    /** A post of `u` is among the rows that deleting `u` cascades to. */
    predicate AuthoredBy(p: PostId, u: UserId)
    {
      p in posts && posts[p].author == u
    }

    /**
     * A user is deleted; `Post.author` and `Comment.author` are `CASCADE`,
     * and so is `Comment.post` for the posts that go.
     */
    function WithoutUser(u: UserId): (r: Db)
      ensures r.users.Keys == users.Keys - {u}
      ensures forall v :: v in r.users ==> r.users[v] == users[v]
      ensures forall q :: q in r.posts <==> q in posts && posts[q].author != u
      ensures forall q :: q in r.posts ==> r.posts[q] == posts[q]
      ensures forall k :: k in r.comments <==>
        k in comments && comments[k].author != u && !AuthoredBy(comments[k].post, u)
      ensures forall k :: k in r.comments ==> r.comments[k] == comments[k]
      ensures r.categories == categories && r.locations == locations
    {
      var authored := PostsBy(u);
      Db(users - {u}, categories, locations, posts - authored, comments - CommentsCascading(u, authored))
    }

    /** The user cascade leaves no dangling reference behind. */
    lemma WithoutUserKeepsValid(u: UserId)
      requires Valid()
      ensures WithoutUser(u).Valid()
    {
      var r := WithoutUser(u);
      forall q | q in r.posts ensures r.PostRefsExist(r.posts[q]) {
        assert PostRefsExist(posts[q]);
      }
      forall k | k in r.comments ensures r.CommentRefsExist(r.comments[k]) {
        assert CommentRefsExist(comments[k]);
      }
    }

    /** A category is deleted; `Post.category` is `SET_NULL`. */
    function WithoutCategory(c: CategoryId): (r: Db)
      ensures r.categories.Keys == categories.Keys - {c}
      ensures forall d :: d in r.categories ==> r.categories[d] == categories[d]
      ensures r.posts.Keys == posts.Keys
      ensures forall q :: q in posts ==>
        r.posts[q] == if posts[q].category == Some(c) then posts[q].(category := None) else posts[q]
      ensures r.users == users && r.locations == locations && r.comments == comments
      ensures Valid() ==> r.Valid()
    {
      this.(categories := categories - {c}, posts := CategorySetNull(posts, c))
    }

    /** A location is deleted; `Post.location` is `SET_NULL`. */
    function WithoutLocation(l: LocationId): (r: Db)
      ensures r.locations.Keys == locations.Keys - {l}
      ensures forall d :: d in r.locations ==> r.locations[d] == locations[d]
      ensures r.posts.Keys == posts.Keys
      ensures forall q :: q in posts ==>
        r.posts[q] == if posts[q].location == Some(l) then posts[q].(location := None) else posts[q]
      ensures r.users == users && r.categories == categories && r.comments == comments
      ensures Valid() ==> r.Valid()
    {
      this.(locations := locations - {l}, posts := LocationSetNull(posts, l))
    }
  }

  /** The `SET_NULL` update of `Post.category` when category `c` goes. */
  function CategorySetNull(posts: map<PostId, Post>, c: CategoryId): map<PostId, Post>
  {
    map q | q in posts :: if posts[q].category == Some(c) then posts[q].(category := None) else posts[q]
  }

  /** The `SET_NULL` update of `Post.location` when location `l` goes. */
  function LocationSetNull(posts: map<PostId, Post>, l: LocationId): map<PostId, Post>
  {
    map q | q in posts :: if posts[q].location == Some(l) then posts[q].(location := None) else posts[q]
  }

  /** A subset has no more elements than its superset. */
  lemma {:induction false} SubsetNoLarger<T>(a: set<T>, b: set<T>)
    requires a <= b
    ensures |a| <= |b|
    decreases a
  {
    if a != {} {
      var x :| x in a;
      SubsetNoLarger(a - {x}, b - {x});
    }
  }

  /** Deleting one of `p`'s comments lowers `p`'s count by one and no other post's. */
  lemma CommentCountAfterDelete(db: Db, k: CommentId, q: PostId)
    requires k in db.comments
    ensures q == db.comments[k].post ==>
      db.WithoutComment(k).CommentCount(q) == db.CommentCount(q) - 1
    ensures q != db.comments[k].post ==>
      db.WithoutComment(k).CommentCount(q) == db.CommentCount(q)
  {
    var r := db.WithoutComment(k);
    if q == db.comments[k].post {
      assert r.CommentsOn(q) == db.CommentsOn(q) - {k};
    } else {
      assert r.CommentsOn(q) == db.CommentsOn(q);
    }
  }

  /** Adding a comment on `p` raises `p`'s count by one and no other post's. */
  lemma CommentCountAfterAdd(db: Db, k: CommentId, c: Comment, q: PostId)
    requires k !in db.comments
    ensures q == c.post ==>
      db.(comments := db.comments[k := c]).CommentCount(q) == db.CommentCount(q) + 1
    ensures q != c.post ==>
      db.(comments := db.comments[k := c]).CommentCount(q) == db.CommentCount(q)
  {
    var r := db.(comments := db.comments[k := c]);
    if q == c.post {
      assert r.CommentsOn(q) == db.CommentsOn(q) + {k};
    } else {
      assert r.CommentsOn(q) == db.CommentsOn(q);
    }
  }

  /** After a post is deleted it has no comments left; other posts keep theirs. */
  lemma CommentCountAfterPostDelete(db: Db, p: PostId, q: PostId)
    ensures db.WithoutPost(p).CommentCount(p) == 0
    ensures q != p ==> db.WithoutPost(p).CommentCount(q) == db.CommentCount(q)
  {
    var r := db.WithoutPost(p);
    assert r.CommentsOn(p) == {};
    if q != p {
      assert r.CommentsOn(q) == db.CommentsOn(q);
    }
  }

  /**
   * After a user is deleted, nothing they wrote remains and no comment
   * remains on any of their posts.
   */
  lemma UserDeleteRemovesAuthored(db: Db, u: UserId)
    requires db.Valid()
    ensures forall q :: q in db.WithoutUser(u).posts ==> db.WithoutUser(u).posts[q].author != u
    ensures forall k :: k in db.WithoutUser(u).comments ==>
      && db.WithoutUser(u).comments[k].author != u
      && db.WithoutUser(u).comments[k].post in db.WithoutUser(u).posts
    ensures forall k :: k in db.comments && db.posts[db.comments[k].post].author == u ==>
      k !in db.WithoutUser(u).comments
  {
  }

  /** Deleting a category or location removes no post and changes only that reference. */
  lemma SetNullKeepsPosts(db: Db, c: CategoryId, l: LocationId, q: PostId)
    requires q in db.posts
    ensures q in db.WithoutCategory(c).posts && q in db.WithoutLocation(l).posts
    ensures db.WithoutCategory(c).posts[q].category != Some(c)
    ensures db.WithoutLocation(l).posts[q].location != Some(l)
    ensures db.WithoutCategory(c).posts[q].(category := db.posts[q].category) == db.posts[q]
    ensures db.WithoutLocation(l).posts[q].(location := db.posts[q].location) == db.posts[q]
  {
  }
}
