/**
 * The blog's tables as mutable state, and the paths that change them: the
 * ownership-guarded create/update/delete views of blog/views.py, and the
 * deletes whose cascades blog/models.py declares. Each table is a map field
 * that the methods reassign; `State()` is the tables as a `Models.Db`.
 */
module Blog {
  import opened Models
  import opened Views

  /** Every key is below the next auto-increment value, so that value is fresh. */
  ghost predicate KeysBelow(keys: set<nat>, next: nat)
  {
    forall k :: k in keys ==> k < next
  }

  /** The next primary key of each table. */
  datatype Counters = Counters(user: nat, category: nat, location: nat, post: nat, comment: nat)

  /** The tables keep their references, and every next key is fresh. */
  ghost predicate Consistent(db: Db, next: Counters)
  {
    && db.Valid()
    && KeysBelow(db.users.Keys, next.user)
    && KeysBelow(db.categories.Keys, next.category)
    && KeysBelow(db.locations.Keys, next.location)
    && KeysBelow(db.posts.Keys, next.post)
    && KeysBelow(db.comments.Keys, next.comment)
  }

  // Each cascading delete keeps the tables consistent.

  lemma UserDeleteConsistent(db: Db, next: Counters, u: UserId)
    requires Consistent(db, next)
    ensures Consistent(db.WithoutUser(u), next)
  {
    db.WithoutUserKeepsValid(u);
  }

  lemma CategoryDeleteConsistent(db: Db, next: Counters, c: CategoryId)
    requires Consistent(db, next)
    ensures Consistent(db.WithoutCategory(c), next)
  {
  }

  lemma LocationDeleteConsistent(db: Db, next: Counters, l: LocationId)
    requires Consistent(db, next)
    ensures Consistent(db.WithoutLocation(l), next)
  {
  }

  lemma PostDeleteConsistent(db: Db, next: Counters, p: PostId)
    requires Consistent(db, next)
    ensures Consistent(db.WithoutPost(p), next)
  {
  }

  lemma CommentDeleteConsistent(db: Db, next: Counters, k: CommentId)
    requires Consistent(db, next)
    ensures Consistent(db.WithoutComment(k), next)
  {
  }

  // Each insert with a fresh key, and each edit that keeps the references,
  // keeps the tables consistent.

  lemma PostInsertConsistent(db: Db, next: Counters, p: Post)
    requires Consistent(db, next) && db.PostRefsExist(p)
    ensures Consistent(db.(posts := db.posts[next.post := p]), next.(post := next.post + 1))
  {
  }

  lemma PostEditConsistent(db: Db, next: Counters, q: PostId, p: Post)
    requires Consistent(db, next) && q in db.posts && db.PostRefsExist(p)
    ensures Consistent(db.(posts := db.posts[q := p]), next)
  {
  }

  lemma CommentInsertConsistent(db: Db, next: Counters, c: Comment)
    requires Consistent(db, next) && db.CommentRefsExist(c)
    ensures Consistent(db.(comments := db.comments[next.comment := c]), next.(comment := next.comment + 1))
  {
  }

  lemma CommentEditConsistent(db: Db, next: Counters, k: CommentId, c: Comment)
    requires Consistent(db, next) && k in db.comments && db.CommentRefsExist(c)
    ensures Consistent(db.(comments := db.comments[k := c]), next)
  {
    var r := db.(comments := db.comments[k := c]);
    assert r.Valid() by {
      forall j | j in r.comments ensures r.CommentRefsExist(r.comments[j]) {
        if j != k {
          assert db.CommentRefsExist(db.comments[j]);
        }
      }
    }
  }

  lemma UserEditConsistent(db: Db, next: Counters, u: UserId, f: User)
    requires Consistent(db, next) && u in db.users
    requires forall v :: v in db.users && v != u ==> db.users[v].username != f.username
    ensures Consistent(db.(users := db.users[u := f]), next)
  {
  }

  class Store {
    var users: map<UserId, User>
    var categories: map<CategoryId, Category>
    var locations: map<LocationId, Location>
    var posts: map<PostId, Post>
    var comments: map<CommentId, Comment>

    // The next primary key of each table (auto-increment).
    var nextUserId: nat
    var nextCategoryId: nat
    var nextLocationId: nat
    var nextPostId: nat
    var nextCommentId: nat

    function State(): Db
      reads this
    {
      Db(users, categories, locations, posts, comments)
    }

    function Next(): Counters
      reads this
    {
      Counters(nextUserId, nextCategoryId, nextLocationId, nextPostId, nextCommentId)
    }

    ghost predicate Valid()
      reads this
    {
      Consistent(State(), Next())
    }

    constructor ()
      ensures Valid()
      ensures State() == Db(map[], map[], map[], map[], map[])
    {
      users, categories, locations, posts, comments := map[], map[], map[], map[], map[];
      nextUserId, nextCategoryId, nextLocationId, nextPostId, nextCommentId := 0, 0, 0, 0, 0;
    }

    /** A new account; the username column is unique. */
    method AddUser(u: User) returns (id: Option<UserId>)
      requires Valid()
      modifies this
      ensures Valid()
      ensures (exists v :: HasUsername(old(State()), v, u.username)) ==>
        id == None && State() == old(State())
      ensures !(exists v :: HasUsername(old(State()), v, u.username)) ==>
        && id.Some? && id.value !in old(users)
        && State() == old(State()).(users := old(users)[id.value := u])
    {
      if exists v :: v in users && users[v].username == u.username {
        id := None;
        var v :| v in users && users[v].username == u.username;
        assert HasUsername(old(State()), v, u.username);
      } else {
        id := Some(nextUserId);
        users := users[nextUserId := u];
        nextUserId := nextUserId + 1;
      }
    }

    /** A new category; its slug must not be taken. */
    method AddCategory(title: string, description: string, slug: string,
                       isPublished: Option<bool>, now: int) returns (id: Option<CategoryId>)
      requires Valid()
      modifies this
      ensures Valid()
      ensures (exists c :: c in old(categories) && old(categories)[c].slug == slug) ==>
        id == None && State() == old(State())
      ensures !(exists c :: c in old(categories) && old(categories)[c].slug == slug) ==>
        && id.Some? && id.value !in old(categories)
        && State() == old(State()).(categories :=
             old(categories)[id.value := NewCategory(title, description, slug, isPublished, now)])
    {
      if exists c :: c in categories && categories[c].slug == slug {
        id := None;
      } else {
        id := Some(nextCategoryId);
        categories := categories[nextCategoryId := NewCategory(title, description, slug, isPublished, now)];
        nextCategoryId := nextCategoryId + 1;
      }
    }

    method AddLocation(name: string, isPublished: Option<bool>, now: int) returns (id: LocationId)
      requires Valid()
      modifies this
      ensures Valid()
      ensures id !in old(locations)
      ensures State() == old(State()).(locations := old(locations)[id := NewLocation(name, isPublished, now)])
    {
      id := nextLocationId;
      locations := locations[id := NewLocation(name, isPublished, now)];
      nextLocationId := nextLocationId + 1;
    }

    /** Deleting a user, with the cascades to their posts and comments. */
    method DeleteUser(u: UserId)
      requires Valid()
      modifies this
      ensures Valid()
      ensures State() == old(State()).WithoutUser(u)
    {
      UserDeleteConsistent(State(), Next(), u);
      // the collector gathers the user's posts and every row depending on
      // the user or on those posts, then deletes them
      var authored := State().PostsBy(u);
      var doomed := State().CommentsCascading(u, authored);
      comments := comments - doomed;
      posts := posts - authored;
      users := users - {u};
    }

    /** Deleting a category; its posts stay, with no category. */
    method DeleteCategory(c: CategoryId)
      requires Valid()
      modifies this
      ensures Valid()
      ensures State() == old(State()).WithoutCategory(c)
    {
      ghost var before := State();
      CategoryDeleteConsistent(before, Next(), c);
      posts := CategorySetNull(posts, c);
      categories := categories - {c};
      assert State() == before.WithoutCategory(c);
    }

    /** Deleting a location; its posts stay, with no location. */
    method DeleteLocation(l: LocationId)
      requires Valid()
      modifies this
      ensures Valid()
      ensures State() == old(State()).WithoutLocation(l)
    {
      ghost var before := State();
      LocationDeleteConsistent(before, Next(), l);
      posts := LocationSetNull(posts, l);
      locations := locations - {l};
      assert State() == before.WithoutLocation(l);
    }

    /**
     * `PostCreate`: login required; the form's references must exist; the
     * author is the acting user. Success goes to the author's profile.
     */
    method CreatePost(actor: Option<UserId>, f: PostFields, now: int)
      returns (resp: Response, created: Option<PostId>)
      requires Valid()
      requires actor.Some? ==> actor.value in users
      modifies this
      ensures Valid()
      ensures actor.None? ==> resp == ToLogin && created == None && State() == old(State())
      ensures actor.Some? && !old(State()).PostRefsExist(NewPost(f, actor.value, now)) ==>
        resp == FormErrors && created == None && State() == old(State())
      ensures actor.Some? && old(State()).PostRefsExist(NewPost(f, actor.value, now)) ==>
        && resp == ProfileRedirect(old(users)[actor.value].username)
        && created.Some? && created.value !in old(posts)
        && State() == old(State()).(posts := old(posts)[created.value := NewPost(f, actor.value, now)])
    {
      if actor.None? {
        return ToLogin, None;
      }
      var post := NewPost(f, actor.value, now);
      if !State().PostRefsExist(post) {
        return FormErrors, None;
      }
      PostInsertConsistent(State(), Next(), post);
      posts := posts[nextPostId := post];
      created := Some(nextPostId);
      nextPostId := nextPostId + 1;
      resp := ProfileRedirect(users[actor.value].username);
    }

    /**
     * `PostUpdate`: anyone but the author (an anonymous visitor included)
     * is sent back to the post; the author's edit keeps author and id.
     */
    method UpdatePost(actor: Option<UserId>, pk: PostId, f: PostFields) returns (resp: Response)
      requires Valid()
      modifies this
      ensures Valid()
      ensures pk !in old(posts) ==> resp == Http404 && State() == old(State())
      ensures pk in old(posts) && actor != Some(old(posts)[pk].author) ==>
        resp == ToPostDetail(pk) && State() == old(State())
      ensures pk in old(posts) && actor == Some(old(posts)[pk].author) ==>
        if old(State()).PostRefsExist(EditedPost(old(posts)[pk], f)) then
          && resp == ToPostDetail(pk)
          && State() == old(State()).(posts := old(posts)[pk := EditedPost(old(posts)[pk], f)])
        else
          resp == FormErrors && State() == old(State())
    {
      if pk !in posts {
        return Http404;
      }
      if actor != Some(posts[pk].author) {
        return ToPostDetail(pk);
      }
      var edited := EditedPost(posts[pk], f);
      if !State().PostRefsExist(edited) {
        return FormErrors;
      }
      PostEditConsistent(State(), Next(), pk, edited);
      posts := posts[pk := edited];
      resp := ToPostDetail(pk);
    }

    /**
     * `PostDelete`: anyone but the author is sent back to the post; the
     * author's delete takes the post's comments with it.
     */
    method DeletePost(actor: Option<UserId>, pk: PostId) returns (resp: Response)
      requires Valid()
      modifies this
      ensures Valid()
      ensures pk !in old(posts) ==> resp == Http404 && State() == old(State())
      ensures pk in old(posts) && actor != Some(old(posts)[pk].author) ==>
        resp == ToPostDetail(pk) && State() == old(State())
      ensures pk in old(posts) && actor == Some(old(posts)[pk].author) ==>
        && resp == ProfileRedirect(old(users)[old(posts)[pk].author].username)
        && State() == old(State()).WithoutPost(pk)
    {
      if pk !in posts {
        return Http404;
      }
      var author := posts[pk].author;
      if actor != Some(author) {
        return ToPostDetail(pk);
      }
      assert State().PostRefsExist(posts[pk]);
      resp := ProfileRedirect(users[author].username);
      PostDeleteConsistent(State(), Next(), pk);
      comments := comments - State().CommentsOn(pk);
      posts := posts - {pk};
    }

    /**
     * `CommentCreate`: login required; the comment's author is the actor,
     * its post the route's post, which must exist.
     */
    method CreateComment(actor: Option<UserId>, pk: PostId, text: string, now: int)
      returns (resp: Response, created: Option<CommentId>)
      requires Valid()
      requires actor.Some? ==> actor.value in users
      modifies this
      ensures Valid()
      ensures actor.None? ==> resp == ToLogin && created == None && State() == old(State())
      ensures actor.Some? && pk !in old(posts) ==>
        resp == Http404 && created == None && State() == old(State())
      ensures actor.Some? && pk in old(posts) ==>
        && resp == ToPostDetail(pk)
        && created.Some? && created.value !in old(comments)
        && State() == old(State()).(comments :=
             old(comments)[created.value := Comment(text, now, actor.value, pk)])
    {
      if actor.None? {
        return ToLogin, None;
      }
      if pk !in posts {
        return Http404, None;
      }
      CommentInsertConsistent(State(), Next(), Comment(text, now, actor.value, pk));
      comments := comments[nextCommentId := Comment(text, now, actor.value, pk)];
      created := Some(nextCommentId);
      nextCommentId := nextCommentId + 1;
      resp := ToPostDetail(pk);
    }

    /**
     * `CommentUpdate` on the comment `id` that the view loaded: anyone but
     * its author is sent to the comment's post; the author's edit changes
     * the text only and goes to the route's post `routePk`.
     */
    method UpdateComment(actor: Option<UserId>, routePk: PostId, id: CommentId, text: string)
      returns (resp: Response)
      requires Valid()
      modifies this
      ensures Valid()
      ensures id !in old(comments) ==> resp == Http404 && State() == old(State())
      ensures id in old(comments) && actor != Some(old(comments)[id].author) ==>
        resp == ToPostDetail(old(comments)[id].post) && State() == old(State())
      ensures id in old(comments) && actor == Some(old(comments)[id].author) ==>
        && resp == ToPostDetail(routePk)
        && State() == old(State()).(comments := old(comments)[id := old(comments)[id].(text := text)])
    {
      if id !in comments {
        return Http404;
      }
      if actor != Some(comments[id].author) {
        return ToPostDetail(comments[id].post);
      }
      assert State().CommentRefsExist(comments[id]);
      CommentEditConsistent(State(), Next(), id, comments[id].(text := text));
      comments := comments[id := comments[id].(text := text)];
      resp := ToPostDetail(routePk);
    }

    /** `CommentDelete` on the comment `id` that the view loaded. */
    method DeleteComment(actor: Option<UserId>, routePk: PostId, id: CommentId)
      returns (resp: Response)
      requires Valid()
      modifies this
      ensures Valid()
      ensures id !in old(comments) ==> resp == Http404 && State() == old(State())
      ensures id in old(comments) && actor != Some(old(comments)[id].author) ==>
        resp == ToPostDetail(old(comments)[id].post) && State() == old(State())
      ensures id in old(comments) && actor == Some(old(comments)[id].author) ==>
        resp == ToPostDetail(routePk) && State() == old(State()).WithoutComment(id)
    {
      if id !in comments {
        return Http404;
      }
      if actor != Some(comments[id].author) {
        return ToPostDetail(comments[id].post);
      }
      CommentDeleteConsistent(State(), Next(), id);
      comments := comments - {id};
      resp := ToPostDetail(routePk);
    }

    /**
     * `ProfileUpdate`: the profile named in the route must exist; anyone
     * but its owner is sent to the profile; the owner may not take a
     * username that another account has. Success goes to the profile under
     * its new username.
     */
    method UpdateProfile(actor: Option<UserId>, username: string, f: User) returns (resp: Response)
      requires Valid()
      modifies this
      ensures Valid()
      ensures !(exists u: UserId :: HasUsername(old(State()), u, username)) ==>
        resp == Http404 && State() == old(State())
      ensures forall u: UserId :: HasUsername(old(State()), u, username) && actor != Some(u) ==>
        resp == ProfileRedirect(username) && State() == old(State())
      ensures forall u: UserId :: HasUsername(old(State()), u, username) && actor == Some(u) ==>
        if exists v: UserId :: v != u && HasUsername(old(State()), v, f.username) then
          resp == FormErrors && State() == old(State())
        else
          resp == ProfileRedirect(f.username) && State() == old(State()).(users := old(users)[u := f])
    {
      if !exists u :: u in users && users[u].username == username {
        return Http404;
      }
      var u :| u in users && users[u].username == username;
      assert HasUsername(State(), u, username);
      assert forall w: UserId :: HasUsername(State(), w, username) ==> w == u;
      if actor != Some(u) {
        return ProfileRedirect(username);
      }
      if exists v :: v in users && v != u && users[v].username == f.username {
        var v :| v in users && v != u && users[v].username == f.username;
        assert HasUsername(State(), v, f.username);
        return FormErrors;
      }
      UserEditConsistent(State(), Next(), u, f);
      users := users[u := f];
      resp := ProfileRedirect(f.username);
    }
  }
}
