# blogicum: visibility and ownership rules

A model of the core of the Django blog *blogicum*: its tables, with the
`on_delete` rules of their foreign keys, and the views that read and write
them. The views are the index feed, post detail, the category feed, the
profile feed, and the ownership-guarded create, update and delete views for
posts, comments and profiles.

- `ordering.dfy` (module `Ordering`): a listing of rows by date. Each row
  appears once, newest first or oldest first. Rows with equal dates may
  come in any order.
- `models.dfy` (module `Models`): the rows of `blog/models.py` as
  datatypes, and the whole store as a value `Db` holding one map per table.
  `Db.Valid` is referential integrity plus the unique slug and username
  columns. The cascades are `Db.WithoutUser`, `WithoutPost`,
  `WithoutComment`, `WithoutCategory` and `WithoutLocation`.
  `Db.CommentCount` is `Post.comment_count`.
- `views.dfy` (module `Views`): the querysets of `blog/views.py` as pure
  functions. The request time `now` and the requesting user `viewer` are
  parameters; `viewer` is `None` for an anonymous visitor. This module
  also holds pagination, `redirect_to_profile_update` and the comment
  lookup of the comment views.
- `blog.dfy` (module `Blog`): class `Store`, whose map fields are the
  tables. Each write path is a method whose `ensures` gives the response
  and the new tables in terms of `Models`. Every method keeps
  `Store.Valid`: integrity, unique slugs and usernames, and fresh
  auto-increment keys.

In these places the model follows the code where a reader might expect
otherwise:

- The index and the non-author post detail require a category that is
  present and published. The join `category__is_published=True` drops
  posts with no category.
- The index has no exception for the author: an author's future post is
  not in the global feed.
- An out-of-range page number is a 404 on the list views, while the
  profile's `get_page` clamps it to the last page.
- The update, delete and profile-edit views run their ownership check in
  `dispatch` before `LoginRequiredMixin` can act. So an anonymous visitor
  gets the owner check's redirect, not the login page. Only the create
  views send an anonymous visitor to login (`ToLogin`).

## Model

| member | source | states |
|---|---|---|
| Ordering.FirstExists | blogicum/blog/models.py:91-92 | every non-empty set of rows has a row that may be listed first under the date order |
| Ordering.Listing | blogicum/blog/models.py:91-92 | a listing of a set of rows holds each row exactly once and is sorted by date, in either direction |
| Models.NewCategory | blogicum/blog/models.py:8-25 | a new category is published unless the flag is explicitly false; it keeps its slug and creation time |
| Models.NewLocation | blogicum/blog/models.py:32-42 | a new location is published unless the flag is explicitly false |
| Models.NewPost | blogicum/blog/models.py:49-83 | a new post is published unless the flag is explicitly false; its author is the one given; category, location and date come from the form |
| Models.EditedPost | blogicum/blog/models.py:49-83 | an edit never changes a post's author or creation time, and keeps the published flag when the form leaves it unset |
| Models.Db.Valid | blogicum/blog/models.py:11-16 | every foreign key of a post and a comment names an existing row, and no two categories share a slug nor two users a username; in a valid store every comment reaches an existing post and, through it, an existing author. Every cascade and every Store method keeps it |
| Models.Db.CommentCount | blogicum/blog/models.py:86-89 | `comment_count` is the number of comments whose post is `p`: never more than the comments in the table, and zero exactly when no comment points at `p` |
| Models.Db.WithoutComment | blogicum/blog/models.py:97-112 | deleting a comment removes exactly that row and keeps the store valid |
| Models.Db.WithoutPost | blogicum/blog/models.py:108-112 | deleting a post removes it and exactly the comments whose post it is; every other row is unchanged and the store stays valid |
| Models.Db.WithoutUser | blogicum/blog/models.py:66-70 | deleting a user removes their posts, their comments and every comment on their posts, and nothing else |
| Models.Db.WithoutUserKeepsValid | blogicum/blog/models.py:103-112 | the user cascade leaves no dangling author or post reference |
| Models.Db.WithoutCategory | blogicum/blog/models.py:78-83 | deleting a category nulls `category` on exactly the posts that referenced it; no post is removed and the store stays valid |
| Models.Db.WithoutLocation | blogicum/blog/models.py:71-77 | deleting a location nulls `location` on exactly the posts that referenced it; no post is removed and the store stays valid |
| Models.CommentCountAfterDelete | blogicum/blog/models.py:86-89 | deleting a comment lowers its post's comment count by one and leaves every other post's count alone |
| Models.CommentCountAfterAdd | blogicum/blog/models.py:86-89 | adding a comment raises its post's count by one and no other post's |
| Models.CommentCountAfterPostDelete | blogicum/blog/models.py:86-89 | a deleted post has no comments left; other posts keep their counts |
| Models.UserDeleteRemovesAuthored | blogicum/blog/models.py:103-112 | after a user is deleted, no remaining post or comment is theirs, no remaining comment is on one of their posts, and every remaining comment's post still exists |
| Models.SetNullKeepsPosts | blogicum/blog/models.py:71-83 | deleting a category or location keeps every post and changes only the nulled reference |
| Views.PostListing | blogicum/blog/models.py:91-92 | a post listing holds the given posts once each, newest first |
| Views.CommentListing | blogicum/blog/models.py:114-115 | a comment listing holds the given comments once each, oldest first |
| Views.IndexFeed | blogicum/blog/views.py:17-26 | a post is in the index exactly when it is published, its category is present and published, and its date is not after `now`; the feed is newest first without repeats |
| Views.IndexAsWritten | blogicum/blog/views.py:20-26 | the index as built: the same filter, with the time fixed when the module loads and the request time ignored |
| Views.IndexAsWrittenMissesDuePost | blogicum/blog/views.py:25 | a post that becomes due after start-up is in the intended index but never in the index as written |
| Views.Page | blogicum/blog/views.py:19 | page `n` holds at most 10 items, exactly items `10(n-1)` onward in listing order, and is empty past the end |
| Views.PageHolds | blogicum/blog/views.py:19 | every item of a listing is on page `i/10 + 1` at position `i%10` |
| Views.PostDetail | blogicum/blog/views.py:39-61 | detail is found exactly when the post exists and either the viewer is its author or it is publicly visible; it lists exactly the post's comments, oldest first, and their count equals `comment_count` |
| Views.FuturePostHiddenFromOthers | blogicum/blog/views.py:42-54 | a post dated after `now` is in no index, and its detail is found only for its author |
| Views.CategoryFeed | blogicum/blog/views.py:69-90 | the category feed is not found exactly when no published category has the slug; otherwise it lists exactly that category's published posts not dated after `now`, newest first |
| Views.CategoryFeedSelectsCategory | blogicum/blog/views.py:69-81 | with unique slugs, the feed for a category's slug is found exactly when that category is published, and it is that category's feed |
| Views.ProfileFeed | blogicum/blog/views.py:100-113 | the profile is not found exactly when no user has the username; otherwise it lists every post by that user, with no visibility filter, newest first |
| Views.ProfileShowsEveryPost | blogicum/blog/views.py:106-108 | every post, draft or scheduled, appears on its author's profile for every viewer |
| Views.RedirectToProfileUpdateAsWritten | blogicum/blog/views.py:142-147 | as written: an anonymous visitor or an empty username goes to login; any other username reverses a route name the `blog` namespace lacks, so the request fails with a server error |
| Views.RedirectAsWrittenFailsForSignedIn | blogicum/blog/views.py:146 | for every signed-in user with a username, the redirect as written fails while the intended one goes to their edit page; `blog:edit_profile` exists and `blog:update-profile` does not |
| Views.RedirectToProfileUpdate | blogicum/blog/views.py:142-147 | as intended: an anonymous visitor or an empty username goes to login; everyone else goes to the edit page of their own username |
| Views.RedirectNamesOwnProfile | blogicum/blog/views.py:132-136 | with unique usernames, the intended redirect names the viewer's profile and nobody else's, so the profile edit view's owner check admits the viewer |
| Views.ProfileRedirect | blogicum/blog/urls.py:12-13 | a redirect to `blog:profile` reaches the profile exactly when the username matches the `slug` converter (`[-a-zA-Z0-9_]+`); any other username is a server error |
| Views.ProfileRedirectRejectsDottedName | blogicum/blog/urls.py:12-13 | a username with a dot, which Django's user model accepts, gets a server error; a slug username reaches its profile; an empty one fails |
| Views.CommentLookupAsWritten | blogicum/blog/views.py:193-219 | the comment views as written load the comment whose id is the route's post id |
| Views.CommentLookup | blogicum/blog/urls.py:20-23 | the comment loaded is always the one whose id is the route's `comment_pk`; the lookup is not found exactly when that comment is missing |
| Views.CommentLookupAsWrittenMissesComment | blogicum/blog/views.py:201-202 | whenever the route's post id and comment id differ, the lookup as written never yields the comment the route names |
| Blog.Store.constructor | blogicum/blog/models.py:8-117 | a fresh store has empty tables and is valid |
| Blog.Store.AddUser | blogicum/blog/models.py:5 | a taken username changes nothing; otherwise the user is added under a fresh id |
| Blog.Store.AddCategory | blogicum/blog/models.py:11-16 | a taken slug changes nothing, so slugs stay unique; otherwise the category is added under a fresh id, published by default |
| Blog.Store.AddLocation | blogicum/blog/models.py:32-42 | the location is added under a fresh id, published by default |
| Blog.Store.DeleteUser | blogicum/blog/models.py:66-70 | the new tables are exactly the user cascade of the old ones, and the store stays valid |
| Blog.Store.DeleteCategory | blogicum/blog/models.py:78-83 | the new tables are exactly the category set-null of the old ones, and the store stays valid |
| Blog.Store.DeleteLocation | blogicum/blog/models.py:71-77 | the new tables are exactly the location set-null of the old ones, and the store stays valid |
| Blog.Store.CreatePost | blogicum/blog/views.py:166-176 | an anonymous actor goes to login and bad references give form errors, with nothing changed; otherwise the post is added under a fresh id with the actor as author, and the response is the redirect to the actor's profile, a server error when the username is not a slug (the post is saved either way) |
| Blog.Store.UpdatePost | blogicum/blog/views.py:150-163 | a missing post is a 404; a non-author goes to the post's detail with nothing changed; the author's valid edit replaces only that post, keeping author and id, and goes to its detail |
| Blog.Store.DeletePost | blogicum/blog/views.py:222-233 | a missing post is a 404; a non-author goes to the post's detail with nothing changed; the author's delete is the post cascade, and the response is the redirect to the author's profile, a server error when the username is not a slug (the delete is done either way) |
| Blog.Store.CreateComment | blogicum/blog/views.py:179-190 | an anonymous actor goes to login; a missing post is a 404; otherwise a comment with the actor as author and the route's post is added under a fresh id, and the response is the post's detail |
| Blog.Store.UpdateComment | blogicum/blog/views.py:193-205 | a missing comment is a 404; a non-author goes to the detail of the comment's own post with nothing changed; the author's edit changes only that comment's text and goes to the route's post |
| Blog.Store.DeleteComment | blogicum/blog/views.py:208-219 | a missing comment is a 404; a non-author goes to the detail of the comment's own post with nothing changed; the author's delete removes only that comment and goes to the route's post |
| Blog.Store.UpdateProfile | blogicum/blog/views.py:116-139 | an unknown username is a 404; anyone but the profile's owner gets the redirect to the profile with nothing changed; the owner may not take another account's username; otherwise only that user's row changes and the response is the redirect to the profile under its new name, a server error when that name is not a slug (the row is saved either way) |

## Left out

- Forms: `PostForm` and `CommentForm` are not part of this model. A form
  is given as its cleaned fields. Only reference checks (a chosen category
  or location must exist) and the unique username are modelled as
  `FormErrors`.
- Templates, the admin, the auth and registration views, static and media
  serving, and the GET confirmation pages of the update and delete views.
- The login redirect of `LoginRequiredMixin`, except for the create views,
  where it is `ToLogin`.
- The route tables (`blogicum/blog/urls.py`, `blogicum/blogicum/urls.py`,
  `blogicum/pages/urls.py`). Route parameters are inputs: `CommentRoute`
  and the `pk` arguments.
- Page-number parsing and validation in Django's `Paginator` and
  `ListView`: the list views raise 404 for a bad page, while the profile's
  `get_page` clamps. `Views.Page` is the slicing for a page number of at
  least 1.
- The `image` field. `auto_now_add` timestamps and `timezone.now()` are
  parameters rather than clock reads.
- Transactions and concurrent writers. Each method is one atomic step.
- `Ordering.Listing`: the order of rows with equal `pub_date` is
  unspecified, as it is in the database.
- Views.RedirectToProfileUpdate: requires that a signed-in viewer's row
  exists, as a session user always does. So does
  `Views.RedirectToProfileUpdateAsWritten`.
- The page the server-error handler renders (`handler500` in
  `blogicum/blogicum/urls.py`). Two failing reverses are modelled, both
  as the response `ServerError`: the missing name `blog:update-profile`
  (`Views.RedirectToProfileUpdateAsWritten`) and `blog:profile` for a
  username outside the `slug` converter (`Views.ProfileRedirect`). The
  URL resolver's matching of incoming paths is not modelled.
- Views.RedirectToProfileUpdate: the intended redirect does not apply the
  `slug` converter of the `edit_profile` route to the username.
- Store methods take the comment id that the lookup resolved. Which
  comment the views load is `Views.CommentLookupAsWritten` and
  `Views.CommentLookup`.

## Findings

| source | as written | input that shows it | evidently intended | confidence | as-written member | corrected member |
|---|---|---|---|---|---|---|
| blogicum/blog/views.py:20-26 | `pub_date__lte=timezone.now()` sits in a class attribute, so it is evaluated once, when the module is imported | a published post in a published category whose `pub_date` falls after the server started and before the request | the cutoff is the time of each request | not executed | Views.IndexAsWrittenMissesDuePost | Views.IndexFeed |
| blogicum/blog/views.py:193-219 | `CommentUpdate` and `CommentDelete` set no lookup keyword, so `get_object` loads the comment whose id is the route's `pk`, the post id | route `posts/1/edit_comment/2/` where comment 2 exists on post 1: the view loads comment 1 or answers 404 | load the comment with id `comment_pk` | not executed | Views.CommentLookupAsWrittenMissesComment | Views.CommentLookup |
| blogicum/blog/views.py:146 | `reverse_lazy('blog:update-profile', ...)`, a name no route in the `blog` namespace has (the edit route is `edit_profile`, blogicum/blog/urls.py:14-15); the reverse raises and the request ends in the server-error handler | a signed-in user with username `alice` | redirect to `blog:edit_profile` for `alice` | not executed | Views.RedirectAsWrittenFailsForSignedIn | Views.RedirectNamesOwnProfile |
