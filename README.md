# Yatube posts: a verified model

Yatube is a small blog. Users write posts and can put a post in a group. They comment on posts and follow other authors. This project models the `posts` application of that blog in Dafny. It covers these parts:

- **Entities** (`models.dfy`, module `Models`): users, groups, posts, comments and follow edges.
  - Each entity's string form. A post renders as its text cut to 15 characters.
  - The follow table's unique and check constraints.
  - The unique group titles and slugs.
  - The default orderings: posts by `pub_date`, comments by `created`, newest first in both.
- **Listings** (`listing.dfy`, module `Listing`): the generic list operations the queries are made of.
  - Lookup of the first match, which models `get_object_or_404`. That call fails when two rows match; here the uniqueness rules that `Store.Store.Valid()` holds for the user, post and group tables keep that case from arising, and `Listing.FindUnique` shows that the first match is then the only one.
  - Filtering.
  - A sort on a key, largest first.
  - Cutting a list into pages of a fixed size.
- **Follow graph** (`follow_graph.dfy`, module `FollowGraph`): the follow table as a sequence of `(user, author)` rows.
  - Following is get-or-create, skipped when a user asks to follow themself.
  - Unfollowing deletes the matching rows.
  - The `following` flag shown on a profile.
- **Feeds** (`feeds.dfy`, module `Feeds`): the read-only views.
  - The front page, a group's page, an author's profile and the feed of followed authors. Each one filters the posts, orders them newest first and returns one page of at most `COUNT_PAGES` (10) posts.
  - A post's detail page with its comments, newest first.
- **Store** (`store.dfy`, module `Store`): a `Store` class that holds the tables, and the views that change them.
  - The views are creating a post, editing a post, commenting, following and unfollowing.
  - `Store.Store.Valid()` holds the tables' uniqueness, check and foreign-key rules. Every view requires it and keeps it, so no follow row is ever duplicated or a self-follow, and group titles and slugs stay unique.
- **Optional values** (`wrappers.dfy`, module `Wrappers`): the `Option` type.

The signed-in user is a parameter of each view that needs one. The form's validity is a boolean parameter. The clock is a parameter `now`: `pub_date` and `created` are natural-number timestamps, and a larger number is later. A view's HTTP answer becomes a `Response` tag: not found, the redirect target, or "form shown again".

The model follows what the code does, including where that is more permissive than one might expect:

- Editing a post has no author check in `yatube/posts/views.py:84-94`. Any signed-in user may edit any post, and `Store.Store.PostEdit` does the same.
- The listings are ordered by `pub_date` alone, with no tie-break. The contracts say only that each listing is newest first and holds exactly the filtered posts, and that each page is a slice of its listing. Posts with equal timestamps may appear in any order. `Feeds.NewestFirstUnique` proves that the order is fully determined once timestamps are distinct. The model fixes one arrangement per listing and cuts every page from it; the database instead runs one query per page request and may order tied rows differently each time (see `Feeds.PagesCoverListing` under "Left out").
- No view caches the front page, so the model has no cache.

## Model

| member | source | states |
|---|---|---|
| Models.PostStr | yatube/posts/models.py:49-53 | the string is a prefix of the text and at most 15 characters long: the whole text when it has at most 15 characters, otherwise its first 15 |
| Models.GroupStr | yatube/posts/models.py:20-21 | a group's string form is its title |
| Models.CommentStr | yatube/posts/models.py:71-72 | a comment's string form is its text |
| Models.FollowStr | yatube/posts/models.py:94-95 | the string starts with the follower's username, ends with the author's username, and between them holds exactly " подписан на " |
| Models.UniqueFollowPairs | yatube/posts/models.py:88-89 | the unique constraint on the follow table: no (user, author) pair occurs twice |
| Models.NoSelfFollow | yatube/posts/models.py:90-91 | the check constraint on the follow table: no row has user equal to author |
| Models.FollowTableValid | yatube/posts/models.py:87-92 | both follow-table constraints together |
| Models.GroupTableValid | yatube/posts/models.py:8-13 | group keys, titles and slugs are each unique across the group table |
| Models.PostsInDefaultOrder | yatube/posts/models.py:47 | posts are ordered by publication date, newest first |
| Models.CommentsInDefaultOrder | yatube/posts/models.py:68 | comments are ordered by creation date, newest first |
| Listing.Find | yatube/posts/views.py:134 | the lookup fails exactly when no element matches; otherwise it returns the first element that matches |
| Listing.FindUnique | yatube/posts/views.py:22 | when at most one element matches, the lookup returns exactly that element |
| Listing.Filter | yatube/posts/views.py:119-121 | the result holds exactly the elements that pass the filter, with their multiplicities |
| Listing.SortDesc | yatube/posts/views.py:11 | the result is ordered by the key, largest first, and is a permutation of the input |
| Listing.DescendingUnique | yatube/posts/models.py:47 | two descending arrangements of the same elements with distinct keys are equal |
| Listing.NumPages | yatube/posts/views.py:12 | there is always at least one page, even for an empty list |
| Listing.NumPagesBounds | yatube/posts/views.py:12 | the page count is the least number of pages that can hold all the items, and an empty list has exactly one page |
| Listing.Page | yatube/posts/views.py:13-14 | a page, cut from the list by its number, holds at most the page size |
| Listing.PageFull | yatube/posts/views.py:13-14 | a page that ends within the list holds exactly the page size |
| Listing.PageShift | yatube/posts/views.py:13-14 | every page after the first is the previous page number of the list without its first page |
| Listing.AllPagesShape | yatube/posts/views.py:12-14 | there are NumPages pages; each holds at most the page size and all but the last hold exactly that many; no page is empty unless the list is |
| Listing.AllPagesFlatten | yatube/posts/views.py:12-14 | the pages, read in order, give back the whole list |
| Listing.PageIsNth | yatube/posts/views.py:13-14 | page n, for every existing page number n, is the n-th consecutive page |
| Listing.GetPageBounds | yatube/posts/views.py:12-14 | a page holds at most the page size, and only items of the list |
| Listing.GetPage | yatube/posts/views.py:13-14 | a page number in range gets that page; a number beyond the last page gets the last page |
| Listing.GetPageNonEmpty | yatube/posts/views.py:124 | a page is empty exactly when the whole list is empty |
| FollowGraph.AddEdge | yatube/posts/views.py:136-140 | after following, the rows are the old rows plus the edge (user, author), and the edge is added only when user and author differ |
| FollowGraph.AddEdgeEffect | yatube/posts/views.py:137-140 | following someone else leaves the edge present; the table grows by exactly one row when the edge was absent, and is unchanged when it was present |
| FollowGraph.AddSelfEdgeIsNoOp | yatube/posts/views.py:136 | following oneself leaves the table unchanged |
| FollowGraph.AddEdgeIdempotent | yatube/posts/views.py:137 | following twice gives the same table as following once |
| FollowGraph.AddEdgeKeepsTableValid | yatube/posts/models.py:87-92 | following keeps the unique (user, author) constraint and the no-self-follow constraint |
| FollowGraph.RemoveEdge | yatube/posts/views.py:148 | after unfollowing, the rows are the old rows except (user, author) |
| FollowGraph.RemoveEdgeEffect | yatube/posts/views.py:148 | after unfollowing, the edge is absent; unfollowing an absent edge changes nothing |
| FollowGraph.RemoveEdgeCount | yatube/posts/models.py:88-89 | in a table with unique pairs, unfollowing an existing edge removes exactly one row |
| FollowGraph.RemoveEdgeKeepsTableValid | yatube/posts/models.py:90-91 | unfollowing keeps both table constraints |
| FollowGraph.RemoveEdgeIdempotent | yatube/posts/views.py:148 | unfollowing twice gives the same table as unfollowing once |
| FollowGraph.UnfollowUndoesFollow | yatube/posts/views.py:145-150 | unfollowing right after following a new author restores the original table |
| FollowGraph.Following | yatube/posts/views.py:40-46 | the flag is None exactly for an anonymous viewer, and is "true" exactly when the signed-in viewer follows the author |
| FollowGraph.FollowingAfterUpdates | yatube/posts/views.py:41-44 | after following someone else the flag is "true"; after unfollowing it is "false" |
| Feeds.NewestFirst | yatube/posts/models.py:47 | the result is in the default order, publication date newest first, and is a permutation of the posts |
| Feeds.GlobalFeed | yatube/posts/views.py:11 | the front-page listing is newest first and holds every post, with its multiplicity |
| Feeds.GroupFeed | yatube/posts/views.py:23 | the group listing is newest first and holds exactly the posts of that group |
| Feeds.AuthorFeed | yatube/posts/views.py:36 | the profile listing is newest first and holds exactly the posts of that author |
| Feeds.FollowFeed | yatube/posts/views.py:119-121 | the follow listing is newest first and holds exactly the posts whose author the viewer follows |
| Feeds.Paginate | yatube/posts/views.py:12-14 | the page counts every item of the list; the page count is the least number of 10-item pages, and 1 for an empty list; the page number is the requested one, or the last page number when the request lies beyond it; it holds at most COUNT_PAGES items, all from the list, and is empty only for an empty list |
| Feeds.PaginateShowsPage | yatube/posts/views.py:13-14 | the items shown are exactly page `number` of the list, so a request beyond the last page shows the last page |
| Feeds.Index | yatube/posts/views.py:10-18 | the front page counts every stored post |
| Feeds.GroupPosts | yatube/posts/views.py:21-31 | the result is "not found" exactly when no group has the slug; otherwise it is a stored group with that slug |
| Feeds.Profile | yatube/posts/views.py:34-52 | the result is "not found" exactly when no user has the username; otherwise the author is that user, and the flag is absent exactly for an anonymous viewer |
| Feeds.FollowIndex | yatube/posts/views.py:117-127 | every post on the page is stored, and its author is followed by the viewer |
| Feeds.PostDetail | yatube/posts/views.py:55-64 | the result is "not found" exactly when no post has the key; otherwise it shows that post and exactly its comments, newest first |
| Feeds.PageInDefaultOrder | yatube/posts/views.py:36-39 | a page of a newest-first listing is newest first |
| Feeds.IndexShowsNewestFirst | yatube/posts/views.py:11-14 | the front page is newest first, holds only stored posts and at most COUNT_PAGES of them |
| Feeds.GroupPostsShowsOnlyGroup | yatube/posts/views.py:22-26 | a known slug has a group page; that page is newest first, holds only that group's posts, and counts all of them |
| Feeds.GroupPostsFindsTheGroup | yatube/posts/models.py:8-13 | because slugs are unique, a group's page is built from the one group with that slug |
| Feeds.ProfileShowsOnlyAuthor | yatube/posts/views.py:35-46 | a known username has a profile; its page is newest first and holds only the author's posts; for a signed-in viewer the flag is membership of the edge (viewer, author) |
| Feeds.FollowIndexShowsOnlyFollowed | yatube/posts/tests/test_views.py:195-201 | the follow feed is newest first; a viewer who follows nobody gets a count of 0 and an empty page |
| Feeds.FollowFeedExample | yatube/posts/tests/test_views.py:181-193 | when A follows B but not C, and B and C each wrote one post, A's feed is exactly B's post |
| Feeds.PagesCoverListing | yatube/posts/views.py:122-124 | the pages 1 to numPages are the consecutive pages, and together they give back the listing |
| Feeds.ThirteenPostsTwoPages | yatube/posts/tests/test_views.py:291-307 | 13 posts make 2 pages: 10 posts on the first, 3 on the second, and the two pages together give back the list |
| Feeds.NewestFirstUnique | yatube/posts/models.py:44-47 | with distinct publication dates, every newest-first arrangement of the posts is the one the listing produces |
| Store.EditPost | yatube/posts/views.py:92-93 | the edit keeps the post count, every key, date and author; it gives the edited post the form's text, group and image, and leaves every other post unchanged |
| Store.EditVisibleInFeeds | yatube/posts/tests/test_forms.py:69-93 | after an edit, the front-page listing, the author's listing and the new group's listing all hold the post with its new text, and the post count is unchanged |
| Store.EditKeepsKeys | yatube/posts/views.py:86-93 | editing changes no post key, so lookups by key find the same posts |
| Store.Store.Valid | yatube/posts/models.py:8-92 | the store's table rules: user keys and usernames, group keys, titles and slugs, and post and comment keys are each unique, and post and comment keys lie below the next key; the follow table's two constraints hold; every post, comment and follow row refers to stored users and every comment to a stored post |
| Store.Store.PostCreate | yatube/posts/views.py:67-81 | a valid form appends exactly one post, authored by the requester, and redirects to their profile; an invalid form changes nothing; the table rules are kept |
| Store.Store.PostEdit | yatube/posts/views.py:84-102 | an unknown key gives "not found"; a valid form replaces that post's text, group and image with no author check; an invalid form changes nothing |
| Store.Store.AddComment | yatube/posts/views.py:105-114 | an unknown post gives "not found"; a valid form appends one comment by the requester on that post; for a known post the answer is a redirect back to it, whether or not the form is valid |
| Store.Store.ProfileFollow | yatube/posts/views.py:130-142 | an unknown username gives "not found" and no change; otherwise the edge is got-or-created as AddEdge says, the table rules are kept, and the answer redirects to the profile |
| Store.Store.ProfileUnfollow | yatube/posts/views.py:145-150 | an unknown username gives "not found" and no change; otherwise the edge's rows are deleted as RemoveEdge says, and the answer redirects to the profile |

## Left out

- Rendering, templates and HTTP status codes: a view's answer is a `Response` tag or a page value.
- Authentication (`login_required`, login redirects with `next=`, sessions): the signed-in user is a parameter. `Store.Store.PostCreate`, `Store.Store.AddComment`, `Store.Store.ProfileFollow` and `Store.Store.ProfileUnfollow` require the requester to be a stored account. `Store.Store.PostEdit` takes no user, because the code never reads one. `Feeds.FollowIndex` takes the viewer's key as given.
- Form binding, form validation and image storage (`yatube/posts/forms.py`): validity is a boolean parameter, and the cleaned text, group and image values are parameters. So the foreign key from a post to its group is not part of `Store.Store.Valid()`: checking that the chosen group exists is the form's job.
- Page numbers that are missing, non-integer or below 1: the framework paginator's handling of them is not part of this model, and `Feeds.PageNumber` admits only numbers from 1 up. A number beyond the last page yields the last page.
- Database ids and the clock: new keys come from the counters `nextPostId` and `nextCommentId`, and the time is the parameter `now`.
- Deletion and its cascade and null-on-delete rules: no view deletes users, groups or posts. Creating users and groups is also out of scope: these are admin and authentication actions outside the `posts` views.
- The page cache: no view in `yatube/posts/views.py` uses one.
- The `groups` list put into the create and edit forms' context: it only feeds rendering.
- Feeds.PagesCoverListing: the model fixes one arrangement of each listing and cuts every page from it, so pages 1 to numPages partition the listing. Each page request in the source runs its own `ORDER BY pub_date` query with an offset and limit, and the database may order tied rows differently in each; with two posts sharing a `pub_date` across a page boundary, one of them can appear on two pages and the other on none. The partition holds across requests only when publication dates are distinct, which is the case `Feeds.NewestFirstUnique` covers: every newest-first arrangement is then the model's one.
- Models.FollowStr: a follow row holds two user keys, so the two users are parameters. The string form of a user is taken to be its username.
- Transactions and concurrent requests: each view is one atomic step on the store.
- `yatube/core/views.py`, `yatube/users/views.py` and `yatube/users/urls.py` are not part of this model: they are framework error pages, account views and routing.
