/**
 * The read-only views: the global, group, profile and followed-authors feeds
 * (filter, newest first, one page), and a post's detail with its comments.
 */
module Feeds {
  import opened Wrappers
  import opened Models
  import Listing
  import FollowGraph

  /** Posts per page. */
  const COUNT_PAGES: nat := 10

  /** A requested page number; pages count from 1. */
  type PageNumber = n: nat | n >= 1 witness 1

  /** One page of a listing, with what the templates need to link to the others. */
  datatype PostPage = PostPage(objectList: seq<Post>, number: nat, numPages: nat, count: nat)

  datatype GroupView = GroupView(group: Group, page: PostPage)

  datatype ProfileView = ProfileView(author: User, page: PostPage, following: Option<bool>)

  datatype PostDetailView = PostDetailView(post: Post, comments: seq<Comment>)

  // ---- Listings -------------------------------------------------------------

  /** Posts in the default order: publication date, newest first. */
  function NewestFirst(posts: seq<Post>): (r: seq<Post>)
    ensures PostsInDefaultOrder(r)
    ensures multiset(r) == multiset(posts)
  {
    Listing.SortDesc(posts, PostOrderKey)
  }

  /** Every post, newest first. */
  function GlobalFeed(posts: seq<Post>): (r: seq<Post>)
    ensures PostsInDefaultOrder(r)
    ensures multiset(r) == multiset(posts)
    ensures forall p :: p in r <==> p in posts
  {
    var r := NewestFirst(posts);
    assert forall p :: p in r <==> p in multiset(r);
    r
  }

  /** The posts of one group, newest first. */
  function GroupFeed(posts: seq<Post>, group: GroupId): (r: seq<Post>)
    ensures PostsInDefaultOrder(r)
    ensures forall p :: multiset(r)[p] == if p.group == Some(group) then multiset(posts)[p] else 0
    ensures forall p :: p in r <==> p in posts && p.group == Some(group)
  {
    var r := NewestFirst(Listing.Filter(posts, (p: Post) => p.group == Some(group)));
    assert forall p :: p in r <==> p in multiset(r);
    r
  }

  /** The posts of one author, newest first. */
  function AuthorFeed(posts: seq<Post>, author: UserId): (r: seq<Post>)
    ensures PostsInDefaultOrder(r)
    ensures forall p :: multiset(r)[p] == if p.author == author then multiset(posts)[p] else 0
    ensures forall p :: p in r <==> p in posts && p.author == author
  {
    var r := NewestFirst(Listing.Filter(posts, (p: Post) => p.author == author));
    assert forall p :: p in r <==> p in multiset(r);
    r
  }

  /** The posts whose author `viewer` follows, newest first. */
  function FollowFeed(posts: seq<Post>, follows: seq<Follow>, viewer: UserId): (r: seq<Post>)
    ensures PostsInDefaultOrder(r)
    ensures forall p :: multiset(r)[p] == if FollowGraph.IsFollowing(follows, viewer, p.author) then multiset(posts)[p] else 0
    ensures forall p :: p in r <==> p in posts && FollowGraph.IsFollowing(follows, viewer, p.author)
  {
    var r := NewestFirst(Listing.Filter(posts, (p: Post) => FollowGraph.IsFollowing(follows, viewer, p.author)));
    assert forall p :: p in r <==> p in multiset(r);
    r
  }

  /** The page a request for page `n` of `list` is answered with. */
  function Paginate(list: seq<Post>, n: PageNumber): (r: PostPage)
    ensures r.count == |list|
    ensures r.numPages == Listing.NumPages(|list|, COUNT_PAGES)
    ensures n <= r.numPages ==> r.number == n
    ensures n > r.numPages ==> r.number == r.numPages
    ensures 1 <= r.number <= r.numPages
    ensures |r.objectList| <= COUNT_PAGES
    ensures forall p :: p in r.objectList ==> p in list
    ensures r.objectList == [] <==> list == []
  {
    Listing.GetPageBounds(list, n, COUNT_PAGES);
    Listing.GetPageNonEmpty(list, n, COUNT_PAGES);
    var total := Listing.NumPages(|list|, COUNT_PAGES);
    PostPage(Listing.GetPage(list, n, COUNT_PAGES), Listing.Min(n, total), total, |list|)
  }

  /** The page shown is page `number` of the list: the requested page, or the last one. */
  lemma PaginateShowsPage(list: seq<Post>, n: PageNumber)
    ensures Paginate(list, n).objectList == Listing.Page(list, Paginate(list, n).number, COUNT_PAGES)
  {
  }

  // ---- Views ----------------------------------------------------------------

  /** The front page: every post, newest first, page `n`. */
  function Index(posts: seq<Post>, n: PageNumber): (r: PostPage)
    ensures r.count == |posts|
  {
    Paginate(GlobalFeed(posts), n)
  }

  /** A group's page, or None (not found) when no group has this slug. */
  function GroupPosts(groups: seq<Group>, posts: seq<Post>, slug: string, n: PageNumber): (r: Option<GroupView>)
    ensures r.None? <==> forall i :: 0 <= i < |groups| ==> groups[i].slug != slug
    ensures r.Some? ==> r.value.group in groups && r.value.group.slug == slug
  {
    match Listing.Find(groups, (g: Group) => g.slug == slug)
    case None => None
    case Some(g) => Some(GroupView(g, Paginate(GroupFeed(posts, g.id), n)))
  }

  /**
   * An author's profile, or None (not found) when no user has this username;
   * `following` is None for an anonymous viewer.
   */
  function Profile(users: seq<User>, posts: seq<Post>, follows: seq<Follow>, username: string,
                   viewer: Option<UserId>, n: PageNumber): (r: Option<ProfileView>)
    ensures r.None? <==> forall i :: 0 <= i < |users| ==> users[i].username != username
    ensures r.Some? ==> r.value.author in users && r.value.author.username == username
    ensures r.Some? ==> (r.value.following.None? <==> viewer.None?)
  {
    match Listing.Find(users, (u: User) => u.username == username)
    case None => None
    case Some(u) =>
      Some(ProfileView(u, Paginate(AuthorFeed(posts, u.id), n), FollowGraph.Following(follows, viewer, u.id)))
  }

  /** The signed-in viewer's feed of followed authors, page `n`. */
  function FollowIndex(posts: seq<Post>, follows: seq<Follow>, viewer: UserId, n: PageNumber): (r: PostPage)
    ensures forall p :: p in r.objectList ==> p in posts && FollowGraph.IsFollowing(follows, viewer, p.author)
  {
    Paginate(FollowFeed(posts, follows, viewer), n)
  }

  /** One post with its comments, newest first, or None (not found) when no post has this key. */
  function PostDetail(posts: seq<Post>, comments: seq<Comment>, id: PostId): (r: Option<PostDetailView>)
    ensures r.None? <==> forall i :: 0 <= i < |posts| ==> posts[i].id != id
    ensures r.Some? ==> r.value.post in posts && r.value.post.id == id
    ensures r.Some? ==> CommentsInDefaultOrder(r.value.comments)
    ensures r.Some? ==> forall c :: multiset(r.value.comments)[c] == if c.post == id then multiset(comments)[c] else 0
  {
    match Listing.Find(posts, (p: Post) => p.id == id)
    case None => None
    case Some(p) =>
      Some(PostDetailView(p, Listing.SortDesc(Listing.Filter(comments, (c: Comment) => c.post == id), CommentOrderKey)))
  }

  // ---- Properties of the views ----------------------------------------------

  /** A page of a listing is newest first whenever the listing is. */
  lemma PageInDefaultOrder(list: seq<Post>, n: PageNumber)
    requires PostsInDefaultOrder(list)
    ensures PostsInDefaultOrder(Paginate(list, n).objectList)
  {
  }

  /** The front page is newest first and holds only stored posts, at most a page's worth. */
  lemma IndexShowsNewestFirst(posts: seq<Post>, n: PageNumber)
    ensures PostsInDefaultOrder(Index(posts, n).objectList)
    ensures forall p :: p in Index(posts, n).objectList ==> p in posts
    ensures |Index(posts, n).objectList| <= COUNT_PAGES
  {
  }

  /** A known slug has a group page; it is newest first and holds only that group's posts. */
  lemma GroupPostsShowsOnlyGroup(groups: seq<Group>, posts: seq<Post>, slug: string, n: PageNumber, i: nat)
    requires i < |groups| && groups[i].slug == slug
    ensures GroupPosts(groups, posts, slug, n).Some?
    ensures var v := GroupPosts(groups, posts, slug, n).value;
      && PostsInDefaultOrder(v.page.objectList)
      && (forall p :: p in v.page.objectList ==> p in posts && p.group == Some(v.group.id))
      && v.page.count == |Listing.Filter(posts, (p: Post) => p.group == Some(v.group.id))|
  {
    var v := GroupPosts(groups, posts, slug, n).value;
    PageInDefaultOrder(GroupFeed(posts, v.group.id), n);
  }

  /** Because slugs are unique across the group table, a group's page belongs to the one group with that slug. */
  lemma GroupPostsFindsTheGroup(groups: seq<Group>, posts: seq<Post>, i: nat, n: PageNumber)
    requires GroupTableValid(groups) && i < |groups|
    ensures GroupPosts(groups, posts, groups[i].slug, n) == Some(GroupView(groups[i], Paginate(GroupFeed(posts, groups[i].id), n)))
  {
  }

  /** A known username has a profile; its page is newest first and holds only that author's posts; the flag is membership of the edge. */
  lemma ProfileShowsOnlyAuthor(users: seq<User>, posts: seq<Post>, follows: seq<Follow>, username: string,
                               viewer: Option<UserId>, n: PageNumber, i: nat)
    requires i < |users| && users[i].username == username
    ensures Profile(users, posts, follows, username, viewer, n).Some?
    ensures var v := Profile(users, posts, follows, username, viewer, n).value;
      && PostsInDefaultOrder(v.page.objectList)
      && (forall p :: p in v.page.objectList ==> p in posts && p.author == v.author.id)
      && (viewer.Some? ==> v.following == Some(FollowGraph.IsFollowing(follows, viewer.value, v.author.id)))
  {
    var v := Profile(users, posts, follows, username, viewer, n).value;
    PageInDefaultOrder(AuthorFeed(posts, v.author.id), n);
  }

  /** The followed-authors feed is newest first; a viewer who follows nobody sees no posts at all. */
  lemma FollowIndexShowsOnlyFollowed(posts: seq<Post>, follows: seq<Follow>, viewer: UserId, n: PageNumber)
    ensures PostsInDefaultOrder(FollowIndex(posts, follows, viewer, n).objectList)
    ensures (forall i :: 0 <= i < |follows| ==> follows[i].user != viewer) ==>
      FollowIndex(posts, follows, viewer, n).count == 0 && FollowIndex(posts, follows, viewer, n).objectList == []
  {
  }

  /**
   * Viewer A follows author B but not author C, who each wrote one post:
   * A's feed is exactly B's post.
   */
  lemma FollowFeedExample(a: UserId, b: UserId, c: UserId, pb: Post, pc: Post)
    requires a != b && b != c && pb.author == b && pc.author == c
    ensures FollowFeed([pb, pc], FollowGraph.AddEdge([], a, b), a) == [pb]
  {
  }

  /** The pages of a listing, taken in order, are exactly the listing. */
  lemma PagesCoverListing(list: seq<Post>)
    ensures var total := Paginate(list, 1).numPages;
      && |Listing.AllPages(list, COUNT_PAGES)| == total
      && Listing.Flatten(Listing.AllPages(list, COUNT_PAGES)) == list
      && forall n: PageNumber :: n <= total ==> Paginate(list, n).objectList == Listing.AllPages(list, COUNT_PAGES)[n - 1]
  {
    Listing.AllPagesShape(list, COUNT_PAGES);
    Listing.AllPagesFlatten(list, COUNT_PAGES);
    forall n: PageNumber | n <= Paginate(list, 1).numPages
      ensures Paginate(list, n).objectList == Listing.AllPages(list, COUNT_PAGES)[n - 1]
    {
      Listing.PageIsNth(list, n, COUNT_PAGES);
    }
  }

  /** Thirteen posts make two pages: ten on the first, three on the second, and nothing is lost. */
  lemma ThirteenPostsTwoPages(list: seq<Post>)
    requires |list| == 13
    ensures Paginate(list, 1).numPages == 2
    ensures |Paginate(list, 1).objectList| == 10
    ensures |Paginate(list, 2).objectList| == 3
    ensures Paginate(list, 1).objectList + Paginate(list, 2).objectList == list
  {
    assert Listing.NumPages(13, COUNT_PAGES) == 2 by {
      assert Listing.NumPages(3, COUNT_PAGES) == 1;
    }
    assert Paginate(list, 1).objectList == list[..10];
    assert Paginate(list, 2).objectList == list[10..];
    assert list[..10] + list[10..] == list;
  }

  /** With distinct publication dates the newest-first order is fully determined. */
  lemma NewestFirstUnique(posts: seq<Post>, other: seq<Post>)
    requires forall i, j :: 0 <= i < j < |posts| ==> posts[i].pubDate != posts[j].pubDate
    requires PostsInDefaultOrder(other) && multiset(other) == multiset(posts)
    ensures other == NewestFirst(posts)
  {
    var r := NewestFirst(posts);
    forall i, j | 0 <= i < |r| && 0 <= j < |r| && PostOrderKey(r[i]) == PostOrderKey(r[j]) ensures r[i] == r[j] {
      assert r[i] in multiset(posts) && r[j] in multiset(posts);
      var i' :| 0 <= i' < |posts| && posts[i'] == r[i];
      var j' :| 0 <= j' < |posts| && posts[j'] == r[j];
      assert !(i' < j') && !(j' < i');
    }
    Listing.DescendingUnique(r, other, PostOrderKey);
  }
}
