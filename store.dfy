/**
 * The data store and the views that change it: creating and editing a post,
 * commenting, following and unfollowing. Each view takes the signed-in user
 * as a parameter and answers with where it redirects.
 */
module Store {
  import opened Wrappers
  import opened Models
  import Listing
  import FollowGraph
  import Feeds

  /** A view's answer short of rendering: not found, a redirect target, or the form shown again. */
  datatype Response = NotFound | RedirectToProfile(username: string) | RedirectToPostDetail(postId: PostId) | FormShownAgain

  predicate KnownUser(users: seq<User>, id: UserId) {
    exists u :: u in users && u.id == id
  }

  predicate KnownPost(posts: seq<Post>, id: PostId) {
    exists p :: p in posts && p.id == id
  }

  /** Account keys and usernames are unique. */
  predicate UsersValid(users: seq<User>) {
    forall i, j :: 0 <= i < j < |users| ==> users[i].id != users[j].id && users[i].username != users[j].username
  }

  predicate UniquePostIds(posts: seq<Post>) {
    forall i, j :: 0 <= i < j < |posts| ==> posts[i].id != posts[j].id
  }

  predicate UniqueCommentIds(comments: seq<Comment>) {
    forall i, j :: 0 <= i < j < |comments| ==> comments[i].id != comments[j].id
  }

  /**
   * Saving the edit form: the post with key `id` takes the form's text, group
   * and image; its key, date and author stay, and every other post is untouched.
   */
  function EditPost(posts: seq<Post>, id: PostId, text: string, group: Option<GroupId>, image: Option<string>): (r: seq<Post>)
    ensures |r| == |posts|
    ensures forall i :: 0 <= i < |r| ==> r[i].id == posts[i].id && r[i].pubDate == posts[i].pubDate && r[i].author == posts[i].author
    ensures forall i :: 0 <= i < |r| && posts[i].id == id ==> r[i].text == text && r[i].group == group && r[i].image == image
    ensures forall i :: 0 <= i < |r| && posts[i].id != id ==> r[i] == posts[i]
  {
    seq(|posts|, i requires 0 <= i < |posts| =>
      if posts[i].id == id then posts[i].(text := text, group := group, image := image) else posts[i])
  }

  /**
   * After an edit the new text is what every listing shows for that post: the
   * front page and the author's profile hold it, and so does the group page
   * of the group it was given; the number of posts stays the same.
   */
  lemma EditVisibleInFeeds(posts: seq<Post>, k: nat, text: string, group: Option<GroupId>, image: Option<string>)
    requires k < |posts|
    ensures var edited := EditPost(posts, posts[k].id, text, group, image);
      var p := edited[k];
      && |Feeds.GlobalFeed(edited)| == |posts|
      && p.id == posts[k].id && p.text == text
      && p in Feeds.GlobalFeed(edited)
      && p in Feeds.AuthorFeed(edited, posts[k].author)
      && (group.Some? ==> p in Feeds.GroupFeed(edited, group.value))
  {
  }

  /** Editing a post leaves the table's keys and authors, so lookups by key find the same posts. */
  lemma EditKeepsKeys(posts: seq<Post>, id: PostId, text: string, group: Option<GroupId>, image: Option<string>, key: PostId)
    ensures KnownPost(EditPost(posts, id, text, group, image), key) <==> KnownPost(posts, key)
  {
  }

  /** Post keys are unique and below the next key; every post's author is a stored account. */
  predicate PostsValid(users: seq<User>, posts: seq<Post>, nextPostId: PostId) {
    && UniquePostIds(posts)
    && forall i :: 0 <= i < |posts| ==> posts[i].id < nextPostId && KnownUser(users, posts[i].author)
  }

  /** Comment keys are unique and below the next key; each comment's author and post are stored. */
  predicate CommentsValid(users: seq<User>, posts: seq<Post>, comments: seq<Comment>, nextCommentId: CommentId) {
    && UniqueCommentIds(comments)
    && forall i :: 0 <= i < |comments| ==>
         comments[i].id < nextCommentId && KnownUser(users, comments[i].author) && KnownPost(posts, comments[i].post)
  }

  /** The follow table's constraints, and both ends of every edge are stored accounts. */
  predicate FollowsValid(users: seq<User>, follows: seq<Follow>) {
    && FollowTableValid(follows)
    && forall i :: 0 <= i < |follows| ==> KnownUser(users, follows[i].user) && KnownUser(users, follows[i].author)
  }

  lemma AppendPostKeepsValid(users: seq<User>, posts: seq<Post>, comments: seq<Comment>,
                             nextPostId: PostId, nextCommentId: CommentId, p: Post)
    requires PostsValid(users, posts, nextPostId) && CommentsValid(users, posts, comments, nextCommentId)
    requires p.id == nextPostId && KnownUser(users, p.author)
    ensures PostsValid(users, posts + [p], nextPostId + 1)
    ensures CommentsValid(users, posts + [p], comments, nextCommentId)
  {
  }

  lemma EditPostKeepsValid(users: seq<User>, posts: seq<Post>, comments: seq<Comment>,
                           nextPostId: PostId, nextCommentId: CommentId,
                           id: PostId, text: string, group: Option<GroupId>, image: Option<string>)
    requires PostsValid(users, posts, nextPostId) && CommentsValid(users, posts, comments, nextCommentId)
    ensures PostsValid(users, EditPost(posts, id, text, group, image), nextPostId)
    ensures CommentsValid(users, EditPost(posts, id, text, group, image), comments, nextCommentId)
  {
  }

  lemma AppendCommentKeepsValid(users: seq<User>, posts: seq<Post>, comments: seq<Comment>,
                                nextCommentId: CommentId, c: Comment)
    requires CommentsValid(users, posts, comments, nextCommentId)
    requires c.id == nextCommentId && KnownUser(users, c.author) && KnownPost(posts, c.post)
    ensures CommentsValid(users, posts, comments + [c], nextCommentId + 1)
  {
  }

  lemma AddEdgeKeepsValid(users: seq<User>, follows: seq<Follow>, user: UserId, author: UserId)
    requires FollowsValid(users, follows) && KnownUser(users, user) && KnownUser(users, author)
    ensures FollowsValid(users, FollowGraph.AddEdge(follows, user, author))
  {
  }

  lemma RemoveEdgeKeepsValid(users: seq<User>, follows: seq<Follow>, user: UserId, author: UserId)
    requires FollowsValid(users, follows)
    ensures FollowsValid(users, FollowGraph.RemoveEdge(follows, user, author))
  {
    FollowGraph.RemoveEdgeKeepsTableValid(follows, user, author);
    var kept := FollowGraph.RemoveEdge(follows, user, author);
    forall i | 0 <= i < |kept| ensures KnownUser(users, kept[i].user) && KnownUser(users, kept[i].author) {
      assert kept[i] in follows;
      var j :| 0 <= j < |follows| && follows[j] == kept[i];
    }
  }

  class Store {
    var users: seq<User>
    var groups: seq<Group>
    var posts: seq<Post>
    var comments: seq<Comment>
    var follows: seq<Follow>
    /** The key the next new post gets. */
    var nextPostId: PostId
    /** The key the next new comment gets. */
    var nextCommentId: CommentId

    /** The tables' uniqueness, check and foreign-key rules. */
    ghost predicate Valid()
      reads this
    {
      && UsersValid(users)
      && GroupTableValid(groups)
      && PostsValid(users, posts, nextPostId)
      && CommentsValid(users, posts, comments, nextCommentId)
      && FollowsValid(users, follows)
    }

    /** A store with the given accounts and groups, and no posts, comments or follow edges. */
    constructor (users: seq<User>, groups: seq<Group>)
      requires UsersValid(users) && GroupTableValid(groups)
      ensures Valid()
      ensures this.users == users && this.groups == groups
      ensures posts == [] && comments == [] && follows == []
    {
      this.users := users;
      this.groups := groups;
      posts := [];
      comments := [];
      follows := [];
      nextPostId := 1;
      nextCommentId := 1;
    }

    /**
     * Creating a post: when the form is valid, one post is appended, authored
     * by the requester and dated `now`, and the requester is sent to their
     * profile; otherwise nothing changes and the form is shown again.
     */
    method PostCreate(requester: User, formValid: bool, text: string, group: Option<GroupId>,
                      image: Option<string>, now: Timestamp) returns (r: Response)
      requires Valid() && requester in users
      modifies this
      ensures Valid()
      ensures users == old(users) && groups == old(groups) && comments == old(comments)
      ensures follows == old(follows) && nextCommentId == old(nextCommentId)
      ensures formValid ==> posts == old(posts) + [Post(old(nextPostId), text, now, requester.id, group, image)]
      ensures formValid ==> nextPostId == old(nextPostId) + 1 && r == RedirectToProfile(requester.username)
      ensures !formValid ==> posts == old(posts) && nextPostId == old(nextPostId) && r == FormShownAgain
    {
      if formValid {
        var post := Post(nextPostId, text, now, requester.id, group, image);
        AppendPostKeepsValid(users, posts, comments, nextPostId, nextCommentId, post);
        posts := posts + [post];
        nextPostId := nextPostId + 1;
        r := RedirectToProfile(requester.username);
      } else {
        r := FormShownAgain;
      }
    }

    /**
     * Editing a post: an unknown key is not found; a valid form overwrites the
     * post's text, group and image and redirects to the post; an invalid one
     * changes nothing. Any signed-in user may edit any post.
     */
    method PostEdit(postId: PostId, formValid: bool, text: string, group: Option<GroupId>,
                    image: Option<string>) returns (r: Response)
      requires Valid()
      modifies this
      ensures Valid()
      ensures users == old(users) && groups == old(groups) && comments == old(comments) && follows == old(follows)
      ensures nextPostId == old(nextPostId) && nextCommentId == old(nextCommentId)
      ensures !KnownPost(old(posts), postId) ==> r == NotFound && posts == old(posts)
      ensures KnownPost(old(posts), postId) && formValid ==>
        r == RedirectToPostDetail(postId) && posts == EditPost(old(posts), postId, text, group, image)
      ensures KnownPost(old(posts), postId) && !formValid ==> r == FormShownAgain && posts == old(posts)
    {
      var found := Listing.Find(posts, (p: Post) => p.id == postId);
      if found.None? {
        return NotFound;
      }
      assert KnownPost(posts, postId);
      if !formValid {
        return FormShownAgain;
      }
      EditPostKeepsValid(users, posts, comments, nextPostId, nextCommentId, postId, text, group, image);
      posts := EditPost(posts, postId, text, group, image);
      r := RedirectToPostDetail(postId);
    }

    /**
     * Commenting: an unknown post is not found; a valid form appends one
     * comment by the requester on that post, dated `now`. Either way the
     * requester is sent back to the post.
     */
    method AddComment(requester: User, postId: PostId, formValid: bool, text: string, now: Timestamp)
      returns (r: Response)
      requires Valid() && requester in users
      modifies this
      ensures Valid()
      ensures users == old(users) && groups == old(groups) && posts == old(posts) && follows == old(follows)
      ensures nextPostId == old(nextPostId)
      ensures !KnownPost(posts, postId) ==> r == NotFound && comments == old(comments)
      ensures KnownPost(posts, postId) ==> r == RedirectToPostDetail(postId)
      ensures KnownPost(posts, postId) && formValid ==>
        comments == old(comments) + [Comment(old(nextCommentId), postId, requester.id, text, now)]
        && nextCommentId == old(nextCommentId) + 1
      ensures !(KnownPost(posts, postId) && formValid) ==>
        comments == old(comments) && nextCommentId == old(nextCommentId)
    {
      var found := Listing.Find(posts, (p: Post) => p.id == postId);
      if found.None? {
        return NotFound;
      }
      assert KnownPost(posts, postId);
      if formValid {
        var comment := Comment(nextCommentId, postId, requester.id, text, now);
        AppendCommentKeepsValid(users, posts, comments, nextCommentId, comment);
        comments := comments + [comment];
        nextCommentId := nextCommentId + 1;
      }
      r := RedirectToPostDetail(postId);
    }

    /**
     * Following: an unknown username is not found; otherwise the edge from the
     * requester to that author is got-or-created, unless they are the same
     * user, and the requester is sent to the author's profile.
     */
    method ProfileFollow(requester: User, username: string) returns (r: Response)
      requires Valid() && requester in users
      modifies this
      ensures Valid()
      ensures users == old(users) && groups == old(groups) && posts == old(posts) && comments == old(comments)
      ensures nextPostId == old(nextPostId) && nextCommentId == old(nextCommentId)
      ensures r == NotFound <==> forall i :: 0 <= i < |users| ==> users[i].username != username
      ensures r == NotFound ==> follows == old(follows)
      ensures r != NotFound ==>
        && r == RedirectToProfile(username)
        && exists a :: a in users && a.username == username && follows == FollowGraph.AddEdge(old(follows), requester.id, a.id)
    {
      var found := Listing.Find(users, (u: User) => u.username == username);
      if found.None? {
        return NotFound;
      }
      var author := found.value;
      AddEdgeKeepsValid(users, follows, requester.id, author.id);
      follows := FollowGraph.AddEdge(follows, requester.id, author.id);
      r := RedirectToProfile(username);
    }

    /**
     * Unfollowing: an unknown username is not found; otherwise every edge from
     * the requester to that author is deleted, and the requester is sent to
     * the author's profile.
     */
    method ProfileUnfollow(requester: User, username: string) returns (r: Response)
      requires Valid() && requester in users
      modifies this
      ensures Valid()
      ensures users == old(users) && groups == old(groups) && posts == old(posts) && comments == old(comments)
      ensures nextPostId == old(nextPostId) && nextCommentId == old(nextCommentId)
      ensures r == NotFound <==> forall i :: 0 <= i < |users| ==> users[i].username != username
      ensures r == NotFound ==> follows == old(follows)
      ensures r != NotFound ==>
        && r == RedirectToProfile(username)
        && exists a :: a in users && a.username == username && follows == FollowGraph.RemoveEdge(old(follows), requester.id, a.id)
    {
      var found := Listing.Find(users, (u: User) => u.username == username);
      if found.None? {
        return NotFound;
      }
      var author := found.value;
      RemoveEdgeKeepsValid(users, follows, requester.id, author.id);
      follows := FollowGraph.RemoveEdge(follows, requester.id, author.id);
      r := RedirectToProfile(username);
    }
  }
}
