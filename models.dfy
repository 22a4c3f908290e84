/**
 * The blog's entities (groups, posts, comments, follow edges), their string
 * renderings, the declarative rules of their tables and their default orderings.
 */
module Models {
  import opened Wrappers
  import Listing

  type UserId = nat
  type GroupId = nat
  type PostId = nat
  type CommentId = nat
  /** A point in time, as a natural number: larger is later. */
  type Timestamp = nat

  /** An account of the authentication layer; only its key and username matter here. */
  datatype User = User(id: UserId, username: string)

  datatype Group = Group(id: GroupId, title: string, slug: string, description: string)

  /** A post; `pubDate` is set once, when the post is created. */
  datatype Post = Post(
    id: PostId,
    text: string,
    pubDate: Timestamp,
    author: UserId,
    group: Option<GroupId>,
    image: Option<string>)

  datatype Comment = Comment(id: CommentId, post: PostId, author: UserId, text: string, created: Timestamp)

  /** A directed edge: `user` follows `author`. */
  datatype Follow = Follow(user: UserId, author: UserId)

  /** The number of characters a post shows of its text when rendered as a string. */
  const POST_STR_LENGTH: nat := 15

  /** A post's string form: its text cut to at most fifteen characters. */
  function PostStr(p: Post): (r: string)
    ensures r <= p.text
    ensures |r| <= POST_STR_LENGTH
    ensures |r| == POST_STR_LENGTH || r == p.text
  {
    if |p.text| > POST_STR_LENGTH then p.text[..POST_STR_LENGTH] else p.text
  }

  /** A group's string form is its title. */
  function GroupStr(g: Group): (r: string)
    ensures r == g.title
  {
    g.title
  }

  /** A comment's string form is its text. */
  function CommentStr(c: Comment): (r: string)
    ensures r == c.text
  {
    c.text
  }

  /** A follow edge's string form, given the two users it joins: "<follower> подписан на <author>". */
  function FollowStr(follower: User, author: User): (r: string)
    ensures |r| == |follower.username| + |" подписан на "| + |author.username|
    ensures follower.username <= r
    ensures r[|r| - |author.username|..] == author.username
    ensures r[|follower.username|..|r| - |author.username|] == " подписан на "
  {
    follower.username + " подписан на " + author.username
  }

  // ---- Table rules ----------------------------------------------------------

  /** The unique constraint on the follow table: no (user, author) pair twice. */
  predicate UniqueFollowPairs(rows: seq<Follow>) {
    Listing.NoDuplicates(rows)
  }

  /** The check constraint on the follow table: nobody follows themself. */
  predicate NoSelfFollow(rows: seq<Follow>) {
    forall i :: 0 <= i < |rows| ==> rows[i].user != rows[i].author
  }

  predicate FollowTableValid(rows: seq<Follow>) {
    UniqueFollowPairs(rows) && NoSelfFollow(rows)
  }

  /** Group keys, titles and slugs are each unique across the group table. */
  predicate GroupTableValid(groups: seq<Group>) {
    forall i, j :: 0 <= i < j < |groups| ==>
      groups[i].id != groups[j].id && groups[i].title != groups[j].title && groups[i].slug != groups[j].slug
  }

  // ---- Default orderings ----------------------------------------------------

  function PostOrderKey(p: Post): int { p.pubDate }

  function CommentOrderKey(c: Comment): int { c.created }

  /** Posts are listed by publication date, newest first. */
  predicate PostsInDefaultOrder(posts: seq<Post>) {
    Listing.Descending(posts, PostOrderKey)
  }

  /** Comments are listed by creation date, newest first. */
  predicate CommentsInDefaultOrder(comments: seq<Comment>) {
    Listing.Descending(comments, CommentOrderKey)
  }
}
