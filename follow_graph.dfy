/**
 * The follow graph: a table of directed (user, author) rows, the follow and
 * unfollow updates applied to it, and the membership answer shown on a profile.
 */
module FollowGraph {
  import opened Wrappers
  import opened Models
  import Listing

  /** Whether `user` follows `author` in the table. */
  predicate IsFollowing(rows: seq<Follow>, user: UserId, author: UserId) {
    Follow(user, author) in rows
  }

  /**
   * Following: get-or-create the row (user, author), skipped entirely when a
   * user asks to follow themself.
   */
  function AddEdge(rows: seq<Follow>, user: UserId, author: UserId): (r: seq<Follow>)
    ensures forall e :: e in r <==> e in rows || (e == Follow(user, author) && user != author)
  {
    if user == author || Follow(user, author) in rows then rows else rows + [Follow(user, author)]
  }

  /** Unfollowing: delete every row (user, author); other rows stay, in order. */
  function RemoveEdge(rows: seq<Follow>, user: UserId, author: UserId): (r: seq<Follow>)
    ensures forall e :: e in r <==> e in rows && e != Follow(user, author)
  {
    Listing.Filter(rows, (e: Follow) => e != Follow(user, author))
  }

  /** The profile's `following` flag: absent for an anonymous viewer, else whether the viewer follows the author. */
  function Following(rows: seq<Follow>, viewer: Option<UserId>, author: UserId): (r: Option<bool>)
    ensures r.None? <==> viewer.None?
    ensures r == Some(true) <==> viewer.Some? && IsFollowing(rows, viewer.value, author)
  {
    if viewer.None? then None else Some(IsFollowing(rows, viewer.value, author))
  }

  // ---- Following ------------------------------------------------------------

  /** After following someone else the edge is there; the table grows by one row exactly when it was absent. */
  lemma AddEdgeEffect(rows: seq<Follow>, user: UserId, author: UserId)
    requires user != author
    ensures IsFollowing(AddEdge(rows, user, author), user, author)
    ensures !IsFollowing(rows, user, author) ==> |AddEdge(rows, user, author)| == |rows| + 1
    ensures IsFollowing(rows, user, author) ==> AddEdge(rows, user, author) == rows
  {
  }

  /** Following oneself leaves the table as it was. */
  lemma AddSelfEdgeIsNoOp(rows: seq<Follow>, user: UserId)
    ensures AddEdge(rows, user, user) == rows
  {
  }

  /** Following twice has the same effect as following once. */
  lemma AddEdgeIdempotent(rows: seq<Follow>, user: UserId, author: UserId)
    ensures AddEdge(AddEdge(rows, user, author), user, author) == AddEdge(rows, user, author)
  {
  }

  /** Following keeps the table's unique and no-self-follow constraints. */
  lemma AddEdgeKeepsTableValid(rows: seq<Follow>, user: UserId, author: UserId)
    requires FollowTableValid(rows)
    ensures FollowTableValid(AddEdge(rows, user, author))
  {
  }

  // ---- Unfollowing ----------------------------------------------------------

  /** After unfollowing the edge is gone; unfollowing an absent edge changes nothing. */
  lemma RemoveEdgeEffect(rows: seq<Follow>, user: UserId, author: UserId)
    ensures !IsFollowing(RemoveEdge(rows, user, author), user, author)
    ensures !IsFollowing(rows, user, author) ==> RemoveEdge(rows, user, author) == rows
  {
    if !IsFollowing(rows, user, author) {
      Listing.FilterKeepingAll(rows, (e: Follow) => e != Follow(user, author));
    }
  }

  /** In a valid table, unfollowing an existing edge removes exactly one row. */
  lemma RemoveEdgeCount(rows: seq<Follow>, user: UserId, author: UserId)
    requires UniqueFollowPairs(rows)
    requires IsFollowing(rows, user, author)
    ensures |RemoveEdge(rows, user, author)| == |rows| - 1
  {
    var e := Follow(user, author);
    var r := RemoveEdge(rows, user, author);
    Listing.UniqueOccursOnce(rows, e);
    assert multiset(r) == multiset(rows) - multiset{e} by {
      forall x ensures multiset(r)[x] == (multiset(rows) - multiset{e})[x] { }
    }
    assert |multiset(rows) - multiset{e}| == |multiset(rows)| - 1 by {
      assert multiset(rows) == (multiset(rows) - multiset{e}) + multiset{e};
    }
  }

  /** Unfollowing keeps the table's constraints. */
  lemma RemoveEdgeKeepsTableValid(rows: seq<Follow>, user: UserId, author: UserId)
    requires FollowTableValid(rows)
    ensures FollowTableValid(RemoveEdge(rows, user, author))
  {
    var r := RemoveEdge(rows, user, author);
    Listing.FilterKeepsUnique(rows, (e: Follow) => e != Follow(user, author));
    forall i | 0 <= i < |r| ensures r[i].user != r[i].author {
      assert r[i] in r;
      var j :| 0 <= j < |rows| && rows[j] == r[i];
    }
  }

  /** Unfollowing twice has the same effect as unfollowing once. */
  lemma RemoveEdgeIdempotent(rows: seq<Follow>, user: UserId, author: UserId)
    ensures RemoveEdge(RemoveEdge(rows, user, author), user, author) == RemoveEdge(rows, user, author)
  {
    RemoveEdgeEffect(RemoveEdge(rows, user, author), user, author);
  }

  /** Unfollowing right after following a new author restores the table. */
  lemma UnfollowUndoesFollow(rows: seq<Follow>, user: UserId, author: UserId)
    requires !IsFollowing(rows, user, author)
    ensures RemoveEdge(AddEdge(rows, user, author), user, author) == rows
  {
    var keep := (e: Follow) => e != Follow(user, author);
    Listing.FilterKeepingAll(rows, keep);
    if user != author {
      Listing.FilterAppend(rows, [Follow(user, author)], keep);
      assert Listing.Filter([Follow(user, author)], keep) == [];
    }
  }

  /** The flag shown after following someone else is "following"; after unfollowing it is "not following". */
  lemma FollowingAfterUpdates(rows: seq<Follow>, user: UserId, author: UserId)
    ensures user != author ==> Following(AddEdge(rows, user, author), Some(user), author) == Some(true)
    ensures Following(RemoveEdge(rows, user, author), Some(user), author) == Some(false)
  {
  }
}
