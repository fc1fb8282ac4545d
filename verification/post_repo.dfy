/**
 * The `posts` table as seen by the view-count write-back: rows keyed by ID,
 * a publication status, a view counter and GORM's soft-delete marker, which
 * every query and update silently filters on.
 */
module PostRepo {
  import opened Common

  const PostDraft: int := 1
  const PostPublished: int := 2
  const PostArchived: int := 3

  datatype Post = Post(id: nat, status: int, viewCount: int, updatedAt: int, deleted: bool)

  /** The table, keyed by primary key. */
  type Posts = map<nat, Post>

  predicate WellKeyed(posts: Posts) {
    forall k :: k in posts ==> posts[k].id == k
  }

  /** Rows the public queries return: live and published. */
  predicate Visible(p: Post) {
    !p.deleted && p.status == PostPublished
  }

  datatype RepoError = ErrPostNotFound | DatabaseFailure

  /**
   * Every published, live post, or the database failure `Find` returns. The
   * query has no ORDER BY, so the listing is a set.
   */
  function GetAllPosts(posts: Posts, dbFails: bool): (r: Result<set<Post>, RepoError>)
    ensures r.Err? <==> dbFails
    ensures r.Err? ==> r.error == DatabaseFailure
    ensures r.Ok? ==> forall p :: p in r.value <==> exists k :: k in posts && posts[k] == p && Visible(p)
  {
    if dbFails then Err(DatabaseFailure)
    else Ok(set k | k in posts && Visible(posts[k]) :: posts[k])
  }

  /**
   * Looks up one published post. A missing, unpublished or deleted row is
   * `ErrPostNotFound`; any other database failure is passed through.
   */
  function GetPostByID(posts: Posts, id: nat, dbFails: bool): (r: Result<Post, RepoError>)
    ensures r.Ok? ==> r.value.id == id || !WellKeyed(posts)
    ensures r.Err? ==> (r.error == DatabaseFailure <==> dbFails)
  {
    if dbFails then Err(DatabaseFailure)
    else if id in posts && Visible(posts[id]) then Ok(posts[id])
    else Err(ErrPostNotFound)
  }

  /** A single post is found exactly when it appears in the full listing. */
  lemma GetPostByIDMatchesListing(posts: Posts, id: nat)
    requires WellKeyed(posts)
    ensures GetPostByID(posts, id, false).Ok? <==> exists p :: p in GetAllPosts(posts, false).value && p.id == id
    ensures GetPostByID(posts, id, false).Ok? ==> GetPostByID(posts, id, false).value in GetAllPosts(posts, false).value
  {
    var all := GetAllPosts(posts, false).value;
    if exists p :: p in all && p.id == id {
      var p :| p in all && p.id == id;
      var k :| k in posts && posts[k] == p && Visible(p);
      assert k == id;
    }
    if id in posts && Visible(posts[id]) {
      assert posts[id] in all;
    }
  }

  /** The delta a map assigns to `id`, zero when it has no entry. */
  function Delta(updates: map<nat, int>, id: nat): int {
    if id in updates then updates[id] else 0
  }

  /**
   * `view_count = view_count + CASE id WHEN .. THEN delta .. ELSE 0 END
   * WHERE id IN (..)` in one statement. An empty map issues no statement; a
   * failing statement changes nothing. Soft-deleted rows are outside the
   * update's scope.
   */
  function UpdateViewCounts(posts: Posts, updates: map<nat, int>, dbFails: bool): (r: (Posts, Option<RepoError>))
    ensures r.1.Some? <==> dbFails && |updates| > 0
    ensures r.0.Keys == posts.Keys
    ensures forall k :: k in posts ==>
      r.0[k] == posts[k].(viewCount := posts[k].viewCount + if r.1.None? && !posts[k].deleted then Delta(updates, k) else 0)
  {
    if |updates| == 0 then (posts, None)
    else if dbFails then (posts, Some(DatabaseFailure))
    else
      (map k | k in posts :: if k in updates && !posts[k].deleted
                             then posts[k].(viewCount := posts[k].viewCount + updates[k])
                             else posts[k],
       None)
  }

  /** Two successful batches commute, and together add the sum of their deltas. */
  lemma UpdateViewCountsCommute(posts: Posts, u1: map<nat, int>, u2: map<nat, int>)
    ensures UpdateViewCounts(UpdateViewCounts(posts, u1, false).0, u2, false).0
         == UpdateViewCounts(UpdateViewCounts(posts, u2, false).0, u1, false).0
    ensures forall k :: k in posts && !posts[k].deleted ==>
      UpdateViewCounts(UpdateViewCounts(posts, u1, false).0, u2, false).0[k].viewCount
        == posts[k].viewCount + Delta(u1, k) + Delta(u2, k)
  {
    var a := UpdateViewCounts(UpdateViewCounts(posts, u1, false).0, u2, false).0;
    var b := UpdateViewCounts(UpdateViewCounts(posts, u2, false).0, u1, false).0;
    assert a.Keys == b.Keys;
    forall k | k in a ensures a[k] == b[k] {
    }
  }
}
