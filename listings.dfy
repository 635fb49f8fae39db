/** The two enriched post listings, `GET /posts?excludeUserId=` and
    `GET /posts/:userId`: posts joined with their author's display fields and
    with like metadata for the viewer, newest first by `created_at`, ties broken
    by the larger id. */
module Listings {
  import opened Wrappers
  import opened Tables

  /** One row of a listing: the post's columns, its author's display columns,
      `like_count` and `liked_by_current_user`. */
  datatype PostView = PostView(
    id: PostId,
    userId: UserId,
    content: string,
    edited: bool,
    createdAt: nat,
    fName: string,
    mName: string,
    lName: string,
    initials: string,
    profileColor: string,
    likeCount: nat,
    likedByCurrentUser: nat)

  /** `ORDER BY created_at DESC, id DESC`: the post stamped t1 with id a comes
      before the one stamped t2 with id b. */
  predicate Newer(t1: nat, a: PostId, t2: nat, b: PostId)
  {
    t1 > t2 || (t1 == t2 && a > b)
  }

  /** The order on rows. */
  predicate NewerFirst(x: PostView, y: PostView)
  {
    Newer(x.createdAt, x.id, y.createdAt, y.id)
  }

  predicate SortedNewestFirst(r: seq<PostView>)
  {
    forall i, j :: 0 <= i < j < |r| ==> NewerFirst(r[i], r[j])
  }

  /** The same order on stored posts, by id. */
  ghost predicate Before(posts: map<PostId, Post>, a: PostId, b: PostId)
  {
    a in posts && b in posts && Newer(posts[a].createdAt, a, posts[b].createdAt, b)
  }

  ghost predicate IsNewest(posts: map<PostId, Post>, m: PostId, ids: set<PostId>)
  {
    m in ids && forall o :: o in ids && o != m ==> Before(posts, m, o)
  }

  /** Every non-empty set of stored posts has a newest one. */
  lemma {:induction false} NewestExists(posts: map<PostId, Post>, ids: set<PostId>)
    requires ids != {} && ids <= posts.Keys
    ensures exists m :: IsNewest(posts, m, ids)
    decreases ids
  {
    var x :| x in ids;
    if ids == {x} {
      assert IsNewest(posts, x, ids);
    } else {
      NewestExists(posts, ids - {x});
      var m :| IsNewest(posts, m, ids - {x});
      if Before(posts, x, m) {
        forall o | o in ids && o != x ensures Before(posts, x, o) {
          if o != m { assert Before(posts, m, o); }
        }
        assert IsNewest(posts, x, ids);
      } else {
        assert Before(posts, m, x);
        assert IsNewest(posts, m, ids);
      }
    }
  }

  /** The ids in `ids`, newest first: each id once, in strictly decreasing order. */
  ghost function Order(posts: map<PostId, Post>, ids: set<PostId>): (s: seq<PostId>)
    requires ids <= posts.Keys
    ensures forall i :: 0 <= i < |s| ==> s[i] in ids
    ensures forall p :: p in ids ==> p in s
    ensures forall i, j :: 0 <= i < j < |s| ==> Before(posts, s[i], s[j])
    decreases ids
  {
    if ids == {} then []
    else
      NewestExists(posts, ids);
      var m :| IsNewest(posts, m, ids);
      [m] + Order(posts, ids - {m})
  }

  /** The row the query produces for post p, as seen by `viewer`. */
  function View(users: map<UserId, User>, posts: map<PostId, Post>, likes: set<Like>,
                viewer: UserId, p: PostId): PostView
    requires p in posts && posts[p].owner in users
  {
    var post := posts[p];
    var author := users[post.owner];
    PostView(p, post.owner, post.content, post.edited, post.createdAt,
             author.fName, author.mName, author.lName, author.initials, author.profileColor,
             LikeCount(likes, p), LikedBy(likes, p, viewer))
  }

  /** Row v is the row the query produces for the stored post v.id. */
  ghost predicate Describes(users: map<UserId, User>, posts: map<PostId, Post>, likes: set<Like>,
                            viewer: UserId, v: PostView)
  {
    v.id in posts && posts[v.id].owner in users && v == View(users, posts, likes, viewer, v.id)
  }

  /** r lists exactly the posts in `ids`, each described faithfully, newest first. */
  ghost predicate IsFeed(users: map<UserId, User>, posts: map<PostId, Post>, likes: set<Like>,
                         viewer: UserId, ids: set<PostId>, r: seq<PostView>)
  {
    && (forall i :: 0 <= i < |r| ==> r[i].id in ids && Describes(users, posts, likes, viewer, r[i]))
    && (forall p :: p in ids ==> exists i :: 0 <= i < |r| && r[i].id == p)
    && SortedNewestFirst(r)
  }

  /** The rows for the posts in `order`, one per id, in the same order. */
  function Rows(users: map<UserId, User>, posts: map<PostId, Post>, likes: set<Like>,
                viewer: UserId, order: seq<PostId>): (r: seq<PostView>)
    requires forall i :: 0 <= i < |order| ==> order[i] in posts && posts[order[i]].owner in users
    ensures |r| == |order|
    ensures forall i :: 0 <= i < |r| ==> r[i].id == order[i] && Describes(users, posts, likes, viewer, r[i])
  {
    if order == [] then []
    else [View(users, posts, likes, viewer, order[0])] + Rows(users, posts, likes, viewer, order[1..])
  }

  ghost function Feed(users: map<UserId, User>, posts: map<PostId, Post>, likes: set<Like>,
                      viewer: UserId, ids: set<PostId>): (r: seq<PostView>)
    requires ids <= posts.Keys
    requires forall p :: p in ids ==> posts[p].owner in users
    ensures IsFeed(users, posts, likes, viewer, ids, r)
  {
    var order := Order(posts, ids);
    var r := Rows(users, posts, likes, viewer, order);
    assert forall p :: p in ids ==> exists i :: 0 <= i < |r| && r[i].id == p by {
      forall p | p in ids ensures exists i :: 0 <= i < |r| && r[i].id == p {
        var i :| 0 <= i < |order| && order[i] == p;
        assert r[i].id == p;
      }
    }
    assert SortedNewestFirst(r) by {
      forall i, j | 0 <= i < j < |r| ensures NewerFirst(r[i], r[j]) {
        assert Before(posts, order[i], order[j]);
        assert r[i] == View(users, posts, likes, viewer, order[i]);
        assert r[j] == View(users, posts, likes, viewer, order[j]);
        assert r[i].createdAt == posts[order[i]].createdAt && r[j].createdAt == posts[order[j]].createdAt;
      }
    }
    r
  }

  /** `GET /posts`: every post whose author is not `exclude` (every post when no
      `excludeUserId` is given), as seen by `viewer`. */
  ghost function ListAll(users: map<UserId, User>, posts: map<PostId, Post>, likes: set<Like>,
                         viewer: UserId, exclude: Option<UserId>): (r: seq<PostView>)
    requires OwnersExist(users, posts)
    ensures forall i :: 0 <= i < |r| ==>
              r[i].id in posts && (exclude.None? || r[i].userId != exclude.value)
    ensures forall p :: p in posts && (exclude.None? || posts[p].owner != exclude.value) ==>
              exists i :: 0 <= i < |r| && r[i].id == p
    ensures SortedNewestFirst(r)
    ensures forall i :: 0 <= i < |r| ==> Describes(users, posts, likes, viewer, r[i])
  {
    var ids := set p | p in posts && (exclude.None? || posts[p].owner != exclude.value);
    assert forall p :: p in posts && (exclude.None? || posts[p].owner != exclude.value) ==> p in ids;
    Feed(users, posts, likes, viewer, ids)
  }

  /** `GET /posts/:userId`: exactly the posts of `author`, as seen by `viewer`. */
  ghost function ListByAuthor(users: map<UserId, User>, posts: map<PostId, Post>, likes: set<Like>,
                              viewer: UserId, author: UserId): (r: seq<PostView>)
    requires OwnersExist(users, posts)
    ensures forall i :: 0 <= i < |r| ==> r[i].id in posts && r[i].userId == author
    ensures forall p :: p in posts && posts[p].owner == author ==>
              exists i :: 0 <= i < |r| && r[i].id == p
    ensures SortedNewestFirst(r)
    ensures forall i :: 0 <= i < |r| ==> Describes(users, posts, likes, viewer, r[i])
  {
    var ids := set p | p in posts && posts[p].owner == author;
    assert forall p :: p in posts && posts[p].owner == author ==> p in ids;
    Feed(users, posts, likes, viewer, ids)
  }

  /** The first row of a newest-first sequence is newer than every other row in it. */
  lemma HeadIsNewest(r: seq<PostView>)
    requires SortedNewestFirst(r) && r != []
    ensures forall v :: v in r && v != r[0] ==> NewerFirst(r[0], v)
  {
  }

  lemma NoMemberIsEmpty(r: seq<PostView>)
    ensures (forall v :: v !in r) ==> r == []
  {
    if r != [] { assert r[0] in r; }
  }

  /** Two strictly newest-first sequences holding the same rows are equal. */
  lemma {:induction false} SortedRowsUnique(r1: seq<PostView>, r2: seq<PostView>)
    requires SortedNewestFirst(r1) && SortedNewestFirst(r2)
    requires forall v :: v in r1 <==> v in r2
    ensures r1 == r2
    decreases |r1|
  {
    if r1 == [] {
      NoMemberIsEmpty(r2);
    } else {
      assert r1[0] in r2;
      assert r2[0] in r1;
      HeadIsNewest(r1);
      HeadIsNewest(r2);
      assert r1[0] == r2[0];
      forall v ensures v in r1[1..] <==> v in r2[1..] {
        if v in r1[1..] {
          var k :| 1 <= k < |r1| && r1[k] == v;
          assert NewerFirst(r1[0], r1[k]);
          assert v in r2;
        }
        if v in r2[1..] {
          var k :| 1 <= k < |r2| && r2[k] == v;
          assert NewerFirst(r2[0], r2[k]);
          assert v in r1;
        }
      }
      SortedRowsUnique(r1[1..], r2[1..]);
    }
  }

  /** A listing is determined by its ids: there is exactly one feed for a given
      set of posts and viewer, so `ListAll` and `ListByAuthor` are the only
      results the query may return. */
  lemma FeedIsUnique(users: map<UserId, User>, posts: map<PostId, Post>, likes: set<Like>,
                     viewer: UserId, ids: set<PostId>, r1: seq<PostView>, r2: seq<PostView>)
    requires IsFeed(users, posts, likes, viewer, ids, r1)
    requires IsFeed(users, posts, likes, viewer, ids, r2)
    ensures r1 == r2
  {
    forall v ensures v in r1 <==> v in r2 {
      if v in r1 {
        var i :| 0 <= i < |r1| && r1[i] == v;
        var j :| 0 <= j < |r2| && r2[j].id == v.id;
        assert r2[j] == v;
      }
      if v in r2 {
        var j :| 0 <= j < |r2| && r2[j] == v;
        var i :| 0 <= i < |r1| && r1[i].id == v.id;
        assert r1[i] == v;
      }
    }
    SortedRowsUnique(r1, r2);
  }

  /** After the viewer likes post p (a pair not yet present), p's row in any
      listing shows one more like than before and is flagged as liked. */
  lemma LikeShowsInFeed(users: map<UserId, User>, posts: map<PostId, Post>, likes: set<Like>,
                        viewer: UserId, exclude: Option<UserId>, p: PostId)
    requires OwnersExist(users, posts)
    requires Like(p, viewer) !in likes
    ensures
      var r := ListAll(users, posts, likes + {Like(p, viewer)}, viewer, exclude);
      forall i :: 0 <= i < |r| && r[i].id == p ==>
        r[i].likeCount == LikeCount(likes, p) + 1 && r[i].likedByCurrentUser == 1
  {
    LikeCountInsert(likes, p, viewer);
  }

  /** After user uid is deleted with its cascades, no row of `GET /posts`
      shows a post of uid, and a listing for viewer uid flags no post as liked. */
  lemma DeletedUserVanishesFromFeed(users: map<UserId, User>, posts: map<PostId, Post>, likes: set<Like>,
                                    viewer: UserId, exclude: Option<UserId>, uid: UserId)
    requires Integrity(users, posts, likes)
    ensures
      var posts' := PostsWithoutOwner(posts, uid);
      var likes' := LikesSurviving(likes, posts'.Keys, uid);
      var r := ListAll(users - {uid}, posts', likes', viewer, exclude);
      forall i :: 0 <= i < |r| ==>
        r[i].userId != uid && (viewer == uid ==> r[i].likedByCurrentUser == 0)
  {
    CascadeKeepsIntegrity(users, posts, likes, uid);
  }
}
