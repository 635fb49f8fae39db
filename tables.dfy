/** The three tables of the relational store (`users`, `posts`, `post_likes`) and
    the constraints their schema declares: `username UNIQUE`, the foreign keys
    from posts to users and from likes to posts and users, and
    `UNIQUE(post_id, user_id)` on likes (a like is a pair, kept in a set). */
module Tables {
  import opened Wrappers

  type UserId = nat
  type PostId = nat

  /** The bcrypt hash stored in the `password` column, treated as opaque text. */
  type PasswordHash = string

  datatype User = User(
    username: string,
    fName: string,
    mName: string,
    lName: string,
    initials: string,
    profileColor: string,
    password: PasswordHash)

  datatype Post = Post(owner: UserId, content: string, edited: bool, createdAt: nat)

  datatype Like = Like(postId: PostId, userId: UserId)

  /** The width of every `VARCHAR(255)` column of `users`. */
  const VarcharWidth: nat := 255

  /** What PostgreSQL stores when `s` is written to a `VARCHAR(255)` column:
      `s` itself when it fits, `s` cut to the width when everything beyond the
      width is spaces, and otherwise nothing (the write fails with "value too
      long"). */
  function Varchar255(s: string): (r: Option<string>)
    ensures |s| <= VarcharWidth ==> r == Some(s)
    ensures r.Some? ==>
              && |r.value| <= VarcharWidth
              && r.value == s[..|r.value|]
              && forall i :: |r.value| <= i < |s| ==> s[i] == ' '
    ensures r.Some? && |s| > VarcharWidth ==> r.value == s[..VarcharWidth]
    ensures r.None? <==> exists i :: VarcharWidth <= i < |s| && s[i] != ' '
  {
    if |s| <= VarcharWidth then Some(s)
    else if forall i | VarcharWidth <= i < |s| :: s[i] == ' ' then Some(s[..VarcharWidth])
    else None
  }

  /** 256 letters do not fit; 255 letters followed by spaces are cut to the letters. */
  lemma Varchar255Examples()
    ensures Varchar255(seq(256, _ => 'A')).None?
    ensures Varchar255(seq(255, _ => 'A') + "  ") == Some(seq(255, _ => 'A'))
  {
    var long := seq(256, _ => 'A');
    assert long[255] != ' ';
    var letters := seq(255, _ => 'A');
    assert (letters + "  ")[..255] == letters;
  }

  /** Every text column of a user row fits its `VARCHAR(255)` width. */
  ghost predicate ColumnsFit(users: map<UserId, User>)
  {
    forall id :: id in users ==>
      var u := users[id];
      && |u.username| <= VarcharWidth && |u.fName| <= VarcharWidth && |u.mName| <= VarcharWidth
      && |u.lName| <= VarcharWidth && |u.initials| <= VarcharWidth
      && |u.profileColor| <= VarcharWidth && |u.password| <= VarcharWidth
  }

  ghost predicate UsernamesUnique(users: map<UserId, User>)
  {
    forall a, b :: a in users && b in users && a != b ==> users[a].username != users[b].username
  }

  /** The foreign key `posts.user_id -> users.id`. */
  ghost predicate OwnersExist(users: map<UserId, User>, posts: map<PostId, Post>)
  {
    forall p :: p in posts ==> posts[p].owner in users
  }

  /** The foreign keys `post_likes.post_id -> posts.id` and `post_likes.user_id -> users.id`. */
  ghost predicate LikesReference(users: map<UserId, User>, posts: map<PostId, Post>, likes: set<Like>)
  {
    forall l :: l in likes ==> l.postId in posts && l.userId in users
  }

  ghost predicate Integrity(users: map<UserId, User>, posts: map<PostId, Post>, likes: set<Like>)
  {
    UsernamesUnique(users) && OwnersExist(users, posts) && LikesReference(users, posts, likes)
  }

  /** Some user already holds `name`. */
  predicate NameTaken(users: map<UserId, User>, name: string)
  {
    exists id | id in users :: users[id].username == name
  }

  /** Some user other than `self` already holds `name`. */
  predicate HeldByOther(users: map<UserId, User>, self: UserId, name: string)
  {
    exists id | id in users :: id != self && users[id].username == name
  }

  /** The posts that survive deleting user `uid`: `ON DELETE CASCADE` on `posts.user_id`. */
  function PostsWithoutOwner(posts: map<PostId, Post>, uid: UserId): map<PostId, Post>
  {
    map p | p in posts && posts[p].owner != uid :: posts[p]
  }

  /** The likes that survive when only the posts in `kept` remain and user `uid`
      is gone: `ON DELETE CASCADE` on both foreign keys of `post_likes`. */
  function LikesSurviving(likes: set<Like>, kept: set<PostId>, uid: UserId): set<Like>
  {
    set l | l in likes && l.postId in kept && l.userId != uid
  }

  /** `COUNT(post_likes.id)` for one post after `LEFT JOIN post_likes`. */
  function LikeCount(likes: set<Like>, p: PostId): nat
  {
    |set l | l in likes && l.postId == p|
  }

  /** A post's like count is zero exactly when no user likes it. */
  lemma LikeCountZero(likes: set<Like>, p: PostId)
    ensures LikeCount(likes, p) == 0 <==> forall u :: Like(p, u) !in likes
  {
    var rows := set l | l in likes && l.postId == p;
    if rows == {} {
      forall u ensures Like(p, u) !in likes {
        assert Like(p, u) !in rows;
      }
    } else {
      var l :| l in rows;
      assert Like(p, l.userId) in likes;
    }
  }

  /** `SUM(CASE WHEN post_likes.user_id = viewer THEN 1 ELSE 0 END)` for one post:
      because a pair occurs at most once, it is 1 exactly when the viewer likes the post. */
  function LikedBy(likes: set<Like>, p: PostId, viewer: UserId): (n: nat)
    ensures n == if Like(p, viewer) in likes then 1 else 0
  {
    var rows := set l | l in likes && l.postId == p && l.userId == viewer;
    if Like(p, viewer) in likes then
      assert rows == {Like(p, viewer)};
      |rows|
    else
      assert rows == {};
      |rows|
  }

  /** Inserting the pair (p, u) raises the like count of p by exactly one... */
  lemma LikeCountInsert(likes: set<Like>, p: PostId, u: UserId)
    requires Like(p, u) !in likes
    ensures LikeCount(likes + {Like(p, u)}, p) == LikeCount(likes, p) + 1
  {
    var before := set l | l in likes && l.postId == p;
    var after := set l | l in likes + {Like(p, u)} && l.postId == p;
    assert after == before + {Like(p, u)};
  }

  /** ...and removing a present pair lowers it by exactly one. */
  lemma LikeCountRemove(likes: set<Like>, p: PostId, u: UserId)
    requires Like(p, u) in likes
    ensures LikeCount(likes - {Like(p, u)}, p) + 1 == LikeCount(likes, p)
  {
    var before := set l | l in likes && l.postId == p;
    var after := set l | l in likes - {Like(p, u)} && l.postId == p;
    assert before == after + {Like(p, u)};
  }

  /** Liking or unliking post p leaves every other post's count as it was. */
  lemma LikeCountOtherPost(likes: set<Like>, p: PostId, u: UserId, q: PostId)
    requires q != p
    ensures LikeCount(likes + {Like(p, u)}, q) == LikeCount(likes, q)
    ensures LikeCount(likes - {Like(p, u)}, q) == LikeCount(likes, q)
  {
    var before := set l | l in likes && l.postId == q;
    assert (set l | l in likes + {Like(p, u)} && l.postId == q) == before;
    assert (set l | l in likes - {Like(p, u)} && l.postId == q) == before;
  }

  /** Renaming a user to a name no other user holds keeps usernames unique. */
  lemma RenameKeepsUsernamesUnique(users: map<UserId, User>, uid: UserId, name: string)
    requires UsernamesUnique(users)
    requires uid in users
    requires !HeldByOther(users, uid, name)
    ensures UsernamesUnique(users[uid := users[uid].(username := name)])
  {
  }

  /** Deleting a user with both cascades leaves no dangling reference. */
  lemma CascadeKeepsIntegrity(users: map<UserId, User>, posts: map<PostId, Post>, likes: set<Like>, uid: UserId)
    requires Integrity(users, posts, likes)
    ensures
      var posts' := PostsWithoutOwner(posts, uid);
      Integrity(users - {uid}, posts', LikesSurviving(likes, posts'.Keys, uid))
  {
  }
}
