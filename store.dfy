/** The resource store behind the HTTP handlers: the three tables, the id
    sequences that number new users and posts, and one method per handler.
    Each method is one atomic step: it checks what the handler checks, then
    applies the handler's INSERT, UPDATE or DELETE together with the cascades
    the schema declares, or reports the error the handler answers with. The
    caller id is the one the session resolved to. */
module Store {
  import opened Wrappers
  import opened Errors
  import opened Tables
  import opened Profile

  /** Every text the registration handler inserts fits its `VARCHAR(255)` column
      (the initials and the palette colour always do). */
  predicate RegistrationFits(username: string, fName: string, mName: string, lName: string,
                             password: PasswordHash)
  {
    && Varchar255(username).Some? && Varchar255(fName).Some? && Varchar255(mName).Some?
    && Varchar255(lName).Some? && Varchar255(password).Some?
  }

  /** The HTTP verb a request to `/toggleLike/:postId` arrives with. */
  datatype Verb = PostVerb | DeleteVerb | OtherVerb

  class ResourceStore {
    var users: map<UserId, User>
    var posts: map<PostId, Post>
    var likes: set<Like>
    /** The next values of the `SERIAL` sequences of `users.id` and `posts.id`. */
    var nextUserId: UserId
    var nextPostId: PostId

    /** The schema's constraints hold, every stored text fits its column, and
        every id in use was issued by a sequence. */
    ghost predicate Valid()
      reads this
    {
      && Integrity(users, posts, likes)
      && ColumnsFit(users)
      && (forall id :: id in users ==> id < nextUserId)
      && (forall id :: id in posts ==> id < nextPostId)
    }

    /** Freshly created tables; `SERIAL` sequences start at 1. */
    constructor ()
      ensures Valid()
      ensures users == map[] && posts == map[] && likes == {}
      ensures nextUserId == 1 && nextPostId == 1
    {
      users, posts, likes := map[], map[], {};
      nextUserId, nextPostId := 1, 1;
    }

    /** `LocalStrategy`: the user with that username whose stored hash the
        password matches; `matches` stands for `bcrypt.compare`. */
    ghost function LogIn(username: string, password: string,
                         matches: (string, PasswordHash) -> bool): (r: Option<UserId>)
      reads this
      requires Valid()
      ensures r.Some? <==>
                exists id :: id in users && users[id].username == username && matches(password, users[id].password)
      ensures r.Some? ==>
                r.value in users && users[r.value].username == username && matches(password, users[r.value].password)
    {
      if exists id :: id in users && users[id].username == username then
        var id :| id in users && users[id].username == username;
        if matches(password, users[id].password) then Some(id) else None
      else None
    }

    /** `POST /register`: inserts one row with derived initials and the palette
        colour `Colors[pick]` (`pick` is the random draw). A text too long for
        its column fails the insert with an error other than a unique
        violation, which the handler rethrows (`Crashed`); otherwise a taken
        username (the `UNIQUE` constraint) is answered with 409. */
    method Register(username: string, fName: string, mName: string, lName: string,
                    password: PasswordHash, pick: nat) returns (r: Outcome)
      requires Valid()
      requires pick < |Colors|
      modifies this
      ensures Valid()
      ensures r == Crashed <==> !RegistrationFits(username, fName, mName, lName, password)
      ensures r == Err(Conflict) <==>
                RegistrationFits(username, fName, mName, lName, password) &&
                NameTaken(old(users), Varchar255(username).value)
      ensures r.Ok? || r == Err(Conflict) || r == Crashed
      ensures !r.Ok? ==> unchanged(this)
      ensures r.Ok? ==>
                && old(nextUserId) !in old(users)
                && users == old(users)[old(nextUserId) :=
                     User(Varchar255(username).value, Varchar255(fName).value, Varchar255(mName).value,
                          Varchar255(lName).value, GenInitials(fName, mName, lName), Colors[pick],
                          Varchar255(password).value)]
                && |users| == |old(users)| + 1
                && nextUserId == old(nextUserId) + 1
                && posts == old(posts) && likes == old(likes) && nextPostId == old(nextPostId)
    {
      var u, f, m, l, pw := Varchar255(username), Varchar255(fName), Varchar255(mName),
                            Varchar255(lName), Varchar255(password);
      if u.None? || f.None? || m.None? || l.None? || pw.None? {
        return Crashed;
      }
      if NameTaken(users, u.value) {
        return Err(Conflict);
      }
      var id := nextUserId;
      var initials := GenInitials(fName, mName, lName);
      PaletteIsNineteenDistinctColours();
      users := users[id := User(u.value, f.value, m.value, l.value, initials, Colors[pick], pw.value)];
      nextUserId := nextUserId + 1;
      r := Ok;
    }

    /** `POST /posts`: a new post of the caller, not edited, stamped `now`.
        Inserting for a caller with no row violates the foreign key: 500. */
    method CreatePost(caller: UserId, content: string, now: nat) returns (r: Outcome)
      requires Valid()
      modifies this
      ensures Valid()
      ensures r == Ok <==> caller in old(users)
      ensures r != Ok ==> r == Err(InternalServerError) && unchanged(this)
      ensures r.Ok? ==>
                && old(nextPostId) !in old(posts)
                && posts == old(posts)[old(nextPostId) := Post(caller, content, false, now)]
                && nextPostId == old(nextPostId) + 1
                && users == old(users) && likes == old(likes) && nextUserId == old(nextUserId)
    {
      if caller !in users {
        return Err(InternalServerError);
      }
      posts := posts[nextPostId := Post(caller, content, false, now)];
      nextPostId := nextPostId + 1;
      r := Ok;
    }

    /** The ownership guard of edit and delete: the post exists and the caller wrote it. */
    predicate OwnedBy(postId: PostId, caller: UserId)
      reads this
    {
      postId in posts && posts[postId].owner == caller
    }

    /** `PUT /posts/:postId`: 404 unless the caller owns the post (a missing post
        and another user's post look alike); otherwise new content, marked edited. */
    method EditPost(caller: UserId, postId: PostId, content: string) returns (r: Outcome)
      requires Valid()
      modifies this
      ensures Valid()
      ensures r == Ok <==> old(OwnedBy(postId, caller))
      ensures r != Ok ==> r == Err(NotFound) && unchanged(this)
      ensures r.Ok? ==>
                && posts == old(posts)[postId := old(posts)[postId].(content := content, edited := true)]
                && users == old(users) && likes == old(likes)
                && nextUserId == old(nextUserId) && nextPostId == old(nextPostId)
    {
      if !OwnedBy(postId, caller) {
        return Err(NotFound);
      }
      posts := posts[postId := posts[postId].(content := content, edited := true)];
      r := Ok;
    }

    /** `DELETE /posts/:postId`: the same guard; on success the post goes, and
        with it every like of the post (`ON DELETE CASCADE`). */
    method DeletePost(caller: UserId, postId: PostId) returns (r: Outcome)
      requires Valid()
      modifies this
      ensures Valid()
      ensures r == Ok <==> old(OwnedBy(postId, caller))
      ensures r != Ok ==> r == Err(NotFound) && unchanged(this)
      ensures r.Ok? ==>
                && posts == old(posts) - {postId}
                && likes == set l | l in old(likes) && l.postId != postId
                && users == old(users)
                && nextUserId == old(nextUserId) && nextPostId == old(nextPostId)
    {
      if !OwnedBy(postId, caller) {
        return Err(NotFound);
      }
      posts := posts - {postId};
      likes := set l | l in likes && l.postId != postId;
      r := Ok;
    }

    /** `POST /toggleLike/:postId`: inserts the pair (post, caller). A pair that
        is already there (the `UNIQUE` constraint) or one naming a missing post
        or user (the foreign keys) fails, and is answered with 500. */
    method LikePost(caller: UserId, postId: PostId) returns (r: Outcome)
      requires Valid()
      modifies this
      ensures Valid()
      ensures r == Ok <==>
                postId in old(posts) && caller in old(users) && Like(postId, caller) !in old(likes)
      ensures r != Ok ==> r == Err(InternalServerError) && unchanged(this)
      ensures r.Ok? ==>
                && likes == old(likes) + {Like(postId, caller)}
                && LikeCount(likes, postId) == LikeCount(old(likes), postId) + 1
                && users == old(users) && posts == old(posts)
                && nextUserId == old(nextUserId) && nextPostId == old(nextPostId)
    {
      if postId !in posts || caller !in users || Like(postId, caller) in likes {
        return Err(InternalServerError);
      }
      LikeCountInsert(likes, postId, caller);
      likes := likes + {Like(postId, caller)};
      r := Ok;
    }

    /** `DELETE /toggleLike/:postId`: removes the pair if present; reports
        success whether or not a row was deleted. */
    method UnlikePost(caller: UserId, postId: PostId) returns (r: Outcome)
      requires Valid()
      modifies this
      ensures Valid()
      ensures r == Ok
      ensures likes == old(likes) - {Like(postId, caller)}
      ensures Like(postId, caller) !in old(likes) ==> unchanged(this)
      ensures users == old(users) && posts == old(posts)
      ensures nextUserId == old(nextUserId) && nextPostId == old(nextPostId)
    {
      assert Like(postId, caller) !in likes ==> likes - {Like(postId, caller)} == likes;
      likes := likes - {Like(postId, caller)};
      r := Ok;
    }

    /** `toggleLikeHandler`: the verb chooses like or unlike; any other verb is
        answered with 405 and changes nothing. */
    method ToggleLike(verb: Verb, caller: UserId, postId: PostId) returns (r: Outcome)
      requires Valid()
      modifies this
      ensures Valid()
      ensures verb.OtherVerb? ==> r == Err(MethodNotAllowed) && unchanged(this)
      ensures verb.PostVerb? ==>
                (r == Ok <==> postId in old(posts) && caller in old(users) && Like(postId, caller) !in old(likes))
      ensures verb.PostVerb? ==> r.Ok? || r == Err(InternalServerError)
      ensures verb.DeleteVerb? ==> r == Ok
      ensures r.Err? ==> unchanged(this)
      ensures r.Ok? ==> likes == if verb.PostVerb? then old(likes) + {Like(postId, caller)}
                                 else old(likes) - {Like(postId, caller)}
      ensures users == old(users) && posts == old(posts)
      ensures nextUserId == old(nextUserId) && nextPostId == old(nextPostId)
    {
      match verb
      case PostVerb => r := LikePost(caller, postId);
      case DeleteVerb => r := UnlikePost(caller, postId);
      case OtherVerb => r := Err(MethodNotAllowed);
    }

    /** `PUT /updateUsername`: 409 exactly when a different user holds the name.
        Otherwise the caller's row takes the name as its `VARCHAR(255)` column
        stores it; a name too long for the column, or one whose cut form
        another user holds (the `UNIQUE` constraint), fails the `UPDATE` with
        500. Keeping one's own name succeeds. */
    method UpdateUsername(caller: UserId, username: string) returns (r: Outcome)
      requires Valid()
      modifies this
      ensures Valid()
      ensures r == Err(Conflict) <==> HeldByOther(old(users), caller, username)
      ensures r == Err(InternalServerError) <==>
                && !HeldByOther(old(users), caller, username)
                && caller in old(users)
                && (Varchar255(username).None? || HeldByOther(old(users), caller, Varchar255(username).value))
      ensures r.Ok? || r == Err(Conflict) || r == Err(InternalServerError)
      ensures caller in old(users) && old(users)[caller].username == username ==> r == Ok
      ensures r.Err? ==> unchanged(this)
      ensures r.Ok? ==>
                users == if caller in old(users)
                         then old(users)[caller := old(users)[caller].(username := Varchar255(username).value)]
                         else old(users)
      ensures posts == old(posts) && likes == old(likes)
      ensures nextUserId == old(nextUserId) && nextPostId == old(nextPostId)
    {
      if HeldByOther(users, caller, username) {
        return Err(Conflict);
      }
      if caller in users {
        var stored := Varchar255(username);
        if stored.None? || HeldByOther(users, caller, stored.value) {
          return Err(InternalServerError);
        }
        RenameKeepsUsernamesUnique(users, caller, stored.value);
        users := users[caller := users[caller].(username := stored.value)];
      }
      r := Ok;
    }

    /** `PUT /updateInitials`: only the caller's row changes; initials too long
        for their `VARCHAR(255)` column fail the `UPDATE` with 500. */
    method UpdateInitials(caller: UserId, initials: string) returns (r: Outcome)
      requires Valid()
      modifies this
      ensures Valid()
      ensures r == Err(InternalServerError) <==> caller in old(users) && Varchar255(initials).None?
      ensures r.Ok? || r == Err(InternalServerError)
      ensures r.Err? ==> unchanged(this)
      ensures r.Ok? ==>
                users == if caller in old(users)
                         then old(users)[caller := old(users)[caller].(initials := Varchar255(initials).value)]
                         else old(users)
      ensures posts == old(posts) && likes == old(likes)
      ensures nextUserId == old(nextUserId) && nextPostId == old(nextPostId)
    {
      if caller in users {
        var stored := Varchar255(initials);
        if stored.None? {
          return Err(InternalServerError);
        }
        users := users[caller := users[caller].(initials := stored.value)];
      }
      r := Ok;
    }

    /** `PUT /updateProfileColor`: not checked against the palette; only the
        caller's row changes; a colour too long for its `VARCHAR(255)` column
        fails the `UPDATE` with 500. */
    method UpdateProfileColor(caller: UserId, color: string) returns (r: Outcome)
      requires Valid()
      modifies this
      ensures Valid()
      ensures r == Err(InternalServerError) <==> caller in old(users) && Varchar255(color).None?
      ensures r.Ok? || r == Err(InternalServerError)
      ensures r.Err? ==> unchanged(this)
      ensures r.Ok? ==>
                users == if caller in old(users)
                         then old(users)[caller := old(users)[caller].(profileColor := Varchar255(color).value)]
                         else old(users)
      ensures posts == old(posts) && likes == old(likes)
      ensures nextUserId == old(nextUserId) && nextPostId == old(nextPostId)
    {
      if caller in users {
        var stored := Varchar255(color);
        if stored.None? {
          return Err(InternalServerError);
        }
        users := users[caller := users[caller].(profileColor := stored.value)];
      }
      r := Ok;
    }

    /** `DELETE /users/:userId`: deletes the caller's own row, whatever the path
        says, and with it (`ON DELETE CASCADE`) the caller's posts, the caller's
        likes and every like of the caller's posts. */
    method DeleteAccount(caller: UserId, pathUserId: UserId) returns (r: Outcome)
      requires Valid()
      modifies this
      ensures Valid()
      ensures r == Ok
      ensures users == old(users) - {caller}
      ensures posts == PostsWithoutOwner(old(posts), caller)
      ensures likes == LikesSurviving(old(likes), posts.Keys, caller)
      ensures forall p :: p in posts ==> posts[p].owner != caller
      ensures forall l :: l in likes ==> l.userId != caller && l.postId in old(posts) && old(posts)[l.postId].owner != caller
      ensures nextUserId == old(nextUserId) && nextPostId == old(nextPostId)
    {
      CascadeKeepsIntegrity(users, posts, likes, caller);
      var kept := PostsWithoutOwner(posts, caller);
      likes := LikesSurviving(likes, kept.Keys, caller);
      posts := kept;
      users := users - {caller};
      r := Ok;
    }
  }
}
