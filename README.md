# Social-posting backend: the resource store

This project models the core of a session-authenticated social-posting
backend (an Express server over a PostgreSQL database): the three tables
`users`, `posts` and `post_likes`, the constraints their schema declares
(`username UNIQUE`, `UNIQUE(post_id, user_id)`, foreign keys with
`ON DELETE CASCADE`), and the effect each request handler has on them. It also
models the pure parts of the server: the `errorMap` table of error kinds and
status codes, `genInitials`, the avatar palette, and the two enriched post
listings (`GET /posts` and `GET /posts/:userId`).

Modules:

- `Wrappers` (`wrappers.dfy`): the `Option` datatype.
- `Errors` (`errors.dfy`): the error kinds with the status codes and messages of `errorMap`, and the handler outcome type.
- `Profile` (`profile.dfy`): `genInitials` with JavaScript's behaviour on an empty name, and the 19-colour palette.
- `Tables` (`tables.dfy`): the rows, the `VARCHAR(255)` column width, the schema's integrity constraints, the cascades of deleting a user, and the two like aggregates of the listings.
- `Listings` (`listings.dfy`): the two listings, with rows sorted by `created_at` descending and then by id descending.
- `Store` (`store.dfy`): the class `ResourceStore`, which holds the tables and the id sequences, with one method per handler. `Valid()` holds these invariants, and every method keeps them: usernames are unique, every post's owner exists, every like references an existing post and user, and every stored user text fits its column.

Each handler is modelled as one atomic step. The caller id is a parameter:
it is the id the session resolved to. The random palette draw is the parameter
`pick`, and a post's `created_at` is the parameter `now`. `bcrypt.hash` is
modelled by the caller supplying the stored hash text, and `bcrypt.compare` by
the function parameter `matches` of `LogIn`.

The text columns of `users` are `VARCHAR(255)`. PostgreSQL rejects a longer
value with "value too long", unless everything past the width is spaces; then
it stores the value cut to the width. `Tables.Varchar255` gives that rule.
An `UPDATE` of the caller's row with a rejected value answers 500 and changes
nothing. A rejected value in registration makes the `INSERT` fail with an error
other than a unique violation; the handler rethrows it inside the query
callback (server.js:293), which the outcome `Crashed` stands for.

The model follows the code in these places:

- `toggleLikeHandler` is mounted without `ensureAuthenticated` (server.js:427-428).
- Liking an already-liked post fails with 500 from the `UNIQUE` violation. It is not a 409.
- `updateProfileColor` accepts any colour. It does not check the palette.
- Given an empty first or last name, `genInitials` does not fail: JavaScript appends the text `undefined`, and `Profile.GenInitials` does the same.

Handlers whose caller id has no row behave as their SQL does:

- An `UPDATE` or `DELETE` matches no row, and the handler reports success.
- An `INSERT` of a post or like violates a foreign key, and the handler reports 500.

## Model

| member | source | states |
|---|---|---|
| `Errors.StatusCode` | server.js:53-60 | each kind's status: client kinds are 4xx; 500 exactly for the internal error; 409, 404, 401 exactly for Conflict, NotFound, Unauthorized |
| `Errors.Message` | server.js:54-59 | definition: the `message` of each `errorMap` entry; a mirror of the table, since the handlers send their own messages |
| `Errors.KindOfStatus` | server.js:53-60 | reverse lookup of `errorMap`: a found kind has that code; no kind has a code that is not found |
| `Errors.StatusCodeRoundTrip` | server.js:53-60 | every kind is recovered from its status code, so the codes are distinct |
| `Profile.GenInitials` | server.js:253-261 | for non-empty first and last names: length 3 with a middle name and 2 without; first letter of the first name, then of the middle name if given, then of the last name; an empty first name yields "undefined" at the front; never longer than 27 characters |
| `Profile.GenInitialsExamples` | server.js:253-261 | ("Billy","Joe","Bob") gives "BJB"; ("Alice","","Alphabet") gives "AA" |
| `Profile.PaletteIsNineteenDistinctColours` | server.js:263-265 | the palette has 19 distinct entries, each short enough for its column |
| `Tables.Varchar255` | setupDemoData.js:35-41 | a value that fits is stored as is; the write fails exactly when a non-space lies past the width; otherwise the stored value is the first 255 characters, and only spaces lie past them |
| `Tables.Varchar255Examples` | setupDemoData.js:35-41 | 256 letters are rejected; 255 letters followed by spaces are cut to the letters |
| `Tables.ColumnsFit` | setupDemoData.js:35-41 | definition: every text of every user row fits its column |
| `Tables.UsernamesUnique` | setupDemoData.js:35 | definition: no two users share a username |
| `Tables.OwnersExist` | setupDemoData.js:54 | definition: every post's owner is a stored user |
| `Tables.LikesReference` | setupDemoData.js:66-67 | definition: every like names a stored post and a stored user |
| `Tables.Integrity` | setupDemoData.js:35-67 | definition: the three constraints together |
| `Tables.NameTaken` | server.js:285-290 | definition: some user holds the name; the `UNIQUE` check of registration |
| `Tables.HeldByOther` | server.js:495-505 | definition: some user other than the caller holds the name |
| `Tables.PostsWithoutOwner` | setupDemoData.js:54 | definition: the posts left after `ON DELETE CASCADE` removes a user's posts |
| `Tables.LikesSurviving` | setupDemoData.js:66-67 | definition: the likes left after both cascades of `post_likes` |
| `Tables.LikeCount` | server.js:154 | definition: `COUNT(post_likes.id)` of the post's pairs |
| `Tables.LikeCountZero` | server.js:154-158 | `like_count` is zero exactly when no user likes the post |
| `Tables.LikedBy` | server.js:155 | `liked_by_current_user` is 1 when the viewer's pair is present and 0 otherwise |
| `Tables.LikeCountInsert` | server.js:436-441 | inserting an absent pair raises that post's like count by exactly one |
| `Tables.LikeCountRemove` | server.js:445-450 | removing a present pair lowers that post's like count by exactly one |
| `Tables.LikeCountOtherPost` | server.js:436-450 | liking or unliking one post leaves every other post's like count unchanged |
| `Tables.RenameKeepsUsernamesUnique` | server.js:495-514 | renaming to a name no other user holds keeps usernames unique |
| `Tables.CascadeKeepsIntegrity` | setupDemoData.js:48-67 | deleting a user with its cascades leaves unique usernames and no dangling post or like |
| `Listings.Newer` | server.js:166 | definition: `ORDER BY created_at DESC, id DESC` on a (timestamp, id) pair |
| `Listings.NewerFirst` | server.js:166 | definition: the same order on listing rows |
| `Listings.Before` | server.js:166 | definition: the same order on stored posts |
| `Listings.View` | server.js:147-155 | definition: the `SELECT` list for one post: its fields, the author's name fields, initials and colour, the like count and the viewer's liked flag |
| `Listings.Describes` | server.js:146-158 | definition: a row is the query's row for its stored post |
| `Listings.IsFeed` | server.js:146-197 | definition: exactly the given posts, each described, newest first |
| `Listings.NewestExists` | server.js:166 | every non-empty set of posts has a newest one under (created_at desc, id desc) |
| `Listings.Order` | server.js:166 | the ordering yields each selected post exactly once, in strictly decreasing (created_at, id) |
| `Listings.Rows` | server.js:146-158 | one row per id, in the given order, each the query's row for that post |
| `Listings.Feed` | server.js:146-166 | the enriched rows for a set of posts form a feed: exactly those posts, described, newest first |
| `Listings.ListAll` | server.js:146-166 | `GET /posts` lists exactly the posts whose owner is not `excludeUserId` (all when absent), sorted, each row with correct author fields, like count and liked flag |
| `Listings.ListByAuthor` | server.js:181-197 | `GET /posts/:userId` lists exactly that author's posts, sorted and described likewise |
| `Listings.SortedRowsUnique` | server.js:166 | two strictly sorted sequences with the same rows are equal |
| `Listings.FeedIsUnique` | server.js:146-197 | a feed is determined by its posts and viewer, so the query's result is unique |
| `Listings.LikeShowsInFeed` | server.js:146-166 | after the viewer likes a post, its row shows one more like and a liked flag of 1 |
| `Listings.DeletedUserVanishesFromFeed` | server.js:350-364 | after an account deletion, no listing row belongs to that user, and a listing for the deleted user as viewer flags nothing as liked |
| `Store.RegistrationFits` | server.js:283-286 | definition: every text registration inserts fits its column |
| `Store.ResourceStore.Valid` | setupDemoData.js:33-67 | definition: the schema's constraints, the column widths, and ids below their sequences |
| `Store.ResourceStore.OwnedBy` | server.js:375-384 | definition: the ownership guard of edit and delete (the post exists and its owner is the caller) |
| `Store.ResourceStore.constructor` | setupDemoData.js:33-69 | empty tables; both id sequences start at 1 |
| `Store.ResourceStore.LogIn` | server.js:206-237 | login succeeds exactly when a user has that username and the password matches its stored hash, and it names that user |
| `Store.ResourceStore.Register` | server.js:263-296 | `Crashed` with nothing changed exactly when a text does not fit its column; otherwise Conflict with nothing changed exactly when the stored username is taken; otherwise exactly one new user under a fresh id, with the stored texts, initials from `GenInitials` and a palette colour; invariants kept |
| `Store.ResourceStore.CreatePost` | server.js:335-347 | a new unedited post of the caller stamped `now` under a fresh id; 500 and no change when the caller has no row |
| `Store.ResourceStore.EditPost` | server.js:399-423 | NotFound with no change unless the post exists and is the caller's; otherwise new content, edited set, everything else untouched |
| `Store.ResourceStore.DeletePost` | server.js:371-396 | NotFound with no change unless the post exists and is the caller's; otherwise the post and exactly its likes removed |
| `Store.ResourceStore.LikePost` | server.js:434-442 | succeeds exactly when the post and user exist and the pair is absent, inserting exactly that pair (like count +1); otherwise 500 with no change |
| `Store.ResourceStore.UnlikePost` | server.js:443-451 | always succeeds; the pair is absent afterwards; no change if it was absent |
| `Store.ResourceStore.ToggleLike` | server.js:427-455 | POST likes and otherwise answers 500 with no change; DELETE unlikes and always succeeds; any other verb is 405 with no change |
| `Store.ResourceStore.UpdateUsername` | server.js:490-516 | Conflict exactly when a different user holds the name; 500 with no change exactly when the caller's row exists and the name is too long for its column or its cut form is held by another user; keeping one's own name succeeds; otherwise only the caller's username changes |
| `Store.ResourceStore.UpdateInitials` | server.js:474-485 | 500 with no change exactly when the caller's row exists and the initials are too long for their column; otherwise only the caller's initials change |
| `Store.ResourceStore.UpdateProfileColor` | server.js:459-470 | 500 with no change exactly when the caller's row exists and the colour is too long for its column; otherwise only the caller's colour changes, to any value given |
| `Store.ResourceStore.DeleteAccount` | server.js:350-368 | removes the caller's row whatever the path id, every post of the caller, every like by the caller and every like on the caller's posts; integrity kept |

## Left out

- HTTP plumbing: routing, body parsing, CORS, `app.listen`, the liveness route, and the JSON bodies of responses. The model keeps the outcome and its error kind.
- The success status is not modelled: registration answers 201, the other handlers 200. `Ok` stands for both.
- Sessions: passport serialisation and `ensureAuthenticated`. A handler receives the caller id the session resolved to.
- `GET /currentUserId`, `GET /currentUser`, `/login`, `/logout`, `/successLogin`, `/failureLogin`: session reads with no effect on the tables. `LogIn` models only the credential check.
- bcrypt: it is a foreign library. The stored hash is opaque text, and `bcrypt.compare` is the `matches` parameter.
- `Math.random` in the palette draw is floating point. It becomes the index `pick`, which the draw keeps below 19.
- Timestamps come from the database clock. `created_at` is the natural number `now`.
- The connection pool, logging, and the driver and dialect idioms are left out: `?` placeholders, `errno === 1062`, `affectedRows`, and `GROUP BY posts.id` with the author columns in the select list, which PostgreSQL rejects. The model gives the intended meaning: a duplicate username is a conflict, and each listing row carries its author's fields.
- A database that fails for other reasons, such as a lost connection or a time-out, makes every handler answer 500 through its `if (err)` branch. The model assumes every query runs, so its 500s come only from constraint violations and column widths. The "exactly when" statements of the handlers hold under that assumption.
- The other uncaught `throw err` paths (server.js:48, 200) are left out: the database connection, and a failed query of the per-author listing. Registration's rethrow is kept, as the outcome `Crashed`.
- Missing request fields are left out. An absent `fname` makes `genInitials` throw. An absent `content` or `username` stores NULL or violates a `NOT NULL` column. Here every field is a string, and an absent middle name is "".
- A request to `/toggleLike` without a session fails in JavaScript before reaching the handler logic; it is left out.
- Check-then-act races between concurrent requests are left out. Each handler is one atomic step.
- PostgreSQL consumes a `SERIAL` value even when an insert is rejected. The model advances a counter only on success; ids stay fresh either way.
- Ids are `SERIAL` and `INT`, so 32-bit in PostgreSQL, and a sequence runs out after 2147483647 values. The model's ids and counters are unbounded natural numbers.
- A rejected `VARCHAR(255)` value in an `UPDATE` that matches no row is taken to do nothing and succeed, as no row is written.
- `posts.content` is `TEXT` and has no width limit, so posts have no length check.
- The `id` column of `post_likes` is left out. The `UNIQUE(post_id, user_id)` constraint makes a like a pair, and likes are a set.
- JavaScript indexes strings by UTF-16 code unit, and a Dafny `char` is a Unicode scalar value. The two differ only for characters outside the Basic Multilingual Plane.
- The demo routes (server.js:65-120) are left out. They are unauthenticated copies of operations modelled above.
- The seeding scripts are left out. Only their table definitions are used, as the source of the constraints.
- `Listings.ListAll`, `Listings.ListByAuthor`: these require that every post's owner exists. `posts.user_id` is a nullable column, and a foreign key does not check NULL, so the schema alone does not guarantee this. It holds because the handlers never insert NULL: the owner is always the caller's id (server.js:337-339). The listings do not model the NULL author columns that `LEFT JOIN users` would give a post without an owner.
- `Listings.ListAll`, `Listings.ListByAuthor`: the `excludeUserId` query string is taken as an optional id. Its truthiness test and the string-to-number conversion are not modelled.
- `Listings.ListAll`, `Listings.ListByAuthor`: `like_count` is modelled as a natural number. PostgreSQL returns `COUNT` and `SUM` as 64-bit integers, serialised as strings.
