# Forum server: accounts, invites, sessions and uploads

A Dafny model of the bookkeeping core of a small forum backend written in Kotlin (Ktor with the
Exposed ORM over Postgres). Authors register with single-use invite codes, log in to get a
24-hour session, issue invites against a per-author quota, upload images (at most 100 per
author, 5 MiB each) and write posts and replies in named rooms.

The database tables are fields of one class, `Tables.Database`. Each table is a sequence of rows in
table order, and the invite quota is a map from author id to remaining invites. `Database.Valid()`
states what Postgres enforces: the unique indexes on author name, room name and invite code, the
primary keys, and the foreign keys. Each route handler that changes data is a method that takes the
database and `modifies` it. Its `transaction { … }` block is atomic. When the block throws (`.first()` on an empty
result, a unique-index violation, a string longer than its `varchar` column), the method returns
an `Aborted` outcome and leaves the database unchanged (`unchanged(db)`). Otherwise it commits
exactly the rows its contract lists, and every other table stays equal to what it was.

The session store `DBSession` is a class of its own, `SessionStore.DbSession`, over a sequence of
`(session_id, value)` rows. The table has no unique index on `session_id`, so reads and writes act
on the first matching row in the model's insertion order (see "## Left out").

Inputs that come from outside the core are parameters:

- the current time `now` (both `System.currentTimeMillis()` and `LocalDateTime.now()`, in ms);
- the session the request carries, as the `Option<AuthSession>` that `call.sessions.get` yields;
- bcrypt's random salt;
- the presigned upload URL that object storage returns;
- the start-up configuration (pepper and bcrypt), as `Passwords.Config`.

The session that a handler sets with `call.sessions.set` is returned as an `Option<AuthSession>`.

Modules, with the source they follow:

- `Wrappers`: Option and Result.
- `Query`: `find { … }.firstOrNull()`, `count` and `referrersOn` (Db.kt).
- `Sorting`: Kotlin's stable `sortedBy` / `sortedByDescending` and `map`.
- `Sessions`: `Session.kt` and the session expiry check.
- `Passwords`: `Author.kt` `hashPassword` / `verifyPassword`.
- `SessionStore`: `Db.kt` `DBSession`.
- `Tables`: `Db.kt` tables.
- `Authors`: `Author.kt` routes.
- `Images`: `ImageUpload.kt`.
- `Posts`: `Post.kt` routes and `Db.kt` `toPostDto`.

Four client methods show multi-call scenarios. They have no contract and serve as examples:

- `SessionStore.WriteThenRead`: write, read back, invalidate.
- `Authors.RegisterThenLogin`: the invite cannot be redeemed twice, and the new author can log in.
- `Authors.QuotaOfThree`: three issuances leave the quota at 0, and the fourth is refused.
- `Posts.ExpiredSessionStillPosts`: an expired session still creates a post.

Behaviour of the code worth knowing:

- Registration does not create an invite-quota row for the new author. Until one is added outside
  these handlers, that author's invite request aborts with `NoSuchElement`.
- A taken name at registration throws out of the transaction, so the client gets a server error
  rather than the generic "failed". The invite stays unused.
- Login does not check the expiry of a session the request already carries, or whose it is. It
  answers "ok" and keeps that session.
- Post and reply creation check only that a session is present, not its expiry.
- There is no duplicate-content throttle and no empty-text check.
- A session is rejected only when `expires < now`, so it is still accepted at `expires == now`.

## Model

| member | source | states |
|---|---|---|
| Query.FirstIndex | src/main/kotlin/Db.kt:126 | the index found is the first row satisfying the condition, and None exactly when no row does |
| Query.Where | src/main/kotlin/Db.kt:84 | the rows kept are exactly the table's rows satisfying the condition, as many as `Count` gives |
| Query.CountAppend | src/main/kotlin/ImageUpload.kt:73 | inserting a row raises a count by one exactly when the row matches the condition |
| Query.CountZero | src/main/kotlin/ImageUpload.kt:73 | a count is zero exactly when no row matches |
| Sorting.SortBy | src/main/kotlin/Db.kt:162 | the sorted list is a permutation of the input and is in non-decreasing key order |
| Sorting.SortByStable | src/main/kotlin/Db.kt:162 | the sort is stable: the elements with any one key keep their input order |
| Sorting.MapSortBy | src/main/kotlin/Post.kt:23-25 | sorting rows and then mapping them equals sorting the mapped rows by the key the mapping carries |
| Sorting.InsertSorted | src/main/kotlin/Db.kt:162 | inserting into a sorted list keeps it sorted |
| Sessions.Mint | src/main/kotlin/Author.kt:100-105 | a minted session belongs to the given author and expires 86,400,000 ms after `now` |
| Sessions.Admits | src/main/kotlin/Author.kt:40 | the expiry check of the invite and upload handlers: a missing session, or one with `expires < now`, is refused. Its boundary is stated by `Sessions.AdmitsAtExpiry` |
| Sessions.MintedAdmittedUntilExpiry | src/main/kotlin/Author.kt:40 | a minted session passes the check exactly until `now` passes mint time + 86,400,000 |
| Sessions.AdmitsAtExpiry | src/main/kotlin/ImageUpload.kt:60 | a session is still accepted when `expires == now`, rejected one ms later, and a missing one is rejected |
| Passwords.HashPassword | src/main/kotlin/Author.kt:145-148 | the hash carries the salt used and verifies its own password |
| Passwords.PepperedInjective | src/main/kotlin/Author.kt:146 | appending the pepper keeps distinct passwords distinct |
| Passwords.VerifyPassword | src/main/kotlin/Author.kt:150-153 | appends the pepper, recomputes bcrypt with the stored salt and compares with the stored digest. `Passwords.HashPassword` and `Passwords.VerifyRejectsOtherPassword` state that it accepts the hashed password and rejects others |
| Passwords.VerifyRejectsOtherPassword | src/main/kotlin/Author.kt:150-153 | with a collision-free bcrypt, a hash rejects every other password |
| SessionStore.Lookup | src/main/kotlin/Db.kt:124-130 | `read` yields the value of the first row with the id, and nothing exactly when no row has it |
| SessionStore.Upserted | src/main/kotlin/Db.kt:132-146 | `write` adds a row exactly when the id had none |
| SessionStore.Removed | src/main/kotlin/Db.kt:118-122 | after `invalidate` no row has the id, and every remaining row was already in the table |
| SessionStore.UpsertedReadBack | src/main/kotlin/Db.kt:124-146 | round trip: after `write(id, v)`, `read(id)` yields `v` |
| SessionStore.UpsertedInsertsWhenAbsent | src/main/kotlin/Db.kt:134-141 | `write` on an id with no row appends exactly the row `(id, v)` |
| SessionStore.UpsertedOverwritesWhenPresent | src/main/kotlin/Db.kt:134-143 | `write` on a present id replaces one row with that id by `(id, v)` and adds no row |
| SessionStore.UpsertedFrame | src/main/kotlin/Db.kt:132-146 | `write` leaves what `read` yields for every other id unchanged |
| SessionStore.RemovedReadFails | src/main/kotlin/Db.kt:118-130 | after `invalidate(id)`, `read(id)` fails |
| SessionStore.RemovedNoop | src/main/kotlin/Db.kt:118-121 | `invalidate` on an id with no row leaves the table as it was |
| SessionStore.RemovedKeepsOthers | src/main/kotlin/Db.kt:118-121 | `invalidate` leaves what `read` yields for every other id unchanged |
| SessionStore.UpsertedKeepsOneRowPerId | src/main/kotlin/Db.kt:105-108 | if every id has at most one row, it still does after `write` |
| SessionStore.RemovedKeepsOneRowPerId | src/main/kotlin/Db.kt:118-121 | if every id has at most one row, it still does after `invalidate` |
| SessionStore.DbSession.constructor | src/main/kotlin/Db.kt:105-108 | the session table starts empty |
| SessionStore.DbSession.Read | src/main/kotlin/Db.kt:124-130 | fails with "session not found" exactly when no row has the id; otherwise returns the first matching row's value |
| SessionStore.DbSession.Write | src/main/kotlin/Db.kt:132-146 | the new table is the upsert of the old one, and reading the id back yields the written value |
| SessionStore.DbSession.Invalidate | src/main/kotlin/Db.kt:118-122 | the new table is the old one without the id's rows, and reading the id fails |
| Tables.AuthorById | src/main/kotlin/Post.kt:51 | the author found has the id, and none is found exactly when no author has it |
| Tables.AuthorByName | src/main/kotlin/Author.kt:115 | the author found has the name, and none is found exactly when the name is free |
| Tables.RoomByName | src/main/kotlin/Post.kt:83 | the room found has the name, and none is found exactly when no room has it |
| Tables.PostById | src/main/kotlin/Post.kt:54 | the post found has the id, and none is found exactly when no post has it |
| Tables.RedeemedNoLongerRedeemable | src/main/kotlin/Db.kt:20 | because codes are unique, marking the matching invite used leaves no unused invite with that code |
| Tables.AuthorsGrow | src/main/kotlin/Author.kt:87-90 | adding an author keeps every existing author id valid for the foreign keys, and adds the new id |
| Tables.PostsGrow | src/main/kotlin/Post.kt:84-89 | adding a post keeps every existing post id valid for the replies' foreign key |
| Tables.InviteAddedKeepsWellFormed | src/main/kotlin/Author.kt:53-57 | inserting an unused invite with a code no invite has, issued by an existing author, keeps the unique index on `code` and the invite's author references |
| Tables.RegistrationKeepsWellFormed | src/main/kotlin/Author.kt:87-92 | appending an author under the next serial id and a free name, and pointing one invite's `usedBy` at it, keeps both author unique indexes and every foreign key in all tables |
| Tables.PostAddedKeepsWellFormed | src/main/kotlin/Post.kt:84-89 | appending a post under the next serial id, by an existing author in an existing room, keeps the posts' key and references, and the replies' references to posts |
| Tables.ReplyAddedKeepsWellFormed | src/main/kotlin/Post.kt:56-61 | appending a reply under the next serial id, by an existing author to an existing post, keeps the replies' key and references |
| Tables.Database.constructor | src/main/kotlin/Db.kt:15-108 | an empty forum with the given rooms satisfies every unique-index and foreign-key constraint |
| Authors.IssueInvite | src/main/kotlin/Author.kt:36-65 | outcome chosen in source order: no code, then timed out (missing or `expires < now`), then aborted (no author or quota row), then "out of invites" when `limit <= 0`, then aborted on an over-long or duplicate code, else issued. Success decrements the issuer's limit by exactly 1 and appends `{code, author, unused}`, with nothing else changed. Every other outcome changes nothing. Non-negative quotas stay non-negative |
| Authors.Register | src/main/kotlin/Author.kt:80-108 | "failed" exactly when no unused invite has the code. Otherwise an over-long or taken name aborts with nothing changed (invite stays unused). Otherwise one author with a fresh id and the peppered hash is appended, that invite's `usedBy` is set to it, and the session `(id, now + 86,400,000)` is set. Afterwards no unused invite with that code remains, so a second registration with it fails |
| Authors.Login | src/main/kotlin/Author.kt:111-139 | unknown name: "author not found" and no session. A failing password check: "wrong password" and no session. Otherwise "ok": a session already carried (even an expired one) is kept, and only when none is carried is `(author.id, now + 86,400,000)` minted |
| Authors.RegisteredAuthorFoundByName | src/main/kotlin/Author.kt:83-94 | the author a registration appends under a free name is the one a later login finds by that name |
| Images.AllowedContentType | src/main/kotlin/ImageUpload.kt:22 | the whitelist check of `generatePresignedUrl`, characterised by `Images.OnlyImageTypesAllowed` |
| Tables.ImageCount | src/main/kotlin/ImageUpload.kt:73 | an author's image count is at most the table size, and it is zero exactly when no image row has that author |
| Images.OnlyImageTypesAllowed | src/main/kotlin/ImageUpload.kt:21-24 | the presigner accepts exactly image/jpeg, image/png and image/gif |
| Images.ImageCountAfterInsert | src/main/kotlin/ImageUpload.kt:88-95 | recording an image raises its author's image count by one and no other author's |
| Images.InsertKeepsWithinLimit | src/main/kotlin/ImageUpload.kt:72-83 | inserting for an author below 100 images keeps every author at 100 or fewer |
| Images.Upload | src/main/kotlin/ImageUpload.kt:58-98 | ignored when the session is missing or expired (`expires < now`), when the content type or numeric size is missing, or when the size exceeds 5,242,880 bytes (that exact size is allowed). Then "limit reached" at 100 or more images, then a rejected content type, then an abort if the author row is missing. Otherwise exactly one image `(url, size, now, userId)` is appended. Only success changes anything, and no author ever exceeds 100 images |
| Posts.RenderReply | src/main/kotlin/Db.kt:162 | the `ReplyDto` mapping: id, author name, `createdAt`, text and image URL of the reply |
| Posts.RepliesOf | src/main/kotlin/Db.kt:162 | `this.replies`: every reply returned belongs to the post, and every reply to the post is returned |
| Posts.ToPostDto | src/main/kotlin/Db.kt:161-165 | the DTO carries the post's fields, author name and room name. Its replies are exactly the post's replies rendered (as a multiset), sorted by `createdAt` ascending, with ties kept in insertion order (a choice of the model; see "## Left out") |
| Posts.ListRoom | src/main/kotlin/Post.kt:20-29 | fails exactly when no room has the name. Otherwise returns exactly the room's posts rendered, newest first, with ties kept in insertion order (a choice of the model; see "## Left out") |
| Posts.GetPost | src/main/kotlin/Post.kt:33-39 | fails exactly when no post has the id. Otherwise returns `toPostDto` of the post with that id: its text, author name, room name and `createdAt`, and exactly its replies, oldest first |
| Posts.CreateReply | src/main/kotlin/Post.kt:41-68 | ignored without a session (expiry not checked), or when the author or the post is missing. An over-long text aborts. Otherwise exactly one reply `(text, author, post, now)` with a fresh id is appended. Every outcome but success changes nothing |
| Posts.CreatePost | src/main/kotlin/Post.kt:72-92 | ignored without a session (expiry not checked). A missing author or room throws from `.first()`, and an over-long text aborts, both with nothing changed. Otherwise exactly one post in the named room is appended |

## Left out

- HTTP routing, request and response serialization, CORS and cookie transport: handlers take the loaded session and return outcomes.
- The glue that stores a serialized `AuthSession` in `DBSession`: it belongs to the sessions library, so the handlers and the store are modelled separately.
- The `/author/status` route: it only reads the session and the author's name.
- Rate limiting: it is a library token bucket, and the `login_limit` name used by the routes is never registered.
- bcrypt internals: bcrypt is a `kdf(salt, input)` function in the configuration, and the salt is a parameter.
- Passwords.VerifyRejectsOtherPassword: requires the kdf to be injective for one salt. This is an idealisation. bcrypt reads at most the first 72 bytes of its input, so two peppered passwords that agree on those bytes collide under every salt. Because `hashPassword` appends the pepper at the end (`src/main/kotlin/Author.kt:146`), a password of 72 bytes or more leaves the pepper out of the hash. The lemma holds only for peppered inputs within that 72-byte limit.
- S3 presigning, object keys (random UUIDs) and the public URL: the presigned URL is a parameter.
- Failures of the presigner other than a rejected content type.
- Environment configuration and the connection pool.
- `toIsoString` date formatting: DTOs carry the timestamp.
- Parsing of path and query parameters (`toInt`, `toLongOrNull`): parsed values are inputs, and `fileSize` is `Option<int>`.
- Row order of query results: every table is a sequence in insertion order, and `find { … }.firstOrNull()`, `referrersOn` navigations and `count` see the rows in that order. That order is the model's choice. The queries have no `ORDER BY`, so Postgres returns rows in no specified order, and an `UPDATE` (such as the session write) can move a row. The code therefore fixes neither the tie order among equal `createdAt` values in `ListRoom` and `ToPostDto`, nor which duplicate session row `DbSession.Read` and `DbSession.Write` act on.
- Concurrency and transaction isolation: calls are sequential. The upload's count check and insert are separate transactions, which matters only under concurrent uploads.
- 64-bit overflow of `now + 86_400_000` and of `Long` sizes: integers are unbounded.
- Postgres sequences advance even when a transaction rolls back. The model's id counters do not, which affects only the id values.
- The `InviteLimit` table's definition is not part of this model. The quota is a map with one counter per author.
- The invite table's `author` and `usedBy` columns are not declared with the table in `Db.kt`. They are modelled as the handlers use them.
- `varchar` lengths are counted in Dafny characters.
- Room creation: no handler creates rooms, so rooms are given when the database is built.
- Posts.AuthorName, Posts.RoomName: these return "" for a missing row. The foreign keys in `Database.Valid()` rule that case out; the listing functions do not require `Valid()`.
- `src/main/kotlin/posts/Post.kt` declares duplicate tables and has no behaviour.
