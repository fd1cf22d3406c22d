# forum-api: moderation and thread assembly, modelled in Dafny

This project models the core of a forum back end where users post threads,
comment on threads, reply to comments, and like comments. The model covers:

- the six application use cases: add a comment, add a reply, soft-delete a
  comment, soft-delete a reply, toggle a like, and assemble a thread's nested
  view;
- the three Postgres repositories they call, with each table held in memory.

Modules, in dependency order:

- `Domain` defines ids, dates, table rows, error values, and the
  `Result` / `Outcome` / `Option` wrappers.
- `Entities` validates the `content` property of a comment or reply payload.
- `Store` defines all tables as one value, `Db`, and gives the meaning of every
  SQL statement the repositories send as a pure function on `Db`. It also
  defines:
  - the schema's foreign keys (`Constraints`); three of them are assumed (see
    "Left out");
  - the rule that `like_count` equals the number of like rows (`LikeCountsMatch`);
  - what an `ORDER BY date ASC` listing may return.
- `Repository` puts the tables in the fields of a class, `Database`. It has
  one method per repository method. Each writer is proved equal to its `Store`
  function, and each reader states its result directly. The listing methods
  select an earliest remaining row in a loop, so rows with equal dates come
  in an unspecified order, as with SQL.
- `Moderation` gives each write use case as a function from the tables before
  to the result and the tables after. The checks run in the source's order,
  and the first failing check decides the error. This module also proves the
  properties of these use cases: idempotent deletes, that liking twice
  restores the tables, and that like counts stay consistent.
- `Assembly` defines the output shapes of GetThread and the rendering,
  including the tombstone texts for deleted items. `Presents` is an
  independent definition of what a view must show of the tables. The lemmas
  prove that rendering the listings satisfies `Presents`.
- `UseCases` implements the use cases as methods on a `Database`. They call
  the repository methods in the source's order. Each write use case is proved
  equal to its `Moderation` function. `GetThread` is proved to return a view
  that `Presents` the thread.

The three repositories are modelled as methods of one `Database` class,
because they share the tables. The comment and reply repositories both have a
method named `verifyOwnerByUserId`; here these are
`VerifyCommentOwnerByUserId` and `VerifyReplyOwnerByUserId`.

Errors:

- `NotFound`, `Forbidden` and `Invalid` are the domain errors. `Message` maps
  each one the model can raise to the client message the source or its HTTP
  tests use. No operation raises `Forbidden(Thread)`, so it has no message.
- A violated storage constraint is `Constraint(PrimaryKey | ForeignKey | Unique)`.
  Postgres raises these as server errors. The primary-key check comes before
  the foreign-key check.

Injected inputs:

- The id generator's output is the parameter `gen`, and a new row's id is
  "comment-" + gen (or "reply-", "thread-").
- `new Date()` is the integer parameter `now`.
- The `users` table is read only. Its values are usernames.

### Source discrepancy: no like count in GetThread

The comment objects built in `src/Applications/use_case/GetThreadUseCase.js`
(lines 21-27) have no `likeCount` property. The HTTP test
`src/Infrastructures/http/_test/threads.test.js` (lines 293 and 295) expects
`comments[i].likeCount` in the response. The model follows the use case as
written: `Assembly.CommentView` has no like count. The thread route handler is
not part of this model, so whether it adds the count later is not modelled.

## Model

| member | source | states |
|---|---|---|
| Entities.NewContent | src/Infrastructures/http/_test/comments.test.js:138-186 | the payload is accepted iff `content` is present and is a string, and the accepted value is that string; a missing `content` gives MissingProperty and a non-string `content` gives WrongType |
| Store.InsertThread | src/Infrastructures/repository/ThreadRepositoryPostgres.js:12-25 | succeeds iff id "thread-"+gen is new and the owner exists; adds exactly that row (title, body, date, owner), keeps every other row and table, returns {id, title, owner}; a failure changes nothing |
| Store.InsertComment | src/Infrastructures/repository/CommentRepositoryPostgres.js:13-26 | succeeds iff id "comment-"+gen is new and the thread and owner exist; adds exactly one row with is_delete NULL and like_count 0 and changes nothing else; returns {id, content, owner} |
| Store.InsertReply | src/Infrastructures/repository/ReplyRepositoryPostgres.js:13-26 | succeeds iff id "reply-"+gen is new and the comment and owner exist; adds exactly one row with is_delete NULL under that comment and changes nothing else; returns {id, content, owner} |
| Store.SoftDeleteComment | src/Infrastructures/repository/CommentRepositoryPostgres.js:54-61 | sets only that comment's is_delete to TRUE (content, like_count and every other row unchanged); an absent id changes nothing; keeps the foreign keys and like counts |
| Store.SoftDeleteReply | src/Infrastructures/repository/ReplyRepositoryPostgres.js:54-61 | sets only that reply's is_delete to TRUE; an absent id changes nothing; keeps the foreign keys |
| Store.InsertLike | src/Infrastructures/repository/CommentRepositoryPostgres.js:93-101 | adds the (comment, owner) row iff it is new and both ends exist; a duplicate fails with the UNIQUE constraint and changes nothing |
| Store.DeleteLike | src/Infrastructures/repository/CommentRepositoryPostgres.js:103-110 | removes the (comment, owner) row and keeps every other like row and table |
| Store.IncreaseLikeCount | src/Infrastructures/repository/CommentRepositoryPostgres.js:112-119 | raises that comment's like_count by exactly 1 and changes nothing else; an absent id changes nothing |
| Store.DecreaseLikeCount | src/Infrastructures/repository/CommentRepositoryPostgres.js:121-128 | lowers that comment's like_count by exactly 1 and changes nothing else; an absent id changes nothing |
| Store.LikersInsert | migrations/1734365017318_create-table-comments-likes.js:21 | with at most one row per (comment, owner), a new like row adds exactly one liker to its comment and none to any other comment |
| Store.LikersRemove | migrations/1734365017318_create-table-comments-likes.js:21 | removing a like row removes exactly one liker from its comment and none from any other comment |
| Store.CommentListingSize | src/Infrastructures/repository/CommentRepositoryPostgres.js:63-76 | under the foreign keys the join with users drops no row: a listing has as many rows as the thread has comments |
| Repository.Database.constructor | migrations/1733740102562_create-table-replies.js:16-27 | a database with the given users and no threads, comments, replies or likes satisfies the foreign keys: those of replies (comment, owner), of comments_likes (comment, owner, lines 7-16 of its migration), and the three assumed ones listed under "Left out" |
| Repository.Database.AddThread | src/Infrastructures/repository/ThreadRepositoryPostgres.js:12-25 | the new tables are InsertThread of the old ones, and the schema still holds |
| Repository.Database.VerifyThreadExistsById | src/Infrastructures/repository/ThreadRepositoryPostgres.js:27-38 | passes iff a thread has that id; otherwise NotFound(Thread) |
| Repository.Database.GetThreadById | src/Infrastructures/repository/ThreadRepositoryPostgres.js:40-52 | returns the stored thread row with its owner's username iff the thread exists and its owner joins users |
| Repository.Database.AddComment | src/Infrastructures/repository/CommentRepositoryPostgres.js:13-26 | the new tables are InsertComment of the old ones, and the schema still holds |
| Repository.Database.VerifyCommentExistsById | src/Infrastructures/repository/CommentRepositoryPostgres.js:28-39 | passes iff some comment, of any thread, has that id; otherwise NotFound(Comment) |
| Repository.Database.VerifyCommentOwnerByUserId | src/Infrastructures/repository/CommentRepositoryPostgres.js:41-52 | passes iff the comment exists and is owned by the user; otherwise Forbidden(Comment), including for an absent id |
| Repository.Database.DeleteCommentById | src/Infrastructures/repository/CommentRepositoryPostgres.js:54-61 | the new tables are SoftDeleteComment of the old ones |
| Repository.Database.GetAllCommentByThreadId | src/Infrastructures/repository/CommentRepositoryPostgres.js:63-76 | returns every comment of the thread exactly once, deleted ones included, each with its stored row and owner's username, in non-decreasing date order |
| Repository.Database.VerifyUserHasLikeComment | src/Infrastructures/repository/CommentRepositoryPostgres.js:78-91 | true iff a like row (comment, user) exists |
| Repository.Database.AddCommentLike | src/Infrastructures/repository/CommentRepositoryPostgres.js:93-101 | the new tables are InsertLike of the old ones |
| Repository.Database.DeleteCommentLike | src/Infrastructures/repository/CommentRepositoryPostgres.js:103-110 | the new tables are DeleteLike of the old ones |
| Repository.Database.IncreaseLikeCountByCommentId | src/Infrastructures/repository/CommentRepositoryPostgres.js:112-119 | the new tables are IncreaseLikeCount of the old ones |
| Repository.Database.DecreaseLikeCountByCommentId | src/Infrastructures/repository/CommentRepositoryPostgres.js:121-128 | the new tables are DecreaseLikeCount of the old ones |
| Repository.Database.AddReply | src/Infrastructures/repository/ReplyRepositoryPostgres.js:13-26 | the new tables are InsertReply of the old ones, and the schema still holds |
| Repository.Database.VerifyReplyExistsById | src/Infrastructures/repository/ReplyRepositoryPostgres.js:28-39 | passes iff some reply, of any comment, has that id; otherwise NotFound(Reply) |
| Repository.Database.VerifyReplyOwnerByUserId | src/Infrastructures/repository/ReplyRepositoryPostgres.js:41-52 | passes iff the reply exists and is owned by the user; otherwise Forbidden(Reply) |
| Repository.Database.DeleteReplyById | src/Infrastructures/repository/ReplyRepositoryPostgres.js:54-61 | the new tables are SoftDeleteReply of the old ones |
| Repository.Database.GetAllReplyByCommentId | src/Infrastructures/repository/ReplyRepositoryPostgres.js:63-76 | returns every reply of the comment exactly once, deleted ones included, with stored row and username, in non-decreasing date order |
| Moderation.AddComment | src/Applications/use_case/AddCommentUseCase.js:9-14 | validation first (MissingProperty / WrongType), then NotFound(Thread); any failure changes nothing; succeeds iff the payload is valid, the thread exists, the id is new and the user exists; then exactly one row (payload content, that thread and user, NULL flag, count 0) is added and no other row or table changes; keeps foreign keys and like counts |
| Moderation.AddReply | src/Applications/use_case/AddReplyUseCase.js:10-16 | validation first, then NotFound(Thread) before NotFound(Comment); any failure changes nothing; on success exactly one reply under that comment is added and nothing else changes |
| Moderation.AddReplyIgnoresThreadMembership | src/Applications/use_case/AddReplyUseCase.js:12-15 | a reply is accepted under a comment that belongs to a different thread than the one named |
| Moderation.DeleteComment | src/Applications/use_case/DeleteCommentUseCase.js:7-12 | NotFound(Thread) iff the thread is missing; NotFound(Comment) iff the thread exists and the comment is missing; Forbidden(Comment) iff both exist and the caller is not the owner; Pass otherwise; a failure changes nothing; Pass flips only that comment's is_delete |
| Moderation.DeleteCommentIdempotent | src/Applications/use_case/DeleteCommentUseCase.js:8-11 | deleting again as the owner passes and leaves the tables as they were after the first delete |
| Moderation.DeleteReply | src/Applications/use_case/DeleteReplyUseCase.js:8-14 | the checks thread, comment, reply, owner, each an iff with its error; a failure changes nothing; Pass flips only that reply's is_delete |
| Moderation.DeleteReplyIdempotent | src/Applications/use_case/DeleteReplyUseCase.js:9-13 | deleting a reply again as its owner passes and changes nothing more |
| Moderation.LikeComment | src/Applications/use_case/LikeCommentUseCase.js:7-18 | a missing thread or comment gives NotFound and changes nothing; with no like row, the row is added and only that comment's like_count grows by 1; with a like row, the row is removed and only that like_count shrinks by 1; keeps the foreign keys |
| Moderation.LikeTwiceRestores | src/Applications/use_case/_test/LikeCommentUseCase.test.js:43-57 | two successful toggles by the same user restore every table exactly |
| Moderation.LikeThenUnlike | src/Applications/use_case/LikeCommentUseCase.js:11-16 | a like followed by a second toggle restores the tables |
| Moderation.UnlikeThenLike | src/Applications/use_case/LikeCommentUseCase.js:11-16 | an unlike followed by a second toggle restores the tables |
| Moderation.LikeKeepsCountsConsistent | src/Applications/use_case/LikeCommentUseCase.js:10-17 | if every like_count equals its number of like rows before the toggle, it does after, so no like_count is negative |
| Assembly.RenderedRepliesShown | src/Applications/use_case/GetThreadUseCase.js:13-19 | mapping a reply listing gives every reply of the comment once, in date order, with the reply tombstone exactly for deleted replies and the stored content otherwise (NULL and FALSE alike) |
| Assembly.RenderedCommentsShown | src/Applications/use_case/GetThreadUseCase.js:12-28 | mapping a comment listing gives every comment of the thread once, in date order, with the comment tombstone exactly for deleted comments, each with its own replies |
| Assembly.ViewCountsComments | src/Applications/use_case/GetThreadUseCase.js:11-28 | a view drops no comment: it has as many comments as the thread |
| Assembly.ViewCountsReplies | src/Applications/use_case/GetThreadUseCase.js:13-19 | a view drops no reply: each comment in it has as many replies as that comment has in the table |
| Store.DistinctIdsCardinality | src/Infrastructures/repository/CommentRepositoryPostgres.js:63-76 | listed elements with distinct ids carry exactly as many ids as there are elements, which is what lets a listing's length be read off its id set |
| Assembly.DeletedCommentStillShown | src/Infrastructures/http/_test/threads.test.js:285-287 | a soft-deleted comment stays in the view, shown as the tombstone |
| Assembly.DeletedReplyStillShown | src/Infrastructures/http/_test/threads.test.js:297-299 | a soft-deleted reply stays in the view, shown as the tombstone |
| UseCases.AddComment | src/Applications/use_case/AddCommentUseCase.js:9-14 | validate, check the thread, insert; result and new tables are Moderation.AddComment of the old tables |
| UseCases.AddReply | src/Applications/use_case/AddReplyUseCase.js:10-16 | validate, check the thread, check the comment, insert; equals Moderation.AddReply |
| UseCases.DeleteComment | src/Applications/use_case/DeleteCommentUseCase.js:7-12 | the four repository calls in order; equals Moderation.DeleteComment |
| UseCases.DeleteReply | src/Applications/use_case/DeleteReplyUseCase.js:8-14 | the five repository calls in order; equals Moderation.DeleteReply |
| UseCases.LikeComment | src/Applications/use_case/LikeCommentUseCase.js:7-18 | the checks, then the like-row write followed by the counter write; equals Moderation.LikeComment |
| UseCases.GetThread | src/Applications/use_case/GetThreadUseCase.js:8-38 | fails iff the thread is missing, with NotFound(Thread) and before any listing; otherwise returns a view that Presents the thread (fields, username, all comments and replies once each, date order, tombstones); changes no table |
| UseCases.AddThenFindThread | src/Infrastructures/repository/_test/ThreadRepositoryPostgres.test.js:73-83 | a thread that addThread adds is then found by verifyThreadExistsById |

## Left out

- SQL text, the connection pool and query execution: each table is a map or set, and each statement is its effect on those values.
- Concurrency: `Promise.all` in GetThread is a sequential map that keeps order, and races between checks and writes are not modelled.
- Real clocks and id generation: `new Date()` and the id generator are parameters.
- The like row's own primary key: a like is its (comment, owner) pair, and the UNIQUE constraint on that pair is kept.
- Store.IncreaseLikeCount: like_count is an unbounded integer, so PostgreSQL's INTEGER overflow is not modelled.
- Entities.NewContent: the validator sources are not part of this model, so only the two rules the HTTP tests show are modelled (missing `content`, non-string `content`). Beyond them the model treats a JSON null `content` as a wrong type and accepts an empty string; no test shows either case, so the real validator may decide them differently.
- AddThreadUseCase and the NewThread validator are not part of this model; `Store.InsertThread` and `Repository.Database.AddThread` cover the effect of adding a thread.
- HTTP routing, status codes, authentication and the JWT token manager: they are outside the domain.
- The abstract repository bases and the error class hierarchy: they have no behaviour.
- Domain.Message maps errors to the texts the source throws or its HTTP tests expect, but it carries no contract.
- Store.Constraints: the migrations that create `threads` and `comments` are not part of this model. Three foreign keys are assumed by analogy with the replies and comments_likes migrations: `threads.owner` to users, `comments.thread` to threads, and `comments.owner` to users. The ForeignKey failures of `Store.InsertThread` and `Store.InsertComment` depend on them. So does `UseCases.GetThread` failing only when the thread is missing, because it relies on `getThreadById` finding the thread's owner in users; without that key the source would fail with a TypeError instead.
