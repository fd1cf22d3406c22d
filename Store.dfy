/** The forum's tables as one value, and the semantics of every statement the
    Postgres repositories send to them. */
module Store {
  import opened Domain

  datatype Db = Db(threads: map<Id, ThreadRow>,
                   comments: map<Id, CommentRow>,
                   replies: map<Id, ReplyRow>,
                   likes: set<Like>,
                   users: map<Id, string>)

  /** The schema's foreign keys: every reference names an existing row. */
  predicate Constraints(db: Db) {
    && (forall id :: id in db.threads ==> db.threads[id].owner in db.users)
    && (forall id :: id in db.comments ==>
          db.comments[id].thread in db.threads && db.comments[id].owner in db.users)
    && (forall id :: id in db.replies ==>
          db.replies[id].comment in db.comments && db.replies[id].owner in db.users)
    && (forall l :: l in db.likes ==> l.comment in db.comments && l.owner in db.users)
  }

  /** The users that have a like row for comment `c`. */
  function Likers(likes: set<Like>, c: Id): set<Id> {
    set l | l in likes && l.comment == c :: l.owner
  }

  /** The cached `like_count` of every comment equals its number of like rows. */
  predicate LikeCountsMatch(db: Db) {
    forall id :: id in db.comments ==> db.comments[id].likeCount == |Likers(db.likes, id)|
  }

  /** Every table other than `comments` is the same in `a` and `b`. */
  predicate OnlyCommentsDiffer(a: Db, b: Db) {
    a.threads == b.threads && a.replies == b.replies && a.likes == b.likes && a.users == b.users
  }

  /** Every table other than `replies` is the same in `a` and `b`. */
  predicate OnlyRepliesDiffer(a: Db, b: Db) {
    a.threads == b.threads && a.comments == b.comments && a.likes == b.likes && a.users == b.users
  }

  function ThreadId(gen: string): Id { "thread-" + gen }
  function CommentId(gen: string): Id { "comment-" + gen }
  function ReplyId(gen: string): Id { "reply-" + gen }

  // ---------------------------------------------------------------- inserts

  /** INSERT INTO threads: the id is "thread-" followed by the generated part. */
  function InsertThread(db: Db, owner: Id, title: string, body: string, gen: string, now: Date)
    : (out: (Result<AddedThread>, Db))
    ensures out.0.Success? <==> ThreadId(gen) !in db.threads && owner in db.users
    ensures ThreadId(gen) in db.threads ==> out.0 == Failure(Constraint(PrimaryKey))
    ensures out.0.Failure? ==> out.1 == db && out.0.error.Constraint?
    ensures out.0.Success? ==>
              && out.0.value == AddedThread(ThreadId(gen), title, owner)
              && out.1.threads.Keys == db.threads.Keys + {ThreadId(gen)}
              && |out.1.threads| == |db.threads| + 1
              && out.1.threads[ThreadId(gen)] == ThreadRow(title, body, now, owner)
              && (forall id :: id in db.threads ==> out.1.threads[id] == db.threads[id])
              && out.1.comments == db.comments && out.1.replies == db.replies
              && out.1.likes == db.likes && out.1.users == db.users
    ensures Constraints(db) ==> Constraints(out.1)
  {
    var id := ThreadId(gen);
    if id in db.threads then (Failure(Constraint(PrimaryKey)), db)
    else if owner !in db.users then (Failure(Constraint(ForeignKey)), db)
    else (Success(AddedThread(id, title, owner)),
          db.(threads := db.threads[id := ThreadRow(title, body, now, owner)]))
  }

  /** INSERT INTO comments: a fresh comment is not deleted (NULL) and has no likes. */
  function InsertComment(db: Db, thread: Id, owner: Id, content: string, gen: string, now: Date)
    : (out: (Result<AddedComment>, Db))
    ensures out.0.Success? <==>
              CommentId(gen) !in db.comments && thread in db.threads && owner in db.users
    ensures CommentId(gen) in db.comments ==> out.0 == Failure(Constraint(PrimaryKey))
    ensures out.0.Failure? ==> out.1 == db && out.0.error.Constraint?
    ensures out.0.Success? ==>
              && out.0.value == AddedComment(CommentId(gen), content, owner)
              && out.1.comments.Keys == db.comments.Keys + {CommentId(gen)}
              && |out.1.comments| == |db.comments| + 1
              && out.1.comments[CommentId(gen)] == CommentRow(content, now, thread, owner, NullFlag, 0)
              && (forall id :: id in db.comments ==> out.1.comments[id] == db.comments[id])
              && OnlyCommentsDiffer(db, out.1)
    ensures Constraints(db) ==> Constraints(out.1)
  {
    var id := CommentId(gen);
    if id in db.comments then (Failure(Constraint(PrimaryKey)), db)
    else if thread !in db.threads || owner !in db.users then (Failure(Constraint(ForeignKey)), db)
    else (Success(AddedComment(id, content, owner)),
          db.(comments := db.comments[id := CommentRow(content, now, thread, owner, NullFlag, 0)]))
  }

  /** INSERT INTO replies: a fresh reply is not deleted (NULL). */
  function InsertReply(db: Db, comment: Id, owner: Id, content: string, gen: string, now: Date)
    : (out: (Result<AddedReply>, Db))
    ensures out.0.Success? <==>
              ReplyId(gen) !in db.replies && comment in db.comments && owner in db.users
    ensures ReplyId(gen) in db.replies ==> out.0 == Failure(Constraint(PrimaryKey))
    ensures out.0.Failure? ==> out.1 == db && out.0.error.Constraint?
    ensures out.0.Success? ==>
              && out.0.value == AddedReply(ReplyId(gen), content, owner)
              && out.1.replies.Keys == db.replies.Keys + {ReplyId(gen)}
              && |out.1.replies| == |db.replies| + 1
              && out.1.replies[ReplyId(gen)] == ReplyRow(content, now, comment, owner, NullFlag)
              && (forall id :: id in db.replies ==> out.1.replies[id] == db.replies[id])
              && OnlyRepliesDiffer(db, out.1)
    ensures Constraints(db) ==> Constraints(out.1)
  {
    var id := ReplyId(gen);
    if id in db.replies then (Failure(Constraint(PrimaryKey)), db)
    else if comment !in db.comments || owner !in db.users then (Failure(Constraint(ForeignKey)), db)
    else (Success(AddedReply(id, content, owner)),
          db.(replies := db.replies[id := ReplyRow(content, now, comment, owner, NullFlag)]))
  }

  // ----------------------------------------------------------- soft delete

  /** UPDATE comments SET is_delete = TRUE WHERE id = $1. */
  function SoftDeleteComment(db: Db, id: Id): (r: Db)
    ensures OnlyCommentsDiffer(db, r) && r.comments.Keys == db.comments.Keys
    ensures forall k :: k in db.comments && k != id ==> r.comments[k] == db.comments[k]
    ensures id in db.comments ==>
              IsDeleted(r.comments[id].isDelete)
              && r.comments[id].(isDelete := db.comments[id].isDelete) == db.comments[id]
    ensures id !in db.comments ==> r == db
    ensures Constraints(db) ==> Constraints(r)
    ensures LikeCountsMatch(db) ==> LikeCountsMatch(r)
  {
    if id in db.comments then db.(comments := db.comments[id := db.comments[id].(isDelete := TrueFlag)])
    else db
  }

  /** UPDATE replies SET is_delete = TRUE WHERE id = $1. */
  function SoftDeleteReply(db: Db, id: Id): (r: Db)
    ensures OnlyRepliesDiffer(db, r) && r.replies.Keys == db.replies.Keys
    ensures forall k :: k in db.replies && k != id ==> r.replies[k] == db.replies[k]
    ensures id in db.replies ==>
              IsDeleted(r.replies[id].isDelete)
              && r.replies[id].(isDelete := db.replies[id].isDelete) == db.replies[id]
    ensures id !in db.replies ==> r == db
    ensures Constraints(db) ==> Constraints(r)
    ensures LikeCountsMatch(db) ==> LikeCountsMatch(r)
  {
    if id in db.replies then db.(replies := db.replies[id := db.replies[id].(isDelete := TrueFlag)])
    else db
  }

  // ----------------------------------------------------------------- likes

  /** INSERT INTO comments_likes; the UNIQUE(comment, owner) constraint rejects a second like. */
  function InsertLike(db: Db, c: Id, u: Id): (out: (Outcome, Db))
    ensures out.0.Pass? <==> Like(c, u) !in db.likes && c in db.comments && u in db.users
    ensures Like(c, u) in db.likes ==> out.0 == Fail(Constraint(Unique))
    ensures out.0.Fail? ==> out.1 == db && out.0.error.Constraint?
    ensures out.0.Pass? ==> out.1 == db.(likes := db.likes + {Like(c, u)})
    ensures Constraints(db) ==> Constraints(out.1)
  {
    if Like(c, u) in db.likes then (Fail(Constraint(Unique)), db)
    else if c !in db.comments || u !in db.users then (Fail(Constraint(ForeignKey)), db)
    else (Pass, db.(likes := db.likes + {Like(c, u)}))
  }

  /** DELETE FROM comments_likes WHERE comment = $1 AND owner = $2. */
  function DeleteLike(db: Db, c: Id, u: Id): (r: Db)
    ensures Like(c, u) !in r.likes
    ensures forall l :: l != Like(c, u) ==> (l in r.likes <==> l in db.likes)
    ensures r == db.(likes := r.likes)
    ensures Constraints(db) ==> Constraints(r)
  {
    db.(likes := db.likes - {Like(c, u)})
  }

  /** UPDATE comments SET like_count = like_count + 1 WHERE id = $1. */
  function IncreaseLikeCount(db: Db, c: Id): (r: Db)
    ensures OnlyCommentsDiffer(db, r) && r.comments.Keys == db.comments.Keys
    ensures forall k :: k in db.comments && k != c ==> r.comments[k] == db.comments[k]
    ensures c in db.comments ==>
              r.comments[c].likeCount == db.comments[c].likeCount + 1
              && r.comments[c].(likeCount := db.comments[c].likeCount) == db.comments[c]
    ensures c !in db.comments ==> r == db
    ensures Constraints(db) ==> Constraints(r)
  {
    if c in db.comments
    then db.(comments := db.comments[c := db.comments[c].(likeCount := db.comments[c].likeCount + 1)])
    else db
  }

  /** UPDATE comments SET like_count = like_count - 1 WHERE id = $1. */
  function DecreaseLikeCount(db: Db, c: Id): (r: Db)
    ensures OnlyCommentsDiffer(db, r) && r.comments.Keys == db.comments.Keys
    ensures forall k :: k in db.comments && k != c ==> r.comments[k] == db.comments[k]
    ensures c in db.comments ==>
              r.comments[c].likeCount == db.comments[c].likeCount - 1
              && r.comments[c].(likeCount := db.comments[c].likeCount) == db.comments[c]
    ensures c !in db.comments ==> r == db
    ensures Constraints(db) ==> Constraints(r)
  {
    if c in db.comments
    then db.(comments := db.comments[c := db.comments[c].(likeCount := db.comments[c].likeCount - 1)])
    else db
  }

  /** Adding one like row adds exactly its owner to the likers of its comment
      and leaves the likers of every other comment alone. */
  lemma LikersInsert(likes: set<Like>, l: Like)
    requires l !in likes
    ensures l.owner !in Likers(likes, l.comment)
    ensures Likers(likes + {l}, l.comment) == Likers(likes, l.comment) + {l.owner}
    ensures |Likers(likes + {l}, l.comment)| == |Likers(likes, l.comment)| + 1
    ensures forall c :: c != l.comment ==> Likers(likes + {l}, c) == Likers(likes, c)
  {
  }

  /** Removing one like row removes exactly its owner from the likers of its
      comment and leaves the likers of every other comment alone. */
  lemma LikersRemove(likes: set<Like>, l: Like)
    requires l in likes
    ensures l.owner in Likers(likes, l.comment)
    ensures Likers(likes - {l}, l.comment) == Likers(likes, l.comment) - {l.owner}
    ensures |Likers(likes - {l}, l.comment)| == |Likers(likes, l.comment)| - 1
    ensures forall c :: c != l.comment ==> Likers(likes - {l}, c) == Likers(likes, c)
  {
    var rest := likes - {l};
    assert likes == rest + {l};
    LikersInsert(rest, l);
  }

  // -------------------------------------------------------------- listings

  /** `comments.*` joined with the owner's `users.username`. */
  datatype ListedComment = ListedComment(id: Id, row: CommentRow, username: string)

  /** `replies.*` joined with the owner's `users.username`. */
  datatype ListedReply = ListedReply(id: Id, row: ReplyRow, username: string)

  /** `threads.*` joined with the owner's `users.username`. */
  datatype ThreadDetail = ThreadDetail(id: Id, row: ThreadRow, username: string)

  function ThreadCommentIds(db: Db, t: Id): set<Id> {
    set id | id in db.comments && db.comments[id].thread == t
  }

  function CommentReplyIds(db: Db, c: Id): set<Id> {
    set id | id in db.replies && db.replies[id].comment == c
  }

  function ListedCommentIds(rows: seq<ListedComment>): set<Id> {
    set i | 0 <= i < |rows| :: rows[i].id
  }

  function ListedReplyIds(rows: seq<ListedReply>): set<Id> {
    set i | 0 <= i < |rows| :: rows[i].id
  }

  /** `e` is the stored row of a comment of thread `t`, with its owner's username. */
  predicate JoinedComment(db: Db, t: Id, e: ListedComment) {
    && e.id in db.comments && e.row == db.comments[e.id] && e.row.thread == t
    && e.row.owner in db.users && e.username == db.users[e.row.owner]
  }

  /** `e` is the stored row of a reply to comment `c`, with its owner's username. */
  predicate JoinedReply(db: Db, c: Id, e: ListedReply) {
    && e.id in db.replies && e.row == db.replies[e.id] && e.row.comment == c
    && e.row.owner in db.users && e.username == db.users[e.row.owner]
  }

  /** What `... WHERE thread = $1 ORDER BY date ASC` may return: every comment of
      the thread exactly once (deleted ones included), in non-decreasing date
      order; rows with equal dates may come in any order. */
  predicate IsCommentListing(db: Db, t: Id, rows: seq<ListedComment>) {
    && (forall i :: 0 <= i < |rows| ==> JoinedComment(db, t, rows[i]))
    && (forall i, j :: 0 <= i < j < |rows| ==> rows[i].row.date <= rows[j].row.date)
    && (forall i, j :: 0 <= i < j < |rows| ==> rows[i].id != rows[j].id)
    && ListedCommentIds(rows) == ThreadCommentIds(db, t)
  }

  /** What `... WHERE comment = $1 ORDER BY date ASC` may return. */
  predicate IsReplyListing(db: Db, c: Id, rows: seq<ListedReply>) {
    && (forall i :: 0 <= i < |rows| ==> JoinedReply(db, c, rows[i]))
    && (forall i, j :: 0 <= i < j < |rows| ==> rows[i].row.date <= rows[j].row.date)
    && (forall i, j :: 0 <= i < j < |rows| ==> rows[i].id != rows[j].id)
    && ListedReplyIds(rows) == CommentReplyIds(db, c)
  }

  /** A prefix of a comment listing: `rows` is sorted, holds distinct comments
      of `t`, none of them later than any comment still in `rest`. */
  predicate CommentListingSoFar(db: Db, t: Id, rows: seq<ListedComment>, rest: set<Id>) {
    && rest <= ThreadCommentIds(db, t)
    && (forall i :: 0 <= i < |rows| ==> JoinedComment(db, t, rows[i]))
    && (forall i, j :: 0 <= i < j < |rows| ==> rows[i].row.date <= rows[j].row.date)
    && (forall i, j :: 0 <= i < j < |rows| ==> rows[i].id != rows[j].id)
    && (forall i, k :: 0 <= i < |rows| && k in rest ==> rows[i].row.date <= db.comments[k].date)
    && (forall i :: 0 <= i < |rows| ==> rows[i].id !in rest)
    && ListedCommentIds(rows) + rest == ThreadCommentIds(db, t)
  }

  /** Appending an earliest remaining comment extends a listing prefix. */
  lemma CommentListingStep(db: Db, t: Id, rows: seq<ListedComment>, rest: set<Id>, k: Id)
    requires Constraints(db) && CommentListingSoFar(db, t, rows, rest)
    requires k in rest && forall k' :: k' in rest ==> db.comments[k].date <= db.comments[k'].date
    ensures k in db.comments && db.comments[k].owner in db.users
    ensures CommentListingSoFar(db, t, rows + [ListedComment(k, db.comments[k], db.users[db.comments[k].owner])], rest - {k})
  {
    var e := ListedComment(k, db.comments[k], db.users[db.comments[k].owner]);
    var rows' := rows + [e];
    assert ListedCommentIds(rows') == ListedCommentIds(rows) + {k} by {
      forall x | x in ListedCommentIds(rows') ensures x in ListedCommentIds(rows) + {k} {
        var i :| 0 <= i < |rows'| && rows'[i].id == x;
        if i < |rows| { assert rows[i].id == x; }
      }
      forall x | x in ListedCommentIds(rows) ensures x in ListedCommentIds(rows') {
        var i :| 0 <= i < |rows| && rows[i].id == x;
        assert rows'[i].id == x;
      }
      assert rows'[|rows|].id == k;
    }
  }

  /** A listing prefix with nothing left is a whole listing. */
  lemma CommentListingDone(db: Db, t: Id, rows: seq<ListedComment>)
    requires CommentListingSoFar(db, t, rows, {})
    ensures IsCommentListing(db, t, rows)
  {
    assert ListedCommentIds(rows) + {} == ListedCommentIds(rows);
  }

  /** A prefix of a reply listing. */
  predicate ReplyListingSoFar(db: Db, c: Id, rows: seq<ListedReply>, rest: set<Id>) {
    && rest <= CommentReplyIds(db, c)
    && (forall i :: 0 <= i < |rows| ==> JoinedReply(db, c, rows[i]))
    && (forall i, j :: 0 <= i < j < |rows| ==> rows[i].row.date <= rows[j].row.date)
    && (forall i, j :: 0 <= i < j < |rows| ==> rows[i].id != rows[j].id)
    && (forall i, k :: 0 <= i < |rows| && k in rest ==> rows[i].row.date <= db.replies[k].date)
    && (forall i :: 0 <= i < |rows| ==> rows[i].id !in rest)
    && ListedReplyIds(rows) + rest == CommentReplyIds(db, c)
  }

  /** Appending an earliest remaining reply extends a listing prefix. */
  lemma ReplyListingStep(db: Db, c: Id, rows: seq<ListedReply>, rest: set<Id>, k: Id)
    requires Constraints(db) && ReplyListingSoFar(db, c, rows, rest)
    requires k in rest && forall k' :: k' in rest ==> db.replies[k].date <= db.replies[k'].date
    ensures k in db.replies && db.replies[k].owner in db.users
    ensures ReplyListingSoFar(db, c, rows + [ListedReply(k, db.replies[k], db.users[db.replies[k].owner])], rest - {k})
  {
    var e := ListedReply(k, db.replies[k], db.users[db.replies[k].owner]);
    var rows' := rows + [e];
    assert ListedReplyIds(rows') == ListedReplyIds(rows) + {k} by {
      forall x | x in ListedReplyIds(rows') ensures x in ListedReplyIds(rows) + {k} {
        var i :| 0 <= i < |rows'| && rows'[i].id == x;
        if i < |rows| { assert rows[i].id == x; }
      }
      forall x | x in ListedReplyIds(rows) ensures x in ListedReplyIds(rows') {
        var i :| 0 <= i < |rows| && rows[i].id == x;
        assert rows'[i].id == x;
      }
      assert rows'[|rows|].id == k;
    }
  }

  /** A reply-listing prefix with nothing left is a whole listing. */
  lemma ReplyListingDone(db: Db, c: Id, rows: seq<ListedReply>)
    requires ReplyListingSoFar(db, c, rows, {})
    ensures IsReplyListing(db, c, rows)
  {
    assert ListedReplyIds(rows) + {} == ListedReplyIds(rows);
  }

  /** Under the foreign keys the INNER JOIN with `users` drops no row: a listing
      holds as many rows as the parent has children. */
  lemma CommentListingSize(db: Db, t: Id, rows: seq<ListedComment>)
    requires IsCommentListing(db, t, rows)
    ensures |rows| == |ThreadCommentIds(db, t)|
  {
    var id := (e: ListedComment) => e.id;
    assert ListedCommentIds(rows) == IdsOf(rows, id);
    DistinctIdsCardinality(rows, id);
  }

  /** The ids that the elements of `s` carry. */
  function IdsOf<T>(s: seq<T>, id: T -> Id): set<Id> {
    set i | 0 <= i < |s| :: id(s[i])
  }

  /** Elements with distinct ids carry as many ids as there are elements. */
  lemma {:induction false} DistinctIdsCardinality<T>(s: seq<T>, id: T -> Id)
    requires forall i, j :: 0 <= i < j < |s| ==> id(s[i]) != id(s[j])
    ensures |IdsOf(s, id)| == |s|
  {
    if s != [] {
      var front := s[..|s| - 1];
      DistinctIdsCardinality(front, id);
      assert IdsOf(s, id) == IdsOf(front, id) + {id(s[|s| - 1])} by {
        forall x | x in IdsOf(s, id) ensures x in IdsOf(front, id) + {id(s[|s| - 1])} {
          var i :| 0 <= i < |s| && id(s[i]) == x;
          if i < |s| - 1 { assert id(front[i]) == x; }
        }
        forall x | x in IdsOf(front, id) ensures x in IdsOf(s, id) {
          var i :| 0 <= i < |front| && id(front[i]) == x;
          assert id(s[i]) == x;
        }
      }
      assert id(s[|s| - 1]) !in IdsOf(front, id);
    }
  }
}
