/** The three Postgres repositories (threads, comments, replies) over one
    in-memory database whose fields are the tables. */
module Repository {
  import opened Domain
  import opened Store

  /** Some element of a non-empty set has the smallest `date` of them all. */
  lemma {:induction false} EarliestExists<R>(s: set<Id>, m: map<Id, R>, date: R -> int)
    requires s != {} && s <= m.Keys
    ensures exists k :: k in s && forall k' :: k' in s ==> date(m[k]) <= date(m[k'])
  {
    var x :| x in s;
    if s != {x} {
      EarliestExists(s - {x}, m, date);
      var k :| k in s - {x} && forall k' :: k' in s - {x} ==> date(m[k]) <= date(m[k']);
      if date(m[x]) <= date(m[k]) {
        assert forall k' :: k' in s ==> date(m[x]) <= date(m[k']);
      } else {
        assert forall k' :: k' in s ==> date(m[k]) <= date(m[k']);
      }
    }
  }

  function CommentDate(row: CommentRow): int { row.date }
  function ReplyDate(row: ReplyRow): int { row.date }

  class Database {
    var threads: map<Id, ThreadRow>
    var comments: map<Id, CommentRow>
    var replies: map<Id, ReplyRow>
    var likes: set<Like>
    var users: map<Id, string>

    /** The tables as one value. */
    function State(): Db
      reads this
    {
      Db(threads, comments, replies, likes, users)
    }

    /** The schema's foreign keys hold. */
    predicate Valid()
      reads this
    {
      Constraints(State())
    }

    /** A database with the given users and no threads, comments, replies or likes. */
    constructor (users: map<Id, string>)
      ensures Valid()
      ensures State() == Db(map[], map[], map[], {}, users)
    {
      this.threads := map[];
      this.comments := map[];
      this.replies := map[];
      this.likes := {};
      this.users := users;
    }

    // ------------------------------------------------ ThreadRepositoryPostgres

    method AddThread(owner: Id, title: string, body: string, gen: string, now: Date)
      returns (r: Result<AddedThread>)
      requires Valid()
      modifies this
      ensures Valid()
      ensures (r, State()) == InsertThread(old(State()), owner, title, body, gen, now)
    {
      var id := ThreadId(gen);
      if id in threads {
        r := Failure(Constraint(PrimaryKey));
      } else if owner !in users {
        r := Failure(Constraint(ForeignKey));
      } else {
        threads := threads[id := ThreadRow(title, body, now, owner)];
        r := Success(AddedThread(id, title, owner));
      }
    }

    method VerifyThreadExistsById(id: Id) returns (r: Outcome)
      ensures r.Pass? <==> id in threads
      ensures r.Fail? ==> r.error == NotFound(Thread)
    {
      r := if id in threads then Pass else Fail(NotFound(Thread));
    }

    /** `rows[0]` of the join with `users`; absent when no row matches. */
    method GetThreadById(id: Id) returns (r: Option<ThreadDetail>)
      ensures r.Some? <==> id in threads && threads[id].owner in users
      ensures r.Some? ==> r.value.id == id && r.value.row == threads[id]
                          && r.value.username == users[threads[id].owner]
    {
      if id in threads && threads[id].owner in users {
        r := Some(ThreadDetail(id, threads[id], users[threads[id].owner]));
      } else {
        r := None;
      }
    }

    // ----------------------------------------------- CommentRepositoryPostgres

    method AddComment(thread: Id, owner: Id, content: string, gen: string, now: Date)
      returns (r: Result<AddedComment>)
      requires Valid()
      modifies this
      ensures Valid()
      ensures (r, State()) == InsertComment(old(State()), thread, owner, content, gen, now)
    {
      var id := CommentId(gen);
      if id in comments {
        r := Failure(Constraint(PrimaryKey));
      } else if thread !in threads || owner !in users {
        r := Failure(Constraint(ForeignKey));
      } else {
        comments := comments[id := CommentRow(content, now, thread, owner, NullFlag, 0)];
        r := Success(AddedComment(id, content, owner));
      }
    }

    /** Global: the comment may belong to any thread. */
    method VerifyCommentExistsById(id: Id) returns (r: Outcome)
      ensures r.Pass? <==> id in comments
      ensures r.Fail? ==> r.error == NotFound(Comment)
    {
      r := if id in comments then Pass else Fail(NotFound(Comment));
    }

    /** A single query on (id, owner): an absent comment is also Forbidden. */
    method VerifyCommentOwnerByUserId(id: Id, user: Id) returns (r: Outcome)
      ensures r.Pass? <==> id in comments && comments[id].owner == user
      ensures r.Fail? ==> r.error == Forbidden(Comment)
    {
      r := if id in comments && comments[id].owner == user then Pass else Fail(Forbidden(Comment));
    }

    method DeleteCommentById(id: Id)
      requires Valid()
      modifies this
      ensures Valid()
      ensures State() == SoftDeleteComment(old(State()), id)
    {
      if id in comments {
        comments := comments[id := comments[id].(isDelete := TrueFlag)];
      }
    }

    /** The thread's comments in ascending date order. Rows with equal dates
        are picked in no particular order. */
    method GetAllCommentByThreadId(thread: Id) returns (rows: seq<ListedComment>)
      requires Valid()
      ensures IsCommentListing(State(), thread, rows)
    {
      ghost var db := State();
      var rest := ThreadCommentIds(State(), thread);
      rows := [];
      while rest != {}
        invariant CommentListingSoFar(db, thread, rows, rest)
        decreases |rest|
      {
        EarliestExists(rest, comments, CommentDate);
        var k :| k in rest && forall k' :: k' in rest ==> CommentDate(comments[k]) <= CommentDate(comments[k']);
        CommentListingStep(db, thread, rows, rest, k);
        rows := rows + [ListedComment(k, comments[k], users[comments[k].owner])];
        rest := rest - {k};
      }
      CommentListingDone(db, thread, rows);
    }

    method VerifyUserHasLikeComment(id: Id, user: Id) returns (has: bool)
      ensures has <==> Like(id, user) in likes
    {
      has := Like(id, user) in likes;
    }

    method AddCommentLike(id: Id, user: Id) returns (r: Outcome)
      requires Valid()
      modifies this
      ensures Valid()
      ensures (r, State()) == InsertLike(old(State()), id, user)
    {
      if Like(id, user) in likes {
        r := Fail(Constraint(Unique));
      } else if id !in comments || user !in users {
        r := Fail(Constraint(ForeignKey));
      } else {
        likes := likes + {Like(id, user)};
        r := Pass;
      }
    }

    method DeleteCommentLike(id: Id, user: Id)
      requires Valid()
      modifies this
      ensures Valid()
      ensures State() == DeleteLike(old(State()), id, user)
    {
      likes := likes - {Like(id, user)};
    }

    method IncreaseLikeCountByCommentId(id: Id)
      requires Valid()
      modifies this
      ensures Valid()
      ensures State() == IncreaseLikeCount(old(State()), id)
    {
      if id in comments {
        comments := comments[id := comments[id].(likeCount := comments[id].likeCount + 1)];
      }
    }

    method DecreaseLikeCountByCommentId(id: Id)
      requires Valid()
      modifies this
      ensures Valid()
      ensures State() == DecreaseLikeCount(old(State()), id)
    {
      if id in comments {
        comments := comments[id := comments[id].(likeCount := comments[id].likeCount - 1)];
      }
    }

    // ------------------------------------------------- ReplyRepositoryPostgres

    method AddReply(comment: Id, owner: Id, content: string, gen: string, now: Date)
      returns (r: Result<AddedReply>)
      requires Valid()
      modifies this
      ensures Valid()
      ensures (r, State()) == InsertReply(old(State()), comment, owner, content, gen, now)
    {
      var id := ReplyId(gen);
      if id in replies {
        r := Failure(Constraint(PrimaryKey));
      } else if comment !in comments || owner !in users {
        r := Failure(Constraint(ForeignKey));
      } else {
        replies := replies[id := ReplyRow(content, now, comment, owner, NullFlag)];
        r := Success(AddedReply(id, content, owner));
      }
    }

    /** Global: the reply may belong to any comment. */
    method VerifyReplyExistsById(id: Id) returns (r: Outcome)
      ensures r.Pass? <==> id in replies
      ensures r.Fail? ==> r.error == NotFound(Reply)
    {
      r := if id in replies then Pass else Fail(NotFound(Reply));
    }

    /** A single query on (id, owner): an absent reply is also Forbidden. */
    method VerifyReplyOwnerByUserId(id: Id, user: Id) returns (r: Outcome)
      ensures r.Pass? <==> id in replies && replies[id].owner == user
      ensures r.Fail? ==> r.error == Forbidden(Reply)
    {
      r := if id in replies && replies[id].owner == user then Pass else Fail(Forbidden(Reply));
    }

    method DeleteReplyById(id: Id)
      requires Valid()
      modifies this
      ensures Valid()
      ensures State() == SoftDeleteReply(old(State()), id)
    {
      if id in replies {
        replies := replies[id := replies[id].(isDelete := TrueFlag)];
      }
    }

    /** The comment's replies in ascending date order. Rows with equal dates
        are picked in no particular order. */
    method GetAllReplyByCommentId(comment: Id) returns (rows: seq<ListedReply>)
      requires Valid()
      ensures IsReplyListing(State(), comment, rows)
    {
      ghost var db := State();
      var rest := CommentReplyIds(State(), comment);
      rows := [];
      while rest != {}
        invariant ReplyListingSoFar(db, comment, rows, rest)
        decreases |rest|
      {
        EarliestExists(rest, replies, ReplyDate);
        var k :| k in rest && forall k' :: k' in rest ==> ReplyDate(replies[k]) <= ReplyDate(replies[k']);
        ReplyListingStep(db, comment, rows, rest, k);
        rows := rows + [ListedReply(k, replies[k], users[replies[k].owner])];
        rest := rest - {k};
      }
      ReplyListingDone(db, comment, rows);
    }
  }
}
