/** The application use cases, each calling the repositories in the order the
    source does. A failed check returns its error and runs nothing after it. */
module UseCases {
  import opened Domain
  import opened Entities
  import opened Store
  import opened Repository
  import opened Assembly
  import Moderation

  method AddComment(db: Database, thread: Id, user: Id, payload: Payload, gen: string, now: Date)
    returns (r: Result<AddedComment>)
    requires db.Valid()
    modifies db
    ensures db.Valid()
    ensures (r, db.State()) == Moderation.AddComment(old(db.State()), thread, user, payload, gen, now)
  {
    var content := NewContent(payload, Comment);
    if content.Failure? {
      return Failure(content.error);
    }
    var found := db.VerifyThreadExistsById(thread);
    if found.Fail? {
      return Failure(found.error);
    }
    r := db.AddComment(thread, user, content.value, gen, now);
  }

  method AddReply(db: Database, thread: Id, comment: Id, user: Id, payload: Payload, gen: string, now: Date)
    returns (r: Result<AddedReply>)
    requires db.Valid()
    modifies db
    ensures db.Valid()
    ensures (r, db.State()) == Moderation.AddReply(old(db.State()), thread, comment, user, payload, gen, now)
  {
    var content := NewContent(payload, Reply);
    if content.Failure? {
      return Failure(content.error);
    }
    var found := db.VerifyThreadExistsById(thread);
    if found.Fail? {
      return Failure(found.error);
    }
    found := db.VerifyCommentExistsById(comment);
    if found.Fail? {
      return Failure(found.error);
    }
    r := db.AddReply(comment, user, content.value, gen, now);
  }

  method DeleteComment(db: Database, thread: Id, comment: Id, user: Id) returns (r: Outcome)
    requires db.Valid()
    modifies db
    ensures db.Valid()
    ensures (r, db.State()) == Moderation.DeleteComment(old(db.State()), thread, comment, user)
  {
    r := db.VerifyThreadExistsById(thread);
    if r.Fail? {
      return;
    }
    r := db.VerifyCommentExistsById(comment);
    if r.Fail? {
      return;
    }
    r := db.VerifyCommentOwnerByUserId(comment, user);
    if r.Fail? {
      return;
    }
    db.DeleteCommentById(comment);
  }

  method DeleteReply(db: Database, thread: Id, comment: Id, reply: Id, user: Id) returns (r: Outcome)
    requires db.Valid()
    modifies db
    ensures db.Valid()
    ensures (r, db.State()) == Moderation.DeleteReply(old(db.State()), thread, comment, reply, user)
  {
    r := db.VerifyThreadExistsById(thread);
    if r.Fail? {
      return;
    }
    r := db.VerifyCommentExistsById(comment);
    if r.Fail? {
      return;
    }
    r := db.VerifyReplyExistsById(reply);
    if r.Fail? {
      return;
    }
    r := db.VerifyReplyOwnerByUserId(reply, user);
    if r.Fail? {
      return;
    }
    db.DeleteReplyById(reply);
  }

  method LikeComment(db: Database, thread: Id, comment: Id, user: Id) returns (r: Outcome)
    requires db.Valid()
    modifies db
    ensures db.Valid()
    ensures (r, db.State()) == Moderation.LikeComment(old(db.State()), thread, comment, user)
  {
    r := db.VerifyThreadExistsById(thread);
    if r.Fail? {
      return;
    }
    r := db.VerifyCommentExistsById(comment);
    if r.Fail? {
      return;
    }
    var hasLike := db.VerifyUserHasLikeComment(comment, user);
    if !hasLike {
      r := db.AddCommentLike(comment, user);
      if r.Fail? {
        return;
      }
      db.IncreaseLikeCountByCommentId(comment);
    } else {
      db.DeleteCommentLike(comment, user);
      db.DecreaseLikeCountByCommentId(comment);
    }
  }

  /** The thread with its comments and each comment's replies. It only reads:
      without a `modifies` clause it cannot change the tables. */
  method GetThread(db: Database, thread: Id) returns (r: Result<ThreadView>)
    requires db.Valid()
    ensures r.Failure? <==> thread !in db.threads
    ensures r.Failure? ==> r.error == NotFound(Thread)
    ensures r.Success? ==> Presents(db.State(), thread, r.value)
  {
    var found := db.VerifyThreadExistsById(thread);
    if found.Fail? {
      return Failure(found.error);
    }
    var detail := db.GetThreadById(thread);
    assert detail.Some?;
    var listed := db.GetAllCommentByThreadId(thread);
    var comments: seq<CommentView> := [];
    var i := 0;
    while i < |listed|
      invariant 0 <= i <= |listed| && |comments| == i
      invariant forall j :: 0 <= j < i ==> CommentRendered(db.State(), listed[j], comments[j])
    {
      var replies := db.GetAllReplyByCommentId(listed[i].id);
      RenderedRepliesShown(db.State(), listed[i].id, replies);
      comments := comments + [RenderComment(listed[i], RenderReplies(replies))];
      i := i + 1;
    }
    RenderedCommentsShown(db.State(), thread, listed, comments);
    r := Success(RenderThread(detail.value, comments));
  }

  /** A thread that `addThread` reports as added is then found by
      `verifyThreadExistsById`. */
  method AddThenFindThread(db: Database, owner: Id, title: string, body: string, gen: string, now: Date)
    returns (added: Result<AddedThread>, found: Outcome)
    requires db.Valid()
    modifies db
    ensures db.Valid()
    ensures added.Success? <==> ThreadId(gen) !in old(db.threads) && owner in old(db.users)
    ensures added.Success? ==> found == Pass && added.value.id == ThreadId(gen)
  {
    added := db.AddThread(owner, title, body, gen, now);
    found := Fail(NotFound(Thread));
    if added.Success? {
      found := db.VerifyThreadExistsById(added.value.id);
    }
  }
}
