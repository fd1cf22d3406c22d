/** What each write use case does to the tables, as a function from the tables
    before to the result and the tables after. The checks run in the source's
    order and the first failing one decides the error. */
module Moderation {
  import opened Domain
  import opened Entities
  import opened Store

  /** `after` is `before` with only the `like_count` of comment `c` moved by `delta`. */
  predicate LikeCountShifted(before: map<Id, CommentRow>, after: map<Id, CommentRow>, c: Id, delta: int) {
    && c in before && after.Keys == before.Keys
    && after[c].likeCount == before[c].likeCount + delta
    && after[c].(likeCount := before[c].likeCount) == before[c]
    && (forall k :: k in before && k != c ==> after[k] == before[k])
  }

  /** No like row can point at an id that is not a comment. */
  lemma NoLikersOfMissingComment(db: Db, id: Id)
    requires Constraints(db) && id !in db.comments
    ensures Likers(db.likes, id) == {}
  {
  }

  // ---------------------------------------------------------- AddComment

  function AddComment(db: Db, thread: Id, user: Id, payload: Payload, gen: string, now: Date)
    : (out: (Result<AddedComment>, Db))
    ensures "content" !in payload ==> out == (Failure(Invalid(Comment, MissingProperty)), db)
    ensures "content" in payload && !payload["content"].JString? ==>
              out == (Failure(Invalid(Comment, WrongType)), db)
    ensures NewContent(payload, Comment).Success? && thread !in db.threads ==>
              out == (Failure(NotFound(Thread)), db)
    ensures out.0.Failure? ==> out.1 == db
    ensures out.0.Success? <==>
              && NewContent(payload, Comment).Success? && thread in db.threads
              && CommentId(gen) !in db.comments && user in db.users
    ensures out.0.Success? ==>
              && out.0.value == AddedComment(CommentId(gen), payload["content"].s, user)
              && out.1.comments.Keys == db.comments.Keys + {CommentId(gen)}
              && |out.1.comments| == |db.comments| + 1
              && out.1.comments[CommentId(gen)]
                 == CommentRow(payload["content"].s, now, thread, user, NullFlag, 0)
              && (forall id :: id in db.comments ==> out.1.comments[id] == db.comments[id])
              && OnlyCommentsDiffer(db, out.1)
    ensures Constraints(db) ==> Constraints(out.1)
    ensures Constraints(db) && LikeCountsMatch(db) ==> LikeCountsMatch(out.1)
  {
    var content := NewContent(payload, Comment);
    if content.Failure? then (Failure(content.error), db)
    else if thread !in db.threads then (Failure(NotFound(Thread)), db)
    else
      var out := InsertComment(db, thread, user, content.value, gen, now);
      assert Constraints(db) && out.0.Success? ==> Likers(db.likes, CommentId(gen)) == {} by {
        if Constraints(db) && out.0.Success? { NoLikersOfMissingComment(db, CommentId(gen)); }
      }
      out
  }

  // ------------------------------------------------------------ AddReply

  function AddReply(db: Db, thread: Id, comment: Id, user: Id, payload: Payload, gen: string, now: Date)
    : (out: (Result<AddedReply>, Db))
    ensures "content" !in payload ==> out == (Failure(Invalid(Reply, MissingProperty)), db)
    ensures "content" in payload && !payload["content"].JString? ==>
              out == (Failure(Invalid(Reply, WrongType)), db)
    ensures NewContent(payload, Reply).Success? && thread !in db.threads ==>
              out == (Failure(NotFound(Thread)), db)
    ensures NewContent(payload, Reply).Success? && thread in db.threads && comment !in db.comments ==>
              out == (Failure(NotFound(Comment)), db)
    ensures out.0.Failure? ==> out.1 == db
    ensures out.0.Success? <==>
              && NewContent(payload, Reply).Success? && thread in db.threads && comment in db.comments
              && ReplyId(gen) !in db.replies && user in db.users
    ensures out.0.Success? ==>
              && out.0.value == AddedReply(ReplyId(gen), payload["content"].s, user)
              && out.1.replies.Keys == db.replies.Keys + {ReplyId(gen)}
              && |out.1.replies| == |db.replies| + 1
              && out.1.replies[ReplyId(gen)] == ReplyRow(payload["content"].s, now, comment, user, NullFlag)
              && (forall id :: id in db.replies ==> out.1.replies[id] == db.replies[id])
              && OnlyRepliesDiffer(db, out.1)
    ensures Constraints(db) ==> Constraints(out.1)
    ensures LikeCountsMatch(db) ==> LikeCountsMatch(out.1)
  {
    var content := NewContent(payload, Reply);
    if content.Failure? then (Failure(content.error), db)
    else if thread !in db.threads then (Failure(NotFound(Thread)), db)
    else if comment !in db.comments then (Failure(NotFound(Comment)), db)
    else InsertReply(db, comment, user, content.value, gen, now)
  }

  /** The comment check is global: a reply is accepted under a comment that
      belongs to a different thread than the one named in the request. */
  lemma AddReplyIgnoresThreadMembership(db: Db, thread: Id, comment: Id, user: Id, content: string, gen: string, now: Date)
    requires thread in db.threads && comment in db.comments && db.comments[comment].thread != thread
    requires ReplyId(gen) !in db.replies && user in db.users
    ensures AddReply(db, thread, comment, user, map["content" := JString(content)], gen, now).0
            == Success(AddedReply(ReplyId(gen), content, user))
  {
  }

  // ------------------------------------------------------- DeleteComment

  function DeleteComment(db: Db, thread: Id, comment: Id, user: Id): (out: (Outcome, Db))
    ensures out.0 == Fail(NotFound(Thread)) <==> thread !in db.threads
    ensures out.0 == Fail(NotFound(Comment)) <==> thread in db.threads && comment !in db.comments
    ensures out.0 == Fail(Forbidden(Comment)) <==>
              thread in db.threads && comment in db.comments && db.comments[comment].owner != user
    ensures out.0 == Pass <==>
              thread in db.threads && comment in db.comments && db.comments[comment].owner == user
    ensures out.0.Fail? ==> out.1 == db
    ensures out.0.Pass? ==>
              && comment in out.1.comments && IsDeleted(out.1.comments[comment].isDelete)
              && out.1.comments[comment].(isDelete := db.comments[comment].isDelete) == db.comments[comment]
              && out.1.comments.Keys == db.comments.Keys
              && (forall k :: k in db.comments && k != comment ==> out.1.comments[k] == db.comments[k])
              && OnlyCommentsDiffer(db, out.1)
    ensures Constraints(db) ==> Constraints(out.1)
    ensures LikeCountsMatch(db) ==> LikeCountsMatch(out.1)
  {
    if thread !in db.threads then (Fail(NotFound(Thread)), db)
    else if comment !in db.comments then (Fail(NotFound(Comment)), db)
    else if db.comments[comment].owner != user then (Fail(Forbidden(Comment)), db)
    else (Pass, SoftDeleteComment(db, comment))
  }

  /** Deleting again as the owner succeeds and changes nothing more. */
  lemma DeleteCommentIdempotent(db: Db, thread: Id, comment: Id, user: Id)
    requires DeleteComment(db, thread, comment, user).0.Pass?
    ensures var after := DeleteComment(db, thread, comment, user).1;
            DeleteComment(after, thread, comment, user) == (Pass, after)
  {
    var after := DeleteComment(db, thread, comment, user).1;
    assert after.comments[comment := after.comments[comment].(isDelete := TrueFlag)] == after.comments;
  }

  // --------------------------------------------------------- DeleteReply

  function DeleteReply(db: Db, thread: Id, comment: Id, reply: Id, user: Id): (out: (Outcome, Db))
    ensures out.0 == Fail(NotFound(Thread)) <==> thread !in db.threads
    ensures out.0 == Fail(NotFound(Comment)) <==> thread in db.threads && comment !in db.comments
    ensures out.0 == Fail(NotFound(Reply)) <==>
              thread in db.threads && comment in db.comments && reply !in db.replies
    ensures out.0 == Fail(Forbidden(Reply)) <==>
              && thread in db.threads && comment in db.comments && reply in db.replies
              && db.replies[reply].owner != user
    ensures out.0 == Pass <==>
              && thread in db.threads && comment in db.comments && reply in db.replies
              && db.replies[reply].owner == user
    ensures out.0.Fail? ==> out.1 == db
    ensures out.0.Pass? ==>
              && reply in out.1.replies && IsDeleted(out.1.replies[reply].isDelete)
              && out.1.replies[reply].(isDelete := db.replies[reply].isDelete) == db.replies[reply]
              && out.1.replies.Keys == db.replies.Keys
              && (forall k :: k in db.replies && k != reply ==> out.1.replies[k] == db.replies[k])
              && OnlyRepliesDiffer(db, out.1)
    ensures Constraints(db) ==> Constraints(out.1)
    ensures LikeCountsMatch(db) ==> LikeCountsMatch(out.1)
  {
    if thread !in db.threads then (Fail(NotFound(Thread)), db)
    else if comment !in db.comments then (Fail(NotFound(Comment)), db)
    else if reply !in db.replies then (Fail(NotFound(Reply)), db)
    else if db.replies[reply].owner != user then (Fail(Forbidden(Reply)), db)
    else (Pass, SoftDeleteReply(db, reply))
  }

  /** Deleting a reply again as its owner succeeds and changes nothing more. */
  lemma DeleteReplyIdempotent(db: Db, thread: Id, comment: Id, reply: Id, user: Id)
    requires DeleteReply(db, thread, comment, reply, user).0.Pass?
    ensures var after := DeleteReply(db, thread, comment, reply, user).1;
            DeleteReply(after, thread, comment, reply, user) == (Pass, after)
  {
    var after := DeleteReply(db, thread, comment, reply, user).1;
    assert after.replies[reply := after.replies[reply].(isDelete := TrueFlag)] == after.replies;
  }

  // --------------------------------------------------------- LikeComment

  /** The toggle: an absent like is inserted and the counter incremented; a
      present like is deleted and the counter decremented. */
  function LikeComment(db: Db, thread: Id, comment: Id, user: Id): (out: (Outcome, Db))
    ensures thread !in db.threads ==> out == (Fail(NotFound(Thread)), db)
    ensures thread in db.threads && comment !in db.comments ==> out == (Fail(NotFound(Comment)), db)
    ensures out.0.Fail? ==> out.1 == db
    ensures thread in db.threads && comment in db.comments && Like(comment, user) !in db.likes ==>
              if user in db.users then
                && out.0 == Pass
                && out.1.likes == db.likes + {Like(comment, user)}
                && LikeCountShifted(db.comments, out.1.comments, comment, 1)
                && out.1.threads == db.threads && out.1.replies == db.replies && out.1.users == db.users
              else out == (Fail(Constraint(ForeignKey)), db)
    ensures thread in db.threads && comment in db.comments && Like(comment, user) in db.likes ==>
              && out.0 == Pass
              && out.1.likes == db.likes - {Like(comment, user)}
              && LikeCountShifted(db.comments, out.1.comments, comment, -1)
              && out.1.threads == db.threads && out.1.replies == db.replies && out.1.users == db.users
    ensures Constraints(db) ==> Constraints(out.1)
  {
    if thread !in db.threads then (Fail(NotFound(Thread)), db)
    else if comment !in db.comments then (Fail(NotFound(Comment)), db)
    else if Like(comment, user) !in db.likes then
      var inserted := InsertLike(db, comment, user);
      if inserted.0.Fail? then inserted
      else (Pass, IncreaseLikeCount(inserted.1, comment))
    else (Pass, DecreaseLikeCount(DeleteLike(db, comment, user), comment))
  }

  /** Liking twice restores both the like rows and every counter. */
  lemma LikeTwiceRestores(db: Db, thread: Id, comment: Id, user: Id)
    requires Constraints(db)
    requires LikeComment(db, thread, comment, user).0.Pass?
    ensures var once := LikeComment(db, thread, comment, user).1;
            LikeComment(once, thread, comment, user) == (Pass, db)
  {
    if Like(comment, user) in db.likes {
      UnlikeThenLike(db, thread, comment, user);
    } else {
      LikeThenUnlike(db, thread, comment, user);
    }
  }

  lemma LikeThenUnlike(db: Db, thread: Id, comment: Id, user: Id)
    requires thread in db.threads && comment in db.comments && Like(comment, user) !in db.likes
    requires user in db.users
    ensures LikeComment(LikeComment(db, thread, comment, user).1, thread, comment, user) == (Pass, db)
  {
    var l := Like(comment, user);
    var row := db.comments[comment];
    var d1 := db.(likes := db.likes + {l});
    var once := d1.(comments := d1.comments[comment := row.(likeCount := row.likeCount + 1)]);
    assert LikeComment(db, thread, comment, user) == (Pass, once);
    var d2 := once.(likes := once.likes - {l});
    assert d2.likes == db.likes;
    var twice := d2.(comments := d2.comments[comment := row]);
    assert LikeComment(once, thread, comment, user) == (Pass, twice);
    assert twice.comments == db.comments;
  }

  lemma UnlikeThenLike(db: Db, thread: Id, comment: Id, user: Id)
    requires thread in db.threads && comment in db.comments && Like(comment, user) in db.likes
    requires user in db.users
    ensures LikeComment(LikeComment(db, thread, comment, user).1, thread, comment, user) == (Pass, db)
  {
    var l := Like(comment, user);
    var row := db.comments[comment];
    var d1 := db.(likes := db.likes - {l});
    var once := d1.(comments := d1.comments[comment := row.(likeCount := row.likeCount - 1)]);
    assert LikeComment(db, thread, comment, user) == (Pass, once);
    var d2 := once.(likes := once.likes + {l});
    assert d2.likes == db.likes;
    var twice := d2.(comments := d2.comments[comment := row]);
    assert LikeComment(once, thread, comment, user) == (Pass, twice);
    assert twice.comments == db.comments;
  }

  /** The toggle keeps every `like_count` equal to its comment's number of like
      rows, so no counter goes negative. */
  lemma LikeKeepsCountsConsistent(db: Db, thread: Id, comment: Id, user: Id)
    requires Constraints(db) && LikeCountsMatch(db)
    ensures var after := LikeComment(db, thread, comment, user).1;
            LikeCountsMatch(after)
            && forall id :: id in after.comments ==> after.comments[id].likeCount >= 0
  {
    var l := Like(comment, user);
    var out := LikeComment(db, thread, comment, user);
    var after := out.1;
    if out.0.Pass? {
      if l in db.likes {
        LikersRemove(db.likes, l);
        assert after.likes == db.likes - {l};
      } else {
        LikersInsert(db.likes, l);
        assert after.likes == db.likes + {l};
      }
      forall id | id in after.comments
        ensures after.comments[id].likeCount == |Likers(after.likes, id)|
      {
        if id != comment {
          assert after.comments[id] == db.comments[id];
        }
      }
    }
  }
}
