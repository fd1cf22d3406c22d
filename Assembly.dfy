/** The nested thread view that GetThread returns, how it is rendered from the
    repository listings, and what it must show of the tables. */
module Assembly {
  import opened Domain
  import opened Store

  const CommentTombstone: string := "**komentar telah dihapus**"
  const ReplyTombstone: string := "**balasan telah dihapus**"

  /** {id, content, date, username}: neither `is_delete` nor `owner` is shown. */
  datatype ReplyView = ReplyView(id: Id, content: string, date: Date, username: string)

  /** {id, username, date, replies, content}. There is no like count. */
  datatype CommentView = CommentView(id: Id, username: string, date: Date,
                                     replies: seq<ReplyView>, content: string)

  /** {id, title, body, date, username, comments}. */
  datatype ThreadView = ThreadView(id: Id, title: string, body: string, date: Date,
                                   username: string, comments: seq<CommentView>)

  // ------------------------------------------------------------- rendering

  /** `!is_delete ? content : tombstone`: NULL and FALSE both show the content. */
  function Visible(content: string, f: Flag, tombstone: string): string {
    if !IsDeleted(f) then content else tombstone
  }

  function RenderReply(e: ListedReply): ReplyView {
    ReplyView(e.id, Visible(e.row.content, e.row.isDelete, ReplyTombstone), e.row.date, e.username)
  }

  /** `commentReplies.map(...)`: one view per listed reply, in the listing's order. */
  function RenderReplies(rows: seq<ListedReply>): seq<ReplyView> {
    seq(|rows|, i requires 0 <= i < |rows| => RenderReply(rows[i]))
  }

  function RenderComment(e: ListedComment, replies: seq<ReplyView>): CommentView {
    CommentView(e.id, e.username, e.row.date, replies,
                Visible(e.row.content, e.row.isDelete, CommentTombstone))
  }

  function RenderThread(d: ThreadDetail, comments: seq<CommentView>): ThreadView {
    ThreadView(d.id, d.row.title, d.row.body, d.row.date, d.username, comments)
  }

  // ------------------------------------------- what the view must show

  function ReplyViewIds(vs: seq<ReplyView>): set<Id> {
    set i | 0 <= i < |vs| :: vs[i].id
  }

  function CommentViewIds(vs: seq<CommentView>): set<Id> {
    set i | 0 <= i < |vs| :: vs[i].id
  }

  /** `v` shows a reply to comment `c`: its date, its owner's username, and its
      content unless it is soft-deleted, in which case the reply tombstone. */
  predicate ReplyShown(db: Db, c: Id, v: ReplyView) {
    && v.id in db.replies
    && var row := db.replies[v.id];
       && row.comment == c && v.date == row.date
       && row.owner in db.users && v.username == db.users[row.owner]
       && (IsDeleted(row.isDelete) ==> v.content == ReplyTombstone)
       && (!IsDeleted(row.isDelete) ==> v.content == row.content)
  }

  /** Every reply of comment `c` exactly once, soft-deleted ones included, in
      non-decreasing date order. */
  predicate RepliesShown(db: Db, c: Id, vs: seq<ReplyView>) {
    && (forall i :: 0 <= i < |vs| ==> ReplyShown(db, c, vs[i]))
    && (forall i, j :: 0 <= i < j < |vs| ==> vs[i].date <= vs[j].date)
    && (forall i, j :: 0 <= i < j < |vs| ==> vs[i].id != vs[j].id)
    && ReplyViewIds(vs) == CommentReplyIds(db, c)
  }

  /** `v` shows a comment of thread `t` with its content or the comment
      tombstone, and that comment's replies. */
  predicate CommentShown(db: Db, t: Id, v: CommentView) {
    && v.id in db.comments
    && var row := db.comments[v.id];
       && row.thread == t && v.date == row.date
       && row.owner in db.users && v.username == db.users[row.owner]
       && (IsDeleted(row.isDelete) ==> v.content == CommentTombstone)
       && (!IsDeleted(row.isDelete) ==> v.content == row.content)
       && RepliesShown(db, v.id, v.replies)
  }

  /** Every comment of thread `t` exactly once, soft-deleted ones included, in
      non-decreasing date order. */
  predicate CommentsShown(db: Db, t: Id, vs: seq<CommentView>) {
    && (forall i :: 0 <= i < |vs| ==> CommentShown(db, t, vs[i]))
    && (forall i, j :: 0 <= i < j < |vs| ==> vs[i].date <= vs[j].date)
    && (forall i, j :: 0 <= i < j < |vs| ==> vs[i].id != vs[j].id)
    && CommentViewIds(vs) == ThreadCommentIds(db, t)
  }

  /** `v` is a faithful view of thread `t`. */
  predicate Presents(db: Db, t: Id, v: ThreadView) {
    && t in db.threads
    && var row := db.threads[t];
       && v.id == t && v.title == row.title && v.body == row.body && v.date == row.date
       && row.owner in db.users && v.username == db.users[row.owner]
       && CommentsShown(db, t, v.comments)
  }

  // ---------------------------------------------------- rendering is right

  /** Rendering a reply listing shows the comment's replies. */
  lemma RenderedRepliesShown(db: Db, c: Id, rows: seq<ListedReply>)
    requires IsReplyListing(db, c, rows)
    ensures RepliesShown(db, c, RenderReplies(rows))
  {
    var vs := RenderReplies(rows);
    forall i | 0 <= i < |vs| ensures ReplyShown(db, c, vs[i]) {
      assert JoinedReply(db, c, rows[i]);
    }
    assert ReplyViewIds(vs) == ListedReplyIds(rows) by {
      forall x | x in ListedReplyIds(rows) ensures x in ReplyViewIds(vs) {
        var i :| 0 <= i < |rows| && rows[i].id == x;
        assert vs[i].id == x;
      }
    }
  }

  /** One comment of a listing, rendered with replies that show its replies. */
  predicate CommentRendered(db: Db, e: ListedComment, v: CommentView) {
    v == RenderComment(e, v.replies) && RepliesShown(db, e.id, v.replies)
  }

  /** Rendering a comment listing one comment at a time, each with its own
      replies, shows the thread's comments. */
  lemma RenderedCommentsShown(db: Db, t: Id, rows: seq<ListedComment>, vs: seq<CommentView>)
    requires IsCommentListing(db, t, rows)
    requires |vs| == |rows| && forall i :: 0 <= i < |rows| ==> CommentRendered(db, rows[i], vs[i])
    ensures CommentsShown(db, t, vs)
  {
    forall i | 0 <= i < |vs| ensures CommentShown(db, t, vs[i]) {
      assert JoinedComment(db, t, rows[i]);
      assert CommentRendered(db, rows[i], vs[i]);
    }
    forall i, j | 0 <= i < j < |vs| ensures vs[i].date <= vs[j].date && vs[i].id != vs[j].id {
      assert CommentRendered(db, rows[i], vs[i]) && CommentRendered(db, rows[j], vs[j]);
    }
    assert CommentViewIds(vs) == ListedCommentIds(rows) by {
      forall x | x in ListedCommentIds(rows) ensures x in CommentViewIds(vs) {
        var i :| 0 <= i < |rows| && rows[i].id == x;
        assert CommentRendered(db, rows[i], vs[i]);
      }
      forall x | x in CommentViewIds(vs) ensures x in ListedCommentIds(rows) {
        var i :| 0 <= i < |vs| && vs[i].id == x;
        assert CommentRendered(db, rows[i], vs[i]);
      }
    }
  }

  // ------------------------------------------------- properties of a view

  /** A view drops no comment: it holds as many comments as the thread has. */
  lemma ViewCountsComments(db: Db, t: Id, v: ThreadView)
    requires Presents(db, t, v)
    ensures |v.comments| == |ThreadCommentIds(db, t)|
  {
    var id := (c: CommentView) => c.id;
    assert CommentViewIds(v.comments) == IdsOf(v.comments, id);
    DistinctIdsCardinality(v.comments, id);
  }

  /** A view drops no reply: each comment holds as many replies as it has. */
  lemma ViewCountsReplies(db: Db, t: Id, v: ThreadView, i: nat)
    requires Presents(db, t, v) && i < |v.comments|
    ensures |v.comments[i].replies| == |CommentReplyIds(db, v.comments[i].id)|
  {
    assert CommentShown(db, t, v.comments[i]);
    var rs := v.comments[i].replies;
    var id := (r: ReplyView) => r.id;
    assert ReplyViewIds(rs) == IdsOf(rs, id);
    DistinctIdsCardinality(rs, id);
  }

  /** A soft-deleted comment of the thread is still in the view, with the
      tombstone in place of its content. */
  lemma DeletedCommentStillShown(db: Db, t: Id, v: ThreadView, c: Id)
    requires Presents(db, t, v)
    requires c in db.comments && db.comments[c].thread == t && IsDeleted(db.comments[c].isDelete)
    ensures exists i :: 0 <= i < |v.comments| && v.comments[i].id == c
                        && v.comments[i].content == CommentTombstone
  {
    assert c in ThreadCommentIds(db, t);
    var i :| 0 <= i < |v.comments| && v.comments[i].id == c;
    assert CommentShown(db, t, v.comments[i]);
  }

  /** A soft-deleted reply of a comment of the thread is still in the view,
      with the tombstone in place of its content. */
  lemma DeletedReplyStillShown(db: Db, t: Id, v: ThreadView, r: Id)
    requires Presents(db, t, v)
    requires r in db.replies && IsDeleted(db.replies[r].isDelete)
    requires db.replies[r].comment in db.comments && db.comments[db.replies[r].comment].thread == t
    ensures exists i, j :: 0 <= i < |v.comments| && 0 <= j < |v.comments[i].replies|
                           && v.comments[i].replies[j].id == r
                           && v.comments[i].replies[j].content == ReplyTombstone
  {
    var c := db.replies[r].comment;
    assert c in ThreadCommentIds(db, t);
    var i :| 0 <= i < |v.comments| && v.comments[i].id == c;
    assert CommentShown(db, t, v.comments[i]);
    assert r in CommentReplyIds(db, c);
    var j :| 0 <= j < |v.comments[i].replies| && v.comments[i].replies[j].id == r;
    assert ReplyShown(db, c, v.comments[i].replies[j]);
  }
}
