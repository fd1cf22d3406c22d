/** Values shared by the forum's tables, repositories and use cases. */
module Domain {

  /** Identifiers are opaque strings such as "thread-123" or "user-123". */
  type Id = string

  /** A timestamp. The repositories stamp rows with `new Date()`; here the
      caller supplies it as an integer. */
  type Date = int

  /** The nullable boolean column `is_delete`: NULL on a fresh row, TRUE once
      the row is soft-deleted. FALSE can only come from elsewhere (fixtures). */
  datatype Flag = NullFlag | FalseFlag | TrueFlag

  /** JavaScript truthiness of `is_delete`: NULL and FALSE both read as "not deleted". */
  predicate IsDeleted(f: Flag) {
    f == TrueFlag
  }

  /** A row of table `threads` (its key is the thread id). */
  datatype ThreadRow = ThreadRow(title: string, body: string, date: Date, owner: Id)

  /** A row of table `comments`; `likeCount` is the cached column `like_count`. */
  datatype CommentRow = CommentRow(content: string, date: Date, thread: Id, owner: Id,
                                   isDelete: Flag, likeCount: int)

  /** A row of table `replies`. */
  datatype ReplyRow = ReplyRow(content: string, date: Date, comment: Id, owner: Id, isDelete: Flag)

  /** A row of table `comments_likes`, which is UNIQUE on (comment, owner). */
  datatype Like = Like(comment: Id, owner: Id)

  /** The projections returned by the insert operations. */
  datatype AddedThread = AddedThread(id: Id, title: string, owner: Id)
  datatype AddedComment = AddedComment(id: Id, content: string, owner: Id)
  datatype AddedReply = AddedReply(id: Id, content: string, owner: Id)

  datatype Resource = Thread | Comment | Reply

  /** The two ways an input payload can be malformed. */
  datatype Violation = MissingProperty | WrongType

  /** The storage constraints an INSERT can violate. */
  datatype ConstraintKind = PrimaryKey | ForeignKey | Unique

  datatype Err =
    | NotFound(resource: Resource)
    | Forbidden(resource: Resource)
    | Invalid(entity: Resource, violation: Violation)
    | Constraint(kind: ConstraintKind)

  datatype Result<T> = Success(value: T) | Failure(error: Err)

  datatype Outcome = Pass | Fail(error: Err)

  datatype Option<T> = None | Some(value: T)

  /** The message a domain error carries to the client. Constraint violations
      are not domain errors: they surface as opaque server errors. No operation
      raises Forbidden(Thread), so it has no message. */
  function Message(e: Err): string
    requires !e.Constraint? && e != Forbidden(Thread)
  {
    match e
    case NotFound(Thread) => "thread tidak ditemukan"
    case NotFound(Comment) => "comment tidak ditemukan"
    case NotFound(Reply) => "reply tidak ditemukan"
    case Forbidden(Comment) => "tidak memiliki hak untuk mengakses comment"
    case Forbidden(Reply) => "tidak memiliki hak untuk mengakses reply"
    case Invalid(Thread, MissingProperty) => "tidak dapat membuat thread baru karena properti yang dibutuhkan tidak ada"
    case Invalid(Thread, WrongType) => "tidak dapat membuat thread baru karena tipe data tidak sesuai"
    case Invalid(Comment, MissingProperty) => "tidak dapat membuat comment baru karena properti yang dibutuhkan tidak ada"
    case Invalid(Comment, WrongType) => "tidak dapat membuat comment baru karena tipe data tidak sesuai"
    case Invalid(Reply, MissingProperty) => "tidak dapat membuat reply baru karena properti yang dibutuhkan tidak ada"
    case Invalid(Reply, WrongType) => "tidak dapat membuat reply baru karena tipe data tidak sesuai"
  }
}
