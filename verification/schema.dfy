/**
 * The SQLite store behind the REST handlers: the five tables created at start-up
 * (users, categories, notes, note_ratings, note_comments), each as a sequence of rows in
 * insertion order, with the AUTOINCREMENT counter of each table.
 */
module Schema {
  import opened Wrappers
  import Seqs

  /** Row ids handed out by AUTOINCREMENT: 1, 2, 3, … and never reused. */
  type Id = nat

  /** `users`: the password column holds an opaque bcrypt hash; `aka_public` is stored as 0/1. */
  datatype User = User(id: Id, email: string, passwordHash: string, aka: string, akaPublic: int, createdAt: int)

  /** `categories`: names are UNIQUE. */
  datatype Category = Category(id: Id, name: string)

  /** `notes`: `category_id` is not kept in step with `categories` (no foreign-key enforcement),
      the two flags are written as 0/1 and `image_url` is NULL until an image is attached. */
  datatype Note = Note(
    id: Id, userId: Id, title: string, text: string, categoryId: int,
    isPublic: int, isAnonymous: int, imageUrl: Option<string>, createdAt: int)

  /** `note_ratings`: `rating` is CHECKed to be 1 or -1 and (note_id, user_id) is UNIQUE. */
  datatype Rating = Rating(id: Id, noteId: Id, userId: Id, value: int)

  /** `note_comments`. */
  datatype Comment = Comment(id: Id, noteId: Id, userId: Id, text: string, createdAt: int)

  datatype Db = Db(
    users: seq<User>, categories: seq<Category>, notes: seq<Note>,
    ratings: seq<Rating>, comments: seq<Comment>,
    nextUserId: Id, nextCategoryId: Id, nextNoteId: Id, nextRatingId: Id, nextCommentId: Id)

  /** Why a request was answered with 400. */
  datatype Reason =
    | MissingFields | TooLong | LongTitle | LongText | PasswordTooShort | UserExists
    | MissingName | NameTooLong | CategoryExists | InvalidCategory
    | InvalidRating | InvalidComment | ImageTooLarge | ImageType | NoImage

  /** The error answers of the handlers. */
  datatype Error = BadRequest(reason: Reason) | NotFound | Forbidden

  function Status(e: Error): int {
    match e
    case BadRequest(_) => 400
    case NotFound => 404
    case Forbidden => 403
  }

  const SecondsPerDay := 86400

  /** SQLite's `date(created_at)`, with timestamps counted in seconds: the calendar day. */
  function Day(t: int): int {
    t / SecondsPerDay
  }

  /** The categories inserted at start-up: Personal, Trabajo, Ideas, Otros. */
  function Initial(): Db {
    Db([], [Category(1, "Personal"), Category(2, "Trabajo"), Category(3, "Ideas"), Category(4, "Otros")],
       [], [], [], 1, 5, 1, 1, 1)
  }

  // Keys of the UNIQUE constraints.
  function UserKey(u: User): Id { u.id }
  function EmailKey(u: User): string { u.email }
  function CategoryKey(c: Category): Id { c.id }
  function NameKey(c: Category): string { c.name }
  function NoteKey(n: Note): Id { n.id }
  function RatingKey(r: Rating): Id { r.id }
  function PairKey(r: Rating): (Id, Id) { (r.noteId, r.userId) }
  function CommentKey(c: Comment): Id { c.id }

  predicate IsFlag(v: int) { v == 0 || v == 1 }
  predicate IsVote(v: int) { v == 1 || v == -1 }

  ghost predicate UsersWf(db: Db) {
    && (forall u :: u in db.users ==> 0 < u.id < db.nextUserId && IsFlag(u.akaPublic))
    && Seqs.UniqueBy(db.users, UserKey)
    && Seqs.UniqueBy(db.users, EmailKey)
  }

  ghost predicate CategoriesWf(db: Db) {
    && (forall c :: c in db.categories ==> 0 < c.id < db.nextCategoryId)
    && Seqs.UniqueBy(db.categories, CategoryKey)
    && Seqs.UniqueBy(db.categories, NameKey)
  }

  ghost predicate NotesWf(db: Db) {
    && (forall n :: n in db.notes ==> 0 < n.id < db.nextNoteId && IsFlag(n.isPublic) && IsFlag(n.isAnonymous))
    && Seqs.UniqueBy(db.notes, NoteKey)
  }

  ghost predicate RatingsWf(db: Db) {
    && (forall r :: r in db.ratings ==> 0 < r.id < db.nextRatingId && IsVote(r.value))
    && Seqs.UniqueBy(db.ratings, RatingKey)
    && Seqs.UniqueBy(db.ratings, PairKey)
  }

  ghost predicate CommentsWf(db: Db) {
    && (forall c :: c in db.comments ==> 0 < c.id < db.nextCommentId)
    && Seqs.UniqueBy(db.comments, CommentKey)
  }

  /** What the schema and the handlers together keep true of every reachable store. */
  ghost predicate Wf(db: Db) {
    && db.nextUserId > 0 && db.nextCategoryId > 0 && db.nextNoteId > 0 && db.nextRatingId > 0 && db.nextCommentId > 0
    && UsersWf(db) && CategoriesWf(db) && NotesWf(db) && RatingsWf(db) && CommentsWf(db)
  }

  lemma InitialWf()
    ensures Wf(Initial())
  {
  }

  /** The row `SELECT … FROM users WHERE id = ?` returns. */
  function FindUser(db: Db, id: Id): (r: Option<User>)
    ensures r.Some? ==> r.value in db.users && r.value.id == id
    ensures r.None? ==> forall u :: u in db.users ==> u.id != id
  {
    Seqs.Find(db.users, (u: User) => u.id == id)
  }

  /** The row `SELECT … FROM categories WHERE id = ?` returns. */
  function FindCategory(db: Db, id: int): (r: Option<Category>)
    ensures r.Some? ==> r.value in db.categories && r.value.id == id
    ensures r.None? ==> forall c :: c in db.categories ==> c.id != id
  {
    Seqs.Find(db.categories, (c: Category) => c.id == id)
  }

  /** The name a LEFT JOIN on `categories` attaches to a note (NULL for a deleted category). */
  function CategoryName(db: Db, id: int): Option<string> {
    match FindCategory(db, id)
    case Some(c) => Some(c.name)
    case None => None
  }

  /** The row `SELECT … FROM notes WHERE id = ? AND <cond>` returns. */
  function FindNote(db: Db, p: Note -> bool): (r: Option<Note>)
    ensures r.Some? ==> r.value in db.notes && p(r.value)
    ensures r.None? ==> forall n :: n in db.notes ==> !p(n)
  {
    Seqs.Find(db.notes, p)
  }
}
