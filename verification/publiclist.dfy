/**
 * The public read path: GET /api/public (filtered list) and GET /api/public/:id (detail).
 * Both build a row from a public note, its category, its owner and the rating ledger; the
 * detail selects `n.*` and so carries three more note columns than the list.
 */
module PublicList {
  import opened Wrappers
  import opened Js
  import opened Schema
  import Seqs
  import Display
  import Ratings
  import Comments

  /** The optional query filters: an author substring ("" for none) and inclusive day bounds. */
  datatype Filters = Filters(author: string, dateFrom: Option<int>, dateTo: Option<int>)

  /** `value LIKE '%pattern%'`: a substring match under SQLite's ASCII case folding. */
  predicate Like(value: string, pattern: string) {
    Includes(AsciiLower(value), AsciiLower(pattern))
  }

  /** The WHERE clause of the list query: public, author filter on email OR alias, day bounds. */
  predicate Listed(db: Db, f: Filters, n: Note) {
    && n.isPublic == 1
    && (f.author == "" ||
        match FindUser(db, n.userId)
        case Some(u) => Like(u.email, f.author) || Like(u.aka, f.author)
        case None => false)
    && (f.dateFrom.None? || Day(n.createdAt) >= f.dateFrom.value)
    && (f.dateTo.None? || Day(n.createdAt) <= f.dateTo.value)
  }

  function ListedBy(db: Db, f: Filters): Note -> bool {
    (n: Note) => Listed(db, f, n)
  }

  /**
   * One row of the public read path, as the handlers send it: the note's columns, the category
   * name, the joined owner columns, the two counts, the resolved author and the viewer's rating.
   */
  datatype PublicNote = PublicNote(
    id: Id, title: string, text: string, imageUrl: Option<string>, createdAt: int, isAnonymous: int,
    categoryName: Option<string>,
    userEmail: Option<string>, userAka: Option<string>, akaPublic: Option<int>,
    likes: nat, dislikes: nat, displayAuthor: Option<string>, userRating: Option<int>)

  /** The row for note `n`; `viewer` is the id of a valid token, None without one. */
  function Row(db: Db, n: Note, viewer: Option<Id>): (r: PublicNote)
    ensures r.id == n.id && r.createdAt == n.createdAt
    ensures r.displayAuthor == Display.NoteAuthor(n, FindUser(db, n.userId))
    ensures r.likes == Ratings.Likes(db.ratings, n.id) && r.dislikes == Ratings.Dislikes(db.ratings, n.id)
    ensures viewer.None? ==> r.userRating.None?
    ensures viewer.Some? ==> r.userRating == Ratings.UserRating(db.ratings, n.id, viewer.value)
  {
    var owner := FindUser(db, n.userId);
    PublicNote(
      n.id, n.title, n.text, n.imageUrl, n.createdAt, n.isAnonymous,
      CategoryName(db, n.categoryId),
      if owner.Some? then Some(owner.value.email) else None,
      if owner.Some? then Some(owner.value.aka) else None,
      if owner.Some? then Some(owner.value.akaPublic) else None,
      Ratings.Likes(db.ratings, n.id), Ratings.Dislikes(db.ratings, n.id),
      Display.NoteAuthor(n, owner),
      if viewer.Some? then Ratings.UserRating(db.ratings, n.id, viewer.value) else None)
  }

  function Newest(n: Note): Seqs.Key {
    Seqs.Key(-n.createdAt, -(n.id as int))
  }

  function Rows(db: Db, s: seq<Note>, viewer: Option<Id>): (r: seq<PublicNote>)
    ensures |r| == |s|
    ensures forall i :: 0 <= i < |s| ==> r[i] == Row(db, s[i], viewer)
  {
    seq(|s|, i requires 0 <= i < |s| => Row(db, s[i], viewer))
  }

  /** The notes the list query selects, in its order (newest first, later id first on a tie). */
  function Selected(db: Db, f: Filters): seq<Note> {
    Seqs.SortBy(Seqs.Filter(db.notes, ListedBy(db, f)), Newest)
  }

  /**
   * GET /api/public: a row for exactly the notes that are public and pass the filters, newest
   * first. Nothing private is ever listed.
   */
  function List(db: Db, f: Filters, viewer: Option<Id>): (r: seq<PublicNote>)
    ensures |r| == |Seqs.Filter(db.notes, ListedBy(db, f))|
    ensures forall v :: v in r ==> exists n :: n in db.notes && Listed(db, f, n) && v == Row(db, n, viewer)
    ensures forall n :: n in db.notes && Listed(db, f, n) ==> Row(db, n, viewer) in r
    ensures forall i, j :: 0 <= i < j < |r| ==> r[i].createdAt >= r[j].createdAt
  {
    ListFacts(db, f, viewer);
    Rows(db, Selected(db, f), viewer)
  }

  lemma ListFacts(db: Db, f: Filters, viewer: Option<Id>)
    ensures var s := Selected(db, f); var r := Rows(db, s, viewer);
      && (forall v :: v in r ==> exists n :: n in db.notes && Listed(db, f, n) && v == Row(db, n, viewer))
      && (forall n :: n in db.notes && Listed(db, f, n) ==> Row(db, n, viewer) in r)
      && (forall i, j :: 0 <= i < j < |r| ==> r[i].createdAt >= r[j].createdAt)
  {
    var mine := Seqs.Filter(db.notes, ListedBy(db, f));
    var s := Selected(db, f);
    Seqs.SortByMembers(mine, Newest);
    var r := Rows(db, s, viewer);
    forall v | v in r ensures exists n :: n in db.notes && Listed(db, f, n) && v == Row(db, n, viewer) {
      var k :| 0 <= k < |r| && r[k] == v;
      assert s[k] in mine;
    }
    forall n | n in db.notes && Listed(db, f, n) ensures Row(db, n, viewer) in r {
      var k :| 0 <= k < |s| && s[k] == n;
      assert r[k] == Row(db, n, viewer);
    }
    forall i, j | 0 <= i < j < |r| ensures r[i].createdAt >= r[j].createdAt {
      assert Seqs.KeyLe(Newest(s[i]), Newest(s[j]));
    }
  }

  /**
   * The detail answer: the list row's columns plus the rest of `n.*`, which the list query
   * does not name: `user_id`, `category_id` and `is_public`. `userId` is None when the key is
   * left out of the answer.
   */
  datatype DetailNote = DetailNote(row: PublicNote, userId: Option<Id>, categoryId: int, isPublic: int)

  /** The detail answer for note `n`, as the handler sends it. */
  function DetailOf(db: Db, n: Note, viewer: Option<Id>): DetailNote {
    DetailNote(Row(db, n, viewer), Some(n.userId), n.categoryId, n.isPublic)
  }

  /** GET /api/public/:id: the detail of a public note, 404 for a missing or private one. */
  function Detail(db: Db, id: Id, viewer: Option<Id>): (r: Result<DetailNote, Error>)
    ensures r.Err? <==> !exists n :: n in db.notes && n.id == id && n.isPublic == 1
    ensures r.Err? ==> r.error == NotFound
    ensures r.Ok? ==> exists n :: n in db.notes && n.id == id && n.isPublic == 1 && r.value == DetailOf(db, n, viewer)
    ensures r.Ok? ==> r.value.isPublic == 1 && r.value.row.id == id && r.value.userId.Some?
  {
    match FindNote(db, Ratings.IsPublicNote(id))
    case None => Err(NotFound)
    case Some(n) => Ok(DetailOf(db, n, viewer))
  }

  /**
   * The list and the detail handler agree on every column the list sends, author name
   * included; the detail adds the note's owner id, category id and public flag.
   */
  lemma ListAgreesWithDetail(db: Db, f: Filters, viewer: Option<Id>, v: PublicNote)
    requires Wf(db)
    requires v in List(db, f, viewer)
    ensures Detail(db, v.id, viewer).Ok?
    ensures Detail(db, v.id, viewer).value.row == v
    ensures exists n :: n in db.notes && n.id == v.id && Listed(db, f, n) && Detail(db, v.id, viewer).value.userId == Some(n.userId)
  {
    var n :| n in db.notes && Listed(db, f, n) && v == Row(db, n, viewer);
    SameIdSameNote(db, n);
    assert Ratings.IsPublicNote(n.id)(n);
  }

  /** Ids are unique, so the detail lookup of a public note's id finds that note. */
  lemma SameIdSameNote(db: Db, n: Note)
    requires Wf(db)
    requires n in db.notes && n.isPublic == 1
    ensures FindNote(db, Ratings.IsPublicNote(n.id)) == Some(n)
  {
    var found := FindNote(db, Ratings.IsPublicNote(n.id));
    assert Ratings.IsPublicNote(n.id)(n);
    var m := found.value;
    var i :| 0 <= i < |db.notes| && db.notes[i] == m;
    var j :| 0 <= j < |db.notes| && db.notes[j] == n;
    assert NoteKey(db.notes[i]) == NoteKey(db.notes[j]);
  }

  /** No row of the list belongs to a private note. */
  lemma NothingPrivateListed(db: Db, f: Filters, viewer: Option<Id>, v: PublicNote, n: Note)
    requires Wf(db)
    requires v in List(db, f, viewer)
    requires n in db.notes && n.id == v.id
    ensures n.isPublic == 1
  {
    var m :| m in db.notes && Listed(db, f, m) && v == Row(db, m, viewer);
    var i :| 0 <= i < |db.notes| && db.notes[i] == m;
    var j :| 0 <= j < |db.notes| && db.notes[j] == n;
    assert NoteKey(db.notes[i]) == NoteKey(db.notes[j]);
  }

  /** With and without a token the list holds the same rows in the same order; only the
      viewer's own rating is added. */
  lemma ViewerOnlyAddsRating(db: Db, f: Filters, u: Id)
    ensures |List(db, f, Some(u))| == |List(db, f, None)|
    ensures forall i :: 0 <= i < |List(db, f, None)| ==>
      List(db, f, Some(u))[i] == List(db, f, None)[i].(userRating := Ratings.UserRating(db.ratings, List(db, f, None)[i].id, u))
  {
  }

  // ---- Finding: the identity of an anonymous note's author is sent to every reader ----

  /** As written, the row of an anonymous note still carries the owner's email and alias. */
  lemma AnonymousRowLeaksEmail(db: Db, n: Note, viewer: Option<Id>, u: User)
    requires n.isAnonymous != 0
    requires FindUser(db, n.userId) == Some(u)
    ensures Row(db, n, viewer).displayAuthor == Some(Display.Anonymous)
    ensures Row(db, n, viewer).userEmail == Some(u.email)
    ensures Row(db, n, viewer).userAka == Some(u.aka)
  {
  }

  /** Two stores differing only in the owner's email give different rows for the same anonymous note. */
  lemma AnonymousRowDependsOnOwner(db: Db, n: Note, u: User, otherEmail: string)
    requires n.isAnonymous != 0
    requires db.users == [u] && u.id == n.userId && otherEmail != u.email
    ensures Row(db, n, None) != Row(db.(users := [u.(email := otherEmail)]), n, None)
  {
    var db2 := db.(users := [u.(email := otherEmail)]);
    assert FindUser(db2, n.userId) == Some(u.(email := otherEmail));
  }

  /** The intended row: the owner columns are dropped whenever the note is anonymous. */
  function Redact(p: PublicNote): (r: PublicNote)
    ensures p.isAnonymous != 0 ==> r.userEmail.None? && r.userAka.None? && r.akaPublic.None?
    ensures p.isAnonymous == 0 ==> r == p
    ensures r == p.(userEmail := r.userEmail, userAka := r.userAka, akaPublic := r.akaPublic)
  {
    if p.isAnonymous != 0 then p.(userEmail := None, userAka := None, akaPublic := None) else p
  }

  /**
   * The redacted row of an anonymous note is the same whoever owns the note and whatever the
   * users table holds.
   */
  lemma RedactedRowHidesOwner(db: Db, n: Note, viewer: Option<Id>, users: seq<User>, owner: Id)
    requires n.isAnonymous != 0
    ensures Redact(Row(db, n, viewer)) == Redact(Row(db.(users := users), n.(userId := owner), viewer))
  {
  }

  /** The list with every anonymous row redacted. */
  function SafeList(db: Db, f: Filters, viewer: Option<Id>): (r: seq<PublicNote>)
    ensures |r| == |List(db, f, viewer)|
    ensures forall v :: v in r && v.isAnonymous != 0 ==> v.userEmail.None? && v.userAka.None?
    ensures forall i :: 0 <= i < |r| ==> r[i] == Redact(List(db, f, viewer)[i])
  {
    var l := List(db, f, viewer);
    seq(|l|, i requires 0 <= i < |l| => Redact(l[i]))
  }

  // ---- Finding: the detail of an anonymous note names its owner through `user_id` ----

  /**
   * As written, the detail of an anonymous note carries its owner's id, and the comment listing
   * of any note pairs that same id with the owner's display name: one comment by the owner
   * anywhere is enough to name the author of the anonymous note.
   */
  lemma AnonymousDetailNamesOwner(db: Db, n: Note, viewer: Option<Id>, c: Comment)
    requires Wf(db)
    requires n in db.notes && n.isPublic == 1 && n.isAnonymous != 0
    requires c in db.comments && c.userId == n.userId
    ensures Detail(db, n.id, viewer).Ok?
    ensures Detail(db, n.id, viewer).value.row.displayAuthor == Some(Display.Anonymous)
    ensures Detail(db, n.id, viewer).value.userId == Some(n.userId)
    ensures exists v :: (v in Comments.List(db, c.noteId) && Some(v.userId) == Detail(db, n.id, viewer).value.userId
      && v.displayAuthor == Display.CommentAuthor(FindUser(db, n.userId)))
  {
    SameIdSameNote(db, n);
    assert Comments.ViewOf(db, c) in Comments.List(db, c.noteId);
  }

  /** The intended detail: the redacted row, and no owner id when the note is anonymous. */
  function RedactDetail(d: DetailNote): (r: DetailNote)
    ensures d.row.isAnonymous != 0 ==> r.userId.None? && r.row.userEmail.None? && r.row.userAka.None? && r.row.akaPublic.None?
    ensures d.row.isAnonymous == 0 ==> r == d
    ensures r.row.displayAuthor == d.row.displayAuthor && r.row.id == d.row.id && r.categoryId == d.categoryId && r.isPublic == d.isPublic
  {
    if d.row.isAnonymous != 0 then d.(row := Redact(d.row), userId := None) else d
  }

  /** GET /api/public/:id with the owner's identity withheld from anonymous notes. */
  function SafeDetail(db: Db, id: Id, viewer: Option<Id>): (r: Result<DetailNote, Error>)
    ensures r.Err? <==> Detail(db, id, viewer).Err?
    ensures r.Err? ==> r.error == NotFound
    ensures r.Ok? ==> r.value == RedactDetail(Detail(db, id, viewer).value)
    ensures r.Ok? && r.value.row.isAnonymous != 0 ==> r.value.userId.None? && r.value.row.userEmail.None?
  {
    match Detail(db, id, viewer)
    case Err(e) => Err(e)
    case Ok(d) => Ok(RedactDetail(d))
  }

  /**
   * The corrected detail of an anonymous note is the same whoever owns it and whatever the
   * users table holds: nothing in it leads back to the author.
   */
  lemma RedactedDetailHidesOwner(db: Db, n: Note, viewer: Option<Id>, users: seq<User>, owner: Id)
    requires n.isAnonymous != 0
    ensures RedactDetail(DetailOf(db, n, viewer)) == RedactDetail(DetailOf(db.(users := users), n.(userId := owner), viewer))
  {
  }

  /** The corrected list and the corrected detail agree on every listed row. */
  lemma SafeListAgreesWithSafeDetail(db: Db, f: Filters, viewer: Option<Id>, i: nat)
    requires Wf(db)
    requires i < |SafeList(db, f, viewer)|
    ensures SafeDetail(db, SafeList(db, f, viewer)[i].id, viewer).Ok?
    ensures SafeDetail(db, SafeList(db, f, viewer)[i].id, viewer).value.row == SafeList(db, f, viewer)[i]
  {
    var v := List(db, f, viewer)[i];
    ListAgreesWithDetail(db, f, viewer, v);
  }
}
