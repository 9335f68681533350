/**
 * The owner-scoped note repository: create, update, delete, image attach and detach, the
 * owner's own listing and profile statistics. Every write filters on `id = ? AND user_id = ?`,
 * so a request about a note the caller does not own matches no row and changes nothing.
 */
module Notes {
  import opened Wrappers
  import opened Js
  import opened Schema
  import Seqs

  const MaxTitleLength := 100
  const MaxTextLength := 5000
  /** The upload limit, 2 MiB. */
  const MaxImageBytes := 2 * 1024 * 1024
  const AllowedImageTypes := ["image/jpeg", "image/png", "image/gif", "image/webp"]
  const UploadsPrefix := "/uploads/"

  /** The JSON body of create and update. */
  datatype NoteBody = NoteBody(
    title: Option<string>, text: Option<string>, categoryId: Option<int>,
    isPublic: Json, isAnonymous: Json)

  /** A string field that passes `!field`: present and non-empty. */
  predicate Given(s: Option<string>) {
    s.Some? && s.value != ""
  }

  /** A category id that passes `!category_id`: present and non-zero. */
  predicate CategoryGiven(c: Option<int>) {
    c.Some? && c.value != 0
  }

  /** The checks create and update share: required fields, then the two length limits. */
  function CheckBody(b: NoteBody): (r: Result<(), Error>)
    ensures r.Ok? <==>
      && Given(b.title) && Given(b.text) && CategoryGiven(b.categoryId)
      && |b.title.value| <= MaxTitleLength && |b.text.value| <= MaxTextLength
    ensures !(Given(b.title) && Given(b.text) && CategoryGiven(b.categoryId)) ==> r == Err(BadRequest(MissingFields))
    ensures Given(b.title) && Given(b.text) && CategoryGiven(b.categoryId) && |b.title.value| > MaxTitleLength ==>
      r == Err(BadRequest(LongTitle))
    ensures Given(b.title) && Given(b.text) && CategoryGiven(b.categoryId) && |b.title.value| <= MaxTitleLength && |b.text.value| > MaxTextLength ==>
      r == Err(BadRequest(LongText))
    ensures r.Err? ==> r.error in {BadRequest(MissingFields), BadRequest(LongTitle), BadRequest(LongText)}
  {
    if !Given(b.title) || !Given(b.text) || !CategoryGiven(b.categoryId) then Err(BadRequest(MissingFields))
    else if |b.title.value| > MaxTitleLength then Err(BadRequest(LongTitle))
    else if |b.text.value| > MaxTextLength then Err(BadRequest(LongText))
    else Ok(())
  }

  /**
   * POST /api/notes. The body checks, then the category must exist (400 otherwise); the new
   * note belongs to the caller, has the next id, the flags as 0/1, no image, and the current time.
   */
  function Create(db: Db, caller: Id, b: NoteBody, now: int): (r: Result<(Db, Id), Error>)
    ensures CheckBody(b).Err? ==> r == Err(CheckBody(b).error)
    ensures CheckBody(b).Ok? && FindCategory(db, b.categoryId.value).None? ==> r == Err(BadRequest(InvalidCategory))
    ensures CheckBody(b).Ok? && FindCategory(db, b.categoryId.value).Some? ==> r.Ok?
    ensures r.Ok? ==> CheckBody(b).Ok? && exists c :: c in db.categories && c.id == b.categoryId.value
    ensures r.Ok? ==>
      var n := Note(db.nextNoteId, caller, b.title.value, b.text.value, b.categoryId.value,
                    Flag(b.isPublic), Flag(b.isAnonymous), None, now);
      r.value == (db.(notes := db.notes + [n], nextNoteId := db.nextNoteId + 1), n.id)
    ensures r.Ok? && Wf(db) ==> Wf(r.value.0)
  {
    var _ :- CheckBody(b);
    if FindCategory(db, b.categoryId.value).None? then Err(BadRequest(InvalidCategory))
    else
      var n := Note(db.nextNoteId, caller, b.title.value, b.text.value, b.categoryId.value,
                    Flag(b.isPublic), Flag(b.isAnonymous), None, now);
      AppendWf(db, n);
      Ok((db.(notes := db.notes + [n], nextNoteId := db.nextNoteId + 1), n.id))
  }

  lemma AppendWf(db: Db, n: Note)
    requires n.id == db.nextNoteId && IsFlag(n.isPublic) && IsFlag(n.isAnonymous)
    ensures Wf(db) ==> Wf(db.(notes := db.notes + [n], nextNoteId := db.nextNoteId + 1))
  {
    if Wf(db) {
      Seqs.AppendUnique(db.notes, n, NoteKey);
    }
  }

  /** The row an owner-scoped statement touches. */
  predicate Owned(n: Note, caller: Id, id: Id) {
    n.id == id && n.userId == caller
  }

  /** The caller owns a note with that id. */
  predicate OwnsNote(db: Db, caller: Id, id: Id) {
    exists n :: n in db.notes && Owned(n, caller, id)
  }

  /** `UPDATE notes SET … WHERE id = ? AND user_id = ?` with `change` as the SET list. */
  function UpdateOwned(db: Db, caller: Id, id: Id, change: Note -> Note): (r: Db)
    ensures r == db.(notes := r.notes)
    ensures |r.notes| == |db.notes|
    ensures forall i :: 0 <= i < |db.notes| ==>
      r.notes[i] == if Owned(db.notes[i], caller, id) then change(db.notes[i]) else db.notes[i]
    ensures !OwnsNote(db, caller, id) ==> r == db
  {
    var f := (n: Note) => if Owned(n, caller, id) then change(n) else n;
    UnownedUnchanged(db, caller, id, f);
    db.(notes := Seqs.MapRows(db.notes, f))
  }

  lemma UnownedUnchanged(db: Db, caller: Id, id: Id, f: Note -> Note)
    requires forall n :: !Owned(n, caller, id) ==> f(n) == n
    ensures !OwnsNote(db, caller, id) ==> Seqs.MapRows(db.notes, f) == db.notes
  {
  }

  lemma UpdateOwnedWf(db: Db, caller: Id, id: Id, change: Note -> Note)
    requires forall n :: change(n).id == n.id
    requires forall n: Note :: IsFlag(n.isPublic) && IsFlag(n.isAnonymous) ==> IsFlag(change(n).isPublic) && IsFlag(change(n).isAnonymous)
    ensures Wf(db) ==> Wf(UpdateOwned(db, caller, id, change))
  {
    if Wf(db) {
      var r := UpdateOwned(db, caller, id, change);
      forall i, j | 0 <= i < j < |r.notes| ensures NoteKey(r.notes[i]) != NoteKey(r.notes[j]) {
        assert NoteKey(db.notes[i]) != NoteKey(db.notes[j]);
      }
      forall n | n in r.notes ensures 0 < n.id < r.nextNoteId && IsFlag(n.isPublic) && IsFlag(n.isAnonymous) {
        var k :| 0 <= k < |r.notes| && r.notes[k] == n;
        assert db.notes[k] in db.notes;
      }
      assert NotesWf(r);
      assert UsersWf(r) && CategoriesWf(r) && RatingsWf(r) && CommentsWf(r);
    }
  }

  /** The SET list of the update handler. */
  function Rewrite(b: NoteBody): Note -> Note
    requires CheckBody(b).Ok?
  {
    (n: Note) => n.(title := b.title.value, text := b.text.value, categoryId := b.categoryId.value,
                    isPublic := Flag(b.isPublic), isAnonymous := Flag(b.isAnonymous))
  }

  /**
   * PUT /api/notes/:id. The body checks (the category is not looked up); then the caller's note
   * with that id, if any, takes the new title, text, category and 0/1 flags. A request for a
   * note the caller does not own still succeeds and changes nothing.
   */
  function Update(db: Db, caller: Id, id: Id, b: NoteBody): (r: Result<Db, Error>)
    ensures r.Err? <==> CheckBody(b).Err?
    ensures r.Err? ==> r.error == CheckBody(b).error
    ensures r.Ok? && !OwnsNote(db, caller, id) ==> r.value == db
    ensures r.Ok? ==> r.value == db.(notes := r.value.notes) && |r.value.notes| == |db.notes|
    ensures r.Ok? ==> forall i :: 0 <= i < |db.notes| ==>
      var (old_, new_) := (db.notes[i], r.value.notes[i]);
      if Owned(old_, caller, id) then
        new_ == old_.(title := b.title.value, text := b.text.value, categoryId := b.categoryId.value,
                      isPublic := Flag(b.isPublic), isAnonymous := Flag(b.isAnonymous))
      else new_ == old_
    ensures r.Ok? && Wf(db) ==> Wf(r.value)
  {
    var _ :- CheckBody(b);
    UpdateOwnedWf(db, caller, id, Rewrite(b));
    Ok(UpdateOwned(db, caller, id, Rewrite(b)))
  }

  function NotOwned(caller: Id, id: Id): Note -> bool {
    (n: Note) => !Owned(n, caller, id)
  }

  /**
   * DELETE /api/notes/:id: removes the caller's note with that id, if any. Ratings and comments
   * of the note are left in place: the schema declares ON DELETE CASCADE but the connection
   * never enables foreign keys.
   */
  function Delete(db: Db, caller: Id, id: Id): (r: Db)
    ensures r == db.(notes := r.notes)
    ensures forall n :: n in r.notes <==> n in db.notes && !Owned(n, caller, id)
    ensures !OwnsNote(db, caller, id) ==> r == db
    ensures Wf(db) ==> Wf(r)
  {
    DeleteWf(db, caller, id);
    DeleteUnowned(db, caller, id);
    db.(notes := Seqs.Filter(db.notes, NotOwned(caller, id)))
  }

  lemma DeleteUnowned(db: Db, caller: Id, id: Id)
    ensures !OwnsNote(db, caller, id) ==> Seqs.Filter(db.notes, NotOwned(caller, id)) == db.notes
  {
    if !OwnsNote(db, caller, id) {
      Seqs.FilterKeepsAll(db.notes, NotOwned(caller, id));
    }
  }

  lemma DeleteWf(db: Db, caller: Id, id: Id)
    ensures Wf(db) ==> Wf(db.(notes := Seqs.Filter(db.notes, NotOwned(caller, id))))
  {
    if Wf(db) {
      Seqs.FilterUnique(db.notes, NotOwned(caller, id), NoteKey);
    }
  }

  /** The multipart upload of an image: none, or a file with its size in bytes and MIME type. */
  datatype Upload = NoFile | File(size: nat, mimetype: string)

  /** The upload middleware's checks: the type filter, then the size limit, then presence. */
  function CheckUpload(u: Upload): (r: Result<(), Error>)
    ensures r.Ok? <==> u.File? && u.mimetype in AllowedImageTypes && u.size <= MaxImageBytes
    ensures u.File? && u.mimetype !in AllowedImageTypes ==> r == Err(BadRequest(ImageType))
    ensures u.File? && u.mimetype in AllowedImageTypes && u.size > MaxImageBytes ==> r == Err(BadRequest(ImageTooLarge))
    ensures u.NoFile? ==> r == Err(BadRequest(NoImage))
  {
    match u
    case NoFile => Err(BadRequest(NoImage))
    case File(size, mimetype) =>
      if mimetype !in AllowedImageTypes then Err(BadRequest(ImageType))
      else if size > MaxImageBytes then Err(BadRequest(ImageTooLarge))
      else Ok(())
  }

  function SetImage(url: Option<string>): Note -> Note {
    (n: Note) => n.(imageUrl := url)
  }

  /**
   * POST /api/notes/:id/image. After the upload checks the caller's note with that id, if any,
   * points at "/uploads/<filename>"; the answer carries that URL even when no note was changed.
   * `filename` stands for the name the disk storage generated.
   */
  function AttachImage(db: Db, caller: Id, id: Id, u: Upload, filename: string): (r: Result<(Db, string), Error>)
    ensures r.Err? <==> CheckUpload(u).Err?
    ensures r.Err? ==> r.error == CheckUpload(u).error
    ensures r.Ok? ==> r.value.1 == UploadsPrefix + filename
    ensures r.Ok? && !OwnsNote(db, caller, id) ==> r.value.0 == db
    ensures r.Ok? ==> |r.value.0.notes| == |db.notes| && forall i :: 0 <= i < |db.notes| ==>
      r.value.0.notes[i] == if Owned(db.notes[i], caller, id) then db.notes[i].(imageUrl := Some(UploadsPrefix + filename)) else db.notes[i]
    ensures r.Ok? && Wf(db) ==> Wf(r.value.0)
  {
    var _ :- CheckUpload(u);
    var url := UploadsPrefix + filename;
    UpdateOwnedWf(db, caller, id, SetImage(Some(url)));
    Ok((UpdateOwned(db, caller, id, SetImage(Some(url))), url))
  }

  /** A stored image reference that passes `!note.image_url`. */
  predicate HasImage(n: Note) {
    n.imageUrl.Some? && n.imageUrl.value != ""
  }

  /**
   * DELETE /api/notes/:id/image: 404 unless the caller owns the note and it has an image;
   * otherwise the reference is cleared. Removing the file itself is fire-and-forget.
   */
  function DetachImage(db: Db, caller: Id, id: Id): (r: Result<Db, Error>)
    ensures r.Ok? ==> exists n :: n in db.notes && Owned(n, caller, id) && HasImage(n)
    ensures !(exists n :: n in db.notes && Owned(n, caller, id) && HasImage(n)) ==> r == Err(NotFound)
    ensures Wf(db) && (exists n :: n in db.notes && Owned(n, caller, id) && HasImage(n)) ==> r.Ok?
    ensures r.Err? ==> r.error == NotFound
    ensures r.Ok? ==> |r.value.notes| == |db.notes| && forall i :: 0 <= i < |db.notes| ==>
      r.value.notes[i] == if Owned(db.notes[i], caller, id) then db.notes[i].(imageUrl := None) else db.notes[i]
    ensures r.Ok? ==> r.value == db.(notes := r.value.notes)
    ensures r.Ok? && Wf(db) ==> Wf(r.value)
  {
    match FindNote(db, (n: Note) => Owned(n, caller, id))
    case None => Err(NotFound)
    case Some(n) =>
      if !HasImage(n) then
        OnlyOwnedRow(db, caller, id, n);
        Err(NotFound)
      else
        UpdateOwnedWf(db, caller, id, SetImage(None));
        Ok(UpdateOwned(db, caller, id, SetImage(None)))
  }

  /** Ids are unique, so the row the lookup finds is the only row with that id. */
  lemma OnlyOwnedRow(db: Db, caller: Id, id: Id, n: Note)
    requires n in db.notes && n.id == id
    ensures Wf(db) ==> forall m :: m in db.notes && Owned(m, caller, id) ==> m == n
  {
    if Wf(db) {
      forall m | m in db.notes && Owned(m, caller, id) ensures m == n {
        var i :| 0 <= i < |db.notes| && db.notes[i] == m;
        var j :| 0 <= j < |db.notes| && db.notes[j] == n;
        assert NoteKey(db.notes[i]) == NoteKey(db.notes[j]);
      }
    }
  }

  /** A note of the caller's own listing, with the LEFT JOINed category name. */
  datatype OwnNote = OwnNote(note: Note, categoryName: Option<string>)

  function Newest(n: Note): Seqs.Key {
    Seqs.Key(-n.createdAt, -(n.id as int))
  }

  function OwnedBy(caller: Id): Note -> bool {
    (n: Note) => n.userId == caller
  }

  /** GET /api/notes: all the caller's notes, newest first. */
  function MyNotes(db: Db, caller: Id): (r: seq<OwnNote>)
    ensures |r| == |Seqs.Filter(db.notes, OwnedBy(caller))|
    ensures forall x :: x in r ==> x.note in db.notes && x.note.userId == caller && x.categoryName == CategoryName(db, x.note.categoryId)
    ensures forall n :: n in db.notes && n.userId == caller ==> OwnNote(n, CategoryName(db, n.categoryId)) in r
    ensures forall i, j :: 0 <= i < j < |r| ==> r[i].note.createdAt >= r[j].note.createdAt
  {
    var sorted := Seqs.SortBy(Seqs.Filter(db.notes, OwnedBy(caller)), Newest);
    MyNotesFacts(db, caller, sorted);
    WithCategories(db, sorted)
  }

  function WithCategories(db: Db, s: seq<Note>): (r: seq<OwnNote>)
    ensures |r| == |s|
    ensures forall i :: 0 <= i < |s| ==> r[i] == OwnNote(s[i], CategoryName(db, s[i].categoryId))
  {
    seq(|s|, i requires 0 <= i < |s| => OwnNote(s[i], CategoryName(db, s[i].categoryId)))
  }

  lemma MyNotesFacts(db: Db, caller: Id, sorted: seq<Note>)
    requires sorted == Seqs.SortBy(Seqs.Filter(db.notes, OwnedBy(caller)), Newest)
    ensures var r := WithCategories(db, sorted);
      && (forall x :: x in r ==> x.note in db.notes && x.note.userId == caller && x.categoryName == CategoryName(db, x.note.categoryId))
      && (forall n :: n in db.notes && n.userId == caller ==> OwnNote(n, CategoryName(db, n.categoryId)) in r)
      && (forall i, j :: 0 <= i < j < |r| ==> r[i].note.createdAt >= r[j].note.createdAt)
  {
    Seqs.SortByMembers(Seqs.Filter(db.notes, OwnedBy(caller)), Newest);
    var r := WithCategories(db, sorted);
    forall x | x in r ensures x.note in db.notes && x.note.userId == caller && x.categoryName == CategoryName(db, x.note.categoryId) {
      var k :| 0 <= k < |r| && r[k] == x;
      assert sorted[k] in sorted;
    }
    forall n | n in db.notes && n.userId == caller ensures OwnNote(n, CategoryName(db, n.categoryId)) in r {
      var k :| 0 <= k < |sorted| && sorted[k] == n;
      assert r[k] == OwnNote(n, CategoryName(db, n.categoryId));
    }
    forall i, j | 0 <= i < j < |r| ensures r[i].note.createdAt >= r[j].note.createdAt {
      assert Seqs.KeyLe(Newest(sorted[i]), Newest(sorted[j]));
    }
  }

  /** GET /api/notes/:id: the caller's own note, 404 for a missing note or someone else's. */
  function MyNote(db: Db, caller: Id, id: Id): (r: Result<OwnNote, Error>)
    ensures r.Ok? <==> OwnsNote(db, caller, id)
    ensures r.Err? ==> r.error == NotFound
    ensures r.Ok? ==> r.value.note in db.notes && Owned(r.value.note, caller, id)
  {
    match FindNote(db, (n: Note) => Owned(n, caller, id))
    case None => Err(NotFound)
    case Some(n) => Ok(OwnNote(n, CategoryName(db, n.categoryId)))
  }

  /** The caller's notes with `is_public` equal to `visibility`, or all of them for None. */
  function CountNotes(notes: seq<Note>, caller: Id, visibility: Option<int>): nat
    decreases |notes|
  {
    if notes == [] then 0
    else
      var n := notes[0];
      (if n.userId == caller && (visibility.None? || n.isPublic == visibility.value) then 1 else 0)
      + CountNotes(notes[1..], caller, visibility)
  }

  datatype Stats = Stats(totalNotes: nat, publicNotes: nat, privateNotes: nat, registeredAt: Option<int>)

  /** GET /api/profile/stats. */
  function ProfileStats(db: Db, caller: Id): (r: Stats)
    ensures Wf(db) ==> r.totalNotes == r.publicNotes + r.privateNotes
  {
    StatsAddUp(db.notes, caller);
    Stats(CountNotes(db.notes, caller, None), CountNotes(db.notes, caller, Some(1)), CountNotes(db.notes, caller, Some(0)),
          match FindUser(db, caller) case Some(u) => Some(u.createdAt) case None => None)
  }

  /** Because `is_public` is only ever written as 0 or 1, every note is public or private. */
  lemma {:induction false} StatsAddUp(notes: seq<Note>, caller: Id)
    ensures (forall n :: n in notes ==> IsFlag(n.isPublic)) ==>
      CountNotes(notes, caller, None) == CountNotes(notes, caller, Some(1)) + CountNotes(notes, caller, Some(0))
    decreases |notes|
  {
    if notes != [] {
      StatsAddUp(notes[1..], caller);
      if forall n :: n in notes ==> IsFlag(n.isPublic) {
        assert forall n :: n in notes[1..] ==> n in notes;
      }
    }
  }
}
