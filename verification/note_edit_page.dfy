/**
 * The note editor: the checks run before saving, the body it sends to create or update, and the
 * check applied when an image file is picked.
 */
module NoteEditPage {
  import opened Wrappers
  import opened Js
  import opened Schema
  import Notes

  const MaxTitleLength := 100
  const MaxTextLength := 5000
  const MaxImageBytes := 2 * 1024 * 1024
  const ImageTypes := ["image/jpeg", "image/png", "image/gif", "image/webp"]

  /**
   * The editor's state: the raw title and text, the selected category (None while nothing is
   * selected), and the two flags as held, booleans for a new note and 0/1 once loaded.
   */
  datatype EditForm = EditForm(title: string, text: string, categoryId: Option<int>, isPublic: Json, isAnonymous: Json)

  /** The messages the editor shows instead of saving, in the order they are tried. */
  datatype EditProblem = TitleRequired | TextRequired | CategoryRequired | TitleTooLong | TextTooLong

  /** What the save button lets through. */
  predicate Accepted(f: EditForm) {
    && !IsBlank(f.title) && !IsBlank(f.text) && Notes.CategoryGiven(f.categoryId)
    && |f.title| <= MaxTitleLength && |f.text| <= MaxTextLength
  }

  /**
   * The save button: blank title, blank text, no category, then the lengths of the untrimmed
   * title and text. An accepted form is sent with title and text trimmed and the flags as held.
   */
  function CheckForm(f: EditForm): (r: Result<Notes.NoteBody, EditProblem>)
    ensures r.Ok? <==> Accepted(f)
    ensures IsBlank(f.title) ==> r == Err(TitleRequired)
    ensures !IsBlank(f.title) && IsBlank(f.text) ==> r == Err(TextRequired)
    ensures !IsBlank(f.title) && !IsBlank(f.text) && !Notes.CategoryGiven(f.categoryId) ==> r == Err(CategoryRequired)
    ensures r == Err(TitleTooLong) <==>
      !IsBlank(f.title) && !IsBlank(f.text) && Notes.CategoryGiven(f.categoryId) && |f.title| > MaxTitleLength
    ensures r == Err(TextTooLong) <==>
      !IsBlank(f.title) && !IsBlank(f.text) && Notes.CategoryGiven(f.categoryId)
      && |f.title| <= MaxTitleLength && |f.text| > MaxTextLength
    ensures r.Ok? ==> r.value == Notes.NoteBody(Some(Trim(f.title)), Some(Trim(f.text)), f.categoryId, f.isPublic, f.isAnonymous)
  {
    if IsBlank(f.title) then Err(TitleRequired)
    else if IsBlank(f.text) then Err(TextRequired)
    else if !Notes.CategoryGiven(f.categoryId) then Err(CategoryRequired)
    else if |f.title| > MaxTitleLength then Err(TitleTooLong)
    else if |f.text| > MaxTextLength then Err(TextTooLong)
    else Ok(Notes.NoteBody(Some(Trim(f.title)), Some(Trim(f.text)), f.categoryId, f.isPublic, f.isAnonymous))
  }

  /**
   * A body the editor sends passes the handlers' own checks: an update is always accepted, and
   * a create is accepted exactly when the category still exists.
   */
  lemma SentBodyPassesServer(db: Db, caller: Id, id: Id, f: EditForm, now: int)
    requires Accepted(f)
    ensures Notes.CheckBody(CheckForm(f).value).Ok?
    ensures Notes.Update(db, caller, id, CheckForm(f).value).Ok?
    ensures Notes.Create(db, caller, CheckForm(f).value, now).Ok? <==> FindCategory(db, f.categoryId.value).Some?
  {
    SentBodyChecks(f);
  }

  lemma SentBodyChecks(f: EditForm)
    requires Accepted(f)
    ensures Notes.CheckBody(CheckForm(f).value).Ok?
  {
    var title, text := Trim(f.title), Trim(f.text);
    TrimKeepsContent(f.title);
    TrimKeepsContent(f.text);
    assert CheckForm(f).value == Notes.NoteBody(Some(title), Some(text), f.categoryId, f.isPublic, f.isAnonymous);
    assert Notes.Given(Some(title)) && Notes.Given(Some(text));
  }

  lemma TrimKeepsContent(s: string)
    requires !IsBlank(s)
    ensures Trim(s) != [] && |Trim(s)| <= |s|
  {
  }

  /**
   * The editor sends the anonymous flag as held even for a private note, so a private note
   * can be stored with is_anonymous = 1.
   */
  lemma PrivateNoteKeepsAnonymousFlag(db: Db, caller: Id, f: EditForm, now: int)
    requires Accepted(f) && !Truthy(f.isPublic) && Truthy(f.isAnonymous)
    requires exists c :: c in db.categories && c.id == f.categoryId.value
    ensures Notes.Create(db, caller, CheckForm(f).value, now).Ok?
    ensures var (db', id) := Notes.Create(db, caller, CheckForm(f).value, now).value;
      exists n :: n in db'.notes && n.id == id && n.isPublic == 0 && n.isAnonymous == 1
  {
    SentBodyPassesServer(db, caller, 0, f, now);
    var (db', id) := Notes.Create(db, caller, CheckForm(f).value, now).value;
    assert db'.notes[|db'.notes| - 1].id == id;
  }

  /** A file picked in the image input: its size in bytes and its MIME type. */
  datatype Picked = Picked(size: nat, mimetype: string)

  datatype ImageProblem = ImageTooBig | NotAnImage

  /** The picker's check: the size first, then the type. */
  function CheckImage(p: Picked): (r: Result<Picked, ImageProblem>)
    ensures r.Ok? <==> p.size <= MaxImageBytes && p.mimetype in ImageTypes
    ensures r.Ok? ==> r.value == p
    ensures p.size > MaxImageBytes ==> r == Err(ImageTooBig)
    ensures p.size <= MaxImageBytes && p.mimetype !in ImageTypes ==> r == Err(NotAnImage)
  {
    if p.size > MaxImageBytes then Err(ImageTooBig)
    else if p.mimetype !in ImageTypes then Err(NotAnImage)
    else Ok(p)
  }

  /**
   * Picking a file: no file leaves the selection alone; a refused file is not selected and the
   * previous selection stays; an accepted one replaces it.
   */
  function Pick(current: Option<Picked>, file: Option<Picked>): (r: (Option<Picked>, Option<ImageProblem>))
    ensures file.None? ==> r == (current, None)
    ensures file.Some? && CheckImage(file.value).Err? ==> r == (current, Some(CheckImage(file.value).error))
    ensures file.Some? && CheckImage(file.value).Ok? ==> r == (file, None)
  {
    match file
    case None => (current, None)
    case Some(p) =>
      match CheckImage(p)
      case Ok(_) => (file, None)
      case Err(e) => (current, Some(e))
  }

  /** The picker and the upload handler accept the same files. */
  lemma PickerAgreesWithUpload(p: Picked)
    ensures CheckImage(p).Ok? <==> Notes.CheckUpload(Notes.File(p.size, p.mimetype)).Ok?
  {
    assert ImageTypes == Notes.AllowedImageTypes;
  }

  /** They name a different problem first: a large file of the wrong type is "too big" here, "wrong type" there. */
  lemma ProblemsReportedInOtherOrder()
    ensures var p := Picked(MaxImageBytes + 1, "text/plain");
      CheckImage(p) == Err(ImageTooBig) && Notes.CheckUpload(Notes.File(p.size, p.mimetype)) == Err(BadRequest(ImageType))
  {
    assert "text/plain" !in Notes.AllowedImageTypes by {
      assert "text/plain"[6] != "image/jpeg"[6];
      assert "text/plain"[6] != "image/png"[6];
      assert "text/plain"[6] != "image/gif"[6];
      assert "text/plain"[6] != "image/webp"[6];
    }
  }
}
