/**
 * The public wall page: the like/dislike buttons, the filter form's query parameters, the
 * comment form's checks and the delete button beside each comment.
 */
module PublicWallPage {
  import opened Wrappers
  import opened Js
  import opened Schema
  import Ratings
  import Comments
  import PublicList

  /** `note.user_rating` as the page receives it: the viewer's vote, null without one or without a viewer. */
  function RatingField(viewer: Option<Id>, rating: Option<int>): (j: Json)
    ensures j != Undefined
    ensures viewer.Some? && rating.Some? ==> j == Num(rating.value)
    ensures j == Null <==> viewer.None? || rating.None?
  {
    if viewer.Some? && rating.Some? then Num(rating.value) else Null
  }

  /** The request a click leads to. */
  datatype Action = NoAction | RateWith(value: int) | RemoveRating

  /** The like button: disabled without a token; a second like takes the like back. */
  function LikeClick(token: bool, userRating: Json): (a: Action)
    ensures !token ==> a == NoAction
    ensures token ==> (a == RemoveRating <==> userRating == Num(1))
    ensures token && userRating != Num(1) ==> a == RateWith(1)
  {
    if !token then NoAction
    else if userRating == Num(1) then RemoveRating
    else RateWith(1)
  }

  /** The dislike button, the mirror image of the like button. */
  function DislikeClick(token: bool, userRating: Json): (a: Action)
    ensures !token ==> a == NoAction
    ensures token ==> (a == RemoveRating <==> userRating == Num(-1))
    ensures token && userRating != Num(-1) ==> a == RateWith(-1)
  {
    if !token then NoAction
    else if userRating == Num(-1) then RemoveRating
    else RateWith(-1)
  }

  /** The handler an action reaches: POST or DELETE on /api/public/:id/rate, or none. */
  function Send(db: Db, caller: Id, noteId: Id, a: Action): (r: Result<Db, Error>)
    ensures a == NoAction ==> r == Ok(db)
    ensures a == RemoveRating ==> r.Ok? && Ratings.UserRating(r.value.ratings, noteId, caller) == None
    ensures a.RateWith? && r.Ok? ==> Ratings.UserRating(r.value.ratings, noteId, caller) == Some(a.value)
    ensures r.Ok? && Wf(db) ==> Wf(r.value)
  {
    match a
    case NoAction => Ok(db)
    case RateWith(v) => Ratings.Rate(db, caller, noteId, Num(v))
    case RemoveRating => Ok(Ratings.Unrate(db, caller, noteId))
  }

  /**
   * On a public note a logged-in viewer's like click toggles: a standing like is taken back,
   * anything else becomes a like. The dislike button does the same with -1.
   */
  lemma ClicksToggle(db: Db, caller: Id, noteId: Id)
    requires exists n :: n in db.notes && n.id == noteId && n.isPublic == 1
    ensures var before := Ratings.UserRating(db.ratings, noteId, caller);
      var like := Send(db, caller, noteId, LikeClick(true, RatingField(Some(caller), before)));
      var dislike := Send(db, caller, noteId, DislikeClick(true, RatingField(Some(caller), before)));
      && like.Ok? && Ratings.UserRating(like.value.ratings, noteId, caller) == (if before == Some(1) then None else Some(1))
      && dislike.Ok? && Ratings.UserRating(dislike.value.ratings, noteId, caller) == (if before == Some(-1) then None else Some(-1))
  {
    var n :| n in db.notes && n.id == noteId && n.isPublic == 1;
    assert Ratings.IsPublicNote(noteId)(n);
  }

  /** The GET /api/public parameters: only the filters whose field is not empty. */
  function QueryParams(author: string, dateFrom: string, dateTo: string): (m: map<string, string>)
    ensures "author" in m <==> author != ""
    ensures "date_from" in m <==> dateFrom != ""
    ensures "date_to" in m <==> dateTo != ""
    ensures "author" in m ==> m["author"] == author
    ensures "date_from" in m ==> m["date_from"] == dateFrom
    ensures "date_to" in m ==> m["date_to"] == dateTo
    ensures forall k :: k in m ==> m[k] != "" && (k == "author" || k == "date_from" || k == "date_to")
  {
    var a := if author != "" then map["author" := author] else map[];
    var f := if dateFrom != "" then a["date_from" := dateFrom] else a;
    if dateTo != "" then f["date_to" := dateTo] else f
  }

  /**
   * The filters the list handler reads from the query; `day` turns a date field's value into a
   * day number. Each filter is applied only when its value is truthy: an absent or empty
   * parameter leaves it off.
   */
  function ServerFilters(q: map<string, string>, day: string -> int): (f: PublicList.Filters)
    ensures f.author == (if "author" in q then q["author"] else "")
    ensures f.dateFrom.None? <==> "date_from" !in q || q["date_from"] == ""
    ensures f.dateTo.None? <==> "date_to" !in q || q["date_to"] == ""
    ensures f.dateFrom.Some? ==> f.dateFrom.value == day(q["date_from"])
    ensures f.dateTo.Some? ==> f.dateTo.value == day(q["date_to"])
  {
    PublicList.Filters(
      if "author" in q then q["author"] else "",
      if "date_from" in q && q["date_from"] != "" then Some(day(q["date_from"])) else None,
      if "date_to" in q && q["date_to"] != "" then Some(day(q["date_to"])) else None)
  }

  /** The filters the server applies are exactly the form's non-empty fields. */
  lemma FormReachesServer(author: string, dateFrom: string, dateTo: string, day: string -> int)
    ensures var f := ServerFilters(QueryParams(author, dateFrom, dateTo), day);
      && f.author == author
      && f.dateFrom == (if dateFrom == "" then None else Some(day(dateFrom)))
      && f.dateTo == (if dateTo == "" then None else Some(day(dateTo)))
  {
  }

  /** With every filter field empty, as on the first fetch after mounting, the wall lists every public note. */
  lemma EmptyFormListsAllPublic(db: Db, day: string -> int, viewer: Option<Id>)
    ensures var f := ServerFilters(QueryParams("", "", ""), day);
      forall n :: n in db.notes && n.isPublic == 1 ==> PublicList.Row(db, n, viewer) in PublicList.List(db, f, viewer)
  {
  }

  // ---- Finding: "Limpiar" re-sends the filters it has just cleared ----

  /** The filter form's fields as held in the page state. */
  datatype FilterForm = FilterForm(author: string, dateFrom: string, dateTo: string)

  function Query(form: FilterForm): map<string, string> {
    QueryParams(form.author, form.dateFrom, form.dateTo)
  }

  /**
   * The query the clear button sends as written: the three setters only schedule a new render,
   * and `fetchNotes` runs in the closure of the render where the click happened, so it reads the
   * fields as they were before the clear.
   */
  function ClearAsWritten(form: FilterForm): (m: map<string, string>)
    ensures form.author != "" ==> "author" in m && m["author"] == form.author
    ensures form.dateFrom != "" ==> "date_from" in m && m["date_from"] == form.dateFrom
    ensures form.dateTo != "" ==> "date_to" in m && m["date_to"] == form.dateTo
  {
    Query(form)
  }

  /**
   * A store where the clear button leaves a public note off the wall: the old "from" date is
   * still sent, and the note is from an earlier day.
   */
  lemma ClearKeepsOldFilter()
    ensures var n := Note(1, 1, "t", "x", 1, 1, 0, None, 0);
      var db := Initial().(notes := [n], nextNoteId := 2);
      var day := (s: string) => if s == "" then 0 else 10;
      var f := ServerFilters(ClearAsWritten(FilterForm("", "2024-01-10", "")), day);
      && n in db.notes && n.isPublic == 1
      && PublicList.Row(db, n, None) !in PublicList.List(db, f, None)
  {
    var n := Note(1, 1, "t", "x", 1, 1, 0, None, 0);
    var db := Initial().(notes := [n], nextNoteId := 2);
    var day := (s: string) => if s == "" then 0 else 10;
    var f := ServerFilters(ClearAsWritten(FilterForm("", "2024-01-10", "")), day);
    assert f.dateFrom == Some(10);
    assert forall m :: m in db.notes ==> m == n && !PublicList.Listed(db, f, m);
  }

  /** The intended clear: the fields are emptied and the fetch reads the emptied fields. */
  function Clear(form: FilterForm): (next: FilterForm)
    ensures next.author == "" && next.dateFrom == "" && next.dateTo == ""
    ensures Query(next) == map[]
  {
    FilterForm("", "", "")
  }

  /** After the intended clear, whatever the form held, every public note is on the wall again. */
  lemma ClearListsAllPublic(db: Db, form: FilterForm, day: string -> int, viewer: Option<Id>)
    ensures var f := ServerFilters(Query(Clear(form)), day);
      && f == PublicList.Filters("", None, None)
      && forall n :: n in db.notes && n.isPublic == 1 ==> PublicList.Row(db, n, viewer) in PublicList.List(db, f, viewer)
  {
  }

  /** Why the comment form refuses to send. */
  datatype CommentProblem = LoginRequired | EmptyComment | CommentTooLong

  /** The comment form: a token, then text that is not blank, then at most 1000 characters; the raw text is sent. */
  function CheckComment(token: bool, text: string): (r: Result<string, CommentProblem>)
    ensures r.Ok? <==> token && !IsBlank(text) && |text| <= Comments.MaxCommentLength
    ensures r.Ok? ==> r.value == text
    ensures !token ==> r == Err(LoginRequired)
    ensures token && IsBlank(text) ==> r == Err(EmptyComment)
    ensures token && !IsBlank(text) && |text| > Comments.MaxCommentLength ==> r == Err(CommentTooLong)
  {
    if !token then Err(LoginRequired)
    else if IsBlank(text) then Err(EmptyComment)
    else if |text| > Comments.MaxCommentLength then Err(CommentTooLong)
    else Ok(text)
  }

  /** Whatever the form sends passes the server's length check. */
  lemma SentCommentIsValid(token: bool, text: string)
    requires CheckComment(token, text).Ok?
    ensures Comments.ValidText(Some(text))
  {
  }

  /** The form is stricter than the server: a comment of one space would be stored. */
  lemma ServerStoresBlankComment()
    ensures Comments.ValidText(Some(" ")) && CheckComment(true, " ") == Err(EmptyComment)
  {
    assert IsWhitespace(" "[0]);
  }

  /** The session as the page sees it: whether a token is held and the id its payload decodes to. */
  datatype Session = Session(token: bool, decodedId: Option<Id>)

  /**
   * The trash button beside a comment: a token, a comment author, a loaded note whose
   * `user_rating` is present, and the comment's author equal to the token's id.
   */
  predicate ShowDelete(s: Session, userRating: Option<Json>, c: Comments.CommentView) {
    && s.token && c.userId != 0
    && userRating.Some? && userRating.value != Undefined
    && s.decodedId == Some(c.userId)
  }

  /**
   * Both public handlers always send `user_rating` (null when there is nothing to send), so
   * once the note has loaded the button depends only on the token and the comment's author.
   */
  lemma DeleteShownOnlyToAuthor(s: Session, viewer: Option<Id>, rating: Option<int>, c: Comments.CommentView)
    ensures ShowDelete(s, Some(RatingField(viewer, rating)), c) <==> s.token && c.userId != 0 && s.decodedId == Some(c.userId)
    ensures !ShowDelete(s, None, c)
  {
  }

  /** When the server's identity is the decoded one, a shown button leads to an allowed delete. */
  lemma ShownDeleteIsAllowed(db: Db, noteId: Id, s: Session, userRating: Option<Json>, c: Comments.CommentView)
    requires Wf(db)
    requires c in Comments.List(db, noteId)
    requires ShowDelete(s, userRating, c)
    ensures Comments.Delete(db, s.decodedId.value, noteId, c.id).Ok?
  {
    var cm :| cm in db.comments && cm.noteId == noteId && c == Comments.ViewOf(db, cm);
    Comments.AuthorMayDelete(db, cm, cm.userId);
  }
}
