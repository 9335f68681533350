/**
 * The comment log of public notes: append with validation, list in creation order with each
 * comment's author name, delete by the author only.
 */
module Comments {
  import opened Wrappers
  import opened Schema
  import Seqs
  import Display
  import Ratings

  const MaxCommentLength := 1000

  /** The body check of the add handler: present, non-empty and at most 1000 characters. */
  predicate ValidText(text: Option<string>) {
    text.Some? && 1 <= |text.value| <= MaxCommentLength
  }

  /**
   * POST /api/public/:id/comments. A missing, empty or over-long text is refused with 400; a
   * note that is missing or not public with 404; otherwise a comment by the caller, with the
   * next id and the current time, is appended to the log.
   */
  function Add(db: Db, caller: Id, noteId: Id, text: Option<string>, now: int): (r: Result<(Db, Comment), Error>)
    ensures !ValidText(text) ==> r == Err(BadRequest(InvalidComment))
    ensures ValidText(text) && FindNote(db, Ratings.IsPublicNote(noteId)).None? ==> r == Err(NotFound)
    ensures ValidText(text) && FindNote(db, Ratings.IsPublicNote(noteId)).Some? ==> r.Ok?
    ensures r.Ok? ==> ValidText(text) && exists n :: n in db.notes && n.id == noteId && n.isPublic == 1
    ensures r.Ok? ==> var (db', c) := r.value;
      && c == Comment(db.nextCommentId, noteId, caller, text.value, now)
      && db' == db.(comments := db.comments + [c], nextCommentId := db.nextCommentId + 1)
    ensures r.Ok? && Wf(db) ==> Wf(r.value.0)
  {
    if text.None? || |text.value| < 1 || |text.value| > MaxCommentLength then Err(BadRequest(InvalidComment))
    else if FindNote(db, Ratings.IsPublicNote(noteId)).None? then Err(NotFound)
    else
      var c := Comment(db.nextCommentId, noteId, caller, text.value, now);
      AppendWf(db, c);
      Ok((db.(comments := db.comments + [c], nextCommentId := db.nextCommentId + 1), c))
  }

  lemma AppendWf(db: Db, c: Comment)
    requires c.id == db.nextCommentId
    ensures Wf(db) ==> Wf(db.(comments := db.comments + [c], nextCommentId := db.nextCommentId + 1))
  {
    if Wf(db) {
      Seqs.AppendUnique(db.comments, c, CommentKey);
    }
  }

  /**
   * A new comment shows up in its note's listing with the caller as author, and the listing
   * grows by exactly that one entry.
   */
  lemma AddShowsInList(db: Db, caller: Id, noteId: Id, text: Option<string>, now: int)
    requires Add(db, caller, noteId, text, now).Ok?
    ensures var (db', c) := Add(db, caller, noteId, text, now).value;
      && CommentView(c.id, text.value, now, caller, Display.CommentAuthor(FindUser(db, caller))) in List(db', noteId)
      && |List(db', noteId)| == |List(db, noteId)| + 1
  {
    var (db', c) := Add(db, caller, noteId, text, now).value;
    assert c in db'.comments;
    Seqs.FilterAppend(db.comments, [c], OnNote(noteId));
  }

  /** One entry of the comment listing. */
  datatype CommentView = CommentView(id: Id, text: string, createdAt: int, userId: Id, displayAuthor: Option<string>)

  function ViewOf(db: Db, c: Comment): CommentView {
    CommentView(c.id, c.text, c.createdAt, c.userId, Display.CommentAuthor(FindUser(db, c.userId)))
  }

  function OnNote(noteId: Id): Comment -> bool {
    (c: Comment) => c.noteId == noteId
  }

  /** `ORDER BY c.created_at ASC`, ties in insertion (id) order. */
  function Oldest(c: Comment): Seqs.Key {
    Seqs.Key(c.createdAt, c.id)
  }

  /**
   * GET /api/public/:id/comments: exactly the note's comments, oldest first, each shown with
   * the comment resolver. The handler does not check that the note exists or is public.
   */
  function List(db: Db, noteId: Id): (r: seq<CommentView>)
    ensures |r| == |Seqs.Filter(db.comments, OnNote(noteId))|
    ensures forall c :: c in db.comments && c.noteId == noteId ==> ViewOf(db, c) in r
    ensures forall v :: v in r ==> exists c :: c in db.comments && c.noteId == noteId && v == ViewOf(db, c)
    ensures forall i, j :: 0 <= i < j < |r| ==> r[i].createdAt <= r[j].createdAt
  {
    var sorted := Seqs.SortBy(Seqs.Filter(db.comments, OnNote(noteId)), Oldest);
    ListFacts(db, noteId, sorted);
    Views(db, sorted)
  }

  function Views(db: Db, s: seq<Comment>): (r: seq<CommentView>)
    ensures |r| == |s|
    ensures forall i :: 0 <= i < |s| ==> r[i] == ViewOf(db, s[i])
  {
    seq(|s|, i requires 0 <= i < |s| => ViewOf(db, s[i]))
  }

  lemma ListFacts(db: Db, noteId: Id, sorted: seq<Comment>)
    requires sorted == Seqs.SortBy(Seqs.Filter(db.comments, OnNote(noteId)), Oldest)
    ensures var r := Views(db, sorted);
      && |r| == |Seqs.Filter(db.comments, OnNote(noteId))|
      && (forall c :: c in db.comments && c.noteId == noteId ==> ViewOf(db, c) in r)
      && (forall v :: v in r ==> exists c :: c in db.comments && c.noteId == noteId && v == ViewOf(db, c))
      && (forall i, j :: 0 <= i < j < |r| ==> r[i].createdAt <= r[j].createdAt)
  {
    var mine := Seqs.Filter(db.comments, OnNote(noteId));
    Seqs.SortByMembers(mine, Oldest);
    var r := Views(db, sorted);
    forall c | c in db.comments && c.noteId == noteId ensures ViewOf(db, c) in r {
      assert c in sorted;
      var k :| 0 <= k < |sorted| && sorted[k] == c;
      assert r[k] == ViewOf(db, c);
    }
    forall v | v in r ensures exists c :: c in db.comments && c.noteId == noteId && v == ViewOf(db, c) {
      var k :| 0 <= k < |r| && r[k] == v;
      assert sorted[k] in mine;
    }
    forall i, j | 0 <= i < j < |r| ensures r[i].createdAt <= r[j].createdAt {
      assert Seqs.KeyLe(Oldest(sorted[i]), Oldest(sorted[j]));
    }
  }

  function IsComment(noteId: Id, commentId: Id): Comment -> bool {
    (c: Comment) => c.id == commentId && c.noteId == noteId
  }

  function NotId(commentId: Id): Comment -> bool {
    (c: Comment) => c.id != commentId
  }

  /**
   * DELETE /api/public/:noteId/comments/:commentId: 404 when the note has no comment with that
   * id, 403 when the caller did not write it, otherwise the comment is removed and every other
   * comment stays in place.
   */
  function Delete(db: Db, caller: Id, noteId: Id, commentId: Id): (r: Result<Db, Error>)
    ensures (forall c :: c in db.comments ==> !(c.id == commentId && c.noteId == noteId)) ==> r == Err(NotFound)
    ensures r == Err(Forbidden) ==> exists c :: c in db.comments && c.id == commentId && c.noteId == noteId && c.userId != caller
    ensures r.Ok? ==> exists c :: c in db.comments && c.id == commentId && c.noteId == noteId && c.userId == caller
    ensures Wf(db) && (exists c :: c in db.comments && c.id == commentId && c.noteId == noteId && c.userId != caller) ==> r == Err(Forbidden)
    ensures Wf(db) && (exists c :: c in db.comments && c.id == commentId && c.noteId == noteId && c.userId == caller) ==> r.Ok?
    ensures r.Ok? ==> r.value == db.(comments := r.value.comments)
    ensures r.Ok? ==> forall c :: c in r.value.comments <==> c in db.comments && c.id != commentId
    ensures r.Ok? && Wf(db) ==> Wf(r.value)
  {
    FoundIsTheComment(db, noteId, commentId);
    match Seqs.Find(db.comments, IsComment(noteId, commentId))
    case None => Err(NotFound)
    case Some(c) =>
      if c.userId != caller then Err(Forbidden)
      else
        RemoveWf(db, commentId);
        Ok(db.(comments := Seqs.Filter(db.comments, NotId(commentId))))
  }

  lemma RemoveWf(db: Db, commentId: Id)
    ensures Wf(db) ==> Wf(db.(comments := Seqs.Filter(db.comments, NotId(commentId))))
  {
    if Wf(db) {
      Seqs.FilterUnique(db.comments, NotId(commentId), CommentKey);
    }
  }

  /** With unique ids, the lookup by (id, note) finds the one comment that has them. */
  lemma FoundIsTheComment(db: Db, noteId: Id, commentId: Id)
    ensures Wf(db) ==> forall c :: c in db.comments && c.id == commentId && c.noteId == noteId ==>
      Seqs.Find(db.comments, IsComment(noteId, commentId)) == Some(c)
  {
    if Wf(db) {
      forall c | c in db.comments && c.id == commentId && c.noteId == noteId
        ensures Seqs.Find(db.comments, IsComment(noteId, commentId)) == Some(c)
      {
        var found := Seqs.Find(db.comments, IsComment(noteId, commentId));
        assert IsComment(noteId, commentId)(c);
        var k :| 0 <= k < |db.comments| && db.comments[k] == c;
        var j :| 0 <= j < |db.comments| && db.comments[j] == found.value;
        assert CommentKey(db.comments[k]) == CommentKey(db.comments[j]);
      }
    }
  }

  /** The author's delete of an existing comment always succeeds, and a non-author's is refused. */
  lemma AuthorMayDelete(db: Db, c: Comment, other: Id)
    requires Wf(db)
    requires c in db.comments
    ensures Delete(db, c.userId, c.noteId, c.id).Ok?
    ensures other != c.userId ==> Delete(db, other, c.noteId, c.id) == Err(Forbidden)
  {
  }

  /** A deleted comment is gone from every later listing of its note, and the listing shrinks
      by exactly one. */
  lemma DeleteRemovesFromList(db: Db, caller: Id, noteId: Id, commentId: Id)
    requires Wf(db)
    requires Delete(db, caller, noteId, commentId).Ok?
    ensures forall v :: v in List(Delete(db, caller, noteId, commentId).value, noteId) ==> v.id != commentId
    ensures |List(Delete(db, caller, noteId, commentId).value, noteId)| + 1 == |List(db, noteId)|
  {
    var db' := Delete(db, caller, noteId, commentId).value;
    var c :| c in db.comments && c.id == commentId && c.noteId == noteId && c.userId == caller;
    var k :| 0 <= k < |db.comments| && db.comments[k] == c;
    CountWithout(db.comments, noteId, commentId, k);
  }

  /** Removing a unique id from the log removes exactly one of that note's comments. */
  lemma {:induction false} CountWithout(s: seq<Comment>, noteId: Id, commentId: Id, k: nat)
    requires Seqs.UniqueBy(s, CommentKey)
    requires k < |s| && s[k].id == commentId && s[k].noteId == noteId
    ensures |Seqs.Filter(Seqs.Filter(s, NotId(commentId)), OnNote(noteId))| + 1 == |Seqs.Filter(s, OnNote(noteId))|
    decreases |s|
  {
    var t := s[1..];
    assert Seqs.UniqueBy(t, CommentKey);
    if k == 0 {
      forall x | x in t ensures NotId(commentId)(x) {
        var i :| 0 <= i < |t| && t[i] == x;
        assert CommentKey(s[0]) != CommentKey(s[i + 1]);
      }
      Seqs.FilterKeepsAll(t, NotId(commentId));
    } else {
      CountWithout(t, noteId, commentId, k - 1);
    }
  }
}
