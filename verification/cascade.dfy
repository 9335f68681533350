/**
 * What deleting a note does to its ratings and comments. The schema declares ON DELETE CASCADE
 * on both, but the connection never issues `PRAGMA foreign_keys = ON`, so nothing cascades.
 */
module NoteRemoval {
  import opened Wrappers
  import opened Schema
  import Seqs
  import Notes
  import Comments
  import Ratings

  /** As written: deleting a note leaves its ratings and its comments, and the comment listing
      of the deleted note's id returns exactly what it returned before. */
  lemma DeleteLeavesOrphans(db: Db, caller: Id, id: Id)
    ensures Notes.Delete(db, caller, id).ratings == db.ratings
    ensures Comments.List(Notes.Delete(db, caller, id), id) == Comments.List(db, id)
  {
  }

  /** A concrete store: user 1 owns note 1, which has one comment; after the owner deletes the
      note its comment is still listed. */
  lemma OrphanCommentStillListed()
    ensures var u := User(1, "a@b.c", "h", "", 1, 0);
      var n := Note(1, 1, "t", "x", 1, 1, 0, None, 0);
      var c := Comment(1, 1, 1, "hola", 0);
      var db := Db([u], [Category(1, "Personal")], [n], [], [c], 2, 2, 2, 1, 2);
      Notes.OwnsNote(db, 1, 1) && |Comments.List(Notes.Delete(db, 1, 1), 1)| == 1
  {
    var u := User(1, "a@b.c", "h", "", 1, 0);
    var n := Note(1, 1, "t", "x", 1, 1, 0, None, 0);
    var c := Comment(1, 1, 1, "hola", 0);
    var db := Db([u], [Category(1, "Personal")], [n], [], [c], 2, 2, 2, 1, 2);
    assert n in db.notes;
    DeleteLeavesOrphans(db, 1, 1);
    assert Seqs.Filter(db.comments, Comments.OnNote(1)) == [c];
  }

  function NotOfNote(id: Id): Rating -> bool {
    (r: Rating) => r.noteId != id
  }

  function CommentNotOfNote(id: Id): Comment -> bool {
    (c: Comment) => c.noteId != id
  }

  /**
   * The intended delete: when the caller owns the note, the note, its ratings and its comments
   * all go; otherwise nothing changes.
   */
  function DeleteCascade(db: Db, caller: Id, id: Id): (r: Db)
    ensures r.notes == Notes.Delete(db, caller, id).notes
    ensures !Notes.OwnsNote(db, caller, id) ==> r == db
    ensures Notes.OwnsNote(db, caller, id) ==>
      && Comments.List(r, id) == []
      && Ratings.Likes(r.ratings, id) == 0 && Ratings.Dislikes(r.ratings, id) == 0
      && (forall x :: x in r.ratings <==> x in db.ratings && x.noteId != id)
      && (forall c :: c in r.comments <==> c in db.comments && c.noteId != id)
    ensures Wf(db) ==> Wf(r)
  {
    var deleted := Notes.Delete(db, caller, id);
    if !Notes.OwnsNote(db, caller, id) then deleted
    else
      var r := deleted.(ratings := Seqs.Filter(db.ratings, NotOfNote(id)),
                        comments := Seqs.Filter(db.comments, CommentNotOfNote(id)));
      CascadeWf(db, deleted, id);
      NoCommentsLeft(r, id);
      r
  }

  lemma CascadeWf(db: Db, deleted: Db, id: Id)
    requires deleted == db.(notes := deleted.notes)
    requires Wf(db) ==> Wf(deleted)
    ensures Wf(db) ==> Wf(deleted.(ratings := Seqs.Filter(db.ratings, NotOfNote(id)),
                                   comments := Seqs.Filter(db.comments, CommentNotOfNote(id))))
  {
    if Wf(db) {
      Seqs.FilterUnique(db.ratings, NotOfNote(id), RatingKey);
      Seqs.FilterUnique(db.ratings, NotOfNote(id), PairKey);
      Seqs.FilterUnique(db.comments, CommentNotOfNote(id), CommentKey);
    }
  }

  lemma NoCommentsLeft(db: Db, id: Id)
    requires forall c :: c in db.comments ==> c.noteId != id
    ensures Comments.List(db, id) == []
  {
    Seqs.FilterKeepsNone(db.comments, Comments.OnNote(id));
  }
}
