/**
 * The "Mis Notas" page: the public/anonymous toggles on each row, the local search box and the
 * local removal after a delete. The rows are the caller's notes as GET /api/notes returns them.
 */
module NotesListPage {
  import opened Wrappers
  import opened Js
  import opened Schema
  import Seqs
  import Notes

  /** Which checkbox of a row was clicked. */
  datatype Field = IsPublicField | IsAnonymousField

  /** `!!note.is_public`, `!!note.is_anonymous`: the row's flags as booleans. */
  predicate Shown(flag: int) {
    flag != 0
  }

  /** The public flag the toggle sends. */
  function NextPublic(n: Note, field: Field, value: bool): (p: bool)
    ensures field == IsPublicField ==> p == value
    ensures field == IsAnonymousField ==> p == Shown(n.isPublic)
  {
    if field == IsPublicField then value else Shown(n.isPublic)
  }

  /** The anonymous flag the toggle sends: never set on a note that is not to be public. */
  function NextAnonymous(n: Note, field: Field, value: bool): (a: bool)
    ensures !NextPublic(n, field, value) ==> !a
    ensures NextPublic(n, field, value) && field == IsAnonymousField ==> a == value
    ensures NextPublic(n, field, value) && field == IsPublicField ==> a == Shown(n.isAnonymous)
  {
    var p := NextPublic(n, field, value);
    if p && field == IsAnonymousField then value else Shown(n.isAnonymous) && p
  }

  /** The row as the optimistic update rewrites it before the request is answered. */
  function Optimistic(n: Note, field: Field, value: bool): (m: Note)
    ensures m == n.(isPublic := m.isPublic, isAnonymous := m.isAnonymous)
    ensures field == IsPublicField ==> m.isPublic == (if value then 1 else 0)
    ensures field == IsPublicField && !value ==> m.isAnonymous == 0
    ensures field == IsPublicField && value ==> m.isAnonymous == n.isAnonymous
    ensures field == IsAnonymousField ==> m.isPublic == n.isPublic && m.isAnonymous == (if value then 1 else 0)
  {
    var flag := if value then 1 else 0;
    match field
    case IsPublicField => n.(isPublic := flag, isAnonymous := if value then n.isAnonymous else 0)
    case IsAnonymousField => n.(isAnonymous := flag)
  }

  /** The page's list after the optimistic update: only the row with the toggled id changes. */
  function ToggleRows(rows: seq<Notes.OwnNote>, id: Id, field: Field, value: bool): (r: seq<Notes.OwnNote>)
    ensures |r| == |rows|
    ensures forall i :: 0 <= i < |rows| && rows[i].note.id != id ==> r[i] == rows[i]
    ensures forall i :: 0 <= i < |rows| && rows[i].note.id == id ==>
      r[i] == rows[i].(note := Optimistic(rows[i].note, field, value))
  {
    Seqs.MapRows(rows, (x: Notes.OwnNote) => if x.note.id == id then x.(note := Optimistic(x.note, field, value)) else x)
  }

  /** The two chips a row shows; the anonymous one only beside the public one. */
  datatype Badges = Badges(isPublic: bool, isAnonymous: bool)

  function BadgesOf(isPublic: int, isAnonymous: int): (b: Badges)
    ensures b.isAnonymous ==> b.isPublic
    ensures b.isPublic <==> isPublic != 0
    ensures b.isAnonymous <==> isPublic != 0 && isAnonymous != 0
  {
    Badges(Shown(isPublic), Shown(isAnonymous) && Shown(isPublic))
  }

  /** The optimistic row shows exactly the flags the toggle sends, whichever box was clicked. */
  lemma OptimisticShowsWhatIsSent(n: Note, field: Field, value: bool)
    ensures var m := Optimistic(n, field, value);
      BadgesOf(m.isPublic, m.isAnonymous) == Badges(NextPublic(n, field, value), NextAnonymous(n, field, value))
  {
  }

  /** How the toggle's request body reaches the handler. */
  datatype Encoding = Multipart | JsonBody

  /**
   * The body the update handler sees. The route only parses JSON, so a multipart form reaches it
   * as an empty object; a JSON body carries the row's title, text and category with the two flags
   * as booleans.
   */
  function ReceivedBody(enc: Encoding, n: Note, field: Field, value: bool): (b: Notes.NoteBody)
    ensures enc == Multipart ==> b.title.None? && b.text.None? && b.categoryId.None?
    ensures enc == JsonBody ==>
      b == Notes.NoteBody(Some(n.title), Some(n.text), Some(n.categoryId),
                          Bool(NextPublic(n, field, value)), Bool(NextAnonymous(n, field, value)))
  {
    match enc
    case Multipart => Notes.NoteBody(None, None, None, Undefined, Undefined)
    case JsonBody => Notes.NoteBody(Some(n.title), Some(n.text), Some(n.categoryId),
                                    Bool(NextPublic(n, field, value)), Bool(NextAnonymous(n, field, value)))
  }

  /** What a multipart parser would hand over instead: the flags as the strings "1" and "0". */
  function FormFlags(n: Note, field: Field, value: bool): (flags: (Json, Json))
    ensures flags.0 == Str(if NextPublic(n, field, value) then "1" else "0")
    ensures flags.1 == Str(if NextAnonymous(n, field, value) then "1" else "0")
  {
    (Str(if NextPublic(n, field, value) then "1" else "0"), Str(if NextAnonymous(n, field, value) then "1" else "0"))
  }

  /**
   * The toggle as written: the request goes out as multipart form data, so the update handler
   * refuses it for missing fields and the store is left as it was; the page then reloads the list.
   */
  function ToggleAsSent(db: Db, caller: Id, n: Note, field: Field, value: bool): (r: Result<Db, Error>)
    ensures r == Err(BadRequest(MissingFields))
  {
    Notes.Update(db, caller, n.id, ReceivedBody(Multipart, n, field, value))
  }

  /** Even a parsed form would not help: "0" is a non-empty string, so both flags would be stored as 1. */
  lemma FormFlagsAlwaysTruthy(n: Note, field: Field, value: bool)
    ensures Flag(FormFlags(n, field, value).0) == 1 && Flag(FormFlags(n, field, value).1) == 1
  {
  }

  /** The corrected toggle: the same fields sent as JSON. */
  function Toggle(db: Db, caller: Id, n: Note, field: Field, value: bool): (r: Result<Db, Error>)
    ensures Notes.CheckBody(ReceivedBody(JsonBody, n, field, value)).Ok? ==> r.Ok?
    ensures r.Ok? ==> |r.value.notes| == |db.notes| && forall i :: 0 <= i < |db.notes| ==>
      var (before, after) := (db.notes[i], r.value.notes[i]);
      if Notes.Owned(before, caller, n.id) then
        after.isPublic == (if NextPublic(n, field, value) then 1 else 0)
        && after.isAnonymous == (if NextAnonymous(n, field, value) then 1 else 0)
      else after == before
    ensures r.Ok? && Wf(db) ==> Wf(r.value)
  {
    Notes.Update(db, caller, n.id, ReceivedBody(JsonBody, n, field, value))
  }

  /**
   * With the corrected toggle, the caller's stored note ends up showing the same chips as the
   * optimistic row did, so reloading the list changes nothing on screen.
   */
  lemma ToggleSavedMatchesOptimistic(db: Db, caller: Id, n: Note, field: Field, value: bool)
    requires Notes.CheckBody(ReceivedBody(JsonBody, n, field, value)).Ok?
    ensures var r := Toggle(db, caller, n, field, value);
      r.Ok? && forall i :: 0 <= i < |db.notes| && Notes.Owned(db.notes[i], caller, n.id) ==>
        var m := Optimistic(n, field, value);
        BadgesOf(r.value.notes[i].isPublic, r.value.notes[i].isAnonymous) == BadgesOf(m.isPublic, m.isAnonymous)
  {
    OptimisticShowsWhatIsSent(n, field, value);
  }

  /** The search box: a row stays when the lower-cased term occurs in its title, text or category name. */
  predicate Matches(row: Notes.OwnNote, term: string) {
    var t := ToLowerCase(term);
    || Includes(ToLowerCase(row.note.title), t)
    || Includes(ToLowerCase(row.note.text), t)
    || (row.categoryName.Some? && Includes(ToLowerCase(row.categoryName.value), t))
  }

  function Search(rows: seq<Notes.OwnNote>, term: string): (r: seq<Notes.OwnNote>)
    ensures forall x :: x in r <==> x in rows && Matches(x, term)
    ensures |r| <= |rows|
  {
    Seqs.Filter(rows, (x: Notes.OwnNote) => Matches(x, term))
  }

  /** An empty search box shows every row, in order. */
  lemma EmptySearchKeepsAll(rows: seq<Notes.OwnNote>)
    ensures Search(rows, "") == rows
  {
    forall x | x in rows ensures Matches(x, "") {
      IncludesEmpty(ToLowerCase(x.note.title));
    }
    Seqs.FilterKeepsAll(rows, (x: Notes.OwnNote) => Matches(x, ""));
  }

  /** Typing more never brings a row back: a row matching the longer term matches its prefix. */
  lemma LongerTermNarrows(rows: seq<Notes.OwnNote>, term: string, more: string)
    ensures forall x :: x in Search(rows, term + more) ==> x in Search(rows, term)
  {
    ToLowerCaseAppend(term, more);
    forall x | x in rows && Matches(x, term + more) ensures Matches(x, term) {
      var t, m := ToLowerCase(term), ToLowerCase(more);
      if Includes(ToLowerCase(x.note.title), t + m) {
        IncludesPrefix(ToLowerCase(x.note.title), t, m);
      } else if Includes(ToLowerCase(x.note.text), t + m) {
        IncludesPrefix(ToLowerCase(x.note.text), t, m);
      } else {
        IncludesPrefix(ToLowerCase(x.categoryName.value), t, m);
      }
    }
  }

  /** After a delete is answered the page drops every row with that id. */
  function RemoveLocal(rows: seq<Notes.OwnNote>, id: Id): (r: seq<Notes.OwnNote>)
    ensures forall x :: x in r <==> x in rows && x.note.id != id
  {
    Seqs.Filter(rows, (x: Notes.OwnNote) => x.note.id != id)
  }

  /** The local removal shows what reloading would: the caller's notes left after the server's delete. */
  lemma RemoveLocalMatchesServer(db: Db, caller: Id, id: Id)
    ensures forall x :: x in RemoveLocal(Notes.MyNotes(db, caller), id) <==> x in Notes.MyNotes(Notes.Delete(db, caller, id), caller)
  {
  }
}
