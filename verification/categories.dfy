/**
 * The category handlers: list, create, rename and delete, all over the categories table whose
 * `name` column is UNIQUE NOT NULL.
 */
module CategoryStore {
  import opened Wrappers
  import opened Schema
  import Seqs

  const MaxNameLength := 50

  predicate NameTaken(db: Db, name: string) {
    exists c :: c in db.categories && c.name == name
  }

  /** The shared body checks of create and rename: a missing or empty name, then one over 50 characters. */
  function CheckName(name: Option<string>): (r: Result<string, Error>)
    ensures r.Ok? <==> name.Some? && 0 < |name.value| <= MaxNameLength
    ensures r.Ok? ==> r.value == name.value
    ensures r.Err? ==> r.error == BadRequest(if name.None? || name.value == "" then MissingName else NameTooLong)
  {
    if name.None? || name.value == "" then Err(BadRequest(MissingName))
    else if |name.value| > MaxNameLength then Err(BadRequest(NameTooLong))
    else Ok(name.value)
  }

  /** GET /api/categories: every row, in table order. */
  function All(db: Db): (r: seq<Category>)
    ensures forall c :: c in r <==> c in db.categories
  {
    db.categories
  }

  /**
   * POST /api/categories: a valid name that no category has yet is inserted with the next id and
   * echoed back; a name already present violates UNIQUE and is refused with 400.
   */
  function Create(db: Db, name: Option<string>): (r: Result<(Db, Category), Error>)
    ensures CheckName(name).Err? ==> r == Err(CheckName(name).error)
    ensures CheckName(name).Ok? ==> (r == Err(BadRequest(CategoryExists)) <==> NameTaken(db, name.value))
    ensures CheckName(name).Ok? && !NameTaken(db, name.value) ==> r.Ok?
    ensures r.Ok? ==>
      && r.value.1 == Category(db.nextCategoryId, name.value)
      && r.value.0 == db.(categories := db.categories + [r.value.1], nextCategoryId := db.nextCategoryId + 1)
    ensures r.Ok? && Wf(db) ==> Wf(r.value.0)
  {
    var n :- CheckName(name);
    if Seqs.Find(db.categories, (c: Category) => c.name == n).Some? then Err(BadRequest(CategoryExists))
    else
      var c := Category(db.nextCategoryId, n);
      AppendWf(db, c);
      Ok((db.(categories := db.categories + [c], nextCategoryId := db.nextCategoryId + 1), c))
  }

  lemma AppendWf(db: Db, c: Category)
    requires c.id == db.nextCategoryId && !NameTaken(db, c.name)
    ensures Wf(db) ==> Wf(db.(categories := db.categories + [c], nextCategoryId := db.nextCategoryId + 1))
  {
    if Wf(db) {
      Seqs.AppendUnique(db.categories, c, CategoryKey);
      Seqs.AppendUnique(db.categories, c, NameKey);
    }
  }

  /** Another category than `id` already carries `name`: the UPDATE would break UNIQUE. */
  predicate Clashes(db: Db, id: Id, name: string) {
    (exists c :: c in db.categories && c.id == id)
    && (exists c :: c in db.categories && c.id != id && c.name == name)
  }

  function Renamed(id: Id, name: string): Category -> Category {
    (c: Category) => if c.id == id then c.(name := name) else c
  }

  /**
   * PUT /api/categories/:id: a valid name is written to the row with that id. It is refused
   * when another row already has the name and the row exists (only then does the UPDATE touch a
   * row); an id that matches no row succeeds and changes nothing.
   */
  function Rename(db: Db, id: Id, name: Option<string>): (r: Result<Db, Error>)
    ensures CheckName(name).Err? ==> r == Err(CheckName(name).error)
    ensures CheckName(name).Ok? ==> (r.Err? <==> Clashes(db, id, name.value))
    ensures r.Err? && CheckName(name).Ok? ==> r.error == BadRequest(CategoryExists)
    ensures r.Ok? ==> r.value == db.(categories := r.value.categories) && |r.value.categories| == |db.categories|
    ensures r.Ok? ==> forall i :: 0 <= i < |db.categories| ==>
      r.value.categories[i].id == db.categories[i].id
      && r.value.categories[i].name == if db.categories[i].id == id then name.value else db.categories[i].name
    ensures r.Ok? && (forall c :: c in db.categories ==> c.id != id) ==> r.value == db
    ensures r.Ok? && Wf(db) ==> Wf(r.value)
  {
    var n :- CheckName(name);
    if Seqs.Find(db.categories, (c: Category) => c.id == id).Some?
       && Seqs.Find(db.categories, (c: Category) => c.id != id && c.name == n).Some?
    then Err(BadRequest(CategoryExists))
    else
      RenameWf(db, id, n);
      MissingUnchanged(db.categories, id, n);
      Ok(db.(categories := Seqs.MapRows(db.categories, Renamed(id, n))))
  }

  lemma MissingUnchanged(cs: seq<Category>, id: Id, name: string)
    ensures (forall c :: c in cs ==> c.id != id) ==> Seqs.MapRows(cs, Renamed(id, name)) == cs
  {
    if forall c :: c in cs ==> c.id != id {
      var r := Seqs.MapRows(cs, Renamed(id, name));
      forall i | 0 <= i < |cs| ensures r[i] == cs[i] {
        assert cs[i] in cs;
      }
    }
  }

  lemma RenameWf(db: Db, id: Id, name: string)
    requires !Clashes(db, id, name)
    ensures Wf(db) ==> Wf(db.(categories := Seqs.MapRows(db.categories, Renamed(id, name))))
  {
    if Wf(db) {
      var f := Renamed(id, name);
      var r := Seqs.MapRows(db.categories, f);
      Seqs.MapUnique(db.categories, f, CategoryKey);
      forall c | c in r ensures 0 < c.id < db.nextCategoryId {
        var k :| 0 <= k < |r| && r[k] == c;
        assert db.categories[k] in db.categories;
      }
      forall i, j | 0 <= i < j < |r| ensures r[i].name != r[j].name {
        assert db.categories[i] in db.categories && db.categories[j] in db.categories;
        assert db.categories[i].id != db.categories[j].id;
      }
    }
  }

  function NotId(id: Id): Category -> bool {
    (c: Category) => c.id != id
  }

  /**
   * DELETE /api/categories/:id: the row goes, whoever asks and whether or not notes still use
   * it; those notes keep the stale `category_id`.
   */
  function Delete(db: Db, id: Id): (r: Db)
    ensures forall c :: c in r.categories <==> c in db.categories && c.id != id
    ensures r == db.(categories := r.categories)
    ensures Wf(db) ==> Wf(r)
  {
    DeleteWf(db, id);
    db.(categories := Seqs.Filter(db.categories, NotId(id)))
  }

  lemma DeleteWf(db: Db, id: Id)
    ensures Wf(db) ==> Wf(db.(categories := Seqs.Filter(db.categories, NotId(id))))
  {
    if Wf(db) {
      Seqs.FilterUnique(db.categories, NotId(id), CategoryKey);
      Seqs.FilterUnique(db.categories, NotId(id), NameKey);
    }
  }

  /** After its category is deleted a note still points at it, and the join finds no name. */
  lemma DeleteLeavesDanglingNotes(db: Db, id: Id, n: Note)
    requires n in db.notes && n.categoryId == id
    ensures n in Delete(db, id).notes
    ensures CategoryName(Delete(db, id), n.categoryId).None?
  {
  }
}
