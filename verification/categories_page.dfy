/**
 * The category manager: the name check shared by the add and the rename forms, and what each
 * form sends.
 */
module CategoriesPage {
  import opened Wrappers
  import opened Js
  import opened Schema
  import CategoryStore

  const MaxNameLength := 50

  datatype NameProblem = BlankName | LongName

  /**
   * Both forms refuse a name that is blank, then one longer than 50 characters counted before
   * trimming; an accepted name is sent trimmed.
   */
  function CheckName(input: string): (r: Result<string, NameProblem>)
    ensures r.Ok? <==> !IsBlank(input) && |input| <= MaxNameLength
    ensures IsBlank(input) ==> r == Err(BlankName)
    ensures !IsBlank(input) && |input| > MaxNameLength ==> r == Err(LongName)
    ensures r.Ok? ==> r.value == Trim(input) && r.value != []
    ensures r.Ok? ==> !IsWhitespace(r.value[0]) && !IsWhitespace(r.value[|r.value| - 1])
  {
    if IsBlank(input) then Err(BlankName)
    else if |input| > MaxNameLength then Err(LongName)
    else Ok(Trim(input))
  }

  /** A name the add form sends passes the handler's checks; only a taken name is refused. */
  lemma AddedNameAccepted(db: Db, input: string)
    requires CheckName(input).Ok?
    ensures var name := CheckName(input).value;
      && CategoryStore.CheckName(Some(name)).Ok?
      && (CategoryStore.Create(db, Some(name)).Ok? <==> !CategoryStore.NameTaken(db, name))
      && (CategoryStore.Create(db, Some(name)).Ok? ==> CategoryStore.Create(db, Some(name)).value.1.name == name)
  {
  }

  /** The rename form sends the same trimmed name, refused only when another category has it. */
  lemma RenamedNameAccepted(db: Db, id: Id, input: string)
    requires CheckName(input).Ok?
    ensures var name := CheckName(input).value;
      CategoryStore.Rename(db, id, Some(name)).Ok? <==> !CategoryStore.Clashes(db, id, name)
  {
  }

  /** A name padded with spaces is sent without them, so it clashes with the unpadded one. */
  lemma PaddingDoesNotMakeANewName(db: Db, input: string)
    requires CheckName(input).Ok?
    requires exists c :: c in db.categories && c.name == Trim(input)
    ensures CategoryStore.Create(db, Some(CheckName(input).value)) == Err(BadRequest(CategoryExists))
  {
  }
}
