/**
 * The author name shown for a public note (list and detail handlers) and for a comment.
 */
module Display {
  import opened Wrappers
  import opened Schema

  /** The sentinel shown instead of an anonymous note's author. */
  const Anonymous := "Anónimo"

  /**
   * The author string: the sentinel when the note is anonymous, otherwise the alias when it is
   * non-empty and public, otherwise the email. The alias is never shown unless it is public.
   */
  function Resolve(isAnonymous: bool, alias: string, aliasPublic: bool, email: string): (r: string)
    ensures r == Anonymous || r == alias || r == email
    ensures isAnonymous ==> r == Anonymous
    ensures !isAnonymous && r != email ==> r == alias && alias != "" && aliasPublic
    ensures !isAnonymous && alias != "" && aliasPublic ==> r == alias
  {
    if isAnonymous then Anonymous
    else if aliasPublic && alias != "" then alias
    else email
  }

  /** An anonymous note's author string does not depend on the author's profile at all. */
  lemma AnonymousHidesProfile(a1: string, p1: bool, e1: string, a2: string, p2: bool, e2: string)
    ensures Resolve(true, a1, p1, e1) == Resolve(true, a2, p2, e2) == Anonymous
  {
  }

  /** A private alias is never displayed: a non-anonymous author with a private alias shows the email. */
  lemma PrivateAliasShowsEmail(alias: string, email: string)
    ensures Resolve(false, alias, false, email) == email
  {
  }

  /**
   * `display_author` of a public note row, from the note and the LEFT JOINed owner row. Without
   * an owner row (a dangling `user_id`) the email and alias are NULL and so is the result.
   */
  function NoteAuthor(n: Note, owner: Option<User>): (r: Option<string>)
    ensures n.isAnonymous != 0 ==> r == Some(Anonymous)
    ensures n.isAnonymous == 0 ==> (r.Some? <==> owner.Some?)
    ensures owner.Some? ==> r == Some(Resolve(n.isAnonymous != 0, owner.value.aka, owner.value.akaPublic != 0, owner.value.email))
  {
    if n.isAnonymous != 0 then Some(Anonymous)
    else match owner
      case None => None
      case Some(u) => Some(if u.akaPublic != 0 && u.aka != "" then u.aka else u.email)
  }

  /**
   * `display_author` of a comment: the email, replaced by the alias when the alias is set and
   * public. This is the note resolver with anonymity switched off.
   */
  function CommentAuthor(author: Option<User>): (r: Option<string>)
    ensures author.None? ==> r.None?
    ensures author.Some? ==> r == Some(Resolve(false, author.value.aka, author.value.akaPublic != 0, author.value.email))
  {
    match author
    case None => None
    case Some(u) => Some(if u.akaPublic != 0 && u.aka != "" then u.aka else u.email)
  }

  /** A comment and a non-anonymous note by the same author show the same name. */
  lemma CommentMatchesNote(n: Note, author: Option<User>)
    requires n.isAnonymous == 0
    ensures CommentAuthor(author) == NoteAuthor(n, author)
  {
  }

  /** A comment shows the sentinel only if the author chose it as alias or email. */
  lemma CommentNeverAnonymous(author: Option<User>)
    ensures CommentAuthor(author) == Some(Anonymous) ==>
      author.Some? && (author.value.aka == Anonymous || author.value.email == Anonymous)
  {
  }
}
