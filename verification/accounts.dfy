/**
 * Registration and the profile handlers: the users table.
 */
module Accounts {
  import opened Wrappers
  import opened Js
  import opened Schema
  import Seqs

  const MaxEmailLength := 100
  const MaxPasswordLength := 100
  const MaxAkaLength := 40
  const MinPasswordLength := 6

  /** The JSON body of POST /api/register; `aka` defaults to "" and `aka_public` to true when absent. */
  datatype RegisterBody = RegisterBody(email: Option<string>, password: Option<string>, aka: Option<string>, akaPublic: Json)

  function AkaOrDefault(aka: Option<string>): string {
    if aka.Some? then aka.value else ""
  }

  /** `aka_public = true` as a destructuring default: only a missing key takes it; `null` is false. */
  function AkaPublicOrDefault(v: Json): (f: int)
    ensures v == Undefined ==> f == 1
    ensures v != Undefined ==> f == Flag(v)
  {
    if v == Undefined then 1 else Flag(v)
  }

  /** Email and password present and non-empty, and no field over its length limit. */
  predicate WithinBounds(b: RegisterBody) {
    && b.email.Some? && b.password.Some? && b.email.value != "" && b.password.value != ""
    && |b.email.value| <= MaxEmailLength && |b.password.value| <= MaxPasswordLength
    && |AkaOrDefault(b.aka)| <= MaxAkaLength
  }

  predicate EmailTaken(db: Db, email: string) {
    exists u :: u in db.users && u.email == email
  }

  /**
   * POST /api/register. Missing email or password, then any over-long field, then a password
   * under six characters are refused with 400, and so is an email already registered; otherwise
   * a user with the next id is appended. `passwordHash` stands for the bcrypt hash of the password.
   */
  function Register(db: Db, b: RegisterBody, passwordHash: string, now: int): (r: Result<Db, Error>)
    ensures b.email.None? || b.email == Some("") || b.password.None? || b.password == Some("") ==>
      r == Err(BadRequest(MissingFields))
    ensures r.Ok? ==>
      && 0 < |b.email.value| <= MaxEmailLength
      && MinPasswordLength <= |b.password.value| <= MaxPasswordLength
      && |AkaOrDefault(b.aka)| <= MaxAkaLength
      && !EmailTaken(db, b.email.value)
      && r.value == db.(users := db.users + [User(db.nextUserId, b.email.value, passwordHash, AkaOrDefault(b.aka), AkaPublicOrDefault(b.akaPublic), now)],
                        nextUserId := db.nextUserId + 1)
    ensures b.email.Some? && b.password.Some? && b.email.value != "" && b.password.value != "" ==>
      (r == Err(BadRequest(TooLong)) <==>
        |b.email.value| > MaxEmailLength || |b.password.value| > MaxPasswordLength || |AkaOrDefault(b.aka)| > MaxAkaLength)
    ensures r.Err? ==> r.error in {BadRequest(MissingFields), BadRequest(TooLong), BadRequest(PasswordTooShort), BadRequest(UserExists)}
    ensures r == Err(BadRequest(PasswordTooShort)) ==> |b.password.value| < MinPasswordLength
    ensures WithinBounds(b) ==> (r == Err(BadRequest(PasswordTooShort)) <==> |b.password.value| < MinPasswordLength)
    ensures r == Err(BadRequest(UserExists)) ==> EmailTaken(db, b.email.value)
    ensures b.email.Some? && EmailTaken(db, b.email.value) ==> r.Err?
    ensures WithinBounds(b) && MinPasswordLength <= |b.password.value| ==> (r == Err(BadRequest(UserExists)) <==> EmailTaken(db, b.email.value))
    ensures WithinBounds(b) && MinPasswordLength <= |b.password.value| && !EmailTaken(db, b.email.value) ==> r.Ok?
    ensures r.Ok? && Wf(db) ==> Wf(r.value)
  {
    if b.email.None? || b.email.value == "" || b.password.None? || b.password.value == "" then Err(BadRequest(MissingFields))
    else if |b.email.value| > MaxEmailLength || |b.password.value| > MaxPasswordLength || |AkaOrDefault(b.aka)| > MaxAkaLength then Err(BadRequest(TooLong))
    else if |b.password.value| < MinPasswordLength then Err(BadRequest(PasswordTooShort))
    else if Seqs.Find(db.users, (u: User) => u.email == b.email.value).Some? then Err(BadRequest(UserExists))
    else
      var u := User(db.nextUserId, b.email.value, passwordHash, AkaOrDefault(b.aka), AkaPublicOrDefault(b.akaPublic), now);
      AppendWf(db, u);
      Ok(db.(users := db.users + [u], nextUserId := db.nextUserId + 1))
  }

  lemma AppendWf(db: Db, u: User)
    requires u.id == db.nextUserId && IsFlag(u.akaPublic) && !EmailTaken(db, u.email)
    ensures Wf(db) ==> Wf(db.(users := db.users + [u], nextUserId := db.nextUserId + 1))
  {
    if Wf(db) {
      Seqs.AppendUnique(db.users, u, UserKey);
      Seqs.AppendUnique(db.users, u, EmailKey);
    }
  }

  /** The same email cannot register twice. */
  lemma DuplicateEmailRejected(db: Db, b1: RegisterBody, b2: RegisterBody, h1: string, h2: string, t1: int, t2: int)
    requires Register(db, b1, h1, t1).Ok?
    requires b2.email == b1.email
    ensures Register(Register(db, b1, h1, t1).value, b2, h2, t2).Err?
  {
    var db' := Register(db, b1, h1, t1).value;
    assert db'.users[|db'.users| - 1].email == b1.email.value;
    assert EmailTaken(db', b1.email.value);
  }

  /** What GET /api/profile answers: id, email, alias and alias visibility. */
  datatype Profile = Profile(id: Id, email: string, aka: string, akaPublic: int)

  /** GET /api/profile: the caller's profile, 404 when the caller is not a user. */
  function GetProfile(db: Db, caller: Id): (r: Result<Profile, Error>)
    ensures r.Err? <==> forall u :: u in db.users ==> u.id != caller
    ensures r.Err? ==> r.error == NotFound
    ensures r.Ok? ==> exists u :: u in db.users && u.id == caller && r.value == Profile(u.id, u.email, u.aka, u.akaPublic)
  {
    match FindUser(db, caller)
    case None => Err(NotFound)
    case Some(u) => Ok(Profile(u.id, u.email, u.aka, u.akaPublic))
  }

  /** The alias the update stores: `aka || ''`. */
  function StoredAka(aka: Option<string>): (s: string)
    ensures aka.None? ==> s == ""
    ensures aka.Some? ==> s == aka.value
  {
    if aka.Some? && aka.value != "" then aka.value else ""
  }

  /**
   * PUT /api/profile. A non-empty alias over 40 characters is refused with 400; otherwise the
   * caller's row takes the alias (a missing one stored as "") and the 0/1 visibility. Every
   * other user is left as it was.
   */
  function UpdateProfile(db: Db, caller: Id, aka: Option<string>, akaPublic: Json): (r: Result<Db, Error>)
    ensures r.Err? <==> aka.Some? && |aka.value| > MaxAkaLength
    ensures r.Err? ==> r.error == BadRequest(TooLong)
    ensures r.Ok? ==> r.value == db.(users := r.value.users) && |r.value.users| == |db.users|
    ensures r.Ok? ==> forall i :: 0 <= i < |db.users| ==>
      r.value.users[i] == if db.users[i].id == caller
        then db.users[i].(aka := StoredAka(aka), akaPublic := Flag(akaPublic))
        else db.users[i]
    ensures r.Ok? ==> forall u :: u in r.value.users ==> u.id == caller ==> |u.aka| <= MaxAkaLength
    ensures r.Ok? && Wf(db) ==> Wf(r.value)
  {
    if aka.Some? && aka.value != "" && |aka.value| > MaxAkaLength then Err(BadRequest(TooLong))
    else
      var f := (u: User) => if u.id == caller then u.(aka := StoredAka(aka), akaPublic := Flag(akaPublic)) else u;
      UpdateWf(db, f);
      Ok(db.(users := Seqs.MapRows(db.users, f)))
  }

  lemma UpdateWf(db: Db, f: User -> User)
    requires forall u: User :: f(u).id == u.id && f(u).email == u.email
    requires forall u: User :: IsFlag(u.akaPublic) ==> IsFlag(f(u).akaPublic)
    ensures Wf(db) ==> Wf(db.(users := Seqs.MapRows(db.users, f)))
  {
    if Wf(db) {
      Seqs.MapUnique(db.users, f, UserKey);
      Seqs.MapUnique(db.users, f, EmailKey);
      var r := Seqs.MapRows(db.users, f);
      forall u | u in r ensures 0 < u.id < db.nextUserId && IsFlag(u.akaPublic) {
        var k :| 0 <= k < |r| && r[k] == u;
        assert db.users[k] in db.users;
      }
    }
  }
}
