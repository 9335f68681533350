/**
 * The rating ledger: `note_ratings` with at most one row per (note, user), written by
 * `INSERT OR REPLACE`, removed by `DELETE`, and counted at read time into likes and dislikes.
 */
module Ratings {
  import opened Wrappers
  import opened Js
  import opened Schema
  import Seqs

  /** The caller's rating of a note, as the detail handler reads it (NULL when there is no row). */
  function UserRating(rows: seq<Rating>, noteId: Id, userId: Id): (r: Option<int>)
    ensures r.Some? ==> exists x :: x in rows && x.noteId == noteId && x.userId == userId && x.value == r.value
    ensures r.None? ==> forall x :: x in rows ==> !(x.noteId == noteId && x.userId == userId)
    decreases |rows|
  {
    if rows == [] then None
    else if rows[0].noteId == noteId && rows[0].userId == userId then Some(rows[0].value)
    else UserRating(rows[1..], noteId, userId)
  }

  /** `SELECT COUNT(*) FROM note_ratings WHERE note_id = ? AND rating = ?`. */
  function CountVotes(rows: seq<Rating>, noteId: Id, value: int): (c: nat)
    ensures c <= |rows|
    ensures c > 0 <==> exists x :: x in rows && x.noteId == noteId && x.value == value
    decreases |rows|
  {
    if rows == [] then 0
    else (if rows[0].noteId == noteId && rows[0].value == value then 1 else 0) + CountVotes(rows[1..], noteId, value)
  }

  function Likes(rows: seq<Rating>, noteId: Id): nat {
    CountVotes(rows, noteId, 1)
  }

  function Dislikes(rows: seq<Rating>, noteId: Id): nat {
    CountVotes(rows, noteId, -1)
  }

  /** Rows that do not belong to the pair (note, user). */
  function OtherPair(noteId: Id, userId: Id): Rating -> bool {
    (x: Rating) => !(x.noteId == noteId && x.userId == userId)
  }

  /** `DELETE FROM note_ratings WHERE note_id = ? AND user_id = ?`: every other row stays, in order. */
  function Remove(rows: seq<Rating>, noteId: Id, userId: Id): (r: seq<Rating>)
    ensures forall x :: x in r <==> x in rows && !(x.noteId == noteId && x.userId == userId)
  {
    Seqs.Filter(rows, OtherPair(noteId, userId))
  }

  /** The ledger after `INSERT OR REPLACE`: the row in conflict on UNIQUE(note_id, user_id) is
      deleted and a new row with the next id is appended. */
  function Replaced(db: Db, noteId: Id, userId: Id, value: int): seq<Rating> {
    Remove(db.ratings, noteId, userId) + [Rating(db.nextRatingId, noteId, userId, value)]
  }

  /**
   * `INSERT OR REPLACE INTO note_ratings`: afterwards the pair holds exactly the new value,
   * every other pair's vote is what it was, the other tables are untouched, and a ±1 value
   * keeps the store well formed.
   */
  function Upsert(db: Db, noteId: Id, userId: Id, value: int): (r: Db)
    ensures UserRating(r.ratings, noteId, userId) == Some(value)
    ensures forall m: Id, u: Id :: (m, u) != (noteId, userId) ==> UserRating(r.ratings, m, u) == UserRating(db.ratings, m, u)
    ensures r.users == db.users && r.notes == db.notes && r.comments == db.comments && r.categories == db.categories
    ensures IsVote(value) && Wf(db) ==> Wf(r)
  {
    UserRatingAfterUpsert(db, noteId, userId, value);
    UpsertKeepsOthers(db, noteId, userId, value);
    UpsertWf(db, noteId, userId, value);
    db.(ratings := Replaced(db, noteId, userId, value), nextRatingId := db.nextRatingId + 1)
  }

  /** The note a rating or comment may be attached to: `SELECT id FROM notes WHERE id = ? AND is_public = 1`. */
  function IsPublicNote(noteId: Id): Note -> bool {
    (n: Note) => n.id == noteId && n.isPublic == 1
  }

  /**
   * POST /api/public/:id/rate. A body rating other than exactly the number 1 or -1 is refused
   * with 400 before anything else; a note that is missing or not public with 404; otherwise
   * the caller's single row for the note now holds the new value.
   */
  function Rate(db: Db, caller: Id, noteId: Id, rating: Json): (r: Result<Db, Error>)
    ensures rating != Num(1) && rating != Num(-1) ==> r == Err(BadRequest(InvalidRating))
    ensures (rating == Num(1) || rating == Num(-1)) && FindNote(db, IsPublicNote(noteId)).None? ==> r == Err(NotFound)
    ensures r.Ok? ==> (rating == Num(1) || rating == Num(-1)) && exists n :: n in db.notes && n.id == noteId && n.isPublic == 1
    ensures (rating == Num(1) || rating == Num(-1)) && FindNote(db, IsPublicNote(noteId)).Some? ==> r.Ok?
    ensures r.Ok? ==> UserRating(r.value.ratings, noteId, caller) == Some(rating.n)
    ensures r.Ok? ==> forall m: Id, u: Id :: (m, u) != (noteId, caller) ==> UserRating(r.value.ratings, m, u) == UserRating(db.ratings, m, u)
    ensures r.Ok? ==> r.value.users == db.users && r.value.notes == db.notes && r.value.comments == db.comments && r.value.categories == db.categories
    ensures r.Ok? && Wf(db) ==> Wf(r.value)
  {
    if rating != Num(1) && rating != Num(-1) then Err(BadRequest(InvalidRating))
    else if FindNote(db, IsPublicNote(noteId)).None? then Err(NotFound)
    else
      Ok(Upsert(db, noteId, caller, rating.n))
  }

  /** DELETE /api/public/:id/rate: removes the caller's row for the note, whether or not the note exists. */
  function Unrate(db: Db, caller: Id, noteId: Id): (r: Db)
    ensures r == db.(ratings := r.ratings)
    ensures forall x :: x in r.ratings <==> x in db.ratings && !(x.noteId == noteId && x.userId == caller)
    ensures UserRating(r.ratings, noteId, caller) == None
    ensures Wf(db) ==> Wf(r)
  {
    RemoveWf(db, noteId, caller);
    db.(ratings := Remove(db.ratings, noteId, caller))
  }

  // ---- Proofs about the ledger -------------------------------------------------------

  lemma {:induction false} UserRatingAppend(rows: seq<Rating>, x: Rating, noteId: Id, userId: Id)
    ensures UserRating(rows + [x], noteId, userId) ==
      if UserRating(rows, noteId, userId).Some? then UserRating(rows, noteId, userId)
      else if x.noteId == noteId && x.userId == userId then Some(x.value)
      else None
    decreases |rows|
  {
    if rows == [] {
      assert rows + [x] == [x];
    } else {
      assert (rows + [x])[1..] == rows[1..] + [x];
      UserRatingAppend(rows[1..], x, noteId, userId);
    }
  }

  lemma UserRatingAfterUpsert(db: Db, noteId: Id, userId: Id, value: int)
    ensures UserRating(Replaced(db, noteId, userId, value), noteId, userId) == Some(value)
  {
    var rest := Remove(db.ratings, noteId, userId);
    UserRatingAppend(rest, Rating(db.nextRatingId, noteId, userId, value), noteId, userId);
  }

  /** The upsert touches no other (note, user) pair. */
  lemma UpsertKeepsOthers(db: Db, noteId: Id, userId: Id, value: int)
    ensures forall m: Id, u: Id :: (m, u) != (noteId, userId) ==>
      UserRating(Replaced(db, noteId, userId, value), m, u) == UserRating(db.ratings, m, u)
  {
    var rest := Remove(db.ratings, noteId, userId);
    var x := Rating(db.nextRatingId, noteId, userId, value);
    forall m: Id, u: Id | (m, u) != (noteId, userId)
      ensures UserRating(rest + [x], m, u) == UserRating(db.ratings, m, u)
    {
      UserRatingAppend(rest, x, m, u);
      UnrateKeepsOthers(db.ratings, noteId, userId, m, u);
    }
  }

  lemma RemoveWf(db: Db, noteId: Id, userId: Id)
    ensures Wf(db) ==> Wf(db.(ratings := Remove(db.ratings, noteId, userId)))
  {
    if Wf(db) {
      Seqs.FilterUnique(db.ratings, OtherPair(noteId, userId), RatingKey);
      Seqs.FilterUnique(db.ratings, OtherPair(noteId, userId), PairKey);
    }
  }

  lemma UpsertWf(db: Db, noteId: Id, userId: Id, value: int)
    ensures IsVote(value) && Wf(db) ==> Wf(db.(ratings := Replaced(db, noteId, userId, value), nextRatingId := db.nextRatingId + 1))
  {
    if !IsVote(value) || !Wf(db) {
      return;
    }
    var rest := Remove(db.ratings, noteId, userId);
    var x := Rating(db.nextRatingId, noteId, userId, value);
    Seqs.FilterUnique(db.ratings, OtherPair(noteId, userId), RatingKey);
    Seqs.FilterUnique(db.ratings, OtherPair(noteId, userId), PairKey);
    Seqs.AppendUnique(rest, x, RatingKey);
    Seqs.AppendUnique(rest, x, PairKey);
  }

  /** Removing the pair's row from a ledger with unique pairs removes at most one vote. */
  lemma {:induction false} CountRemove(rows: seq<Rating>, noteId: Id, userId: Id, m: Id, v: int)
    requires Seqs.UniqueBy(rows, PairKey)
    ensures CountVotes(Remove(rows, noteId, userId), m, v) ==
      CountVotes(rows, m, v) - (if m == noteId && UserRating(rows, noteId, userId) == Some(v) then 1 else 0)
    decreases |rows|
  {
    if rows != [] {
      var t := rows[1..];
      assert Seqs.UniqueBy(t, PairKey);
      assert Remove(rows, noteId, userId) ==
        (if OtherPair(noteId, userId)(rows[0]) then [rows[0]] + Remove(t, noteId, userId) else Remove(t, noteId, userId));
      if rows[0].noteId == noteId && rows[0].userId == userId {
        forall x | x in t ensures OtherPair(noteId, userId)(x) {
          var k :| 0 <= k < |t| && t[k] == x;
          assert PairKey(rows[0]) != PairKey(rows[k + 1]);
        }
        Seqs.FilterKeepsAll(t, OtherPair(noteId, userId));
      } else {
        CountRemove(t, noteId, userId, m, v);
      }
    }
  }

  lemma {:induction false} CountAppend(rows: seq<Rating>, x: Rating, m: Id, v: int)
    ensures CountVotes(rows + [x], m, v) == CountVotes(rows, m, v) + (if x.noteId == m && x.value == v then 1 else 0)
    decreases |rows|
  {
    if rows == [] {
      assert rows + [x] == [x];
    } else {
      assert (rows + [x])[1..] == rows[1..] + [x];
      CountAppend(rows[1..], x, m, v);
    }
  }

  /**
   * Rating replaces, it never adds up: after a successful rate, every note's count of every
   * value is the old count, minus the caller's previous vote on this note, plus the new one.
   */
  lemma RateReplaces(db: Db, caller: Id, noteId: Id, rating: Json, m: Id, v: int)
    requires Wf(db)
    requires Rate(db, caller, noteId, rating).Ok?
    ensures CountVotes(Rate(db, caller, noteId, rating).value.ratings, m, v) ==
      CountVotes(db.ratings, m, v)
      - (if m == noteId && UserRating(db.ratings, noteId, caller) == Some(v) then 1 else 0)
      + (if m == noteId && v == rating.n then 1 else 0)
  {
    var rest := Remove(db.ratings, noteId, caller);
    CountRemove(db.ratings, noteId, caller, m, v);
    CountAppend(rest, Rating(db.nextRatingId, noteId, caller, rating.n), m, v);
  }

  /** Rating the same note twice with the same value leaves the same counts as rating it once. */
  lemma RateTwiceSameCounts(db: Db, caller: Id, noteId: Id, rating: Json, m: Id, v: int)
    requires Wf(db)
    requires Rate(db, caller, noteId, rating).Ok?
    ensures Rate(Rate(db, caller, noteId, rating).value, caller, noteId, rating).Ok?
    ensures var once := Rate(db, caller, noteId, rating).value;
      var twice := Rate(once, caller, noteId, rating).value;
      CountVotes(twice.ratings, m, v) == CountVotes(once.ratings, m, v)
      && UserRating(twice.ratings, noteId, caller) == UserRating(once.ratings, noteId, caller)
  {
    var once := Rate(db, caller, noteId, rating).value;
    assert once.notes == db.notes;
    RateReplaces(once, caller, noteId, rating, m, v);
  }

  /**
   * Liking then disliking: the caller's vote is -1 and the note's likes and dislikes are what
   * they were before the caller voted, plus one dislike.
   */
  lemma LikeThenDislike(db: Db, caller: Id, noteId: Id)
    requires Wf(db)
    requires UserRating(db.ratings, noteId, caller) == None
    requires Rate(db, caller, noteId, Num(1)).Ok?
    ensures var liked := Rate(db, caller, noteId, Num(1)).value;
      var disliked := Rate(liked, caller, noteId, Num(-1));
      && disliked.Ok?
      && UserRating(disliked.value.ratings, noteId, caller) == Some(-1)
      && Likes(disliked.value.ratings, noteId) == Likes(db.ratings, noteId)
      && Dislikes(disliked.value.ratings, noteId) == Dislikes(db.ratings, noteId) + 1
  {
    var liked := Rate(db, caller, noteId, Num(1)).value;
    assert liked.notes == db.notes;
    RateReplaces(db, caller, noteId, Num(1), noteId, 1);
    RateReplaces(db, caller, noteId, Num(1), noteId, -1);
    RateReplaces(liked, caller, noteId, Num(-1), noteId, 1);
    RateReplaces(liked, caller, noteId, Num(-1), noteId, -1);
  }

  /** Unrating twice leaves the same store as unrating once. */
  lemma UnrateIdempotent(db: Db, caller: Id, noteId: Id)
    ensures Unrate(Unrate(db, caller, noteId), caller, noteId) == Unrate(db, caller, noteId)
  {
    Seqs.FilterIdempotent(db.ratings, OtherPair(noteId, caller));
  }

  /** Unrating takes back exactly the caller's vote: the note loses one count of that value. */
  lemma UnrateCounts(db: Db, caller: Id, noteId: Id, m: Id, v: int)
    requires Wf(db)
    ensures CountVotes(Unrate(db, caller, noteId).ratings, m, v) ==
      CountVotes(db.ratings, m, v) - (if m == noteId && UserRating(db.ratings, noteId, caller) == Some(v) then 1 else 0)
  {
    CountRemove(db.ratings, noteId, caller, m, v);
  }

  /** Unrating leaves every other user's and every other note's rating as it was. */
  lemma {:induction false} UnrateKeepsOthers(rows: seq<Rating>, noteId: Id, userId: Id, m: Id, u: Id)
    requires (m, u) != (noteId, userId)
    ensures UserRating(Remove(rows, noteId, userId), m, u) == UserRating(rows, m, u)
    decreases |rows|
  {
    if rows != [] {
      assert Remove(rows, noteId, userId) ==
        (if OtherPair(noteId, userId)(rows[0]) then [rows[0]] + Remove(rows[1..], noteId, userId) else Remove(rows[1..], noteId, userId));
      UnrateKeepsOthers(rows[1..], noteId, userId, m, u);
    }
  }

  /** Under the UNIQUE(note_id, user_id) invariant a user holds at most one row per note. */
  lemma AtMostOneRow(db: Db, x: Rating, y: Rating)
    requires Wf(db)
    requires x in db.ratings && y in db.ratings
    requires x.noteId == y.noteId && x.userId == y.userId
    ensures x == y
  {
    var i :| 0 <= i < |db.ratings| && db.ratings[i] == x;
    var j :| 0 <= j < |db.ratings| && db.ratings[j] == y;
    assert PairKey(db.ratings[i]) == PairKey(db.ratings[j]);
  }
}
