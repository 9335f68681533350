# Notes app: a Dafny model of the REST handlers and the page rules

The system is a small notes application. An Express server keeps users, categories, notes,
likes/dislikes and comments in SQLite. A React front end offers these pages:

- a private note list;
- an editor;
- a category manager;
- a public wall where logged-in users rate and comment on public notes.

This project models the request handlers of `backend/index.js` as pure transitions over an abstract
store. It also models the client-side rules of four pages: the note list, the public wall, the note
editor and the category manager.

- `Schema.Db` holds the five tables as sequences of rows plus their AUTOINCREMENT counters.
- `Schema.Wf` is the invariant every handler preserves:
  - ids are positive, below the counter and unique;
  - emails and category names are unique;
  - note flags are 0/1 and votes are ±1;
  - there is at most one vote per (note, user).
- Every handler returns either a new store or an error, as `Ok(...)` / `Err(...)`:
  - `BadRequest(reason)` for 400;
  - `NotFound` for 404;
  - `Forbidden` for 403.

The modules follow the program:

| module | models |
|---|---|
| `Js` | the JavaScript string and truthiness rules the code relies on: `trim`, `toLowerCase`, `includes`, `x ? 1 : 0` |
| `Seqs` | SQL `WHERE` as an order-preserving filter, `ORDER BY` as an insertion sort on a two-part key, `UPDATE` as a row map |
| `Schema` | the tables, the start-up categories, the store invariant, the lookups |
| `Display` | the author name shown beside notes and comments |
| `Ratings` | `POST`/`DELETE /api/public/:id/rate` and the like/dislike counts |
| `Comments` | adding, listing and deleting comments |
| `Notes` | the owner's notes: create, update, delete, image attach/detach, own list, detail, stats |
| `PublicList` | `GET /api/public` with its filters, and `GET /api/public/:id` |
| `NoteRemoval` | what a note delete leaves behind, and the cascading delete the schema declares |
| `Accounts` | register, profile read and profile update |
| `CategoryStore` | category list, create, rename, delete |
| `NotesListPage`, `PublicWallPage`, `NoteEditPage`, `CategoriesPage` | the page rules, each connected by a lemma to the handler it calls |

Modelling choices:

- Timestamps are integers (seconds) passed in as `now`. The calendar day SQLite's `date()` takes is `t / 86400`.
- Rows with equal `created_at` are ordered by id: newest first on the public wall and the own list, oldest first for comments.
- A request's text fields are `Option<string>`, where `None` is a missing key. Boolean-ish fields are a small JSON value type (`Js.Json`) so that JavaScript truthiness (`x ? 1 : 0`) and strict equality (`rating !== 1`) can be written down.
- The bcrypt hash of a new password, the identity in a verified token, and the stored upload's filename are parameters.

Where the documented behaviour and the code differ, the model follows the code:

- creating a note with an unknown category answers 400, not 404;
- updating a note does not look the category up;
- a request to update, delete or attach an image to someone else's note succeeds and changes nothing;
- the comment listing does not check that the note exists or is public;
- an upload is checked for type first, then for size, then for a missing file;
- category delete has no guard.

## Model

| member | source | states |
|---|---|---|
| `Schema.InitialWf` | backend/index.js:106-108 | the store as created at start-up (the four default categories Personal, Trabajo, Ideas, Otros with ids 1–4) satisfies the store invariant |
| `Schema.FindNote` | backend/index.js:286-292 | a `SELECT … WHERE id = ? AND <cond>` lookup returns a row of the table meeting the condition, or none exists |
| `Display.Resolve` | backend/index.js:435-442 | the author shown is "Anónimo" for an anonymous note; otherwise the alias when it is public and non-empty; otherwise the email. It is never anything else |
| `Display.AnonymousHidesProfile` | backend/index.js:460-467 | for an anonymous note the shown name does not depend on the owner's alias, visibility or email |
| `Display.PrivateAliasShowsEmail` | backend/index.js:496-503 | a non-anonymous note whose owner keeps the alias private shows the email |
| `Display.NoteAuthor` | backend/index.js:496-503 | the note resolver on the joined owner row; with no owner row only an anonymous note has a name |
| `Display.CommentAuthor` | backend/index.js:586-588 | a comment's author is the note resolver with anonymity switched off |
| `Display.CommentMatchesNote` | backend/index.js:586-588 | a comment and a non-anonymous note by the same user show the same name |
| `Display.CommentNeverAnonymous` | backend/index.js:586-588 | a comment shows "Anónimo" only if that is literally the user's public alias or email |
| `Ratings.UserRating` | backend/index.js:509-515 | the caller's vote on a note is the value of a row for that (note, user), or no such row exists |
| `Ratings.CountVotes` | backend/index.js:388-389 | a like/dislike count is positive exactly when some row of that note carries that vote |
| `Ratings.Upsert` | backend/index.js:544-546 | after INSERT OR REPLACE the (note, user) pair holds exactly the new vote, every other pair's vote is unchanged, the other tables are untouched, and a ±1 vote keeps the store well formed |
| `Ratings.Rate` | backend/index.js:529-556 | any rating other than exactly 1 or −1 is refused (400) before the note is looked up. A missing or private note gives 404. A ±1 rating of a public note always succeeds: the caller's vote becomes the new value, every other (note, user) vote and every other table stay as they were, and the invariant holds |
| `Ratings.Unrate` | backend/index.js:558-571 | removes exactly the caller's row for that note and no other, without checking the note; afterwards the caller has no vote |
| `Ratings.RateReplaces` | backend/index.js:88-90 | after a rating, every count equals the old count minus the caller's previous vote plus the new one: a second rating replaces, never adds |
| `Ratings.RateTwiceSameCounts` | backend/index.js:544-546 | rating twice with the same value leaves every count as after the first |
| `Ratings.LikeThenDislike` | backend/index.js:544-546 | a like followed by a dislike leaves the dislike only: likes back to before, dislikes one more |
| `Ratings.UnrateIdempotent` | backend/index.js:561-563 | unrating twice is unrating once |
| `Ratings.UnrateCounts` | backend/index.js:561-563 | unrating lowers the matching count by exactly the caller's vote and touches no other |
| `Ratings.UnrateKeepsOthers` | backend/index.js:561-563 | unrating leaves every other (note, user) vote as it was |
| `Ratings.AtMostOneRow` | backend/index.js:88-90 | in a well-formed store two rows for the same (note, user) are the same row |
| `Ratings.CountRemove` | backend/index.js:545 | removing a (note, user) row lowers the count of its own vote on its own note by one, and no other count |
| `Comments.Add` | backend/index.js:602-620 | a missing, empty or over-1000-character text gives 400 before the note is checked. A missing or private note gives 404. A valid text on a public note always succeeds: a comment by the caller with the next id and time is appended |
| `Comments.AddShowsInList` | backend/index.js:574-620 | after an add, the note's listing holds the new comment under the caller's display name and is exactly one entry longer |
| `Comments.List` | backend/index.js:574-599 | lists exactly the comments of that note, each with the comment resolver, oldest first |
| `Comments.Delete` | backend/index.js:623-633 | 404 when no comment has that id on that note. In a well-formed store, 403 exactly when it is someone else's, and success exactly when it is the caller's; a success removes exactly that comment |
| `Comments.AuthorMayDelete` | backend/index.js:626-628 | the author of an existing comment is always allowed to delete it, and anybody else is refused with 403 |
| `Comments.DeleteRemovesFromList` | backend/index.js:628 | after a delete the note's listing is one shorter and no longer contains that id |
| `Notes.CheckBody` | backend/index.js:299-307 | create and update accept exactly a body with title, text and a non-zero category, title ≤ 100 and text ≤ 5000. A missing field gives the missing-fields 400; otherwise an over-long title gives the title-length 400, and then an over-long text the text-length 400 |
| `Notes.Create` | backend/index.js:297-330 | the body checks, then an existing category (400 otherwise). The new note is the caller's, with the next id, 0/1 flags, no image and the current time |
| `Notes.Update` | backend/index.js:332-352 | the body checks; then only the caller's note with that id takes the new fields and 0/1 flags. A non-owner's request succeeds and changes nothing |
| `Notes.Delete` | backend/index.js:354-359 | removes exactly the caller's note with that id; a non-owner changes nothing; ratings and comments are not touched |
| `Notes.CheckUpload` | backend/index.js:32-40 | an upload is accepted exactly when it is a file of an allowed image type of at most 2 MiB. The type is checked first, then the size, then a missing file |
| `Notes.AttachImage` | backend/index.js:362-378 | a refused upload changes nothing. Otherwise the URL is `/uploads/` + filename and only the caller's note with that id takes it |
| `Notes.DetachImage` | backend/index.js:636-647 | 404 unless the caller owns that note and it has an image; otherwise only that note loses its image |
| `Notes.MyNotes` | backend/index.js:270-281 | lists exactly the caller's notes, each once (the length is the number of the caller's notes, which the page prints as the total), each with its category name (none for a deleted category), newest first |
| `Notes.MyNote` | backend/index.js:284-294 | found exactly when the caller owns a note with that id, 404 otherwise |
| `Notes.ProfileStats` | backend/index.js:197-211 | in a well-formed store total_notes = public_notes + private_notes |
| `Notes.StatsAddUp` | backend/index.js:200-202 | with 0/1 public flags, the caller's notes split exactly into public and private ones |
| `PublicList.Row` | backend/index.js:384-389 | a row carries the note's own id and time, the resolved author, the like/dislike counts, and the viewer's vote (null without a viewer) |
| `PublicList.List` | backend/index.js:381-413 | lists exactly the public notes passing the author filter (substring of email or alias) and the inclusive day bounds, newest first |
| `PublicList.Detail` | backend/index.js:482-527 | 404 exactly when no public note has that id; otherwise that note's detail, which always carries its owner's id |
| `PublicList.ListAgreesWithDetail` | backend/index.js:385-389 | for every listed row the detail handler answers its id with the same values on every column the list sends, author name included, plus the owner id of that listed note |
| `PublicList.NothingPrivateListed` | backend/index.js:393 | a listed id belongs to a public note |
| `PublicList.ViewerOnlyAddsRating` | backend/index.js:419-474 | logging in changes no listed row except its `user_rating` |
| `PublicList.AnonymousRowLeaksEmail` | backend/index.js:443-448 | as written, an anonymous note's row says "Anónimo" yet carries the owner's email and alias |
| `PublicList.AnonymousRowDependsOnOwner` | backend/index.js:468-473 | as written, two owners with different emails give different rows for the same anonymous note |
| `PublicList.Redact` | backend/index.js:443-448 | the corrected row drops the three owner columns of an anonymous note; every other column is unchanged, and a non-anonymous row is unchanged entirely |
| `PublicList.RedactedRowHidesOwner` | backend/index.js:443-448 | a corrected anonymous list row is the same whoever owns the note and whatever the users table holds |
| `PublicList.SafeList` | backend/index.js:381-413 | the corrected list: the same rows in the same order, with no owner columns on anonymous notes |
| `PublicList.AnonymousDetailNamesOwner` | backend/index.js:484-523 | as written, the detail of an anonymous note says "Anónimo" yet carries the owner's `user_id`, and the comment listing of any note the owner commented on pairs that id with the owner's name |
| `PublicList.RedactDetail` | backend/index.js:517-523 | the corrected detail of an anonymous note has neither the owner columns nor the owner id; other notes are unchanged |
| `PublicList.SafeDetail` | backend/index.js:482-527 | the corrected detail: 404 in the same cases, and an anonymous note's answer carries no owner id and no email |
| `PublicList.RedactedDetailHidesOwner` | backend/index.js:484-523 | a corrected anonymous detail is the same whoever owns the note and whatever the users table holds |
| `PublicList.SafeListAgreesWithSafeDetail` | backend/index.js:381-523 | the corrected list and the corrected detail show the same row for every listed note |
| `NoteRemoval.DeleteLeavesOrphans` | backend/index.js:354-359 | as written, a note delete leaves its ratings, and the comment listing for its id is unchanged |
| `NoteRemoval.OrphanCommentStillListed` | backend/index.js:98-103 | a concrete store where the owner deletes a note and its comment is still listed |
| `NoteRemoval.DeleteCascade` | backend/index.js:91-102 | the corrected delete removes the note with its ratings and comments: the listing is empty, both counts are zero, the invariant holds; a non-owner changes nothing |
| `Accounts.Register` | backend/index.js:139-165 | missing email or password, then an over-long field, then a password under 6, then a taken email are refused, each exactly when the earlier checks pass, and with no other reason. A valid registration of a free email always succeeds: the new user has the next id and the alias defaults to "" with visibility defaulting to 1 |
| `Accounts.AkaPublicOrDefault` | backend/index.js:140 | only a missing `aka_public` takes the default true; any given value is stored by truthiness |
| `Accounts.DuplicateEmailRejected` | backend/index.js:157-159 | once an email is registered, registering it again fails |
| `Accounts.GetProfile` | backend/index.js:187-194 | the caller's id, email, alias and visibility, or 404 when no such user exists |
| `Accounts.UpdateProfile` | backend/index.js:214-229 | a non-empty alias over 40 characters gives 400. Otherwise only the caller's row changes: the alias (a missing one stored as "") and a 0/1 visibility |
| `Accounts.StoredAka` | backend/index.js:221 | a missing alias is stored as "" and a given one as is |
| `CategoryStore.CheckName` | backend/index.js:242-243 | a name is accepted exactly when present, non-empty and at most 50 characters |
| `CategoryStore.All` | backend/index.js:232-237 | lists exactly the stored categories |
| `CategoryStore.Create` | backend/index.js:240-248 | the name checks; then 400 exactly when the name is taken; a valid free name always succeeds, appended with the next id and echoed |
| `CategoryStore.Rename` | backend/index.js:251-259 | the name checks; a 400 exactly when the row exists and another row has the name; otherwise only that row's name changes, and an unknown id changes nothing |
| `CategoryStore.Delete` | backend/index.js:262-267 | removes exactly that category, unguarded, leaving the notes alone |
| `CategoryStore.DeleteLeavesDanglingNotes` | backend/index.js:263 | a note of a deleted category keeps its category id and the join finds no name |
| `NotesListPage.NextPublic` | frontend/src/pages/NotesList.jsx:70 | the public flag sent is the new value when public was clicked, the row's own otherwise |
| `NotesListPage.NextAnonymous` | frontend/src/pages/NotesList.jsx:71-72 | the anonymous flag sent is never true for a note that is not to be public. Otherwise it is the new value when anonymous was clicked and the row's own when public was |
| `NotesListPage.Optimistic` | frontend/src/pages/NotesList.jsx:54-60 | the optimistic row takes the clicked flag as 0/1; unchecking public also clears anonymous; nothing else changes |
| `NotesListPage.ToggleRows` | frontend/src/pages/NotesList.jsx:52-62 | only the row with the toggled id changes |
| `NotesListPage.BadgesOf` | frontend/src/pages/NotesList.jsx:157-158 | the anonymous chip is shown only beside the public one |
| `NotesListPage.OptimisticShowsWhatIsSent` | frontend/src/pages/NotesList.jsx:52-75 | the optimistic row shows exactly the flags the request sends |
| `NotesListPage.ReceivedBody` | frontend/src/pages/NotesList.jsx:65-79 | a multipart toggle reaches the JSON-only update route with no fields; a JSON one carries the row's fields and the two flags |
| `NotesListPage.ToggleAsSent` | frontend/src/pages/NotesList.jsx:77-79 | as written, every toggle request is refused for missing fields |
| `NotesListPage.FormFlagsAlwaysTruthy` | frontend/src/pages/NotesList.jsx:74-75 | the form's "0" and "1" would both be stored as 1 if the form were parsed |
| `NotesListPage.Toggle` | frontend/src/pages/NotesList.jsx:66-79 | the corrected toggle is accepted for a stored note and stores exactly the flags sent on the caller's note |
| `NotesListPage.ToggleSavedMatchesOptimistic` | frontend/src/pages/NotesList.jsx:80-84 | with the corrected toggle, reloading the list shows the same chips as the optimistic row |
| `NotesListPage.Search` | frontend/src/pages/NotesList.jsx:87-92 | keeps exactly the rows whose lower-cased title, text or category name contains the lower-cased term |
| `NotesListPage.EmptySearchKeepsAll` | frontend/src/pages/NotesList.jsx:87-92 | an empty term keeps every row in order |
| `NotesListPage.LongerTermNarrows` | frontend/src/pages/NotesList.jsx:89-91 | extending the term never brings a row back |
| `NotesListPage.RemoveLocal` | frontend/src/pages/NotesList.jsx:42 | the local delete drops exactly the rows with that id |
| `NotesListPage.RemoveLocalMatchesServer` | frontend/src/pages/NotesList.jsx:39-42 | the local delete shows the same notes as reloading after the server's delete |
| `PublicWallPage.RatingField` | backend/index.js:514-522 | `user_rating` reaches the page as the vote or null, never absent |
| `PublicWallPage.LikeClick` | frontend/src/pages/PublicWall.jsx:405 | like does nothing without a token, unrates when the vote is 1, and rates 1 otherwise |
| `PublicWallPage.DislikeClick` | frontend/src/pages/PublicWall.jsx:421 | dislike does nothing without a token, unrates when the vote is −1, and rates −1 otherwise |
| `PublicWallPage.Send` | frontend/src/pages/PublicWall.jsx:47-68 | no action leaves the store alone; an unrate always succeeds and clears the vote; a successful rate sets it |
| `PublicWallPage.ClicksToggle` | frontend/src/pages/PublicWall.jsx:388-427 | on a public note a logged-in like click toggles the vote between 1 and none, and dislike likewise with −1 |
| `PublicWallPage.QueryParams` | frontend/src/pages/PublicWall.jsx:15-18 | the query holds exactly the non-empty filter fields under author, date_from and date_to |
| `PublicWallPage.ServerFilters` | backend/index.js:382-411 | a date filter is on exactly when its parameter is present and non-empty, with the day of that value; the author filter is the parameter or empty |
| `PublicWallPage.FormReachesServer` | frontend/src/pages/PublicWall.jsx:12-21 | the server applies exactly the filters whose form fields are non-empty, with the values typed |
| `PublicWallPage.EmptyFormListsAllPublic` | frontend/src/pages/PublicWall.jsx:29-32 | the first fetch after mounting, with every filter field empty, lists every public note |
| `PublicWallPage.ClearAsWritten` | frontend/src/pages/PublicWall.jsx:39-44 | as written, the clear button's fetch still sends every filter field that was filled in before the click |
| `PublicWallPage.ClearKeepsOldFilter` | frontend/src/pages/PublicWall.jsx:39-44 | a concrete store where, after clearing a "from" date, a public note from an earlier day is still missing from the wall |
| `PublicWallPage.Clear` | frontend/src/pages/PublicWall.jsx:39-42 | the corrected clear empties the three fields and its fetch sends no parameter |
| `PublicWallPage.ClearListsAllPublic` | frontend/src/pages/PublicWall.jsx:39-44 | after the corrected clear, whatever the form held, no filter is applied and every public note is listed |
| `PublicWallPage.CheckComment` | frontend/src/pages/PublicWall.jsx:233-244 | sends the raw text exactly when there is a token, the text is not blank and at most 1000 characters; the problems are reported in that order |
| `PublicWallPage.SentCommentIsValid` | frontend/src/pages/PublicWall.jsx:246-251 | whatever the form sends passes the server's length check |
| `PublicWallPage.ServerStoresBlankComment` | backend/index.js:605-607 | the server would store a one-space comment that the form refuses |
| `PublicWallPage.DeleteShownOnlyToAuthor` | frontend/src/pages/PublicWall.jsx:355-357 | once the note has loaded, the trash button shows exactly when there is a token and the token's id is the comment's author |
| `PublicWallPage.ShownDeleteIsAllowed` | frontend/src/pages/PublicWall.jsx:355-361 | a shown trash button leads to a delete the server allows, when the server's identity is the decoded one |
| `NoteEditPage.CheckForm` | frontend/src/pages/NoteEdit.jsx:99-129 | the checks run in order: blank title, blank text, no category, then untrimmed title > 100, then text > 5000. Each problem is reported exactly when the checks before it pass and its own fails. An accepted form is sent trimmed with the flags as held |
| `NoteEditPage.SentBodyPassesServer` | frontend/src/pages/NoteEdit.jsx:123-144 | a body the editor sends passes the server's checks: an update is always accepted, a create exactly when the category exists |
| `NoteEditPage.PrivateNoteKeepsAnonymousFlag` | frontend/src/pages/NoteEdit.jsx:127-128 | a private note saved with anonymous checked is stored with is_anonymous = 1 |
| `NoteEditPage.CheckImage` | frontend/src/pages/NoteEdit.jsx:62-69 | a picked file is accepted exactly when it is at most 2 MiB and of an allowed image type, with size checked first |
| `NoteEditPage.Pick` | frontend/src/pages/NoteEdit.jsx:59-76 | no file or a refused file keeps the previous selection; an accepted file replaces it |
| `NoteEditPage.PickerAgreesWithUpload` | frontend/src/pages/NoteEdit.jsx:66 | the picker and the upload handler accept the same files |
| `NoteEditPage.ProblemsReportedInOtherOrder` | frontend/src/pages/NoteEdit.jsx:62-65 | a large non-image is "too big" to the picker but "wrong type" to the server |
| `CategoriesPage.CheckName` | frontend/src/pages/CategoriesManager.jsx:34-44 | a name is refused when blank, then when its untrimmed length exceeds 50; an accepted name is sent trimmed |
| `CategoriesPage.AddedNameAccepted` | frontend/src/pages/CategoriesManager.jsx:43-49 | a name the add form sends passes the server's checks and is refused only when taken |
| `CategoriesPage.RenamedNameAccepted` | frontend/src/pages/CategoriesManager.jsx:64-76 | the rename form's name is refused only when another existing category has it |
| `CategoriesPage.PaddingDoesNotMakeANewName` | frontend/src/pages/CategoriesManager.jsx:44 | a padded copy of an existing name is refused as taken |

## Left out

- Express routing, the auth middleware, JWT signing and verification, bcrypt, and login: the verified identity and the password hash are parameters.
- multer's disk storage, its `Date.now()` filenames and the `fs.unlink` of a detached image: the stored filename is a parameter, and detaching only clears `image_url`.
- SQLite driver errors and the 500 answers they lead to: the model's store operations do not fail.
- SQL `LIKE` wildcards (`%`, `_` inside the author filter) and non-ASCII case folding: the author filter is an ASCII case-insensitive substring match.
- SQLite's `date()` parsing of the filter strings and of `created_at`: dates are day numbers, and the page's date strings go through a day function given as a parameter.
- The order of rows with equal `created_at`: SQLite leaves it unspecified, and the model breaks ties by id.
- Lengths count code points, not UTF-16 code units. `toLowerCase` is modelled for ASCII and Latin-1 capitals only.
- Request fields of the wrong JSON type are left out. Most are accepted and stored unchecked: a numeric title passes `!title`, and `title.length > 100` is false when `length` is undefined; a `null` alias in PUT /api/profile is stored as "". Only register's `aka.length` throws, on a `null` alias. The model's text fields are strings or absent.
- The `created_at` column of ratings, and the registration time, which only `ProfileStats` reports and which is a parameter.
- React state, rendering, loading flags, success messages and `window.confirm`. The session plumbing (token expiry, the 401 reload) and decoding the token's payload are left out; the decoded id is a parameter.
- The landing, login, register, note view and profile pages: they only repeat checks the handlers make.
- Notes.ProfileStats: states that the counts add up, not each count's value, because the sum is what the page relies on.

## Findings

| source | as written | input that shows it | evidently intended | confidence | as-written member | corrected member |
|---|---|---|---|---|---|---|
| backend/index.js:443-448 | the public list rows spread the joined owner columns, so an anonymous note carries `user_email`, `user_aka` and `aka_public` beside "Anónimo" | a note with is_anonymous = 1 owned by "a@b.c": GET /api/public returns user_email "a@b.c" | an anonymous note reveals nothing about its author | not executed; high, the columns are selected and spread into the answer | `PublicList.AnonymousRowLeaksEmail` | `PublicList.SafeList` |
| backend/index.js:91-102 | ON DELETE CASCADE is declared but foreign keys are never enabled, so deleting a note keeps its ratings and comments | user 1 deletes note 1 with comment 1: GET /api/public/1/comments still lists comment 1 | a note's ratings and comments go with it | not executed; high, SQLite enforces foreign keys only after `PRAGMA foreign_keys = ON` | `NoteRemoval.OrphanCommentStillListed` | `NoteRemoval.DeleteCascade` |
| frontend/src/pages/NotesList.jsx:65-79 | the toggle sends multipart form data to PUT /api/notes/:id, which only parses JSON bodies, so the handler sees no fields and answers 400 | clicking "public" on any note: 400 "Faltan campos obligatorios", the list reloads unchanged | the clicked flag is saved | not executed; high, the route has no multipart parser, and even a parsed "0" is truthy | `NotesListPage.ToggleAsSent` | `NotesListPage.Toggle` |
| backend/index.js:484-523 | the detail selects `n.*` and spreads it into the answer, so an anonymous note's detail carries its owner's `user_id` (besides the owner columns); the comment listing shows the same `user_id` beside the commenter's name | a note with is_anonymous = 1 by user 7, who also commented somewhere: GET /api/public/:id returns user_id 7, and that comment lists user_id 7 with the owner's email or alias | an anonymous note's detail does not lead back to its author | not executed; high, `n.*` includes `user_id` and the answer spreads the whole row | `PublicList.AnonymousDetailNamesOwner` | `PublicList.SafeDetail` |
| frontend/src/pages/PublicWall.jsx:39-44 | the clear button empties the three fields and calls `fetchNotes` in the same handler; that call reads the state of the render where the click happened, so it re-sends the old filters | fill in "from" 2024-01-10, filter, then click "Limpiar": the fields are empty but the wall still omits notes from before that day | clearing shows the unfiltered wall | not executed; high, React state setters only schedule the next render and `fetchNotes` closes over the current one | `PublicWallPage.ClearKeepsOldFilter` | `PublicWallPage.ClearListsAllPublic` |
