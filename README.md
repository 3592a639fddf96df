# Caller-scoped note store

A model of the note store behind a multi-user note-taking web service, and
of the service layer above it. The store keeps three tables: users, notes
with a soft-delete flag, and share rows. Fetch, update, delete and search are
filtered by the caller as owner. The listing returns the caller's own notes
and adds the notes shared with the caller, each looked up under its sharer.
Account calls and sharing are not filtered by owner. The service layer passes the authenticated caller's
id into each call and turns stored notes into responses.

Layout:

- `models.dfy` (module `Models`): the rows `User`, `Note` and `SharedNote`, and the `Result`/`Option`/`Error` outcomes.
- `domain.dfy` (module `Domain`): request and response records.
- `queries.dfy` (module `Queries`): every `WHERE` clause of the store as a function over the tables. It also holds the lemmas the access rules rest on: who sees which note, what search returns, what delete and update change, and what sharing adds.
- `database.dfy` (module `Database`): class `Store`. It has three `seq` fields, one per table, and one method per `Storer` operation. `Valid()` is the schema's constraints: unique note and user ids, unique usernames, and resolving foreign keys.
- `service.dfy` (module `Service`): class `NoteService`. It holds the store and has the service's note and account methods. Its invariant adds that no note ever has `shared` set.
- `scenario.dfy` (module `Scenario`): clients of the service. The methods use only the service's contracts; the lemma `ListedToBob` computes the recipient's listing on the concrete tables by unfolding `Listed`, `OwnedNotes`, `SharedWith` and `ResolveShares`. Two users sign up and one shares a note with the other. The recipient lists the note but cannot fetch it by id. After the owner deletes it twice, the recipient no longer lists it.

Tables are sequences in insertion order, and queries return rows in that
order. The caller id is an explicit parameter. Fresh UUIDs are also
parameters: an insert whose id already exists fails with a unique-key
violation.

Behaviour of the code that the model keeps, though a reader might expect otherwise:

- A repeated delete is not an error. The store never checks how many rows were affected, so the second call matches nothing and returns no error.
- A share row does not grant access to a deleted note. The listing hydrates each share row through the sharer's owner-scoped lookup. So a note is shown only while the sharer owns it and it is not deleted.
- Recipients are a list, not a set. Duplicate names and repeated shares store duplicate rows, and the listing shows the note once per row (`Queries.ListedAfterRepeatedShare`).
- Sharing with no resolvable recipient fails. The insert is then an empty batch, which the ORM rejects (`EmptySlice`). A batch naming a note id that is not in the notes table fails on the `shared_notes.note_id` foreign key. The schema migration creates that key from the `foreignKey` tags in `models/note.go` and `models/user.go`.
- No ownership check is made when sharing. The model proves that rows written by a non-owner change nobody's listing (`Queries.ShareByNonOwnerShowsNothing`).

## Model

| member | source | states |
|---|---|---|
| `Queries.FindUser` | internal/database/db.go:55-63 | the lookup returns a user holding the username, or none when no user holds it |
| `Queries.FindUserUnique` | models/user.go:10 | with unique usernames the lookup returns exactly the user holding the name |
| `Queries.FindNote` | internal/database/db.go:75-82 | the owner-scoped lookup returns a row with that id, that owner and not deleted, or none when no such row exists |
| `Queries.FindNoteUnique` | models/note.go:8 | with unique note ids, a live note is found by its owner and id, and it is that row |
| `Queries.OwnedNotes` | internal/database/db.go:87 | a note is listed as owned exactly when it belongs to the owner and is not deleted |
| `Queries.SearchMatches` | internal/database/db.go:158 | a note is found exactly when it belongs to the owner, is not deleted, and its title or content contains the query |
| `Queries.SearchEmptyQuery` | internal/database/db.go:155-164 | the empty query returns all of the owner's live notes, in the same order |
| `Queries.SearchOnlyOwned` | internal/database/db.go:158 | search results are always the caller's own live notes, never notes shared with the caller |
| `Queries.SharedWith` | internal/database/db.go:93 | exactly the share rows addressed to the viewer |
| `Queries.SharedWithAppend` | internal/database/db.go:93 | the rows addressed to a viewer in a concatenation are those of each part, in order |
| `Queries.Resolve` | internal/database/db.go:98-103 | a share row yields at most one note, live and designated by the row (same id, sharer is the owner) |
| `Queries.ResolveShares` | internal/database/db.go:97-104 | the hydrated notes never outnumber the share rows |
| `Queries.ResolveSharesSound` | internal/database/db.go:97-104 | every hydrated note is in the table, live, and designated by one of the rows (same id, sharer is the owner) |
| `Queries.ResolveSharesAppend` | internal/database/db.go:97-104 | hydrating a concatenation of rows gives the concatenation of the hydrated parts |
| `Queries.ResolveSharesIncludes` | internal/database/db.go:97-104 | every live note that some row designates is hydrated |
| `Queries.ResolveSharesUnresolvable` | internal/database/db.go:98-101 | rows whose lookup fails are skipped: they hydrate to nothing |
| `Queries.ListedSound` | internal/database/db.go:85-107 | the listing holds only live notes that are the viewer's own or designated by a share row addressed to the viewer whose sharer owns the note |
| `Queries.ListedVisibility` | internal/database/db.go:85-107 | a note is listed to a viewer if and only if it is live and either the viewer's own or designated by a share row to the viewer whose sharer owns it |
| `Queries.ListedAfterRepeatedShare` | internal/database/db.go:133-153 | sharing the same rows again makes the listing repeat the hydrated notes: duplicates are not removed |
| `Queries.DeleteHides` | internal/database/db.go:111 | after a delete no row matches the scoped predicate, so the note leaves the owner's lookup, every viewer's listing and the owner's search |
| `Queries.DeleteTouchesOnlyTarget` | internal/database/db.go:109-117 | the delete changes only the flag, only on the row with that id, that owner and not deleted; no other row changes |
| `Queries.DeleteIdempotent` | internal/database/db.go:109-117 | deleting twice leaves the same table as deleting once |
| `Queries.UpdateKeepsIdentity` | internal/database/db.go:120 | an update never changes ids and never clears the deleted flag; a patch naming no owner, not deleting and not sharing keeps every row's owner and flags |
| `Queries.UpdateThenFind` | internal/database/db.go:119-130 | for a patch that names no owner and does not delete (the service's patch), the re-read returns the scoped row with the non-empty fields applied; when no scoped row existed, the table is unchanged and the re-read fails |
| `Queries.ShareRows` | internal/database/db.go:135-146 | the collected rows number at most the names; each carries the note id and the sharer, and points to an existing user |
| `Queries.ShareRowsAppend` | internal/database/db.go:135-146 | the rows of concatenated name lists are the rows of each list, in input order |
| `Queries.ShareRowsEmpty` | internal/database/db.go:135-140 | no row is collected exactly when no name resolves to a user |
| `Queries.ShareRowsIncludes` | internal/database/db.go:141-145 | every name that resolves yields a row pointing to that user |
| `Queries.ShareByNonOwnerShowsNothing` | internal/database/db.go:133-153 | rows written by a caller without a live note of that id leave every listing unchanged |
| `Queries.ShareByOwnerShows` | internal/database/db.go:133-153 | when the owner shares a live note with a resolvable name, the note appears in that user's listing |
| `Database.Store.constructor` | internal/database/db.go:34-48 | a migrated store starts with three empty tables satisfying the schema constraints |
| `Database.Store.CreateNewUser` | internal/database/db.go:51-53 | the user is appended with its fresh id when neither the id nor the username is taken; otherwise the call fails and nothing changes |
| `Database.Store.GetUserByUsername` | internal/database/db.go:56-63 | returns the user holding the username, or `RecordNotFound` when none does |
| `Database.Store.CreateNewNote` | internal/database/db.go:66-72 | appends exactly the given note with its fresh id; fails and changes nothing on a taken id or an unknown owner |
| `Database.Store.GetNoteByID` | internal/database/db.go:75-82 | returns a note only when it has that id and owner and is not deleted; otherwise `RecordNotFound` and no note |
| `Database.Store.ListNotes` | internal/database/db.go:85-107 | returns the owner's live notes, then the hydrated share rows addressed to the owner, in row order |
| `Database.Store.HydrateShares` | internal/database/db.go:97-104 | the loop looks each row up under its sharer and keeps exactly the lookups that succeed, in row order |
| `Database.Store.DeleteNoteByID` | internal/database/db.go:109-117 | sets the flag on the scoped row only; users and shares unchanged; ids kept and flags only set; never fails |
| `Database.Store.UpdateNoteByID` | internal/database/db.go:119-130 | writes the patch's non-zero fields on the scoped row only, then returns the re-read row or `RecordNotFound` |
| `Database.Store.ShareNoteWithUser` | internal/database/db.go:133-153 | appends one row per resolvable name, in order, with the caller-given sharer; the note table is unchanged; empty batch or unknown note fails |
| `Database.Store.SearchNotes` | internal/database/db.go:155-164 | returns exactly the owner's live notes whose title or content contains the query |
| `Service.ContentPatch` | internal/service/service.go:144-147 | the patch adds no id condition to the update, and applied to any row it replaces only the title and the body, each only when the request's field is non-empty; id, owner and flags of the row stay as they were |
| `Service.ToResponses` | internal/service/service.go:122-130 | one response per note, same order; id, title, body from content, created-by from owner |
| `Service.NoteService.constructor` | internal/service/service.go:34-36 | the service wraps a consistent store with no shared flag set |
| `Service.NoteService.CreateNewUser` | internal/service/service.go:38-50 | a hashing failure is returned unchanged; otherwise the user is stored under the requested name, or a taken name fails |
| `Service.NoteService.LoginUser` | internal/service/service.go:52-70 | succeeds exactly when a user holds the name and the password check passes; the response names that user; a token error is ignored |
| `Service.NoteService.CreateNote` | internal/service/service.go:73-94 | the note is stored owned by the caller, live and not shared; the response echoes id, title, body and the caller; on failure the store's error is returned unchanged (`UniqueViolation` for a taken id, else `ForeignKeyViolation`) with the zero response |
| `Service.NoteService.GetNoteByID` | internal/service/service.go:96-111 | only the caller's own live note is returned; a note shared with the caller is not; an error gives the zero response |
| `Service.NoteService.ListNotes` | internal/service/service.go:113-133 | projects the caller's listing in order; every entry is the caller's or was shared with the caller by its owner |
| `Service.NoteService.DeleteNoteByID` | internal/service/service.go:135-139 | deletes scoped to the caller; no other owner's note changes; no error |
| `Service.NoteService.UpdateNoteByID` | internal/service/service.go:141-160 | only title and body of the caller's live note change, empty fields keep the old value; id, owner and flags never change; an error gives the zero response |
| `Service.NoteService.ShareNoteWithUser` | internal/service/service.go:162-166 | succeeds exactly when some name resolves and the note exists; every new share row names the caller as sharer and the given note; on failure the store's error is returned unchanged (`EmptySlice`, else `ForeignKeyViolation`) |
| `Service.NoteService.SearchNotes` | internal/service/service.go:168-187 | projects the caller's search results in order; every entry is created by the caller |
| `Scenario.SignUpBoth` | internal/service/service.go:38-50 | two sign-ups on a fresh store leave exactly the two user rows and empty note and share tables |
| `Scenario.ListedToBob` | internal/database/db.go:85-107 | the recipient's listing holds the shared note while it is live and nothing once it is deleted |
| `Scenario.SignUpWriteAndShare` | internal/service/service.go:73-94 | two sign-ups, one note and one share leave exactly the expected rows in the three tables |
| `Scenario.SharedNoteIsListedNotFetched` | internal/database/db.go:75-107 | the recipient lists the shared note but fetching it by id fails with `RecordNotFound` |
| `Scenario.DeletedNoteLeavesListing` | internal/database/db.go:109-117 | a second delete returns no error, and the recipient no longer lists the deleted note |

## Left out

- HTTP handlers, JSON envelopes and status codes are not modelled. The handler's rejection of an empty title or body on update is not imposed either, so the service's partial update stays reachable.
- Authentication middleware, the "Bearer " prefix strip, rate limiting, JWT signing and parsing, and process start-up and routing are not modelled. The caller id is a parameter.
- The password hashing primitive is a parameter: sign-up takes the hashing outcome, and log-in takes a `passwordMatches(hash, password)` function. Token generation is represented only by the token string it returned.
- Database faults (connection loss, timeouts) are not modelled, so store queries never fail. As a result the store's `ListNotes`, `SearchNotes` and `DeleteNoteByID` never fail. The service's error branches for listing and searching cannot arise, and the service returns no error there.
- Timestamps (`CreatedAt`, `UpdatedAt`, and the `updated_at` write inside `Updates`) are not modelled. UUID generation is a parameter.
- Ids are compared as opaque text and are assumed to be in canonical spelling. Postgres `uuid` columns compare by value, so an id spelled in upper case, with braces or without hyphens would match the stored row; the model reports no match for it, and `Service.NoteService.GetNoteByID` promises that the response id equals the requested text.
- Postgres rejects id text that is not a UUID; that is not modelled. Such a rejection would, for example, make a delete with a malformed id return an error.
- `Database.Store.SearchNotes`: `LIKE` is modelled as a plain case-sensitive substring test. The wildcard meaning of `%` and `_`, and of `\` as escape, inside a query is not captured.
- Row order without `ORDER BY` is unspecified in SQL. The model returns rows in insertion order.
- The race between the update and the re-read in `UpdateNoteByID` is concurrency and is not modelled.
- Error logging is not modelled: the log lines for a share row whose note lookup fails, a failed delete and a recipient name that does not resolve (`internal/database/db.go:100`, `:113`, `:138`) have no counterpart.
- The primary key of a share row (`SharedNote.ID`) is never read and is not modelled. The has-many association fields appear only as the foreign-key constraints they create.
