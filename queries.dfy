/** The row filters of the store: each `WHERE` clause of the store's queries
    as a function over the three tables, together with the facts about them
    that the access-control rules rest on. Tables are sequences in insertion
    order, and a query returns its rows in that order. */
module Queries {
  import opened Models

  // ------------------------------------------------------------------
  // Users
  // ------------------------------------------------------------------

  function UserIds(users: seq<User>): set<string> {
    set u | u in users :: u.id
  }

  function Usernames(users: seq<User>): set<string> {
    set u | u in users :: u.username
  }

  /** Primary key `id` and the `unique` constraint on `username`. */
  predicate UniqueUsers(users: seq<User>) {
    forall i, j :: 0 <= i < j < |users| ==>
      users[i].id != users[j].id && users[i].username != users[j].username
  }

  /** `WHERE username = ?` followed by `First`. */
  function FindUser(users: seq<User>, username: string): (r: Option<User>)
    ensures r.Some? ==> r.value in users && r.value.username == username
    ensures r.None? ==> username !in Usernames(users)
  {
    if users == [] then None
    else if users[0].username == username then Some(users[0])
    else FindUser(users[1..], username)
  }

  /** With unique usernames the lookup finds exactly the user holding the name. */
  lemma FindUserUnique(users: seq<User>, u: User)
    requires UniqueUsers(users) && u in users
    ensures FindUser(users, u.username) == Some(u)
  {
    var r := FindUser(users, u.username);
    assert u.username in Usernames(users);
    var i :| 0 <= i < |users| && users[i] == u;
    var j :| 0 <= j < |users| && users[j] == r.value;
    assert i == j;
  }

  // ------------------------------------------------------------------
  // Notes
  // ------------------------------------------------------------------

  function NoteIds(notes: seq<Note>): set<string> {
    set n | n in notes :: n.id
  }

  /** Primary key `id` of the notes table. */
  predicate UniqueNoteIds(notes: seq<Note>) {
    forall i, j :: 0 <= i < j < |notes| ==> notes[i].id != notes[j].id
  }

  /** `user_id = ? AND is_deleted = false` */
  predicate Live(n: Note, owner: string) {
    n.userId == owner && !n.isDeleted
  }

  /** `id = ? AND user_id = ? AND is_deleted = false` */
  predicate Scoped(n: Note, owner: string, id: string) {
    n.id == id && Live(n, owner)
  }

  /** The owner-scoped lookup of one note, `Where(scoped).First`. */
  function FindNote(notes: seq<Note>, owner: string, id: string): (r: Option<Note>)
    ensures r.Some? ==> r.value in notes && Scoped(r.value, owner, id)
    ensures r.None? ==> forall n :: n in notes ==> !Scoped(n, owner, id)
  {
    if notes == [] then None
    else if Scoped(notes[0], owner, id) then Some(notes[0])
    else FindNote(notes[1..], owner, id)
  }

  /** With unique note ids, a live note is found by its owner and id, and it
      is that very row. */
  lemma FindNoteUnique(notes: seq<Note>, m: Note)
    requires UniqueNoteIds(notes) && m in notes && !m.isDeleted
    ensures FindNote(notes, m.userId, m.id) == Some(m)
  {
    var r := FindNote(notes, m.userId, m.id);
    assert Scoped(m, m.userId, m.id);
    var i :| 0 <= i < |notes| && notes[i] == m;
    var j :| 0 <= j < |notes| && notes[j] == r.value;
    assert i == j;
  }

  /** `Where("user_id = ? AND is_deleted = ?", owner, false).Find` */
  function OwnedNotes(notes: seq<Note>, owner: string): (r: seq<Note>)
    ensures forall n :: n in r <==> n in notes && Live(n, owner)
  {
    if notes == [] then []
    else (if Live(notes[0], owner) then [notes[0]] else []) + OwnedNotes(notes[1..], owner)
  }

  /** `s LIKE '%' || q || '%'` for a query without wildcard characters:
      q occurs in s as a contiguous substring (case-sensitive). */
  predicate Contains(s: string, q: string) {
    exists k :: 0 <= k <= |s| && q <= s[k..]
  }

  /** The search filter: owner-scoped, not deleted, and the query occurs in
      the title or in the content. */
  predicate Matches(n: Note, owner: string, q: string) {
    Live(n, owner) && (Contains(n.title, q) || Contains(n.content, q))
  }

  /** `Where("user_id = ? AND is_deleted = ? AND (title LIKE ? OR content LIKE ?)", ...).Find` */
  function SearchMatches(notes: seq<Note>, owner: string, q: string): (r: seq<Note>)
    ensures forall n :: n in r <==> n in notes && Matches(n, owner, q)
  {
    if notes == [] then []
    else (if Matches(notes[0], owner, q) then [notes[0]] else []) + SearchMatches(notes[1..], owner, q)
  }

  /** The empty query matches every note: searching for "" lists exactly the
      caller's own live notes, in the same order. */
  lemma {:induction false} SearchEmptyQuery(notes: seq<Note>, owner: string)
    ensures SearchMatches(notes, owner, "") == OwnedNotes(notes, owner)
  {
    if notes != [] {
      assert Contains(notes[0].title, "") by {
        assert "" <= notes[0].title[0..];
      }
      SearchEmptyQuery(notes[1..], owner);
    }
  }

  /** Searching never reaches beyond the caller's own notes: a search result
      is a listed note of the caller and is never a note shared with them. */
  lemma SearchOnlyOwned(notes: seq<Note>, owner: string, q: string, n: Note)
    requires n in SearchMatches(notes, owner, q)
    ensures n in OwnedNotes(notes, owner) && n.userId == owner && !n.isDeleted
  {
  }

  // ------------------------------------------------------------------
  // Share rows and the listing of visible notes
  // ------------------------------------------------------------------

  /** Share row s designates note n: same note id and n's owner as sharer. */
  predicate Grants(s: SharedNote, n: Note) {
    s.noteId == n.id && s.fromUserId == n.userId
  }

  /** `Where("to_user_id = ?", viewer).Find` on the share rows. */
  function SharedWith(shares: seq<SharedNote>, viewer: string): (r: seq<SharedNote>)
    ensures forall s :: s in r <==> s in shares && s.toUserId == viewer
  {
    if shares == [] then []
    else (if shares[0].toUserId == viewer then [shares[0]] else []) + SharedWith(shares[1..], viewer)
  }

  lemma {:induction false} SharedWithAppend(a: seq<SharedNote>, b: seq<SharedNote>, viewer: string)
    ensures SharedWith(a + b, viewer) == SharedWith(a, viewer) + SharedWith(b, viewer)
  {
    if a == [] {
      assert a + b == b;
    } else {
      assert (a + b)[0] == a[0];
      assert (a + b)[1..] == a[1..] + b;
      SharedWithAppend(a[1..], b, viewer);
    }
  }

  /** One share row hydrated through the sharer-scoped lookup; a row whose
      lookup fails contributes nothing. */
  function Resolve(notes: seq<Note>, s: SharedNote): (r: seq<Note>)
    ensures |r| <= 1
    ensures forall n :: n in r ==> n in notes && !n.isDeleted && Grants(s, n)
  {
    match FindNote(notes, s.fromUserId, s.noteId)
    case Some(n) => [n]
    case None => []
  }

  /** The loop of the listing over the share rows, in row order. */
  function ResolveShares(notes: seq<Note>, rows: seq<SharedNote>): (r: seq<Note>)
    ensures |r| <= |rows|
    decreases |rows|
  {
    if rows == [] then []
    else ResolveShares(notes, rows[..|rows| - 1]) + Resolve(notes, rows[|rows| - 1])
  }

  /** One more row of the listing's loop hydrates that row's note. */
  lemma ResolveSharesStep(notes: seq<Note>, rows: seq<SharedNote>, i: nat)
    requires i < |rows|
    ensures ResolveShares(notes, rows[..i + 1]) == ResolveShares(notes, rows[..i]) + Resolve(notes, rows[i])
  {
    assert rows[..i + 1][..i] == rows[..i];
  }

  /** Every hydrated note is live and designated by one of the rows. */
  lemma {:induction false} ResolveSharesSound(notes: seq<Note>, rows: seq<SharedNote>)
    ensures forall n :: n in ResolveShares(notes, rows) ==>
      n in notes && !n.isDeleted && exists s :: s in rows && Grants(s, n)
    decreases |rows|
  {
    if rows != [] {
      var init, last := rows[..|rows| - 1], rows[|rows| - 1];
      assert rows == init + [last];
      ResolveSharesSound(notes, init);
      forall n | n in ResolveShares(notes, rows)
        ensures n in notes && !n.isDeleted && exists s :: s in rows && Grants(s, n)
      {
        if n in ResolveShares(notes, init) {
          var s :| s in init && Grants(s, n);
          assert s in rows;
        } else {
          assert n in Resolve(notes, last);
          assert last in rows;
        }
      }
    }
  }

  lemma {:induction false} ResolveSharesAppend(notes: seq<Note>, a: seq<SharedNote>, b: seq<SharedNote>)
    ensures ResolveShares(notes, a + b) == ResolveShares(notes, a) + ResolveShares(notes, b)
    decreases |b|
  {
    if b == [] {
      assert a + b == a;
    } else {
      assert (a + b)[..|a + b| - 1] == a + b[..|b| - 1];
      assert (a + b)[|a + b| - 1] == b[|b| - 1];
      ResolveSharesAppend(notes, a, b[..|b| - 1]);
    }
  }

  /** Every live note that some share row designates is hydrated. */
  lemma {:induction false} ResolveSharesIncludes(notes: seq<Note>, rows: seq<SharedNote>, s: SharedNote, n: Note)
    requires UniqueNoteIds(notes)
    requires s in rows && n in notes && !n.isDeleted && Grants(s, n)
    ensures n in ResolveShares(notes, rows)
    decreases |rows|
  {
    var last := rows[|rows| - 1];
    if s == last {
      FindNoteUnique(notes, n);
    } else {
      assert rows == rows[..|rows| - 1] + [last];
      assert s in rows[..|rows| - 1];
      ResolveSharesIncludes(notes, rows[..|rows| - 1], s, n);
    }
  }

  /** What a viewer's listing holds: their own live notes, then, in share-row
      order, each note shared with them that still resolves. */
  function Listed(notes: seq<Note>, shares: seq<SharedNote>, viewer: string): seq<Note> {
    OwnedNotes(notes, viewer) + ResolveShares(notes, SharedWith(shares, viewer))
  }

  /** Nothing but live notes of the viewer, and live notes designated by a
      share row addressed to the viewer, ever appears in the listing. */
  lemma ListedSound(notes: seq<Note>, shares: seq<SharedNote>, viewer: string)
    ensures forall n :: n in Listed(notes, shares, viewer) ==>
      n in notes && !n.isDeleted &&
      (n.userId == viewer || exists s :: s in shares && s.toUserId == viewer && Grants(s, n))
  {
    var rows := SharedWith(shares, viewer);
    ResolveSharesSound(notes, rows);
    forall n | n in Listed(notes, shares, viewer) && n.userId != viewer
      ensures exists s :: s in shares && s.toUserId == viewer && Grants(s, n)
    {
      assert n in ResolveShares(notes, rows);
      var s :| s in rows && Grants(s, n);
      assert s in shares && s.toUserId == viewer;
    }
  }

  /** A note appears in a viewer's listing exactly when it is live and either
      belongs to the viewer or is designated by a share row addressed to the
      viewer whose sharer owns the note. No other note is ever shown. */
  lemma ListedVisibility(notes: seq<Note>, shares: seq<SharedNote>, viewer: string, n: Note)
    requires UniqueNoteIds(notes)
    ensures n in Listed(notes, shares, viewer) <==>
      n in notes && !n.isDeleted &&
      (n.userId == viewer || exists s :: s in shares && s.toUserId == viewer && Grants(s, n))
  {
    var rows := SharedWith(shares, viewer);
    ListedSound(notes, shares, viewer);
    if n in notes && !n.isDeleted && n.userId != viewer {
      if s :| s in shares && s.toUserId == viewer && Grants(s, n) {
        ResolveSharesIncludes(notes, rows, s, n);
      }
    }
  }

  /** Sharing the same rows a second time stores duplicate rows, and the
      listing shows the hydrated notes a second time: duplicates are not
      removed, and nothing else changes. */
  lemma ListedAfterRepeatedShare(notes: seq<Note>, shares: seq<SharedNote>, rows: seq<SharedNote>, viewer: string)
    ensures Listed(notes, shares + rows + rows, viewer)
         == Listed(notes, shares + rows, viewer) + ResolveShares(notes, SharedWith(rows, viewer))
  {
    SharedWithAppend(shares + rows, rows, viewer);
    ResolveSharesAppend(notes, SharedWith(shares + rows, viewer), SharedWith(rows, viewer));
  }

  // ------------------------------------------------------------------
  // Soft delete
  // ------------------------------------------------------------------

  function MarkDeleted(n: Note, owner: string, id: string): Note {
    if Scoped(n, owner, id) then n.(isDeleted := true) else n
  }

  /** `Model(&Note{}).Where(scoped).Update("is_deleted", true)` */
  function SoftDelete(notes: seq<Note>, owner: string, id: string): seq<Note> {
    seq(|notes|, i requires 0 <= i < |notes| => MarkDeleted(notes[i], owner, id))
  }

  /** Rows are only ever added, ids never change, and the soft-delete flag
      only ever goes from false to true. */
  predicate NotesEvolve(before: seq<Note>, after: seq<Note>) {
    |before| <= |after| &&
    forall i :: 0 <= i < |before| ==>
      after[i].id == before[i].id && (before[i].isDeleted ==> after[i].isDeleted)
  }

  /** After a delete no row matches the owner-scoped predicate any more, so
      the note is gone from its owner's lookup, listing and search, and from
      every other viewer's listing (a share row resolves through the same
      lookup). */
  lemma DeleteHides(notes: seq<Note>, shares: seq<SharedNote>, owner: string, id: string, viewer: string, q: string)
    ensures FindNote(SoftDelete(notes, owner, id), owner, id) == None
    ensures forall n :: n in Listed(SoftDelete(notes, owner, id), shares, viewer) ==> !Scoped(n, owner, id)
    ensures forall n :: n in SearchMatches(SoftDelete(notes, owner, id), owner, q) ==> n.id != id
  {
    var after := SoftDelete(notes, owner, id);
    forall n | n in after ensures !Scoped(n, owner, id) {
      var i :| 0 <= i < |after| && after[i] == n;
    }
    ResolveSharesSound(after, SharedWith(shares, viewer));
  }

  /** The delete changes nothing but the flag, and changes at most one row:
      the one with that id, owned by `owner` and not yet deleted. */
  lemma DeleteTouchesOnlyTarget(notes: seq<Note>, owner: string, id: string, i: nat)
    requires UniqueNoteIds(notes) && i < |notes|
    ensures var after := SoftDelete(notes, owner, id);
      |after| == |notes| && NotesEvolve(notes, after) &&
      (after[i] != notes[i] <==> Scoped(notes[i], owner, id)) &&
      after[i] == notes[i].(isDeleted := after[i].isDeleted) &&
      forall j :: 0 <= j < |notes| && j != i && after[i] != notes[i] ==> after[j] == notes[j]
  {
    var after := SoftDelete(notes, owner, id);
    forall j | 0 <= j < |notes| && j != i && after[i] != notes[i] ensures after[j] == notes[j] {
      if i < j { assert notes[i].id != notes[j].id; } else { assert notes[j].id != notes[i].id; }
    }
  }

  /** Deleting twice is the same as deleting once: the second call matches no
      row (it still reports no error). */
  lemma DeleteIdempotent(notes: seq<Note>, owner: string, id: string)
    ensures SoftDelete(SoftDelete(notes, owner, id), owner, id) == SoftDelete(notes, owner, id)
  {
  }

  // ------------------------------------------------------------------
  // Partial update
  // ------------------------------------------------------------------

  /** GORM's `Updates` with a struct writes the non-zero fields only: a
      non-empty string replaces the column, `true` sets a flag, and the zero
      value leaves the column as it is. */
  function Patched(n: Note, patch: Note): Note {
    n.(userId := if patch.userId != "" then patch.userId else n.userId,
       title := if patch.title != "" then patch.title else n.title,
       content := if patch.content != "" then patch.content else n.content,
       shared := n.shared || patch.shared,
       isDeleted := n.isDeleted || patch.isDeleted)
  }

  /** The rows an update reaches: the scoped predicate, plus a condition on
      the primary key when the patch carries a non-zero id. */
  predicate UpdateTarget(n: Note, owner: string, id: string, patch: Note) {
    Scoped(n, owner, id) && (patch.id == "" || patch.id == n.id)
  }

  function UpdateRow(n: Note, owner: string, id: string, patch: Note): Note {
    if UpdateTarget(n, owner, id, patch) then Patched(n, patch) else n
  }

  /** `Where(scoped).Updates(patch)` */
  function ApplyUpdates(notes: seq<Note>, owner: string, id: string, patch: Note): seq<Note> {
    seq(|notes|, i requires 0 <= i < |notes| => UpdateRow(notes[i], owner, id, patch))
  }

  /** A patch that names no owner and does not delete: what the service sends. */
  predicate KeepsOwnership(patch: Note) {
    patch.userId == "" && !patch.isDeleted
  }

  /** The update never changes ids and never clears the deleted flag; a patch
      that names no owner and does not delete leaves every row's id, owner and
      flags as they were, so every row keeps its place in every owner-scoped
      query. */
  lemma UpdateKeepsIdentity(notes: seq<Note>, owner: string, id: string, patch: Note)
    ensures NotesEvolve(notes, ApplyUpdates(notes, owner, id, patch))
    ensures |ApplyUpdates(notes, owner, id, patch)| == |notes|
    ensures KeepsOwnership(patch) && !patch.shared ==>
      forall i :: 0 <= i < |notes| ==>
        var r := ApplyUpdates(notes, owner, id, patch)[i];
        r.id == notes[i].id && r.userId == notes[i].userId &&
        r.isDeleted == notes[i].isDeleted && r.shared == notes[i].shared
  {
  }

  /** The re-read after an update: when the owner-scoped row existed, the
      lookup now returns that row with the patch applied; when it did not,
      the lookup still fails and the table is unchanged. */
  lemma UpdateThenFind(notes: seq<Note>, owner: string, id: string, patch: Note)
    requires UniqueNoteIds(notes) && KeepsOwnership(patch)
    ensures FindNote(notes, owner, id).None? ==>
      ApplyUpdates(notes, owner, id, patch) == notes &&
      FindNote(ApplyUpdates(notes, owner, id, patch), owner, id).None?
    ensures FindNote(notes, owner, id).Some? ==>
      FindNote(ApplyUpdates(notes, owner, id, patch), owner, id)
        == Some(UpdateRow(FindNote(notes, owner, id).value, owner, id, patch))
  {
    var after := ApplyUpdates(notes, owner, id, patch);
    assert UniqueNoteIds(after) by {
      forall i, j | 0 <= i < j < |after| ensures after[i].id != after[j].id {
        assert notes[i].id != notes[j].id;
      }
    }
    match FindNote(notes, owner, id)
    case None =>
      assert after == notes by {
        forall i | 0 <= i < |notes| ensures after[i] == notes[i] {
          assert notes[i] in notes;
        }
      }
    case Some(m) =>
      var k :| 0 <= k < |notes| && notes[k] == m;
      FindNoteUnique(after, after[k]);
  }

  // ------------------------------------------------------------------
  // Sharing
  // ------------------------------------------------------------------

  /** The share row one recipient name yields: one row when the name resolves
      to a user, none otherwise. */
  function Recipient(users: seq<User>, noteId: string, from: string, name: string): seq<SharedNote> {
    match FindUser(users, name)
    case Some(u) => [SharedNote(noteId, from, u.id)]
    case None => []
  }

  /** The rows the share loop collects, in the order of the names. */
  function ShareRows(users: seq<User>, noteId: string, from: string, names: seq<string>): (r: seq<SharedNote>)
    ensures |r| <= |names|
    ensures forall s :: s in r ==>
      s.noteId == noteId && s.fromUserId == from && s.toUserId in UserIds(users)
    decreases |names|
  {
    if names == [] then []
    else ShareRows(users, noteId, from, names[..|names| - 1]) + Recipient(users, noteId, from, names[|names| - 1])
  }

  /** The rows of a list of names are the rows of its parts, in order. */
  lemma {:induction false} ShareRowsAppend(users: seq<User>, noteId: string, from: string, a: seq<string>, b: seq<string>)
    ensures ShareRows(users, noteId, from, a + b)
         == ShareRows(users, noteId, from, a) + ShareRows(users, noteId, from, b)
    decreases |b|
  {
    if b == [] {
      assert a + b == a;
    } else {
      assert (a + b)[..|a + b| - 1] == a + b[..|b| - 1];
      assert (a + b)[|a + b| - 1] == b[|b| - 1];
      ShareRowsAppend(users, noteId, from, a, b[..|b| - 1]);
    }
  }

  /** No row is collected exactly when no name resolves to a user. */
  lemma {:induction false} ShareRowsEmpty(users: seq<User>, noteId: string, from: string, names: seq<string>)
    ensures ShareRows(users, noteId, from, names) == [] <==>
      forall name :: name in names ==> name !in Usernames(users)
    decreases |names|
  {
    if names != [] {
      var init, last := names[..|names| - 1], names[|names| - 1];
      assert names == init + [last];
      ShareRowsEmpty(users, noteId, from, init);
      if FindUser(users, last).Some? {
        assert last in Usernames(users);
      }
      if last in Usernames(users) {
        var u :| u in users && u.username == last;
        assert FindUser(users, last).Some?;
      }
    }
  }

  /** A name that resolves yields its row among the collected ones. */
  lemma {:induction false} ShareRowsIncludes(users: seq<User>, noteId: string, from: string, names: seq<string>, name: string, u: User)
    requires name in names && FindUser(users, name) == Some(u)
    ensures SharedNote(noteId, from, u.id) in ShareRows(users, noteId, from, names)
    decreases |names|
  {
    var init, last := names[..|names| - 1], names[|names| - 1];
    assert names == init + [last];
    if name != last {
      assert name in init;
      ShareRowsIncludes(users, noteId, from, init, name, u);
    }
  }

  /** Share rows whose sharer has no live note of that id hydrate to nothing. */
  lemma {:induction false} ResolveSharesUnresolvable(notes: seq<Note>, rows: seq<SharedNote>)
    requires forall s :: s in rows ==> FindNote(notes, s.fromUserId, s.noteId).None?
    ensures ResolveShares(notes, rows) == []
    decreases |rows|
  {
    if rows != [] {
      var init, last := rows[..|rows| - 1], rows[|rows| - 1];
      assert rows == init + [last] && last in rows;
      forall s | s in init ensures FindNote(notes, s.fromUserId, s.noteId).None? {
        assert s in rows;
      }
      ResolveSharesUnresolvable(notes, init);
    }
  }

  /** Sharing checks no ownership, yet rows written by a caller who has no
      live note of that id change nobody's listing: a share row is only
      hydrated through its sharer's own owner-scoped lookup. */
  lemma ShareByNonOwnerShowsNothing(users: seq<User>, notes: seq<Note>, shares: seq<SharedNote>,
                                    noteId: string, from: string, names: seq<string>, viewer: string)
    requires FindNote(notes, from, noteId).None?
    ensures Listed(notes, shares + ShareRows(users, noteId, from, names), viewer) == Listed(notes, shares, viewer)
  {
    var rows := ShareRows(users, noteId, from, names);
    SharedWithAppend(shares, rows, viewer);
    ResolveSharesAppend(notes, SharedWith(shares, viewer), SharedWith(rows, viewer));
    ResolveSharesUnresolvable(notes, SharedWith(rows, viewer));
  }

  /** When the owner shares a live note with a name that resolves, the note
      appears in that user's listing. */
  lemma ShareByOwnerShows(users: seq<User>, notes: seq<Note>, shares: seq<SharedNote>,
                          m: Note, names: seq<string>, u: User)
    requires UniqueUsers(users) && UniqueNoteIds(notes)
    requires m in notes && !m.isDeleted && u in users && u.username in names
    ensures m in Listed(notes, shares + ShareRows(users, m.id, m.userId, names), u.id)
  {
    var rows := ShareRows(users, m.id, m.userId, names);
    FindUserUnique(users, u);
    ShareRowsIncludes(users, m.id, m.userId, names, u.username, u);
    var s := SharedNote(m.id, m.userId, u.id);
    assert s in shares + rows && Grants(s, m);
    ListedVisibility(notes, shares + rows, u.id, m);
  }

  // ------------------------------------------------------------------
  // Referential integrity of the three tables
  // ------------------------------------------------------------------

  /** The constraints of the schema: primary keys, the unique username, and
      the foreign keys `notes.user_id`, `shared_notes.note_id` and
      `shared_notes.to_user_id`. */
  predicate Consistent(users: seq<User>, notes: seq<Note>, shares: seq<SharedNote>) {
    && UniqueUsers(users)
    && UniqueNoteIds(notes)
    && (forall n :: n in notes ==> n.userId in UserIds(users))
    && (forall s :: s in shares ==> s.noteId in NoteIds(notes) && s.toUserId in UserIds(users))
  }
}
