/** The store behind the `Storer` interface, with its three tables held in
    memory: every query is the corresponding filter of module Queries, and
    every write keeps the schema's constraints (module Queries, Consistent). */
module Database {
  import opened Models
  import opened Queries

  /** The row `Create` inserts for a user: a zero id takes the column default,
      a fresh UUID supplied by the caller of the model. */
  function WithUserId(user: User, freshId: string): User {
    if user.id == "" then user.(id := freshId) else user
  }

  /** The row `Create` inserts for a note, as for users. */
  function WithNoteId(note: Note, freshId: string): Note {
    if note.id == "" then note.(id := freshId) else note
  }

  /** Whether `Where(scoped).Updates(patch)` reaches a row at all. */
  predicate Reaches(notes: seq<Note>, owner: string, id: string, patch: Note) {
    FindNote(notes, owner, id).Some? && (patch.id == "" || patch.id == id)
  }

  /** Two tables whose rows carry the same ids position by position hold the
      same set of ids. */
  lemma SameIdsSameNoteIds(a: seq<Note>, b: seq<Note>)
    requires |a| == |b| && forall i :: 0 <= i < |a| ==> a[i].id == b[i].id
    ensures NoteIds(a) == NoteIds(b)
  {
    forall x | x in NoteIds(a) ensures x in NoteIds(b) {
      var n :| n in a && n.id == x;
      var i :| 0 <= i < |a| && a[i] == n;
      assert b[i] in b;
    }
    forall x | x in NoteIds(b) ensures x in NoteIds(a) {
      var n :| n in b && n.id == x;
      var i :| 0 <= i < |b| && b[i] == n;
      assert a[i] in a;
    }
  }

  class Store {
    var users: seq<User>
    var notes: seq<Note>
    var shares: seq<SharedNote>

    ghost predicate Valid()
      reads this
    {
      Consistent(users, notes, shares)
    }

    /** A freshly migrated database: three empty tables. */
    constructor ()
      ensures Valid() && users == [] && notes == [] && shares == []
    {
      users, notes, shares := [], [], [];
    }

    /** `Create(user)`: rejected when the id or the username is taken. */
    method CreateNewUser(user: User, freshId: string) returns (err: Option<Error>)
      requires Valid()
      modifies this
      ensures Valid()
      ensures notes == old(notes) && shares == old(shares)
      ensures var row := WithUserId(user, freshId);
        && (err.None? <==> row.id !in UserIds(old(users)) && row.username !in Usernames(old(users)))
        && (err.None? ==> users == old(users) + [row])
        && (err.Some? ==> users == old(users) && err.value == UniqueViolation)
    {
      var row := WithUserId(user, freshId);
      if row.id in UserIds(users) || row.username in Usernames(users) {
        return Some(UniqueViolation);
      }
      assert UserIds(users + [row]) == UserIds(users) + {row.id};
      forall i | 0 <= i < |users| ensures users[i].id != row.id && users[i].username != row.username {
        assert users[i] in users;
      }
      users := users + [row];
      err := None;
    }

    /** `Where("username = ?", username).First`. */
    method GetUserByUsername(username: string) returns (r: Result<User>)
      ensures r.Ok? <==> username in Usernames(users)
      ensures r.Ok? ==> r.value in users && r.value.username == username
      ensures r.Ok? ==> FindUser(users, username) == Some(r.value)
      ensures r.Err? ==> FindUser(users, username) == None && r.error == RecordNotFound
    {
      match FindUser(users, username)
      case Some(u) => r := Ok(u);
      case None => r := Err(RecordNotFound);
    }

    /** `Create(note)`: the row is the given note with its id filled in; it is
        rejected when the id is taken or the owner is not a user. */
    method CreateNewNote(note: Note, freshId: string) returns (r: Result<Note>)
      requires Valid()
      modifies this
      ensures Valid()
      ensures users == old(users) && shares == old(shares)
      ensures var row := WithNoteId(note, freshId);
        && (r.Ok? <==> row.id !in NoteIds(old(notes)) && row.userId in UserIds(old(users)))
        && (r.Ok? ==> r.value == row && notes == old(notes) + [row])
        && (r.Err? ==> notes == old(notes))
        && (r.Err? ==> r.error == (if row.id in NoteIds(old(notes)) then UniqueViolation else ForeignKeyViolation))
    {
      var row := WithNoteId(note, freshId);
      if row.id in NoteIds(notes) {
        return Err(UniqueViolation);
      }
      if row.userId !in UserIds(users) {
        return Err(ForeignKeyViolation);
      }
      assert NoteIds(notes + [row]) == NoteIds(notes) + {row.id};
      forall i | 0 <= i < |notes| ensures notes[i].id != row.id {
        assert notes[i] in notes;
      }
      notes := notes + [row];
      r := Ok(row);
    }

    /** `Where("id = ? AND user_id = ? AND is_deleted = ?", id, owner, false).First`. */
    method GetNoteByID(owner: string, id: string) returns (r: Result<Note>)
      ensures r.Ok? <==> exists n :: n in notes && Scoped(n, owner, id)
      ensures r.Ok? ==> r.value in notes && Scoped(r.value, owner, id)
      ensures r.Ok? ==> FindNote(notes, owner, id) == Some(r.value)
      ensures r.Err? ==> FindNote(notes, owner, id) == None && r.error == RecordNotFound
    {
      match FindNote(notes, owner, id)
      case Some(n) => r := Ok(n);
      case None => r := Err(RecordNotFound);
    }

    /** The owner's live notes, then one note per share row addressed to the
        owner whose sharer-scoped lookup succeeds; failed lookups are skipped. */
    method ListNotes(owner: string) returns (r: seq<Note>)
      ensures r == Listed(notes, shares, owner)
    {
      var owned := OwnedNotes(notes, owner);
      var rows := SharedWith(shares, owner);
      var hydrated := HydrateShares(rows);
      r := owned + hydrated;
    }

    /** The listing's loop over the share rows: each row is looked up with
        the sharer as owner, and a failed lookup is skipped. */
    method HydrateShares(rows: seq<SharedNote>) returns (r: seq<Note>)
      ensures r == ResolveShares(notes, rows)
    {
      r := [];
      for i := 0 to |rows|
        invariant r == ResolveShares(notes, rows[..i])
      {
        ResolveSharesStep(notes, rows, i);
        var found := GetNoteByID(rows[i].fromUserId, rows[i].noteId);
        if found.Ok? {
          r := r + [found.value];
        }
      }
      assert rows[..|rows|] == rows;
    }

    /** `Model(&Note{}).Where(scoped).Update("is_deleted", true)`: rows
        affected are not inspected, so the call never fails. */
    method DeleteNoteByID(owner: string, id: string)
      requires Valid()
      modifies this
      ensures Valid()
      ensures users == old(users) && shares == old(shares)
      ensures notes == SoftDelete(old(notes), owner, id)
      ensures NotesEvolve(old(notes), notes)
      ensures FindNote(notes, owner, id) == None
    {
      var before := notes;
      notes := SoftDelete(notes, owner, id);
      SameIdsSameNoteIds(before, notes);
      DeleteHides(before, shares, owner, id, owner, "");
    }

    /** `Where(scoped).Updates(patch)` followed by the owner-scoped re-read.
        The re-read is what decides the outcome: an update that reached no
        row is not an error by itself. */
    method UpdateNoteByID(owner: string, id: string, patch: Note) returns (r: Result<Note>)
      requires Valid()
      modifies this
      ensures Valid()
      ensures users == old(users) && shares == old(shares)
      ensures NotesEvolve(old(notes), notes)
      ensures var blocked := Reaches(old(notes), owner, id, patch) &&
                             patch.userId != "" && patch.userId !in UserIds(old(users));
        && (blocked ==> notes == old(notes) && r == Err(ForeignKeyViolation))
        && (!blocked ==> notes == ApplyUpdates(old(notes), owner, id, patch))
        && (!blocked ==> (r.Ok? <==> FindNote(notes, owner, id).Some?))
        && (!blocked && r.Ok? ==> FindNote(notes, owner, id) == Some(r.value))
        && (!blocked && r.Err? ==> r.error == RecordNotFound)
    {
      if Reaches(notes, owner, id, patch) && patch.userId != "" && patch.userId !in UserIds(users) {
        return Err(ForeignKeyViolation);
      }
      var before := notes;
      UpdateKeepsIdentity(before, owner, id, patch);
      notes := ApplyUpdates(notes, owner, id, patch);
      SameIdsSameNoteIds(before, notes);
      assert UniqueNoteIds(notes) by {
        forall i, j | 0 <= i < j < |notes| ensures notes[i].id != notes[j].id {
          assert before[i].id != before[j].id;
        }
      }
      forall n | n in notes ensures n.userId in UserIds(users) {
        var i :| 0 <= i < |notes| && notes[i] == n;
        assert before[i] in before;
      }
      r := GetNoteByID(owner, id);
    }

    /** One share row per recipient name that resolves, in the order of the
        names, all inserted by one `Create`; names that do not resolve are
        skipped, no ownership check is made, and duplicates are kept. */
    method ShareNoteWithUser(noteId: string, from: string, names: seq<string>) returns (err: Option<Error>)
      requires Valid()
      modifies this
      ensures Valid()
      ensures users == old(users) && notes == old(notes)
      ensures var rows := ShareRows(old(users), noteId, from, names);
        && (err.None? <==> rows != [] && noteId in NoteIds(old(notes)))
        && (err.None? ==> shares == old(shares) + rows)
        && (err.Some? ==> shares == old(shares))
        && (err.Some? ==> err.value == (if rows == [] then EmptySlice else ForeignKeyViolation))
    {
      var rows: seq<SharedNote> := [];
      var i := 0;
      while i < |names|
        invariant 0 <= i <= |names|
        invariant rows == ShareRows(users, noteId, from, names[..i])
        invariant users == old(users) && notes == old(notes) && shares == old(shares)
      {
        assert ShareRows(users, noteId, from, names[..i + 1])
            == ShareRows(users, noteId, from, names[..i]) + Recipient(users, noteId, from, names[i]) by {
          assert names[..i + 1][..i] == names[..i];
        }
        var to := GetUserByUsername(names[i]);
        if to.Ok? {
          rows := rows + [SharedNote(noteId, from, to.value.id)];
        }
        i := i + 1;
      }
      assert names[..|names|] == names;
      if rows == [] {
        return Some(EmptySlice);
      }
      if noteId !in NoteIds(notes) {
        return Some(ForeignKeyViolation);
      }
      shares := shares + rows;
      err := None;
    }

    /** `Where("user_id = ? AND is_deleted = ? AND (title LIKE ? OR content LIKE ?)", ...).Find`. */
    method SearchNotes(owner: string, q: string) returns (r: seq<Note>)
      ensures r == SearchMatches(notes, owner, q)
      ensures forall n :: n in r <==> n in notes && Matches(n, owner, q)
    {
      r := SearchMatches(notes, owner, q);
    }
  }
}
