/** The service layer: every note operation takes the authenticated caller's
    id as an explicit parameter and passes it to the store as the owner (or
    as the sharer), then projects stored notes to responses. */
module Service {
  import opened Models
  import opened Domain
  import opened Queries
  import opened Database

  /** The projection of a stored note to the response the caller sees. */
  function ToResponse(n: Note): NoteResponse {
    NoteResponse(n.id, n.title, n.content, n.userId)
  }

  /** The note the service hands to the store's update: it carries the title
      and the body and nothing else, so applied to any row it replaces the
      non-empty ones among them and cannot move, reassign, delete or mark a
      note as shared. */
  function ContentPatch(req: NoteRequest): (p: Note)
    ensures p.id == ""
    ensures forall n :: Patched(n, p) == n.(title := if req.title != "" then req.title else n.title,
                                           content := if req.body != "" then req.body else n.content)
  {
    Note("", "", req.title, req.body, false, false)
  }

  /** No note carries the `shared` flag. */
  predicate NoneShared(notes: seq<Note>) {
    forall n :: n in notes ==> !n.shared
  }

  /** Between two tables only rows owned by `caller` differ. */
  predicate OthersUntouched(before: seq<Note>, after: seq<Note>, caller: string) {
    |before| == |after| &&
    forall i :: 0 <= i < |before| && before[i].userId != caller ==> after[i] == before[i]
  }

  /** The loop shared by listing and searching: one response per note, in
      the same order. */
  method ToResponses(notes: seq<Note>) returns (resps: seq<NoteResponse>)
    ensures |resps| == |notes|
    ensures forall i :: 0 <= i < |notes| ==>
      resps[i].id == notes[i].id && resps[i].title == notes[i].title &&
      resps[i].body == notes[i].content && resps[i].createdBy == notes[i].userId
  {
    resps := [];
    for i := 0 to |notes|
      invariant |resps| == i
      invariant forall k :: 0 <= k < i ==> resps[k] == ToResponse(notes[k])
    {
      resps := resps + [ToResponse(notes[i])];
    }
  }

  class NoteService {
    const store: Store

    ghost predicate Valid()
      reads this, store
    {
      store.Valid() && NoneShared(store.notes)
    }

    constructor (store: Store)
      requires store.Valid() && NoneShared(store.notes)
      ensures this.store == store && Valid()
    {
      this.store := store;
    }

    /** Sign-up: the outcome of hashing the password is a parameter (the
        hashing primitive is not modelled); the user row gets a fresh id. */
    method CreateNewUser(req: SignupRequest, hashed: Result<string>, freshId: string) returns (err: Option<Error>)
      requires Valid()
      modifies store
      ensures Valid()
      ensures store.notes == old(store.notes) && store.shares == old(store.shares)
      ensures hashed.Err? ==> err == Some(hashed.error) && store.users == old(store.users)
      ensures hashed.Ok? ==>
        && (err.None? <==> freshId !in UserIds(old(store.users)) && req.username !in Usernames(old(store.users)))
        && (err.None? ==> store.users == old(store.users) + [User(freshId, req.username, hashed.value)])
        && (err.Some? ==> store.users == old(store.users) && err.value == UniqueViolation)
    {
      if hashed.Err? {
        return Some(hashed.error);
      }
      err := store.CreateNewUser(User("", req.username, hashed.value), freshId);
    }

    /** Log-in: `passwordMatches(hash, password)` stands for the password
        hash comparison, and `accessToken` for whatever token generation
        returned; an error from token generation is ignored. */
    method LoginUser(req: LoginRequest, passwordMatches: (string, string) -> bool, accessToken: string)
      returns (resp: LoginResponse, err: Option<Error>)
      requires Valid()
      ensures err.None? <==> exists u :: u in store.users && u.username == req.username &&
                                         passwordMatches(u.passwordHash, req.password)
      ensures err.None? ==> resp == LoginResponse(req.username, accessToken)
      ensures err.Some? ==> resp == EmptyLogin
      ensures err.Some? ==>
        err.value == (if req.username in Usernames(store.users) then PasswordMismatch else RecordNotFound)
    {
      var user := store.GetUserByUsername(req.username);
      if user.Err? {
        return EmptyLogin, Some(user.error);
      }
      if !passwordMatches(user.value.passwordHash, req.password) {
        forall u | u in store.users && u.username == req.username ensures u == user.value {
          FindUserUnique(store.users, u);
        }
        return EmptyLogin, Some(PasswordMismatch);
      }
      resp, err := LoginResponse(user.value.username, accessToken), None;
    }

    /** A new note owned by the caller, live and not shared; the response
        echoes its fresh id, the title, the body and the caller. */
    method CreateNote(caller: string, req: NoteRequest, freshId: string) returns (resp: NoteResponse, err: Option<Error>)
      requires Valid()
      modifies store
      ensures Valid()
      ensures store.users == old(store.users) && store.shares == old(store.shares)
      ensures err.None? <==> freshId !in NoteIds(old(store.notes)) && caller in UserIds(old(store.users))
      ensures err.None? ==>
        && store.notes == old(store.notes) + [Note(freshId, caller, req.title, req.body, false, false)]
        && resp == NoteResponse(freshId, req.title, req.body, caller)
      ensures err.Some? ==> store.notes == old(store.notes) && resp == EmptyNote
      ensures err.Some? ==>
        err.value == (if freshId in NoteIds(old(store.notes)) then UniqueViolation else ForeignKeyViolation)
    {
      var r := store.CreateNewNote(Note("", caller, req.title, req.body, false, false), freshId);
      if r.Err? {
        return EmptyNote, Some(r.error);
      }
      resp, err := ToResponse(r.value), None;
    }

    /** Owner-only fetch: a note shared with the caller is not reachable here. */
    method GetNoteByID(caller: string, id: string) returns (resp: NoteResponse, err: Option<Error>)
      ensures err.None? <==> FindNote(store.notes, caller, id).Some?
      ensures err.None? ==> resp == ToResponse(FindNote(store.notes, caller, id).value)
      ensures err.None? ==> resp.id == id && resp.createdBy == caller
      ensures err.Some? ==> err.value == RecordNotFound && resp == EmptyNote
    {
      var r := store.GetNoteByID(caller, id);
      if r.Err? {
        return EmptyNote, Some(r.error);
      }
      resp, err := ToResponse(r.value), None;
    }

    /** The caller's listing, projected: own notes first, then the notes
        shared with the caller that still resolve. */
    method ListNotes(caller: string) returns (resps: seq<NoteResponse>, err: Option<Error>)
      ensures err.None?
      ensures var listed := Listed(store.notes, store.shares, caller);
        |resps| == |listed| && forall i :: 0 <= i < |listed| ==> resps[i] == ToResponse(listed[i])
      ensures forall i :: 0 <= i < |resps| ==>
        resps[i].createdBy == caller ||
        exists s :: s in store.shares && s.toUserId == caller &&
                    s.fromUserId == resps[i].createdBy && s.noteId == resps[i].id
    {
      var notes := store.ListNotes(caller);
      resps := ToResponses(notes);
      err := None;
      ListedSound(store.notes, store.shares, caller);
      forall i | 0 <= i < |resps| && resps[i].createdBy != caller
        ensures exists s :: s in store.shares && s.toUserId == caller &&
                            s.fromUserId == resps[i].createdBy && s.noteId == resps[i].id
      {
        assert notes[i] in notes;
        var s :| s in store.shares && s.toUserId == caller && Grants(s, notes[i]);
      }
    }

    /** Soft delete scoped to the caller: no other owner's note changes, and
        the call reports no error even when nothing matched. */
    method DeleteNoteByID(caller: string, id: string) returns (err: Option<Error>)
      requires Valid()
      modifies store
      ensures Valid()
      ensures err.None?
      ensures store.users == old(store.users) && store.shares == old(store.shares)
      ensures store.notes == SoftDelete(old(store.notes), caller, id)
      ensures OthersUntouched(old(store.notes), store.notes, caller)
      ensures NotesEvolve(old(store.notes), store.notes)
      ensures FindNote(store.notes, caller, id) == None
    {
      store.DeleteNoteByID(caller, id);
      err := None;
      forall n | n in store.notes ensures !n.shared {
        var i :| 0 <= i < |store.notes| && store.notes[i] == n;
        assert old(store.notes)[i] in old(store.notes);
      }
    }

    /** Update scoped to the caller: only title and body of the caller's live
        note can change (an empty field keeps the stored value); the
        response is the re-read row. */
    method UpdateNoteByID(caller: string, id: string, req: NoteRequest) returns (resp: NoteResponse, err: Option<Error>)
      requires Valid()
      modifies store
      ensures Valid()
      ensures store.users == old(store.users) && store.shares == old(store.shares)
      ensures store.notes == ApplyUpdates(old(store.notes), caller, id, ContentPatch(req))
      ensures OthersUntouched(old(store.notes), store.notes, caller)
      ensures forall i :: 0 <= i < |old(store.notes)| ==>
        var before, after := old(store.notes)[i], store.notes[i];
        after.id == before.id && after.userId == before.userId &&
        after.isDeleted == before.isDeleted && after.shared == before.shared
      ensures err.None? <==> FindNote(old(store.notes), caller, id).Some?
      ensures err.None? ==>
        var m := FindNote(old(store.notes), caller, id).value;
        resp == NoteResponse(id, if req.title != "" then req.title else m.title,
                                 if req.body != "" then req.body else m.content, caller)
      ensures err.Some? ==> err.value == RecordNotFound && resp == EmptyNote
    {
      ghost var before := store.notes;
      var patch := ContentPatch(req);
      UpdateKeepsIdentity(before, caller, id, patch);
      UpdateThenFind(before, caller, id, patch);
      var r := store.UpdateNoteByID(caller, id, patch);
      forall n | n in store.notes ensures !n.shared {
        var i :| 0 <= i < |store.notes| && store.notes[i] == n;
        assert before[i] in before;
      }
      if r.Err? {
        return EmptyNote, Some(r.error);
      }
      resp, err := ToResponse(r.value), None;
    }

    /** Sharing always names the caller as the sharer; whether the caller
        owns the note is not checked. */
    method ShareNoteWithUser(caller: string, noteId: string, req: SharedNoteRequest) returns (err: Option<Error>)
      requires Valid()
      modifies store
      ensures Valid()
      ensures store.users == old(store.users) && store.notes == old(store.notes)
      ensures var rows := ShareRows(old(store.users), noteId, caller, req.toUsersId);
        && (err.None? <==> rows != [] && noteId in NoteIds(old(store.notes)))
        && (err.None? ==> store.shares == old(store.shares) + rows)
        && (err.Some? ==> store.shares == old(store.shares))
        && (err.Some? ==> err.value == (if rows == [] then EmptySlice else ForeignKeyViolation))
      ensures forall k :: |old(store.shares)| <= k < |store.shares| ==>
        store.shares[k].fromUserId == caller && store.shares[k].noteId == noteId
    {
      err := store.ShareNoteWithUser(noteId, caller, req.toUsersId);
      ghost var rows := ShareRows(old(store.users), noteId, caller, req.toUsersId);
      forall k | |old(store.shares)| <= k < |store.shares|
        ensures store.shares[k].fromUserId == caller && store.shares[k].noteId == noteId
      {
        assert store.shares[k] == rows[k - |old(store.shares)|];
        assert rows[k - |old(store.shares)|] in rows;
      }
    }

    /** The caller's own live notes whose title or body contains the query;
        notes shared with the caller are never searched. */
    method SearchNotes(caller: string, q: string) returns (resps: seq<NoteResponse>, err: Option<Error>)
      ensures err.None?
      ensures var found := SearchMatches(store.notes, caller, q);
        |resps| == |found| && forall i :: 0 <= i < |found| ==> resps[i] == ToResponse(found[i])
      ensures forall i :: 0 <= i < |resps| ==> resps[i].createdBy == caller
    {
      var notes := store.SearchNotes(caller, q);
      resps := ToResponses(notes);
      err := None;
      forall i | 0 <= i < |resps| ensures resps[i].createdBy == caller {
        assert notes[i] in notes;
      }
    }
  }
}
