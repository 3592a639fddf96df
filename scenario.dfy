/** Clients of the service, reasoning only from its contracts: two users sign
    up, one shares a note with the other, and the note's visibility is
    followed through the share and a repeated delete. */
module Scenario {
  import opened Models
  import opened Domain
  import opened Queries
  import opened Database
  import opened Service

  /** alice and bob sign up on a fresh store. */
  method SignUpBoth(alice: string, bob: string) returns (notes: NoteService)
    requires alice != bob
    ensures fresh(notes) && fresh(notes.store) && notes.Valid()
    ensures notes.store.users == [User(alice, "alice", "hash-a"), User(bob, "bob", "hash-b")]
    ensures notes.store.notes == [] && notes.store.shares == []
  {
    var store := new Store();
    notes := new NoteService(store);

    var err := notes.CreateNewUser(SignupRequest("alice", "pw-a"), Ok("hash-a"), alice);
    assert err == None;
    assert store.users == [User(alice, "alice", "hash-a")];
    err := notes.CreateNewUser(SignupRequest("bob", "pw-b"), Ok("hash-b"), bob);
    assert store.users[0].id in UserIds(store.users);
    assert err == None;
  }

  /** alice and bob sign up, alice writes "Groceries" and shares it with bob. */
  method SignUpWriteAndShare(alice: string, bob: string, noteId: string) returns (notes: NoteService)
    requires alice != bob
    ensures fresh(notes) && fresh(notes.store) && notes.Valid()
    ensures notes.store.users == [User(alice, "alice", "hash-a"), User(bob, "bob", "hash-b")]
    ensures notes.store.notes == [Note(noteId, alice, "Groceries", "milk, eggs", false, false)]
    ensures notes.store.shares == [SharedNote(noteId, alice, bob)]
  {
    notes := SignUpBoth(alice, bob);
    assert notes.store.users[0].id in UserIds(notes.store.users);

    var created, createErr := notes.CreateNote(alice, NoteRequest("Groceries", "milk, eggs"), noteId);
    assert createErr == None;

    var err := notes.ShareNoteWithUser(alice, noteId, SharedNoteRequest(["bob"]));
    assert ShareRows(notes.store.users, noteId, alice, ["bob"]) == [SharedNote(noteId, alice, bob)] by {
      assert ["bob"][..0] == [];
    }
  }

  /** The listing bob gets from the tables the sign-up and share leave,
      with the note live or deleted. */
  lemma ListedToBob(alice: string, bob: string, noteId: string, deleted: bool)
    requires alice != bob
    ensures var groceries := Note(noteId, alice, "Groceries", "milk, eggs", false, deleted);
      Listed([groceries], [SharedNote(noteId, alice, bob)], bob) == if deleted then [] else [groceries]
  {
    var groceries := Note(noteId, alice, "Groceries", "milk, eggs", false, deleted);
    var shares := [SharedNote(noteId, alice, bob)];
    assert OwnedNotes([groceries], bob) == [];
    assert SharedWith(shares, bob) == shares;
    assert ResolveShares([groceries], shares) == if deleted then [] else [groceries] by {
      assert shares[..0] == [];
    }
  }

  /** After the share bob lists the note but cannot fetch it by id. */
  method SharedNoteIsListedNotFetched(alice: string, bob: string, noteId: string)
    returns (bobLists: seq<NoteResponse>, bobFetch: Option<Error>)
    requires alice != bob
    ensures bobLists == [NoteResponse(noteId, "Groceries", "milk, eggs", alice)]
    ensures bobFetch == Some(RecordNotFound)
  {
    var notes := SignUpWriteAndShare(alice, bob, noteId);
    ListedToBob(alice, bob, noteId, false);
    var listErr;
    bobLists, listErr := notes.ListNotes(bob);
    assert bobLists == [bobLists[0]];

    var fetched;
    fetched, bobFetch := notes.GetNoteByID(bob, noteId);
  }

  /** alice deletes the note twice, the second time without an error, and
      bob no longer lists it. */
  method DeletedNoteLeavesListing(alice: string, bob: string, noteId: string)
    returns (secondDelete: Option<Error>, bobLists: seq<NoteResponse>)
    requires alice != bob
    ensures secondDelete == None
    ensures bobLists == []
  {
    var notes := SignUpWriteAndShare(alice, bob, noteId);
    var err := notes.DeleteNoteByID(alice, noteId);
    secondDelete := notes.DeleteNoteByID(alice, noteId);
    assert notes.store.notes == [Note(noteId, alice, "Groceries", "milk, eggs", false, true)];
    ListedToBob(alice, bob, noteId, true);
    var listErr;
    bobLists, listErr := notes.ListNotes(bob);
  }
}
