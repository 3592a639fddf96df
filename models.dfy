/** The three persisted row shapes of the notes service (users, notes and
    share rows) and the outcomes a store call can have. Timestamps are not
    part of the model. */
module Models {

  datatype Option<+T> = None | Some(value: T)

  /** A store or service call either yields a value or fails with an error. */
  datatype Result<+T> = Ok(value: T) | Err(error: Error)

  /** The failures the in-memory tables can produce.
      - RecordNotFound: a `First` lookup matched no row;
      - UniqueViolation: an insert would repeat a primary key or a username;
      - ForeignKeyViolation: an insert or update refers to a missing user or note;
      - EmptySlice: a batch insert was given no rows;
      - HashFailure: the password hashing primitive failed;
      - PasswordMismatch: the password does not match the stored hash. */
  datatype Error =
    | RecordNotFound
    | UniqueViolation
    | ForeignKeyViolation
    | EmptySlice
    | HashFailure
    | PasswordMismatch

  /** A row of the `users` table; `username` is unique. */
  datatype User = User(id: string, username: string, passwordHash: string)

  /** A row of the `notes` table. `isDeleted` is the soft-delete flag;
      `shared` is a column that no operation ever sets. */
  datatype Note = Note(
    id: string,
    userId: string,
    title: string,
    content: string,
    shared: bool,
    isDeleted: bool)

  /** A row of the `shared_notes` table: note `noteId`, shared by
      `fromUserId` with `toUserId`. */
  datatype SharedNote = SharedNote(noteId: string, fromUserId: string, toUserId: string)
}
