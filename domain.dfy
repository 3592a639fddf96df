/** Request and response shapes exchanged between the handlers and the
    service layer. */
module Domain {

  datatype SignupRequest = SignupRequest(username: string, password: string)

  datatype LoginRequest = LoginRequest(username: string, password: string)

  datatype LoginResponse = LoginResponse(username: string, accessToken: string)

  datatype NoteRequest = NoteRequest(title: string, body: string)

  datatype NoteResponse = NoteResponse(id: string, title: string, body: string, createdBy: string)

  datatype SharedNoteRequest = SharedNoteRequest(toUsersId: seq<string>)

  /** The zero values a service method returns beside an error. */
  const EmptyLogin := LoginResponse("", "")
  const EmptyNote := NoteResponse("", "", "", "")
}
