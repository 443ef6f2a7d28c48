/** The records that the note store and the two account screens keep in device storage. */
module Types {
  import opened Wrappers

  /** A note as stored under a user's partition. An `imageUri` that is missing and one that
      is `null` are both `None`: no operation of the store tells them apart. The two
      timestamps are JavaScript numbers (milliseconds); no store operation reads them. */
  datatype Note = Note(
    id: string,
    title: string,
    body: string,
    imageUri: Option<string>,
    createdAt: int,
    updatedAt: int)

  /** A registered account, as the signup screen builds it. The password is plaintext. */
  datatype User = User(id: string, name: string, email: string, password: string)

  /** What an account screen's submit handler ends in (the alert it raises, or success). */
  datatype AuthOutcome =
    | ValidationFailed        // "All fields are required"
    | DuplicateEmail          // "Email already registered"
    | InvalidCredentials      // "Incorrect email or password"
    | Ok(user: User)          // the session now holds `user`
}
