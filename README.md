# Note store and account rules of a note-taking app, in Dafny

This project models the data logic of a mobile note-taking app built on React Native:

- **The local store** of `lib/storage.ts`. It keeps three AsyncStorage entries. `"@nm_users"` holds a users list. `"@nm_loggedin"` holds the logged-in username. `"@nm_notes"` holds a dictionary from username to that user's notes (one *partition* per user). The store reads a partition, looks a note up by id, and appends, replaces by id or removes by id. Each of these mutators reads the whole dictionary, changes one partition and writes the dictionary back.
- **The account rules** of the two auth screens. `handleSignup` (`app/signup.tsx`) validates three fields, rejects an email that is already stored, appends the new account and marks it as logged in. `handleLogin` (`app/index.tsx`) validates two fields, takes the first account whose email matches ignoring case and whose password matches exactly, and marks it as logged in.

All storage is modelled as synchronous fields of one class, `Storage.Device`, holding already-decoded values. The screens write under their own keys, `"users"` and `"loggedInUser"`, not the library's keys. The model keeps these as separate fields (`screenUsers`, `screenSession`). Each screen handler's `modifies` clause names only those fields, so a signup or login never changes what `getUsers` or `getLoggedInUser` return.

Layout:

| file | module | models |
|---|---|---|
| wrappers.dfy | Wrappers | `Option`, for `undefined`/`null` results |
| types.dfy | Types | the `Note` record, the `User` record the signup screen builds, the handlers' outcomes |
| text.dfy | Text | `trim` and `toLowerCase`, restricted to ASCII |
| arrays.dfy | Arrays | `Array.prototype.find`, `filter` and `map` over sequences |
| storage.dfy | Storage | `lib/storage.ts`: pure store transitions, their lemmas, and the `Device` class |
| signup.dfy | SignupScreen | `handleSignup` |
| login.dfy | LoginScreen | `handleLogin` |

The pure functions (`WithNoteAdded`, `WithNoteUpdated`, `WithNoteDeleted`, `NoteById`, `LoginLookup`, …) state what each operation computes. The `Device` methods and the screen handlers do the source's read-modify-write steps. Their `ensures` tie the new state to those functions, and the lemmas relate the operations to each other.

Signup compares emails exactly (`app/signup.tsx:42`), while login lowercases both sides (`app/index.tsx:40`). As a result, `Bob@x.com` and `bob@x.com` can both register (`SignupScreen.CaseVariantIsNotDuplicate`). Since login also takes the first match, logging in as `bob@x.com` with the shared password then returns the older `Bob@x.com` account (`LoginScreen.FirstCaseVariantWins`).

## Model

| member | source | states |
|---|---|---|
| Text.TrimStart | app/signup.tsx:33 | the result is a suffix of the input, everything cut off is white space, and the result does not start with white space |
| Text.TrimEnd | app/signup.tsx:33 | the result is a prefix of the input, everything cut off is white space, and the result does not end with white space |
| Text.Trim | app/signup.tsx:33 | `trim()` returns a slice of the input with only white space outside it, and the slice neither starts nor ends with white space |
| Text.IsBlank | app/index.tsx:29 | `!s.trim()` holds exactly when every character of `s` is white space |
| Text.LowerChar | app/index.tsx:40 | one character lowered: `A`–`Z` become the matching `a`–`z`, every other character is kept |
| Text.ToLower | app/index.tsx:40 | `toLowerCase()` keeps the length, turns each `A`–`Z` into its lower-case letter, leaves no upper-case letter, and keeps every other character |
| Arrays.Find | lib/storage.ts:45 | `find` returns nothing exactly when no element satisfies the predicate; otherwise it returns an element that satisfies it and comes before every other element that does |
| Arrays.FindCongruent | app/index.tsx:38-42 | two predicates that agree on every element make `find` return the same result |
| Arrays.Filter | lib/storage.ts:56 | `filter` keeps only elements that satisfy the predicate, keeps every one that does, and is the identity when all elements satisfy it |
| Arrays.FilterConcat | lib/storage.ts:56 | filtering a concatenation is concatenating the filtered parts, so `filter` never reorders |
| Arrays.FilterIsSubsequence | lib/storage.ts:56 | what `filter` keeps is a subsequence of its input, in the input's order |
| Arrays.FilterCount | lib/storage.ts:56 | `filter` keeps every copy of an element that satisfies the predicate and no copy of any other |
| Arrays.Map | lib/storage.ts:49 | `map` gives one result per element, `f` of the element at the same position |
| Arrays.FilterIdempotent | lib/storage.ts:56 | filtering twice with one predicate equals filtering once |
| Storage.StoredUsers | lib/storage.ts:7-10 | an absent users entry reads as the empty list, and a stored one reads as itself |
| Storage.NotesOf | lib/storage.ts:35 | `store[username] ?? []`: the user's partition when the key is present, the empty sequence otherwise |
| Storage.NoteById | lib/storage.ts:43-46 | returns nothing exactly when no note in the partition has the id; otherwise returns the first note that has it |
| Storage.ReplaceById | lib/storage.ts:49-51 | keeps the length; each position whose id equals `updated.id` holds `updated`, and every other position keeps its note |
| Storage.RemoveById | lib/storage.ts:56 | no note with the id is left, every note with another id survives with all its copies, and the partition is unchanged when the id is absent |
| Storage.FilterCountAll | lib/storage.ts:56 | under the `filter` of `deleteNote`, each note with another id keeps its number of copies and each note with the id has none |
| Storage.WithNoteAdded | lib/storage.ts:37-42 | the user's partition (or an empty one) gets the note appended at its end; every other partition is unchanged; the user's key exists afterwards |
| Storage.WithNoteUpdated | lib/storage.ts:47-53 | the user's partition keeps its length, positions with `updated.id` become `updated`, the others keep their notes, and every other partition is unchanged |
| Storage.WithNoteDeleted | lib/storage.ts:54-58 | the user's partition becomes `RemoveById` of the old one (or of an empty one), so it holds no note with the id and keeps every copy of every other note; every other partition is unchanged |
| Storage.FindPrefix | lib/storage.ts:45 | `find` on `a + b` returns what it finds in `a`, and otherwise what it finds in `b` |
| Storage.AddThenFind | lib/storage.ts:37-46 | after an add, looking up the new note's id returns the new note, unless the partition already held that id; then `find` returns the older note |
| Storage.UpdateThenFind | lib/storage.ts:43-53 | after an update, looking up `updated.id` returns `updated` if the partition held that id, and nothing otherwise |
| Storage.UpdateAbsentIsInvisible | lib/storage.ts:47-53 | an update whose id is not in the partition leaves every `getNotesByUser` result unchanged, even if it creates an empty partition |
| Storage.DeleteThenFind | lib/storage.ts:43-58 | after a delete, looking up the id returns nothing |
| Storage.DeleteKeepsOrder | lib/storage.ts:54-58 | the notes that survive a delete are a subsequence of the old partition |
| Storage.DeleteAbsentIsInvisible | lib/storage.ts:54-58 | deleting an id the partition does not hold leaves every `getNotesByUser` result unchanged |
| Storage.DeleteIdempotent | lib/storage.ts:54-58 | deleting the same id twice leaves the same store as deleting it once |
| Storage.Device.constructor | lib/storage.ts:3-5 | a fresh install has every storage entry absent |
| Storage.Device.GetUsers | lib/storage.ts:7-10 | returns the stored list, or the empty list when nothing is stored |
| Storage.Device.SaveUsers | lib/storage.ts:11-13 | the users entry becomes exactly the given list |
| Storage.Device.SaveLoggedInUser | lib/storage.ts:15-17 | the logged-in marker becomes the given username |
| Storage.Device.GetLoggedInUser | lib/storage.ts:18-20 | returns the marker, or nothing when none is set |
| Storage.Device.Logout | lib/storage.ts:21-23 | the marker is absent afterwards, whatever it was before |
| Storage.Device.GetNotesStore | lib/storage.ts:25-28 | returns the decoded notes dictionary |
| Storage.Device.SaveNotesStore | lib/storage.ts:29-31 | the notes entry becomes exactly the given dictionary |
| Storage.Device.GetNotesByUser | lib/storage.ts:33-36 | returns the user's partition, or the empty sequence when the user has none |
| Storage.Device.AddNoteForUser | lib/storage.ts:37-42 | the new notes dictionary is `WithNoteAdded` of the old one |
| Storage.Device.GetNoteById | lib/storage.ts:43-46 | returns nothing exactly when no note in the user's partition has the id; otherwise returns the first note with that id |
| Storage.Device.UpdateNoteForUser | lib/storage.ts:47-53 | the new notes dictionary is `WithNoteUpdated` of the old one |
| Storage.Device.DeleteNote | lib/storage.ts:54-58 | the new notes dictionary is `WithNoteDeleted` of the old one |
| Storage.Device.SaveThenGetLoggedIn | lib/storage.ts:15-20 | `saveLoggedInUser(u)` followed by `getLoggedInUser()` yields `u` |
| Storage.Device.LogoutThenGet | lib/storage.ts:18-23 | `logout()` followed by `getLoggedInUser()` yields nothing |
| Storage.Device.LogoutTwice | lib/storage.ts:21-23 | two `logout()` calls leave no marker, the same state as one: `logout` is idempotent |
| Storage.Device.SaveThenGetUsers | lib/storage.ts:7-13 | `saveUsers(us)` followed by `getUsers()` yields `us` |
| SignupScreen.HasBlankField | app/signup.tsx:33 | the validation fails exactly when the name, the email or the password consists of white space only |
| SignupScreen.EmailTaken | app/signup.tsx:42-43 | the duplicate check fires exactly when some stored email equals the form email, letter case included |
| SignupScreen.AppendKeepsEmailsDistinct | app/signup.tsx:42-55 | appending an account whose email is not taken keeps stored emails pairwise distinct |
| SignupScreen.AppendKeepsEmailsDistinctIf | app/signup.tsx:42-55 | the same, as an implication, for the handler's use |
| SignupScreen.CaseVariantStaysFree | app/signup.tsx:42 | an email that was free and differs from a newly registered one, even only in letter case, is still free |
| SignupScreen.CaseVariantIsNotDuplicate | app/signup.tsx:42 | `bob@x.com` is not a duplicate of a stored `Bob@x.com` |
| SignupScreen.HandleSignup | app/signup.tsx:32-65 | a blank field gives ValidationFailed and a taken email gives DuplicateEmail, both with users and session unchanged; otherwise the untrimmed fields become a new account appended to the list and held by the session; distinct emails stay distinct |
| LoginScreen.Matches | app/index.tsx:39-41 | an account matches when the passwords are equal and the emails have the same length and agree character by character after lowering |
| LoginScreen.LoginLookup | app/index.tsx:38-42 | returns nothing exactly when no account matches (email ignoring case, password exactly); otherwise returns the first matching account in list order |
| LoginScreen.LoginIgnoresEmailCase | app/index.tsx:40 | two emails equal ignoring case give the same login result with the same password |
| LoginScreen.LowerCharKeepsSpace | app/index.tsx:29-40 | lowering a character never turns white space into non-white space or back |
| LoginScreen.CaseVariantLogsInAlike | app/index.tsx:29-42 | two emails equal ignoring case pass or fail the blank check together and find the same account, so with one password both log in as the same account or neither does |
| LoginScreen.AppendedAccountCanLogIn | app/index.tsx:38-42 | an account appended by signup can always log in with its own email and password |
| LoginScreen.HandleLogin | app/index.tsx:28-56 | ValidationFailed exactly when a field is blank; non-blank fields with no matching account give InvalidCredentials; login succeeds exactly when fields are non-blank and some account matches; the session then holds the first match; on failure the session is unchanged; the users list is never changed |
| LoginScreen.FirstCaseVariantWins | app/index.tsx:38-42 | with `Bob@x.com` registered before `bob@x.com` under one password, logging in as `bob@x.com` returns the `Bob@x.com` account |

## Left out

- AsyncStorage's asynchrony: every read and write is a synchronous field access. The lost-update race between overlapping read-modify-write calls is concurrency and is not modelled.
- `JSON.parse`/`JSON.stringify`: every entry holds decoded values. An entry is either absent or a well-formed value. For the notes entry, absent and `{}` are the same value, because `getNotesStore` reads an absent entry as `{}`.
- Storage I/O failures and the screens' `catch` branch ("Something went wrong"): storage cannot fail in the model.
- `Math.random().toString(36)` id generation in `handleSignup`: the new id is a parameter.
- `Alert.alert`, `router.replace`/`push`, `console.log`, form state and all rendering: UI side effects, represented only by the `AuthOutcome` value.
- Unicode in `trim` and `toLowerCase`: the model trims ASCII space, tab, line feed, vertical tab, form feed and carriage return, and lowercases only `A`–`Z`. Non-ASCII white space and letters are kept unchanged.
- `imageUri` missing versus `null`: both are `None`, since no store operation reads the field.
- The `User` type at `types/index.tsx:9` (`id`, `username`, `pin`) is used by no core code. The model uses the record the signup screen builds. The library's `any[]` users list is given the same record type.
- Storage.NotesOf: treats every username as an own key of the notes dictionary. In the source, a username that names a property inherited from `Object.prototype` (`constructor`, `__proto__`, `toString`, `valueOf`, `hasOwnProperty`, `isPrototypeOf`, `propertyIsEnumerable`, `toLocaleString`, `__defineGetter__`, `__defineSetter__`, `__lookupGetter__`, `__lookupSetter__`) and has no partition reads as that inherited value, not as `[]`.
- Storage.Device.GetNotesByUser: for such an inherited-key username the source returns the inherited value (a function or an object); the model returns `[]`.
- Storage.Device.GetNoteById: for such a username the source throws a TypeError at `notes.find`; the model returns `None`.
- Storage.Device.AddNoteForUser: for such a username the source throws at `.push` and saves nothing; the model appends the note to a new partition.
- Storage.Device.UpdateNoteForUser: for such a username the source throws at `.map` and saves nothing; the model writes an empty partition.
- Storage.Device.DeleteNote: for such a username the source throws at `.filter` and saves nothing; the model writes an empty partition.
- The note screens (`app/(tabs)/home.tsx`, `create.tsx`, `sort.tsx`) and `modal/NoteModal.tsx` are not part of this model: they are UI and use their own storage keys. Search, sorting, note validation and timestamp stamping live there, not in the store.
