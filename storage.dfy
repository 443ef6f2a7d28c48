/** The local store of `lib/storage.ts`: three AsyncStorage entries holding the users list
    ("@nm_users"), the logged-in marker ("@nm_loggedin") and the notes store ("@nm_notes",
    a dictionary from username to that user's notes). The class `Device` also holds the two
    entries the account screens write under their own keys ("users", "loggedInUser"). */
module Storage {
  import opened Wrappers
  import opened Types
  import opened Arrays

  /** The decoded "@nm_notes" entry; an absent entry reads as the empty dictionary. */
  type NotesStore = map<string, seq<Note>>

  /** `raw ? JSON.parse(raw) : []` for a users entry that may be absent. */
  function StoredUsers(slot: Option<seq<User>>): (users: seq<User>)
    ensures slot.None? ==> users == []
    ensures slot.Some? ==> users == slot.value
  {
    if slot.Some? then slot.value else []
  }

  /** `store[username] ?? []`: a user's partition, empty when the user has none. */
  function NotesOf(store: NotesStore, username: string): (notes: seq<Note>)
    ensures username !in store ==> notes == []
    ensures username in store ==> notes == store[username]
  {
    if username in store then store[username] else []
  }

  /** `notes.find((n) => n.id === id)`: the first note carrying `id`, or `None`. */
  function NoteById(notes: seq<Note>, id: string): (r: Option<Note>)
    ensures r.None? <==> forall i :: 0 <= i < |notes| ==> notes[i].id != id
    ensures r.Some? ==> exists i :: 0 <= i < |notes| && notes[i] == r.value && r.value.id == id
                                    && forall j :: 0 <= j < i ==> notes[j].id != id
  {
    Find(notes, (n: Note) => n.id == id)
  }

  /** `notes.map((n) => n.id === updated.id ? updated : n)`: same length, every position
      carrying `updated.id` holds `updated`, every other position keeps its note. */
  function ReplaceById(notes: seq<Note>, updated: Note): (r: seq<Note>)
    ensures |r| == |notes|
    ensures forall i :: 0 <= i < |notes| && notes[i].id == updated.id ==> r[i] == updated
    ensures forall i :: 0 <= i < |notes| && notes[i].id != updated.id ==> r[i] == notes[i]
  {
    Map(notes, (n: Note) => if n.id == updated.id then updated else n)
  }

  /** `notes.filter((n) => n.id !== id)`: no note carrying `id` is left, every note with
      another id is kept, and nothing changes when no note carries `id`. */
  function RemoveById(notes: seq<Note>, id: string): (r: seq<Note>)
    ensures |r| <= |notes|
    ensures forall i :: 0 <= i < |r| ==> r[i].id != id && r[i] in notes
    ensures forall i :: 0 <= i < |notes| && notes[i].id != id ==> notes[i] in r
    ensures (forall i :: 0 <= i < |notes| ==> notes[i].id != id) ==> r == notes
    ensures forall x :: multiset(r)[x] == if x.id == id then 0 else multiset(notes)[x]
  {
    FilterCountAll(notes, id);
    Filter(notes, (n: Note) => n.id != id)
  }

  /** Every note with another id keeps all its copies under the `filter` of `deleteNote`. */
  lemma FilterCountAll(notes: seq<Note>, id: string)
    ensures forall x :: multiset(Filter(notes, (n: Note) => n.id != id))[x] ==
                          if x.id == id then 0 else multiset(notes)[x]
  {
    forall x {
      FilterCount(notes, (n: Note) => n.id != id, x);
    }
  }

  /** The store after `addNoteForUser(username, note)`: the user's partition (or an empty
      one) with `note` at its end; every other partition as it was. */
  function WithNoteAdded(store: NotesStore, username: string, note: Note): (r: NotesStore)
    ensures r.Keys == store.Keys + {username}
    ensures NotesOf(r, username) == NotesOf(store, username) + [note]
    ensures forall u :: u != username ==> NotesOf(r, u) == NotesOf(store, u)
  {
    store[username := NotesOf(store, username) + [note]]
  }

  /** The store after `updateNoteForUser(username, updated)`: the user's partition keeps its
      length and its ids, each note carrying `updated.id` is replaced by `updated`, and every
      other partition is as it was. The user's key is present afterwards. */
  function WithNoteUpdated(store: NotesStore, username: string, updated: Note): (r: NotesStore)
    ensures r.Keys == store.Keys + {username}
    ensures |NotesOf(r, username)| == |NotesOf(store, username)|
    ensures forall i :: 0 <= i < |NotesOf(store, username)| ==>
              NotesOf(r, username)[i] ==
                if NotesOf(store, username)[i].id == updated.id then updated
                else NotesOf(store, username)[i]
    ensures forall u :: u != username ==> NotesOf(r, u) == NotesOf(store, u)
  {
    store[username := ReplaceById(NotesOf(store, username), updated)]
  }

  /** The store after `deleteNote(username, id)`: the user's partition loses exactly its
      notes carrying `id`; every other partition is as it was. The user's key is present
      afterwards. */
  function WithNoteDeleted(store: NotesStore, username: string, id: string): (r: NotesStore)
    ensures r.Keys == store.Keys + {username}
    ensures forall i :: 0 <= i < |NotesOf(r, username)| ==> NotesOf(r, username)[i].id != id
    ensures NotesOf(r, username) == RemoveById(NotesOf(store, username), id)
    ensures forall u :: u != username ==> NotesOf(r, u) == NotesOf(store, u)
  {
    store[username := RemoveById(NotesOf(store, username), id)]
  }

  /** Two stores that every `getNotesByUser` call reads alike. */
  ghost predicate SameView(a: NotesStore, b: NotesStore) {
    forall u :: NotesOf(a, u) == NotesOf(b, u)
  }

  /** After an add, looking the new note's id up finds the new note, unless the partition
      already held a note with that id, which `find` then returns instead. */
  lemma AddThenFind(store: NotesStore, username: string, note: Note)
    ensures NoteById(NotesOf(WithNoteAdded(store, username, note), username), note.id) ==
              if NoteById(NotesOf(store, username), note.id).Some?
              then NoteById(NotesOf(store, username), note.id)
              else Some(note)
  {
    var before := NotesOf(store, username);
    var after := NotesOf(WithNoteAdded(store, username, note), username);
    assert after == before + [note];
    FindPrefix(before, [note], (n: Note) => n.id == note.id);
  }

  /** `find` on `a + b` returns what it finds in `a`, and otherwise what it finds in `b`. */
  lemma {:induction false} FindPrefix<T>(a: seq<T>, b: seq<T>, p: T -> bool)
    ensures Find(a + b, p) == if Find(a, p).Some? then Find(a, p) else Find(b, p)
  {
    if a == [] {
      assert a + b == b;
    } else {
      assert (a + b)[1..] == a[1..] + b;
      FindPrefix(a[1..], b, p);
    }
  }

  /** After an update, looking `updated.id` up finds `updated` when the partition held that
      id, and nothing otherwise; the update never changes which ids are present. */
  lemma UpdateThenFind(store: NotesStore, username: string, updated: Note)
    ensures NoteById(NotesOf(WithNoteUpdated(store, username, updated), username), updated.id) ==
              if NoteById(NotesOf(store, username), updated.id).Some? then Some(updated) else None
  {
    var before := NotesOf(store, username);
    var after := NotesOf(WithNoteUpdated(store, username, updated), username);
    var r := NoteById(after, updated.id);
    if NoteById(before, updated.id).Some? {
      var i :| 0 <= i < |before| && before[i].id == updated.id;
      assert after[i] == updated;
      assert r.Some?;
      var k :| 0 <= k < |after| && after[k] == r.value && r.value.id == updated.id;
    } else {
      assert forall i :: 0 <= i < |after| ==> after[i] == before[i];
    }
  }

  /** Updating with an id the partition does not hold leaves every partition as it was,
      though it may add an empty partition for a user who had none. */
  lemma UpdateAbsentIsInvisible(store: NotesStore, username: string, updated: Note)
    requires NoteById(NotesOf(store, username), updated.id).None?
    ensures SameView(WithNoteUpdated(store, username, updated), store)
  {
    var before := NotesOf(store, username);
    var after := NotesOf(WithNoteUpdated(store, username, updated), username);
    assert after == before;
  }

  /** After a delete, looking the id up finds nothing. */
  lemma DeleteThenFind(store: NotesStore, username: string, id: string)
    ensures NoteById(NotesOf(WithNoteDeleted(store, username, id), username), id).None?
  {
  }

  /** The survivors of a delete are the old partition with some notes left out and the rest
      in their old order. */
  lemma DeleteKeepsOrder(store: NotesStore, username: string, id: string)
    ensures IsSubsequence(NotesOf(WithNoteDeleted(store, username, id), username),
                          NotesOf(store, username))
  {
    FilterIsSubsequence(NotesOf(store, username), (n: Note) => n.id != id);
  }

  /** Deleting an id the partition does not hold leaves every partition as it was. */
  lemma DeleteAbsentIsInvisible(store: NotesStore, username: string, id: string)
    requires NoteById(NotesOf(store, username), id).None?
    ensures SameView(WithNoteDeleted(store, username, id), store)
  {
  }

  /** Deleting twice is deleting once. */
  lemma DeleteIdempotent(store: NotesStore, username: string, id: string)
    ensures WithNoteDeleted(WithNoteDeleted(store, username, id), username, id) ==
            WithNoteDeleted(store, username, id)
  {
    var once := WithNoteDeleted(store, username, id);
    FilterIdempotent(NotesOf(store, username), (n: Note) => n.id != id);
    assert NotesOf(WithNoteDeleted(once, username, id), username) == NotesOf(once, username);
  }

  /** The device's key-value storage. Each field is one AsyncStorage entry, already decoded
      from its JSON text; `None` is an absent entry. */
  class Device {
    /** "@nm_users" */
    var libUsers: Option<seq<User>>
    /** "@nm_loggedin": the logged-in username */
    var libLoggedIn: Option<string>
    /** "@nm_notes"; the empty dictionary stands also for the absent entry */
    var notes: NotesStore
    /** "users": the account list the signup and login screens read and write */
    var screenUsers: Option<seq<User>>
    /** "loggedInUser": the account the screens mark as logged in */
    var screenSession: Option<User>

    /** A fresh install: every entry is absent. */
    constructor ()
      ensures libUsers == None && libLoggedIn == None && notes == map[]
      ensures screenUsers == None && screenSession == None
    {
      libUsers, libLoggedIn, notes := None, None, map[];
      screenUsers, screenSession := None, None;
    }

    /** `getUsers()`: the stored list, or the empty list when nothing is stored. */
    method GetUsers() returns (users: seq<User>)
      ensures libUsers.None? ==> users == []
      ensures libUsers.Some? ==> users == libUsers.value
    {
      users := StoredUsers(libUsers);
    }

    /** `saveUsers(users)`: overwrites the stored list. */
    method SaveUsers(users: seq<User>)
      modifies this`libUsers
      ensures libUsers == Some(users)
    {
      libUsers := Some(users);
    }

    /** `saveLoggedInUser(username)` */
    method SaveLoggedInUser(username: string)
      modifies this`libLoggedIn
      ensures libLoggedIn == Some(username)
    {
      libLoggedIn := Some(username);
    }

    /** `getLoggedInUser()`: the marked username, or `None` (`null`). */
    method GetLoggedInUser() returns (username: Option<string>)
      ensures username == libLoggedIn
    {
      username := libLoggedIn;
    }

    /** `logout()`: removes the marker, whether or not one is set. */
    method Logout()
      modifies this`libLoggedIn
      ensures libLoggedIn == None
    {
      libLoggedIn := None;
    }

    /** `getNotesStore()` */
    method GetNotesStore() returns (store: NotesStore)
      ensures store == notes
    {
      store := notes;
    }

    /** `saveNotesStore(store)`: overwrites the whole notes entry. */
    method SaveNotesStore(store: NotesStore)
      modifies this`notes
      ensures notes == store
    {
      notes := store;
    }

    /** `getNotesByUser(username)`: the user's partition, or the empty sequence when the
        user has none. */
    method GetNotesByUser(username: string) returns (r: seq<Note>)
      ensures username !in notes ==> r == []
      ensures username in notes ==> r == notes[username]
    {
      var store := GetNotesStore();
      r := NotesOf(store, username);
    }

    /** `addNoteForUser(username, note)`: read the store, create the partition if missing,
        push the note, write the store back. */
    method AddNoteForUser(username: string, note: Note)
      modifies this`notes
      ensures notes == WithNoteAdded(old(notes), username, note)
    {
      var store := GetNotesStore();
      store := store[username := NotesOf(store, username)];
      store := store[username := store[username] + [note]];
      SaveNotesStore(store);
    }

    /** `getNoteById(username, id)`: the first note of the user's partition carrying `id`,
        or `None` (`undefined`). */
    method GetNoteById(username: string, id: string) returns (r: Option<Note>)
      ensures r.None? <==> forall i :: 0 <= i < |NotesOf(notes, username)| ==>
                             NotesOf(notes, username)[i].id != id
      ensures r.Some? ==> r.value.id == id && r == NoteById(NotesOf(notes, username), id)
    {
      var partition := GetNotesByUser(username);
      assert partition == NotesOf(notes, username);
      r := NoteById(partition, id);
    }

    /** `updateNoteForUser(username, updated)`: read the store, replace by id in the user's
        partition (or in an empty one), write the store back. */
    method UpdateNoteForUser(username: string, updated: Note)
      modifies this`notes
      ensures notes == WithNoteUpdated(old(notes), username, updated)
    {
      var store := GetNotesStore();
      store := store[username := ReplaceById(NotesOf(store, username), updated)];
      SaveNotesStore(store);
    }

    /** `deleteNote(username, id)`: read the store, drop the notes carrying `id` from the
        user's partition (or from an empty one), write the store back. */
    method DeleteNote(username: string, id: string)
      modifies this`notes
      ensures notes == WithNoteDeleted(old(notes), username, id)
    {
      var store := GetNotesStore();
      store := store[username := RemoveById(NotesOf(store, username), id)];
      SaveNotesStore(store);
    }

    /** Saving a username and reading the marker back yields that username. */
    method SaveThenGetLoggedIn(username: string) returns (r: Option<string>)
      modifies this`libLoggedIn
      ensures r == Some(username)
    {
      SaveLoggedInUser(username);
      r := GetLoggedInUser();
    }

    /** Logging out and reading the marker back yields `None`. */
    method LogoutThenGet() returns (r: Option<string>)
      modifies this`libLoggedIn
      ensures r == None
    {
      Logout();
      r := GetLoggedInUser();
    }

    /** Logging out twice leaves the same state as logging out once: no marker. */
    method LogoutTwice()
      modifies this`libLoggedIn
      ensures libLoggedIn == None
    {
      Logout();
      Logout();
    }

    /** Saving a users list and reading it back yields that list. */
    method SaveThenGetUsers(users: seq<User>) returns (r: seq<User>)
      modifies this`libUsers
      ensures r == users
    {
      SaveUsers(users);
      r := GetUsers();
    }
  }
}
