/** The account rules of the signup screen (`handleSignup`): validate three fields, reject an
    email already stored (exact comparison), append the new account to the "users" entry and
    mark it as logged in under "loggedInUser". */
module SignupScreen {
  import opened Wrappers
  import opened Types
  import opened Text
  import opened Arrays
  import opened Storage

  datatype SignupForm = SignupForm(name: string, email: string, password: string)

  /** `!form.name.trim() || !form.email.trim() || !form.password.trim()` */
  predicate HasBlankField(form: SignupForm)
    ensures HasBlankField(form) <==>
              || (forall i :: 0 <= i < |form.name| ==> IsSpace(form.name[i]))
              || (forall i :: 0 <= i < |form.email| ==> IsSpace(form.email[i]))
              || (forall i :: 0 <= i < |form.password| ==> IsSpace(form.password[i]))
  {
    IsBlank(form.name) || IsBlank(form.email) || IsBlank(form.password)
  }

  /** `users.find((u) => u.email === email)` finds an account: some stored email equals
      `email` exactly, letter case included. */
  predicate EmailTaken(users: seq<User>, email: string)
    ensures EmailTaken(users, email) <==> exists i :: 0 <= i < |users| && users[i].email == email
  {
    Find(users, (u: User) => u.email == email).Some?
  }

  /** No two accounts carry the same email (exact comparison). */
  ghost predicate DistinctEmails(users: seq<User>) {
    forall i, j :: 0 <= i < j < |users| ==> users[i].email != users[j].email
  }

  /** Appending an account whose email is not taken keeps the emails distinct. */
  lemma AppendKeepsEmailsDistinct(users: seq<User>, u: User)
    requires DistinctEmails(users) && !EmailTaken(users, u.email)
    ensures DistinctEmails(users + [u])
  {
    var all := users + [u];
    forall i, j | 0 <= i < j < |all| ensures all[i].email != all[j].email {
      if j == |users| {
        assert all[i] == users[i];
      }
    }
  }

  /** The conditional form of AppendKeepsEmailsDistinct used by the handler. */
  lemma AppendKeepsEmailsDistinctIf(users: seq<User>, u: User)
    requires !EmailTaken(users, u.email)
    ensures DistinctEmails(users) ==> DistinctEmails(users + [u])
  {
    if DistinctEmails(users) {
      AppendKeepsEmailsDistinct(users, u);
    }
  }

  /** An email that differs from the one just registered, even if only in letter case, is
      still free after the registration if it was free before. */
  lemma CaseVariantStaysFree(users: seq<User>, u: User, email: string)
    requires !EmailTaken(users, email) && u.email != email
    ensures !EmailTaken(users + [u], email)
  {
    var all := users + [u];
    forall i | 0 <= i < |all| ensures all[i].email != email {
      if i < |users| {
        assert all[i] == users[i];
      }
    }
  }

  /** "bob@x.com" is not taken by an account registered as "Bob@x.com": the duplicate check
      is case-sensitive, so the two register as separate accounts. */
  lemma CaseVariantIsNotDuplicate()
    ensures !EmailTaken([User("1", "Bob", "Bob@x.com", "pw")], "bob@x.com")
  {
    assert "Bob@x.com"[0] != "bob@x.com"[0];
  }

  /** `handleSignup` on the form `form`; `newId` stands for the random id the source draws.
      A blank field or a taken email changes nothing; otherwise the untrimmed form fields
      become a new account at the end of the list, and the session holds that account. The
      notes store and the library's own entries are never touched, and distinct emails stay
      distinct. */
  method HandleSignup(dev: Device, form: SignupForm, newId: string) returns (outcome: AuthOutcome)
    modifies dev`screenUsers, dev`screenSession
    ensures HasBlankField(form) ==> outcome == ValidationFailed
    ensures !HasBlankField(form) && EmailTaken(StoredUsers(old(dev.screenUsers)), form.email) ==>
              outcome == DuplicateEmail
    ensures !outcome.Ok? ==>
              dev.screenUsers == old(dev.screenUsers) && dev.screenSession == old(dev.screenSession)
    ensures !HasBlankField(form) && !EmailTaken(StoredUsers(old(dev.screenUsers)), form.email) ==>
              && outcome == Ok(User(newId, form.name, form.email, form.password))
              && dev.screenUsers == Some(StoredUsers(old(dev.screenUsers)) + [outcome.user])
              && dev.screenSession == Some(outcome.user)
    ensures DistinctEmails(StoredUsers(old(dev.screenUsers))) ==>
              DistinctEmails(StoredUsers(dev.screenUsers))
  {
    if HasBlankField(form) {
      return ValidationFailed;
    }
    var users := StoredUsers(dev.screenUsers);
    var taken := EmailTaken(users, form.email);
    if taken {
      return DuplicateEmail;
    }
    var newUser := User(newId, form.name, form.email, form.password);
    AppendKeepsEmailsDistinctIf(users, newUser);
    users := users + [newUser];
    dev.screenUsers := Some(users);
    dev.screenSession := Some(newUser);
    outcome := Ok(newUser);
  }
}
