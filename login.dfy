/** The account rules of the login screen (`handleLogin`): validate two fields, take the first
    stored account whose email matches ignoring letter case and whose password matches
    exactly, and mark it as logged in under "loggedInUser". */
module LoginScreen {
  import opened Wrappers
  import opened Types
  import opened Text
  import opened Arrays
  import opened Storage

  datatype LoginForm = LoginForm(email: string, password: string)

  /** `u.email.toLowerCase() === email.toLowerCase() && u.password === password`: the
      passwords are equal, and the emails have the same length and agree character by
      character once each character is lowered. */
  predicate Matches(u: User, email: string, password: string)
    ensures Matches(u, email, password) <==>
              && u.password == password
              && |u.email| == |email|
              && forall i :: 0 <= i < |email| ==> LowerChar(u.email[i]) == LowerChar(email[i])
  {
    ToLower(u.email) == ToLower(email) && u.password == password
  }

  /** The `users.find` of `handleLogin`: the first account in list order that matches, or
      `None` when no account does. */
  function LoginLookup(users: seq<User>, email: string, password: string): (r: Option<User>)
    ensures r.None? <==> forall i :: 0 <= i < |users| ==> !Matches(users[i], email, password)
    ensures r.Some? ==> exists i :: 0 <= i < |users| && users[i] == r.value
                                    && Matches(r.value, email, password)
                                    && forall j :: 0 <= j < i ==> !Matches(users[j], email, password)
  {
    Find(users, (u: User) => Matches(u, email, password))
  }

  /** Two emails equal ignoring letter case log in as the same account. */
  lemma LoginIgnoresEmailCase(users: seq<User>, e1: string, e2: string, password: string)
    requires ToLower(e1) == ToLower(e2)
    ensures LoginLookup(users, e1, password) == LoginLookup(users, e2, password)
  {
    FindCongruent(users, (u: User) => Matches(u, e1, password), (u: User) => Matches(u, e2, password));
  }

  /** An account just appended can always log in with its own email and password, though
      the lookup may return an older account that matches as well. */
  lemma AppendedAccountCanLogIn(users: seq<User>, u: User)
    ensures LoginLookup(users + [u], u.email, u.password).Some?
  {
    var all := users + [u];
    assert Matches(all[|users|], u.email, u.password);
  }

  /** `handleLogin` on the form `form`. A blank field changes nothing; otherwise a matching
      account is looked up, success writes the first match into the session, and failure
      leaves the session as it was. No entry but the session is ever written. */
  method HandleLogin(dev: Device, form: LoginForm) returns (outcome: AuthOutcome)
    modifies dev`screenSession
    ensures outcome.ValidationFailed? <==> IsBlank(form.email) || IsBlank(form.password)
    ensures !IsBlank(form.email) && !IsBlank(form.password)
            && LoginLookup(StoredUsers(dev.screenUsers), form.email, form.password).None? ==>
              outcome == InvalidCredentials
    ensures outcome.Ok? <==>
              && !IsBlank(form.email) && !IsBlank(form.password)
              && exists i :: 0 <= i < |StoredUsers(dev.screenUsers)|
                             && Matches(StoredUsers(dev.screenUsers)[i], form.email, form.password)
    ensures !outcome.Ok? ==> dev.screenSession == old(dev.screenSession)
    ensures outcome.Ok? ==>
              && Some(outcome.user) == LoginLookup(StoredUsers(dev.screenUsers), form.email, form.password)
              && dev.screenSession == Some(outcome.user)
    ensures outcome.ValidationFailed? || outcome.InvalidCredentials? || outcome.Ok?
    ensures dev.screenUsers == old(dev.screenUsers)
  {
    if IsBlank(form.email) || IsBlank(form.password) {
      return ValidationFailed;
    }
    var users := StoredUsers(dev.screenUsers);
    var user := LoginLookup(users, form.email, form.password);
    if user.None? {
      return InvalidCredentials;
    }
    dev.screenSession := user;
    outcome := Ok(user.value);
  }

  /** A lowered character is white space exactly when the character is. */
  lemma LowerCharKeepsSpace(c: char)
    ensures IsSpace(LowerChar(c)) <==> IsSpace(c)
  {
  }

  /** Two emails equal ignoring letter case pass or fail the blank check together and find
      the same account, so `handleLogin` treats them alike: with the same password and the
      same stored users, one logs in exactly when the other does, as the same account. */
  lemma CaseVariantLogsInAlike(users: seq<User>, e1: string, e2: string, password: string)
    requires ToLower(e1) == ToLower(e2)
    ensures IsBlank(e1) <==> IsBlank(e2)
    ensures LoginLookup(users, e1, password) == LoginLookup(users, e2, password)
  {
    assert |e1| == |e2|;
    forall i | 0 <= i < |e1| ensures IsSpace(e1[i]) <==> IsSpace(e2[i]) {
      assert ToLower(e1)[i] == ToLower(e2)[i];
      LowerCharKeepsSpace(e1[i]);
      LowerCharKeepsSpace(e2[i]);
    }
    LoginIgnoresEmailCase(users, e1, e2, password);
  }

  /** With "Bob@x.com" registered before "bob@x.com" under the same password, logging in as
      "bob@x.com" returns the older account: the lookup ignores case and takes the first match. */
  lemma FirstCaseVariantWins()
    ensures var older := User("1", "Bob", "Bob@x.com", "pw");
            var newer := User("2", "Bob", "bob@x.com", "pw");
            LoginLookup([older, newer], "bob@x.com", "pw") == Some(older)
  {
    var older := User("1", "Bob", "Bob@x.com", "pw");
    assert ToLower("Bob@x.com") == ToLower("bob@x.com") by {
      assert ToLower("Bob@x.com")[0] == 'b';
    }
    assert Matches([older][0], "bob@x.com", "pw");
  }
}
