/**
 * The authentication interactor: `register` and `login` over a credential
 * store and the bcrypt primitive.
 *
 * Each operation is specified by a function on the store's contents
 * (`RegisterSpec`, `LoginSpec`) that gives the result, the store afterwards
 * and the calls made on the store, in order; the methods `Register` and
 * `Login` run against a `DataStore` object and are proved to follow them.
 * The lemmas state what each path does to a valid store.
 */
module AuthInteractor {
  import opened Wrappers
  import opened Bcrypt
  import opened CredentialStore

  /** One variant per rejection reason; `Message` gives the text the promise rejects with. */
  datatype AuthError =
    | UsernameInUse
    | InvalidUsername
    | PasswordIncorrect
    | RegisterProblem(cause: string)
    | LoginProblem(cause: string)

  const RegisterPrefix: string := "Problem registering. Error: "
  const LoginPrefix: string := "Problem logining in. Error: "

  /** What bcrypt.compare rejects with when the record holds no hash. */
  const CompareArgumentsError: string := "Error: data and hash arguments required"

  function Message(e: AuthError): (m: string)
    ensures e == UsernameInUse ==> m == "Username is already in use"
    ensures e == InvalidUsername ==> m == "Invalid username"
    ensures e == PasswordIncorrect ==> m == "Password is incorrect"
    // a wrapped error reads as its prefix followed by the cause, unchanged
    ensures e.RegisterProblem? ==>
              |m| >= |RegisterPrefix| && m[..|RegisterPrefix|] == RegisterPrefix && m[|RegisterPrefix|..] == e.cause
    ensures e.LoginProblem? ==>
              |m| >= |LoginPrefix| && m[..|LoginPrefix|] == LoginPrefix && m[|LoginPrefix|..] == e.cause
  {
    match e
    case UsernameInUse => "Username is already in use"
    case InvalidUsername => "Invalid username"
    case PasswordIncorrect => "Password is incorrect"
    case RegisterProblem(cause) => RegisterPrefix + cause
    case LoginProblem(cause) => LoginPrefix + cause
  }

  /**
   * Distinct rejections have distinct texts: a wrapped store error never
   * reads as one of the specific messages, whatever its cause says.
   */
  lemma MessageInjective(e1: AuthError, e2: AuthError)
    ensures Message(e1) == Message(e2) ==> e1 == e2
  {
  }

  /** Which store calls reject, and with what; a call not listed here as failing succeeds. */
  datatype Faults = Faults(find: Option<string>, fetch: Option<string>, add: Option<string>, update: Option<string>)

  const NoFaults: Faults := Faults(None, None, None, None)

  /** The effect of one operation: its result, the store afterwards, and the store calls it made. */
  datatype Run = Run(result: Result<User, AuthError>, after: StoreState, calls: seq<Call>)

  /** JavaScript truthiness of the id findUser answers: absent and the empty string are falsy. */
  predicate Truthy(id: Option<Id>)
    ensures !Truthy(id) <==> id == None || id == Some("")
  {
    id.Some? && id.value != ""
  }

  /** `delete user.password`: the record as the caller sees it. */
  function Strip(user: User): (view: User)
    ensures view.password == None
    ensures view.id == user.id && view.username == user.username && view.lastSignOn == user.lastSignOn
  {
    user.(password := None)
  }

  /** What `register(dataStore, username, password)` does, with `salt` the salt bcrypt draws. */
  function RegisterSpec(s: StoreState, username: string, password: string, salt: Salt, faults: Faults): (run: Run)
    // the username check comes first, and only addUser can follow it
    ensures 1 <= |run.calls| <= 2 && run.calls[0] == FindUser(username)
    ensures faults.find.Some? || Truthy(Find(s, username)) ==> run.calls == [FindUser(username)]
    ensures faults.find.None? && !Truthy(Find(s, username)) ==>
              run.calls == [FindUser(username), AddUser(username, Hash(password, salt))]
    // a rejection writes nothing and is one of register's two reasons
    ensures run.result.Err? ==> run.after == s
    ensures run.result.Err? ==> run.result.error == UsernameInUse || run.result.error.RegisterProblem?
    ensures faults.find.Some? ==> run.result == Err(RegisterProblem(faults.find.value))
    // a taken username is rejected before anything is hashed or added
    ensures run.result == Err(UsernameInUse) <==> faults.find.None? && Truthy(Find(s, username))
    // success returns the stored record, which holds the hash, without its password
    ensures run.result.Ok? ==>
              && run.result.value.username == username
              && run.result.value.password == None
              && run.result.value.id in run.after.users
              && run.after.users[run.result.value.id].password == Some(Hash(password, salt))
              && Strip(run.after.users[run.result.value.id]) == run.result.value
  {
    var find := [FindUser(username)];
    if faults.find.Some? then Run(Err(RegisterProblem(faults.find.value)), s, find)
    else if Truthy(Find(s, username)) then Run(Err(UsernameInUse), s, find)
    else
      var hash := Hash(password, salt);
      var added := find + [AddUser(username, hash)];
      if faults.add.Some? then Run(Err(RegisterProblem(faults.add.value)), s, added)
      else Run(Ok(Strip(NewUser(s, username, hash))), Insert(s, username, hash), added)
  }

  /** What `login(dataStore, username, password)` does, with `now` the time the store records. */
  function LoginSpec(s: StoreState, username: string, password: string, now: nat, faults: Faults): (run: Run)
    // the username check comes first
    ensures 1 <= |run.calls| <= 3 && run.calls[0] == FindUser(username)
    // the record is fetched second, by the id the lookup answered, and only an update can follow
    ensures |run.calls| >= 2 ==> Find(s, username).Some? && run.calls[1] == FetchUser(Find(s, username).value)
    ensures forall i :: 0 <= i < |run.calls| && run.calls[i].UpdateLastSignOn? ==> i == 2
    ensures |run.calls| == 3 ==> run.calls[2].UpdateLastSignOn?
    // a rejected fetch ends the calls
    ensures faults.find.None? && Truthy(Find(s, username)) && faults.fetch.Some? ==>
              run.calls == [FindUser(username), FetchUser(Find(s, username).value)]
    // a rejection writes nothing and is one of login's three reasons
    ensures run.result.Err? ==> run.after == s
    ensures run.result.Err? ==> run.result.error in {InvalidUsername, PasswordIncorrect} || run.result.error.LoginProblem?
    // a failing lookup and an unknown username are one rejection, and nothing is fetched
    ensures run.result == Err(InvalidUsername) <==> faults.find.Some? || !Truthy(Find(s, username))
    ensures run.result == Err(InvalidUsername) ==> run.calls == [FindUser(username)]
    // a wrong password never reaches updateLastSignOn
    ensures run.result == Err(PasswordIncorrect) ==> forall c :: c in run.calls ==> !c.UpdateLastSignOn?
    // success updates the last sign-on of the returned user exactly once, and returns no password
    ensures run.result.Ok? ==>
              && run.result.value.password == None
              && |run.calls| == 3
              && run.calls[2] == UpdateLastSignOn(run.result.value.id)
  {
    var find := [FindUser(username)];
    if faults.find.Some? then Run(Err(InvalidUsername), s, find)
    else if !Truthy(Find(s, username)) then Run(Err(InvalidUsername), s, find)
    else
      var id := s.ids[username];
      var fetched := find + [FetchUser(id)];
      if faults.fetch.Some? then Run(Err(LoginProblem(faults.fetch.value)), s, fetched)
      else if id !in s.users then Run(Err(LoginProblem(UnknownId)), s, fetched)
      else
        var user := s.users[id];
        match user.password
        case None => Run(Err(LoginProblem(CompareArgumentsError)), s, fetched)
        case Some(hash) =>
          if !Compare(password, hash) then Run(Err(PasswordIncorrect), s, fetched)
          else
            var updated := fetched + [UpdateLastSignOn(user.id)];
            if faults.update.Some? then Run(Err(LoginProblem(faults.update.value)), s, updated)
            else Run(Ok(Strip(user)), Touch(s, user.id, now), updated)
  }

  /** In a valid store, findUser's answer is truthy exactly when the username is taken. */
  lemma TruthyFind(s: StoreState, username: string)
    requires Valid(s)
    ensures Truthy(Find(s, username)) <==> username in s.ids
  {
    if username in s.ids {
      assert s.ids[username] in s.users;
    }
  }

  /** Registering a taken username rejects with the duplicate message and neither hashes nor adds. */
  lemma RegisterTaken(s: StoreState, username: string, password: string, salt: Salt, faults: Faults)
    requires Valid(s) && username in s.ids && faults.find.None?
    ensures RegisterSpec(s, username, password, salt, faults) == Run(Err(UsernameInUse), s, [FindUser(username)])
  {
    TruthyFind(s, username);
  }

  /**
   * Registering a free username adds exactly one record, under an id that
   * was unused, holding the hash of the password; it returns that record
   * without its password, and every other username and record is unchanged.
   */
  lemma RegisterFree(s: StoreState, username: string, password: string, salt: Salt, faults: Faults)
    requires Valid(s) && username !in s.ids && faults.find.None? && faults.add.None?
    ensures var run := RegisterSpec(s, username, password, salt, faults);
      var id := IdOf(s.next);
      && id !in s.users
      && run.result == Ok(User(id, username, None, None))
      && run.after.ids == s.ids[username := id]
      && run.after.users == s.users[id := User(id, username, Some(Hash(password, salt)), None)]
      && run.calls == [FindUser(username), AddUser(username, Hash(password, salt))]
      && Valid(run.after)
  {
    TruthyFind(s, username);
    InsertFresh(s, username, Hash(password, salt));
  }

  /** A failing store call during register surfaces as the wrapped error carrying its cause. */
  lemma RegisterStoreFailure(s: StoreState, username: string, password: string, salt: Salt, faults: Faults)
    requires Valid(s)
    ensures var run := RegisterSpec(s, username, password, salt, faults);
      && (faults.find.Some? ==> run.result == Err(RegisterProblem(faults.find.value)))
      && (faults.find.None? && username !in s.ids && faults.add.Some? ==>
            run.result == Err(RegisterProblem(faults.add.value)) && run.after == s)
  {
    TruthyFind(s, username);
  }

  /** Register succeeds exactly when both store calls succeed and the username is free. */
  lemma RegisterSucceedsIff(s: StoreState, username: string, password: string, salt: Salt, faults: Faults)
    requires Valid(s)
    ensures RegisterSpec(s, username, password, salt, faults).result.Ok? <==>
              faults.find.None? && username !in s.ids && faults.add.None?
  {
    TruthyFind(s, username);
  }

  /** Register keeps the store valid, whatever happens. */
  lemma RegisterKeepsValid(s: StoreState, username: string, password: string, salt: Salt, faults: Faults)
    requires Valid(s)
    ensures Valid(RegisterSpec(s, username, password, salt, faults).after)
  {
    TruthyFind(s, username);
    if faults.find.None? && username !in s.ids && faults.add.None? {
      RegisterFree(s, username, password, salt, faults);
    }
  }

  /** An unknown username and a failing lookup give the same rejection, before anything is fetched. */
  lemma LoginUnknown(s: StoreState, username: string, password: string, now: nat, faults: Faults)
    requires Valid(s) && (faults.find.Some? || username !in s.ids)
    ensures LoginSpec(s, username, password, now, faults) == Run(Err(InvalidUsername), s, [FindUser(username)])
  {
    TruthyFind(s, username);
  }

  /** A wrong password is rejected after the fetch, and the last sign-on is not touched. */
  lemma LoginWrongPassword(s: StoreState, username: string, password: string, now: nat, faults: Faults)
    requires Valid(s) && username in s.ids && faults.find.None? && faults.fetch.None?
    requires !Compare(password, s.users[s.ids[username]].password.value)
    ensures LoginSpec(s, username, password, now, faults)
         == Run(Err(PasswordIncorrect), s, [FindUser(username), FetchUser(s.ids[username])])
  {
    TruthyFind(s, username);
  }

  /**
   * A matching password updates the last sign-on of that user once, changes
   * nothing else, and returns the record as fetched (with the previous last
   * sign-on) without its password.
   */
  lemma LoginMatch(s: StoreState, username: string, password: string, now: nat, faults: Faults)
    requires Valid(s) && username in s.ids
    requires faults.find.None? && faults.fetch.None? && faults.update.None?
    requires Compare(password, s.users[s.ids[username]].password.value)
    ensures var run := LoginSpec(s, username, password, now, faults);
      var id := s.ids[username];
      && run.result == Ok(User(id, username, None, s.users[id].lastSignOn))
      && run.calls == [FindUser(username), FetchUser(id), UpdateLastSignOn(id)]
      && run.after.ids == s.ids && run.after.users.Keys == s.users.Keys
      && run.after.users[id] == s.users[id].(lastSignOn := Some(now))
      && (forall other :: other in s.users && other != id ==> run.after.users[other] == s.users[other])
      && Valid(run.after)
  {
    TruthyFind(s, username);
    TouchKeepsValid(s, s.ids[username], now);
  }

  /** A failing fetch or last-sign-on write fails the whole login with the wrapped error. */
  lemma LoginStoreFailure(s: StoreState, username: string, password: string, now: nat, faults: Faults)
    requires Valid(s) && username in s.ids && faults.find.None?
    ensures var run := LoginSpec(s, username, password, now, faults);
      var id := s.ids[username];
      && (faults.fetch.Some? ==>
            run == Run(Err(LoginProblem(faults.fetch.value)), s, [FindUser(username), FetchUser(id)]))
      && (faults.fetch.None? && Compare(password, s.users[id].password.value) && faults.update.Some? ==>
            run == Run(Err(LoginProblem(faults.update.value)), s,
                       [FindUser(username), FetchUser(id), UpdateLastSignOn(id)]))
  {
    TruthyFind(s, username);
  }

  /** Login succeeds exactly when every store call succeeds, the username is known and the password matches. */
  lemma LoginSucceedsIff(s: StoreState, username: string, password: string, now: nat, faults: Faults)
    requires Valid(s)
    ensures LoginSpec(s, username, password, now, faults).result.Ok? <==>
              && faults.find.None? && faults.fetch.None? && faults.update.None?
              && username in s.ids && Compare(password, s.users[s.ids[username]].password.value)
  {
    TruthyFind(s, username);
  }

  /** Login keeps the store valid, whatever happens. */
  lemma LoginKeepsValid(s: StoreState, username: string, password: string, now: nat, faults: Faults)
    requires Valid(s)
    ensures Valid(LoginSpec(s, username, password, now, faults).after)
  {
    TruthyFind(s, username);
    if username in s.ids {
      TouchKeepsValid(s, s.ids[username], now);
    }
  }

  /**
   * Register a free username, then: registering it again is rejected as a
   * duplicate, and logging in with the same password succeeds with the id
   * registration returned.
   */
  lemma RegisterThenLogin(s: StoreState, username: string, password: string, salt: Salt,
                          other: string, otherSalt: Salt, now: nat)
    requires Valid(s) && username !in s.ids
    ensures var reg := RegisterSpec(s, username, password, salt, NoFaults);
      && reg.result.Ok?
      && RegisterSpec(reg.after, username, other, otherSalt, NoFaults).result == Err(UsernameInUse)
      && LoginSpec(reg.after, username, password, now, NoFaults).result
         == Ok(User(reg.result.value.id, username, None, None))
  {
    var reg := RegisterSpec(s, username, password, salt, NoFaults);
    RegisterFree(s, username, password, salt, NoFaults);
    RegisterTaken(reg.after, username, other, otherSalt, NoFaults);
    LoginMatch(reg.after, username, password, now, NoFaults);
  }

  method Register(store: DataStore, username: string, password: string, salt: Salt, faults: Faults)
    returns (r: Result<User, AuthError>)
    modifies store
    ensures var run := RegisterSpec(old(store.State()), username, password, salt, faults);
      r == run.result && store.State() == run.after && store.calls == old(store.calls) + run.calls
  {
    var existing := store.FindUser(username, faults.find);
    if existing.Err? {
      return Err(RegisterProblem(existing.error));
    }
    if Truthy(existing.value) {
      return Err(UsernameInUse);
    }
    var hash := Hash(password, salt);
    var added := store.AddUser(username, hash, faults.add);
    if added.Err? {
      return Err(RegisterProblem(added.error));
    }
    var user := added.value;
    user := user.(password := None);
    return Ok(user);
  }

  method Login(store: DataStore, username: string, password: string, now: nat, faults: Faults)
    returns (r: Result<User, AuthError>)
    modifies store
    ensures var run := LoginSpec(old(store.State()), username, password, now, faults);
      r == run.result && store.State() == run.after && store.calls == old(store.calls) + run.calls
  {
    var found := store.FindUser(username, faults.find);
    if found.Err? {
      return Err(InvalidUsername);
    }
    var id := found.value;
    if !Truthy(id) {
      return Err(InvalidUsername);
    }
    var fetched := store.FetchUser(id.value, faults.fetch);
    if fetched.Err? {
      return Err(LoginProblem(fetched.error));
    }
    var user := fetched.value;
    if user.password.None? {
      return Err(LoginProblem(CompareArgumentsError));
    }
    var passwordMatch := Compare(password, user.password.value);
    if !passwordMatch {
      return Err(PasswordIncorrect);
    }
    var updated := store.UpdateLastSignOn(user.id, now, faults.update);
    if updated.Err? {
      return Err(LoginProblem(updated.error));
    }
    user := user.(password := None);
    return Ok(user);
  }
}
