# Gordon's Kitchen API: authentication interactor in Dafny

This project models the authentication interactor of the Gordon's Kitchen
REST API (`AuthInteractor.register` and `AuthInteractor.login`) and proves
what each of their paths does to the credential store.

- `bcrypt.dfy` (module `Bcrypt`): the hashing primitive, kept abstract. A
  `PasswordHash` records the cost factor (10), the salt and a digest.
  `Compare` re-derives the digest with the hash's own cost and salt. Two
  facts are stated: `Hash` ensures `Compare(p, Hash(p, salt))`, and
  `CompareOnlyHash` says a cost-10 hash accepts a password exactly when it
  is that password's hash under the stored salt. The digest function is an
  arbitrary stand-in, and no collision-freedom is claimed.
- `credential_store.dfy` (module `CredentialStore`): an in-memory store.
  It holds two maps, username → id and id → user record, plus a counter
  that issues fresh ids (the decimal form of the counter). It answers the
  four calls the interactor makes: findUser, fetchUser, addUser and
  updateLastSignOn. Its contents as a value are a `StoreState`. The class
  `DataStore` keeps a ghost log of the calls made on it, like a test spy.
  Each call takes a `fault`; `Some(e)` makes that call reject with `e` and
  change nothing. `Valid` is the store invariant:
  - usernames and records agree in both directions;
  - ids are non-empty;
  - every record holds a hash;
  - ids the counter will still issue are unused.
- `auth_interactor.dfy` (module `AuthInteractor`):
  - the rejection reasons, one variant per message, and their exact texts;
  - `RegisterSpec` and `LoginSpec`, which give the result, the store
    afterwards and the store calls made, in order;
  - the methods `Register` and `Login`, which run against a `DataStore`
    object with early returns, as the source does, and are proved to follow
    those functions;
  - lemmas for each path over a valid store.

A user record's `password` is an `Option`. `delete user.password` sets it to
`None`. The JavaScript truthiness tests on the id (`if (exists)` and
`if (!id)`) are modelled as `Truthy`: an absent id and the empty string are
both falsy. The source returns the record it fetched *before*
`updateLastSignOn`. So the user that login returns carries the previous
last sign-on, not the new one, and `LoginMatch` states this.

## Model

| member | source | states |
|---|---|---|
| `Bcrypt.Hash` | src/interactors/AuthInteractor.ts:28 | the hash records the fixed cost factor 10 and the salt it was made with, and the password compares equal to it |
| `Bcrypt.CompareOnlyHash` | src/interactors/AuthInteractor.ts:64 | for a hash with the cost factor 10, a password compares equal to it exactly when the hash is that password's hash under the hash's own salt |
| `CredentialStore.DataStore.FindUser` | src/interactors/AuthInteractor.ts:24 | findUser answers the id filed under the username, or rejects with the fault; it changes nothing and logs one call |
| `CredentialStore.DataStore.FetchUser` | src/interactors/AuthInteractor.ts:62 | fetchUser answers the record filed under the id, or rejects with the fault or for an unknown id; it changes nothing |
| `CredentialStore.DataStore.AddUser` | src/interactors/AuthInteractor.ts:29 | addUser files a new record with the given hash under a new id and returns it; a rejected call changes nothing |
| `CredentialStore.DataStore.UpdateLastSignOn` | src/interactors/AuthInteractor.ts:69 | updateLastSignOn sets that record's last sign-on to the current time; a rejected call changes nothing |
| `CredentialStore.InsertFresh` | src/interactors/AuthInteractor.ts:29 | adding a free username keeps the store valid, uses an id no record had, and leaves every other username and record unchanged |
| `CredentialStore.TouchKeepsValid` | src/interactors/AuthInteractor.ts:69 | the last-sign-on update keeps the store valid and changes only that record's last sign-on |
| `AuthInteractor.Message` | src/interactors/AuthInteractor.ts:26-73 | the three specific rejections read "Username is already in use", "Invalid username" and "Password is incorrect", and a wrapped error reads "Problem registering. Error: " or "Problem logining in. Error: " followed by its cause unchanged |
| `AuthInteractor.Truthy` | src/interactors/AuthInteractor.ts:59-61 | the id findUser answers is falsy exactly when it is absent or the empty string |
| `AuthInteractor.MessageInjective` | src/interactors/AuthInteractor.ts:57-73 | distinct rejections have distinct texts, so a wrapped store error never reads as one of the specific messages |
| `AuthInteractor.Strip` | src/interactors/AuthInteractor.ts:30 | the returned record has no password and keeps id, username and last sign-on |
| `AuthInteractor.RegisterSpec` | src/interactors/AuthInteractor.ts:18-35 | a failing lookup or a truthy id leaves findUser as the only call, and otherwise exactly one addUser, carrying the hash, follows it. A rejection writes nothing and is either the duplicate message or the wrapped error. The duplicate rejection happens exactly when the lookup succeeds with a truthy id. Success returns the stored record, which holds the hash, without its password |
| `AuthInteractor.LoginSpec` | src/interactors/AuthInteractor.ts:47-75 | findUser is called first. Any second call is fetchUser with the id the lookup answered, and a rejected fetch ends the calls there. A third call is always the one updateLastSignOn. A rejection writes nothing. "Invalid username" happens exactly when the lookup rejects or answers a falsy id, and then nothing is fetched. A wrong password never reaches updateLastSignOn. Success makes exactly one last-sign-on update, for the returned user's id, and returns no password |
| `AuthInteractor.Register` | src/interactors/AuthInteractor.ts:18-35 | the method's result, the store afterwards and the calls it logs are those of `RegisterSpec` |
| `AuthInteractor.Login` | src/interactors/AuthInteractor.ts:47-75 | the method's result, the store afterwards and the calls it logs are those of `LoginSpec` |
| `AuthInteractor.TruthyFind` | src/interactors/AuthInteractor.ts:59-61 | in a valid store the id findUser answers is truthy exactly when the username is taken |
| `AuthInteractor.RegisterTaken` | src/interactors/AuthInteractor.ts:24-27 | in a valid store, a taken username with a succeeding lookup yields exactly one findUser call, the rejection "Username is already in use", and an unchanged store |
| `AuthInteractor.RegisterFree` | src/interactors/AuthInteractor.ts:28-31 | a free username gets exactly one addUser carrying `Hash(password, salt)` and one new record under an unused id. The record holds that hash and is returned without it. Nothing else changes and the store stays valid |
| `AuthInteractor.RegisterStoreFailure` | src/interactors/AuthInteractor.ts:32-33 | a rejecting findUser, or a rejecting addUser for a free name, gives "Problem registering" carrying the cause, and the store is unchanged |
| `AuthInteractor.RegisterSucceedsIff` | src/interactors/AuthInteractor.ts:23-34 | register succeeds exactly when both store calls succeed and the username is free |
| `AuthInteractor.RegisterKeepsValid` | src/interactors/AuthInteractor.ts:29 | register keeps the store invariant on every path |
| `AuthInteractor.LoginUnknown` | src/interactors/AuthInteractor.ts:54-61 | a rejecting lookup and an unknown username both give "Invalid username" after the lookup alone, and the store is unchanged |
| `AuthInteractor.LoginWrongPassword` | src/interactors/AuthInteractor.ts:64-68 | a password that does not compare gives "Password is incorrect" after lookup and fetch only, with no last-sign-on update and the store unchanged |
| `AuthInteractor.LoginMatch` | src/interactors/AuthInteractor.ts:62-71 | a matching password gives exactly one updateLastSignOn, with that user's id. Only that record's last sign-on changes. The fetched record is returned without its password |
| `AuthInteractor.LoginStoreFailure` | src/interactors/AuthInteractor.ts:62-73 | a rejecting fetchUser ends the run after the lookup and the fetch, and a rejecting updateLastSignOn after a match ends it after the update. Each gives "Problem logining in" carrying the cause, and the store is unchanged |
| `AuthInteractor.LoginSucceedsIff` | src/interactors/AuthInteractor.ts:52-74 | login succeeds exactly when every store call succeeds, the username is known and the password compares equal to the stored hash |
| `AuthInteractor.LoginKeepsValid` | src/interactors/AuthInteractor.ts:69 | login keeps the store invariant on every path |
| `AuthInteractor.RegisterThenLogin` | src/interactors/AuthInteractor.ts:18-71 | after registering a free username, registering it again is a duplicate, and logging in with the same password returns the registered id |

## Left out

- bcrypt internals are left out: random salting, the cost of 10 rounds and constant-time comparison. The salt is an argument, and the digest is a stand-in about which nothing is claimed beyond `Compare(p, Hash(p, salt))` and `CompareOnlyHash` (compare recomputes the hash under the stored salt). No collision-freedom is claimed, so the model does not prove that a different password fails to log in.
- RegisterTaken: "no hash is computed" appears as the absence of any addUser call. Hashing is a pure function in the model, so computing it leaves no trace.
- A rejection by bcrypt.hash or bcrypt.compare of a non-string password is not modelled. Only the password reaches bcrypt. An absent `password` field would make register fail with "Problem registering…" and login fail with "Problem logining in…". The model's typed `string` inputs exclude it. An absent `username` goes only to the store, so its effect is the store's matter. A rejection by bcrypt.compare is modelled only for a record without a hash.
- The concrete DataStore implementation and its persistence are not part of this model; an in-memory store stands in. Its choices are:
  - a failed call changes nothing;
  - fetchUser rejects an unknown id with "User not found";
  - updateLastSignOn ignores an unknown id;
  - new records have no last sign-on;
  - ids are issued from a counter;
  - records are handed out as copies. So `delete user.password` on the object that addUser or fetchUser returned leaves the stored record's hash in place. And the object login returns is not touched by the later updateLastSignOn. A store that handed out its live objects would lose the hash on every successful register and login, breaking `Valid`.
- The clock is an argument (`now`) of login.
- Causes are plain strings: the `${e}` rendering of a thrown error is not modelled.
- The async/Promise machinery is modelled as a `Result`. Each call is atomic and sequential. So the check-then-act race between concurrent registrations of one username is not modelled.
- src/drivers/express/ExpressRouteDriver.ts (routing and request/response glue) is not part of this model. Neither are UserInteractor and DishInteractor (friends, completions, dishes).
