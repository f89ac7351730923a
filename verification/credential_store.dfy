/**
 * An in-memory credential store answering the four calls the interactor makes:
 * findUser, fetchUser, addUser and updateLastSignOn.
 *
 * Its state is two maps, username to id and id to user record, plus the
 * counter from which fresh ids are drawn. Each call takes a `fault`: `Some(e)`
 * makes the call reject with `e` and change nothing, which stands for any
 * failure of the real store.
 */
module CredentialStore {
  import opened Wrappers
  import Bcrypt

  type Id = string

  /** A user record as the store hands it out; `password` is `None` once it has been deleted. */
  datatype User = User(id: Id, username: string, password: Option<Bcrypt.PasswordHash>, lastSignOn: Option<nat>)

  /** The store's contents as a value. */
  datatype StoreState = StoreState(ids: map<string, Id>, users: map<Id, User>, next: nat)

  /** One call the interactor makes on the store, as a spy records it. */
  datatype Call =
    | FindUser(username: string)
    | FetchUser(id: Id)
    | AddUser(username: string, hash: Bcrypt.PasswordHash)
    | UpdateLastSignOn(id: Id)

  /** What fetchUser rejects with when no record is filed under the id. */
  const UnknownId: string := "User not found"

  function Digit(d: nat): char
    requires d < 10
  {
    ('0' as int + d) as char
  }

  /** The decimal rendering of the counter value `n`, used as the id of the `n`-th user. */
  function IdOf(n: nat): (r: Id)
    ensures r != [] && forall i :: 0 <= i < |r| ==> '0' <= r[i] <= '9'
  {
    if n < 10 then [Digit(n)] else IdOf(n / 10) + [Digit(n % 10)]
  }

  /** Distinct counter values give distinct ids, so every id the store issues is fresh. */
  lemma {:induction false} IdOfInjective(a: nat, b: nat)
    ensures IdOf(a) == IdOf(b) ==> a == b
  {
    if IdOf(a) == IdOf(b) {
      var x := IdOf(a);
      assert x[|x| - 1] == Digit(a % 10) == Digit(b % 10);
      if a >= 10 && b >= 10 {
        assert IdOf(a / 10) == x[..|x| - 1] == IdOf(b / 10);
        IdOfInjective(a / 10, b / 10);
      }
    }
  }

  /** The store's invariant. */
  ghost predicate Valid(s: StoreState)
  {
    // every username resolves to a record carrying that username
    (forall u :: u in s.ids ==> s.ids[u] in s.users && s.users[s.ids[u]].username == u)
    // every record is filed under its own non-empty id and its username, and holds a hash
    && (forall id :: id in s.users ==>
          && s.users[id].id == id && id != ""
          && s.users[id].password.Some?
          && s.users[id].username in s.ids && s.ids[s.users[id].username] == id)
    // the ids the counter will still issue are unused
    && (forall k: nat :: k >= s.next ==> IdOf(k) !in s.users)
  }

  /** The empty store. */
  function Empty(): (s: StoreState)
    ensures Valid(s) && s.ids == map[] && s.users == map[]
  {
    StoreState(map[], map[], 0)
  }

  /** What findUser answers: the id filed under the username, if any. */
  function Find(s: StoreState, username: string): Option<Id>
  {
    if username in s.ids then Some(s.ids[username]) else None
  }

  /** The record addUser creates: a fresh id, the given hash, never signed on. */
  function NewUser(s: StoreState, username: string, hash: Bcrypt.PasswordHash): User
  {
    User(IdOf(s.next), username, Some(hash), None)
  }

  /** The store after addUser. */
  function Insert(s: StoreState, username: string, hash: Bcrypt.PasswordHash): StoreState
  {
    var user := NewUser(s, username, hash);
    StoreState(s.ids[username := user.id], s.users[user.id := user], s.next + 1)
  }

  /** The store after updateLastSignOn; an unknown id changes nothing. */
  function Touch(s: StoreState, id: Id, now: nat): StoreState
  {
    if id in s.users then s.(users := s.users[id := s.users[id].(lastSignOn := Some(now))]) else s
  }

  /**
   * Inserting a username that is not yet taken keeps the store valid, files
   * the new record under an id that was unused, and leaves every other
   * username and record as it was.
   */
  lemma InsertFresh(s: StoreState, username: string, hash: Bcrypt.PasswordHash)
    requires Valid(s) && username !in s.ids
    ensures var t := Insert(s, username, hash);
      && Valid(t)
      && IdOf(s.next) !in s.users
      && t.ids == s.ids[username := IdOf(s.next)]
      && t.users == s.users[IdOf(s.next) := User(IdOf(s.next), username, Some(hash), None)]
  {
    var t := Insert(s, username, hash);
    var id := IdOf(s.next);
    assert id !in s.users;
    forall k: nat | k >= t.next
      ensures IdOf(k) !in t.users
    {
      IdOfInjective(k, s.next);
    }
  }

  /** Touching a stored record keeps the store valid and changes only that record's last sign-on. */
  lemma TouchKeepsValid(s: StoreState, id: Id, now: nat)
    requires Valid(s) && id in s.users
    ensures var t := Touch(s, id, now);
      && Valid(t)
      && t.ids == s.ids && t.next == s.next && t.users.Keys == s.users.Keys
      && t.users[id] == s.users[id].(lastSignOn := Some(now))
      && forall other :: other in s.users && other != id ==> t.users[other] == s.users[other]
  {
  }

  /** The store object the interactor is handed, with a spy log of the calls made on it. */
  class DataStore {
    var ids: map<string, Id>
    var users: map<Id, User>
    var next: nat
    ghost var calls: seq<Call>

    function State(): StoreState
      reads this
    {
      StoreState(ids, users, next)
    }

    constructor ()
      ensures State() == Empty() && calls == []
    {
      ids, users, next := map[], map[], 0;
      calls := [];
    }

    method FindUser(username: string, fault: Option<string>) returns (r: Result<Option<Id>, string>)
      modifies this`calls
      ensures State() == old(State())
      ensures calls == old(calls) + [Call.FindUser(username)]
      ensures r == if fault.Some? then Err(fault.value) else Ok(Find(State(), username))
    {
      calls := calls + [Call.FindUser(username)];
      if fault.Some? {
        return Err(fault.value);
      }
      if username in ids {
        return Ok(Some(ids[username]));
      }
      return Ok(None);
    }

    method FetchUser(id: Id, fault: Option<string>) returns (r: Result<User, string>)
      modifies this`calls
      ensures State() == old(State())
      ensures calls == old(calls) + [Call.FetchUser(id)]
      ensures r == if fault.Some? then Err(fault.value)
                   else if id in users then Ok(users[id])
                   else Err(UnknownId)
    {
      calls := calls + [Call.FetchUser(id)];
      if fault.Some? {
        return Err(fault.value);
      }
      if id !in users {
        return Err(UnknownId);
      }
      return Ok(users[id]);
    }

    method AddUser(username: string, hash: Bcrypt.PasswordHash, fault: Option<string>) returns (r: Result<User, string>)
      modifies this
      ensures calls == old(calls) + [Call.AddUser(username, hash)]
      ensures fault.Some? ==> r == Err(fault.value) && State() == old(State())
      ensures fault.None? ==>
                r == Ok(NewUser(old(State()), username, hash)) && State() == Insert(old(State()), username, hash)
    {
      calls := calls + [Call.AddUser(username, hash)];
      if fault.Some? {
        return Err(fault.value);
      }
      var user := User(IdOf(next), username, Some(hash), None);
      ids := ids[username := user.id];
      users := users[user.id := user];
      next := next + 1;
      return Ok(user);
    }

    method UpdateLastSignOn(id: Id, now: nat, fault: Option<string>) returns (r: Result<(), string>)
      modifies this
      ensures calls == old(calls) + [Call.UpdateLastSignOn(id)]
      ensures fault.Some? ==> r == Err(fault.value) && State() == old(State())
      ensures fault.None? ==> r == Ok(()) && State() == Touch(old(State()), id, now)
    {
      calls := calls + [Call.UpdateLastSignOn(id)];
      if fault.Some? {
        return Err(fault.value);
      }
      if id in users {
        users := users[id := users[id].(lastSignOn := Some(now))];
      }
      return Ok(());
    }
  }
}
