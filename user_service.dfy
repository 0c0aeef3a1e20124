/**
 * services/user.py: creating, fetching and merge-updating user records in the
 * user store. The store assigns ids and enforces the unique username column.
 */
module UserService {
  import opened Wrappers
  import opened Models

  /** Why a user operation fails: `get` found no row, or the unique username column refused the write. */
  datatype UserError = UserNotFound | UsernameTaken

  /** Python truthiness of a string argument: set, and not empty. */
  predicate Truthy(arg: Option<string>)
  {
    arg.Some? && arg.value != ""
  }

  /** The value a field takes under `if arg: user.field = arg`. */
  function Overwrite(arg: Option<string>, current: string): string
  {
    if Truthy(arg) then arg.value else current
  }

  /** The arguments of `update_user` after `user_id`. */
  datatype UpdateArgs = UpdateArgs(
    username: Option<string>,
    password: Option<string>,
    email: Option<string>,
    firstName: string,
    lastName: string)

  /** `update_user` called with every default. */
  const NoChanges := UpdateArgs(None, None, None, "", "")

  /** The record `update_user` writes back for `u`; `salt` is the hasher's randomness. */
  function Merged(u: User, args: UpdateArgs, salt: int): (r: User)
    ensures r.id == u.id
  {
    var u := u.(username := Overwrite(args.username, u.username));
    var u := u.(email := Overwrite(args.email, u.email));
    var u := u.(firstName := if args.firstName != "" then args.firstName else u.firstName);
    var u := u.(lastName := if args.lastName != "" then args.lastName else u.lastName);
    if Truthy(args.password) then SetPassword(u, args.password.value, salt) else u
  }

  /** Same username, email and names. */
  predicate SameProfile(a: User, b: User)
  {
    a.username == b.username && a.email == b.email && a.firstName == b.firstName && a.lastName == b.lastName
  }

  /**
   * Each profile field ends up as its argument when that is non-empty and keeps
   * its stored value otherwise; the password is re-hashed exactly when a
   * non-empty password is given.
   */
  lemma MergedFields(u: User, args: UpdateArgs, salt: int)
    ensures var r := Merged(u, args, salt);
      r.username == (if Truthy(args.username) then args.username.value else u.username) &&
      r.email == (if Truthy(args.email) then args.email.value else u.email) &&
      r.firstName == (if args.firstName != "" then args.firstName else u.firstName) &&
      r.lastName == (if args.lastName != "" then args.lastName else u.lastName) &&
      r.password == (if Truthy(args.password) then MakePassword(args.password.value, salt) else u.password)
  {
  }

  /** An update with every default changes nothing. */
  lemma NoChangesIsIdentity(u: User, salt: int)
    ensures Merged(u, NoChanges, salt) == u
  {
  }

  /** An empty argument cannot clear a field: a non-empty field stays non-empty. */
  lemma EmptyCannotClear(u: User, args: UpdateArgs, salt: int)
    ensures var r := Merged(u, args, salt);
      (u.username != "" ==> r.username != "") &&
      (u.email != "" ==> r.email != "") &&
      (u.firstName != "" ==> r.firstName != "") &&
      (u.lastName != "" ==> r.lastName != "")
  {
  }

  /**
   * Applying the same update twice leaves the same profile as applying it once;
   * without a password the whole record is the same.
   */
  lemma MergeIdempotent(u: User, args: UpdateArgs, salt1: int, salt2: int)
    ensures SameProfile(Merged(Merged(u, args, salt1), args, salt2), Merged(u, args, salt1))
    ensures !Truthy(args.password) ==> Merged(Merged(u, args, salt1), args, salt2) == Merged(u, args, salt1)
  {
  }

  // ---------------------------------------------------------------------------
  // The user store
  // ---------------------------------------------------------------------------

  /** Some stored user has this username. */
  predicate UsernameInUse(users: map<int, User>, name: string)
  {
    exists id :: id in users && users[id].username == name
  }

  /** Ids are keys below the next id to assign; usernames are unique. */
  predicate StoreInvariant(users: map<int, User>, nextId: int)
  {
    1 <= nextId &&
    (forall id :: id in users ==> users[id].id == id && 1 <= id < nextId) &&
    (forall a, b :: a in users && b in users && a != b ==> users[a].username != users[b].username)
  }

  /** The record `create_user` stores under `id`: an absent email is stored empty. */
  function NewUser(id: int, username: string, password: string, email: Option<string>, firstName: string, lastName: string, salt: int): User
  {
    User(id, username, MakePassword(password, salt), if email.Some? then email.value else "", firstName, lastName)
  }

  /** The store after `create_user`, or the error it raises. */
  function ApplyCreate(users: map<int, User>, id: int, u: User): (r: Result<map<int, User>, UserError>)
    ensures UsernameInUse(users, u.username) <==> r == Err(UsernameTaken)
    ensures r.Ok? <==> !UsernameInUse(users, u.username)
    ensures r.Ok? ==> r.value.Keys == users.Keys + {id} && r.value[id] == u
    ensures r.Ok? ==> id !in users ==> |r.value| == |users| + 1
    ensures r.Ok? ==> forall k :: k in users && k != id ==> r.value[k] == users[k]
  {
    if UsernameInUse(users, u.username) then Err(UsernameTaken) else Ok(users[id := u])
  }

  /** The store after `update_user`, or the error it raises. */
  function ApplyUpdate(users: map<int, User>, id: int, args: UpdateArgs, salt: int): (r: Result<map<int, User>, UserError>)
    ensures id !in users <==> r == Err(UserNotFound)
    ensures r == Err(UsernameTaken) <==> id in users && UsernameInUse(users - {id}, Merged(users[id], args, salt).username)
    ensures r.Ok? ==> r.value.Keys == users.Keys && r.value[id] == Merged(users[id], args, salt)
    ensures r.Ok? ==> forall k :: k in users && k != id ==> r.value[k] == users[k]
  {
    if id !in users then
      Err(UserNotFound)
    else
      var u := Merged(users[id], args, salt);
      if UsernameInUse(users - {id}, u.username) then Err(UsernameTaken) else Ok(users[id := u])
  }

  /** A user created with a fresh id keeps the store consistent. */
  lemma CreateKeepsInvariant(users: map<int, User>, nextId: int, u: User)
    requires StoreInvariant(users, nextId)
    requires u.id == nextId
    requires ApplyCreate(users, nextId, u).Ok?
    ensures StoreInvariant(ApplyCreate(users, nextId, u).value, nextId + 1)
  {
  }

  /** A successful update keeps the store consistent. */
  lemma UpdateKeepsInvariant(users: map<int, User>, nextId: int, id: int, args: UpdateArgs, salt: int)
    requires StoreInvariant(users, nextId)
    requires ApplyUpdate(users, id, args, salt).Ok?
    ensures StoreInvariant(ApplyUpdate(users, id, args, salt).value, nextId)
  {
    var after := ApplyUpdate(users, id, args, salt).value;
    var others := users - {id};
    forall a, b | a in after && b in after && a != b
      ensures after[a].username != after[b].username
    {
      if a == id {
        assert b in others && others[b].username != after[a].username;
      } else if b == id {
        assert a in others && others[a].username != after[b].username;
      }
    }
  }

  /** The user table, with the counter that assigns ids. */
  class UserStore {
    var users: map<int, User>
    var nextId: int

    ghost predicate Valid()
      reads this
    {
      StoreInvariant(users, nextId)
    }

    constructor ()
      ensures Valid()
      ensures users == map[] && nextId == 1
    {
      users := map[];
      nextId := 1;
    }

    /** `create_user`: store a new record under a fresh id, with the password hashed. */
    method CreateUser(username: string, password: string, email: Option<string>, firstName: string, lastName: string, salt: int)
      returns (r: Result<User, UserError>)
      requires Valid()
      modifies this
      ensures Valid()
      ensures var u := NewUser(old(nextId), username, password, email, firstName, lastName, salt);
        match ApplyCreate(old(users), old(nextId), u)
        case Ok(after) => users == after && nextId == old(nextId) + 1 && r == Ok(u)
        case Err(e) => users == old(users) && nextId == old(nextId) && r == Err(e)
    {
      var u := NewUser(nextId, username, password, email, firstName, lastName, salt);
      if UsernameInUse(users, username) {
        return Err(UsernameTaken);
      }
      CreateKeepsInvariant(users, nextId, u);
      users := users[nextId := u];
      nextId := nextId + 1;
      r := Ok(u);
    }

    /** `get_user`: the record stored under `userId`, or `UserNotFound`. */
    method GetUser(userId: int) returns (r: Result<User, UserError>)
      ensures r.Ok? <==> userId in users
      ensures r.Ok? ==> r.value == users[userId]
      ensures r.Err? ==> r.error == UserNotFound
    {
      if userId !in users {
        return Err(UserNotFound);
      }
      r := Ok(users[userId]);
    }

    /**
     * `update_user`: fetch the record, overwrite each field whose argument is
     * non-empty, re-hash the password when one is given, and write the record
     * back. The lookup comes first, so a missing id changes nothing.
     */
    method UpdateUser(userId: int, username: Option<string>, password: Option<string>, email: Option<string>,
                      firstName: string, lastName: string, salt: int)
      returns (r: Result<User, UserError>)
      requires Valid()
      modifies this
      ensures Valid()
      ensures nextId == old(nextId)
      ensures match ApplyUpdate(old(users), userId, UpdateArgs(username, password, email, firstName, lastName), salt)
        case Ok(after) => users == after && r == Ok(after[userId])
        case Err(e) => users == old(users) && r == Err(e)
    {
      var found := GetUser(userId);
      if found.Err? {
        return found;
      }
      var user := found.value;
      if Truthy(username) {
        user := user.(username := username.value);
      }
      if Truthy(email) {
        user := user.(email := email.value);
      }
      if firstName != "" {
        user := user.(firstName := firstName);
      }
      if lastName != "" {
        user := user.(lastName := lastName);
      }
      if Truthy(password) {
        user := SetPassword(user, password.value, salt);
      }
      var args := UpdateArgs(username, password, email, firstName, lastName);
      assert user == Merged(users[userId], args, salt);
      if UsernameInUse(users - {userId}, user.username) {
        return Err(UsernameTaken);
      }
      UpdateKeepsInvariant(users, nextId, userId, args, salt);
      users := users[userId := user];
      r := Ok(user);
    }
  }
}
