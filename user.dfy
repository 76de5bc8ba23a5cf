/**
 * The `User` entity and the `users` table (User.java). Users are created by
 * `add` and never changed or removed afterwards, so the table is a sequence
 * in creation order; the user at position i has the generated id i + 1.
 */
module UserEntity {
  import opened Results
  import opened Bcrypt

  /** The role a user gets when none is given. */
  const DefaultRole := "USER"

  /** A stored user: the password is kept only as its digest. */
  datatype User = User(id: int, username: string, passwordHash: Digest, role: string)

  /** The `unique = true` constraint on the username column. */
  ghost predicate UniqueUsernames(users: seq<User>) {
    forall i, j :: 0 <= i < j < |users| ==> users[i].username != users[j].username
  }

  /** `findByUsername`: the first user with that name, if any. */
  function FindByUsername(users: seq<User>, username: string): (r: Option<User>)
    ensures r.Some? ==> r.value in users && r.value.username == username
    ensures r.None? <==> forall u :: u in users ==> u.username != username
  {
    if users == [] then None
    else if users[0].username == username then Some(users[0])
    else FindByUsername(users[1..], username)
  }

  /** `count("username", username)`. */
  function CountByUsername(users: seq<User>, username: string): (n: nat)
    ensures n == 0 <==> forall u :: u in users ==> u.username != username
    ensures UniqueUsernames(users) ==> n <= 1
  {
    if users == [] then 0
    else (if users[0].username == username then 1 else 0) + CountByUsername(users[1..], username)
  }

  /** `usernameExists`. */
  function UsernameExists(users: seq<User>, username: string): (b: bool)
    ensures b <==> FindByUsername(users, username).Some?
  {
    CountByUsername(users, username) > 0
  }

  /** `validatePassword`: does the password match the stored digest? */
  function ValidatePassword(user: User, password: string): bool {
    Matches(password, user.passwordHash)
  }

  /** The record `add` builds: the password digested, the role defaulted. */
  function NewUser(id: int, username: string, password: string, role: Option<string>): (u: User)
    ensures u.id == id && u.username == username
    ensures u.passwordHash == Hash(password)
    ensures role.None? ==> u.role == DefaultRole
    ensures role.Some? ==> u.role == role.value
  {
    User(id, username, Hash(password), if role.Some? then role.value else DefaultRole)
  }

  /** The table after `add`: one more user, under the next id. */
  function WithUser(users: seq<User>, username: string, password: string, role: Option<string>): seq<User> {
    users + [NewUser(|users| + 1, username, password, role)]
  }

  /** The password given to `add` is accepted for the user it creates. */
  lemma NewUserAcceptsPassword(id: int, username: string, password: string, role: Option<string>)
    ensures ValidatePassword(NewUser(id, username, password, role), password)
  {
  }

  /** After `add`, looking the new name up finds the new user. */
  lemma {:induction false} FindAfterAdd(users: seq<User>, username: string, password: string, role: Option<string>)
    requires !UsernameExists(users, username)
    ensures FindByUsername(WithUser(users, username, password, role), username)
            == Some(NewUser(|users| + 1, username, password, role))
  {
    FindAppended(users, NewUser(|users| + 1, username, password, role), username);
  }

  /** A lookup in a longer table: earlier users win, the last one is found only when nobody before it matches. */
  lemma {:induction false} FindAppended(users: seq<User>, last: User, username: string)
    ensures FindByUsername(users + [last], username) ==
            if FindByUsername(users, username).Some? then FindByUsername(users, username)
            else if last.username == username then Some(last)
            else None
  {
    if users != [] {
      assert (users + [last])[1..] == users[1..] + [last];
      FindAppended(users[1..], last, username);
    }
  }

  /** After `add`, every other name is looked up exactly as before. */
  lemma AddKeepsOtherLookups(users: seq<User>, username: string, password: string, role: Option<string>, other: string)
    requires other != username
    ensures FindByUsername(WithUser(users, username, password, role), other) == FindByUsername(users, other)
  {
    FindAppended(users, NewUser(|users| + 1, username, password, role), other);
  }

  /** `add` of a free name keeps the names unique. */
  lemma AddKeepsUsernamesUnique(users: seq<User>, username: string, password: string, role: Option<string>)
    requires UniqueUsernames(users)
    requires !UsernameExists(users, username)
    ensures UniqueUsernames(WithUser(users, username, password, role))
  {
    var r := WithUser(users, username, password, role);
    forall i, j | 0 <= i < j < |r| ensures r[i].username != r[j].username {
      if j == |users| {
        assert r[i] in users;
      }
    }
  }

  /** The `users` table with its id generator. */
  class UserStore {
    var users: seq<User>

    /** Ids follow creation order and usernames are unique. */
    ghost predicate Valid()
      reads this
    {
      && (forall i :: 0 <= i < |users| ==> users[i].id == i + 1)
      && UniqueUsernames(users)
    }

    constructor ()
      ensures Valid() && users == []
    {
      users := [];
    }

    /**
     * `User.add`. The caller must pass a free username: the unique column
     * rejects a second one when the record is persisted.
     */
    method Add(username: string, password: string, role: Option<string>)
      requires Valid()
      requires !UsernameExists(users, username)
      modifies this
      ensures Valid()
      ensures users == WithUser(old(users), username, password, role)
      ensures |users| == |old(users)| + 1 && users[..|old(users)|] == old(users)
    {
      AddKeepsUsernamesUnique(users, username, password, role);
      users := WithUser(users, username, password, role);
    }
  }
}
