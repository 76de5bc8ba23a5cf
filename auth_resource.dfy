/**
 * The REST handlers of the authentication service (AuthResource.java):
 * registration into the credential store and login, which issues a token.
 * The signed JWT is modelled by the claims it carries.
 */
module AuthResource {
  import opened Results
  import opened JavaStrings
  import opened Bcrypt
  import opened UserEntity

  /** The issuer claim of every token. */
  const Issuer := "https://finance-auth-service"

  /** The shortest accepted password, in UTF-16 code units. */
  const MinPasswordLength := 4

  /** The request body of `register`; an absent field is None. */
  datatype RegisterRequest = RegisterRequest(username: Option<string>, password: Option<string>, role: Option<string>)

  datatype LoginRequest = LoginRequest(username: string, password: string)

  /** The claims of an issued token: the principal name (upn), the groups and the user id. */
  datatype Claims = Claims(issuer: string, subject: string, groups: set<string>, userId: int)

  datatype AuthResponse = AuthResponse(token: Claims, username: string, role: string)

  /** The reasons carried by the service's error responses. */
  datatype AuthError =
    | UsernameRequired
    | PasswordTooShort
    | UsernameTaken
    | InvalidCredentials

  // The two input checks of `register`, in the order the handler makes them.

  predicate HasUsername(request: RegisterRequest) {
    request.username.Some? && !IsBlank(request.username.value)
  }

  predicate HasLongEnoughPassword(request: RegisterRequest) {
    request.password.Some? && Utf16Length(request.password.value) >= MinPasswordLength
  }

  /** The response and token issued to a user who logged in. */
  function IssuedFor(user: User): (r: AuthResponse)
    ensures r.token.subject == r.username == user.username
    ensures r.token.groups == {user.role} && r.role == user.role
    ensures r.token.userId == user.id && r.token.issuer == Issuer
  {
    AuthResponse(Claims(Issuer, user.username, {user.role}, user.id), user.username, user.role)
  }

  /**
   * POST /auth/login. An unknown username and a wrong password give the same
   * answer.
   */
  function Login(users: seq<User>, request: LoginRequest): (response: Outcome<AuthResponse, AuthError>)
    ensures FindByUsername(users, request.username).None? ==> response == Unauthorized(InvalidCredentials)
    ensures var found := FindByUsername(users, request.username);
            found.Some? && !ValidatePassword(found.value, request.password) ==> response == Unauthorized(InvalidCredentials)
    ensures response.Ok? || response == Unauthorized(InvalidCredentials)
    ensures response.Ok? ==>
              exists u :: u in users && u.username == request.username && Matches(request.password, u.passwordHash)
                          && response.value == IssuedFor(u)
  {
    var user := FindByUsername(users, request.username);
    if user.None? || !ValidatePassword(user.value, request.password) then
      Unauthorized(InvalidCredentials)
    else
      Ok(IssuedFor(user.value))
  }

  /** In a table with unique names, login succeeds exactly for a stored name with a matching password. */
  lemma LoginSucceedsIff(users: seq<User>, request: LoginRequest)
    requires UniqueUsernames(users)
    ensures Login(users, request).Ok? <==>
            exists u :: u in users && u.username == request.username && Matches(request.password, u.passwordHash)
  {
    var found := FindByUsername(users, request.username);
    if u :| u in users && u.username == request.username && Matches(request.password, u.passwordHash) {
      var i :| 0 <= i < |users| && users[i] == u;
      var j :| 0 <= j < |users| && users[j] == found.value;
      assert i == j;
    }
  }

  /** Registering and then logging in with the same password succeeds, for the new user. */
  lemma {:induction false} LoginAfterAdd(users: seq<User>, username: string, password: string, role: Option<string>)
    requires !UsernameExists(users, username)
    ensures Login(WithUser(users, username, password, role), LoginRequest(username, password))
            == Ok(IssuedFor(NewUser(|users| + 1, username, password, role)))
  {
    FindAfterAdd(users, username, password, role);
    NewUserAcceptsPassword(|users| + 1, username, password, role);
  }

  /** POST /auth/register. */
  method Register(store: UserStore, request: RegisterRequest) returns (response: Outcome<(), AuthError>)
    requires store.Valid()
    modifies store
    ensures store.Valid()
    ensures !HasUsername(request) ==> response == BadRequest(UsernameRequired)
    ensures HasUsername(request) && !HasLongEnoughPassword(request) ==> response == BadRequest(PasswordTooShort)
    ensures HasUsername(request) && HasLongEnoughPassword(request)
            && UsernameExists(old(store.users), request.username.value)
            ==> response == Conflict(UsernameTaken)
    ensures response.Ok? <==>
              HasUsername(request) && HasLongEnoughPassword(request)
              && !UsernameExists(old(store.users), request.username.value)
    ensures !response.Ok? ==> store.users == old(store.users)
    ensures response.Ok? ==>
              && store.users == WithUser(old(store.users), request.username.value, request.password.value, request.role)
              && Login(store.users, LoginRequest(request.username.value, request.password.value))
                 == Ok(IssuedFor(NewUser(|old(store.users)| + 1, request.username.value, request.password.value,
                                         request.role)))
  {
    if request.username.None? || IsBlank(request.username.value) {
      return BadRequest(UsernameRequired);
    }
    if request.password.None? || Utf16Length(request.password.value) < MinPasswordLength {
      return BadRequest(PasswordTooShort);
    }
    if FindByUsername(store.users, request.username.value).Some? {
      return Conflict(UsernameTaken);
    }
    LoginAfterAdd(store.users, request.username.value, request.password.value, request.role);
    store.Add(request.username.value, request.password.value, request.role);
    response := Ok(());
  }

  /** A second registration of the same name is a conflict and adds nobody. */
  method RegisterTwice(store: UserStore, request: RegisterRequest)
    returns (first: Outcome<(), AuthError>, second: Outcome<(), AuthError>)
    requires store.Valid()
    modifies store
    ensures first.Ok? ==> second == Conflict(UsernameTaken) && |store.users| == |old(store.users)| + 1
  {
    first := Register(store, request);
    second := Register(store, request);
  }
}
