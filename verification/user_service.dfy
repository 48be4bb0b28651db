/** Registration and login. Password hashing, password verification and token
    signing belong to a security module that is not part of this model; they enter
    as function parameters about which nothing is assumed. */
module UserService {
  import opened Wrappers
  import opened Errors
  import Keys
  import Config

  /** A row of the `users` table; it keeps the password's hash, never the password. */
  datatype User = User(id: int, email: string, username: string, hashedPassword: string)

  /** The `users` table, keyed by primary key. */
  datatype UserStore = UserStore(users: map<int, User>)

  /** Body of a registration request. */
  datatype UserCreate = UserCreate(email: string, username: string, password: string)

  /** Body of a login request. */
  datatype UserLogin = UserLogin(email: string, password: string)

  /** Response body of a successful login. */
  datatype Token = Token(accessToken: string, tokenType: string)

  const EmailTaken := "El email ya está registrado"
  const UsernameTaken := "El nombre de usuario ya está en uso"
  const BadCredentials := "Email o contraseña incorrectos"
  const Bearer := "bearer"

  /** Some user has this email. */
  predicate EmailRegistered(s: UserStore, email: string)
  {
    exists id :: id in s.users && s.users[id].email == email
  }

  /** Some user has this username. */
  predicate UsernameRegistered(s: UserStore, username: string)
  {
    exists id :: id in s.users && s.users[id].username == username
  }

  /** No two users share an email. */
  predicate UniqueEmails(s: UserStore)
  {
    forall i, j :: i in s.users && j in s.users && i != j ==> s.users[i].email != s.users[j].email
  }

  /** No two users share a username. */
  predicate UniqueUsernames(s: UserStore)
  {
    forall i, j :: i in s.users && j in s.users && i != j ==> s.users[i].username != s.users[j].username
  }

  /** No two users share an email, and no two share a username. */
  predicate UniqueCredentials(s: UserStore)
  {
    UniqueEmails(s) && UniqueUsernames(s)
  }

  /** Keys of the users with this email. */
  function EmailMatches(s: UserStore, email: string): set<int>
  {
    set id | id in s.users && s.users[id].email == email
  }

  /** Keys of the users with this username. */
  function UsernameMatches(s: UserStore, username: string): set<int>
  {
    set id | id in s.users && s.users[id].username == username
  }

  /** The first user with this email (first by key), if any. */
  function GetUserByEmail(s: UserStore, email: string): (r: Option<User>)
    ensures r.Some? <==> EmailRegistered(s, email)
    ensures r.Some? ==> r.value in s.users.Values && r.value.email == email
    ensures UniqueEmails(s) ==> forall id :: id in s.users && s.users[id].email == email ==> r == Some(s.users[id])
  {
    var ids := EmailMatches(s, email);
    if ids == {} then
      assert forall id :: id in s.users && s.users[id].email == email ==> id in ids;
      None
    else
      var m := Keys.Min(ids);
      assert m in s.users;
      Some(s.users[m])
  }

  /** The first user with this username (first by key), if any. */
  function GetUserByUsername(s: UserStore, username: string): (r: Option<User>)
    ensures r.Some? <==> UsernameRegistered(s, username)
    ensures r.Some? ==> r.value in s.users.Values && r.value.username == username
    ensures UniqueUsernames(s) ==> forall id :: id in s.users && s.users[id].username == username ==> r == Some(s.users[id])
  {
    var ids := UsernameMatches(s, username);
    if ids == {} then
      assert forall id :: id in s.users && s.users[id].username == username ==> id in ids;
      None
    else
      var m := Keys.Min(ids);
      assert m in s.users;
      Some(s.users[m])
  }

  /** Registers a user: the email must be new (checked first), then the username;
      the stored record keeps `hash(password)`. `newId` is the key the database hands out. */
  function CreateUser(s: UserStore, input: UserCreate, newId: int, hash: string -> string)
    : (r: Result<(UserStore, User), HttpError>)
    requires newId !in s.users
    ensures EmailRegistered(s, input.email) ==> r == Failure(HttpError(BadRequest, EmailTaken))
    ensures !EmailRegistered(s, input.email) && UsernameRegistered(s, input.username) ==>
              r == Failure(HttpError(BadRequest, UsernameTaken))
    ensures r.Success? <==> !EmailRegistered(s, input.email) && !UsernameRegistered(s, input.username)
    ensures r.Success? ==>
      var (s', u) := r.value;
      && u == User(newId, input.email, input.username, hash(input.password))
      && s'.users.Keys == s.users.Keys + {newId}
      && s'.users[newId] == u
      && (forall id :: id in s.users ==> s'.users[id] == s.users[id])
  {
    if GetUserByEmail(s, input.email).Some? then Failure(HttpError(BadRequest, EmailTaken))
    else if GetUserByUsername(s, input.username).Some? then Failure(HttpError(BadRequest, UsernameTaken))
    else
      var u := User(newId, input.email, input.username, hash(input.password));
      Success((UserStore(s.users[newId := u]), u))
  }

  /** Logs in: an unknown email and a wrong password raise the same 401 with the same
      text; on success the token's subject is the user's email and it lives for the
      configured number of minutes. `verify` checks a password against a stored hash;
      `issue(subject, minutes)` signs a token. */
  function AuthenticateUser(s: UserStore, login: UserLogin,
                            verify: (string, string) -> bool, issue: (string, int) -> string)
    : (r: Result<Token, HttpError>)
    ensures r.Failure? ==> r.error == HttpError(Unauthorized, BadCredentials)
    ensures !EmailRegistered(s, login.email) ==> r.Failure?
    ensures r.Success? ==>
              && r.value == Token(issue(login.email, Config.AccessTokenExpireMinutes), Bearer)
              && exists id :: id in s.users && s.users[id].email == login.email
                              && verify(login.password, s.users[id].hashedPassword)
    ensures UniqueEmails(s) ==>
              forall id :: id in s.users && s.users[id].email == login.email ==>
                (r.Success? <==> verify(login.password, s.users[id].hashedPassword))
  {
    match GetUserByEmail(s, login.email)
    case None => Failure(HttpError(Unauthorized, BadCredentials))
    case Some(user) =>
      if !verify(login.password, user.hashedPassword) then Failure(HttpError(Unauthorized, BadCredentials))
      else Success(Token(issue(user.email, Config.AccessTokenExpireMinutes), Bearer))
  }
}
