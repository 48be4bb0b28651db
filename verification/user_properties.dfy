/** Properties of registration and login across calls. */
module UserProperties {
  import opened Wrappers
  import opened Errors
  import opened UserService
  import Config

  /** A successful registration keeps emails and usernames unique. */
  lemma {:induction false} CreateUserKeepsUnique(s: UserStore, input: UserCreate, newId: int, hash: string -> string)
    requires UniqueCredentials(s)
    requires newId !in s.users
    requires CreateUser(s, input, newId, hash).Success?
    ensures UniqueCredentials(CreateUser(s, input, newId, hash).value.0)
  {
    var s' := CreateUser(s, input, newId, hash).value.0;
    forall i, j | i in s'.users && j in s'.users && i != j
      ensures s'.users[i].email != s'.users[j].email && s'.users[i].username != s'.users[j].username
    {
      if i == newId {
        assert s'.users[j] == s.users[j];
      } else if j == newId {
        assert s'.users[i] == s.users[i];
      }
    }
  }

  /** Once a user is registered, registering the same email again fails with the email
      error whatever the username, and registering the same username under a new email
      fails with the username error. */
  lemma {:induction false} SecondRegistrationRejected(s: UserStore, input: UserCreate, newId: int, hash: string -> string,
                                                      again: UserCreate, otherId: int)
    requires newId !in s.users
    requires CreateUser(s, input, newId, hash).Success?
    requires otherId !in CreateUser(s, input, newId, hash).value.0.users
    ensures var s' := CreateUser(s, input, newId, hash).value.0;
            again.email == input.email ==>
              CreateUser(s', again, otherId, hash) == Failure(HttpError(BadRequest, EmailTaken))
    ensures var s' := CreateUser(s, input, newId, hash).value.0;
            again.email != input.email && again.username == input.username && !EmailRegistered(s, again.email) ==>
              CreateUser(s', again, otherId, hash) == Failure(HttpError(BadRequest, UsernameTaken))
  {
    var s' := CreateUser(s, input, newId, hash).value.0;
    assert s'.users[newId].email == input.email && s'.users[newId].username == input.username;
    if again.email != input.email && !EmailRegistered(s, again.email) {
      forall id | id in s'.users
        ensures s'.users[id].email != again.email
      {
        if id != newId {
          assert s'.users[id] == s.users[id];
        }
      }
    }
  }

  /** Registering and then logging in with the same password succeeds, provided the
      hasher's verification accepts a password against its own hash; the token's
      subject is the registered email. */
  lemma {:induction false} RegisterThenLogin(s: UserStore, input: UserCreate, newId: int,
                                             hash: string -> string, verify: (string, string) -> bool,
                                             issue: (string, int) -> string)
    requires newId !in s.users
    requires CreateUser(s, input, newId, hash).Success?
    requires verify(input.password, hash(input.password))
    ensures AuthenticateUser(CreateUser(s, input, newId, hash).value.0, UserLogin(input.email, input.password), verify, issue)
         == Success(Token(issue(input.email, Config.AccessTokenExpireMinutes), Bearer))
  {
    var s' := CreateUser(s, input, newId, hash).value.0;
    assert s'.users[newId].email == input.email;
    assert EmailMatches(s', input.email) == {newId};
    assert GetUserByEmail(s', input.email) == Some(s'.users[newId]);
  }

  /** An unknown email and a known email with a wrong password get the same answer. */
  lemma LoginFailuresIndistinguishable(s: UserStore, unknown: UserLogin, wrong: UserLogin,
                                       verify: (string, string) -> bool, issue: (string, int) -> string)
    requires !EmailRegistered(s, unknown.email)
    requires UniqueEmails(s)
    requires exists id :: id in s.users && s.users[id].email == wrong.email
                          && !verify(wrong.password, s.users[id].hashedPassword)
    ensures AuthenticateUser(s, unknown, verify, issue) == AuthenticateUser(s, wrong, verify, issue)
                                                      == Failure(HttpError(Unauthorized, BadCredentials))
  {
  }
}
