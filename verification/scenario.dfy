/** An end-to-end scenario, as a trace of calls: two registrations, a duplicate one, a failed
    login, and a task whose completion completes its subtask. */
module Scenario {
  import opened Wrappers
  import opened Errors
  import opened TaskModel
  import opened TaskService
  import opened UserService

  const Alice := UserCreate("alice@x.com", "alice", "pw1")
  const Bob := UserCreate("bob@x.com", "bob", "pw2")
  const Carol := UserCreate("alice@x.com", "carol", "pw3")

  /** Registration and login, whatever the hasher does, as long as it rejects a wrong password. */
  lemma {:induction false} RegistrationScenario(hash: string -> string, verify: (string, string) -> bool,
                                                issue: (string, int) -> string)
    requires !verify("wrong", hash("pw1"))
    ensures var r1 := CreateUser(UserStore(map[]), Alice, 1, hash);
            && r1.Success?
            && var r2 := CreateUser(r1.value.0, Bob, 2, hash);
            && r2.Success?
            && CreateUser(r2.value.0, Carol, 3, hash) == Failure(HttpError(BadRequest, EmailTaken))
            && AuthenticateUser(r2.value.0, UserLogin("alice@x.com", "wrong"), verify, issue)
               == Failure(HttpError(Unauthorized, BadCredentials))
  {
    var s0 := UserStore(map[]);
    var s1 := CreateUser(s0, Alice, 1, hash).value.0;
    assert s1.users == map[1 := User(1, "alice@x.com", "alice", hash("pw1"))];
    assert !EmailRegistered(s1, Bob.email) && !UsernameRegistered(s1, Bob.username);
    var s2 := CreateUser(s1, Bob, 2, hash).value.0;
    assert s2.users[1].email == "alice@x.com";
    assert GetUserByEmail(s2, "alice@x.com") == Some(s2.users[1]);
  }

  /** Alice's task is invisible to Bob, and completing it completes the subtask she added. */
  lemma {:induction false} CascadeScenario()
    ensures var (s1, task) := CreateTask(TaskStore(map[], map[]), TitleOnly("Buy milk"), 1, 10, 100);
            && task.completed == Some(false)
            && GetTask(s1, 10, 2) == Failure(HttpError(NotFound, TaskNotFound))
            && var r2 := CreateSubtask(s1, 10, 1, SubtaskTitleOnly("2%"), 20);
            && r2.Success? && !r2.value.1.completed
            && var r3 := UpdateTask(r2.value.0, 10, 1, EmptyUpdate.(completed := Present(Some(true))));
            && r3.Success?
            && GetSubtask(r3.value.0, 20, 10) == Success(Subtask(20, "2%", true, 10))
  {
  }
}
