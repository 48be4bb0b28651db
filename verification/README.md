# Owner-scoped task store and registration/login rules

This project models the core of a multi-user to-do service: the task and subtask
service, which scopes every read and write to the task's owner, and the user
service, which registers users and logs them in. The database is replaced by
immutable maps. Every operation is a pure function. It returns either the new
store together with the answer, or the HTTP error the service raises. A failed
operation changes nothing, because the caller keeps the store it had. This is
how the model treats the transaction roll-back.

Modules:

- `Wrappers`: `Option` and `Result`.
- `Errors`: `HttpError(status, detail)` and the status codes 400, 401 and 404.
- `Config`: the default token lifetime of 30 minutes.
- `Keys`: the least key of a set, and the keys of a set in ascending order.
- `Query`: the `OFFSET`/`LIMIT` window of a query.
- `TaskModel`: the `Task` and `Subtask` rows and the create and update request
  bodies with their defaults. It also defines the response body and the
  `TaskStore` of two tables, with its invariant `Valid`. `Valid` says that every
  row sits under its own key and that every subtask's parent task exists.
- `TaskService`: `create_task`, `get_user_tasks`, `get_user_tasks_by_status`,
  `get_task`, `update_task`, `delete_task`, `validate_task_ownership`,
  `get_subtask`, `create_subtask`, `update_subtask` and `delete_subtask`.
- `TaskProperties`: lemmas that relate these operations to each other. They
  cover ownership isolation, round trips, the completion cascade, idempotence,
  preservation of `Valid`, and the exact contents of listings.
- `UserService`: `get_user_by_email`, `get_user_by_username`, `create_user` and
  `authenticate_user`.
- `UserProperties`: uniqueness preservation, duplicate rejection, register then
  log in, and the fact that the two login failures cannot be told apart.
- `Scenario`: an end-to-end scenario, written as a trace of calls. Alice and Bob register. A third registration
  reuses Alice's email. Alice fails to log in with a wrong password. Bob cannot
  see Alice's task. Completing the task completes its subtask.

Modelling choices:

- Nullable columns are `Option`s. An update request may send an explicit null,
  and the service copies it into the row. So a task's title, dates and
  `completed` flag can all become null after creation. Each update field is
  `Absent | Present(value)`. The cascade fires only on `Present(Some(true))`,
  mirroring `value is True`.
- Timestamps are integers. The creation time `now` and the fresh primary keys
  that the database hands out are parameters, and each fresh key must be unused.
- Password hashing, password verification and token signing are function
  parameters (`hash`, `verify`, `issue`). Nothing is assumed about them, except
  where a lemma states a hypothesis such as `verify(p, hash(p))`. As Dafny
  functions they are deterministic, while the real hash draws a fresh salt on
  every call and token issuance reads the clock for the expiry; each call's
  parameter stands for the function as it behaves in that one call, and no
  lemma compares two calls' results.
- `get_user_tasks` has no `ORDER BY`, and `.first()` picks an unspecified row.
  The model lists rows in key order and takes the least key. The contracts do
  not depend on these choices.
- `ORDER BY created_at DESC` is modelled by an insertion sort. Rows with equal creation times
  may come in any order; the contracts only promise that `created_at` never
  increases along the result.

Two behaviours of the code worth knowing:

- A task whose `completed` was set to null is listed under neither status.
- `create_user` returns the stored record, hash included. Removing the hash from
  the response happens at the HTTP layer, which this model does not include.

## Model

| member | source | states |
|---|---|---|
| Query.Page | backend/app/services/task_service.py:44-45 | the result is the window of `limit` rows starting at row `skip`, shorter only where the rows run out |
| TaskService.CreateTask | backend/app/services/task_service.py:8-14 | exactly one task is added, under the fresh key; it is owned by the caller, copies the request's fields, and is stamped with the clock reading; the subtasks do not change |
| TaskService.GetUserTasks | backend/app/services/task_service.py:16-18 | every row returned belongs to the caller and, in a valid store, appears at most once; the count is the caller's task count after skipping `skip`, capped at `limit`; a first page that is large enough holds every one of the caller's tasks |
| TaskService.SortNewestFirst | backend/app/services/task_service.py:43 | the result is a permutation of its input in which `created_at` never increases |
| TaskService.StatusListing | backend/app/services/task_service.py:40-47 | before paging, the listing is newest first, has one entry per matching task, and holds only the caller's tasks with that status |
| TaskService.GetUserTasksByStatus | backend/app/services/task_service.py:20-47 | every row is the caller's, with `completed` equal to the requested flag; rows are newest first; the result is the window `[skip, skip+limit)` of the full status listing, with a matching length |
| TaskService.GetTask | backend/app/services/task_service.py:49-57 | succeeds exactly when the task exists and the caller owns it, and then returns the stored row; otherwise 404 "Tarea no encontrada" |
| TaskService.UpdateTask | backend/app/services/task_service.py:59-74 | a non-owner gets 404. For the owner: fields present in the patch take the sent value (null included), and absent fields keep their value. Key, owner and creation time never change, and no other task changes. If the patch sets `completed` to true, every subtask of the task is completed; otherwise every subtask is untouched |
| TaskService.DeleteTask | backend/app/services/task_service.py:76-83 | a non-owner gets 404; for the owner, the task and exactly the subtasks whose parent it is are removed, and every other row stays unchanged |
| TaskService.ValidateTaskOwnership | backend/app/services/task_service.py:85-93 | succeeds exactly when the caller owns the task; otherwise 404 with the parent-task message |
| TaskService.GetSubtask | backend/app/services/task_service.py:95-103 | succeeds exactly when the subtask exists and its parent is the given task; otherwise 404 "Subtarea no encontrada" |
| TaskService.CreateSubtask | backend/app/services/task_service.py:105-114 | 404 unless the caller owns the parent. On success exactly one subtask is added, under the fresh key, with its parent set to the task and its title and flag taken from the request. Tasks and other subtasks do not change |
| TaskService.UpdateSubtask | backend/app/services/task_service.py:116-127 | succeeds exactly when the caller owns the task and the subtask hangs under it; the ownership failure is checked first and has its own message; only that subtask's flag changes, and no task changes |
| TaskService.DeleteSubtask | backend/app/services/task_service.py:129-138 | same two checks as for updating a subtask; on success exactly that subtask is removed, and no task changes |
| TaskService.ToResponse | backend/app/schemas/task.py:34-40 | the response carries the task with its owner, and lists each subtask whose parent is that task exactly once (as many entries as children); the list is empty when there are none |
| TaskProperties.ForeignTaskLooksMissing | backend/app/services/task_service.py:16-93 | for every task and subtask operation, both listings included, a user who does not own a task gets the same answer as if the task did not exist |
| TaskProperties.WrongParentNotFound | backend/app/services/task_service.py:119-122 | a subtask addressed under a task that is not its parent is not found, even when the caller owns that task |
| TaskProperties.CreatedTaskVisibleOnlyToOwner | backend/app/services/task_service.py:8-14 | a new task is returned by `get_task` to its owner and to no one else |
| TaskProperties.TitleOnlyTaskIsPending | backend/app/schemas/task.py:19-25 | a task created from a title alone has `completed` false, no dates, the creation time and the caller as owner |
| TaskProperties.CreateThenDeleteTask | backend/app/services/task_service.py:76-83 | in a valid store, deleting a task just created gives back the original store |
| TaskProperties.DeleteTaskRemovesChildren | backend/app/models/task.py:19 | after a delete, the task has no subtasks left, each former subtask is not found, and no other subtask is removed |
| TaskProperties.CreateThenDeleteSubtask | backend/app/services/task_service.py:129-138 | deleting a subtask just created gives back the original store |
| TaskProperties.TitleOnlySubtaskIsPending | backend/app/schemas/task.py:5-10 | a subtask created from a title alone has `completed` false and becomes one more child of its parent |
| TaskProperties.CascadeCompletesEveryChild | backend/app/services/task_service.py:67-70 | after a patch that completes a task, the task is completed and so is every one of its subtasks |
| TaskProperties.CompletedTaskRespondsCompleted | backend/app/services/task_service.py:59-74 | in a valid store, the response returned after a patch that completes a task shows the task completed and every subtask it lists completed |
| TaskProperties.NoCascadeWithoutCompletion | backend/app/services/task_service.py:67-70 | a patch that does not set `completed` to true, such as reopening the task, leaves the subtask table unchanged |
| TaskProperties.EmptyUpdateChangesNothing | backend/app/schemas/task.py:28-32 | a patch with no field set leaves the store unchanged and returns the task as stored |
| TaskProperties.UpdateTaskIdempotent | backend/app/services/task_service.py:59-74 | applying the same patch a second time gives the same store and the same answer |
| TaskProperties.SubtaskUpdateLeavesParent | backend/app/services/task_service.py:116-127 | setting a subtask's flag leaves its parent's flag alone, and the subtask then reads back with the new flag |
| TaskProperties.UpdateSubtaskIdempotent | backend/app/services/task_service.py:116-127 | setting a subtask's flag again to the same value changes nothing further and gives the same answer |
| TaskProperties.OwnersNeverReassigned | backend/app/models/task.py:15 | no successful update, delete or subtask operation changes the owner of any task that remains |
| TaskProperties.CreateTaskKeepsValid | backend/app/models/task.py:9-15 | creating a task keeps every row under its own key and every subtask under an existing task |
| TaskProperties.UpdateTaskKeepsValid | backend/app/services/task_service.py:59-74 | updating a task keeps the store invariant |
| TaskProperties.DeleteTaskKeepsValid | backend/app/models/task.py:19 | deleting a task together with its subtasks leaves no orphaned subtask |
| TaskProperties.CreateSubtaskKeepsValid | backend/app/models/task.py:24-27 | a new subtask hangs under an existing task |
| TaskProperties.UpdateSubtaskKeepsValid | backend/app/services/task_service.py:116-127 | updating a subtask keeps the store invariant |
| TaskProperties.DeleteSubtaskKeepsValid | backend/app/services/task_service.py:129-138 | deleting a subtask keeps the store invariant |
| TaskProperties.StatusListingExact | backend/app/services/task_service.py:42 | the status listing holds only stored rows, and a stored task is in it if and only if the caller owns it and its `completed` equals the requested flag |
| TaskProperties.FullPageListsAllOwned | backend/app/services/task_service.py:18 | a first page large enough for all of them holds only stored rows, and lists a stored task if and only if the caller owns it |
| UserService.GetUserByEmail | backend/app/services/user_service.py:10-12 | finds a user exactly when one has that email, and the user found has it; when emails are unique, it is that user |
| UserService.GetUserByUsername | backend/app/services/user_service.py:14-16 | finds a user exactly when one has that username, and the user found has it; when usernames are unique, it is that user |
| UserService.CreateUser | backend/app/services/user_service.py:18-46 | a taken email gives 400 "El email ya está registrado" whatever the username. Otherwise a taken username gives 400 "El nombre de usuario ya está en uso". Otherwise exactly one user is added, with the given email and username and `hash(password)` as its stored password; no other user changes |
| UserService.AuthenticateUser | backend/app/services/user_service.py:48-74 | every failure is 401 "Email o contraseña incorrectos", and an unknown email fails. On success the token is a bearer token signed for the user's email with the default 30-minute lifetime. With unique emails (usernames play no part), login succeeds exactly when the password verifies against the stored hash. Login returns no new store, so it changes nothing |
| UserProperties.CreateUserKeepsUnique | backend/app/services/user_service.py:18-46 | if emails and usernames are unique before a successful registration, they are unique after it |
| UserProperties.SecondRegistrationRejected | backend/app/services/user_service.py:20-32 | after a registration, the same email is refused with the email error whatever the username, and the same username under a new email is refused with the username error |
| UserProperties.RegisterThenLogin | backend/app/services/user_service.py:64-74 | in any store, if verification accepts a password against its own hash, logging in right after a successful registration succeeds with a token for the registered email |
| UserProperties.LoginFailuresIndistinguishable | backend/app/services/user_service.py:52-62 | in a store with unique emails, an unknown email and a wrong password produce identical answers |
| Scenario.RegistrationScenario | backend/app/services/user_service.py:18-62 | two distinct registrations succeed; a third with a taken email gets the email error; a wrong password gets the 401 |
| Scenario.CascadeScenario | backend/app/services/task_service.py:59-114 | another user cannot read a new task; completing it completes the subtask added to it |

## Left out

- Token validation and resolving the current user from a token live in a security module that is not part of this model. So do bcrypt hashing and JWT signing; the model sees them only through the `hash`, `verify` and `issue` parameters.
- The HTTP routers (`api/tasks.py`, `api/auth.py`) are not modelled. `api/tasks.py` turns the token's email into a user without checking that one was found, then forwards the call. `api/auth.py` forwards registration and login bodies unchanged, and its `/me` endpoint does its own lookup, answering 404 "Usuario no encontrado" for an unknown email. None of this is core.
- The database engine, sessions, environment loading, application bootstrap and CORS are input/output and are not modelled.
- Transactions, commit/refresh and concurrent requests are not modelled. This includes the race between the uniqueness checks and the insert at registration. The model is sequential; a failed call simply returns no new store.
- The foreign key from `tasks.user_id` to `users.id` is not modelled: the task store and the user store are separate values.
- Negative `skip` or `limit` are rejected by the database; the model takes both as natural numbers. The service defaults `skip = 0` and `limit = 100` are not modelled as defaults: the routers always pass both values, so the model takes them as ordinary parameters.
- Real `datetime` values are not modelled; timestamps are integers. Pydantic validation of request bodies is also left out, and so is response validation. A row whose title or `completed` was set to null fails the `Task` response schema after the commit; `TaskService.ToResponse` still builds a response for it.
- TaskService.GetUserTasks: the query promises no row order, so the contract promises none either; the key order used inside the model is one admissible order.
- TaskService.GetUserTasksByStatus: rows created at the same instant may come in any order in the source; the contract fixes only the non-increasing `created_at` order.
