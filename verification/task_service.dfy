/** Owner-scoped task and subtask operations. Each operation takes the store and
    returns either the new store (with the answer) or the error it raises; a failed
    operation changes nothing, since the caller keeps the store it had. */
module TaskService {
  import opened Wrappers
  import opened Errors
  import opened TaskModel
  import Keys
  import Query

  const TaskNotFound := "Tarea no encontrada"
  const ParentNotFound := "Tarea principal no encontrada o no tienes permiso para acceder a ella"
  const SubtaskNotFound := "Subtarea no encontrada"

  /** Task `taskId` exists and belongs to `userId`. */
  predicate Owns(s: TaskStore, taskId: int, userId: int)
  {
    taskId in s.tasks && s.tasks[taskId].userId == userId
  }

  // ---------------------------------------------------------------- create

  /** Adds a task owned by `userId`; `newId` is the key the database hands out and
      `now` the clock reading taken for `created_at`. */
  function CreateTask(s: TaskStore, input: TaskCreate, userId: int, newId: int, now: int): (r: (TaskStore, Task))
    requires newId !in s.tasks
    ensures r.0.tasks.Keys == s.tasks.Keys + {newId}
    ensures r.0.tasks[newId] == r.1
    ensures forall id :: id in s.tasks ==> r.0.tasks[id] == s.tasks[id]
    ensures r.0.subtasks == s.subtasks
    ensures r.1.id == newId && r.1.userId == userId && r.1.createdAt == now
    ensures r.1.title == Some(input.title) && r.1.completed == Some(input.completed)
    ensures r.1.startDate == input.startDate && r.1.endDate == input.endDate
  {
    var t := Task(newId, Some(input.title), input.startDate, input.endDate, Some(input.completed), now, userId);
    (TaskStore(s.tasks[newId := t], s.subtasks), t)
  }

  // ---------------------------------------------------------------- listing

  /** Keys of the tasks owned by `userId`. */
  function OwnedIds(s: TaskStore, userId: int): set<int>
  {
    set id | id in s.tasks && s.tasks[id].userId == userId
  }

  /** Keys of the tasks owned by `userId` whose `completed` column equals `completed`
      (a null column equals neither value). */
  function StatusIds(s: TaskStore, userId: int, completed: bool): set<int>
  {
    set id | id in s.tasks && s.tasks[id].userId == userId && s.tasks[id].completed == Some(completed)
  }

  /** The rows under the keys `ids`, in that order. */
  function Rows(s: TaskStore, ids: seq<int>): (r: seq<Task>)
    requires forall i :: 0 <= i < |ids| ==> ids[i] in s.tasks
    ensures |r| == |ids|
    ensures forall i :: 0 <= i < |r| ==> r[i] == s.tasks[ids[i]] && r[i] in s.tasks.Values
  {
    seq(|ids|, i requires 0 <= i < |ids| => s.tasks[ids[i]])
  }

  /** Every key listed in `ids` contributes its row to `Rows(s, ids)`. */
  lemma RowsCoverKeys(s: TaskStore, ids: seq<int>)
    requires forall i :: 0 <= i < |ids| ==> ids[i] in s.tasks
    ensures forall id :: id in ids ==> s.tasks[id] in Rows(s, ids)
  {
    var rows := Rows(s, ids);
    forall id | id in ids
      ensures s.tasks[id] in rows
    {
      var i :| 0 <= i < |ids| && ids[i] == id;
      assert rows[i] == s.tasks[id];
    }
  }

  /** The tasks of `userId`, `skip` rows skipped and at most `limit` returned. The
      query has no ORDER BY; rows come in key order here. */
  function GetUserTasks(s: TaskStore, userId: int, skip: nat, limit: nat): (r: seq<Task>)
    ensures |r| == if skip >= |OwnedIds(s, userId)| then 0 else Query.Min(limit, |OwnedIds(s, userId)| - skip)
    ensures forall i :: 0 <= i < |r| ==> r[i] in s.tasks.Values && r[i].userId == userId
    ensures skip == 0 && |OwnedIds(s, userId)| <= limit ==>
              forall id :: id in OwnedIds(s, userId) ==> s.tasks[id] in r
    ensures Valid(s) ==> forall i, j :: 0 <= i < j < |r| ==> r[i] != r[j]
  {
    var ids := Keys.Ascending(OwnedIds(s, userId));
    RowsCoverKeys(s, ids);
    var r := Query.Page(Rows(s, ids), skip, limit);
    assert Valid(s) ==> forall i :: 0 <= i < |r| ==> r[i].id == ids[skip + i];
    r
  }

  /** Newest first: `created_at` never increases along `ts`. */
  predicate NewestFirst(ts: seq<Task>)
  {
    forall i, j :: 0 <= i < j < |ts| ==> ts[i].createdAt >= ts[j].createdAt
  }

  /** When `t` is older than the head of `ts`, whatever `t` and the tail of `ts`
      are rearranged into is no newer than that head. */
  lemma NoNewerThanHead(t: Task, ts: seq<Task>, rest: seq<Task>)
    requires NewestFirst(ts) && |ts| > 0
    requires t.createdAt < ts[0].createdAt
    requires multiset(rest) == multiset(ts[1..]) + multiset{t}
    ensures forall j :: 0 <= j < |rest| ==> rest[j].createdAt <= ts[0].createdAt
  {
    forall j | 0 <= j < |rest|
      ensures rest[j].createdAt <= ts[0].createdAt
    {
      assert rest[j] in multiset(rest);
      if rest[j] != t {
        assert rest[j] in multiset(ts[1..]);
        var k :| 0 <= k < |ts[1..]| && ts[1..][k] == rest[j];
        assert ts[k + 1] == rest[j];
      }
    }
  }

  /** Puts `t` into the newest-first list `ts`, ahead of any row created at the same time. */
  function Insert(t: Task, ts: seq<Task>): (r: seq<Task>)
    requires NewestFirst(ts)
    ensures NewestFirst(r)
    ensures multiset(r) == multiset(ts) + multiset{t}
  {
    if |ts| == 0 then [t]
    else if t.createdAt >= ts[0].createdAt then [t] + ts
    else
      var rest := Insert(t, ts[1..]);
      NoNewerThanHead(t, ts, rest);
      assert ts == [ts[0]] + ts[1..];
      [ts[0]] + rest
  }

  /** `ORDER BY created_at DESC`: the same rows, newest first. */
  function SortNewestFirst(ts: seq<Task>): (r: seq<Task>)
    ensures NewestFirst(r)
    ensures multiset(r) == multiset(ts)
  {
    if |ts| == 0 then []
    else
      assert ts == [ts[0]] + ts[1..];
      Insert(ts[0], SortNewestFirst(ts[1..]))
  }

  /** A sorted copy has the same length and the same members as the original. */
  lemma SortKeepsMembers(ts: seq<Task>)
    ensures |SortNewestFirst(ts)| == |ts|
    ensures forall t :: t in SortNewestFirst(ts) <==> t in ts
  {
    var r := SortNewestFirst(ts);
    assert |multiset(r)| == |multiset(ts)|;
    forall t
      ensures t in r <==> t in ts
    {
      assert t in r <==> t in multiset(r);
      assert t in ts <==> t in multiset(ts);
    }
  }

  /** Task `t` is a row of the store, owned by `userId`, with the given status. */
  predicate Listed(s: TaskStore, userId: int, completed: bool, t: Task)
  {
    t in s.tasks.Values && t.userId == userId && t.completed == Some(completed)
  }

  /** Sorting rows that all satisfy `Listed` gives rows that all satisfy `Listed`. */
  lemma SortedRowsListed(s: TaskStore, userId: int, completed: bool, rows: seq<Task>)
    requires forall i :: 0 <= i < |rows| ==> Listed(s, userId, completed, rows[i])
    ensures forall i :: 0 <= i < |SortNewestFirst(rows)| ==> Listed(s, userId, completed, SortNewestFirst(rows)[i])
  {
    SortKeepsMembers(rows);
    var r := SortNewestFirst(rows);
    forall i | 0 <= i < |r|
      ensures Listed(s, userId, completed, r[i])
    {
      assert r[i] in rows;
    }
  }

  /** All tasks of `userId` with the given status, newest first, before paging. */
  function StatusListing(s: TaskStore, userId: int, completed: bool): (r: seq<Task>)
    ensures NewestFirst(r)
    ensures |r| == |StatusIds(s, userId, completed)|
    ensures forall i :: 0 <= i < |r| ==> Listed(s, userId, completed, r[i])
    ensures forall id :: id in StatusIds(s, userId, completed) ==> s.tasks[id] in r
  {
    var ids := Keys.Ascending(StatusIds(s, userId, completed));
    var rows := Rows(s, ids);
    RowsCoverKeys(s, ids);
    SortKeepsMembers(rows);
    SortedRowsListed(s, userId, completed, rows);
    SortNewestFirst(rows)
  }

  /** The tasks of `userId` with the given status, newest first, `skip` rows skipped
      and at most `limit` returned. */
  function GetUserTasksByStatus(s: TaskStore, userId: int, completed: bool, skip: nat, limit: nat): (r: seq<Task>)
    ensures var n := |StatusIds(s, userId, completed)|;
              |r| == if skip >= n then 0 else Query.Min(limit, n - skip)
    ensures forall i :: 0 <= i < |r| ==> Listed(s, userId, completed, r[i])
    ensures NewestFirst(r)
    ensures forall i :: 0 <= i < |r| ==>
              skip + i < |StatusListing(s, userId, completed)| && r[i] == StatusListing(s, userId, completed)[skip + i]
  {
    var all := StatusListing(s, userId, completed);
    PageNewestFirst(all, skip, limit);
    PageListed(s, userId, completed, all, skip, limit);
    Query.Page(all, skip, limit)
  }

  /** A window of rows that all satisfy `Listed` holds only such rows. */
  lemma PageListed(s: TaskStore, userId: int, completed: bool, all: seq<Task>, skip: nat, limit: nat)
    requires forall i :: 0 <= i < |all| ==> Listed(s, userId, completed, all[i])
    ensures forall i :: 0 <= i < |Query.Page(all, skip, limit)| ==> Listed(s, userId, completed, Query.Page(all, skip, limit)[i])
  {
    var r := Query.Page(all, skip, limit);
    forall i | 0 <= i < |r|
      ensures Listed(s, userId, completed, r[i])
    {
      assert r[i] == all[skip + i];
    }
  }

  /** A window of a newest-first list is newest first. */
  lemma PageNewestFirst(all: seq<Task>, skip: nat, limit: nat)
    requires NewestFirst(all)
    ensures NewestFirst(Query.Page(all, skip, limit))
  {
    var r := Query.Page(all, skip, limit);
    forall i, j | 0 <= i < j < |r|
      ensures r[i].createdAt >= r[j].createdAt
    {
      assert r[i] == all[skip + i] && r[j] == all[skip + j];
    }
  }

  // ---------------------------------------------------------------- single task

  /** Task `taskId` if `userId` owns it. A missing task and another user's task give the same error. */
  function GetTask(s: TaskStore, taskId: int, userId: int): (r: Result<Task, HttpError>)
    ensures r.Success? <==> Owns(s, taskId, userId)
    ensures r.Success? ==> r.value == s.tasks[taskId]
    ensures r.Failure? ==> r.error == HttpError(NotFound, TaskNotFound)
  {
    if Owns(s, taskId, userId) then Success(s.tasks[taskId])
    else Failure(HttpError(NotFound, TaskNotFound))
  }

  /** The ownership check that guards every subtask operation; only its message differs from `GetTask`. */
  function ValidateTaskOwnership(s: TaskStore, taskId: int, userId: int): (r: Result<Task, HttpError>)
    ensures r.Success? <==> Owns(s, taskId, userId)
    ensures r.Success? ==> r.value == s.tasks[taskId]
    ensures r.Failure? ==> r.error == HttpError(NotFound, ParentNotFound)
  {
    if Owns(s, taskId, userId) then Success(s.tasks[taskId])
    else Failure(HttpError(NotFound, ParentNotFound))
  }

  /** The task `t` after the fields set in `u` are copied onto it. */
  function ApplyUpdate(t: Task, u: TaskUpdate): Task
  {
    t.(title := u.title.Or(t.title),
       startDate := u.startDate.Or(t.startDate),
       endDate := u.endDate.Or(t.endDate),
       completed := u.completed.Or(t.completed))
  }

  /** The patch sets `completed` to true (not to null, not to false). */
  predicate CompletesTask(u: TaskUpdate)
  {
    u.completed == Present(Some(true))
  }

  /** Every subtask of `taskId` marked completed; all other rows as they were. */
  function CompleteChildren(subtasks: map<int, Subtask>, taskId: int): map<int, Subtask>
  {
    map id | id in subtasks ::
      if subtasks[id].taskId == taskId then subtasks[id].(completed := true) else subtasks[id]
  }

  /** Merge-patch of task `taskId` on behalf of `userId`; setting `completed` to true
      completes every subtask of the task as part of the same update. */
  function UpdateTask(s: TaskStore, taskId: int, userId: int, u: TaskUpdate): (r: Result<(TaskStore, Task), HttpError>)
    ensures r.Success? <==> Owns(s, taskId, userId)
    ensures r.Failure? ==> r.error == HttpError(NotFound, TaskNotFound)
    ensures r.Success? ==>
      var (s', t) := r.value;
      var before := s.tasks[taskId];
      // the patched task: owner, key and creation time kept, set fields taken, absent fields kept
      && s'.tasks == s.tasks[taskId := t]
      && t.id == before.id && t.userId == before.userId && t.createdAt == before.createdAt
      && (u.title.Present? ==> t.title == u.title.value)
      && (u.title.Absent? ==> t.title == before.title)
      && (u.startDate.Present? ==> t.startDate == u.startDate.value)
      && (u.startDate.Absent? ==> t.startDate == before.startDate)
      && (u.endDate.Present? ==> t.endDate == u.endDate.value)
      && (u.endDate.Absent? ==> t.endDate == before.endDate)
      && (u.completed.Present? ==> t.completed == u.completed.value)
      && (u.completed.Absent? ==> t.completed == before.completed)
      // the subtasks: same rows; only the completed flag of this task's children may change
      && s'.subtasks.Keys == s.subtasks.Keys
      && (forall id :: id in s.subtasks ==>
            s'.subtasks[id] == s.subtasks[id].(completed := s'.subtasks[id].completed))
      && (forall id :: id in s.subtasks && s.subtasks[id].taskId == taskId && CompletesTask(u) ==>
            s'.subtasks[id].completed)
      && (forall id :: id in s.subtasks && (s.subtasks[id].taskId != taskId || !CompletesTask(u)) ==>
            s'.subtasks[id] == s.subtasks[id])
  {
    if !Owns(s, taskId, userId) then Failure(HttpError(NotFound, TaskNotFound))
    else
      var t := ApplyUpdate(s.tasks[taskId], u);
      var subtasks := if CompletesTask(u) then CompleteChildren(s.subtasks, taskId) else s.subtasks;
      Success((TaskStore(s.tasks[taskId := t], subtasks), t))
  }

  /** Deletes task `taskId` on behalf of `userId`, together with all its subtasks
      (the relationship's delete cascade). */
  function DeleteTask(s: TaskStore, taskId: int, userId: int): (r: Result<TaskStore, HttpError>)
    ensures r.Success? <==> Owns(s, taskId, userId)
    ensures r.Failure? ==> r.error == HttpError(NotFound, TaskNotFound)
    ensures r.Success? ==>
      && r.value.tasks.Keys == s.tasks.Keys - {taskId}
      && (forall id :: id in r.value.tasks ==> r.value.tasks[id] == s.tasks[id])
      && (forall id :: id in r.value.subtasks <==> id in s.subtasks && s.subtasks[id].taskId != taskId)
      && (forall id :: id in r.value.subtasks ==> r.value.subtasks[id] == s.subtasks[id])
  {
    if !Owns(s, taskId, userId) then Failure(HttpError(NotFound, TaskNotFound))
    else
      Success(Without(s, taskId))
  }

  /** The store as it would be had task `taskId` and its subtasks never existed. */
  function Without(s: TaskStore, taskId: int): TaskStore
  {
    TaskStore(s.tasks - {taskId}, map id | id in s.subtasks && s.subtasks[id].taskId != taskId :: s.subtasks[id])
  }

  // ---------------------------------------------------------------- subtasks

  /** Subtask `subtaskId` if its parent is `taskId`; no ownership check of its own. */
  function GetSubtask(s: TaskStore, subtaskId: int, taskId: int): (r: Result<Subtask, HttpError>)
    ensures r.Success? <==> subtaskId in s.subtasks && s.subtasks[subtaskId].taskId == taskId
    ensures r.Success? ==> r.value == s.subtasks[subtaskId]
    ensures r.Failure? ==> r.error == HttpError(NotFound, SubtaskNotFound)
  {
    if subtaskId in s.subtasks && s.subtasks[subtaskId].taskId == taskId then Success(s.subtasks[subtaskId])
    else Failure(HttpError(NotFound, SubtaskNotFound))
  }

  /** Adds a subtask under task `taskId`, which `userId` must own; `newId` is the key
      the database hands out. */
  function CreateSubtask(s: TaskStore, taskId: int, userId: int, input: SubtaskCreate, newId: int)
    : (r: Result<(TaskStore, Subtask), HttpError>)
    requires newId !in s.subtasks
    ensures r.Success? <==> Owns(s, taskId, userId)
    ensures r.Failure? ==> r.error == HttpError(NotFound, ParentNotFound)
    ensures r.Success? ==>
      var (s', st) := r.value;
      && st == Subtask(newId, input.title, input.completed, taskId)
      && s'.subtasks.Keys == s.subtasks.Keys + {newId}
      && s'.subtasks[newId] == st
      && (forall id :: id in s.subtasks ==> s'.subtasks[id] == s.subtasks[id])
      && s'.tasks == s.tasks
  {
    match ValidateTaskOwnership(s, taskId, userId)
    case Failure(e) => Failure(e)
    case Success(_) =>
      var st := Subtask(newId, input.title, input.completed, taskId);
      Success((TaskStore(s.tasks, s.subtasks[newId := st]), st))
  }

  /** Sets the completed flag of subtask `subtaskId`, after checking that `userId`
      owns `taskId` and that the subtask hangs under it. The parent is not touched. */
  function UpdateSubtask(s: TaskStore, subtaskId: int, taskId: int, userId: int, completed: bool)
    : (r: Result<(TaskStore, Subtask), HttpError>)
    ensures r.Success? <==> Owns(s, taskId, userId) && subtaskId in s.subtasks && s.subtasks[subtaskId].taskId == taskId
    ensures !Owns(s, taskId, userId) ==> r == Failure(HttpError(NotFound, ParentNotFound))
    ensures Owns(s, taskId, userId) && r.Failure? ==> r.error == HttpError(NotFound, SubtaskNotFound)
    ensures r.Success? ==>
      var (s', st) := r.value;
      && st == s.subtasks[subtaskId].(completed := completed)
      && s'.subtasks.Keys == s.subtasks.Keys
      && s'.subtasks[subtaskId] == st
      && (forall id :: id in s.subtasks && id != subtaskId ==> s'.subtasks[id] == s.subtasks[id])
      && s'.tasks == s.tasks
  {
    match ValidateTaskOwnership(s, taskId, userId)
    case Failure(e) => Failure(e)
    case Success(_) =>
      match GetSubtask(s, subtaskId, taskId)
      case Failure(e) => Failure(e)
      case Success(current) =>
        var st := current.(completed := completed);
        Success((TaskStore(s.tasks, s.subtasks[subtaskId := st]), st))
  }

  /** Deletes subtask `subtaskId`, after the same two checks as `UpdateSubtask`. */
  function DeleteSubtask(s: TaskStore, subtaskId: int, taskId: int, userId: int): (r: Result<TaskStore, HttpError>)
    ensures r.Success? <==> Owns(s, taskId, userId) && subtaskId in s.subtasks && s.subtasks[subtaskId].taskId == taskId
    ensures !Owns(s, taskId, userId) ==> r == Failure(HttpError(NotFound, ParentNotFound))
    ensures Owns(s, taskId, userId) && r.Failure? ==> r.error == HttpError(NotFound, SubtaskNotFound)
    ensures r.Success? ==>
      && r.value.subtasks.Keys == s.subtasks.Keys - {subtaskId}
      && (forall id :: id in r.value.subtasks ==> r.value.subtasks[id] == s.subtasks[id])
      && r.value.tasks == s.tasks
  {
    match ValidateTaskOwnership(s, taskId, userId)
    case Failure(e) => Failure(e)
    case Success(_) =>
      match GetSubtask(s, subtaskId, taskId)
      case Failure(e) => Failure(e)
      case Success(_) => Success(TaskStore(s.tasks, s.subtasks - {subtaskId}))
  }

  // ---------------------------------------------------------------- responses

  /** The response body of task `t`: its columns and its subtasks in key order. */
  function ToResponse(s: TaskStore, t: Task): (r: TaskResponse)
    ensures r.task == t
    ensures forall i :: 0 <= i < |r.subtasks| ==> r.subtasks[i] in s.subtasks.Values && r.subtasks[i].taskId == t.id
    ensures forall id :: id in ChildIds(s, t.id) ==> s.subtasks[id] in r.subtasks
    ensures |r.subtasks| == |ChildIds(s, t.id)|
    ensures ChildIds(s, t.id) == {} ==> r.subtasks == []
  {
    var ids := Keys.Ascending(ChildIds(s, t.id));
    var children := seq(|ids|, i requires 0 <= i < |ids| => s.subtasks[ids[i]]);
    assert forall id :: id in ChildIds(s, t.id) ==> s.subtasks[id] in children by {
      forall id | id in ChildIds(s, t.id)
        ensures s.subtasks[id] in children
      {
        var i :| 0 <= i < |ids| && ids[i] == id;
        assert children[i] == s.subtasks[id];
      }
    }
    TaskResponse(t, children)
  }
}
