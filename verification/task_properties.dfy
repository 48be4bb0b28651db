/** Properties that relate the task operations to each other and to the store invariant. */
module TaskProperties {
  import opened Wrappers
  import opened Errors
  import opened TaskModel
  import opened TaskService
  import Keys

  // ---------------------------------------------------------------- ownership isolation

  /** Another user's task looks exactly like a missing one: every task and subtask
      operation by `other`, the two listings included, answers as it would if the
      task did not exist at all. */
  lemma ForeignTaskLooksMissing(s: TaskStore, taskId: int, other: int, u: TaskUpdate,
                                subtaskId: int, input: SubtaskCreate, newId: int, completed: bool,
                                skip: nat, limit: nat, status: bool)
    requires taskId in s.tasks && s.tasks[taskId].userId != other
    requires newId !in s.subtasks
    ensures GetTask(s, taskId, other) == GetTask(Without(s, taskId), taskId, other)
                                      == Failure(HttpError(NotFound, TaskNotFound))
    ensures UpdateTask(s, taskId, other, u) == Failure(HttpError(NotFound, TaskNotFound))
    ensures UpdateTask(Without(s, taskId), taskId, other, u) == Failure(HttpError(NotFound, TaskNotFound))
    ensures DeleteTask(s, taskId, other) == DeleteTask(Without(s, taskId), taskId, other)
                                         == Failure(HttpError(NotFound, TaskNotFound))
    ensures CreateSubtask(s, taskId, other, input, newId) == Failure(HttpError(NotFound, ParentNotFound))
    ensures CreateSubtask(Without(s, taskId), taskId, other, input, newId) == Failure(HttpError(NotFound, ParentNotFound))
    ensures UpdateSubtask(s, subtaskId, taskId, other, completed)
         == UpdateSubtask(Without(s, taskId), subtaskId, taskId, other, completed)
         == Failure(HttpError(NotFound, ParentNotFound))
    ensures DeleteSubtask(s, subtaskId, taskId, other)
         == DeleteSubtask(Without(s, taskId), subtaskId, taskId, other)
         == Failure(HttpError(NotFound, ParentNotFound))
    ensures GetUserTasks(s, other, skip, limit) == GetUserTasks(Without(s, taskId), other, skip, limit)
    ensures GetUserTasksByStatus(s, other, status, skip, limit)
         == GetUserTasksByStatus(Without(s, taskId), other, status, skip, limit)
  {
    var w := Without(s, taskId);
    assert OwnedIds(s, other) == OwnedIds(w, other);
    assert StatusIds(s, other, status) == StatusIds(w, other, status);
    var owned := Keys.Ascending(OwnedIds(s, other));
    assert Rows(s, owned) == Rows(w, owned);
    var matching := Keys.Ascending(StatusIds(s, other, status));
    assert Rows(s, matching) == Rows(w, matching);
  }

  /** A subtask reached through the wrong parent is not found, even when the caller
      owns both tasks. */
  lemma WrongParentNotFound(s: TaskStore, subtaskId: int, taskId: int, userId: int, completed: bool)
    requires Owns(s, taskId, userId)
    requires subtaskId in s.subtasks && s.subtasks[subtaskId].taskId != taskId
    ensures UpdateSubtask(s, subtaskId, taskId, userId, completed) == Failure(HttpError(NotFound, SubtaskNotFound))
    ensures DeleteSubtask(s, subtaskId, taskId, userId) == Failure(HttpError(NotFound, SubtaskNotFound))
  {
  }

  // ---------------------------------------------------------------- create / read / delete round trips

  /** A task just created is found by its owner and by nobody else. */
  lemma CreatedTaskVisibleOnlyToOwner(s: TaskStore, input: TaskCreate, userId: int, newId: int, now: int, other: int)
    requires newId !in s.tasks
    requires other != userId
    ensures var (s', t) := CreateTask(s, input, userId, newId, now);
            GetTask(s', newId, userId) == Success(t) && GetTask(s', newId, other).Failure?
  {
  }

  /** A task created from a title alone is pending, undated, and stamped with the creation time. */
  lemma TitleOnlyTaskIsPending(s: TaskStore, title: string, userId: int, newId: int, now: int)
    requires newId !in s.tasks
    ensures var t := CreateTask(s, TitleOnly(title), userId, newId, now).1;
            t == Task(newId, Some(title), None, None, Some(false), now, userId)
  {
  }

  /** Deleting a task just created gives back the store it was created in: a fresh
      task has no subtasks for the cascade to remove. */
  lemma {:induction false} CreateThenDeleteTask(s: TaskStore, input: TaskCreate, userId: int, newId: int, now: int)
    requires Valid(s)
    requires newId !in s.tasks
    ensures DeleteTask(CreateTask(s, input, userId, newId, now).0, newId, userId) == Success(s)
  {
    var s1 := CreateTask(s, input, userId, newId, now).0;
    var r := DeleteTask(s1, newId, userId);
    assert r.value.tasks == s.tasks;
    assert r.value.subtasks == s.subtasks by {
      forall id | id in s.subtasks
        ensures s.subtasks[id].taskId != newId
      {
        assert s.subtasks[id].taskId in s.tasks;
      }
    }
  }

  /** Deleting a task removes every one of its subtasks and no other row. */
  lemma DeleteTaskRemovesChildren(s: TaskStore, taskId: int, userId: int)
    requires Owns(s, taskId, userId)
    ensures var s' := DeleteTask(s, taskId, userId).value;
            && ChildIds(s', taskId) == {}
            && (forall id :: id in ChildIds(s, taskId) ==> GetSubtask(s', id, taskId).Failure?)
            && s'.subtasks.Keys == s.subtasks.Keys - ChildIds(s, taskId)
            && GetTask(s', taskId, userId).Failure?
  {
  }

  /** Deleting a subtask just created gives back the store it was created in. */
  lemma CreateThenDeleteSubtask(s: TaskStore, taskId: int, userId: int, input: SubtaskCreate, newId: int)
    requires Owns(s, taskId, userId)
    requires newId !in s.subtasks
    ensures DeleteSubtask(CreateSubtask(s, taskId, userId, input, newId).value.0, newId, taskId, userId) == Success(s)
  {
    var s1 := CreateSubtask(s, taskId, userId, input, newId).value.0;
    assert s1.subtasks - {newId} == s.subtasks;
  }

  /** A subtask created from a title alone is pending and hangs under the task it was created for. */
  lemma TitleOnlySubtaskIsPending(s: TaskStore, taskId: int, userId: int, title: string, newId: int)
    requires Owns(s, taskId, userId)
    requires newId !in s.subtasks
    ensures var (s', st) := CreateSubtask(s, taskId, userId, SubtaskTitleOnly(title), newId).value;
            && st == Subtask(newId, title, false, taskId)
            && ChildIds(s', taskId) == ChildIds(s, taskId) + {newId}
  {
  }

  // ---------------------------------------------------------------- update and the cascade

  /** A task that the patch completes has no open subtask afterwards. */
  lemma CascadeCompletesEveryChild(s: TaskStore, taskId: int, userId: int, u: TaskUpdate)
    requires Owns(s, taskId, userId)
    requires CompletesTask(u)
    ensures var (s', t) := UpdateTask(s, taskId, userId, u).value;
            && t.completed == Some(true)
            && ChildIds(s', taskId) == ChildIds(s, taskId)
            && (forall id :: id in ChildIds(s', taskId) ==> s'.subtasks[id].completed)
  {
  }

  /** The response to a completing update shows the cascade: every subtask it lists
      is completed. */
  lemma {:induction false} CompletedTaskRespondsCompleted(s: TaskStore, taskId: int, userId: int, u: TaskUpdate)
    requires Valid(s)
    requires Owns(s, taskId, userId)
    requires CompletesTask(u)
    ensures var (s', t) := UpdateTask(s, taskId, userId, u).value;
            var r := ToResponse(s', t);
            r.task.completed == Some(true) && forall i :: 0 <= i < |r.subtasks| ==> r.subtasks[i].completed
  {
    var (s', t) := UpdateTask(s, taskId, userId, u).value;
    CascadeCompletesEveryChild(s, taskId, userId, u);
    assert t.id == taskId;
    var r := ToResponse(s', t);
    forall i | 0 <= i < |r.subtasks|
      ensures r.subtasks[i].completed
    {
      var id :| id in s'.subtasks && s'.subtasks[id] == r.subtasks[i];
      assert id in ChildIds(s', taskId);
    }
  }

  /** A patch that does not set `completed` to true leaves every subtask as it was:
      in particular reopening a task reopens none of its subtasks. */
  lemma {:induction false} NoCascadeWithoutCompletion(s: TaskStore, taskId: int, userId: int, u: TaskUpdate)
    requires Owns(s, taskId, userId)
    requires !CompletesTask(u)
    ensures UpdateTask(s, taskId, userId, u).value.0.subtasks == s.subtasks
  {
    var s' := UpdateTask(s, taskId, userId, u).value.0;
    assert forall id :: id in s.subtasks ==> s'.subtasks[id] == s.subtasks[id];
  }

  /** The empty patch changes nothing and answers the task as stored. */
  lemma {:induction false} EmptyUpdateChangesNothing(s: TaskStore, taskId: int, userId: int)
    requires Owns(s, taskId, userId)
    ensures UpdateTask(s, taskId, userId, EmptyUpdate) == Success((s, s.tasks[taskId]))
  {
    var r := UpdateTask(s, taskId, userId, EmptyUpdate);
    NoCascadeWithoutCompletion(s, taskId, userId, EmptyUpdate);
    assert r.value.1 == s.tasks[taskId];
    assert r.value.0.tasks == s.tasks;
  }

  /** Sending the same patch twice leaves the store as sending it once. */
  lemma {:induction false} UpdateTaskIdempotent(s: TaskStore, taskId: int, userId: int, u: TaskUpdate)
    requires Owns(s, taskId, userId)
    ensures var r1 := UpdateTask(s, taskId, userId, u);
            var r2 := UpdateTask(r1.value.0, taskId, userId, u);
            r2 == r1
  {
    var (s1, t1) := UpdateTask(s, taskId, userId, u).value;
    var (s2, t2) := UpdateTask(s1, taskId, userId, u).value;
    assert t2 == t1;
    assert s2.tasks == s1.tasks;
    assert s2.subtasks == s1.subtasks by {
      forall id | id in s1.subtasks
        ensures s2.subtasks[id] == s1.subtasks[id]
      {
        if s.subtasks[id].taskId == taskId && CompletesTask(u) {
          assert s1.subtasks[id].completed;
        }
      }
    }
  }

  /** Setting a subtask's flag never touches any task, in particular not its parent's flag. */
  lemma SubtaskUpdateLeavesParent(s: TaskStore, subtaskId: int, taskId: int, userId: int, completed: bool)
    requires UpdateSubtask(s, subtaskId, taskId, userId, completed).Success?
    ensures var (s', st) := UpdateSubtask(s, subtaskId, taskId, userId, completed).value;
            && s'.tasks[taskId].completed == s.tasks[taskId].completed
            && st.completed == completed
            && GetSubtask(s', subtaskId, taskId) == Success(st)
  {
  }

  /** Setting a subtask's flag twice to the same value leaves the store as setting it once. */
  lemma {:induction false} UpdateSubtaskIdempotent(s: TaskStore, subtaskId: int, taskId: int, userId: int, completed: bool)
    requires UpdateSubtask(s, subtaskId, taskId, userId, completed).Success?
    ensures var r1 := UpdateSubtask(s, subtaskId, taskId, userId, completed);
            UpdateSubtask(r1.value.0, subtaskId, taskId, userId, completed) == r1
  {
    var (s1, st1) := UpdateSubtask(s, subtaskId, taskId, userId, completed).value;
    var (s2, st2) := UpdateSubtask(s1, subtaskId, taskId, userId, completed).value;
    assert st2 == st1;
    assert s2.subtasks == s1.subtasks;
  }

  /** No operation hands a task to another owner: a task present before and after a
      successful operation has the same `user_id`. */
  lemma OwnersNeverReassigned(s: TaskStore, taskId: int, userId: int, u: TaskUpdate,
                              subtaskId: int, input: SubtaskCreate, newId: int, completed: bool)
    requires newId !in s.subtasks
    ensures var r := UpdateTask(s, taskId, userId, u);
            r.Success? ==> forall id :: id in s.tasks ==> r.value.0.tasks[id].userId == s.tasks[id].userId
    ensures var r := DeleteTask(s, taskId, userId);
            r.Success? ==> forall id :: id in r.value.tasks ==> r.value.tasks[id].userId == s.tasks[id].userId
    ensures var r := CreateSubtask(s, taskId, userId, input, newId);
            r.Success? ==> r.value.0.tasks == s.tasks
    ensures var r := UpdateSubtask(s, subtaskId, taskId, userId, completed);
            r.Success? ==> r.value.0.tasks == s.tasks
    ensures var r := DeleteSubtask(s, subtaskId, taskId, userId);
            r.Success? ==> r.value.tasks == s.tasks
  {
  }

  // ---------------------------------------------------------------- the store invariant

  /** Every successful operation keeps each row under its own key and every subtask under an existing task. */
  lemma CreateTaskKeepsValid(s: TaskStore, input: TaskCreate, userId: int, newId: int, now: int)
    requires Valid(s) && newId !in s.tasks
    ensures Valid(CreateTask(s, input, userId, newId, now).0)
  {
  }

  lemma UpdateTaskKeepsValid(s: TaskStore, taskId: int, userId: int, u: TaskUpdate)
    requires Valid(s)
    requires UpdateTask(s, taskId, userId, u).Success?
    ensures Valid(UpdateTask(s, taskId, userId, u).value.0)
  {
  }

  lemma DeleteTaskKeepsValid(s: TaskStore, taskId: int, userId: int)
    requires Valid(s)
    requires DeleteTask(s, taskId, userId).Success?
    ensures Valid(DeleteTask(s, taskId, userId).value)
  {
  }

  lemma CreateSubtaskKeepsValid(s: TaskStore, taskId: int, userId: int, input: SubtaskCreate, newId: int)
    requires Valid(s) && newId !in s.subtasks
    requires CreateSubtask(s, taskId, userId, input, newId).Success?
    ensures Valid(CreateSubtask(s, taskId, userId, input, newId).value.0)
  {
  }

  lemma UpdateSubtaskKeepsValid(s: TaskStore, subtaskId: int, taskId: int, userId: int, completed: bool)
    requires Valid(s)
    requires UpdateSubtask(s, subtaskId, taskId, userId, completed).Success?
    ensures Valid(UpdateSubtask(s, subtaskId, taskId, userId, completed).value.0)
  {
  }

  lemma DeleteSubtaskKeepsValid(s: TaskStore, subtaskId: int, taskId: int, userId: int)
    requires Valid(s)
    requires DeleteSubtask(s, subtaskId, taskId, userId).Success?
    ensures Valid(DeleteSubtask(s, subtaskId, taskId, userId).value)
  {
  }

  // ---------------------------------------------------------------- listings

  /** Before paging, the status listing holds a stored task if and only if it is
      one of the caller's tasks with that status; and it holds nothing else. */
  lemma {:induction false} StatusListingExact(s: TaskStore, userId: int, completed: bool)
    ensures forall t :: t in StatusListing(s, userId, completed) ==> t in s.tasks.Values
    ensures forall id :: id in s.tasks ==>
              (s.tasks[id] in StatusListing(s, userId, completed)
               <==> s.tasks[id].userId == userId && s.tasks[id].completed == Some(completed))
  {
    var r := StatusListing(s, userId, completed);
    forall t | t in r
      ensures t in s.tasks.Values
    {
      var i :| 0 <= i < |r| && r[i] == t;
    }
    forall id | id in s.tasks
      ensures s.tasks[id] in r <==> s.tasks[id].userId == userId && s.tasks[id].completed == Some(completed)
    {
      if s.tasks[id] in r {
        var i :| 0 <= i < |r| && r[i] == s.tasks[id];
        assert Listed(s, userId, completed, r[i]);
      } else {
        assert id !in StatusIds(s, userId, completed);
      }
    }
  }

  /** A first page big enough for all of them holds a stored task if and only if the
      caller owns it; and it holds nothing else. */
  lemma {:induction false} FullPageListsAllOwned(s: TaskStore, userId: int, limit: nat)
    requires |OwnedIds(s, userId)| <= limit
    ensures forall t :: t in GetUserTasks(s, userId, 0, limit) ==> t in s.tasks.Values
    ensures forall id :: id in s.tasks ==>
              (s.tasks[id] in GetUserTasks(s, userId, 0, limit) <==> s.tasks[id].userId == userId)
  {
    var r := GetUserTasks(s, userId, 0, limit);
    forall t | t in r
      ensures t in s.tasks.Values
    {
      var i :| 0 <= i < |r| && r[i] == t;
    }
    forall id | id in s.tasks
      ensures s.tasks[id] in r <==> s.tasks[id].userId == userId
    {
      if s.tasks[id] in r {
        var i :| 0 <= i < |r| && r[i] == s.tasks[id];
      } else {
        assert id !in OwnedIds(s, userId);
      }
    }
  }
}
