/** The task and subtask records, the request records that create and patch them,
    and the store that holds both tables. */
module TaskModel {
  import opened Wrappers

  /** A row of the `tasks` table. Every column but the key and the owner is nullable:
      a patch that sends an explicit null stores it. Dates and the creation time are
      integer timestamps. */
  datatype Task = Task(
    id: int,
    title: Option<string>,
    startDate: Option<int>,
    endDate: Option<int>,
    completed: Option<bool>,
    createdAt: int,
    userId: int)

  /** A row of the `subtasks` table. It has no owner of its own: it belongs to
      whoever owns its parent task `taskId`. */
  datatype Subtask = Subtask(id: int, title: string, completed: bool, taskId: int)

  /** Body of a create-task request. */
  datatype TaskCreate = TaskCreate(title: string, startDate: Option<int>, endDate: Option<int>, completed: bool)

  /** A create-task request that sets only the required title; the rest take their defaults. */
  function TitleOnly(title: string): TaskCreate
  {
    TaskCreate(title, None, None, false)
  }

  /** Body of a create-subtask request. */
  datatype SubtaskCreate = SubtaskCreate(title: string, completed: bool)

  /** A create-subtask request that sets only the required title. */
  function SubtaskTitleOnly(title: string): SubtaskCreate
  {
    SubtaskCreate(title, false)
  }

  /** One field of a patch: left out of the request, or sent (possibly as null). */
  datatype Field<T> = Absent | Present(value: T)
  {
    /** The value the column holds after the patch when it held `current` before. */
    function Or(current: T): T
    {
      if Present? then value else current
    }
  }

  /** Body of an update-task request: every field optional. */
  datatype TaskUpdate = TaskUpdate(
    title: Field<Option<string>>,
    startDate: Field<Option<int>>,
    endDate: Field<Option<int>>,
    completed: Field<Option<bool>>)

  /** The update request with no field set. */
  const EmptyUpdate := TaskUpdate(Absent, Absent, Absent, Absent)

  /** The two tables, keyed by primary key. */
  datatype TaskStore = TaskStore(tasks: map<int, Task>, subtasks: map<int, Subtask>)

  /** Every row sits under its own key and every subtask's parent task exists
      (the foreign key on `subtasks.task_id`). */
  predicate Valid(s: TaskStore)
  {
    && (forall id :: id in s.tasks ==> s.tasks[id].id == id)
    && (forall id :: id in s.subtasks ==> s.subtasks[id].id == id && s.subtasks[id].taskId in s.tasks)
  }

  /** The keys of the subtasks whose parent is `taskId`: the task's `subtasks` relationship. */
  function ChildIds(s: TaskStore, taskId: int): set<int>
  {
    set id | id in s.subtasks && s.subtasks[id].taskId == taskId
  }

  /** Response body for a task: its columns plus its subtasks. */
  datatype TaskResponse = TaskResponse(task: Task, subtasks: seq<Subtask>)
}
