/** The records the TypeScript front end receives from the task store
    (`src/type/index.ts`). Optional fields are `Option`s; date-times stay the
    ISO-8601 text the store sends. */
module TaskTypes {
  import opened Basics

  datatype Subtask = Subtask(
    id: string,
    order: int,
    description: string,
    completed: bool,
    created_at: string,
    updated_at: Option<string>,
    deleted_at: Option<string>)

  datatype Task = Task(
    id: string,
    description: string,
    details: Option<string>,
    completed: bool,
    subtasks: seq<Subtask>,
    start_datetime: Option<string>,
    end_datetime: Option<string>,
    progress: real,
    created_at: string,
    updated_at: Option<string>,
    deleted_at: Option<string>)

  datatype TaskGroup = TaskGroup(
    id: string,
    name: string,
    tasks: seq<string>,
    created_at: string,
    updated_at: Option<string>,
    deleted_at: Option<string>)

  predicate IsCompleted(t: Task) { t.completed }
  predicate IsPending(t: Task) { !t.completed }
  predicate SubtaskDone(s: Subtask) { s.completed }
}
