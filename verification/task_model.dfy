/** The task record as the server stores it and the client receives it, and
    the status and priority names both sides compare against. */
module Tasks {
  import opened Wrappers
  import opened Dates

  type TaskId = string
  type UserId = string

  const StatusTodo: string := "todo"
  const StatusInProgress: string := "in-progress"
  const StatusCompleted: string := "completed"

  const PriorityHigh: string := "high"
  const PriorityMedium: string := "medium"
  const PriorityLow: string := "low"

  /** The three status values the list filter recognises. */
  predicate IsKnownStatus(s: string) {
    s == StatusTodo || s == StatusInProgress || s == StatusCompleted
  }

  /** A stored task.  `status` and `priority` hold whatever string was last
      written (the schema that would constrain them is not part of this
      model); a missing priority is `None`.  An empty description stands for
      both a missing and an empty one: every reader treats them alike. */
  datatype Task = Task(
    id: TaskId,
    owner: UserId,
    title: string,
    description: string,
    status: string,
    priority: Option<string>,
    dueDate: Option<Date>,
    progress: int,
    createdAt: int)
}
