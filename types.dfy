/**
  The records a task list is made of (src/features/tasks/types.ts).

  A deadline is a day number rather than an ISO date string: the view only
  ever compares two deadlines by their time value, and an empty string,
  which the add form submits when no date was picked, is falsy and treated
  exactly like a missing deadline, so both are `None`.
 */
module Types {

  datatype Option<T> = None | Some(value: T)

  datatype Priority = High | Medium | Low

  datatype SubTask = SubTask(id: string, title: string, completed: bool)

  /** An attachment: file name, MIME type and the data URL holding its bytes. */
  datatype FileData = FileData(name: string, mimeType: string, dataUrl: string)

  datatype Task = Task(
    id: string,
    title: string,
    description: string,
    deadline: Option<int>,
    priority: Priority,
    completed: bool,
    files: seq<FileData>,
    subTasks: seq<SubTask>
  )
}
