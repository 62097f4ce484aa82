/** The values the todo component works on: a task, an optional value, and the
    messages exchanged with the persistence collaborator (app/api.ts). */
module Types {

  /** A task as the component types it (`type Todo`): an opaque id, a title, a
      completion flag and a creation time in milliseconds since the epoch. */
  datatype Todo = Todo(id: string, title: string, completed: bool, createdAt: int)

  /** A value that may be absent; stands for the component's `null`. */
  datatype Option<T> = None | Some(value: T)

  /** The fields a task update carries: `{ completed }` or `{ title }`. */
  datatype Patch = CompletedPatch(completed: bool) | TitlePatch(title: string)

  /** A call the component makes to the persistence collaborator. */
  datatype Request =
    | FetchAll
    | CreateTodo(title: string)
    | UpdateTodo(id: string, patch: Patch)
    | DeleteTodo(id: string)

  /** What a collaborator call resolves to: a value, or a rejection whose
      `message` the component copies into its error state. */
  datatype Reply<T> = Ok(value: T) | Err(message: string)
}
