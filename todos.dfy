/** The todo record shared by the browser client and the service:
    the JSON shape { id, title, description, completed }. */
module Todos {
  import opened Wrappers

  /** `description` is None for JSON null; the title is trusted to be a string. */
  datatype Todo = Todo(id: int, title: string, description: Option<string>, completed: bool)

  predicate IsActive(t: Todo) {
    !t.completed
  }

  predicate IsCompleted(t: Todo) {
    t.completed
  }
}
