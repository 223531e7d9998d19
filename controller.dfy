/** The REST endpoints (TodoController.java) as functions from a request's
    parameters and the task table to the response's status and body. Create
    and delete also give the table the service leaves behind; for update and
    toggle that table is given by Service.Persist and the Service.TodoService
    methods. */
module Controller {
  import opened Wrappers
  import opened Text
  import opened Sequences
  import opened Todos
  import opened Service

  const OK: int := 200
  const CREATED: int := 201
  const NO_CONTENT: int := 204
  const NOT_FOUND: int := 404

  datatype Body = NoBody | One(todo: Todo) | Many(todos: seq<Todo>)

  datatype Response = Response(status: int, body: Body)

  /** A handler's answer together with the table the service leaves behind. */
  datatype Exchange = Exchange(response: Response, table: Store)

  /** GET /api/todos: a non-empty `search` selects the title search whatever
      `completed` says; otherwise a given `completed` selects by status;
      otherwise every todo is listed. The answer is always 200. */
  function GetAllTodos(m: Store, completed: Option<bool>, search: Option<string>): (r: Response)
    ensures r.status == OK && r.body.Many?
    ensures search.Some? && search.value != "" ==>
              forall t :: t in r.body.todos <==> t in m.Values && Contains(Lower(t.title), Lower(search.value))
    ensures (search.None? || search.value == "") && completed.Some? ==>
              forall t :: t in r.body.todos <==> t in m.Values && t.completed == completed.value
    ensures (search.None? || search.value == "") && completed.None? ==>
              forall t :: t in r.body.todos <==> t in m.Values
  {
    var todos :=
      if search.Some? && search.value != "" then SearchTodos(m, search.value)
      else if completed.Some? then TodosByStatus(m, completed.value)
      else AllTodos(m);
    Response(OK, Many(todos))
  }

  /** A non-empty search makes the status parameter irrelevant. */
  lemma SearchTakesPrecedence(m: Store, c1: Option<bool>, c2: Option<bool>, search: string)
    requires search != ""
    ensures GetAllTodos(m, c1, Some(search)) == GetAllTodos(m, c2, Some(search))
  {
  }

  /** With neither parameter (or an empty search), the whole table is
      listed, every todo once, newest first. */
  lemma ListAllIsNewestFirst(m: Store, search: Option<string>)
    requires WellKeyed(m)
    requires search.None? || search.value == ""
    ensures var r := GetAllTodos(m, None, search);
            |r.body.todos| == |m| && NewestFirst(r.body.todos)
  {
    AllTodosNewestFirst(m);
  }

  /** On a well-keyed table every listing holds each todo at most once. */
  lemma GetAllTodosOnce(m: Store, completed: Option<bool>, search: Option<string>)
    requires WellKeyed(m)
    ensures NoDuplicates(GetAllTodos(m, completed, search).body.todos)
  {
    if search.Some? && search.value != "" {
      SearchTodosOnce(m, search.value);
    } else if completed.Some? {
      TodosByStatusOnce(m, completed.value);
    } else {
      AllTodosOnce(m);
    }
  }

  /** GET /api/todos/{id}: 200 with the todo when it is stored, else 404. */
  function GetTodoById(m: Store, id: int): (r: Response)
    ensures r.status == OK <==> id in m
    ensures r.status == NOT_FOUND <==> id !in m
    ensures id in m ==> r.body == One(m[id])
    ensures id !in m ==> r.body == NoBody
  {
    match TodoById(m, id)
    case Some(todo) => Response(OK, One(todo))
    case None => Response(NOT_FOUND, NoBody)
  }

  /** POST /api/todos: the service saves the todo under the id the
      repository issues, `newId`, and the answer is 201 with the saved todo.
      The table gains that one row and keeps every other. */
  function CreateTodo(m: Store, newId: int, todo: Todo): (x: Exchange)
    requires newId !in m
    ensures x.response.status == CREATED && x.response.body == One(todo.(id := newId))
    ensures x.table.Keys == m.Keys + {newId}
    ensures x.table[newId] == x.response.body.todo
    ensures forall k :: k in m ==> x.table[k] == m[k]
    ensures WellKeyed(m) ==> WellKeyed(x.table)
  {
    var saved := todo.(id := newId);
    Exchange(Response(CREATED, One(saved)), m[newId := saved])
  }

  /** The try/catch of the update and toggle handlers: the service's todo
      with 200, or 404 when it threw. */
  function OkOrNotFound(outcome: Result<Todo, ServiceError>): (r: Response)
    ensures r.status == OK <==> outcome.Success?
    ensures r.status == NOT_FOUND <==> outcome.Failure?
    ensures outcome.Success? ==> r.body == One(outcome.value)
    ensures outcome.Failure? ==> r.body == NoBody
  {
    match outcome
    case Success(todo) => Response(OK, One(todo))
    case Failure(_) => Response(NOT_FOUND, NoBody)
  }

  /** PUT /api/todos/{id}: 200 with the stored todo carrying the new title,
      description and completed under its stored id (which, in a well-keyed
      table, is `id`), or 404 for an absent id. */
  function UpdateTodo(m: Store, id: int, details: Todo): (r: Response)
    ensures r.status == OK <==> id in m
    ensures r.status == NOT_FOUND <==> id !in m
    ensures id in m ==> r.body == One(details.(id := m[id].id))
    ensures id !in m ==> r.body == NoBody
  {
    OkOrNotFound(Update(m, id, details))
  }

  /** PATCH /api/todos/{id}/toggle: 200 with the todo whose completed is
      negated and nothing else changed, or 404 for an absent id. */
  function ToggleComplete(m: Store, id: int): (r: Response)
    ensures r.status == OK <==> id in m
    ensures r.status == NOT_FOUND <==> id !in m
    ensures id in m ==> r.body.One? && r.body.todo.completed == !m[id].completed
    ensures id in m ==> r.body.One? && r.body.todo.(completed := m[id].completed) == m[id]
    ensures id !in m ==> r.body == NoBody
  {
    OkOrNotFound(Toggle(m, id))
  }

  /** DELETE /api/todos/{id}: the service deletes the id, which does
      nothing when it is absent, and the answer is 204 with no body. */
  function DeleteTodo(m: Store, id: int): (x: Exchange)
    ensures x.response.status == NO_CONTENT && x.response.body == NoBody
    ensures x.table.Keys == m.Keys - {id}
    ensures forall k :: k in x.table ==> x.table[k] == m[k]
  {
    Exchange(Response(NO_CONTENT, NoBody), m - {id})
  }

  /** After a delete, getting the same id answers 404 and every other id
      answers as before. */
  lemma DeleteThenGetAnswers(m: Store, id: int)
    ensures var after := DeleteTodo(m, id).table;
            && GetTodoById(after, id).status == NOT_FOUND
            && forall k :: k != id ==> GetTodoById(after, k) == GetTodoById(m, k)
  {
    DeleteThenGet(m, id);
  }

  /** After a create, getting the new id answers 200 with the body of the
      201, and every other id answers as before. */
  lemma CreateThenGetAnswers(m: Store, newId: int, todo: Todo)
    requires newId !in m
    ensures var x := CreateTodo(m, newId, todo);
            && GetTodoById(x.table, newId) == Response(OK, x.response.body)
            && forall k :: k != newId ==> GetTodoById(x.table, k) == GetTodoById(m, k)
  {
  }
}
