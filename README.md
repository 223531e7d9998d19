# Todo app core, modelled in Dafny

The system is a small todo application. A Spring service keeps a table of
todos. Each todo has an id, a title, an optional description and a completed
flag. A REST controller exposes the table under `/api/todos`. A browser
client keeps a cache of the list and derives what it shows from three
inputs: the cache, the selected status tab ("all", "active", "completed")
and the search box.

The project models three parts:

- `app.dfy` (module `App`) models the client. The list area, the counters and
  the search are pure functions over `seq<Todo>`. The page's state is the
  class `App.TodoApp`:
  - the cache, the filter, the search box and the form inputs;
  - what the list area shows and the counters;
  - the rows whose checkbox the user has clicked since the list was last
    drawn;
  - the log of requests sent.

  Its handlers take each request's outcome as a parameter. `TodoApp.Valid`
  is the invariant the handlers keep: the list area and counters agree with
  the cache, filter and search box.
- `service.dfy` (module `Service`) models the store. The table is a
  `map<int, Todo>`. The queries are functions over the map. The mutations
  are methods of `Service.TodoService`, which holds the map and the next id
  to issue. Each method is proved against a function that states its
  outcome: `Toggle`, `Update` and `Persist`.
- `controller.dfy` (module `Controller`) models the endpoints. Each is a
  function from the request's parameters, and from the table or the
  service's outcome, to a status and a body.

Support modules:

- `text.dfy` (module `Text`) holds JavaScript's `trim`, lower-casing and
  substring containment.
- `sequences.dfy` (module `Sequences`) holds an order-preserving filter
  `Select` and its laws.
- `todos.dfy` (module `Todos`) holds the shared `Todo` record.
- `wrappers.dfy` (module `Wrappers`) holds `Option` and `Result`.

## Model

| member | source | states |
|---|---|---|
| Text.TrimStartCuts | src/main/resources/static/app.js:44-45 | Trimming the start keeps a suffix that does not start with whitespace, and only whitespace is cut |
| Text.TrimEndCuts | src/main/resources/static/app.js:44-45 | Trimming the end keeps a prefix that does not end with whitespace, and only whitespace is cut |
| Text.TrimEnds | src/main/resources/static/app.js:44-45 | A trimmed string is empty, or starts and ends with non-whitespace |
| Text.TrimEmptyIff | src/main/resources/static/app.js:49 | A string trims to the empty string exactly when it is all whitespace, so these are exactly the titles the add guard rejects |
| Text.TrimTwice | src/main/resources/static/app.js:44-45 | Trim is idempotent |
| Text.Lower | src/main/resources/static/app.js:136 | Lower-casing keeps the length and maps each character by the ASCII case map |
| Text.LowerKeepsSpaces | src/main/resources/static/app.js:136 | A string is all whitespace exactly when its lower-cased form is |
| Text.ContainsIff | src/main/resources/static/app.js:139-140 | `includes` (Contains) holds exactly when the needle occurs at some position of the haystack |
| App.SearchTerm | src/main/resources/static/app.js:136-137 | The search term is empty, and so imposes no restriction, exactly when the search box is blank; otherwise it has no surrounding whitespace |
| App.ViewMembers | src/main/resources/static/app.js:128-142 | The listed todos are exactly the cached todos that pass the status filter and, when the term is not empty, match it in the lower-cased title or in a present, non-empty lower-cased description |
| App.ViewIsSubsequence | src/main/resources/static/app.js:126-142 | The listed todos keep the cache's order: the list is a subsequence of the cache |
| App.FilterOnly | src/main/resources/static/app.js:129-133 | With no term, "active" lists exactly the open todos, "completed" exactly the finished ones, and any other filter value lists the whole cache, each in cache order |
| App.SearchNarrows | src/main/resources/static/app.js:136-142 | The search only narrows: the list with a term is a subsequence of the list without one |
| App.SearchAfterFilter | src/main/resources/static/app.js:136-142 | Searching the status-filtered list gives the one-pass view of filter and search together |
| App.ExampleActiveTab | src/main/resources/static/app.js:129-130 | For an open "Buy milk" and a finished "Pay bills", the active tab lists only "Buy milk" |
| App.ExampleCompletedTab | src/main/resources/static/app.js:131-132 | For the same two todos, the completed tab lists only "Pay bills" |
| App.ExampleTerm | src/main/resources/static/app.js:136 | The search box text "pay" gives the term "pay" |
| App.ExampleMatches | src/main/resources/static/app.js:138-141 | The term "pay" matches "Pay bills" regardless of case and does not match "Buy milk" |
| App.ExampleSearch | src/main/resources/static/app.js:136-142 | Searching "pay" under "all" lists only "Pay bills" |
| App.ScreenForShows | src/main/resources/static/app.js:145-153 | A render never leaves the list blank. It shows an empty-state message exactly when the view is empty. The message is "No todos found matching your search" exactly when the search box is not blank, and "No todos yet. Add one to get started!" otherwise. Otherwise it shows the view's rows |
| App.TickedIffNotFlipped | src/main/resources/static/app.js:158-162 | A row's checkbox shows its todo's cached state exactly when it has not been clicked since the list was drawn |
| App.StaleAfterFailedToggle | src/main/resources/static/app.js:158-162 | From a page whose boxes agree with the cache, one click leaves that row's box showing the opposite of the cached state until the next draw |
| App.StatsAddUp | src/main/resources/static/app.js:184-187 | The active and completed counts over the whole cache add up to the total |
| App.AfterLoad | src/main/resources/static/app.js:28-31 | A load replaces the cache with the fetched list only on success and keeps it on failure |
| App.TodoApp.constructor | src/main/resources/static/app.js:3-4 | The page starts with an empty cache, the "all" filter, an empty search box and nothing sent |
| App.TodoApp.RenderTodos | src/main/resources/static/app.js:125-153 | Filtering and then searching step by step puts on screen exactly the screen the cache, filter and search box call for; every checkbox is redrawn from the cache |
| App.TodoApp.UpdateStats | src/main/resources/static/app.js:184-192 | The counters become the stats of the whole cache, whatever the filter and search |
| App.TodoApp.LoadTodos | src/main/resources/static/app.js:25-38 | One GET is sent. On success the cache is replaced and the list and counters are redrawn from it. On failure the cache, list and counters are unchanged. The invariant is kept |
| App.TodoApp.HandleAddTodo | src/main/resources/static/app.js:40-71 | A title that trims to empty sends nothing and changes nothing. Otherwise the trimmed title and description are posted with completed false. Only on success are the inputs cleared and the cache reloaded. When that reload succeeds the list and counters are redrawn from the new cache; in every other case they are kept |
| App.TodoApp.ToggleTodo | src/main/resources/static/app.js:73-88 | The clicked box is flipped and the toggle request sent. The cache changes only through a reload after success. When that reload succeeds the list, counters and boxes are redrawn from the new cache. When the request or the reload fails, the cache, list and counters are kept and the clicked box stays flipped |
| App.TodoApp.ToggleTodoResync | src/main/resources/static/app.js:73-88 | The corrected toggle: as ToggleTodo, but after a failed request or reload the list is redrawn from the cache, so every box shows its todo's cached state on every path |
| App.TodoApp.DeleteTodo | src/main/resources/static/app.js:90-109 | A declined confirmation sends nothing and changes nothing. Otherwise the delete is sent, and the cache is reloaded only on success. When that reload succeeds the list and counters are redrawn from the new cache; in every other case they are kept |
| App.TodoApp.HandleFilterChange | src/main/resources/static/app.js:111-119 | The filter is set and the list and its boxes redrawn from the cache, with no request |
| App.TodoApp.HandleSearch | src/main/resources/static/app.js:121-123 | The list and its boxes are redrawn for the new search text, with no request |
| Service.AllTodos | src/main/java/com/project/todo/service/TodoService.java:17-19 | The listing holds every stored todo, and has as many entries as the table |
| Service.AllTodosNewestFirst | src/main/java/com/project/todo/repository/TodoRepository.java:16 | On a well-keyed table the listing is newest first, by strictly decreasing id |
| Service.AllTodosOnce | src/main/java/com/project/todo/service/TodoService.java:17-19 | On a well-keyed table the listing holds each stored todo once |
| Service.TodoById | src/main/java/com/project/todo/service/TodoService.java:21-23 | Found exactly when the id is stored, and then it is the stored todo |
| Service.TodosByStatus | src/main/java/com/project/todo/service/TodoService.java:25-27 | Exactly the stored todos whose completed flag equals the argument |
| Service.SearchTodos | src/main/java/com/project/todo/service/TodoService.java:29-31 | Exactly the stored todos whose title contains the keyword ignoring case; the description is not searched |
| Service.TodosByStatusOnce | src/main/java/com/project/todo/service/TodoService.java:25-27 | On a well-keyed table each todo with the status is listed once |
| Service.SearchTodosOnce | src/main/java/com/project/todo/service/TodoService.java:29-31 | On a well-keyed table each matching todo is listed once |
| Service.Toggle | src/main/java/com/project/todo/service/TodoService.java:50-57 | Fails with NotFound exactly for an absent id. Otherwise it gives the stored todo with completed negated and nothing else changed |
| Service.Update | src/main/java/com/project/todo/service/TodoService.java:38-48 | Fails with NotFound exactly for an absent id. Otherwise it gives the details' title, description and completed under the stored todo's id |
| Service.Persist | src/main/java/com/project/todo/service/TodoService.java:47 | Saving a result stores it under its id, adds no other key and keeps every other row; a failure saves nothing |
| Service.ToggleTouchesOnlyId | src/main/java/com/project/todo/service/TodoService.java:51-56 | A toggle keeps the table's keys and its well-keyedness. It rewrites no other row and negates completed of the toggled row |
| Service.ToggleTwice | src/main/java/com/project/todo/service/TodoService.java:55 | Toggling the same id twice restores the table |
| Service.UpdateTouchesOnlyId | src/main/java/com/project/todo/service/TodoService.java:40-47 | An update keeps the keys and well-keyedness. It rewrites no other row and stores the details under the updated id |
| Service.DeleteThenGet | src/main/java/com/project/todo/service/TodoService.java:59-62 | After deleting an id it is not found, and every other id finds what it found before |
| Service.TodoService.CreateTodo | src/main/java/com/project/todo/service/TodoService.java:33-36 | The todo is stored under a fresh id, no other row changes, and the saved todo is found by its id |
| Service.TodoService.UpdateTodo | src/main/java/com/project/todo/service/TodoService.java:38-48 | Find, set the fields, then save gives Update's outcome and the table Persist describes; the invariant is kept |
| Service.TodoService.ToggleComplete | src/main/java/com/project/todo/service/TodoService.java:50-57 | Find, negate, then save gives Toggle's outcome and the table AfterToggle describes; the invariant is kept |
| Service.TodoService.DeleteTodo | src/main/java/com/project/todo/service/TodoService.java:59-62 | The id is removed from the table, or the table is unchanged if the id is absent |
| Controller.GetAllTodos | src/main/java/com/project/todo/controller/TodoController.java:22-37 | Always 200. A non-empty search lists the title matches. Otherwise a given status lists the todos with that status. Otherwise every todo is listed |
| Controller.SearchTakesPrecedence | src/main/java/com/project/todo/controller/TodoController.java:28-29 | With a non-empty search the status parameter does not affect the answer |
| Controller.ListAllIsNewestFirst | src/main/java/com/project/todo/controller/TodoController.java:32-34 | With neither parameter, or an empty search, every todo is listed once and newest first |
| Controller.GetAllTodosOnce | src/main/java/com/project/todo/controller/TodoController.java:28-34 | On a well-keyed table every branch lists each todo at most once |
| Controller.GetTodoById | src/main/java/com/project/todo/controller/TodoController.java:40-45 | 200 with the todo exactly when it is stored, else 404 with no body |
| Controller.CreateTodo | src/main/java/com/project/todo/controller/TodoController.java:48-52 | 201 with the request's todo under the id the repository issues; the table gains exactly that row, keeps every other row and stays well keyed |
| Controller.OkOrNotFound | src/main/java/com/project/todo/controller/TodoController.java:59-64 | 200 with the service's todo exactly when it returned one, 404 with no body exactly when it threw |
| Controller.UpdateTodo | src/main/java/com/project/todo/controller/TodoController.java:55-65 | 200 with the updated todo under its stored id exactly when the id is stored, else 404 |
| Controller.ToggleComplete | src/main/java/com/project/todo/controller/TodoController.java:68-76 | 200 exactly when the id is stored, with only completed negated; else 404 |
| Controller.DeleteTodo | src/main/java/com/project/todo/controller/TodoController.java:79-83 | 204 with no body; the table loses the id, if present, and keeps every other row |
| Controller.DeleteThenGetAnswers | src/main/java/com/project/todo/controller/TodoController.java:79-83 | In the table a delete leaves, getting that id answers 404 and every other id answers as before |
| Controller.CreateThenGetAnswers | src/main/java/com/project/todo/controller/TodoController.java:48-52 | In the table a create leaves, getting the new id answers 200 with the body of the 201, and every other id answers as before |

## Left out

- Requests and transport are not modelled as I/O: `fetch`, JSON parsing, HTTP and Spring's request binding are absent. Each outcome the client waits for is a handler parameter:
  - `created` and `ok` are booleans;
  - a load is a `LoadResponse`, where a non-ok status, a thrown `fetch` and a body that does not parse are all `LoadFailed`.
- The DOM is not modelled. `innerHTML` markup, `escapeHtml`, the tab buttons' `classList` and the counters' `textContent` are reduced to which rows or message the list shows and which counts are shown.
- `alert`, `showError` and `console.error` have no effect on the model. The answer to `confirm` is the `confirmed` parameter.
- The client's handlers run to completion one at a time. Interleaved `async` handlers, and load responses that arrive out of order, are not modelled.
- The page's start-up call to `loadTodos` is not modelled. The list area starts `Blank` until the first render.
- The search box's text is a field that `HandleSearch` sets. The browser updates that text itself before the `input` event.
- JPA, `@Transactional` rollback, `@Valid` bean validation and `@CrossOrigin` are not modelled. The `Todo` entity class is not part of this model; `completed` is a plain boolean, never null.
- The text of the "Todo not found with id" exception is not modelled. Only the failure and its id are kept.
- Ids are unbounded integers, not 64-bit `Long`s.
- Service.AllTodos: orders by decreasing id, not by `createdAt`. The entity's timestamp source is not part of this model. Ids are issued in increasing order, so newest first is decreasing id.
- Service.TodoService.CreateTodo: always assigns a fresh id. A client-supplied id that JPA would merge onto an existing row is not modelled.
- Service.TodoService.DeleteTodo: deleting an absent id does nothing, as `deleteById` does in Spring Data 3. Older versions threw `EmptyResultDataAccessException`.
- Service.SearchTodos and App.SearchTerm: case-insensitivity covers ASCII letters only (Text.Lower). Full Unicode case folding is not modelled.
- Controller.UpdateTodo and Controller.ToggleComplete: their `catch (RuntimeException e)` answers 404 for every runtime failure, such as a data-access error on `save` or a null `completed` at TodoService.java line 55. The model keeps only the absent-id cause, so there 404 means exactly that the id is absent.
- Runtime failures in the other handlers, such as database errors in get, list, create or delete, are not modelled. The source leaves them to the framework's error handling.
- The rows' checkboxes are reduced to the set of rows clicked since the last draw. The browser's own flip of a clicked box is the first step of ToggleTodo.

## Findings

| source | as written | input that shows it | evidently intended | confidence | as-written member | corrected member |
|---|---|---|---|---|---|---|
| src/main/resources/static/app.js:73-88 | The browser flips the clicked checkbox before `toggleTodo` runs (lines 158-162). When the PATCH fails, or it succeeds and the reload fails (lines 34-37), nothing redraws the list, so that box shows the opposite of the cached `completed` (App.StaleAfterFailedToggle) | a click on an open todo's box while the PATCH answers 500 | the list is redrawn from the cache after a failure, so every box shows its todo's state | medium, not executed | App.TodoApp.ToggleTodo | App.TodoApp.ToggleTodoResync |
