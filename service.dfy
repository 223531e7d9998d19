/** The task store (TodoService.java over TodoRepository.java): the table of
    todos keyed by id, its read-only queries as functions over the table,
    and the mutations as methods of a class that holds it. */
module Service {
  import opened Wrappers
  import opened Text
  import opened Sequences
  import opened Todos

  /** The todo table, keyed by id. */
  type Store = map<int, Todo>

  /** Every row is stored under its own id. */
  predicate WellKeyed(m: Store) {
    forall k :: k in m ==> m[k].id == k
  }

  /** The RuntimeException "Todo not found with id: <id>". */
  datatype ServiceError = NotFound(id: int)

  // ---------------------------------------------------------------------
  // Queries

  /** Some key of a non-empty key set. */
  lemma SomeKey(keys: set<int>) returns (k: int)
    requires keys != {}
    ensures k in keys
  {
    if forall j :: j !in keys {
      assert false;
    }
    k :| k in keys;
  }

  /** The key a stored todo sits under. */
  lemma KeyOf(m: Store, t: Todo) returns (k: int)
    requires t in m.Values
    ensures k in m && m[k] == t
  {
    if forall j :: j in m ==> m[j] != t {
      assert false;
    }
    k :| k in m && m[k] == t;
  }

  predicate IsLargest(k: int, keys: set<int>) {
    k in keys && forall j :: j in keys ==> j <= k
  }

  /** A non-empty key set has a largest key, by induction on the set. */
  lemma {:induction false} LargestExists(keys: set<int>)
    requires keys != {}
    ensures exists k :: IsLargest(k, keys)
    decreases keys
  {
    var x := SomeKey(keys);
    if keys == {x} {
      assert IsLargest(x, keys);
    } else {
      var rest := keys - {x};
      LargestExists(rest);
      var y :| IsLargest(y, rest);
      var top := if x > y then x else y;
      forall j | j in keys ensures j <= top {
        if j != x { assert j in rest; }
      }
      assert IsLargest(top, keys);
    }
  }

  function Largest(keys: set<int>): (k: int)
    requires keys != {}
    ensures IsLargest(k, keys)
  {
    LargestExists(keys);
    var k :| IsLargest(k, keys);
    k
  }

  /** Ids strictly decrease along the list. */
  predicate NewestFirst(s: seq<Todo>) {
    forall i, j :: 0 <= i < j < |s| ==> s[i].id > s[j].id
  }

  /** findAllByOrderByCreatedAtDesc: every stored todo exactly once, in the
      order of AllTodosNewestFirst. */
  function AllTodos(m: Store): (r: seq<Todo>)
    ensures |r| == |m|
    ensures forall t :: t in r <==> t in m.Values
    decreases |m|
  {
    if m == map[] then []
    else
      var k := Largest(m.Keys);
      var rest := m - {k};
      assert m.Keys == rest.Keys + {k};
      assert forall t :: t in m.Values <==> t == m[k] || t in rest.Values;
      [m[k]] + AllTodos(rest)
  }

  /** The listing is newest first. Ids are issued in increasing order, so
      newest first is by decreasing id. */
  lemma {:induction false} AllTodosNewestFirst(m: Store)
    requires WellKeyed(m)
    ensures NewestFirst(AllTodos(m))
    decreases |m|
  {
    if m != map[] {
      var k := Largest(m.Keys);
      var rest := m - {k};
      assert m.Keys == rest.Keys + {k};
      AllTodosNewestFirst(rest);
      var older := AllTodos(rest);
      assert AllTodos(m) == [m[k]] + older;
      forall t | t in older ensures t.id < k {
        var j := KeyOf(rest, t);
      }
    }
  }

  /** On a well-keyed table the listing holds each stored todo once. */
  lemma AllTodosOnce(m: Store)
    requires WellKeyed(m)
    ensures NoDuplicates(AllTodos(m))
  {
    AllTodosNewestFirst(m);
  }

  /** findById. */
  function TodoById(m: Store, id: int): (r: Option<Todo>)
    ensures r.Some? <==> id in m
    ensures r.Some? ==> r.value == m[id]
  {
    if id in m then Some(m[id]) else None
  }

  function HasStatus(completed: bool): Todo -> bool {
    (t: Todo) => t.completed == completed
  }

  /** findByCompleted: exactly the stored todos with that status. */
  function TodosByStatus(m: Store, completed: bool): (r: seq<Todo>)
    ensures forall t :: t in r <==> t in m.Values && t.completed == completed
  {
    SelectMembers(AllTodos(m), HasStatus(completed));
    Select(AllTodos(m), HasStatus(completed))
  }

  /** On a well-keyed table each todo with the status is listed once. */
  lemma TodosByStatusOnce(m: Store, completed: bool)
    requires WellKeyed(m)
    ensures NoDuplicates(TodosByStatus(m, completed))
  {
    AllTodosOnce(m);
    SelectNoDuplicates(AllTodos(m), HasStatus(completed));
  }

  function TitleContains(keyword: string): Todo -> bool {
    (t: Todo) => Contains(Lower(t.title), Lower(keyword))
  }

  /** findByTitleContainingIgnoreCase: exactly the stored todos whose title
      contains the keyword, ignoring case; the description is not searched. */
  function SearchTodos(m: Store, keyword: string): (r: seq<Todo>)
    ensures forall t :: t in r <==> t in m.Values && Contains(Lower(t.title), Lower(keyword))
  {
    SelectMembers(AllTodos(m), TitleContains(keyword));
    Select(AllTodos(m), TitleContains(keyword))
  }

  /** On a well-keyed table each matching todo is listed once. */
  lemma SearchTodosOnce(m: Store, keyword: string)
    requires WellKeyed(m)
    ensures NoDuplicates(SearchTodos(m, keyword))
  {
    AllTodosOnce(m);
    SelectNoDuplicates(AllTodos(m), TitleContains(keyword));
  }

  // ---------------------------------------------------------------------
  // Mutations, as functions of the table

  /** toggleComplete's result: the found todo with `completed` negated, or
      NotFound when the id is absent. */
  function Toggle(m: Store, id: int): (r: Result<Todo, ServiceError>)
    ensures r.Failure? <==> id !in m
    ensures r.Failure? ==> r.error == NotFound(id)
    ensures r.Success? ==> r.value.completed != m[id].completed
    ensures r.Success? ==> r.value.(completed := m[id].completed) == m[id]
  {
    if id !in m then Failure(NotFound(id))
    else
      var todo := m[id];
      Success(todo.(completed := !todo.completed))
  }

  /** updateTodo's result: the found todo with title, description and
      completed taken from `details` and its own id kept, or NotFound. */
  function Update(m: Store, id: int, details: Todo): (r: Result<Todo, ServiceError>)
    ensures r.Failure? <==> id !in m
    ensures r.Failure? ==> r.error == NotFound(id)
    ensures r.Success? ==> r.value == details.(id := m[id].id)
  {
    if id !in m then Failure(NotFound(id))
    else
      var todo := m[id];
      Success(todo.(title := details.title, description := details.description, completed := details.completed))
  }

  /** The table after `save` of a mutation's result: the saved row replaces
      the one under its id; a failed mutation saves nothing. */
  function Persist(m: Store, r: Result<Todo, ServiceError>): (m': Store)
    ensures r.Failure? ==> m' == m
    ensures r.Success? ==> m'.Keys == m.Keys + {r.value.id}
    ensures r.Success? ==> r.value.id in m' && m'[r.value.id] == r.value
    ensures forall k :: k in m && (r.Failure? || k != r.value.id) ==> k in m' && m'[k] == m[k]
  {
    match r
    case Success(todo) => m[todo.id := todo]
    case Failure(_) => m
  }

  /** The table after toggleComplete(id). */
  function AfterToggle(m: Store, id: int): Store {
    Persist(m, Toggle(m, id))
  }

  /** On a well-keyed table a toggle rewrites only the row of `id`, and keeps
      the table well keyed. */
  lemma ToggleTouchesOnlyId(m: Store, id: int)
    requires WellKeyed(m)
    ensures WellKeyed(AfterToggle(m, id))
    ensures AfterToggle(m, id).Keys == m.Keys
    ensures forall k :: k in m && k != id ==> AfterToggle(m, id)[k] == m[k]
    ensures id in m ==> AfterToggle(m, id)[id].completed == !m[id].completed
  {
  }

  /** Toggling the same id twice restores the table. */
  lemma {:induction false} ToggleTwice(m: Store, id: int)
    requires WellKeyed(m)
    ensures AfterToggle(AfterToggle(m, id), id) == m
  {
    ToggleTouchesOnlyId(m, id);
    var once := AfterToggle(m, id);
    var twice := AfterToggle(once, id);
    ToggleTouchesOnlyId(once, id);
    if id in m {
      assert twice[id] == m[id];
    }
    assert twice.Keys == m.Keys;
  }

  /** On a well-keyed table an update rewrites only the row of `id`, keeps
      its id, and keeps the table well keyed. */
  lemma UpdateTouchesOnlyId(m: Store, id: int, details: Todo)
    requires WellKeyed(m)
    ensures var m' := Persist(m, Update(m, id, details));
            && WellKeyed(m')
            && m'.Keys == m.Keys
            && (forall k :: k in m && k != id ==> m'[k] == m[k])
            && (id in m ==> m'[id] == details.(id := id))
  {
  }

  /** deleteById followed by findById: the deleted id is gone and every
      other id finds what it found before. */
  lemma DeleteThenGet(m: Store, id: int)
    ensures TodoById(m - {id}, id) == None
    ensures forall k :: k != id ==> TodoById(m - {id}, k) == TodoById(m, k)
  {
  }

  // ---------------------------------------------------------------------
  // The service object

  class TodoService {
    var todos: Store
    /** The id the repository assigns to the next saved new todo. */
    var nextId: int

    ghost predicate Valid()
      reads this
    {
      WellKeyed(todos) && forall k :: k in todos ==> k < nextId
    }

    constructor ()
      ensures Valid() && todos == map[]
    {
      todos := map[];
      nextId := 1;
    }

    /** createTodo: save a new todo; it gets a fresh id and is then found
        under that id, and no other row changes. */
    method CreateTodo(todo: Todo) returns (saved: Todo)
      requires Valid()
      modifies this
      ensures Valid()
      ensures saved == todo.(id := saved.id)
      ensures saved.id !in old(todos)
      ensures todos == old(todos)[saved.id := saved]
      ensures TodoById(todos, saved.id) == Some(saved)
    {
      saved := todo.(id := nextId);
      todos := todos[saved.id := saved];
      nextId := nextId + 1;
    }

    /** updateTodo: find, set title, description and completed, save. */
    method UpdateTodo(id: int, details: Todo) returns (r: Result<Todo, ServiceError>)
      requires Valid()
      modifies this
      ensures Valid()
      ensures r == Update(old(todos), id, details)
      ensures todos == Persist(old(todos), r)
      ensures nextId == old(nextId)
    {
      var found := TodoById(todos, id);
      if found.None? {
        return Failure(NotFound(id));
      }
      var todo := found.value;
      todo := todo.(title := details.title);
      todo := todo.(description := details.description);
      todo := todo.(completed := details.completed);
      todos := todos[todo.id := todo];
      r := Success(todo);
    }

    /** toggleComplete: find, negate completed, save. */
    method ToggleComplete(id: int) returns (r: Result<Todo, ServiceError>)
      requires Valid()
      modifies this
      ensures Valid()
      ensures r == Toggle(old(todos), id)
      ensures todos == AfterToggle(old(todos), id)
      ensures nextId == old(nextId)
    {
      var found := TodoById(todos, id);
      if found.None? {
        return Failure(NotFound(id));
      }
      var todo := found.value;
      todo := todo.(completed := !todo.completed);
      todos := todos[todo.id := todo];
      r := Success(todo);
    }

    /** deleteTodo: deleteById, which does nothing for an absent id. */
    method DeleteTodo(id: int)
      requires Valid()
      modifies this
      ensures Valid()
      ensures todos == old(todos) - {id}
      ensures nextId == old(nextId)
    {
      todos := todos - {id};
    }
  }
}
