/** The browser client (app.js): a cache of todos fetched from the service,
    the selected status filter and search box, the list and stats derived
    from them, and the handlers that send requests and reload the cache.
    Each network exchange is given as an outcome parameter; the DOM is
    reduced to which list or empty-state message is on screen. */
module App {
  import opened Wrappers
  import opened Text
  import opened Sequences
  import opened Todos

  // ---------------------------------------------------------------------
  // The derived view

  /** The status filter of a tab button: "active" keeps open todos,
      "completed" keeps finished ones, any other value keeps everything. */
  predicate PassesFilter(filter: string, t: Todo) {
    if filter == "active" then !t.completed
    else if filter == "completed" then t.completed
    else true
  }

  /** The search box's text, lower-cased and then trimmed. It is empty,
      and so imposes no restriction, exactly when the text is blank. */
  function SearchTerm(raw: string): (term: string)
    ensures term == [] <==> AllSpace(raw)
    ensures term == [] || (!IsSpace(term[0]) && !IsSpace(term[|term| - 1]))
  {
    LowerKeepsSpaces(raw);
    TrimEmptyIff(Lower(raw));
    TrimEnds(Lower(raw));
    Trim(Lower(raw))
  }

  /** A todo matches a (non-empty) term when its lower-cased title contains
      it, or when it has a non-empty description whose lower-cased form
      contains it. */
  predicate PassesSearch(term: string, t: Todo) {
    || Contains(Lower(t.title), term)
    || (t.description.Some? && t.description.value != "" && Contains(Lower(t.description.value), term))
  }

  /** The search step's condition, as a value that can be handed to Select. */
  function Matching(term: string): Todo -> bool {
    t => PassesSearch(term, t)
  }

  /** The condition a todo must meet to be listed: the filter, and the search
      when the term is not empty. */
  function Visible(filter: string, term: string): Todo -> bool {
    t => PassesFilter(filter, t) && (term == [] || PassesSearch(term, t))
  }

  /** The listed todos, in one pass over the cache. */
  function View(all: seq<Todo>, filter: string, term: string): seq<Todo> {
    Select(all, Visible(filter, term))
  }

  /** The view keeps the cache's order: it is a subsequence of it. */
  lemma ViewIsSubsequence(all: seq<Todo>, filter: string, term: string)
    ensures IsSubsequence(View(all, filter, term), all)
  {
    SelectIsSubsequence(all, Visible(filter, term));
  }

  /** The view holds exactly the cached todos that pass the filter and, when
      the term is not empty, the search. */
  lemma ViewMembers(all: seq<Todo>, filter: string, term: string)
    ensures forall t :: t in View(all, filter, term) <==>
              t in all && PassesFilter(filter, t) && (term == [] || PassesSearch(term, t))
  {
    SelectMembers(all, Visible(filter, term));
  }

  /** Without a search term, "active" keeps exactly the open todos, in order,
      "completed" exactly the finished ones, and any other filter all of them. */
  lemma FilterOnly(all: seq<Todo>, filter: string)
    ensures View(all, filter, []) ==
              if filter == "active" then Select(all, IsActive)
              else if filter == "completed" then Select(all, IsCompleted)
              else all
  {
    if filter == "active" {
      SelectCongruent(all, Visible(filter, []), IsActive);
    } else if filter == "completed" {
      SelectCongruent(all, Visible(filter, []), IsCompleted);
    } else {
      SelectKeepsAll(all, Visible(filter, []));
    }
  }

  /** The search only narrows the filtered list: with a term, the view is a
      subsequence of the view without one. */
  lemma SearchNarrows(all: seq<Todo>, filter: string, term: string)
    ensures IsSubsequence(View(all, filter, term), View(all, filter, []))
  {
    SelectMonotone(all, Visible(filter, term), Visible(filter, []));
  }

  /** Searching the filtered list, as the render step does, gives the
      one-pass view. */
  lemma SearchAfterFilter(all: seq<Todo>, filter: string, term: string)
    requires term != []
    ensures Select(View(all, filter, []), Matching(term)) == View(all, filter, term)
  {
    SelectTwice(all, Visible(filter, []), Matching(term), Visible(filter, term));
  }

  /** The worked example: an open "Buy milk" and a finished "Pay bills".
      The "active" tab lists only the first. */
  lemma ExampleActiveTab()
    ensures var milk := Todo(1, "Buy milk", None, false);
            var bills := Todo(2, "Pay bills", None, true);
            ScreenFor([milk, bills], "active", "") == Rows([milk])
  {
    var milk := Todo(1, "Buy milk", None, false);
    var bills := Todo(2, "Pay bills", None, true);
    assert SearchTerm("") == "";
    FilterOnly([milk, bills], "active");
  }

  /** In the worked example, the "completed" tab lists only "Pay bills". */
  lemma ExampleCompletedTab()
    ensures var milk := Todo(1, "Buy milk", None, false);
            var bills := Todo(2, "Pay bills", None, true);
            ScreenFor([milk, bills], "completed", "") == Rows([bills])
  {
    var milk := Todo(1, "Buy milk", None, false);
    var bills := Todo(2, "Pay bills", None, true);
    assert SearchTerm("") == "";
    FilterOnly([milk, bills], "completed");
  }

  /** In the worked example, searching "pay" under "all" lists only
      "Pay bills": the search is case-insensitive. */
  lemma ExampleSearch()
    ensures var milk := Todo(1, "Buy milk", None, false);
            var bills := Todo(2, "Pay bills", None, true);
            ScreenFor([milk, bills], "all", "pay") == Rows([bills])
  {
    var milk := Todo(1, "Buy milk", None, false);
    var bills := Todo(2, "Pay bills", None, true);
    ExampleTerm();
    ExampleMatches();
    var visible := Visible("all", "pay");
    assert !visible(milk) && visible(bills);
    assert Select([bills], visible) == [bills] + Select([], visible);
    assert Select([milk, bills], visible) == Select([bills], visible);
  }

  lemma ExampleTerm()
    ensures SearchTerm("pay") == "pay"
  {
    var lowered := Lower("pay");
    assert lowered == "pay";
    assert !IsSpace(lowered[0]) && !IsSpace(lowered[2]);
    assert TrimStart(lowered) == lowered;
    assert TrimEnd(lowered) == lowered;
  }

  lemma ExampleMatches()
    ensures !PassesSearch("pay", Todo(1, "Buy milk", None, false))
    ensures PassesSearch("pay", Todo(2, "Pay bills", None, true))
  {
    var milkTitle := Lower("Buy milk");
    forall i | 0 <= i < |milkTitle| ensures milkTitle[i] != 'p' {
      assert milkTitle[i] == LowerChar("Buy milk"[i]);
    }
    FirstCharAbsent(milkTitle, "pay");
    var billsTitle := Lower("Pay bills");
    assert billsTitle[..3] == "pay";
  }

  // ---------------------------------------------------------------------
  // What the list area shows

  datatype EmptyMessage = NoMatches | NoTodosYet

  function MessageText(m: EmptyMessage): string {
    match m
    case NoMatches => "No todos found matching your search"
    case NoTodosYet => "No todos yet. Add one to get started!"
  }

  /** Blank is the list area before the first render. */
  datatype Screen = Blank | EmptyState(message: EmptyMessage) | Rows(todos: seq<Todo>)

  /** The list area for a cache, filter and search-box text: the view's rows,
      or, when the view is empty, the "no matches" message if the search
      box holds a term and the "no todos yet" message otherwise. */
  function ScreenFor(all: seq<Todo>, filter: string, raw: string): Screen {
    var term := SearchTerm(raw);
    var view := View(all, filter, term);
    if view == [] then EmptyState(if term != [] then NoMatches else NoTodosYet) else Rows(view)
  }

  /** A render never leaves the list area blank; it shows a message exactly
      when the view is empty, "no matches" exactly when the search box is
      not blank, and otherwise the view's rows. */
  lemma ScreenForShows(all: seq<Todo>, filter: string, raw: string)
    ensures var r := ScreenFor(all, filter, raw);
            && r != Blank
            && (r.EmptyState? <==> View(all, filter, SearchTerm(raw)) == [])
            && (r.EmptyState? ==> (r.message == NoMatches <==> !AllSpace(raw)))
            && (r.EmptyState? ==>
                  MessageText(r.message) == (if AllSpace(raw) then "No todos yet. Add one to get started!"
                                             else "No todos found matching your search"))
            && (r.Rows? ==> r.todos == View(all, filter, SearchTerm(raw)))
  {
  }

  // ---------------------------------------------------------------------
  // The rows' checkboxes

  /** The set after one more click on the checkbox of row `id`. */
  function Flip(flipped: set<int>, id: int): set<int> {
    if id in flipped then flipped - {id} else flipped + {id}
  }

  /** Whether the checkbox of row `t` is ticked, when `flipped` holds the
      rows whose box was clicked an odd number of times since the list was
      last drawn (drawing ticks exactly the completed rows). */
  function CheckboxTicked(flipped: set<int>, t: Todo): bool {
    if t.id in flipped then !t.completed else t.completed
  }

  /** A box shows its todo's cached state exactly when it has not been
      flipped since the list was drawn. */
  lemma TickedIffNotFlipped(flipped: set<int>, t: Todo)
    ensures CheckboxTicked(flipped, t) == t.completed <==> t.id !in flipped
  {
  }

  /** On a page whose boxes all agree with the cache, a click on a row whose
      toggle then fails leaves that row's box showing the opposite of the
      cached state. */
  lemma StaleAfterFailedToggle(t: Todo)
    ensures CheckboxTicked(Flip({}, t.id), t) != t.completed
  {
  }

  // ---------------------------------------------------------------------
  // Stats

  datatype Stats = Stats(total: nat, active: nat, completed: nat)

  /** The three counts over the whole cache: every todo is either active or
      completed, so the two counts add up to the total. */
  function StatsOf(all: seq<Todo>): Stats {
    Stats(|all|, |Select(all, IsActive)|, |Select(all, IsCompleted)|)
  }

  /** The active and completed counts add up to the total. */
  lemma StatsAddUp(all: seq<Todo>)
    ensures StatsOf(all).active + StatsOf(all).completed == StatsOf(all).total
  {
    SelectSplits(all, IsActive, IsCompleted);
  }

  // ---------------------------------------------------------------------
  // Requests and responses

  /** The body of a create request. */
  datatype NewTodo = NewTodo(title: string, description: string, completed: bool)

  datatype Request = FetchAll | Post(payload: NewTodo) | PatchToggle(id: int) | DeleteById(id: int)

  /** The outcome of GET /api/todos: the parsed list, or any failure
      (the request threw, the status was not ok, or the body did not parse). */
  datatype LoadResponse = Loaded(todos: seq<Todo>) | LoadFailed

  /** The cache after a load: replaced on success, kept on failure. */
  function AfterLoad(cache: seq<Todo>, response: LoadResponse): (r: seq<Todo>)
    ensures response.LoadFailed? ==> r == cache
    ensures response.Loaded? ==> r == response.todos
  {
    match response
    case Loaded(todos) => todos
    case LoadFailed => cache
  }

  // ---------------------------------------------------------------------
  // The page controller

  class TodoApp {
    var allTodos: seq<Todo>
    var currentFilter: string
    var searchInput: string
    var titleInput: string
    var descriptionInput: string
    var shown: Screen
    var stats: Option<Stats>
    /** The rows whose checkbox the browser has flipped since the list was
        last drawn (see CheckboxTicked). */
    var flipped: set<int>
    /** Every request sent, in order. */
    var sent: seq<Request>

    /** Once drawn, the list area shows what the cache, filter and search box
        call for, and the counters count the cache. The rows' checkboxes are
        outside this invariant: a click flips one before any request. */
    ghost predicate Valid()
      reads this`shown, this`stats, this`allTodos, this`currentFilter, this`searchInput
    {
      && (shown != Blank ==> shown == ScreenFor(allTodos, currentFilter, searchInput))
      && (stats.Some? ==> stats.value == StatsOf(allTodos))
    }

    constructor ()
      ensures Valid()
      ensures allTodos == [] && currentFilter == "all" && searchInput == ""
      ensures titleInput == "" && descriptionInput == ""
      ensures shown == Blank && stats == None && flipped == {} && sent == []
    {
      allTodos := [];
      currentFilter := "all";
      searchInput := "";
      titleInput := "";
      descriptionInput := "";
      shown := Blank;
      stats := None;
      flipped := {};
      sent := [];
    }

    /** renderTodos: filter the cache, then search, then show the rows or
        the empty-state message. Redrawing replaces every row, so every
        checkbox again shows its todo's state. */
    method RenderTodos()
      modifies this`shown, this`flipped
      ensures shown == ScreenFor(allTodos, currentFilter, searchInput)
      ensures flipped == {}
    {
      var filtered := allTodos;
      if currentFilter == "active" {
        filtered := Select(filtered, IsActive);
      } else if currentFilter == "completed" {
        filtered := Select(filtered, IsCompleted);
      }
      FilterOnly(allTodos, currentFilter);
      var term := SearchTerm(searchInput);
      if term != [] {
        SearchAfterFilter(allTodos, currentFilter, term);
        filtered := Select(filtered, Matching(term));
      }
      assert filtered == View(allTodos, currentFilter, term);
      ScreenForShows(allTodos, currentFilter, searchInput);
      if |filtered| == 0 {
        shown := EmptyState(if term != [] then NoMatches else NoTodosYet);
      } else {
        shown := Rows(filtered);
      }
      flipped := {};
    }

    /** updateStats: recount over the whole cache. */
    method UpdateStats()
      modifies this`stats
      ensures stats == Some(StatsOf(allTodos))
    {
      var active := Select(allTodos, IsActive);
      var completed := Select(allTodos, IsCompleted);
      stats := Some(Stats(|allTodos|, |active|, |completed|));
    }

    /** loadTodos: the cache is replaced, and list and stats redrawn, only
        after a successful response. */
    method LoadTodos(response: LoadResponse)
      requires Valid()
      modifies this`sent, this`allTodos, this`shown, this`stats, this`flipped
      ensures Valid()
      ensures sent == old(sent) + [FetchAll]
      ensures allTodos == AfterLoad(old(allTodos), response)
      ensures response.Loaded? ==> shown == ScreenFor(allTodos, currentFilter, searchInput)
      ensures response.Loaded? ==> stats == Some(StatsOf(allTodos)) && flipped == {}
      ensures response.LoadFailed? ==> shown == old(shown) && stats == old(stats) && flipped == old(flipped)
    {
      sent := sent + [FetchAll];
      if response.LoadFailed? {
        return;
      }
      allTodos := response.todos;
      RenderTodos();
      UpdateStats();
    }

    /** handleAddTodo: a title that is empty after trimming (one that is all
        whitespace, by TrimEmptyIff) sends nothing and changes nothing;
        otherwise the trimmed fields are posted with completed = false, and
        only on success are the inputs cleared and the cache reloaded. */
    method HandleAddTodo(created: bool, reload: LoadResponse)
      requires Valid()
      modifies this`sent, this`allTodos, this`shown, this`stats, this`flipped
      modifies this`titleInput, this`descriptionInput
      ensures Valid()
      ensures Trim(old(titleInput)) == [] ==> unchanged(this)
      ensures Trim(old(titleInput)) != [] ==>
                sent == old(sent) + [Post(NewTodo(Trim(old(titleInput)), Trim(old(descriptionInput)), false))]
                                  + (if created then [FetchAll] else [])
      ensures allTodos == if created && Trim(old(titleInput)) != [] then AfterLoad(old(allTodos), reload) else old(allTodos)
      ensures created && Trim(old(titleInput)) != [] ==> titleInput == "" && descriptionInput == ""
      ensures !created ==> titleInput == old(titleInput) && descriptionInput == old(descriptionInput)
      ensures created && Trim(old(titleInput)) != [] && reload.Loaded? ==>
                shown == ScreenFor(allTodos, currentFilter, searchInput) && stats == Some(StatsOf(allTodos)) && flipped == {}
      ensures !(created && Trim(old(titleInput)) != [] && reload.Loaded?) ==>
                shown == old(shown) && stats == old(stats) && flipped == old(flipped)
    {
      var title := Trim(titleInput);
      var description := Trim(descriptionInput);
      if title == [] {
        return;
      }
      var post := [Post(NewTodo(title, description, false))];
      sent := sent + post;
      if !created {
        assert sent == old(sent) + post + [];
        return;
      }
      titleInput, descriptionInput := "", "";
      LoadTodos(reload);
      assert sent == old(sent) + post + [FetchAll];
    }

    /** toggleTodo, as written: the browser flips the clicked box, then the
        toggle request is sent and the cache reloaded only if it succeeded.
        Nothing redraws the list when the request or the reload fails, so
        the clicked box is left flipped (StaleAfterFailedToggle). */
    method ToggleTodo(id: int, ok: bool, reload: LoadResponse)
      requires Valid()
      modifies this`sent, this`allTodos, this`shown, this`stats, this`flipped
      ensures Valid()
      ensures sent == old(sent) + [PatchToggle(id)] + (if ok then [FetchAll] else [])
      ensures allTodos == if ok then AfterLoad(old(allTodos), reload) else old(allTodos)
      ensures ok && reload.Loaded? ==>
                shown == ScreenFor(allTodos, currentFilter, searchInput) && stats == Some(StatsOf(allTodos)) && flipped == {}
      ensures !(ok && reload.Loaded?) ==>
                shown == old(shown) && stats == old(stats) && flipped == Flip(old(flipped), id)
    {
      flipped := Flip(flipped, id);
      sent := sent + [PatchToggle(id)];
      if ok {
        LoadTodos(reload);
      }
    }

    /** toggleTodo, corrected: as ToggleTodo, but when the request or the
        reload fails the list is redrawn from the cache, so every box again
        shows its todo's cached state. */
    method ToggleTodoResync(id: int, ok: bool, reload: LoadResponse)
      requires Valid()
      modifies this`sent, this`allTodos, this`shown, this`stats, this`flipped
      ensures Valid()
      ensures sent == old(sent) + [PatchToggle(id)] + (if ok then [FetchAll] else [])
      ensures allTodos == if ok then AfterLoad(old(allTodos), reload) else old(allTodos)
      ensures shown == ScreenFor(allTodos, currentFilter, searchInput) && flipped == {}
      ensures ok && reload.Loaded? ==> stats == Some(StatsOf(allTodos))
      ensures !(ok && reload.Loaded?) ==> stats == old(stats)
    {
      flipped := Flip(flipped, id);
      sent := sent + [PatchToggle(id)];
      if ok {
        LoadTodos(reload);
      }
      if !(ok && reload.Loaded?) {
        RenderTodos();
      }
    }

    /** deleteTodo: a declined confirmation sends nothing and changes nothing;
        otherwise the delete request is sent and the cache reloaded only if
        it succeeded. */
    method DeleteTodo(id: int, confirmed: bool, ok: bool, reload: LoadResponse)
      requires Valid()
      modifies this`sent, this`allTodos, this`shown, this`stats, this`flipped
      ensures Valid()
      ensures !confirmed ==> unchanged(this)
      ensures confirmed ==> sent == old(sent) + [DeleteById(id)] + (if ok then [FetchAll] else [])
      ensures allTodos == if confirmed && ok then AfterLoad(old(allTodos), reload) else old(allTodos)
      ensures confirmed && ok && reload.Loaded? ==>
                shown == ScreenFor(allTodos, currentFilter, searchInput) && stats == Some(StatsOf(allTodos)) && flipped == {}
      ensures !(confirmed && ok && reload.Loaded?) ==>
                shown == old(shown) && stats == old(stats) && flipped == old(flipped)
    {
      if !confirmed {
        return;
      }
      sent := sent + [DeleteById(id)];
      if ok {
        LoadTodos(reload);
      }
    }

    /** handleFilterChange: select a filter and redraw from the cache,
        without a request. */
    method HandleFilterChange(filter: string)
      requires Valid()
      modifies this`currentFilter, this`shown, this`flipped
      ensures Valid()
      ensures currentFilter == filter
      ensures shown == ScreenFor(allTodos, filter, searchInput) && flipped == {}
    {
      currentFilter := filter;
      RenderTodos();
    }

    /** handleSearch, fired when the search box's text becomes `text`:
        redraw from the cache, without a request. */
    method HandleSearch(text: string)
      requires Valid()
      modifies this`searchInput, this`shown, this`flipped
      ensures Valid()
      ensures searchInput == text
      ensures shown == ScreenFor(allTodos, currentFilter, text) && flipped == {}
    {
      searchInput := text;
      RenderTodos();
    }
  }
}
