/** The `TodoApp` component of app/TodoApp.tsx as an object: its state hooks
    are fields, each handler is one atomic step, and the answer of the
    persistence collaborator is a parameter of the handler that awaits it. */
module App {
  import opened Types
  import opened JsString
  import opened Seqs
  import opened Utils
  import opened View
  import opened Store

  /** A new array holding `s`: what a spread, `map` or `filter` allocates. */
  method NewArray(s: seq<Todo>) returns (a: array<Todo>)
    ensures fresh(a) && a[..] == s
  {
    a := new Todo[|s|](i requires 0 <= i < |s| => s[i]);
  }

  /** Lines 31-47: `result` starts as the task array and each stage that
      applies replaces it by a new, filtered array. */
  method FilterStages(todos: array<Todo>, c: Criteria) returns (result: array<Todo>)
    ensures result[..] == Visible(todos[..], c)
    ensures FiltersNothing(c) ==> result == todos
    ensures !FiltersNothing(c) ==> fresh(result)
  {
    result := todos;
    if c.filter == "completed" {
      result := NewArray(Filter(result[..], IsDone));
    } else if c.filter == "active" {
      result := NewArray(Filter(result[..], IsActive));
    }
    assert result[..] == ByStatus(todos[..], c.filter);
    if c.searchQuery != "" {
      result := NewArray(Filter(result[..], MatchesQuery(c.searchQuery)));
    }
    assert result[..] == BySearch(ByStatus(todos[..], c.filter), c.searchQuery);
    if !c.showCompleted {
      result := NewArray(Filter(result[..], IsActive));
    }
  }

  class TodoApp {
    var todos: array<Todo>
    var newTodoTitle: string
    var loading: bool
    var error: Option<string>
    var filter: string
    var sortOrder: string
    var editingId: Option<string>
    var editingTitle: string
    var searchQuery: string
    var showCompleted: bool
    var filteredTodos: array<Todo>

    /** Outside an edit session the edit buffer is empty. */
    ghost predicate Valid()
      reads this
    {
      editingId.None? ==> editingTitle == ""
    }

    /** The derivation inputs held in the state. */
    function CurrentCriteria(): Criteria
      reads this
    {
      Criteria(filter, searchQuery, showCompleted, sortOrder)
    }

    /** The initial values of the state hooks (lines 15-29). */
    constructor ()
      ensures Valid()
      ensures todos[..] == [] && filteredTodos[..] == []
      ensures newTodoTitle == "" && loading && error == None
      ensures filter == "all" && sortOrder == "desc" && searchQuery == "" && showCompleted
      ensures editingId == None && editingTitle == ""
    {
      todos := new Todo[0];
      filteredTodos := new Todo[0];
      newTodoTitle := "";
      loading := true;
      error := None;
      filter := "all";
      sortOrder := "desc";
      editingId := None;
      editingTitle := "";
      searchQuery := "";
      showCompleted := true;
    }

    /** The derivation effect (lines 30-52). When no stage applies, `result` is
        the `todos` array itself and the sort reorders the task list too. */
    method Derive()
      modifies this`filteredTodos, todos
      ensures filteredTodos[..] == DerivedView(old(todos[..]), CurrentCriteria())
      ensures FiltersNothing(CurrentCriteria()) ==> filteredTodos == todos
      ensures !FiltersNothing(CurrentCriteria()) ==> fresh(filteredTodos) && todos[..] == old(todos[..])
    {
      var result := FilterStages(todos, CurrentCriteria());
      result := SortTodos(result, sortOrder);
      filteredTodos := result;
    }

    /** `loadTodos` (lines 67-77). */
    method LoadTodos(reply: Reply<seq<Todo>>) returns (sent: Request)
      requires Valid()
      modifies this`todos, this`error, this`loading
      ensures Valid()
      ensures sent == FetchAll && !loading
      ensures reply.Ok? ==> fresh(todos) && todos[..] == reply.value && error == old(error)
      ensures reply.Err? ==> todos == old(todos) && todos[..] == old(todos[..]) && error == Some(reply.message)
    {
      loading := true;
      sent := FetchAll;
      match reply {
        case Ok(data) =>
          todos := NewArray(data);
        case Err(message) =>
          error := Some(message);
      }
      loading := false;
    }

    /** `handleAddTodo` (lines 79-104): validate the untrimmed input, send it
        unchanged, and append the created task once the server confirms. */
    method HandleAddTodo(reply: Reply<Todo>) returns (sent: Option<Request>)
      requires Valid()
      modifies this`todos, this`newTodoTitle, this`error
      ensures Valid()
      ensures AddTitleError(old(newTodoTitle)).Some? ==>
        && sent == None
        && error == AddTitleError(old(newTodoTitle))
        && todos == old(todos) && newTodoTitle == old(newTodoTitle)
      ensures AddTitleError(old(newTodoTitle)).None? ==> sent == Some(CreateTodo(old(newTodoTitle)))
      ensures AddTitleError(old(newTodoTitle)).None? && reply.Ok? ==>
        && fresh(todos) && todos[..] == old(todos[..]) + [reply.value]
        && newTodoTitle == "" && error == old(error)
      ensures AddTitleError(old(newTodoTitle)).None? && reply.Err? ==>
        && todos == old(todos) && newTodoTitle == old(newTodoTitle)
        && error == Some(reply.message)
      ensures todos == old(todos) ==> todos[..] == old(todos[..])
    {
      ghost var rejection := AddTitleError(newTodoTitle);
      if IsBlank(newTodoTitle) {
        assert rejection == Some(EmptyTitleMessage);
        error := Some(EmptyTitleMessage);
        return None;
      }
      if Utf16Length(newTodoTitle) < MinTitleLength {
        assert rejection == Some(TooShortMessage);
        error := Some(TooShortMessage);
        return None;
      }
      if Utf16Length(newTodoTitle) > MaxTitleLength {
        assert rejection == Some(TooLongMessage);
        error := Some(TooLongMessage);
        return None;
      }
      assert rejection == None;
      var request := CommitAdd(reply);
      sent := Some(request);
    }

    /** The `try` block of `handleAddTodo` (lines 97-103): the title is sent
        as typed and the created task is appended. */
    method CommitAdd(reply: Reply<Todo>) returns (sent: Request)
      requires Valid()
      modifies this`todos, this`newTodoTitle, this`error
      ensures Valid()
      ensures sent == CreateTodo(old(newTodoTitle))
      ensures reply.Ok? ==>
        && fresh(todos) && todos[..] == old(todos[..]) + [reply.value]
        && newTodoTitle == "" && error == old(error)
      ensures reply.Err? ==>
        && todos == old(todos) && todos[..] == old(todos[..])
        && newTodoTitle == old(newTodoTitle) && error == Some(reply.message)
    {
      sent := CreateTodo(newTodoTitle);
      match reply {
        case Ok(newTodo) =>
          todos := NewArray(todos[..] + [newTodo]);
          newTodoTitle := "";
        case Err(message) =>
          error := Some(message);
      }
    }

    /** `handleToggleTodo` (lines 106-118): an unknown id is a no-op; otherwise
        the flag sent is the negation of the first match's, and on success
        every task with that id is flipped. */
    method HandleToggleTodo(id: string, reply: Reply<()>) returns (sent: Option<Request>)
      requires Valid()
      modifies this`todos, this`error
      ensures Valid()
      ensures Find(old(todos[..]), id).None? ==> sent == None && todos == old(todos) && error == old(error)
      ensures Find(old(todos[..]), id).Some? ==>
        sent == Some(UpdateTodo(id, CompletedPatch(!Find(old(todos[..]), id).value.completed)))
      ensures Find(old(todos[..]), id).Some? && reply.Ok? ==>
        fresh(todos) && todos[..] == Toggled(old(todos[..]), id) && error == old(error)
      ensures Find(old(todos[..]), id).Some? && reply.Err? ==>
        todos == old(todos) && error == Some(reply.message)
      ensures todos == old(todos) ==> todos[..] == old(todos[..])
    {
      var todo := Find(todos[..], id);
      if todo.None? {
        return None;
      }
      sent := Some(UpdateTodo(id, CompletedPatch(!todo.value.completed)));
      match reply {
        case Ok(_) =>
          todos := NewArray(Toggled(todos[..], id));
        case Err(message) =>
          error := Some(message);
      }
    }

    /** `handleDeleteTodo` (lines 120-127): the server is always asked; on
        success the tasks with that id are dropped. An edit session on that id
        is left as it is. */
    method HandleDeleteTodo(id: string, reply: Reply<()>) returns (sent: Request)
      requires Valid()
      modifies this`todos, this`error
      ensures Valid()
      ensures sent == DeleteTodo(id)
      ensures reply.Ok? ==> fresh(todos) && todos[..] == Removed(old(todos[..]), id) && error == old(error)
      ensures reply.Err? ==> todos == old(todos) && todos[..] == old(todos[..]) && error == Some(reply.message)
    {
      sent := DeleteTodo(id);
      match reply {
        case Ok(_) =>
          todos := NewArray(Removed(todos[..], id));
        case Err(message) =>
          error := Some(message);
      }
    }

    /** `handleStartEdit` (lines 129-132). */
    method HandleStartEdit(todo: Todo)
      modifies this`editingId, this`editingTitle
      ensures Valid()
      ensures editingId == Some(todo.id) && editingTitle == todo.title
    {
      editingId := Some(todo.id);
      editingTitle := todo.title;
    }

    /** The edit field's `onChange` (line 264), rendered only while editing. */
    method SetEditingTitle(title: string)
      requires Valid() && editingId.Some?
      modifies this`editingTitle
      ensures Valid()
      ensures editingTitle == title
    {
      editingTitle := title;
    }

    /** The add field's `onChange` (line 186). */
    method SetNewTodoTitle(title: string)
      requires Valid()
      modifies this`newTodoTitle
      ensures Valid()
      ensures newTodoTitle == title
    {
      newTodoTitle := title;
    }

    /** `handleSaveEdit` (lines 134-152): only a blank buffer is refused; the
        untrimmed buffer is sent and, on success, becomes the title of every
        task with the edited id and the session ends. On failure the session
        stays open. */
    method HandleSaveEdit(reply: Reply<()>) returns (sent: Option<Request>)
      requires Valid()
      modifies this`todos, this`error, this`editingId, this`editingTitle
      ensures Valid()
      ensures IsBlank(old(editingTitle)) ==>
        && sent == None && error == Some(EmptyTitleMessage) && todos == old(todos)
        && editingId == old(editingId) && editingTitle == old(editingTitle)
      ensures !IsBlank(old(editingTitle)) ==>
        old(editingId).Some? && sent == Some(UpdateTodo(old(editingId).value, TitlePatch(old(editingTitle))))
      ensures !IsBlank(old(editingTitle)) && reply.Ok? ==>
        && fresh(todos) && old(editingId).Some?
        && todos[..] == Renamed(old(todos[..]), old(editingId).value, old(editingTitle))
        && editingId == None && editingTitle == "" && error == old(error)
      ensures !IsBlank(old(editingTitle)) && reply.Err? ==>
        && todos == old(todos) && error == Some(reply.message)
        && editingId == old(editingId) && editingTitle == old(editingTitle)
      ensures todos == old(todos) ==> todos[..] == old(todos[..])
    {
      if IsBlank(editingTitle) {
        error := Some(EmptyTitleMessage);
        return None;
      }
      assert editingTitle != "";
      var request := CommitEdit(reply);
      sent := Some(request);
    }

    /** The `try` block of `handleSaveEdit` (lines 140-151), entered with a
        non-empty buffer and therefore inside an edit session. */
    method CommitEdit(reply: Reply<()>) returns (sent: Request)
      requires Valid() && editingTitle != ""
      modifies this`todos, this`error, this`editingId, this`editingTitle
      ensures Valid()
      ensures old(editingId).Some? && sent == UpdateTodo(old(editingId).value, TitlePatch(old(editingTitle)))
      ensures reply.Ok? ==>
        && fresh(todos) && old(editingId).Some?
        && todos[..] == Renamed(old(todos[..]), old(editingId).value, old(editingTitle))
        && editingId == None && editingTitle == "" && error == old(error)
      ensures reply.Err? ==>
        && todos == old(todos) && todos[..] == old(todos[..]) && error == Some(reply.message)
        && editingId == old(editingId) && editingTitle == old(editingTitle)
    {
      var id := editingId.value;
      sent := UpdateTodo(id, TitlePatch(editingTitle));
      match reply {
        case Ok(_) =>
          todos := NewArray(Renamed(todos[..], id, editingTitle));
          editingId := None;
          editingTitle := "";
        case Err(message) =>
          error := Some(message);
      }
    }

    /** `handleCancelEdit` (lines 154-157). */
    method HandleCancelEdit()
      modifies this`editingId, this`editingTitle
      ensures Valid()
      ensures editingId == None && editingTitle == ""
    {
      editingId := None;
      editingTitle := "";
    }
  }
}
