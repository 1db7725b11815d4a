/** The todo list page: the state container holding the list, the selection,
    the todo being edited and whether the form is open. Every networked
    handler issues one service call, takes how that call resolved as a
    parameter, and patches its state only on success. */
module IndexPage {
  import opened Todos
  import opened Selection
  import TodoModal

  class TodoPage {
    var todos: seq<Todo>
    var selectedTodos: seq<int>
    var editingTodo: Option<Todo>
    var isModalOpen: bool

    /** The page mounts with an empty list, no selection, nothing being
        edited and the form closed. */
    constructor ()
      ensures todos == [] && selectedTodos == [] && editingTodo == None && !isModalOpen
    {
      todos := [];
      selectedTodos := [];
      editingTodo := None;
      isModalOpen := false;
    }

    /** Load: on success the fetched list replaces the current one exactly;
        on failure the list stays as it was. */
    method FetchAllTodos(outcome: Outcome<seq<Todo>>) returns (call: ServiceCall)
      modifies this`todos
      ensures call == FetchTodos
      ensures outcome.Success? ==> todos == outcome.value
      ensures outcome.Failure? ==> todos == old(todos)
    {
      call := FetchTodos;
      if outcome.Success? {
        todos := outcome.value;
      }
    }

    /** Save from the form. When a todo is being edited, its id is sent with
        the draft and, on success, every item carrying the id the service
        returned becomes the returned todo. Otherwise the draft is sent as a
        new todo and, on success, the created todo is put at the head of the
        list. Success closes the form; failure changes nothing. */
    method HandleSaveTodo(draft: Draft, outcome: Outcome<Todo>) returns (call: ServiceCall)
      modifies this`todos, this`isModalOpen
      ensures call == if editingTodo.Some? then UpdateTodo(editingTodo.value.id, draft) else AddTodo(draft)
      ensures outcome.Failure? ==> todos == old(todos) && isModalOpen == old(isModalOpen)
      ensures outcome.Success? && editingTodo.Some? ==>
        todos == ReplaceById(old(todos), outcome.value) && !isModalOpen
      ensures outcome.Success? && editingTodo.None? ==>
        todos == [outcome.value] + old(todos) && !isModalOpen
    {
      if editingTodo.Some? {
        call := UpdateTodo(editingTodo.value.id, draft);
        if outcome.Success? {
          todos := ReplaceById(todos, outcome.value);
        }
      } else {
        call := AddTodo(draft);
        if outcome.Success? {
          todos := [outcome.value] + todos;
        }
      }
      if outcome.Success? {
        isModalOpen := false;
      }
    }

    /** Delete button of one item: on success every item with that id is
        removed, the rest keep their order, and the selection is left as it
        was (a deleted id stays selected). */
    method HandleDelete(id: int, outcome: Outcome<()>) returns (call: ServiceCall)
      modifies this`todos
      ensures call == DeleteTodo(id)
      ensures outcome.Success? ==> todos == RemoveById(old(todos), id)
      ensures outcome.Failure? ==> todos == old(todos)
      ensures selectedTodos == old(selectedTodos)
    {
      call := DeleteTodo(id);
      if outcome.Success? {
        todos := RemoveById(todos, id);
      }
    }

    /** Status badge of one item: on success the completion flag of the items
        with that id is negated locally; the todo the service returns is not
        used. */
    method HandleStatusChange(id: int, outcome: Outcome<Todo>) returns (call: ServiceCall)
      modifies this`todos
      ensures call == UpdateTodoStatus(id)
      ensures outcome.Success? ==> todos == ToggleCompleted(old(todos), id)
      ensures outcome.Failure? ==> todos == old(todos)
    {
      call := UpdateTodoStatus(id);
      if outcome.Success? {
        todos := ToggleCompleted(todos, id);
      }
    }

    /** "Delete Selected": the current selection is sent; on success every
        item whose id was selected is removed, the rest keep their order, and
        the selection is cleared. On failure nothing changes. */
    method HandleDeleteSelected(outcome: Outcome<()>) returns (call: ServiceCall)
      modifies this`todos, this`selectedTodos
      ensures call == DeleteTodosByIds(old(selectedTodos))
      ensures outcome.Success? ==> todos == RemoveIds(old(todos), old(selectedTodos)) && selectedTodos == []
      ensures outcome.Failure? ==> todos == old(todos) && selectedTodos == old(selectedTodos)
    {
      call := DeleteTodosByIds(selectedTodos);
      if outcome.Success? {
        todos := RemoveIds(todos, selectedTodos);
        selectedTodos := [];
      }
    }

    /** "Select All" checkbox changed: checked selects the ids of the list in
        list order, unchecked clears the selection. The box is controlled, so
        `checked` is the negation of what it showed before the click (see
        ClickSelectAll). */
    method HandleSelectAll(checked: bool)
      modifies this`selectedTodos
      ensures checked ==> selectedTodos == Ids(todos)
      ensures !checked ==> selectedTodos == []
    {
      if checked {
        selectedTodos := Ids(todos);
      } else {
        selectedTodos := [];
      }
    }

    /** A click on the controlled "Select All" checkbox: the change handler
        receives the negation of the shown state. A checked-looking box
        clears the selection, even when the box only looks checked because
        the selection holds stale ids. */
    method ClickSelectAll()
      modifies this`selectedTodos
      ensures SelectAllChecked(old(selectedTodos), todos) ==> selectedTodos == []
      ensures !SelectAllChecked(old(selectedTodos), todos) ==> selectedTodos == Ids(todos)
    {
      HandleSelectAll(!SelectAllChecked(selectedTodos, todos));
    }

    /** One item's checkbox changed: toggles that id's membership. */
    method HandleSelectTodo(id: int)
      modifies this`selectedTodos
      ensures selectedTodos == ToggleSelection(old(selectedTodos), id)
    {
      selectedTodos := ToggleSelection(selectedTodos, id);
    }

    /** "Add New": nothing is being edited and the form opens. */
    method OpenAddNew()
      modifies this`editingTodo, this`isModalOpen
      ensures editingTodo == None && isModalOpen
    {
      editingTodo := None;
      isModalOpen := true;
    }

    /** Edit button of one item: that item is being edited and the form opens. */
    method OpenEdit(todo: Todo)
      modifies this`editingTodo, this`isModalOpen
      ensures editingTodo == Some(todo) && isModalOpen
    {
      editingTodo := Some(todo);
      isModalOpen := true;
    }

    /** The form's close request. */
    method CloseModal()
      modifies this`isModalOpen
      ensures !isModalOpen
    {
      isModalOpen := false;
    }

    /** The form's Save button wired to this page: the form emits its draft
        to HandleSaveTodo and then requests close at once, without waiting
        for the save. An empty title therefore issues no call and changes
        nothing here, while any other title closes the form whether or not
        the save succeeded. */
    method SubmitModal(form: TodoModal.TodoForm, outcome: Outcome<Todo>) returns (call: Option<ServiceCall>)
      modifies this`todos, this`isModalOpen, form
      ensures old(form.title) == "" ==>
        call == None && todos == old(todos) && isModalOpen == old(isModalOpen)
        && form.title == old(form.title) && form.description == old(form.description)
      ensures old(form.title) != "" ==>
        var draft := Draft(old(form.title), old(form.description));
        && call == Some(if editingTodo.Some? then UpdateTodo(editingTodo.value.id, draft) else AddTodo(draft))
        && !isModalOpen && form.title == "" && form.description == ""
        && (outcome.Failure? ==> todos == old(todos))
        && (outcome.Success? && editingTodo.Some? ==> todos == ReplaceById(old(todos), outcome.value))
        && (outcome.Success? && editingTodo.None? ==> todos == [outcome.value] + old(todos))
    {
      var saved, closeRequested := form.HandleSubmit();
      call := None;
      if saved.Some? {
        var c := HandleSaveTodo(saved.value, outcome);
        call := Some(c);
      }
      if closeRequested {
        CloseModal();
      }
    }
  }

  // ---------------------------------------------------------------------------
  // Properties of the page as a whole

  /** Two successful creates put the newer todo first: the list grows at the
      head in reverse order of creation and the old items keep their order. */
  method CreateTwice(page: TodoPage, first: Todo, second: Todo, draft1: Draft, draft2: Draft)
    requires page.editingTodo.None?
    modifies page
    ensures page.todos == [second, first] + old(page.todos)
  {
    var _ := page.HandleSaveTodo(draft1, Success(first));
    var _ := page.HandleSaveTodo(draft2, Success(second));
  }

  /** Because a single delete leaves its id selected, the "Select All"
      checkbox can show checked while an item is not selected: with items 1
      and 2 and nothing selected, tick item 1 and delete it; the box is then
      checked although item 2 is not selected. */
  method StaleSelectionChecksSelectAll(page: TodoPage)
    requires |page.todos| == 2 && page.todos[0].id == 1 && page.todos[1].id == 2
    requires page.selectedTodos == []
    modifies page
    ensures page.todos == [old(page.todos[1])] && page.selectedTodos == [1]
    ensures SelectAllChecked(page.selectedTodos, page.todos) && 2 !in page.selectedTodos
  {
    page.HandleSelectTodo(1);
    var _ := page.HandleDelete(1, Success(()));
    ghost var b := old(page.todos[1]);
    assert old(page.todos) == [old(page.todos[0])] + [b];
    assert RemoveById([b], 1) == [b];
  }

  /** Ticking "Select All" and then a successful "Delete Selected" empties
      both the list and the selection. */
  method SelectAllThenDeleteSelected(page: TodoPage)
    modifies page
    ensures page.todos == [] && page.selectedTodos == []
  {
    page.HandleSelectAll(true);
    var _ := page.HandleDeleteSelected(Success(()));
    RemoveIdsAll(old(page.todos), Ids(old(page.todos)));
  }
}
