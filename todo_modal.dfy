/** The create/edit form: two text fields, reset from the todo being edited,
    and a submit that refuses an empty title. */
module TodoModal {
  import opened Todos

  /** The submit guard: a draft is emitted exactly when the title is not
      empty, and it carries the current field values. */
  function ValidateDraft(title: string, description: string): (r: Option<Draft>)
    ensures r.Some? <==> title != ""
    ensures r.Some? ==> r.value.title == title && r.value.description == description
  {
    if title == "" then None else Some(Draft(title, description))
  }

  class TodoForm {
    var title: string
    var description: string

    /** Both fields start empty. */
    constructor ()
      ensures title == "" && description == ""
    {
      title := "";
      description := "";
    }

    /** The effect run when the edited todo changes: copy its title and
        description, or clear both fields when there is none. */
    method Reset(todo: Option<Todo>)
      modifies this
      ensures todo.Some? ==> title == todo.value.title && description == todo.value.description
      ensures todo.None? ==> title == "" && description == ""
    {
      if todo.Some? {
        title := todo.value.title;
        description := todo.value.description;
      } else {
        title := "";
        description := "";
      }
    }

    /** Typing into the title input. */
    method SetTitle(value: string)
      modifies this
      ensures title == value && description == old(description)
    {
      title := value;
    }

    /** Typing into the description textarea. */
    method SetDescription(value: string)
      modifies this
      ensures description == value && title == old(title)
    {
      description := value;
    }

    /** Save button. With an empty title nothing is emitted, the fields stay
        and the form stays open. Otherwise the current fields are emitted as
        the save payload, both fields are cleared and close is requested. */
    method HandleSubmit() returns (saved: Option<Draft>, closeRequested: bool)
      modifies this
      ensures saved == ValidateDraft(old(title), old(description))
      ensures closeRequested <==> old(title) != ""
      ensures old(title) == "" ==> title == old(title) && description == old(description)
      ensures old(title) != "" ==> title == "" && description == ""
    {
      if title == "" {
        return None, false;
      }
      saved := Some(Draft(title, description));
      title := "";
      description := "";
      closeRequested := true;
    }

    /** Cancel button: requests close and leaves the fields as they are. */
    method Cancel() returns (closeRequested: bool)
      ensures closeRequested
    {
      closeRequested := true;
    }
  }
}
