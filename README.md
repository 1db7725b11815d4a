# Todo list page: a Dafny model

This project models the client-side state of a single-page todo-list
application. The page's state container (`src/pages/index.tsx`) holds the
ordered list of todos, the ids selected for bulk delete, the todo being
edited and whether the create/edit form is open. Its create/edit form
(`src/components/TodoModal.tsx`) holds a title and a description field.

Each handler of the page issues one call to the todo service and then
patches its state with a plain sequence operation, but only when the call
succeeds:

- load replaces the list;
- save either replaces items by id or prepends the new item;
- delete filters one id out;
- status change negates a flag;
- delete-selected filters the selected ids out and clears the selection.

The selection handlers change only the selection.

Layout, one module per concern:

- `todos.dfy` (module `Todos`): the `Todo` and `Draft` records, the
  `Outcome` of a service call (`Success(value)` or `Failure`), the
  `ServiceCall` a handler issues, and the list transforms as recursive
  functions with their lemmas (ids kept, idempotence, involution, exact
  removal, order kept as a subsequence, agreement with the server's answer).
- `selection.dfy` (module `Selection`): unticking, toggling an id, the
  "Select All" checkbox predicate and when it means "every item selected".
- `index_page.dfy` (module `IndexPage`): class `TodoPage` with the four
  state fields. Each handler is a method that takes its service outcome,
  returns the call it issued, and states its new state in terms of the
  transforms. It also wires the form's Save button to the page.
- `todo_modal.dfy` (module `TodoModal`): the submit guard `ValidateDraft`
  and class `TodoForm` with the reset effect, the field edits, submit and
  cancel.

Behaviours of the code worth noting:

- A status change negates `isCompleted` locally and ignores the todo the
  service returns (`src/pages/index.tsx:62-66`).
  `Todos.ToggleMatchesServerFlip` proves that this agrees with the service's
  answer when the service flips exactly the stored item and ids are unique.
- A single delete does not remove the id from the selection
  (`src/pages/index.tsx:49-58`), so the selection can hold ids of items
  that are gone. Then the length test behind the "Select All" checkbox
  (`src/pages/index.tsx:113`) can show the box checked while an item is
  unselected. `IndexPage.StaleSelectionChecksSelectAll` exhibits this.
  `Selection.SelectAllCheckedMeansAllSelected` proves that the test is exact
  when the selection holds no repeated id, only ids of listed items, and
  list ids are unique (true until a single delete leaves a stale id).
  Because the box is controlled, a click on a box that looks checked clears
  the selection (`IndexPage.TodoPage.ClickSelectAll`).
- Edit save matches on the id the service returned, not on the id of the
  todo being edited (`src/pages/index.tsx:32-34`).
- The form calls `onSave` without awaiting it and then `onClose`
  (`src/components/TodoModal.tsx:34-37`). So a non-empty submit closes the
  form even when the save fails, and the typed fields are cleared either
  way. `IndexPage.TodoPage.SubmitModal` states this.

## Model

| member | source | states |
|---|---|---|
| `Todos.Ids` | src/pages/index.tsx:90 | the ids of the list, one per item, in list order, so every item's id is among them |
| `Todos.ReplaceById` | src/pages/index.tsx:33-34 | same length; every item whose id equals the returned todo's id becomes the returned todo; every other item is unchanged |
| `Todos.ReplaceByIdKeepsIds` | src/pages/index.tsx:34 | an edit never changes the ids of the list or their order |
| `Todos.ReplaceByIdAbsent` | src/pages/index.tsx:32-34 | if the service returns an id the list does not hold, the edit leaves the list unchanged |
| `Todos.ReplaceByIdIdempotent` | src/pages/index.tsx:34 | applying the same edit result twice equals applying it once |
| `Todos.ToggleCompleted` | src/pages/index.tsx:63-66 | same length and ids; `isCompleted` is negated exactly on items with the id; every other field of every item is unchanged |
| `Todos.ToggleCompletedTwice` | src/pages/index.tsx:64-66 | two status changes of the same id restore the original list |
| `Todos.ToggleMatchesServerFlip` | src/pages/index.tsx:62-66 | with unique ids, the local negation equals replacing the item by its flipped copy, which is what the service returns |
| `Todos.RemoveById` | src/pages/index.tsx:52 | an item is kept if and only if its id differs from the deleted id; each kept item occurs exactly as often as before; the kept items are a subsequence of the list (order preserved) |
| `Todos.RemoveByIdAbsent` | src/pages/index.tsx:52 | deleting an id the list does not hold leaves the list unchanged |
| `Todos.RemoveByIdPresent` | src/pages/index.tsx:52 | with unique ids, deleting a held id shrinks the list by exactly one |
| `Todos.RemoveIds` | src/pages/index.tsx:79 | an item is kept if and only if its id is not among the selected ids; each kept item occurs exactly as often as before; the kept items keep their order |
| `Todos.RemoveIdsSingleton` | src/pages/index.tsx:79 | bulk delete of one id is the same as single delete of that id |
| `Todos.RemoveIdsAll` | src/pages/index.tsx:79 | bulk delete with a selection holding every item's id empties the list |
| `Todos.RemoveIdsAppend` | src/pages/index.tsx:79 | bulk delete distributes over concatenation, so relative order within each part is kept |
| `Selection.Without` | src/pages/index.tsx:98 | an id is kept if and only if it differs from the unticked id; every other id occurs exactly as often as before; order kept; no duplicate is introduced |
| `Selection.ToggleSelection` | src/pages/index.tsx:96-102 | the id's membership flips; all other ids keep their membership; a new id is appended at the end; a selected id is removed with every copy and the rest kept in order and multiplicity; no duplicate is introduced |
| `Selection.ToggleSelectionTwiceFresh` | src/pages/index.tsx:96-102 | ticking then unticking an unselected id restores the selection exactly |
| `Selection.ToggleSelectionTwiceSelected` | src/pages/index.tsx:96-102 | unticking then re-ticking a selected id keeps the same ids but moves that id to the end |
| `Selection.SelectAllChecked` | src/pages/index.tsx:113 | the box is checked exactly when the selection is as long as the list (one id per item), whichever ids it holds |
| `Selection.SelectAllCheckedMeansAllSelected` | src/pages/index.tsx:113 | with no repeated selected id, selected ids all in the list and unique list ids, the box is checked if and only if every item is selected |
| `IndexPage.TodoPage.constructor` | src/pages/index.tsx:10-13 | the page starts with an empty list, no selection, nothing edited and the form closed |
| `IndexPage.TodoPage.FetchAllTodos` | src/pages/index.tsx:19-27 | on success the list equals the fetched list exactly; on failure it is unchanged; nothing else changes |
| `IndexPage.TodoPage.HandleSaveTodo` | src/pages/index.tsx:29-47 | sends `UpdateTodo(editing id, draft)` when editing, else `AddTodo(draft)`; edit success replaces by the returned id; create success prepends; success closes the form; failure leaves list and form unchanged |
| `IndexPage.TodoPage.HandleDelete` | src/pages/index.tsx:49-58 | sends `DeleteTodo(id)`; success removes that id's items and keeps order; the selection is left unchanged; failure changes nothing |
| `IndexPage.TodoPage.HandleStatusChange` | src/pages/index.tsx:60-73 | sends `UpdateTodoStatus(id)`; success negates the flag locally on items with that id; failure changes nothing |
| `IndexPage.TodoPage.HandleDeleteSelected` | src/pages/index.tsx:76-86 | sends the selection as it was at call time; success removes exactly the items whose id was selected, keeps order and clears the selection; failure changes neither |
| `IndexPage.TodoPage.HandleSelectAll` | src/pages/index.tsx:88-94 | checked sets the selection to the list's ids in list order; unchecked clears it |
| `IndexPage.TodoPage.ClickSelectAll` | src/pages/index.tsx:110-115 | a click passes the negation of the shown state: a box shown checked clears the selection, otherwise the selection becomes the list's ids |
| `IndexPage.TodoPage.HandleSelectTodo` | src/pages/index.tsx:96-102 | the selection becomes the toggle of the old selection by that id |
| `IndexPage.TodoPage.OpenAddNew` | src/pages/index.tsx:122-125 | nothing is being edited and the form is open |
| `IndexPage.TodoPage.OpenEdit` | src/pages/index.tsx:143-146 | that todo is being edited and the form is open |
| `IndexPage.TodoPage.CloseModal` | src/pages/index.tsx:155 | the form is closed |
| `IndexPage.TodoPage.SubmitModal` | src/pages/index.tsx:153-158 | an empty title issues no call and changes neither the page nor the fields; any other title issues the save of the current fields, clears them and closes the form even when the save fails |
| `IndexPage.CreateTwice` | src/pages/index.tsx:38-39 | two successful creates give `[second, first] + old list`: newest first, old items in order |
| `IndexPage.SelectAllThenDeleteSelected` | src/pages/index.tsx:76-94 | "Select All" followed by a successful "Delete Selected" leaves an empty list and an empty selection |
| `IndexPage.StaleSelectionChecksSelectAll` | src/pages/index.tsx:49-113 | on a page listing items 1 and 2 with nothing selected, `HandleSelectTodo(1)` then a successful `HandleDelete(1)` leaves the list `[item 2]`, the selection `[1]`, and the box checked while item 2 is unselected |
| `TodoModal.ValidateDraft` | src/components/TodoModal.tsx:28-34 | a draft is emitted if and only if the title is non-empty, and it carries exactly the current title and description |
| `TodoModal.TodoForm.constructor` | src/components/TodoModal.tsx:15-16 | both fields start empty |
| `TodoModal.TodoForm.Reset` | src/components/TodoModal.tsx:18-26 | with a todo, the fields become its title and description; without one, both become empty |
| `TodoModal.TodoForm.SetTitle` | src/components/TodoModal.tsx:52 | the title becomes the typed value; the description is unchanged |
| `TodoModal.TodoForm.SetDescription` | src/components/TodoModal.tsx:60 | the description becomes the typed value; the title is unchanged |
| `TodoModal.TodoForm.HandleSubmit` | src/components/TodoModal.tsx:28-38 | an empty title emits nothing, keeps both fields and does not request close; otherwise it emits `{title, description}`, clears both fields and requests close |
| `TodoModal.TodoForm.Cancel` | src/components/TodoModal.tsx:66 | requests close and changes no field |

## Left out

- The HTTP service functions (`src/services/todoServices.ts`) are not modelled.
  Each handler takes the outcome of its call as a parameter (`Success(value)`
  or `Failure`) and returns the `ServiceCall` it issued with its arguments.
  The comma-joined query string of the bulk delete is transport detail.
- `fetchTodoById` is never called by the page and is not modelled.
- The mount effect that calls the load handler once (`src/pages/index.tsx:15-17`)
  is not modelled as a transition of its own; a caller runs `FetchAllTodos` after the constructor.
- Asynchrony: each handler is one atomic transition. Interleaved handlers
  and React's batching of state updates are not modelled. In `SubmitModal`
  the save is taken to resolve before the close request. Both orders give the
  same final state.
- When React re-runs the form's reset effect is not modelled. It runs when
  the `todo` prop changes by reference. `Reset` is the effect's body.
- The form renders nothing while closed (`src/components/TodoModal.tsx:40`).
  That is rendering only, so `HandleSubmit` has no "is open" guard.
- Toasts, console logging, JSX markup, CSS classes, and the disabled state of
  the "Delete Selected" button are presentation only.
- `src/components/TodoCard.tsx` is pure rendering. Its local "show
  description" toggle is cosmetic. Its date formatting uses an external
  library.
- `createdAt` is an opaque string. Its date semantics are not modelled.
- Integer ids are unbounded `int`. JavaScript numbers are not modelled.
