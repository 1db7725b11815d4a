/** The todo item, the service outcomes the page reacts to, and the pure
    sequence transforms (map, filter) the page applies to its list when a
    service call succeeds. */
module Todos {

  /** A todo item as the backend returns it. The id is assigned by the
      backend; createdAt is an ISO-8601 timestamp kept as an opaque string. */
  datatype Todo = Todo(id: int, title: string, description: string, isCompleted: bool, createdAt: string)

  /** The partial todo the form sends on save: only title and description. */
  datatype Draft = Draft(title: string, description: string)

  datatype Option<+T> = None | Some(value: T)

  /** How an awaited service call resolved: with its value, or by throwing. */
  datatype Outcome<+T> = Success(value: T) | Failure

  /** The service call a handler issues, with the arguments it passes. */
  datatype ServiceCall =
    | FetchTodos
    | AddTodo(draft: Draft)
    | UpdateTodo(id: int, draft: Draft)
    | DeleteTodo(id: int)
    | UpdateTodoStatus(id: int)
    | DeleteTodosByIds(ids: seq<int>)

  /** `a` is `b` with some elements left out and the rest in their order. */
  predicate IsSubsequence<T(==)>(a: seq<T>, b: seq<T>)
    decreases |b|
  {
    |a| <= |b| &&
    (a == [] || (a[0] == b[0] && IsSubsequence(a[1..], b[1..])) || IsSubsequence(a, b[1..]))
  }

  predicate NoDuplicates<T(==)>(s: seq<T>)
  {
    forall i, j :: 0 <= i < j < |s| ==> s[i] != s[j]
  }

  /** No two items of the list share an id. */
  predicate UniqueIds(todos: seq<Todo>)
  {
    forall i, j :: 0 <= i < j < |todos| ==> todos[i].id != todos[j].id
  }

  /** The ids of the list, in list order (`todos.map(todo => todo.id)`). */
  function Ids(todos: seq<Todo>): (ids: seq<int>)
    ensures |ids| == |todos|
    ensures forall i :: 0 <= i < |todos| ==> ids[i] == todos[i].id
    ensures forall t :: t in todos ==> t.id in ids
  {
    if todos == [] then [] else [todos[0].id] + Ids(todos[1..])
  }

  /** Edit save: every item carrying the id of the returned todo becomes the
      returned todo. */
  function ReplaceById(todos: seq<Todo>, updated: Todo): (r: seq<Todo>)
    ensures |r| == |todos|
    ensures forall i :: 0 <= i < |todos| && todos[i].id == updated.id ==> r[i] == updated
    ensures forall i :: 0 <= i < |todos| && todos[i].id != updated.id ==> r[i] == todos[i]
  {
    if todos == [] then []
    else [if todos[0].id == updated.id then updated else todos[0]] + ReplaceById(todos[1..], updated)
  }

  /** Status change: the completion flag of every item with the given id is
      negated locally; nothing else about any item changes. */
  function ToggleCompleted(todos: seq<Todo>, id: int): (r: seq<Todo>)
    ensures |r| == |todos|
    ensures Ids(r) == Ids(todos)
    ensures forall i :: 0 <= i < |todos| ==>
      r[i].isCompleted == (if todos[i].id == id then !todos[i].isCompleted else todos[i].isCompleted)
    ensures forall i :: 0 <= i < |todos| ==>
      r[i] == todos[i].(isCompleted := r[i].isCompleted)
  {
    if todos == [] then []
    else
      var t := todos[0];
      [if t.id == id then t.(isCompleted := !t.isCompleted) else t] + ToggleCompleted(todos[1..], id)
  }

  /** Single delete: drop every item with the given id, keep the others in order. */
  function RemoveById(todos: seq<Todo>, id: int): (r: seq<Todo>)
    ensures forall t :: t in r <==> t in todos && t.id != id
    ensures forall t :: multiset(r)[t] == if t.id == id then 0 else multiset(todos)[t]
    ensures IsSubsequence(r, todos)
  {
    if todos == [] then []
    else
      assert todos == [todos[0]] + todos[1..];
      var rest := RemoveById(todos[1..], id);
      if todos[0].id == id then rest
      else assert ([todos[0]] + rest)[1..] == rest; [todos[0]] + rest
  }

  /** Bulk delete: drop every item whose id is among `ids`, keep the others in order. */
  function RemoveIds(todos: seq<Todo>, ids: seq<int>): (r: seq<Todo>)
    ensures forall t :: t in r <==> t in todos && t.id !in ids
    ensures forall t :: multiset(r)[t] == if t.id in ids then 0 else multiset(todos)[t]
    ensures IsSubsequence(r, todos)
  {
    if todos == [] then []
    else
      assert todos == [todos[0]] + todos[1..];
      var rest := RemoveIds(todos[1..], ids);
      if todos[0].id in ids then rest
      else assert ([todos[0]] + rest)[1..] == rest; [todos[0]] + rest
  }

  // ---------------------------------------------------------------------------
  // Properties of the transforms

  /** Replacing by id never changes which ids the list holds, nor their order. */
  lemma {:induction false} ReplaceByIdKeepsIds(todos: seq<Todo>, updated: Todo)
    ensures Ids(ReplaceById(todos, updated)) == Ids(todos)
  {
    if todos != [] {
      ReplaceByIdKeepsIds(todos[1..], updated);
    }
  }

  /** When the returned id is absent from the list, the edit leaves the list as it was. */
  lemma {:induction false} ReplaceByIdAbsent(todos: seq<Todo>, updated: Todo)
    requires updated.id !in Ids(todos)
    ensures ReplaceById(todos, updated) == todos
  {
    if todos != [] {
      ReplaceByIdAbsent(todos[1..], updated);
    }
  }

  /** Saving the same returned todo twice is the same as saving it once. */
  lemma {:induction false} ReplaceByIdIdempotent(todos: seq<Todo>, updated: Todo)
    ensures ReplaceById(ReplaceById(todos, updated), updated) == ReplaceById(todos, updated)
  {
    if todos != [] {
      ReplaceByIdIdempotent(todos[1..], updated);
    }
  }

  /** Toggling the same id twice restores the original list. */
  lemma {:induction false} ToggleCompletedTwice(todos: seq<Todo>, id: int)
    ensures ToggleCompleted(ToggleCompleted(todos, id), id) == todos
  {
    if todos != [] {
      ToggleCompletedTwice(todos[1..], id);
    }
  }

  /** The local negation agrees with replacing the item by the todo the
      status service returns, provided that todo is the stored item with its
      flag flipped and ids are unique. */
  lemma {:induction false} ToggleMatchesServerFlip(todos: seq<Todo>, k: nat)
    requires k < |todos| && UniqueIds(todos)
    ensures ToggleCompleted(todos, todos[k].id)
         == ReplaceById(todos, todos[k].(isCompleted := !todos[k].isCompleted))
  {
    var id := todos[k].id;
    var flipped := todos[k].(isCompleted := !todos[k].isCompleted);
    var a, b := ToggleCompleted(todos, id), ReplaceById(todos, flipped);
    forall i | 0 <= i < |todos| ensures a[i] == b[i] {
      if todos[i].id == id {
        assert i == k;
      }
    }
  }

  /** Deleting an id the list does not hold leaves the list as it was. */
  lemma {:induction false} RemoveByIdAbsent(todos: seq<Todo>, id: int)
    requires id !in Ids(todos)
    ensures RemoveById(todos, id) == todos
  {
    if todos != [] {
      RemoveByIdAbsent(todos[1..], id);
    }
  }

  /** With unique ids, deleting an id the list holds shrinks it by exactly one. */
  lemma {:induction false} RemoveByIdPresent(todos: seq<Todo>, id: int)
    requires UniqueIds(todos) && id in Ids(todos)
    ensures |RemoveById(todos, id)| == |todos| - 1
  {
    var rest := todos[1..];
    assert UniqueIds(rest);
    if todos[0].id == id {
      RemoveByIdAbsent(rest, id);
    } else {
      assert Ids(todos) == [todos[0].id] + Ids(rest);
      RemoveByIdPresent(rest, id);
    }
  }

  /** Bulk delete of a single id is single delete. */
  lemma {:induction false} RemoveIdsSingleton(todos: seq<Todo>, id: int)
    ensures RemoveIds(todos, [id]) == RemoveById(todos, id)
  {
    if todos != [] {
      RemoveIdsSingleton(todos[1..], id);
    }
  }

  /** Bulk delete with a selection that covers every item's id empties the list. */
  lemma {:induction false} RemoveIdsAll(todos: seq<Todo>, ids: seq<int>)
    requires forall t :: t in todos ==> t.id in ids
    ensures RemoveIds(todos, ids) == []
  {
    if todos != [] {
      RemoveIdsAll(todos[1..], ids);
    }
  }

  /** Bulk delete distributes over concatenation, so the kept items of each
      part stay in their relative order. */
  lemma {:induction false} RemoveIdsAppend(a: seq<Todo>, b: seq<Todo>, ids: seq<int>)
    ensures RemoveIds(a + b, ids) == RemoveIds(a, ids) + RemoveIds(b, ids)
  {
    if a == [] {
      assert a + b == b;
    } else {
      assert (a + b)[1..] == a[1..] + b;
      RemoveIdsAppend(a[1..], b, ids);
    }
  }
}
