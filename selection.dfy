/** The page's selection: the ids marked for bulk delete, kept as a sequence
    in the order they were ticked, and the "Select All" checkbox derived
    from it. */
module Selection {
  import opened Todos

  /** Unticking one id: drop every occurrence of it, keep the others in order. */
  function Without(selected: seq<int>, id: int): (r: seq<int>)
    ensures forall x :: x in r <==> x in selected && x != id
    ensures forall x :: multiset(r)[x] == if x == id then 0 else multiset(selected)[x]
    ensures IsSubsequence(r, selected)
    ensures NoDuplicates(selected) ==> NoDuplicates(r)
  {
    if selected == [] then []
    else
      assert selected == [selected[0]] + selected[1..];
      var rest := Without(selected[1..], id);
      if selected[0] == id then rest
      else
        assert ([selected[0]] + rest)[1..] == rest;
        assert NoDuplicates(selected) ==> selected[0] !in selected[1..];
        [selected[0]] + rest
  }

  /** Ticking or unticking one item's checkbox: an id already selected is
      removed, any other id is appended at the end. */
  function ToggleSelection(selected: seq<int>, id: int): (r: seq<int>)
    ensures id in r <==> id !in selected
    ensures forall x :: x != id ==> (x in r <==> x in selected)
    ensures id in selected ==> r == Without(selected, id)
    ensures id in selected ==> forall x :: multiset(r)[x] == if x == id then 0 else multiset(selected)[x]
    ensures id in selected ==> IsSubsequence(r, selected)
    ensures id !in selected ==> r == selected + [id]
    ensures NoDuplicates(selected) ==> NoDuplicates(r)
  {
    if id in selected then Without(selected, id) else selected + [id]
  }

  /** The "Select All" checkbox is shown checked exactly when the selection
      is as long as the list, whichever ids it holds. */
  predicate SelectAllChecked(selected: seq<int>, todos: seq<Todo>): (checked: bool)
    ensures checked <==> |selected| == |Ids(todos)|
  {
    |selected| == |todos|
  }

  /** Ticking a fresh id and then unticking it restores the selection exactly. */
  lemma {:induction false} ToggleSelectionTwiceFresh(selected: seq<int>, id: int)
    requires id !in selected
    ensures ToggleSelection(ToggleSelection(selected, id), id) == selected
  {
    if selected == [] {
      assert ToggleSelection(selected, id) == [id];
    } else {
      ToggleSelectionTwiceFresh(selected[1..], id);
      assert selected + [id] == [selected[0]] + (selected[1..] + [id]);
    }
  }

  /** Unticking and re-ticking a selected id keeps the same selected ids but
      moves that id to the end. */
  lemma ToggleSelectionTwiceSelected(selected: seq<int>, id: int)
    requires id in selected
    ensures ToggleSelection(ToggleSelection(selected, id), id) == Without(selected, id) + [id]
  {
  }

  /** The set of distinct elements of a sequence. */
  function Elements(s: seq<int>): set<int>
  {
    set x | x in s
  }

  lemma {:induction false} ElementsOfDistinct(s: seq<int>)
    requires NoDuplicates(s)
    ensures |Elements(s)| == |s|
  {
    if s != [] {
      ElementsOfDistinct(s[1..]);
      assert Elements(s) == {s[0]} + Elements(s[1..]);
      assert s[0] !in Elements(s[1..]);
    }
  }

  lemma SubsetOfEqualSize(a: set<int>, b: set<int>)
    requires a <= b && |a| == |b|
    ensures a == b
  {
    assert |b - a| == |b| - |a|;
  }

  /** When the selection holds no repeated id, only ids of listed items, and
      list ids are unique (true until a single delete leaves a stale id), the
      "Select All" checkbox is checked exactly when every item is selected. */
  lemma SelectAllCheckedMeansAllSelected(selected: seq<int>, todos: seq<Todo>)
    requires NoDuplicates(selected) && UniqueIds(todos)
    requires forall x :: x in selected ==> x in Ids(todos)
    ensures SelectAllChecked(selected, todos) <==> forall t :: t in todos ==> t.id in selected
  {
    var ids := Ids(todos);
    assert NoDuplicates(ids);
    ElementsOfDistinct(selected);
    ElementsOfDistinct(ids);
    assert Elements(selected) <= Elements(ids);
    if SelectAllChecked(selected, todos) {
      SubsetOfEqualSize(Elements(selected), Elements(ids));
      forall t | t in todos ensures t.id in selected {
        assert t.id in Elements(ids);
      }
    }
    if forall t :: t in todos ==> t.id in selected {
      assert Elements(ids) <= Elements(selected);
      assert |Elements(selected) - Elements(ids)| == |Elements(selected)| - |Elements(ids)|;
    }
  }
}
