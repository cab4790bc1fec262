/**
 The pure half of `todoReducer`: the list of todos, the seven action kinds and
 the next list each action produces. Every case builds a new list by appending,
 mapping or filtering, left to right, exactly as the array methods it models.
 */
module Todos {

  datatype Todo = Todo(id: string, title: string, completed: bool)

  /* One constructor per action kind; an exhaustive match takes the place of the
     "Unknown action" exception, which no value of this type can reach. */
  datatype Action =
    | AddItem(title: string)
    | UpdateItem(id: string, title: string)
    | RemoveItem(id: string)
    | ToggleItem(id: string)
    | RemoveAllItems
    | ToggleAll(completed: bool)
    | RemoveCompletedItems

  datatype Option<T> = None | Some(value: T)

  /* UPDATE_ITEM's map: each todo carrying `id` gets the new title. */
  function Retitled(s: seq<Todo>, id: string, title: string): (r: seq<Todo>)
    ensures |r| == |s|
  {
    if s == [] then []
    else [if s[0].id == id then s[0].(title := title) else s[0]] + Retitled(s[1..], id, title)
  }

  /* TOGGLE_ITEM's map: each todo carrying `id` has its completed flag flipped. */
  function Toggled(s: seq<Todo>, id: string): (r: seq<Todo>)
    ensures |r| == |s|
  {
    if s == [] then []
    else [if s[0].id == id then s[0].(completed := !s[0].completed) else s[0]] + Toggled(s[1..], id)
  }

  /* TOGGLE_ALL's map: a copy with the new flag for each todo whose flag differs. */
  function MarkedAll(s: seq<Todo>, completed: bool): (r: seq<Todo>)
    ensures |r| == |s|
  {
    if s == [] then []
    else [if s[0].completed != completed then s[0].(completed := completed) else s[0]] + MarkedAll(s[1..], completed)
  }

  /* REMOVE_ITEM's filter: the todos whose id differs from `id`. */
  function Without(s: seq<Todo>, id: string): (r: seq<Todo>)
    ensures |r| <= |s|
  {
    if s == [] then []
    else (if s[0].id != id then [s[0]] else []) + Without(s[1..], id)
  }

  /* REMOVE_COMPLETED_ITEMS' filter: the active todos. */
  function Active(s: seq<Todo>): (r: seq<Todo>)
    ensures |r| <= |s|
  {
    if s == [] then []
    else (if !s[0].completed then [s[0]] else []) + Active(s[1..])
  }

  /* The titles of the completed todos, in list order, handed to the index. */
  function CompletedTitles(s: seq<Todo>): (r: seq<string>)
    ensures |r| + |Active(s)| == |s|
  {
    if s == [] then []
    else (if s[0].completed then [s[0].title] else []) + CompletedTitles(s[1..])
  }

  /* The array search REMOVE_ITEM runs first: the first todo carrying `id`, if any. */
  function Find(s: seq<Todo>, id: string): (r: Option<Todo>)
    ensures r.None? <==> forall t :: t in s ==> t.id != id
    ensures r.Some? ==> r.value in s && r.value.id == id
  {
    if s == [] then None
    else if s[0].id == id then Some(s[0])
    else Find(s[1..], id)
  }

  /* The list `todoReducer` returns; `newId` is the identifier the generator
     supplies for ADD_ITEM (unused by every other kind). The lemmas below keep
     `newId` as a parameter, so each holds whatever identifier was drawn. */
  function Reduce(state: seq<Todo>, action: Action, newId: string): seq<Todo>
  {
    match action
    case AddItem(title) => state + [Todo(newId, title, false)]
    case UpdateItem(id, title) => Retitled(state, id, title)
    case RemoveItem(id) => Without(state, id)
    case ToggleItem(id) => Toggled(state, id)
    case RemoveAllItems => []
    case ToggleAll(completed) => MarkedAll(state, completed)
    case RemoveCompletedItems => Active(state)
  }

  /* Dispatching `actions` one after the other, the j-th one given `ids[j]`. */
  ghost function Replay(s: seq<Todo>, actions: seq<Action>, ids: seq<string>): seq<Todo>
    requires |ids| == |actions|
    decreases |actions|
  {
    if actions == [] then s
    else
      var n := |actions| - 1;
      Reduce(Replay(s, actions[..n], ids[..n]), actions[n], ids[n])
  }

  ghost function AddItems(titles: seq<string>): seq<Action>
  {
    seq(|titles|, j requires 0 <= j < |titles| => AddItem(titles[j]))
  }

  /** ADD_ITEM appends: after N adds the old list is an untouched prefix and the
      new todos follow in dispatch order, each with its title, its id and
      `completed == false`. */
  lemma {:induction false} AddItemsAppendInOrder(s: seq<Todo>, titles: seq<string>, ids: seq<string>)
    requires |ids| == |titles|
    ensures var r := Replay(s, AddItems(titles), ids);
      && |r| == |s| + |titles|
      && r[..|s|] == s
      && forall j :: 0 <= j < |titles| ==> r[|s| + j] == Todo(ids[j], titles[j], false)
  {
    if titles != [] {
      var n := |titles| - 1;
      assert AddItems(titles)[..n] == AddItems(titles[..n]);
      AddItemsAppendInOrder(s, titles[..n], ids[..n]);
    }
  }

  /** UPDATE_ITEM changes only the title of the todos carrying `id`; with no
      such todo the list comes back unchanged. */
  lemma {:induction false} UpdateItemSpec(s: seq<Todo>, id: string, title: string, newId: string)
    ensures var r := Reduce(s, UpdateItem(id, title), newId);
      && |r| == |s|
      && (forall i :: 0 <= i < |s| ==> r[i] == if s[i].id == id then s[i].(title := title) else s[i])
      && ((forall t :: t in s ==> t.id != id) ==> r == s)
  {
    if s != [] {
      UpdateItemSpec(s[1..], id, title, newId);
      assert forall t :: t in s[1..] ==> t in s;
    }
  }

  /** TOGGLE_ITEM flips only `completed` of the todos carrying `id`; with no
      such todo the list comes back unchanged. */
  lemma {:induction false} ToggleItemSpec(s: seq<Todo>, id: string, newId: string)
    ensures var r := Reduce(s, ToggleItem(id), newId);
      && |r| == |s|
      && (forall i :: 0 <= i < |s| ==> r[i] == if s[i].id == id then s[i].(completed := !s[i].completed) else s[i])
      && ((forall t :: t in s ==> t.id != id) ==> r == s)
  {
    if s != [] {
      ToggleItemSpec(s[1..], id, newId);
      assert forall t :: t in s[1..] ==> t in s;
    }
  }

  /** TOGGLE_ITEM is its own inverse. */
  lemma {:induction false} ToggleItemTwice(s: seq<Todo>, id: string, newId: string)
    ensures Reduce(Reduce(s, ToggleItem(id), newId), ToggleItem(id), newId) == s
  {
    if s != [] {
      ToggleItemTwice(s[1..], id, newId);
    }
  }

  /** REMOVE_ITEM keeps exactly the todos whose id differs; it finds nothing to
      drop exactly when `find` finds nothing. */
  lemma {:induction false} RemoveItemSpec(s: seq<Todo>, id: string, newId: string)
    ensures var r := Reduce(s, RemoveItem(id), newId);
      && (forall t :: t in r <==> t in s && t.id != id)
      && (Find(s, id).None? <==> r == s)
  {
    if s != [] {
      RemoveItemSpec(s[1..], id, newId);
      if s[0].id == id {
        assert |Without(s, id)| < |s|;
      }
    }
  }

  /** REMOVE_ITEM keeps the original order: filtering a concatenation is the
      concatenation of the filtered parts. */
  lemma {:induction false} RemoveItemKeepsOrder(a: seq<Todo>, b: seq<Todo>, id: string, newId: string)
    ensures Reduce(a + b, RemoveItem(id), newId) == Reduce(a, RemoveItem(id), newId) + Reduce(b, RemoveItem(id), newId)
  {
    if a != [] {
      assert (a + b)[1..] == a[1..] + b;
      RemoveItemKeepsOrder(a[1..], b, id, newId);
    } else {
      assert a + b == b;
    }
  }

  /** TOGGLE_ALL(c) sets `completed` to `c` everywhere and changes nothing else. */
  lemma {:induction false} ToggleAllSpec(s: seq<Todo>, completed: bool, newId: string)
    ensures var r := Reduce(s, ToggleAll(completed), newId);
      && |r| == |s|
      && forall i :: 0 <= i < |s| ==> r[i] == s[i].(completed := completed)
  {
    if s != [] {
      ToggleAllSpec(s[1..], completed, newId);
    }
  }

  /** The later of two TOGGLE_ALLs wins; with the same flag, applying it twice
      equals applying it once. */
  lemma {:induction false} ToggleAllLastWins(s: seq<Todo>, first: bool, second: bool, newId: string)
    ensures Reduce(Reduce(s, ToggleAll(first), newId), ToggleAll(second), newId) == Reduce(s, ToggleAll(second), newId)
  {
    if s != [] {
      ToggleAllLastWins(s[1..], first, second, newId);
    }
  }

  /** REMOVE_COMPLETED_ITEMS keeps exactly the active todos, and it leaves the
      list as it was exactly when there is no completed title to unpersist. */
  lemma {:induction false} RemoveCompletedSpec(s: seq<Todo>, newId: string)
    ensures var r := Reduce(s, RemoveCompletedItems, newId);
      && (forall t :: t in r <==> t in s && !t.completed)
      && (CompletedTitles(s) == [] <==> r == s)
      && ((forall t :: t in s ==> t.completed) <==> r == [])
  {
    if s != [] {
      RemoveCompletedSpec(s[1..], newId);
      assert forall t :: t in s[1..] ==> t in s;
    }
  }

  /** REMOVE_COMPLETED_ITEMS keeps the original order. */
  lemma {:induction false} RemoveCompletedKeepsOrder(a: seq<Todo>, b: seq<Todo>, newId: string)
    ensures Reduce(a + b, RemoveCompletedItems, newId) == Reduce(a, RemoveCompletedItems, newId) + Reduce(b, RemoveCompletedItems, newId)
  {
    if a != [] {
      assert (a + b)[1..] == a[1..] + b;
      RemoveCompletedKeepsOrder(a[1..], b, newId);
    } else {
      assert a + b == b;
    }
  }

  /** Clearing completed todos, marking all complete and clearing again leaves
      nothing, whatever the starting list. */
  lemma {:induction false} CompleteAllThenClear(s: seq<Todo>, newId: string)
    ensures var cleared := Reduce(s, RemoveCompletedItems, newId);
      Reduce(Reduce(cleared, ToggleAll(true), newId), RemoveCompletedItems, newId) == []
  {
    var marked := Reduce(Reduce(s, RemoveCompletedItems, newId), ToggleAll(true), newId);
    ToggleAllSpec(Reduce(s, RemoveCompletedItems, newId), true, newId);
    RemoveCompletedSpec(marked, newId);
    assert forall t :: t in marked ==> t.completed;
  }

  /** The completed titles are exactly the titles of the completed todos. */
  lemma {:induction false} CompletedTitlesAreCompleted(s: seq<Todo>)
    ensures forall v :: v in CompletedTitles(s) <==> exists t :: t in s && t.completed && t.title == v
  {
    if s != [] {
      CompletedTitlesAreCompleted(s[1..]);
      assert forall t :: t in s[1..] ==> t in s;
      assert s == [s[0]] + s[1..];
    }
  }

  /** The completed titles come in list order: the titles of a concatenation
      are the titles of its parts, one after the other. */
  lemma {:induction false} CompletedTitlesKeepOrder(a: seq<Todo>, b: seq<Todo>)
    ensures CompletedTitles(a + b) == CompletedTitles(a) + CompletedTitles(b)
  {
    if a != [] {
      assert (a + b)[1..] == a[1..] + b;
      CompletedTitlesKeepOrder(a[1..], b);
    } else {
      assert a + b == b;
    }
  }

  /** `find` returns the FIRST todo carrying the id. */
  lemma {:induction false} FindIsFirst(s: seq<Todo>, id: string)
    requires Find(s, id).Some?
    ensures exists i :: 0 <= i < |s| && s[i] == Find(s, id).value && forall j :: 0 <= j < i ==> s[j].id != id
  {
    if s[0].id != id {
      FindIsFirst(s[1..], id);
      var i :| 0 <= i < |s[1..]| && s[1..][i] == Find(s[1..], id).value && forall j :: 0 <= j < i ==> s[1..][j].id != id;
      assert s[i + 1] == Find(s, id).value;
    } else {
      assert s[0] == Find(s, id).value;
    }
  }
}
