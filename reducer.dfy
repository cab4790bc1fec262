/**
 `todoReducer` as it runs: the next list from the pure reducer together with
 the writes it makes to the shadow title index on the way.
 */
module Reducer {
  import opened Todos
  import opened TitleStore
  import NanoId

  /* What dispatching `action` on `state` may do to the counter and the
     index: ADD_ITEM records its title; REMOVE_ITEM removes the title of the
     todo `find` returns, and nothing when it returns none; REMOVE_ALL_ITEMS
     drops the whole index; REMOVE_COMPLETED_ITEMS removes the completed
     titles on one snapshot when there are any; the rest touch neither. */
  ghost predicate Persisted(before: Shadow, after: Shadow, state: seq<Todo>, action: Action, timestamp: string)
  {
    match action
    case AddItem(title) => after == Record(before, title, timestamp)
    case RemoveItem(id) =>
      && after.counter == before.counter
      && (match Find(state, id)
          case None => after.index == before.index
          case Some(todo) => RemovedOne(before.index, after.index, todo.title))
    case RemoveAllItems => after == Shadow(before.counter, map[])
    case RemoveCompletedItems =>
      && after.counter == before.counter
      && (if CompletedTitles(state) == [] then after.index == before.index
          else RemovedEach(before.index, after.index, CompletedTitles(state)))
    case _ => after == before
  }

  /** `todoReducer(state, action)`, with the random draws for the new id and
      the clock's ISO timestamp passed in. */
  method TodoReducer(store: TitleIndex, state: seq<Todo>, action: Action, draws: seq<int>, timestamp: string)
    returns (next: seq<Todo>)
    requires |draws| == NanoId.DefaultSize && NanoId.ValidDraws(draws)
    modifies store
    ensures next == Reduce(state, action, NanoId.Spelled(draws))
    ensures Persisted(old(store.State()), store.State(), state, action, timestamp)
  {
    match action
    case AddItem(title) =>
      store.RecordTitle(title, timestamp);
      var id := NanoId.NanoId(NanoId.DefaultSize, draws);
      next := state + [Todo(id, title, false)];
    case UpdateItem(id, title) =>
      next := Retitled(state, id, title);
    case RemoveItem(id) =>
      var found := Find(state, id);
      if found.Some? {
        store.RemoveTitle(found.value.title);
      }
      next := Without(state, id);
    case ToggleItem(id) =>
      next := Toggled(state, id);
    case RemoveAllItems =>
      store.ClearAll();
      next := [];
    case ToggleAll(completed) =>
      next := MarkedAll(state, completed);
    case RemoveCompletedItems =>
      var completedTitles := CompletedTitles(state);
      if |completedTitles| > 0 {
        store.RemoveTitles(completedTitles);
      }
      next := Active(state);
  }

  /** What a persisted transition may change: the counter moves only on
      ADD_ITEM, by one; UPDATE_ITEM, TOGGLE_ITEM and TOGGLE_ALL leave the
      whole store as it was; REMOVE_ITEM leaves it as it was when no todo
      carries the id and otherwise deletes at most one index entry;
      REMOVE_COMPLETED_ITEMS only deletes entries; REMOVE_ALL_ITEMS empties
      the index. */
  lemma PersistedTouches(before: Shadow, after: Shadow, state: seq<Todo>, action: Action, timestamp: string)
    requires Persisted(before, after, state, action, timestamp)
    ensures after.counter == if action.AddItem? then before.counter + 1 else before.counter
    ensures action.UpdateItem? || action.ToggleItem? || action.ToggleAll? ==> after == before
    ensures action.RemoveItem? && Find(state, action.id).None? ==> after == before
    ensures action.RemoveItem? ==> SubIndex(after.index, before.index) && |before.index.Keys - after.index.Keys| <= 1
    ensures action.RemoveCompletedItems? ==> SubIndex(after.index, before.index)
    ensures action.RemoveAllItems? ==> after.index == map[]
  {
    match action
    case RemoveItem(id) =>
      if Find(state, id).Some? {
        RemovedOneDeletesAtMostOne(before.index, after.index, Find(state, id).value.title);
      } else {
        assert before.index.Keys - after.index.Keys == {};
      }
    case RemoveCompletedItems =>
      if CompletedTitles(state) != [] {
        RemovedEachCounts(before.index, after.index, CompletedTitles(state));
      }
    case _ =>
  }
}
