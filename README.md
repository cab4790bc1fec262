# TodoMVC reducer and shadow title index, in Dafny

This project models the state reducer of the React TodoMVC application
(`todomvc-react/src/todo/reducer.js`) and the persistence helpers it calls.

- **The list.** A todo is `Todo(id, title, completed)`. The state is an ordered
  `seq<Todo>`. `Todos.Reduce` gives the list `todoReducer` returns for each of
  the seven action kinds: ADD_ITEM, UPDATE_ITEM, REMOVE_ITEM, TOGGLE_ITEM,
  REMOVE_ALL_ITEMS, TOGGLE_ALL and REMOVE_COMPLETED_ITEMS. Each case is a
  recursive append, map or filter that works left to right, as the array
  methods in the source do. The "Unknown action" exception cannot be reached:
  `Action` is a datatype with one constructor per kind, and the match over it
  is exhaustive.
- **The shadow title index.** The storage key "todo-items" holds a map from an
  ISO timestamp to a title. A module-level creation counter gates writes to it:
  only calls that leave the counter even are written, so only every second
  ADD_ITEM is persisted. `TitleStore.TitleIndex` is a class with the two pieces
  of state, `counter` and `index`. It has one method per helper: `RecordTitle`,
  `RemoveTitle`, `RemoveTitles` and `ClearAll`.
- **The specification of the helpers.** `TitleStore.Shadow`, `Record`,
  `RemovedOne` and `RemovedEach` specify those methods. The lemmas about them
  state the counting property of the flaw and what a removal may delete.
- **Identifiers.** `NanoId.NanoId` is the identifier generator's loop. The
  random numbers are passed in as a sequence of draws.
- **Dispatch.** `Reducer.TodoReducer` ties the parts together. It returns
  `Reduce` of its inputs, and it changes the title index exactly as
  `Persisted` allows.

Injected inputs. The source reads three things the model takes as parameters:

- the clock (`new Date().toISOString()`), as `timestamp`;
- `Math.random()`, as `draws`, where each draw is `(Math.random() * 64) | 0`
  and so lies in [0, 64);
- the order in which `Object.keys` lists the keys. The model makes no choice
  here: a removal deletes *some* key that holds the title.

`todoReducer` handles seven action kinds (reducer.js:107-134), TOGGLE_ITEM
among them, and the model has one constructor for each.

One detail of `removeTitleFromLocalStorage` is modelled as written. The guard
`if (keyToRemove)` treats the empty string as false, so if the key it finds is
`""`, that entry is not deleted (`TitleStore.DeleteFound`). Real ISO timestamps
are never empty. The lemmas that count removals therefore assume `"" !in index`; the
other lemmas do not need that assumption.

## Model

| member | source | states |
|---|---|---|
| Todos.Reduce | todomvc-react/src/todo/reducer.js:105-135 | no contract of its own: the list `todoReducer` returns, one case per action kind; its cases are stated by the lemmas AddItemsAppendInOrder through CompleteAllThenClear below |
| Todos.Retitled | todomvc-react/src/todo/reducer.js:112 | the UPDATE_ITEM map keeps the list's length |
| Todos.Toggled | todomvc-react/src/todo/reducer.js:121 | the TOGGLE_ITEM map keeps the list's length |
| Todos.MarkedAll | todomvc-react/src/todo/reducer.js:127 | the TOGGLE_ALL map keeps the list's length |
| Todos.Without | todomvc-react/src/todo/reducer.js:119 | the REMOVE_ITEM filter never lengthens the list |
| Todos.Active | todomvc-react/src/todo/reducer.js:134 | the REMOVE_COMPLETED_ITEMS filter never lengthens the list |
| Todos.CompletedTitles | todomvc-react/src/todo/reducer.js:130 | its length plus the length of the list REMOVE_COMPLETED_ITEMS keeps is the length of the input |
| Todos.CompletedTitlesAreCompleted | todomvc-react/src/todo/reducer.js:130 | a title is among the completed titles if and only if some completed todo of the list carries it |
| Todos.CompletedTitlesKeepOrder | todomvc-react/src/todo/reducer.js:130 | the completed titles distribute over concatenation, so they come in list order |
| Todos.Find | todomvc-react/src/todo/reducer.js:115 | `find` returns nothing exactly when no todo carries the id; otherwise it returns a todo of the list that carries the id |
| Todos.FindIsFirst | todomvc-react/src/todo/reducer.js:115 | the todo `find` returns is the first one carrying the id |
| Todos.AddItemsAppendInOrder | todomvc-react/src/todo/reducer.js:107-110 | after N ADD_ITEMs the old list is an untouched prefix; the N new todos follow in dispatch order, each with its own title, its generated id and completed == false |
| Todos.UpdateItemSpec | todomvc-react/src/todo/reducer.js:111-112 | UPDATE_ITEM keeps the length and position of every todo; it changes only the title of the todos carrying the id; with no such todo it returns the list unchanged |
| Todos.ToggleItemSpec | todomvc-react/src/todo/reducer.js:120-121 | TOGGLE_ITEM keeps the length and position of every todo; it flips only `completed` of the todos carrying the id; with no such todo it returns the list unchanged |
| Todos.ToggleItemTwice | todomvc-react/src/todo/reducer.js:120-121 | TOGGLE_ITEM twice with the same id gives back the original list |
| Todos.RemoveItemSpec | todomvc-react/src/todo/reducer.js:113-119 | a todo survives REMOVE_ITEM if and only if it was in the list with a different id; the list is left unchanged if and only if `find` finds no todo with that id |
| Todos.RemoveItemKeepsOrder | todomvc-react/src/todo/reducer.js:119 | the REMOVE_ITEM filter distributes over concatenation, so survivors keep their original order |
| Todos.ToggleAllSpec | todomvc-react/src/todo/reducer.js:126-127 | after TOGGLE_ALL(c) each position holds the same todo with completed == c: ids, titles and order are unchanged |
| Todos.ToggleAllLastWins | todomvc-react/src/todo/reducer.js:126-127 | of two TOGGLE_ALLs the later one decides; with the same flag, twice equals once |
| Todos.RemoveCompletedSpec | todomvc-react/src/todo/reducer.js:128-134 | a todo survives REMOVE_COMPLETED_ITEMS if and only if it was in the list and is active; the list is unchanged if and only if there are no completed titles; the result is empty if and only if every todo was completed |
| Todos.RemoveCompletedKeepsOrder | todomvc-react/src/todo/reducer.js:134 | the REMOVE_COMPLETED_ITEMS filter distributes over concatenation, so survivors keep their original order |
| Todos.CompleteAllThenClear | todomvc-react/src/todo/reducer.js:126-134 | clearing completed todos, then TOGGLE_ALL(true), then clearing again leaves the empty list, from any state |
| TitleStore.Record | todomvc-react/src/todo/reducer.js:49-63 | no contract of its own: one save, which bumps the counter and writes only when the counter is then even; stated by RecordAllCounts, OddCallsLeaveIndex, OnlyEverySecondTitleKept and EverySecondTitleCount |
| TitleStore.RecordAll | todomvc-react/src/todo/reducer.js:49-63 | no contract of its own: a run of saves, one `Record` per title in call order; used by RecordAllCounts, RecordAllKeys, FreshStamp, OddCallsLeaveIndex, OnlyEverySecondTitleKept and EverySecondTitleCount |
| TitleStore.OddCallsLeaveIndex | todomvc-react/src/todo/reducer.js:51-58 | from counter 0 and any stored index, the 1st, 3rd, 5th, ... saves leave the index as it was; the 2nd, 4th, ... saves add exactly their own timestamp-to-title entry |
| TitleStore.RecordAllCounts | todomvc-react/src/todo/reducer.js:46-51 | after N saves the counter has grown by exactly N, whether or not they were written |
| TitleStore.RecordAllKeys | todomvc-react/src/todo/reducer.js:54-57 | the only keys saves add are their own timestamps |
| TitleStore.FreshStamp | todomvc-react/src/todo/reducer.js:55-56 | from counter 0 and any stored index that holds none of the timestamps, when timestamps are pairwise distinct a save never overwrites an earlier entry |
| TitleStore.OnlyEverySecondTitleKept | todomvc-react/src/todo/reducer.js:45-63 | starting from counter 0 and an empty index, N saves with distinct timestamps leave counter N; the j-th timestamp is a key if and only if the call is the 2nd, 4th, ...; its entry holds that call's title |
| TitleStore.EverySecondTitleCount | todomvc-react/src/todo/reducer.js:45-63 | under the same conditions the index holds exactly floor(N/2) entries |
| TitleStore.DeleteFound | todomvc-react/src/todo/reducer.js:71-72 | no contract of its own: deletes the found key unless it is the empty string, which the source's truthiness test skips; used by RemovedOne, RemovedOneDeletesAtMostOne and RemovedOneCounts, and through RemovedOne by FindAndDelete |
| TitleStore.RemovedOne | todomvc-react/src/todo/reducer.js:66-78 | no contract of its own: the removals of one title the source allows, with no match leaving the index as it was; stated by RemovedOneDeletesAtMostOne and RemovedOneCounts |
| TitleStore.RemovedEach | todomvc-react/src/todo/reducer.js:81-94 | no contract of its own: one-title removals in list order on one snapshot; stated by RemovedEachCounts |
| TitleStore.RemovedEachStep | todomvc-react/src/todo/reducer.js:84-89 | one more removal after a run of removals is the run extended by that title, as each pass of the loop does |
| TitleStore.RemovedOneDeletesAtMostOne | todomvc-react/src/todo/reducer.js:66-78 | a single-title removal deletes at most one entry, and only one holding the title; other entries keep their keys and titles; with no entry holding the title nothing changes; with no empty key and a match, exactly one entry goes |
| TitleStore.RemovedOneCounts | todomvc-react/src/todo/reducer.js:66-78 | with no empty key, a removal lowers the number of entries holding that title by one (when there are any) and leaves the count of every other title unchanged |
| TitleStore.RemovedEachCounts | todomvc-react/src/todo/reducer.js:81-94 | removing a list of titles on one snapshot keeps a sub-map of the index; every deleted entry held a listed title; with no empty key, each title's count drops by the number of times it is listed, but not below zero |
| TitleStore.FindAndDelete | todomvc-react/src/todo/reducer.js:70-73 | the lookup-and-delete step is a removal of the title as `RemovedOne` allows it |
| TitleStore.TitleIndex.constructor | todomvc-react/src/todo/reducer.js:46 | at module load the counter is 0 and the index is whatever storage already holds |
| TitleStore.TitleIndex.RecordTitle | todomvc-react/src/todo/reducer.js:49-63 | the new counter and index are `Record` of the old ones |
| TitleStore.TitleIndex.RemoveTitle | todomvc-react/src/todo/reducer.js:66-78 | the counter is unchanged; the new index is a single-title removal from the old one |
| TitleStore.TitleIndex.RemoveTitles | todomvc-react/src/todo/reducer.js:81-94 | the counter is unchanged; the new index is the listed removals, in order, on one snapshot |
| TitleStore.TitleIndex.ClearAll | todomvc-react/src/todo/reducer.js:97-103 | the index becomes empty; the counter keeps its value |
| NanoId.AlphabetIsUrlSafe | todomvc-react/src/todo/reducer.js:26-32 | the alphabet has 64 symbols, all from `A-Za-z0-9_-` |
| NanoId.Spelled | todomvc-react/src/todo/reducer.js:34-43 | no contract of its own: the identifier a run of draws spells, one alphabet symbol per draw; used by NanoId.NanoId and Reducer.TodoReducer |
| NanoId.NanoId | todomvc-react/src/todo/reducer.js:34-43 | the id has `size` symbols; the j-th symbol is the alphabet symbol at the j-th draw, so every symbol is URL-safe |
| Reducer.TodoReducer | todomvc-react/src/todo/reducer.js:105-138 | the returned list is `Reduce` of the state, the action and the generated id; the index changes only as `Persisted` allows |
| Reducer.Persisted | todomvc-react/src/todo/reducer.js:105-134 | no contract of its own: the change each action kind makes to the counter and the index; stated by PersistedTouches |
| Reducer.PersistedTouches | todomvc-react/src/todo/reducer.js:105-134 | only ADD_ITEM moves the counter (by one); UPDATE, TOGGLE and TOGGLE_ALL leave the index alone; REMOVE_ITEM touches it only when a todo carried the id, and then deletes at most one entry; REMOVE_COMPLETED_ITEMS only deletes; REMOVE_ALL_ITEMS empties it |

## Left out

- Reading and writing `localStorage`, and `JSON.parse`/`JSON.stringify`: storage is the `index` field. An absent key reads as the empty map.
- Unparseable stored contents and storage failures, with the `try`/`catch` blocks and `console.error` that absorb them, are not modelled, because they come from the browser. In the source they skip the write; a failed save has already bumped the counter, because the increment comes before any storage call.
- The throw for an unknown action type: no value of `Action` can reach it.
- The counter is an unbounded `nat`. The source's counter is a JavaScript number and stops counting exactly after 2^53 increments; that is not modelled.
- The order of `Object.keys`: removal is specified as deleting some key that holds the title, not the first one inserted. Integer-like keys are listed first in JavaScript; ISO timestamps are never integer-like.
- Keys such as `"__proto__"` have special meaning in JavaScript objects. They are not modelled, because ISO timestamps never take those values.
- Milliseconds are the finest resolution of `toISOString`. Two saves in the same millisecond would write to the same key. The counting lemmas assume distinct timestamps and do not cover that case.
- The action-type constants come from `./constants`, which is not part of this model. The action kinds are modelled as constructors.
- The copy of the primary list under "react-todos" is written by code outside `reducer.js`, which is not part of this model.
- TitleStore.RemovedEachCounts: the per-title count is stated only when no key is the empty string. With an empty key, the empty-string guard can skip a deletion, and then only the sub-map and "deleted entries held listed titles" parts hold.
