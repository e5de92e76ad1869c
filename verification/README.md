# Task Master: the task-list bookkeeping of the `App` component

Task Master is a single-page task manager. Its one React component, `App`,
keeps a local copy of the task list held by a remote store, sends create,
update and delete requests to that store, and after each request that
succeeds rebuilds its list: from the store's answer after a list, create or
update call, and by dropping the deleted id after a delete. On every render it
derives the visible tasks and the header counts from the list, the search
box and the selected filter tab.

This project models that bookkeeping in Dafny:

- `outcomes.dfy` (`Outcomes`): `Option`, and `Outcome`, the settled result
  of one call to the store (`Success` with the response body, or `Failure`).
- `text.dfy` (`Text`): the string operations the component calls:
  `toLowerCase` (ASCII letters only), `trim` (the exact ECMAScript
  whitespace and line-terminator set) and `includes`.
- `tasks.dfy` (`Tasks`): the `Task` record, the request bodies, `Select`
  (JavaScript's `Array.prototype.filter`, which the component calls three
  times) with its algebra, the two list
  rebuilds (`map` by id after a toggle, `filter` by id after a delete) and
  lemmas about them under the assumption that ids are unique.
- `view.dfy` (`View`): the visible-task selection (`filteredTasks`) and the
  header statistics, with their lemmas.
- `app.dfy` (`AppState`): the class `App` holding the component's state
  fields, with one method per handler. Each method takes the store's answer
  as a parameter and returns the request it sends.

On three points the code's behaviour is easy to misread:

- A toggle replaces every listed task with the toggled id, and a delete
  removes every listed task with that id. "Exactly one task" holds only
  when ids are unique, which the component never checks. The model proves
  the general behaviour, and proves the "exactly one" forms from a
  uniqueness assumption (`Tasks.ToggleFlipsOne`, `Tasks.DeleteRemovesOne`).
- The due date sent with a new task is the raw date box, `""` when no date
  was picked, not an absent value.
- The filter tab is stored as a string, but the component only ever sets
  it to `All`, `Pending` or `Completed`, so it is a three-valued datatype
  here.

## Model

| member | source | states |
|---|---|---|
| `Text.Lower` | src/App.js:66 | lower-casing keeps the length and lower-cases each character in place |
| `Text.LowerIsLower` | src/App.js:66 | a lower-cased string has no ASCII upper-case letter left and lower-casing it again changes nothing |
| `Text.TrimStart` | src/App.js:30 | the result is a suffix of the input, all of what was cut is whitespace, and it does not start with whitespace |
| `Text.TrimEnd` | src/App.js:30 | the result is a prefix of the input, all of what was cut is whitespace, and it does not end with whitespace |
| `Text.Trim` | src/App.js:30 | `trim()` is `TrimEnd` after `TrimStart`, and never longer than its input; what it keeps and cuts is stated by `Text.TrimStart`, `Text.TrimEnd`, `Text.TrimOccurs`, `Text.TrimHasNoOuterWhitespace` and `Text.TrimEmptyIffAllWhitespace` |
| `Text.TrimOccurs` | src/App.js:30 | the trimmed input is the piece of the input starting where the leading whitespace ends, and everything before and after it is whitespace |
| `Text.TrimHasNoOuterWhitespace` | src/App.js:30 | the trimmed input neither starts nor ends with whitespace |
| `Text.TrimEmptyIffAllWhitespace` | src/App.js:30 | the trimmed input is empty exactly when the input is all whitespace |
| `Text.IsBlank` | src/App.js:30 | the `!input.trim()` guard holds for the empty input; `Text.BlankIffAllWhitespace` states it holds exactly for all-whitespace input |
| `Text.BlankIffAllWhitespace` | src/App.js:30 | the add guard fires exactly when the input box holds only whitespace, and always when it is empty |
| `Text.Includes` | src/App.js:66 | `includes` never finds a term longer than the text; `Text.IncludesIffOccurs` states it finds exactly the terms that occur somewhere |
| `Text.IncludesIffOccurs` | src/App.js:66 | `includes` holds exactly when the term occurs at some position of the text |
| `Text.IncludesEmpty` | src/App.js:66 | every text includes the empty search term |
| `Text.IncludesFirstChar` | src/App.js:66 | a non-empty term can only be found in a text containing its first character |
| `Tasks.Select` | src/App.js:65-71 | `filter` keeps, in order and as often as they occur, exactly the elements that pass the test, and never lengthens the list |
| `Tasks.ReplaceById` | src/App.js:49 | after a toggle the list has the same length; tasks with another id keep their place and value, tasks with the toggled id become the store's answer |
| `Tasks.RemoveById` | src/App.js:58 | after a delete no task has the id, every other task is kept in its order, and the list shrinks by the number of tasks that had the id |
| `Tasks.CountIdUnique` | src/App.js:58 | with unique ids an id is listed once or not at all |
| `Tasks.DeleteRemovesOne` | src/App.js:55-58 | with unique ids, deleting a listed id shortens the list by exactly one and deleting an unlisted id leaves it as it was |
| `Tasks.NothingToRemove` | src/App.js:58 | deleting an id no task has leaves the list unchanged |
| `Tasks.DeleteUndoesAdd` | src/App.js:38 | deleting the fresh id of a task just put at the head gives back the list before the add |
| `Tasks.PrependKeepsUniqueIds` | src/App.js:38 | putting a task with a new id at the head keeps ids unique |
| `Tasks.ReplaceKeepsUniqueIds` | src/App.js:49 | replacing by a store answer with the same id keeps ids unique |
| `Tasks.RemoveKeepsUniqueIds` | src/App.js:58 | deleting keeps ids unique |
| `Tasks.ToggleFlipsOne` | src/App.js:46-49 | when the store answers with the task flipped, exactly that task changes, and only in its completed flag |
| `View.Visible` | src/App.js:65-71 | the visible tasks are an order-preserving subsequence of the list, each matches both the search term and the tab, and every matching task is kept as often as it is listed |
| `View.MatchesSearch` | src/App.js:66 | an empty search box matches every task, and a term longer than the task's text matches none |
| `View.MatchesFilter` | src/App.js:67-69 | the All tab matches every task; otherwise a task matches when its completed flag agrees with whether the tab is Completed |
| `View.VisibleAllEmptySearch` | src/App.js:65-71 | under the All tab with an empty search box the visible list is the whole list |
| `View.CompletedPendingSplitAll` | src/App.js:67-69 | for one search term the Completed and Pending tabs share no task and together are as long as the All tab |
| `View.VisibleIdempotent` | src/App.js:65-71 | filtering the visible list again with the same term and tab changes nothing |
| `View.SearchIgnoresCase` | src/App.js:66 | searching for a term or for its lower-cased form shows the same tasks |
| `View.VisibleAfterDelete` | src/App.js:58-71 | after a delete the visible list is the old visible list without the deleted id |
| `View.DoneCount` | src/App.js:79 | the Done count is at most the list length, zero exactly when no task is completed, and the full length exactly when every task is |
| `View.DoneZeroIff` | src/App.js:79 | the Done count is zero exactly when no listed task is completed |
| `View.Header` | src/App.js:78-79 | Done never exceeds Total; Total is the All tab and Done the Completed tab, both with an empty search box |
| `View.DoneIsCompletedTab` | src/App.js:79 | the Done count equals the length of the Completed tab with an empty search box |
| `View.DoneCountUpdate` | src/App.js:79 | changing one task moves the Done count by the difference of the two completed flags |
| `View.ToggleMovesDoneByOne` | src/App.js:46-49 | a toggle answered with the flipped task moves the Done count up or down by exactly one |
| `View.PendingTaskHiddenUnderCompleted` | src/App.js:67-69 | a single pending task is not shown under the Completed tab |
| `View.SearchMilkScenario` | src/App.js:66 | searching "MILK" among "Buy milk" and "Walk dog" shows only "Buy milk" |
| `View.MilkFound` | src/App.js:66 | "Buy milk" matches the search "MILK" |
| `View.MilkNotFound` | src/App.js:66 | "Walk dog" does not match the search "MILK" |
| `AppState.App.constructor` | src/App.js:8-13 | the component mounts with an empty list, empty boxes, Medium priority and the All tab |
| `AppState.App.FilteredTasks` | src/App.js:65-71 | the tasks on screen are an order-preserving part of the list, each matching the search box and the selected tab |
| `AppState.App.FetchTasks` | src/App.js:19-26 | a successful list call replaces the local list with the store's; a failed one leaves it; nothing else changes |
| `AppState.App.AddTask` | src/App.js:28-44 | a blank input sends nothing and changes nothing; otherwise the form is sent; a created task goes to the head and the text and date boxes clear; a failure keeps the list and both boxes |
| `AppState.App.ToggleComplete` | src/App.js:46-53 | the request asks for the flipped flag; on success the list is rebuilt by id with the store's answer, on failure it is kept; nothing else changes |
| `AppState.App.DeleteTask` | src/App.js:55-62 | on success the id leaves the list and the visible list loses exactly the tasks with that id; on failure the list is kept; nothing else changes |
| `AppState.AddThenDelete` | src/App.js:28-62 | adding a task with a fresh id and then deleting it successfully restores the list; the text and date boxes stay cleared; only the list and those two boxes may change |

## Left out

- The HTTP calls, the store's address and the request URLs (src/App.js:5, 21, 33, 48, 57): the store is not part of this model. Each handler returns the request body it sends and takes the settled answer as a parameter.
- Logging in the `catch` blocks (`console.error`): output only; a failure is modelled as "no state change".
- Asynchrony: each handler is modelled as running to completion against the list it saw when it started. Interleaved handlers and late answers overwriting newer state are not modelled.
- Rendering, styles, icons and priority colours (src/App.js:73-189).
- The overdue badge (src/App.js:168-177): it depends on the current time and on JavaScript date parsing and locale formatting.
- The change handlers of the input box, the priority selector, the date box, the search box and the filter tabs (src/App.js:87, 93, 103, 117, 135): each only copies a value into a field, which here is a direct assignment to the public field of `App`.
- Text.Lower: maps only the ASCII letters A-Z; JavaScript's `toLowerCase` applies the full Unicode case mapping, so searches involving other letters are not modelled case-insensitively.
- Characters are Unicode scalar values, not the UTF-16 code units of JavaScript strings; `trim`'s whitespace set lies entirely in the Basic Multilingual Plane, so trimming is unaffected.
- The shape of the store's answers: the model assumes every answer is a well-formed task (or list of tasks); what the component does with a malformed answer (a task without `text`, a non-boolean `completed`) is not modelled. Uniqueness of ids is an assumption of the lemmas that need it, not an invariant of `App`.
