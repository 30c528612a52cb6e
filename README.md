# To-do list state engine

A model of the task-list logic of the `App` component of a React Native to-do
app (App.js). The component keeps two ordered lists, the active `todos` and the
`completedItems`, and mirrors each into a key-value store under the keys
`@todos` and `@completedItems`. Tasks are added from a text box and checked off
into the completed list. Completed tasks are deleted one by one or all at once
after a confirmation. Both views filter their rows by a case-insensitive search
on the title.

The model has three modules:

- `Text` (text.dfy): `trim`, `toLowerCase` (with `toUpperCase` to state
  case-insensitivity) and `includes`. `Trim` is proved to
  cut off only ECMAScript white-space and line-terminator characters, and all
  of them at either end. `Contains` is proved
  equal to "occurs at some offset".
- `Tasks` (tasks.dfy): the `Task` record and the pure list operations the
  handlers build their new lists with. These are array `filter`, array `find` on
  the id, the new task record and the completion stamp, and the title search.
  Filter, find, removal by id and search each have lemmas that characterise
  them independently: membership, multiplicity, order and concatenation for
  `Filter`; the first matching position for `FindById`; exact removal of one
  position when ids are unique; and for the search, its substring test and
  its indifference to the case of the query.
- `TodoApp` (app.dfy): the class `App`. Its fields are the component's state
  hooks, plus `store`, a map from key to the stored task list. Each handler is a
  method whose `ensures` gives the whole new state in terms of the old one and
  the `Tasks` functions. Four client methods (one a helper of another) show
  what a caller can conclude from those contracts alone.

The model follows the code as written, including behaviour one would not
expect of a to-do list:

- A new task's id is the current length of the active list (App.js:81). After a
  task has been checked off, two active tasks can share an id. Checking that id
  off then removes both but moves only the first. `Tasks.IdCollision` exhibits
  this sequence on the lists, and `TodoApp.IdCollisionSession` through the
  handlers. `Tasks.AddKeepsIdsPositions` shows that if a list's ids equal their
  positions (an empty list, say), an add keeps them so, and so keeps them unique.
  A list loaded from the store need not have this shape.
- The title stored is the raw input, not the trimmed one (App.js:82).
- The completed list is read from the store only when the completed view opens
  (App.js:56-60). Checking a task off stores the completed list held in memory.
  So a task checked off before the completed view was opened in this run
  replaces all completed history in the store.
  `TodoApp.CompleteBeforeCompletedViewOpened` proves this.
- A delete-all confirmation that arrives while no dialog is open would be
  expected to do nothing. The code does not check: `HandleConfirmDeleteAll`
  clears unconditionally. Nothing in App.js ever sets `showDeleteAllModal` to true, so
  the dialog path is modelled as written, although the UI cannot reach it.
  Likewise no element of App.js calls `handleDeleteAllTodos` (App.js:103-106):
  `HandleDeleteAllTodos` models a handler the UI never invokes.
- Checking off an id that no active task has would be expected to change
  nothing. The code instead appends a record with only a completion time (see
  `HandleDeleteTodo` under Left out).

Active tasks carry no completion time and completed tasks carry one: App.js
creates tasks without `completedTimestamp` (App.js:80-84), stamps every task it
moves (App.js:96), and writes each stored list only from the list in memory.
`TodoApp.App.Lifecycle` states this rule over both lists and both stored
copies. The constructor establishes it over a store of that shape, and every
handler keeps it.

Clock readings (`new Date().toLocaleString()`) are passed to the handlers as the
string parameter `now`. The user's choice in the confirmation alert is the
parameter `yes`.

## Model

| member | source | states |
|---|---|---|
| Text.Trim | App.js:79 | the trimmed text is the slice of the input left after cutting off a prefix and a suffix that are all white space; it has no white space at either end, and is empty exactly when every character is white space |
| Text.LowerIgnoresCase | App.js:225 | the lowered text has no upper-case letter left, lowering twice changes nothing, and lowering an upper-cased text gives the same as lowering the text itself |
| Tasks.SearchIgnoresQueryCase | App.js:224-226 | the case the search text is typed in does not change the rows shown: searching the upper-cased text shows the same rows, in the same order |
| Text.ContainsIffOccurs | App.js:225 | `includes` holds exactly when the query occurs in the title at some offset |
| Tasks.Filter | App.js:93 | filtering never lengthens the list and keeps only elements of the input that pass the test |
| Tasks.FilterMembership | App.js:93 | an element is in the filtered list exactly when it is in the input and passes the test |
| Tasks.FilterCounts | App.js:109 | each passing element keeps its multiplicity and every other element has none, so the result is the input's multiset restricted to the test |
| Tasks.FilterIsSubsequence | App.js:93 | the filtered list is an order-preserving subsequence of the input |
| Tasks.FilterAppend | App.js:224-226 | filtering a concatenation is the concatenation of the filtered parts |
| Tasks.FilterKeepsAll | App.js:224-226 | when every element passes, the list comes back unchanged |
| Tasks.FilterIdempotent | App.js:263-265 | filtering twice with the same test equals filtering once |
| Tasks.FindById | App.js:94 | find returns nothing exactly when no task has the id, and otherwise the task at the first position holding that id |
| Tasks.WithoutIdSpec | App.js:93 | removal by id keeps exactly the tasks with a different id, in order; no task with the id is left; an absent id leaves the list unchanged |
| Tasks.RemoveUnique | App.js:93-96 | with unique ids and the id present, the task found and the task removed are the one at a single position i, and removal cuts out exactly that position, so the list shrinks by one |
| Tasks.WithoutIdSingle | App.js:93 | when only one task carries the id, removal returns the rest in order |
| Tasks.AddKeepsIdsPositions | App.js:80-85 | if every id equals its position, an add keeps that so, and the ids of the new list are unique |
| Tasks.IdCollision | App.js:81-96 | add, add, check off id 0, add gives two active tasks with id 1; removing id 1 empties the list while find picks only the first |
| Tasks.SearchSpec | App.js:224-226 | the search keeps, in order and with their multiplicity, exactly the tasks whose lowered title includes the lowered query, that is, contains it at some offset |
| Tasks.SearchEmptyQuery | App.js:224-226 | an empty search text shows the whole list in its order |
| Tasks.SearchIdempotent | App.js:263-265 | searching the result again with the same text changes nothing |
| Tasks.SearchAppend | App.js:224-226 | appending a task appends it to the shown rows exactly when its title matches |
| Tasks.ShownIdsAreListed | App.js:132 | every shown row's id is held by some active task, so the check-mark button meets the requirement of HandleDeleteTodo |
| TodoApp.App.ShownTodos | App.js:224-226 | the active rows shown are exactly the active tasks whose lowered title includes the lowered search text, each as often as it occurs in the list, in list order; an empty search text shows the whole list |
| TodoApp.App.ShownCompletedItems | App.js:263-265 | the completed rows shown are exactly the completed tasks whose lowered title includes the lowered search text, each as often as it occurs in the list, in list order; an empty search text shows the whole list |
| TodoApp.App.constructor | App.js:17-26 | the state hooks start empty: no input, no search, both lists empty, no dialog, message shown; the store holds what earlier runs left, and when its lists obey the lifecycle rule so does the whole state |
| TodoApp.App.LoadTodos | App.js:28-43 | a stored active list replaces the in-memory one and hides the message; a missing key leaves the list as it was and shows the message; the lifecycle rule is kept |
| TodoApp.App.LoadCompletedItems | App.js:45-54 | a stored completed list replaces the in-memory one; a missing key leaves it as it was; the lifecycle rule is kept |
| TodoApp.App.SaveTodos | App.js:62-68 | the store maps the active-list key to the given list and every other key is unchanged |
| TodoApp.App.SaveCompletedItems | App.js:70-76 | the store maps the completed-list key to the given list and every other key is unchanged |
| TodoApp.App.SetTextInput | App.js:212 | the text box holds the typed text |
| TodoApp.App.SetSearchText | App.js:203 | the search box holds the typed text |
| TodoApp.App.HandleAddTodo | App.js:78-90 | blank input changes nothing at all; otherwise a task with id equal to the old length, the untrimmed title, the given time and no completion time is appended and stored, the input is cleared and the message hidden; the completed list is untouched; the lifecycle rule is kept |
| TodoApp.App.HandleDeleteTodo | App.js:92-101 | every task with the id leaves the active list and the rest keep their order; the first of them, stamped with the completion time, is appended to the completed list; the store holds both new lists; with unique ids the active list shrinks by one and the completed list grows by one; the lifecycle rule is kept |
| TodoApp.App.HandleDeleteAllTodos | App.js:103-106 | the active list and its stored copy become empty; the completed list and its stored copy are untouched; the lifecycle rule is kept |
| TodoApp.App.HandleDeleteCompleted | App.js:108-112 | every completed task with the id is dropped and the rest are stored in order; an absent id leaves the list unchanged; the active list is untouched; the lifecycle rule is kept |
| TodoApp.App.HandleCloseDeleteAllModal | App.js:140-142 | the dialog closes and no list changes; the lifecycle rule is kept |
| TodoApp.App.HandleConfirmDeleteAll | App.js:144-148 | the completed list and its stored copy become empty and the dialog closes; the lifecycle rule is kept |
| TodoApp.App.HandleDeleteAllCompleted | App.js:150-160 | "yes" empties the completed list and its stored copy; "no" changes nothing; the lifecycle rule is kept |
| TodoApp.App.ConfirmDeleteAllCompleted | App.js:162-165 | the completed list and its stored copy become empty and the active list is untouched; the lifecycle rule is kept |
| TodoApp.SampleSession | App.js:78-101 | starting from an empty store, adding "Buy milk" and "Call Sam" and checking off task 0 leaves "Call Sam" (id 1) active and "Buy milk" completed with its completion time; searching "call" shows "Call Sam" |
| TodoApp.CollideIds | App.js:78-101 | through the handlers on a fresh app: add, add, check off 0, add leaves two active tasks with id 1 and the first task, stamped, as the only completed one |
| TodoApp.IdCollisionSession | App.js:78-101 | through the handlers: add, add, check off 0, add gives two active tasks with id 1; checking off id 1 then empties the active list while only the first of them reaches the completed list |
| TodoApp.CompleteBeforeCompletedViewOpened | App.js:45-100 | checking a task off before the completed view was opened stores a completed list that holds only that task, whatever history the store held, and reloading returns that list |

## Left out

- Rendering (JSX, list key extraction, separators, styles), the menu dialog, the calendar dialog and `selectedDate`: presentation only.
- `handleModalToggle` and `handleCloseModal` (App.js:181-187): they refer to a `showModal` state that is never declared.
- The `completedVisible` flag and the menu entries that set it: `LoadCompletedItems` is the effect that runs when this flag becomes true.
- AsyncStorage and JSON encoding: the store is a map from key to task list. Reads and writes are atomic and in program order. Asynchrony and interleaving of in-flight writes are not modelled.
- Storage failures are only logged by the source, and the state set in memory is not rolled back. The model has no failure path: every store write succeeds.
- Clock readings are opaque string parameters; their format is not modelled.
- Text.Lower: folds only the ASCII letters A-Z. The source's `toLowerCase` folds the whole Unicode range. Titles with non-ASCII upper-case letters can match in the app but not in the model.
- Text.Trim: uses the white-space set of the ECMAScript standard without tracking the Unicode version of its space-separator category.
- TodoApp.App.HandleDeleteTodo: requires that some active task has the id. The only caller is the check-mark button of a shown row, and `Tasks.ShownIdsAreListed` proves such an id is always present. For an absent id the source would spread `undefined` and append a record with only a completion time. That record is not modelled.
- `noTodosMessage` is hidden by an add and set by the mount load only. The source never shows it again after the list is emptied, and neither does the model.
