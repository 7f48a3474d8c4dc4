# To-do list task store, in Dafny

A model of the task store behind the single-page to-do list in `script.js`. The page keeps
an ordered array `tasks` of records `{id, text, completed}` in memory. It loads the array
from the browser's local storage at startup and writes it back after every change. Three
handlers change it:

- `addTask` trims the input field's text. A blank text is refused with an alert. Any other
  text is appended as a new uncompleted task, keyed by the current time in milliseconds.
- `deleteTask(id)` keeps only the tasks whose id differs from `id`.
- `toggleTask(id)` flips the completion flag of the first task with that id, if there is one.

Files:

- `text.dfy` (module `TaskText`): JavaScript's `String.prototype.trim` as `Trim`, with the
  ECMAScript whitespace and line-terminator code points, and the lemma that pins `Trim`
  down uniquely.
- `task_list.dfy` (module `TaskList`): the `Task` record and the pure meaning of the three
  changes on a sequence of tasks. `Without` is the filter, `FindFirst` the search, and
  `Toggled` the find-and-flip. Lemmas state what each promises and how they combine.
- `task_store.dfy` (module `TaskStore`): class `Store`, the page's mutable state. It has the
  field `tasks` and the field `saved`, which stands for the storage slot. Its methods
  `Add`, `Delete` and `Toggle` are the three handlers. Their postconditions give the new
  state in terms of the functions above and keep the invariant that storage mirrors
  memory. Two small client methods go through an example session: add "Buy milk",
  toggle it, delete it, and refuse a blank entry.

Ids are not unique. Two tasks added in the same millisecond share an id. The model keeps
the code's behaviour in that case: `Delete` removes every task with the id, but `Toggle`
flips only the first one (lemma `CollidingIds`). Ids are meant to be unique, and deletion is
meant to remove a single entry. The code does not guarantee either, and the model follows
the code.

## Model

| member | source | states |
|---|---|---|
| TaskText.Trim | script.js:22 | the trimmed text neither starts nor ends with whitespace, and it is empty exactly when the input is all whitespace |
| TaskText.TrimIsInfix | script.js:22 | the trimmed text is the input's infix at some offset, and everything before and after that infix is whitespace |
| TaskText.TrimUnique | script.js:22 | any split of the input into whitespace, a middle part with no whitespace at either end, and whitespace has `Trim` as its middle part, so the contract of `Trim` determines it |
| TaskText.TrimIdempotent | script.js:22 | trimming an already trimmed text changes nothing |
| TaskText.WhitespaceCodePoints | script.js:22 | a character counts as whitespace for trimming exactly when it is one of the listed code points: tab, line feed, vertical tab, form feed, carriage return, space, no-break space, U+1680, U+2000 to U+200A, line and paragraph separators, U+202F, U+205F, U+3000 and the zero-width no-break space |
| TaskList.Without | script.js:44 | the filtered list is no longer than the original, has no task with the id, and holds only tasks of the original |
| TaskList.WithoutCounts | script.js:44 | the filter keeps each task whose id differs as many times as it occurred and keeps no task with the id |
| TaskList.WithoutPreservesOrder | script.js:44 | the filtered list is a subsequence of the original, so the kept tasks stay in their relative order |
| TaskList.WithoutIsTheFilter | script.js:44 | any order-preserving selection holding exactly the tasks with another id, with their multiplicities, equals `Without`; it is the only such selection |
| TaskList.WithoutUnchangedIff | script.js:44 | deleting changes the list if and only if some task has the id |
| TaskList.WithoutIdempotent | script.js:44 | deleting the same id twice gives the same list as deleting it once |
| TaskList.WithoutConcat | script.js:44 | filtering a concatenation filters each part |
| TaskList.FindFirst | script.js:51 | the search reports no position exactly when no task has the id; otherwise it reports the position of the first task with the id |
| TaskList.Toggled | script.js:50-53 | toggling keeps the length and every id and text; it flips the flag of the first task with the id and keeps every other task; with no such task the list is unchanged |
| TaskList.ToggledUnchangedIff | script.js:51-52 | toggling changes the list if and only if some task has the id |
| TaskList.ToggledTwice | script.js:53 | toggling the same id twice restores the original list |
| TaskList.DeleteUndoesAppend | script.js:35-44 | appending a task whose id is new and then deleting that id gives back the original list |
| TaskList.ToggleFindsAppended | script.js:35-53 | appending a task whose id is new and then toggling that id flips exactly the new task |
| TaskList.CollidingIds | script.js:30-53 | when two tasks share an id, deleting it removes both, while toggling it leaves the later one untouched |
| TaskStore.Store.constructor | script.js:7 | startup takes the stored list, or the empty list when none is stored, and storage mirrors memory |
| TaskStore.Store.Save | script.js:60-62 | saving writes the in-memory list to the storage slot |
| TaskStore.Store.Add | script.js:21-40 | `Add` succeeds if and only if the input is not all whitespace. On failure, memory and storage are unchanged. On success, the old list is followed by exactly one new task `{id: now, text: Trim(input), completed: false}`, and that list is saved |
| TaskStore.Store.Delete | script.js:43-47 | after `Delete`, the list is `Without(old list, id)` and it is saved |
| TaskStore.Store.Toggle | script.js:50-57 | after `Toggle`, the list is `Toggled(old list, id)`. It is saved when some task had the id; otherwise storage is unchanged |

## Left out

- The DOM is not modelled: element lookups, event wiring in `init`, clearing and refocusing the input field, and `renderTasks`. The input field's value is the `input` parameter of `Add`.
- `alert` is not modelled. It becomes `Add` returning `false`.
- `Date.now()` is not modelled. The clock reading is the `now` parameter of `Add`.
- The JSON encoding in `saveTasks` and at startup is not modelled. Storage holds the task sequence itself. Exceptions are not modelled: `JSON.parse` on malformed stored text, a failing `setItem`, and stored records not shaped like tasks.
- Character encoding: JavaScript strings are UTF-16 code units, while Dafny characters are Unicode scalar values. Every whitespace code point is in the Basic Multilingual Plane, so trimming agrees. Unpaired surrogates have no counterpart in the model.
- The stored task objects are references in JavaScript. `toggleTask` changes the found object in place. The render closures (script.js:80, 85) also hold the task objects, but they read only `id`, which nothing changes. So treating tasks as values and replacing the element loses nothing.
