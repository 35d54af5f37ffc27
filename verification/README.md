# Task manager list logic in Dafny

A model of the in-memory task list behind a small React task-tracking page.
The page seeds its list from a remote to-do feed and offers a form to add
tasks. It shows the tasks in a table where a task can be deleted or have a
cell edited. It counts the tasks by status, and filters the table by status
and search text.

The model follows the two components of the page:

- `TaskManager` (`task_manager.dfy`): the list and everything done to it.
  This covers seeding from the remote records, `addTask`, `deleteTask`,
  `updateTaskStatus`, the `filteredTasks` view, the `taskCounts` summary,
  the `handleCellEdited` table callback, and the wiring of the form's
  callback to `addTask`.
- `AddTaskForm` (`add_task_form.dfy`): the two-field form. Its
  "Add Task" handler validates both fields. It then either calls
  `onAddTask` and clears the form, or rejects the input and changes nothing.

Two support modules model what the code borrows from JavaScript:

- `Seqs` (`seqs.dfy`): `Array.prototype.filter`, as `Filter`. Its contract
  says the result is an order-preserving subsequence holding exactly the
  satisfying elements. The lemma `FilterMultiplicity` adds that each of them
  is kept as often as it occurs in the input.
- `Text` (`text.dfy`): `trim` with the WhiteSpace and LineTerminator
  characters of ECMA-262, `toLowerCase` on ASCII letters, `includes`, and
  the decimal rendering of an integer in a template literal.

`Wrappers` (`wrappers.dfy`) holds the `Option` type.

Every operation is a pure function from the current list to the next list.
React state updates become return values.

Three facts of the code shape the model:

- A status is a plain string, not one of three values. `updateTaskStatus`
  stores whatever it is given. `handleCellEdited` passes it the edited
  cell's value from any column.
- Ids are not unique. A new task's id is the list's length plus one, so
  after a deletion the next task can reuse an id that is still in the list.
  This is shown by `AddAfterDeleteReusesId`. Deleting and updating
  therefore act on every task with the given id.
- Edits to the title and description columns are wired to a store change.
  They reach `updateTaskStatus` and set the status. `handleCellEdited`
  itself never touches the title or the description.

## Model

| member | source | states |
|---|---|---|
| Seqs.Filter | src/component/TaskManager.js:52-57 | `filter` returns an order-preserving subsequence of its input, no longer than the input. An element is in the result exactly when it is in the input and satisfies the predicate. |
| Seqs.FilterMultiplicity | src/component/TaskManager.js:52-57 | `filter` keeps every element satisfying the predicate as many times as it occurs, and no other element. |
| Text.IsWhitespace | src/component/AddTaskForm.js:9 | The characters `trim` removes, given as code-point ranges, are exactly the ECMA-262 WhiteSpace and LineTerminator code points listed one by one. |
| Text.FirstNonWhitespace | src/component/AddTaskForm.js:9 | The scan for the start of the trimmed text stops at the first character that is not whitespace, or at the end, having passed only whitespace. |
| Text.AfterLastNonWhitespace | src/component/AddTaskForm.js:9 | The scan for the end of the trimmed text stops just after the last character that is not whitespace, or at its lower bound, having passed only whitespace. |
| Text.Trim | src/component/AddTaskForm.js:9 | `trim` returns a slice of its input. Only whitespace lies before and after that slice, and neither end of the result is whitespace. |
| Text.IsBlank | src/component/AddTaskForm.js:9 | `!s.trim()` holds exactly when `s` has no character outside the whitespace set. |
| Text.BlankIgnoresPadding | src/component/AddTaskForm.js:9 | Whitespace added before or after a string never changes whether it is blank. |
| Text.LowerChar | src/component/TaskManager.js:55-56 | Lowercasing maps `A`-`Z` to `a`-`z`, leaves every other character alone, and never yields an uppercase ASCII letter. |
| Text.ToLower | src/component/TaskManager.js:55-56 | Lowercasing keeps the length and lowercases each character in place. |
| Text.ToLowerIdempotent | src/component/TaskManager.js:55-56 | Lowercasing a lowercased string changes nothing. |
| Text.Contains | src/component/TaskManager.js:55-56 | `includes` holds exactly when the query occurs at some index of the string. |
| Text.ContainsEmpty | src/component/TaskManager.js:55-56 | The empty query is found in every string. |
| Text.ContainsLower | src/component/TaskManager.js:55-56 | An exact-case occurrence is still found after both sides are lowercased. |
| Text.NatToString | src/component/TaskManager.js:21 | A non-negative id renders as a non-empty string of decimal digits whose value is the id. It starts with `0` only for zero. |
| Text.IntToString | src/component/TaskManager.js:21 | Any integer renders as a canonical numeral: at least one digit, no leading zero except in `0`, and a minus sign exactly when the integer is negative. That numeral reads back as the integer. |
| Text.CanonicalDigits | src/component/TaskManager.js:21 | A digit string without a leading zero is exactly the decimal rendering of its value. |
| Text.CanonicalNumeralUnique | src/component/TaskManager.js:21 | The only canonical numeral that reads back as an integer is that integer's rendering, so the contract of the rendering fixes the string. |
| Text.IntToStringInjective | src/component/TaskManager.js:21 | Different integers render differently. |
| AddTaskForm.HandleAddTask | src/component/AddTaskForm.js:8-17 | The form submits exactly when both fields have a non-whitespace character. A submission passes both fields untrimmed and clears both. A rejection leaves both fields as they were. |
| AddTaskForm.Run | src/component/AddTaskForm.js:5-54 | Over any run of typing and button presses, the form calls `onAddTask` at most once per press. Every call carries a title and a description that each hold a non-whitespace character. |
| AddTaskForm.RunConcat | src/component/AddTaskForm.js:5-54 | Running two stretches of events in turn gives the same final form and the same calls, in order, as running them together. |
| AddTaskForm.TypeThenAdd | src/component/AddTaskForm.js:8-17 | After any history, typing a valid title and description and pressing the button makes exactly one more call. It carries the two texts as last typed and leaves the form empty. |
| AddTaskForm.CallClearsForm | src/component/AddTaskForm.js:14-16 | Only a button press makes a call, and the form is empty right after each call. |
| AddTaskForm.BlankTitleRejected | src/component/AddTaskForm.js:9-12 | A blank title means no callback and an unchanged form. |
| AddTaskForm.BlankDescriptionRejected | src/component/AddTaskForm.js:9-12 | A blank description means no callback and an unchanged form. |
| AddTaskForm.PaddingDoesNotDecide | src/component/AddTaskForm.js:9-14 | Padding the title with whitespace does not change whether the form submits. When it submits, the padded title is passed on as typed. |
| AddTaskForm.NoDoubleSubmit | src/component/AddTaskForm.js:14-16 | After a submission the cleared form cannot submit again. |
| TaskManager.SeedDescription | src/component/TaskManager.js:21 | A seeded description is `Task Description ` followed by a canonical numeral. The numeral has no leading zero and a minus sign exactly for a negative id, and it reads back as the id. |
| TaskManager.SeedTask | src/component/TaskManager.js:19-22 | A seeded task keeps the record's id and title. Its description is `Task Description ` followed by the id. Its status is `Done` exactly when the record is completed and `To Do` otherwise, never `In Progress`. |
| TaskManager.Seed | src/component/TaskManager.js:18-23 | Seeding keeps the first twenty records, or all of them when there are fewer, and maps each in order. No seeded task is in progress. |
| TaskManager.SeedCounts | src/component/TaskManager.js:18-23 | A seeded list counts no task in progress, and its to-do and done counts add up to the total. |
| TaskManager.SeedDescriptionInjective | src/component/TaskManager.js:21 | Different ids give different seeded descriptions. |
| TaskManager.SeedDescriptionsDistinct | src/component/TaskManager.js:19-21 | Seeded records with different ids get different descriptions. |
| TaskManager.AddTask | src/component/TaskManager.js:28-35 | `addTask` keeps the old list as a prefix and appends exactly one task. That task has id old length plus one, the given title and description, and status `To Do`. |
| TaskManager.AddTaskCounts | src/component/TaskManager.js:28-35 | Adding raises the total and the to-do count by one and leaves the in-progress and done counts alone. |
| TaskManager.DeleteUndoesAdd | src/component/TaskManager.js:28-40 | Deleting the id just assigned gives back the old list when no older task had that id. |
| TaskManager.AddKeepsPositionalIds | src/component/TaskManager.js:30 | While nothing is deleted, adding keeps every id equal to its position counted from one. |
| TaskManager.AddAfterDeleteReusesId | src/component/TaskManager.js:30 | Deleting the first of two tasks and then adding one leaves two tasks with the same id. |
| TaskManager.DeleteTask | src/component/TaskManager.js:39-40 | `deleteTask` returns an order-preserving subsequence. A task is in it exactly when it was in the list and has a different id. The length drops by the number of tasks with the id. |
| TaskManager.DeleteKeepsOthers | src/component/TaskManager.js:39-40 | Every task with a different id survives as many times as it occurred. |
| TaskManager.DeleteMissingIsIdentity | src/component/TaskManager.js:39-40 | Deleting an id no task has leaves the list unchanged. |
| TaskManager.DeleteIdempotent | src/component/TaskManager.js:39-40 | Deleting the same id twice equals deleting it once. |
| TaskManager.DeleteUniqueRemovesOne | src/component/TaskManager.js:39-40 | Deleting an id carried by exactly one task shortens the list by one. |
| TaskManager.UpdateTaskStatus | src/component/TaskManager.js:44-47 | `updateTaskStatus` keeps the length and every task's id, title and description. Every task with the id gets the new status, and every other task is unchanged. |
| TaskManager.UpdateMissingIsIdentity | src/component/TaskManager.js:44-47 | Updating an id no task has leaves the list unchanged. |
| TaskManager.UpdateIdempotent | src/component/TaskManager.js:44-47 | Setting the same status twice equals setting it once. |
| TaskManager.DeleteForgetsUpdate | src/component/TaskManager.js:39-47 | Updating and then deleting the same id equals deleting it directly. |
| TaskManager.UpdateStatusCounts | src/component/TaskManager.js:44-47 | After an update, a status's count loses the tasks with the id that had that status. The new status's count gains all tasks with the id. |
| TaskManager.UpdateUniqueMovesOne | src/component/TaskManager.js:44-47 | When one task has the id and its status changes, one task moves from the old status's count to the new one's. |
| TaskManager.Matches | src/component/TaskManager.js:53-56 | With an empty query, a task passes exactly when the status filter is empty or equals its status. With no status filter, a task whose title contains the query verbatim passes. |
| TaskManager.FilteredTasks | src/component/TaskManager.js:52-57 | The view is an order-preserving subsequence of the list. A task is in it exactly when the status filter is empty or equals its status, and the lowercased query occurs in its lowercased title or description. |
| TaskManager.FilteredKeepsMultiplicity | src/component/TaskManager.js:52-57 | Every task the view shows appears in it as many times as in the list. |
| TaskManager.NoFilterShowsAll | src/component/TaskManager.js:52-57 | With an empty status filter and an empty query, the view is the whole list. |
| TaskManager.StatusFilterOnly | src/component/TaskManager.js:52-57 | With an empty query, the view is exactly the tasks with the filtered status. Its length is that status's count. |
| TaskManager.FilterThenSearch | src/component/TaskManager.js:52-57 | Filtering by status and query equals searching first and then keeping the tasks with the status. |
| TaskManager.SearchIgnoresQueryCase | src/component/TaskManager.js:55-56 | Lowercasing the query first never changes the view. |
| TaskManager.LiteralTitleMatchShown | src/component/TaskManager.js:55 | With no status filter, a task whose title contains the query verbatim is shown. |
| TaskManager.CountStatus | src/component/TaskManager.js:61-63 | A status count is the number of times that status occurs among the tasks' statuses (their multiset multiplicity), so it is at most the list's length and zero exactly when no task has that status. |
| TaskManager.StatusCountIsMultiplicity | src/component/TaskManager.js:61-63 | Filtering the list by one status keeps exactly as many tasks as that status occurs among the statuses. |
| TaskManager.CountWithId | src/component/TaskManager.js:40 | The number of tasks that the id test of `deleteTask` picks out is the number of times that id occurs among the tasks' ids. |
| TaskManager.IdCountIsMultiplicity | src/component/TaskManager.js:40 | Filtering the list by one id keeps exactly as many tasks as that id occurs among the ids. |
| TaskManager.TaskCounts | src/component/TaskManager.js:59-64 | The total is the length of the whole list. Each of `toDo`, `inProgress` and `done` is the count of its own status, `To Do`, `In Progress` and `Done` in that order. The three status counts add up to at most the total. They equal it exactly when every status is `To Do`, `In Progress` or `Done`. |
| TaskManager.HandleCellEdited | src/component/TaskManager.js:87-91 | A cell edit in any column sets the status of every task with the row's id to the edited value. No id, title or description changes. |
| TaskManager.TitleEditBecomesStatus | src/component/TaskManager.js:87-91 | On an edit in the title column, the handler itself leaves the title and writes the text into the status. |
| TaskManager.TitleEditLeavesToDoCount | src/component/TaskManager.js:87-91 | Renaming a to-do task through the title column removes it from the to-do count. |
| TaskManager.HandleCellEditedByField | src/component/TaskManager.js:66-91 | The corrected handler changes only the edited field of the tasks with the row's id. Every other task is unchanged. |
| TaskManager.ByFieldAgreesOnStatus | src/component/TaskManager.js:70-77 | On the status column, the corrected handler equals the original one. |
| TaskManager.TextEditKeepsCounts | src/component/TaskManager.js:68-69 | With the corrected handler, editing a title or description changes no count. |
| TaskManager.TextEditKeepsStatusCount | src/component/TaskManager.js:68-69 | With the corrected handler, editing a title or description keeps the count of every status string. |
| TaskManager.SubmitForm | src/component/TaskManager.js:133 | With the form's callback bound to `addTask`, a valid submission appends a to-do task holding the typed fields and clears the form. An invalid one changes neither the list nor the form. |
| TaskManager.ScenarioSeed | src/component/TaskManager.js:18-23 | Seeding one open and one completed record gives two tasks with counts 2 total, 1 to do, 0 in progress, 1 done. |
| TaskManager.ScenarioAddDelete | src/component/TaskManager.js:28-40 | Adding to that list gives a to-do task with id 3. Deleting id 2 then leaves ids 1 and 3 and no done task. |

## Left out

- Fetching the remote feed and parsing its JSON (TaskManager.js lines 15-16) are I/O. `Seed` takes the already parsed records. Fields other than `id`, `title` and `completed` are dropped.
- React's `useState` and `useEffect`, re-rendering, and callbacks reading a stale `tasks` are left out. Each operation takes the current list and returns the next one.
- The toast notifications and the validation `alert` are left out. They do not change any state. A rejected submission is modelled as "no callback, form unchanged".
- The Tabulator column setup, the HTML delete button, the navbar and all markup are presentation only. The delete button's click is `DeleteTask` with the row's id. A cell edit is a `Cell` value holding the field, the new value and the row's id.
- Text.LowerChar: folds only `A`-`Z`. JavaScript's `toLowerCase` follows the full Unicode case mapping, which is not modelled. That mapping is not always per character: Final_Sigma lowercases `"ΑΣ"` to `"ας"` but `"Σ"` to `"σ"`. So `Text.ContainsLower`, `TaskManager.LiteralTitleMatchShown` and the second `ensures` of `TaskManager.Matches` hold only under the per-character ASCII fold. For a title `ΑΣ` and a query `Σ`, the code hides the task while the model shows it.
- Text.ContainsLower: holds for the per-character ASCII fold only; JavaScript's context-dependent lowercasing can break it, as described under `Text.LowerChar`.
- TaskManager.LiteralTitleMatchShown: holds for the per-character ASCII fold only, for the same reason.
- TaskManager.Matches: its second `ensures` (a verbatim title match passes) holds for the per-character ASCII fold only, for the same reason.
- Text.IntToString: ids are JavaScript numbers and are modelled as integers. Fractional ids, and the exponent notation JavaScript uses for magnitudes of 10^21 and above, are not modelled.
- Tabulator writes an edited value into the row's data object before calling `handleCellEdited`. Those objects are the task objects held in `tasks` (line 52 keeps them, line 186 hands them to the table), so the spread at line 46 may copy a title Tabulator already overwrote. This aliasing is not modelled: the model's lists are values, and the handlers see the list as it was before the edit.
- A Dafny string is a sequence of Unicode scalar values, while a JavaScript string is a sequence of UTF-16 code units. The model cannot hold a lone surrogate, and it counts a character beyond the Basic Multilingual Plane as one element where JavaScript counts two. Neither matters for `trim` or the ASCII fold, because none of the characters they test is a surrogate. Nor does it matter for `includes` on well-formed strings: a match of a well-formed query can never start at a low surrogate or end at a high surrogate, so matching code units and matching code points find the same occurrences.
- `id` comparisons use `===` on numbers. The model compares integers. NaN and floating-point ids are not modelled.

## Findings

| source | as written | input that shows it | evidently intended | confidence | as-written member | corrected member |
|---|---|---|---|---|---|---|
| src/component/TaskManager.js:87-91 | `handleCellEdited` passes the edited cell's value to `updateTaskStatus` for every column. The title and description columns are editable (lines 68-69). | Edit the title of a `To Do` task to `Buy milk`. `handleCellEdited` itself leaves the title alone, sets the status to `Buy milk`, and the task leaves the to-do count. | An edit changes the edited field. Only a status-column edit changes the status. | medium; not executed | TaskManager.TitleEditLeavesToDoCount | TaskManager.HandleCellEditedByField |

No other operation in the model calls either handler. `TaskManager.HandleCellEdited` stays as written, so the model matches the code. `TaskManager.ByFieldAgreesOnStatus` shows that both handlers agree on the status column, the only column whose edits already behave as intended.
