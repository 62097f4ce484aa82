# Todo list: a Dafny model

This project models the core of a small React to-do application.

The main part is the `TodoApp` component of `app/TodoApp.tsx`:

- its state (the task list, the input buffers, the error, the filter and sort criteria, the edit session);
- the effect that derives the visible list;
- loading the list;
- adding, toggling, deleting and renaming a task;
- the three counters.

It also models two helpers of `app/utils.ts`: `sortTodos`, which the derivation calls, and `validateTodo`, which the component does not call.

Modules:

- `Types`: the `Todo` record, `Option`, the requests sent to the persistence service (`Request`, `Patch`) and its answers (`Reply`).
- `JsString`: the JavaScript string operations the core uses:
  - `trim`, covering the ECMAScript WhiteSpace and LineTerminator characters;
  - `length` in UTF-16 code units;
  - `toLowerCase`, ASCII letters only;
  - `includes`.
- `Seqs`: `Array.prototype.filter` as `Filter`, and the subsequence relation.
- `Utils`: `validateTodo`, and `sortTodos`.
  - `sortTodos` calls `Array.prototype.sort`. That sort works in place and ECMA-262 requires it to be stable.
  - It is modelled as an in-place insertion sort on an `array<Todo>`: the method `SortTodos`.
  - That method is proved equal to the reference function `StableSort`.
  - `StableSort` is shown to be sorted, a permutation and stable. Stability means equal `createdAt` values keep their order.
  - `StableSort` is also the only sequence with these three properties, so the proofs do not depend on one sort algorithm.
- `View`: the derivation effect as functions.
  - The stages are status, search and "show completed". `Visible` applies them, and `DerivedView` sorts what remains.
  - The lemmas say:
    - which tasks appear;
    - that the view is a stably sorted subsequence of the list;
    - that re-deriving is stable.
- `Store`: the pure part of the handlers:
  - the validation messages and limits;
  - `find`;
  - the `map` and `filter` each handler stores once the server has answered;
  - the counters;
  - the lemmas about these transformations.
- `App`: the component as a class `TodoApp`.
  - Every `useState` hook is a field, and the task lists are `array<Todo>` fields.
  - Each handler is a method with a frame of only the fields it sets.
  - Each handler takes the answer of the persistence call as its `reply` parameter. It returns the request that it sends, or `None` when it sends nothing.
  - `Derive` is the effect of lines 30-52. When no filter stage applies, `result` is the `todos` array itself, so the in-place sort reorders the task list too. The contract of `Derive` says so.

In several places the code behaves differently than a reader of a todo list might expect; the model follows the code:

- All handlers update the list only after the server confirms. They are not optimistic.
- `handleAddTodo` checks the length of the untrimmed title and sends the untrimmed title.
- A failed load keeps the previous list.
- Deleting the task being edited does not end the edit session.
- Saving an edit only rejects a blank title. It has no length limits.
- Because of the aliasing described under `Derive`, the derivation can reorder the stored list.

## Model

| member | source | states |
|---|---|---|
| JsString.TrimStart | app/TodoApp.tsx:82 | the result is a suffix of the input, everything dropped is JS whitespace, and the result does not start with whitespace |
| JsString.TrimEnd | app/TodoApp.tsx:82 | the result is a prefix of the input, everything dropped is JS whitespace, and the result does not end with whitespace |
| JsString.BlankIffAllWhitespace | app/TodoApp.tsx:82 | `!s.trim()` holds exactly when every character of `s` is JS whitespace (both directions) |
| JsString.Trim | app/TodoApp.tsx:82 | `trim`: the input with leading and then trailing JS whitespace removed |
| JsString.IsBlank | app/TodoApp.tsx:82 | `!s.trim()`: the trimmed string is empty |
| JsString.Utf16Length | app/TodoApp.tsx:87-95 | `length` lies between the number of characters and twice that, and equals it when no character is outside the BMP |
| JsString.Lower | app/TodoApp.tsx:41 | lower-casing keeps the length and lowers each character by itself |
| JsString.LowerConcat | app/TodoApp.tsx:41 | lower-casing distributes over concatenation |
| JsString.Includes | app/TodoApp.tsx:41 | `includes`: the pattern is a prefix of the string or of one of its suffixes |
| JsString.IncludesAt | app/TodoApp.tsx:41 | `includes` holds whenever the pattern occurs at some position |
| JsString.IncludesHasPosition | app/TodoApp.tsx:41 | conversely, when `includes` holds it returns a position where the pattern occurs, so `includes` means exactly "occurs somewhere" |
| JsString.IncludesEmpty | app/TodoApp.tsx:39-43 | every string includes the empty string |
| Seqs.Filter | app/TodoApp.tsx:34 | the result is no longer than the input, and an element is in the result exactly when it is in the input and passes the test |
| Seqs.FilterIsSubsequence | app/TodoApp.tsx:34-46 | `filter` keeps the surviving elements in their original order |
| Seqs.FilterMultiset | app/TodoApp.tsx:34-46 | `filter` keeps every passing element as often as it occurs and drops every failing one |
| Seqs.FilterSingleton | app/TodoApp.tsx:34 | filtering a one-element list keeps the element exactly when it passes |
| Seqs.FilterCons | app/TodoApp.tsx:34 | filtering a list decides its first element and then filters the rest |
| Seqs.FilterConcat | app/TodoApp.tsx:34 | filtering a concatenation is the concatenation of the filtered parts |
| Seqs.FilterKeepsAll | app/TodoApp.tsx:34 | a filter that every element passes returns the list unchanged |
| Seqs.FilterTwice | app/TodoApp.tsx:31-47 | two filters in a row equal one filter by the conjunction of their tests |
| Seqs.FilterComplement | app/TodoApp.tsx:159-161 | filtering by a test and by its negation splits the list: the two lengths add up to its length |
| Utils.ValidateTodo | app/utils.ts:13-15 | `validateTodo` accepts exactly the todos whose title is non-empty |
| Utils.ValidateAcceptsBlank | app/utils.ts:13-15 | `validateTodo` does not trim: a title made only of whitespace is accepted although it is blank |
| Utils.Compare | app/utils.ts:21-24 | the comparator: `a.createdAt - b.createdAt` for "asc", `b.createdAt - a.createdAt` otherwise |
| Utils.StableSort | app/utils.ts:17-25 | the reference result of the stable sort: sort all but the last element, then insert the last element after every element it does not strictly precede |
| Utils.InsertPermutes | app/utils.ts:17-25 | inserting one element into a list adds exactly that element to its multiset |
| Utils.InsertSorted | app/utils.ts:17-25 | inserting into a list sorted by the comparator keeps it sorted |
| Utils.InsertKeepsRuns | app/utils.ts:17-25 | insertion places the new element after every element with the same `createdAt` |
| Utils.RunsCommute | app/utils.ts:17-25 | elements with different `createdAt` can swap places without changing any run of equal times |
| Utils.SortIsSorted | app/utils.ts:21-24 | the sorted list is ordered by `createdAt`: ascending for "asc", descending for every other order |
| Utils.SortPermutes | app/utils.ts:17-25 | sorting is a permutation of its input |
| Utils.SortIsStable | app/utils.ts:17-25 | for every time `k`, the tasks created at `k` keep their relative order |
| Utils.SortedHeadFirst | app/utils.ts:17-25 | the first element of a sorted list is in order with every element of the list |
| Utils.CreatedAtCons | app/utils.ts:17-25 | the run of time `k` of a list is its head's contribution followed by the run of its tail |
| Utils.NonEmptyHasRun | app/utils.ts:17-25 | the run of its first element's time in a non-empty list is not empty |
| Utils.SortedRunsSameHead | app/utils.ts:17-25 | two sorted non-empty lists with the same runs start with the same element |
| Utils.SameRunsTail | app/utils.ts:17-25 | removing the same head from two lists with equal runs leaves tails with equal runs |
| Utils.SortedRunsDetermine | app/utils.ts:17-25 | two sorted lists with the same runs are equal, so a stable sort has only one possible result |
| Utils.SortCharacterized | app/utils.ts:17-25 | a list is the result of sorting `s` exactly when it is sorted and has the same runs as `s` (both directions) |
| Utils.SortIdempotent | app/utils.ts:17-25 | sorting a sorted list again returns it unchanged |
| Utils.InsertLands | app/utils.ts:17-25 | insertion puts the element just after the last element that it does not strictly precede |
| Utils.InsertLast | app/utils.ts:17-25 | one in-place insertion step leaves the prefix `a[..i+1]` equal to the insertion of the old `a[i]` into the old `a[..i]`, and leaves the rest of the array unchanged |
| Utils.Reassemble | app/utils.ts:17-25 | the array, read after the element moves, is the prefix, then the inserted element, then the suffix |
| Utils.SortTodos | app/utils.ts:17-25 | `sortTodos` sorts the array it receives in place, returns that same array, and its contents become the stable sort of the old contents by the comparator that `order` selects |
| Utils.SortExample | app/utils.ts:21-24 | times 100, 300, 200 sort to 100, 200, 300 for "asc" and to 300, 200, 100 for "desc" |
| View.ByStatus | app/TodoApp.tsx:33-37 | the status stage: "completed" keeps completed tasks, "active" keeps open ones, any other value keeps the list |
| View.BySearch | app/TodoApp.tsx:39-43 | the search stage: a non-empty query keeps the tasks whose lowered title includes the lowered query |
| View.ByShowCompleted | app/TodoApp.tsx:45-47 | the checkbox stage: when cleared, only open tasks are kept |
| View.Visible | app/TodoApp.tsx:31-47 | the three stages applied in the source's order |
| View.DerivedView | app/TodoApp.tsx:31-51 | what `setFilteredTodos` receives: the stable sort of `Visible` by the order `sortOrder === "asc"` selects |
| View.ByStatusIsFilter | app/TodoApp.tsx:33-37 | the status stage is one filter by the status test ("completed", "active", anything else keeps all) |
| View.BySearchIsFilter | app/TodoApp.tsx:39-43 | the search stage is one filter by the search test, and the empty query keeps all |
| View.ByShowCompletedIsFilter | app/TodoApp.tsx:45-47 | the "show completed" stage is one filter that drops completed tasks only when the box is cleared |
| View.VisibleIsOneFilter | app/TodoApp.tsx:31-47 | the three stages together equal one filter by the combined test `Shown` |
| View.ViewMembership | app/TodoApp.tsx:30-52 | a task is in the derived view exactly when it is in the list and passes all three tests (both directions) |
| View.ViewIsSortedSubsequence | app/TodoApp.tsx:30-52 | the list before the sort is a subsequence of the tasks. The view is a permutation of the shown tasks, ordered by time (ascending for "asc", otherwise descending), with equal times in list order |
| View.StatusFilterEffect | app/TodoApp.tsx:33-37 | "completed" shows only completed tasks, "active" only open ones, and any other value drops nothing at that stage |
| View.SearchFilterEffect | app/TodoApp.tsx:39-43 | with a non-empty query every shown title, lower-cased, includes the lower-cased query, and the empty query drops nothing |
| View.HideCompletedEffect | app/TodoApp.tsx:45-47 | with the box cleared no completed task is shown, whatever the status filter |
| View.FiltersNothingSortsAll | app/TodoApp.tsx:31-49 | when no stage applies the view is the sort of the whole list |
| View.DeriveTwiceSameView | app/TodoApp.tsx:30-52 | deriving again from the list the first derivation left behind, which it may have reordered, gives the same view |
| View.SearchIgnoresCase | app/TodoApp.tsx:40-42 | a title containing a word matches every query that lower-cases to the same word |
| View.SearchExample | app/TodoApp.tsx:40-42 | "Learn React" is found by "react" and by "REACT" |
| View.ReactSpellings | app/TodoApp.tsx:41 | "React", "react" and "REACT" lower-case to "react" |
| View.LowerWord | app/TodoApp.tsx:41 | lower-casing letter by letter determines the lower-cased word |
| Store.AddTitleError | app/TodoApp.tsx:82-95 | the add handler goes on to the server exactly when the title is not blank and its untrimmed `length` is between 3 and 100 |
| Store.WhitespaceTitleIsEmpty | app/TodoApp.tsx:82-85 | a whitespace-only title gets the "empty" message, however long it is |
| Store.AddLengthLimits | app/TodoApp.tsx:87-95 | a non-blank BMP title shorter than 3 characters gets the "too short" message, one longer than 100 gets "too long", and any other is accepted |
| Store.PaddedTitleAccepted | app/TodoApp.tsx:82-95 | a letter padded by two spaces is accepted although its trimmed form has only one character |
| Store.Find | app/TodoApp.tsx:107 | `find` returns None exactly when no task has the id, and otherwise returns the first task with it |
| Store.Toggled | app/TodoApp.tsx:112-114 | the toggled list has the same length, every task keeps its id, title and time, and only tasks with the id have their flag negated |
| Store.Renamed | app/TodoApp.tsx:143-147 | the renamed list has the same length, every task keeps its id, flag and time, and only tasks with the id get the new title |
| Store.Removed | app/TodoApp.tsx:123 | the list `handleDeleteTodo` stores: the tasks whose id differs, in order |
| Store.CompletedCount | app/TodoApp.tsx:159 | `completedCount`: the number of completed tasks |
| Store.ActiveCount | app/TodoApp.tsx:160 | `activeCount`: the number of open tasks |
| Store.CountsPartition | app/TodoApp.tsx:159-161 | `completedCount + activeCount == totalCount` |
| Store.ToggleAbsent | app/TodoApp.tsx:112-114 | toggling an id that no task has leaves the list unchanged |
| Store.ToggleTwice | app/TodoApp.tsx:112-114 | toggling the same id twice restores the list |
| Store.ToggleShiftsCounts | app/TodoApp.tsx:112-114 | with unique ids, toggling a present task moves exactly one task between the completed and active counts |
| Store.ToggleShiftsCompleted | app/TodoApp.tsx:112-114 | with unique ids, toggling a present task changes the completed count by exactly one, in the direction of its new flag |
| Store.ToggleMovesBetweenViews | app/TodoApp.tsx:30-52 | after an open task is toggled it appears in the unsearched "completed" view and in no "active" view |
| Store.RemoveEffect | app/TodoApp.tsx:123 | deleting drops exactly the tasks with the id, keeps every other task with its multiplicity and order, and shortens the list by the number of tasks with the id |
| Store.SubsequenceKeepsUniqueIds | app/TodoApp.tsx:123 | a subsequence of a list with unique ids has unique ids and only tasks of that list |
| Store.HandlersKeepUniqueIds | app/TodoApp.tsx:100-147 | toggle, rename and delete keep ids unique, and so does add if the server returns a new id |
| Store.RenameKeepsCounts | app/TodoApp.tsx:143-147 | renaming leaves both counters unchanged |
| App.NewArray | app/TodoApp.tsx:34 | the fresh array a spread, `map` or `filter` allocates, holding the given sequence |
| App.FilterStages | app/TodoApp.tsx:31-47 | the filter stages produce `Visible` of the tasks. When no stage applies, the result is the `todos` array itself; otherwise it is a new array |
| App.TodoApp.constructor | app/TodoApp.tsx:15-29 | the initial state: no tasks, loading, no error, filter "all", order "desc", completed shown, no edit session |
| App.TodoApp.Derive | app/TodoApp.tsx:30-52 | `filteredTodos` becomes the derived view of the old tasks. When no stage applies it is the `todos` array, and the tasks are left sorted; otherwise it is a new array and the tasks are untouched |
| App.TodoApp.LoadTodos | app/TodoApp.tsx:67-77 | sends the fetch and ends not loading. On success the tasks are the reply; on failure they are kept and the error is the reply's message |
| App.TodoApp.HandleAddTodo | app/TodoApp.tsx:79-104 | a title that `AddTitleError` rejects sends nothing and sets that message. Otherwise the untrimmed title is sent; success appends the created task and clears the input; failure sets the message and keeps the input |
| App.TodoApp.CommitAdd | app/TodoApp.tsx:97-103 | sends the title as typed. Success appends the created task and clears the input; failure sets the error and changes nothing else |
| App.TodoApp.HandleToggleTodo | app/TodoApp.tsx:106-118 | an unknown id sends nothing and changes nothing. Otherwise the negated flag of the first match is sent; success stores `Toggled`, failure sets the error |
| App.TodoApp.HandleDeleteTodo | app/TodoApp.tsx:120-127 | always sends the delete. Success stores `Removed`; failure sets the error and keeps the tasks |
| App.TodoApp.HandleStartEdit | app/TodoApp.tsx:129-132 | opens an edit session on the task's id with its title in the buffer |
| App.TodoApp.SetEditingTitle | app/TodoApp.tsx:264 | the edit buffer becomes the typed text. The field exists only during an edit session |
| App.TodoApp.SetNewTodoTitle | app/TodoApp.tsx:186 | the add buffer becomes the typed text |
| App.TodoApp.HandleSaveEdit | app/TodoApp.tsx:134-152 | a blank buffer sends nothing and sets the "empty" message. Otherwise the untrimmed buffer is sent for the edited id; success stores `Renamed` and closes the session, failure sets the error and keeps the session |
| App.TodoApp.CommitEdit | app/TodoApp.tsx:140-151 | with a non-empty buffer there is an edit session, and its id and buffer are sent. Success stores `Renamed` and closes the session; failure sets the error and keeps everything else |
| App.TodoApp.HandleCancelEdit | app/TodoApp.tsx:154-157 | closes the edit session and empties the buffer |

## Left out

- `app/api.ts` (`fetchTodos`, `createTodo`, `updateTodo`, `deleteTodo`) is not part of this model.
  - Each call is the `Request` a handler returns together with the `reply` parameter it receives.
  - Network, HTTP and JSON behaviour are not modelled.
- `formatDate` (app/utils.ts:2-4) is not modelled. The rendering calls it (app/TodoApp.tsx:292), and its output depends on the locale and time zone of the runtime.
- `generateId`, `API_URL` and `API_KEY` in `app/utils.ts` are not modelled. They are randomness and environment variables, and the core does not use them.
- React itself is not modelled:
  - render and JSX;
  - the `loading` screen;
  - the logging effect (lines 54-58);
  - the alert effect (lines 60-65), which shows and then clears `error`. The model only records the latest error.
- Effect scheduling is not modelled. `Derive` is a method a caller invokes after changing the tasks or the criteria; it does not run on its own.
- The four criteria (`filter`, `sortOrder`, `searchQuery`, `showCompleted`) are plain fields that a caller assigns. Their `onChange` setters (lines 203-231) have no methods of their own.
- Concurrency is not modelled. Each handler is one atomic step, so a second event arriving while a request is pending (a stale `todos` closure) is not covered.
- Lower: lowers only ASCII letters. Unicode case mapping in `toLowerCase` is not modelled.
- `createdAt` is an unbounded integer, not a JavaScript double. NaN, infinities and rounding in the comparator's subtraction are not modelled.
- Utils.ValidateTodo: returns a boolean. The source returns the falsy `""` for an empty title, and only its truthiness is modelled.
- JsString.Includes and Lower work on Unicode scalar values, while JavaScript works on UTF-16 code units. The two agree except for patterns that split a surrogate pair.
- Utils.SortTodos: an insertion sort. `Array.prototype.sort` uses some other stable algorithm, but `SortedRunsDetermine` shows that every stable sort gives the same result.
