# ToDoApp task store and view projector in Dafny

This project models the logic inside the `App` component of the ToDoApp (`src/App.jsx`). The
logic has two parts.

- **The task store.** This is the list of tasks `{id, title, description, completed,
  createdAt, updatedAt}` and the `recentlyDeleted` slot, which holds the last deleted task
  while it can still be restored. The handlers `handleAdd`, `toggleComplete`, `editTodo`,
  `deleteTodo`, `undoDelete` and `clearCompleted` each replace the list when they act. The
  timer callback `deleteTodo` schedules empties the `recentlyDeleted` slot. The list is also
  written back to local storage after every change.
- **The view projector.** `visible` computes the shown list from a copy of the stored list in
  three steps:
  1. a case-insensitive substring search, switched on by the trimmed query;
  2. the `active` / `completed` filter;
  3. a stable sort by `createdAt` or by title, ascending or descending.

The modules follow that structure:

- `Text`: the string operations used, namely `trim`, `toLowerCase`, `includes`, and `split`
  on one character.
- `Seqs`: `Array.prototype.filter`, and the fact that it keeps order.
- `Sorting`: `Array.prototype.sort` with a comparator, modelled as a stable insertion sort.
  It is proved to return a permutation, ordered by the comparator and stable.
- `Tasks`: the task record and the pure list transitions each handler applies. These are
  prepend, `map` and `filter`.
- `View`: the `visible` pipeline, `Project`, with its selection, ordering and stability
  lemmas.
- `Store`: the class `TaskStore`. Its fields are `todos`, `recentlyDeleted`, the stored copy
  `saved`, the set of scheduled timer handles `armed`, and `nextTimer`. Each handler is a
  method, and three client methods play through the undo scenarios.

Some behaviours of the code are modelled as written:

- The search is switched on by the trimmed query but matches the untrimmed, lower-cased query.
- Delete removes every task with the identifier but keeps only the first one for undo.
- Undo puts the task back in front of the list.
- An edit does not check the new title.
- A second delete replaces the pending task without clearing the first delete's timer. When
  that timer fires it empties the slot, whatever is pending then
  (`Store.StaleTimerForgetsLaterDelete`).

The tests in `tests/App.test.jsx` add one task through the page. The matching properties are
`Tasks.AddTaskSpec` and `Tasks.AddedTitleIsTrimmed`.

## Model

| member | source | states |
|---|---|---|
| Text.TrimStart | src/App.jsx:64 | the result is a suffix of the input, everything dropped is whitespace, and it does not start with whitespace |
| Text.TrimEnd | src/App.jsx:64 | the result is a prefix of the input, everything dropped is whitespace, and it does not end with whitespace |
| Text.Trim | src/App.jsx:38 | `trim()` yields a contiguous piece of the input, padded only by whitespace, that neither starts nor ends with whitespace |
| Text.TrimEmptyIffBlank | src/App.jsx:64-65 | the trimmed title is empty exactly when the title is all whitespace |
| Text.TrimNotEmpty | src/App.jsx:38 | a string with one non-whitespace character does not trim to the empty string |
| Text.TrimIdempotent | src/App.jsx:64 | trimming twice is trimming once |
| Text.Lower | src/App.jsx:39 | `toLowerCase()` keeps the length and lower-cases each character |
| Text.LowerIdempotent | src/App.jsx:42-43 | lower-cased text holds no ASCII capital letter, and lower-casing it again changes nothing |
| Text.ContainsIff | src/App.jsx:42-43 | `includes` holds exactly when the query occurs at some offset |
| Text.ContainsBounds | src/App.jsx:42-43 | a contained query is no longer than the text, and its first character occurs in the text |
| Text.Split | src/App.jsx:49 | `split('_')` returns at least one piece, and no piece contains the separator |
| Text.SplitNone | src/App.jsx:49 | a string without the separator splits into itself |
| Text.SplitFirst | src/App.jsx:49 | the first piece ends at the first separator |
| Text.JoinSplit | src/App.jsx:49 | joining the pieces with the separator gives back the string |
| Seqs.Filter | src/App.jsx:40 | `filter` never lengthens the list |
| Seqs.FilterCounts | src/App.jsx:46-47 | `filter` keeps each element that satisfies the predicate as often as it occurs, and no other element |
| Seqs.FilterSubsequence | src/App.jsx:90 | `filter` keeps the survivors in their order |
| Seqs.FilterKeepsAll | src/App.jsx:113 | filtering with a predicate every element satisfies changes nothing |
| Seqs.FilterIdempotent | src/App.jsx:113 | filtering twice with one predicate is filtering once |
| Seqs.SubsequenceTransitive | src/App.jsx:40-47 | a subsequence of a subsequence is a subsequence |
| Seqs.SubsequenceReflexive | src/App.jsx:38 | a list is a subsequence of itself, which covers a search that is switched off |
| Sorting.Insert | src/App.jsx:50 | one insertion step adds exactly the new element |
| Sorting.Sort | src/App.jsx:50-58 | `list.sort` returns a permutation of the list |
| Sorting.InsertSorted | src/App.jsx:50 | inserting into a sorted list under a consistent comparator keeps it sorted |
| Sorting.SortSorted | src/App.jsx:50-58 | the result is ordered by the comparator when the comparator is consistent |
| Sorting.InsertStable | src/App.jsx:50 | inserting does not move an element past one it is tied with |
| Sorting.SortStable | src/App.jsx:50-58 | elements tied under the comparator keep their input order |
| Sorting.SortAllTies | src/App.jsx:57 | a comparator that always answers 0 leaves the list as it was |
| Sorting.SortSingle | src/App.jsx:50 | a one-element list sorts to itself |
| Tasks.AddTaskSpec | src/App.jsx:64-74 | a title that is blank after trimming leaves the list unchanged; otherwise exactly one task goes in front of the unchanged list, with the given id, the trimmed title and description, not completed, and `createdAt == updatedAt == now` |
| Tasks.AddedTitleIsTrimmed | src/App.jsx:64-68 | an added task's title is not blank and is already trimmed |
| Tasks.AddKeepsIdsUnique | src/App.jsx:67-74 | adding under an unused identifier keeps identifiers unique |
| Tasks.ConsKeepsIdsUnique | src/App.jsx:100 | prepending a task whose identifier the list does not use keeps identifiers unique |
| Tasks.Toggle | src/App.jsx:79-84 | the length is kept; tasks with the id have `completed` flipped and `updatedAt = now`, with every other field kept; all other tasks are unchanged |
| Tasks.TogglePreservesIds | src/App.jsx:81-82 | the identifiers and their order are unchanged |
| Tasks.SameIds | src/App.jsx:81-82 | lists with the same identifiers in order use the same identifiers, and are equally unique |
| Tasks.ToggleUnknownId | src/App.jsx:81-82 | an unknown id leaves the list as it was |
| Tasks.ToggleTwice | src/App.jsx:79-84 | toggling one id twice restores every `completed` flag and every other field except `updatedAt` |
| Tasks.Overlay | src/App.jsx:107 | `{...t, ...changes, updatedAt}`: each key present in the changes is replaced, each absent key is kept, and `updatedAt` is `now` |
| Tasks.Edit | src/App.jsx:104-110 | the length is kept; tasks with the id get the changes overlaid; all other tasks are unchanged |
| Tasks.EditUnknownId | src/App.jsx:104-110 | an unknown id leaves the list as it was |
| Tasks.EditPreservesIds | src/App.jsx:107 | changes without an `id` key keep the identifiers, their order and their uniqueness |
| Tasks.EditAcceptsBlankTitle | src/App.jsx:107 | an edit stores a blank title as given, without re-validating it |
| Tasks.FindById | src/App.jsx:88 | `find` yields nothing exactly when no task has the id, and otherwise the first task with it |
| Tasks.RemoveIdSpec | src/App.jsx:90 | every task with the id is removed, every other task is kept as often as it occurs, and the survivors keep their order |
| Tasks.RemoveKeepsOtherIds | src/App.jsx:90 | a task under another identifier survives the removal |
| Tasks.RemoveUnknownId | src/App.jsx:89-90 | removing an unknown id changes nothing |
| Tasks.FilterKeepsIdsUnique | src/App.jsx:90 | filtering keeps identifiers unique |
| Tasks.FilterKeepsNoNewIds | src/App.jsx:113 | a filtered list uses no identifier the list did not use |
| Tasks.DeleteUndoRestores | src/App.jsx:88-100 | with unique identifiers, the found task put back in front of the remaining list gives the original multiset of tasks |
| Tasks.DuplicateIdLostByUndo | src/App.jsx:88-100 | with two tasks under one identifier, delete removes both and undo gives back only the first |
| Tasks.ClearCompletedSpec | src/App.jsx:112-114 | exactly the tasks that are not completed are kept, each as often as it occurs, in their original order |
| Tasks.ClearCompletedIdempotent | src/App.jsx:112-114 | clearing twice is clearing once |
| View.SortOptions | src/App.jsx:49 | each of the four sort strings splits into the field and direction it names |
| View.SplitOption | src/App.jsx:49 | `field_dir` splits into `field` and `dir` |
| View.SortComparatorIsComparator | src/App.jsx:50-58 | the sort comparator is consistent whenever the collation is |
| View.CreatedComparatorIsComparator | src/App.jsx:51-53 | the `created` comparators are consistent for any collation |
| View.FilteredCounts | src/App.jsx:38-47 | search and filter keep exactly the shown tasks, each as often as it is stored |
| View.FilteredIsSubsequence | src/App.jsx:38-47 | search and filter keep the stored order |
| View.ProjectSelects | src/App.jsx:36-60 | each shown task passes the filter, and the untrimmed lower-cased query whenever the trimmed query is not blank; every stored task that passes both is shown, as often as it is stored |
| View.ProjectShowsAll | src/App.jsx:38-47 | a blank query with the `all` filter shows every stored task |
| View.ProjectOrdered | src/App.jsx:49-58 | the view is ordered by the comparator the sort string names, given a consistent collation |
| View.ProjectByCreated | src/App.jsx:51-53 | sorting by `created` gives non-increasing `createdAt` for the direction `desc`, and non-decreasing `createdAt` for any other direction (so for `created_asc`) |
| View.ProjectByTitle | src/App.jsx:54-56 | sorting by `title` orders titles by the collation for the direction `asc`, and in reverse for any other direction (so for `title_desc`) |
| View.ProjectUnknownFieldKeepsOrder | src/App.jsx:57 | any other sort field leaves the filtered order unchanged |
| View.ProjectStable | src/App.jsx:50-58 | tasks tied under the comparator appear in their stored order |
| View.CompareText | src/App.jsx:55 | the lexicographic collation answers -1, 0 or 1, and 0 exactly for equal titles |
| View.CompareTextAntisymmetric | src/App.jsx:55 | swapping the titles negates the answer |
| View.CompareTextTransitive | src/App.jsx:55 | "not after" is transitive |
| View.CompareTextIsComparator | src/App.jsx:55 | the lexicographic collation is consistent |
| View.MilkExample | src/App.jsx:36-60 | searching "milk" over "Walk dog" and "Buy milk" shows only "Buy milk", under any sort |
| View.UntrimmedSearch | src/App.jsx:38-43 | the query " milk" passes the trim gate but does not match the title "Milk" |
| View.UntrimmedQueryExample | src/App.jsx:36-60 | so the view of that one task under the query " milk" is empty, under any sort |
| View.LeadingBlankMisses | src/App.jsx:39-42 | the untrimmed query keeps its leading space when matching |
| Tasks.AddTask | src/App.jsx:64-74 | `handleAdd`'s new list; no ensures of its own, `Tasks.AddTaskSpec` states it |
| Tasks.ToggleOne | src/App.jsx:82 | the `map` callback of `toggleComplete`; no ensures of its own, `Tasks.Toggle` states its effect on every task |
| Tasks.RemoveId | src/App.jsx:90 | `prev.filter(t => t.id !== id)`; no ensures of its own, `Tasks.RemoveIdSpec` states it |
| Tasks.ClearCompleted | src/App.jsx:113 | `prev.filter(t => !t.completed)`; no ensures of its own, `Tasks.ClearCompletedSpec` and `Tasks.ClearCompletedIdempotent` state it |
| Text.Contains | src/App.jsx:42-43 | `includes`; no ensures of its own, `Text.ContainsIff` states it |
| View.Matches | src/App.jsx:42-43 | the search predicate on the untrimmed, lower-cased query; no ensures of its own, `View.ProjectSelects`, `View.MilkExample` and `View.LeadingBlankMisses` state it |
| View.Searched | src/App.jsx:38-45 | the search step, switched on by the trimmed query; no ensures of its own, `View.FilteredCounts` and `View.FilteredIsSubsequence` state it |
| View.Filtered | src/App.jsx:46-47 | the two completion filters in turn; no ensures of its own, `View.FilteredCounts` and `View.FilteredIsSubsequence` state it |
| View.SortField | src/App.jsx:49 | the part of `sort` before the first `_`; no ensures of its own, `View.SortOptions` and `View.SplitOption` state it |
| View.SortDirection | src/App.jsx:49 | the second piece of `sort.split('_')`, if any; no ensures of its own, `View.SortOptions` and `View.SplitOption` state it |
| View.SortComparator | src/App.jsx:50-58 | the comparator passed to `list.sort`; no ensures of its own, `View.SortComparatorIsComparator`, `View.ProjectByCreated`, `View.ProjectByTitle` and `View.ProjectUnknownFieldKeepsOrder` state it |
| View.Project | src/App.jsx:36-60 | `visible`; no ensures of its own, `View.ProjectSelects`, `View.ProjectOrdered`, `View.ProjectStable` and the other `Project` lemmas state it |
| Store.Initial | src/App.jsx:11-17 | the first list is the parsed stored list, and the empty list when nothing is stored or the stored text does not parse |
| Store.AddRestorable | src/App.jsx:66-74 | adding under an identifier neither the list nor the pending task uses keeps identifiers unique and leaves the pending task restorable |
| Store.ToggleRestorable | src/App.jsx:79-84 | toggling keeps the store restorable |
| Store.EditRestorable | src/App.jsx:104-110 | an edit without an `id` key keeps the store restorable |
| Store.DeleteRestorable | src/App.jsx:88-91 | after a delete from a list with unique identifiers, the pending task's identifier is not in the list |
| Store.UndoRestorable | src/App.jsx:100-101 | undo keeps identifiers unique |
| Store.ClearRestorable | src/App.jsx:112-114 | clearing keeps the store restorable |
| Store.TaskStore.constructor | src/App.jsx:10-22 | the store starts from the initial list, writes it back, holds nothing pending and has no timer scheduled |
| Store.TaskStore.Add | src/App.jsx:62-74 | the list becomes `AddTask` of the old list; the pending slot and timers are unchanged; the new list is saved |
| Store.TaskStore.ToggleComplete | src/App.jsx:79-84 | the list becomes `Toggle` of the old list and is saved; nothing else changes; consistency is kept |
| Store.TaskStore.EditTask | src/App.jsx:104-110 | the list becomes `Edit` of the old list and is saved; nothing else changes |
| Store.TaskStore.Delete | src/App.jsx:87-95 | an unknown id changes nothing; otherwise every task with the id is removed, the first one found becomes pending with a new timer, and that timer is scheduled |
| Store.TaskStore.Undo | src/App.jsx:97-102 | nothing pending changes nothing; otherwise the pending timer is cleared, the pending task goes in front of the list, and the slot is emptied |
| Store.TaskStore.ClearCompletedTasks | src/App.jsx:112-114 | the list becomes `ClearCompleted` of the old list and is saved; nothing else changes |
| Store.TaskStore.Expire | src/App.jsx:93 | a scheduled timer firing empties the pending slot and leaves the list alone |
| Store.TaskStore.Visible | src/App.jsx:36-60 | the view is `Project` of the stored list, holds exactly the shown tasks as often as they are stored, and changes nothing in the store |
| Store.DeleteThenUndo | src/App.jsx:87-102 | delete then undo restores the same multiset of tasks, with the deleted task in front and nothing pending |
| Store.UndoAfterExpiry | src/App.jsx:87-102 | after the delete's timer fires, undo restores nothing |
| Store.StaleTimerForgetsLaterDelete | src/App.jsx:91-94 | after two deletes, the first delete's timer empties the slot, and undo brings neither task back |

## Left out

- JSX rendering, the form state (`title` and `description`, reset after an add), the
  `filter`, `query` and `sort` controls, and `useMemo` caching. The controls' values are
  parameters of `Project`. The rendered page is not modelled.
- `TodoItem`, imported at `src/App.jsx:2`, is not part of this model.
- Local storage and JSON. `Store.Stored` stands for what reading the key gives: nothing, text
  that does not parse, or a parsed task list. A parsed value that is not a task list is not
  modelled. The write after each change is the field `saved`.
- `uid()` and `Date.now()` are parameters: `id` and `now`.
- Tasks.AddTask: takes one `now` for the two `Date.now()` calls, so `createdAt == updatedAt`.
  The code reads the clock twice, and two readings could differ by a millisecond.
- Tasks.Toggle: stamps every matching task with one `now`, and so does Tasks.Edit. The code
  calls `Date.now()` inside the `map` callback, once per matching task
  (`src/App.jsx:82`, `src/App.jsx:107`). So when identifiers are duplicated, the model cannot
  give two matching tasks different stamps.
- Nothing is proved about `updatedAt` increasing between edits, because the clock is a
  parameter.
- Real timer timing. A timer firing is the explicit event `Store.TaskStore.Expire`, and timer
  handles are counted from 1.
- Text.Lower: lower-cases ASCII letters only; Unicode case mapping is not modelled.
- Strings are sequences of Unicode characters, not UTF-16 code units.
- View.CompareText: a code-point lexicographic order standing in for `localeCompare`. Every
  sort lemma takes the collation as a parameter and needs only that it is consistent.
- `(t.description || '')`: tasks always have a string description here, so a missing
  description is not modelled.
- `{...t, ...changes}` with keys other than the task's own, or keys explicitly set to
  `undefined`, is not modelled. `Tasks.Changes` holds an optional value for each task field
  an edit may change.
- Store.TaskStore.EditTask: consistency is proved only for changes without an `id` key. An
  edit that changes an identifier can create a duplicate.
