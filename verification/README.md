# Task list: a Dafny model

This project models a single-page task list. Users type a task into an input box and commit it with the add button or the Enter key. Each task is shown as a row with a checkbox and a delete button, and a statistics line reads "completed / total". The collection lives in the `useTodoStorage` store, which mirrors it to browser storage under the key `"todos"` after every change.

Everything is written as immutable data and pure functions:

- `Todos`: the record `Todo(id, text, completed)`, the ids of a collection, and the distinct-ids invariant.
- `Text`: whitespace, blankness and trimming.
- `TodoStore`: the store. It covers loading, `addTodo`, `toggleTodo` and `deleteTodo`. Storage is an explicit `map<string, Stored>`, and every operation returns the next store value.
- `TodoStats`: the statistics line.
- `TodoInput`: the input box as a small state machine over its one string.
- `TodoItem` and `TodoList`: the row and list view models. A view is a value, and a click on a control is an `Intent` carrying the record's id.
- `App`: the page wiring. The box's raw text goes to `addTodo`, and the rows' ids go to `toggleTodo` and `deleteTodo`.

The fresh id of a new record is a parameter, and the caller must supply one not already in the collection. The store invariant `Valid` says two things: ids are pairwise distinct, and a reload reads back exactly the collection in memory. Every operation preserves it.

## Model

| member | source | states |
|---|---|---|
| Text.Trim | hooks/useTodoStorage.test.ts:28-36 | the trimmed text is empty exactly when the input is blank, never starts or ends with whitespace, and already-trimmed text is kept as is |
| Text.TrimIsSlice | hooks/useTodoStorage.test.ts:28-36 | the trimmed text is the slice of the input between a whitespace-only prefix and a whitespace-only suffix |
| TodoStore.Persist | hooks/useTodoStorage.test.ts:85-91 | after the write, a reload reads back exactly the written collection, and every other storage key keeps its value |
| TodoStore.Load | hooks/useTodoStorage.test.ts:6-14 | startup leaves storage untouched and yields what a reload reads back; an absent or unparseable slot gives the empty collection |
| TodoStore.LoadEmptyArray | hooks/useTodoStorage.test.ts:6-14 | a slot holding the empty array loads as the empty collection, and the loaded store satisfies the invariant |
| TodoStore.AddTodo | hooks/useTodoStorage.test.ts:16-36 | blank text leaves the store untouched; otherwise exactly one record is appended (fresh id, trimmed non-empty text, not completed) and persisted, with every other storage key kept; the invariant is kept |
| TodoStore.AddToEmpty | hooks/useTodoStorage.test.ts:16-26 | adding trimmed, non-blank text to an empty collection gives exactly one record with that text and `completed == false` |
| TodoStore.AddSpacesIsNoOp | hooks/useTodoStorage.test.ts:28-36 | adding `"   "` changes neither the collection nor storage |
| TodoStore.AddPersistsText | hooks/useTodoStorage.test.ts:76-92 | after a successful add of any non-blank text, the persisted slot holds a record carrying that text trimmed (the text itself when it is already trimmed) |
| TodoStore.FlipId | hooks/useTodoStorage.test.ts:38-51 | records keep length, order, ids and texts; a record's flag is inverted exactly when its id matches |
| TodoStore.ToggleTodo | hooks/useTodoStorage.test.ts:38-51 | the matching record's flag is negated, every other record is unchanged, the result is written to the slot with every other storage key kept, and the invariant is kept |
| TodoStore.ToggleAt | hooks/useTodoStorage.test.ts:38-51 | with distinct ids, toggling the id at position i replaces exactly that record by its flipped copy |
| TodoStore.ToggleTwice | hooks/useTodoStorage.test.ts:38-58 | toggling the same id twice restores the collection, and a reload shows it |
| TodoStore.WithoutId | hooks/useTodoStorage.test.ts:60-74 | the result holds exactly the records whose id differs, and removal keeps ids distinct |
| TodoStore.DeleteTodo | hooks/useTodoStorage.test.ts:60-74 | no record with the id remains, every other record does, the result is written to the slot with every other storage key kept, and the invariant is kept |
| TodoStore.WithoutIdAt | hooks/useTodoStorage.test.ts:60-74 | with distinct ids, deleting the id at position i removes exactly that record and keeps the rest in order |
| TodoStore.DeleteAt | hooks/useTodoStorage.test.ts:60-74 | with distinct ids, deleting an existing id shortens the collection by exactly one and keeps the order of the rest |
| TodoStore.AddToggleDeleteScenario | hooks/useTodoStorage.test.ts:16-74 | add "Test task", toggle it, then delete it: the record is first open, then completed, then gone, and a reload shows the empty collection |
| TodoStats.CompletedOnly | components/TodoStats.tsx:12 | the filtered collection holds exactly the completed records and is no longer than the input |
| TodoStats.StatsOf | components/TodoStats.tsx:9-13 | absent exactly for the empty collection; otherwise the total is the length, the completed count is the filtered count, and completed <= total |
| TodoStats.CountIsCompletedPositions | components/TodoStats.tsx:12 | the completed count equals the number of positions holding a completed record |
| TodoStats.CountAppend | components/TodoStats.tsx:12 | the completed count of a concatenation is the sum of the parts' counts |
| TodoStats.AllCompleted | components/TodoStats.test.tsx:46-55 | when every record is completed, completed equals total |
| TodoStats.NoneCompleted | components/TodoStats.test.tsx:57-67 | when no record is completed, completed is zero |
| TodoStats.CompleteOne | components/TodoStats.test.tsx:69-85 | completing one open record raises the completed count by one and keeps the total |
| TodoStats.FiveRecordsExample | components/TodoStats.test.tsx:32-44 | open, done, open, done, done shows 3 of 5 |
| TodoStats.Alternating | components/TodoStats.test.tsx:87-97 | 2k records completed exactly at even positions have k completed |
| TodoStats.HundredRecordsExample | components/TodoStats.test.tsx:87-97 | 100 records completed exactly at even positions show 50 of 100 |
| TodoInput.Submit | components/TodoInput.tsx:12-15 | a submit forwards the field's text unchanged and leaves the field empty |
| TodoInput.Handle | components/TodoInput.tsx:17-35 | a change sets the field and forwards nothing; the button or Enter forwards the current text, even when blank, and clears the field; any other key changes nothing |
| TodoInput.Run | components/TodoInput.test.tsx:79-96 | a run, returned as the final field and the forwarded texts, forwards exactly one text per committing event, and a run ending in a commit leaves the field empty |
| TodoInput.EnterIsClick | components/TodoInput.tsx:17-21 | pressing Enter has the same outcome as clicking the add button |
| TodoInput.EmptySubmitForwardsEmpty | components/TodoInput.test.tsx:67-77 | committing the initial empty field forwards `""` |
| TodoInput.RoundsForwardInOrder | components/TodoInput.test.tsx:79-96 | repeated type-then-click rounds forward each typed text once, in order, and end with an empty field |
| TodoItem.Render | components/TodoItem.tsx:11-30 | the checkbox is ticked and the text struck through exactly when the record is completed; the stored text is shown; the controls carry the record's id |
| TodoItem.ShownRender | components/TodoItem.tsx:14-30 | the record can be read back from its row, so a row loses nothing of its record |
| TodoItem.RenderInjective | components/TodoItem.tsx:14-30 | two records with equal rows are equal |
| TodoItem.ClickCheckbox | components/TodoItem.tsx:17 | the checkbox reports a toggle of the row's id |
| TodoItem.ClickDelete | components/TodoItem.tsx:30 | the delete button reports a deletion of the row's id |
| TodoItem.ClickCheckboxTimes | components/TodoItem.test.tsx:102-116 | n clicks give exactly n toggle calls, each with the row's id |
| TodoItem.ControlsReportId | components/TodoItem.test.tsx:45-69 | a rendered record's checkbox and delete button report that record's id, however often clicked |
| TodoList.Render | components/TodoList.tsx:12-32 | the empty-state message appears exactly for the empty collection; otherwise there is one row per record, row i rendered from record i |
| TodoList.KeysDistinct | components/TodoList.tsx:23-29 | with distinct ids the rows' keys are pairwise distinct, and row i shows record i |
| TodoList.RowControlsReportRecordId | components/TodoList.test.tsx:44-68 | row i's checkbox toggles `todos[i].id` and its delete button deletes `todos[i].id` |
| App.Start | app/page.tsx:9 | the page starts with the collection read from storage and an empty input field |
| App.OnInput | app/page.tsx:18 | only a commit reaches the store, and a commit runs `AddTodo` on the field's raw text; typing sets the field, another key changes nothing, a commit clears the field, and a non-blank commit appends the trimmed text; the invariant is kept |
| App.TypeThenCommit | app/page.tsx:18 | typing a non-blank text and clicking the add button appends exactly one open record holding the trimmed text |
| App.OnIntent | app/page.tsx:21-25 | a checkbox intent runs exactly `ToggleTodo` and a delete intent exactly `DeleteTodo` on the intent's id; the input is left alone and the result is persisted |
| App.BlankFilteredOnlyInStore | app/page.tsx:18 | a blank commit is forwarded by the box, and the store alone rejects it: the field clears and the collection and storage stay as they were |
| App.ClickRowCheckbox | app/page.tsx:21-25 | with distinct ids, clicking row i's checkbox flips exactly record i, and a reload shows it |
| App.ClickRowDelete | app/page.tsx:21-25 | with distinct ids, clicking row i's delete button removes exactly record i and keeps the other rows in order |
| App.ClickOpenRowRaisesCompleted | app/page.tsx:21-26 | with distinct ids, ticking an open row raises the statistics line's completed count by one and keeps the total |

## Left out

- The store's own source file (`hooks/useTodoStorage.ts`) is not part of this model. The store is specified from its tests.
- Id generation is not modelled: the model takes the fresh id as a parameter and requires that it is not already in the collection.
- Text.Trim: recognises only space, tab, line feed and carriage return, not every Unicode whitespace character `String.prototype.trim` removes.
- TodoStore.AddTodo: the tests show the stored text only for input that is already trimmed. Trimming other input before storing it is a modelling decision.
- TodoStore.ToggleTodo and TodoStore.DeleteTodo: an id not in the collection leaves the collection unchanged. No test covers this; it is a modelling decision. The storage slot is still rewritten, with the same collection.
- TodoStore.Load: the tests only show a slot that holds the empty array; the fallback to the empty collection for a missing or unparseable slot is a modelling decision.
- Browser storage: `localStorage`, JSON encoding and parsing, and the reactive persist-on-change effect are not modelled. Storage is a map from key to either a saved collection or unparseable data, written explicitly by each operation.
- React machinery: `useState`, event objects, keys as a rendering mechanism, and the styling class strings are not modelled. Only the boolean strike-through flag is kept.
- The visible Japanese strings (placeholder, button labels, empty-state message, statistics wording) are not modelled. They become the `EmptyState` constructor, the `Stats` pair and the event constructors.
- `app/layout.tsx` (metadata and HTML shell) is not modelled.
