# Task list service — a Dafny model

This project models the task persistence service of a small mobile to-do app.
A task (`Todo`) has an `id`, a `text` and a `completed` flag. The whole task
list is stored as one snapshot under a single storage key. Each mutating
operation (`addTodo`, `updateTodo`, `deleteTodo`, `toggleTodo`) loads the
whole list with `getTodos`, changes it with one pure list operation, and
writes it back with `saveTodos`.

The model has three modules:

- `Text` (`text.dfy`): `String.prototype.trim`, using ECMAScript's full
  WhiteSpace and LineTerminator set. `Trim` is characterised by `TrimUnique`:
  the only piece of the input that has only whitespace around it and none at
  either end is `Trim`'s result.
- `Todos` (`todos.dfy`): the `Todo` record and the pure transforms `Update`
  (`map` with replace-by-id), `Delete` (`filter` by id) and `Toggle` (`map`
  with flip-by-id).
- `TodoService` (`service.dfy`): the storage cell (`Snapshot`) and the six
  service operations. `RunSession` applies a sequence of awaited calls.

Ids come from `Date.now()` with no collision check, so two tasks can share
an id. No contract assumes ids are unique. Each statement about "the task
with this id" covers every task that carries it. `UniqueIds` is proved
preserved by update, toggle and delete, and by an append whose id is fresh.

Storage is a value of type `Snapshot`, the lasting contents of the key:

- `Absent`: the key holds nothing.
- `Unparsable`: the stored text is not valid JSON.
- `Saved(todos)`: a parsed list.

`StoredList` is what a successful read yields: the list for `Saved`, and the
empty list for the other two. The source's test
`todosJson ? JSON.parse(todosJson) : []` also maps an empty stored string to
`[]`, so that case is folded into `Absent`.

Both storage calls can reject, and the service catches both. Each call
therefore takes two flags:

- `read`: whether this call's read went through. `getTodos` returns `[]`
  when it did not, and the cell keeps its contents. A rejected read
  belongs to one call only; the next call reads the same cell afresh.
- `written`: whether this call's write went through. When it did not, the
  cell is left unchanged, the operation still completes normally, and
  `addTodo` still returns the new task.

A call whose read rejects and whose write succeeds works on an empty list
and writes the result back. The stored tasks are lost:
`RejectedReadDropsStoredList` proves this. For example, `toggleTodo` on a
stored `[a]` then stores `[]`. For the same reason, after a successful
mutation an `Unparsable` snapshot is replaced by the result of working on
an empty list.

The task screen copies each change onto its own in-memory list whether or
not the write went through. After a failed write, that list and storage
therefore differ. `RunSession` pins down what storage holds:

- the replay of exactly the calls whose writes succeeded, provided no call
  wrote after a rejected read;
- otherwise, the replay on the empty list of the calls from the last such
  call on.

The task screen refuses blank input before calling `addTodo`
(`app/(tabs)/todos.tsx`, line 35). `addTodo` itself stores whatever `trim`
returns, even the empty string, and never checks for an existing id. The
model follows the service code. Uniqueness is stated only as an invariant the
operations preserve.

## Model

| member | source | states |
|---|---|---|
| Text.SkipWhitespace | services/TodoService.ts:44 | the index where trimming starts: everything skipped is whitespace, and the character found there is not |
| Text.BackOverWhitespace | services/TodoService.ts:44 | the index where trimming ends: everything passed over is whitespace, and the character just before it is not |
| Text.Trim | services/TodoService.ts:44 | the trimmed text has no whitespace at either end, and it is a piece of the input with only whitespace before and after it |
| Text.TrimUnique | services/TodoService.ts:44 | any piece of the input with only whitespace around it and none at its ends equals `Trim` of the input, so `Trim` is fully determined by its contract |
| Text.TrimTight | services/TodoService.ts:44 | text with no whitespace at either end is left unchanged by trimming |
| Text.TrimIdempotent | services/TodoService.ts:44 | trimming the trimmed text again changes nothing |
| Text.TrimEmptyIff | services/TodoService.ts:44 | the trimmed text is empty exactly when the input is all whitespace; the task screen uses this test to reject blank input before calling `addTodo` |
| Todos.Update | services/TodoService.ts:57-59 | the length is preserved; every task whose id matches becomes the given record; every other task is unchanged; every id stays in place; if no id matches, the list is unchanged |
| Todos.Delete | services/TodoService.ts:69 | a task is kept exactly when it was present and its id differs; no task with the id remains; the length drops by the number of tasks with that id; if none matches, the list is unchanged |
| Todos.DeleteKeepsOrder | services/TodoService.ts:69 | the surviving tasks keep their relative order (the result is a subsequence of the input) |
| Todos.DeleteIdempotent | services/TodoService.ts:69 | deleting the same id a second time changes nothing |
| Todos.Toggle | services/TodoService.ts:79-81 | the length, every id and every text are preserved; a task's flag changes exactly when its id matches; if no id matches, the list is unchanged |
| Todos.ToggleInvolution | services/TodoService.ts:79-81 | toggling the same id twice gives back the original list, even when several tasks share the id |
| Todos.ToggleCommutes | services/TodoService.ts:79-81 | toggles of two ids can be applied in either order |
| Todos.UpdateIdempotent | services/TodoService.ts:57-59 | updating twice with the same record gives the same list as updating once |
| Todos.DeleteAfterToggle | services/TodoService.ts:67-84 | deleting an id after toggling it gives the same list as deleting it straight away |
| Todos.DeleteAfterUpdate | services/TodoService.ts:55-72 | deleting an id after an update to that id gives the same list as deleting it straight away |
| Todos.UpdateTogglePreserveUniqueIds | services/TodoService.ts:55-84 | if ids were unique before an update or a toggle, they are unique after it |
| Todos.DeletePreservesUniqueIds | services/TodoService.ts:69 | if ids were unique before a delete, they are unique after it |
| Todos.AppendFreshPreservesUniqueIds | services/TodoService.ts:42-48 | appending a task whose id is unused keeps the ids unique |
| TodoService.StoredList | services/TodoService.ts:17-18 | a read that goes through yields the stored list when the key holds a parsed list, and the empty list when the key is empty or its text does not parse |
| TodoService.GetTodos | services/TodoService.ts:15-22 | the stored list is returned when the read goes through and the key holds a parsed list; a rejected read, an empty key or unparsable text gives the empty list |
| TodoService.SaveTodos | services/TodoService.ts:28-34 | after a successful write, reading returns exactly the list written (a round trip); a failed write leaves storage unchanged |
| TodoService.AddTodo | services/TodoService.ts:39-50 | the returned task has the given id, the trimmed text and `completed = false`; after a successful write, the stored list is the loaded list with exactly that task appended; after a rejected read or over unparsable text it is that task alone; a failed write changes nothing, but the task is still returned |
| TodoService.UpdateTodo | services/TodoService.ts:55-62 | after a successful write, the stored list is `Update` of the loaded list, and it is unchanged if the read went through and no id matches; after a rejected read or over unparsable text it becomes an empty list; a failed write changes nothing |
| TodoService.DeleteTodo | services/TodoService.ts:67-72 | after a successful write, the stored list is `Delete` of the loaded list, no stored task has the id, the list is no longer than before, and it is unchanged if the read went through and no id matched; after a rejected read or over unparsable text it becomes an empty list; a failed write changes nothing |
| TodoService.ToggleTodo | services/TodoService.ts:77-84 | after a successful write, the stored list is `Toggle` of the loaded list, and it is unchanged if the read went through and no id matches; after a rejected read or over unparsable text it becomes an empty list; a failed write changes nothing |
| TodoService.ToggleTodoTwice | services/TodoService.ts:77-84 | two toggles of the same id whose reads and writes go through leave the stored list as it was |
| TodoService.RejectedReadDropsStoredList | services/TodoService.ts:15-22 | a call whose read rejects and whose write goes through discards every stored task: update, delete and toggle store the empty list, and add stores only the new task |
| TodoService.AddToEmptyStore | services/TodoService.ts:39-50 | adding "Buy milk" to an empty store stores exactly one task: that text, not completed |
| TodoService.AddTrimsText | services/TodoService.ts:44 | the blanks and line break around "Buy milk" are trimmed from the new task's text |
| TodoService.Perform | services/TodoService.ts:39-84 | a service call whose write succeeds stores the list its pure transform computes from the loaded list; a call whose write fails changes nothing |
| TodoService.SessionReplaysKept | services/TodoService.ts:15-84 | after a sequence of awaited calls in which no call wrote after a rejected read, the stored list equals the initial stored list with exactly the calls whose writes succeeded replayed in order; whatever the reads did, with no successful write storage is untouched, and with any successful write it holds a parsed list |
| TodoService.SessionAfterBlindWrite | services/TodoService.ts:15-22 | after the last call that wrote following a rejected read, the stored list is the replay on the empty list of the calls from that one on whose writes succeeded |
| TodoService.RunSession | services/TodoService.ts:15-84 | after a sequence of awaited calls in which no call wrote after a rejected read, the stored list equals the initial stored list with exactly the calls whose writes succeeded replayed in order; if every read and write succeeded, every call is reflected; after a call that wrote following a rejected read, only the calls from the last such one on are reflected, starting from the empty list; if no write succeeded, storage is untouched; if any did, storage holds a parsed list |

## Left out

- AsyncStorage itself, the async/await plumbing and `console.error` logging
  are not modelled. Storage is the `Snapshot` value. A rejected read or write
  is the `read` or `written` flag of the call it belongs to.
- JSON serialisation is treated as a foreign library and assumed to round-trip.
  A stored value that parses to something other than an array of tasks is not
  modelled. A parse failure appears only as `Unparsable`.
- `Date.now().toString()` is a clock read. It becomes the `id` parameter of
  `AddTodo`.
- Interleaved calls that are not awaited, and the read-modify-write race
  between them, are not modelled. `RunSession` issues its calls strictly one
  after another.
- The storage key `@todos` is not modelled: the single cell stands for it.
- JavaScript strings are sequences of UTF-16 code units, while the model's
  strings are sequences of Unicode scalar values. Ids or texts holding an
  unpaired surrogate have no counterpart in the model. Trimming is
  unaffected, since every whitespace character is a single code unit.
- `components/TodoItem.tsx` is presentation only. The screen in
  `app/(tabs)/todos.tsx` is not part of this model, apart from its trim guard,
  which `TrimEmptyIff` states.
