# Enhanced todo list: the task-list core

The application keeps a list of todo tasks in a JSON data file. Every add or
toggle request loads the whole list, changes it in memory, and writes the whole
list back; a list request only loads it. This project models the in-memory part of that cycle and
proves properties of it:

- **add** appends one new task. Its ID is the number of existing tasks plus one,
  and it starts not done.
- **toggle** scans the list from the front and flips the completion flag of the
  first task whose ID matches. It then stops. If no task matches, nothing changes.
- a missing data file loads as the empty list, which is the starting state.

`todo_list.dfy` (module `TodoList`) holds the `Task` record and the two
operations:

- `Add` is a pure function.
- `Toggle` is a recursive function. It has a reference definition through
  `FirstMatch`, the position of the first task with a given ID.
- `ToggleTaskDone` is the application's loop, written as a method that leaves
  the loop with `break` after the first flip. It is proved equal to `Toggle`.

`task_store.dfy` (module `TaskStore`) models the data file as
`Option<seq<Task>>`. `None` means the file does not exist. Each request is one
load, transform and save step (`Apply`). A sequence of requests is `Run`. On
top of these it proves four things:

- starting from a missing file, the IDs are always exactly `1..n` in position
  order, so they are unique;
- the list grows by one task per add;
- on a list whose IDs are 1..n (every state reachable from a missing file), each
  existing task's `done` flag equals its starting value flipped once for every
  toggle of its ID;
- starting from a missing file, a task created by an add ends with `done` set
  exactly when its ID was toggled an odd number of times after the add.

The creation time and the deadline are `Instant` stamps supplied by the
caller; the model never inspects them.

## Model

| member | source | states |
|---|---|---|
| TodoList.Add | enhancedTodoList.go:68-81 | the result is the old list with one record appended: length grows by one, every earlier record is unchanged, and the new record has ID = old length + 1, done = false, and the given title, type, creation time and deadline |
| TodoList.AddKeepsSequentialIds | enhancedTodoList.go:70-78 | if the IDs were 1..n in order, after an add they are 1..n+1 in order |
| TodoList.AddFreshId | enhancedTodoList.go:70-78 | on a list with IDs 1..n, the new ID n+1 is carried by no existing record, and toggling it afterwards flips only the new record |
| TodoList.Flip | enhancedTodoList.go:88 | inverting the completion flag keeps ID, title, type, creation time and deadline |
| TodoList.FirstMatch | enhancedTodoList.go:86-90 | returns the first position whose ID matches (every earlier position differs), and returns none exactly when no record carries the ID |
| TodoList.Toggle | enhancedTodoList.go:84-94 | length is preserved; the record at the first matching position is flipped and every other record, including later ones with the same ID, is unchanged; with no match the list is returned unchanged |
| TodoList.ToggleAtMatch | enhancedTodoList.go:86-89 | when the first match is at position k, toggle is exactly the update of position k with its flag inverted |
| TodoList.FirstMatchAppend | enhancedTodoList.go:86-89 | a record appended at the end is the first match for its ID when no earlier record carries that ID |
| TodoList.ToggleAppended | enhancedTodoList.go:86-89 | toggling the ID of such an appended record flips that record and leaves the earlier ones unchanged |
| TodoList.ToggleTaskDone | enhancedTodoList.go:84-94 | the in-order scan that flips the first match and breaks computes exactly `Toggle` |
| TodoList.ToggleKeepsFields | enhancedTodoList.go:88 | toggle changes no ID, title, type, creation time or deadline, and no length; only `done` can change |
| TodoList.ToggleSkipsLaterDuplicates | enhancedTodoList.go:86-90 | when two records share the toggled ID, the later one is left alone |
| TodoList.FirstMatchAfterToggle | enhancedTodoList.go:86-88 | toggling leaves the first-match position of every ID unchanged |
| TodoList.ToggleTwice | enhancedTodoList.go:88 | toggling the same ID twice gives back the original list |
| TodoList.FirstMatchSequential | enhancedTodoList.go:86-89 | on a list with IDs 1..n, ID k is found at position k-1 when 1 <= k <= n and not at all otherwise |
| TodoList.ToggleSequential | enhancedTodoList.go:84-94 | toggle keeps IDs 1..n, and on such a list it flips exactly the record at position id-1 |
| TaskStore.Load | enhancedTodoList.go:45-53 | a missing file reads as the empty list; an existing one as the records last saved |
| TaskStore.RunConcat | enhancedTodoList.go:68-94 | serving one batch of requests and then another is the same as serving them as one sequence |
| TaskStore.Apply | enhancedTodoList.go:68-94 | after any request the data file exists; an add makes the list one record longer and a toggle keeps its length |
| TaskStore.RunLength | enhancedTodoList.go:68-94 | after a sequence of requests the list has grown by exactly the number of adds |
| TaskStore.RunKeepsSequentialIds | enhancedTodoList.go:68-94 | any sequence of adds and toggles keeps IDs 1..n in position order |
| TaskStore.FromMissingFile | enhancedTodoList.go:45-50 | starting with no data file, any sequence of adds and toggles yields one record per add, with IDs exactly 1..n in order and pairwise distinct |
| TaskStore.ApplyStep | enhancedTodoList.go:68-94 | one request on a list with IDs 1..n keeps that shape, and an existing record keeps every field except `done`, which flips exactly when the request toggles its ID |
| TaskStore.CreatedTaskDoneParity | enhancedTodoList.go:68-94 | starting with no data file, the add at position k of the requests creates the record at position n (the number of earlier adds), which ends with ID n+1, the add's title, type and times, and `done` set exactly when ID n+1 was toggled an odd number of times after the add |
| TaskStore.RunDoneParity | enhancedTodoList.go:84-94 | on a list with IDs 1..n, over any sequence of requests, an existing record keeps every field except `done`, and `done` ends up flipped exactly when its ID was toggled an odd number of times |

## Left out

- Reading and writing the data file (enhancedTodoList.go:45-60) is not modelled. The file is `Option<seq<Task>>`, and a save followed by a load is taken to return the same records.
- JSON decoding errors are not modelled. The application ignores them and keeps whatever was decoded, possibly nothing (enhancedTodoList.go:52).
- Write errors on save are not modelled. The application ignores them (enhancedTodoList.go:58-59).
- `parseDate` (enhancedTodoList.go:137-143) is not modelled. It wraps the date parser and falls back to the current time, so the deadline reaches `Add` as an already-computed `Instant`.
- `time.Now()` for the creation time (enhancedTodoList.go:74) is not modelled, because it reads the clock. It is the `now` parameter of `Add`.
- `getTasks` (enhancedTodoList.go:63-65) only returns the loaded list. It is `TaskStore.Load`.
- Window setup and asset loading are not modelled: `main`, `loadHTML`, main.go and assets/main.js. They are UI plumbing over a native toolkit.
- Go's `int` is at least 32 bits wide and the model's IDs are unbounded. `len(tasks) + 1` cannot wrap, because a slice of `Task` values never holds `MaxInt` elements.
- Delete, completion timestamps and a retention sweep do not appear in enhancedTodoList.go and are not modelled.
